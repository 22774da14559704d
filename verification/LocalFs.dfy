/** The local store: one file for the contents of a record and one for its metadata, written in
    steps any of which may be the last. */
module LocalFs {
  import opened Text

  type Bytes = seq<int>

  /** A metadata file holds the whole JSON text or, after an interrupted write, only part of it. */
  datatype MetaFile = Whole | Partial

  datatype Files = Files(data: map<string, Bytes>, meta: map<string, MetaFile>)

  predicate TempName(name: string) {
    name != "" && forall i :: 0 <= i < |name| ==> '0' <= name[i] <= '9'
  }

  /** Records are named by the hash of their canonical bytes, and no hash looks like a temporary name. */
  ghost predicate Naming(hash: Bytes -> string) {
    forall b :: hash(b) != "" && !TempName(hash(b))
  }

  ghost predicate Injective(hash: Bytes -> string) {
    forall a, b :: hash(a) == hash(b) ==> a == b
  }

  /** The last thing a Push gets done. */
  datatype Stop = BeforeTemp | PartWritten(n: nat) | BeforeRename | BeforeMeta | PartMeta | Completed

  datatype Error = NotFound | Internal

  // ---------------------------------------------------------------- operations

  /** Metadata is found when its file is there and decodes. */
  function Lookup(f: Files, cid: string): Result<(), Error> {
    if cid !in f.meta then Err(NotFound) else if f.meta[cid] == Partial then Err(Internal) else Ok(())
  }

  function Pull(f: Files, cid: string): Result<Bytes, Error> {
    if cid in f.data then Ok(f.data[cid]) else Err(NotFound)
  }

  function Prefix(b: Bytes, n: nat): Bytes {
    if n <= |b| then b[..n] else b
  }

  function PushEffect(hash: Bytes -> string, f: Files, b: Bytes, temp: string, stop: Stop): Files {
    var cid := hash(b);
    if Lookup(f, cid).Ok? then f
    else
      match stop
      case BeforeTemp => f
      case PartWritten(n) => f.(data := f.data[temp := Prefix(b, n)])
      case BeforeRename => f.(data := f.data[temp := b])
      case BeforeMeta => f.(data := (f.data - {temp})[cid := b])
      case PartMeta => Files((f.data - {temp})[cid := b], f.meta[cid := Partial])
      case Completed => Files((f.data - {temp})[cid := b], f.meta[cid := Whole])
  }

  predicate PushSucceeds(hash: Bytes -> string, f: Files, b: Bytes, stop: Stop) {
    stop == Completed || Lookup(f, hash(b)).Ok?
  }

  /** `between` says that the call stops between its two removals. */
  function DeleteEffect(f: Files, cid: string, between: bool): Files {
    if cid !in f.data then f
    else if between then f.(data := f.data - {cid})
    else Files(f.data - {cid}, f.meta - {cid})
  }

  class Store {
    var dataFs: map<string, Bytes>
    var metaFs: map<string, MetaFile>
    const hash: Bytes -> string

    constructor (h: Bytes -> string)
      ensures dataFs == map[] && metaFs == map[] && hash == h
    {
      dataFs, metaFs, hash := map[], map[], h;
    }

    ghost function Now(): Files
      reads this
    {
      Files(dataFs, metaFs)
    }

    /** `bytes` is None for a record that has no canonical form, and so no CID. */
    method Push(bytes: Option<Bytes>, temp: string, stop: Stop) returns (r: Result<string, Error>)
      requires TempName(temp) && temp !in dataFs && Naming(hash)
      modifies this
      ensures bytes.None? ==> r == Err(Internal) && Now() == old(Now())
      ensures bytes.Some? ==> Now() == PushEffect(hash, old(Now()), bytes.value, temp, stop)
      ensures bytes.Some? ==> r == if PushSucceeds(hash, old(Now()), bytes.value, stop) then Ok(hash(bytes.value))
              else Err(Internal)
    {
      if bytes.None? {
        return Err(Internal);
      }
      var b, cid := bytes.value, hash(bytes.value);
      if Lookup(Files(dataFs, metaFs), cid).Ok? {
        return Ok(cid);
      }
      if stop == BeforeTemp {
        return Err(Internal);
      }
      dataFs := dataFs[temp := []];
      if stop.PartWritten? {
        dataFs := dataFs[temp := Prefix(b, stop.n)];
        return Err(Internal);
      }
      dataFs := dataFs[temp := b];
      if stop == BeforeRename {
        return Err(Internal);
      }
      dataFs := dataFs[cid := dataFs[temp]] - {temp};
      assert dataFs == (old(dataFs) - {temp})[cid := b];
      if stop == BeforeMeta {
        return Err(Internal);
      }
      metaFs := metaFs[cid := Partial];
      if stop == PartMeta {
        return Err(Internal);
      }
      metaFs := metaFs[cid := Whole];
      return Ok(cid);
    }

    method Delete(cid: string, between: bool) returns (r: Result<(), Error>)
      modifies this
      ensures Now() == DeleteEffect(old(Now()), cid, between)
      ensures r.Ok? <==> cid in old(dataFs) && cid in old(metaFs) && !between
    {
      if cid !in dataFs {
        return Err(NotFound);
      }
      dataFs := dataFs - {cid};
      if between {
        return Err(Internal);
      }
      if cid !in metaFs {
        assert metaFs - {cid} == metaFs;
        return Err(NotFound);
      }
      metaFs := metaFs - {cid};
      return Ok(());
    }
  }

  // ---------------------------------------------------------------- runs

  datatype Step = PushStep(bytes: Bytes, temp: string, stop: Stop) | DeleteStep(cid: string, between: bool)

  ghost predicate CanStep(f: Files, step: Step) {
    step.PushStep? ==> TempName(step.temp) && step.temp !in f.data
  }

  function Apply(hash: Bytes -> string, f: Files, step: Step): Files {
    match step
    case PushStep(b, temp, stop) => PushEffect(hash, f, b, temp, stop)
    case DeleteStep(cid, between) => DeleteEffect(f, cid, between)
  }

  ghost predicate IsRun(hash: Bytes -> string, states: seq<Files>, steps: seq<Step>) {
    && Naming(hash)
    && |states| == |steps| + 1
    && forall i :: 0 <= i < |steps| ==>
          CanStep(states[i], steps[i]) && states[i + 1] == Apply(hash, states[i], steps[i])
  }

  /** No Delete was cut short. */
  ghost predicate Uncut(steps: seq<Step>) {
    forall i :: 0 <= i < |steps| && steps[i].DeleteStep? ==> !steps[i].between
  }

  /** Contents match their names, and metadata is never without contents. */
  ghost predicate Inv(hash: Bytes -> string, f: Files) {
    && (forall c :: c in f.data ==> TempName(c) || hash(f.data[c]) == c)
    && (forall c :: c in f.meta ==> c in f.data && hash(f.data[c]) == c)
  }

  lemma PushKeepsInv(hash: Bytes -> string, f: Files, b: Bytes, temp: string, stop: Stop)
    requires Naming(hash) && Inv(hash, f) && TempName(temp) && temp !in f.data
    ensures Inv(hash, PushEffect(hash, f, b, temp, stop))
  {
  }

  /** A Delete keeps the invariant exactly when it is not cut short on a record with metadata. */
  lemma DeleteKeepsInv(hash: Bytes -> string, f: Files, cid: string, between: bool)
    requires Naming(hash) && Inv(hash, f)
    ensures Inv(hash, DeleteEffect(f, cid, between)) <==> !(between && cid in f.meta)
  {
    var f' := DeleteEffect(f, cid, between);
    if between && cid in f.meta {
      assert cid in f'.meta && cid !in f'.data;
    }
  }

  /** In every run whose Pushes may stop anywhere, each metadata file has a contents file that hashes
      to its name. */
  lemma {:induction false} InvInRuns(hash: Bytes -> string, states: seq<Files>, steps: seq<Step>, i: nat)
    requires IsRun(hash, states, steps) && Uncut(steps) && Inv(hash, states[0]) && i < |states|
    ensures Inv(hash, states[i])
  {
    if i > 0 {
      InvInRuns(hash, states, steps, i - 1);
      match steps[i - 1]
      case PushStep(b, temp, stop) => PushKeepsInv(hash, states[i - 1], b, temp, stop);
      case DeleteStep(cid, between) => DeleteKeepsInv(hash, states[i - 1], cid, between);
    }
  }

  ghost predicate NotDeleted(steps: seq<Step>, from: nat, to: nat, cid: string) {
    forall i :: from <= i < to && i < |steps| ==>
      steps[i] != DeleteStep(cid, false) && steps[i] != DeleteStep(cid, true)
  }

  /** Until it is deleted, a record with whole metadata stays as it is. */
  lemma {:induction false} StoredStays(hash: Bytes -> string, states: seq<Files>, steps: seq<Step>, i: nat, j: nat,
                                       cid: string)
    requires IsRun(hash, states, steps) && i <= j < |states| && NotDeleted(steps, i, j, cid)
    requires Lookup(states[i], cid).Ok? && cid in states[i].data && !TempName(cid)
    ensures Lookup(states[j], cid).Ok? && cid in states[j].data && states[j].data[cid] == states[i].data[cid]
    decreases j
  {
    if i < j {
      StoredStays(hash, states, steps, i, j - 1, cid);
      assert CanStep(states[j - 1], steps[j - 1]);
      assert states[j] == Apply(hash, states[j - 1], steps[j - 1]);
    }
  }

  lemma PushStores(hash: Bytes -> string, f: Files, b: Bytes, temp: string, stop: Stop)
    requires Naming(hash) && Inv(hash, f) && TempName(temp) && temp !in f.data
    ensures var f' := PushEffect(hash, f, b, temp, stop);
            PushSucceeds(hash, f, b, stop) <==> Lookup(f', hash(b)).Ok?
    ensures var f' := PushEffect(hash, f, b, temp, stop);
            PushSucceeds(hash, f, b, stop) ==> Pull(f', hash(b)).Ok? && hash(Pull(f', hash(b)).value) == hash(b)
  {
  }

  /** After a successful Push, and until the record is deleted, Pull gives back the bytes pushed. */
  lemma PushedCanBePulled(hash: Bytes -> string, states: seq<Files>, steps: seq<Step>, i: nat, j: nat)
    requires IsRun(hash, states, steps) && Uncut(steps) && Inv(hash, states[0]) && Injective(hash)
    requires i < j < |states| && steps[i].PushStep? && PushSucceeds(hash, states[i], steps[i].bytes, steps[i].stop)
    requires NotDeleted(steps, i, j, hash(steps[i].bytes))
    ensures Pull(states[j], hash(steps[i].bytes)) == Ok(steps[i].bytes)
    ensures Lookup(states[j], hash(steps[i].bytes)).Ok?
  {
    var step := steps[i];
    InvInRuns(hash, states, steps, i);
    assert CanStep(states[i], step) && states[i + 1] == Apply(hash, states[i], step);
    PushStores(hash, states[i], step.bytes, step.temp, step.stop);
    StoredStays(hash, states, steps, i + 1, j, hash(step.bytes));
  }

  /** A successful Delete leaves nothing of a record, and nothing comes back until it is pushed again. */
  lemma {:induction false} DeletedStaysGone(hash: Bytes -> string, states: seq<Files>, steps: seq<Step>, i: nat,
                                            j: nat, cid: string)
    requires IsRun(hash, states, steps) && i < j < |states| && !TempName(cid)
    requires steps[i] == DeleteStep(cid, false) && cid in states[i].data
    requires forall n :: i < n < j && steps[n].PushStep? ==> hash(steps[n].bytes) != cid
    ensures Pull(states[j], cid) == Err(NotFound) && Lookup(states[j], cid) == Err(NotFound)
    decreases j
  {
    if i + 1 < j {
      DeletedStaysGone(hash, states, steps, i, j - 1, cid);
    }
    assert CanStep(states[j - 1], steps[j - 1]);
    assert states[j] == Apply(hash, states[j - 1], steps[j - 1]);
  }

  /** A Push that stops after the rename leaves a record that can be pulled and not looked up; one that stops
      before it leaves neither file changed. */
  lemma PartlyPushed(hash: Bytes -> string, f: Files, b: Bytes, temp: string, stop: Stop)
    requires Naming(hash) && TempName(temp) && temp !in f.data && Lookup(f, hash(b)).Err?
    ensures var f' := PushEffect(hash, f, b, temp, stop);
            && (stop.BeforeMeta? || stop.PartMeta? ==> Pull(f', hash(b)) == Ok(b) && Lookup(f', hash(b)).Err?)
            && (stop.BeforeTemp? || stop.PartWritten? || stop.BeforeRename? ==>
                  forall c :: !TempName(c) ==> Pull(f', c) == Pull(f, c) && Lookup(f', c) == Lookup(f, c))
  {
  }

  /** However earlier Pushes ended, one that completes puts the record in place; and whatever a broken
      Push left, no record other than its own is touched. */
  lemma RetryRepairs(hash: Bytes -> string, states: seq<Files>, steps: seq<Step>, i: nat, b: Bytes, temp: string)
    requires IsRun(hash, states, steps) && Uncut(steps) && Inv(hash, states[0]) && Injective(hash) && i < |states|
    requires TempName(temp) && temp !in states[i].data
    ensures var f' := PushEffect(hash, states[i], b, temp, Completed);
            && Pull(f', hash(b)) == Ok(b) && Lookup(f', hash(b)).Ok?
            && forall c :: c != hash(b) && !TempName(c) ==>
                  Pull(f', c) == Pull(states[i], c) && Lookup(f', c) == Lookup(states[i], c)
  {
    InvInRuns(hash, states, steps, i);
    PushStores(hash, states[i], b, temp, Completed);
  }

  /** Whole metadata with no contents. */
  predicate Stuck(f: Files, cid: string) {
    Lookup(f, cid).Ok? && cid !in f.data
  }

  /** A Delete cut short on a stored record leaves it stuck. */
  lemma CutDeleteSticks(f: Files, cid: string)
    ensures Stuck(DeleteEffect(f, cid, true), cid) <==> Lookup(f, cid).Ok?
  {
  }

  /** Nothing the store offers gets a stuck record unstuck: a Push reports success and writes nothing,
      a Delete fails, and Pull never finds it. */
  lemma {:induction false} StuckForever(hash: Bytes -> string, states: seq<Files>, steps: seq<Step>, i: nat, j: nat,
                                        cid: string)
    requires IsRun(hash, states, steps) && i <= j < |states| && !TempName(cid) && Stuck(states[i], cid)
    ensures Stuck(states[j], cid) && Pull(states[j], cid) == Err(NotFound)
    ensures forall b, stop :: hash(b) == cid ==> PushSucceeds(hash, states[j], b, stop)
    decreases j
  {
    if i < j {
      StuckForever(hash, states, steps, i, j - 1, cid);
      assert CanStep(states[j - 1], steps[j - 1]);
      assert states[j] == Apply(hash, states[j - 1], steps[j - 1]);
    }
  }
}
