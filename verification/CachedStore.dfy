/** The caching wrapper around a content-addressed store, and the store it must be mistaken for. */
module CachedStore {
  import opened Text
  import Annotations

  type RecordMeta = Annotations.RecordMeta

  /** What is fixed about records: their CID, empty when none can be computed, and the metadata that
      the source derives from them. */
  datatype World<!R(!new)> = World(cidOf: R -> string, metaOf: R -> RecordMeta) {
    ghost predicate WellFormed() {
      forall r :: (cidOf(r) == "" || CleanComponent(cidOf(r))) && metaOf(r).cid == cidOf(r)
    }
  }

  /** A cached value: record bytes or metadata JSON. Neither decodes as the other. */
  datatype Entry<R> = RecordEntry(record: R) | MetaEntry(meta: RecordMeta)

  /** The source by CID, and the cache by datastore key. */
  datatype State<R> = State(source: map<string, R>, cache: map<string, Entry<R>>)

  function RecordKey(cid: string): string {
    NewKey("/record/" + cid)
  }

  function MetaKey(cid: string): string {
    NewKey("/meta/" + cid)
  }

  /** One call, with what the source and the cache datastore do during it. A source write may take
      effect and still be reported as failed; a Push reported as done has taken effect. */
  datatype Op<R> =
    | Push(record: R, stored: bool, reported: bool, putOk: bool)
    | Pull(cid: string, getOk: bool, putOk: bool)
    | Lookup(cid: string, getOk: bool, putOk: bool)
    | Delete(cid: string, recordCleared: bool, metaCleared: bool, removed: bool, reported: bool)

  datatype Answer<R> = Failed | Pushed(cid: string) | Pulled(record: R) | Found(meta: RecordMeta) | Deleted

  /** Records are compared by CID, everything else as it is. */
  ghost predicate SameAnswer<R(!new)>(w: World<R>, a: Answer<R>, b: Answer<R>) {
    if a.Pulled? && b.Pulled? then w.cidOf(a.record) == w.cidOf(b.record) else a == b
  }

  // ---------------------------------------------------------------- the source

  /** A content-addressed source: the first record pushed under a CID stays. */
  function Stored<R(!new)>(w: World<R>, source: map<string, R>, r: R, stored: bool): map<string, R> {
    if w.cidOf(r) == "" || !stored || w.cidOf(r) in source then source else source[w.cidOf(r) := r]
  }

  predicate PushSucceeds<R(!new)>(w: World<R>, source: map<string, R>, op: Op<R>)
    requires op.Push?
  {
    w.cidOf(op.record) != "" && op.reported && w.cidOf(op.record) in Stored(w, source, op.record, op.stored)
  }

  /** What the source answers by itself. */
  function BareStep<R(!new)>(w: World<R>, source: map<string, R>, op: Op<R>): (map<string, R>, Answer<R>) {
    match op
    case Push(r, stored, _, _) =>
      (Stored(w, source, r, stored), if PushSucceeds(w, source, op) then Pushed(w.cidOf(r)) else Failed)
    case Pull(cid, _, _) => (source, if cid in source then Pulled(source[cid]) else Failed)
    case Lookup(cid, _, _) => (source, if cid in source then Found(w.metaOf(source[cid])) else Failed)
    case Delete(cid, _, _, removed, reported) =>
      (if removed then source - {cid} else source, if reported then Deleted else Failed)
  }

  // ---------------------------------------------------------------- the cache on top

  function CachedRecord<R>(cache: map<string, Entry<R>>, cid: string, getOk: bool): Option<R> {
    var k := RecordKey(cid);
    if getOk && k in cache && cache[k].RecordEntry? then Some(cache[k].record) else None
  }

  function CachedMeta<R>(cache: map<string, Entry<R>>, cid: string, getOk: bool): Option<RecordMeta> {
    var k := MetaKey(cid);
    if getOk && k in cache && cache[k].MetaEntry? then Some(cache[k].meta) else None
  }

  function WithRecord<R(!new)>(w: World<R>, cache: map<string, Entry<R>>, r: R, putOk: bool): map<string, Entry<R>> {
    if w.cidOf(r) == "" || !putOk then cache else cache[RecordKey(w.cidOf(r)) := RecordEntry(r)]
  }

  function WithMeta<R>(cache: map<string, Entry<R>>, m: RecordMeta, putOk: bool): map<string, Entry<R>> {
    if m.cid == "" || !putOk then cache else cache[MetaKey(m.cid) := MetaEntry(m)]
  }

  function Cleared<R>(cache: map<string, Entry<R>>, cid: string, recordCleared: bool, metaCleared: bool)
    : map<string, Entry<R>>
  {
    cache - (if recordCleared then {RecordKey(cid)} else {}) - (if metaCleared then {MetaKey(cid)} else {})
  }

  function CachedStep<R(!new)>(w: World<R>, s: State<R>, op: Op<R>): (State<R>, Answer<R>) {
    var (source, answer) := BareStep(w, s.source, op);
    match op
    case Push(r, _, _, putOk) =>
      (State(source, if answer.Failed? then s.cache else WithRecord(w, s.cache, r, putOk)), answer)
    case Pull(cid, getOk, putOk) =>
      if CachedRecord(s.cache, cid, getOk).Some? then (s, Pulled(CachedRecord(s.cache, cid, getOk).value))
      else (State(source, if answer.Failed? then s.cache else WithRecord(w, s.cache, s.source[cid], putOk)), answer)
    case Lookup(cid, getOk, putOk) =>
      if CachedMeta(s.cache, cid, getOk).Some? then (s, Found(CachedMeta(s.cache, cid, getOk).value))
      else (State(source, if answer.Failed? then s.cache else WithMeta(s.cache, w.metaOf(s.source[cid]), putOk)),
            answer)
    case Delete(cid, recordCleared, metaCleared, _, _) =>
      (State(source, Cleared(s.cache, cid, recordCleared, metaCleared)), answer)
  }

  class Store<R(!new)> {
    var source: map<string, R>
    var cache: map<string, Entry<R>>
    const world: World<R>

    constructor (w: World<R>)
      ensures source == map[] && cache == map[] && world == w
    {
      source, cache, world := map[], map[], w;
    }

    ghost function Now(): State<R>
      reads this
    {
      State(source, cache)
    }

    method CacheRecord(r: R, putOk: bool)
      modifies this`cache
      ensures cache == WithRecord(world, old(cache), r, putOk)
    {
      var cid := world.cidOf(r);
      if cid != "" && putOk {
        cache := cache[RecordKey(cid) := RecordEntry(r)];
      }
    }

    method CacheMeta(m: RecordMeta, putOk: bool)
      modifies this`cache
      ensures cache == WithMeta(old(cache), m, putOk)
    {
      if m.cid != "" && putOk {
        cache := cache[MetaKey(m.cid) := MetaEntry(m)];
      }
    }

    method Push(r: R, stored: bool, reported: bool, putOk: bool) returns (answer: Answer<R>)
      modifies this
      ensures (Now(), answer) == CachedStep(world, old(Now()), Op.Push(r, stored, reported, putOk))
    {
      var cid := world.cidOf(r);
      source := Stored(world, source, r, stored);
      if cid == "" || !reported || cid !in source {
        return Failed;
      }
      CacheRecord(r, putOk);
      return Pushed(cid);
    }

    method Pull(cid: string, getOk: bool, putOk: bool) returns (answer: Answer<R>)
      modifies this
      ensures (Now(), answer) == CachedStep(world, old(Now()), Op.Pull(cid, getOk, putOk))
    {
      var cached := CachedRecord(cache, cid, getOk);
      if cached.Some? {
        return Pulled(cached.value);
      }
      if cid !in source {
        return Failed;
      }
      CacheRecord(source[cid], putOk);
      return Pulled(source[cid]);
    }

    method Lookup(cid: string, getOk: bool, putOk: bool) returns (answer: Answer<R>)
      modifies this
      ensures (Now(), answer) == CachedStep(world, old(Now()), Op.Lookup(cid, getOk, putOk))
    {
      var cached := CachedMeta(cache, cid, getOk);
      if cached.Some? {
        return Found(cached.value);
      }
      if cid !in source {
        return Failed;
      }
      CacheMeta(world.metaOf(source[cid]), putOk);
      return Found(world.metaOf(source[cid]));
    }

    method Delete(cid: string, recordCleared: bool, metaCleared: bool, removed: bool, reported: bool)
      returns (answer: Answer<R>)
      modifies this
      ensures (Now(), answer) == CachedStep(world, old(Now()),
                                            Op.Delete(cid, recordCleared, metaCleared, removed, reported))
    {
      if recordCleared {
        cache := cache - {RecordKey(cid)};
      }
      if metaCleared {
        cache := cache - {MetaKey(cid)};
      }
      assert cache == Cleared(old(cache), cid, recordCleared, metaCleared);
      if removed {
        source := source - {cid};
      }
      return if reported then Deleted else Failed;
    }
  }

  // ---------------------------------------------------------------- keys

  lemma UnderDirectory(dir: string, cid: string)
    requires CleanComponent(dir) && CleanComponent(cid)
    ensures NewKey("/" + dir + "/" + cid) == "/" + dir + "/" + cid
  {
    var k := "/" + dir + "/" + cid;
    UnderRoot(dir, cid);
    SplitAtom(cid, '/');
    assert Split(k, '/')[1..] == [dir, cid];
    NewKeyFixed(k);
  }

  lemma CleanKeys(cid: string)
    requires CleanComponent(cid)
    ensures RecordKey(cid) == "/record/" + cid && MetaKey(cid) == "/meta/" + cid
  {
    assert "/" + "record" + "/" + cid == "/record/" + cid && "/" + "meta" + "/" + cid == "/meta/" + cid;
    UnderDirectory("record", cid);
    UnderDirectory("meta", cid);
  }

  /** No two entries share a key. */
  lemma KeysApart(c: string, d: string)
    requires CleanComponent(c) && CleanComponent(d)
    ensures RecordKey(c) != MetaKey(d)
    ensures RecordKey(c) == RecordKey(d) || MetaKey(c) == MetaKey(d) ==> c == d
  {
    CleanKeys(c);
    CleanKeys(d);
    assert RecordKey(c)[1] == 'r' && MetaKey(d)[1] == 'm';
    assert RecordKey(c)[8..] == c && RecordKey(d)[8..] == d && MetaKey(c)[6..] == c && MetaKey(d)[6..] == d;
  }

  /** The CID that a requested name is read as, when cleaning turns it into another one's key. */
  function ReadAs(dir: string, name: string): string {
    var k := NewKey("/" + dir + "/" + name);
    if |k| > |dir| + 2 && "/" + dir + "/" <= k then k[|dir| + 2..] else name
  }

  /** A name that the datastore key does not lead back to, such as `x/../<cid>`. */
  predicate Astray(dir: string, name: string) {
    ReadAs(dir, name) != name
  }

  lemma ReadAsKey(dir: string, name: string, cid: string)
    requires NewKey("/" + dir + "/" + name) == "/" + dir + "/" + cid && cid != ""
    ensures ReadAs(dir, name) == cid
  {
    assert ("/" + dir + "/" + cid)[|dir| + 2..] == cid;
  }

  lemma CleanNamesNotAstray(cid: string)
    requires CleanComponent(cid)
    ensures !Astray("record", cid) && !Astray("meta", cid)
  {
    UnderDirectory("record", cid);
    ReadAsKey("record", cid, cid);
    UnderDirectory("meta", cid);
    ReadAsKey("meta", cid, cid);
  }

  lemma ReadAsRecord(name: string, cid: string)
    requires CleanComponent(cid) && RecordKey(name) == RecordKey(cid)
    ensures ReadAs("record", name) == cid
  {
    CleanKeys(cid);
    assert "/" + "record" + "/" + name == "/record/" + name;
    ReadAsKey("record", name, cid);
  }

  lemma ReadAsMeta(name: string, cid: string)
    requires CleanComponent(cid) && MetaKey(name) == MetaKey(cid)
    ensures ReadAs("meta", name) == cid
  {
    CleanKeys(cid);
    assert "/" + "meta" + "/" + name == "/meta/" + name;
    ReadAsKey("meta", name, cid);
  }

  // ---------------------------------------------------------------- refinement

  ghost predicate EntryOk<R(!new)>(w: World<R>, source: map<string, R>, k: string, e: Entry<R>) {
    match e
    case RecordEntry(r) =>
      var cid := w.cidOf(r);
      CleanComponent(cid) && k == RecordKey(cid) && cid in source
    case MetaEntry(m) =>
      CleanComponent(m.cid) && k == MetaKey(m.cid) && m.cid in source && m == w.metaOf(source[m.cid])
  }

  /** Whatever is cached is still in the source, under the same name. */
  ghost predicate Coherent<R(!new)>(w: World<R>, s: State<R>) {
    && (forall c :: c in s.source ==> CleanComponent(c) && w.cidOf(s.source[c]) == c)
    && (forall k :: k in s.cache ==> EntryOk(w, s.source, k, s.cache[k]))
  }

  /** A call whose cache deletes succeed, and that reads under a name that leads to its own key. */
  predicate Plain<R>(op: Op<R>) {
    match op
    case Push(_, _, _, _) => true
    case Pull(cid, _, _) => !Astray("record", cid)
    case Lookup(cid, _, _) => !Astray("meta", cid)
    case Delete(_, recordCleared, metaCleared, _, _) => recordCleared && metaCleared
  }

  lemma PushAgrees<R(!new)>(w: World<R>, s: State<R>, op: Op<R>)
    requires w.WellFormed() && Coherent(w, s) && op.Push?
    ensures Coherent(w, CachedStep(w, s, op).0)
  {
  }

  /** A read that finds another CID's entry. */
  predicate StrayHit<R>(cache: map<string, Entry<R>>, op: Op<R>)
    requires op.Pull? || op.Lookup?
  {
    if op.Pull? then Astray("record", op.cid) && CachedRecord(cache, op.cid, op.getOk).Some?
    else Astray("meta", op.cid) && CachedMeta(cache, op.cid, op.getOk).Some?
  }

  /** Reads keep the cache coherent, and agree with the source unless they hit under a stray name. */
  lemma ReadAgrees<R(!new)>(w: World<R>, s: State<R>, op: Op<R>)
    requires w.WellFormed() && Coherent(w, s) && (op.Pull? || op.Lookup?)
    ensures Coherent(w, CachedStep(w, s, op).0)
    ensures SameAnswer(w, CachedStep(w, s, op).1, BareStep(w, s.source, op).1) <==> !StrayHit(s.cache, op)
  {
    if op.cid in s.source {
      CleanNamesNotAstray(op.cid);
    }
    if op.Pull? && CachedRecord(s.cache, op.cid, op.getOk).Some? {
      ReadAsRecord(op.cid, w.cidOf(s.cache[RecordKey(op.cid)].record));
    }
    if op.Lookup? && CachedMeta(s.cache, op.cid, op.getOk).Some? {
      ReadAsMeta(op.cid, s.cache[MetaKey(op.cid)].meta.cid);
    }
  }

  /** Without `cid` in the source, exactly its own two keys go bad. */
  lemma CopyOutlives<R(!new)>(w: World<R>, s: State<R>, k: string, cid: string)
    requires Coherent(w, s) && cid in s.source && k in s.cache
    ensures EntryOk(w, s.source - {cid}, k, s.cache[k]) <==> k != RecordKey(cid) && k != MetaKey(cid)
  {
    var e := s.cache[k];
    assert EntryOk(w, s.source, k, e);
    KeysApart(cid, if e.RecordEntry? then w.cidOf(e.record) else e.meta.cid);
    KeysApart(if e.RecordEntry? then w.cidOf(e.record) else e.meta.cid, cid);
  }

  /** Deleting keeps the cache coherent exactly when, if the record went, its cached copies went too. */
  lemma DeleteCoherent<R(!new)>(w: World<R>, s: State<R>, op: Op<R>)
    requires w.WellFormed() && Coherent(w, s) && op.Delete?
    ensures Coherent(w, CachedStep(w, s, op).0) <==>
            (op.removed && op.cid in s.source ==>
               (op.recordCleared || RecordKey(op.cid) !in s.cache) && (op.metaCleared || MetaKey(op.cid) !in s.cache))
  {
    var s' := CachedStep(w, s, op).0;
    if op.removed && op.cid in s.source {
      forall k | k in s'.cache
        ensures EntryOk(w, s'.source, k, s'.cache[k]) <==> k != RecordKey(op.cid) && k != MetaKey(op.cid)
      {
        CopyOutlives(w, s, k, op.cid);
      }
      KeysApart(op.cid, op.cid);
      assert Coherent(w, s') <==> RecordKey(op.cid) !in s'.cache && MetaKey(op.cid) !in s'.cache;
    } else {
      assert s'.source == s.source;
      assert forall k :: k in s'.cache ==> k in s.cache && s'.cache[k] == s.cache[k];
    }
  }

  lemma StepAgrees<R(!new)>(w: World<R>, s: State<R>, op: Op<R>)
    requires w.WellFormed() && Coherent(w, s) && Plain(op)
    ensures Coherent(w, CachedStep(w, s, op).0)
    ensures CachedStep(w, s, op).0.source == BareStep(w, s.source, op).0
    ensures SameAnswer(w, CachedStep(w, s, op).1, BareStep(w, s.source, op).1)
  {
    match op
    case Push(_, _, _, _) => PushAgrees(w, s, op);
    case Delete(_, _, _, _, _) => DeleteCoherent(w, s, op);
    case _ => ReadAgrees(w, s, op);
  }

  function BareAnswers<R(!new)>(w: World<R>, source: map<string, R>, ops: seq<Op<R>>): (answers: seq<Answer<R>>)
    ensures |answers| == |ops|
    decreases |ops|
  {
    if ops == [] then []
    else
      var (next, answer) := BareStep(w, source, ops[0]);
      [answer] + BareAnswers(w, next, ops[1..])
  }

  function CachedAnswers<R(!new)>(w: World<R>, s: State<R>, ops: seq<Op<R>>): (answers: seq<Answer<R>>)
    ensures |answers| == |ops|
    decreases |ops|
  {
    if ops == [] then []
    else
      var (next, answer) := CachedStep(w, s, ops[0]);
      [answer] + CachedAnswers(w, next, ops[1..])
  }

  /** Whatever is asked, in whatever order, the cached store answers as its source alone would. */
  lemma {:induction false} CacheIsTransparent<R(!new)>(w: World<R>, s: State<R>, ops: seq<Op<R>>)
    requires w.WellFormed() && Coherent(w, s)
    requires forall i :: 0 <= i < |ops| ==> Plain(ops[i])
    ensures forall i :: 0 <= i < |ops| ==>
              SameAnswer(w, CachedAnswers(w, s, ops)[i], BareAnswers(w, s.source, ops)[i])
    decreases |ops|
  {
    if ops != [] {
      StepAgrees(w, s, ops[0]);
      CacheIsTransparent(w, CachedStep(w, s, ops[0]).0, ops[1..]);
    }
  }

  /** And it is a cache: after a call that succeeds with its cache write, the same thing is found there. */
  lemma CallsFillCache<R(!new)>(w: World<R>, s: State<R>, op: Op<R>)
    requires w.WellFormed() && Coherent(w, s) && Plain(op) && !op.Delete? && op.putOk && !CachedStep(w, s, op).1.Failed?
    ensures var cache := CachedStep(w, s, op).0.cache;
            && (op.Push? ==> CachedRecord(cache, w.cidOf(op.record), true) == Some(op.record))
            && (op.Pull? ==>
                  CachedRecord(cache, op.cid, true).Some? && w.cidOf(CachedRecord(cache, op.cid, true).value) == op.cid)
            && (op.Lookup? ==>
                  CachedMeta(cache, op.cid, true).Some? && CachedMeta(cache, op.cid, true).value.cid == op.cid)
  {
    if !op.Push? {
      ReadAgrees(w, s, op);
    }
  }

  /** Nothing less will do for names: reading back under a stray name, right after a Push, finds the
      record in the cache although the source has nothing under that name. */
  lemma StrayNameDiffers<R(!new)>(w: World<R>, r: R, name: string)
    requires w.WellFormed() && w.cidOf(r) != "" && Astray("record", name) && ReadAs("record", name) == w.cidOf(r)
    ensures var ops := [Op.Push(r, true, true, true), Op.Pull(name, true, true)];
            && CachedAnswers(w, State(map[], map[]), ops)[1] == Pulled(r)
            && BareAnswers(w, map[], ops)[1] == Failed
  {
    var ops := [Op.Push(r, true, true, true), Op.Pull(name, true, true)];
    var s1 := CachedStep(w, State(map[], map[]), ops[0]).0;
    CleanKeys(w.cidOf(r));
    assert "/" + "record" + "/" + name == "/record/" + name;
    assert RecordKey(name) == "/record/" + w.cidOf(r);
    assert ops[1..] == [ops[1]];
    assert CachedAnswers(w, s1, [ops[1]])[0] == Pulled(r);
  }

  /** Nor for cache deletes: a copy that outlives its record is still handed out. */
  lemma StaleCopyDiffers<R(!new)>(w: World<R>, s: State<R>, cid: string)
    requires w.WellFormed() && Coherent(w, s) && cid in s.source && CachedRecord(s.cache, cid, true).Some?
    ensures var s' := CachedStep(w, s, Op.Delete(cid, false, true, true, true)).0;
            && CachedStep(w, s', Op.Pull(cid, true, true)).1 == Pulled(CachedRecord(s.cache, cid, true).value)
            && BareStep(w, s'.source, Op.Pull(cid, true, true)).1 == Failed
  {
    KeysApart(cid, cid);
  }
}
