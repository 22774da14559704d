/** The routing operations as the server runs them, loop by loop over the datastore, and the
    listing of local records. */
module Router {
  import opened Text
  import opened LabelKeys
  import opened Records
  import opened Metrics
  import opened RoutingIndex
  import opened RoutingRuns

  /** Panic stands for a call that panics. */
  datatype Error = InvalidArgument | Internal | Panic

  // ---------------------------------------------------------------- queries

  datatype QueryType = SkillQuery | LocatorQuery | UnspecifiedQuery | UnknownQuery

  datatype RecordQuery = RecordQuery(kind: QueryType, value: string)

  predicate SkillMatches(value: string, lbl: string) {
    var target := Skills.Prefix() + value;
    lbl == target || target + "/" <= lbl
  }

  predicate QueryMatches(q: RecordQuery, labels: set<string>) {
    match q.kind
    case SkillQuery => exists lbl :: lbl in labels && SkillMatches(q.value, lbl)
    case LocatorQuery => Locators.Prefix() + q.value in labels
    case UnspecifiedQuery => true
    case UnknownQuery => false
  }

  predicate MatchesAll(queries: seq<RecordQuery>, labels: set<string>) {
    forall i :: 0 <= i < |queries| ==> QueryMatches(queries[i], labels)
  }

  lemma SkillTargetParts(value: string)
    ensures Split(Skills.Prefix() + value, '/') == ["", "skills"] + Split(value, '/')
  {
    UnderRoot(Skills.Name(), value);
    assert Skills.Prefix() + value == "/" + Skills.Name() + "/" + value;
  }

  /** A skill query matches a label exactly when the query's path components lead the label's. */
  lemma SkillMatchIsHierarchical(value: string, lbl: string)
    ensures SkillMatches(value, lbl) <==> ["", "skills"] + Split(value, '/') <= Split(lbl, '/')
  {
    SkillTargetParts(value);
    PrefixByParts(Skills.Prefix() + value, lbl, '/');
  }

  /** Any ancestor of a matching skill query matches too. */
  lemma AncestorQueryMatches(ancestor: string, value: string, labels: set<string>)
    requires Split(ancestor, '/') <= Split(value, '/')
    requires QueryMatches(RecordQuery(SkillQuery, value), labels)
    ensures QueryMatches(RecordQuery(SkillQuery, ancestor), labels)
  {
    var lbl :| lbl in labels && SkillMatches(value, lbl);
    SkillMatchIsHierarchical(value, lbl);
    SkillMatchIsHierarchical(ancestor, lbl);
    assert ["", "skills"] + Split(ancestor, '/') <= ["", "skills"] + Split(value, '/');
    assert SkillMatches(ancestor, lbl);
  }

  // ---------------------------------------------------------------- listing

  /** `keys` holds each key of the store under `prefix` once, in some order. */
  ghost predicate Enumerates(keys: seq<string>, ds: Store, prefix: string) {
    NoDup(keys) && forall k :: k in keys <==> k in ds && prefix <= k
  }

  ghost predicate AllUnder(keys: seq<string>, prefix: string) {
    forall i :: 0 <= i < |keys| ==> prefix <= keys[i]
  }

  /** The CIDs, in the order of the record keys, whose stored labels satisfy all queries. */
  ghost function Matching(ds: Store, peer: string, keys: seq<string>, queries: seq<RecordQuery>): seq<string>
    requires AllUnder(keys, RECORDS_PREFIX)
  {
    if keys == [] then []
    else
      var rest := Matching(ds, peer, keys[..|keys| - 1], queries);
      var cid := keys[|keys| - 1][|RECORDS_PREFIX|..];
      if cid != "" && MatchesAll(queries, StoredLabels(ds, peer, cid)) then rest + [cid] else rest
  }

  datatype ListResponse = ListResponse(cid: string, labels: seq<string>)

  ghost predicate ListsLabels(r: ListResponse, ds: Store, peer: string) {
    NoDup(r.labels) && (set lbl | lbl in r.labels) == StoredLabels(ds, peer, r.cid)
  }

  lemma {:induction false} MatchingPrefix(ds: Store, peer: string, keys: seq<string>, queries: seq<RecordQuery>, i: nat)
    requires AllUnder(keys, RECORDS_PREFIX) && i <= |keys|
    ensures Matching(ds, peer, keys[..i], queries) <= Matching(ds, peer, keys, queries)
    decreases |keys|
  {
    if i < |keys| {
      MatchingPrefix(ds, peer, keys[..|keys| - 1], queries, i);
      assert keys[..|keys| - 1][..i] == keys[..i];
    } else {
      assert keys[..i] == keys;
    }
  }

  lemma {:induction false} MatchingMembers(ds: Store, peer: string, keys: seq<string>, queries: seq<RecordQuery>)
    requires AllUnder(keys, RECORDS_PREFIX) && NoDup(keys)
    ensures var out := Matching(ds, peer, keys, queries);
            && NoDup(out)
            && forall cid :: cid in out <==>
                  cid != "" && RECORDS_PREFIX + cid in keys && MatchesAll(queries, StoredLabels(ds, peer, cid))
    decreases |keys|
  {
    if keys != [] {
      var init, last := keys[..|keys| - 1], keys[|keys| - 1];
      MatchingMembers(ds, peer, init, queries);
      assert keys == init + [last];
      var cid := last[|RECORDS_PREFIX|..];
      assert last == RECORDS_PREFIX + cid;
      assert last !in init;
      forall c ensures RECORDS_PREFIX + c == last <==> c == cid {
        assert (RECORDS_PREFIX + c)[|RECORDS_PREFIX|..] == c;
      }
    }
  }

  /** In every reachable state, whatever the order of the record keys, listing finds each published
      CID whose own labels satisfy all queries, and finds it once; the labels read off the keys are
      the CID's own. */
  lemma ListExactInRuns(node: Node, states: seq<Store>, steps: seq<Step>, i: nat, keys: seq<string>,
                        queries: seq<RecordQuery>)
    requires IsRun(node, states, steps) && i <= |steps|
    requires Enumerates(keys, states[i], RECORDS_PREFIX)
    ensures AllUnder(keys, RECORDS_PREFIX)
    ensures var out := Matching(states[i], node.peer, keys, queries);
            && NoDup(out)
            && (forall cid :: cid in out <==>
                  cid in Published(states[i]) && MatchesAll(queries, set lbl | lbl in node.LabelsOf(cid)))
            && (forall r: ListResponse :: r.cid in out && ListsLabels(r, states[i], node.peer) ==>
                  NoDup(r.labels) && forall lbl :: lbl in r.labels <==> lbl in node.LabelsOf(r.cid))
  {
    var ds := states[i];
    IndexExactInRuns(node, states, steps, i);
    assert forall j :: 0 <= j < |keys| ==> keys[j] in keys;
    MatchingMembers(ds, node.peer, keys, queries);
    forall cid ensures cid in Published(ds) <==> cid != "" && RECORDS_PREFIX + cid in keys {
      assert (RECORDS_PREFIX + cid)[|RECORDS_PREFIX|..] == cid;
      assert forall k :: RECORDS_PREFIX <= k && k[|RECORDS_PREFIX|..] == cid ==> k == RECORDS_PREFIX + cid;
      if RECORDS_PREFIX + cid in ds {
        assert CleanComponent((RECORDS_PREFIX + cid)[|RECORDS_PREFIX|..]);
      }
    }
    forall cid | cid in Published(ds) ensures StoredLabels(ds, node.peer, cid) == set lbl | lbl in node.LabelsOf(cid) {
      StoredLabelsExact(ds, node, cid);
    }
    forall r: ListResponse | r.cid in Matching(ds, node.peer, keys, queries) && ListsLabels(r, ds, node.peer)
      ensures forall lbl :: lbl in r.labels <==> lbl in node.LabelsOf(r.cid)
    {
      var own := set lbl | lbl in node.LabelsOf(r.cid);
      var listed := set lbl | lbl in r.labels;
      assert listed == own;
      assert forall lbl :: lbl in r.labels <==> lbl in listed;
      assert forall lbl :: lbl in node.LabelsOf(r.cid) <==> lbl in own;
    }
  }

  // ---------------------------------------------------------------- what a query asks of a record

  function SkillNames(r: Record): seq<string> {
    if r.Data? then r.skills else []
  }

  function LocatorTypes(r: Record): seq<string> {
    if r.Data? then r.locators else []
  }

  /** A query over the record itself: a skill at or below the one asked for, or a locator of the type asked
      for. */
  ghost predicate Answers(r: Record, q: RecordQuery) {
    match q.kind
    case SkillQuery => exists i :: 0 <= i < |SkillNames(r)| && Split(q.value, '/') <= Split(SkillNames(r)[i], '/')
    case LocatorQuery => q.value in LocatorTypes(r)
    case UnspecifiedQuery => true
    case UnknownQuery => false
  }

  lemma SkillLabelNames(r: Record, lbl: string)
    requires lbl in GetLabels(r) && "/skills/" <= lbl
    ensures lbl[8..] in SkillNames(r) && lbl == "/skills/" + lbl[8..]
  {
    PrefixTexts();
    LabelMembers(r, lbl);
    assert lbl[1] == 's' && lbl[1] != 'd' && lbl[1] != 'f' && lbl[1] != 'l';
  }

  lemma SkillAnswers(r: Record, value: string)
    ensures QueryMatches(RecordQuery(SkillQuery, value), set lbl | lbl in GetLabels(r)) <==>
            Answers(r, RecordQuery(SkillQuery, value))
  {
    var labels := set lbl | lbl in GetLabels(r);
    PrefixTexts();
    if lbl :| lbl in labels && SkillMatches(value, lbl) {
      assert "/skills/" <= lbl;
      SkillLabelNames(r, lbl);
      var i :| 0 <= i < |SkillNames(r)| && SkillNames(r)[i] == lbl[8..];
      SkillMatchIsHierarchical(value, lbl);
      SkillTargetParts(lbl[8..]);
      assert Split(value, '/') == (["", "skills"] + Split(value, '/'))[2..];
      assert Split(lbl[8..], '/') == (["", "skills"] + Split(lbl[8..], '/'))[2..];
    }
    if i :| 0 <= i < |SkillNames(r)| && Split(value, '/') <= Split(SkillNames(r)[i], '/') {
      var lbl := "/skills/" + SkillNames(r)[i];
      LabelMembers(r, lbl);
      assert lbl[8..] == SkillNames(r)[i];
      SkillTargetParts(SkillNames(r)[i]);
      SkillMatchIsHierarchical(value, lbl);
      assert lbl in labels && SkillMatches(value, lbl);
    }
  }

  lemma LocatorAnswers(r: Record, value: string)
    ensures QueryMatches(RecordQuery(LocatorQuery, value), set lbl | lbl in GetLabels(r)) <==>
            Answers(r, RecordQuery(LocatorQuery, value))
  {
    var lbl := "/locators/" + value;
    PrefixTexts();
    assert lbl[1] == 'l' && lbl[10..] == value;
    if r.Data? {
      LabelMembers(r, lbl);
    }
  }

  lemma QueryAnswers(r: Record, q: RecordQuery)
    ensures QueryMatches(q, set lbl | lbl in GetLabels(r)) <==> Answers(r, q)
  {
    match q.kind
    case SkillQuery => SkillAnswers(r, q.value);
    case LocatorQuery => LocatorAnswers(r, q.value);
    case _ =>
  }

  /** In every reachable state, listing finds exactly the published CIDs whose records answer every query. */
  lemma ListAnswersInRuns(node: Node, states: seq<Store>, steps: seq<Step>, i: nat, keys: seq<string>,
                          queries: seq<RecordQuery>, cid: string)
    requires IsRun(node, states, steps) && i <= |steps|
    requires Enumerates(keys, states[i], RECORDS_PREFIX)
    ensures AllUnder(keys, RECORDS_PREFIX)
    ensures cid in Matching(states[i], node.peer, keys, queries) <==>
            cid in Published(states[i]) && forall j :: 0 <= j < |queries| ==> Answers(node.recordOf(cid), queries[j])
  {
    ListExactInRuns(node, states, steps, i, keys, queries);
    forall j | 0 <= j < |queries|
      ensures QueryMatches(queries[j], set lbl | lbl in node.LabelsOf(cid)) <==> Answers(node.recordOf(cid), queries[j])
    {
      QueryAnswers(node.recordOf(cid), queries[j]);
    }
  }

  // ---------------------------------------------------------------- the operations

  /** A key of this peer that gives the CID the label. */
  ghost predicate IsLabelKey(k: string, peer: string, cid: string, lbl: string) {
    Parse(k) == Ok(LabelKey(lbl, cid, peer))
  }

  lemma ListedAreStored(keys: seq<string>, labels: seq<string>, ds: Store, peer: string, cid: string)
    requires forall k :: k in keys <==> k in ds && IsNamespaceKey(k)
    requires forall lbl :: lbl in labels ==> exists j :: 0 <= j < |keys| && IsLabelKey(keys[j], peer, cid, lbl)
    requires forall j, lbl :: 0 <= j < |keys| && IsLabelKey(keys[j], peer, cid, lbl) ==> lbl in labels
    ensures (set lbl | lbl in labels) == StoredLabels(ds, peer, cid)
  {
    forall lbl | lbl in labels ensures lbl in StoredLabels(ds, peer, cid) {
      var j :| 0 <= j < |keys| && IsLabelKey(keys[j], peer, cid, lbl);
      assert keys[j] in keys;
    }
    forall lbl | lbl in StoredLabels(ds, peer, cid) ensures lbl in labels {
      var k :| k in ds && LabelOfPeer(k, peer) && Parse(k).value.cid == cid && Parse(k).value.lbl == lbl;
      assert k in keys;
      var j :| 0 <= j < |keys| && keys[j] == k;
      assert IsLabelKey(keys[j], peer, cid, lbl);
    }
  }

  lemma LabelKeySetGrows(labels: seq<string>, cid: string, peer: string, i: nat)
    requires i < |labels|
    ensures LabelKeySet(labels[..i + 1], cid, peer) == LabelKeySet(labels[..i], cid, peer)
            + {LabelKeyOf(labels[i], cid, peer)}
  {
    var big, small := LabelKeySet(labels[..i + 1], cid, peer), LabelKeySet(labels[..i], cid, peer);
    forall k | k in big ensures k in small + {LabelKeyOf(labels[i], cid, peer)} {
      var j :| 0 <= j < i + 1 && k == LabelKeyOf(labels[..i + 1][j], cid, peer);
      if j < i { assert k == LabelKeyOf(labels[..i][j], cid, peer); }
    }
    forall k | k in small + {LabelKeyOf(labels[i], cid, peer)} ensures k in big {
      if k in small {
        var j :| 0 <= j < i && k == LabelKeyOf(labels[..i][j], cid, peer);
        assert k == LabelKeyOf(labels[..i + 1][j], cid, peer);
      } else {
        assert k == LabelKeyOf(labels[..i + 1][i], cid, peer);
      }
    }
  }

  lemma OneKeyPerLabel(k1: string, k2: string, peer: string, cid: string, lbl: string)
    requires k1 != k2 && IsLabelKey(k1, peer, cid, lbl)
    ensures !IsLabelKey(k2, peer, cid, lbl)
  {
    BuildParse(k1);
    BuildParse(k2);
  }

  lemma FoundAreOrphans(ds: Store, pullable: set<string>, keys: seq<string>, found: seq<string>)
    requires Enumerates(keys, ds, RECORDS_PREFIX)
    requires forall c :: c in found <==> exists j :: 0 <= j < |keys| && Base(keys[j]) == c && c !in pullable
    ensures forall c :: c in found <==> c in Orphans(ds, pullable)
  {
    forall c | c in Orphans(ds, pullable) ensures c in found {
      var k :| k in ds && RECORDS_PREFIX <= k && Base(k) == c && c !in pullable;
      var j :| 0 <= j < |keys| && keys[j] == k;
    }
    forall c | c in found ensures c in Orphans(ds, pullable) {
      var j :| 0 <= j < |keys| && Base(keys[j]) == c && c !in pullable;
      assert keys[j] in keys;
    }
  }

  lemma PrefixesApart(m: nat, n: nat, k: string)
    requires m < n < |ALL_NAMESPACES|
    ensures !(ALL_NAMESPACES[m].Prefix() <= k && ALL_NAMESPACES[n].Prefix() <= k)
  {
    assert ALL_NAMESPACES[m].Prefix()[1] != ALL_NAMESPACES[n].Prefix()[1];
  }

  class Routing {
    var dstore: Store
    const localPeer: string

    constructor (peer: string)
      ensures dstore == map[] && localPeer == peer
    {
      dstore, localPeer := map[], peer;
    }

    /** The keys under a prefix, in an order the datastore chooses. */
    method Query(prefix: string) returns (keys: seq<string>)
      ensures Enumerates(keys, dstore, prefix)
    {
      keys := [];
      var left := set k | k in dstore && prefix <= k;
      while left != {}
        invariant NoDup(keys)
        invariant forall k :: k in keys ==> k !in left
        invariant forall k :: k in keys || k in left <==> k in dstore && prefix <= k
      {
        var k :| k in left;
        keys, left := keys + [k], left - {k};
      }
    }

    method Publish(ref: Option<string>, record: Option<Record>, now: int, saved: bool) returns (r: Result<(), Error>)
      modifies this
      ensures ref.None? || record.None? ==> r == Err(InvalidArgument) && dstore == old(dstore)
      ensures ref.Some? && record.Some? && LoadMetrics(old(dstore)).None? && !MapLost(old(dstore)) ==>
                r == Err(Internal) && dstore == old(dstore)
      ensures ref.Some? && record.Some? && MapLost(old(dstore)) ==>
                && dstore == PublishWithoutMap(old(dstore), ref.value, GetLabels(record.value), saved)
                && (r.Ok? <==> PublishSucceeds(old(dstore), ref.value, GetLabels(record.value), saved))
                && (r == Err(Panic) <==> RecordKey(ref.value) !in old(dstore) && GetLabels(record.value) != [])
      ensures ref.Some? && record.Some? && LoadMetrics(old(dstore)).Some? ==>
                && dstore == PublishEffect(old(dstore), localPeer, ref.value, GetLabels(record.value), now, saved)
                && r == (if saved || RecordKey(ref.value) in old(dstore) then Ok(()) else Err(Internal))
                && (r.Ok? <==> PublishSucceeds(old(dstore), ref.value, GetLabels(record.value), saved))
    {
      if ref.None? || record.None? {
        return Err(InvalidArgument);
      }
      var loaded := LoadMetrics(dstore);
      if loaded.None? && !MapLost(dstore) {
        return Err(Internal);
      }
      var cid := ref.value;
      if RecordKey(cid) in dstore {
        return Ok(());
      }
      var labels := CollectLabels(record.value);
      if loaded.None? {
        if labels != [] {
          return Err(Panic);
        }
        dstore := dstore[RecordKey(cid) := Marker];
        if !saved {
          return Err(Internal);
        }
        dstore := dstore[METRICS_KEY := NilCounts];
        return Ok(());
      }
      var batch, counters := StageLabels(labels, cid, now, loaded.value);
      dstore := dstore[RecordKey(cid) := Marker] + batch;
      if !saved {
        return Err(Internal);
      }
      dstore := dstore[METRICS_KEY := Counts(counters)];
      return Ok(());
    }

    /** The label entries to write, and the counters with the labels counted in. */
    method StageLabels(labels: seq<string>, cid: string, now: int, initial: Counters)
      returns (batch: Store, counters: Counters)
      ensures batch == map k | k in LabelKeySet(labels, cid, localPeer) :: Fresh(now)
      ensures counters == IncrementAll(initial, labels)
    {
      var metrics := new Counting(initial);
      batch := map[];
      for i := 0 to |labels|
        invariant batch == map k | k in LabelKeySet(labels[..i], cid, localPeer) :: Fresh(now)
        invariant metrics.data == IncrementAll(initial, labels[..i])
      {
        LabelKeySetGrows(labels, cid, localPeer, i);
        batch := batch[LabelKeyOf(labels[i], cid, localPeer) := Fresh(now)];
        assert labels[..i + 1][..i] == labels[..i];
        metrics.Up(labels[i]);
      }
      assert labels[..|labels|] == labels;
      counters := metrics.data;
    }

    method Unpublish(ref: Option<string>, record: Option<Record>, saved: bool) returns (r: Result<(), Error>)
      modifies this
      ensures ref.None? || record.None? ==> r == Err(InvalidArgument) && dstore == old(dstore)
      ensures ref.Some? && record.Some? && LoadMetrics(old(dstore)).None? && !MapLost(old(dstore)) ==>
                r == Err(Internal) && dstore == old(dstore)
      ensures ref.Some? && record.Some? && MapLost(old(dstore)) ==>
                && dstore == UnpublishWithoutMap(old(dstore), localPeer, ref.value, GetLabels(record.value), saved)
                && r == if saved then Ok(()) else Err(Internal)
      ensures ref.Some? && record.Some? && LoadMetrics(old(dstore)).Some? ==>
                && dstore == UnpublishEffect(old(dstore), localPeer, ref.value, GetLabels(record.value), saved)
                && r == if saved then Ok(()) else Err(Internal)
    {
      if ref.None? || record.None? {
        return Err(InvalidArgument);
      }
      var loaded := LoadMetrics(dstore);
      if loaded.None? && !MapLost(dstore) {
        return Err(Internal);
      }
      var cid := ref.value;
      var labels := CollectLabels(record.value);
      var deletes, counters := UnstageLabels(labels, cid, if loaded.Some? then loaded.value else map[]);
      dstore := dstore - ({RecordKey(cid)} + deletes);
      if !saved {
        return Err(Internal);
      }
      dstore := dstore[METRICS_KEY := if loaded.Some? then Counts(counters) else NilCounts];
      return Ok(());
    }

    /** The label keys to delete, and the counters with the labels counted out. */
    method UnstageLabels(labels: seq<string>, cid: string, initial: Counters)
      returns (deletes: set<string>, counters: Counters)
      ensures deletes == LabelKeySet(labels, cid, localPeer)
      ensures counters == DecrementAll(initial, labels)
    {
      var metrics := new Counting(initial);
      deletes := {};
      for i := 0 to |labels|
        invariant deletes == LabelKeySet(labels[..i], cid, localPeer)
        invariant metrics.data == DecrementAll(initial, labels[..i])
      {
        LabelKeySetGrows(labels, cid, localPeer, i);
        deletes := deletes + {LabelKeyOf(labels[i], cid, localPeer)};
        assert labels[..i + 1][..i] == labels[..i];
        metrics.Down(labels[i]);
      }
      assert labels[..|labels|] == labels;
      counters := metrics.data;
    }

    method HandleLabelNotification(key: string, now: int)
      modifies this
      ensures dstore == AnnounceEffect(old(dstore), key, now)
    {
      var k := NewKey(key);
      var metadata := LabelMetadata(now, now);
      if k in dstore {
        if dstore[k].Meta? {
          metadata := dstore[k].meta.(lastSeen := now);
        } else if dstore[k].Counts? || dstore[k].NilCounts? {
          metadata := LabelMetadata(0, now);
        }
      }
      dstore := dstore[k := Meta(metadata)];
    }

    /** The keys of all namespaces, queried one namespace after the other. */
    method NamespaceKeys() returns (keys: seq<string>)
      ensures NoDup(keys) && forall k :: k in keys <==> k in dstore && IsNamespaceKey(k)
    {
      keys := [];
      for n := 0 to |ALL_NAMESPACES|
        invariant NoDup(keys)
        invariant forall k :: k in keys <==> k in dstore && exists i :: 0 <= i < n && ALL_NAMESPACES[i].Prefix() <= k
      {
        var found := Query(ALL_NAMESPACES[n].Prefix());
        forall k | k in keys ensures k !in found {
          var i :| 0 <= i < n && ALL_NAMESPACES[i].Prefix() <= k;
          PrefixesApart(i, n, k);
        }
        NoDupConcat(keys, found);
        keys := keys + found;
      }
    }

    method CleanupStaleRemoteLabels(now: int)
      modifies this
      ensures dstore == CleanStaleEffect(old(dstore), localPeer, now)
    {
      var keys := NamespaceKeys();
      var staleKeys: set<string> := {};
      for i := 0 to |keys|
        invariant dstore == old(dstore)
        invariant forall k :: k in staleKeys <==> k in keys[..i] && k in dstore && Expired(k, dstore[k], localPeer, now)
      {
        var k := keys[i];
        assert k in keys;
        if IsRemote(k, localPeer)
           && (Parse(k).Err? || !dstore[k].Meta? || !dstore[k].meta.Valid()
               || dstore[k].meta.IsStale(now, MAX_LABEL_AGE)) {
          staleKeys := staleKeys + {k};
        }
      }
      assert keys[..|keys|] == keys;
      dstore := dstore - staleKeys;
    }

    method CleanupLabelsForCid(cid: string) returns (cleaned: bool)
      modifies this
      ensures dstore == CleanOrphanEffect(old(dstore), localPeer, cid)
      ensures cleaned
    {
      var deletes := {RecordKey(cid)};
      var keysDeleted := 1;
      var keys := NamespaceKeys();
      for i := 0 to |keys|
        invariant dstore == old(dstore) && keysDeleted >= 1
        invariant forall k :: k in deletes <==> k == RecordKey(cid) || (k in keys[..i] && Orphaned(k, localPeer, cid))
      {
        assert keys[i] in keys;
        var parsed := Parse(keys[i]);
        if parsed.Err? || (parsed.value.cid == cid && parsed.value.peer == localPeer) {
          deletes, keysDeleted := deletes + {keys[i]}, keysDeleted + 1;
        }
      }
      assert keys[..|keys|] == keys;
      dstore := dstore - deletes;
      cleaned := keysDeleted > 0;
    }

    /** One republish cycle; `pullable` are the CIDs the store still has. */
    method RepublishLocalLabels(pullable: set<string>) returns (orphaned: nat)
      modifies this
      ensures dstore == RepublishEffect(old(dstore), localPeer, pullable)
    {
      var keys := Query(RECORDS_PREFIX);
      var orphans: seq<string> := [];
      for i := 0 to |keys|
        invariant dstore == old(dstore)
        invariant forall c :: c in orphans <==> exists j :: 0 <= j < i && Base(keys[j]) == c && c !in pullable
      {
        var cid := Base(keys[i]);
        if cid !in pullable {
          orphans := orphans + [cid];
        }
      }
      FoundAreOrphans(dstore, pullable, keys, orphans);
      for i := 0 to |orphans|
        invariant forall k :: k in dstore <==>
                    k in old(dstore) && forall c :: c in orphans[..i] ==>
                      k != RecordKey(c) && !Orphaned(k, localPeer, c)
        invariant forall k :: k in dstore ==> dstore[k] == old(dstore)[k]
      {
        var _ := CleanupLabelsForCid(orphans[i]);
        assert orphans[..i + 1] == orphans[..i] + [orphans[i]];
      }
      assert orphans[..|orphans|] == orphans;
      orphaned := |orphans|;
    }

    method GetRecordLabels(cid: string) returns (labels: seq<string>)
      ensures ListsLabels(ListResponse(cid, labels), dstore, localPeer)
    {
      labels := [];
      var keys := NamespaceKeys();
      for i := 0 to |keys|
        invariant NoDup(labels)
        invariant forall lbl :: lbl in labels ==> exists j :: 0 <= j < i && IsLabelKey(keys[j], localPeer, cid, lbl)
        invariant forall j, lbl :: 0 <= j < i && IsLabelKey(keys[j], localPeer, cid, lbl) ==> lbl in labels
      {
        assert keys[i] in keys;
        var parsed := Parse(keys[i]);
        if parsed.Ok? && parsed.value.cid == cid && parsed.value.peer == localPeer {
          forall j | 0 <= j < i ensures !IsLabelKey(keys[j], localPeer, cid, parsed.value.lbl) {
            OneKeyPerLabel(keys[i], keys[j], localPeer, cid, parsed.value.lbl);
          }
          assert parsed.value.lbl !in labels;
          NoDupConcat(labels, [parsed.value.lbl]);
          labels := labels + [parsed.value.lbl];
        }
      }
      ListedAreStored(keys, labels, dstore, localPeer, cid);
    }

    method QueryMatchesLabels(q: RecordQuery, labels: seq<string>) returns (matches: bool)
      ensures matches == QueryMatches(q, set lbl | lbl in labels)
    {
      match q.kind
      case SkillQuery =>
        var target := Skills.Prefix() + q.value;
        for i := 0 to |labels|
          invariant forall j :: 0 <= j < i ==> !SkillMatches(q.value, labels[j])
        {
          if labels[i] == target || target + "/" <= labels[i] {
            assert SkillMatches(q.value, labels[i]);
            return true;
          }
        }
        return false;
      case LocatorQuery =>
        for i := 0 to |labels|
          invariant forall j :: 0 <= j < i ==> labels[j] != Locators.Prefix() + q.value
        {
          if labels[i] == Locators.Prefix() + q.value {
            return true;
          }
        }
        return false;
      case UnspecifiedQuery => return true;
      case UnknownQuery => return false;
    }

    method MatchesAllQueries(cid: string, queries: seq<RecordQuery>) returns (matches: bool)
      ensures matches == MatchesAll(queries, StoredLabels(dstore, localPeer, cid))
    {
      if |queries| == 0 {
        return true;
      }
      var labels := GetRecordLabels(cid);
      for i := 0 to |queries|
        invariant forall j :: 0 <= j < i ==> QueryMatches(queries[j], StoredLabels(dstore, localPeer, cid))
      {
        var m := QueryMatchesLabels(queries[i], labels);
        if !m {
          return false;
        }
      }
      return true;
    }

    /** `keys` is the order in which the datastore returns the record keys. */
    method ListLocalRecords(queries: seq<RecordQuery>, limit: nat, keys: seq<string>) returns (out: seq<ListResponse>)
      requires Enumerates(keys, dstore, RECORDS_PREFIX)
      ensures AllUnder(keys, RECORDS_PREFIX)
      ensures var all := Matching(dstore, localPeer, keys, queries);
              && |out| == (if 0 < limit < |all| then limit else |all|)
              && forall i :: 0 <= i < |out| ==> out[i].cid == all[i] && ListsLabels(out[i], dstore, localPeer)
    {
      assert forall i :: 0 <= i < |keys| ==> keys[i] in keys;
      out := [];
      for i := 0 to |keys|
        invariant var sofar := Matching(dstore, localPeer, keys[..i], queries);
                  && |out| == |sofar| && (limit > 0 ==> |out| < limit)
                  && forall j :: 0 <= j < |out| ==> out[j].cid == sofar[j] && ListsLabels(out[j], dstore, localPeer)
      {
        assert keys[..i + 1][..i] == keys[..i];
        var cid := keys[i][|RECORDS_PREFIX|..];
        if cid != "" {
          var matches := MatchesAllQueries(cid, queries);
          if matches {
            var labels := GetRecordLabels(cid);
            out := out + [ListResponse(cid, labels)];
            if limit > 0 && |out| >= limit {
              MatchingPrefix(dstore, localPeer, keys, queries, i + 1);
              return;
            }
          }
        }
      }
      assert keys[..|keys|] == keys;
    }
  }
}
