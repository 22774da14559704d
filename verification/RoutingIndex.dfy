/** The routing datastore as a value: what each routing operation does to it, and the step
    relation that its runs are made of. */
module RoutingIndex {
  import opened Text
  import opened LabelKeys
  import opened Records
  import opened Metrics

  // Durations and instants are in seconds; instant zero is Go's zero time.
  const HOUR := 3600
  const REPUBLISH_INTERVAL := 36 * HOUR
  const CLEANUP_INTERVAL := 48 * HOUR
  const MAX_LABEL_AGE := 72 * HOUR

  const RECORDS_PREFIX := "/records/"
  const METRICS_KEY := "/metrics"

  datatype LabelMetadata = LabelMetadata(timestamp: int, lastSeen: int) {
    predicate Valid() {
      timestamp != 0 && lastSeen != 0 && timestamp <= lastSeen
    }

    predicate IsStale(now: int, maxAge: int) {
      now - lastSeen > maxAge
    }
  }

  /** What the bytes under a key are: nothing, label metadata, counters, counters without a map, or bytes
      that are none of these. */
  datatype Value = Marker | Meta(meta: LabelMetadata) | Counts(counters: Counters) | NilCounts | Opaque

  type Store = map<string, Value>

  /** The node: its own peer ID, and the record each CID stands for. */
  datatype Node = Node(peer: string, recordOf: string -> Record) {
    function LabelsOf(cid: string): seq<string> {
      GetLabels(recordOf(cid))
    }

    /** Cleaning a key changes neither the peer ID nor any label of the CID. */
    ghost predicate Indexable(cid: string) {
      CleanComponent(peer) && forall lbl :: lbl in LabelsOf(cid) ==> CleanKey(lbl)
    }

    ghost predicate WellFormed() {
      CleanComponent(peer) && forall cid :: Indexable(cid)
    }
  }

  function RecordKey(cid: string): string {
    NewKey(RECORDS_PREFIX + cid)
  }

  function LabelKeyOf(lbl: string, cid: string, peer: string): string {
    NewKey(Build(lbl, cid, peer))
  }

  function LabelKeySet(labels: seq<string>, cid: string, peer: string): set<string> {
    set i | 0 <= i < |labels| :: LabelKeyOf(labels[i], cid, peer)
  }

  /** The last component of a key. */
  function Base(key: string): string {
    var parts := Split(key, '/');
    parts[|parts| - 1]
  }

  // ---------------------------------------------------------------- operations

  /** The stored counters; None when the bytes there do not decode to a map of counters. */
  function LoadMetrics(ds: Store): Option<Counters> {
    if METRICS_KEY !in ds then Some(map[])
    else if ds[METRICS_KEY].Counts? then Some(ds[METRICS_KEY].counters)
    else None
  }

  /** The bytes decode as counters, since their JSON is an object, but to counters without a map: reading a
      label finds nothing, and counting one up panics. */
  predicate MapLost(ds: Store) {
    METRICS_KEY in ds && (ds[METRICS_KEY].Meta? || ds[METRICS_KEY].NilCounts?)
  }

  function SaveMetrics(ds: Store, m: Counters, saved: bool): Store {
    if saved then ds[METRICS_KEY := Counts(m)] else ds
  }

  function Fresh(now: int): Value {
    Meta(LabelMetadata(now, now))
  }

  /** The store after publishing; `saved` says whether the final write of the counters went through. */
  function PublishEffect(ds: Store, peer: string, cid: string, labels: seq<string>, now: int, saved: bool): Store
    requires LoadMetrics(ds).Some?
  {
    if RecordKey(cid) in ds then ds
    else
      var indexed := ds[RecordKey(cid) := Marker] + (map k | k in LabelKeySet(labels, cid, peer) :: Fresh(now));
      SaveMetrics(indexed, IncrementAll(LoadMetrics(ds).value, labels), saved)
  }

  function UnpublishEffect(ds: Store, peer: string, cid: string, labels: seq<string>, saved: bool): Store
    requires LoadMetrics(ds).Some?
  {
    SaveMetrics(ds - ({RecordKey(cid)} + LabelKeySet(labels, cid, peer)),
                DecrementAll(LoadMetrics(ds).value, labels), saved)
  }

  /** Publishing over counters without a map panics at the first label, before anything is written. */
  function PublishWithoutMap(ds: Store, cid: string, labels: seq<string>, saved: bool): Store {
    if RecordKey(cid) in ds || labels != [] then ds
    else
      var indexed := ds[RecordKey(cid) := Marker];
      if saved then indexed[METRICS_KEY := NilCounts] else indexed
  }

  /** Unpublishing over them counts nothing down. */
  function UnpublishWithoutMap(ds: Store, peer: string, cid: string, labels: seq<string>, saved: bool): Store {
    var rest := ds - ({RecordKey(cid)} + LabelKeySet(labels, cid, peer));
    if saved then rest[METRICS_KEY := NilCounts] else rest
  }

  predicate PublishSucceeds(ds: Store, cid: string, labels: seq<string>, saved: bool) {
    if LoadMetrics(ds).Some? then saved || RecordKey(cid) in ds
    else MapLost(ds) && (RecordKey(cid) in ds || (labels == [] && saved))
  }

  /** What an announcement makes of the stored value: metadata keeps its first sighting, and counters
      decode as metadata with both times zero. */
  function Sighting(was: Option<Value>, now: int): LabelMetadata {
    match was
    case Some(Meta(m)) => m.(lastSeen := now)
    case Some(Counts(_)) => LabelMetadata(0, now)
    case Some(NilCounts) => LabelMetadata(0, now)
    case _ => LabelMetadata(now, now)
  }

  function Stored(ds: Store, k: string): Option<Value> {
    if k in ds then Some(ds[k]) else None
  }

  function AnnounceEffect(ds: Store, key: string, now: int): Store {
    var k := NewKey(key);
    ds[k := Meta(Sighting(Stored(ds, k), now))]
  }

  /** A key that the remote filter lets through. */
  predicate IsRemote(key: string, peer: string) {
    ExtractPeer(key) == "" || ExtractPeer(key) != peer
  }

  /** A remote label entry that the stale cleanup deletes: malformed, unreadable, invalid or too old. */
  predicate Expired(key: string, v: Value, peer: string, now: int) {
    && IsNamespaceKey(key)
    && IsRemote(key, peer)
    && (Parse(key).Err? || !v.Meta? || !v.meta.Valid() || v.meta.IsStale(now, MAX_LABEL_AGE))
  }

  function CleanStaleEffect(ds: Store, peer: string, now: int): Store {
    map k | k in ds && !Expired(k, ds[k], peer, now) :: ds[k]
  }

  /** A label entry that the cleanup of `cid` deletes: its own, or a malformed one. */
  predicate Orphaned(key: string, peer: string, cid: string) {
    IsNamespaceKey(key) && (Parse(key).Err? || (Parse(key).value.cid == cid && Parse(key).value.peer == peer))
  }

  function CleanOrphanEffect(ds: Store, peer: string, cid: string): Store {
    map k | k in ds && k != RecordKey(cid) && !Orphaned(k, peer, cid) :: ds[k]
  }

  /** The CIDs in the record index that the store can no longer pull. */
  function Orphans(ds: Store, pullable: set<string>): set<string> {
    set k | k in ds && RECORDS_PREFIX <= k && Base(k) !in pullable :: Base(k)
  }

  /** A republish cycle deletes what the cleanup of any orphan deletes. */
  function RepublishEffect(ds: Store, peer: string, pullable: set<string>): Store {
    map k | k in ds && (forall cid :: cid in Orphans(ds, pullable) ==>
                        k != RecordKey(cid) && !Orphaned(k, peer, cid)) :: ds[k]
  }

  /** What the cleanup of an orphan deletes: its record key, its label keys under this peer, and every key of the
      four namespaces that is too short to be a label key. */
  lemma OrphanDeletes(ds: Store, peer: string, cid: string, k: string)
    requires k in ds
    ensures var parts := Split(k, '/');
            k !in CleanOrphanEffect(ds, peer, cid) <==>
            || k == RecordKey(cid)
            || (&& ("/skills/" <= k || "/domains/" <= k || "/features/" <= k || "/locators/" <= k)
                && (|parts| < 5 || (parts[|parts| - 2] == cid && parts[|parts| - 1] == peer)))
  {
    NamespaceTexts(k);
    BuildParse(k);
    assert IsNamespaceKey(k) ==> "/" <= k;
  }

  /** A republish cycle deletes what the cleanups of its orphans delete, and nothing else. */
  lemma RepublishDeletes(ds: Store, peer: string, pullable: set<string>, k: string)
    requires k in ds
    ensures k !in RepublishEffect(ds, peer, pullable) <==>
            exists cid :: cid in Orphans(ds, pullable) && k !in CleanOrphanEffect(ds, peer, cid)
    ensures k in RepublishEffect(ds, peer, pullable) ==> RepublishEffect(ds, peer, pullable)[k] == ds[k]
  {
  }

  // ---------------------------------------------------------------- views

  function Published(ds: Store): set<string> {
    set k | k in ds && RECORDS_PREFIX <= k :: k[|RECORDS_PREFIX|..]
  }

  /** A well-formed label key of the given peer. */
  predicate LabelOfPeer(key: string, peer: string) {
    IsNamespaceKey(key) && Parse(key).Ok? && Parse(key).value.peer == peer
  }

  predicate LabelOfOther(key: string, peer: string) {
    IsNamespaceKey(key) && Parse(key).Ok? && Parse(key).value.peer != peer
  }

  /** The labels that the keys of this peer give a CID. */
  function StoredLabels(ds: Store, peer: string, cid: string): set<string> {
    set k | k in ds && LabelOfPeer(k, peer) && Parse(k).value.cid == cid :: Parse(k).value.lbl
  }

  function Totals(ds: Store): Counters {
    if LoadMetrics(ds).Some? then LoadMetrics(ds).value else map[]
  }

  // ---------------------------------------------------------------- the index invariant

  /** A label key is stored if and only if its CID is published and its label is one of the CID's. */
  ghost predicate ExactAt(ds: Store, node: Node, k: string)
    requires LabelOfPeer(k, node.peer)
  {
    k in ds <==> Parse(k).value.cid in Published(ds) && Parse(k).value.lbl in node.LabelsOf(Parse(k).value.cid)
  }

  /** This peer's label keys are exactly the pairs of a published CID and one of its labels. */
  ghost predicate IndexExact(ds: Store, node: Node) {
    forall k :: LabelOfPeer(k, node.peer) ==> ExactAt(ds, node, k)
  }

  ghost predicate Inv(ds: Store, node: Node) {
    && IndexExact(ds, node)
    && (forall k :: k in ds && RECORDS_PREFIX <= k ==> CleanComponent(k[|RECORDS_PREFIX|..]))
    && LoadMetrics(ds).Some?
  }

  datatype Step =
    | Publish(cid: string, now: int, saved: bool)
    | Unpublish(cid: string, saved: bool)
    | Announce(key: string, now: int)
    | CleanStale(now: int)
    | Republish(pullable: set<string>)

  /** Storing under this key leaves the index exact and the counters usable: it is not the counters' key, not
      a label key of this peer that is not stored, and not a new record key unless for a CID without labels. */
  ghost predicate Harmless(ds: Store, node: Node, k: string) {
    && k != METRICS_KEY
    && (LabelOfPeer(k, node.peer) ==> k in ds)
    && (RECORDS_PREFIX <= k ==>
          k in ds || (CleanComponent(k[|RECORDS_PREFIX|..]) && node.LabelsOf(k[|RECORDS_PREFIX|..]) == []))
  }

  /** CIDs are clean path components, and an announcement is stored where it does no harm. */
  ghost predicate Admissible(ds: Store, step: Step, node: Node) {
    match step
    case Publish(cid, _, _) => CleanComponent(cid)
    case Unpublish(cid, _) => CleanComponent(cid)
    case Announce(key, _) => Harmless(ds, node, NewKey(key))
    case CleanStale(_) => true
    case Republish(_) => true
  }

  /** Publish and Unpublish fail without effect when the counters do not decode. */
  function Apply(ds: Store, node: Node, step: Step): Store {
    match step
    case Publish(cid, now, saved) =>
      if LoadMetrics(ds).Some? then PublishEffect(ds, node.peer, cid, node.LabelsOf(cid), now, saved)
      else if MapLost(ds) then PublishWithoutMap(ds, cid, node.LabelsOf(cid), saved)
      else ds
    case Unpublish(cid, saved) =>
      if LoadMetrics(ds).Some? then UnpublishEffect(ds, node.peer, cid, node.LabelsOf(cid), saved)
      else if MapLost(ds) then UnpublishWithoutMap(ds, node.peer, cid, node.LabelsOf(cid), saved)
      else ds
    case Announce(key, now) => AnnounceEffect(ds, key, now)
    case CleanStale(now) => CleanStaleEffect(ds, node.peer, now)
    case Republish(pullable) => RepublishEffect(ds, node.peer, pullable)
  }

  // ---------------------------------------------------------------- keys do not clash

  lemma NamespaceKeysApart(k: string)
    requires IsNamespaceKey(k)
    ensures !(RECORDS_PREFIX <= k) && k != METRICS_KEY
  {
    var i :| 0 <= i < |ALL_NAMESPACES| && ALL_NAMESPACES[i].Prefix() <= k;
    assert k[1] == ALL_NAMESPACES[i].Prefix()[1];
    assert RECORDS_PREFIX[1] == 'r' && METRICS_KEY[1] == 'm';
  }

  lemma RecordKeysApart(k: string)
    requires RECORDS_PREFIX <= k
    ensures k == RECORDS_PREFIX + k[|RECORDS_PREFIX|..] && k != METRICS_KEY
  {
    assert k[1] == RECORDS_PREFIX[1] == 'r' && METRICS_KEY[1] == 'm';
  }

  lemma RecordKeyClean(cid: string)
    requires CleanComponent(cid)
    ensures RecordKey(cid) == RECORDS_PREFIX + cid
    ensures RecordKey(cid) != METRICS_KEY
    ensures Base(RecordKey(cid)) == cid
  {
    var k := RECORDS_PREFIX + cid;
    var dir := "records";
    assert k == "/" + dir + "/" + cid;
    UnderRoot(dir, cid);
    SplitAtom(cid, '/');
    NewKeyFixed(k);
    assert k[1] == 'r' && METRICS_KEY[1] == 'm';
  }

  lemma PublishedMember(ds: Store, cid: string)
    requires CleanComponent(cid)
    ensures cid in Published(ds) <==> RecordKey(cid) in ds
  {
    RecordKeyClean(cid);
    assert (RECORDS_PREFIX + cid)[|RECORDS_PREFIX|..] == cid;
    if cid in Published(ds) {
      var k :| k in ds && RECORDS_PREFIX <= k && k[|RECORDS_PREFIX|..] == cid;
      assert k == RECORDS_PREFIX + cid;
    }
  }

  /** The key of a good label is its plain concatenation, and a label key of this peer. */
  lemma LabelKeyFacts(node: Node, cid: string, lbl: string)
    requires node.Indexable(cid) && CleanComponent(cid) && lbl in node.LabelsOf(cid)
    ensures LabelKeyOf(lbl, cid, node.peer) == Build(lbl, cid, node.peer)
    ensures LabelOfPeer(LabelKeyOf(lbl, cid, node.peer), node.peer)
    ensures Parse(LabelKeyOf(lbl, cid, node.peer)) == Ok(LabelKey(lbl, cid, node.peer))
  {
    LabelsHavePath(node.recordOf(cid), lbl);
    StoredKeyParsesBack(lbl, cid, node.peer);
    var i :| 0 <= i < |ALL_NAMESPACES| && ALL_NAMESPACES[i].Prefix() <= lbl;
    assert ALL_NAMESPACES[i].Prefix() <= Build(lbl, cid, node.peer);
  }

  lemma LabelKeySetExact(node: Node, cid: string, k: string)
    requires node.Indexable(cid) && CleanComponent(cid)
    ensures k in LabelKeySet(node.LabelsOf(cid), cid, node.peer)
            <==> LabelOfPeer(k, node.peer) && Parse(k).value.cid == cid && Parse(k).value.lbl in node.LabelsOf(cid)
  {
    var labels := node.LabelsOf(cid);
    if k in LabelKeySet(labels, cid, node.peer) {
      var i :| 0 <= i < |labels| && k == LabelKeyOf(labels[i], cid, node.peer);
      LabelKeyFacts(node, cid, labels[i]);
    }
    if LabelOfPeer(k, node.peer) && Parse(k).value.cid == cid && Parse(k).value.lbl in labels {
      BuildParse(k);
      LabelKeyFacts(node, cid, Parse(k).value.lbl);
      var i :| 0 <= i < |labels| && labels[i] == Parse(k).value.lbl;
      assert k == LabelKeyOf(labels[i], cid, node.peer);
    }
  }

  // ---------------------------------------------------------------- each step keeps the index

  /** The published set depends only on the record keys. */
  lemma PublishedFrom(ds: Store, ds': Store, gained: set<string>, lost: set<string>)
    requires forall c :: c in gained + lost ==> CleanComponent(c)
    requires gained !! lost
    requires forall k :: RECORDS_PREFIX <= k ==>
               (k in ds' <==> (k in ds || k[|RECORDS_PREFIX|..] in gained) && k[|RECORDS_PREFIX|..] !in lost)
    ensures Published(ds') == (Published(ds) + gained) - lost
  {
    forall c ensures c in Published(ds') <==> c in (Published(ds) + gained) - lost {
      var k := RECORDS_PREFIX + c;
      assert k[|RECORDS_PREFIX|..] == c;
      assert forall k' :: RECORDS_PREFIX <= k' && k'[|RECORDS_PREFIX|..] == c ==> k' == k;
    }
  }

  /** Publishing writes the record key, the label keys and the counters, and nothing else. */
  lemma PublishFrame(ds: Store, peer: string, cid: string, labels: seq<string>, now: int, saved: bool)
    requires LoadMetrics(ds).Some? && RecordKey(cid) !in ds
    requires {RecordKey(cid), METRICS_KEY} !! LabelKeySet(labels, cid, peer) && RecordKey(cid) != METRICS_KEY
    ensures var ds' := PublishEffect(ds, peer, cid, labels, now, saved);
            var added := LabelKeySet(labels, cid, peer);
            && ds'.Keys == ds.Keys + added + {RecordKey(cid)} + (if saved then {METRICS_KEY} else {})
            && (forall k :: k in added ==> ds'[k] == Fresh(now))
            && (forall k :: k in ds && k !in added && k != METRICS_KEY ==> ds'[k] == ds[k])
            && LoadMetrics(ds') == Some(if saved then IncrementAll(LoadMetrics(ds).value, labels)
                                        else LoadMetrics(ds).value)
  {
    var added := LabelKeySet(labels, cid, peer);
    var indexed := ds[RecordKey(cid) := Marker] + (map k | k in added :: Fresh(now));
    assert indexed.Keys == ds.Keys + {RecordKey(cid)} + added;
    assert LoadMetrics(indexed) == LoadMetrics(ds);
    assert PublishEffect(ds, peer, cid, labels, now, saved)
           == SaveMetrics(indexed, IncrementAll(LoadMetrics(ds).value, labels), saved);
  }

  lemma PublishFacts(ds: Store, node: Node, cid: string, now: int, saved: bool)
    requires node.Indexable(cid) && Inv(ds, node) && CleanComponent(cid) && RecordKey(cid) !in ds
    ensures var ds' := Apply(ds, node, Publish(cid, now, saved));
            var added := LabelKeySet(node.LabelsOf(cid), cid, node.peer);
            && ds'.Keys == ds.Keys + added + {RecordKey(cid)} + (if saved then {METRICS_KEY} else {})
            && (forall k :: k in added ==> ds'[k] == Fresh(now))
            && (forall k :: k in ds && k !in added && k != METRICS_KEY ==> ds'[k] == ds[k])
            && LoadMetrics(ds') == Some(if saved then IncrementAll(LoadMetrics(ds).value, node.LabelsOf(cid))
                                        else LoadMetrics(ds).value)
            && Published(ds') == Published(ds) + {cid}
  {
    var added := LabelKeySet(node.LabelsOf(cid), cid, node.peer);
    forall k | k in added ensures !(RECORDS_PREFIX <= k) && k != METRICS_KEY {
      LabelKeySetExact(node, cid, k);
      NamespaceKeysApart(k);
    }
    RecordKeyClean(cid);
    PublishFrame(ds, node.peer, cid, node.LabelsOf(cid), now, saved);
    var ds' := Apply(ds, node, Publish(cid, now, saved));
    forall k | RECORDS_PREFIX <= k ensures k in ds' <==> k in ds || k[|RECORDS_PREFIX|..] == cid {
      RecordKeysApart(k);
    }
    PublishedFrom(ds, ds', {cid}, {});
  }

  lemma UnpublishFacts(ds: Store, node: Node, cid: string, saved: bool)
    requires node.WellFormed() && Inv(ds, node) && CleanComponent(cid)
    ensures var ds' := Apply(ds, node, Unpublish(cid, saved));
            var removed := LabelKeySet(node.LabelsOf(cid), cid, node.peer) + {RecordKey(cid)};
            && Published(ds') == Published(ds) - {cid}
            && (forall k :: k in removed ==> k !in ds')
            && (forall k :: k !in removed && k != METRICS_KEY ==>
                (k in ds' <==> k in ds) && (k in ds ==> ds'[k] == ds[k]))
            && LoadMetrics(ds').Some?
            && Totals(ds') == if saved then DecrementAll(Totals(ds), node.LabelsOf(cid)) else Totals(ds)
  {
    var added := LabelKeySet(node.LabelsOf(cid), cid, node.peer);
    forall k | k in added ensures !(RECORDS_PREFIX <= k) && k != METRICS_KEY {
      LabelKeySetExact(node, cid, k);
      NamespaceKeysApart(k);
    }
    RecordKeyClean(cid);
    var ds' := Apply(ds, node, Unpublish(cid, saved));
    forall k | RECORDS_PREFIX <= k ensures k in ds' <==> k in ds && k[|RECORDS_PREFIX|..] != cid {
      RecordKeysApart(k);
    }
    PublishedFrom(ds, ds', {}, {cid});
  }

  /** Steps that touch no record key and no label key of this peer keep the index. */
  lemma IndexFramed(ds: Store, ds': Store, node: Node)
    requires Inv(ds, node)
    requires forall k :: LabelOfPeer(k, node.peer) || RECORDS_PREFIX <= k ==> (k in ds' <==> k in ds)
    requires (METRICS_KEY in ds' <==> METRICS_KEY in ds) && (METRICS_KEY in ds ==> ds'[METRICS_KEY] == ds[METRICS_KEY])
    ensures Inv(ds', node) && Published(ds') == Published(ds) && Totals(ds') == Totals(ds)
  {
    assert Published(ds') == Published(ds);
    forall k | LabelOfPeer(k, node.peer) ensures ExactAt(ds', node, k) {
      assert ExactAt(ds, node, k);
    }
  }

  lemma AnnounceFacts(ds: Store, node: Node, key: string, now: int)
    requires Inv(ds, node) && Harmless(ds, node, NewKey(key))
    ensures var ds', k := AnnounceEffect(ds, key, now), NewKey(key);
            && Inv(ds', node) && Totals(ds') == Totals(ds)
            && Published(ds') == Published(ds) + (if RECORDS_PREFIX <= k then {k[|RECORDS_PREFIX|..]} else {})
  {
    var ds', k := AnnounceEffect(ds, key, now), NewKey(key);
    if RECORDS_PREFIX <= k && k !in ds {
      var cid := k[|RECORDS_PREFIX|..];
      assert k == RECORDS_PREFIX + cid;
      forall q | RECORDS_PREFIX <= q ensures q in ds' <==> q in ds || q[|RECORDS_PREFIX|..] == cid {
        assert q == RECORDS_PREFIX + q[|RECORDS_PREFIX|..];
      }
      PublishedFrom(ds, ds', {cid}, {});
      forall q | LabelOfPeer(q, node.peer) ensures ExactAt(ds', node, q) {
        assert ExactAt(ds, node, q);
        NamespaceKeysApart(q);
      }
    } else {
      IndexFramed(ds, ds', node);
    }
  }

  /** The key of a label before cleaning. */
  lemma PlainLabelKey(node: Node, cid: string, lbl: string) returns (k: string)
    requires CleanComponent(node.peer) && CleanComponent(cid) && lbl in node.LabelsOf(cid)
    ensures k == Build(lbl, cid, node.peer) && LabelOfPeer(k, node.peer)
    ensures Parse(k) == Ok(LabelKey(lbl, cid, node.peer)) && HasPath(lbl)
  {
    k := Build(lbl, cid, node.peer);
    LabelsHavePath(node.recordOf(cid), lbl);
    ParseBuild(lbl, cid, node.peer);
    var i :| 0 <= i < |ALL_NAMESPACES| && ALL_NAMESPACES[i].Prefix() <= lbl;
    assert ALL_NAMESPACES[i].Prefix() <= k;
  }

  /** A record key stored for a CID that has labels, but was not published, has no label keys to go with. */
  lemma BareRecordKey(ds: Store, ds': Store, node: Node, cid: string)
    requires Inv(ds, node) && CleanComponent(node.peer) && CleanComponent(cid) && node.LabelsOf(cid) != []
    requires cid !in Published(ds) && cid in Published(ds')
    requires forall k :: LabelOfPeer(k, node.peer) ==> (k in ds' <==> k in ds)
    ensures !IndexExact(ds', node)
  {
    var lbl := node.LabelsOf(cid)[0];
    var k := PlainLabelKey(node, cid, lbl);
    assert ExactAt(ds, node, k) && !ExactAt(ds', node, k);
  }

  /** The index does not depend on what is stored under the counters' key. */
  lemma CountersKeyApart(ds: Store, ds': Store, node: Node)
    requires ds'.Keys == ds.Keys + {METRICS_KEY}
    ensures Published(ds') == Published(ds) && (IndexExact(ds, node) ==> IndexExact(ds', node))
  {
    assert !(RECORDS_PREFIX <= METRICS_KEY) by { assert RECORDS_PREFIX[1] == 'r' && METRICS_KEY[1] == 'm'; }
    assert Published(ds') == Published(ds);
    if IndexExact(ds, node) {
      forall q | LabelOfPeer(q, node.peer) ensures ExactAt(ds', node, q) {
        assert ExactAt(ds, node, q);
        NamespaceKeysApart(q);
      }
    }
  }

  /** An announcement keeps the index exact and the counters usable if and only if its key is harmless,
      whatever the key. At the counters' key it is the counters that go: the index stays exact. */
  lemma AnnounceKeepsIndex(ds: Store, node: Node, key: string, now: int)
    requires Inv(ds, node) && CleanComponent(node.peer)
    ensures Inv(AnnounceEffect(ds, key, now), node) <==> Harmless(ds, node, NewKey(key))
    ensures NewKey(key) == METRICS_KEY ==>
              IndexExact(AnnounceEffect(ds, key, now), node) && MapLost(AnnounceEffect(ds, key, now))
  {
    var ds', k := AnnounceEffect(ds, key, now), NewKey(key);
    if k == METRICS_KEY {
      CountersKeyApart(ds, ds', node);
    } else if Harmless(ds, node, k) {
      AnnounceFacts(ds, node, key, now);
    } else if LabelOfPeer(k, node.peer) {
      NamespaceKeysApart(k);
      assert Published(ds') == Published(ds);
      assert ExactAt(ds, node, k) && !ExactAt(ds', node, k);
    } else if RECORDS_PREFIX <= k {
      var cid := k[|RECORDS_PREFIX|..];
      assert k == RECORDS_PREFIX + cid;
      assert k in ds';
      if CleanComponent(cid) {
        RecordKeyClean(cid);
        PublishedMember(ds, cid);
        PublishedMember(ds', cid);
        BareRecordKey(ds, ds', node, cid);
      }
    }
  }

  /** A label key that climbs out of its namespace. */
  function Climbing(dir: string, cid: string, dots: string): string {
    Build("/skills/../" + dir, cid, dots)
  }

  lemma ClimbingParts(dir: string, cid: string, dots: string)
    requires Free(dir, '/') && Free(cid, '/') && Free(dots, '/')
    ensures Split(Climbing(dir, cid, dots), '/') == ["", "skills", "..", dir, cid, dots]
  {
    var skills, up := "skills", "..";
    BuildParts("/skills/../" + dir, cid, dots);
    assert "/skills/../" + dir == "/" + skills + "/" + (up + "/" + dir);
    UnderRoot(skills, up + "/" + dir);
    SplitConcat(up, dir, '/');
    SplitAtom(up, '/');
    SplitAtom(dir, '/');
    SplitAtom(cid, '/');
    SplitAtom(dots, '/');
  }

  lemma CleanOne(done: seq<string>, part: string, rest: seq<string>)
    ensures part == "" || part == "." ==> CleanParts(done, [part] + rest) == CleanParts(done, rest)
    ensures part == ".." && done != [] ==> CleanParts(done, [part] + rest) == CleanParts(done[..|done| - 1], rest)
    ensures CleanComponent(part) ==> CleanParts(done, [part] + rest) == CleanParts(done + [part], rest)
  {
    assert ([part] + rest)[1..] == rest;
  }

  lemma ClimbingCleaned(dir: string, cid: string, dots: string)
    requires CleanComponent(dir) && CleanComponent(cid) && (dots == "." || dots == "..")
    ensures CleanParts([], ["", "skills", "..", dir, cid, dots]) == if dots == "." then [dir, cid] else [dir]
  {
    var skills := "skills";
    CleanOne([], "", [skills] + ([".."] + ([dir] + ([cid] + ([dots] + [])))));
    CleanOne([], skills, [".."] + ([dir] + ([cid] + ([dots] + []))));
    CleanOne([skills], "..", [dir] + ([cid] + ([dots] + [])));
    assert [skills][..0] == [] && [] + [skills] == [skills];
    CleanOne([], dir, [cid] + ([dots] + []));
    CleanOne([dir], cid, [dots] + []);
    CleanOne([dir, cid], dots, []);
    assert [] + [dir] == [dir] && [dir] + [cid] == [dir, cid] && [dir, cid][..1] == [dir];
    assert ["", skills, "..", dir, cid, dots] == [""] + ([skills] + ([".."] + ([dir] + ([cid] + ([dots] + [])))));
  }

  /** It passes the handler's checks, which look at the text as announced. */
  lemma ClimbingAccepted(dir: string, cid: string, dots: string, isCid: string -> bool)
    requires CleanComponent(dir) && CleanComponent(cid) && isCid(cid) && (dots == "." || dots == "..")
    ensures ExtractCidFromLabelKey(Climbing(dir, cid, dots), isCid) == Ok(cid)
    ensures ExtractPeer(Climbing(dir, cid, dots)) == dots
  {
    ClimbingParts(dir, cid, dots);
    assert ALL_NAMESPACES[0].Prefix() <= Climbing(dir, cid, dots);
  }

  /** And it is stored outside the namespace. */
  lemma ClimbingStored(dir: string, cid: string, dots: string)
    requires CleanComponent(dir) && CleanComponent(cid) && (dots == "." || dots == "..")
    ensures NewKey(Climbing(dir, cid, dots)) == if dots == "." then "/" + dir + "/" + cid else "/" + dir
  {
    ClimbingParts(dir, cid, dots);
    ClimbingCleaned(dir, cid, dots);
    assert Join([dir, cid], '/') == dir + "/" + cid;
  }

  /** So a key that the handler accepts, `/skills/../records/<cid>/.`, can publish a CID without its labels. */
  lemma ClimbingPublishes(ds: Store, node: Node, dir: string, cid: string, now: int)
    requires Inv(ds, node) && CleanComponent(node.peer) && CleanComponent(cid) && CleanComponent(dir)
    requires "/" + dir + "/" == RECORDS_PREFIX && cid !in Published(ds) && node.LabelsOf(cid) != []
    ensures var ds' := AnnounceEffect(ds, Climbing(dir, cid, "."), now);
            !Inv(ds', node) && cid in Published(ds') && StoredLabels(ds', node.peer, cid) == {}
  {
    var key := Climbing(dir, cid, ".");
    var ds' := AnnounceEffect(ds, key, now);
    ClimbingStored(dir, cid, ".");
    RecordKeyClean(cid);
    PublishedMember(ds, cid);
    PublishedMember(ds', cid);
    assert RecordKey(cid)[|RECORDS_PREFIX|..] == cid;
    AnnounceKeepsIndex(ds, node, key, now);
    forall k | k in ds' && LabelOfPeer(k, node.peer) ensures Parse(k).value.cid != cid {
      NamespaceKeysApart(k);
      assert ExactAt(ds, node, k);
    }
  }

  /** And `/skills/../metrics/<cid>/..` leaves counters without a map. */
  lemma ClimbingLosesCounters(ds: Store, dir: string, cid: string, now: int)
    requires CleanComponent(cid) && CleanComponent(dir) && "/" + dir == METRICS_KEY
    ensures MapLost(AnnounceEffect(ds, Climbing(dir, cid, ".."), now))
  {
    ClimbingStored(dir, cid, "..");
  }

  lemma CleanStaleFacts(ds: Store, node: Node, now: int)
    requires node.WellFormed() && Inv(ds, node)
    ensures var ds' := CleanStaleEffect(ds, node.peer, now);
            Inv(ds', node) && Published(ds') == Published(ds) && Totals(ds') == Totals(ds)
  {
    var ds' := CleanStaleEffect(ds, node.peer, now);
    forall k | LabelOfPeer(k, node.peer) || RECORDS_PREFIX <= k || k == METRICS_KEY ensures k in ds' <==> k in ds {
      if IsNamespaceKey(k) { NamespaceKeysApart(k); }
    }
    IndexFramed(ds, ds', node);
  }

  /** In a store whose record keys are plain, the orphans are the published CIDs that cannot be pulled. */
  lemma OrphansArePublished(ds: Store, node: Node, pullable: set<string>)
    requires Inv(ds, node)
    ensures Orphans(ds, pullable) == Published(ds) - pullable
    ensures forall cid :: cid in Orphans(ds, pullable) ==> CleanComponent(cid)
  {
    forall k | k in ds && RECORDS_PREFIX <= k ensures Base(k) == k[|RECORDS_PREFIX|..] && CleanComponent(Base(k)) {
      var cid := k[|RECORDS_PREFIX|..];
      assert k == RECORDS_PREFIX + cid;
      RecordKeyClean(cid);
    }
    forall cid ensures cid in Orphans(ds, pullable) <==> cid in Published(ds) - pullable {
      if cid in Orphans(ds, pullable) {
        var k :| k in ds && RECORDS_PREFIX <= k && Base(k) == cid && Base(k) !in pullable;
        assert k[|RECORDS_PREFIX|..] in Published(ds);
      }
      if cid in Published(ds) - pullable {
        var k :| k in ds && RECORDS_PREFIX <= k && k[|RECORDS_PREFIX|..] == cid;
        assert Base(k) in Orphans(ds, pullable);
      }
    }
  }

  /** Which keys a republish cycle keeps. */
  lemma RepublishKeeps(ds: Store, node: Node, pullable: set<string>, k: string)
    requires Inv(ds, node)
    ensures var ds' := RepublishEffect(ds, node.peer, pullable);
            && (RECORDS_PREFIX <= k ==> (k in ds' <==> k in ds && k[|RECORDS_PREFIX|..] in pullable))
            && (LabelOfPeer(k, node.peer) ==> (k in ds' <==> k in ds && Parse(k).value.cid in pullable))
            && (LabelOfOther(k, node.peer) || k == METRICS_KEY ==> (k in ds' <==> k in ds))
  {
    var orphans := Orphans(ds, pullable);
    OrphansArePublished(ds, node, pullable);
    if IsNamespaceKey(k) { NamespaceKeysApart(k); }
    forall cid | cid in orphans ensures RecordKey(cid) == RECORDS_PREFIX + cid && RecordKey(cid) != METRICS_KEY {
      RecordKeyClean(cid);
    }
    if RECORDS_PREFIX <= k {
      var cid := k[|RECORDS_PREFIX|..];
      assert k == RECORDS_PREFIX + cid;
      assert k in ds ==> cid in Published(ds);
    } else if LabelOfPeer(k, node.peer) {
      assert ExactAt(ds, node, k);
      assert Orphaned(k, node.peer, Parse(k).value.cid);
    }
  }

  /** A republish cycle leaves as published exactly the CIDs that can still be pulled, removes every
      local label of the others, and touches no well-formed key of another peer or another CID. */
  lemma RepublishFacts(ds: Store, node: Node, pullable: set<string>)
    requires node.WellFormed() && Inv(ds, node)
    ensures var ds' := RepublishEffect(ds, node.peer, pullable);
            && Published(ds') == Published(ds) * pullable
            && (forall cid :: cid !in pullable ==> StoredLabels(ds', node.peer, cid) == {})
            && (forall k :: k in ds && LabelOfOther(k, node.peer) ==> k in ds' && ds'[k] == ds[k])
            && (forall k :: k in ds && LabelOfPeer(k, node.peer) && Parse(k).value.cid in pullable ==>
                k in ds' && ds'[k] == ds[k])
            && ds'.Keys <= ds.Keys
            && Totals(ds') == Totals(ds)
            && Inv(ds', node)
  {
    var ds' := RepublishEffect(ds, node.peer, pullable);
    OrphansArePublished(ds, node, pullable);
    assert Published(ds') == Published(ds) * pullable by {
      forall k | RECORDS_PREFIX <= k ensures k in ds' <==> k in ds && k[|RECORDS_PREFIX|..] !in Orphans(ds, pullable) {
        RepublishKeeps(ds, node, pullable, k);
        assert k in ds ==> k[|RECORDS_PREFIX|..] in Published(ds);
      }
      PublishedFrom(ds, ds', {}, Orphans(ds, pullable));
    }
    forall k | LabelOfOther(k, node.peer) || k == METRICS_KEY ensures k in ds' <==> k in ds {
      RepublishKeeps(ds, node, pullable, k);
    }
    forall k | LabelOfPeer(k, node.peer) ensures (k in ds' <==> k in ds && Parse(k).value.cid in pullable)
      && ExactAt(ds', node, k) {
      RepublishKeeps(ds, node, pullable, k);
      assert ExactAt(ds, node, k);
    }
  }

  lemma PublishExactAt(ds: Store, node: Node, cid: string, now: int, saved: bool, k: string)
    requires node.Indexable(cid) && Inv(ds, node) && CleanComponent(cid) && RecordKey(cid) !in ds
    requires LabelOfPeer(k, node.peer)
    ensures ExactAt(Apply(ds, node, Publish(cid, now, saved)), node, k)
  {
    assert ExactAt(ds, node, k);
    PublishFacts(ds, node, cid, now, saved);
    PublishedMember(ds, cid);
    LabelKeySetExact(node, cid, k);
    NamespaceKeysApart(k);
    RecordKeyClean(cid);
  }

  lemma PublishKeepsInv(ds: Store, node: Node, cid: string, now: int, saved: bool)
    requires node.Indexable(cid) && Inv(ds, node) && CleanComponent(cid) && RecordKey(cid) !in ds
    ensures Inv(Apply(ds, node, Publish(cid, now, saved)), node)
  {
    var ds' := Apply(ds, node, Publish(cid, now, saved));
    assert IndexExact(ds', node) by {
      forall k | LabelOfPeer(k, node.peer) ensures ExactAt(ds', node, k) {
        PublishExactAt(ds, node, cid, now, saved, k);
      }
    }
    assert LoadMetrics(ds').Some? && Published(ds') == Published(ds) + {cid} by {
      PublishFacts(ds, node, cid, now, saved);
    }
    forall k | k in ds' && RECORDS_PREFIX <= k ensures CleanComponent(k[|RECORDS_PREFIX|..]) {
      assert k[|RECORDS_PREFIX|..] in Published(ds) + {cid};
    }
  }

  /** The key that listing would need for an unclean label is never stored. */
  lemma UncleanLabelUnlisted(ds: Store, node: Node, cid: string, now: int, saved: bool, lbl: string)
    requires Inv(ds, node) && CleanComponent(node.peer) && CleanComponent(cid) && RecordKey(cid) !in ds
    requires lbl in node.LabelsOf(cid) && !CleanKey(lbl)
    ensures !IndexExact(Apply(ds, node, Publish(cid, now, saved)), node)
  {
    var ds' := Apply(ds, node, Publish(cid, now, saved));
    var k := PlainLabelKey(node, cid, lbl);
    BuildClean(lbl, cid, node.peer);
    NamespaceKeysApart(k);
    RecordKeyClean(cid);
    PublishedMember(ds, cid);
    PublishedMember(ds', cid);
    assert ExactAt(ds, node, k);
    forall i | 0 <= i < |node.LabelsOf(cid)| ensures LabelKeyOf(node.LabelsOf(cid)[i], cid, node.peer) != k {
      NewKeyIsClean(Build(node.LabelsOf(cid)[i], cid, node.peer));
      assert k != "/";
    }
    assert k !in ds';
    assert !ExactAt(ds', node, k);
  }

  /** Publishing a new CID keeps the index exact if and only if cleaning changes none of its labels. */
  lemma PublishKeepsIndex(ds: Store, node: Node, cid: string, now: int, saved: bool)
    requires Inv(ds, node) && CleanComponent(node.peer) && CleanComponent(cid) && cid !in Published(ds)
    ensures Inv(Apply(ds, node, Publish(cid, now, saved)), node) <==>
            forall lbl :: lbl in node.LabelsOf(cid) ==> CleanKey(lbl)
  {
    PublishedMember(ds, cid);
    if node.Indexable(cid) {
      PublishKeepsInv(ds, node, cid, now, saved);
    } else {
      var lbl :| lbl in node.LabelsOf(cid) && !CleanKey(lbl);
      UncleanLabelUnlisted(ds, node, cid, now, saved, lbl);
    }
  }

  lemma UnpublishKeepsInv(ds: Store, node: Node, cid: string, saved: bool)
    requires node.WellFormed() && Inv(ds, node) && CleanComponent(cid)
    ensures Inv(Apply(ds, node, Unpublish(cid, saved)), node)
  {
    var ds' := Apply(ds, node, Unpublish(cid, saved));
    UnpublishFacts(ds, node, cid, saved);
    RecordKeyClean(cid);
    forall k | LabelOfPeer(k, node.peer) ensures ExactAt(ds', node, k) {
      assert ExactAt(ds, node, k);
      LabelKeySetExact(node, cid, k);
      NamespaceKeysApart(k);
    }
    assert RECORDS_PREFIX[1] == 'r' && METRICS_KEY[1] == 'm';
  }

  /** Every admissible step keeps the index exact. */
  lemma StepKeepsInv(ds: Store, node: Node, step: Step)
    requires node.WellFormed() && Inv(ds, node) && Admissible(ds, step, node)
    ensures Inv(Apply(ds, node, step), node)
  {
    match step
    case Publish(cid, now, saved) =>
      if RecordKey(cid) !in ds {
        PublishKeepsInv(ds, node, cid, now, saved);
      }
    case Unpublish(cid, saved) => UnpublishKeepsInv(ds, node, cid, saved);
    case Announce(key, now) => AnnounceFacts(ds, node, key, now);
    case CleanStale(now) => CleanStaleFacts(ds, node, now);
    case Republish(pullable) => RepublishFacts(ds, node, pullable);
  }
}
