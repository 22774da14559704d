/** What holds in every run of the routing operations. */
module RoutingRuns {
  import opened Text
  import opened LabelKeys
  import opened Records
  import opened Metrics
  import opened RoutingIndex

  /** A run from the empty datastore: states[i] goes to states[i + 1] by steps[i]. */
  ghost predicate IsRun(node: Node, states: seq<Store>, steps: seq<Step>) {
    && node.WellFormed()
    && |states| == |steps| + 1
    && states[0] == map[]
    && forall i :: 0 <= i < |steps| ==>
          Admissible(states[i], steps[i], node) && states[i + 1] == Apply(states[i], node, steps[i])
  }

  // ---------------------------------------------------------------- the index

  lemma {:induction false} IndexExactInRuns(node: Node, states: seq<Store>, steps: seq<Step>, i: nat)
    requires IsRun(node, states, steps) && i <= |steps|
    ensures Inv(states[i], node)
  {
    if i > 0 {
      IndexExactInRuns(node, states, steps, i - 1);
      StepKeepsInv(states[i - 1], node, steps[i - 1]);
    }
  }

  /** Reading labels off the keys gives the labels of the record, for published CIDs and only for them. */
  lemma StoredLabelsExact(ds: Store, node: Node, cid: string)
    requires node.WellFormed() && Inv(ds, node)
    ensures StoredLabels(ds, node.peer, cid)
            == if cid in Published(ds) then (set lbl | lbl in node.LabelsOf(cid)) else {}
  {
    var stored := StoredLabels(ds, node.peer, cid);
    forall lbl | lbl in stored ensures cid in Published(ds) && lbl in node.LabelsOf(cid) {
      var k :| k in ds && LabelOfPeer(k, node.peer) && Parse(k).value.cid == cid && Parse(k).value.lbl == lbl;
      assert ExactAt(ds, node, k);
    }
    if cid in Published(ds) {
      var rk :| rk in ds && RECORDS_PREFIX <= rk && rk[|RECORDS_PREFIX|..] == cid;
      forall lbl | lbl in node.LabelsOf(cid) ensures lbl in stored {
        var k := LabelKeyOf(lbl, cid, node.peer);
        LabelKeyFacts(node, cid, lbl);
        assert ExactAt(ds, node, k);
      }
    }
  }

  /** Publishing what is already published changes nothing. */
  lemma PublishTwice(ds: Store, node: Node, cid: string, now: int, later: int, saved: bool, savedAgain: bool)
    requires node.WellFormed() && Inv(ds, node) && CleanComponent(cid)
    ensures var once := Apply(ds, node, Publish(cid, now, saved));
            Apply(once, node, Publish(cid, later, savedAgain)) == once
  {
    if RecordKey(cid) !in ds {
      PublishFacts(ds, node, cid, now, saved);
    }
  }

  // ---------------------------------------------------------------- the counters

  /** Occurrences of a label over the records of a set of CIDs. */
  ghost function TrueCount(node: Node, cids: set<string>, lbl: string): nat {
    if cids == {} then 0
    else
      var c :| c in cids;
      multiset(node.LabelsOf(c))[lbl] + TrueCount(node, cids - {c}, lbl)
  }

  lemma {:induction false} TrueCountSplit(node: Node, cids: set<string>, c: string, lbl: string)
    requires c in cids
    ensures TrueCount(node, cids, lbl) == multiset(node.LabelsOf(c))[lbl] + TrueCount(node, cids - {c}, lbl)
    decreases cids
  {
    var d :| d in cids && TrueCount(node, cids, lbl) == multiset(node.LabelsOf(d))[lbl]
        + TrueCount(node, cids - {d}, lbl);
    if d != c {
      TrueCountSplit(node, cids - {d}, c, lbl);
      TrueCountSplit(node, cids - {c}, d, lbl);
      assert cids - {d} - {c} == cids - {c} - {d};
    }
  }

  ghost function Carriers(node: Node, cids: set<string>, lbl: string): set<string> {
    set c | c in cids && lbl in node.LabelsOf(c)
  }

  ghost predicate NoneTwice(node: Node, cids: set<string>, lbl: string) {
    forall c :: c in cids ==> multiset(node.LabelsOf(c))[lbl] <= 1
  }

  lemma CarriersSplit(node: Node, cids: set<string>, c: string, lbl: string)
    requires c in cids
    ensures |Carriers(node, cids, lbl)| == |Carriers(node, cids - {c}, lbl)|
            + (if multiset(node.LabelsOf(c))[lbl] > 0 then 1 else 0)
    ensures NoneTwice(node, cids, lbl) <==> NoneTwice(node, cids - {c}, lbl) && multiset(node.LabelsOf(c))[lbl] <= 1
  {
    assert lbl in node.LabelsOf(c) <==> multiset(node.LabelsOf(c))[lbl] > 0;
    if lbl in node.LabelsOf(c) {
      assert Carriers(node, cids, lbl) == Carriers(node, cids - {c}, lbl) + {c};
    } else {
      assert Carriers(node, cids, lbl) == Carriers(node, cids - {c}, lbl);
    }
  }

  /** The count is the number of records that carry the label exactly when none carries it twice. */
  lemma {:induction false} CountsRecords(node: Node, cids: set<string>, lbl: string)
    ensures |Carriers(node, cids, lbl)| <= TrueCount(node, cids, lbl)
    ensures TrueCount(node, cids, lbl) == |Carriers(node, cids, lbl)| <==> NoneTwice(node, cids, lbl)
    decreases cids
  {
    if cids == {} {
      assert Carriers(node, cids, lbl) == {};
    } else {
      var c :| c in cids;
      CountsRecords(node, cids - {c}, lbl);
      TrueCountSplit(node, cids, c, lbl);
      CarriersSplit(node, cids, c, lbl);
    }
  }

  ghost predicate AtMostTrue(ds: Store, node: Node) {
    forall lbl :: Total(Totals(ds), lbl) <= TrueCount(node, Published(ds), lbl)
  }

  ghost predicate AtLeastTrue(ds: Store, node: Node) {
    forall lbl :: Total(Totals(ds), lbl) >= TrueCount(node, Published(ds), lbl)
  }

  /** An Unpublish of a CID that is not published. */
  ghost predicate IsStray(ds: Store, step: Step) {
    step.Unpublish? && step.cid !in Published(ds)
  }

  /** A republish cycle that finds something to clean. */
  ghost predicate CleansOrphans(ds: Store, step: Step) {
    step.Republish? && !(Published(ds) <= step.pullable)
  }

  ghost predicate CountersSaved(step: Step) {
    (step.Publish? || step.Unpublish?) ==> step.saved
  }

  lemma {:induction false} TrueCountMonotone(node: Node, a: set<string>, b: set<string>, lbl: string)
    requires a <= b
    ensures TrueCount(node, a, lbl) <= TrueCount(node, b, lbl)
    decreases a
  {
    if a != {} {
      var c :| c in a;
      TrueCountSplit(node, a, c, lbl);
      TrueCountSplit(node, b, c, lbl);
      TrueCountMonotone(node, a - {c}, b - {c}, lbl);
    }
  }

  /** What a first Publish stores: the record key, one key per label, and one more in a label's total for every
      skill, extension or locator of the record that gives it. */
  lemma PublishStores(ds: Store, node: Node, cid: string, now: int, lbl: string)
    requires node.WellFormed() && Inv(ds, node) && CleanComponent(cid) && cid !in Published(ds)
    ensures var ds' := Apply(ds, node, Publish(cid, now, true));
            && "/records/" + cid in ds' && "/metrics" in ds' && ds'["/metrics"] == Counts(Totals(ds'))
            && (Occurrences(node.recordOf(cid), lbl) > 0 ==> lbl + "/" + cid + "/" + node.peer in ds')
            && Total(Totals(ds'), lbl) == Total(Totals(ds), lbl) + Occurrences(node.recordOf(cid), lbl)
  {
    PublishedMember(ds, cid);
    RecordKeyClean(cid);
    PublishFacts(ds, node, cid, now, true);
    IncrementAllTotal(Totals(ds), node.LabelsOf(cid));
    LabelOccurrences(node.recordOf(cid), lbl);
    assert lbl in node.LabelsOf(cid) <==> multiset(node.LabelsOf(cid))[lbl] > 0;
    if lbl in node.LabelsOf(cid) {
      LabelKeyFacts(node, cid, lbl);
      LabelKeySetExact(node, cid, LabelKeyOf(lbl, cid, node.peer));
    }
  }

  /** And what Unpublish takes back. */
  lemma UnpublishRemoves(ds: Store, node: Node, cid: string, lbl: string)
    requires node.WellFormed() && Inv(ds, node) && CleanComponent(cid)
    ensures var ds' := Apply(ds, node, Unpublish(cid, true));
            && "/records/" + cid !in ds'
            && (Occurrences(node.recordOf(cid), lbl) > 0 ==> lbl + "/" + cid + "/" + node.peer !in ds')
            && Total(Totals(ds'), lbl) == if Total(Totals(ds), lbl) >= Occurrences(node.recordOf(cid), lbl)
                                          then Total(Totals(ds), lbl) - Occurrences(node.recordOf(cid), lbl) else 0
  {
    RecordKeyClean(cid);
    UnpublishFacts(ds, node, cid, true);
    DecrementAllTotal(Totals(ds), node.LabelsOf(cid));
    LabelOccurrences(node.recordOf(cid), lbl);
    assert lbl in node.LabelsOf(cid) <==> multiset(node.LabelsOf(cid))[lbl] > 0;
    if lbl in node.LabelsOf(cid) {
      LabelKeyFacts(node, cid, lbl);
      LabelKeySetExact(node, cid, LabelKeyOf(lbl, cid, node.peer));
    }
  }

  /** An announcement changes no total and no true count. */
  lemma AnnounceCounts(ds: Store, node: Node, key: string, now: int)
    requires Inv(ds, node) && Harmless(ds, node, NewKey(key))
    ensures var ds' := AnnounceEffect(ds, key, now);
            && Totals(ds') == Totals(ds)
            && forall lbl :: TrueCount(node, Published(ds'), lbl) == TrueCount(node, Published(ds), lbl)
  {
    var ds', k := AnnounceEffect(ds, key, now), NewKey(key);
    AnnounceFacts(ds, node, key, now);
    if RECORDS_PREFIX <= k {
      var cid := k[|RECORDS_PREFIX|..];
      assert k in ds ==> cid in Published(ds);
      if cid !in Published(ds) {
        forall lbl ensures TrueCount(node, Published(ds'), lbl) == TrueCount(node, Published(ds), lbl) {
          TrueCountSplit(node, Published(ds'), cid, lbl);
          assert Published(ds') - {cid} == Published(ds);
        }
      } else {
        assert Published(ds') == Published(ds);
      }
    } else {
      assert Published(ds') == Published(ds);
    }
  }

  lemma PublishCounts(ds: Store, node: Node, cid: string, now: int, saved: bool)
    requires node.WellFormed() && Inv(ds, node) && CleanComponent(cid) && RecordKey(cid) !in ds
    ensures var ds' := Apply(ds, node, Publish(cid, now, saved));
            && (Tidy(Totals(ds)) ==> Tidy(Totals(ds')))
            && (saved && AtMostTrue(ds, node) ==> AtMostTrue(ds', node))
            && (saved && AtLeastTrue(ds, node) ==> AtLeastTrue(ds', node))
  {
    var ds' := Apply(ds, node, Publish(cid, now, saved));
    PublishFacts(ds, node, cid, now, saved);
    PublishedMember(ds, cid);
    IncrementAllTotal(Totals(ds), node.LabelsOf(cid));
    forall lbl ensures TrueCount(node, Published(ds'), lbl) == multiset(node.LabelsOf(cid))[lbl]
      + TrueCount(node, Published(ds), lbl) {
      TrueCountSplit(node, Published(ds'), cid, lbl);
      assert Published(ds') - {cid} == Published(ds);
    }
  }

  lemma UnpublishCounts(ds: Store, node: Node, cid: string, saved: bool)
    requires node.WellFormed() && Inv(ds, node) && CleanComponent(cid)
    ensures var ds' := Apply(ds, node, Unpublish(cid, saved));
            && (Tidy(Totals(ds)) ==> Tidy(Totals(ds')))
            && (saved && AtMostTrue(ds, node) ==> AtMostTrue(ds', node))
            && (saved && AtLeastTrue(ds, node) && cid in Published(ds) ==> AtLeastTrue(ds', node))
  {
    var ds' := Apply(ds, node, Unpublish(cid, saved));
    UnpublishFacts(ds, node, cid, saved);
    DecrementAllTotal(Totals(ds), node.LabelsOf(cid));
    if cid in Published(ds) {
      forall lbl ensures TrueCount(node, Published(ds), lbl) == multiset(node.LabelsOf(cid))[lbl]
        + TrueCount(node, Published(ds'), lbl) {
        TrueCountSplit(node, Published(ds), cid, lbl);
      }
    } else {
      assert Published(ds') == Published(ds);
    }
  }

  lemma CountersStep(ds: Store, node: Node, step: Step)
    requires node.WellFormed() && Inv(ds, node) && Admissible(ds, step, node)
    ensures var ds' := Apply(ds, node, step);
            && (Tidy(Totals(ds)) ==> Tidy(Totals(ds')))
            && (CountersSaved(step) && AtMostTrue(ds, node) && !CleansOrphans(ds, step) ==> AtMostTrue(ds', node))
            && (CountersSaved(step) && AtLeastTrue(ds, node) && !IsStray(ds, step) ==> AtLeastTrue(ds', node))
  {
    match step
    case Publish(cid, now, saved) =>
      if RecordKey(cid) !in ds { PublishCounts(ds, node, cid, now, saved); }
    case Unpublish(cid, saved) => UnpublishCounts(ds, node, cid, saved);
    case Announce(key, now) => AnnounceCounts(ds, node, key, now);
    case CleanStale(now) => CleanStaleFacts(ds, node, now);
    case Republish(pullable) =>
      RepublishFacts(ds, node, pullable);
      if Published(ds) <= pullable {
        assert Published(ds) * pullable == Published(ds);
      } else {
        forall lbl ensures TrueCount(node, Published(ds) * pullable, lbl) <= TrueCount(node, Published(ds), lbl) {
          TrueCountMonotone(node, Published(ds) * pullable, Published(ds), lbl);
        }
      }
  }

  /** While every counter write succeeds: without orphan cleanup no total exceeds the true count,
      without stray Unpublish none falls below it, and with neither they are equal. No zero entry
      is ever stored, whatever fails. */
  lemma {:induction false} MetricsBounded(node: Node, states: seq<Store>, steps: seq<Step>, i: nat)
    requires IsRun(node, states, steps) && i <= |steps|
    ensures Tidy(Totals(states[i]))
    ensures (forall j :: 0 <= j < i ==> CountersSaved(steps[j]) && !CleansOrphans(states[j], steps[j])) ==>
            AtMostTrue(states[i], node)
    ensures (forall j :: 0 <= j < i ==> CountersSaved(steps[j]) && !IsStray(states[j], steps[j])) ==>
            AtLeastTrue(states[i], node)
  {
    if i == 0 {
      assert Published(states[0]) == {};
    } else {
      MetricsBounded(node, states, steps, i - 1);
      IndexExactInRuns(node, states, steps, i - 1);
      CountersStep(states[i - 1], node, steps[i - 1]);
    }
  }

  // ---------------------------------------------------------------- when the counters stay exact

  ghost predicate CountsExact(ds: Store, node: Node) {
    forall lbl :: Total(Totals(ds), lbl) == TrueCount(node, Published(ds), lbl)
  }

  ghost predicate Unlabelled(node: Node, cids: set<string>) {
    forall cid :: cid in cids ==> node.LabelsOf(cid) == []
  }

  /** What a step must meet to leave exact counters exact. */
  ghost predicate KeepsCounts(ds: Store, node: Node, step: Step) {
    match step
    case Publish(cid, _, saved) => saved || cid in Published(ds) || node.LabelsOf(cid) == []
    case Unpublish(cid, saved) =>
      if cid in Published(ds) then saved || node.LabelsOf(cid) == []
      else !saved || forall lbl :: lbl in node.LabelsOf(cid) ==> Total(Totals(ds), lbl) == 0
    case Announce(_, _) => true
    case CleanStale(_) => true
    case Republish(pullable) => Unlabelled(node, Published(ds) - pullable)
  }

  lemma FirstLabelCounted(node: Node, cid: string)
    requires node.LabelsOf(cid) != []
    ensures multiset(node.LabelsOf(cid))[node.LabelsOf(cid)[0]] > 0
  {
    assert node.LabelsOf(cid)[0] in node.LabelsOf(cid);
  }

  lemma PublishExact(ds: Store, node: Node, cid: string, now: int, saved: bool)
    requires node.WellFormed() && Inv(ds, node) && CleanComponent(cid) && CountsExact(ds, node)
    ensures CountsExact(Apply(ds, node, Publish(cid, now, saved)), node) <==>
            KeepsCounts(ds, node, Publish(cid, now, saved))
  {
    PublishedMember(ds, cid);
    if cid !in Published(ds) {
      var ds' := Apply(ds, node, Publish(cid, now, saved));
      PublishCounts(ds, node, cid, now, saved);
      PublishFacts(ds, node, cid, now, saved);
      forall lbl ensures TrueCount(node, Published(ds'), lbl) == multiset(node.LabelsOf(cid))[lbl]
        + TrueCount(node, Published(ds), lbl) {
        TrueCountSplit(node, Published(ds'), cid, lbl);
        assert Published(ds') - {cid} == Published(ds);
      }
      if node.LabelsOf(cid) != [] {
        FirstLabelCounted(node, cid);
        assert Total(Totals(ds), node.LabelsOf(cid)[0]) == TrueCount(node, Published(ds), node.LabelsOf(cid)[0]);
      }
    }
  }

  /** Taking labels off totals that count nothing of them changes the totals unless they are zero. */
  lemma DecrementChanges(m: Counters, labels: seq<string>)
    ensures (forall lbl :: Total(DecrementAll(m, labels), lbl) == Total(m, lbl)) <==>
            forall lbl :: lbl in labels ==> Total(m, lbl) == 0
  {
    DecrementAllTotal(m, labels);
    assert forall lbl :: lbl in labels <==> multiset(labels)[lbl] > 0;
  }

  lemma UnpublishExact(ds: Store, node: Node, cid: string, saved: bool)
    requires node.WellFormed() && Inv(ds, node) && CleanComponent(cid) && CountsExact(ds, node)
    ensures CountsExact(Apply(ds, node, Unpublish(cid, saved)), node) <==> KeepsCounts(ds, node, Unpublish(cid, saved))
  {
    var ds' := Apply(ds, node, Unpublish(cid, saved));
    UnpublishFacts(ds, node, cid, saved);
    UnpublishCounts(ds, node, cid, saved);
    if cid in Published(ds) {
      forall lbl ensures TrueCount(node, Published(ds), lbl) == multiset(node.LabelsOf(cid))[lbl]
        + TrueCount(node, Published(ds'), lbl) {
        TrueCountSplit(node, Published(ds), cid, lbl);
      }
      if node.LabelsOf(cid) != [] {
        FirstLabelCounted(node, cid);
        assert Total(Totals(ds), node.LabelsOf(cid)[0]) == TrueCount(node, Published(ds), node.LabelsOf(cid)[0]);
      }
    } else {
      assert Published(ds') == Published(ds);
      DecrementChanges(Totals(ds), node.LabelsOf(cid));
    }
  }

  lemma {:induction false} UnlabelledCount(node: Node, cids: set<string>, kept: set<string>, lbl: string)
    requires kept <= cids && Unlabelled(node, cids - kept)
    ensures TrueCount(node, kept, lbl) == TrueCount(node, cids, lbl)
    decreases cids - kept
  {
    if cids - kept == {} {
      assert forall c :: c in cids ==> c in cids - kept || c in kept;
      assert cids == kept;
    } else {
      var cid :| cid in cids - kept;
      TrueCountSplit(node, cids, cid, lbl);
      UnlabelledCount(node, cids - {cid}, kept, lbl);
    }
  }

  /** Leaving CIDs out changes no count exactly when they have no labels. */
  lemma SameCounts(node: Node, all: set<string>, kept: set<string>)
    requires kept <= all
    ensures (forall lbl :: TrueCount(node, kept, lbl) == TrueCount(node, all, lbl)) <==> Unlabelled(node, all - kept)
  {
    if Unlabelled(node, all - kept) {
      forall lbl ensures TrueCount(node, kept, lbl) == TrueCount(node, all, lbl) {
        UnlabelledCount(node, all, kept, lbl);
      }
    } else {
      var cid :| cid in all - kept && node.LabelsOf(cid) != [];
      var lbl := node.LabelsOf(cid)[0];
      FirstLabelCounted(node, cid);
      TrueCountSplit(node, all, cid, lbl);
      TrueCountMonotone(node, kept, all - {cid}, lbl);
    }
  }

  lemma RepublishExact(ds: Store, node: Node, pullable: set<string>)
    requires node.WellFormed() && Inv(ds, node) && CountsExact(ds, node)
    ensures CountsExact(Apply(ds, node, Republish(pullable)), node) <==> KeepsCounts(ds, node, Republish(pullable))
  {
    var all, kept := Published(ds), Published(ds) * pullable;
    RepublishFacts(ds, node, pullable);
    assert all - kept == all - pullable;
    SameCounts(node, all, kept);
    var ds' := Apply(ds, node, Republish(pullable));
    assert Published(ds') == kept && Totals(ds') == Totals(ds);
    if Unlabelled(node, all - kept) {
      forall lbl ensures Total(Totals(ds'), lbl) == TrueCount(node, Published(ds'), lbl) {
        assert TrueCount(node, kept, lbl) == TrueCount(node, all, lbl);
      }
    } else {
      var lbl :| TrueCount(node, kept, lbl) != TrueCount(node, all, lbl);
      assert Total(Totals(ds), lbl) == TrueCount(node, all, lbl);
      assert Total(Totals(ds'), lbl) != TrueCount(node, Published(ds'), lbl);
    }
  }

  /** From exact counters, a step leaves them exact if and only if it meets its condition. */
  lemma StepKeepsCounts(ds: Store, node: Node, step: Step)
    requires node.WellFormed() && Inv(ds, node) && Admissible(ds, step, node) && CountsExact(ds, node)
    ensures CountsExact(Apply(ds, node, step), node) <==> KeepsCounts(ds, node, step)
  {
    match step
    case Publish(cid, now, saved) => PublishExact(ds, node, cid, now, saved);
    case Unpublish(cid, saved) => UnpublishExact(ds, node, cid, saved);
    case Announce(key, now) => AnnounceCounts(ds, node, key, now);
    case CleanStale(now) => CleanStaleFacts(ds, node, now);
    case Republish(pullable) => RepublishExact(ds, node, pullable);
  }

  /** So the counters are exact as long as every step meets its condition, and wrong right after the
      first that does not. */
  lemma {:induction false} CountsExactInRuns(node: Node, states: seq<Store>, steps: seq<Step>, i: nat)
    requires IsRun(node, states, steps) && i <= |steps|
    requires forall j :: 0 <= j < i ==> KeepsCounts(states[j], node, steps[j])
    ensures CountsExact(states[i], node)
    ensures i < |steps| ==> (CountsExact(states[i + 1], node) <==> KeepsCounts(states[i], node, steps[i]))
  {
    IndexExactInRuns(node, states, steps, i);
    if i == 0 {
      assert Published(states[0]) == {};
    } else {
      CountsExactInRuns(node, states, steps, i - 1);
    }
    if i < |steps| {
      StepKeepsCounts(states[i], node, steps[i]);
    }
  }

  lemma TwoStepRun(node: Node, first: Step, second: Step, s1: Store, s2: Store)
    requires node.WellFormed() && Admissible(map[], first, node) && s1 == Apply(map[], node, first)
    requires Admissible(s1, second, node) && s2 == Apply(s1, node, second)
    ensures IsRun(node, [map[], s1, s2], [first, second])
  {
  }

  lemma EmptyStore(node: Node)
    ensures Inv(map[], node) && Published(map[]) == {} && CountsExact(map[], node)
  {
    assert Published(map[]) == {};
  }

  /** The state after publishing a first record. */
  lemma OneRecord(node: Node, cid: string, now: int) returns (s: Store)
    requires node.WellFormed() && CleanComponent(cid)
    ensures s == Apply(map[], node, Publish(cid, now, true))
    ensures Inv(s, node) && Published(s) == {cid} && CountsExact(s, node)
    ensures forall lbl :: lbl in node.LabelsOf(cid) ==> Total(Totals(s), lbl) > 0
  {
    EmptyStore(node);
    PublishedMember(map[], cid);
    s := Apply(map[], node, Publish(cid, now, true));
    PublishKeepsInv(map[], node, cid, now, true);
    PublishExact(map[], node, cid, now, true);
    assert Published(s) == {cid} by { PublishFacts(map[], node, cid, now, true); }
    forall lbl | lbl in node.LabelsOf(cid) ensures Total(Totals(s), lbl) > 0 {
      TrueCountSplit(node, {cid}, cid, lbl);
      assert Total(Totals(s), lbl) == TrueCount(node, Published(s), lbl);
      assert multiset(node.LabelsOf(cid))[lbl] > 0;
    }
  }

  /** A run of two steps whose second misses its condition. */
  lemma BrokenByStep(node: Node, first: Step, second: Step, s: Store) returns (states: seq<Store>)
    requires node.WellFormed() && Admissible(map[], first, node) && s == Apply(map[], node, first)
    requires Inv(s, node) && CountsExact(s, node) && Admissible(s, second, node) && !KeepsCounts(s, node, second)
    ensures IsRun(node, states, [first, second]) && !CountsExact(states[2], node)
  {
    var s' := Apply(s, node, second);
    states := [map[], s, s'];
    TwoStepRun(node, first, second, s, s');
    StepKeepsCounts(s, node, second);
  }

  lemma StrayMissesCondition(s: Store, node: Node, kept: string, stray: string, lbl: string)
    requires Published(s) == {kept} && kept != stray && lbl in node.LabelsOf(stray) && Total(Totals(s), lbl) > 0
    ensures !KeepsCounts(s, node, Unpublish(stray, true))
  {
  }

  /** A stray Unpublish that makes the counters wrong: it takes off a label that another record carries. */
  lemma StrayUnpublishUndercounts(node: Node, kept: string, stray: string, lbl: string, now: int)
    returns (states: seq<Store>)
    requires node.WellFormed() && CleanComponent(kept) && CleanComponent(stray) && kept != stray
    requires lbl in node.LabelsOf(kept) && lbl in node.LabelsOf(stray)
    ensures IsRun(node, states, [Publish(kept, now, true), Unpublish(stray, true)])
    ensures !CountsExact(states[2], node)
  {
    var first, second := Publish(kept, now, true), Unpublish(stray, true);
    var s := OneRecord(node, kept, now);
    StrayMissesCondition(s, node, kept, stray, lbl);
    states := BrokenByStep(node, first, second, s);
  }

  /** An orphan cleanup that makes them wrong: the record goes, its counts stay. */
  lemma OrphanCleanupOvercounts(node: Node, cid: string, now: int) returns (states: seq<Store>)
    requires node.WellFormed() && CleanComponent(cid) && node.LabelsOf(cid) != []
    ensures IsRun(node, states, [Publish(cid, now, true), Republish({})])
    ensures !CountsExact(states[2], node)
  {
    var first, second := Publish(cid, now, true), Republish({});
    var s := OneRecord(node, cid, now);
    assert cid in Published(s) - {};
    states := BrokenByStep(node, first, second, s);
  }

  // ---------------------------------------------------------------- when the counters are lost

  ghost predicate RecordsClean(ds: Store) {
    forall k :: k in ds && RECORDS_PREFIX <= k ==> CleanComponent(k[|RECORDS_PREFIX|..])
  }

  /** CIDs are clean path components; announcements may land anywhere else. */
  ghost predicate Regular(step: Step) {
    match step
    case Publish(cid, _, _) => CleanComponent(cid)
    case Unpublish(cid, _) => CleanComponent(cid)
    case Announce(key, _) =>
      RECORDS_PREFIX <= NewKey(key) ==> CleanComponent(NewKey(key)[|RECORDS_PREFIX|..])
    case CleanStale(_) => true
    case Republish(_) => true
  }

  lemma UnpublishWithoutMapKeeps(ds: Store, node: Node, cid: string, saved: bool)
    requires node.WellFormed() && MapLost(ds) && RecordsClean(ds) && CleanComponent(cid)
    ensures var ds' := UnpublishWithoutMap(ds, node.peer, cid, node.LabelsOf(cid), saved);
            MapLost(ds') && RecordsClean(ds')
  {
    RecordKeyClean(cid);
    if METRICS_KEY in LabelKeySet(node.LabelsOf(cid), cid, node.peer) {
      LabelKeySetExact(node, cid, METRICS_KEY);
      NamespaceKeysApart(METRICS_KEY);
    }
    assert !(RECORDS_PREFIX <= METRICS_KEY) by { assert RECORDS_PREFIX[1] == 'r' && METRICS_KEY[1] == 'm'; }
  }

  lemma RepublishKeepsCountersKey(ds: Store, node: Node, pullable: set<string>)
    requires RecordsClean(ds) && METRICS_KEY in ds
    ensures var ds' := RepublishEffect(ds, node.peer, pullable);
            METRICS_KEY in ds' && ds'[METRICS_KEY] == ds[METRICS_KEY]
  {
    forall cid | cid in Orphans(ds, pullable) ensures METRICS_KEY != RecordKey(cid)
      && !Orphaned(METRICS_KEY, node.peer, cid) {
      var k :| k in ds && RECORDS_PREFIX <= k && Base(k) == cid;
      RecordKeysApart(k);
      RecordKeyClean(k[|RECORDS_PREFIX|..]);
      if IsNamespaceKey(METRICS_KEY) { NamespaceKeysApart(METRICS_KEY); }
    }
  }

  lemma LostStaysLost(ds: Store, node: Node, step: Step)
    requires node.WellFormed() && MapLost(ds) && RecordsClean(ds) && Regular(step)
    ensures MapLost(Apply(ds, node, step)) && RecordsClean(Apply(ds, node, step))
  {
    assert !(RECORDS_PREFIX <= METRICS_KEY) by { assert RECORDS_PREFIX[1] == 'r' && METRICS_KEY[1] == 'm'; }
    match step
    case Publish(cid, _, _) =>
      RecordKeyClean(cid);
      assert RecordKey(cid)[|RECORDS_PREFIX|..] == cid;
    case Unpublish(cid, saved) => UnpublishWithoutMapKeeps(ds, node, cid, saved);
    case Announce(_, _) =>
    case CleanStale(_) =>
      if IsNamespaceKey(METRICS_KEY) { NamespaceKeysApart(METRICS_KEY); }
    case Republish(pullable) => RepublishKeepsCountersKey(ds, node, pullable);
  }

  /** Over lost counters a record without labels can still be published, and any record unpublished. */
  lemma WithoutCounters(ds: Store, node: Node, cid: string, now: int, saved: bool, lbl: string)
    requires node.WellFormed() && MapLost(ds) && CleanComponent(cid)
    ensures node.LabelsOf(cid) == [] ==> "/records/" + cid in Apply(ds, node, Publish(cid, now, saved))
    ensures var ds' := Apply(ds, node, Unpublish(cid, saved));
            && "/records/" + cid !in ds'
            && (lbl in node.LabelsOf(cid) ==> lbl + "/" + cid + "/" + node.peer !in ds')
  {
    RecordKeyClean(cid);
    if lbl in node.LabelsOf(cid) {
      LabelKeyFacts(node, cid, lbl);
      LabelKeySetExact(node, cid, LabelKeyOf(lbl, cid, node.peer));
      NamespaceKeysApart(LabelKeyOf(lbl, cid, node.peer));
    }
  }

  /** Over lost counters, publishing a new record with labels panics and writes nothing. */
  lemma PublishPanics(ds: Store, node: Node, cid: string, now: int, saved: bool)
    requires MapLost(ds) && RecordKey(cid) !in ds && node.LabelsOf(cid) != []
    ensures Apply(ds, node, Publish(cid, now, saved)) == ds && !PublishSucceeds(ds, cid, node.LabelsOf(cid), saved)
  {
  }

  /** Once an announcement has landed on the counters, no operation brings them back. */
  lemma {:induction false} CountersStayLost(node: Node, states: seq<Store>, steps: seq<Step>, i: nat, j: nat)
    requires node.WellFormed() && |states| == |steps| + 1
    requires forall n :: 0 <= n < |steps| ==> Regular(steps[n]) && states[n + 1] == Apply(states[n], node, steps[n])
    requires i <= j <= |steps| && MapLost(states[i]) && RecordsClean(states[i])
    ensures MapLost(states[j]) && RecordsClean(states[j])
    decreases j
  {
    if i < j {
      CountersStayLost(node, states, steps, i, j - 1);
      LostStaysLost(states[j - 1], node, steps[j - 1]);
    }
  }

  // ---------------------------------------------------------------- there and back

  lemma RestoredKey(ds: Store, mid: Store, node: Node, cid: string, now: int, k: string)
    requires node.WellFormed() && Inv(ds, node) && CleanComponent(cid) && RecordKey(cid) !in ds && k != METRICS_KEY
    requires mid == Apply(ds, node, Publish(cid, now, true)) && Inv(mid, node)
    requires k in LabelKeySet(node.LabelsOf(cid), cid, node.peer) ==> k !in ds
    ensures var back := Apply(mid, node, Unpublish(cid, true));
            (k in back <==> k in ds) && (k in ds ==> back[k] == ds[k])
  {
    var added := LabelKeySet(node.LabelsOf(cid), cid, node.peer);
    assert k !in added + {RecordKey(cid)} ==> (k in mid <==> k in ds) && (k in ds ==> mid[k] == ds[k]) by {
      PublishFacts(ds, node, cid, now, true);
    }
    UnpublishFacts(mid, node, cid, true);
  }

  /** Publishing a new CID and unpublishing it again restores records, labels and counters. */
  lemma PublishUnpublish(ds: Store, node: Node, cid: string, now: int)
    requires node.WellFormed() && Inv(ds, node) && Tidy(Totals(ds))
    requires CleanComponent(cid) && cid !in Published(ds)
    ensures var back := Apply(Apply(ds, node, Publish(cid, now, true)), node, Unpublish(cid, true));
            Totals(back) == Totals(ds) && back - {METRICS_KEY} == ds - {METRICS_KEY}
  {
    PublishedMember(ds, cid);
    var added := LabelKeySet(node.LabelsOf(cid), cid, node.peer);
    forall k | k in added ensures k !in ds {
      LabelKeySetExact(node, cid, k);
      assert ExactAt(ds, node, k);
    }
    var mid := Apply(ds, node, Publish(cid, now, true));
    var back := Apply(mid, node, Unpublish(cid, true));
    assert Inv(mid, node) by { PublishKeepsInv(ds, node, cid, now, true); }
    assert Totals(back) == Totals(ds) by {
      PublishFacts(ds, node, cid, now, true);
      UnpublishFacts(mid, node, cid, true);
      IncrementDecrement(Totals(ds), node.LabelsOf(cid));
    }
    forall k | k != METRICS_KEY ensures (k in back <==> k in ds) && (k in ds ==> back[k] == ds[k]) {
      RestoredKey(ds, mid, node, cid, now, k);
    }
  }
}
