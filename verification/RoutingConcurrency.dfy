/** Publish and Unpublish called at the same time. Each loads the counters, looks at the record index, commits
    its keys and saves the counters as four separate steps, without a lock. */
module RoutingConcurrency {
  import opened Text
  import opened Metrics
  import opened RoutingIndex
  import opened RoutingRuns

  datatype Op = Publishing(cid: string) | Unpublishing(cid: string)

  /** Where a call stands: the counters it loaded and, as history, what was published then. */
  datatype Caller =
    | Idle
    | Loaded(op: Op, counters: Counters, before: set<string>)
    | Checked(op: Op, counters: Counters, before: set<string>)
    | Committed(op: Op, counters: Counters, before: set<string>)

  datatype State = State(ds: Store, callers: seq<Caller>)

  datatype Action =
    | Load(c: nat, op: Op)
    | Check(c: nat)
    | Commit(c: nat, now: int)
    | Save(c: nat, saved: bool)
    | Other(step: Step)

  ghost predicate Enabled(s: State, node: Node, a: Action) {
    match a
    case Load(c, op) => c < |s.callers| && s.callers[c].Idle? && CleanComponent(op.cid) && LoadMetrics(s.ds).Some?
    case Check(c) => c < |s.callers| && s.callers[c].Loaded?
    case Commit(c, _) => c < |s.callers| && s.callers[c].Checked?
    case Save(c, _) => c < |s.callers| && s.callers[c].Committed?
    case Other(step) => !step.Publish? && !step.Unpublish? && Admissible(s.ds, step, node)
  }

  /** The batch of a Publish is written whether or not another call has published the CID by now. */
  function CommitEffect(ds: Store, node: Node, op: Op, now: int): Store {
    var keys := LabelKeySet(node.LabelsOf(op.cid), op.cid, node.peer);
    if op.Publishing? then ds[RecordKey(op.cid) := Marker] + (map k | k in keys :: Fresh(now))
    else ds - ({RecordKey(op.cid)} + keys)
  }

  function Counted(node: Node, op: Op, counters: Counters): Counters {
    if op.Publishing? then IncrementAll(counters, node.LabelsOf(op.cid))
    else DecrementAll(counters, node.LabelsOf(op.cid))
  }

  function Perform(s: State, node: Node, a: Action): State
    requires Enabled(s, node, a)
  {
    match a
    case Load(c, op) => s.(callers := s.callers[c := Loaded(op, LoadMetrics(s.ds).value, Published(s.ds))])
    case Check(c) =>
      var me := s.callers[c];
      var seen := me.op.Publishing? && RecordKey(me.op.cid) in s.ds;
      s.(callers := s.callers[c := if seen then Idle else Checked(me.op, me.counters, me.before)])
    case Commit(c, now) =>
      var me := s.callers[c];
      State(CommitEffect(s.ds, node, me.op, now), s.callers[c := Committed(me.op, me.counters, me.before)])
    case Save(c, saved) =>
      var me := s.callers[c];
      State(SaveMetrics(s.ds, Counted(node, me.op, me.counters), saved), s.callers[c := Idle])
    case Other(step) => s.(ds := Apply(s.ds, node, step))
  }

  ghost predicate Init(s: State) {
    s.ds == map[] && forall c :: 0 <= c < |s.callers| ==> s.callers[c].Idle?
  }

  ghost predicate IsRun(node: Node, states: seq<State>, actions: seq<Action>) {
    && node.WellFormed()
    && |states| == |actions| + 1
    && Init(states[0])
    && forall i :: 0 <= i < |actions| ==>
         Enabled(states[i], node, actions[i]) && states[i + 1] == Perform(states[i], node, actions[i])
  }

  ghost predicate CidsClean(s: State) {
    forall c :: 0 <= c < |s.callers| && !s.callers[c].Idle? ==> CleanComponent(s.callers[c].op.cid)
  }

  // ---------------------------------------------------------------- the index is safe

  /** A second commit of a published CID writes only keys that are there. */
  lemma RecommitFacts(ds: Store, node: Node, cid: string, now: int)
    requires node.WellFormed() && Inv(ds, node) && CleanComponent(cid) && RecordKey(cid) in ds
    ensures var ds' := CommitEffect(ds, node, Publishing(cid), now);
            Inv(ds', node) && Published(ds') == Published(ds) && Totals(ds') == Totals(ds)
  {
    var ds' := CommitEffect(ds, node, Publishing(cid), now);
    PublishedMember(ds, cid);
    RecordKeyClean(cid);
    forall k | k in LabelKeySet(node.LabelsOf(cid), cid, node.peer) ensures k in ds && k != METRICS_KEY {
      LabelKeySetExact(node, cid, k);
      assert ExactAt(ds, node, k);
      NamespaceKeysApart(k);
    }
    assert ds'.Keys == ds.Keys;
    IndexFramed(ds, ds', node);
  }

  lemma CommitFacts(ds: Store, node: Node, op: Op, now: int)
    requires node.WellFormed() && Inv(ds, node) && CleanComponent(op.cid)
    ensures var ds' := CommitEffect(ds, node, op, now);
            && Inv(ds', node) && Totals(ds') == Totals(ds)
            && Published(ds') == if op.Publishing? then Published(ds) + {op.cid} else Published(ds) - {op.cid}
  {
    var cid := op.cid;
    PublishedMember(ds, cid);
    if op.Unpublishing? {
      assert CommitEffect(ds, node, op, now) == Apply(ds, node, Unpublish(cid, false));
      UnpublishFacts(ds, node, cid, false);
      UnpublishKeepsInv(ds, node, cid, false);
    } else if RecordKey(cid) in ds {
      RecommitFacts(ds, node, cid, now);
      assert Published(ds) + {cid} == Published(ds);
    } else {
      assert CommitEffect(ds, node, op, now) == Apply(ds, node, Publish(cid, now, false));
      PublishFacts(ds, node, cid, now, false);
      PublishKeepsInv(ds, node, cid, now, false);
    }
  }

  lemma SaveFacts(ds: Store, node: Node, m: Counters, saved: bool)
    requires Inv(ds, node)
    ensures var ds' := SaveMetrics(ds, m, saved);
            Inv(ds', node) && Published(ds') == Published(ds) && Totals(ds') == if saved then m else Totals(ds)
  {
    if saved {
      var ds' := SaveMetrics(ds, m, saved);
      CountersKeyApart(ds, ds', node);
      assert !(RECORDS_PREFIX <= METRICS_KEY) by { assert RECORDS_PREFIX[1] == 'r' && METRICS_KEY[1] == 'm'; }
    }
  }

  lemma StepKeepsIndex(s: State, node: Node, a: Action)
    requires node.WellFormed() && Inv(s.ds, node) && CidsClean(s) && Enabled(s, node, a)
    ensures Inv(Perform(s, node, a).ds, node) && CidsClean(Perform(s, node, a))
  {
    match a
    case Load(_, _) =>
    case Check(_) =>
    case Commit(c, now) => CommitFacts(s.ds, node, s.callers[c].op, now);
    case Save(c, saved) => SaveFacts(s.ds, node, Counted(node, s.callers[c].op, s.callers[c].counters), saved);
    case Other(step) => StepKeepsInv(s.ds, node, step);
  }

  /** However calls interleave, the index is exact in every state. */
  lemma {:induction false} IndexExactInRuns(node: Node, states: seq<State>, actions: seq<Action>, i: nat)
    requires IsRun(node, states, actions) && i <= |actions|
    ensures Inv(states[i].ds, node) && CidsClean(states[i])
  {
    if i > 0 {
      IndexExactInRuns(node, states, actions, i - 1);
      StepKeepsIndex(states[i - 1], node, actions[i - 1]);
    }
  }

  // ---------------------------------------------------------------- what a save leaves

  /** The counters that were loaded count exactly what was published then. */
  ghost predicate LoadedExact(node: Node, me: Caller)
    requires !me.Idle?
  {
    forall lbl :: Total(me.counters, lbl) == TrueCount(node, me.before, lbl)
  }

  /** The count of a label after this call alone. */
  ghost function Alone(node: Node, me: Caller, lbl: string): nat
    requires !me.Idle?
  {
    var was, mine := TrueCount(node, me.before, lbl), multiset(node.LabelsOf(me.op.cid))[lbl];
    if me.op.Publishing? then was + mine else if was >= mine then was - mine else 0
  }

  /** A call that loaded exact counters saves exact ones if and only if all that was committed since then adds
      up to its own change. */
  lemma SaveExact(s: State, node: Node, c: nat)
    requires Inv(s.ds, node) && c < |s.callers| && s.callers[c].Committed? && LoadedExact(node, s.callers[c])
    ensures CountsExact(Perform(s, node, Save(c, true)).ds, node) <==>
            forall lbl :: TrueCount(node, Published(s.ds), lbl) == Alone(node, s.callers[c], lbl)
  {
    var me := s.callers[c];
    SaveFacts(s.ds, node, Counted(node, me.op, me.counters), true);
    IncrementAllTotal(me.counters, node.LabelsOf(me.op.cid));
    DecrementAllTotal(me.counters, node.LabelsOf(me.op.cid));
    var ds' := Perform(s, node, Save(c, true)).ds;
    assert forall lbl :: Total(Totals(ds'), lbl) == Alone(node, me, lbl);
    assert forall lbl :: TrueCount(node, Published(ds'), lbl) == TrueCount(node, Published(s.ds), lbl);
  }

  // ---------------------------------------------------------------- Publishes only

  ghost predicate PublishesOnly(a: Action) {
    (a.Load? ==> a.op.Publishing?) && (a.Other? ==> !a.step.Republish?)
  }

  ghost predicate CountedOk(node: Node, published: set<string>, me: Caller)
    requires !me.Idle?
  {
    forall lbl :: Total(me.counters, lbl) + multiset(node.LabelsOf(me.op.cid))[lbl]
                  <= TrueCount(node, published + {me.op.cid}, lbl)
  }

  /** What a call of Publish carries counts nothing that is not published. */
  ghost predicate CallerOk(node: Node, published: set<string>, me: Caller) {
    !me.Idle? ==>
      && me.op.Publishing? && me.before <= published
      && (me.Loaded? ==> forall lbl :: Total(me.counters, lbl) <= TrueCount(node, published, lbl))
      && (!me.Loaded? ==> me.op.cid !in me.before && CountedOk(node, published, me))
      && (me.Committed? ==> me.op.cid in published)
  }

  ghost predicate NothingDoubled(s: State, node: Node) {
    && AtMostTrue(s.ds, node)
    && forall c :: 0 <= c < |s.callers| ==> CallerOk(node, Published(s.ds), s.callers[c])
  }

  lemma CallerGrows(node: Node, published: set<string>, more: set<string>, me: Caller)
    requires published <= more && CallerOk(node, published, me)
    ensures CallerOk(node, more, me)
  {
    if !me.Idle? {
      forall lbl ensures TrueCount(node, published, lbl) <= TrueCount(node, more, lbl)
        ensures TrueCount(node, published + {me.op.cid}, lbl) <= TrueCount(node, more + {me.op.cid}, lbl)
      {
        TrueCountMonotone(node, published, more, lbl);
        TrueCountMonotone(node, published + {me.op.cid}, more + {me.op.cid}, lbl);
      }
    }
  }

  /** Where the published set grows and the totals stay, nothing becomes doubled. */
  lemma GrowthDoublesNothing(s: State, node: Node, ds': Store)
    requires NothingDoubled(s, node) && Published(s.ds) <= Published(ds') && Totals(ds') == Totals(s.ds)
    ensures NothingDoubled(s.(ds := ds'), node)
  {
    forall lbl ensures Total(Totals(ds'), lbl) <= TrueCount(node, Published(ds'), lbl) {
      TrueCountMonotone(node, Published(s.ds), Published(ds'), lbl);
      assert Total(Totals(s.ds), lbl) <= TrueCount(node, Published(s.ds), lbl);
    }
    forall c | 0 <= c < |s.callers| ensures CallerOk(node, Published(ds'), s.callers[c]) {
      CallerGrows(node, Published(s.ds), Published(ds'), s.callers[c]);
    }
  }

  /** A call that finds its CID unpublished will count it on top of counters that do not. */
  lemma CheckOk(s: State, node: Node, c: nat)
    requires Inv(s.ds, node) && CidsClean(s) && NothingDoubled(s, node) && Enabled(s, node, Check(c))
    ensures CallerOk(node, Published(s.ds), Perform(s, node, Check(c)).callers[c])
  {
    var me, published := s.callers[c], Published(s.ds);
    assert CallerOk(node, published, me);
    PublishedMember(s.ds, me.op.cid);
    if me.op.cid !in published {
      forall lbl ensures Total(me.counters, lbl) + multiset(node.LabelsOf(me.op.cid))[lbl]
                         <= TrueCount(node, published + {me.op.cid}, lbl)
      {
        TrueCountSplit(node, published + {me.op.cid}, me.op.cid, lbl);
        assert published + {me.op.cid} - {me.op.cid} == published;
        assert Total(me.counters, lbl) <= TrueCount(node, published, lbl);
      }
    }
  }

  lemma CommitDoublesNothing(s: State, node: Node, c: nat, now: int)
    requires node.WellFormed() && Inv(s.ds, node) && CidsClean(s) && NothingDoubled(s, node)
    requires Enabled(s, node, Commit(c, now))
    ensures NothingDoubled(Perform(s, node, Commit(c, now)), node)
  {
    var me := s.callers[c];
    assert CallerOk(node, Published(s.ds), me);
    CommitFacts(s.ds, node, me.op, now);
    var ds' := CommitEffect(s.ds, node, me.op, now);
    GrowthDoublesNothing(s, node, ds');
    assert CallerOk(node, Published(ds'), s.callers[c]);
  }

  lemma SaveDoublesNothing(s: State, node: Node, c: nat, saved: bool)
    requires Inv(s.ds, node) && NothingDoubled(s, node) && Enabled(s, node, Save(c, saved))
    ensures NothingDoubled(Perform(s, node, Save(c, saved)), node)
  {
    var me := s.callers[c];
    assert CallerOk(node, Published(s.ds), me);
    SaveFacts(s.ds, node, Counted(node, me.op, me.counters), saved);
    IncrementAllTotal(me.counters, node.LabelsOf(me.op.cid));
    assert Published(s.ds) + {me.op.cid} == Published(s.ds);
    assert CountedOk(node, Published(s.ds), me);
  }

  lemma OtherDoublesNothing(s: State, node: Node, step: Step)
    requires node.WellFormed() && Inv(s.ds, node) && NothingDoubled(s, node) && Admissible(s.ds, step, node)
    requires step.Announce? || step.CleanStale?
    ensures NothingDoubled(s.(ds := Apply(s.ds, node, step)), node)
  {
    if step.Announce? {
      AnnounceFacts(s.ds, node, step.key, step.now);
    } else {
      CleanStaleFacts(s.ds, node, step.now);
    }
    GrowthDoublesNothing(s, node, Apply(s.ds, node, step));
  }

  lemma StepDoublesNothing(s: State, node: Node, a: Action)
    requires node.WellFormed() && Inv(s.ds, node) && CidsClean(s) && NothingDoubled(s, node)
    requires Enabled(s, node, a) && PublishesOnly(a)
    ensures NothingDoubled(Perform(s, node, a), node)
  {
    match a
    case Load(_, _) =>
    case Check(c) => CheckOk(s, node, c);
    case Commit(c, now) => CommitDoublesNothing(s, node, c, now);
    case Save(c, saved) => SaveDoublesNothing(s, node, c, saved);
    case Other(step) => OtherDoublesNothing(s, node, step);
  }

  /** Concurrent Publishes never double a count, not even of the same CID: however they interleave, no total
      exceeds the true count. */
  lemma {:induction false} NeverDoubledInRuns(node: Node, states: seq<State>, actions: seq<Action>, i: nat)
    requires IsRun(node, states, actions) && i <= |actions|
    requires forall j :: 0 <= j < i ==> PublishesOnly(actions[j])
    ensures NothingDoubled(states[i], node)
  {
    if i == 0 {
      assert Published(states[0].ds) == {};
    } else {
      NeverDoubledInRuns(node, states, actions, i - 1);
      IndexExactInRuns(node, states, actions, i - 1);
      StepDoublesNothing(states[i - 1], node, actions[i - 1]);
    }
  }

  /** They can lose counts. A Publish that loaded exact counters saves exact ones if and only if every other
      CID published since then has no labels. */
  lemma PublishSaveExact(s: State, node: Node, c: nat)
    requires Inv(s.ds, node) && NothingDoubled(s, node) && c < |s.callers| && s.callers[c].Committed?
    requires LoadedExact(node, s.callers[c])
    ensures var me := s.callers[c];
            CountsExact(Perform(s, node, Save(c, true)).ds, node) <==>
            Unlabelled(node, Published(s.ds) - (me.before + {me.op.cid}))
  {
    var me, published := s.callers[c], Published(s.ds);
    assert CallerOk(node, published, me);
    SaveExact(s, node, c);
    var own := me.before + {me.op.cid};
    forall lbl ensures TrueCount(node, own, lbl) == Alone(node, me, lbl) {
      TrueCountSplit(node, own, me.op.cid, lbl);
      assert own - {me.op.cid} == me.before;
    }
    SameCounts(node, published, own);
  }

  // ---------------------------------------------------------------- both ways to go wrong

  /** Performing the actions one after the other leads from s to s'. */
  ghost predicate Reaches(node: Node, s: State, actions: seq<Action>, s': State)
    decreases |actions|
  {
    if actions == [] then s == s'
    else Enabled(s, node, actions[0]) && Reaches(node, Perform(s, node, actions[0]), actions[1..], s')
  }

  lemma ReachesBy(node: Node, s: State, a: Action, actions: seq<Action>, s': State)
    requires Enabled(s, node, a) && Reaches(node, Perform(s, node, a), actions, s')
    ensures Reaches(node, s, [a] + actions, s')
  {
    assert ([a] + actions)[1..] == actions;
  }

  lemma {:induction false} ReachesThrough(node: Node, s: State, first: seq<Action>, s1: State, second: seq<Action>,
                                          s2: State)
    requires Reaches(node, s, first, s1) && Reaches(node, s1, second, s2)
    ensures Reaches(node, s, first + second, s2)
    decreases |first|
  {
    if first == [] {
      assert first + second == second;
    } else {
      ReachesThrough(node, Perform(s, node, first[0]), first[1..], s1, second, s2);
      assert first + second == [first[0]] + (first[1..] + second);
      ReachesBy(node, s, first[0], first[1..] + second, s2);
    }
  }

  /** The rest of a call that has loaded, up to its save. */
  function Finish(c: nat, now: int): seq<Action> {
    [Check(c), Commit(c, now)]
  }

  lemma CheckThenCommit(node: Node, s: State, c: nat, now: int) returns (s': State)
    requires c < |s.callers| && s.callers[c].Loaded?
    requires s.callers[c].op.Publishing? ==> RecordKey(s.callers[c].op.cid) !in s.ds
    ensures Reaches(node, s, Finish(c, now), s')
    ensures var me := s.callers[c];
            s' == State(CommitEffect(s.ds, node, me.op, now), s.callers[c := Committed(me.op, me.counters, me.before)])
  {
    var s1 := Perform(s, node, Check(c));
    s' := Perform(s1, node, Commit(c, now));
    assert Reaches(node, s', [], s');
    ReachesBy(node, s1, Commit(c, now), [], s');
    ReachesBy(node, s, Check(c), [Commit(c, now)], s');
    assert [Commit(c, now)] + [] == [Commit(c, now)];
    assert [Check(c)] + [Commit(c, now)] == Finish(c, now);
  }

  lemma SavedTotal(s: State, node: Node, c: nat, lbl: string)
    requires Inv(s.ds, node) && c < |s.callers| && s.callers[c].Committed? && s.callers[c].op.Publishing?
    ensures var s', me := Perform(s, node, Save(c, true)), s.callers[c];
            && Published(s'.ds) == Published(s.ds)
            && Total(Totals(s'.ds), lbl) == Total(me.counters, lbl) + multiset(node.LabelsOf(me.op.cid))[lbl]
  {
    var me := s.callers[c];
    SaveFacts(s.ds, node, Counted(node, me.op, me.counters), true);
    IncrementAllTotal(me.counters, node.LabelsOf(me.op.cid));
  }

  /** Two callers that both load in a state with exact counters. */
  lemma BothLoad(s: State, node: Node, first: Op, second: Op) returns (s': State)
    requires Inv(s.ds, node) && s.callers == [Idle, Idle] && CleanComponent(first.cid) && CleanComponent(second.cid)
    ensures Reaches(node, s, [Load(0, first), Load(1, second)], s')
    ensures s'.ds == s.ds && |s'.callers| == 2
    ensures s'.callers[0] == Loaded(first, Totals(s.ds), Published(s.ds))
    ensures s'.callers[1] == Loaded(second, Totals(s.ds), Published(s.ds))
  {
    var s1 := Perform(s, node, Load(0, first));
    s' := Perform(s1, node, Load(1, second));
    assert Reaches(node, s', [], s');
    ReachesBy(node, s1, Load(1, second), [], s');
    ReachesBy(node, s, Load(0, first), [Load(1, second)], s');
    assert [Load(1, second)] + [] == [Load(1, second)];
    assert [Load(0, first)] + [Load(1, second)] == [Load(0, first), Load(1, second)];
  }

  lemma SaveLast(node: Node, s: State, c: nat) returns (s': State)
    requires Enabled(s, node, Save(c, true))
    ensures Reaches(node, s, [Save(c, true)], s') && s' == Perform(s, node, Save(c, true))
  {
    s' := Perform(s, node, Save(c, true));
    assert Reaches(node, s', [], s');
    ReachesBy(node, s, Save(c, true), [], s');
    assert [Save(c, true)] + [] == [Save(c, true)];
  }

  lemma LostCount(node: Node, published: set<string>, mine: string, other: string)
    requires mine !in published && other !in published && mine != other && node.LabelsOf(other) != []
    ensures var lbl := node.LabelsOf(other)[0];
            TrueCount(node, published, lbl) + multiset(node.LabelsOf(mine))[lbl]
            < TrueCount(node, published + {mine, other}, lbl)
  {
    var lbl := node.LabelsOf(other)[0];
    var all := published + {mine, other};
    TrueCountSplit(node, all, other, lbl);
    TrueCountSplit(node, all - {other}, mine, lbl);
    assert all - {other} - {mine} == published;
    FirstLabelCounted(node, other);
  }

  lemma TwoCommits(ds: Store, node: Node, first: string, second: string, now: int)
    requires node.WellFormed() && Inv(ds, node) && CleanComponent(first) && CleanComponent(second) && first != second
    requires first !in Published(ds) && second !in Published(ds)
    ensures var ds1 := CommitEffect(ds, node, Publishing(first), now);
            var ds2 := CommitEffect(ds1, node, Publishing(second), now);
            && RecordKey(first) !in ds && RecordKey(second) !in ds1
            && Inv(ds2, node) && Published(ds2) == Published(ds) + {first, second}
  {
    var ds1 := CommitEffect(ds, node, Publishing(first), now);
    PublishedMember(ds, first);
    CommitFacts(ds, node, Publishing(first), now);
    PublishedMember(ds1, second);
    CommitFacts(ds1, node, Publishing(second), now);
  }

  /** Two Publishes of new CIDs that both load, and then both check and commit. */
  lemma BothCommit(s: State, node: Node, first: string, second: string, now: int)
    returns (actions: seq<Action>, s': State)
    requires node.WellFormed() && Inv(s.ds, node) && s.callers == [Idle, Idle]
    requires CleanComponent(first) && CleanComponent(second) && first != second
    requires first !in Published(s.ds) && second !in Published(s.ds)
    ensures Reaches(node, s, actions, s') && Inv(s'.ds, node) && |s'.callers| == 2
    ensures s'.callers[0] == Committed(Publishing(first), Totals(s.ds), Published(s.ds))
    ensures s'.callers[1] == Committed(Publishing(second), Totals(s.ds), Published(s.ds))
    ensures Published(s'.ds) == Published(s.ds) + {first, second}
  {
    TwoCommits(s.ds, node, first, second, now);
    actions := [Load(0, Publishing(first)), Load(1, Publishing(second))];
    var s1 := BothLoad(s, node, Publishing(first), Publishing(second));
    var s2 := CheckThenCommit(node, s1, 0, now);
    s' := CheckThenCommit(node, s2, 1, now);
    ReachesThrough(node, s, actions, s1, Finish(0, now), s2);
    actions := actions + Finish(0, now);
    ReachesThrough(node, s, actions, s2, Finish(1, now), s');
    actions := actions + Finish(1, now);
  }

  /** From exact counters, two Publishes of new CIDs that both load before either saves lose the count of the
      one that saves first. */
  lemma OverlappingPublishesLose(s: State, node: Node, mine: string, other: string, now: int)
    returns (actions: seq<Action>, s': State)
    requires node.WellFormed() && Inv(s.ds, node) && CountsExact(s.ds, node) && s.callers == [Idle, Idle]
    requires CleanComponent(mine) && CleanComponent(other) && mine != other
    requires mine !in Published(s.ds) && other !in Published(s.ds) && node.LabelsOf(other) != []
    ensures Reaches(node, s, actions, s') && Published(s'.ds) == Published(s.ds) + {mine, other}
    ensures Total(Totals(s'.ds), node.LabelsOf(other)[0]) < TrueCount(node, Published(s'.ds), node.LabelsOf(other)[0])
  {
    var before, s1 := BothCommit(s, node, other, mine, now);
    var s2 := SaveLast(node, s1, 0);
    SaveFacts(s1.ds, node, Counted(node, s1.callers[0].op, s1.callers[0].counters), true);
    s' := SaveLast(node, s2, 1);
    ReachesThrough(node, s, before, s1, [Save(0, true)], s2);
    ReachesThrough(node, s, before + [Save(0, true)], s2, [Save(1, true)], s');
    actions := before + [Save(0, true)] + [Save(1, true)];
    var lbl := node.LabelsOf(other)[0];
    SavedTotal(s2, node, 1, lbl);
    assert Total(Totals(s.ds), lbl) == TrueCount(node, Published(s.ds), lbl);
    LostCount(node, Published(s.ds), mine, other);
    assert Published(s.ds) + {other, mine} == Published(s.ds) + {mine, other};
  }

  /** A Publish that loads exact counters and saves after another record was unpublished brings that record's
      counts back. */
  lemma OverlappedUnpublishOvercounts(s: State, node: Node, c: nat, gone: string)
    requires Inv(s.ds, node) && c < |s.callers| && s.callers[c].Committed? && s.callers[c].op.Publishing?
    requires var me := s.callers[c];
             && LoadedExact(node, me) && gone in me.before && node.LabelsOf(gone) != [] && me.op.cid !in me.before
             && Published(s.ds) == me.before - {gone} + {me.op.cid}
    ensures var lbl := node.LabelsOf(gone)[0];
            Total(Totals(Perform(s, node, Save(c, true)).ds), lbl) > TrueCount(node, Published(s.ds), lbl)
  {
    var me, lbl := s.callers[c], node.LabelsOf(gone)[0];
    assert Published(s.ds) - {me.op.cid} == me.before - {gone};
    TrueCountSplit(node, me.before, gone, lbl);
    TrueCountSplit(node, Published(s.ds), me.op.cid, lbl);
    FirstLabelCounted(node, gone);
    SavedTotal(s, node, c, lbl);
  }
}
