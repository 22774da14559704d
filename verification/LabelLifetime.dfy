/** How long announced labels of other peers live. */
module LabelLifetime {
  import opened Text
  import opened LabelKeys
  import opened RoutingIndex
  import opened RoutingRuns

  ghost predicate Timed(step: Step) {
    step.Publish? || step.Announce? || step.CleanStale?
  }

  /** The clock is never zero and never runs backwards. */
  ghost predicate ClockOk(steps: seq<Step>) {
    && (forall i :: 0 <= i < |steps| && Timed(steps[i]) ==> steps[i].now > 0)
    && (forall i, j :: 0 <= i < j < |steps| && Timed(steps[i]) && Timed(steps[j]) ==> steps[i].now <= steps[j].now)
  }

  ghost predicate Announces(step: Step, k: string) {
    step.Announce? && NewKey(step.key) == k
  }

  // ---------------------------------------------------------------- one step, one key

  ghost predicate Same(ds: Store, ds': Store, k: string) {
    (k in ds' <==> k in ds) && (k in ds ==> ds'[k] == ds[k])
  }

  /** Publishing writes only this peer's labels of that CID. */
  lemma PublishedLabelKey(ds: Store, node: Node, cid: string, now: int, saved: bool, k: string)
    requires node.WellFormed() && Inv(ds, node) && CleanComponent(cid) && IsNamespaceKey(k)
    ensures var ds' := Apply(ds, node, Publish(cid, now, saved));
            Same(ds, ds', k) || (LabelOfPeer(k, node.peer) && k in ds' && ds'[k] == Fresh(now))
  {
    NamespaceKeysApart(k);
    RecordKeyClean(cid);
    LabelKeySetExact(node, cid, k);
    if RecordKey(cid) !in ds {
      var ds', added := Apply(ds, node, Publish(cid, now, saved)), LabelKeySet(node.LabelsOf(cid), cid, node.peer);
      assert k in added ==> k in ds' && ds'[k] == Fresh(now) by { PublishFacts(ds, node, cid, now, saved); }
      assert k !in added ==> Same(ds, ds', k) by { PublishFacts(ds, node, cid, now, saved); }
    }
  }

  lemma UnpublishedLabelKey(ds: Store, node: Node, cid: string, saved: bool, k: string)
    requires node.WellFormed() && Inv(ds, node) && CleanComponent(cid) && IsNamespaceKey(k)
    ensures var ds' := Apply(ds, node, Unpublish(cid, saved));
            Same(ds, ds', k) || (LabelOfPeer(k, node.peer) && k !in ds')
  {
    NamespaceKeysApart(k);
    RecordKeyClean(cid);
    LabelKeySetExact(node, cid, k);
    UnpublishFacts(ds, node, cid, saved);
  }

  /** Only its own announcement and the stale cleanup touch another peer's label. */
  lemma ForeignKeyStep(ds: Store, node: Node, step: Step, k: string)
    requires node.WellFormed() && Inv(ds, node) && Admissible(ds, step, node) && LabelOfOther(k, node.peer)
    ensures var ds' := Apply(ds, node, step);
            if Announces(step, k) then
              && k in ds' && ds'[k].Meta? && ds'[k].meta.lastSeen == step.now
              && (k in ds && ds[k].Meta? ==> ds'[k].meta.timestamp == ds[k].meta.timestamp)
              && (k !in ds ==> ds'[k].meta.timestamp == step.now)
            else if step.CleanStale? && k in ds && Expired(k, ds[k], node.peer, step.now) then k !in ds'
            else Same(ds, ds', k)
  {
    match step
    case Publish(cid, now, saved) => PublishedLabelKey(ds, node, cid, now, saved, k);
    case Unpublish(cid, saved) => UnpublishedLabelKey(ds, node, cid, saved, k);
    case Announce(key, now) =>
    case CleanStale(now) =>
    case Republish(pullable) => RepublishKeeps(ds, node, pullable, k);
  }

  ghost predicate ValueOk(v: Value, horizon: int) {
    v.Meta? && v.meta.Valid() && 0 < v.meta.timestamp && v.meta.lastSeen <= horizon
  }

  /** What a stale cleanup deletes, with the times in seconds: entries of the four namespaces under another
      peer's key, or under a key too short to name one, that are too short, hold no metadata, lack a time,
      were last seen before they were first seen, or were last seen more than 72 hours ago. */
  lemma CleanupDeletes(ds: Store, peer: string, now: int, k: string)
    requires k in ds
    ensures k !in CleanStaleEffect(ds, peer, now) <==>
            && ("/skills/" <= k || "/domains/" <= k || "/features/" <= k || "/locators/" <= k)
            && (|Split(k, '/')| < 5 || Split(k, '/')[|Split(k, '/')| - 1] == ""
                || Split(k, '/')[|Split(k, '/')| - 1] != peer)
            && (|| |Split(k, '/')| < 5
                || !ds[k].Meta?
                || ds[k].meta.timestamp == 0 || ds[k].meta.lastSeen == 0
                || ds[k].meta.lastSeen < ds[k].meta.timestamp
                || now - ds[k].meta.lastSeen > 259200)
  {
    NamespaceTexts(k);
    BuildParse(k);
    assert IsNamespaceKey(k) ==> "/" <= k;
  }

  /** Every label entry holds valid metadata that is no younger than `horizon`. */
  ghost predicate MetadataOk(ds: Store, horizon: int) {
    forall k :: k in ds && IsNamespaceKey(k) ==> ValueOk(ds[k], horizon)
  }

  lemma MetadataStep(ds: Store, node: Node, step: Step, horizon: int, later: int)
    requires node.WellFormed() && Inv(ds, node) && Admissible(ds, step, node) && MetadataOk(ds, horizon)
    requires horizon <= later && (Timed(step) ==> 0 < step.now <= later && horizon <= step.now)
    ensures MetadataOk(Apply(ds, node, step), later)
  {
    var ds' := Apply(ds, node, step);
    forall k | k in ds' && IsNamespaceKey(k) ensures ValueOk(ds'[k], later) {
      match step
      case Publish(cid, now, saved) => PublishedLabelKey(ds, node, cid, now, saved, k);
      case Unpublish(cid, saved) => UnpublishedLabelKey(ds, node, cid, saved, k);
      case Announce(key, now) =>
      case CleanStale(now) =>
      case Republish(pullable) =>
    }
  }

  /** The time of the last timed step before position i. */
  ghost function Horizon(steps: seq<Step>, i: nat): int
    requires i <= |steps|
  {
    if i == 0 then 0 else if Timed(steps[i - 1]) then steps[i - 1].now else Horizon(steps, i - 1)
  }

  lemma {:induction false} HorizonBound(steps: seq<Step>, i: nat, j: nat)
    requires ClockOk(steps) && i <= j < |steps| && Timed(steps[j])
    ensures 0 <= Horizon(steps, i) <= steps[j].now
  {
    if i > 0 && !Timed(steps[i - 1]) {
      HorizonBound(steps, i - 1, j);
    }
  }

  /** In every run all stored label metadata passes Validate. */
  lemma {:induction false} MetadataValidInRuns(node: Node, states: seq<Store>, steps: seq<Step>, i: nat)
    requires IsRun(node, states, steps) && ClockOk(steps) && i <= |steps|
    ensures MetadataOk(states[i], Horizon(steps, i))
  {
    if i > 0 {
      var ds, step := states[i - 1], steps[i - 1];
      MetadataValidInRuns(node, states, steps, i - 1);
      assert Inv(ds, node) by { IndexExactInRuns(node, states, steps, i - 1); }
      assert Timed(step) ==> Horizon(steps, i - 1) <= step.now by {
        if Timed(step) { HorizonBound(steps, i - 1, i - 1); }
      }
      MetadataStep(ds, node, step, Horizon(steps, i - 1), Horizon(steps, i));
    } else {
      assert MetadataOk(map[], 0);
    }
  }

  // ---------------------------------------------------------------- lifetime over runs

  /** The stored metadata of a label, if the label is stored. */
  ghost function LabelAt(ds: Store, k: string): Option<LabelMetadata> {
    if k in ds && ds[k].Meta? then Some(ds[k].meta) else None
  }

  ghost function NextLabel(was: Option<LabelMetadata>, step: Step, k: string): Option<LabelMetadata> {
    if Announces(step, k) then Some(LabelMetadata(if was.Some? then was.value.timestamp else step.now, step.now))
    else if step.CleanStale? && was.Some? && was.value.IsStale(step.now, MAX_LABEL_AGE) then None
    else was
  }

  ghost predicate IsHistory(states: seq<Store>, steps: seq<Step>, k: string) {
    && |states| == |steps| + 1
    && (forall i :: 0 <= i < |states| ==> (k in states[i] <==> LabelAt(states[i], k).Some?))
    && (forall i :: 0 <= i < |steps| ==> LabelAt(states[i + 1], k) == NextLabel(LabelAt(states[i], k), steps[i], k))
  }

  /** In a run, a label of another peer changes by announcement and expiry alone. */
  lemma ForeignHistory(node: Node, states: seq<Store>, steps: seq<Step>, k: string)
    requires IsRun(node, states, steps) && ClockOk(steps) && LabelOfOther(k, node.peer)
    ensures IsHistory(states, steps, k)
  {
    forall i | 0 <= i < |states| ensures k in states[i] <==> LabelAt(states[i], k).Some? {
      MetadataValidInRuns(node, states, steps, i);
    }
    forall i | 0 <= i < |steps| ensures LabelAt(states[i + 1], k) == NextLabel(LabelAt(states[i], k), steps[i], k) {
      MetadataValidInRuns(node, states, steps, i);
      IndexExactInRuns(node, states, steps, i);
      ForeignKeyStep(states[i], node, steps[i], k);
      assert ExtractPeer(k) == Parse(k).value.peer;
    }
  }

  /** Some announcement of k between `first` and `m` is at most `age` older than step m. */
  ghost predicate SeenWithin(steps: seq<Step>, k: string, first: nat, m: nat, age: int)
    requires m < |steps| && Timed(steps[m])
  {
    exists a :: first <= a < m && Announces(steps[a], k) && steps[m].now - steps[a].now <= age
  }

  lemma {:induction false} Refreshed(states: seq<Store>, steps: seq<Step>, k: string, first: nat, j: nat)
    requires IsHistory(states, steps, k) && ClockOk(steps)
    requires first < j <= |steps| && Announces(steps[first], k)
    requires forall m :: first < m < j && steps[m].CleanStale? ==> SeenWithin(steps, k, first, m, MAX_LABEL_AGE)
    ensures LabelAt(states[j], k).Some?
    ensures forall a :: first <= a < j && Announces(steps[a], k) ==>
            steps[a].now <= LabelAt(states[j], k).value.lastSeen
    decreases j
  {
    if j - 1 > first {
      Refreshed(states, steps, k, first, j - 1);
      assert steps[j - 1].CleanStale? ==> SeenWithin(steps, k, first, j - 1, MAX_LABEL_AGE);
    }
  }

  /** A key whose last announcement is never older than MAX_LABEL_AGE when a cleanup runs is not removed. */
  lemma RefreshedLabelSurvives(node: Node, states: seq<Store>, steps: seq<Step>, k: string, first: nat, j: nat)
    requires IsRun(node, states, steps) && ClockOk(steps) && LabelOfOther(k, node.peer)
    requires first < j <= |steps| && Announces(steps[first], k)
    requires forall m :: first < m < j && steps[m].CleanStale? ==> SeenWithin(steps, k, first, m, MAX_LABEL_AGE)
    ensures k in states[j]
  {
    ForeignHistory(node, states, steps, k);
    Refreshed(states, steps, k, first, j);
  }

  /** The key is announced again after step a, at most `age` later. */
  ghost predicate AnnouncedAgain(steps: seq<Step>, k: string, a: nat, age: int)
    requires a < |steps| && Timed(steps[a])
  {
    exists b :: a < b < |steps| && Announces(steps[b], k) && steps[b].now - steps[a].now <= age
  }

  /** The last announcement of k before m. */
  lemma {:induction false} LastBefore(steps: seq<Step>, k: string, first: nat, m: nat) returns (a: nat)
    requires first < m <= |steps| && Announces(steps[first], k)
    ensures first <= a < m && Announces(steps[a], k) && forall n :: a < n < m ==> !Announces(steps[n], k)
    decreases m
  {
    if first + 1 == m || Announces(steps[m - 1], k) {
      a := m - 1;
    } else {
      a := LastBefore(steps, k, first, m - 1);
    }
  }

  lemma SeenBeforeNext(steps: seq<Step>, k: string, first: nat, m: nat, age: int)
    requires ClockOk(steps) && first < m < |steps| && Announces(steps[first], k) && steps[m].CleanStale?
    requires forall a :: first <= a < m && Announces(steps[a], k) ==> AnnouncedAgain(steps, k, a, age)
    ensures SeenWithin(steps, k, first, m, age)
  {
    var a := LastBefore(steps, k, first, m);
    var b :| a < b < |steps| && Announces(steps[b], k) && steps[b].now - steps[a].now <= age;
    assert m < b && steps[m].now <= steps[b].now;
  }

  /** A peer that misses one republish announces a key again within two intervals. As long as it does so
      after every announcement, the key stays stored. */
  lemma OneMissedRepublish(node: Node, states: seq<Store>, steps: seq<Step>, k: string, first: nat, j: nat)
    requires IsRun(node, states, steps) && ClockOk(steps) && LabelOfOther(k, node.peer)
    requires first < j <= |steps| && Announces(steps[first], k)
    requires forall a :: first <= a < j && Announces(steps[a], k) ==>
             AnnouncedAgain(steps, k, a, 2 * REPUBLISH_INTERVAL)
    ensures k in states[j]
  {
    forall m | first < m < j && steps[m].CleanStale? ensures SeenWithin(steps, k, first, m, MAX_LABEL_AGE) {
      SeenBeforeNext(steps, k, first, m, 2 * REPUBLISH_INTERVAL);
    }
    RefreshedLabelSurvives(node, states, steps, k, first, j);
  }

  lemma {:induction false} SameTimestamp(states: seq<Store>, steps: seq<Step>, k: string, i: nat, j: nat)
    requires IsHistory(states, steps, k)
    requires i <= j <= |steps| && forall m :: i <= m <= j ==> k in states[m]
    ensures LabelAt(states[i], k).Some? && LabelAt(states[j], k).Some?
    ensures LabelAt(states[i], k).value.timestamp == LabelAt(states[j], k).value.timestamp
    decreases j
  {
    if i < j {
      SameTimestamp(states, steps, k, i, j - 1);
    }
  }

  /** While a key stays stored, its first-seen timestamp stays the same. */
  lemma TimestampStable(node: Node, states: seq<Store>, steps: seq<Step>, k: string, i: nat, j: nat)
    requires IsRun(node, states, steps) && ClockOk(steps) && LabelOfOther(k, node.peer)
    requires i <= j <= |steps| && forall m :: i <= m <= j ==> k in states[m]
    ensures states[i][k].Meta? && states[j][k].Meta? && states[i][k].meta.timestamp == states[j][k].meta.timestamp
  {
    ForeignHistory(node, states, steps, k);
    SameTimestamp(states, steps, k, i, j);
  }

  /** After its last announcement a key is either gone for good or still carries that announcement's time. */
  lemma {:induction false} LastSeenIsLast(states: seq<Store>, steps: seq<Step>, k: string, last: nat, m: nat, j: nat)
    requires IsHistory(states, steps, k)
    requires last < m <= j <= |steps| && Announces(steps[last], k)
    requires forall n :: last < n < j ==> !Announces(steps[n], k)
    ensures k in states[j] ==> k in states[m] && LabelAt(states[j], k).value.lastSeen == steps[last].now
    decreases j
  {
    if m < j {
      LastSeenIsLast(states, steps, k, last, m, j - 1);
    } else if last + 1 < j {
      LastSeenIsLast(states, steps, k, last, j - 1, j - 1);
    }
  }

  /** A cleanup more than MAX_LABEL_AGE after the last announcement removes the key for good. */
  lemma UnrefreshedLabelExpires(node: Node, states: seq<Store>, steps: seq<Step>, k: string, last: nat, m: nat, j: nat)
    requires IsRun(node, states, steps) && ClockOk(steps) && LabelOfOther(k, node.peer)
    requires last < m < j <= |steps| && Announces(steps[last], k)
    requires forall n :: last < n < j ==> !Announces(steps[n], k)
    requires steps[m].CleanStale? && steps[m].now - steps[last].now > MAX_LABEL_AGE
    ensures k !in states[j]
  {
    ForeignHistory(node, states, steps, k);
    LastSeenIsLast(states, steps, k, last, m, m);
    LastSeenIsLast(states, steps, k, last, m + 1, j);
  }

  ghost predicate TickIn(steps: seq<Step>, j: nat, from: int)
    requires j <= |steps|
  {
    exists m :: 0 <= m < j && steps[m].CleanStale? && from < steps[m].now <= from + CLEANUP_INTERVAL
  }

  /** Within the first j steps every window of CLEANUP_INTERVAL between `since` and `until` has a cleanup in it. */
  ghost predicate CleanupTicks(steps: seq<Step>, j: nat, since: int, until: int)
    requires j <= |steps|
  {
    forall from: int :: since <= from && from + CLEANUP_INTERVAL <= until ==> TickIn(steps, j, from)
  }

  /** A key last announced at time t, with a cleanup in every window since t, is gone by t + 72h + 48h. */
  lemma GoneByDeadline(node: Node, states: seq<Store>, steps: seq<Step>, k: string, last: nat, j: nat)
    requires IsRun(node, states, steps) && ClockOk(steps) && LabelOfOther(k, node.peer)
    requires last < j <= |steps| && Announces(steps[last], k)
    requires forall n :: last < n < j ==> !Announces(steps[n], k)
    requires CleanupTicks(steps, j, steps[last].now, steps[last].now + MAX_LABEL_AGE + CLEANUP_INTERVAL)
    ensures k !in states[j]
  {
    var from := steps[last].now + MAX_LABEL_AGE;
    assert TickIn(steps, j, from);
    var m :| 0 <= m < j && steps[m].CleanStale? && from < steps[m].now <= from + CLEANUP_INTERVAL;
    UnrefreshedLabelExpires(node, states, steps, k, last, m, j);
  }

  /** In seconds: after its last announcement a key is stored for as long as no cleanup runs more than 259200
      seconds, 72 hours, later. */
  lemma StoredForSeconds(node: Node, states: seq<Store>, steps: seq<Step>, k: string, last: nat, j: nat)
    requires IsRun(node, states, steps) && ClockOk(steps) && LabelOfOther(k, node.peer)
    requires last < j <= |steps| && Announces(steps[last], k)
    requires forall n :: last < n < j ==> !Announces(steps[n], k)
    ensures k in states[j] <==>
            forall m :: last < m < j && steps[m].CleanStale? ==> steps[m].now - steps[last].now <= 259200
  {
    if m :| last < m < j && steps[m].CleanStale? && steps[m].now - steps[last].now > 259200 {
      UnrefreshedLabelExpires(node, states, steps, k, last, m, j);
    } else {
      RefreshedLabelSurvives(node, states, steps, k, last, j);
    }
  }

  lemma TickSeconds(steps: seq<Step>, j: nat, from: int)
    requires j <= |steps|
    ensures TickIn(steps, j, from) <==>
            exists m :: 0 <= m < j && steps[m].CleanStale? && from < steps[m].now <= from + 172800
  {
  }

  /** And with a cleanup in every window of 172800 seconds, 48 hours, it is gone 432000 seconds later. */
  lemma GoneInSeconds(node: Node, states: seq<Store>, steps: seq<Step>, k: string, last: nat, j: nat)
    requires IsRun(node, states, steps) && ClockOk(steps) && LabelOfOther(k, node.peer)
    requires last < j <= |steps| && Announces(steps[last], k)
    requires forall n :: last < n < j ==> !Announces(steps[n], k)
    requires CleanupTicks(steps, j, steps[last].now, steps[last].now + 432000)
    ensures k !in states[j]
    ensures exists m :: 0 <= m < j && steps[m].CleanStale?
                        && steps[last].now + 259200 < steps[m].now <= steps[last].now + 432000
  {
    GoneByDeadline(node, states, steps, k, last, j);
    assert TickIn(steps, j, steps[last].now + 259200);
    TickSeconds(steps, j, steps[last].now + 259200);
  }
}
