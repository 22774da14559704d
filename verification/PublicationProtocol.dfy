/** The publication service: its scheduler sends first and marks IN_PROGRESS afterwards, its workers
    publish every CID a request resolves to through the routing index. */
module PublicationProtocol {
  import opened Text
  import R = RoutingIndex
  import F = SearchFilters
  import S = SearchDatabase

  type PubId = string

  datatype Status = Pending | InProgress | Completed | Failed

  /** What a stored request asks for; Unreadable when its JSON does not decode or names no kind. */
  datatype Request = Refs(cids: seq<string>) | Queries(queries: seq<F.RecordQuery>) | Unreadable

  /** The routing node, the search content of each CID, and SQL's LIKE. */
  datatype Env = Env(node: R.Node, contentOf: string -> S.Content, like: (string, string) -> bool)

  datatype Row = Row(request: Request, status: Status)

  const QUEUE_CAPACITY := 100

  datatype Scheduler =
    | Idle
    | Sending(todo: seq<PubId>)
    | Sent(todo: seq<PubId>)                  // item sent, row not read yet
    | Marking(todo: seq<PubId>, row: Row)     // row read, IN_PROGRESS not saved yet

  datatype Worker =
    | Free
    | Started(id: PubId)
    | Announcing(id: PubId, cids: seq<string>, done: nat, successes: nat)
    | Finishing(id: PubId, cids: seq<string>, status: Status)
    | Saving(id: PubId, cids: seq<string>, status: Status, row: Row)

  /** `enqueued`, `handled`, `resolved`, `announced` and `completedFor` are history: ids put on the queue, ids
      that a worker is through with, what a request resolved to, CIDs announced for an id,
        and the CIDs a COMPLETED status was written for. */
  datatype State = State(
    rows: map<PubId, Row>,
    queue: seq<PubId>,
    scheduler: Scheduler,
    workers: seq<Worker>,
    index: R.Store,
    tables: S.Tables,
    enqueued: seq<PubId>,
    handled: set<PubId>,
    resolved: set<(PubId, seq<string>)>,
    announced: set<(PubId, string)>,
    completedFor: map<PubId, seq<string>>)

  datatype Step =
    | CreatePublication(id: PubId, request: Request)
    | Scan(ids: seq<PubId>)
    | Send(sent: bool)
    | ReadForMark(ok: bool)
    | SaveMark(ok: bool)
    | EndTick
    | Take(w: nat)
    | Resolve(w: nat, result: Option<seq<string>>)
    | Announce(w: nat, pulled: bool, now: int, saved: bool, reached: bool)
    | Decide(w: nat)
    | ReadForStatus(w: nat, ok: bool)
    | SaveStatus(w: nat, ok: bool)
    | Route(step: R.Step)
    | Store(change: S.Step)

  ghost predicate Snapshot(s: State, ids: seq<PubId>) {
    NoDup(ids) && forall id :: id in ids <==> id in s.rows && s.rows[id].status.Pending?
  }

  /** A request resolves to its own references, or to what the search for its queries returns. */
  ghost predicate Resolves(env: Env, t: S.Tables, request: Request, cids: seq<string>) {
    match request
    case Refs(refs) => cids == refs
    case Queries(queries) =>
      && F.OptionsOfAll(queries).Some?
      && S.GetRecordCids(t, F.ApplyAll(F.NO_FILTERS, F.OptionsOfAll(queries).value), env.like, cids)
    case Unreadable => false
  }

  ghost predicate Init(s: State) {
    && s.rows == map[] && s.queue == [] && s.scheduler == Idle && s.index == map[]
       && s.tables == S.Tables([], [], [], [])
    && s.enqueued == [] && s.handled == {} && s.resolved == {} && s.announced == {} && s.completedFor == map[]
    && forall w :: 0 <= w < |s.workers| ==> s.workers[w] == Free
  }

  ghost predicate Enabled(s: State, env: Env, step: Step) {
    match step
    case CreatePublication(id, _) => id !in s.rows
    case Scan(ids) => s.scheduler.Idle? && Snapshot(s, ids)
    case Send(sent) => s.scheduler.Sending? && s.scheduler.todo != [] && (sent ==> |s.queue| < QUEUE_CAPACITY)
    case ReadForMark(ok) => s.scheduler.Sent? && s.scheduler.todo != [] && (ok ==> s.scheduler.todo[0] in s.rows)
    case SaveMark(_) => s.scheduler.Marking? && s.scheduler.todo != []
    case EndTick => s.scheduler.Sending? && s.scheduler.todo == []
    case Take(w) => w < |s.workers| && s.workers[w].Free? && s.queue != []
    case Resolve(w, result) =>
      && w < |s.workers| && s.workers[w].Started?
      && (result.Some? ==>
            s.workers[w].id in s.rows && Resolves(env, s.tables, s.rows[s.workers[w].id].request, result.value))
    case Announce(w, pulled, _, _, _) =>
      && w < |s.workers| && s.workers[w].Announcing? && s.workers[w].done < |s.workers[w].cids|
      && (pulled ==> CleanComponent(s.workers[w].cids[s.workers[w].done]))
    case Decide(w) => w < |s.workers| && s.workers[w].Announcing? && s.workers[w].done == |s.workers[w].cids|
    case ReadForStatus(w, ok) => w < |s.workers| && s.workers[w].Finishing? && (ok ==> s.workers[w].id in s.rows)
    case SaveStatus(w, _) => w < |s.workers| && s.workers[w].Saving?
    case Route(step) => R.Admissible(s.index, step, env.node)
    case Store(_) => true
  }

  function SetWorker(s: State, w: nat, worker: Worker): State
    requires w < |s.workers|
  {
    s.(workers := s.workers[w := worker])
  }

  /** Pull, publish to the local index, announce to the network; a success needs all three. */
  ghost function AnnounceOne(s: State, env: Env, w: nat, pulled: bool, now: int, saved: bool, reached: bool): State
    requires w < |s.workers| && s.workers[w].Announcing? && s.workers[w].done < |s.workers[w].cids|
  {
    var me := s.workers[w];
    var cid := me.cids[me.done];
    var success := pulled && R.PublishSucceeds(s.index, cid, env.node.LabelsOf(cid), saved) && reached;
    SetWorker(s, w, me.(done := me.done + 1, successes := if success then me.successes + 1 else me.successes))
    .(index := if pulled then R.Apply(s.index, env.node, R.Publish(cid, now, saved)) else s.index,
      announced := if success then s.announced + {(me.id, cid)} else s.announced)
  }

  ghost function Apply(s: State, env: Env, step: Step): State
    requires Enabled(s, env, step)
  {
    match step
    case CreatePublication(id, request) => s.(rows := s.rows[id := Row(request, Pending)])
    case Scan(ids) => s.(scheduler := Sending(ids))
    case Send(sent) =>
      var todo := s.scheduler.todo;
      if sent then s.(queue := s.queue + [todo[0]], enqueued := s.enqueued + [todo[0]], scheduler := Sent(todo))
      else s.(scheduler := Sending(todo[1..]))
    case ReadForMark(ok) =>
      var todo := s.scheduler.todo;
      s.(scheduler := if ok then Marking(todo, s.rows[todo[0]]) else Sending(todo[1..]))
    case SaveMark(ok) =>
      var todo := s.scheduler.todo;
      s.(rows := if ok then s.rows[todo[0] := s.scheduler.row.(status := InProgress)] else s.rows,
         scheduler := Sending(todo[1..]))
    case EndTick => s.(scheduler := Idle)
    case Take(w) => SetWorker(s, w, Started(s.queue[0])).(queue := s.queue[1..])
    case Resolve(w, result) =>
      var id := s.workers[w].id;
      SetWorker(s, w,
                if result.None? then Finishing(id, [], Failed)
                else if result.value == [] then Finishing(id, [], Completed)
                else Announcing(id, result.value, 0, 0))
      .(resolved := if result.Some? then s.resolved + {(id, result.value)} else s.resolved)
    case Announce(w, pulled, now, saved, reached) => AnnounceOne(s, env, w, pulled, now, saved, reached)
    case Decide(w) =>
      var me := s.workers[w];
      SetWorker(s, w, Finishing(me.id, me.cids, if me.successes == |me.cids| then Completed else Failed))
    case ReadForStatus(w, ok) =>
      var me := s.workers[w];
      if ok then SetWorker(s, w, Saving(me.id, me.cids, me.status, s.rows[me.id]))
      else SetWorker(s, w, Free).(handled := s.handled + {me.id})
    case SaveStatus(w, ok) =>
      var me := s.workers[w];
      SetWorker(s, w, Free)
      .(rows := if ok then s.rows[me.id := me.row.(status := me.status)] else s.rows,
        handled := s.handled + {me.id},
        completedFor := if ok && me.status.Completed? then s.completedFor[me.id := me.cids] else s.completedFor)
    case Route(step) => s.(index := R.Apply(s.index, env.node, step))
    case Store(change) => s.(tables := S.Apply(s.tables, env.contentOf, change))
  }

  /** The i-th step is enabled and leads to the next state. */
  ghost predicate StepAt(env: Env, states: seq<State>, steps: seq<Step>, i: int) {
    && 0 <= i < |steps| && i + 1 < |states|
    && Enabled(states[i], env, steps[i]) && states[i + 1] == Apply(states[i], env, steps[i])
  }

  ghost predicate IsRun(env: Env, states: seq<State>, steps: seq<Step>) {
    && env.node.WellFormed()
    && |states| == |steps| + 1
    && Init(states[0])
    && forall i :: 0 <= i < |steps| ==> StepAt(env, states, steps, i)
  }

  // ---------------------------------------------------------------- enqueued at most once

  /** The scheduler has sent this publication and not yet saved the mark. */
  ghost predicate SentUnmarked(s: State, id: PubId) {
    (s.scheduler.Sent? || s.scheduler.Marking?) && s.scheduler.todo != [] && s.scheduler.todo[0] == id
  }

  /** The ids the scheduler may still send. */
  ghost function Unsent(s: State): seq<PubId> {
    if s.scheduler.Idle? then []
    else if s.scheduler.Sending? then s.scheduler.todo
    else if s.scheduler.todo == [] then [] else s.scheduler.todo[1..]
  }

  ghost predicate WorkerKnown(s: State, w: Worker) {
    !w.Free? ==> w.id in s.rows && ((w.Finishing? || w.Saving?) ==> w.status.Completed? || w.status.Failed?)
  }

  ghost predicate SentOnce(s: State) {
    && NoDup(s.enqueued)
    && (forall id :: id in s.enqueued ==> id in s.rows && (!s.rows[id].status.Pending? || SentUnmarked(s, id)))
    && NoDup(Unsent(s))
    && (forall id :: id in Unsent(s) ==> id in s.rows && id !in s.enqueued && !SentUnmarked(s, id))
    && (forall id :: id in s.queue ==> id in s.rows)
    && (s.scheduler.Sent? || s.scheduler.Marking? ==>
          s.scheduler.todo != [] && s.scheduler.todo[0] in s.rows && s.scheduler.todo[0] in s.enqueued)
    && (forall w :: 0 <= w < |s.workers| ==> WorkerKnown(s, s.workers[w]))
  }

  /** A mark that the database refuses. */
  ghost predicate FailsMark(step: Step) {
    (step.ReadForMark? || step.SaveMark?) && !step.ok
  }

  /** The step gives up marking a publication that has been sent and is still PENDING. */
  ghost predicate LeavesSentPending(s: State, step: Step) {
    && FailsMark(step) && (s.scheduler.Sent? || s.scheduler.Marking?) && s.scheduler.todo != []
    && s.scheduler.todo[0] in s.rows && s.rows[s.scheduler.todo[0]].status.Pending?
  }

  /** A refused mark keeps the invariant if and only if the publication is no longer PENDING: a worker may
      have written its result already. */
  lemma FailedMarkSendsOnce(s: State, env: Env, step: Step)
    requires SentOnce(s) && Enabled(s, env, step) && FailsMark(step)
    ensures SentOnce(Apply(s, env, step)) <==> !LeavesSentPending(s, step)
  {
    var s' := Apply(s, env, step);
    var id := s.scheduler.todo[0];
    assert s.scheduler.todo[1..] == Unsent(s) == Unsent(s');
    if LeavesSentPending(s, step) {
      assert id in s'.enqueued && s'.rows[id].status.Pending? && !SentUnmarked(s', id);
    } else {
      forall w | 0 <= w < |s'.workers| ensures WorkerKnown(s', s'.workers[w]) {
        assert WorkerKnown(s, s.workers[w]);
      }
    }
  }

  lemma SendSendsOnce(s: State, env: Env, step: Step)
    requires SentOnce(s) && Enabled(s, env, step) && step.Send?
    ensures SentOnce(Apply(s, env, step))
  {
    var s' := Apply(s, env, step);
    forall w | 0 <= w < |s'.workers| ensures WorkerKnown(s', s'.workers[w]) { assert WorkerKnown(s, s.workers[w]); }
    if step.sent {
      var todo := s.scheduler.todo;
      assert todo[0] in Unsent(s);
      NoDupConcat(s.enqueued, [todo[0]]);
    }
    assert forall id :: id in Unsent(s') ==> id in Unsent(s);
  }

  lemma SchedulerSendsOnce(s: State, env: Env, step: Step)
    requires SentOnce(s) && Enabled(s, env, step) && !FailsMark(step)
    requires step.CreatePublication? || step.Scan? || step.ReadForMark? || step.SaveMark? || step.EndTick?
    ensures SentOnce(Apply(s, env, step))
  {
    var s' := Apply(s, env, step);
    forall w | 0 <= w < |s'.workers| ensures WorkerKnown(s', s'.workers[w]) { assert WorkerKnown(s, s.workers[w]); }
    assert !step.Scan? ==> forall id :: id in Unsent(s') ==> id in Unsent(s);
  }

  lemma WorkerStaysKnown(s: State, env: Env, step: Step, w: nat)
    requires SentOnce(s) && Enabled(s, env, step) && w < |s.workers|
    requires step.Take? || step.Resolve? || step.Announce? || step.Decide? || step.ReadForStatus? || step.SaveStatus?
             || step.Route? || step.Store?
    ensures w < |Apply(s, env, step).workers| && WorkerKnown(Apply(s, env, step), Apply(s, env, step).workers[w])
  {
    assert WorkerKnown(s, s.workers[w]);
    if step.Take? { assert s.queue[0] in s.queue; }
  }

  /** Steps that send nothing and make nothing PENDING. */
  lemma SentOnceFrame(s: State, s': State)
    requires SentOnce(s) && s'.scheduler == s.scheduler && s'.enqueued == s.enqueued
    requires forall id :: id in s'.queue ==> id in s.queue
    requires forall id :: id in s.rows ==> id in s'.rows && (s'.rows[id].status.Pending? ==> s.rows[id].status.Pending?)
    requires forall w :: 0 <= w < |s'.workers| ==> WorkerKnown(s', s'.workers[w])
    ensures SentOnce(s')
  {
  }

  lemma OthersSendOnce(s: State, env: Env, step: Step)
    requires SentOnce(s) && Enabled(s, env, step)
    requires step.Take? || step.Resolve? || step.Announce? || step.Decide? || step.ReadForStatus? || step.SaveStatus?
             || step.Route? || step.Store?
    ensures SentOnce(Apply(s, env, step))
  {
    var s' := Apply(s, env, step);
    forall w | 0 <= w < |s'.workers| ensures WorkerKnown(s', s'.workers[w]) {
      WorkerStaysKnown(s, env, step, w);
    }
    if step.SaveStatus? { assert WorkerKnown(s, s.workers[step.w]); }
    SentOnceFrame(s, s');
  }

  /** One step keeps every publication from being sent twice if and only if it does not leave one that was
      sent PENDING. */
  lemma StepSendsOnce(s: State, env: Env, step: Step)
    requires SentOnce(s) && Enabled(s, env, step)
    ensures SentOnce(Apply(s, env, step)) <==> !LeavesSentPending(s, step)
  {
    if FailsMark(step) {
      FailedMarkSendsOnce(s, env, step);
    } else if step.Send? {
      SendSendsOnce(s, env, step);
    } else if step.CreatePublication? || step.Scan? || step.ReadForMark? || step.SaveMark? || step.EndTick? {
      SchedulerSendsOnce(s, env, step);
    } else {
      OthersSendOnce(s, env, step);
    }
  }

  /** While no refused mark leaves a sent publication PENDING, no publication is enqueued twice, whatever
      else fails and however the threads interleave. */
  lemma {:induction false} EnqueuedOnceInRuns(env: Env, states: seq<State>, steps: seq<Step>, i: nat)
    requires IsRun(env, states, steps) && i <= |steps|
    requires forall j :: 0 <= j < i ==> !LeavesSentPending(states[j], steps[j])
    ensures SentOnce(states[i]) && NoDup(states[i].enqueued)
  {
    if i > 0 {
      EnqueuedOnceInRuns(env, states, steps, i - 1);
      assert StepAt(env, states, steps, i - 1);
      StepSendsOnce(states[i - 1], env, steps[i - 1]);
    }
  }

  /** One tick sends the only publication there is. */
  lemma TickSends(env: Env, s: State, id: PubId) returns (s1: State, s2: State)
    requires s.scheduler.Idle? && |s.queue| < 100 && Snapshot(s, [id])
    ensures Enabled(s, env, Scan([id])) && s1 == Apply(s, env, Scan([id]))
    ensures Enabled(s1, env, Send(true)) && s2 == Apply(s1, env, Send(true))
    ensures s2 == s.(scheduler := Sent([id]), queue := s.queue + [id], enqueued := s.enqueued + [id])
  {
    s1 := Apply(s, env, Scan([id]));
    s2 := Apply(s1, env, Send(true));
  }

  /** A mark that is not read ends the tick with the publication as it was. */
  lemma MarkRefused(env: Env, s: State, id: PubId) returns (s1: State, s2: State)
    requires s.scheduler == Sent([id]) && id in s.rows && s.rows[id].status.Pending?
    ensures Enabled(s, env, ReadForMark(false)) && LeavesSentPending(s, ReadForMark(false))
    ensures s1 == Apply(s, env, ReadForMark(false))
    ensures Enabled(s1, env, EndTick) && s2 == Apply(s1, env, EndTick) && s2 == s.(scheduler := Idle)
  {
    assert [id][1..] == [];
    s1 := Apply(s, env, ReadForMark(false));
    s2 := Apply(s1, env, EndTick);
  }

  /** A list of ids, each once, that starts with a given one. */
  lemma {:induction false} SnapshotFrom(id: PubId, ids: set<PubId>) returns (todo: seq<PubId>)
    requires id !in ids
    ensures |todo| == |ids| + 1 && todo[0] == id && NoDup(todo) && forall x :: x in todo <==> x == id || x in ids
    decreases ids
  {
    if ids == {} {
      todo := [id];
    } else {
      var x :| x in ids;
      var rest := SnapshotFrom(id, ids - {x});
      NoDupConcat(rest, [x]);
      todo := rest + [x];
    }
  }

  /** Whatever the state, a publication that was sent and is still PENDING when the scheduler is idle and
      the queue has room can be sent again by the next two steps. */
  lemma SentAgain(env: Env, s: State, id: PubId) returns (todo: seq<PubId>)
    requires s.scheduler.Idle? && |s.queue| < QUEUE_CAPACITY
    requires id in s.enqueued && id in s.rows && s.rows[id].status.Pending?
    ensures Enabled(s, env, Scan(todo)) && Enabled(Apply(s, env, Scan(todo)), env, Send(true))
    ensures var again := Apply(Apply(s, env, Scan(todo)), env, Send(true));
            again.enqueued == s.enqueued + [id] && !NoDup(again.enqueued)
  {
    var pending := set x | x in s.rows && s.rows[x].status.Pending?;
    todo := SnapshotFrom(id, pending - {id});
    assert Snapshot(s, todo);
    var again := s.enqueued + [id];
    var n :| 0 <= n < |s.enqueued| && s.enqueued[n] == id;
    assert again[n] == again[|s.enqueued|];
  }

  /** A tick that starts with this snapshot and gets its first item sent puts a publication on the queue
      for the second time. */
  ghost predicate SendsTwice(env: Env, s: State, todo: seq<PubId>) {
    && Enabled(s, env, Scan(todo)) && todo != []
    && !NoDup(s.enqueued + [todo[0]])
  }

  /** So from a state in which no publication has been sent twice, with the scheduler idle and room in the
      queue, the next tick can send one again if and only if one that was sent is PENDING. */
  lemma CanSendAgain(env: Env, s: State)
    requires NoDup(s.enqueued) && s.scheduler.Idle? && |s.queue| < QUEUE_CAPACITY
    ensures (exists todo :: SendsTwice(env, s, todo)) <==>
            exists id :: id in s.enqueued && id in s.rows && s.rows[id].status.Pending?
  {
    if id :| id in s.enqueued && id in s.rows && s.rows[id].status.Pending? {
      var todo := SentAgain(env, s, id);
      assert SendsTwice(env, s, todo);
    }
    if todo :| SendsTwice(env, s, todo) {
      if todo[0] !in s.enqueued {
        NoDupConcat(s.enqueued, [todo[0]]);
      }
      assert todo[0] in todo;
    }
  }

  /** One more step at the end of a run. */
  lemma Extend(env: Env, states: seq<State>, steps: seq<Step>, step: Step, s': State)
    requires IsRun(env, states, steps) && Enabled(states[|steps|], env, step) && s' == Apply(states[|steps|], env, step)
    ensures IsRun(env, states + [s'], steps + [step])
  {
    forall i | 0 <= i < |steps| + 1 ensures StepAt(env, states + [s'], steps + [step], i) {
      if i < |steps| {
        assert StepAt(env, states, steps, i);
      }
    }
  }

  lemma ResendingStart(env: Env, id: PubId, request: Request) returns (s0: State, s1: State)
    requires env.node.WellFormed()
    ensures IsRun(env, [s0, s1], [CreatePublication(id, request)])
    ensures s1.scheduler.Idle? && s1.queue == [] && s1.enqueued == [] && s1.rows == map[id := Row(request, Pending)]
  {
    s0 := State(map[], [], Idle, [], map[], S.Tables([], [], [], []), [], {}, {}, {}, map[]);
    s1 := Apply(s0, env, CreatePublication(id, request));
    assert StepAt(env, [s0, s1], [CreatePublication(id, request)], 0);
  }

  /** A tick that sends, at the end of a run. */
  lemma TickExtends(env: Env, states: seq<State>, steps: seq<Step>, id: PubId) returns (s1: State, s2: State)
    requires IsRun(env, states, steps)
    requires var s := states[|steps|]; s.scheduler.Idle? && |s.queue| < QUEUE_CAPACITY && Snapshot(s, [id])
    ensures IsRun(env, states + [s1] + [s2], steps + [Scan([id])] + [Send(true)])
    ensures var s := states[|steps|];
            s2 == s.(scheduler := Sent([id]), queue := s.queue + [id], enqueued := s.enqueued + [id])
  {
    s1, s2 := TickSends(env, states[|steps|], id);
    Extend(env, states, steps, Scan([id]), s1);
    Extend(env, states + [s1], steps + [Scan([id])], Send(true), s2);
  }

  /** A refused mark, at the end of a run. */
  lemma RefusalExtends(env: Env, states: seq<State>, steps: seq<Step>, id: PubId) returns (s1: State, s2: State)
    requires IsRun(env, states, steps)
    requires var s := states[|steps|]; s.scheduler == Sent([id]) && id in s.rows && s.rows[id].status.Pending?
    ensures IsRun(env, states + [s1] + [s2], steps + [ReadForMark(false)] + [EndTick])
    ensures LeavesSentPending(states[|steps|], ReadForMark(false)) && s2 == states[|steps|].(scheduler := Idle)
  {
    s1, s2 := MarkRefused(env, states[|steps|], id);
    Extend(env, states, steps, ReadForMark(false), s1);
    Extend(env, states + [s1], steps + [ReadForMark(false)], EndTick, s2);
  }

  /** A run that sends a publication twice: its mark fails once. */
  lemma ResendingRun(env: Env, id: PubId, request: Request) returns (states: seq<State>, steps: seq<Step>)
    requires env.node.WellFormed()
    ensures IsRun(env, states, steps) && |steps| == 7 && LeavesSentPending(states[3], steps[3])
    ensures states[7].enqueued == [id, id]
  {
    var s0, s1 := ResendingStart(env, id, request);
    states, steps := [s0, s1], [CreatePublication(id, request)];
    var s2, s3 := TickExtends(env, states, steps, id);
    states, steps := states + [s2] + [s3], steps + [Scan([id])] + [Send(true)];
    var s4, s5 := RefusalExtends(env, states, steps, id);
    states, steps := states + [s4] + [s5], steps + [ReadForMark(false)] + [EndTick];
    var s6, s7 := TickExtends(env, states, steps, id);
    states, steps := states + [s6] + [s7], steps + [Scan([id])] + [Send(true)];
    assert s7.enqueued == [id] + [id];
  }

  // ---------------------------------------------------------------- what COMPLETED means

  ghost predicate AllAnnounced(s: State, id: PubId, cids: seq<string>) {
    forall i :: 0 <= i < |cids| ==> (id, cids[i]) in s.announced
  }

  /** A worker has at most one success per CID handled, and as many only if each one succeeded. */
  ghost predicate WorkerHonest(s: State, w: Worker) {
    match w
    case Free => true
    case Started(_) => true
    case Announcing(id, cids, done, successes) =>
      && (id, cids) in s.resolved
      && successes <= done <= |cids|
      && (successes == done ==> AllAnnounced(s, id, cids[..done]))
    case Finishing(id, cids, status) =>
      && !status.Pending?
      && (status.Completed? ==> (id, cids) in s.resolved && AllAnnounced(s, id, cids))
    case Saving(id, cids, status, row) =>
      && !status.Pending? && id in s.rows && row.request == s.rows[id].request
      && (status.Completed? ==> (id, cids) in s.resolved && AllAnnounced(s, id, cids))
  }

  /** A COMPLETED publication was written for the CIDs its request resolved to, all of them announced. */
  ghost predicate CompletedHonest(s: State) {
    forall id :: id in s.rows && s.rows[id].status.Completed? ==>
      id in s.completedFor && (id, s.completedFor[id]) in s.resolved && AllAnnounced(s, id, s.completedFor[id])
  }

  ghost predicate Honest(s: State) {
    && CompletedHonest(s)
    && (forall w :: 0 <= w < |s.workers| ==> WorkerHonest(s, s.workers[w]))
    && (s.scheduler.Marking? ==>
          && s.scheduler.todo != [] && s.scheduler.todo[0] in s.rows
          && s.scheduler.row.request == s.rows[s.scheduler.todo[0]].request)
  }

  /** Requests never change, rows never disappear, and history is never forgotten. */
  ghost predicate Grows(s: State, s': State) {
    && s.announced <= s'.announced && s.resolved <= s'.resolved
    && forall id :: id in s.rows ==> id in s'.rows && s'.rows[id].request == s.rows[id].request
  }

  lemma HonestyGrows(s: State, s': State, w: Worker)
    requires Grows(s, s') && WorkerHonest(s, w)
    ensures WorkerHonest(s', w)
  {
  }

  lemma AnnounceKeepsHonest(s: State, env: Env, step: Step)
    requires Honest(s) && Enabled(s, env, step) && step.Announce?
    ensures Honest(Apply(s, env, step))
  {
    var s' := Apply(s, env, step);
    var me := s.workers[step.w];
    assert WorkerHonest(s, me);
    assert me.cids[..me.done + 1] == me.cids[..me.done] + [me.cids[me.done]];
    forall w | 0 <= w < |s'.workers| ensures WorkerHonest(s', s'.workers[w]) {
      if w != step.w {
        assert WorkerHonest(s, s.workers[w]);
        HonestyGrows(s, s', s.workers[w]);
      }
    }
  }

  lemma SaveKeepsHonest(s: State, env: Env, step: Step)
    requires Honest(s) && Enabled(s, env, step) && (step.SaveStatus? || step.SaveMark? || step.CreatePublication?)
    ensures Honest(Apply(s, env, step))
  {
    var s' := Apply(s, env, step);
    if step.SaveStatus? { assert WorkerHonest(s, s.workers[step.w]); }
    assert Grows(s, s');
    forall w | 0 <= w < |s'.workers| ensures WorkerHonest(s', s'.workers[w]) {
      if !step.SaveStatus? || w != step.w {
        assert WorkerHonest(s, s.workers[w]);
        HonestyGrows(s, s', s.workers[w]);
      }
    }
  }

  lemma WorkerStaysHonest(s: State, env: Env, step: Step, w: nat)
    requires Honest(s) && Enabled(s, env, step) && w < |s.workers|
             && !(step.Announce? || step.SaveStatus? || step.SaveMark? || step.CreatePublication?)
    ensures w < |Apply(s, env, step).workers| && WorkerHonest(Apply(s, env, step), Apply(s, env, step).workers[w])
  {
    var s', me := Apply(s, env, step), s.workers[w];
    assert WorkerHonest(s, me);
    HonestyGrows(s, s', me);
    if step.Decide? && step.w == w {
      assert me.cids[..|me.cids|] == me.cids;
    }
  }

  lemma OthersKeepHonest(s: State, env: Env, step: Step)
    requires Honest(s) && Enabled(s, env, step)
             && !(step.Announce? || step.SaveStatus? || step.SaveMark? || step.CreatePublication?)
    ensures Honest(Apply(s, env, step))
  {
    var s' := Apply(s, env, step);
    assert s'.rows == s.rows && s'.announced == s.announced && s'.completedFor == s.completedFor
           && s.resolved <= s'.resolved;
    forall w | 0 <= w < |s'.workers| ensures WorkerHonest(s', s'.workers[w]) {
      WorkerStaysHonest(s, env, step, w);
    }
  }

  lemma StepKeepsHonest(s: State, env: Env, step: Step)
    requires Honest(s) && Enabled(s, env, step)
    ensures Honest(Apply(s, env, step))
  {
    if step.Announce? { AnnounceKeepsHonest(s, env, step); }
    else if step.SaveStatus? || step.SaveMark? || step.CreatePublication? { SaveKeepsHonest(s, env, step); }
    else { OthersKeepHonest(s, env, step); }
  }

  /** In every interleaving, whatever fails, a publication is COMPLETED only if a worker announced
      every CID that its request resolved to. */
  lemma {:induction false} CompletedIsHonestInRuns(env: Env, states: seq<State>, steps: seq<Step>, i: nat)
    requires IsRun(env, states, steps) && i <= |steps|
    ensures Honest(states[i])
  {
    if i > 0 {
      CompletedIsHonestInRuns(env, states, steps, i - 1);
      assert StepAt(env, states, steps, i - 1);
      StepKeepsHonest(states[i - 1], env, steps[i - 1]);
    }
  }

  // ---------------------------------------------------------------- what a worker writes

  /** The Announce step does all that counts as a success: the record is pulled, published and announced. */
  ghost predicate Succeeds(s: State, env: Env, step: Step) {
    && step.Announce? && step.w < |s.workers| && s.workers[step.w].Announcing?
    && s.workers[step.w].done < |s.workers[step.w].cids|
    && var cid := s.workers[step.w].cids[s.workers[step.w].done];
    step.pulled && R.PublishSucceeds(s.index, cid, env.node.LabelsOf(cid), step.saved) && step.reached
  }

  ghost predicate AnnouncesBy(step: Step, w: nat) {
    step.Announce? && step.w == w
  }

  /** The steps that end a worker's job. */
  ghost predicate EndsJob(step: Step, w: nat) {
    (step.SaveStatus? && step.w == w) || (step.ReadForStatus? && step.w == w && !step.ok)
  }

  ghost predicate NotEnded(steps: seq<Step>, w: nat, r: nat, j: nat) {
    forall k :: r < k < j && k < |steps| ==> !EndsJob(steps[k], w)
  }

  /** Where a worker stands after its request has resolved to `result`: n announcements made, and `good` if all
      of them succeeded. */
  ghost predicate JobPhase(me: Worker, id: PubId, result: Option<seq<string>>, n: nat, good: bool) {
    match me
    case Free => false
    case Started(_) => false
    case Announcing(id', cids, done, successes) =>
      id' == id && result == Some(cids) && done == n && successes <= done <= |cids| && (successes == done <==> good)
    case Finishing(id', _, status) =>
      && id' == id && n == (if result.Some? then |result.value| else 0)
      && status == if result.Some? && good then Completed else Failed
    case Saving(id', _, status, _) =>
      && id' == id && n == (if result.Some? then |result.value| else 0)
      && status == if result.Some? && good then Completed else Failed
  }

  lemma PhaseStarts(s: State, env: Env, w: nat, result: Option<seq<string>>)
    requires Enabled(s, env, Resolve(w, result))
    ensures JobPhase(Apply(s, env, Resolve(w, result)).workers[w], s.workers[w].id, result, 0, true)
  {
  }

  lemma PhaseStep(s: State, env: Env, step: Step, w: nat, id: PubId, result: Option<seq<string>>, n: nat, good: bool)
    requires Enabled(s, env, step) && w < |s.workers| && JobPhase(s.workers[w], id, result, n, good)
             && !EndsJob(step, w)
    ensures w < |Apply(s, env, step).workers|
    ensures JobPhase(Apply(s, env, step).workers[w], id, result, if AnnouncesBy(step, w) then n + 1 else n,
                     good && (AnnouncesBy(step, w) ==> Succeeds(s, env, step)))
  {
  }

  function AnnounceCount(steps: seq<Step>, w: nat, r: nat, j: nat): nat
    requires r < j <= |steps|
  {
    if j == r + 1 then 0
    else AnnounceCount(steps, w, r, j - 1) + if steps[j - 1].Announce? && steps[j - 1].w == w then 1 else 0
  }

  /** Every Announce step of the worker between r and j succeeds. */
  ghost predicate AllSucceed(env: Env, states: seq<State>, steps: seq<Step>, w: nat, r: nat, j: nat)
    requires j <= |steps| < |states|
  {
    forall k :: r < k < j && AnnouncesBy(steps[k], w) ==> Succeeds(states[k], env, steps[k])
  }

  lemma PhaseFirst(env: Env, states: seq<State>, steps: seq<Step>, w: nat, r: nat)
    requires IsRun(env, states, steps) && r < |steps| && steps[r].Resolve? && steps[r].w == w
    ensures w < |states[r].workers| && states[r].workers[w].Started? && w < |states[r + 1].workers|
    ensures JobPhase(states[r + 1].workers[w], states[r].workers[w].id, steps[r].result, 0, true)
  {
    var s, step := states[r], steps[r];
    assert StepAt(env, states, steps, r);
    PhaseStarts(s, env, w, step.result);
  }

  lemma PhaseNext(env: Env, states: seq<State>, steps: seq<Step>, w: nat, j: nat, id: PubId,
                  result: Option<seq<string>>, n: nat, good: bool)
    requires IsRun(env, states, steps) && j < |steps| && !EndsJob(steps[j], w)
    requires w < |states[j].workers| && JobPhase(states[j].workers[w], id, result, n, good)
    ensures w < |states[j + 1].workers|
    ensures JobPhase(states[j + 1].workers[w], id, result, if AnnouncesBy(steps[j], w) then n + 1 else n,
                     good && (AnnouncesBy(steps[j], w) ==> Succeeds(states[j], env, steps[j])))
  {
    var s, step := states[j], steps[j];
    assert StepAt(env, states, steps, j);
    PhaseStep(s, env, step, w, id, result, n, good);
  }

  lemma SucceedNext(env: Env, states: seq<State>, steps: seq<Step>, w: nat, r: nat, j: nat)
    requires IsRun(env, states, steps) && r < j < |steps|
    ensures AllSucceed(env, states, steps, w, r, j + 1) <==>
            AllSucceed(env, states, steps, w, r, j) && (AnnouncesBy(steps[j], w) ==> Succeeds(states[j], env, steps[j]))
  {
  }

  /** Where the worker stands at j, after its request resolved at r. */
  lemma {:induction false} PhaseKept(env: Env, states: seq<State>, steps: seq<Step>, w: nat, r: nat, j: nat, id: PubId,
                                     result: Option<seq<string>>)
    returns (n: nat, good: bool)
    requires IsRun(env, states, steps) && r < j <= |steps| && NotEnded(steps, w, r, j)
    requires w < |states[r + 1].workers| && JobPhase(states[r + 1].workers[w], id, result, 0, true)
    ensures w < |states[j].workers| && JobPhase(states[j].workers[w], id, result, n, good)
    ensures n == AnnounceCount(steps, w, r, j) && good == AllSucceed(env, states, steps, w, r, j)
    decreases j
  {
    if r + 1 == j {
      n, good := 0, true;
    } else {
      assert NotEnded(steps, w, r, j - 1) && !EndsJob(steps[j - 1], w);
      n, good := PhaseKept(env, states, steps, w, r, j - 1, id, result);
      PhaseNext(env, states, steps, w, j - 1, id, result, n, good);
      SucceedNext(env, states, steps, w, r, j - 1);
      good := good && (AnnouncesBy(steps[j - 1], w) ==> Succeeds(states[j - 1], env, steps[j - 1]));
      n := if AnnouncesBy(steps[j - 1], w) then n + 1 else n;
    }
  }

  lemma SavedVerdict(s: State, env: Env, w: nat, id: PubId, result: Option<seq<string>>, n: nat, good: bool)
    requires Enabled(s, env, SaveStatus(w, true)) && JobPhase(s.workers[w], id, result, n, good)
    ensures var s' := Apply(s, env, SaveStatus(w, true));
            && id in s'.rows && id in s'.handled
            && s'.rows[id].status == (if result.Some? && good then Completed else Failed)
            && n == if result.Some? then |result.value| else 0
  {
  }

  /** What a worker saves for a request: FAILED if it did not resolve; otherwise, after one announcement for each
      CID of the list, COMPLETED if all of them succeeded, as they do for an empty list, and FAILED if not. */
  lemma SavedStatusInRuns(env: Env, states: seq<State>, steps: seq<Step>, w: nat, r: nat, j: nat)
    requires IsRun(env, states, steps) && r < j < |steps| && steps[r].Resolve? && steps[r].w == w
    requires steps[j] == SaveStatus(w, true) && NotEnded(steps, w, r, j)
    ensures w < |states[r].workers| && states[r].workers[w].Started?
    ensures var id, result := states[r].workers[w].id, steps[r].result;
            && id in states[j + 1].rows
            && states[j + 1].rows[id].status
               == (if result.Some? && AllSucceed(env, states, steps, w, r, j) then Completed else Failed)
            && AnnounceCount(steps, w, r, j) == if result.Some? then |result.value| else 0
  {
    PhaseFirst(env, states, steps, w, r);
    var id, result := states[r].workers[w].id, steps[r].result;
    var n, good := PhaseKept(env, states, steps, w, r, j, id, result);
    var s := states[j];
    assert StepAt(env, states, steps, j);
    SavedVerdict(s, env, w, id, result, n, good);
  }

  /** The rows that the other threads write. */
  lemma StatusWritten(s: State, env: Env, step: Step)
    requires Enabled(s, env, step)
    ensures var s' := Apply(s, env, step);
            && (step.CreatePublication? ==> s'.rows == s.rows[step.id := Row(step.request, Pending)])
            && (step.SaveMark? && step.ok ==>
                  s'.rows == s.rows[s.scheduler.todo[0] := s.scheduler.row.(status := InProgress)])
            && (!step.CreatePublication? && !((step.SaveMark? || step.SaveStatus?) && step.ok) ==> s'.rows == s.rows)
  {
  }

  /** What is left of a tick. */
  function Remaining(scheduler: Scheduler): nat {
    match scheduler
    case Idle => 0
    case Sending(todo) => 3 * |todo| + 1
    case Sent(todo) => 3 * |todo|
    case Marking(todo, _) => if todo == [] then 0 else 3 * |todo| - 1
  }

  /** Every step of the scheduler but its scan brings the tick nearer to its end, whether calls succeed or not,
      and no other thread holds it up. */
  lemma TickAdvances(s: State, env: Env, step: Step)
    requires Enabled(s, env, step) && !step.Scan?
    ensures var s' := Apply(s, env, step);
            if step.Send? || step.ReadForMark? || step.SaveMark? || step.EndTick?
            then Remaining(s'.scheduler) < Remaining(s.scheduler) else s'.scheduler == s.scheduler
  {
  }

  // ---------------------------------------------------------------- no publication is lost

  ghost predicate Held(s: State, id: PubId) {
    exists w :: 0 <= w < |s.workers| && !s.workers[w].Free? && s.workers[w].id == id
  }

  /** The ids that workers have taken: all that was enqueued but for what is still queued. */
  function Taken(s: State): seq<PubId>
    requires |s.queue| <= |s.enqueued|
  {
    s.enqueued[..|s.enqueued| - |s.queue|]
  }

  /** The queue is the tail of what was sent, and everything taken from it is with a worker or handled. */
  ghost predicate Kept(s: State) {
    && |s.queue| <= 100 && |s.queue| <= |s.enqueued|
    && s.enqueued == Taken(s) + s.queue
    && forall i :: 0 <= i < |Taken(s)| ==> Taken(s)[i] in s.handled || Held(s, Taken(s)[i])
  }

  lemma HeldStays(s: State, env: Env, step: Step, id: PubId)
    requires Enabled(s, env, step) && (Held(s, id) || id in s.handled)
    ensures Held(Apply(s, env, step), id) || id in Apply(s, env, step).handled
  {
    var s' := Apply(s, env, step);
    if Held(s, id) {
      var w :| 0 <= w < |s.workers| && !s.workers[w].Free? && s.workers[w].id == id;
      assert !s'.workers[w].Free? ==> s'.workers[w].id == id;
    }
  }

  lemma TakeKeeps(s: State, env: Env, w: nat)
    requires Kept(s) && Enabled(s, env, Take(w))
    ensures Kept(Apply(s, env, Take(w)))
  {
    var s' := Apply(s, env, Take(w));
    assert Taken(s') == Taken(s) + [s.queue[0]];
    assert !s'.workers[w].Free? && s'.workers[w].id == s.queue[0];
    forall i | 0 <= i < |Taken(s')| ensures Taken(s')[i] in s'.handled || Held(s', Taken(s')[i]) {
      if i < |Taken(s)| {
        HeldStays(s, env, Take(w), Taken(s)[i]);
      }
    }
  }

  lemma StepKeeps(s: State, env: Env, step: Step)
    requires Kept(s) && Enabled(s, env, step)
    ensures Kept(Apply(s, env, step))
  {
    var s' := Apply(s, env, step);
    if step.Take? {
      TakeKeeps(s, env, step.w);
    } else {
      assert |s'.enqueued| - |s'.queue| == |s.enqueued| - |s.queue|;
      assert Taken(s') == Taken(s);
      forall i | 0 <= i < |Taken(s)| ensures Taken(s)[i] in s'.handled || Held(s', Taken(s)[i]) {
        HeldStays(s, env, step, Taken(s)[i]);
      }
    }
  }

  /** In every interleaving every publication that was sent is queued in the order of sending, with a worker, or
      handled. */
  lemma {:induction false} NoPublicationLostInRuns(env: Env, states: seq<State>, steps: seq<Step>, i: nat)
    requires IsRun(env, states, steps) && i <= |steps|
    ensures Kept(states[i])
  {
    if i > 0 {
      NoPublicationLostInRuns(env, states, steps, i - 1);
      assert StepAt(env, states, steps, i - 1);
      StepKeeps(states[i - 1], env, steps[i - 1]);
    }
  }

  // ---------------------------------------------------------------- announced CIDs are published

  /** A routing step that takes the CID out of the record index. */
  ghost predicate Withdraws(step: R.Step, cid: string) {
    (step.Unpublish? && step.cid == cid) || (step.Republish? && cid !in step.pullable)
  }

  lemma RoutingKeepsPublished(ds: R.Store, node: R.Node, step: R.Step, cid: string)
    requires node.WellFormed() && R.Inv(ds, node) && R.Admissible(ds, step, node)
    requires cid in R.Published(ds) && !Withdraws(step, cid)
    ensures cid in R.Published(R.Apply(ds, node, step))
  {
    match step
    case Publish(c, now, saved) => if R.RecordKey(c) !in ds { R.PublishFacts(ds, node, c, now, saved); }
    case Unpublish(c, saved) => R.UnpublishFacts(ds, node, c, saved);
    case Announce(key, now) => R.AnnounceFacts(ds, node, key, now);
    case CleanStale(now) => R.CleanStaleFacts(ds, node, now);
    case Republish(pullable) => R.RepublishFacts(ds, node, pullable);
  }

  /** The routing step that a step of the service amounts to, if any. */
  ghost function RoutingStep(s: State, env: Env, step: Step): Option<R.Step>
    requires Enabled(s, env, step)
  {
    if step.Announce? && step.pulled then
      var me := s.workers[step.w];
      Some(R.Publish(me.cids[me.done], step.now, step.saved))
    else if step.Route? then Some(step.step)
    else None
  }

  lemma RoutingStepFacts(s: State, env: Env, step: Step)
    requires Enabled(s, env, step)
    ensures var rs := RoutingStep(s, env, step);
            && (rs.None? ==> Apply(s, env, step).index == s.index)
            && (rs.Some? ==>
                  && R.Admissible(s.index, rs.value, env.node)
                  && Apply(s, env, step).index == R.Apply(s.index, env.node, rs.value))
    ensures Apply(s, env, step).tables == if step.Store? then S.Apply(s.tables, env.contentOf, step.change)
            else s.tables
  {
  }

  ghost predicate StoresOk(s: State, env: Env) {
    R.Inv(s.index, env.node) && S.Inv(s.tables, env.contentOf)
  }

  lemma StoresStep(s: State, env: Env, step: Step)
    requires env.node.WellFormed() && StoresOk(s, env) && Enabled(s, env, step)
    ensures StoresOk(Apply(s, env, step), env)
  {
    var rs := RoutingStep(s, env, step);
    RoutingStepFacts(s, env, step);
    if rs.Some? { R.StepKeepsInv(s.index, env.node, rs.value); }
    if step.Store? { S.StepKeepsInv(s.tables, env.contentOf, step.change); }
  }

  lemma StoresInitially(s: State, env: Env)
    requires Init(s)
    ensures StoresOk(s, env)
  {
    assert forall cid :: !S.Present(s.tables, cid);
  }

  /** The routing index and the search tables keep their invariants, whatever the other threads do. */
  lemma {:induction false} StoresInRuns(env: Env, states: seq<State>, steps: seq<Step>, i: nat)
    requires IsRun(env, states, steps) && i <= |steps|
    ensures StoresOk(states[i], env)
  {
    if i == 0 {
      StoresInitially(states[0], env);
    } else {
      StoresInRuns(env, states, steps, i - 1);
      assert StepAt(env, states, steps, i - 1);
      StoresStep(states[i - 1], env, steps[i - 1]);
    }
  }

  lemma StaysPublishedStep(s: State, env: Env, step: Step, cid: string)
    requires env.node.WellFormed() && StoresOk(s, env) && Enabled(s, env, step) && cid in R.Published(s.index)
    requires step.Route? ==> !Withdraws(step.step, cid)
    ensures cid in R.Published(Apply(s, env, step).index)
  {
    var rs := RoutingStep(s, env, step);
    RoutingStepFacts(s, env, step);
    if rs.Some? { RoutingKeepsPublished(s.index, env.node, rs.value, cid); }
  }

  /** No routing step from a on and before i withdraws the CID. */
  ghost predicate Unwithdrawn(steps: seq<Step>, a: nat, i: nat, cid: string) {
    forall j :: a <= j < i && j < |steps| && steps[j].Route? ==> !Withdraws(steps[j].step, cid)
  }

  lemma StaysPublishedNext(env: Env, states: seq<State>, steps: seq<Step>, i: nat, cid: string)
    requires IsRun(env, states, steps) && i < |steps| && cid in R.Published(states[i].index)
    requires steps[i].Route? ==> !Withdraws(steps[i].step, cid)
    ensures cid in R.Published(states[i + 1].index)
  {
    var s, step := states[i], steps[i];
    assert StepAt(env, states, steps, i);
    StoresInRuns(env, states, steps, i);
    StaysPublishedStep(s, env, step, cid);
  }

  /** A CID in the record index stays there until a routing step withdraws it. */
  lemma {:induction false} StaysPublished(env: Env, states: seq<State>, steps: seq<Step>, a: nat, i: nat, cid: string)
    requires IsRun(env, states, steps) && a <= i <= |steps| && cid in R.Published(states[a].index)
    requires Unwithdrawn(steps, a, i, cid)
    ensures cid in R.Published(states[i].index)
    decreases i
  {
    if a < i {
      assert Unwithdrawn(steps, a, i - 1, cid);
      StaysPublished(env, states, steps, a, i - 1, cid);
      StaysPublishedNext(env, states, steps, i - 1, cid);
    }
  }

  // ---------------------------------------------------------------- what a COMPLETED publication did

  /** In this step a worker resolves the request of this publication to these CIDs. */
  ghost predicate ResolvesNow(s: State, env: Env, step: Step, id: PubId, cids: seq<string>) {
    && step.Resolve? && step.result == Some(cids)
    && step.w < |s.workers| && s.workers[step.w].Started? && s.workers[step.w].id == id
    && id in s.rows && Resolves(env, s.tables, s.rows[id].request, cids)
  }

  /** In this step, from s to s', a worker pulls and announces this CID for this publication, and the CID is
      then in the record index. */
  ghost predicate AnnouncesNow(s: State, step: Step, s': State, id: PubId, cid: string) {
    && step.Announce? && step.pulled && step.reached
    && step.w < |s.workers| && s.workers[step.w].Announcing? && s.workers[step.w].id == id
    && s.workers[step.w].done < |s.workers[step.w].cids| && s.workers[step.w].cids[s.workers[step.w].done] == cid
    && (id, cid) in s'.announced && cid in R.Published(s'.index)
  }

  lemma NewlyResolved(s: State, env: Env, step: Step, id: PubId, cids: seq<string>)
    requires Enabled(s, env, step) && (id, cids) !in s.resolved && (id, cids) in Apply(s, env, step).resolved
    ensures ResolvesNow(s, env, step, id, cids)
  {
  }

  lemma NewlyAnnounced(s: State, env: Env, step: Step, id: PubId, cid: string)
    requires env.node.WellFormed() && StoresOk(s, env) && Enabled(s, env, step)
    requires (id, cid) !in s.announced && (id, cid) in Apply(s, env, step).announced
    ensures AnnouncesNow(s, step, Apply(s, env, step), id, cid)
  {
    RoutingStepFacts(s, env, step);
    R.PublishedMember(s.index, cid);
    if R.RecordKey(cid) !in s.index {
      R.PublishFacts(s.index, env.node, cid, step.now, step.saved);
    }
  }

  lemma {:induction false} WhenResolved(env: Env, states: seq<State>, steps: seq<Step>, i: nat, id: PubId,
                                        cids: seq<string>)
    returns (r: nat)
    requires IsRun(env, states, steps) && i <= |steps| && (id, cids) in states[i].resolved
    ensures r < i && ResolvesNow(states[r], env, steps[r], id, cids)
  {
    assert states[0].resolved == {} && i > 0;
    if (id, cids) in states[i - 1].resolved {
      r := WhenResolved(env, states, steps, i - 1, id, cids);
    } else {
      r := i - 1;
      assert StepAt(env, states, steps, r);
      NewlyResolved(states[r], env, steps[r], id, cids);
    }
  }

  /** Whether step i announces this CID; if not, it was announced before it or not at all. */
  lemma AnnouncedBefore(env: Env, states: seq<State>, steps: seq<Step>, i: nat, id: PubId, cid: string)
    requires IsRun(env, states, steps) && i < |steps| && (id, cid) in states[i + 1].announced
    ensures AnnouncesNow(states[i], steps[i], states[i + 1], id, cid) || (id, cid) in states[i].announced
  {
    var s, step := states[i], steps[i];
    assert StepAt(env, states, steps, i);
    if (id, cid) !in s.announced {
      StoresInRuns(env, states, steps, i);
      NewlyAnnounced(s, env, step, id, cid);
    }
  }

  ghost predicate NotAnnouncedAgain(states: seq<State>, steps: seq<Step>, a: nat, i: nat, id: PubId, cid: string)
    requires i <= |steps| < |states|
  {
    forall j :: a < j < i ==> !AnnouncesNow(states[j], steps[j], states[j + 1], id, cid)
  }

  /** The last step that announced the CID for the publication. */
  lemma {:induction false} WhenAnnounced(env: Env, states: seq<State>, steps: seq<Step>, i: nat, id: PubId, cid: string)
    returns (a: nat)
    requires IsRun(env, states, steps) && i <= |steps| && (id, cid) in states[i].announced
    ensures a < i && AnnouncesNow(states[a], steps[a], states[a + 1], id, cid)
    ensures NotAnnouncedAgain(states, steps, a, i, id, cid)
  {
    assert states[0].announced == {} && i > 0;
    AnnouncedBefore(env, states, steps, i - 1, id, cid);
    if AnnouncesNow(states[i - 1], steps[i - 1], states[i], id, cid) {
      a := i - 1;
    } else {
      a := WhenAnnounced(env, states, steps, i - 1, id, cid);
    }
  }

  lemma StepGrows(s: State, env: Env, step: Step)
    requires Honest(s) && Enabled(s, env, step)
    ensures Grows(s, Apply(s, env, step))
  {
    if step.SaveStatus? { assert WorkerHonest(s, s.workers[step.w]); }
  }

  lemma RequestKept(env: Env, states: seq<State>, steps: seq<Step>, i: nat, id: PubId)
    requires IsRun(env, states, steps) && i < |steps| && id in states[i].rows
    ensures id in states[i + 1].rows && states[i + 1].rows[id].request == states[i].rows[id].request
  {
    var s, step := states[i], steps[i];
    assert StepAt(env, states, steps, i);
    CompletedIsHonestInRuns(env, states, steps, i);
    StepGrows(s, env, step);
  }

  lemma {:induction false} RequestFixed(env: Env, states: seq<State>, steps: seq<Step>, r: nat, i: nat, id: PubId)
    requires IsRun(env, states, steps) && r <= i <= |steps| && id in states[r].rows
    ensures id in states[i].rows && states[i].rows[id].request == states[r].rows[id].request
    decreases i
  {
    if r < i {
      RequestFixed(env, states, steps, r, i - 1, id);
      RequestKept(env, states, steps, i - 1, id);
    }
  }

  /** A COMPLETED publication was completed for CIDs that a worker resolved its request to; for a search,
      exactly the records present then whose content passes. */
  lemma CompletedWasResolved(env: Env, states: seq<State>, steps: seq<Step>, i: nat, id: PubId) returns (r: nat)
    requires IsRun(env, states, steps) && i <= |steps|
    requires id in states[i].rows && states[i].rows[id].status.Completed?
    ensures id in states[i].completedFor && r < i
            && ResolvesNow(states[r], env, steps[r], id, states[i].completedFor[id])
    ensures id in states[r].rows && states[r].rows[id].request == states[i].rows[id].request
    ensures states[i].rows[id].request.Queries? ==>
              forall cid :: cid in states[i].completedFor[id] <==>
                S.Present(states[r].tables, cid)
                  && S.Accepts(F.LastSaid(states[i].rows[id].request.queries), env.contentOf(cid), env.like)
  {
    CompletedIsHonestInRuns(env, states, steps, i);
    var cids := states[i].completedFor[id];
    r := WhenResolved(env, states, steps, i, id, cids);
    RequestFixed(env, states, steps, r, i, id);
    if states[i].rows[id].request.Queries? {
      StoresInRuns(env, states, steps, r);
      S.QueriesAnswered(states[r].tables, env.contentOf, states[i].rows[id].request.queries, env.like, cids);
    }
  }

  /** Each of those CIDs was in the record index right after the last step that announced it, and still is
      unless a routing step since then withdrew it. */
  lemma CompletedArePublished(env: Env, states: seq<State>, steps: seq<Step>, i: nat, id: PubId, cid: string)
    returns (a: nat)
    requires IsRun(env, states, steps) && i <= |steps|
    requires id in states[i].rows && states[i].rows[id].status.Completed?
    requires id in states[i].completedFor && cid in states[i].completedFor[id]
    ensures a < i && AnnouncesNow(states[a], steps[a], states[a + 1], id, cid)
    ensures NotAnnouncedAgain(states, steps, a, i, id, cid)
    ensures Unwithdrawn(steps, a + 1, i, cid) ==> cid in R.Published(states[i].index)
  {
    CompletedIsHonestInRuns(env, states, steps, i);
    var cids := states[i].completedFor[id];
    var n :| 0 <= n < |cids| && cids[n] == cid;
    assert (id, cids[n]) in states[i].announced;
    a := WhenAnnounced(env, states, steps, i, id, cid);
    if Unwithdrawn(steps, a + 1, i, cid) {
      StaysPublished(env, states, steps, a + 1, i, cid);
    }
  }

  // ---------------------------------------------------------------- a publication from creation to completion

  /** Taking the steps one after the other leads from s to s'. */
  ghost predicate Reaches(env: Env, s: State, steps: seq<Step>, s': State)
    decreases |steps|
  {
    if steps == [] then s == s'
    else Enabled(s, env, steps[0]) && Reaches(env, Apply(s, env, steps[0]), steps[1..], s')
  }

  lemma ReachesBy(env: Env, s: State, step: Step, steps: seq<Step>, s': State)
    requires Enabled(s, env, step) && Reaches(env, Apply(s, env, step), steps, s')
    ensures Reaches(env, s, [step] + steps, s')
  {
    assert ([step] + steps)[1..] == steps;
  }

  lemma {:induction false} ReachesThrough(env: Env, s: State, first: seq<Step>, s1: State, second: seq<Step>, s2: State)
    requires Reaches(env, s, first, s1) && Reaches(env, s1, second, s2)
    ensures Reaches(env, s, first + second, s2)
    decreases |first|
  {
    if first == [] {
      assert first + second == second;
    } else {
      ReachesThrough(env, Apply(s, env, first[0]), first[1..], s1, second, s2);
      assert first + second == [first[0]] + (first[1..] + second);
      ReachesBy(env, s, first[0], first[1..] + second, s2);
    }
  }

  lemma OneStep(env: Env, s: State, step: Step) returns (s': State)
    requires Enabled(s, env, step)
    ensures Reaches(env, s, [step], s') && s' == Apply(s, env, step)
  {
    s' := Apply(s, env, step);
    assert Reaches(env, s', [], s');
    ReachesBy(env, s, step, [], s');
    assert [step] + [] == [step];
  }

  /** A worker takes a publication of one reference and resolves it. */
  lemma TakeAndResolve(env: Env, s: State, id: PubId, cid: string) returns (steps: seq<Step>, s': State)
    requires |s.workers| > 0 && s.workers[0].Free? && s.queue == [id] && id in s.rows
             && s.rows[id].request == Refs([cid])
    ensures Reaches(env, s, steps, s') && s'.rows == s.rows && s'.index == s.index
    ensures |s'.workers| > 0 && s'.workers[0] == Announcing(id, [cid], 0, 0)
  {
    var s1 := OneStep(env, s, Take(0));
    s' := OneStep(env, s1, Resolve(0, Some([cid])));
    ReachesThrough(env, s, [Take(0)], s1, [Resolve(0, Some([cid]))], s');
    steps := [Take(0)] + [Resolve(0, Some([cid]))];
  }

  /** It announces the CID with success. */
  lemma AnnounceAndDecide(env: Env, s: State, id: PubId, cid: string, now: int) returns (steps: seq<Step>, s': State)
    requires |s.workers| > 0 && s.workers[0] == Announcing(id, [cid], 0, 0)
    requires CleanComponent(cid) && R.LoadMetrics(s.index).Some?
    ensures Reaches(env, s, steps, s') && s'.rows == s.rows
    ensures |s'.workers| > 0 && s'.workers[0] == Finishing(id, [cid], Completed)
  {
    var announce := Announce(0, true, now, true, true);
    var s1 := OneStep(env, s, announce);
    assert s1.workers[0] == Announcing(id, [cid], 1, 1);
    s' := OneStep(env, s1, Decide(0));
    ReachesThrough(env, s, [announce], s1, [Decide(0)], s');
    steps := [announce] + [Decide(0)];
  }

  lemma SaveCompleted(env: Env, s: State, id: PubId, cids: seq<string>) returns (steps: seq<Step>, s': State)
    requires |s.workers| > 0 && s.workers[0] == Finishing(id, cids, Completed) && id in s.rows
    ensures Reaches(env, s, steps, s') && id in s'.rows && s'.rows[id].status.Completed?
  {
    var s1 := OneStep(env, s, ReadForStatus(0, true));
    s' := OneStep(env, s1, SaveStatus(0, true));
    ReachesThrough(env, s, [ReadForStatus(0, true)], s1, [SaveStatus(0, true)], s');
    steps := [ReadForStatus(0, true)] + [SaveStatus(0, true)];
  }

  /** From any state with the scheduler and a worker free, an empty queue and usable counters, the only PENDING
      publication, of one reference, can be brought to COMPLETED. */
  lemma CanComplete(env: Env, s: State, id: PubId, cid: string, now: int) returns (steps: seq<Step>, s': State)
    requires s.scheduler.Idle? && s.queue == [] && |s.workers| > 0 && s.workers[0].Free?
    requires Snapshot(s, [id]) && id in s.rows && s.rows[id].request == Refs([cid])
    requires CleanComponent(cid) && R.LoadMetrics(s.index).Some?
    ensures Reaches(env, s, steps, s') && id in s'.rows && s'.rows[id].status.Completed?
  {
    var s0 := OneStep(env, s, Scan([id]));
    var s1 := OneStep(env, s0, Send(true));
    ReachesThrough(env, s, [Scan([id])], s0, [Send(true)], s1);
    var second, s2 := TakeAndResolve(env, s1, id, cid);
    var third, s3 := AnnounceAndDecide(env, s2, id, cid, now);
    var fourth, s4 := SaveCompleted(env, s3, id, [cid]);
    var first := [Scan([id])] + [Send(true)];
    ReachesThrough(env, s, first, s1, second, s2);
    ReachesThrough(env, s, first + second, s2, third, s3);
    ReachesThrough(env, s, first + second + third, s3, fourth, s4);
    steps, s' := first + second + third + fourth, s4;
  }
}
