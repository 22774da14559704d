/** The sync service: a scheduler, a bounded queue, workers and delete requests, all changing rows
    of one table by reading a row and saving it whole as two separate steps. */
module SyncProtocol {
  import opened Text

  type SyncId = string

  datatype Status = Unspecified | Pending | InProgress | Failed | DeletePending | Deleted

  datatype Row = Row(directoryUrl: string, registryUrl: string, status: Status)

  datatype WorkItem = Create(id: SyncId, url: string) | Delete(id: SyncId, url: string)

  const QUEUE_CAPACITY := 100

  /** Where the scheduler stands. `todo` is what is left of its snapshot, current item first. */
  datatype Scheduler =
    | Idle
    | Creating(todo: seq<SyncId>)
    | Marking(todo: seq<SyncId>, row: Row)      // row read, IN_PROGRESS not saved yet
    | Dispatching(todo: seq<SyncId>)            // IN_PROGRESS saved, item not sent yet
    | Reverting(todo: seq<SyncId>)              // item refused, row not read yet
    | Unmarking(todo: seq<SyncId>, row: Row)    // row read, PENDING not saved yet
    | Deleting(todo: seq<SyncId>)

  datatype Worker =
    | Free
    | Started(item: WorkItem)
    | Recording(item: WorkItem, row: Row, registry: string)  // row read, registry not saved yet
    | Configuring(item: WorkItem)
    | Finishing(item: WorkItem, status: Status)
    | Saving(item: WorkItem, row: Row, status: Status)       // row read, final status not saved yet

  datatype Client = NoRequest | Checked(id: SyncId) | MarkingDelete(id: SyncId, row: Row)

  /** The database, the queue and every thread; `enqueued` and `finished` are the history of the queue,
      `created` and `requested` that of the clients. */
  datatype State = State(
    rows: map<SyncId, Row>,
    queue: seq<WorkItem>,
    scheduler: Scheduler,
    workers: seq<Worker>,
    clients: seq<Client>,
    enqueued: seq<WorkItem>,
    finished: seq<WorkItem>,
    created: map<SyncId, string>,
    requested: set<SyncId>)

  /** One atomic action of one thread. `ok` is false when the database call fails. */
  datatype Step =
    | CreateSync(id: SyncId, url: string)
    // scheduler
    | ScanPending(ids: seq<SyncId>)
    | FailScanPending
    | ReadForMark(ok: bool)
    | SaveMark(ok: bool)
    | DispatchCreate(sent: bool)
    | ReadForRevert(ok: bool)
    | SaveRevert(ok: bool)
    | ScanDeletePending(ids: seq<SyncId>)
    | FailScanDelete
    | DispatchDelete(sent: bool)
    | EndTick
    // workers
    | Take(w: nat)
    | ReadForRegistry(w: nat, registry: string)
    | SaveRegistry(w: nat, ok: bool)
    | Conclude(w: nat, failed: bool)
    | ReadForStatus(w: nat, ok: bool)
    | SaveStatus(w: nat, ok: bool)
    // delete requests
    | CheckDelete(c: nat, id: SyncId)
    | ReadForDelete(c: nat, ok: bool)
    | SaveDelete(c: nat, ok: bool)

  /** The ids of the rows with a status, each once, in some order. */
  ghost predicate Snapshot(s: State, ids: seq<SyncId>, status: Status) {
    NoDup(ids) && forall id :: id in ids <==> id in s.rows && s.rows[id].status == status
  }

  ghost predicate Init(s: State) {
    && s.rows == map[] && s.queue == [] && s.scheduler == Idle && s.enqueued == [] && s.finished == []
    && s.created == map[] && s.requested == {}
    && (forall w :: 0 <= w < |s.workers| ==> s.workers[w] == Free)
    && (forall c :: 0 <= c < |s.clients| ==> s.clients[c] == NoRequest)
  }

  predicate Sends(s: State, sent: bool) {
    sent ==> |s.queue| < QUEUE_CAPACITY
  }

  ghost predicate Enabled(s: State, step: Step) {
    match step
    case CreateSync(id, _) => id !in s.rows
    case ScanPending(ids) => s.scheduler.Idle? && Snapshot(s, ids, Pending)
    case FailScanPending => s.scheduler.Idle?
    case ReadForMark(ok) => s.scheduler.Creating? && s.scheduler.todo != [] && (ok ==> s.scheduler.todo[0] in s.rows)
    case SaveMark(_) => s.scheduler.Marking? && s.scheduler.todo != []
    case DispatchCreate(sent) =>
      s.scheduler.Dispatching? && s.scheduler.todo != [] && s.scheduler.todo[0] in s.rows && Sends(s, sent)
    case ReadForRevert(ok) => s.scheduler.Reverting? && s.scheduler.todo != [] && (ok ==> s.scheduler.todo[0] in s.rows)
    case SaveRevert(_) => s.scheduler.Unmarking? && s.scheduler.todo != []
    case ScanDeletePending(ids) => s.scheduler.Creating? && s.scheduler.todo == [] && Snapshot(s, ids, DeletePending)
    case FailScanDelete => s.scheduler.Creating? && s.scheduler.todo == []
    case DispatchDelete(sent) =>
      s.scheduler.Deleting? && s.scheduler.todo != [] && s.scheduler.todo[0] in s.rows && Sends(s, sent)
    case EndTick => s.scheduler.Deleting? && s.scheduler.todo == []
    case Take(w) => w < |s.workers| && s.workers[w].Free? && s.queue != []
    case ReadForRegistry(w, _) =>
      w < |s.workers| && s.workers[w].Started? && s.workers[w].item.Create? && s.workers[w].item.id in s.rows
    case SaveRegistry(w, _) => w < |s.workers| && s.workers[w].Recording?
    case Conclude(w, failed) =>
      w < |s.workers| && (s.workers[w].Configuring? || (s.workers[w].Started? && (failed || s.workers[w].item.Delete?)))
    case ReadForStatus(w, ok) => w < |s.workers| && s.workers[w].Finishing? && (ok ==> s.workers[w].item.id in s.rows)
    case SaveStatus(w, _) => w < |s.workers| && s.workers[w].Saving?
    case CheckDelete(c, id) => c < |s.clients| && s.clients[c].NoRequest? && id in s.rows && !s.rows[id].status.Deleted?
    case ReadForDelete(c, ok) => c < |s.clients| && s.clients[c].Checked? && (ok ==> s.clients[c].id in s.rows)
    case SaveDelete(c, _) => c < |s.clients| && s.clients[c].MarkingDelete?
  }

  /** Saving a whole row with one field changed. */
  function SaveRow(s: State, id: SyncId, row: Row, ok: bool): map<SyncId, Row> {
    if ok then s.rows[id := row] else s.rows
  }

  function Enqueue(s: State, item: WorkItem, sent: bool): State {
    if sent then s.(queue := s.queue + [item], enqueued := s.enqueued + [item]) else s
  }

  function SetWorker(s: State, w: nat, worker: Worker): State
    requires w < |s.workers|
  {
    s.(workers := s.workers[w := worker])
  }

  /** What a worker decides to write at the end of an item. */
  function FinalStatus(item: WorkItem, failed: bool): Status {
    if failed then Failed else if item.Create? then InProgress else Deleted
  }

  ghost function Apply(s: State, step: Step): State
    requires Enabled(s, step)
  {
    match step
    case CreateSync(id, url) => s.(rows := s.rows[id := Row(url, "", Pending)], created := s.created[id := url])
    case ScanPending(ids) => s.(scheduler := Creating(ids))
    case FailScanPending => s.(scheduler := Creating([]))
    case ReadForMark(ok) =>
      var todo := s.scheduler.todo;
      s.(scheduler := if ok then Marking(todo, s.rows[todo[0]]) else Creating(todo[1..]))
    case SaveMark(ok) =>
      var todo := s.scheduler.todo;
      s.(rows := SaveRow(s, todo[0], s.scheduler.row.(status := InProgress), ok),
         scheduler := if ok then Dispatching(todo) else Creating(todo[1..]))
    case DispatchCreate(sent) =>
      var todo := s.scheduler.todo;
      Enqueue(s, Create(todo[0], s.rows[todo[0]].directoryUrl), sent)
      .(scheduler := if sent then Creating(todo[1..]) else Reverting(todo))
    case ReadForRevert(ok) =>
      var todo := s.scheduler.todo;
      s.(scheduler := if ok then Unmarking(todo, s.rows[todo[0]]) else Creating(todo[1..]))
    case SaveRevert(ok) =>
      var todo := s.scheduler.todo;
      s.(rows := SaveRow(s, todo[0], s.scheduler.row.(status := Pending), ok), scheduler := Creating(todo[1..]))
    case ScanDeletePending(ids) => s.(scheduler := Deleting(ids))
    case FailScanDelete => s.(scheduler := Idle)
    case DispatchDelete(sent) =>
      var todo := s.scheduler.todo;
      Enqueue(s, Delete(todo[0], s.rows[todo[0]].directoryUrl), sent).(scheduler := Deleting(todo[1..]))
    case EndTick => s.(scheduler := Idle)
    case Take(w) => SetWorker(s, w, Started(s.queue[0])).(queue := s.queue[1..])
    case ReadForRegistry(w, registry) =>
      SetWorker(s, w, Recording(s.workers[w].item, s.rows[s.workers[w].item.id], registry))
    case SaveRegistry(w, ok) =>
      var me := s.workers[w];
      SetWorker(s, w, if ok then Configuring(me.item) else Finishing(me.item, Failed))
      .(rows := SaveRow(s, me.item.id, me.row.(registryUrl := me.registry), ok))
    case Conclude(w, failed) => SetWorker(s, w, Finishing(s.workers[w].item, FinalStatus(s.workers[w].item, failed)))
    case ReadForStatus(w, ok) =>
      var me := s.workers[w];
      if ok then SetWorker(s, w, Saving(me.item, s.rows[me.item.id], me.status))
      else SetWorker(s, w, Free).(finished := s.finished + [me.item])
    case SaveStatus(w, ok) =>
      var me := s.workers[w];
      SetWorker(s, w, Free)
      .(rows := SaveRow(s, me.item.id, me.row.(status := me.status), ok), finished := s.finished + [me.item])
    case CheckDelete(c, id) => s.(clients := s.clients[c := Checked(id)])
    case ReadForDelete(c, ok) =>
      var me := s.clients[c];
      s.(clients := s.clients[c := if ok then MarkingDelete(me.id, s.rows[me.id]) else NoRequest])
    case SaveDelete(c, ok) =>
      var me := s.clients[c];
      s.(rows := SaveRow(s, me.id, me.row.(status := DeletePending), ok), clients := s.clients[c := NoRequest],
         requested := if ok then s.requested + {me.id} else s.requested)
  }

  ghost predicate IsRun(states: seq<State>, steps: seq<Step>) {
    && |states| == |steps| + 1
    && Init(states[0])
    && forall i :: 0 <= i < |steps| ==> Enabled(states[i], steps[i]) && states[i + 1] == Apply(states[i], steps[i])
  }

  // ---------------------------------------------------------------- invariants

  /** Some work item for the sync has been put on the queue at some time. */
  ghost predicate EverEnqueued(items: seq<WorkItem>, id: SyncId) {
    exists i :: 0 <= i < |items| && items[i].id == id
  }

  /** How often the create item of a sync has been enqueued. */
  function CreateCount(items: seq<WorkItem>, id: SyncId): nat {
    if items == [] then 0
    else
      var last := items[|items| - 1];
      CreateCount(items[..|items| - 1], id) + (if last.Create? && last.id == id then 1 else 0)
  }

  /** The pending syncs the scheduler has in hand. */
  ghost function InHand(s: State): seq<SyncId> {
    if s.scheduler.Idle? || s.scheduler.Deleting? then [] else s.scheduler.todo
  }

  ghost predicate PendingNeverEnqueued(s: State) {
    forall id :: id in s.rows && s.rows[id].status.Pending? ==> !EverEnqueued(s.enqueued, id)
  }

  ghost predicate NotPending(s: State, id: SyncId) {
    id in s.rows && !s.rows[id].status.Pending?
  }

  /** What the scheduler is about to send is not PENDING. */
  ghost predicate SendsNoPending(s: State) {
    && (s.scheduler.Dispatching? ==> s.scheduler.todo != [] && NotPending(s, s.scheduler.todo[0]))
    && (s.scheduler.Deleting? ==> forall i :: 0 <= i < |s.scheduler.todo| ==> NotPending(s, s.scheduler.todo[i]))
  }

  ghost predicate WorkerOk(s: State, w: nat)
    requires w < |s.workers|
  {
    var me := s.workers[w];
    && (!me.Free? ==> me.item in s.enqueued)
    && (me.Recording? ==> me.item.Create? && !me.row.status.Pending?)
    && (me.Configuring? ==> me.item.Create?)
    && (me.Finishing? || me.Saving? ==> me.status.Failed? || me.status == FinalStatus(me.item, false))
  }

  ghost predicate Inv(s: State) {
    && PendingNeverEnqueued(s)
    && SendsNoPending(s)
    && NoDup(InHand(s))
    && (forall id :: id in InHand(s) ==> id in s.rows && !EverEnqueued(s.enqueued, id))
    && (forall c :: 0 <= c < |s.clients| && !s.clients[c].NoRequest? ==> s.clients[c].id in s.rows)
    && (forall i :: 0 <= i < |s.enqueued| ==> s.enqueued[i].id in s.rows)
    && (forall i :: 0 <= i < |s.queue| ==> s.queue[i] in s.enqueued)
    && (forall w :: 0 <= w < |s.workers| ==> WorkerOk(s, w))
    && (forall id :: CreateCount(s.enqueued, id) <= 1)
    && (forall id :: CreateCount(s.enqueued, id) > 0 ==> EverEnqueued(s.enqueued, id))
  }

  lemma EnqueueFacts(s: State, item: WorkItem, id: SyncId)
    ensures var s' := Enqueue(s, item, true);
            && (EverEnqueued(s'.enqueued, id) <==> EverEnqueued(s.enqueued, id) || id == item.id)
            && CreateCount(s'.enqueued, id) == CreateCount(s.enqueued, id)
               + (if item.Create? && item.id == id then 1 else 0)
  {
    var all := s.enqueued + [item];
    assert all[..|all| - 1] == s.enqueued;
    assert all[|s.enqueued|] == item;
    if EverEnqueued(s.enqueued, id) {
      var i :| 0 <= i < |s.enqueued| && s.enqueued[i].id == id;
      assert all[i].id == id;
    }
  }

  /** The only steps that make a sync PENDING are its creation and the scheduler's own revert. */
  lemma RowsStep(s: State, step: Step, id: SyncId)
    requires Inv(s) && Enabled(s, step)
    ensures id in s.rows ==> id in Apply(s, step).rows
    ensures NotPending(s, id) && !(step.SaveRevert? && id in InHand(s)) ==> NotPending(Apply(s, step), id)
    ensures id !in s.rows && id in Apply(s, step).rows ==> step.CreateSync? && step.id == id
  {
    if step.SaveRegistry? || step.SaveStatus? {
      assert WorkerOk(s, step.w);
      assert s.workers[step.w].item in s.enqueued;
    }
  }

  /** Sending an item that is not PENDING, and a create item only once. */
  lemma SendKeepsInv(s: State, item: WorkItem, next: Scheduler)
    requires Inv(s) && NotPending(s, item.id)
    requires item.Create? ==> !EverEnqueued(s.enqueued, item.id)
    requires var s' := s.(scheduler := next);
             && SendsNoPending(s') && NoDup(InHand(s')) && item.id !in InHand(s')
             && forall id :: id in InHand(s') ==> id in InHand(s)
    ensures Inv(Enqueue(s, item, true).(scheduler := next))
  {
    var s' := Enqueue(s, item, true).(scheduler := next);
    forall id ensures (EverEnqueued(s'.enqueued, id) <==> EverEnqueued(s.enqueued, id) || id == item.id)
                      && CreateCount(s'.enqueued, id) == CreateCount(s.enqueued, id)
                         + (if item.Create? && item.id == id then 1 else 0) {
      EnqueueFacts(s, item, id);
    }
    forall w | 0 <= w < |s'.workers| ensures WorkerOk(s', w) { assert WorkerOk(s, w); }
  }

  lemma DispatchKeepsInv(s: State, step: Step)
    requires Inv(s) && Enabled(s, step)
    requires (step.DispatchCreate? || step.DispatchDelete?) && step.sent
    ensures Inv(Apply(s, step))
  {
    var todo := s.scheduler.todo;
    assert todo[0] in s.rows;
    if step.DispatchCreate? {
      SendKeepsInv(s, Create(todo[0], s.rows[todo[0]].directoryUrl), Creating(todo[1..]));
    } else {
      SendKeepsInv(s, Delete(todo[0], s.rows[todo[0]].directoryUrl), Deleting(todo[1..]));
    }
  }

  lemma SchedulerKeepsInv(s: State, step: Step)
    requires Inv(s) && Enabled(s, step)
    requires step.ScanPending? || step.ReadForMark? || step.SaveMark? || step.ReadForRevert? || step.SaveRevert?
             || step.FailScanPending? || step.FailScanDelete? || step.ScanDeletePending? || step.EndTick?
             || ((step.DispatchCreate? || step.DispatchDelete?) && !step.sent)
    ensures Inv(Apply(s, step))
  {
    var s' := Apply(s, step);
    assert s'.enqueued == s.enqueued && s'.workers == s.workers && s'.queue == s.queue;
    forall id | id in s'.rows && s'.rows[id].status.Pending? ensures !EverEnqueued(s'.enqueued, id) {
      RowsStep(s, step, id);
    }
    assert !step.ScanPending? ==> forall id :: id in InHand(s') ==> id in InHand(s);
    forall w | 0 <= w < |s'.workers| ensures WorkerOk(s', w) { assert WorkerOk(s, w); }
  }

  lemma WorkerStaysOk(s: State, step: Step, w: nat)
    requires Inv(s) && Enabled(s, step) && w < |s.workers|
    requires step.Take? || step.ReadForRegistry? || step.SaveRegistry? || step.Conclude? || step.ReadForStatus?
             || step.SaveStatus?
    ensures WorkerOk(Apply(s, step), w)
  {
    assert WorkerOk(s, w);
    if step.ReadForRegistry? && w == step.w {
      var item := s.workers[w].item;
      var i :| 0 <= i < |s.enqueued| && s.enqueued[i] == item;
      assert EverEnqueued(s.enqueued, item.id);
    }
  }

  lemma WorkerKeepsInv(s: State, step: Step)
    requires Inv(s) && Enabled(s, step)
    requires step.Take? || step.ReadForRegistry? || step.SaveRegistry? || step.Conclude? || step.ReadForStatus?
             || step.SaveStatus?
    ensures Inv(Apply(s, step))
  {
    var s' := Apply(s, step);
    assert s'.enqueued == s.enqueued && s'.scheduler == s.scheduler;
    forall id ensures (NotPending(s, id) ==> NotPending(s', id))
                      && (id in s'.rows <==> id in s.rows) {
      RowsStep(s, step, id);
    }
    forall w | 0 <= w < |s'.workers| ensures WorkerOk(s', w) {
      WorkerStaysOk(s, step, w);
    }
    assert forall i :: 0 <= i < |s'.queue| ==> s'.queue[i] in s.queue;
  }

  lemma ClientKeepsInv(s: State, step: Step)
    requires Inv(s) && Enabled(s, step)
    requires step.CreateSync? || step.CheckDelete? || step.ReadForDelete? || step.SaveDelete?
    ensures Inv(Apply(s, step))
  {
    var s' := Apply(s, step);
    assert s'.enqueued == s.enqueued && s'.scheduler == s.scheduler && s'.workers == s.workers && s'.queue == s.queue;
    forall id ensures (NotPending(s, id) ==> NotPending(s', id)) {
      RowsStep(s, step, id);
    }
    forall w | 0 <= w < |s'.workers| ensures WorkerOk(s', w) { assert WorkerOk(s, w); }
  }

  lemma StepKeepsInv(s: State, step: Step)
    requires Inv(s) && Enabled(s, step)
    ensures Inv(Apply(s, step))
  {
    match step
    case CreateSync(_, _) => ClientKeepsInv(s, step);
    case CheckDelete(_, _) => ClientKeepsInv(s, step);
    case ReadForDelete(_, _) => ClientKeepsInv(s, step);
    case SaveDelete(_, _) => ClientKeepsInv(s, step);
    case Take(_) => WorkerKeepsInv(s, step);
    case ReadForRegistry(_, _) => WorkerKeepsInv(s, step);
    case SaveRegistry(_, _) => WorkerKeepsInv(s, step);
    case Conclude(_, _) => WorkerKeepsInv(s, step);
    case ReadForStatus(_, _) => WorkerKeepsInv(s, step);
    case SaveStatus(_, _) => WorkerKeepsInv(s, step);
    case DispatchCreate(sent) => if sent { DispatchKeepsInv(s, step); } else { SchedulerKeepsInv(s, step); }
    case DispatchDelete(sent) => if sent { DispatchKeepsInv(s, step); } else { SchedulerKeepsInv(s, step); }
    case _ => SchedulerKeepsInv(s, step);
  }

  lemma InvInitially(s: State)
    requires Init(s)
    ensures Inv(s)
  {
    forall w | 0 <= w < |s.workers| ensures WorkerOk(s, w) { assert s.workers[w].Free?; }
  }

  lemma {:induction false} InvInRuns(states: seq<State>, steps: seq<Step>, i: nat)
    requires IsRun(states, steps) && i <= |steps|
    ensures Inv(states[i])
  {
    if i == 0 {
      InvInitially(states[0]);
    } else {
      InvInRuns(states, steps, i - 1);
      var s, step := states[i - 1], steps[i - 1];
      assert Enabled(s, step) && states[i] == Apply(s, step);
      StepKeepsInv(s, step);
    }
  }

  /** In every interleaving, whatever database calls fail, a PENDING sync has never had a work item
      enqueued, and no sync has had its create item enqueued twice. */
  lemma PendingNeverEnqueuedInRuns(states: seq<State>, steps: seq<Step>, i: nat)
    requires IsRun(states, steps) && i <= |steps|
    ensures Inv(states[i])
    ensures forall id :: id in states[i].rows && states[i].rows[id].status.Pending? ==>
              !EverEnqueued(states[i].enqueued, id)
    ensures forall id :: CreateCount(states[i].enqueued, id) <= 1
  {
    InvInRuns(states, steps, i);
  }

  // ---------------------------------------------------------------- where statuses and items come from

  ghost predicate DeleteFinished(s: State, id: SyncId) {
    exists i :: 0 <= i < |s.finished| && s.finished[i].Delete? && s.finished[i].id == id
  }

  ghost predicate SomeFinished(s: State, id: SyncId) {
    exists i :: 0 <= i < |s.finished| && s.finished[i].id == id
  }

  /** A row that is stored, or that a thread has read: it has the URL the sync was created with, and its status
      has a cause. */
  ghost predicate RowTraced(s: State, id: SyncId, row: Row) {
    && id in s.created && row.directoryUrl == s.created[id]
    && !row.status.Unspecified?
    && (row.status.DeletePending? ==> id in s.requested)
    && (row.status.Deleted? ==> DeleteFinished(s, id))
    && (row.status.Failed? ==> SomeFinished(s, id))
  }

  ghost predicate ItemTraced(s: State, item: WorkItem) {
    && item.id in s.created && item.url == s.created[item.id]
    && (item.Delete? ==> item.id in s.requested)
  }

  ghost predicate SchedulerTraced(s: State) {
    && (s.scheduler.Marking? || s.scheduler.Unmarking? ==>
          s.scheduler.todo != [] && RowTraced(s, s.scheduler.todo[0], s.scheduler.row))
    && (s.scheduler.Deleting? ==> forall i :: 0 <= i < |s.scheduler.todo| ==> s.scheduler.todo[i] in s.requested)
  }

  ghost predicate WorkerTraced(s: State, me: Worker) {
    && (!me.Free? ==> ItemTraced(s, me.item))
    && (me.Recording? || me.Saving? ==> RowTraced(s, me.item.id, me.row))
    && (me.Finishing? || me.Saving? ==> me.status.Failed? || me.status == if me.item.Create? then InProgress
        else Deleted)
  }

  ghost predicate ClientTraced(s: State, me: Client) {
    me.MarkingDelete? ==> RowTraced(s, me.id, me.row)
  }

  ghost predicate Traced(s: State) {
    && (forall id :: id in s.rows ==> RowTraced(s, id, s.rows[id]))
    && (forall i :: 0 <= i < |s.enqueued| ==> ItemTraced(s, s.enqueued[i]))
    && (forall i :: 0 <= i < |s.queue| ==> ItemTraced(s, s.queue[i]))
    && SchedulerTraced(s)
    && (forall w :: 0 <= w < |s.workers| ==> WorkerTraced(s, s.workers[w]))
    && (forall c :: 0 <= c < |s.clients| ==> ClientTraced(s, s.clients[c]))
    && (forall id :: id in s.created ==> id in s.rows)
  }

  /** History only grows. */
  ghost predicate Grows(s: State, s': State) {
    && s.requested <= s'.requested && s.finished <= s'.finished
    && forall id :: id in s.created ==> id in s'.created && s'.created[id] == s.created[id]
  }

  lemma RowStaysTraced(s: State, s': State, id: SyncId, row: Row)
    requires Grows(s, s') && RowTraced(s, id, row)
    ensures RowTraced(s', id, row)
  {
    if DeleteFinished(s, id) {
      var i :| 0 <= i < |s.finished| && s.finished[i].Delete? && s.finished[i].id == id;
      assert s'.finished[i] == s.finished[i];
    }
    if SomeFinished(s, id) {
      var i :| 0 <= i < |s.finished| && s.finished[i].id == id;
      assert s'.finished[i] == s.finished[i];
    }
  }

  /** What was traced stays traced; only what is new remains to be looked at. */
  lemma TracesStay(s: State, s': State)
    requires Traced(s) && Grows(s, s')
    ensures forall id :: id in s.rows ==> RowTraced(s', id, s.rows[id])
    ensures forall i :: 0 <= i < |s.enqueued| ==> ItemTraced(s', s.enqueued[i])
    ensures forall i :: 0 <= i < |s.queue| ==> ItemTraced(s', s.queue[i])
    ensures forall w :: 0 <= w < |s.workers| ==> WorkerTraced(s', s.workers[w])
    ensures forall c :: 0 <= c < |s.clients| ==> ClientTraced(s', s.clients[c])
    ensures s.scheduler.Marking? || s.scheduler.Unmarking? ==>
              s.scheduler.todo != [] && RowTraced(s', s.scheduler.todo[0], s.scheduler.row)
    ensures s.scheduler.Deleting? ==> forall i :: 0 <= i < |s.scheduler.todo| ==> s.scheduler.todo[i] in s'.requested
  {
    forall id | id in s.rows ensures RowTraced(s', id, s.rows[id]) { RowStaysTraced(s, s', id, s.rows[id]); }
    forall w | 0 <= w < |s.workers| ensures WorkerTraced(s', s.workers[w]) {
      var me := s.workers[w];
      assert WorkerTraced(s, me);
      if me.Recording? || me.Saving? { RowStaysTraced(s, s', me.item.id, me.row); }
    }
    forall c | 0 <= c < |s.clients| ensures ClientTraced(s', s.clients[c]) {
      assert ClientTraced(s, s.clients[c]);
      if s.clients[c].MarkingDelete? { RowStaysTraced(s, s', s.clients[c].id, s.clients[c].row); }
    }
    if s.scheduler.Marking? || s.scheduler.Unmarking? {
      RowStaysTraced(s, s', s.scheduler.todo[0], s.scheduler.row);
    }
  }

  lemma SchedulerKeepsTraced(s: State, step: Step)
    requires Traced(s) && Enabled(s, step)
    requires step.ScanPending? || step.FailScanPending? || step.ReadForMark? || step.SaveMark? || step.DispatchCreate?
             || step.ReadForRevert? || step.SaveRevert? || step.ScanDeletePending? || step.FailScanDelete?
             || step.DispatchDelete? || step.EndTick?
    ensures Traced(Apply(s, step))
  {
    var s' := Apply(s, step);
    TracesStay(s, s');
    assert s'.workers == s.workers && s'.clients == s.clients && s'.created == s.created;
    if step.ScanDeletePending? {
      forall i | 0 <= i < |step.ids| ensures step.ids[i] in s.requested {
        assert RowTraced(s, step.ids[i], s.rows[step.ids[i]]);
      }
    }
  }

  lemma WorkerStaysTraced(s: State, step: Step, w: nat)
    requires Traced(s) && Enabled(s, step) && w < |s.workers|
    requires step.Take? || step.ReadForRegistry? || step.SaveRegistry? || step.Conclude? || step.ReadForStatus?
             || step.SaveStatus?
    ensures w < |Apply(s, step).workers| && WorkerTraced(Apply(s, step), Apply(s, step).workers[w])
  {
    assert WorkerTraced(s, s.workers[w]);
    TracesStay(s, Apply(s, step));
  }

  lemma WorkerKeepsTraced(s: State, step: Step)
    requires Traced(s) && Enabled(s, step)
    requires step.Take? || step.ReadForRegistry? || step.SaveRegistry? || step.Conclude? || step.ReadForStatus?
             || step.SaveStatus?
    ensures Traced(Apply(s, step))
  {
    var s' := Apply(s, step);
    var me := s.workers[step.w];
    assert WorkerTraced(s, me);
    TracesStay(s, s');
    assert s'.scheduler == s.scheduler && s'.clients == s.clients && s'.created == s.created;
    forall w | 0 <= w < |s'.workers| ensures WorkerTraced(s', s'.workers[w]) {
      WorkerStaysTraced(s, step, w);
    }
    if step.SaveStatus? {
      assert s'.finished[|s.finished|] == me.item;
    }
  }

  lemma ClientKeepsTraced(s: State, step: Step)
    requires Traced(s) && Enabled(s, step)
    requires step.CreateSync? || step.CheckDelete? || step.ReadForDelete? || step.SaveDelete?
    ensures Traced(Apply(s, step))
  {
    var s' := Apply(s, step);
    TracesStay(s, s');
    assert s'.scheduler == s.scheduler && s'.workers == s.workers;
    if !step.CreateSync? {
      assert ClientTraced(s, s.clients[step.c]);
    }
  }

  lemma StepKeepsTraced(s: State, step: Step)
    requires Traced(s) && Enabled(s, step)
    ensures Traced(Apply(s, step))
  {
    if step.CreateSync? || step.CheckDelete? || step.ReadForDelete? || step.SaveDelete? {
      ClientKeepsTraced(s, step);
    } else if step.Take? || step.ReadForRegistry? || step.SaveRegistry? || step.Conclude? || step.ReadForStatus?
              || step.SaveStatus? {
      WorkerKeepsTraced(s, step);
    } else {
      SchedulerKeepsTraced(s, step);
    }
  }

  /** In every interleaving: every row and every work item has the URL its sync was created with; a sync is
      DELETE_PENDING, or has a delete item, only if a client asked for that; it is DELETED only if a worker has
      finished a delete item of it, and FAILED only if one has finished some item of it. */
  lemma {:induction false} TracedInRuns(states: seq<State>, steps: seq<Step>, i: nat)
    requires IsRun(states, steps) && i <= |steps|
    ensures Traced(states[i])
  {
    if i > 0 {
      TracedInRuns(states, steps, i - 1);
      StepKeepsTraced(states[i - 1], steps[i - 1]);
    }
  }

  // ---------------------------------------------------------------- what each thread writes

  /** The row a step writes and its status; all other rows stay as they are. */
  lemma StatusWritten(s: State, step: Step)
    requires Enabled(s, step)
    ensures var s' := Apply(s, step);
            && (step.CreateSync? ==> s'.rows == s.rows[step.id := Row(step.url, "", Pending)])
            && (step.SaveMark? && step.ok ==>
                  s'.rows == s.rows[s.scheduler.todo[0] := s.scheduler.row.(status := InProgress)])
            && (step.SaveRevert? && step.ok ==>
                  s'.rows == s.rows[s.scheduler.todo[0] := s.scheduler.row.(status := Pending)])
            && (step.SaveDelete? && step.ok ==>
                  s'.rows == s.rows[s.clients[step.c].id := s.clients[step.c].row.(status := DeletePending)])
            && (step.SaveRegistry? && step.ok ==>
                  var me := s.workers[step.w];
                  s'.rows == s.rows[me.item.id := me.row.(registryUrl := me.registry)])
            && (!step.CreateSync? && !step.SaveStatus?
                && !((step.SaveMark? || step.SaveRevert? || step.SaveDelete? || step.SaveRegistry?) && step.ok) ==>
                  s'.rows == s.rows)
  {
  }

  /** What is left of a tick. */
  function Remaining(scheduler: Scheduler): int {
    match scheduler
    case Idle => 0
    case Deleting(todo) => |todo| + 1
    case Creating(todo) => 5 * |todo|
    case Marking(todo, _) => 5 * |todo| - 1
    case Dispatching(todo) => 5 * |todo| - 2
    case Reverting(todo) => 5 * |todo| - 3
    case Unmarking(todo, _) => 5 * |todo| - 4
  }

  predicate Scans(step: Step) {
    step.ScanPending? || step.FailScanPending? || step.ScanDeletePending? || step.FailScanDelete?
  }

  predicate MovesOn(step: Step) {
    || step.ReadForMark? || step.SaveMark? || step.DispatchCreate? || step.ReadForRevert? || step.SaveRevert?
    || step.DispatchDelete? || step.EndTick?
  }

  /** Every step of the scheduler but its scans brings it nearer to the end of what it scanned, whether calls
      succeed or not, and no other thread holds it up. */
  lemma TickAdvances(s: State, step: Step)
    requires Enabled(s, step)
    ensures var s' := Apply(s, step);
            && (MovesOn(step) ==> 0 <= Remaining(s'.scheduler) < Remaining(s.scheduler))
            && (!MovesOn(step) && !Scans(step) ==> s'.scheduler == s.scheduler)
  {
  }

  /** The worker has its verdict on an item and has not written it yet. */
  ghost predicate HasVerdict(me: Worker, item: WorkItem, status: Status) {
    (me.Finishing? || me.Saving?) && me.item == item && me.status == status
  }

  /** The steps that end a worker's work on an item. */
  ghost predicate EndsItem(step: Step, w: nat) {
    (step.SaveStatus? && step.w == w) || (step.ReadForStatus? && step.w == w && !step.ok)
  }

  lemma VerdictStep(s: State, step: Step, w: nat, item: WorkItem, status: Status)
    requires Enabled(s, step) && w < |s.workers| && HasVerdict(s.workers[w], item, status) && !EndsItem(step, w)
    ensures w < |Apply(s, step).workers| && HasVerdict(Apply(s, step).workers[w], item, status)
  {
  }

  lemma {:induction false} VerdictKept(states: seq<State>, steps: seq<Step>, w: nat, i: nat, j: nat, item: WorkItem,
                                       status: Status)
    requires IsRun(states, steps) && i <= j <= |steps| && w < |states[i].workers|
    requires HasVerdict(states[i].workers[w], item, status)
    requires forall n :: i <= n < j ==> !EndsItem(steps[n], w)
    ensures w < |states[j].workers| && HasVerdict(states[j].workers[w], item, status)
    decreases j
  {
    if i < j {
      VerdictKept(states, steps, w, i, j - 1, item, status);
      VerdictStep(states[j - 1], steps[j - 1], w, item, status);
    }
  }

  /** How a worker's work on an item comes out. */
  datatype Outcome = Done | NotDone

  /** The step with which a worker is through with the work on its item, and how it came out: the work itself,
      or the registry that could not be saved. */
  ghost predicate Comes(step: Step, w: nat, outcome: Outcome) {
    || (step.Conclude? && step.w == w && step.failed == outcome.NotDone?)
    || (step.SaveRegistry? && step.w == w && !step.ok && outcome.NotDone?)
  }

  lemma VerdictReached(s: State, step: Step, w: nat, outcome: Outcome)
    requires Enabled(s, step) && Comes(step, w, outcome)
    ensures var item := s.workers[w].item;
            HasVerdict(Apply(s, step).workers[w], item,
                       if outcome.NotDone? then Failed else if item.Create? then InProgress else Deleted)
  {
  }

  lemma SavedVerdict(s: State, w: nat, item: WorkItem, status: Status)
    requires Enabled(s, SaveStatus(w, true)) && HasVerdict(s.workers[w], item, status)
    ensures var s' := Apply(s, SaveStatus(w, true));
            item.id in s'.rows && s'.rows[item.id].status == status && item in s'.finished
  {
  }

  /** Whatever the other threads do in between, a worker that is through with an item and saves its status
      writes IN_PROGRESS for a create item that is done, DELETED for a delete item that is done, and FAILED for
      one that is not. */
  lemma FinalStatusInRuns(states: seq<State>, steps: seq<Step>, w: nat, i: nat, j: nat, outcome: Outcome)
    requires IsRun(states, steps) && i < j < |steps| && Comes(steps[i], w, outcome)
    requires steps[j] == SaveStatus(w, true) && forall n :: i < n < j ==> !EndsItem(steps[n], w)
    ensures w < |states[i].workers| && !states[i].workers[w].Free?
    ensures var item := states[i].workers[w].item;
            && item.id in states[j + 1].rows
            && states[j + 1].rows[item.id].status
               == (if outcome.NotDone? then Failed else if item.Create? then InProgress else Deleted)
            && item in states[j + 1].finished
  {
    var item := states[i].workers[w].item;
    var status := if outcome.NotDone? then Failed else if item.Create? then InProgress else Deleted;
    VerdictReached(states[i], steps[i], w, outcome);
    VerdictKept(states, steps, w, i + 1, j, item, status);
    SavedVerdict(states[j], w, item, status);
  }

  // ---------------------------------------------------------------- nothing is lost in the queue

  function Count(items: seq<WorkItem>, item: WorkItem): nat {
    if items == [] then 0 else Count(items[..|items| - 1], item) + (if items[|items| - 1] == item then 1 else 0)
  }

  function Holds(w: Worker, item: WorkItem): nat {
    if !w.Free? && w.item == item then 1 else 0
  }

  /** How many workers have this item in hand. */
  function HeldCount(workers: seq<Worker>, item: WorkItem): nat {
    if workers == [] then 0 else HeldCount(workers[..|workers| - 1], item) + Holds(workers[|workers| - 1], item)
  }

  lemma {:induction false} HeldUpdate(workers: seq<Worker>, w: nat, worker: Worker, item: WorkItem)
    requires w < |workers|
    ensures HeldCount(workers[w := worker], item) + Holds(workers[w], item) == HeldCount(workers, item)
            + Holds(worker, item)
    decreases |workers|
  {
    var n := |workers| - 1;
    if w < n {
      HeldUpdate(workers[..n], w, worker, item);
      assert workers[w := worker][..n] == workers[..n][w := worker];
    } else {
      assert workers[w := worker][..n] == workers[..n];
    }
  }

  /** The items that workers have taken: all that was enqueued but for what is still queued. */
  function Taken(s: State): seq<WorkItem>
    requires |s.queue| <= |s.enqueued|
  {
    s.enqueued[..|s.enqueued| - |s.queue|]
  }

  /** The queue is the tail of what was enqueued, within its capacity, and everything taken from it
      is with a worker or finished. */
  ghost predicate Conserved(s: State) {
    && |s.queue| <= QUEUE_CAPACITY
    && |s.queue| <= |s.enqueued|
    && s.enqueued == Taken(s) + s.queue
    && forall item :: Count(Taken(s), item) == HeldCount(s.workers, item) + Count(s.finished, item)
  }

  lemma CountAppend(items: seq<WorkItem>, x: WorkItem, item: WorkItem)
    ensures Count(items + [x], item) == Count(items, item) + (if x == item then 1 else 0)
  {
    assert (items + [x])[..|items|] == items;
  }

  lemma SendConserves(s: State, item: WorkItem)
    requires Conserved(s) && |s.queue| < QUEUE_CAPACITY
    ensures Conserved(Enqueue(s, item, true))
  {
    assert Taken(Enqueue(s, item, true)) == Taken(s);
  }

  lemma TakeConserves(s: State, w: nat)
    requires Conserved(s) && w < |s.workers| && s.workers[w].Free? && s.queue != []
    ensures Conserved(SetWorker(s, w, Started(s.queue[0])).(queue := s.queue[1..]))
  {
    var s' := SetWorker(s, w, Started(s.queue[0])).(queue := s.queue[1..]);
    assert Taken(s') == Taken(s) + [s.queue[0]];
    forall item ensures Count(Taken(s'), item) == HeldCount(s'.workers, item) + Count(s'.finished, item) {
      HeldUpdate(s.workers, w, Started(s.queue[0]), item);
      CountAppend(Taken(s), s.queue[0], item);
    }
  }

  lemma WorkConserves(s: State, w: nat, worker: Worker)
    requires Conserved(s) && w < |s.workers| && !s.workers[w].Free?
    requires worker.Free? || worker.item == s.workers[w].item
    ensures var finished := if worker.Free? then s.finished + [s.workers[w].item] else s.finished;
            Conserved(SetWorker(s, w, worker).(finished := finished))
  {
    var done := s.workers[w].item;
    var s' := SetWorker(s, w, worker).(finished := if worker.Free? then s.finished + [done] else s.finished);
    assert Taken(s') == Taken(s);
    forall item ensures Count(Taken(s'), item) == HeldCount(s'.workers, item) + Count(s'.finished, item) {
      HeldUpdate(s.workers, w, worker, item);
      CountAppend(s.finished, done, item);
    }
  }

  /** Conservation looks at the queue, its history and the workers only. */
  lemma ConservedFrame(s: State, s': State)
    requires Conserved(s) && s'.queue == s.queue && s'.enqueued == s.enqueued && s'.workers == s.workers
             && s'.finished == s.finished
    ensures Conserved(s')
  {
    assert Taken(s') == Taken(s);
  }

  lemma StepConserves(s: State, step: Step)
    requires Conserved(s) && Enabled(s, step)
    ensures Conserved(Apply(s, step))
  {
    var s' := Apply(s, step);
    if step.Take? {
      TakeConserves(s, step.w);
      ConservedFrame(SetWorker(s, step.w, Started(s.queue[0])).(queue := s.queue[1..]), s');
    } else if step.ReadForRegistry? || step.SaveRegistry? || step.Conclude? || step.ReadForStatus? || step.SaveStatus? {
      var worker := s'.workers[step.w];
      WorkConserves(s, step.w, worker);
      var finished := if worker.Free? then s.finished + [s.workers[step.w].item] else s.finished;
      ConservedFrame(SetWorker(s, step.w, worker).(finished := finished), s');
    } else if (step.DispatchCreate? || step.DispatchDelete?) && step.sent {
      SendConserves(s, s'.queue[|s.queue|]);
      ConservedFrame(Enqueue(s, s'.queue[|s.queue|], true), s');
    } else {
      ConservedFrame(s, s');
    }
  }

  lemma {:induction false} FreeHoldNothing(workers: seq<Worker>, item: WorkItem)
    requires forall w :: 0 <= w < |workers| ==> workers[w].Free?
    ensures HeldCount(workers, item) == 0
    decreases |workers|
  {
    if workers != [] {
      FreeHoldNothing(workers[..|workers| - 1], item);
    }
  }

  lemma {:induction false} ConservedInRuns(states: seq<State>, steps: seq<Step>, i: nat)
    requires IsRun(states, steps) && i <= |steps|
    ensures Conserved(states[i]) && |states[i].queue| <= 100
  {
    if i == 0 {
      forall item ensures HeldCount(states[0].workers, item) == 0 {
        FreeHoldNothing(states[0].workers, item);
      }
    } else {
      ConservedInRuns(states, steps, i - 1);
      StepConserves(states[i - 1], steps[i - 1]);
    }
  }

  // ---------------------------------------------------------------- no sync is lost

  /** The scheduler is between marking this sync IN_PROGRESS and having sent or reverted it. */
  ghost predicate BeingHandled(s: State, id: SyncId) {
    (s.scheduler.Dispatching? || s.scheduler.Reverting? || s.scheduler.Unmarking?) && s.scheduler.todo != []
      && s.scheduler.todo[0] == id
  }

  ghost predicate NoneLost(s: State) {
    forall id :: id in s.rows && s.rows[id].status.InProgress? && !BeingHandled(s, id) ==>
      CreateCount(s.enqueued, id) == 1
  }

  lemma {:induction false} EnqueuedIsCounted(items: seq<WorkItem>, item: WorkItem)
    requires item in items && item.Create?
    ensures CreateCount(items, item.id) >= 1
    decreases |items|
  {
    if items[|items| - 1] != item {
      assert items == items[..|items| - 1] + [items[|items| - 1]];
      EnqueuedIsCounted(items[..|items| - 1], item);
    }
  }

  /** A revert that the database refuses. */
  ghost predicate FailsRevert(step: Step) {
    (step.ReadForRevert? || step.SaveRevert?) && !step.ok
  }

  /** Only create items bring a row back to IN_PROGRESS through a worker. */
  lemma WorkerLosesNone(s: State, step: Step)
    requires Inv(s) && NoneLost(s) && Enabled(s, step) && (step.SaveRegistry? || step.SaveStatus?)
    ensures NoneLost(Apply(s, step))
  {
    assert WorkerOk(s, step.w);
    var item := s.workers[step.w].item;
    if item.Create? {
      EnqueuedIsCounted(s.enqueued, item);
      assert CreateCount(s.enqueued, item.id) == 1;
    }
  }

  lemma DispatchLosesNone(s: State, step: Step)
    requires Inv(s) && NoneLost(s) && Enabled(s, step) && (step.DispatchCreate? || step.DispatchDelete?) && step.sent
    ensures NoneLost(Apply(s, step))
  {
    var s' := Apply(s, step);
    var item := s'.enqueued[|s.enqueued|];
    DispatchKeepsInv(s, step);
    forall id ensures CreateCount(s'.enqueued, id) >= CreateCount(s.enqueued, id)
      && (item.Create? && item.id == id ==> CreateCount(s'.enqueued, id) == 1) {
      EnqueueFacts(s, item, id);
    }
  }

  /** The step gives up reverting a sync that is still marked IN_PROGRESS. */
  ghost predicate AbandonsSync(s: State, step: Step)
    requires Enabled(s, step)
  {
    && FailsRevert(step)
    && s.scheduler.todo[0] in s.rows && s.rows[s.scheduler.todo[0]].status.InProgress?
  }

  /** A step loses a sync if and only if it gives up reverting one that is marked IN_PROGRESS. */
  lemma StepLosesNone(s: State, step: Step)
    requires Inv(s) && NoneLost(s) && Enabled(s, step)
    ensures NoneLost(Apply(s, step)) <==> !AbandonsSync(s, step)
  {
    if AbandonsSync(s, step) {
      var id := s.scheduler.todo[0];
      assert id in InHand(s);
      assert !EverEnqueued(s.enqueued, id);
      assert CreateCount(Apply(s, step).enqueued, id) == 0;
      assert !BeingHandled(Apply(s, step), id);
    } else if step.SaveRegistry? || step.SaveStatus? {
      WorkerLosesNone(s, step);
    } else if (step.DispatchCreate? || step.DispatchDelete?) && step.sent {
      DispatchLosesNone(s, step);
    }
  }

  /** While no sync is abandoned, every IN_PROGRESS sync that the scheduler is not handling has had its
      create item enqueued exactly once. */
  lemma {:induction false} NoSyncLostInRuns(states: seq<State>, steps: seq<Step>, i: nat)
    requires IsRun(states, steps) && i <= |steps|
    requires forall j :: 0 <= j < i ==> !AbandonsSync(states[j], steps[j])
    ensures NoneLost(states[i])
  {
    if i > 0 {
      NoSyncLostInRuns(states, steps, i - 1);
      PendingNeverEnqueuedInRuns(states, steps, i - 1);
      StepLosesNone(states[i - 1], steps[i - 1]);
    }
  }

  lemma {:induction false} CountConcat(a: seq<WorkItem>, b: seq<WorkItem>, item: WorkItem)
    ensures Count(a + b, item) == Count(a, item) + Count(b, item)
    decreases |b|
  {
    if b == [] {
      assert a + b == a;
    } else {
      var n := |b| - 1;
      CountConcat(a, b[..n], item);
      assert a + b == (a + b[..n]) + [b[n]];
      CountAppend(a + b[..n], b[n], item);
    }
  }

  lemma {:induction false} AbsentCountsZero(items: seq<WorkItem>, item: WorkItem)
    requires item !in items
    ensures Count(items, item) == 0
    decreases |items|
  {
    if items != [] {
      AbsentCountsZero(items[..|items| - 1], item);
    }
  }

  /** A sync whose create item was enqueued once has exactly one such item. */
  lemma {:induction false} TheCreateItem(items: seq<WorkItem>, id: SyncId) returns (item: WorkItem)
    requires CreateCount(items, id) == 1
    ensures item.Create? && item.id == id && Count(items, item) == 1
    decreases |items|
  {
    var n := |items| - 1;
    if items[n].Create? && items[n].id == id {
      item := items[n];
      if item in items[..n] { EnqueuedIsCounted(items[..n], item); }
      AbsentCountsZero(items[..n], item);
    } else {
      item := TheCreateItem(items[..n], id);
    }
  }

  /** So its create item is in exactly one place: queued, with one worker, or finished. */
  lemma CreateItemIsSomewhere(states: seq<State>, steps: seq<Step>, i: nat, id: SyncId) returns (item: WorkItem)
    requires IsRun(states, steps) && i <= |steps|
    requires forall j :: 0 <= j < i ==> !AbandonsSync(states[j], steps[j])
    requires id in states[i].rows && states[i].rows[id].status.InProgress? && !BeingHandled(states[i], id)
    ensures item.Create? && item.id == id
    ensures Count(states[i].queue, item) + HeldCount(states[i].workers, item) + Count(states[i].finished, item) == 1
  {
    var s := states[i];
    NoSyncLostInRuns(states, steps, i);
    ConservedInRuns(states, steps, i);
    item := TheCreateItem(s.enqueued, id);
    CountConcat(Taken(s), s.queue, item);
  }

  lemma SettledStep(s: State, step: Step, id: SyncId)
    requires Inv(s) && Enabled(s, step) && NotPending(s, id) && id !in InHand(s)
    ensures var s' := Apply(s, step);
            NotPending(s', id) && id !in InHand(s') && CreateCount(s'.enqueued, id) == CreateCount(s.enqueued, id)
  {
    RowsStep(s, step, id);
    var s' := Apply(s, step);
    if (step.DispatchCreate? || step.DispatchDelete?) && step.sent {
      EnqueueFacts(s, s'.enqueued[|s.enqueued|], id);
    }
    assert id !in InHand(s') by {
      assert step.ScanPending? || forall x :: x in InHand(s') ==> x in InHand(s);
    }
  }

  /** A sync that is neither PENDING nor in the scheduler's hands never gets a create item any more. */
  lemma {:induction false} SettledStaysSettled(states: seq<State>, steps: seq<Step>, i: nat, j: nat, id: SyncId)
    requires IsRun(states, steps) && i <= j <= |steps|
    requires NotPending(states[i], id) && id !in InHand(states[i])
    ensures NotPending(states[j], id) && id !in InHand(states[j])
    ensures CreateCount(states[j].enqueued, id) == CreateCount(states[i].enqueued, id)
    decreases j
  {
    if i < j {
      SettledStaysSettled(states, steps, i, j - 1, id);
      PendingNeverEnqueuedInRuns(states, steps, j - 1);
      SettledStep(states[j - 1], steps[j - 1], id);
    }
  }

  /** An abandoned sync never gets a create item: whatever happens later, no worker will start on it. */
  lemma AbandonedIsLost(states: seq<State>, steps: seq<Step>, i: nat, j: nat)
    requires IsRun(states, steps) && i < j <= |steps| && AbandonsSync(states[i], steps[i])
    ensures var id := states[i].scheduler.todo[0];
            && states[i + 1].rows[id].status.InProgress?
            && CreateCount(states[j].enqueued, id) == 0 && NotPending(states[j], id)
  {
    var s := states[i];
    var id := s.scheduler.todo[0];
    PendingNeverEnqueuedInRuns(states, steps, i);
    assert id in InHand(s);
    SettledStaysSettled(states, steps, i + 1, j, id);
  }

  lemma ScannedAndMarked(id: SyncId, url: string, s: State) returns (s2: State, s4: State)
    requires s == State(map[id := Row(url, "", Pending)], [], Idle, [], [], [], [], map[id := url], {})
    ensures Enabled(s, ScanPending([id])) && s2 == Apply(s, ScanPending([id]))
    ensures Enabled(s2, ReadForMark(true))
    ensures var s3 := Apply(s2, ReadForMark(true)); Enabled(s3, SaveMark(true)) && s4 == Apply(s3, SaveMark(true))
    ensures s4 == State(map[id := Row(url, "", InProgress)], [], Dispatching([id]), [], [], [], [], map[id := url], {})
  {
    s2 := Apply(s, ScanPending([id]));
    var s3 := Apply(s2, ReadForMark(true));
    s4 := Apply(s3, SaveMark(true));
    assert s4.rows == map[id := Row(url, "", InProgress)];
  }

  lemma RefusedAndAbandoned(id: SyncId, url: string, s: State) returns (s6: State)
    requires s == State(map[id := Row(url, "", InProgress)], [], Dispatching([id]), [], [], [], [], map[id := url], {})
    ensures Enabled(s, DispatchCreate(false))
    ensures var s5 := Apply(s, DispatchCreate(false));
            Enabled(s5, ReadForRevert(false)) && AbandonsSync(s5, ReadForRevert(false))
              && s6 == Apply(s5, ReadForRevert(false))
    ensures s6 == s.(scheduler := Creating([]))
  {
    var s5 := Apply(s, DispatchCreate(false));
    s6 := Apply(s5, ReadForRevert(false));
    assert [id][1..] == [];
  }

  /** A run that loses a sync: marked IN_PROGRESS, refused by the queue, and not read again for the revert. */
  lemma LosingRun(id: SyncId, url: string) returns (states: seq<State>, steps: seq<Step>)
    ensures IsRun(states, steps) && |steps| == 6 && AbandonsSync(states[5], steps[5])
    ensures id in states[6].rows && states[6].rows[id].status.InProgress? && states[6].scheduler == Creating([])
  {
    var s0 := State(map[], [], Idle, [], [], [], [], map[], {});
    var s1 := Apply(s0, CreateSync(id, url));
    var s2, s4 := ScannedAndMarked(id, url, s1);
    var s6 := RefusedAndAbandoned(id, url, s4);
    states := [s0, s1, s2, Apply(s2, ReadForMark(true)), s4, Apply(s4, DispatchCreate(false)), s6];
    steps := [CreateSync(id, url), ScanPending([id]), ReadForMark(true), SaveMark(true), DispatchCreate(false),
              ReadForRevert(false)];
  }

  // ---------------------------------------------------------------- a sync from creation to deletion

  /** Taking the steps one after the other leads from s to s'. */
  ghost predicate Reaches(s: State, steps: seq<Step>, s': State)
    decreases |steps|
  {
    if steps == [] then s == s' else Enabled(s, steps[0]) && Reaches(Apply(s, steps[0]), steps[1..], s')
  }

  lemma ReachesBy(s: State, step: Step, steps: seq<Step>, s': State)
    requires Enabled(s, step) && Reaches(Apply(s, step), steps, s')
    ensures Reaches(s, [step] + steps, s')
  {
    assert ([step] + steps)[1..] == steps;
  }

  lemma {:induction false} ReachesThrough(s: State, first: seq<Step>, s1: State, second: seq<Step>, s2: State)
    requires Reaches(s, first, s1) && Reaches(s1, second, s2)
    ensures Reaches(s, first + second, s2)
    decreases |first|
  {
    if first == [] {
      assert first + second == second;
    } else {
      ReachesThrough(Apply(s, first[0]), first[1..], s1, second, s2);
      assert first + second == [first[0]] + (first[1..] + second);
      ReachesBy(s, first[0], first[1..] + second, s2);
    }
  }

  /** A client asks for the deletion of a sync that is not DELETED. */
  lemma RequestDelete(s: State, id: SyncId) returns (steps: seq<Step>, s': State)
    requires id in s.rows && !s.rows[id].status.Deleted? && |s.clients| > 0 && s.clients[0].NoRequest?
    ensures Reaches(s, steps, s')
    ensures s' == s.(rows := s.rows[id := s.rows[id].(status := DeletePending)], requested := s.requested + {id})
  {
    var s1 := Apply(s, CheckDelete(0, id));
    var s2 := Apply(s1, ReadForDelete(0, true));
    s' := Apply(s2, SaveDelete(0, true));
    assert s'.clients == s.clients;
    assert Reaches(s', [], s');
    ReachesBy(s2, SaveDelete(0, true), [], s');
    ReachesBy(s1, ReadForDelete(0, true), [SaveDelete(0, true)] + [], s');
    ReachesBy(s, CheckDelete(0, id), [ReadForDelete(0, true)] + ([SaveDelete(0, true)] + []), s');
    steps := [CheckDelete(0, id)] + ([ReadForDelete(0, true)] + ([SaveDelete(0, true)] + []));
  }

  /** The scheduler finds the only sync to delete and sends its item. */
  lemma SendDelete(s: State, id: SyncId) returns (steps: seq<Step>, s': State)
    requires s.scheduler.Idle? && |s.queue| < 100 && Snapshot(s, [id], DeletePending)
    ensures Reaches(s, steps, s')
    ensures var item := Delete(id, s.rows[id].directoryUrl);
            s' == s.(scheduler := Deleting([]), queue := s.queue + [item], enqueued := s.enqueued + [item])
  {
    assert id in [id];
    var s1 := Apply(s, FailScanPending);
    var s2 := Apply(s1, ScanDeletePending([id]));
    s' := Apply(s2, DispatchDelete(true));
    assert [id][1..] == [];
    assert Reaches(s', [], s');
    ReachesBy(s2, DispatchDelete(true), [], s');
    ReachesBy(s1, ScanDeletePending([id]), [DispatchDelete(true)] + [], s');
    ReachesBy(s, FailScanPending, [ScanDeletePending([id])] + ([DispatchDelete(true)] + []), s');
    steps := [FailScanPending] + ([ScanDeletePending([id])] + ([DispatchDelete(true)] + []));
  }

  /** A worker takes an item and does its work. */
  lemma TakeDelete(s: State) returns (steps: seq<Step>, s': State)
    requires |s.workers| > 0 && s.workers[0].Free? && s.queue != [] && s.queue[0].Delete?
    ensures Reaches(s, steps, s')
    ensures s' == s.(workers := s.workers[0 := Finishing(s.queue[0], Deleted)], queue := s.queue[1..])
  {
    var s1 := Apply(s, Take(0));
    s' := Apply(s1, Conclude(0, false));
    assert Reaches(s', [], s');
    ReachesBy(s1, Conclude(0, false), [], s');
    ReachesBy(s, Take(0), [Conclude(0, false)] + [], s');
    steps := [Take(0)] + ([Conclude(0, false)] + []);
  }

  /** It saves the status. */
  lemma SaveDeleted(s: State, item: WorkItem) returns (steps: seq<Step>, s': State)
    requires |s.workers| > 0 && s.workers[0] == Finishing(item, Deleted) && item.id in s.rows
    ensures Reaches(s, steps, s')
    ensures s'.rows == s.rows[item.id := s.rows[item.id].(status := Deleted)] && s'.finished == s.finished + [item]
  {
    var s1 := Apply(s, ReadForStatus(0, true));
    s' := Apply(s1, SaveStatus(0, true));
    assert Reaches(s', [], s');
    ReachesBy(s1, SaveStatus(0, true), [], s');
    ReachesBy(s, ReadForStatus(0, true), [SaveStatus(0, true)] + [], s');
    steps := [ReadForStatus(0, true)] + ([SaveStatus(0, true)] + []);
  }

  /** From any state with the scheduler, a worker and a client free, an empty queue and nothing else to delete,
      a sync can be brought to DELETED. */
  lemma CanBeDeleted(s: State, id: SyncId) returns (steps: seq<Step>, s': State)
    requires s.scheduler.Idle? && s.queue == [] && |s.workers| > 0 && s.workers[0].Free?
    requires |s.clients| > 0 && s.clients[0].NoRequest? && id in s.rows && !s.rows[id].status.Deleted?
    requires forall x :: x in s.rows && s.rows[x].status.DeletePending? ==> x == id
    ensures Reaches(s, steps, s') && id in s'.rows && s'.rows[id].status.Deleted?
    ensures Delete(id, s.rows[id].directoryUrl) in s'.finished
  {
    var first, s1 := RequestDelete(s, id);
    var second, s2 := SendDelete(s1, id);
    var third, s3 := TakeDelete(s2);
    var fourth, s4 := SaveDeleted(s3, s2.queue[0]);
    ReachesThrough(s, first, s1, second, s2);
    ReachesThrough(s, first + second, s2, third, s3);
    ReachesThrough(s, first + second + third, s3, fourth, s4);
    steps, s' := first + second + third + fourth, s4;
  }
}
