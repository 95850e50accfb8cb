/** All runs of one engine: submitters serialised by desc_lock, the service work, the hardware,
    timeouts, and taking the device offline and online again. Each event is one step that the
    driver performs under engine->lock (or one read or write it performs outside it). */
module Protocol {
  import opened Words
  import opened Compiler
  import opened Hardware
  import opened Service
  import opened Accounting

  /** Where a caller of xdma_xfer_submit is. Ready: about to take desc_lock for the next batch. Built: transfer_init
      done. Cleared: saw the device online. Waiting: queued. Judged: looked at the state, still to destroy the
      transfer and unlock. Done: request freed. */
  datatype Pc = Ready | Built | Cleared | Waiting | Judged(ok: bool) | Done(ok: bool)

  /** A request of `total` descriptors, `left` of them not yet built. The others are history: the number of its
      queueings so far, whether the current batch was queued on an idle engine and so started by its own queueing,
      whether a batch that was not has been judged COMPLETED, and how many descriptors the hardware retired for the
      current batch and for the finished ones. */
  datatype Sub = Sub(pc: Pc, total: nat, left: nat, epoch: nat, own: bool, stale: bool, retired: nat, finished: nat)

  /** The engine hardware: the batch it was last started on, its length, and the completed count since then. */
  datatype Board = Board(busy: bool, error: bool, on: Option<(Id, nat)>, len: nat, count: nat)

  datatype Sys = Sys(ctl: Ctl, offline: bool, lock: Option<Id>, subs: map<Id, Sub>, board: Board, status: Hw)

  datatype Event =
    | Arrive(id: Id, total: nat)
    | TakeLock(id: Id)
    | CheckFlag(id: Id)
    | Enqueue(id: Id)
    | Judge(id: Id)
    | Finish(id: Id)
    | Retire
    | Fault
    | Halt
    | ServiceWork
    | OfflineFlag
    | OfflineEngine
    | OnlineEngine
    | OnlineFlag

  function Init(): Sys {
    Sys(Ctl(false, false, false, 0, [], map[], Regs(false, None, 0)), false, None, map[],
        Board(false, false, None, 0, 0), Hw(false, false, 0))
  }

  predicate At(s: Sys, id: Id, pc: Pc) {
    id in s.subs && s.subs[id].pc == pc
  }

  predicate Enabled(s: Sys, e: Event) {
    match e
    case Arrive(id, _) => id !in s.subs
    case TakeLock(id) => At(s, id, Ready) && s.subs[id].left > 0 && s.lock == None
    case CheckFlag(id) => At(s, id, Built)
    case Enqueue(id) => At(s, id, Cleared)
    case Judge(id) => At(s, id, Waiting)
    case Finish(id) => id in s.subs && s.subs[id].pc.Judged?
    case Retire => s.board.busy && s.board.count < s.board.len
    case Fault => s.board.busy
    case Halt => s.board.busy && !s.ctl.regs.run
    case _ => true
  }

  function Put(s: Sys, id: Id, sub: Sub): Sys {
    s.(subs := s.subs[id := sub])
  }

  /** The waiter has looked at the state of its batch. */
  function Settled(sub: Sub, ok: bool): Sub {
    if ok then sub.(pc := Judged(true), stale := sub.stale || !sub.own, finished := sub.finished + sub.retired, retired := 0)
    else sub.(pc := Judged(false))
  }

  /** The locked region left the engine with `ctl`; if it started it, the hardware begins a new run
      on the head of the queue, its count from zero. */
  function Boot(s: Sys, ctl: Ctl, started: bool): Sys
    requires ctl.Valid()
  {
    if started && ctl.queue != [] && ctl.queue[0] in s.subs then
      var head := ctl.queue[0];
      s.(ctl := ctl, board := Board(true, false, Some((head, s.subs[head].epoch)), ctl.xfers[head].descNum, 0))
    else s.(ctl := ctl)
  }

  ghost predicate Wellformed(s: Sys) {
    && s.ctl.Valid()
    && (forall id <- s.subs :: s.subs[id].pc in {Cleared, Waiting} ==> id in s.ctl.xfers && s.ctl.xfers[id].descNum > 0)
    && (forall id <- s.subs :: s.subs[id].pc == Cleared ==> id !in s.ctl.queue)
    && (forall id <- s.ctl.queue :: id in s.subs)
  }

  function Step(s: Sys, e: Event): Sys
    requires Wellformed(s) && Enabled(s, e)
  {
    match e
    case Arrive(id, total) =>
      Put(s, id, Sub(if total == 0 then Done(true) else Ready, total, total, 0, false, false, 0, 0))
    case TakeLock(id) =>
      var n := Min(s.subs[id].left, XDMA_TRANSFER_MAX_DESC);
      var t := Put(s, id, s.subs[id].(pc := Built, left := s.subs[id].left - n, retired := 0));
      t.(lock := Some(id), ctl := s.ctl.(xfers := s.ctl.xfers[id := Xfer(New, n, false)]))
    case CheckFlag(id) =>
      if s.offline then Put(s, id, s.subs[id].(pc := Judged(false)))
      else Put(s, id, s.subs[id].(pc := Cleared))
    case Enqueue(id) =>
      var sub, ctl := s.subs[id], Queued(s.ctl, id);
      if s.ctl.request then Put(s.(ctl := ctl), id, sub.(pc := Judged(false)))
      else
        var t := Put(s, id, sub.(pc := Waiting, epoch := sub.epoch + 1, own := !s.ctl.running));
        Boot(t, ctl, !s.ctl.running)
    case Judge(id) =>
      var state := s.ctl.xfers[id].state;
      var ctl := if state == Completed || state == Failed then s.ctl else TimedOut(s.ctl, id);
      Put(s.(ctl := ctl), id, Settled(s.subs[id], state == Completed))
    case Finish(id) =>
      var sub := s.subs[id];
      var pc := if !sub.pc.ok then Done(false) else if sub.left == 0 then Done(true) else Ready;
      Put(s.(lock := None), id, sub.(pc := pc))
    case Retire =>
      var b := s.board.(count := s.board.count + 1, busy := s.board.count + 1 < s.board.len);
      var t := s.(board := b);
      match s.board.on {
        case Some((id, epoch)) =>
          if id in s.subs && s.subs[id].epoch == epoch && s.subs[id].pc == Waiting
          then Put(t, id, s.subs[id].(retired := s.subs[id].retired + 1)) else t
        case None => t
      }
    case Fault => s.(board := s.board.(busy := false, error := true))
    case Halt => s.(board := s.board.(busy := false))
    case ServiceWork =>
      var hw := Hw(s.board.busy, s.board.error, Wrap32(s.board.count));
      var t := s.(board := s.board.(error := false), status := hw);
      var ctl := Serviced(s.ctl, 0, hw, s.status);
      Boot(t, ctl, s.ctl.running && !hw.busy && ctl.running)
    case OfflineFlag => s.(offline := true)
    case OfflineEngine => s.(ctl := Offlined(s.ctl))
    case OnlineEngine => s.(ctl := Onlined(s.ctl))
    case OnlineFlag => s.(offline := false)
  }

  ghost predicate Moves(s: Sys, e: Event, t: Sys) {
    Enabled(s, e) && (Wellformed(s) ==> t == Step(s, e))
  }

  ghost predicate IsPath(tr: seq<Sys>, evs: seq<Event>) {
    |tr| == |evs| + 1 && forall i :: 0 <= i < |evs| ==> Moves(tr[i], evs[i], tr[i + 1])
  }

  ghost predicate IsRun(tr: seq<Sys>, evs: seq<Event>) {
    IsPath(tr, evs) && tr[0] == Init()
  }

  // ---- Who owns the transfer and the queue ----

  predicate HoldsLock(pc: Pc) {
    pc.Built? || pc.Cleared? || pc.Waiting? || pc.Judged?
  }

  /** The lock holder is the one submitter between transfer_init and unlock; only its transfer can be
      queued, and a transfer is SUBMITTED exactly while it is. */
  ghost predicate Owned(s: Sys) {
    && (forall id <- s.subs :: HoldsLock(s.subs[id].pc) <==> s.lock == Some(id))
    && (s.lock.Some? ==> s.lock.value in s.subs)
    && |s.ctl.queue| <= 1
    && (forall id <- s.ctl.queue :: At(s, id, Waiting))
    && (forall id <- s.ctl.xfers :: id in s.subs && (s.ctl.xfers[id].state == Submitted <==> id in s.ctl.queue))
    && (forall id <- s.subs :: HoldsLock(s.subs[id].pc) ==>
        id in s.ctl.xfers && 1 <= s.ctl.xfers[id].descNum <= XDMA_TRANSFER_MAX_DESC && !s.ctl.xfers[id].cyclic)
    && (forall id <- s.subs :: s.subs[id].pc.Waiting? ==> s.ctl.xfers[id].state in {Submitted, Completed, Failed})
  }

  ghost predicate Inv(s: Sys) {
    s.ctl.Valid() && Owned(s)
  }

  lemma {:induction false} InvWellformed(s: Sys)
    requires Inv(s)
    ensures Wellformed(s)
  {
  }

  /** A submitter that is not waiting finds the queue without its transfer; if it holds the lock, empty. */
  lemma {:induction false} QueueOfHolder(s: Sys, id: Id)
    requires Inv(s) && id in s.subs && !s.subs[id].pc.Waiting?
    ensures id !in s.ctl.queue
    ensures s.lock in {None, Some(id)} ==> s.ctl.queue == []
  {
    forall k | 0 <= k < |s.ctl.queue|
      ensures s.ctl.queue[k] != id && s.lock == Some(s.ctl.queue[k])
    {
      assert s.ctl.queue[k] in s.ctl.queue;
      assert At(s, s.ctl.queue[k], Waiting);
    }
    assert s.ctl.queue != [] ==> s.ctl.queue[0] != id && s.lock == Some(s.ctl.queue[0]);
  }

  lemma {:induction false} TakeLockKeepsInv(s: Sys, id: Id)
    requires Inv(s) && Enabled(s, TakeLock(id))
    ensures Wellformed(s) && Inv(Step(s, TakeLock(id)))
  {
    QueueOfHolder(s, id);
  }

  lemma {:induction false} EnqueueOutcome(s: Sys, id: Id)
    requires Inv(s) && Enabled(s, Enqueue(id)) && !s.ctl.request
    ensures Wellformed(s) && s.ctl.queue == []
    ensures var t := Step(s, Enqueue(id)); var sub := s.subs[id]; var n := s.ctl.xfers[id].descNum;
      && t.subs == s.subs[id := sub.(pc := Waiting, epoch := sub.epoch + 1, own := !s.ctl.running)]
      && t.lock == s.lock && t.ctl.queue == [id] && t.ctl.xfers == Mark(s.ctl.xfers, id, Submitted) && t.ctl.running
      && (!s.ctl.running ==> t.ctl.descDequeued == 0 && t.board == Board(true, false, Some((id, sub.epoch + 1)), n, 0))
      && (s.ctl.running ==> t.ctl.descDequeued == s.ctl.descDequeued && t.board == s.board)
  {
    QueueOfHolder(s, id);
  }

  lemma {:induction false} EnqueueKeepsInv(s: Sys, id: Id)
    requires Inv(s) && Enabled(s, Enqueue(id))
    ensures Wellformed(s) && Inv(Step(s, Enqueue(id)))
  {
    QueueOfHolder(s, id);
    if !s.ctl.request {
      EnqueueOutcome(s, id);
    }
  }

  /** Giving up on the queued transfer takes it off the queue. */
  lemma {:induction false} TimeoutOutcome(s: Sys, id: Id)
    requires Inv(s) && At(s, id, Waiting) && s.ctl.xfers[id].state == Submitted
    ensures TimedOut(s.ctl, id) == s.ctl.(queue := [], xfers := Mark(s.ctl.xfers, id, Aborted), regs := s.ctl.regs.(run := false))
  {
    assert s.ctl.queue == [id];
  }

  /** A verdict on the waiting batch, which is off the queue by now. */
  lemma {:induction false} SettledKeepsInv(s: Sys, t: Sys, id: Id, ok: bool)
    requires Inv(s) && At(s, id, Waiting) && t.subs == s.subs[id := Settled(s.subs[id], ok)] && t.lock == s.lock
    requires if id in s.ctl.queue
      then t.ctl.queue == [] && t.ctl.xfers == Mark(s.ctl.xfers, id, Aborted)
      else t.ctl.queue == s.ctl.queue && t.ctl.xfers == s.ctl.xfers
    ensures Inv(t)
  {
  }

  lemma {:induction false} JudgeKeepsInv(s: Sys, id: Id)
    requires Inv(s) && Enabled(s, Judge(id))
    ensures Wellformed(s) && Inv(Step(s, Judge(id)))
  {
    InvWellformed(s);
    if s.ctl.xfers[id].state == Submitted {
      TimeoutOutcome(s, id);
    }
    SettledKeepsInv(s, Step(s, Judge(id)), id, s.ctl.xfers[id].state == Completed);
  }

  lemma {:induction false} FinishKeepsInv(s: Sys, id: Id)
    requires Inv(s) && Enabled(s, Finish(id))
    ensures Wellformed(s) && Inv(Step(s, Finish(id)))
  {
    QueueOfHolder(s, id);
  }

  /** Emptying the queue and judging its transfer keeps the invariant. */
  lemma {:induction false} ServedKeepsInv(s: Sys, t: Sys, state: State)
    requires Inv(s) && t.subs == s.subs && t.lock == s.lock && t.ctl.queue == [] && state in {Completed, Failed}
    requires t.ctl.xfers == if s.ctl.queue == [] then s.ctl.xfers else Mark(s.ctl.xfers, s.ctl.queue[0], state)
    ensures Inv(t)
  {
    if s.ctl.queue != [] {
      assert s.ctl.queue == [s.ctl.queue[0]] && At(s, s.ctl.queue[0], Waiting);
    }
  }

  /** What a service of this state makes of the hardware's count. */
  function Outstanding(s: Sys): u32 {
    Wrap32(Wrap32(s.board.count) - s.ctl.descDequeued)
  }

  /** A service that leaves nothing queued starts no new run. */
  lemma {:induction false} ServiceBoots(s: Sys, hw: Hw, ctl: Ctl)
    requires Wellformed(s) && hw == Hw(s.board.busy, s.board.error, Wrap32(s.board.count))
    requires ctl == Serviced(s.ctl, 0, hw, s.status) && ctl.queue == []
    ensures Step(s, ServiceWork) == s.(ctl := ctl, board := s.board.(error := false), status := hw)
  {
  }

  lemma {:induction false} QueuedNotCyclic(s: Sys)
    requires Inv(s)
    ensures NonCyclic(s.ctl)
  {
    forall i | 0 <= i < |s.ctl.queue|
      ensures !s.ctl.xfers[s.ctl.queue[i]].cyclic
    {
      assert s.ctl.queue[i] in s.ctl.queue;
    }
  }

  /** What a service of a running engine does: it empties the queue, and judges the one transfer in it by the count. */
  ghost predicate Served(s: Sys, t: Sys, state: State)
    requires s.ctl.Valid()
  {
    && t.subs == s.subs && t.lock == s.lock && t.board == s.board.(error := false) && t.ctl.queue == []
    && t.ctl.running == s.board.busy && t.ctl.request == s.ctl.request && state in {Completed, Failed}
    && (s.board.busy && s.ctl.queue != [] ==>
        t.ctl.descDequeued == s.ctl.descDequeued + s.ctl.xfers[s.ctl.queue[0]].descNum)
    && t.ctl.xfers == (if s.ctl.queue == [] then s.ctl.xfers else Mark(s.ctl.xfers, s.ctl.queue[0], state))
    && (s.ctl.queue != [] ==>
        var n := s.ctl.xfers[s.ctl.queue[0]].descNum; var count := Outstanding(s);
        state == Completed <==> count > n || (count == n && !s.board.error))
  }

  lemma {:induction false} ServedOne(s: Sys, t: Sys, hw: Hw) returns (state: State)
    requires s.ctl.Valid() && s.ctl.running && |s.ctl.queue| <= 1 && NonCyclic(s.ctl)
    requires hw == Hw(s.board.busy, s.board.error, Wrap32(s.board.count))
    requires t == s.(ctl := Serviced(s.ctl, 0, hw, s.status), board := s.board.(error := false), status := hw)
    ensures Served(s, t, state)
  {
    ServicedOne(s.ctl, hw, s.status);
    state := if s.ctl.queue == [] then Completed else t.ctl.xfers[s.ctl.queue[0]].state;
  }

  lemma {:induction false} ServiceOutcome(s: Sys) returns (state: State)
    requires Inv(s) && s.ctl.running
    ensures Wellformed(s) && Served(s, Step(s, ServiceWork), state)
  {
    var hw := Hw(s.board.busy, s.board.error, Wrap32(s.board.count));
    var d := Serviced(s.ctl, 0, hw, s.status);
    QueuedNotCyclic(s);
    InvWellformed(s);
    state := ServedOne(s, s.(ctl := d, board := s.board.(error := false), status := hw), hw);
    ServiceBoots(s, hw, d);
  }

  lemma {:induction false} ServiceKeepsInv(s: Sys)
    requires Inv(s)
    ensures Wellformed(s) && Inv(Step(s, ServiceWork))
  {
    InvWellformed(s);
    if s.ctl.running {
      var state := ServiceOutcome(s);
      ServedKeepsInv(s, Step(s, ServiceWork), state);
    }
  }

  lemma {:induction false} CallerKeepsInv(s: Sys, e: Event)
    requires Inv(s) && Enabled(s, e) && (e.Arrive? || e.CheckFlag?)
    ensures Wellformed(s) && Inv(Step(s, e))
  {
    if e.CheckFlag? {
      QueueOfHolder(s, e.id);
    }
  }

  lemma {:induction false} RetireKeepsInv(s: Sys)
    requires Inv(s) && Enabled(s, Retire)
    ensures Wellformed(s) && Inv(Step(s, Retire))
  {
  }

  lemma {:induction false} DeviceKeepsInv(s: Sys, e: Event)
    requires Inv(s) && Enabled(s, e)
    requires e in {Fault, Halt, OfflineFlag, OfflineEngine, OnlineEngine, OnlineFlag}
    ensures Wellformed(s) && Inv(Step(s, e))
  {
  }

  lemma {:induction false} StepKeepsInv(s: Sys, e: Event)
    requires Inv(s) && Enabled(s, e)
    ensures Wellformed(s) && Inv(Step(s, e))
  {
    match e {
      case TakeLock(id) => TakeLockKeepsInv(s, id);
      case Enqueue(id) => EnqueueKeepsInv(s, id);
      case Judge(id) => JudgeKeepsInv(s, id);
      case Finish(id) => FinishKeepsInv(s, id);
      case ServiceWork => ServiceKeepsInv(s);
      case Arrive(_, _) => CallerKeepsInv(s, e);
      case CheckFlag(_) => CallerKeepsInv(s, e);
      case Retire => RetireKeepsInv(s);
      case _ => DeviceKeepsInv(s, e);
    }
  }

  /** Every state of every run, whatever the interleaving of submitters, services, timeouts, offlines and onlines. */
  lemma {:induction false} RunInv(tr: seq<Sys>, evs: seq<Event>, i: nat)
    requires IsRun(tr, evs) && i < |tr|
    ensures Inv(tr[i])
  {
    if i > 0 {
      RunInv(tr, evs, i - 1);
      StepKeepsInv(tr[i - 1], evs[i - 1]);
    }
  }
}
