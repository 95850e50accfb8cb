/** Runs in which a request is told success while the hardware retired nothing of it, and what ends the condition
    that makes them possible. */
module StaleRuns {
  import opened Words
  import opened Hardware
  import opened Service
  import opened Protocol

  /** One service of the engine with nothing queued and BUSY clear takes the stale mark away again. */
  lemma {:induction false} ServiceRecovers(s: Sys)
    requires Inv(s) && s.ctl.queue == [] && !s.board.busy
    ensures Wellformed(s) && !Step(s, ServiceWork).ctl.running
  {
    InvWellformed(s);
    if s.ctl.running {
      var state := ServiceOutcome(s);
    }
  }

  ghost predicate Leads(s: Sys, t: Sys) {
    exists tr: seq<Sys>, evs: seq<Event> :: IsPath(tr, evs) && tr[0] == s && tr[|evs|] == t
  }

  lemma {:induction false} Advance(s: Sys, e: Event) returns (t: Sys)
    requires Inv(s) && Enabled(s, e)
    ensures Wellformed(s) && t == Step(s, e) && Inv(t) && Leads(s, t)
  {
    StepKeepsInv(s, e);
    t := Step(s, e);
    assert IsPath([s, t], [e]);
  }

  lemma {:induction false} LeadsOn(s: Sys, t: Sys, u: Sys)
    requires Leads(s, t) && Leads(t, u)
    ensures Leads(s, u)
  {
    var a, ea :| IsPath(a, ea) && a[0] == s && a[|ea|] == t;
    var b, eb :| IsPath(b, eb) && b[0] == t && b[|eb|] == u;
    var tr, evs := a + b[1..], ea + eb;
    forall i | 0 <= i < |evs|
      ensures Moves(tr[i], evs[i], tr[i + 1])
    {
      var j := i - |ea|;
      assert if j < 0 then Moves(a[i], ea[i], a[i + 1]) else Moves(b[j], eb[j], b[j + 1]);
    }
    assert IsPath(tr, evs) && tr[0] == s && tr[|evs|] == u;
  }

  lemma {:induction false} ArriveAdvances(s: Sys, id: Id) returns (t: Sys)
    requires Inv(s) && id !in s.subs
    ensures Leads(s, t) && Inv(t) && t == s.(subs := s.subs[id := Sub(Ready, 1, 1, 0, false, false, 0, 0)])
  {
    t := Advance(s, Arrive(id, 1));
  }

  lemma {:induction false} TakeLockAdvances(s: Sys, id: Id) returns (t: Sys)
    requires Inv(s) && id in s.subs && s.subs[id] == Sub(Ready, 1, 1, 0, false, false, 0, 0) && s.lock == None
    ensures Leads(s, t) && Inv(t)
    ensures t.subs == s.subs[id := Sub(Built, 1, 0, 0, false, false, 0, 0)] && t.board == s.board && t.offline == s.offline
    ensures t.ctl == s.ctl.(xfers := s.ctl.xfers[id := Xfer(New, 1, false)])
  {
    t := Advance(s, TakeLock(id));
  }

  lemma {:induction false} CheckFlagAdvances(s: Sys, id: Id) returns (t: Sys)
    requires Inv(s) && At(s, id, Built) && !s.offline
    ensures Leads(s, t) && Inv(t) && t == s.(subs := s.subs[id := s.subs[id].(pc := Cleared)])
  {
    t := Advance(s, CheckFlag(id));
  }

  lemma {:induction false} EnqueueAdvances(s: Sys, id: Id) returns (t: Sys)
    requires Inv(s) && At(s, id, Cleared) && !s.ctl.request
    ensures Leads(s, t) && Inv(t) && At(t, id, Waiting)
    ensures var sub := s.subs[id];
      && t.subs == s.subs[id := sub.(pc := Waiting, epoch := sub.epoch + 1, own := !s.ctl.running)]
      && t.ctl.queue == [id] && t.ctl.xfers == Mark(s.ctl.xfers, id, Submitted) && t.ctl.running && !t.ctl.request
      && t.offline == s.offline
      && (!s.ctl.running ==> t.ctl.descDequeued == 0)
      && (!s.ctl.running ==> t.board == Board(true, false, Some((id, sub.epoch + 1)), s.ctl.xfers[id].descNum, 0))
      && (s.ctl.running ==> t.ctl.descDequeued == s.ctl.descDequeued && t.board == s.board)
  {
    t := Advance(s, Enqueue(id));
    EnqueueOutcome(s, id);
  }

  lemma {:induction false} RetireAdvances(s: Sys) returns (t: Sys)
    requires Inv(s) && s.board.busy && s.board.count == 0 && s.board.len == 1
    ensures Leads(s, t) && Inv(t) && t.ctl == s.ctl && t.offline == s.offline && t.subs.Keys == s.subs.Keys
    ensures !t.board.busy && t.board.count == 1 && t.board.error == s.board.error
    ensures forall id <- t.subs :: t.subs[id].pc == s.subs[id].pc
  {
    t := Advance(s, Retire);
  }

  lemma {:induction false} TimeoutAdvances(s: Sys, id: Id) returns (t: Sys)
    requires Inv(s) && At(s, id, Waiting) && s.ctl.queue == [id]
    ensures Leads(s, t) && Inv(t) && At(t, id, Judged(false)) && t.subs.Keys == s.subs.Keys
    ensures t.ctl.queue == [] && t.ctl.running == s.ctl.running && t.ctl.request == s.ctl.request
    ensures t.ctl.descDequeued == s.ctl.descDequeued && t.board == s.board && t.offline == s.offline
  {
    assert id in s.ctl.queue;
    t := Advance(s, Judge(id));
  }

  lemma {:induction false} BusyServiceAdvances(s: Sys, id: Id) returns (t: Sys)
    requires Inv(s) && s.ctl.running && s.ctl.queue == [id] && At(s, id, Waiting) && s.board.busy
    requires s.board.count == 0 && s.ctl.descDequeued == 0 && s.ctl.xfers[id].descNum == 1
    ensures Leads(s, t) && Inv(t) && t.subs == s.subs && t.board == s.board.(error := false) && t.offline == s.offline
    ensures t.ctl.queue == [] && t.ctl.running && t.ctl.request == s.ctl.request && t.ctl.descDequeued == 1
    ensures id in t.ctl.xfers && t.ctl.xfers[id].state == Failed
  {
    t := Advance(s, ServiceWork);
    var state := ServiceOutcome(s);
  }

  lemma {:induction false} FailureAdvances(s: Sys, id: Id) returns (t: Sys)
    requires Inv(s) && At(s, id, Waiting) && s.ctl.xfers[id].state == Failed
    ensures Leads(s, t) && Inv(t) && At(t, id, Judged(false)) && t.subs.Keys == s.subs.Keys
    ensures t.ctl == s.ctl && t.board == s.board && t.offline == s.offline
  {
    t := Advance(s, Judge(id));
  }

  lemma {:induction false} SuccessAdvances(s: Sys, id: Id) returns (t: Sys)
    requires Inv(s) && At(s, id, Waiting) && s.ctl.xfers[id].state == Completed
    ensures Leads(s, t) && Inv(t) && At(t, id, Judged(true)) && t.subs[id].left == s.subs[id].left
    ensures t.subs[id].finished == s.subs[id].finished + s.subs[id].retired && t.subs[id].total == s.subs[id].total
  {
    t := Advance(s, Judge(id));
  }

  lemma {:induction false} FinishAdvances(s: Sys, id: Id, ok: bool) returns (t: Sys)
    requires Inv(s) && At(s, id, Judged(ok)) && (ok ==> s.subs[id].left == 0)
    ensures Leads(s, t) && Inv(t) && t.ctl == s.ctl && t.board == s.board && t.offline == s.offline
    ensures t.lock == None && t.subs == s.subs[id := s.subs[id].(pc := Done(ok))]
  {
    t := Advance(s, Finish(id));
  }

  lemma {:induction false} ServiceAdvances(s: Sys, id: Id, count: nat) returns (t: Sys)
    requires Inv(s) && s.ctl.running && s.ctl.queue == [id] && At(s, id, Waiting) && !s.board.error
    requires count == Outstanding(s)
    ensures Leads(s, t) && Inv(t) && t.subs == s.subs && id in t.ctl.xfers
    ensures t.ctl.xfers[id].state == Completed <==> count >= s.ctl.xfers[id].descNum
  {
    t := Advance(s, ServiceWork);
    var state := ServiceOutcome(s);
  }

  /** A batch queued while the engine is marked running, and the next service. */
  lemma {:induction false} StaleServed(s: Sys, id: Id, count: nat) returns (u: Sys)
    requires Inv(s) && At(s, id, Cleared) && !s.ctl.request && s.ctl.running && !s.board.error
    requires s.subs[id].retired == 0 && count == Outstanding(s)
    ensures Leads(s, u) && Inv(u) && At(u, id, Waiting) && id in u.ctl.xfers
    ensures u.subs == s.subs[id := s.subs[id].(pc := Waiting, epoch := s.subs[id].epoch + 1, own := false)]
    ensures u.ctl.xfers[id].state == Completed <==> count >= s.ctl.xfers[id].descNum
  {
    var t := EnqueueAdvances(s, id);
    u := ServiceAdvances(t, id, count);
    LeadsOn(s, t, u);
  }

  /** A request of one descriptor up to the point where its batch is about to be queued. */
  predicate AboutToQueue(s: Sys, t: Sys, id: Id) {
    && At(t, id, Cleared) && t.subs[id].total == 1 && t.subs[id].left == t.subs[id].finished == t.subs[id].retired == 0
    && id in t.ctl.xfers && t.ctl.xfers[id].descNum == 1 && t.ctl == s.ctl.(xfers := t.ctl.xfers)
    && t.board == s.board && t.offline == s.offline && t.subs.Keys == s.subs.Keys + {id}
  }

  lemma {:induction false} Approaches(s: Sys, id: Id) returns (t: Sys)
    requires Inv(s) && id !in s.subs && s.lock == None && !s.offline
    ensures Leads(s, t) && Inv(t) && AboutToQueue(s, t, id)
  {
    var s1 := ArriveAdvances(s, id);
    var s2 := TakeLockAdvances(s1, id);
    LeadsOn(s, s1, s2);
    t := CheckFlagAdvances(s2, id);
    LeadsOn(s, s2, t);
  }

  /** An empty queue, but the engine still marked running, and a count outstanding. */
  predicate Stale(s: Sys) {
    && s.lock == None && s.ctl.queue == [] && s.ctl.running && !s.ctl.request && !s.offline
    && !s.board.error && Outstanding(s) >= 1
  }

  lemma {:induction false} GivesUp(s: Sys, id: Id) returns (t: Sys)
    requires Inv(s) && At(s, id, Waiting) && s.ctl.queue == [id]
    ensures Leads(s, t) && Inv(t) && t.lock == None && t.subs.Keys == s.subs.Keys
    ensures t.ctl.queue == [] && t.ctl.running == s.ctl.running && t.ctl.request == s.ctl.request
    ensures t.ctl.descDequeued == s.ctl.descDequeued && t.board == s.board && t.offline == s.offline
  {
    var s1 := TimeoutAdvances(s, id);
    t := FinishAdvances(s1, id, false);
    LeadsOn(s, s1, t);
  }

  lemma {:induction false} Fails(s: Sys, id: Id) returns (t: Sys)
    requires Inv(s) && At(s, id, Waiting) && s.ctl.xfers[id].state == Failed
    ensures Leads(s, t) && Inv(t) && t.lock == None && t.subs.Keys == s.subs.Keys
    ensures t.ctl == s.ctl && t.board == s.board && t.offline == s.offline
  {
    var s1 := FailureAdvances(s, id);
    t := FinishAdvances(s1, id, false);
    LeadsOn(s, s1, t);
  }

  /** The transfer runs, the waiter times out before the service comes, and gives up. */
  lemma {:induction false} TimesOut(s: Sys, id: Id) returns (t: Sys)
    requires Inv(s) && AboutToQueue(Init(), s, id)
    ensures Leads(s, t) && Inv(t) && Stale(t) && t.subs.Keys == s.subs.Keys
  {
    var s1 := EnqueueAdvances(s, id);
    var s2 := RetireAdvances(s1);
    LeadsOn(s, s1, s2);
    t := GivesUp(s2, id);
    LeadsOn(s, s2, t);
  }

  /** A timeout can leave a stale engine. */
  lemma {:induction false} TimeoutLeavesStale() returns (t: Sys)
    ensures Leads(Init(), t) && Inv(t) && Stale(t) && t.subs.Keys == {0}
  {
    var s := Approaches(Init(), 0);
    t := TimesOut(s, 0);
    LeadsOn(Init(), s, t);
  }

  /** The service finds the engine BUSY with nothing completed: the transfer is judged FAILED and counted as dequeued,
      and the next difference of the counts wraps. */
  lemma {:induction false} ServedBusy(s: Sys, id: Id) returns (t: Sys)
    requires Inv(s) && AboutToQueue(Init(), s, id)
    ensures Leads(s, t) && Inv(t) && Stale(t) && t.subs.Keys == s.subs.Keys
    ensures Wrap32(t.board.count) < t.ctl.descDequeued
  {
    var s1 := EnqueueAdvances(s, id);
    var s2 := BusyServiceAdvances(s1, id);
    LeadsOn(s, s1, s2);
    t := Fails(s2, id);
    LeadsOn(s, s2, t);
  }

  /** So can a service while the engine is BUSY, without any timeout; there the hardware's count is behind what has been
      dequeued. */
  lemma {:induction false} BusyServiceLeavesStale() returns (t: Sys)
    ensures Leads(Init(), t) && Inv(t) && Stale(t) && t.subs.Keys == {0}
    ensures Wrap32(t.board.count) < t.ctl.descDequeued
  {
    var s := Approaches(Init(), 0);
    t := ServedBusy(s, 0);
    LeadsOn(Init(), s, t);
  }

  lemma {:induction false} Concludes(s: Sys, id: Id) returns (t: Sys)
    requires Inv(s) && At(s, id, Waiting) && s.ctl.xfers[id].state == Completed && s.subs[id].left == 0
    ensures Leads(s, t) && At(t, id, Done(true)) && t.subs[id].total == s.subs[id].total
    ensures t.subs[id].finished == s.subs[id].finished + s.subs[id].retired
  {
    var s1 := SuccessAdvances(s, id);
    t := FinishAdvances(s1, id, true);
    LeadsOn(s, s1, t);
  }

  /** From every stale state a request of one descriptor can be told success while the hardware retired
      nothing of it. */
  lemma {:induction false} StaleFalseSuccess(s: Sys, id: Id) returns (t: Sys)
    requires Inv(s) && Stale(s) && id !in s.subs
    ensures Leads(s, t) && At(t, id, Done(true)) && t.subs[id].finished == 0 < t.subs[id].total
  {
    var s1 := Approaches(s, id);
    var s2 := StaleServed(s1, id, Outstanding(s));
    LeadsOn(s, s1, s2);
    t := Concludes(s2, id);
    LeadsOn(s, s2, t);
  }

  /** So success is not sound over all runs: a timeout earlier on the engine is enough. */
  lemma {:induction false} TimeoutFalseSuccess() returns (tr: seq<Sys>, evs: seq<Event>)
    ensures IsRun(tr, evs)
    ensures At(tr[|evs|], 1, Done(true)) && tr[|evs|].subs[1].finished == 0 < tr[|evs|].subs[1].total
  {
    var s := TimeoutLeavesStale();
    var t := StaleFalseSuccess(s, 1);
    LeadsOn(Init(), s, t);
    tr, evs :| IsPath(tr, evs) && tr[0] == Init() && tr[|evs|] == t;
  }

  /** And so is a service while BUSY, through the count that wraps. */
  lemma {:induction false} WrapFalseSuccess() returns (tr: seq<Sys>, evs: seq<Event>)
    ensures IsRun(tr, evs)
    ensures At(tr[|evs|], 1, Done(true)) && tr[|evs|].subs[1].finished == 0 < tr[|evs|].subs[1].total
  {
    var s := BusyServiceLeavesStale();
    var t := StaleFalseSuccess(s, 1);
    LeadsOn(Init(), s, t);
    tr, evs :| IsPath(tr, evs) && tr[0] == Init() && tr[|evs|] == t;
  }
}
