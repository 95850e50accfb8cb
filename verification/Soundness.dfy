/** When success is real: which submissions can only complete after the hardware retired all of
    their descriptors, that calm runs have no others, and a run in which a timeout makes one. */
module Soundness {
  import opened Words
  import opened Hardware
  import opened Service
  import opened Accounting
  import opened Protocol

  /** Of the `behind` descriptors in batches judged COMPLETED the hardware retired all, unless one of those batches was
      not started by its own queueing: then it retired fewer. */
  predicate Level(sub: Sub, behind: int) {
    if sub.stale then sub.finished < behind else sub.finished == behind
  }

  ghost predicate Counted(s: Sys, id: Id)
    requires Inv(s) && id in s.subs
  {
    var sub := s.subs[id];
    match sub.pc
    case Ready => Level(sub, sub.total - sub.left)
    case Judged(ok) => ok ==> Level(sub, sub.total - sub.left)
    case Done(ok) => ok ==> sub.left == 0 && Level(sub, sub.total)
    case _ => Level(sub, sub.total - sub.left - s.ctl.xfers[id].descNum)
  }

  /** The batch in hand. Started by its own queueing, the hardware run is its own, the count is the number of
      descriptors retired for it, and it is COMPLETED only when that is all of them. Otherwise the hardware is not on
      it and has retired nothing of it. */
  ghost predicate BatchSound(s: Sys, id: Id)
    requires Inv(s) && id in s.subs
  {
    var sub := s.subs[id];
    && (sub.pc in {Built, Cleared} ==> sub.retired == 0)
    && (sub.pc.Waiting? ==> if sub.own then OwnRun(s, id) else s.board.on != Some((id, sub.epoch)) && sub.retired == 0)
    && (s.board.on.Some? && s.board.on.value.0 == id ==> s.board.on.value.1 <= sub.epoch)
  }

  ghost predicate OwnRun(s: Sys, id: Id)
    requires Inv(s) && id in s.subs && s.subs[id].pc.Waiting?
  {
    var sub, x := s.subs[id], s.ctl.xfers[id];
    && s.board.on == Some((id, sub.epoch)) && s.board.len == x.descNum && s.board.count == sub.retired <= x.descNum
    && (id in s.ctl.queue ==> s.ctl.descDequeued == 0)
    && (x.state == Completed ==> sub.retired == x.descNum)
  }

  ghost predicate SoundAt(s: Sys, id: Id)
    requires Inv(s) && id in s.subs
  {
    Counted(s, id) && BatchSound(s, id)
  }

  ghost predicate Sound(s: Sys)
    requires Inv(s)
  {
    (s.board.on.Some? ==> s.board.on.value.0 in s.subs) && forall id <- s.subs :: SoundAt(s, id)
  }

  /** Submitters an event does not touch. */
  lemma {:induction false} Untouched(s: Sys, t: Sys, k: Id)
    requires Inv(s) && Inv(t) && k in s.subs && k in t.subs && SoundAt(s, k) && t.subs[k] == s.subs[k]
    requires HoldsLock(s.subs[k].pc) ==> t.ctl.xfers[k] == s.ctl.xfers[k]
    requires t.board.on == s.board.on || (!s.subs[k].pc.Waiting? && t.board.on.Some? && t.board.on.value.0 != k)
    requires s.subs[k].pc.Waiting? ==>
      t.board.len == s.board.len && t.board.count == s.board.count
      && (k in t.ctl.queue ==> k in s.ctl.queue && t.ctl.descDequeued == s.ctl.descDequeued)
    ensures SoundAt(t, k)
  {
  }

  /** An accepted batch: its own run if the engine was idle, else a run the hardware is not on. */
  lemma {:induction false} EnqueuedSoundAt(s: Sys, t: Sys, id: Id, k: Id)
    requires Inv(s) && Inv(t) && At(s, id, Cleared) && SoundAt(s, id) && k in s.subs && SoundAt(s, k) && k in t.subs
    requires var sub := s.subs[id]; t.subs == s.subs[id := sub.(pc := Waiting, epoch := sub.epoch + 1, own := !s.ctl.running)]
    requires t.ctl.queue == [id] && t.ctl.xfers == Mark(s.ctl.xfers, id, Submitted)
    requires if s.ctl.running then t.ctl.descDequeued == s.ctl.descDequeued && t.board == s.board
      else t.ctl.descDequeued == 0 && t.board == Board(true, false, Some((id, s.subs[id].epoch + 1)), s.ctl.xfers[id].descNum, 0)
    ensures SoundAt(t, k)
  {
    if k != id {
      Untouched(s, t, k);
    }
  }

  lemma {:induction false} EnqueueSound(s: Sys, id: Id)
    requires Inv(s) && Sound(s) && Enabled(s, Enqueue(id)) && !s.ctl.request
    requires Wellformed(s) && Inv(Step(s, Enqueue(id)))
    ensures Sound(Step(s, Enqueue(id)))
  {
    var t := Step(s, Enqueue(id));
    assert SoundAt(s, id);
    EnqueueOutcome(s, id);
    forall k <- t.subs
      ensures SoundAt(t, k)
    {
      assert SoundAt(s, k);
      EnqueuedSoundAt(s, t, id, k);
    }
  }

  lemma {:induction false} RefusedSound(s: Sys, id: Id)
    requires Inv(s) && Sound(s) && Enabled(s, Enqueue(id)) && s.ctl.request
    requires Wellformed(s) && Inv(Step(s, Enqueue(id)))
    ensures Sound(Step(s, Enqueue(id)))
  {
    var t := Step(s, Enqueue(id));
    assert SoundAt(s, id);
    forall k <- t.subs
      ensures SoundAt(t, k)
    {
      if k != id {
        Untouched(s, t, k);
      }
    }
  }

  lemma {:induction false} RetireSound(s: Sys)
    requires Inv(s) && Sound(s) && Enabled(s, Retire)
    requires Wellformed(s) && Inv(Step(s, Retire))
    ensures Sound(Step(s, Retire))
  {
    var t := Step(s, Retire);
    forall k <- t.subs
      ensures SoundAt(t, k)
    {
      assert SoundAt(s, k);
      if !s.subs[k].pc.Waiting? {
        Untouched(s, t, k);
      }
    }
  }

  /** The served transfer: with its own run, COMPLETED means the whole count arrived. */
  lemma {:induction false} ServedSound(s: Sys, t: Sys, k: Id, state: State)
    requires Inv(s) && Inv(t) && At(s, k, Waiting) && s.ctl.queue == [k] && SoundAt(s, k)
    requires t.subs == s.subs && t.board == s.board.(error := false) && t.ctl.queue == []
    requires t.ctl.xfers == Mark(s.ctl.xfers, k, state)
    requires var n := s.ctl.xfers[k].descNum; var count := Outstanding(s);
      state == Completed <==> count > n || (count == n && !s.board.error)
    ensures SoundAt(t, k)
  {
  }

  lemma {:induction false} ServiceSoundAt(s: Sys, t: Sys, k: Id, state: State)
    requires Inv(s) && Inv(t) && k in s.subs && SoundAt(s, k)
    requires t.subs == s.subs && t.board == s.board.(error := false)
    requires !s.ctl.running ==> t.ctl == s.ctl
    requires s.ctl.running ==> t.ctl.queue == []
    requires s.ctl.running ==>
      t.ctl.xfers == if s.ctl.queue == [] then s.ctl.xfers else Mark(s.ctl.xfers, s.ctl.queue[0], state)
    requires s.ctl.running && s.ctl.queue != [] ==>
      var n := s.ctl.xfers[s.ctl.queue[0]].descNum; var count := Outstanding(s);
      state == Completed <==> count > n || (count == n && !s.board.error)
    ensures SoundAt(t, k)
  {
    if s.ctl.running && s.ctl.queue == [k] {
      assert k in s.ctl.queue && At(s, k, Waiting);
      ServedSound(s, t, k, state);
    } else {
      Untouched(s, t, k);
    }
  }

  lemma {:induction false} ServiceSound(s: Sys)
    requires Inv(s) && Sound(s)
    requires Wellformed(s) && Inv(Step(s, ServiceWork))
    ensures Sound(Step(s, ServiceWork))
  {
    var t := Step(s, ServiceWork);
    var state := New;
    if s.ctl.running {
      state := ServiceOutcome(s);
    }
    forall k <- t.subs
      ensures SoundAt(t, k)
    {
      ServiceSoundAt(s, t, k, state);
    }
  }

  lemma {:induction false} BuildSound(s: Sys, e: Event, id: Id)
    requires Inv(s) && Sound(s) && Enabled(s, e) && e in {TakeLock(id), CheckFlag(id)}
    requires Wellformed(s) && Inv(Step(s, e))
    ensures Sound(Step(s, e))
  {
    var t := Step(s, e);
    assert SoundAt(s, id);
    forall k <- t.subs
      ensures SoundAt(t, k)
    {
      if k != id {
        Untouched(s, t, k);
      }
    }
  }

  /** A batch judged COMPLETED joins those behind. */
  lemma {:induction false} JudgedSoundAt(s: Sys, t: Sys, id: Id, ok: bool, k: Id)
    requires Inv(s) && Inv(t) && At(s, id, Waiting) && SoundAt(s, id) && k in s.subs && SoundAt(s, k) && k in t.subs
    requires ok == (s.ctl.xfers[id].state == Completed) && t.board == s.board
    requires t.subs == s.subs[id := Settled(s.subs[id], ok)]
    ensures SoundAt(t, k)
  {
    if k != id {
      Untouched(s, t, k);
    }
  }

  lemma {:induction false} JudgeSound(s: Sys, id: Id)
    requires Inv(s) && Sound(s) && Enabled(s, Judge(id))
    requires Wellformed(s) && Inv(Step(s, Judge(id)))
    ensures Sound(Step(s, Judge(id)))
  {
    var t, ok := Step(s, Judge(id)), s.ctl.xfers[id].state == Completed;
    assert t.subs == s.subs[id := Settled(s.subs[id], ok)] && t.board == s.board;
    assert SoundAt(s, id);
    forall k <- t.subs
      ensures SoundAt(t, k)
    {
      JudgedSoundAt(s, t, id, ok, k);
    }
  }

  lemma {:induction false} FinishSound(s: Sys, id: Id)
    requires Inv(s) && Sound(s) && Enabled(s, Finish(id))
    requires Wellformed(s) && Inv(Step(s, Finish(id)))
    ensures Sound(Step(s, Finish(id)))
  {
    var t := Step(s, Finish(id));
    assert SoundAt(s, id);
    forall k <- t.subs
      ensures SoundAt(t, k)
    {
      if k != id {
        Untouched(s, t, k);
      }
    }
  }

  lemma {:induction false} OtherSound(s: Sys, e: Event)
    requires Inv(s) && Sound(s) && Enabled(s, e)
    requires e.Arrive? || e in {Fault, Halt, OfflineFlag, OfflineEngine, OnlineEngine, OnlineFlag}
    requires Wellformed(s) && Inv(Step(s, e))
    ensures Sound(Step(s, e))
  {
    var t := Step(s, e);
    forall k <- t.subs
      ensures SoundAt(t, k)
    {
      if k in s.subs {
        assert SoundAt(s, k);
        Untouched(s, t, k);
      }
    }
  }

  lemma {:induction false} StepKeepsSound(s: Sys, e: Event)
    requires Inv(s) && Sound(s) && Enabled(s, e)
    ensures Wellformed(s) && Inv(Step(s, e)) && Sound(Step(s, e))
  {
    StepKeepsInv(s, e);
    match e {
      case Enqueue(id) => if s.ctl.request { RefusedSound(s, id); } else { EnqueueSound(s, id); }
      case Retire => RetireSound(s);
      case ServiceWork => ServiceSound(s);
      case TakeLock(id) => BuildSound(s, e, id);
      case CheckFlag(id) => BuildSound(s, e, id);
      case Judge(id) => JudgeSound(s, id);
      case Finish(id) => FinishSound(s, id);
      case _ => OtherSound(s, e);
    }
  }

  lemma {:induction false} RunSound(tr: seq<Sys>, evs: seq<Event>, i: nat)
    requires IsRun(tr, evs) && i < |tr|
    ensures Inv(tr[i]) && Sound(tr[i])
  {
    if i > 0 {
      RunSound(tr, evs, i - 1);
      StepKeepsSound(tr[i - 1], evs[i - 1]);
    }
  }

  /** In every run: a waiting batch that was queued on an idle engine is COMPLETED only if the hardware retired all of
      its descriptors; of one that was not, it retired none. */
  lemma {:induction false} CompletedIsRetired(tr: seq<Sys>, evs: seq<Event>, i: nat, id: Id)
    requires IsRun(tr, evs) && i < |tr| && At(tr[i], id, Waiting)
    ensures id in tr[i].ctl.xfers
    ensures var sub, x := tr[i].subs[id], tr[i].ctl.xfers[id];
      && (sub.own && x.state == Completed ==> sub.retired == x.descNum)
      && (!sub.own ==> sub.retired == 0)
  {
    RunSound(tr, evs, i);
    assert SoundAt(tr[i], id);
  }

  /** In every run, when the service judges the waiting batch: COMPLETED exactly if the engine is marked running and the
      outstanding count covers the batch (an error bit asks for more). For a batch queued on a running engine that count
      is left over from another batch. */
  lemma {:induction false} ServiceJudges(tr: seq<Sys>, evs: seq<Event>, i: nat, id: Id)
    requires IsRun(tr, evs) && i < |evs| && evs[i] == ServiceWork && At(tr[i], id, Waiting) && id in tr[i].ctl.queue
    ensures id in tr[i].ctl.xfers && id in tr[i + 1].ctl.xfers
    ensures var s, n := tr[i], tr[i].ctl.xfers[id].descNum;
      && (tr[i + 1].ctl.xfers[id].state == Completed <==>
        s.ctl.running && (Outstanding(s) > n || (Outstanding(s) == n && !s.board.error)))
      && (!s.subs[id].own ==> s.board.on != Some((id, s.subs[id].epoch)) && s.subs[id].retired == 0)
  {
    RunSound(tr, evs, i);
    var s := tr[i];
    assert SoundAt(s, id) && Enabled(s, evs[i]) && s.ctl.queue == [id];
    InvWellformed(s);
    if s.ctl.running {
      var state := ServiceOutcome(s);
    }
  }

  /** In every run, of a request that returns success: the hardware retired all of its descriptors if and only if every
      batch of it was started by its own queueing. */
  lemma {:induction false} SuccessIffNotStale(tr: seq<Sys>, evs: seq<Event>, i: nat, id: Id)
    requires IsRun(tr, evs) && i < |tr| && At(tr[i], id, Done(true))
    ensures tr[i].subs[id].finished == tr[i].subs[id].total <==> !tr[i].subs[id].stale
    ensures tr[i].subs[id].finished <= tr[i].subs[id].total
  {
    RunSound(tr, evs, i);
    assert SoundAt(tr[i], id);
  }

  // ---- The same condition, read off the run ----

  /** Before step i, some batch of the request was queued on an engine already marked running. */
  ghost predicate QueuedOnRunning(tr: seq<Sys>, evs: seq<Event>, i: nat, id: Id)
    requires i <= |evs| <= |tr|
  {
    exists k :: 0 <= k < i && evs[k] == Enqueue(id) && !tr[k].ctl.request && tr[k].ctl.running
  }

  /** What the history fields of a request that has not failed say about the run. */
  predicate Marked(sub: Sub) {
    sub.stale || (sub.pc.Waiting? && !sub.own)
  }

  predicate Alive(pc: Pc) {
    pc != Judged(false) && pc != Done(false)
  }

  /** The step keeps what the history fields of `id` say, or is the queueing that changes it. */
  ghost predicate MarkKept(s: Sys, e: Event, t: Sys, id: Id) {
    && (id in s.subs ==> id in t.subs && (Alive(t.subs[id].pc) ==> Alive(s.subs[id].pc)))
    && (id in s.subs && Alive(t.subs[id].pc) ==>
      (Marked(t.subs[id]) <==> Marked(s.subs[id]) || (e == Enqueue(id) && !s.ctl.request && s.ctl.running)))
    && (id !in s.subs && id in t.subs ==> !Marked(t.subs[id]))
    && (id !in s.subs ==> e != Enqueue(id))
  }

  lemma {:induction false} MarkQueueStep(s: Sys, e: Event, id: Id)
    requires Inv(s) && Enabled(s, e) && (e.Enqueue? || e.ServiceWork?)
    ensures Wellformed(s) && MarkKept(s, e, Step(s, e), id)
  {
    InvWellformed(s);
  }

  lemma {:induction false} MarkOtherStep(s: Sys, e: Event, id: Id)
    requires Inv(s) && Enabled(s, e) && !e.Enqueue? && !e.ServiceWork?
    ensures Wellformed(s) && MarkKept(s, e, Step(s, e), id)
  {
    InvWellformed(s);
  }

  lemma {:induction false} MarkedIff(tr: seq<Sys>, evs: seq<Event>, i: nat, id: Id)
    requires IsRun(tr, evs) && i < |tr|
    ensures id !in tr[i].subs ==> !QueuedOnRunning(tr, evs, i, id)
    ensures id in tr[i].subs && Alive(tr[i].subs[id].pc) ==> (Marked(tr[i].subs[id]) <==> QueuedOnRunning(tr, evs, i, id))
  {
    if i > 0 {
      RunInv(tr, evs, i - 1);
      MarkedIff(tr, evs, i - 1, id);
      assert Moves(tr[i - 1], evs[i - 1], tr[i]);
      if evs[i - 1].Enqueue? || evs[i - 1].ServiceWork? {
        MarkQueueStep(tr[i - 1], evs[i - 1], id);
      } else {
        MarkOtherStep(tr[i - 1], evs[i - 1], id);
      }
      var now := evs[i - 1] == Enqueue(id) && !tr[i - 1].ctl.request && tr[i - 1].ctl.running;
      assert QueuedOnRunning(tr, evs, i, id) <==> QueuedOnRunning(tr, evs, i - 1, id) || now;
    }
  }

  /** When success is real, in every run: the hardware retired every descriptor of a request that returns success if and
      only if none of its batches was queued on an engine already marked running. */
  lemma {:induction false} SuccessIsSoundIff(tr: seq<Sys>, evs: seq<Event>, i: nat, id: Id)
    requires IsRun(tr, evs) && i < |tr| && At(tr[i], id, Done(true))
    ensures tr[i].subs[id].finished == tr[i].subs[id].total <==> !QueuedOnRunning(tr, evs, i, id)
  {
    SuccessIffNotStale(tr, evs, i, id);
    MarkedIff(tr, evs, i, id);
  }

  // ---- Calm runs ----

  /** No timeout, no offline, and the service runs only when BUSY is clear. */
  ghost predicate Calm(s: Sys, e: Event)
  {
    match e
    case Judge(id) => id in s.ctl.xfers && s.ctl.xfers[id].state != Submitted
    case ServiceWork => !s.board.busy
    case OfflineFlag => false
    case OfflineEngine => false
    case _ => true
  }

  ghost predicate CalmRun(tr: seq<Sys>, evs: seq<Event>) {
    IsRun(tr, evs) && forall i :: 0 <= i < |evs| ==> Calm(tr[i], evs[i])
  }

  /** In a calm run the engine is marked running exactly while a transfer is queued, so no batch is ever
      queued on a running engine. */
  lemma {:induction false} CalmRunInv(tr: seq<Sys>, evs: seq<Event>, i: nat)
    requires CalmRun(tr, evs) && i < |tr|
    ensures Inv(tr[i]) && CalmState(tr[i])
  {
    RunInv(tr, evs, i);
    if i > 0 {
      CalmRunInv(tr, evs, i - 1);
      assert Moves(tr[i - 1], evs[i - 1], tr[i]);
      if evs[i - 1].Enqueue? || evs[i - 1].ServiceWork? {
        CalmQueueStep(tr[i - 1], evs[i - 1]);
      } else {
        CalmOtherStep(tr[i - 1], evs[i - 1]);
      }
    }
  }

  ghost predicate CalmState(s: Sys) {
    (s.ctl.running <==> s.ctl.queue != []) && s.ctl.regs.run == s.ctl.running && forall id <- s.subs :: !Marked(s.subs[id])
  }

  lemma {:induction false} CalmQueueStep(s: Sys, e: Event)
    requires Inv(s) && Enabled(s, e) && Calm(s, e) && CalmState(s) && (e.Enqueue? || e.ServiceWork?)
    ensures Wellformed(s) && CalmState(Step(s, e))
  {
    InvWellformed(s);
    if e.Enqueue? {
      if !s.ctl.request {
        EnqueueOutcome(s, e.id);
      }
    } else if s.ctl.running {
      var state := ServiceOutcome(s);
    }
  }

  lemma {:induction false} CalmOtherStep(s: Sys, e: Event)
    requires Inv(s) && Enabled(s, e) && Calm(s, e) && CalmState(s) && !e.Enqueue? && !e.ServiceWork?
    ensures Wellformed(s) && CalmState(Step(s, e))
  {
    InvWellformed(s);
  }

  /** Success is sound in calm runs: a non-negative result means every descriptor was retired. */
  lemma {:induction false} CalmSuccessIsSound(tr: seq<Sys>, evs: seq<Event>, i: nat, id: Id)
    requires CalmRun(tr, evs) && i < |tr| && At(tr[i], id, Done(true))
    ensures tr[i].subs[id].finished == tr[i].subs[id].total
  {
    CalmRunInv(tr, evs, i);
    SuccessIffNotStale(tr, evs, i, id);
  }

  // ---- No stranded work ----

  /** In a run that never takes the engine offline, after every step an engine that is not running has
      nothing queued, timeouts or not. */
  lemma {:induction false} NoStrandedWork(tr: seq<Sys>, evs: seq<Event>, i: nat)
    requires IsRun(tr, evs) && i < |tr| && forall k :: 0 <= k < i ==> evs[k] != OfflineEngine
    ensures Inv(tr[i]) && (!tr[i].ctl.running ==> tr[i].ctl.queue == [])
  {
    RunInv(tr, evs, i);
    if i > 0 {
      NoStrandedWork(tr, evs, i - 1);
      IdleStep(tr[i - 1], evs[i - 1]);
    }
  }

  lemma {:induction false} IdleStep(s: Sys, e: Event)
    requires Inv(s) && Enabled(s, e) && e != OfflineEngine && (!s.ctl.running ==> s.ctl.queue == [])
    ensures Wellformed(s)
    ensures var t := Step(s, e); !t.ctl.running ==> t.ctl.queue == []
  {
    InvWellformed(s);
    match e {
      case Enqueue(id) => if !s.ctl.request { EnqueueOutcome(s, id); }
      case ServiceWork => ServiceKeepsIdleEmpty(s.ctl, 0, Hw(s.board.busy, s.board.error, Wrap32(s.board.count)), s.status);
      case _ =>
    }
  }
}
