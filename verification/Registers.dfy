/** What every run keeps of the engine's registers: RUN is set only on an engine marked running, and the run the hardware is
    on is the one they were written for. */
module Registers {
  import opened Words
  import opened Descriptor
  import opened Compiler
  import opened Hardware
  import opened Service
  import opened Accounting
  import opened Protocol

  /** The hardware's run is that of the first transfer named in the registers, and first_desc_adjacent asks for as many
      descriptors as its batch has, up to 16 with the first. */
  ghost predicate Armed(s: Sys) {
    && (s.ctl.regs.run ==> s.ctl.running) && (s.ctl.request ==> !s.ctl.running)
    && (s.board.busy ==> s.board.on.Some?)
    && (s.board.on.Some? ==>
        s.ctl.regs.first == Some(s.board.on.value.0) && s.board.len >= 1 && 1 + s.ctl.regs.adjacent == Min(s.board.len, 16))
  }

  lemma {:induction false} EnqueueKeepsArmed(s: Sys, id: Id)
    requires Inv(s) && Armed(s) && Enabled(s, Enqueue(id))
    ensures Wellformed(s) && Armed(Step(s, Enqueue(id)))
  {
    QueueOfHolder(s, id);
    InvWellformed(s);
  }

  lemma {:induction false} ServiceKeepsArmed(s: Sys)
    requires Inv(s) && Armed(s)
    ensures Wellformed(s) && Armed(Step(s, ServiceWork))
  {
    InvWellformed(s);
    if s.ctl.running {
      var state := ServiceOutcome(s);
      QueuedNotCyclic(s);
      var hw := Hw(s.board.busy, s.board.error, Wrap32(s.board.count));
      ServiceRegisters(s.ctl, 0, hw, s.status, Outstanding(s));
    }
  }

  lemma {:induction false} OtherKeepsArmed(s: Sys, e: Event)
    requires Inv(s) && Armed(s) && Enabled(s, e) && !e.Enqueue? && !e.ServiceWork?
    ensures Wellformed(s) && Armed(Step(s, e))
  {
    InvWellformed(s);
  }

  lemma {:induction false} StepKeepsArmed(s: Sys, e: Event)
    requires Inv(s) && Armed(s) && Enabled(s, e)
    ensures Wellformed(s) && Armed(Step(s, e))
  {
    match e {
      case Enqueue(id) => EnqueueKeepsArmed(s, id);
      case ServiceWork => ServiceKeepsArmed(s);
      case _ => OtherKeepsArmed(s, e);
    }
  }

  /** In every run. */
  lemma {:induction false} RunArmed(tr: seq<Sys>, evs: seq<Event>, i: nat)
    requires IsRun(tr, evs) && i < |tr|
    ensures Inv(tr[i]) && Armed(tr[i])
  {
    RunInv(tr, evs, i);
    if i > 0 {
      RunArmed(tr, evs, i - 1);
      assert Moves(tr[i - 1], evs[i - 1], tr[i]);
      StepKeepsArmed(tr[i - 1], evs[i - 1]);
    }
  }

  /** In every run, the first fetch: the block of descriptors that the registers ask for at the start of the array lies
      inside the batch that was started and inside one page, and is as long as the batch allows, up to 16. */
  lemma {:induction false} FirstBlockFits(tr: seq<Sys>, evs: seq<Event>, i: nat, bus: u64)
    requires IsRun(tr, evs) && i < |tr| && PageAligned(bus) && tr[i].board.on.Some?
    ensures var regs, len := tr[i].ctl.regs, tr[i].board.len;
      && regs.first == Some(tr[i].board.on.value.0)
      && 1 + regs.adjacent == Min(len, 16) && BlockFits(bus, Block(0, 1 + regs.adjacent))
  {
    RunArmed(tr, evs, i);
    SamePage(bus, DESC_BYTES * (1 + tr[i].ctl.regs.adjacent));
  }

  /** In every run, RUN is never left set on an engine that is not marked running. */
  lemma {:induction false} RunBitOnlyWhileRunning(tr: seq<Sys>, evs: seq<Event>, i: nat)
    requires IsRun(tr, evs) && i < |tr|
    ensures tr[i].ctl.regs.run ==> tr[i].ctl.running
  {
    RunArmed(tr, evs, i);
  }

  // ---- Offline ----

  /** From state i to state j the engine stays offline. */
  predicate StaysOffline(evs: seq<Event>, i: nat, j: nat)
    requires i < j <= |evs|
  {
    evs[i] == OfflineEngine && forall k :: i < k < j ==> evs[k] != OnlineEngine
  }

  /** Not running, RUN clear, and since s nothing started and nothing more queued. */
  ghost predicate QuietSince(s: Sys, t: Sys) {
    t.ctl.request && !t.ctl.running && !t.ctl.regs.run && t.board.on == s.board.on && (s.ctl.queue == [] ==> t.ctl.queue == [])
  }

  lemma {:induction false} OfflineStep(s: Sys, e: Event)
    requires Inv(s) && Armed(s) && Enabled(s, e) && e != OnlineEngine && (s.ctl.request || e == OfflineEngine)
    ensures Wellformed(s) && QuietSince(s, Step(s, e))
  {
    InvWellformed(s);
  }

  /** In every run, after an engine was taken offline and until it is online again: it is not running, RUN is clear, nothing
      is started on it, and nothing more is queued. */
  lemma {:induction false} OfflineIsQuiet(tr: seq<Sys>, evs: seq<Event>, i: nat, j: nat)
    requires IsRun(tr, evs) && i < j <= |evs| && StaysOffline(evs, i, j)
    ensures QuietSince(tr[i], tr[j])
  {
    RunArmed(tr, evs, j - 1);
    assert Moves(tr[j - 1], evs[j - 1], tr[j]);
    if j > i + 1 {
      OfflineIsQuiet(tr, evs, i, j - 1);
    }
    OfflineStep(tr[j - 1], evs[j - 1]);
  }

  /** Taken offline and online again, an engine starts afresh: whatever it was marked before, the next batch is accepted and
      is started by its own queueing. */
  lemma {:induction false} OnlineStartsAfresh(s: Sys, id: Id)
    requires Inv(s) && At(s, id, Cleared)
    ensures Wellformed(s) && Wellformed(Step(s, OfflineEngine))
    ensures var t := Step(Step(s, OfflineEngine), OnlineEngine);
      && Wellformed(t) && Enabled(t, Enqueue(id))
      && var u := Step(t, Enqueue(id));
        At(u, id, Waiting) && u.subs[id].own && u.ctl.running && u.ctl.queue == [id] && u.board.on == Some((id, u.subs[id].epoch))
  {
    StepKeepsInv(s, OfflineEngine);
    var o := Step(s, OfflineEngine);
    StepKeepsInv(o, OnlineEngine);
    var t := Step(o, OnlineEngine);
    InvWellformed(t);
    EnqueueOutcome(t, id);
  }
}
