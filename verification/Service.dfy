/** The engine's transfer queue: starting, queueing, aborting, and the service routine. */
module Service {
  import opened Words
  import opened Hardware

  const WB_COUNT: nat := 0x100_0000

  type Id = nat

  datatype State = New | Submitted | Completed | Failed | Aborted

  datatype Xfer = Xfer(state: State, descNum: nat, cyclic: bool)

  /** What the driver last wrote to the engine: RUN, and the transfer and prefetch count it was started on. */
  datatype Regs = Regs(run: bool, first: Option<Id>, adjacent: nat)

  /** A read of the hardware: BUSY, any error bit of the engine's direction, completed_desc_count. */
  datatype Hw = Hw(busy: bool, error: bool, count: u32)

  /** The fields of xdma_engine kept under engine->lock. */
  datatype Ctl = Ctl(
    running: bool, request: bool, idle: bool, descDequeued: nat,
    queue: seq<Id>, xfers: map<Id, Xfer>, regs: Regs)
  {
    /** Queued transfers are known, listed once, and not empty. */
    ghost predicate Valid() {
      && (forall i :: 0 <= i < |queue| ==> queue[i] in xfers && xfers[queue[i]].descNum > 0)
      && (forall i, j :: 0 <= i < j < |queue| ==> queue[i] != queue[j])
    }
  }

  // ---- The locked regions as functions of the engine's state ----

  function Mark(xfers: map<Id, Xfer>, id: Id, state: State): map<Id, Xfer>
    requires id in xfers
  {
    xfers[id := xfers[id].(state := state)]
  }

  /** engine_start; the two BUG_ONs are its precondition. */
  function Started(c: Ctl): Ctl
    requires c.Valid() && !c.running && c.queue != []
  {
    c.(running := true, request := false, idle := false, descDequeued := 0,
       regs := Regs(true, Some(c.queue[0]), FirstAdjacent(c.xfers[c.queue[0]].descNum)))
  }

  /** The registers start the head of the queue: its first descriptor, and in the same fetch as many of the next ones as it
      has, up to 15. */
  predicate StartsHead(c: Ctl) {
    && c.regs.run && c.queue != [] && c.regs.first == Some(c.queue[0]) && c.queue[0] in c.xfers
    && 1 + c.regs.adjacent == Min(c.xfers[c.queue[0]].descNum, 16)
  }

  /** The locked region of transfer_queue. */
  function Queued(c: Ctl, id: Id): Ctl
    requires c.Valid() && id in c.xfers && id !in c.queue && c.xfers[id].descNum > 0
  {
    if c.request then c
    else
      var d := c.(queue := c.queue + [id], xfers := Mark(c.xfers, id, Submitted));
      if d.running then d else Started(d)
  }

  /** transfer_abort followed by xdma_engine_stop: the timeout arm of xdma_xfer_submit. */
  function TimedOut(c: Ctl, id: Id): Ctl
    requires c.Valid() && id in c.xfers && c.xfers[id].descNum > 0
  {
    c.(queue := if c.queue != [] && c.queue[0] == id then c.queue[1..] else c.queue,
       xfers := if c.xfers[id].state == Submitted then Mark(c.xfers, id, Aborted) else c.xfers,
       regs := c.regs.(run := false))
  }

  function Pop(c: Ctl, state: State): Ctl
    requires c.Valid() && c.queue != []
  {
    var head := c.queue[0];
    c.(queue := c.queue[1..], xfers := Mark(c.xfers, head, state), descDequeued := c.descDequeued + c.xfers[head].descNum)
  }

  /** engine_service_transfer_list: every transfer but the last one the count reaches. */
  function AllButLast(c: Ctl, count: nat): (r: (Ctl, nat))
    requires c.Valid()
    ensures r.0.Valid() && r.0 == c.(queue := r.0.queue, xfers := r.0.xfers, descDequeued := r.0.descDequeued)
    decreases |c.queue|
  {
    if c.queue == [] || c.xfers[c.queue[0]].cyclic || count <= c.xfers[c.queue[0]].descNum then (c, count)
    else AllButLast(Pop(c, Completed), count - c.xfers[c.queue[0]].descNum)
  }

  /** engine_service_final_transfer. */
  function Last(c: Ctl, count: nat, error: bool): (r: Ctl)
    requires c.Valid()
    ensures r.Valid() && r.running == c.running
  {
    if c.queue == [] then c
    else if error then Pop(c.(regs := c.regs.(run := false)), Failed)
    else Pop(c, if count < c.xfers[c.queue[0]].descNum then Failed else Completed)
  }

  /** engine_service_resume. */
  function Resumed(c: Ctl): Ctl
    requires c.Valid()
  {
    if c.running then c
    else if c.queue != [] then Started(c)
    else if c.request then c.(idle := true)
    else c
  }

  function Shutdown(c: Ctl): Ctl {
    c.(running := false, regs := c.regs.(run := false))
  }

  /** xdma_device_offline and xdma_device_online, for one engine. */
  function Offlined(c: Ctl): Ctl {
    c.(request := true, running := false, regs := c.regs.(run := false))
  }

  function Onlined(c: Ctl): Ctl {
    c.(request := false)
  }

  /** The first half of engine_service: the status it goes by, whether it shuts the engine down, and the count
      of descriptors not yet accounted for. */
  function Observed(c: Ctl, wb: u32, hw: Hw, stale: Hw): (r: (Ctl, Hw, u32))
    requires c.Valid()
    ensures r.0.Valid()
  {
    var wbCount, wbErr := wb % WB_COUNT, wb / 0x8000_0000 == 1;
    var status := if wbCount == 0 || wbErr then hw else stale;
    (if !status.busy || wbCount != 0 then Shutdown(c) else c, status,
     Wrap32((if wbCount == 0 then hw.count else wbCount) - c.descDequeued))
  }

  /** The count a service goes by: the write-back word's if it has one, else the hardware's. */
  function CountRead(wb: u32, hw: Hw): u32 {
    if wb % 0x100_0000 == 0 then hw.count else wb % 0x100_0000
  }

  /** The status it goes by: read afresh without a write-back count or with its error flag, else the one kept. */
  function StatusRead(wb: u32, hw: Hw, stale: Hw): Hw {
    if wb % 0x100_0000 == 0 || wb >= 0x8000_0000 then hw else stale
  }

  /** It shuts the engine down if BUSY is clear or a write-back count came. */
  predicate ShutsDown(wb: u32, hw: Hw, stale: Hw) {
    wb % 0x100_0000 != 0 || !StatusRead(wb, hw, stale).busy
  }

  /** engine_service with a write-back word; `stale` is the status kept from the last read of it. */
  function Serviced(c: Ctl, wb: u32, hw: Hw, stale: Hw): Ctl
    requires c.Valid()
  {
    if !c.running then c
    else
      var (d, status, count) := Observed(c, wb, hw, stale);
      var (e, rest) := AllButLast(d, count);
      Resumed(Last(e, rest, status.error))
  }

  // ---- The engine ----

  class Engine {
    var running: bool
    var request: bool
    var idle: bool
    var descDequeued: nat
    var transferList: seq<Id>
    var xfers: map<Id, Xfer>
    var regs: Regs
    var status: Hw

    constructor ()
      ensures View() == Ctl(false, false, false, 0, [], map[], Regs(false, None, 0)) && View().Valid()
    {
      running, request, idle, descDequeued := false, false, false, 0;
      transferList, xfers, regs, status := [], map[], Regs(false, None, 0), Hw(false, false, 0);
    }

    function View(): Ctl
      reads this
    {
      Ctl(running, request, idle, descDequeued, transferList, xfers, regs)
    }

    /** engine_start. */
    method Start(hw: Hw) returns (id: Id)
      requires View().Valid() && !running && transferList != []
      modifies this
      ensures View() == Started(old(View())) && id == transferList[0] && status == hw
      ensures StartsHead(View())
    {
      id := transferList[0];
      request, idle := false, false;
      descDequeued := 0;
      var extraAdj := 0;
      if xfers[id].descNum > 0 {
        extraAdj := Min(xfers[id].descNum - 1, 15);
      }
      regs := Regs(true, Some(id), extraAdj);
      status := hw;
      running := true;
    }

    /** The locked region of transfer_queue. */
    method Queue(id: Id, hw: Hw) returns (ok: bool)
      requires View().Valid() && id in xfers && id !in transferList && xfers[id].descNum > 0
      modifies this
      ensures View() == Queued(old(View()), id) && View().Valid() && ok == !old(request)
      ensures status == if old(request) || old(running) then old(status) else hw
    {
      if request {
        return false;
      }
      xfers := xfers[id := xfers[id].(state := Submitted)];
      transferList := transferList + [id];
      if !running {
        var started := Start(hw);
      }
      return true;
    }

    /** The timeout arm of xdma_xfer_submit: transfer_abort and xdma_engine_stop. */
    method Abort(id: Id, hw: Hw)
      requires View().Valid() && id in xfers && xfers[id].descNum > 0
      modifies this
      ensures View() == TimedOut(old(View()), id) && status == hw
    {
      status := hw;
      if transferList != [] && transferList[0] == id {
        transferList := transferList[1..];
      }
      if xfers[id].state == Submitted {
        xfers := xfers[id := xfers[id].(state := Aborted)];
      }
      regs := regs.(run := false);
    }

    method Offline()
      modifies this
      ensures View() == Offlined(old(View())) && status == old(status)
    {
      request := true;
      regs := regs.(run := false);
      running := false;
    }

    method Online()
      modifies this
      ensures View() == Onlined(old(View())) && status == old(status)
    {
      request := false;
    }

    /** The head leaves the queue, judged. */
    method Dequeue(state: State)
      requires View().Valid() && transferList != []
      modifies this`transferList, this`descDequeued, this`xfers
      ensures View() == Pop(old(View()), state)
    {
      var id := transferList[0];
      transferList := transferList[1..];
      descDequeued := descDequeued + xfers[id].descNum;
      xfers := xfers[id := xfers[id].(state := state)];
    }

    method ServiceTransferList(count: nat) returns (rest: nat)
      requires View().Valid()
      modifies this
      ensures (View(), rest) == AllButLast(old(View()), count) && status == old(status)
    {
      rest := count;
      while transferList != [] && !xfers[transferList[0]].cyclic && rest > xfers[transferList[0]].descNum
        invariant View().Valid() && status == old(status)
        invariant AllButLast(View(), rest) == AllButLast(old(View()), count)
        decreases |transferList|
      {
        rest := rest - xfers[transferList[0]].descNum;
        Dequeue(Completed);
      }
    }

    method ServiceFinalTransfer(count: nat)
      requires View().Valid()
      modifies this
      ensures View() == Last(old(View()), count, old(status).error) && status == old(status)
    {
      if transferList == [] {
        return;
      }
      if status.error {
        regs := regs.(run := false);
        Dequeue(Failed);
      } else if count < xfers[transferList[0]].descNum {
        Dequeue(Failed);
      } else {
        Dequeue(Completed);
      }
    }

    method ServiceResume(hw: Hw)
      requires View().Valid()
      modifies this
      ensures View() == Resumed(old(View())) && status == if !old(running) && running then hw else old(status)
    {
      if !running {
        if transferList != [] {
          var started := Start(hw);
        } else if request {
          idle := true;
        }
      }
    }

    method Observe(descWriteback: u32, hw: Hw) returns (descCount: nat)
      requires View().Valid()
      modifies this
      ensures (View(), status, descCount) == Observed(old(View()), descWriteback, hw, old(status))
      ensures status == StatusRead(descWriteback, hw, old(status))
      ensures descCount == Wrap32(CountRead(descWriteback, hw) - descDequeued)
      ensures if ShutsDown(descWriteback, hw, old(status)) then !running && !regs.run
        else running == old(running) && regs == old(regs)
    {
      var errFlag := descWriteback / 0x8000_0000 == 1;
      descCount := descWriteback % WB_COUNT;
      if descCount == 0 || errFlag {
        status := hw;
      }
      if !status.busy || descCount != 0 {
        regs := regs.(run := false);
        running := false;
      }
      if descCount == 0 {
        descCount := hw.count;
      }
      descCount := Wrap32(descCount - descDequeued);
    }

    /** engine_service: `hw` is what the registers read during the call. */
    method EngineService(descWriteback: u32, hw: Hw)
      requires View().Valid()
      modifies this
      ensures View() == Serviced(old(View()), descWriteback, hw, old(status))
      ensures old(running) && ShutsDown(descWriteback, hw, old(status)) ==> (regs.run <==> running)
      ensures var status' := StatusRead(descWriteback, hw, old(status));
        status == if !old(running) || (ShutsDown(descWriteback, hw, old(status)) && running) then hw else status'
    {
      if !running {
        status := hw;
        return;
      }
      var descCount := Observe(descWriteback, hw);
      descCount := ServiceTransferList(descCount);
      ServiceFinalTransfer(descCount);
      ServiceResume(hw);
    }
  }
}
