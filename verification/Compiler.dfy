/** transfer_init and its helpers: filling the engine's descriptor array for one batch. */
module Compiler {
  import opened Words
  import opened Descriptor
  import opened Segments

  const XDMA_TRANSFER_MAX_DESC: nat := 2048
  const LAST_FLAGS: bv8 := STOPPED | EOP | COMPLETED

  datatype Dir = ToDevice | FromDevice

  /** xdma_engine, as far as the data path uses it. */
  class Engine {
    const dir: Dir
    const desc: array<Desc>
    const descBus: u64
    var nonIncrAddr: bool
    var descLock: bool

    constructor (dir: Dir, descBus: u64)
      requires PageAligned(descBus)
      ensures Valid() && fresh(desc) && !nonIncrAddr && !descLock
      ensures this.dir == dir && this.descBus == descBus
    {
      this.dir, this.descBus := dir, descBus;
      desc := new Desc[XDMA_TRANSFER_MAX_DESC](_ => ZERO_DESC);
      nonIncrAddr, descLock := false, false;
    }

    predicate Valid()
      reads this
    {
      desc.Length == XDMA_TRANSFER_MAX_DESC && PageAligned(descBus)
    }
  }

  /** A coherent allocation of 2048 descriptors: page aligned and inside the bus. */
  predicate PageAligned(bus: u64) {
    bus % PAGE_SIZE == 0 && bus + XDMA_TRANSFER_MAX_DESC * DESC_BYTES <= U64
  }

  /** xdma_request_cb with its embedded xdma_transfer. */
  class RequestCb {
    const sdesc: seq<Seg>
    var swDescIdx: nat
    var epAddr: u64
    var xferLen: u32
    var descNum: nat
    var needUnmap: bool
    var lastInRequest: bool

    constructor (sdesc: seq<Seg>, epAddr: u64)
      ensures this.sdesc == sdesc && this.epAddr == epAddr && swDescIdx == 0
    {
      this.sdesc, this.epAddr := sdesc, epAddr;
      swDescIdx, xferLen, descNum, needUnmap, lastInRequest := 0, 0, 0, false, false;
    }
  }

  // ---- What a batch compiles to ----

  /** The end-point address after the first i pieces, counted in 64 bits. */
  function EpAt(p: seq<Seg>, ep: u64, nonIncr: bool, i: nat): u64
    requires i <= |p|
  {
    if nonIncr || i == 0 then ep else Add64(EpAt(p, ep, nonIncr, i - 1), p[i - 1].len)
  }

  function NextBus(bus: u64, n: nat, i: nat): u64
    requires PageAligned(bus) && i < n <= XDMA_TRANSFER_MAX_DESC
  {
    if i < n - 1 then bus + DESC_BYTES * (i + 1) else 0
  }

  /** xdma_desc_set: the payload fields. */
  function Filled(d: Desc, rc: u64, ep: u64, len: u32, dir: Dir): Desc {
    if dir == ToDevice then
      d.(bytes := len, srcLo := Lo(rc), srcHi := Hi(rc), dstLo := Lo(ep), dstHi := Hi(ep))
    else
      d.(bytes := len, srcLo := Lo(ep), srcHi := Hi(ep), dstLo := Lo(rc), dstHi := Hi(rc))
  }

  /** Descriptor i of the chain for the pieces `p`. */
  function Compiled(p: seq<Seg>, ep: u64, nonIncr: bool, dir: Dir, bus: u64, i: nat): Desc
    requires PageAligned(bus) && i < |p| <= XDMA_TRANSFER_MAX_DESC
  {
    var next := NextBus(bus, |p|, i);
    var shape := Desc(
      ControlWord(AdjClamp(Lo(next), |p| - i - 1), if i < |p| - 1 then 0 else LAST_FLAGS),
      0, 0, 0, 0, 0, Lo(next), Hi(next));
    Filled(shape, p[i].addr, EpAt(p, ep, nonIncr, i), p[i].len, dir)
  }

  /** The end of a descriptor on the device's side. */
  function DevEnd(d: Desc, dir: Dir): u64 {
    if dir == ToDevice then d.Dst() else d.Src()
  }

  /** The control word of descriptor i as the hardware finds it: the magic, the clamped adjacent count, and STOPPED,
      COMPLETED and EOP on the last descriptor only. */
  lemma {:induction false} CompiledControl(p: seq<Seg>, ep: u64, nonIncr: bool, dir: Dir, bus: u64, i: nat)
    requires PageAligned(bus) && i < |p| <= XDMA_TRANSFER_MAX_DESC
    ensures var c := Compiled(p, ep, nonIncr, dir, bus, i).control;
      Encode(c) == 0xAD4B_0000 | ((c.extraAdj as bv32) << 8) | (if i < |p| - 1 then 0 else 0x13)
  {
  }

  /** In non-incremental mode the device side never moves. */
  lemma {:induction false} CompiledStays(p: seq<Seg>, ep: u64, dir: Dir, bus: u64)
    requires PageAligned(bus) && |p| <= XDMA_TRANSFER_MAX_DESC
    ensures EpAt(p, ep, true, |p|) == ep
    ensures forall i :: 0 <= i < |p| ==> DevEnd(Compiled(p, ep, true, dir, bus, i), dir) == ep
  {
    SplitJoin(ep);
  }

  function Batch(sdesc: seq<Seg>, idx: nat): seq<Seg>
    requires idx <= |sdesc|
  {
    sdesc[idx..idx + Min(|sdesc| - idx, XDMA_TRANSFER_MAX_DESC)]
  }

  // ---- The driver's loops ----

  /** transfer_desc_init: chain `count` descriptors of the array. */
  method TransferDescInit(desc: array<Desc>, descBus: u64, count: nat)
    requires desc.Length == XDMA_TRANSFER_MAX_DESC && PageAligned(descBus)
    requires 1 <= count <= XDMA_TRANSFER_MAX_DESC
    modifies desc
    ensures forall i :: 0 <= i < count ==>
      && desc[i].nextLo == Lo(NextBus(descBus, count, i))
      && desc[i].nextHi == Hi(NextBus(descBus, count, i))
      && desc[i].control == ControlWord(if i < count - 1 then Min(count - 2 - i, MAX_EXTRA_ADJ) else 0, 0)
  {
    var bus, adj := descBus, count - 1;
    var i := 0;
    while i < count - 1
      invariant 0 <= i <= count - 1 && adj == count - 1 - i
      invariant bus == descBus + DESC_BYTES * i
      invariant forall k :: 0 <= k < i ==>
        && desc[k].nextLo == Lo(NextBus(descBus, count, k))
        && desc[k].nextHi == Hi(NextBus(descBus, count, k))
        && desc[k].control == ControlWord(Min(count - 2 - k, MAX_EXTRA_ADJ), 0)
    {
      bus := bus + DESC_BYTES;
      var extra := 0;
      if adj > 0 {
        extra := adj - 1;
        if extra > MAX_EXTRA_ADJ {
          extra := MAX_EXTRA_ADJ;
        }
        adj := adj - 1;
      }
      desc[i] := desc[i].(nextLo := Lo(bus), nextHi := Hi(bus), bytes := 0,
                          control := ControlWord(extra, 0));
      i := i + 1;
    }
    desc[i] := desc[i].(nextLo := 0, nextHi := 0, bytes := 0, control := ControlWord(0, 0));
  }

  function Built(was: seq<Desc>, p: seq<Seg>, ep: u64, nonIncr: bool, dir: Dir, i: nat): Desc
    requires i < |p| <= |was|
  {
    Filled(was[i], p[i].addr, EpAt(p, ep, nonIncr, i), p[i].len, dir)
  }

  /** transfer_build: fill `count` descriptors from the request's next pieces `p`. */
  method TransferBuild(engine: Engine, req: RequestCb, count: nat, ghost p: seq<Seg>)
    requires engine.Valid() && req.swDescIdx + count <= |req.sdesc| && count <= XDMA_TRANSFER_MAX_DESC
    requires p == req.sdesc[req.swDescIdx..req.swDescIdx + count] && req.xferLen == 0
    modifies engine.desc, req`swDescIdx, req`epAddr, req`xferLen
    ensures req.swDescIdx == old(req.swDescIdx) + count
    ensures req.epAddr == EpAt(p, old(req.epAddr), engine.nonIncrAddr, count)
    ensures req.xferLen == Total32(p, count)
    ensures forall i :: 0 <= i < count ==>
      engine.desc[i] == Built(old(engine.desc[..]), p, old(req.epAddr), engine.nonIncrAddr, engine.dir, i)
    ensures engine.nonIncrAddr ==>
      req.epAddr == old(req.epAddr) && forall i :: 0 <= i < count ==> DevEnd(engine.desc[i], engine.dir) == old(req.epAddr)
  {
    var first, desc := req.swDescIdx, engine.desc;
    ghost var was, ep, nonIncr := desc[..], req.epAddr, engine.nonIncrAddr;
    for i := 0 to count
      invariant req.swDescIdx == first
      invariant req.epAddr == EpAt(p, ep, nonIncr, i) && req.xferLen == Total32(p, i)
      invariant forall k :: i <= k < count ==> desc[k] == was[k]
      invariant forall k :: 0 <= k < i ==> desc[k] == Built(was, p, ep, nonIncr, engine.dir, k)
    {
      var s := req.sdesc[first + i];
      assert s == p[i];
      desc[i] := Filled(desc[i], s.addr, req.epAddr, s.len, engine.dir);
      req.xferLen := Add32(req.xferLen, s.len);
      if !engine.nonIncrAddr {
        req.epAddr := Add64(req.epAddr, s.len);
      }
    }
    req.swDescIdx := req.swDescIdx + count;
    SplitJoin(ep);
  }

  /** The shape a chained, filled and terminated descriptor has before the adjacency pass. */
  predicate Chained(d: Desc, bus: u64, n: nat, i: nat)
    requires PageAligned(bus) && i < n <= XDMA_TRANSFER_MAX_DESC
  {
    && d.nextLo == Lo(NextBus(bus, n, i)) && d.nextHi == Hi(NextBus(bus, n, i))
    && d.control.(extraAdj := 0) == ControlWord(0, if i < n - 1 then 0 else LAST_FLAGS)
  }

  lemma {:induction false} AdjustedIsCompiled(d: Desc, p: seq<Seg>, ep: u64, nonIncr: bool, dir: Dir, bus: u64, i: nat)
    requires PageAligned(bus) && i < |p| <= XDMA_TRANSFER_MAX_DESC && Chained(d, bus, |p|, i)
    requires d == Filled(d, p[i].addr, EpAt(p, ep, nonIncr, i), p[i].len, dir)
    ensures Adjusted(d, |p| - i - 1) == Compiled(p, ep, nonIncr, dir, bus, i)
  {
  }

  /** The adjacency loop of transfer_init. */
  method SetAdjacents(desc: array<Desc>, n: nat)
    requires n <= desc.Length
    modifies desc
    ensures forall k :: 0 <= k < n ==> desc[k] == Adjusted(old(desc[k]), n - k - 1)
  {
    for i := 0 to n
      invariant forall k :: i <= k < n ==> desc[k] == old(desc[k])
      invariant forall k :: 0 <= k < i ==> desc[k] == Adjusted(old(desc[k]), n - k - 1)
    {
      desc[i] := Adjusted(desc[i], n - i - 1);
    }
  }

  /** transfer_init: compile the request's next batch into the engine's array. */
  method TransferInit(engine: Engine, req: RequestCb)
    requires engine.Valid() && req.swDescIdx < |req.sdesc|
    modifies engine.desc, req
    ensures var p := Batch(req.sdesc, old(req.swDescIdx));
      && req.swDescIdx == old(req.swDescIdx) + |p|
      && req.descNum == |p|
      && req.epAddr == EpAt(p, old(req.epAddr), engine.nonIncrAddr, |p|)
      && req.xferLen == Total32(p, |p|)
      && forall i :: 0 <= i < |p| ==>
        engine.desc[i] == Compiled(p, old(req.epAddr), engine.nonIncrAddr, engine.dir, engine.descBus, i)
    ensures !req.needUnmap && !req.lastInRequest
    ensures engine.nonIncrAddr ==> req.epAddr == old(req.epAddr)
    ensures engine.nonIncrAddr ==>
      forall i :: 0 <= i < req.descNum ==> DevEnd(engine.desc[i], engine.dir) == old(req.epAddr)
  {
    var descMax := Min(|req.sdesc| - req.swDescIdx, XDMA_TRANSFER_MAX_DESC);
    ghost var p := Batch(req.sdesc, req.swDescIdx);
    ghost var ep0 := req.epAddr;
    // memset of the embedded transfer
    req.xferLen, req.descNum, req.needUnmap, req.lastInRequest := 0, 0, false, false;
    var desc := engine.desc;
    TransferDescInit(desc, engine.descBus, descMax);
    TransferBuild(engine, req, descMax, p);
    var last := descMax - 1;
    desc[last] := Linked(desc[last], false, 0);
    desc[last] := Flagged(desc[last], LAST_FLAGS);
    req.descNum := descMax;
    forall i | 0 <= i < descMax
      ensures Adjusted(desc[i], descMax - i - 1) == Compiled(p, ep0, engine.nonIncrAddr, engine.dir, engine.descBus, i)
    {
      AdjustedIsCompiled(desc[i], p, ep0, engine.nonIncrAddr, engine.dir, engine.descBus, i);
    }
    SetAdjacents(desc, descMax);
    CompiledStays(p, ep0, engine.dir, engine.descBus);
  }
}
