/** xdma_xfer_submit: the batches of one request through the engine, from the table to the return value. */
module Submit {
  import opened Words
  import opened Descriptor
  import opened Segments
  import opened Compiler
  import opened Hardware
  import opened Memcpy
  import opened UserBuffer

  /** How a queued batch ends for its waiter, and how many of its descriptors the hardware executed, or for COMPLETED
      how many it did not. Refused: transfer_queue returned -EBUSY. */
  datatype Outcome = Refused | Completed(missing: nat) | Failed(retired: nat) | TimedOut(retired: nat)

  /** Everything the submit path does not decide itself. `troubles` gives the outcome of the batch that starts at a
      piece; batches it does not list complete, with nothing missing. */
  datatype Env = Env(offline: bool, mapOk: bool, allocOk: bool, troubles: map<nat, Outcome>) {
    function Of(idx: nat): Outcome {
      if idx in troubles then troubles[idx] else Completed(0)
    }

    /** A batch is marked COMPLETED only if the hardware executed all of it. The queue does not promise this by itself:
        Delivery.OwnIsHonest says when it holds. */
    predicate Honest() {
      forall idx <- troubles :: troubles[idx].Completed? ==> troubles[idx].missing == 0
    }
  }

  /** Of n descriptors, those the hardware executed. */
  function Executed(outcome: Outcome, n: nat): (r: nat)
    ensures r <= n
  {
    match outcome
    case Refused => 0
    case Completed(k) => if k <= n then n - k else 0
    case Failed(k) => Min(k, n)
    case TimedOut(k) => Min(k, n)
  }

  /** The host and the device a transfer runs between. */
  class Machine {
    var io: Io

    constructor (io: Io)
      ensures this.io == io
    {
      this.io := io;
    }

    /** engine_start on the first n descriptors of the array, with `adj` as first_desc_adjacent; the hardware fetches
        blocks from `bus` on and executes the first `limit` descriptors in the order fetched. */
    method Run(ring: seq<Desc>, bus: u64, n: nat, adj: nat, limit: nat, nonIncr: bool, dir: Dir)
      requires PageAligned(bus) && 1 <= n <= |ring| == XDMA_TRANSFER_MAX_DESC && IsChain(ring, bus, n)
      requires adj < n && adj <= 15
      modifies this
      ensures io == ExecAll(ring, Range(0, Min(limit, n)), nonIncr, dir, old(io))
    {
      PrefetchRefinesWalk(ring, bus, n, adj, XDMA_TRANSFER_MAX_DESC);
      var blocks := Fetch(ring, bus, bus, adj, XDMA_TRANSFER_MAX_DESC);
      var order := Order(blocks.value)[..Min(limit, n)];
      assert order == Range(0, Min(limit, n));
      io := ExecAll(ring, order, nonIncr, dir, io);
    }
  }

  /** sg_table: the bus segments its entries map to, its mapped count, and the map and unmap calls made. */
  class SgTable {
    const segs: seq<Seg>
    var nents: nat
    var maps: nat
    var unmaps: nat

    constructor (segs: seq<Seg>, nents: nat)
      ensures this.segs == segs && this.nents == nents && maps == unmaps == 0
    {
      this.segs, this.nents, maps, unmaps := segs, nents, 0, 0;
    }

    method Unmap()
      modifies this`nents, this`unmaps
      ensures nents == 0 && unmaps == old(unmaps) + 1
    {
      unmaps := unmaps + 1;
      nents := 0;
    }
  }

  /** transfer_destroy: clear the descriptors; after the last batch drop the mapping. */
  method TransferDestroy(engine: Engine, req: RequestCb, sgt: SgTable)
    requires engine.Valid() && engine.descLock
    modifies engine.desc, sgt`nents, sgt`unmaps
    ensures forall i :: 0 <= i < engine.desc.Length ==> engine.desc[i] == ZERO_DESC
    ensures if req.lastInRequest && req.needUnmap && old(sgt.nents) > 0
      then sgt.nents == 0 && sgt.unmaps == old(sgt.unmaps) + 1
      else sgt.nents == old(sgt.nents) && sgt.unmaps == old(sgt.unmaps)
  {
    for i := 0 to engine.desc.Length
      invariant forall k :: 0 <= k < i ==> engine.desc[k] == ZERO_DESC
      modifies engine.desc
    {
      engine.desc[i] := ZERO_DESC;
    }
    if req.lastInRequest && req.needUnmap {
      if sgt.nents > 0 {
        sgt.Unmap();
      }
    }
  }

  lemma {:induction false} EpCompose(sd: seq<Seg>, p: seq<Seg>, ep: u64, nonIncr: bool, k: nat, i: nat)
    requires k + |p| <= |sd| && p == sd[k..k + |p|] && i <= |p|
    ensures EpAt(p, EpAt(sd, ep, nonIncr, k), nonIncr, i) == EpAt(sd, ep, nonIncr, k + i)
  {
    if i > 0 && !nonIncr {
      EpCompose(sd, p, ep, nonIncr, k, i - 1);
    }
  }

  /** A slice of the pieces: its bytes follow those of the pieces before it. */
  lemma {:induction false} SliceBytes(sd: seq<Seg>, k: nat, n: nat)
    requires k + n <= |sd|
    ensures Bytes(sd[..k + n]) == Bytes(sd[..k]) + Bytes(sd[k..k + n])
    ensures Total(sd[..k + n]) == Total(sd[..k]) + Total(sd[k..k + n]) <= Total(sd)
    ensures Bytes(sd[..k + n]) == Bytes(sd)[..Total(sd[..k + n])]
  {
    BytesAppend(sd[..k], sd[k..k + n]);
    assert sd[..k] + sd[k..k + n] == sd[..k + n];
    BytesPrefix(sd, k + n);
  }

  lemma {:induction false} SliceDistinct(sd: seq<Seg>, k: nat, n: nat)
    requires k + n <= |sd| && Distinct(Bytes(sd))
    ensures Distinct(Bytes(sd[..k + n])) && Distinct(Bytes(sd[k..k + n]))
  {
    SliceBytes(sd, k, n);
    var a, b := Bytes(sd[..k]), Bytes(sd[k..k + n]);
    forall i, j | 0 <= i < j < |b|
      ensures b[i] != b[j]
    {
      assert b[i] == (a + b)[|a| + i] && b[j] == (a + b)[|a| + j];
    }
  }

  lemma {:induction false} EpRoom(sd: seq<Seg>, ep: u64, nonIncr: bool, k: nat, n: nat)
    requires k + n <= |sd| && ep + Total(sd) < U64
    ensures EpAt(sd, ep, nonIncr, k) + Total(sd[k..k + n]) < U64
  {
    SliceBytes(sd, k, n);
    EpExact(sd, ep, k);
    EpStays(sd, ep, k);
  }

  lemma {:induction false} BatchTotal(sd: seq<Seg>, k: nat, n: nat)
    requires k + n <= |sd| && Total(sd) < U32
    ensures var p := sd[k..k + n]; Total(sd[..k + n]) == Total(sd[..k]) + Total32(p, |p|)
  {
    SliceBytes(sd, k, n);
    WholeTotal32(sd[k..k + n]);
  }

  /** What a batch needs of the request's remaining pieces, and where it leaves the running address. */
  lemma {:induction false} BeforeBatch(sd: seq<Seg>, k: nat, p: seq<Seg>, ep: u64, nonIncr: bool, dir: Dir)
    requires k < |sd| && p == Batch(sd, k) && Fits(sd, ep, dir)
    ensures |p| >= 1 && k + |p| <= |sd| && p == sd[k..k + |p|]
    ensures EpAt(sd, ep, nonIncr, k) + Total(p) < U64
    ensures EpAt(p, EpAt(sd, ep, nonIncr, k), nonIncr, |p|) == EpAt(sd, ep, nonIncr, k + |p|)
    ensures dir == FromDevice ==> Distinct(Bytes(p))
    ensures Total(sd[..k + |p|]) == Total(sd[..k]) + Total32(p, |p|)
  {
    EpRoom(sd, ep, nonIncr, k, |p|);
    EpCompose(sd, p, ep, nonIncr, k, |p|);
    BatchTotal(sd, k, |p|);
    if dir == FromDevice {
      SliceDistinct(sd, k, |p|);
    }
  }

  lemma {:induction false} WholeTotal32(p: seq<Seg>)
    requires Total(p) < U32
    ensures Total32(p, |p|) == Total(p)
  {
    assert p[..|p|] == p;
    Total32Exact(p, |p|);
  }

  /** The next batch extends what has been moved so far. */
  lemma {:induction false} BatchExtends(nonIncr: bool, dir: Dir, sd: seq<Seg>, k: nat, p: seq<Seg>, r: nat, ep: u64,
                                        io0: Io, io1: Io, io2: Io)
    requires k + |p| <= |sd| && p == sd[k..k + |p|] && r <= |p| && ep + Total(sd) < U64
    requires dir == FromDevice ==> Distinct(Bytes(sd))
    requires Done(nonIncr, dir, Bytes(sd[..k]), ep, io0, io1)
    requires Done(nonIncr, dir, Bytes(p[..r]), EpAt(sd, ep, nonIncr, k), io1, io2)
    ensures Done(nonIncr, dir, Bytes(sd[..k + r]), ep, io0, io2)
    ensures DonePrefix(nonIncr, dir, Bytes(sd), ep, io0, io2, k + r == |sd|)
  {
    assert p[..r] == sd[k..k + r];
    SliceBytes(sd, k, r);
    EpExact(sd, ep, k);
    EpStays(sd, ep, k);
    if dir == FromDevice {
      SliceDistinct(sd, k, r);
    }
    DoneAppend(nonIncr, dir, Bytes(sd[..k]), Bytes(p[..r]), ep, io0, io1, io2);
    WholeIfAll(sd, k + r);
  }

  lemma {:induction false} WholeIfAll(sd: seq<Seg>, n: nat)
    requires n <= |sd| && Total(sd[..n]) <= Total(sd)
    ensures n == |sd| ==> Total(sd[..n]) == |Bytes(sd)|
  {
    if n == |sd| {
      assert sd[..n] == sd;
    }
  }

  /** A prefix of the bytes has been moved; all of them if `full`. */
  ghost predicate DonePrefix(nonIncr: bool, dir: Dir, addrs: seq<nat>, ep: nat, io: Io, io': Io, full: bool) {
    exists m: nat :: m <= |addrs| && (full ==> m == |addrs|) && Done(nonIncr, dir, addrs[..m], ep, io, io')
  }

  lemma {:induction false} DoneNone(nonIncr: bool, dir: Dir, addrs: seq<nat>, ep: nat, io: Io)
    ensures DonePrefix(nonIncr, dir, addrs, ep, io, io, addrs == [])
  {
    assert addrs[..0] == [];
    DoneNothing(nonIncr, dir, ep, io);
  }

  /** The building part of the loop: transfer_init and the transfer's flags. */
  method BuildTransfer(engine: Engine, req: RequestCb, dmaMapped: bool, ghost p: seq<Seg>)
    requires engine.Valid() && engine.descLock && req.swDescIdx < |req.sdesc| && p == Batch(req.sdesc, req.swDescIdx)
    modifies engine.desc, req
    ensures req.swDescIdx == old(req.swDescIdx) + |p| && req.descNum == |p|
    ensures req.epAddr == EpAt(p, old(req.epAddr), engine.nonIncrAddr, |p|) && req.xferLen == Total32(p, |p|)
    ensures req.needUnmap == !dmaMapped && req.lastInRequest == (req.swDescIdx == |req.sdesc|)
    ensures IsChain(engine.desc[..], engine.descBus, |p|)
    ensures IsCompiled(engine.desc[..], p, old(req.epAddr), engine.nonIncrAddr, engine.dir, engine.descBus)
    ensures engine.nonIncrAddr ==> req.epAddr == old(req.epAddr)
  {
    ghost var ep := req.epAddr;
    TransferInit(engine, req);
    if !dmaMapped {
      req.needUnmap := true;
    }
    if req.swDescIdx == |req.sdesc| {
      req.lastInRequest := true;
    }
    CompiledIsChain(engine.desc[..], p, ep, engine.nonIncrAddr, engine.dir, engine.descBus);
  }

  /** The waiting part: what the hardware does to host and device until the waiter looks at the state. */
  method RunTransfer(engine: Engine, n: nat, mach: Machine, outcome: Outcome, ghost p: seq<Seg>, ghost ep: u64)
    returns (rv: int, ghost r: nat)
    requires engine.Valid() && engine.descLock && 1 <= n == |p| <= XDMA_TRANSFER_MAX_DESC
    requires IsChain(engine.desc[..], engine.descBus, n)
    requires IsCompiled(engine.desc[..], p, ep, engine.nonIncrAddr, engine.dir, engine.descBus) && ep + Total(p) < U64
    requires engine.dir == FromDevice ==> Distinct(Bytes(p))
    modifies mach
    ensures rv == Verdict(outcome) && r == Executed(outcome, |p|)
    ensures Done(engine.nonIncrAddr, engine.dir, Bytes(p[..r]), ep, old(mach.io), mach.io)
  {
    rv := Verdict(outcome);
    r := Executed(outcome, n);
    if outcome == Refused {
      DoneNothing(engine.nonIncrAddr, engine.dir, ep, mach.io);
      return;
    }
    ChainMoves(engine.desc[..], p, ep, engine.nonIncrAddr, engine.dir, engine.descBus, r, mach.io);
    mach.Run(engine.desc[..], engine.descBus, n, FirstAdjacent(n), Executed(outcome, n), engine.nonIncrAddr, engine.dir);
  }

  /** The return value of one batch. */
  function Verdict(outcome: Outcome): int {
    match outcome
    case Completed(_) => 0
    case Refused => -EBUSY
    case Failed(_) => -EIO
    case TimedOut(_) => -ERESTARTSYS
  }

  /** One iteration of xdma_xfer_submit's loop: build a batch `p` under desc_lock, queue it, wait, judge.
      The ghost result is the number of its pieces the hardware moved. */
  method SubmitBatch(engine: Engine, req: RequestCb, sgt: SgTable, mach: Machine, dmaMapped: bool, outcome: Outcome,
                     ghost p: seq<Seg>)
    returns (rv: int, ghost r: nat)
    requires engine.Valid() && !engine.descLock
    requires req.swDescIdx < |req.sdesc| && p == Batch(req.sdesc, req.swDescIdx)
    requires req.epAddr + Total(p) < U64
    requires engine.dir == FromDevice ==> Distinct(Bytes(p))
    modifies engine`descLock, engine.desc, req, sgt`nents, sgt`unmaps, mach
    ensures !engine.descLock
    ensures outcome != Refused ==> forall i :: 0 <= i < engine.desc.Length ==> engine.desc[i] == ZERO_DESC
    ensures rv == Verdict(outcome) && r == Executed(outcome, |p|)
    ensures req.swDescIdx == old(req.swDescIdx) + |p| && req.descNum == |p|
    ensures req.epAddr == EpAt(p, old(req.epAddr), engine.nonIncrAddr, |p|) && req.xferLen == Total32(p, |p|)
    ensures engine.nonIncrAddr ==> req.epAddr == old(req.epAddr)
    ensures Done(engine.nonIncrAddr, engine.dir, Bytes(p[..r]), old(req.epAddr), old(mach.io), mach.io)
    ensures if outcome != Refused && req.swDescIdx == |req.sdesc| && !dmaMapped && old(sgt.nents) > 0
      then sgt.nents == 0 && sgt.unmaps == old(sgt.unmaps) + 1
      else sgt.nents == old(sgt.nents) && sgt.unmaps == old(sgt.unmaps)
  {
    engine.descLock := true;
    ghost var ep := req.epAddr;
    BuildTransfer(engine, req, dmaMapped, p);
    rv, r := RunTransfer(engine, req.descNum, mach, outcome, p, ep);
    if outcome != Refused {
      TransferDestroy(engine, req, sgt);
    }
    engine.descLock := false;
  }

  /** The request is one the engine can take: 32-bit length, device range on the bus, distinct host bytes. */
  ghost predicate Fits(sd: seq<Seg>, ep: u64, dir: Dir) {
    Total(sd) < U32 && ep + Total(sd) < U64 && (dir == FromDevice ==> Distinct(Bytes(sd)))
  }

  /** Where a request stands: the first k pieces are moved. */
  ghost predicate Stands(nonIncr: bool, dir: Dir, sd: seq<Seg>, ep: u64, k: nat, io: Io, io': Io) {
    k <= |sd| && Done(nonIncr, dir, Bytes(sd[..k]), ep, io, io')
  }

  /** A batch of which the hardware moved r pieces: the request stands behind it if that is all of them, and in any
      case a prefix of all bytes has moved. */
  lemma {:induction false} BatchStands(nonIncr: bool, dir: Dir, sd: seq<Seg>, ep: u64, k: nat, p: seq<Seg>, r: nat,
                                       io0: Io, io1: Io, io2: Io)
    requires k < |sd| && p == Batch(sd, k) && r <= |p| && Fits(sd, ep, dir) && Stands(nonIncr, dir, sd, ep, k, io0, io1)
    requires Done(nonIncr, dir, Bytes(p[..r]), EpAt(sd, ep, nonIncr, k), io1, io2)
    ensures r == |p| ==> Stands(nonIncr, dir, sd, ep, k + |p|, io0, io2)
    ensures DonePrefix(nonIncr, dir, Bytes(sd), ep, io0, io2, false)
  {
    BatchExtends(nonIncr, dir, sd, k, p, r, ep, io0, io1, io2);
  }

  /** Batches leave alone together what each of them does. */
  lemma {:induction false} BatchKeepsOthers(nonIncr: bool, dir: Dir, sd: seq<Seg>, ep: u64, k: nat, bytes: seq<nat>,
                                            io0: Io, io1: Io, io2: Io)
    requires k <= |sd| && OthersKept(nonIncr, dir, ep, io0, io1)
    requires Done(nonIncr, dir, bytes, EpAt(sd, ep, nonIncr, k), io1, io2)
    ensures OthersKept(nonIncr, dir, ep, io0, io2)
  {
    EpStays(sd, ep, k);
  }

  lemma {:induction false} StandsAtStart(nonIncr: bool, dir: Dir, sd: seq<Seg>, ep: u64, io: Io)
    ensures Stands(nonIncr, dir, sd, ep, 0, io, io)
  {
    DoneNothing(nonIncr, dir, ep, io);
    assert sd[..0] == [];
  }

  lemma {:induction false} StandsAtEnd(nonIncr: bool, dir: Dir, sd: seq<Seg>, ep: u64, io: Io, io': Io)
    requires Stands(nonIncr, dir, sd, ep, |sd|, io, io')
    ensures DonePrefix(nonIncr, dir, Bytes(sd), ep, io, io', true)
  {
    assert sd[..|sd|] == sd && Bytes(sd)[..|Bytes(sd)|] == Bytes(sd);
  }

  /** One iteration of the loop, seen from the whole request. */
  method SubmitNext(engine: Engine, req: RequestCb, sgt: SgTable, mach: Machine, dmaMapped: bool, outcome: Outcome,
                    ghost ep: u64, ghost io: Io, ghost honest: bool)
    returns (rv: int)
    requires engine.Valid() && !engine.descLock && Fits(req.sdesc, ep, engine.dir)
    requires req.swDescIdx < |req.sdesc| && req.epAddr == EpAt(req.sdesc, ep, engine.nonIncrAddr, req.swDescIdx)
    requires OthersKept(engine.nonIncrAddr, engine.dir, ep, io, mach.io)
    requires honest ==> Stands(engine.nonIncrAddr, engine.dir, req.sdesc, ep, req.swDescIdx, io, mach.io)
    requires honest && outcome.Completed? ==> outcome.missing == 0
    modifies engine`descLock, engine.desc, req, sgt`nents, sgt`unmaps, mach
    ensures !engine.descLock && rv == Verdict(outcome)
    ensures req.descNum == Min(|req.sdesc| - old(req.swDescIdx), XDMA_TRANSFER_MAX_DESC)
    ensures old(req.swDescIdx) < req.swDescIdx == old(req.swDescIdx) + req.descNum <= |req.sdesc|
    ensures Total(req.sdesc[..req.swDescIdx]) == Total(req.sdesc[..old(req.swDescIdx)]) + req.xferLen
    ensures req.epAddr == EpAt(req.sdesc, ep, engine.nonIncrAddr, req.swDescIdx)
    ensures engine.nonIncrAddr ==> req.epAddr == old(req.epAddr)
    ensures OthersKept(engine.nonIncrAddr, engine.dir, ep, io, mach.io)
    ensures honest && rv == 0 ==> Stands(engine.nonIncrAddr, engine.dir, req.sdesc, ep, req.swDescIdx, io, mach.io)
    ensures honest && rv < 0 ==> DonePrefix(engine.nonIncrAddr, engine.dir, Bytes(req.sdesc), ep, io, mach.io, false)
    ensures if outcome != Refused && req.swDescIdx == |req.sdesc| && !dmaMapped && old(sgt.nents) > 0
      then sgt.nents == 0 && sgt.unmaps == old(sgt.unmaps) + 1
      else sgt.nents == old(sgt.nents) && sgt.unmaps == old(sgt.unmaps)
  {
    ghost var sd, k, io1 := req.sdesc, req.swDescIdx, mach.io;
    ghost var p := Batch(sd, k);
    BeforeBatch(sd, k, p, ep, engine.nonIncrAddr, engine.dir);
    ghost var r;
    rv, r := SubmitBatch(engine, req, sgt, mach, dmaMapped, outcome, p);
    BatchKeepsOthers(engine.nonIncrAddr, engine.dir, sd, ep, k, Bytes(p[..r]), io, io1, mach.io);
    if honest {
      BatchStands(engine.nonIncrAddr, engine.dir, sd, ep, k, p, r, io, io1, mach.io);
    }
  }

  /** The verdict of the first batch from piece idx on that does not complete; 0 if all do. */
  function Verdicts(env: Env, n: nat, idx: nat): (rv: int)
    ensures rv <= 0 && (env.troubles == map[] ==> rv == 0)
    decreases n - idx
  {
    if idx >= n then 0
    else if Verdict(env.Of(idx)) < 0 then Verdict(env.Of(idx))
    else Verdicts(env, n, idx + Min(n - idx, XDMA_TRANSFER_MAX_DESC))
  }

  /** What it says: the first batch that does not complete decides, -EBUSY if it was refused, -EIO if it failed,
      -ERESTARTSYS if the wait for it ended; with none the request succeeds. */
  lemma {:induction false} VerdictsMean(env: Env, n: nat, idx: nat) returns (k: nat)
    ensures idx <= k && forall j :: idx <= j < k && j < n && (j - idx) % 2048 == 0 ==> env.Of(j).Completed?
    ensures var rv := Verdicts(env, n, idx);
      if k >= n then rv == 0
      else
        && (k - idx) % 2048 == 0
        && match env.Of(k)
           case Completed(_) => false
           case Refused => rv == -16
           case Failed(_) => rv == -5
           case TimedOut(_) => rv == -512
    decreases n - idx
  {
    k := idx;
    if idx < n && env.Of(idx).Completed? {
      k := VerdictsMean(env, n, idx + Min(n - idx, XDMA_TRANSFER_MAX_DESC));
    }
  }

  lemma {:induction false} VerdictsOn(env: Env, n: nat, idx: nat)
    requires idx < n
    ensures var rv, next := Verdict(env.Of(idx)), idx + Min(n - idx, XDMA_TRANSFER_MAX_DESC);
      Verdicts(env, n, idx) == if rv < 0 then rv else Verdicts(env, n, next)
  {
  }

  /** The loop of xdma_xfer_submit over the request's batches. */
  method SubmitAll(engine: Engine, sd: seq<Seg>, epAddr: u64, sgt: SgTable, mach: Machine, dmaMapped: bool, env: Env)
    returns (rv: int, done: nat)
    requires engine.Valid() && !engine.descLock && Fits(sd, epAddr, engine.dir)
    modifies engine`descLock, engine.desc, sgt`nents, sgt`unmaps, mach
    ensures !engine.descLock
    ensures rv == Verdicts(env, |sd|, 0) && (rv == 0 ==> done == Total(sd))
    ensures if sgt.unmaps == old(sgt.unmaps) then sgt.nents == old(sgt.nents)
      else sgt.unmaps == old(sgt.unmaps) + 1 && sgt.nents == 0 < old(sgt.nents) && !dmaMapped
    ensures OthersKept(engine.nonIncrAddr, engine.dir, epAddr, old(mach.io), mach.io)
    ensures env.Honest() ==>
      DonePrefix(engine.nonIncrAddr, engine.dir, Bytes(sd), epAddr, old(mach.io), mach.io, rv == 0)
  {
    var req := new RequestCb(sd, epAddr);
    var nents := |sd|;
    ghost var io := mach.io;
    rv, done := 0, 0;
    StandsAtStart(engine.nonIncrAddr, engine.dir, sd, epAddr, io);
    while nents > 0
      invariant rv == 0 && !engine.descLock && OthersKept(engine.nonIncrAddr, engine.dir, epAddr, io, mach.io)
      invariant engine.nonIncrAddr ==> req.epAddr == epAddr
      invariant req.swDescIdx <= |sd| && req.epAddr == EpAt(sd, epAddr, engine.nonIncrAddr, req.swDescIdx)
      invariant env.Honest() ==> Stands(engine.nonIncrAddr, engine.dir, sd, epAddr, req.swDescIdx, io, mach.io)
      invariant Verdicts(env, |sd|, 0) == Verdicts(env, |sd|, req.swDescIdx)
      invariant nents == |sd| - req.swDescIdx && done == Total(sd[..req.swDescIdx])
      invariant if sgt.unmaps == old(sgt.unmaps) then sgt.nents == old(sgt.nents)
        else nents == 0 && sgt.unmaps == old(sgt.unmaps) + 1 && sgt.nents == 0 < old(sgt.nents) && !dmaMapped
    {
      VerdictsOn(env, |sd|, req.swDescIdx);
      rv := SubmitNext(engine, req, sgt, mach, dmaMapped, env.Of(req.swDescIdx), epAddr, io, env.Honest());
      if rv < 0 {
        return;
      }
      done := done + req.xferLen;
      nents := nents - req.descNum;
    }
    assert sd[..|sd|] == sd;
    if env.Honest() {
      StandsAtEnd(engine.nonIncrAddr, engine.dir, sd, epAddr, io, mach.io);
    }
  }

  /** xdma_xfer_submit, after the channel lookup. On every path the lock is free again and a mapping made
      here is dropped once. If no batch is marked COMPLETED with descriptors missing, the device and the host buffer
      differ by the bytes moved, a prefix of the request, and on success by all of them. */
  method XferSubmit(engine: Engine, sgt: SgTable, mach: Machine, write: bool, epAddr: u64, dmaMapped: bool, blen: u32, env: Env)
    returns (rv: int)
    requires engine.Valid() && !engine.descLock
    requires blen >= 1 && InBus(sgt.segs) && TableFits(sgt.segs, blen)
    requires Fits(sgt.segs, epAddr, engine.dir)
    requires dmaMapped ==> sgt.nents == |sgt.segs| > 0
    modifies engine`descLock, engine.desc, sgt`nents, sgt`maps, sgt`unmaps, mach
    ensures !engine.descLock
    ensures sgt.maps - old(sgt.maps) == sgt.unmaps - old(sgt.unmaps)
    ensures sgt.maps - old(sgt.maps) ==
      if dmaMapped || env.offline || write != (engine.dir == ToDevice) || !env.mapOk || sgt.segs == [] then 0 else 1
    ensures sgt.maps > old(sgt.maps) ==> sgt.nents == 0
    ensures dmaMapped ==> sgt.nents == old(sgt.nents)
    ensures rv ==
      if env.offline then -16
      else if write != (engine.dir == ToDevice) then -22
      else if !dmaMapped && (!env.mapOk || sgt.segs == []) then -5
      else if !env.allocOk then -12
      else if Verdicts(env, |CutAll(sgt.segs, blen)|, 0) < 0 then Verdicts(env, |CutAll(sgt.segs, blen)|, 0)
      else Total(sgt.segs)
    ensures OthersKept(engine.nonIncrAddr, engine.dir, epAddr, old(mach.io), mach.io)
    ensures env.Honest() ==>
      DonePrefix(engine.nonIncrAddr, engine.dir, Bytes(sgt.segs), epAddr, old(mach.io), mach.io, rv >= 0)
  {
    DoneNone(engine.nonIncrAddr, engine.dir, Bytes(sgt.segs), epAddr, mach.io);
    if env.offline {
      return -EBUSY;
    }
    if engine.dir != if write then ToDevice else FromDevice {
      return -EINVAL;
    }
    if !dmaMapped {
      if !env.mapOk || |sgt.segs| == 0 {
        return -EIO;
      }
      sgt.maps := sgt.maps + 1;
      sgt.nents := |sgt.segs|;
    }
    var alloc := InitRequest(sgt.segs, blen, env.allocOk);
    var done := 0;
    if alloc.OutOfMemory? {
      rv := -ENOMEM;
    } else {
      CutAllKeepsBytes(sgt.segs, blen);
      rv, done := SubmitAll(engine, alloc.sdesc, epAddr, sgt, mach, dmaMapped, env);
    }
    if !dmaMapped && sgt.nents > 0 {
      sgt.Unmap();
    }
    if rv < 0 {
      return rv;
    }
    return done;
  }
}
