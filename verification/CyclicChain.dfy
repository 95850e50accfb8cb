/** The descriptor ring of the streaming receive path: xdma_cyclic_transfer_setup and engine_cyclic_stop. */
module CyclicChain {
  import opened Words
  import opened Descriptor
  import opened Segments
  import opened Compiler
  import opened Hardware

  const CYCLIC_RX_PAGES_MAX: nat := 256
  const RESULT_BYTES: nat := 32
  const RING_FLAGS: bv8 := EOP | COMPLETED

  /** sgt_alloc_with_pages: 256 mapped pages. */
  predicate RingPages(pages: seq<Seg>) {
    |pages| == CYCLIC_RX_PAGES_MAX && InBus(pages) && forall i :: 0 <= i < |pages| ==> pages[i].len == PAGE_SIZE
  }

  /** Descriptor i of the ring: into page i, its result into slot i, on to descriptor i + 1 around the ring. */
  predicate RingDesc(d: Desc, pages: seq<Seg>, resultBus: u64, bus: u64, i: nat)
    requires PageAligned(bus) && |pages| == CYCLIC_RX_PAGES_MAX && i < CYCLIC_RX_PAGES_MAX
  {
    && d.Dst() == pages[i].addr && d.bytes == pages[i].len
    && d.Src() == resultBus + 32 * i
    && d.Next() == bus + 32 * ((i + 1) % 256)
    && d.control.magic == 0xAD4B && d.control.flags == 0x12
    && d.control.extraAdj == AdjClamp(Lo(NextBus(bus, CYCLIC_RX_PAGES_MAX, i)), CYCLIC_RX_PAGES_MAX - i - 1)
  }

  predicate IsRing(ring: seq<Desc>, pages: seq<Seg>, resultBus: u64, bus: u64)
    requires PageAligned(bus) && |pages| == CYCLIC_RX_PAGES_MAX <= |ring|
  {
    forall i :: 0 <= i < CYCLIC_RX_PAGES_MAX ==> RingDesc(ring[i], pages, resultBus, bus, i)
  }

  lemma {:induction false} CutAllCount(pages: seq<Seg>, blen: u32, q: nat)
    requires blen >= 1 && InBus(pages) && q == (PAGE_SIZE + blen - 1) / blen
    requires forall i :: 0 <= i < |pages| ==> pages[i].len == PAGE_SIZE
    ensures |CutAll(pages, blen)| == |pages| * q
  {
    if pages != [] {
      var n := |pages| - 1;
      CutAllCount(pages[..n], blen, q);
      CutCount(pages[n], blen);
      assert (n + 1) * q == n * q + q;
    }
  }

  lemma {:induction false} CutAllWhole(pages: seq<Seg>, blen: u32)
    requires blen >= PAGE_SIZE && InBus(pages)
    requires forall i :: 0 <= i < |pages| ==> pages[i].len == PAGE_SIZE
    ensures CutAll(pages, blen) == pages
  {
    if pages != [] {
      var n := |pages| - 1;
      CutAllWhole(pages[..n], blen);
      assert Cut(pages[n], blen) == [pages[n]];
    }
  }

  /** The request has one descriptor per page, and so one result slot per descriptor, exactly when the
      descriptor length limit is at least a page. */
  lemma {:induction false} OnePiecePerPage(pages: seq<Seg>, blen: u32)
    requires blen >= 1 && RingPages(pages)
    ensures |CutAll(pages, blen)| == CYCLIC_RX_PAGES_MAX <==> blen >= PAGE_SIZE
    ensures blen >= PAGE_SIZE ==> CutAll(pages, blen) == pages
  {
    if blen >= PAGE_SIZE {
      CutAllWhole(pages, blen);
    } else {
      var q := (PAGE_SIZE + blen - 1) / blen;
      CutAllCount(pages, blen, q);
      assert q >= 2 by { assert q <= 1 ==> q * blen <= blen; }
    }
  }

  /** xdma_cyclic_transfer_setup, up to queueing: false on -EBUSY or when memory runs out. */
  method CyclicSetup(engine: Engine, taken: bool, pages: seq<Seg>, pagesOk: bool, resultBus: u64, blen: u32, allocOk: bool)
    returns (ok: bool)
    requires engine.Valid() && engine.dir == FromDevice && RingPages(pages)
    requires PAGE_SIZE <= blen
    requires resultBus + CYCLIC_RX_PAGES_MAX * RESULT_BYTES <= U64
    modifies engine.desc
    ensures ok == (!taken && pagesOk && allocOk)
    ensures ok ==> IsRing(engine.desc[..], pages, resultBus, engine.descBus)
  {
    if taken || !pagesOk {
      return false;
    }
    TableEnough(pages, blen);
    var alloc := InitRequest(pages, blen, allocOk);
    if alloc.OutOfMemory? {
      return false;
    }
    OnePiecePerPage(pages, blen);
    var req := new RequestCb(alloc.sdesc, 0);
    assert Batch(pages, 0) == pages;
    TransferInit(engine, req);
    MakeRing(engine, pages, resultBus, req.descNum, req.sdesc);
    return true;
  }

  /** What the two loops and xdma_transfer_cyclic do to descriptor i. */
  function RingEdit(d: Desc, resultBus: u64, bus: u64, i: nat): Desc
    requires i < CYCLIC_RX_PAGES_MAX && resultBus + CYCLIC_RX_PAGES_MAX * RESULT_BYTES <= U64
  {
    var slot := resultBus + RESULT_BYTES * i;
    var e := Flagged(Unflagged(d.(srcLo := Lo(slot), srcHi := Hi(slot))), RING_FLAGS);
    if i == CYCLIC_RX_PAGES_MAX - 1 then Linked(e, true, bus) else e
  }

  method MakeRing(engine: Engine, pages: seq<Seg>, resultBus: u64, n: nat, ghost p: seq<Seg>)
    requires engine.Valid() && engine.dir == FromDevice && |pages| == n == CYCLIC_RX_PAGES_MAX && p == pages
    requires resultBus + CYCLIC_RX_PAGES_MAX * RESULT_BYTES <= U64
    requires forall i :: 0 <= i < n ==>
      engine.desc[i] == Compiled(p, 0, engine.nonIncrAddr, FromDevice, engine.descBus, i)
    modifies engine.desc
    ensures IsRing(engine.desc[..], pages, resultBus, engine.descBus)
  {
    var desc, bus := engine.desc, resultBus;
    for i := 0 to n
      invariant bus == resultBus + RESULT_BYTES * i
      invariant forall k :: i <= k < n ==> desc[k] == old(desc[k])
      invariant forall k :: 0 <= k < i ==>
        desc[k] == old(desc[k]).(srcLo := Lo(resultBus + RESULT_BYTES * k), srcHi := Hi(resultBus + RESULT_BYTES * k))
    {
      desc[i] := desc[i].(srcLo := Lo(bus), srcHi := Hi(bus));
      bus := bus + RESULT_BYTES;
    }
    ghost var aimed := desc[..];
    for i := 0 to n
      invariant forall k :: i <= k < n ==> desc[k] == aimed[k]
      invariant forall k :: 0 <= k < i ==> desc[k] == Flagged(Unflagged(aimed[k]), RING_FLAGS)
    {
      desc[i] := Flagged(Unflagged(desc[i]), RING_FLAGS);
    }
    // xdma_transfer_cyclic
    desc[n - 1] := Linked(desc[n - 1], true, engine.descBus);
    forall i | 0 <= i < n
      ensures RingDesc(desc[i], pages, resultBus, engine.descBus, i)
    {
      RingEdited(old(desc[i]), pages, resultBus, engine.descBus, engine.nonIncrAddr, i);
      assert desc[i] == RingEdit(old(desc[i]), resultBus, engine.descBus, i);
    }
  }

  lemma {:induction false} RingEdited(d: Desc, pages: seq<Seg>, resultBus: u64, bus: u64, nonIncr: bool, i: nat)
    requires PageAligned(bus) && |pages| == CYCLIC_RX_PAGES_MAX && i < CYCLIC_RX_PAGES_MAX
    requires resultBus + CYCLIC_RX_PAGES_MAX * RESULT_BYTES <= U64
    requires d == Compiled(pages, 0, nonIncr, FromDevice, bus, i)
    ensures RingDesc(RingEdit(d, resultBus, bus, i), pages, resultBus, bus, i)
  {
    var n, e := CYCLIC_RX_PAGES_MAX, RingEdit(d, resultBus, bus, i);
    SplitJoin(pages[i].addr);
    SplitJoin(resultBus + RESULT_BYTES * i);
    assert e.Next() == bus + DESC_BYTES * ((i + 1) % n) by {
      SplitJoin(NextBus(bus, n, i));
      SplitJoin(bus);
    }
  }

  /** engine_cyclic_stop; `queued` and `cyclic` describe the head of the queue, which has n descriptors. The RUN bit is
      cleared if anything is queued, and a cyclic transfer gets a stop on its last descriptor. */
  method CyclicStop(engine: Engine, queued: bool, cyclic: bool, n: nat) returns (stopped: bool)
    requires engine.Valid() && 1 <= n <= XDMA_TRANSFER_MAX_DESC
    modifies engine.desc
    ensures stopped == queued
    ensures !(queued && cyclic) ==> engine.desc[..] == old(engine.desc[..])
    ensures queued && cyclic ==>
      engine.desc[..] == old(engine.desc[..])[n - 1 := Flagged(old(engine.desc[n - 1]), 0x03)]
    ensures queued && cyclic && n == CYCLIC_RX_PAGES_MAX ==> engine.desc[..] == StoppedRing(old(engine.desc[..]))
  {
    stopped := queued;
    if queued && cyclic {
      engine.desc[n - 1] := Flagged(engine.desc[n - 1], COMPLETED | STOPPED);
    }
  }

  // ---- Walking the ring ----

  /** The bus address reached after k hops along `next`. */
  function Hop(ring: seq<Desc>, bus: u64, at: u64, k: nat): Option<u64>
    decreases k
  {
    if !Holds(ring, bus, at) then None
    else if k == 0 then Some(at)
    else Hop(ring, bus, ring[(at - bus) / DESC_BYTES].Next(), k - 1)
  }

  /** k hops from descriptor i reach descriptor (i + k) mod 256. */
  lemma {:induction false} RingHops(ring: seq<Desc>, pages: seq<Seg>, resultBus: u64, bus: u64, i: nat, k: nat)
    requires PageAligned(bus) && |pages| == CYCLIC_RX_PAGES_MAX <= |ring| && IsRing(ring, pages, resultBus, bus)
    requires i < CYCLIC_RX_PAGES_MAX
    ensures Hop(ring, bus, bus + DESC_BYTES * i, k) == Some(bus + DESC_BYTES * ((i + k) % CYCLIC_RX_PAGES_MAX))
    decreases k
  {
    SlotAt(ring, bus, i);
    if k > 0 {
      var j := (i + 1) % CYCLIC_RX_PAGES_MAX;
      assert RingDesc(ring[i], pages, resultBus, bus, i);
      RingHops(ring, pages, resultBus, bus, j, k - 1);
      ModAdd(i + 1, k - 1, CYCLIC_RX_PAGES_MAX);
    }
  }

  /** The running ring goes on for ever: every hop reaches a descriptor of the ring that does not stop, and so no walk
      of any length ends. */
  lemma {:induction false} RingRunsOn(ring: seq<Desc>, pages: seq<Seg>, resultBus: u64, bus: u64, i: nat, k: nat)
    requires PageAligned(bus) && |pages| == CYCLIC_RX_PAGES_MAX <= |ring| && IsRing(ring, pages, resultBus, bus)
    requires i < CYCLIC_RX_PAGES_MAX
    ensures var at := Hop(ring, bus, bus + DESC_BYTES * i, k);
      at.Some? && Holds(ring, bus, at.value) && !ring[(at.value - bus) / DESC_BYTES].Stops()
    ensures Walk(ring, bus, bus + DESC_BYTES * i, k) == None
    decreases k
  {
    SlotAt(ring, bus, i);
    assert RingDesc(ring[i], pages, resultBus, bus, i);
    if k > 0 {
      RingRunsOn(ring, pages, resultBus, bus, (i + 1) % CYCLIC_RX_PAGES_MAX, k - 1);
    }
  }

  /** The ring with its last descriptor's flags replaced by COMPLETED and STOPPED. */
  function StoppedRing(ring: seq<Desc>): seq<Desc>
    requires CYCLIC_RX_PAGES_MAX <= |ring|
  {
    var last := CYCLIC_RX_PAGES_MAX - 1;
    ring[last := Flagged(ring[last], 0x03)]
  }

  lemma {:induction false} RingNext(d: Desc, pages: seq<Seg>, resultBus: u64, bus: u64, i: nat)
    requires PageAligned(bus) && |pages| == CYCLIC_RX_PAGES_MAX && i < 255 && RingDesc(d, pages, resultBus, bus, i)
    ensures d.Next() == NextBus(bus, CYCLIC_RX_PAGES_MAX, i) && !d.Stops()
  {
  }

  lemma {:induction false} StoppedIsChain(ring: seq<Desc>, pages: seq<Seg>, resultBus: u64, bus: u64)
    requires PageAligned(bus) && |pages| == CYCLIC_RX_PAGES_MAX <= |ring| && IsRing(ring, pages, resultBus, bus)
    ensures IsChain(StoppedRing(ring), bus, CYCLIC_RX_PAGES_MAX)
  {
    var n, stopped := CYCLIC_RX_PAGES_MAX, StoppedRing(ring);
    forall i | 0 <= i < n
      ensures i < n - 1 ==> stopped[i].Next() == NextBus(bus, n, i)
      ensures stopped[i].Stops() <==> i == n - 1
      ensures stopped[i].control.extraAdj == AdjClamp(Lo(NextBus(bus, n, i)), n - i - 1)
    {
      assert RingDesc(ring[i], pages, resultBus, bus, i);
      if i < n - 1 {
        assert stopped[i] == ring[i];
        RingNext(ring[i], pages, resultBus, bus, i);
      }
    }
  }

  /** After engine_cyclic_stop a walk from any descriptor halts at the last one, within one lap, and so
      do block fetches that start with a block inside the ring and its page. */
  lemma {:induction false} StoppedRingHalts(ring: seq<Desc>, pages: seq<Seg>, resultBus: u64, bus: u64, i: nat, adj: nat)
    requires PageAligned(bus) && |pages| == CYCLIC_RX_PAGES_MAX <= |ring| <= XDMA_TRANSFER_MAX_DESC
    requires IsRing(ring, pages, resultBus, bus)
    requires i + adj < CYCLIC_RX_PAGES_MAX && BlockFits(bus, Block(i, 1 + adj))
    ensures Walk(StoppedRing(ring), bus, bus + DESC_BYTES * i, CYCLIC_RX_PAGES_MAX) == Some(Range(i, CYCLIC_RX_PAGES_MAX))
    ensures exists blocks :: Fetches(StoppedRing(ring), bus, CYCLIC_RX_PAGES_MAX, i, adj, CYCLIC_RX_PAGES_MAX, blocks)
  {
    StoppedIsChain(ring, pages, resultBus, bus);
    WalkFrom(StoppedRing(ring), bus, CYCLIC_RX_PAGES_MAX, i, CYCLIC_RX_PAGES_MAX);
    var blocks := FetchFrom(StoppedRing(ring), bus, CYCLIC_RX_PAGES_MAX, i, adj, CYCLIC_RX_PAGES_MAX);
  }
}
