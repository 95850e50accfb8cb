/** What the DMA engine does with a descriptor array: follow `next` and copy, one at a
    time or in prefetched blocks; and what the driver's chains therefore mean. */
module Hardware {
  import opened Words
  import opened Descriptor
  import opened Segments
  import opened Compiler

  type Mem = int -> bv8

  datatype Option<T> = None | Some(value: T)

  // ---- Hardware semantics ----

  function Copy(src: int, dst: int, n: nat, from: Mem, to: Mem): Mem {
    a => if dst <= a < dst + n then from(src + (a - dst)) else to(a)
  }

  /** One descriptor: copy `bytes` from one address space into the other. */
  function Exec(d: Desc, from: Mem, to: Mem): Mem {
    Copy(d.Src(), d.Dst(), d.bytes, from, to)
  }

  /** A device behind one address: byte k is the k-th byte it takes or gives, and `passed` of them have gone by. */
  datatype Port = Port(bytes: Mem, passed: nat)

  /** The host's memory, and the device as memory and as ports, one at each address. */
  datatype Io = Io(host: Mem, dev: Mem, ports: nat -> Port)

  /** One descriptor on an engine: into or out of device memory, or in non-incremental mode all at one device address. */
  function ExecIo(d: Desc, nonIncr: bool, dir: Dir, io: Io): Io {
    var e := DevEnd(d, dir);
    var port := io.ports(e);
    var passed := port.passed + d.bytes;
    match (dir, nonIncr)
    case (ToDevice, false) => io.(dev := Exec(d, io.host, io.dev))
    case (FromDevice, false) => io.(host := Exec(d, io.dev, io.host))
    case (ToDevice, true) =>
      var bytes := Copy(d.Src(), port.passed, d.bytes, io.host, port.bytes);
      io.(ports := (a: nat) => if a == e then Port(bytes, passed) else io.ports(a))
    case (FromDevice, true) =>
      io.(host := Copy(port.passed, d.Dst(), d.bytes, port.bytes, io.host),
          ports := (a: nat) => if a == e then Port(port.bytes, passed) else io.ports(a))
  }

  function ExecAll(ring: seq<Desc>, order: seq<nat>, nonIncr: bool, dir: Dir, io: Io): Io
    requires forall k :: 0 <= k < |order| ==> order[k] < |ring|
  {
    if order == [] then io
    else ExecIo(ring[order[|order| - 1]], nonIncr, dir, ExecAll(ring, order[..|order| - 1], nonIncr, dir, io))
  }

  predicate Holds(ring: seq<Desc>, bus: u64, at: u64) {
    at >= bus && (at - bus) % DESC_BYTES == 0 && (at - bus) / DESC_BYTES < |ring|
  }

  /** Follow `next` from bus address `at` until a descriptor says stop: the indices visited. */
  function Walk(ring: seq<Desc>, bus: u64, at: u64, fuel: nat): (r: Option<seq<nat>>)
    ensures r.Some? ==> forall k :: 0 <= k < |r.value| ==> r.value[k] < |ring|
    decreases fuel
  {
    if fuel == 0 || !Holds(ring, bus, at) then None
    else
      var i := (at - bus) / DESC_BYTES;
      if ring[i].Stops() then Some([i])
      else
        match Walk(ring, bus, ring[i].Next(), fuel - 1)
        case None => None
        case Some(rest) => Some([i] + rest)
  }

  /** A fetch of `count` adjacent descriptors. */
  datatype Block = Block(first: nat, count: nat)

  /** Fetch 1 + adj descriptors at `at`; the last of them says where the next block is and how long. */
  function Fetch(ring: seq<Desc>, bus: u64, at: u64, adj: nat, fuel: nat): Option<seq<Block>>
    decreases fuel
  {
    if fuel == 0 || !Holds(ring, bus, at) || (at - bus) / DESC_BYTES + adj >= |ring| then None
    else
      var i := (at - bus) / DESC_BYTES;
      var last := ring[i + adj];
      if last.Stops() then Some([Block(i, 1 + adj)])
      else
        match Fetch(ring, bus, last.Next(), last.control.extraAdj, fuel - 1)
        case None => None
        case Some(rest) => Some([Block(i, 1 + adj)] + rest)
  }

  function Range(lo: nat, hi: nat): (r: seq<nat>)
    requires lo <= hi
  {
    seq(hi - lo, k requires 0 <= k < hi - lo => lo + k)
  }

  function Order(blocks: seq<Block>): seq<nat> {
    if blocks == [] then [] else Range(blocks[0].first, blocks[0].first + blocks[0].count) + Order(blocks[1..])
  }

  /** The request stays inside one 4 KB page (PCI Express Base Specification, section 2.2.7). */
  predicate InOnePage(bus: nat, len: nat) {
    len > 0 && bus / PAGE_SIZE == (bus + len - 1) / PAGE_SIZE
  }

  predicate BlockFits(bus: u64, b: Block) {
    InOnePage(bus + DESC_BYTES * b.first, DESC_BYTES * b.count)
  }

  predicate BlocksFit(bus: u64, blocks: seq<Block>) {
    forall k :: 0 <= k < |blocks| ==> BlockFits(bus, blocks[k])
  }

  // ---- The driver's chains ----

  /** The first n descriptors of the array are one chain at `bus`, ended by a stop. */
  predicate IsChain(ring: seq<Desc>, bus: u64, n: nat)
    requires PageAligned(bus) && n <= |ring| && n <= XDMA_TRANSFER_MAX_DESC
  {
    forall i :: 0 <= i < n ==>
      && (i < n - 1 ==> ring[i].Next() == NextBus(bus, n, i))
      && (ring[i].Stops() <==> i == n - 1)
      && ring[i].control.extraAdj == AdjClamp(Lo(NextBus(bus, n, i)), n - i - 1)
  }

  /** first_desc_adjacent as engine_start writes it. */
  function FirstAdjacent(descAdjacent: nat): nat {
    if descAdjacent > 0 then Min(descAdjacent - 1, MAX_EXTRA_ADJ) else 0
  }

  lemma {:induction false} SlotAt(ring: seq<Desc>, bus: u64, i: nat)
    requires PageAligned(bus) && i < |ring| && i < XDMA_TRANSFER_MAX_DESC
    ensures Holds(ring, bus, bus + DESC_BYTES * i) && (bus + DESC_BYTES * i - bus) / DESC_BYTES == i
  {
  }

  lemma {:induction false} WalkFrom(ring: seq<Desc>, bus: u64, n: nat, i: nat, fuel: nat)
    requires PageAligned(bus) && i < n <= |ring| && n <= XDMA_TRANSFER_MAX_DESC && IsChain(ring, bus, n)
    requires fuel >= n - i
    ensures Walk(ring, bus, bus + DESC_BYTES * i, fuel) == Some(Range(i, n))
    decreases n - i
  {
    SlotAt(ring, bus, i);
    if i < n - 1 {
      WalkFrom(ring, bus, n, i + 1, fuel - 1);
      assert [i] + Range(i + 1, n) == Range(i, n);
    } else {
      assert [i] == Range(i, n);
    }
  }

  /** `blocks` is what the hardware fetches from descriptor i on, a block of 1 + adj first. */
  predicate Fetches(ring: seq<Desc>, bus: u64, n: nat, i: nat, adj: nat, fuel: nat, blocks: seq<Block>)
    requires PageAligned(bus) && i < n <= XDMA_TRANSFER_MAX_DESC
  {
    && Fetch(ring, bus, bus + DESC_BYTES * i, adj, fuel) == Some(blocks)
    && Order(blocks) == Range(i, n) && BlocksFit(bus, blocks)
  }

  lemma {:induction false} NextBlock(ring: seq<Desc>, bus: u64, n: nat, last: nat)
    requires PageAligned(bus) && n <= |ring| && n <= XDMA_TRANSFER_MAX_DESC && IsChain(ring, bus, n)
    requires last < n - 1
    ensures last + 1 + ring[last].control.extraAdj < n
    ensures BlockFits(bus, Block(last + 1, 1 + ring[last].control.extraAdj))
  {
    NextBlockFits(bus, n, last);
  }

  /** A fetch that does not reach the end continues right behind its block. */
  lemma {:induction false} FetchStep(ring: seq<Desc>, bus: u64, n: nat, i: nat, adj: nat, fuel: nat, rest: seq<Block>)
    requires PageAligned(bus) && n <= |ring| && n <= XDMA_TRANSFER_MAX_DESC && IsChain(ring, bus, n)
    requires i + adj < n - 1 && fuel > 0 && BlockFits(bus, Block(i, 1 + adj))
    requires Fetches(ring, bus, n, i + adj + 1, ring[i + adj].control.extraAdj, fuel - 1, rest)
    ensures Fetches(ring, bus, n, i, adj, fuel, [Block(i, 1 + adj)] + rest)
  {
    SlotAt(ring, bus, i);
    assert ring[i + adj].Next() == bus + DESC_BYTES * (i + adj + 1);
    ConsBlock(bus, Block(i, 1 + adj), rest, n);
  }

  lemma {:induction false} FetchLast(ring: seq<Desc>, bus: u64, n: nat, i: nat, adj: nat, fuel: nat)
    requires PageAligned(bus) && n <= |ring| && n <= XDMA_TRANSFER_MAX_DESC && IsChain(ring, bus, n)
    requires i + adj == n - 1 && fuel > 0 && BlockFits(bus, Block(i, 1 + adj))
    ensures Fetches(ring, bus, n, i, adj, fuel, [Block(i, 1 + adj)])
  {
    SlotAt(ring, bus, i);
    ConsBlock(bus, Block(i, 1 + adj), [], n);
    assert [Block(i, 1 + adj)] + [] == [Block(i, 1 + adj)];
  }

  lemma {:induction false} FetchFrom(ring: seq<Desc>, bus: u64, n: nat, i: nat, adj: nat, fuel: nat)
    returns (blocks: seq<Block>)
    requires PageAligned(bus) && n <= |ring| && n <= XDMA_TRANSFER_MAX_DESC && IsChain(ring, bus, n)
    requires i + adj < n && fuel >= n - i && BlockFits(bus, Block(i, 1 + adj))
    ensures Fetches(ring, bus, n, i, adj, fuel, blocks)
    decreases n - i
  {
    var last := i + adj;
    if last == n - 1 {
      FetchLast(ring, bus, n, i, adj, fuel);
      blocks := [Block(i, 1 + adj)];
    } else {
      NextBlock(ring, bus, n, last);
      var rest := FetchFrom(ring, bus, n, last + 1, ring[last].control.extraAdj, fuel - 1);
      FetchStep(ring, bus, n, i, adj, fuel, rest);
      blocks := [Block(i, 1 + adj)] + rest;
    }
  }

  lemma {:induction false} ConsBlock(bus: u64, b: Block, rest: seq<Block>, n: nat)
    requires b.first + b.count <= n && Order(rest) == Range(b.first + b.count, n)
    requires BlockFits(bus, b) && BlocksFit(bus, rest)
    ensures Order([b] + rest) == Range(b.first, n) && BlocksFit(bus, [b] + rest)
  {
    assert ([b] + rest)[1..] == rest;
    assert Range(b.first, b.first + b.count) + Range(b.first + b.count, n) == Range(b.first, n);
  }

  /** The clamped hint keeps the next block inside the chain and inside its page, and is the largest that does, up to 15. */
  lemma {:induction false} NextBlockFits(bus: u64, n: nat, last: nat)
    requires PageAligned(bus) && last < n - 1 < XDMA_TRANSFER_MAX_DESC
    ensures var adj := AdjClamp(Lo(NextBus(bus, n, last)), n - last - 1);
      && last + 1 + adj < n
      && InOnePage(bus + DESC_BYTES * (last + 1), DESC_BYTES * (1 + adj))
      && (adj == 15 || last + 1 + adj == n - 1 || !InOnePage(bus + DESC_BYTES * (last + 1), DESC_BYTES * (2 + adj)))
  {
    var m := last + 1;
    var next := bus + DESC_BYTES * m;
    DivModUnique(next, PAGE_SIZE, bus / PAGE_SIZE + m / 128, DESC_BYTES * (m % 128));
    LowPage(next);
    ClampBound(Lo(next), m % 128, n - m);
    SamePage(next, DESC_BYTES * (1 + AdjClamp(Lo(next), n - m) as nat));
  }

  lemma {:induction false} ClampBound(lo: u32, q: nat, nextAdjacent: int)
    requires q < 128 && lo % 0x1000 == DESC_BYTES * q && nextAdjacent > 0
    ensures AdjClamp(lo, nextAdjacent) <= 127 - q && AdjClamp(lo, nextAdjacent) < nextAdjacent
  {
  }

  lemma {:induction false} LowPage(a: u64)
    ensures Lo(a) % 0x1000 == a % PAGE_SIZE
  {
  }

  lemma {:induction false} SamePage(a: nat, len: nat)
    requires 0 < len <= PAGE_SIZE - a % PAGE_SIZE
    ensures InOnePage(a, len)
  {
  }

  /** Prefetching by blocks visits what the linked walk visits: descriptors 0..n-1, once each, in
      order; it never reads past the chain, and no block crosses a 4 KB boundary. The first block is of any size
      that the register can hold and the chain has. */
  lemma {:induction false} PrefetchRefinesWalk(ring: seq<Desc>, bus: u64, n: nat, adj: nat, fuel: nat)
    requires PageAligned(bus) && 1 <= n <= |ring| && n <= XDMA_TRANSFER_MAX_DESC && IsChain(ring, bus, n)
    requires adj < n && adj <= 15 && fuel >= n
    ensures Walk(ring, bus, bus, fuel) == Some(Range(0, n))
    ensures var r := Fetch(ring, bus, bus, adj, fuel);
      r.Some? && Order(r.value) == Range(0, n) && BlocksFit(bus, r.value)
  {
    WalkFrom(ring, bus, n, 0, fuel);
    SamePage(bus, DESC_BYTES * (1 + adj));
    var blocks := FetchFrom(ring, bus, n, 0, adj, fuel);
  }

  /** What transfer_init leaves in the array is a chain. */
  lemma {:induction false} CompiledIsChain(ring: seq<Desc>, p: seq<Seg>, ep: u64, nonIncr: bool, dir: Dir, bus: u64)
    requires PageAligned(bus) && |p| <= |ring| && |p| <= XDMA_TRANSFER_MAX_DESC
    requires forall i :: 0 <= i < |p| ==> ring[i] == Compiled(p, ep, nonIncr, dir, bus, i)
    ensures IsChain(ring, bus, |p|)
  {
    forall i | 0 <= i < |p|
      ensures ring[i].Next() == NextBus(bus, |p|, i)
    {
      SplitJoin(NextBus(bus, |p|, i));
    }
  }
}
