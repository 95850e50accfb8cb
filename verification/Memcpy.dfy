/** The meaning of a batch of descriptors: a copy between the bus addresses of its pieces
    and consecutive device addresses. */
module Memcpy {
  import opened Words
  import opened Descriptor
  import opened Segments
  import opened Compiler
  import opened Hardware

  /** `to'` is `to` after moving the bytes at bus addresses `addrs`, in order, to or from the
      device addresses from `ep` on; nothing else differs. `from` is the other memory. */
  ghost predicate Moved(dir: Dir, addrs: seq<nat>, ep: nat, from: Mem, to: Mem, to': Mem) {
    match dir
    case ToDevice =>
      forall a: int :: to'(a) == if ep <= a < ep + |addrs| then from(addrs[a - ep]) else to(a)
    case FromDevice =>
      && (forall i :: 0 <= i < |addrs| ==> to'(addrs[i]) == from(ep + i))
      && (forall a: int :: a !in addrs ==> to'(a) == to(a))
  }

  ghost predicate Distinct(addrs: seq<nat>) {
    forall i, j :: 0 <= i < j < |addrs| ==> addrs[i] != addrs[j]
  }

  /** Moves compose when the host bytes written are distinct. */
  lemma {:induction false} MovedAppend(dir: Dir, a: seq<nat>, b: seq<nat>, ep: nat, from: Mem, to0: Mem, to1: Mem, to2: Mem)
    requires Moved(dir, a, ep, from, to0, to1) && Moved(dir, b, ep + |a|, from, to1, to2)
    requires dir == FromDevice ==> Distinct(a + b)
    ensures Moved(dir, a + b, ep, from, to0, to2)
  {
    if dir == FromDevice {
      forall i | 0 <= i < |a + b|
        ensures to2((a + b)[i]) == from(ep + i)
      {
        if i < |a| {
          assert forall j :: 0 <= j < |b| ==> (a + b)[|a| + j] == b[j];
          assert a[i] == (a + b)[i] && a[i] !in b;
        } else {
          assert (a + b)[i] == b[i - |a|];
        }
      }
    }
  }

  lemma {:induction false} MovedNothing(dir: Dir, ep: nat, from: Mem, to: Mem)
    ensures Moved(dir, [], ep, from, to, to)
  {
  }

  /** A filled descriptor names its piece on the host side and `ep` on the device side. */
  lemma {:induction false} FilledFields(d: Desc, s: Seg, ep: u64, dir: Dir)
    requires d == Filled(d, s.addr, ep, s.len, dir)
    ensures d.bytes == s.len
    ensures dir == ToDevice ==> d.Src() == s.addr && d.Dst() == ep
    ensures dir == FromDevice ==> d.Src() == ep && d.Dst() == s.addr
  {
    SplitJoin(s.addr);
    SplitJoin(ep);
  }

  /** One descriptor moves the span of its piece. */
  lemma {:induction false} ExecMoves(d: Desc, s: Seg, ep: u64, dir: Dir, from: Mem, to: Mem)
    requires d == Filled(d, s.addr, ep, s.len, dir)
    ensures Moved(dir, Span(s.addr, s.len), ep, from, to, Exec(d, from, to))
  {
    FilledFields(d, s, ep, dir);
    SpanMoves(dir, s, ep, from, to);
  }

  lemma {:induction false} SpanMoves(dir: Dir, s: Seg, at: nat, from: Mem, to: Mem)
    ensures dir == ToDevice ==> Moved(dir, Span(s.addr, s.len), at, from, to, Copy(s.addr, at, s.len, from, to))
    ensures dir == FromDevice ==> Moved(dir, Span(s.addr, s.len), at, from, to, Copy(at, s.addr, s.len, from, to))
  {
    SpanHas(s.addr, s.len);
  }

  lemma {:induction false} SpanHas(addr: nat, len: nat)
    ensures forall a: int :: addr <= a < addr + len ==> a in Span(addr, len)
  {
    forall a: int | addr <= a < addr + len
      ensures a in Span(addr, len)
    {
      assert Span(addr, len)[a - addr] == a;
    }
  }

  /** The end-point address after i pieces, as long as the position stays on the 64-bit bus. */
  lemma {:induction false} EpExact(p: seq<Seg>, ep: u64, i: nat)
    requires i <= |p| && ep + Total(p[..i]) < U64
    ensures EpAt(p, ep, false, i) == ep + Total(p[..i])
  {
    if i > 0 {
      assert p[..i][..i - 1] == p[..i - 1];
      EpExact(p, ep, i - 1);
    }
  }

  lemma {:induction false} BytesPrefix(p: seq<Seg>, i: nat)
    requires i <= |p|
    ensures Total(p[..i]) <= Total(p)
    ensures Bytes(p[..i]) == Bytes(p)[..Total(p[..i])]
  {
    BytesAppend(p[..i], p[i..]);
    assert p[..i] + p[i..] == p;
  }

  lemma {:induction false} DistinctPrefix(a: seq<nat>, n: nat)
    requires n <= |a| && Distinct(a)
    ensures Distinct(a[..n])
  {
  }

  // ---- The engine's two modes ----

  /** Where the bytes come from, where they go, and their first position on the device's side: a device address, or in
      non-incremental mode the number of bytes that have passed the port at that address. */
  function From(nonIncr: bool, dir: Dir, ep: nat, io: Io): Mem {
    if dir == ToDevice then io.host else if nonIncr then io.ports(ep).bytes else io.dev
  }

  function To(nonIncr: bool, dir: Dir, ep: nat, io: Io): Mem {
    if dir == FromDevice then io.host else if nonIncr then io.ports(ep).bytes else io.dev
  }

  function Pos(nonIncr: bool, ep: nat, io: Io): nat {
    if nonIncr then io.ports(ep).passed else ep
  }

  /** What a move leaves alone: its source, and of the device everything but the memory or the port it is for. */
  ghost predicate OthersKept(nonIncr: bool, dir: Dir, ep: nat, io: Io, io': Io) {
    && From(nonIncr, dir, ep, io') == From(nonIncr, dir, ep, io)
    && if nonIncr then io'.dev == io.dev && forall a: nat :: a != ep ==> io'.ports(a) == io.ports(a) else io'.ports == io.ports
  }

  /** `io'` is `io` after moving the bytes at bus addresses `addrs` to or from device address `ep`, in either mode. */
  ghost predicate Done(nonIncr: bool, dir: Dir, addrs: seq<nat>, ep: nat, io: Io, io': Io) {
    && OthersKept(nonIncr, dir, ep, io, io') && (nonIncr ==> io'.ports(ep).passed == io.ports(ep).passed + |addrs|)
    && Moved(dir, addrs, Pos(nonIncr, ep, io), From(nonIncr, dir, ep, io), To(nonIncr, dir, ep, io), To(nonIncr, dir, ep, io'))
  }

  /** The device address that n bytes at `ep` leave the next ones. */
  function EpNext(nonIncr: bool, ep: nat, n: nat): nat {
    if nonIncr then ep else ep + n
  }

  lemma {:induction false} DoneNothing(nonIncr: bool, dir: Dir, ep: nat, io: Io)
    ensures Done(nonIncr, dir, [], ep, io, io)
  {
    MovedNothing(dir, Pos(nonIncr, ep, io), From(nonIncr, dir, ep, io), To(nonIncr, dir, ep, io));
  }

  lemma {:induction false} DoneAppend(nonIncr: bool, dir: Dir, a: seq<nat>, b: seq<nat>, ep: nat, io0: Io, io1: Io, io2: Io)
    requires Done(nonIncr, dir, a, ep, io0, io1) && Done(nonIncr, dir, b, EpNext(nonIncr, ep, |a|), io1, io2)
    requires dir == FromDevice ==> Distinct(a + b)
    ensures Done(nonIncr, dir, a + b, ep, io0, io2)
  {
    MovedAppend(dir, a, b, Pos(nonIncr, ep, io0), From(nonIncr, dir, ep, io0),
      To(nonIncr, dir, ep, io0), To(nonIncr, dir, ep, io1), To(nonIncr, dir, ep, io2));
  }

  /** One descriptor, in either mode. */
  lemma {:induction false} ExecDone(d: Desc, s: Seg, ep: u64, nonIncr: bool, dir: Dir, io: Io)
    requires d == Filled(d, s.addr, ep, s.len, dir)
    ensures Done(nonIncr, dir, Span(s.addr, s.len), ep, io, ExecIo(d, nonIncr, dir, io))
  {
    FilledFields(d, s, ep, dir);
    SpanMoves(dir, s, Pos(nonIncr, ep, io), From(nonIncr, dir, ep, io), To(nonIncr, dir, ep, io));
  }

  // ---- A compiled chain ----

  /** The array starts with the chain compiled from `p`. */
  predicate IsCompiled(ring: seq<Desc>, p: seq<Seg>, ep: u64, nonIncr: bool, dir: Dir, bus: u64)
    requires PageAligned(bus)
  {
    && |p| <= |ring| && |p| <= XDMA_TRANSFER_MAX_DESC
    && forall i :: 0 <= i < |p| ==> ring[i] == Compiled(p, ep, nonIncr, dir, bus, i)
  }

  /** In non-incremental mode the end-point address never moves. */
  lemma {:induction false} EpStays(p: seq<Seg>, ep: u64, i: nat)
    requires i <= |p|
    ensures EpAt(p, ep, true, i) == ep
  {
  }

  lemma {:induction false} CompiledFilled(ring: seq<Desc>, p: seq<Seg>, ep: u64, nonIncr: bool, dir: Dir, bus: u64, m: nat)
    requires PageAligned(bus) && IsCompiled(ring, p, ep, nonIncr, dir, bus) && m < |p| && ep + Total(p) < U64
    ensures Total(p[..m]) <= Total(p)
    ensures ring[m] == Filled(ring[m], p[m].addr, EpNext(nonIncr, ep, Total(p[..m])), p[m].len, dir)
  {
    BytesPrefix(p, m);
    EpExact(p, ep, m);
    EpStays(p, ep, m);
  }

  /** The next descriptor in a compiled chain extends the move by its piece. */
  lemma {:induction false} ChainStep(ring: seq<Desc>, p: seq<Seg>, ep: u64, nonIncr: bool, dir: Dir, bus: u64, m: nat,
                                     io: Io, mid: Io)
    requires PageAligned(bus) && IsCompiled(ring, p, ep, nonIncr, dir, bus)
    requires m < |p| && ep + Total(p) < U64
    requires dir == FromDevice ==> Distinct(Bytes(p))
    requires Done(nonIncr, dir, Bytes(p[..m]), ep, io, mid)
    ensures Done(nonIncr, dir, Bytes(p[..m + 1]), ep, io, ExecIo(ring[m], nonIncr, dir, mid))
  {
    var a, b := Bytes(p[..m]), Span(p[m].addr, p[m].len);
    CompiledFilled(ring, p, ep, nonIncr, dir, bus, m);
    ExecDone(ring[m], p[m], EpNext(nonIncr, ep, |a|), nonIncr, dir, mid);
    BytesSnoc(p, m);
    if dir == FromDevice {
      BytesPrefix(p, m + 1);
      DistinctPrefix(Bytes(p), Total(p[..m + 1]));
    }
    DoneAppend(nonIncr, dir, a, b, ep, io, mid, ExecIo(ring[m], nonIncr, dir, mid));
  }

  /** Retiring the first n descriptors of a compiled chain moves exactly the bytes of the first n pieces, in incremental
      mode to or from consecutive device addresses, otherwise all through the one port at `ep`, in order. */
  lemma {:induction false} ChainMoves(ring: seq<Desc>, p: seq<Seg>, ep: u64, nonIncr: bool, dir: Dir, bus: u64, n: nat, io: Io)
    requires PageAligned(bus) && IsCompiled(ring, p, ep, nonIncr, dir, bus)
    requires n <= |p| && ep + Total(p) < U64
    requires dir == FromDevice ==> Distinct(Bytes(p))
    ensures Done(nonIncr, dir, Bytes(p[..n]), ep, io, ExecAll(ring, Range(0, n), nonIncr, dir, io))
  {
    if n == 0 {
      DoneNothing(nonIncr, dir, ep, io);
    } else {
      ChainMoves(ring, p, ep, nonIncr, dir, bus, n - 1, io);
      assert Range(0, n)[..n - 1] == Range(0, n - 1);
      ChainStep(ring, p, ep, nonIncr, dir, bus, n - 1, io, ExecAll(ring, Range(0, n - 1), nonIncr, dir, io));
    }
  }
}
