/** char_sgdma_read_write: from a user buffer to the device and back, end to end. */
module ReadWrite {
  import opened Words
  import opened Segments
  import opened Compiler
  import opened Hardware
  import opened Memcpy
  import opened UserBuffer
  import opened Submit

  const XDMA_DESC_BLEN_MAX: nat := 0xFFF_FFFF

  /** memcpy between the user bytes [buf, buf + count) and the device bytes [pos, pos + count),
      and nothing else. */
  ghost predicate Copied(dir: Dir, m: Memory, buf: nat, pos: nat, count: nat, host: Mem, dev: Mem, host': Mem, dev': Mem) {
    match dir
    case ToDevice =>
      && host' == host
      && forall a: int :: dev'(a) == if pos <= a < pos + count then host(m.Addr(buf + (a - pos))) else dev(a)
    case FromDevice =>
      && dev' == dev
      && (forall v: nat :: buf <= v < buf + count ==> host'(m.Addr(v)) == dev(pos + (v - buf)))
      && (forall a: int :: (forall v: nat :: buf <= v < buf + count ==> m.Addr(v) != a) ==> host'(a) == host(a))
  }

  /** Either mode: memcpy between the user buffer and the device's memory at `pos`, or in non-incremental mode between
      the user buffer and the next `count` bytes that pass the port at `pos`. */
  ghost predicate CopiedIo(nonIncr: bool, dir: Dir, m: Memory, buf: nat, pos: nat, count: nat, io: Io, io': Io) {
    if nonIncr then
      var port, port' := io.ports(pos), io'.ports(pos);
      && Copied(dir, m, buf, port.passed, count, io.host, port.bytes, io'.host, port'.bytes)
      && port'.passed == port.passed + count && io'.dev == io.dev
      && forall a: nat :: a != pos ==> io'.ports(a) == io.ports(a)
    else Copied(dir, m, buf, pos, count, io.host, io.dev, io'.host, io'.dev) && io'.ports == io.ports
  }

  /** Some first part of the transfer was copied, all of it if `full`. */
  ghost predicate CopiedPrefix(nonIncr: bool, dir: Dir, m: Memory, buf: nat, pos: nat, count: nat, io: Io, io': Io, full: bool) {
    exists n: nat :: n <= count && (full ==> n == count) && CopiedIo(nonIncr, dir, m, buf, pos, n, io, io')
  }

  lemma {:induction false} AddrInjective(m: Memory, buf: nat, len: nat, v: nat, w: nat)
    requires m.Valid() && m.Injective(buf, len) && buf <= v <= w < buf + len && m.Addr(v) == m.Addr(w)
    ensures v == w
  {
    var p, q := v / PAGE_SIZE, w / PAGE_SIZE;
    assert buf / PAGE_SIZE <= p <= q && PAGE_SIZE * q < buf + len;
    var b, c := m.bus(m.frame(v / PAGE_SIZE)), m.bus(m.frame(w / PAGE_SIZE));
    DivModUnique(m.Addr(v), PAGE_SIZE, b / PAGE_SIZE, v % PAGE_SIZE);
    DivModUnique(m.Addr(w), PAGE_SIZE, c / PAGE_SIZE, w % PAGE_SIZE);
  }

  lemma {:induction false} UserDistinct(m: Memory, buf: u64, len: nat)
    requires m.Valid() && m.Injective(buf, len)
    ensures Distinct(UserAddrs(m, buf, len))
  {
    var s := UserAddrs(m, buf, len);
    forall i, j | 0 <= i < j < |s|
      ensures s[i] != s[j]
    {
      if s[i] == s[j] {
        AddrInjective(m, buf, len, buf + i, buf + j);
      }
    }
  }

  lemma {:induction false} MovedIsCopied(dir: Dir, m: Memory, buf: u64, pos: nat, count: nat, from: Mem, to: Mem, to': Mem)
    requires Moved(dir, UserAddrs(m, buf, count), pos, from, to, to')
    ensures dir == ToDevice ==> Copied(dir, m, buf, pos, count, from, to, from, to')
    ensures dir == FromDevice ==> Copied(dir, m, buf, pos, count, to, from, to', from)
  {
    var s := UserAddrs(m, buf, count);
    if dir == FromDevice {
      forall v: nat | buf <= v < buf + count
        ensures to'(m.Addr(v)) == from(pos + (v - buf))
      {
        assert s[v - buf] == m.Addr(v);
      }
      forall a: int | forall v: nat :: buf <= v < buf + count ==> m.Addr(v) != a
        ensures to'(a) == to(a)
      {
        forall i | 0 <= i < |s|
          ensures s[i] != a
        {
          assert s[i] == m.Addr(buf + i);
        }
      }
    }
  }

  lemma {:induction false} PrefixOfUser(m: Memory, buf: u64, len: nat, n: nat)
    requires n <= len
    ensures UserAddrs(m, buf, len)[..n] == UserAddrs(m, buf, n)
  {
  }

  lemma {:induction false} DoneIsCopied(nonIncr: bool, dir: Dir, m: Memory, buf: u64, pos: u64, count: nat, io: Io, io': Io)
    requires Done(nonIncr, dir, UserAddrs(m, buf, count), pos, io, io')
    ensures CopiedIo(nonIncr, dir, m, buf, pos, count, io, io')
  {
    MovedIsCopied(dir, m, buf, Pos(nonIncr, pos, io), count,
      From(nonIncr, dir, pos, io), To(nonIncr, dir, pos, io), To(nonIncr, dir, pos, io'));
  }

  lemma {:induction false} PrefixCopied(nonIncr: bool, dir: Dir, m: Memory, buf: u64, pos: u64, count: nat, io: Io, io': Io,
                                        full: bool)
    requires DonePrefix(nonIncr, dir, UserAddrs(m, buf, count), pos, io, io', full)
    ensures CopiedPrefix(nonIncr, dir, m, buf, pos, count, io, io', full)
    ensures full ==> CopiedIo(nonIncr, dir, m, buf, pos, count, io, io')
  {
    var n: nat :| n <= count && (full ==> n == count) && Done(nonIncr, dir, UserAddrs(m, buf, count)[..n], pos, io, io');
    PrefixOfUser(m, buf, count, n);
    DoneIsCopied(nonIncr, dir, m, buf, pos, n, io, io');
  }

  lemma {:induction false} NothingCopied(nonIncr: bool, dir: Dir, m: Memory, buf: u64, pos: u64, count: nat, io: Io)
    ensures CopiedPrefix(nonIncr, dir, m, buf, pos, count, io, io, false)
  {
    DoneNothing(nonIncr, dir, pos, io);
    assert UserAddrs(m, buf, 0) == [];
    DoneIsCopied(nonIncr, dir, m, buf, pos, 0, io, io);
  }

  /** Every check and every allocation before the transfer succeeds. */
  predicate Admitted(engine: Engine, write: bool, buf: u64, count: u32, pos: u64, addrAlign: u32, lenGranularity: u32,
                     sgOk: bool, pagesOk: bool, pin: Pin, env: Env)
    reads engine
  {
    && write == (engine.dir == ToDevice)
    && CheckTransferAlign(engine.nonIncrAddr, addrAlign, lenGranularity, buf, count, pos, true) == 0
    && sgOk && pagesOk && pin.Pinned? && |pin.frames| == PagesNr(buf, count) > 0 && !Duplicate(pin.frames)
    && !env.offline && env.mapOk && env.allocOk
  }

  /** For every buffer some memory meets what a read asks for: frames in their own order on the bus. */
  lemma {:induction false} ReadsPossible(buf: u64, len: u32) returns (m: Memory, frames: seq<nat>)
    requires buf + len <= U64
    ensures m.Valid() && m.Injective(buf, len) && |frames| == PagesNr(buf, len) && m.Pins(frames, buf) && !Duplicate(frames)
  {
    m := Memory(p => p, f => f % 0x10_0000_0000_0000 * 4096);
    var first := buf / PAGE_SIZE;
    frames := seq(PagesNr(buf, len), i => first + i);
    forall p: nat, q: nat | buf / PAGE_SIZE <= p < q && PAGE_SIZE * q < buf + len
      ensures m.bus(m.frame(p)) != m.bus(m.frame(q))
    {
      assert q < 0x10_0000_0000_0000;
    }
  }

  /** Its second half: the mapped pages through xdma_xfer_submit. */
  method SubmitMapped(engine: Engine, mach: Machine, m: Memory, segs: seq<Seg>, write: bool, buf: u64, count: u32, pos: u64,
                      blen: u32, env: Env)
    returns (res: int)
    requires engine.Valid() && !engine.descLock && m.Valid() && write == (engine.dir == ToDevice)
    requires Bytes(segs) == UserAddrs(m, buf, count) && Total(segs) == count && segs != [] && InBus(segs)
    requires (forall i :: 0 <= i < |segs| ==> segs[i].len <= PAGE_SIZE) && 1 <= blen <= XDMA_DESC_BLEN_MAX
    requires pos + count < U64 && (engine.dir == FromDevice ==> m.Injective(buf, count))
    modifies engine`descLock, engine.desc, mach
    ensures !engine.descLock
    ensures if env.offline then res == -16
      else if !env.mapOk then res == -5
      else if !env.allocOk then res == -12
      else res == count || (env.troubles != map[] && res in {-16, -5, -512})
    ensures env.Honest() ==>
      CopiedPrefix(engine.nonIncrAddr, engine.dir, m, buf, pos, count, old(mach.io), mach.io, res >= 0)
    ensures env.Honest() && res >= 0 ==>
      CopiedIo(engine.nonIncrAddr, engine.dir, m, buf, pos, count, old(mach.io), mach.io)
  {
    UserDistinctWhen(engine.dir, m, buf, count);
    TableEnough(segs, blen);
    ghost var k := VerdictsMean(env, |CutAll(segs, blen)|, 0);
    var sgt := new SgTable(segs, 0);
    ghost var io := mach.io;
    res := XferSubmit(engine, sgt, mach, write, pos, false, blen, env);
    if env.Honest() {
      PrefixCopied(engine.nonIncrAddr, engine.dir, m, buf, pos, count, io, mach.io, res >= 0);
    }
  }

  /** char_sgdma_read_write. Success returns the length. If no batch is marked COMPLETED with descriptors missing, it
      means that the whole buffer was copied; on every other path some first part of it was, and nothing else changed. */
  method CharSgdmaReadWrite(engine: Engine, mach: Machine, m: Memory, write: bool, buf: u64, count: u32, pos: u64,
                            addrAlign: u32, lenGranularity: u32, blen: u32, sgOk: bool, pagesOk: bool, pin: Pin, env: Env)
    returns (res: int)
    requires engine.Valid() && !engine.descLock && m.Valid()
    requires buf + count <= U64 && pos + count < U64
    requires 1 <= blen <= XDMA_DESC_BLEN_MAX
    requires if pin.Pinned? then m.Pins(pin.frames, buf) else pin.errno < 0
    requires engine.dir == FromDevice ==> m.Injective(buf, count)
    modifies engine`descLock, engine.desc, mach
    ensures !engine.descLock
    ensures var admitted := Admitted(engine, write, buf, count, pos, addrAlign, lenGranularity, sgOk, pagesOk, pin, env);
      (res >= 0 ==> res == count && admitted) && (admitted && env.troubles == map[] ==> res == count)
    ensures var aligned := CheckTransferAlign(engine.nonIncrAddr, addrAlign, lenGranularity, buf, count, pos, true) == 0;
      if write != (engine.dir == ToDevice) || !aligned || PagesNr(buf, count) == 0 then res == -22
      else if !sgOk || !pagesOk then res == -12
      else if pin.PinError? then res == pin.errno
      else if |pin.frames| != PagesNr(buf, count) || Duplicate(pin.frames) then res == -14
      else if env.offline then res == -16
      else if !env.mapOk then res == -5
      else if !env.allocOk then res == -12
      else res == count || (env.troubles != map[] && res in {-16, -5, -512})
    ensures env.Honest() ==>
      CopiedPrefix(engine.nonIncrAddr, engine.dir, m, buf, pos, count, old(mach.io), mach.io, res >= 0)
    ensures env.Honest() && res >= 0 ==>
      CopiedIo(engine.nonIncrAddr, engine.dir, m, buf, pos, count, old(mach.io), mach.io)
  {
    NothingCopied(engine.nonIncrAddr, engine.dir, m, buf, pos, count, mach.io);
    if write != (engine.dir == ToDevice) {
      return -EINVAL;
    }
    if CheckTransferAlign(engine.nonIncrAddr, addrAlign, lenGranularity, buf, count, pos, true) != 0 {
      return -EINVAL;
    }
    var rv, sgl := MapUserBuf(buf, count, sgOk, pagesOk, pin);
    if rv < 0 {
      return rv;
    }
    var segs := MapSgl(m, sgl, pin.frames, buf, count);
    res := SubmitMapped(engine, mach, m, segs, write, buf, count, pos, blen, env);
  }

  lemma {:induction false} UserDistinctWhen(dir: Dir, m: Memory, buf: u64, len: nat)
    requires m.Valid() && (dir == FromDevice ==> m.Injective(buf, len))
    ensures dir == FromDevice ==> Distinct(UserAddrs(m, buf, len))
  {
    if dir == FromDevice {
      UserDistinct(m, buf, len);
    }
  }

  /** pci_map_sg on the page entries: the segments address exactly the user buffer. */
  method MapSgl(m: Memory, sgl: seq<Entry>, ghost frames: seq<nat>, buf: u64, count: u32) returns (segs: seq<Seg>)
    requires m.Valid() && m.Pins(frames, buf)
    requires |sgl| == |frames| == PagesNr(buf, count)
    requires forall i :: 0 <= i < |sgl| ==> sgl[i] == PageEntry(frames, buf, count, i)
    ensures Bytes(segs) == UserAddrs(m, buf, count) && Total(segs) == count && |segs| == |sgl|
    ensures InBus(segs) && forall i :: 0 <= i < |segs| ==> segs[i].len <= PAGE_SIZE
  {
    segs := [];
    for i := 0 to |sgl|
      invariant |segs| == i && Tiles(m, segs, frames, buf, count)
      invariant InBus(segs) && forall k :: 0 <= k < |segs| ==> segs[k].len <= PAGE_SIZE
    {
      PageAddrs(m, frames, buf, count, i);
      segs := segs + [m.Mapped(sgl[i])];
    }
    UserBytes(m, segs, frames, buf, count);
    assert |Bytes(segs)| == Total(segs);
  }

  // ---- Alignment of everything that is generated ----

  lemma {:induction false} PieceAddr(sd: seq<Seg>, i: nat)
    requires i < |sd| && sd[i].len > 0
    ensures Total(sd[..i]) < Total(sd) && Bytes(sd)[Total(sd[..i])] == sd[i].addr
  {
    BytesPrefix(sd, i + 1);
    BytesSnoc(sd, i);
    BytesPrefix(sd, i);
    assert Bytes(sd[..i + 1])[Total(sd[..i])] == Span(sd[i].addr, sd[i].len)[0];
  }

  /** A user byte keeps its residue on the bus. */
  lemma {:induction false} AddrResidue(m: Memory, v: nat, a: nat)
    requires m.Valid() && a > 0 && PAGE_SIZE % a == 0
    ensures m.Addr(v) % a == v % a
  {
    var b := m.bus(m.frame(v / PAGE_SIZE));
    DivModUnique(m.Addr(v), PAGE_SIZE, b / PAGE_SIZE, v % PAGE_SIZE);
    var n := PAGE_SIZE / a;
    assert n * a == PAGE_SIZE;
    ModMod(m.Addr(v), n, a);
    ModMod(v, n, a);
  }

  /** Piece i starts T bytes into the transfer on both sides. */
  lemma {:induction false} PieceResidue(m: Memory, buf: u64, count: u32, pos: u64, sd: seq<Seg>, align: u32, i: nat)
    requires m.Valid() && align > 0 && PAGE_SIZE % align == 0 && pos + count < U64
    requires i < |sd| && sd[i].len > 0 && Bytes(sd) == UserAddrs(m, buf, count)
    ensures sd[i].addr % align == (buf + Total(sd[..i])) % align
    ensures EpAt(sd, pos, false, i) == pos + Total(sd[..i])
    ensures buf % align == pos % align ==> sd[i].addr % align == EpAt(sd, pos, false, i) % align
  {
    var t := Total(sd[..i]);
    PieceAddr(sd, i);
    EpExact(sd, pos, i);
    AddrResidue(m, buf + t, align);
    ModAdd(buf, t, align);
    ModAdd(pos, t, align);
  }

  /** In incremental mode, source and destination of every descriptor of every batch agree modulo the
      alignment exactly when the entry check accepted. */
  lemma {:induction false} AlignmentExact(m: Memory, buf: u64, count: u32, pos: u64, sd: seq<Seg>, align: u32, k: nat, g: u32)
    requires m.Valid() && k <= 12 && align == Pow2(k) && pos + count < U64
    requires count > 0 && Bytes(sd) == UserAddrs(m, buf, count) && forall i :: 0 <= i < |sd| ==> sd[i].len > 0
    ensures CheckTransferAlign(false, align, g, buf, count, pos, true) == 0
      <==> forall i :: 0 <= i < |sd| ==> sd[i].addr % align == EpAt(sd, pos, false, i) % align
  {
    PowDivides(k);
    AlignAccepts(align, k, g, buf, count, pos, true);
    if buf % align == pos % align {
      forall i | 0 <= i < |sd|
        ensures sd[i].addr % align == EpAt(sd, pos, false, i) % align
      {
        PieceResidue(m, buf, count, pos, sd, align, i);
      }
    } else {
      assert sd != [] by { assert |Bytes(sd)| == count; }
      assert sd[..0] == [];
      PieceResidue(m, buf, count, pos, sd, align, 0);
    }
  }

  /** The same for the hardware's view: piece i of a batch starting at piece b. */
  lemma {:induction false} DescriptorEnds(sd: seq<Seg>, pos: u64, b: nat, i: nat, dir: Dir, bus: u64)
    requires PageAligned(bus) && b < |sd| && i < |Batch(sd, b)|
    ensures var d := Compiled(Batch(sd, b), EpAt(sd, pos, false, b), false, dir, bus, i);
      if dir == ToDevice then d.Src() == sd[b + i].addr && d.Dst() == EpAt(sd, pos, false, b + i)
      else d.Src() == EpAt(sd, pos, false, b + i) && d.Dst() == sd[b + i].addr
  {
    var p := Batch(sd, b);
    EpCompose(sd, p, pos, false, b, i);
    FilledFields(Compiled(p, EpAt(sd, pos, false, b), false, dir, bus, i), p[i], EpAt(sd, pos, false, b + i), dir);
  }

  /** Once the entry check has accepted, source and destination of every descriptor of every batch agree modulo the
      alignment. */
  lemma {:induction false} DescriptorsAligned(m: Memory, buf: u64, count: u32, pos: u64, segs: seq<Seg>, blen: u32,
                                              align: u32, k: nat, g: u32, b: nat, i: nat, dir: Dir, bus: u64)
    requires m.Valid() && k <= 12 && align == Pow2(k) && pos + count < U64 && PageAligned(bus)
    requires blen >= 1 && InBus(segs) && Bytes(segs) == UserAddrs(m, buf, count)
    requires CheckTransferAlign(false, align, g, buf, count, pos, true) == 0
    requires b < |CutAll(segs, blen)| && i < |Batch(CutAll(segs, blen), b)|
    ensures var sd := CutAll(segs, blen); var d := Compiled(Batch(sd, b), EpAt(sd, pos, false, b), false, dir, bus, i);
      d.Src() % align == d.Dst() % align
  {
    var sd := CutAll(segs, blen);
    CutAllKeepsBytes(segs, blen);
    PowDivides(k);
    AlignAccepts(align, k, g, buf, count, pos, true);
    PieceResidue(m, buf, count, pos, sd, align, b + i);
    DescriptorEnds(sd, pos, b, i, dir, bus);
  }
}
