/** char_sgdma_map_user_buf_to_sgl: cutting a user buffer into pages, and the alignment
    check in front of it. */
module UserBuffer {
  import opened Words
  import opened Segments

  const EIO: int := 5
  const ENOMEM: int := 12
  const EFAULT: int := 14
  const EBUSY: int := 16
  const EINVAL: int := 22
  const ERESTARTSYS: int := 512

  /** A scatterlist entry before mapping: a page frame and the bytes used in it. */
  datatype Entry = Entry(page: nat, offset: nat, len: u32)

  /** get_user_pages_fast: an error, or the frames it pinned. */
  datatype Pin = PinError(errno: int) | Pinned(frames: seq<nat>)

  function PagesNr(buf: u64, len: nat): nat {
    (buf % PAGE_SIZE + len + PAGE_SIZE - 1) / PAGE_SIZE
  }

  /** Where page i of the buffer starts, counted from the buffer's first byte. */
  function PageStart(buf: u64, len: nat, i: nat): nat {
    Min(if i == 0 then 0 else PAGE_SIZE * i - buf % PAGE_SIZE, len)
  }

  /** The part of the buffer in its page i. */
  function PageEntry(frames: seq<nat>, buf: u64, len: u32, i: nat): Entry
    requires i < |frames|
  {
    var offset := if i == 0 then buf % PAGE_SIZE else 0;
    Entry(frames[i], offset, Min(PAGE_SIZE - offset, len - PageStart(buf, len, i)))
  }

  predicate Duplicate(frames: seq<nat>) {
    exists i :: 0 < i < |frames| && frames[i - 1] == frames[i]
  }

  /** The 64-bit computation of pages_nr is exact even when its first sum wraps. */
  lemma {:induction false} PagesNrWraps(buf: u64, len: u32)
    ensures ((buf + len + PAGE_SIZE - 1) % U64 - (buf - buf % PAGE_SIZE)) % U64 / PAGE_SIZE == PagesNr(buf, len)
  {
    var sum, low := buf + len + PAGE_SIZE - 1, buf - buf % PAGE_SIZE;
    if sum < U64 {
      assert sum % U64 == sum && (sum - low) % U64 == sum - low;
    } else {
      assert sum % U64 == sum - U64;
      assert (sum - U64 - low) % U64 == sum - low;
    }
  }

  /** char_sgdma_map_user_buf_to_sgl. */
  method MapUserBuf(buf: u64, len: u32, sgOk: bool, pagesOk: bool, pin: Pin) returns (rv: int, sgl: seq<Entry>)
    requires buf + len <= U64
    requires pin.PinError? ==> pin.errno < 0
    ensures rv ==
      if PagesNr(buf, len) == 0 then -22
      else if !sgOk || !pagesOk then -12
      else if pin.PinError? then pin.errno
      else if |pin.frames| != PagesNr(buf, len) || Duplicate(pin.frames) then -14
      else 0
    ensures rv == 0 ==>
      |sgl| == PagesNr(buf, len) && forall i :: 0 <= i < |sgl| ==> sgl[i] == PageEntry(pin.frames, buf, len, i)
  {
    sgl := [];
    PagesNrWraps(buf, len);
    var pagesNr := ((buf + len + PAGE_SIZE - 1) % U64 - (buf - buf % PAGE_SIZE)) % U64 / PAGE_SIZE;
    if pagesNr == 0 {
      return -EINVAL, [];
    }
    if !sgOk || !pagesOk {
      return -ENOMEM, [];
    }
    if pin.PinError? {
      return pin.errno, [];
    }
    var pages := pin.frames;
    if |pages| != pagesNr {
      return -EFAULT, [];
    }
    for i := 1 to pagesNr
      invariant forall k :: 0 < k < i ==> pages[k - 1] != pages[k]
    {
      if pages[i - 1] == pages[i] {
        return -EFAULT, [];
      }
    }
    sgl := FillEntries(pages, buf, len);
    return 0, sgl;
  }

  /** Where the filling loop stands at page i, and how far its entry takes it. */
  lemma {:induction false} PageCursor(buf: u64, len: u32, i: nat)
    requires i < PagesNr(buf, len)
    ensures var at, offset := PageStart(buf, len, i), if i == 0 then buf % PAGE_SIZE else 0;
      && (buf + at) % PAGE_SIZE == offset && at <= len
      && PageStart(buf, len, i + 1) == at + Min(PAGE_SIZE - offset, len - at)
  {
    if i > 0 {
      DivModUnique(buf + PageStart(buf, len, i), PAGE_SIZE, buf / PAGE_SIZE + i, 0);
    }
  }

  /** The filling loop. */
  method FillEntries(pages: seq<nat>, buf: u64, len: u32) returns (sgl: seq<Entry>)
    requires buf + len <= U64 && |pages| == PagesNr(buf, len)
    ensures |sgl| == |pages| && forall i :: 0 <= i < |sgl| ==> sgl[i] == PageEntry(pages, buf, len, i)
  {
    var sg := new Entry[|pages|](_ => Entry(0, 0, 0));
    var cur: nat, left: nat := buf, len;
    for i := 0 to |pages|
      invariant cur == buf + PageStart(buf, len, i) && left == len - PageStart(buf, len, i)
      invariant forall k :: 0 <= k < i ==> sg[k] == PageEntry(pages, buf, len, k)
    {
      PageCursor(buf, len, i);
      var offset := cur % PAGE_SIZE;
      var nbytes := Min(PAGE_SIZE - offset, left);
      sg[i] := Entry(pages[i], offset, nbytes);
      cur := cur + nbytes;
      left := left - nbytes;
    }
    assert left == 0;   // BUG_ON(len)
    sgl := sg[..];
  }

  // ---- What the entries mean ----

  /** The process's page table and the device's view of physical frames. */
  datatype Memory = Memory(frame: nat -> nat, bus: nat -> nat)
  {
    /** Frames are page aligned on the bus; pci_map_sg keeps the offset in the page. */
    ghost predicate Valid() {
      forall f: nat :: bus(f) % PAGE_SIZE == 0 && bus(f) + PAGE_SIZE <= U64
    }

    /** The pages of the buffer [buf, buf + len) are distinct on the bus. */
    ghost predicate Injective(buf: nat, len: nat) {
      forall p: nat, q: nat :: buf / PAGE_SIZE <= p < q && PAGE_SIZE * q < buf + len ==> bus(frame(p)) != bus(frame(q))
    }

    /** The bus address of the byte at a user virtual address. */
    function Addr(v: nat): nat {
      bus(frame(v / PAGE_SIZE)) + v % PAGE_SIZE
    }

    /** The pages pinned for a buffer are the process's own. */
    ghost predicate Pins(frames: seq<nat>, buf: u64) {
      forall i :: 0 <= i < |frames| ==> frames[i] == frame(buf / PAGE_SIZE + i)
    }

    /** pci_map_sg: one bus segment per entry, not merged. */
    function Mapped(e: Entry): Seg
      requires bus(e.page) + e.offset < U64
    {
      Seg(bus(e.page) + e.offset, e.len)
    }
  }

  /** The bus addresses of the user bytes [buf, buf + len), in order. */
  function UserAddrs(m: Memory, buf: u64, len: nat): seq<nat> {
    seq<nat>(len, k requires 0 <= k < len => m.Addr(buf + k))
  }

  ghost predicate Tiles(m: Memory, segs: seq<Seg>, frames: seq<nat>, buf: u64, len: u32)
    requires m.Valid() && |segs| <= |frames|
  {
    forall i :: 0 <= i < |segs| ==>
      var e := PageEntry(frames, buf, len, i); e.offset < PAGE_SIZE && segs[i] == m.Mapped(e)
  }

  /** Inside page i of the buffer, user addresses and bus addresses advance together. */
  lemma {:induction false} PageAddrs(m: Memory, frames: seq<nat>, buf: u64, len: u32, i: nat)
    requires m.Valid() && m.Pins(frames, buf) && i < |frames|
    ensures var e := PageEntry(frames, buf, len, i);
      && e.offset < PAGE_SIZE
      && PageStart(buf, len, i) + e.len == PageStart(buf, len, i + 1)
      && Span(m.bus(e.page) + e.offset, e.len)
         == UserAddrs(m, buf, len)[PageStart(buf, len, i)..PageStart(buf, len, i + 1)]
  {
    var e := PageEntry(frames, buf, len, i);
    var start := PageStart(buf, len, i);
    var span, part := Span(m.bus(e.page) + e.offset, e.len), UserAddrs(m, buf, len)[start..start + e.len];
    forall k | 0 <= k < e.len
      ensures span[k] == part[k]
    {
      assert part[k] == m.Addr(buf + start + k) && e.page == m.frame(buf / PAGE_SIZE + i);
      DivModUnique(buf + start + k, PAGE_SIZE, buf / PAGE_SIZE + i, e.offset + k);
    }
  }

  lemma {:induction false} TileStep(segs: seq<Seg>, i: nat, all: seq<nat>, mid: nat, end: nat)
    requires i < |segs| && mid <= end <= |all|
    requires Bytes(segs[..i]) == all[..mid] && Span(segs[i].addr, segs[i].len) == all[mid..end]
    ensures Bytes(segs[..i + 1]) == all[..end]
  {
    BytesSnoc(segs, i);
    assert all[..mid] + all[mid..end] == all[..end];
  }

  /** The entries cover the buffer: in order, they address exactly its bytes. */
  lemma {:induction false} TilesBytes(m: Memory, segs: seq<Seg>, frames: seq<nat>, buf: u64, len: u32, i: nat)
    requires m.Valid() && m.Pins(frames, buf) && i <= |segs| <= |frames| && Tiles(m, segs, frames, buf, len)
    ensures Bytes(segs[..i]) == UserAddrs(m, buf, len)[..PageStart(buf, len, i)]
  {
    if i > 0 {
      TilesBytes(m, segs, frames, buf, len, i - 1);
      PageAddrs(m, frames, buf, len, i - 1);
      var e := PageEntry(frames, buf, len, i - 1);
      assert segs[i - 1].addr == m.bus(e.page) + e.offset && segs[i - 1].len == e.len;
      TileStep(segs, i - 1, UserAddrs(m, buf, len), PageStart(buf, len, i - 1), PageStart(buf, len, i));
    }
  }

  lemma {:induction false} UserBytes(m: Memory, segs: seq<Seg>, frames: seq<nat>, buf: u64, len: u32)
    requires m.Valid() && m.Pins(frames, buf)
    requires |segs| == |frames| == PagesNr(buf, len) && Tiles(m, segs, frames, buf, len)
    ensures Bytes(segs) == UserAddrs(m, buf, len)
  {
    TilesBytes(m, segs, frames, buf, len, |segs|);
    assert segs[..|segs|] == segs;
    assert PageStart(buf, len, |segs|) == len;
  }

  /** pages_nr counts the pages the buffer touches, and each entry is non-empty and in one page. */
  lemma {:induction false} PagesTouched(frames: seq<nat>, buf: u64, len: u32, i: nat)
    requires len > 0 && i < PagesNr(buf, len) == |frames|
    ensures PagesNr(buf, len) == (buf + len - 1) / PAGE_SIZE - buf / PAGE_SIZE + 1
    ensures var e := PageEntry(frames, buf, len, i); 0 < e.len && e.offset + e.len <= PAGE_SIZE
  {
    var last := buf % PAGE_SIZE + len - 1;
    DivModUnique(buf + len - 1, PAGE_SIZE, buf / PAGE_SIZE + last / PAGE_SIZE, last % PAGE_SIZE);
    DivModUnique(last + PAGE_SIZE, PAGE_SIZE, last / PAGE_SIZE + 1, last % PAGE_SIZE);
  }

  // ---- Alignment ----

  /** check_transfer_align; the masks are computed on 32-bit (buffer, position) and 64-bit (count) values. */
  function CheckTransferAlign(nonIncr: bool, addrAlign: u32, lenGranularity: u32,
                              buf: u64, count: u64, pos: u64, sync: bool): int {
    var mask := (addrAlign - 1) % U32;
    var bufLsb, posLsb := And(buf % U32, mask), And(pos % U32, mask);
    if nonIncr then
      if bufLsb != 0 || (posLsb != 0 && sync) || And(count, (lenGranularity - 1) % U64) != 0 then -EINVAL else 0
    else if bufLsb != posLsb then -EINVAL
    else 0
  }

  /** In incremental mode, with a power-of-two alignment up to a page, the check accepts exactly when
      buffer and position agree modulo the alignment. */
  lemma {:induction false} AlignAccepts(align: u32, k: nat, g: u32, buf: u64, count: u64, pos: u64, sync: bool)
    requires k <= 12 && align == Pow2(k)
    ensures CheckTransferAlign(false, align, g, buf, count, pos, sync) == 0
            <==> buf % align == pos % align
  {
    MaskedLow(buf, k);
    MaskedLow(pos, k);
  }

  /** In non-incremental mode, with powers of two, it accepts exactly when the buffer and, for synchronous I/O, the
      position are aligned and the length is a multiple of the granularity. */
  lemma {:induction false} AlignAcceptsFifo(align: u32, k: nat, g: u32, l: nat, buf: u64, count: u64, pos: u64, sync: bool)
    requires k <= 12 && align == Pow2(k) && l <= 12 && g == Pow2(l)
    ensures CheckTransferAlign(true, align, g, buf, count, pos, sync) == 0
            <==> buf % align == 0 && (sync ==> pos % align == 0) && count % g == 0
  {
    MaskedLow(buf, k);
    MaskedLow(pos, k);
    MaskedLength(count, l);
  }

  lemma {:induction false} MaskedLength(x: u64, l: nat)
    requires l <= 12
    ensures And(x, (Pow2(l) - 1) % U64) == x % Pow2(l)
  {
    PowDivides(l);
    var g := Pow2(l);
    assert (g - 1) % U64 == g - 1;
    AndMask(x, l);
  }

  lemma {:induction false} MaskedLow(x: nat, k: nat)
    requires k <= 12
    ensures And(x % U32, (Pow2(k) - 1) % U32) == x % Pow2(k)
  {
    PowDivides(k);
    var a := Pow2(k);
    assert (a - 1) % U32 == a - 1;
    AndMask(x % U32, k);
    ModMod(x, U32 / a, a);
  }

  lemma {:induction false} PowDivides(k: nat)
    requires k <= 12
    ensures 1 <= Pow2(k) <= PAGE_SIZE && PAGE_SIZE % Pow2(k) == 0 && U32 == (U32 / Pow2(k)) * Pow2(k)
  {
    if k == 0 {} else if k == 1 {} else if k == 2 {} else if k == 3 {} else if k == 4 {} else if k == 5 {}
    else if k == 6 {} else if k == 7 {} else if k == 8 {} else if k == 9 {} else if k == 10 {} else if k == 11 {} else {}
  }

  lemma {:induction false} ModMod(x: nat, n: nat, a: nat)
    requires n > 0 && a > 0
    ensures (x % (n * a)) % a == x % a
  {
    var q, r := x / (n * a), x % (n * a);
    var m := q * n + r / a;
    calc {
      x;
      q * (n * a) + r;
      (q * n) * a + ((r / a) * a + r % a);
      m * a + r % a;
    }
    DivModUnique(x, a, m, r % a);
  }
}
