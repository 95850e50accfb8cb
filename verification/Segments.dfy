/** Scatter-gather segments, what a list of them means, and xdma_init_request's cut at
    the descriptor length limit. */
module Segments {
  import opened Words

  /** A mapped scatterlist entry, or one software descriptor. */
  datatype Seg = Seg(addr: u64, len: u32)

  function Total(s: seq<Seg>): nat {
    if s == [] then 0 else Total(s[..|s| - 1]) + s[|s| - 1].len
  }

  /** The sum of the first i lengths as the driver keeps it, in 32 bits. */
  function Total32(s: seq<Seg>, i: nat): u32
    requires i <= |s|
  {
    if i == 0 then 0 else Add32(Total32(s, i - 1), s[i - 1].len)
  }

  lemma {:induction false} Total32Exact(s: seq<Seg>, i: nat)
    requires i <= |s| && Total(s[..i]) < U32
    ensures Total32(s, i) == Total(s[..i])
  {
    if i > 0 {
      assert s[..i][..i - 1] == s[..i - 1];
      Total32Exact(s, i - 1);
    }
  }

  function Span(addr: nat, len: nat): (r: seq<nat>) {
    seq(len, i requires 0 <= i < len => addr + i)
  }

  /** The meaning of a segment list: the bus address of every byte, in order. */
  function Bytes(s: seq<Seg>): (r: seq<nat>)
    ensures |r| == Total(s)
  {
    if s == [] then [] else Bytes(s[..|s| - 1]) + Span(s[|s| - 1].addr, s[|s| - 1].len)
  }

  lemma {:induction false} BytesSnoc(s: seq<Seg>, i: nat)
    requires i < |s|
    ensures Bytes(s[..i + 1]) == Bytes(s[..i]) + Span(s[i].addr, s[i].len)
  {
    assert s[..i + 1][..i] == s[..i];
  }

  lemma {:induction false} BytesAppend(a: seq<Seg>, b: seq<Seg>)
    ensures Bytes(a + b) == Bytes(a) + Bytes(b)
  {
    if b == [] {
      assert a + b == a;
    } else {
      var init := b[..|b| - 1];
      BytesAppend(a, init);
      var ab := a + b;
      assert ab[..|ab| - 1] == a + init && ab[|ab| - 1] == b[|b| - 1];
      var last := Span(b[|b| - 1].addr, b[|b| - 1].len);
      assert (Bytes(a) + Bytes(init)) + last == Bytes(a) + (Bytes(init) + last);
    }
  }

  /** The addresses of a segment do not wrap the 64-bit bus. */
  predicate InBus(s: seq<Seg>) {
    forall i :: 0 <= i < |s| ==> s[i].addr + s[i].len <= U64
  }

  /** The pieces the inner loop of xdma_init_request cuts one segment into. */
  function Cut(s: Seg, blen: u32): seq<Seg>
    requires blen >= 1 && s.addr + s.len <= U64
    decreases s.len
  {
    if s.len == 0 then []
    else if s.len > blen then [Seg(s.addr, blen)] + Cut(Seg(s.addr + blen, s.len - blen), blen)
    else [s]
  }

  function CutAll(s: seq<Seg>, blen: u32): seq<Seg>
    requires blen >= 1 && InBus(s)
  {
    if s == [] then [] else CutAll(s[..|s| - 1], blen) + Cut(s[|s| - 1], blen)
  }

  /** Slots the sizing loop reserves for a segment: one, plus `extra` computed in 32 bits. */
  function Slots(len: u32, blen: u32): nat
    requires blen >= 1
  {
    1 + (if len > blen then (len + blen - 1) % U32 / blen else 0)
  }

  /** The sizing computation does not wrap. */
  predicate SlotsFit(len: u32, blen: u32) {
    len <= blen || len + blen <= U32
  }

  predicate AllSlotsFit(s: seq<Seg>, blen: u32) {
    forall i :: 0 <= i < |s| ==> SlotsFit(s[i].len, blen)
  }

  function SlotsAll(s: seq<Seg>, blen: u32): nat
    requires blen >= 1
  {
    if s == [] then 0 else SlotsAll(s[..|s| - 1], blen) + Slots(s[|s| - 1].len, blen)
  }

  lemma {:induction false} SpanAppend(addr: nat, m: nat, n: nat)
    ensures Span(addr, m) + Span(addr + m, n) == Span(addr, m + n)
  {
  }

  lemma {:induction false} BytesOne(x: Seg)
    ensures Bytes([x]) == Span(x.addr, x.len)
  {
    assert [x][..0] == [];
  }

  predicate Sized(p: seq<Seg>, blen: u32) {
    forall i :: 0 <= i < |p| ==> 1 <= p[i].len <= blen
  }

  lemma {:induction false} CutSized(s: Seg, blen: u32)
    requires blen >= 1 && s.addr + s.len <= U64
    ensures InBus(Cut(s, blen)) && Sized(Cut(s, blen), blen)
    decreases s.len
  {
    if s.len > blen {
      CutSized(Seg(s.addr + blen, s.len - blen), blen);
    }
  }

  lemma {:induction false} CutKeepsBytes(s: Seg, blen: u32)
    requires blen >= 1 && s.addr + s.len <= U64
    ensures Bytes(Cut(s, blen)) == Span(s.addr, s.len)
    decreases s.len
  {
    if s.len > blen {
      var rest := Cut(Seg(s.addr + blen, s.len - blen), blen);
      var first := Seg(s.addr, blen);
      calc {
        Bytes([first] + rest);
        { BytesAppend([first], rest); BytesOne(first); }
        Span(s.addr, blen) + Bytes(rest);
        { CutKeepsBytes(Seg(s.addr + blen, s.len - blen), blen); }
        Span(s.addr, blen) + Span(s.addr + blen, s.len - blen);
        { SpanAppend(s.addr, blen, s.len - blen); }
        Span(s.addr, s.len);
      }
    } else if s.len > 0 {
      BytesOne(s);
    }
  }

  /** Cutting keeps the meaning of the list; every piece is non-empty and within the limit. */
  lemma {:induction false} CutAllKeepsBytes(s: seq<Seg>, blen: u32)
    requires blen >= 1 && InBus(s)
    ensures Bytes(CutAll(s, blen)) == Bytes(s)
    ensures InBus(CutAll(s, blen)) && Sized(CutAll(s, blen), blen)
  {
    if s != [] {
      CutAllKeepsBytes(s[..|s| - 1], blen);
      CutKeepsBytes(s[|s| - 1], blen);
      CutSized(s[|s| - 1], blen);
      BytesAppend(CutAll(s[..|s| - 1], blen), Cut(s[|s| - 1], blen));
    }
  }

  lemma {:induction false} CutCount(s: Seg, blen: u32)
    requires blen >= 1 && s.addr + s.len <= U64
    ensures |Cut(s, blen)| == (s.len + blen - 1) / blen
    decreases s.len
  {
    if s.len > blen {
      CutCount(Seg(s.addr + blen, s.len - blen), blen);
      var q := (s.len - 1) / blen;
      DivModUnique(s.len + blen - 1, blen, q + 1, (s.len - 1) % blen);
    } else if s.len > 0 {
      DivModUnique(s.len + blen - 1, blen, 1, s.len - 1);
    } else {
      DivModUnique(blen - 1, blen, 0, blen - 1);
    }
  }

  /** The reserved slots hold a segment's pieces exactly when the 32-bit sizing sum
      does not wrap; past that point the sizing loop reserves a single slot. */
  lemma {:induction false} SlotsEnoughIff(s: Seg, blen: u32)
    requires blen >= 1 && s.addr + s.len <= U64
    ensures |Cut(s, blen)| <= Slots(s.len, blen) <==> SlotsFit(s.len, blen)
    ensures Slots(s.len, blen) == if s.len > blen && s.len + blen <= U32 then 1 + |Cut(s, blen)| else 1
  {
    if s.len > blen {
      if s.len + blen <= U32 {
        CutCount(s, blen);
      } else {
        SlotsWrap(s.len, blen);
      }
    }
  }

  lemma {:induction false} SlotsWrap(len: u32, blen: u32)
    requires 1 <= blen < len && len + blen > U32
    ensures Slots(len, blen) == 1
  {
    var sum := len + blen - 1;
    DivModUnique(sum, U32, 1, sum - U32);
    DivModUnique(sum - U32, blen, 0, sum - U32);
  }

  /** The pieces of the table fit the slots reserved: the condition of the BUG_ON. */
  predicate TableFits(s: seq<Seg>, blen: u32)
    requires blen >= 1 && InBus(s)
  {
    |CutAll(s, blen)| <= SlotsAll(s, blen)
  }

  predicate NonEmpty(s: seq<Seg>) {
    forall i :: 0 <= i < |s| ==> s[i].len > 0
  }

  lemma {:induction false} LenWithin(s: seq<Seg>, i: nat)
    requires i < |s|
    ensures s[i].len <= Total(s)
  {
    if i < |s| - 1 {
      LenWithin(s[..|s| - 1], i);
    }
  }

  /** Segments within the limit are one piece and one slot each. */
  lemma {:induction false} OneEach(s: seq<Seg>, blen: u32)
    requires blen >= 1 && InBus(s) && Sized(s, blen)
    ensures |CutAll(s, blen)| == |s| == SlotsAll(s, blen)
  {
    if s != [] {
      OneEach(s[..|s| - 1], blen);
    }
  }

  lemma {:induction false} TableEnough(s: seq<Seg>, blen: u32)
    requires blen >= 1 && InBus(s) && AllSlotsFit(s, blen)
    ensures TableFits(s, blen)
  {
    if s != [] {
      TableEnough(s[..|s| - 1], blen);
      SlotsEnoughIff(s[|s| - 1], blen);
    }
  }

  lemma {:induction false} TableShort(s: seq<Seg>, blen: u32)
    requires blen >= 1 && InBus(s) && NonEmpty(s) && Total(s) < U32 && !AllSlotsFit(s, blen)
    ensures !TableFits(s, blen)
  {
    var init, last := s[..|s| - 1], s[|s| - 1];
    assert s == init + [last];
    if !SlotsFit(last.len, blen) {
      forall i | 0 <= i < |init|
        ensures 1 <= init[i].len <= blen
      {
        LenWithin(init, i);
      }
      OneEach(init, blen);
      SlotsEnoughIff(last, blen);
    } else {
      var i :| 0 <= i < |s| && !SlotsFit(s[i].len, blen);
      assert init[i] == s[i];
      LenWithin(init, i);
      assert last.len < blen;
      TableShort(init, blen);
    }
  }

  /** The whole table: for non-empty segments of less than 4 GB together, the slots reserved hold the pieces, and the
      BUG_ON on the piece count stays silent, exactly when no sizing sum wraps. */
  lemma {:induction false} TableEnoughIff(s: seq<Seg>, blen: u32)
    requires blen >= 1 && InBus(s) && NonEmpty(s) && Total(s) < U32
    ensures TableFits(s, blen) <==> AllSlotsFit(s, blen)
  {
    if AllSlotsFit(s, blen) {
      TableEnough(s, blen);
    } else {
      TableShort(s, blen);
    }
  }

  datatype Request = OutOfMemory | Request(sdesc: seq<Seg>, totalLen: u32)

  /** Room is left for segment i after the segments before it. */
  lemma {:induction false} CutFits(s: seq<Seg>, i: nat, blen: u32)
    requires blen >= 1 && i < |s| && InBus(s) && TableFits(s, blen)
    ensures CutAll(s[..i + 1], blen) == CutAll(s[..i], blen) + Cut(s[i], blen)
    ensures |CutAll(s[..i], blen)| + |Cut(s[i], blen)| <= SlotsAll(s, blen)
  {
    assert s[..i + 1][..i] == s[..i];
    CutGrow(s, i + 1, blen);
  }

  lemma {:induction false} CutGrow(s: seq<Seg>, i: nat, blen: u32)
    requires blen >= 1 && i <= |s| && InBus(s)
    ensures |CutAll(s[..i], blen)| <= |CutAll(s, blen)|
  {
    if i == |s| {
      assert s[..i] == s;
    } else {
      CutGrow(s[..|s| - 1], i, blen);
      assert s[..|s| - 1][..i] == s[..i];
    }
  }

  /** The inner loop of xdma_init_request: one segment into consecutive slots. */
  method CutInto(sdesc: array<Seg>, j0: nat, s: Seg, blen: u32) returns (j: nat)
    requires blen >= 1 && s.addr + s.len <= U64
    requires j0 + |Cut(s, blen)| <= sdesc.Length
    modifies sdesc
    ensures j == j0 + |Cut(s, blen)|
    ensures sdesc[..j] == old(sdesc[..j0]) + Cut(s, blen)
  {
    j := j0;
    var tlen: u32, addr: nat := s.len, s.addr;
    ghost var goal := old(sdesc[..j0]) + Cut(s, blen);
    while tlen > 0
      invariant addr + tlen <= U64 && (tlen > 0 ==> addr < U64)
      invariant j0 <= j <= |goal| && sdesc[..j] == goal[..j]
      invariant goal[j..] == if tlen > 0 then Cut(Seg(addr, tlen), blen) else []
    {
      ghost var rest := goal[j..];
      if tlen > blen {
        sdesc[j] := Seg(addr, blen);
        addr := addr + blen;
        tlen := tlen - blen;
      } else {
        sdesc[j] := Seg(addr, tlen);
        tlen := 0;
      }
      assert rest[0] == goal[j] && rest[1..] == goal[j + 1..];
      j := j + 1;
    }
  }

  /** The sizing loop of xdma_init_request. */
  method CountSlots(segs: seq<Seg>, blen: u32) returns (max: nat)
    requires blen >= 1
    ensures max == SlotsAll(segs, blen)
  {
    var extra := 0;
    for i := 0 to |segs|
      invariant i + extra == SlotsAll(segs[..i], blen)
    {
      assert segs[..i + 1][..i] == segs[..i];
      var len := segs[i].len;
      if len > blen {
        extra := extra + (len + blen - 1) % U32 / blen;
      }
    }
    assert segs[..|segs|] == segs;
    max := |segs| + extra;
  }

  /** xdma_init_request: size the table, then cut every segment into it. */
  method InitRequest(segs: seq<Seg>, blen: u32, allocOk: bool) returns (req: Request)
    requires blen >= 1 && InBus(segs) && TableFits(segs, blen)
    ensures req.OutOfMemory? <==> !allocOk
    ensures req.Request? ==> req.sdesc == CutAll(segs, blen) && req.totalLen == Total32(segs, |segs|)
  {
    var max := CountSlots(segs, blen);
    if !allocOk {
      return OutOfMemory;
    }
    var sdesc := new Seg[max](_ => Seg(0, 0));
    var j, total := 0, 0;
    for i := 0 to |segs|
      invariant 0 <= j <= max
      invariant sdesc[..j] == CutAll(segs[..i], blen)
      invariant total == Total32(segs, i)
    {
      assert segs[..i + 1][..i] == segs[..i];
      CutFits(segs, i, blen);
      total := Add32(total, segs[i].len);
      j := CutInto(sdesc, j, segs[i], blen);
    }
    assert segs[..|segs|] == segs;
    req := Request(sdesc[..j], total);
  }
}
