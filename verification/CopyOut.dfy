/** Copying a received packet to the reader: copy_cyclic_to_user, and what its bytes mean. */
module CopyOut {
  import opened Words
  import opened CyclicChain
  import opened RxRing
  import opened RxFlow
  import opened Hardware

  const EIO: int := 5

  ghost predicate Pages(pages: seq<seq<bv8>>) {
    |pages| == CYCLIC_RX_PAGES_MAX && forall j :: 0 <= j < |pages| ==> |pages[j]| == PAGE_SIZE
  }

  /** Byte p of the ring read from slot `head` on, page after page. */
  function RingByte(pages: seq<seq<bv8>>, head: nat, p: nat): bv8
    requires Pages(pages)
  {
    pages[(head + p / 4096) % 256][p % 4096]
  }

  /** The ring's pages as the copies of a packet find them, one after the other: other pages are being filled meanwhile. */
  ghost predicate Views(views: seq<seq<seq<bv8>>>) {
    views != [] && forall v <- views :: Pages(v)
  }

  /** What the k-th copy finds; after the last view nothing changes any more. */
  function View(views: seq<seq<seq<bv8>>>, k: nat): (pages: seq<seq<bv8>>)
    requires Views(views)
    ensures Pages(pages)
  {
    if k < |views| then views[k] else views[|views| - 1]
  }

  /** Byte p of a packet: of the ring as the copy of its page finds it. */
  function PacketByte(views: seq<seq<seq<bv8>>>, head: nat, p: nat): bv8
    requires Views(views)
  {
    RingByte(View(views, p / 4096), head, p)
  }

  /** What a copy of the k-th page adds. */
  lemma {:induction false} PageBytes(views: seq<seq<seq<bv8>>>, head: nat, k: nat, slot: nat, base: nat)
    requires Views(views) && slot == (head + k) % 256 && base == 4096 * k
    ensures forall q :: 0 <= q < 4096 ==> PacketByte(views, head, base + q) == View(views, k)[slot][q]
  {
    forall q | 0 <= q < 4096
      ensures PacketByte(views, head, base + q) == View(views, k)[slot][q]
    {
      PageOf(k, q);
    }
  }

  /** How many copies a packet takes: one for each page begun of what there is room for, and one of nothing if there is none. */
  function Copies(pktLength: nat, room: nat): nat {
    if pktLength == 0 then 0 else if room == 0 then 1 else (Min(pktLength, room) + 4095) / 4096
  }

  /** Of n copies, the k-th is the first to fail. */
  predicate FirstFault(faults: nat -> bool, n: nat, k: nat) {
    k < n && faults(k) && forall j :: 0 <= j < k ==> !faults(j)
  }

  /** The k-th copy is one of them, and the last one if the packet or the room ends with it. */
  lemma {:induction false} CopyCounts(pktLength: nat, room: nat, k: nat)
    requires 4096 * k < pktLength && (k == 0 || 4096 * k < room)
    ensures k < Copies(pktLength, room)
    ensures pktLength <= 4096 * (k + 1) || room <= 4096 * (k + 1) ==> Copies(pktLength, room) == k + 1
  {
  }

  lemma {:induction false} PageOf(k: nat, q: nat)
    requires q < 4096
    ensures (4096 * k + q) / 4096 == k && (4096 * k + q) % 4096 == q
  {
  }

  lemma {:induction false} NextSlot(slot: nat, n: nat)
    requires slot == Slot(n)
    ensures (if slot + 1 >= CYCLIC_RX_PAGES_MAX then 0 else slot + 1) == Slot(n + 1)
  {
  }

  class Reader {
    var userBufferIndex: nat

    /** The k-th copy of a packet that began at `from`. */
    method CopyPage(views: seq<seq<seq<bv8>>>, k: nat, slot: nat, buf: array<bv8>, n: nat, ghost from: nat, ghost head: nat)
      requires Views(views) && n <= PAGE_SIZE && from <= userBufferIndex && userBufferIndex + n <= buf.Length
      requires userBufferIndex - from == 4096 * k && slot == Slot(head + k)
      requires forall p :: from <= p < userBufferIndex ==> buf[p] == PacketByte(views, head, p - from)
      modifies this, buf
      ensures userBufferIndex == old(userBufferIndex) + n
      ensures forall p :: from <= p < userBufferIndex ==> buf[p] == PacketByte(views, head, p - from)
      ensures forall p :: 0 <= p < from || userBufferIndex <= p < buf.Length ==> buf[p] == old(buf[p])
    {
      ghost var at := userBufferIndex;
      CopyToUser(buf, userBufferIndex, View(views, k)[slot], n);
      userBufferIndex := userBufferIndex + n;
      PageBytes(views, head, k, slot, at - from);
      forall p | from <= p < userBufferIndex
        ensures buf[p] == PacketByte(views, head, p - from)
      {
        if p >= at {
          var q := p - at;
          assert buf[p] == View(views, k)[slot][q] == PacketByte(views, head, at - from + q);
        }
      }
    }

    /** copy_cyclic_to_user; `faults(k)` tells whether the k-th copy_to_user fails. */
    method CopyCyclicToUser(views: seq<seq<seq<bv8>>>, pktLength: nat, head: nat, buf: array<bv8>, count: nat,
                            faults: nat -> bool)
      returns (r: int)
      requires Views(views) && userBufferIndex <= count <= buf.Length && count < U32
      modifies this, buf
      ensures r == pktLength || r == -5
      ensures r == pktLength <==>
        head < 256 && forall k :: 0 <= k < Copies(pktLength, count - old(userBufferIndex)) ==> !faults(k)
      ensures r == pktLength ==> userBufferIndex == Min(count, old(userBufferIndex) + pktLength)
      ensures r != pktLength && head < 256 ==> exists k: nat ::
        && FirstFault(faults, Copies(pktLength, count - old(userBufferIndex)), k)
        && userBufferIndex == old(userBufferIndex) + 4096 * k
      ensures old(userBufferIndex) <= userBufferIndex <= count
      ensures forall p :: old(userBufferIndex) <= p < userBufferIndex ==>
        buf[p] == PacketByte(views, head, p - old(userBufferIndex))
      ensures forall p :: 0 <= p < buf.Length && !(old(userBufferIndex) <= p < count) ==> buf[p] == old(buf[p])
    {
      ghost var from := userBufferIndex;
      if head >= CYCLIC_RX_PAGES_MAX {
        return -EIO;
      }
      var more: nat, slot := pktLength, head;
      var k := 0;
      while more > 0
        invariant from <= userBufferIndex <= count && userBufferIndex - from + more == pktLength
        invariant slot == Slot(head + k) && (forall j :: 0 <= j < k ==> !faults(j))
        invariant if more > 0 then userBufferIndex - from == 4096 * k && (k == 0 || userBufferIndex < count)
          else k == Copies(pktLength, count - from)
        invariant forall p :: from <= p < userBufferIndex ==> buf[p] == PacketByte(views, head, p - from)
        invariant forall p :: 0 <= p < buf.Length && !(from <= p < count) ==> buf[p] == old(buf[p])
        decreases more
      {
        var copy := if more > PAGE_SIZE then PAGE_SIZE else more;
        var blen := count - userBufferIndex;
        if copy > blen {
          copy := blen;
        }
        CopyCounts(pktLength, count - from, k);
        if faults(k) {
          return -EIO;
        }
        CopyPage(views, k, slot, buf, copy, from, head);
        more := more - copy;
        if userBufferIndex == count {
          break;
        }
        NextSlot(slot, head + k);
        slot := slot + 1;
        if slot >= CYCLIC_RX_PAGES_MAX {
          slot := 0;
        }
        k := k + 1;
      }
      return pktLength;
    }
  }

  /** complete_cyclic: `released` is what it writes to the credits register. rx_overrun is cleared after the lock
      was dropped, and not at all on a fault. */
  method CompleteCyclic(engine: Engine, reader: Reader, views: seq<seq<seq<bv8>>>, buf: array<bv8>, count: nat,
                        faults: nat -> bool)
    returns (rc: int, released: nat)
    requires (buf as object) != engine.results
    requires engine.Valid() && Views(views) && reader.userBufferIndex <= count <= buf.Length && count < U32
    modifies engine, engine.results, reader, buf
    ensures var h := Taken(old(engine.View()));
      && engine.View() == (if h.fault then h.ring else h.ring.(overrun := false))
      && (h.fault ==> rc == -5 && reader.userBufferIndex == old(reader.userBufferIndex) && buf[..] == old(buf[..]))
      && (!h.fault ==> rc == -5 || rc == h.pktLength)
      && (!h.fault ==> (rc == h.pktLength <==>
          forall k :: 0 <= k < Copies(h.pktLength, count - old(reader.userBufferIndex)) ==> !faults(k)))
      && released == (if rc > 0 then h.credits else 0)
    ensures HaulEnds(old(engine.View()), Taken(old(engine.View())))
    ensures rc != -5 ==>
      && reader.userBufferIndex == Min(count, old(reader.userBufferIndex) + rc)
      && forall p :: old(reader.userBufferIndex) <= p < reader.userBufferIndex ==>
        buf[p] == PacketByte(views, old(engine.rxHead), p - old(reader.userBufferIndex))
    ensures forall p :: 0 <= p < buf.Length && !(old(reader.userBufferIndex) <= p < count) ==> buf[p] == old(buf[p])
  {
    released := 0;
    var head := engine.rxHead;
    ghost var ring := engine.View();
    assert HaulEnds(ring, Taken(ring)) by {
      TakenEnds(ring);
    }
    var pktLength, numCredit, fault, taken := engine.TakeResults();
    if fault {
      return -EIO, 0;
    }
    rc := reader.CopyCyclicToUser(views, pktLength, head, buf, count, faults);
    engine.rxOverrun := false;
    if rc > 0 {
      released := numCredit;
    }
  }

  /** A copy_to_user that succeeds. */
  method CopyToUser(buf: array<bv8>, at: nat, page: seq<bv8>, n: nat)
    requires n <= |page| && at + n <= buf.Length
    modifies buf
    ensures forall p :: at <= p < at + n ==> buf[p] == page[p - at]
    ensures forall p :: 0 <= p < at || at + n <= p < buf.Length ==> buf[p] == old(buf[p])
  {
    forall i | 0 <= i < n {
      buf[at + i] := page[i];
    }
  }

  // ---- What the bytes mean ----

  /** The data of consecutive results: of each page, the length its result reports. */
  function Payload(ms: seq<Made>): seq<bv8>
    requires forall m <- ms :: m.result.length <= |m.page|
  {
    if ms == [] then [] else ms[0].page[..ms[0].result.length] + Payload(ms[1..])
  }

  /** Every result but the last fills its page. */
  predicate FullButLast(rs: seq<Result>) {
    forall k :: 0 <= k < |rs| - 1 ==> rs[k].length == PAGE_SIZE
  }

  /** Consecutive results, their pages in the ring from number `base` on. */
  ghost predicate Laid(ms: seq<Made>, pages: seq<seq<bv8>>, base: nat) {
    && Pages(pages) && |ms| <= CYCLIC_RX_PAGES_MAX
    && forall k :: 0 <= k < |ms| ==>
      ms[k].page == pages[Slot(base + k)] && !Faulty(ms[k].result)
  }

  function ResultsOf(ms: seq<Made>): (rs: seq<Result>)
    ensures |rs| == |ms| && forall k :: 0 <= k < |ms| ==> rs[k] == ms[k].result
  {
    seq(|ms|, k requires 0 <= k < |ms| => ms[k].result)
  }

  lemma {:induction false} PayloadLength(ms: seq<Made>)
    requires forall m <- ms :: m.result.length <= |m.page|
    ensures |Payload(ms)| == Lengths(ResultsOf(ms))
  {
    if ms != [] {
      assert ResultsOf(ms)[1..] == ResultsOf(ms[1..]);
      PayloadLength(ms[1..]);
    }
  }

  lemma {:induction false} LaidRest(ms: seq<Made>, pages: seq<seq<bv8>>, base: nat)
    requires Laid(ms, pages, base) && ms != []
    ensures Laid(ms[1..], pages, base + 1) && ms[0].page == pages[Slot(base)]
  {
    assert ms[0].page == pages[Slot(base + 0)];
    forall k | 0 <= k < |ms[1..]|
      ensures ms[1..][k].page == pages[Slot(base + 1 + k)] && !Faulty(ms[1..][k].result)
    {
      assert ms[k + 1].page == pages[Slot(base + (k + 1))];
    }
  }

  lemma {:induction false} SlotOn(base: nat, k: nat)
    requires k > 0
    ensures (Slot(base) + k) % 256 == (Slot(base + 1) + (k - 1)) % 256
  {
  }

  lemma {:induction false} RingByteAt(pages: seq<seq<bv8>>, head: nat, k: nat, q: nat)
    requires Pages(pages) && q < 4096
    ensures RingByte(pages, head, 4096 * k + q) == pages[(head + k) % 256][q]
  {
    PageOf(k, q);
  }

  /** Reading on from the next slot. */
  lemma {:induction false} NextRingByte(pages: seq<seq<bv8>>, base: nat, p: nat)
    requires Pages(pages) && p >= 4096
    ensures RingByte(pages, Slot(base), p) == RingByte(pages, Slot(base + 1), p - 4096)
  {
    var k, q := p / 4096, p % 4096;
    RingByteAt(pages, Slot(base), k, q);
    RingByteAt(pages, Slot(base + 1), k - 1, q);
    SlotOn(base, k);
  }

  /** When every result but the last fills its page, what is copied out is exactly the data of the results. */
  lemma {:induction false} RingIsPayload(ms: seq<Made>, pages: seq<seq<bv8>>, base: nat, p: nat)
    requires Laid(ms, pages, base) && FullButLast(ResultsOf(ms)) && p < |Payload(ms)|
    ensures RingByte(pages, Slot(base), p) == Payload(ms)[p]
  {
    LaidRest(ms, pages, base);
    var len := ms[0].result.length;
    if p >= len {
      assert |ms| > 1 && len == ResultsOf(ms)[0].length;
      assert ResultsOf(ms[1..]) == ResultsOf(ms)[1..];
      NextRingByte(pages, base, p);
      RingIsPayload(ms[1..], pages, base + 1, p - len);
    }
  }

  /** The byte of the payload right after a result k whose predecessors fill their pages. */
  lemma {:induction false} PayloadAfter(ms: seq<Made>, k: nat)
    requires k + 1 < |ms| && forall m <- ms :: |m.page| == PAGE_SIZE && 1 <= m.result.length <= PAGE_SIZE
    requires forall i :: 0 <= i < k ==> ms[i].result.length == PAGE_SIZE
    ensures var p := 4096 * k + ms[k].result.length; p < |Payload(ms)| && Payload(ms)[p] == ms[k + 1].page[0]
  {
    if k > 0 {
      PayloadAfter(ms[1..], k - 1);
      assert ms[0].result.length == PAGE_SIZE;
    }
  }

  /** Whatever the pages hold, the bytes copied out for these results are their data. */
  ghost predicate CopiesPayload(rs: seq<Result>) {
    forall ms: seq<Made>, pages: seq<seq<bv8>> :: Laid(ms, pages, 0) && ResultsOf(ms) == rs ==>
      forall p :: 0 <= p < |Payload(ms)| ==> RingByte(pages, 0, p) == Payload(ms)[p]
  }

  /** Page k all zeros, the others all ones. */
  function Marked(k: nat): (pages: seq<seq<bv8>>)
    ensures Pages(pages)
    ensures forall j, q :: 0 <= j < |pages| && 0 <= q < PAGE_SIZE ==> pages[j][q] == if j == k then 0 else 1
  {
    seq(CYCLIC_RX_PAGES_MAX, j => seq(PAGE_SIZE, _ => if j == k then 0 else 1))
  }

  function Lay(rs: seq<Result>, pages: seq<seq<bv8>>): (ms: seq<Made>)
    requires |rs| <= |pages|
    ensures |ms| == |rs| && forall j :: 0 <= j < |rs| ==> ms[j] == Made(rs[j], pages[j])
  {
    seq(|rs|, j requires 0 <= j < |rs| => Made(rs[j], pages[j]))
  }

  lemma {:induction false} LayIsLaid(rs: seq<Result>, pages: seq<seq<bv8>>)
    requires |rs| <= CYCLIC_RX_PAGES_MAX && (forall r <- rs :: !Faulty(r)) && Pages(pages)
    ensures Laid(Lay(rs, pages), pages, 0) && ResultsOf(Lay(rs, pages)) == rs
  {
  }

  /** Some pages for which a short result in the middle makes the copy take the rest of its page for data. */
  lemma {:induction false} ShortResultMisread(rs: seq<Result>, k: nat) returns (ms: seq<Made>, pages: seq<seq<bv8>>, p: nat)
    requires k + 1 < |rs| <= CYCLIC_RX_PAGES_MAX && forall r <- rs :: !Faulty(r)
    requires rs[k].length < PAGE_SIZE && forall i :: 0 <= i < k ==> rs[i].length == PAGE_SIZE
    ensures Laid(ms, pages, 0) && ResultsOf(ms) == rs && p < |Payload(ms)| && RingByte(pages, 0, p) != Payload(ms)[p]
  {
    pages := Marked(k);
    ms := Lay(rs, pages);
    LayIsLaid(rs, pages);
    var q := rs[k].length;
    p := 4096 * k + q;
    PayloadAfter(ms, k);
    RingByteAt(pages, 0, k, q);
  }

  lemma {:induction false} FirstShort(rs: seq<Result>, n: nat) returns (k: nat)
    requires n < |rs| - 1 && rs[n].length != PAGE_SIZE
    ensures k <= n && rs[k].length != PAGE_SIZE && forall i :: 0 <= i < k ==> rs[i].length == PAGE_SIZE
    decreases n
  {
    k := n;
    if m: nat :| m < n && rs[m].length != PAGE_SIZE {
      k := FirstShort(rs, m);
    }
  }

  /** The copy is right for all page contents exactly when every result but the last fills its page. */
  lemma {:induction false} CopyRightIff(rs: seq<Result>)
    requires |rs| <= CYCLIC_RX_PAGES_MAX && forall r <- rs :: !Faulty(r)
    ensures CopiesPayload(rs) <==> FullButLast(rs)
  {
    if FullButLast(rs) {
      forall ms: seq<Made>, pages: seq<seq<bv8>>, p: nat | Laid(ms, pages, 0) && ResultsOf(ms) == rs && p < |Payload(ms)|
        ensures RingByte(pages, 0, p) == Payload(ms)[p]
      {
        RingIsPayload(ms, pages, 0, p);
      }
    } else {
      var n :| 0 <= n < |rs| - 1 && rs[n].length != PAGE_SIZE;
      var k := FirstShort(rs, n);
      assert rs[k] in rs;
      var ms, pages, p := ShortResultMisread(rs, k);
    }
  }

  /** The hardware ends a page early only at the end of a packet. */
  predicate Packets(made: seq<Made>) {
    forall k :: 0 <= k < |made| ==> Eop(made[k].result) || made[k].result.length == PAGE_SIZE
  }

  lemma {:induction false} WindowLaid(pages: seq<seq<bv8>>, made: seq<Made>, got: seq<Result>, w: Window)
    returns (ms: seq<Made>)
    requires Hold(pages, made, w.start) && InOrder(got, made) && WindowOk(w, got)
    ensures w.start + |w.taken| <= |made| && ms == made[w.start..w.start + |w.taken|]
    ensures Laid(ms, pages, w.start) && ResultsOf(ms) == w.taken
  {
    ms := made[w.start..w.start + |w.taken|];
    forall k | 0 <= k < |ms|
      ensures ms[k].page == pages[Slot(w.start + k)] && ms[k].result == w.taken[k] && !Faulty(w.taken[k])
    {
      WindowPage(pages, made, got, w, k);
    }
  }

  lemma {:induction false} LaidPayload(ms: seq<Made>, pages: seq<seq<bv8>>, base: nat)
    requires Laid(ms, pages, base) && FullButLast(ResultsOf(ms))
    ensures forall m <- ms :: m.result.length <= |m.page|
    ensures |Payload(ms)| == Lengths(ResultsOf(ms))
    ensures forall p :: 0 <= p < |Payload(ms)| ==> RingByte(pages, Slot(base), p) == Payload(ms)[p]
  {
    PayloadLength(ms);
    forall p | 0 <= p < |Payload(ms)|
      ensures RingByte(pages, Slot(base), p) == Payload(ms)[p]
    {
      RingIsPayload(ms, pages, base, p);
    }
  }

  lemma {:induction false} WindowPayload(pages: seq<seq<bv8>>, made: seq<Made>, got: seq<Result>, w: Window)
    requires Hold(pages, made, w.start) && InOrder(got, made) && WindowOk(w, got) && Packets(made)
    ensures w.start + |w.taken| <= |made|
    ensures var ms := made[w.start..w.start + |w.taken|];
      && (forall m <- ms :: m.result.length <= |m.page|) && |Payload(ms)| == w.pktLength
      && forall p :: 0 <= p < w.pktLength ==> RingByte(pages, Slot(w.start), p) == Payload(ms)[p]
  {
    var ms := WindowLaid(pages, made, got, w);
    forall k | 0 <= k < |ms| - 1
      ensures ResultsOf(ms)[k].length == PAGE_SIZE
    {
      assert !Eop(w.taken[k]) && ms[k] == made[w.start + k];
    }
    LaidPayload(ms, pages, w.start);
  }

  /** End to end, in every run: while a reader copies, each byte of the ring from its head on is the data of the
      results it took, so what copy_cyclic_to_user gives it is their payload. */
  lemma {:induction false} ReaderGetsPayload(tr: seq<Sys>, evs: seq<Event>, i: nat)
    requires IsRun(tr, evs) && i < |tr| && tr[i].window.Some? && Packets(tr[i].made)
    ensures var s := tr[i]; var w := s.window.value;
      && w.start + |w.taken| <= |s.made| && Pages(s.pages)
      && var ms := s.made[w.start..w.start + |w.taken|];
        && (forall m <- ms :: m.result.length <= |m.page|)
        && |Payload(ms)| == w.pktLength
        && forall p :: 0 <= p < w.pktLength ==> RingByte(s.pages, Slot(w.start), p) == Payload(ms)[p]
  {
    RunInv(tr, evs, i);
    var s := tr[i];
    WindowPayload(s.pages, s.made, s.got, s.window.value);
  }

  // ---- What arrives in the reader's buffer ----

  /** The hardware's log only grows. */
  lemma {:induction false} MadeGrows(tr: seq<Sys>, evs: seq<Event>, i: nat, j: nat)
    requires IsRun(tr, evs) && i <= j < |tr|
    ensures tr[i].made <= tr[j].made
  {
    if i < j {
      MadeGrows(tr, evs, i, j - 1);
      RunInv(tr, evs, j - 1);
    }
  }

  /** The results a reader took, with the pages the hardware filled for them. */
  function PacketOf(s: Sys, w: Window): seq<Made>
    requires w.start + |w.taken| <= |s.made|
  {
    s.made[w.start..w.start + |w.taken|]
  }

  lemma {:induction false} SamePacket(tr: seq<Sys>, evs: seq<Event>, i: nat, j: nat, w: Window)
    requires IsRun(tr, evs) && i < |tr| && j < |tr|
    requires w.start + |w.taken| <= |tr[i].made| && w.start + |w.taken| <= |tr[j].made|
    ensures PacketOf(tr[i], w) == PacketOf(tr[j], w)
  {
    if i <= j {
      MadeGrows(tr, evs, i, j);
    } else {
      MadeGrows(tr, evs, j, i);
    }
  }

  /** The copies of one packet happen at the steps `at` of a run, all while the reader has the window w. */
  ghost predicate CopiesAt(tr: seq<Sys>, evs: seq<Event>, at: seq<nat>, views: seq<seq<seq<bv8>>>, w: Window) {
    && IsRun(tr, evs) && |at| == |views| > 0
    && forall k :: 0 <= k < |at| ==>
      at[k] < |tr| && tr[at[k]].window == Some(w) && views[k] == tr[at[k]].pages && Packets(tr[at[k]].made)
  }

  /** Whenever the copies happen, what they find is the payload of the results the reader took. */
  lemma {:induction false} ViewsArePayload(tr: seq<Sys>, evs: seq<Event>, at: seq<nat>, views: seq<seq<seq<bv8>>>, w: Window)
    requires CopiesAt(tr, evs, at, views, w)
    ensures Views(views) && at[0] < |tr| && w.start + |w.taken| <= |tr[at[0]].made|
    ensures var ms := PacketOf(tr[at[0]], w);
      && (forall m <- ms :: m.result.length <= |m.page|) && |Payload(ms)| == w.pktLength
      && forall p :: 0 <= p < w.pktLength ==> PacketByte(views, Slot(w.start), p) == Payload(ms)[p]
  {
    forall k | 0 <= k < |views|
      ensures Pages(views[k])
    {
      ReaderGetsPayload(tr, evs, at[k]);
    }
    ReaderGetsPayload(tr, evs, at[0]);
    var ms := PacketOf(tr[at[0]], w);
    forall p | 0 <= p < w.pktLength
      ensures PacketByte(views, Slot(w.start), p) == Payload(ms)[p]
    {
      var k := if p / 4096 < |views| then p / 4096 else |views| - 1;
      ReaderGetsPayload(tr, evs, at[k]);
      SamePacket(tr, evs, at[0], at[k], w);
    }
  }

  /** The copy of a packet in a run whose hardware ends a page early only at the end of a packet: what is appended to the
      reader's buffer is the payload of the results it took, as far as there is room. */
  method CopyPacket(reader: Reader, views: seq<seq<seq<bv8>>>, w: Window, buf: array<bv8>, count: nat, faults: nat -> bool,
                    ghost tr: seq<Sys>, ghost evs: seq<Event>, ghost at: seq<nat>)
    returns (r: int)
    requires CopiesAt(tr, evs, at, views, w) && Views(views) && reader.userBufferIndex <= count <= buf.Length && count < U32
    modifies reader, buf
    ensures r == w.pktLength <==>
      forall k :: 0 <= k < Copies(w.pktLength, count - old(reader.userBufferIndex)) ==> !faults(k)
    ensures at[0] < |tr| && w.start + |w.taken| <= |tr[at[0]].made|
    ensures var ms := PacketOf(tr[at[0]], w); (forall m <- ms :: m.result.length <= |m.page|) && |Payload(ms)| == w.pktLength
    ensures r == w.pktLength ==>
      reader.userBufferIndex == Min(count, old(reader.userBufferIndex) + w.pktLength)
    ensures r == w.pktLength ==>
      var from, to := old(reader.userBufferIndex), reader.userBufferIndex;
      from <= to <= buf.Length && buf[from..to] == Payload(PacketOf(tr[at[0]], w))[..to - from]
  {
    ghost var from := reader.userBufferIndex;
    ViewsArePayload(tr, evs, at, views, w);
    r := reader.CopyCyclicToUser(views, w.pktLength, Slot(w.start), buf, count, faults);
    if r == w.pktLength {
      SliceIsPrefix(buf[..], from, reader.userBufferIndex, Payload(PacketOf(tr[at[0]], w)));
    }
  }

  lemma {:induction false} SliceIsPrefix(s: seq<bv8>, from: nat, to: nat, payload: seq<bv8>)
    requires from <= to <= |s| && to - from <= |payload|
    requires forall p :: from <= p < to ==> s[p] == payload[p - from]
    ensures s[from..to] == payload[..to - from]
  {
  }
}
