/** Runs of the receive path in credit mode: one reader, the service, and a hardware that spends a credit for
    every page it fills. Faulty results and failed copies are part of the runs. */
module RxFlow {
  import opened Words
  import opened Hardware
  import opened CyclicChain
  import opened RxRing

  datatype Made = Made(result: Result, page: seq<bv8>)

  /** A reader between the locked region of complete_cyclic and the credits it gives back: it copies the pages
      of the results `taken`, the first of them number `start`. */
  datatype Window = Window(start: nat, taken: seq<Result>, pktLength: nat, credits: nat)

  /** The ring, the pages, the credits the hardware holds, and whether it is filling a page. `made` and `got` are
      history: every result the hardware reported, and every result readers took. */
  datatype Sys = Sys(ring: Ring, pages: seq<seq<bv8>>, credits: nat, filling: bool, window: Option<Window>,
                     made: seq<Made>, got: seq<Result>)

  datatype Event =
    | Fill(page: seq<bv8>)
    | Report(result: Result)
    | Process
    | Take
    | Copied(ok: bool)

  predicate IsInit(s: Sys) {
    && s.ring == Ring(seq(CYCLIC_RX_PAGES_MAX, _ => NO_RESULT), 0, 0, false, false)
    && |s.pages| == CYCLIC_RX_PAGES_MAX && (forall j :: 0 <= j < |s.pages| ==> |s.pages[j]| == PAGE_SIZE)
    && s.credits == RX_CREDITS && !s.filling && s.window == None && s.made == [] && s.got == []
  }

  /** The hardware needs a credit to fill a page, and never reports a status of zero. */
  predicate Enabled(s: Sys, e: Event) {
    match e
    case Fill(page) => s.credits > 0 && !s.filling && |page| == PAGE_SIZE
    case Report(result) => s.filling && result.status != 0
    case Process => true
    case Take => s.window == None
    case Copied(_) => s.window.Some?
  }

  /** The slot the hardware writes next. */
  function Slot(n: nat): (r: nat)
    ensures r < CYCLIC_RX_PAGES_MAX
  {
    n % 256
  }

  predicate Shaped(s: Sys) {
    s.ring.Valid() && |s.pages| == CYCLIC_RX_PAGES_MAX
  }

  function AfterHaul(s: Sys, h: Haul): Sys {
    s.(ring := h.ring, got := s.got + h.taken,
       window := if h.fault then None else Some(Window(|s.got|, h.taken, h.pktLength, h.credits)))
  }

  function Step(s: Sys, e: Event): (t: Sys)
    requires Shaped(s) && Enabled(s, e)
    ensures Shaped(t)
  {
    var slot := Slot(|s.made|);
    match e
    case Fill(page) => s.(pages := s.pages[slot := page], credits := s.credits - 1, filling := true)
    case Report(result) =>
      s.(ring := s.ring.(results := s.ring.results[slot := result]), filling := false,
         made := s.made + [Made(result, s.pages[slot])])
    case Process => s.(ring := Processed(s.ring).0)
    case Take =>
      AfterHaul(s, Taken(s.ring))
    case Copied(ok) =>
      var back := if ok && s.window.value.pktLength > 0 then s.window.value.credits else 0;
      s.(ring := s.ring.(overrun := false), credits := s.credits + back, window := None)
  }

  ghost predicate IsRun(tr: seq<Sys>, evs: seq<Event>) {
    && |tr| == |evs| + 1 && IsInit(tr[0])
    && forall i :: 0 <= i < |evs| ==>
      Enabled(tr[i], evs[i]) && (Shaped(tr[i]) ==> tr[i + 1] == Step(tr[i], evs[i]))
  }

  // ---- What the ring shows ----

  /** Slot j shows the unread result it is due, or nothing. */
  predicate SlotShows(r: Ring, made: seq<Made>, h: nat, j: nat)
    requires r.Valid() && h <= |made| && j < CYCLIC_RX_PAGES_MAX
  {
    var d := Ahead(r.head, j);
    r.results[j] == if d < |made| - h then made[h + d].result else NO_RESULT
  }

  /** The ring shows exactly the results from number h on; rx_tail is somewhere among them. */
  ghost predicate Shows(r: Ring, made: seq<Made>, h: nat) {
    && r.Valid() && !r.overrun && h <= |made| <= h + RX_CREDITS
    && r.head == Slot(h) && Ahead(r.head, r.tail) <= |made| - h
    && (forall j :: 0 <= j < CYCLIC_RX_PAGES_MAX ==> SlotShows(r, made, h, j))
  }

  predicate Real(made: seq<Made>) {
    forall k :: 0 <= k < |made| ==> made[k].result.status != 0
  }

  function EopsFrom(made: seq<Made>, k: nat): nat
    requires k <= |made|
    decreases |made| - k
  {
    if k == |made| then 0 else EopsFrom(made, k + 1) + if Eop(made[k].result) then 1 else 0
  }

  /** engine_ring_process notices every reported result, counts the EOPs among those it newly notices, and never
      runs into rx_head. */
  lemma {:induction false} ProcessedShows(r: Ring, made: seq<Made>, h: nat)
    requires Shows(r, made, h) && Real(made)
    ensures var (q, eops) := Processed(r);
      && Shows(q, made, h) && q == r.(tail := q.tail) && Ahead(q.head, q.tail) == |made| - h
      && eops == EopsFrom(made, h + Ahead(r.head, r.tail))
    decreases |made| - h - Ahead(r.head, r.tail)
  {
    assert SlotShows(r, made, h, r.tail);
    if Ahead(r.head, r.tail) < |made| - h {
      var q := r.(tail := Next(r.tail), overrun := false);
      assert Ahead(q.head, q.tail) == Ahead(r.head, r.tail) + 1;
      forall j | 0 <= j < CYCLIC_RX_PAGES_MAX
        ensures SlotShows(q, made, h, j)
      {
        assert SlotShows(r, made, h, j);
      }
      ProcessedShows(q, made, h);
    }
  }

  lemma {:induction false} ClearedShows(r: Ring, made: seq<Made>, h: nat)
    requires Shows(r, made, h) && r.head != r.tail
    ensures r.results[r.head] == made[h].result && Shows(Cleared(r), made, h + 1)
    ensures var c := Cleared(r); c.tail == r.tail && Ahead(c.head, c.tail) == Ahead(r.head, r.tail) - 1
  {
    assert SlotShows(r, made, h, r.head);
    var c, next := Cleared(r), h + 1;
    forall j | 0 <= j < CYCLIC_RX_PAGES_MAX
      ensures SlotShows(c, made, next, j)
    {
      assert SlotShows(r, made, h, j);
    }
  }

  lemma {:induction false} AheadSlot(base: nat, n: nat)
    requires base <= n < base + 256
    ensures Ahead(Slot(base), Slot(n)) == n - base
  {
  }

  lemma {:induction false} AheadLater(base: nat, later: nat, j: nat)
    requires base <= later <= base + RX_CREDITS && j < CYCLIC_RX_PAGES_MAX
    ensures var d := Ahead(Slot(later), j); d < RX_CREDITS ==> Ahead(Slot(base), j) == d + later - base
  {
  }

  lemma {:induction false} ReportShows(r: Ring, made: seq<Made>, h: nat, m: Made)
    requires Shows(r, made, h) && |made| < h + RX_CREDITS
    ensures r.results[Slot(|made|)] == NO_RESULT
    ensures Shows(r.(results := r.results[Slot(|made|) := m.result]), made + [m], h)
  {
    var slot := Slot(|made|);
    var q := r.(results := r.results[slot := m.result]);
    AheadSlot(h, |made|);
    assert SlotShows(r, made, h, slot);
    forall j | 0 <= j < CYCLIC_RX_PAGES_MAX
      ensures SlotShows(q, made + [m], h, j)
    {
      assert SlotShows(r, made, h, j);
    }
  }

  /** What one haul of complete_cyclic is: the next reported results in order, up to and with the first EOP or
      faulty result, or all that rx_tail has passed. */
  ghost predicate HaulShows(r: Ring, made: seq<Made>, h: nat, k: Haul)
    requires r.Valid() && h + Ahead(r.head, r.tail) <= |made|
  {
    var n := |k.taken|;
    && n <= Ahead(r.head, r.tail)
    && (forall i :: 0 <= i < n ==> k.taken[i] == made[h + i].result)
    && (forall i :: 0 <= i < n - 1 ==> !Faulty(k.taken[i]) && !Eop(k.taken[i]))
    && (k.fault <==> n > 0 && Faulty(k.taken[n - 1]))
    && (n < Ahead(r.head, r.tail) ==> n > 0 && (k.fault || Eop(k.taken[n - 1])))
    && (!k.fault ==> k.credits == n && k.pktLength == Lengths(k.taken))
  }

  lemma {:induction false} HaulShowsCons(r: Ring, made: seq<Made>, h: nat, c: Ring, k: Haul)
    requires r.Valid() && h + Ahead(r.head, r.tail) <= |made| && r.head != r.tail
    requires c.Valid() && Ahead(c.head, c.tail) == Ahead(r.head, r.tail) - 1
    requires var res := made[h].result; !Faulty(res) && !Eop(res) && HaulShows(c, made, h + 1, k)
    ensures var res := made[h].result;
      HaulShows(r, made, h, Haul(k.ring, [res] + k.taken, res.length + k.pktLength, 1 + k.credits, k.fault))
  {
    assert ([made[h].result] + k.taken)[1..] == k.taken;
  }

  lemma {:induction false} HaulShowsOne(r: Ring, made: seq<Made>, h: nat, c: Ring)
    requires r.Valid() && h + Ahead(r.head, r.tail) <= |made| && r.head != r.tail
    ensures var res := made[h].result;
      && (Faulty(res) ==> HaulShows(r, made, h, Haul(c, [res], 0, 0, true)))
      && (!Faulty(res) && Eop(res) ==> HaulShows(r, made, h, Haul(c, [res], res.length, 1, false)))
  {
    assert [made[h].result][1..] == [];
  }

  lemma {:induction false} TakenLeaves(r: Ring, made: seq<Made>, h: nat)
    requires Shows(r, made, h)
    ensures Shows(Taken(r).ring, made, h + |Taken(r).taken|)
    decreases Ahead(r.head, r.tail)
  {
    if r.head != r.tail {
      ClearedShows(r, made, h);
      var res, c := r.results[r.head], Cleared(r);
      if !Faulty(res) && !Eop(res) {
        TakenLeaves(c, made, h + 1);
      }
    }
  }

  lemma {:induction false} TakenIsHaul(r: Ring, made: seq<Made>, h: nat)
    requires Shows(r, made, h)
    ensures HaulShows(r, made, h, Taken(r))
    decreases Ahead(r.head, r.tail)
  {
    if r.head != r.tail {
      ClearedShows(r, made, h);
      var res, c := r.results[r.head], Cleared(r);
      if Faulty(res) || Eop(res) {
        HaulShowsOne(r, made, h, c);
      } else {
        TakenIsHaul(c, made, h + 1);
        var k := Taken(c);
        HaulShowsCons(r, made, h, c, k);
        assert Taken(r) == Haul(k.ring, [res] + k.taken, res.length + k.pktLength, 1 + k.credits, k.fault);
      }
    }
  }

  // ---- What the pages hold ----

  predicate PageHolds(pages: seq<seq<bv8>>, made: seq<Made>, base: nat, j: nat)
    requires j < |pages| == CYCLIC_RX_PAGES_MAX && base <= |made|
  {
    var d := Ahead(Slot(base), j);
    d < |made| - base ==> pages[j] == made[base + d].page
  }

  /** The pages of the results from number `base` on are as the hardware left them. */
  ghost predicate Hold(pages: seq<seq<bv8>>, made: seq<Made>, base: nat) {
    && |pages| == CYCLIC_RX_PAGES_MAX && base <= |made| <= base + RX_CREDITS
    && (forall j :: 0 <= j < |pages| ==> PageHolds(pages, made, base, j) && |pages[j]| == PAGE_SIZE)
  }

  lemma {:induction false} FillHolds(pages: seq<seq<bv8>>, made: seq<Made>, base: nat, page: seq<bv8>)
    requires Hold(pages, made, base) && |made| < base + RX_CREDITS && |page| == PAGE_SIZE
    ensures Hold(pages[Slot(|made|) := page], made, base)
  {
    var q := pages[Slot(|made|) := page];
    AheadSlot(base, |made|);
    forall j | 0 <= j < |q|
      ensures PageHolds(q, made, base, j) && |q[j]| == PAGE_SIZE
    {
      assert PageHolds(pages, made, base, j);
    }
  }

  lemma {:induction false} ReportHolds(pages: seq<seq<bv8>>, made: seq<Made>, base: nat, result: Result)
    requires Hold(pages, made, base) && |made| < base + RX_CREDITS
    ensures Hold(pages, made + [Made(result, pages[Slot(|made|)])], base)
  {
    var more := made + [Made(result, pages[Slot(|made|)])];
    forall j | 0 <= j < |pages|
      ensures PageHolds(pages, more, base, j)
    {
      AheadSlot(base, |made|);
      assert PageHolds(pages, made, base, j);
    }
  }

  lemma {:induction false} LaterHolds(pages: seq<seq<bv8>>, made: seq<Made>, base: nat, later: nat)
    requires Hold(pages, made, base) && base <= later <= |made|
    ensures Hold(pages, made, later)
  {
    forall j | 0 <= j < |pages|
      ensures PageHolds(pages, made, later, j)
    {
      AheadLater(base, later, j);
      assert PageHolds(pages, made, base, j);
    }
  }

  // ---- The invariant of every run ----

  /** The first page the hardware must not touch: the oldest one being copied, else the oldest unread. */
  function Base(s: Sys): nat {
    match s.window
    case Some(w) => w.start
    case None => |s.got|
  }

  /** Readers took the results in the order they were reported, none left out or repeated. */
  predicate InOrder(got: seq<Result>, made: seq<Made>) {
    |got| <= |made| && forall i :: 0 <= i < |got| ==> got[i] == made[i].result
  }

  ghost predicate WindowOk(w: Window, got: seq<Result>) {
    && w.start <= |got| && w.taken == got[w.start..]
    && w.credits == |w.taken| && w.pktLength == Lengths(w.taken)
    && (forall i :: 0 <= i < |w.taken| ==> !Faulty(w.taken[i]))
    && (forall i :: 0 <= i < |w.taken| - 1 ==> !Eop(w.taken[i]))
  }

  /** Credits the hardware holds or has spent on results that are unread or still being copied. */
  function InUse(s: Sys): int {
    s.credits + (if s.filling then 1 else 0) + |s.made| - Base(s)
  }

  ghost predicate Inv(s: Sys) {
    && Shows(s.ring, s.made, |s.got|) && Real(s.made)
    && InOrder(s.got, s.made) && (s.window.Some? ==> WindowOk(s.window.value, s.got))
    && InUse(s) <= RX_CREDITS && Hold(s.pages, s.made, Base(s))
  }

  lemma {:induction false} HardwareKeepsInv(s: Sys, e: Event)
    requires Inv(s) && Enabled(s, e) && (e.Fill? || e.Report?)
    ensures Inv(Step(s, e))
  {
    if e.Fill? {
      FillHolds(s.pages, s.made, Base(s), e.page);
    } else {
      ReportShows(s.ring, s.made, |s.got|, Made(e.result, s.pages[Slot(|s.made|)]));
      ReportHolds(s.pages, s.made, Base(s), e.result);
    }
  }

  lemma {:induction false} ProcessKeepsInv(s: Sys)
    requires Inv(s)
    ensures Inv(Step(s, Process))
  {
    ProcessedShows(s.ring, s.made, |s.got|);
  }

  lemma {:induction false} HaulWindow(r: Ring, made: seq<Made>, got: seq<Result>, k: Haul)
    requires r.Valid() && |got| + Ahead(r.head, r.tail) <= |made| && HaulShows(r, made, |got|, k)
    requires InOrder(got, made)
    ensures InOrder(got + k.taken, made)
    ensures !k.fault ==> WindowOk(Window(|got|, k.taken, k.pktLength, k.credits), got + k.taken)
  {
    forall i | 0 <= i < |k.taken|
      ensures (got + k.taken)[|got| + i] == k.taken[i] == made[|got| + i].result
    {
    }
  }

  lemma {:induction false} HaulKeepsInv(s: Sys, h: Haul)
    requires Inv(s) && s.window == None && HaulShows(s.ring, s.made, |s.got|, h)
    requires Shows(h.ring, s.made, |s.got| + |h.taken|)
    ensures Inv(AfterHaul(s, h))
  {
    HaulWindow(s.ring, s.made, s.got, h);
    LaterHolds(s.pages, s.made, |s.got|, Base(AfterHaul(s, h)));
  }

  lemma {:induction false} TakeKeepsInv(s: Sys)
    requires Inv(s) && Enabled(s, Take)
    ensures Inv(Step(s, Take))
  {
    TakenLeaves(s.ring, s.made, |s.got|);
    TakenIsHaul(s.ring, s.made, |s.got|);
    HaulKeepsInv(s, Taken(s.ring));
  }

  lemma {:induction false} CopiedKeepsInv(s: Sys, ok: bool)
    requires Inv(s) && Enabled(s, Copied(ok))
    ensures Inv(Step(s, Copied(ok)))
  {
    LaterHolds(s.pages, s.made, Base(s), |s.got|);
  }

  lemma {:induction false} StepKeepsInv(s: Sys, e: Event)
    requires Inv(s) && Enabled(s, e)
    ensures Inv(Step(s, e))
  {
    match e {
      case Process => ProcessKeepsInv(s);
      case Take => TakeKeepsInv(s);
      case Copied(ok) => CopiedKeepsInv(s, ok);
      case _ => HardwareKeepsInv(s, e);
    }
  }

  lemma {:induction false} RunInv(tr: seq<Sys>, evs: seq<Event>, i: nat)
    requires IsRun(tr, evs) && i < |tr|
    ensures Shaped(tr[i]) && Inv(tr[i])
  {
    if i > 0 {
      RunInv(tr, evs, i - 1);
      StepKeepsInv(tr[i - 1], evs[i - 1]);
    }
  }

  // ---- What the invariant says ----

  /** Credit flow control: in every run the hardware's credits, the unread results and those being copied stay within
      the initial 128, rx_overrun is never set, and rx_tail meets rx_head only when nothing it passed is unread. */
  lemma {:induction false} CreditsBoundTheRing(tr: seq<Sys>, evs: seq<Event>, i: nat)
    requires IsRun(tr, evs) && i < |tr|
    ensures var s := tr[i];
      && Shaped(s) && Base(s) <= |s.got| <= |s.made| && InUse(s) <= 128 && !s.ring.overrun
      && |s.got| + Ahead(s.ring.head, s.ring.tail) <= |s.made|
  {
    RunInv(tr, evs, i);
  }

  /** The hardware never writes over a result that was not read nor a page that is unread or being copied. */
  lemma {:induction false} NeverOverwrites(tr: seq<Sys>, evs: seq<Event>, i: nat, k: nat)
    requires IsRun(tr, evs) && i < |evs| && (evs[i].Fill? || evs[i].Report?)
    ensures Shaped(tr[i]) && Base(tr[i]) <= |tr[i].made| && tr[i].ring.results[Slot(|tr[i].made|)] == NO_RESULT
    ensures Base(tr[i]) <= k < |tr[i].made| ==> Slot(k) != Slot(|tr[i].made|)
  {
    RunInv(tr, evs, i);
    var s := tr[i];
    assert Enabled(s, evs[i]);
    ReportShows(s.ring, s.made, |s.got|, Made(NO_RESULT, []));
    if Base(s) <= k < |s.made| {
      AheadSlot(Base(s), k);
      AheadSlot(Base(s), |s.made|);
    }
  }

  /** The credits a step loses for good: those of a haul that ends in a fault, and those of a failed copy. */
  function Lost(s: Sys, e: Event): nat
    requires Shaped(s) && Enabled(s, e)
  {
    match e
    case Take => if Taken(s.ring).fault then |Taken(s.ring).taken| else 0
    case Copied(ok) => if ok then 0 else |s.window.value.taken|
    case _ => 0
  }

  lemma {:induction false} GoodLengths(rs: seq<Result>)
    requires forall i :: 0 <= i < |rs| ==> !Faulty(rs[i])
    ensures Lengths(rs) > 0 <==> rs != []
  {
    if rs != [] {
      assert !Faulty(rs[0]);
      GoodLengths(rs[1..]);
    }
  }

  lemma {:induction false} StepLoses(s: Sys, e: Event)
    requires Inv(s) && Enabled(s, e)
    ensures InUse(Step(s, e)) == InUse(s) - Lost(s, e)
  {
    if e.Copied? {
      GoodLengths(s.window.value.taken);
    }
  }

  /** Conservation: as long as no haul ends in a fault and no copy fails, every credit is either with the hardware
      or spent on a result that is unread or being copied. */
  lemma {:induction false} CreditsConserved(tr: seq<Sys>, evs: seq<Event>, i: nat)
    requires IsRun(tr, evs) && i < |tr|
    requires forall k :: 0 <= k < i ==> Shaped(tr[k]) && Enabled(tr[k], evs[k]) && Lost(tr[k], evs[k]) == 0
    ensures InUse(tr[i]) == 128
  {
    if i > 0 {
      RunInv(tr, evs, i - 1);
      CreditsConserved(tr, evs, i - 1);
      StepLoses(tr[i - 1], evs[i - 1]);
    }
  }

  /** FIFO: in every run, the results that readers took are the reported ones in order, from the first on. */
  lemma {:induction false} ReadersGetAllInOrder(tr: seq<Sys>, evs: seq<Event>, i: nat)
    requires IsRun(tr, evs) && i < |tr|
    ensures InOrder(tr[i].got, tr[i].made)
  {
    RunInv(tr, evs, i);
  }

  /** One call of complete_cyclic in a run: it takes the next results and stops exactly at the first EOP or faulty
      one, or at what the service has noticed. */
  lemma {:induction false} CallStopsAtFirstEop(tr: seq<Sys>, evs: seq<Event>, i: nat)
    requires IsRun(tr, evs) && i < |evs| && evs[i] == Take
    ensures var s, t := tr[i], tr[i + 1];
      && Shaped(s) && |s.got| + Ahead(s.ring.head, s.ring.tail) <= |s.made|
      && HaulShows(s.ring, s.made, |s.got|, Taken(s.ring)) && t.got == s.got + Taken(s.ring).taken
  {
    RunInv(tr, evs, i);
    assert Enabled(tr[i], evs[i]);
    TakenIsHaul(tr[i].ring, tr[i].made, |tr[i].got|);
  }

  /** After the service ran, every reported result has been noticed. */
  lemma {:induction false} ServiceNoticesAll(tr: seq<Sys>, evs: seq<Event>, i: nat)
    requires IsRun(tr, evs) && i < |evs| && evs[i] == Process
    ensures var t := tr[i + 1]; t.ring.Valid() && |t.got| + Ahead(t.ring.head, t.ring.tail) == |t.made|
  {
    RunInv(tr, evs, i);
    assert Enabled(tr[i], evs[i]);
    ProcessedShows(tr[i].ring, tr[i].made, |tr[i].got|);
  }

  lemma {:induction false} WindowPage(pages: seq<seq<bv8>>, made: seq<Made>, got: seq<Result>, w: Window, k: nat)
    requires Hold(pages, made, w.start) && InOrder(got, made) && WindowOk(w, got) && k < |w.taken|
    ensures var n := w.start + k;
      && n < |made| && w.taken[k] == made[n].result && pages[Slot(n)] == made[n].page && |pages[Slot(n)]| == PAGE_SIZE
  {
    var n := w.start + k;
    AheadSlot(w.start, n);
    assert PageHolds(pages, made, w.start, Slot(n));
    assert got[n] == made[n].result;
  }

  /** What a reader is copying: page k of its window is the page the hardware filled for the k-th result taken,
      for as long as it copies. */
  lemma {:induction false} WindowPagesIntact(tr: seq<Sys>, evs: seq<Event>, i: nat, k: nat)
    requires IsRun(tr, evs) && i < |tr| && tr[i].window.Some? && k < |tr[i].window.value.taken|
    ensures var s := tr[i]; var n := s.window.value.start + k;
      && Shaped(s) && n < |s.made| && s.window.value.taken[k] == s.made[n].result
      && s.pages[Slot(n)] == s.made[n].page
  {
    RunInv(tr, evs, i);
    WindowPage(tr[i].pages, tr[i].made, tr[i].got, tr[i].window.value, k);
  }
}
