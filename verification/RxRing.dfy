/** The receive ring in credit mode: engine_ring_process moves rx_tail, complete_cyclic moves rx_head and
    gives credits back, the hardware fills pages and reports results. */
module RxRing {
  import opened Words
  import opened CyclicChain

  const C2H_WB: nat := 0x52B4
  const RX_STATUS_EOP: nat := 1
  const RX_CREDITS: nat := 128

  /** struct xdma_result: magic in the upper half of the status, EOP in bit 0. */
  datatype Result = Result(status: u32, length: u32)

  const NO_RESULT := Result(0, 0)

  predicate Eop(r: Result) {
    And(r.status, RX_STATUS_EOP) != 0
  }

  lemma {:induction false} EopIsBit0(r: Result)
    ensures Eop(r) <==> r.status % 2 == 1
  {
    assert Pow2(1) == 2 * Pow2(0) && Pow2(0) == 1;
    AndMask(r.status, 1);
  }

  /** The three complaints of complete_cyclic. */
  predicate Faulty(r: Result) {
    r.status / 0x1_0000 != C2H_WB || r.length > PAGE_SIZE || r.length == 0
  }

  /** The ring fields of xdma_engine, kept under engine->lock. */
  datatype Ring = Ring(results: seq<Result>, head: nat, tail: nat, overrun: bool, eopFound: bool) {
    predicate Valid() {
      |results| == CYCLIC_RX_PAGES_MAX && head < CYCLIC_RX_PAGES_MAX && tail < CYCLIC_RX_PAGES_MAX
    }
  }

  function Next(slot: nat): (r: nat)
    requires slot < CYCLIC_RX_PAGES_MAX
    ensures r < CYCLIC_RX_PAGES_MAX && r == (slot + 1) % CYCLIC_RX_PAGES_MAX
  {
    if slot + 1 == CYCLIC_RX_PAGES_MAX then 0 else slot + 1
  }

  /** Slots from `a` forward to `b`. */
  function Ahead(a: nat, b: nat): (r: nat)
    requires a < CYCLIC_RX_PAGES_MAX && b < CYCLIC_RX_PAGES_MAX
    ensures r < CYCLIC_RX_PAGES_MAX
  {
    if b >= a then b - a else b + CYCLIC_RX_PAGES_MAX - a
  }

  // ---- The two locked regions ----

  /** engine_ring_process: the ring after it, and the number of EOPs it passed. */
  function Processed(r: Ring): (p: (Ring, nat))
    requires r.Valid()
    ensures p.0.Valid()
    decreases if r.overrun then 0 else 1 + Ahead(Next(r.tail), r.head)
  {
    if r.results[r.tail].status == 0 || r.overrun then (r, 0)
    else
      var tail := Next(r.tail);
      var (q, eops) := Processed(r.(tail := tail, overrun := tail == r.head));
      (q, eops + if Eop(r.results[r.tail]) then 1 else 0)
  }

  /** What one call of complete_cyclic takes off the ring. */
  datatype Haul = Haul(ring: Ring, taken: seq<Result>, pktLength: nat, credits: nat, fault: bool)

  function Live(r: Ring): set<nat> {
    set j: nat | j < |r.results| && r.results[j].status != 0
  }

  function Cleared(r: Ring): (c: Ring)
    requires r.Valid()
    ensures c.Valid()
  {
    var res := r.results[r.head];
    r.(results := r.results[r.head := NO_RESULT], head := Next(r.head),
       eopFound := r.eopFound || (!Faulty(res) && Eop(res)))
  }

  lemma {:induction false} ClearedIsLess(r: Ring)
    requires r.Valid() && r.results[r.head].status != 0
    ensures Live(Cleared(r)) < Live(r)
  {
    assert r.head in Live(r) && r.head !in Live(Cleared(r));
  }

  /** The locked region of complete_cyclic. */
  function Taken(r: Ring): (h: Haul)
    requires r.Valid()
    ensures h.ring.Valid()
    decreases Live(r)
  {
    if r.head == r.tail && !r.overrun then Haul(r, [], 0, 0, false)
    else
      var res, c := r.results[r.head], Cleared(r);
      if Faulty(res) then Haul(c, [res], 0, 0, true)
      else if Eop(res) then Haul(c, [res], res.length, 1, false)
      else
        ClearedIsLess(r);
        var h := Taken(c);
        Haul(h.ring, [res] + h.taken, res.length + h.pktLength, 1 + h.credits, h.fault)
  }

  function Lengths(rs: seq<Result>): nat {
    if rs == [] then 0 else rs[0].length + Lengths(rs[1..])
  }

  /** A whole result that is not the last of its packet: the magic above, a length of 1 to 4096, bit 0 clear. */
  predicate GoesOn(r: Result) {
    r.status / 0x1_0000 == 0x52B4 && 1 <= r.length <= 4096 && r.status % 2 == 0
  }

  /** The slot k steps on from `at`, at most once around. */
  function Around(at: nat, k: nat): (r: nat)
    requires at < CYCLIC_RX_PAGES_MAX && k <= CYCLIC_RX_PAGES_MAX
    ensures r < CYCLIC_RX_PAGES_MAX
  {
    if at + k < 256 then at + k else at + k - 256
  }

  /** What a haul takes off any ring, told by the words in its slots: consecutive results from rx_head on; only the last of
      them may lack the magic, be empty or longer than a page, which is the fault, or have bit 0 set, which ends the packet;
      without either, everything up to rx_tail is gone. */
  ghost predicate HaulEnds(r: Ring, h: Haul)
    requires r.Valid()
  {
    var n := |h.taken|;
    && FromHead(r, h.taken)
    && (n == 0 <==> r.head == r.tail && !r.overrun) && (n == 0 ==> h.ring == r)
    && (forall k :: 0 <= k < n - 1 ==> GoesOn(h.taken[k]))
    && (h.fault <==> n > 0 && var last := h.taken[n - 1];
          last.status / 0x1_0000 != 0x52B4 || last.length == 0 || last.length > 4096)
    && (n > 0 && GoesOn(h.taken[n - 1]) ==> h.ring.head == h.ring.tail && !h.ring.overrun)
    && (!h.fault ==> h.credits == n && h.pktLength == Lengths(h.taken))
    && (h.ring.eopFound <==> r.eopFound || (!h.fault && n > 0 && h.taken[n - 1].status % 2 == 1))
  }

  predicate FromHead(r: Ring, taken: seq<Result>)
    requires r.Valid()
  {
    forall k :: 0 <= k < |taken| && k < CYCLIC_RX_PAGES_MAX ==> taken[k] == r.results[Around(r.head, k)]
  }

  lemma {:induction false} FromHeadCons(r: Ring, c: Ring, taken: seq<Result>)
    requires r.Valid() && c.Valid() && FromHead(c, taken)
    requires c.head == Next(r.head) && c.results == r.results[r.head := NO_RESULT]
    ensures FromHead(r, [r.results[r.head]] + taken)
  {
    var all := [r.results[r.head]] + taken;
    forall k | 0 <= k < |all| && k < CYCLIC_RX_PAGES_MAX
      ensures all[k] == r.results[Around(r.head, k)]
    {
      if k > 0 {
        assert taken[k - 1] == c.results[Around(c.head, k - 1)];
      }
    }
  }

  lemma {:induction false} HaulEndsCons(r: Ring, c: Ring, k: Haul)
    requires r.Valid() && c.Valid() && (r.head != r.tail || r.overrun) && GoesOn(r.results[r.head])
    requires c == r.(results := r.results[r.head := NO_RESULT], head := Next(r.head)) && HaulEnds(c, k)
    ensures var res := r.results[r.head];
      HaulEnds(r, Haul(k.ring, [res] + k.taken, res.length + k.pktLength, 1 + k.credits, k.fault))
  {
    FromHeadCons(r, c, k.taken);
    assert ([r.results[r.head]] + k.taken)[1..] == k.taken;
  }

  lemma {:induction false} HaulEndsOne(r: Ring, c: Ring, fault: bool)
    requires r.Valid() && (r.head != r.tail || r.overrun)
    requires var res := r.results[r.head];
      && (fault <==> res.status / 0x1_0000 != 0x52B4 || res.length == 0 || res.length > 4096)
      && (!fault ==> res.status % 2 == 1) && c.eopFound == (r.eopFound || !fault)
    ensures var res := r.results[r.head];
      HaulEnds(r, Haul(c, [res], if fault then 0 else res.length, if fault then 0 else 1, fault))
  {
    var res := r.results[r.head];
    assert [res][1..] == [];
    assert Lengths([res]) == res.length;
  }

  /** So it is for every call of complete_cyclic. */
  lemma {:induction false} TakenEnds(r: Ring)
    requires r.Valid()
    ensures HaulEnds(r, Taken(r))
    decreases Live(r)
  {
    if r.head != r.tail || r.overrun {
      var res, c := r.results[r.head], Cleared(r);
      EopIsBit0(res);
      if Faulty(res) || Eop(res) {
        HaulEndsOne(r, c, Faulty(res));
      } else {
        ClearedIsLess(r);
        TakenEnds(c);
        HaulEndsCons(r, c, Taken(c));
      }
    }
  }

  /** How many of n slots from `at` on have bit 0 of their status set. */
  function OddStatuses(results: seq<Result>, at: nat, n: nat): nat
    requires |results| == CYCLIC_RX_PAGES_MAX && at < CYCLIC_RX_PAGES_MAX
    decreases n
  {
    if n == 0 then 0 else OddStatuses(results, Next(at), n - 1) + if results[at].status % 2 == 1 then 1 else 0
  }

  /** None of n slots from `at` on is empty. */
  predicate AllReported(results: seq<Result>, at: nat, n: nat)
    requires |results| == CYCLIC_RX_PAGES_MAX && at < CYCLIC_RX_PAGES_MAX
    decreases n
  {
    n == 0 || (results[at].status != 0 && AllReported(results, Next(at), n - 1))
  }

  /** What engine_ring_process does to any ring: it passes n slots from rx_tail on that hold a result, up to the first
      empty one or to rx_head, which sets rx_overrun, and counts those of them that have bit 0 set. */
  ghost predicate Passes(r: Ring, n: nat, q: Ring, eops: nat)
    requires r.Valid()
  {
    && n <= CYCLIC_RX_PAGES_MAX && q == r.(tail := Around(r.tail, n), overrun := q.overrun)
    && eops == OddStatuses(r.results, r.tail, n) && AllReported(r.results, r.tail, n)
    && (q.overrun || q.results[q.tail].status == 0) && (q.overrun <==> r.overrun || (n > 0 && q.tail == r.head))
  }

  lemma {:induction false} ProcessedPasses(r: Ring) returns (n: nat)
    requires r.Valid()
    ensures Passes(r, n, Processed(r).0, Processed(r).1)
    ensures if r.overrun then n == 0 else n <= 1 + Ahead(Next(r.tail), r.head)
    decreases if r.overrun then 0 else 1 + Ahead(Next(r.tail), r.head)
  {
    n := 0;
    if r.results[r.tail].status != 0 && !r.overrun {
      var next := Next(r.tail);
      EopIsBit0(r.results[r.tail]);
      var m := ProcessedPasses(r.(tail := next, overrun := next == r.head));
      n := m + 1;
    }
  }

  /** A haul after what was taken before it. */
  function After(taken: seq<Result>, pktLength: nat, credits: nat, h: Haul): Haul {
    Haul(h.ring, taken + h.taken, pktLength + h.pktLength, credits + h.credits, h.fault)
  }

  lemma {:induction false} TakenStep(r: Ring, taken: seq<Result>, pktLength: nat, credits: nat)
    requires r.Valid() && (r.head != r.tail || r.overrun)
    ensures var res, c, h := r.results[r.head], Cleared(r), After(taken, pktLength, credits, Taken(r));
      if Faulty(res) then h == Haul(c, taken + [res], pktLength, credits, true)
      else if Eop(res) then h == Haul(c, taken + [res], pktLength + res.length, credits + 1, false)
      else h == After(taken + [res], pktLength + res.length, credits + 1, Taken(c))
  {
    var res, c := r.results[r.head], Cleared(r);
    if !Faulty(res) && !Eop(res) {
      assert taken + ([res] + Taken(c).taken) == taken + [res] + Taken(c).taken;
    }
  }

  class Engine {
    const results: array<Result>
    var rxHead: nat
    var rxTail: nat
    var rxOverrun: bool
    var eopFound: bool

    ghost predicate Valid()
      reads this, results
    {
      View().Valid()
    }

    function View(): Ring
      reads this, results
    {
      Ring(results[..], rxHead, rxTail, rxOverrun, eopFound)
    }

    /** The ring part of xdma_cyclic_transfer_setup. */
    constructor ()
      ensures Valid() && fresh(results)
      ensures View() == Ring(seq(CYCLIC_RX_PAGES_MAX, _ => NO_RESULT), 0, 0, false, false)
    {
      results := new Result[CYCLIC_RX_PAGES_MAX](_ => NO_RESULT);
      rxHead, rxTail, rxOverrun, eopFound := 0, 0, false, false;
    }

    method EngineRingProcess() returns (eopCount: nat)
      requires Valid()
      modifies this`rxTail, this`rxOverrun
      ensures (View(), eopCount) == Processed(old(View()))
      ensures exists n :: Passes(old(View()), n, View(), eopCount)
    {
      ghost var n := ProcessedPasses(View());
      eopCount := 0;
      while results[rxTail].status != 0 && !rxOverrun
        invariant Valid()
        invariant var (q, eops) := Processed(View()); (q, eopCount + eops) == Processed(old(View()))
        decreases if rxOverrun then 0 else 1 + Ahead(Next(rxTail), rxHead)
      {
        ghost var before, tail := View(), Next(rxTail);
        if Eop(results[rxTail]) {
          eopCount := eopCount + 1;
        }
        rxTail := (rxTail + 1) % CYCLIC_RX_PAGES_MAX;
        if rxTail == rxHead {
          rxOverrun := true;
        }
        assert View() == before.(tail := tail, overrun := tail == rxHead);
      }
    }

    /** One pass of its loop: reads the result at rx_head, clears it and moves on. */
    method TakeResult() returns (res: Result)
      requires Valid()
      modifies this`rxHead, this`eopFound, results
      ensures res == old(results[rxHead]) && View() == Cleared(old(View()))
    {
      res := results[rxHead];
      if !Faulty(res) && Eop(res) {
        eopFound := true;
      }
      results[rxHead] := NO_RESULT;
      rxHead := (rxHead + 1) % CYCLIC_RX_PAGES_MAX;
    }

    /** The locked region of complete_cyclic: `taken` is what it read, in order. */
    method TakeResults() returns (pktLength: nat, numCredit: nat, fault: bool, ghost taken: seq<Result>)
      requires Valid()
      modifies this`rxHead, this`eopFound, results
      ensures Haul(View(), taken, pktLength, numCredit, fault) == Taken(old(View()))
    {
      pktLength, numCredit, fault, taken := 0, 0, false, [];
      var eop := false;
      while (rxHead != rxTail || rxOverrun) && !fault && !eop
        invariant Valid()
        invariant fault || eop ==> Haul(View(), taken, pktLength, numCredit, fault) == Taken(old(View()))
        invariant !fault && !eop ==> After(taken, pktLength, numCredit, Taken(View())) == Taken(old(View()))
        decreases !fault && !eop, Live(View())
      {
        ghost var before := View();
        TakenStep(before, taken, pktLength, numCredit);
        if !Faulty(before.results[before.head]) {
          ClearedIsLess(before);   // the loop ends
        }
        var res := TakeResult();
        taken := taken + [res];
        if Faulty(res) {
          fault := true;
        } else {
          pktLength := pktLength + res.length;
          numCredit := numCredit + 1;
          if Eop(res) {
            eop := true;
          }
        }
      }
    }
  }
}
