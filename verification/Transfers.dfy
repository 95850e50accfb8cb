/** The protocol with its data: the engine's descriptor array and the memory it writes, and what every step keeps of
    them for every request. */
module Transfers {
  import opened Words
  import opened Descriptor
  import opened Segments
  import opened Compiler
  import opened Hardware
  import opened Memcpy
  import opened Submit
  import Service
  import Protocol
  import Soundness
  import Registers

  type Id = Service.Id

  /** The engine (incremental mode): its direction, where its array is on the bus, and the memory it reads. */
  datatype World = World(dir: Dir, bus: u64, source: Mem)

  /** A request's pieces and device position. The rest is history: the piece its batch in hand starts at, how many
      descriptors the hardware executed for it, the memory the engine writes as it was when the request arrived, what that
      would be now had only this request's batches run, and the addresses last written since by others. */
  datatype Req = Req(sd: seq<Seg>, ep: u64, first: nat, moved: nat, base: Mem, mine: Mem, foreign: iset<int>)

  datatype Sys = Sys(proto: Protocol.Sys, ring: seq<Desc>, target: Mem, reqs: map<Id, Req>)

  /** The protocol's events: a request arrives with its pieces, and the hardware retires a descriptor. */
  datatype Act =
    | Arrive(id: Id, sd: seq<Seg>, ep: u64)
    | Retire(d: Desc)
    | Other(e: Protocol.Event)

  function EventOf(a: Act): Protocol.Event {
    match a
    case Arrive(id, sd, _) => Protocol.Arrive(id, |sd|)
    case Retire(_) => Protocol.Retire
    case Other(e) => e
  }

  /** The hardware runs the batch that this submitter waits for. */
  predicate RunsFor(s: Protocol.Sys, id: Id) {
    Protocol.At(s, id, Protocol.Waiting) && s.board.on == Some((id, s.subs[id].epoch))
  }

  /** The descriptor the hardware executes next, by the blocks it fetches from the array, the first as long as the
      register first_desc_adjacent says. */
  function Fetched(w: World, s: Sys): Option<Desc> {
    match Fetch(s.ring, w.bus, w.bus, s.proto.ctl.regs.adjacent, XDMA_TRANSFER_MAX_DESC)
    case None => None
    case Some(blocks) =>
      var order := Order(blocks);
      var i := s.proto.board.count;
      if i < |order| && order[i] < |s.ring| then Some(s.ring[order[i]]) else None
  }

  /** While the batch it runs is waited for, the hardware executes what it fetches. Once the waiter has given up and the
      array may be rewritten under it, it may execute anything. */
  ghost predicate Enabled(w: World, s: Sys, a: Act) {
    && Protocol.Enabled(s.proto, EventOf(a))
    && match a
       case Arrive(_, sd, ep) => Fits(sd, ep, w.dir)
       case Retire(d) => forall id <- s.proto.subs :: RunsFor(s.proto, id) ==> Fetched(w, s) == Some(d)
       case Other(e) => !e.Arrive? && !e.Retire?
  }

  ghost predicate Shaped(w: World, s: Sys) {
    && Protocol.Wellformed(s.proto) && PageAligned(w.bus) && |s.ring| == XDMA_TRANSFER_MAX_DESC
    && s.reqs.Keys == s.proto.subs.Keys
    && forall id <- s.reqs :: s.proto.subs[id].left <= s.proto.subs[id].total == |s.reqs[id].sd|
  }

  /** transfer_init on the array: the chain of the pieces `p`, the rest as it was. */
  function Loaded(w: World, ring: seq<Desc>, p: seq<Seg>, ep: u64): (r: seq<Desc>)
    requires PageAligned(w.bus) && |p| <= XDMA_TRANSFER_MAX_DESC
    ensures |r| == |ring|
  {
    seq(|ring|, i requires 0 <= i < |ring| => if i < |p| then Compiled(p, ep, false, w.dir, w.bus, i) else ring[i])
  }

  predicate Writes(d: Desc, a: int) {
    d.Dst() <= a < d.Dst() + d.bytes
  }

  ghost function Written(d: Desc): iset<int> {
    iset a: int | Writes(d, a)
  }

  ghost function Touched(w: World, r: Req, d: Desc, own: bool): Req {
    if own then r.(moved := r.moved + 1, mine := Exec(d, w.source, r.mine), foreign := r.foreign - Written(d))
    else r.(foreign := r.foreign + Written(d))
  }

  ghost function Step(w: World, s: Sys, a: Act): Sys
    requires Shaped(w, s) && Enabled(w, s, a)
  {
    var t := s.(proto := Protocol.Step(s.proto, EventOf(a)));
    match a
    case Arrive(id, sd, ep) => t.(reqs := s.reqs[id := Req(sd, ep, 0, 0, s.target, s.target, iset{})])
    case Retire(d) =>
      t.(target := Exec(d, w.source, s.target),
         reqs := map id | id in s.reqs :: Touched(w, s.reqs[id], d, RunsFor(s.proto, id)))
    case Other(e) =>
      match e
      case TakeLock(id) =>
        var sd, k := s.reqs[id].sd, s.proto.subs[id].total - s.proto.subs[id].left;
        t.(ring := Loaded(w, s.ring, Batch(sd, k), EpAt(sd, s.reqs[id].ep, false, k)),
           reqs := s.reqs[id := s.reqs[id].(first := k)])
      case Judge(_) => t.(ring := seq(|s.ring|, _ => ZERO_DESC))
      case _ => t
  }

  ghost predicate IsInit(s: Sys) {
    s.proto == Protocol.Init() && |s.ring| == XDMA_TRANSFER_MAX_DESC && s.reqs == map[]
  }

  ghost predicate Moves(w: World, s: Sys, a: Act, t: Sys) {
    Enabled(w, s, a) && (Shaped(w, s) ==> t == Step(w, s, a))
  }

  ghost predicate IsRun(w: World, tr: seq<Sys>, acts: seq<Act>) {
    && PageAligned(w.bus) && |tr| == |acts| + 1 && IsInit(tr[0])
    && forall i :: 0 <= i < |acts| ==> Moves(w, tr[i], acts[i], tr[i + 1])
  }

  // ---- What every step keeps ----

  /** Outside the bytes last written by others, the memory is what this request's batches alone make of it. */
  ghost predicate Agrees(r: Req, target: Mem) {
    forall a: int :: a !in r.foreign ==> target(a) == r.mine(a)
  }

  /** The first `moved` pieces have been moved, and nothing else. */
  ghost predicate Progress(w: World, r: Req) {
    r.moved <= |r.sd| && Moved(w.dir, Bytes(r.sd[..r.moved]), r.ep, w.source, r.base, r.mine)
  }

  /** The array holds n pieces from piece `first` on. */
  ghost predicate Holding(w: World, sd: seq<Seg>, ep: u64, first: nat, n: nat, ring: seq<Desc>)
    requires PageAligned(w.bus)
  {
    first + n <= |sd| && IsCompiled(ring, sd[first..first + n], EpAt(sd, ep, false, first), false, w.dir, w.bus)
  }

  predicate Rested(pc: Protocol.Pc) {
    pc.Ready? || pc == Protocol.Judged(true) || pc == Protocol.Done(true)
  }

  predicate InHand(pc: Protocol.Pc) {
    pc.Built? || pc.Cleared? || pc.Waiting?
  }

  /** What holds of a request, given its place in the protocol, the size of its batch, the array and the memory: the array
      is its own from transfer_init until the waiter looks at the state, and as long as no batch was judged COMPLETED without
      having been started, what it moved is the first pieces. */
  ghost predicate Good(w: World, r: Req, sub: Protocol.Sub, n: nat, ring: seq<Desc>, target: Mem)
    requires PageAligned(w.bus)
  {
    && Fits(r.sd, r.ep, w.dir) && Agrees(r, target) && r.moved == sub.finished + sub.retired && (!sub.stale ==> Progress(w, r))
    && (InHand(sub.pc) ==> Holding(w, r.sd, r.ep, r.first, n, ring) && r.first == sub.total - sub.left - n)
    && (Rested(sub.pc) ==> sub.retired == 0)
  }

  function Num(s: Sys, id: Id): nat {
    if id in s.proto.ctl.xfers then s.proto.ctl.xfers[id].descNum else 0
  }

  ghost predicate GoodAt(w: World, s: Sys, id: Id)
    requires PageAligned(w.bus) && id in s.reqs && id in s.proto.subs
  {
    Good(w, s.reqs[id], s.proto.subs[id], Num(s, id), s.ring, s.target)
  }

  ghost predicate Inv(w: World, s: Sys) {
    && Shaped(w, s) && Protocol.Inv(s.proto) && Soundness.Sound(s.proto) && Registers.Armed(s.proto)
    && forall id <- s.reqs :: GoodAt(w, s, id)
  }

  /** A request that a step leaves alone, but for its place in the protocol. */
  lemma {:induction false} Kept(w: World, r: Req, target: Mem, sub: Protocol.Sub, n: nat, ring: seq<Desc>,
                                sub': Protocol.Sub, n': nat, ring': seq<Desc>)
    requires PageAligned(w.bus) && Good(w, r, sub, n, ring, target)
    requires sub'.finished + sub'.retired == sub.finished + sub.retired && (sub.stale ==> sub'.stale)
    requires InHand(sub'.pc) ==> InHand(sub.pc) && sub'.left == sub.left && sub'.total == sub.total
    requires InHand(sub'.pc) ==> n' == n && ring' == ring
    requires Rested(sub'.pc) ==> sub'.retired == 0
    ensures Good(w, r, sub', n', ring', target)
  {
  }

  lemma {:induction false} LoadedIsCompiled(w: World, ring: seq<Desc>, p: seq<Seg>, ep: u64)
    requires PageAligned(w.bus) && |p| <= XDMA_TRANSFER_MAX_DESC == |ring|
    ensures IsCompiled(Loaded(w, ring, p, ep), p, ep, false, w.dir, w.bus)
  {
  }

  // ---- The hardware executes a descriptor ----

  /** What the hardware fetches from a compiled batch, after `count` descriptors, is the next one. */
  lemma {:induction false} FetchesNext(w: World, s: Sys, sd: seq<Seg>, ep: u64, first: nat, n: nat)
    requires PageAligned(w.bus) && |s.ring| == XDMA_TRANSFER_MAX_DESC && Holding(w, sd, ep, first, n, s.ring)
    requires s.proto.board.count < n && s.proto.ctl.regs.adjacent < n && s.proto.ctl.regs.adjacent <= 15
    ensures n <= |s.ring| && Fetched(w, s) == Some(s.ring[s.proto.board.count])
  {
    var p := sd[first..first + n];
    CompiledIsChain(s.ring, p, EpAt(sd, ep, false, first), false, w.dir, w.bus);
    PrefetchRefinesWalk(s.ring, w.bus, n, s.proto.ctl.regs.adjacent, XDMA_TRANSFER_MAX_DESC);
  }

  lemma {:induction false} CompiledEnds(p: seq<Seg>, ep: u64, dir: Dir, bus: u64, c: nat)
    requires PageAligned(bus) && c < |p| <= XDMA_TRANSFER_MAX_DESC
    ensures var d := Compiled(p, ep, false, dir, bus, c); d == Filled(d, p[c].addr, EpAt(p, ep, false, c), p[c].len, dir)
  {
  }

  /** Descriptor c of the batch at piece k is at the device position of piece k + c. */
  lemma {:induction false} EpPiece(sd: seq<Seg>, ep: u64, k: nat, n: nat, c: nat)
    requires ep + Total(sd) < U64 && c < n && k + n <= |sd|
    ensures EpAt(sd[k..k + n], EpAt(sd, ep, false, k), false, c) == ep + Total(sd[..k + c])
    ensures Total(sd[..k + c]) <= Total(sd)
  {
    var p := sd[k..k + n];
    assert |p| == n;
    EpCompose(sd, p, ep, false, k, c);
    BytesPrefix(sd, k + c);
    EpExact(sd, ep, k + c);
  }

  lemma {:induction false} PieceFilled(sd: seq<Seg>, ep: u64, k: nat, n: nat, c: nat, dir: Dir, bus: u64, d: Desc)
    requires PageAligned(bus) && Fits(sd, ep, dir) && n <= XDMA_TRANSFER_MAX_DESC && c < n && k + n <= |sd|
    requires d == Compiled(sd[k..k + n], EpAt(sd, ep, false, k), false, dir, bus, c)
    ensures Total(sd[..k + c]) <= Total(sd) && d == Filled(d, sd[k + c].addr, ep + Total(sd[..k + c]), sd[k + c].len, dir)
  {
    EpPiece(sd, ep, k, n, c);
    CompiledEnds(sd[k..k + n], EpAt(sd, ep, false, k), dir, bus, c);
  }

  lemma {:induction false} SegMoves(dir: Dir, a: seq<nat>, seg: Seg, ep: u64, d: Desc, from: Mem, base: Mem, mine: Mem)
    requires ep + |a| < U64 && d == Filled(d, seg.addr, ep + |a|, seg.len, dir) && Moved(dir, a, ep, from, base, mine)
    requires dir == FromDevice ==> Distinct(a + Span(seg.addr, seg.len))
    ensures Moved(dir, a + Span(seg.addr, seg.len), ep, from, base, Exec(d, from, mine))
  {
    ExecMoves(d, seg, ep + |a|, dir, from, mine);
    MovedAppend(dir, a, Span(seg.addr, seg.len), ep, from, base, mine, Exec(d, from, mine));
  }

  /** The bytes of the pieces up to and with piece m. */
  lemma {:induction false} PieceBytes(sd: seq<Seg>, m: nat)
    requires m < |sd|
    ensures Bytes(sd[..m + 1]) == Bytes(sd[..m]) + Span(sd[m].addr, sd[m].len)
    ensures Distinct(Bytes(sd)) ==> Distinct(Bytes(sd[..m + 1]))
  {
    BytesSnoc(sd, m);
    BytesPrefix(sd, m + 1);
    if Distinct(Bytes(sd)) {
      DistinctPrefix(Bytes(sd), Total(sd[..m + 1]));
    }
  }

  /** The next piece extends what has been moved. */
  lemma {:induction false} PieceExtends(dir: Dir, sd: seq<Seg>, ep: u64, m: nat, d: Desc, from: Mem, base: Mem, mine: Mem)
    requires Fits(sd, ep, dir) && m < |sd| && Total(sd[..m]) <= Total(sd)
    requires d == Filled(d, sd[m].addr, ep + Total(sd[..m]), sd[m].len, dir)
    requires Moved(dir, Bytes(sd[..m]), ep, from, base, mine)
    ensures Moved(dir, Bytes(sd[..m + 1]), ep, from, base, Exec(d, from, mine))
  {
    PieceBytes(sd, m);
    SegMoves(dir, Bytes(sd[..m]), sd[m], ep, d, from, base, mine);
  }

  /** Executing any descriptor keeps the agreement outside foreign bytes. */
  lemma {:induction false} TouchedAgrees(w: World, r: Req, d: Desc, own: bool, target: Mem)
    requires Agrees(r, target)
    ensures Agrees(Touched(w, r, d, own), Exec(d, w.source, target))
  {
    forall a: int | a !in Touched(w, r, d, own).foreign
      ensures Exec(d, w.source, target)(a) == Touched(w, r, d, own).mine(a)
    {
      assert a in Written(d) <==> Writes(d, a);
    }
  }

  lemma {:induction false} HeldFilled(w: World, sd: seq<Seg>, ep: u64, first: nat, n: nat, c: nat, ring: seq<Desc>)
    requires PageAligned(w.bus) && Fits(sd, ep, w.dir) && Holding(w, sd, ep, first, n, ring) && c < n
    ensures c < |ring| && first + c < |sd| && Total(sd[..first + c]) <= Total(sd)
    ensures ring[c] == Filled(ring[c], sd[first + c].addr, ep + Total(sd[..first + c]), sd[first + c].len, w.dir)
  {
    PieceFilled(sd, ep, first, n, c, w.dir, w.bus, ring[c]);
  }

  lemma {:induction false} OwnProgress(w: World, r: Req, n: nat, c: nat, ring: seq<Desc>, own: Req)
    requires PageAligned(w.bus) && Fits(r.sd, r.ep, w.dir) && Holding(w, r.sd, r.ep, r.first, n, ring) && c < n && c < |ring|
    requires Progress(w, r) && r.moved == r.first + c && own == Touched(w, r, ring[c], true)
    ensures Progress(w, own)
  {
    HeldFilled(w, r.sd, r.ep, r.first, n, c, ring);
    PieceExtends(w.dir, r.sd, r.ep, r.moved, ring[c], w.source, r.base, r.mine);
  }

  /** The batch's next descriptor, executed for the request that waits for it. */
  lemma {:induction false} OwnRetired(w: World, r: Req, sub: Protocol.Sub, n: nat, ring: seq<Desc>, target: Mem, c: nat, own: Req)
    requires PageAligned(w.bus) && Good(w, r, sub, n, ring, target) && sub.pc.Waiting? && c == sub.retired < n && c < |ring|
    requires (!sub.stale ==> sub.finished == r.first) && own == Touched(w, r, ring[c], true)
    ensures Good(w, own, sub.(retired := c + 1), n, ring, Exec(ring[c], w.source, target))
  {
    TouchedAgrees(w, r, ring[c], true, target);
    if !sub.stale {
      OwnProgress(w, r, n, c, ring, own);
    }
  }

  lemma {:induction false} OtherRetired(w: World, r: Req, sub: Protocol.Sub, n: nat, ring: seq<Desc>, target: Mem, d: Desc)
    requires PageAligned(w.bus) && Good(w, r, sub, n, ring, target)
    ensures Good(w, Touched(w, r, d, false), sub, n, ring, Exec(d, w.source, target))
  {
    TouchedAgrees(w, r, d, false, target);
  }

  // ---- Every step ----

  /** How the protocol step leaves a submitter that it gives no new batch, no verdict and no executed descriptor. */
  predicate Quiet(s: Protocol.Sys, t: Protocol.Sys, k: Id)
    requires k in s.subs
  {
    && k in t.subs
    && var sub, sub' := s.subs[k], t.subs[k];
      && sub' == sub.(pc := sub'.pc, epoch := sub'.epoch, own := sub'.own)
      && (InHand(sub'.pc) ==>
          InHand(sub.pc) && k in s.ctl.xfers && k in t.ctl.xfers && t.ctl.xfers[k].descNum == s.ctl.xfers[k].descNum)
      && (Rested(sub'.pc) ==> Rested(sub.pc))
  }

  predicate IsQuiet(e: Protocol.Event) {
    !e.Arrive? && !e.TakeLock? && !e.Judge? && !e.Retire?
  }

  lemma {:induction false} QuietEnqueue(s: Protocol.Sys, id: Id, k: Id)
    requires Protocol.Inv(s) && Protocol.Enabled(s, Protocol.Enqueue(id)) && k in s.subs
    ensures Protocol.Wellformed(s) && Quiet(s, Protocol.Step(s, Protocol.Enqueue(id)), k)
  {
    Protocol.InvWellformed(s);
    if !s.ctl.request {
      Protocol.EnqueueOutcome(s, id);
    }
  }

  lemma {:induction false} QuietService(s: Protocol.Sys, k: Id)
    requires Protocol.Inv(s) && k in s.subs
    ensures Protocol.Wellformed(s) && Quiet(s, Protocol.Step(s, Protocol.ServiceWork), k)
  {
    Protocol.InvWellformed(s);
    if s.ctl.running {
      var state := Protocol.ServiceOutcome(s);
    }
  }

  lemma {:induction false} QuietQueue(s: Protocol.Sys, e: Protocol.Event, k: Id)
    requires Protocol.Inv(s) && Protocol.Enabled(s, e) && (e.Enqueue? || e.ServiceWork?) && k in s.subs
    ensures Protocol.Wellformed(s) && Quiet(s, Protocol.Step(s, e), k)
  {
    match e {
      case Enqueue(id) => QuietEnqueue(s, id, k);
      case _ => QuietService(s, k);
    }
  }

  lemma {:induction false} QuietOther(s: Protocol.Sys, e: Protocol.Event, k: Id)
    requires Protocol.Inv(s) && Protocol.Enabled(s, e) && IsQuiet(e) && !e.Enqueue? && !e.ServiceWork? && k in s.subs
    ensures Protocol.Wellformed(s) && Quiet(s, Protocol.Step(s, e), k)
  {
    Protocol.InvWellformed(s);
  }

  lemma {:induction false} QuietKeeps(w: World, s: Sys, t: Sys, k: Id)
    requires Inv(w, s) && k in s.reqs && Quiet(s.proto, t.proto, k)
    requires t.reqs == s.reqs && t.ring == s.ring && t.target == s.target
    ensures GoodAt(w, t, k)
  {
    assert GoodAt(w, s, k);
    Kept(w, s.reqs[k], s.target, s.proto.subs[k], Num(s, k), s.ring, t.proto.subs[k], Num(t, k), t.ring);
  }

  lemma {:induction false} ProtoKeeps(w: World, s: Sys, a: Act)
    requires Inv(w, s) && Enabled(w, s, a)
    ensures var t := Step(w, s, a);
      Protocol.Inv(t.proto) && Soundness.Sound(t.proto) && Registers.Armed(t.proto) && Protocol.Wellformed(t.proto)
  {
    Soundness.StepKeepsSound(s.proto, EventOf(a));
    Registers.StepKeepsArmed(s.proto, EventOf(a));
    Protocol.InvWellformed(Step(w, s, a).proto);
  }

  /** No step changes the size of a request or has more of it left to build than before. */
  ghost predicate SizeKept(s: Protocol.Sys, t: Protocol.Sys, k: Id)
    requires k in s.subs
  {
    k in t.subs && t.subs[k].left <= s.subs[k].left && t.subs[k].total == s.subs[k].total
  }

  lemma {:induction false} QueueSizes(s: Protocol.Sys, e: Protocol.Event, k: Id)
    requires Protocol.Inv(s) && Protocol.Enabled(s, e) && k in s.subs && (e.Enqueue? || e.ServiceWork?)
    ensures Protocol.Wellformed(s) && SizeKept(s, Protocol.Step(s, e), k)
  {
    QuietQueue(s, e, k);
  }

  lemma {:induction false} SizesKept(s: Protocol.Sys, e: Protocol.Event, k: Id)
    requires Protocol.Inv(s) && Protocol.Enabled(s, e) && k in s.subs
    ensures Protocol.Wellformed(s) && SizeKept(s, Protocol.Step(s, e), k)
  {
    Protocol.InvWellformed(s);
    if e.Enqueue? || e.ServiceWork? {
      QueueSizes(s, e, k);
    }
  }

  lemma {:induction false} KeysKept(s: Protocol.Sys, e: Protocol.Event)
    requires Protocol.Inv(s) && Protocol.Enabled(s, e)
    ensures Protocol.Wellformed(s)
    ensures Protocol.Step(s, e).subs.Keys == s.subs.Keys + (if e.Arrive? then {e.id} else {})
  {
    Protocol.InvWellformed(s);
  }

  lemma {:induction false} ReqsKept(w: World, s: Sys, a: Act)
    requires Shaped(w, s) && Enabled(w, s, a)
    ensures var t := Step(w, s, a);
      && |t.ring| == |s.ring| && t.reqs.Keys == s.reqs.Keys + (if a.Arrive? then {a.id} else {})
      && (a.Arrive? ==> |t.reqs[a.id].sd| == |a.sd|)
      && forall k <- s.reqs :: !(a.Arrive? && k == a.id) ==> t.reqs[k].sd == s.reqs[k].sd
  {
  }

  lemma {:induction false} ShapeKept(w: World, s: Sys, a: Act)
    requires Inv(w, s) && Enabled(w, s, a) && Protocol.Wellformed(Step(w, s, a).proto)
    ensures Shaped(w, Step(w, s, a))
  {
    var t, e := Step(w, s, a), EventOf(a);
    ReqsKept(w, s, a);
    KeysKept(s.proto, e);
    forall k <- t.reqs
      ensures k in t.proto.subs && t.proto.subs[k].left <= t.proto.subs[k].total == |t.reqs[k].sd|
    {
      if k in s.reqs {
        SizesKept(s.proto, e, k);
      }
    }
  }

  lemma {:induction false} QuietGood(w: World, s: Sys, e: Protocol.Event, k: Id)
    requires Inv(w, s) && Enabled(w, s, Other(e)) && IsQuiet(e) && k in s.reqs
    ensures k in Step(w, s, Other(e)).proto.subs && GoodAt(w, Step(w, s, Other(e)), k)
  {
    if e.Enqueue? || e.ServiceWork? {
      QuietQueue(s.proto, e, k);
    } else {
      QuietOther(s.proto, e, k);
    }
    QuietKeeps(w, s, Step(w, s, Other(e)), k);
  }

  lemma {:induction false} NewGood(w: World, sd: seq<Seg>, ep: u64, target: Mem, sub: Protocol.Sub, n: nat, ring: seq<Desc>)
    requires PageAligned(w.bus) && Fits(sd, ep, w.dir) && !InHand(sub.pc) && sub.finished == sub.retired == 0
    ensures Good(w, Req(sd, ep, 0, 0, target, target, iset{}), sub, n, ring, target)
  {
    MovedNothing(w.dir, ep, w.source, target);
    assert sd[..0] == [];
  }

  lemma {:induction false} ArriveGood(w: World, s: Sys, id: Id, sd: seq<Seg>, ep: u64, k: Id)
    requires Inv(w, s) && Enabled(w, s, Arrive(id, sd, ep)) && (k in s.reqs || k == id)
    ensures k in Step(w, s, Arrive(id, sd, ep)).proto.subs && GoodAt(w, Step(w, s, Arrive(id, sd, ep)), k)
  {
    var t := Step(w, s, Arrive(id, sd, ep));
    if k == id {
      NewGood(w, sd, ep, s.target, t.proto.subs[id], Num(t, id), t.ring);
    } else {
      assert GoodAt(w, s, k);
    }
  }

  /** Only the lock holder has a batch in hand. */
  lemma {:induction false} HolderOnly(s: Protocol.Sys, id: Id, k: Id)
    requires Protocol.Inv(s) && id in s.subs && k in s.subs && k != id
    requires s.lock == None || Protocol.HoldsLock(s.subs[id].pc)
    ensures !InHand(s.subs[k].pc)
  {
  }

  lemma {:induction false} LoadedHolding(w: World, ring: seq<Desc>, sd: seq<Seg>, ep: u64, k: nat, m: nat)
    requires PageAligned(w.bus) && |ring| == XDMA_TRANSFER_MAX_DESC && k <= |sd| && m == Min(|sd| - k, XDMA_TRANSFER_MAX_DESC)
    ensures Holding(w, sd, ep, k, m, Loaded(w, ring, Batch(sd, k), EpAt(sd, ep, false, k)))
  {
    LoadedIsCompiled(w, ring, Batch(sd, k), EpAt(sd, ep, false, k));
  }

  /** transfer_init for a request whose turn it is. */
  lemma {:induction false} LoadedGood(w: World, r: Req, sub: Protocol.Sub, n: nat, ring: seq<Desc>, target: Mem,
                                      k: nat, m: nat, ring': seq<Desc>)
    requires PageAligned(w.bus) && Good(w, r, sub, n, ring, target) && sub.pc.Ready?
    requires m <= sub.left && k == sub.total - sub.left && Holding(w, r.sd, r.ep, k, m, ring')
    ensures Good(w, r.(first := k), sub.(pc := Protocol.Built, left := sub.left - m, retired := 0), m, ring', target)
  {
  }

  lemma {:induction false} IdleGood(w: World, r: Req, sub: Protocol.Sub, n: nat, ring: seq<Desc>, target: Mem,
                                    n': nat, ring': seq<Desc>)
    requires PageAligned(w.bus) && Good(w, r, sub, n, ring, target) && !InHand(sub.pc)
    ensures Good(w, r, sub, n', ring', target)
  {
  }

  lemma {:induction false} SettledGood(w: World, r: Req, sub: Protocol.Sub, n: nat, ring: seq<Desc>, target: Mem, ok: bool,
                                       n': nat, ring': seq<Desc>)
    requires PageAligned(w.bus) && Good(w, r, sub, n, ring, target)
    ensures Good(w, r, Protocol.Settled(sub, ok), n', ring', target)
  {
  }

  lemma {:induction false} TakenData(w: World, s: Sys, id: Id)
    requires Shaped(w, s) && Enabled(w, s, Other(Protocol.TakeLock(id)))
    ensures var t, r, sub := Step(w, s, Other(Protocol.TakeLock(id))), s.reqs[id], s.proto.subs[id];
      var k := sub.total - sub.left;
      && t.reqs == s.reqs[id := r.(first := k)] && t.target == s.target
      && Holding(w, r.sd, r.ep, k, Min(sub.left, XDMA_TRANSFER_MAX_DESC), t.ring)
  {
    var r, sub := s.reqs[id], s.proto.subs[id];
    var k := sub.total - sub.left;
    assert |r.sd| - k == sub.left;
    LoadedHolding(w, s.ring, r.sd, r.ep, k, Min(sub.left, XDMA_TRANSFER_MAX_DESC));
  }

  /** What transfer_init leaves of the protocol for submitter k. */
  predicate TakenFrom(s: Protocol.Sys, t: Protocol.Sys, id: Id, k: Id)
    requires id in s.subs && k in s.subs
  {
    && k in t.subs
    && if k != id then t.subs[k] == s.subs[k] && !InHand(s.subs[k].pc)
       else
         var sub, m := s.subs[k], Min(s.subs[k].left, XDMA_TRANSFER_MAX_DESC);
         && sub.pc.Ready? && t.subs[k] == sub.(pc := Protocol.Built, left := sub.left - m, retired := 0)
         && k in t.ctl.xfers && t.ctl.xfers[k].descNum == m
  }

  lemma {:induction false} TakenSubs(s: Protocol.Sys, id: Id, k: Id)
    requires Protocol.Inv(s) && Protocol.Enabled(s, Protocol.TakeLock(id)) && k in s.subs
    ensures Protocol.Wellformed(s) && TakenFrom(s, Protocol.Step(s, Protocol.TakeLock(id)), id, k)
  {
    Protocol.InvWellformed(s);
    if k != id {
      HolderOnly(s, id, k);
    }
  }

  lemma {:induction false} TakenGoodAt(w: World, s: Sys, t: Sys, id: Id, k: Id, first: nat)
    requires PageAligned(w.bus) && k in s.reqs && id in s.reqs && k in s.proto.subs && id in s.proto.subs && GoodAt(w, s, k)
    requires t.reqs == s.reqs[id := s.reqs[id].(first := first)] && t.target == s.target && TakenFrom(s.proto, t.proto, id, k)
    requires first == s.proto.subs[id].total - s.proto.subs[id].left
    requires Holding(w, s.reqs[id].sd, s.reqs[id].ep, first, Min(s.proto.subs[id].left, XDMA_TRANSFER_MAX_DESC), t.ring)
    ensures GoodAt(w, t, k)
  {
    if k == id {
      LoadedGood(w, s.reqs[k], s.proto.subs[k], Num(s, k), s.ring, s.target, first,
        Min(s.proto.subs[k].left, XDMA_TRANSFER_MAX_DESC), t.ring);
    } else {
      IdleGood(w, s.reqs[k], s.proto.subs[k], Num(s, k), s.ring, s.target, Num(t, k), t.ring);
    }
  }

  lemma {:induction false} TakeLockStep(w: World, s: Sys, id: Id, k: Id)
    requires Shaped(w, s) && Enabled(w, s, Other(Protocol.TakeLock(id))) && k in s.reqs && GoodAt(w, s, k)
    requires TakenFrom(s.proto, Protocol.Step(s.proto, Protocol.TakeLock(id)), id, k)
    ensures var t := Step(w, s, Other(Protocol.TakeLock(id))); k in t.proto.subs && GoodAt(w, t, k)
  {
    TakenData(w, s, id);
    TakenGoodAt(w, s, Step(w, s, Other(Protocol.TakeLock(id))), id, k, s.proto.subs[id].total - s.proto.subs[id].left);
  }

  lemma {:induction false} TakeLockGood(w: World, s: Sys, id: Id, k: Id)
    requires Inv(w, s) && Enabled(w, s, Other(Protocol.TakeLock(id))) && k in s.reqs
    ensures var t := Step(w, s, Other(Protocol.TakeLock(id))); k in t.proto.subs && GoodAt(w, t, k)
  {
    assert GoodAt(w, s, k);
    TakenSubs(s.proto, id, k);
    TakeLockStep(w, s, id, k);
  }

  lemma {:induction false} JudgedSubs(s: Protocol.Sys, id: Id)
    requires Protocol.Inv(s) && Protocol.At(s, id, Protocol.Waiting)
    ensures Protocol.Wellformed(s) && Protocol.Step(s, Protocol.Judge(id)).subs
      == s.subs[id := Protocol.Settled(s.subs[id], s.ctl.xfers[id].state == Service.Completed)]
  {
    Protocol.InvWellformed(s);
  }

  lemma {:induction false} JudgeGood(w: World, s: Sys, id: Id, k: Id)
    requires Inv(w, s) && Enabled(w, s, Other(Protocol.Judge(id))) && k in s.reqs
    ensures var t := Step(w, s, Other(Protocol.Judge(id))); k in t.proto.subs && GoodAt(w, t, k)
  {
    var t := Step(w, s, Other(Protocol.Judge(id)));
    JudgedSubs(s.proto, id);
    assert GoodAt(w, s, k);
    if k != id {
      HolderOnly(s.proto, id, k);
      IdleGood(w, s.reqs[k], s.proto.subs[k], Num(s, k), s.ring, s.target, Num(t, k), t.ring);
    } else {
      SettledGood(w, s.reqs[k], s.proto.subs[k], Num(s, k), s.ring, s.target,
        s.proto.ctl.xfers[id].state == Service.Completed, Num(t, k), t.ring);
    }
  }

  /** The hardware is on a batch that is waited for: its count is the batch's, and its first fetch is inside it. */
  predicate OwnCount(s: Protocol.Sys, id: Id)
    requires id in s.subs
  {
    && id in s.ctl.xfers
    && var sub, n := s.subs[id], s.ctl.xfers[id].descNum;
      s.board.len == n && s.ctl.regs.adjacent < n && s.ctl.regs.adjacent <= 15
      && s.board.count == sub.retired && (!sub.stale ==> sub.finished == sub.total - sub.left - n)
  }

  lemma {:induction false} RunsOwn(s: Protocol.Sys, id: Id)
    requires Protocol.Inv(s) && Soundness.Sound(s) && Registers.Armed(s) && RunsFor(s, id)
    ensures OwnCount(s, id)
  {
    assert Soundness.SoundAt(s, id);
  }

  /** The descriptor retired is the next one of the batch, for the one request the hardware runs for. */
  lemma {:induction false} RetiresNext(w: World, s: Sys, id: Id, d: Desc, n: nat)
    requires Shaped(w, s) && Enabled(w, s, Retire(d)) && id in s.reqs && RunsFor(s.proto, id) && s.proto.board.len == n
    requires s.proto.ctl.regs.adjacent < n && s.proto.ctl.regs.adjacent <= 15
    requires var r := s.reqs[id]; Holding(w, r.sd, r.ep, r.first, n, s.ring)
    ensures s.proto.board.count < n && s.proto.board.count < |s.ring| && d == s.ring[s.proto.board.count]
  {
    var r := s.reqs[id];
    FetchesNext(w, s, r.sd, r.ep, r.first, n);
  }

  lemma {:induction false} RetiredSub(s: Protocol.Sys, k: Id)
    requires Protocol.Inv(s) && Protocol.Enabled(s, Protocol.Retire) && k in s.subs
    ensures Protocol.Wellformed(s) && k in Protocol.Step(s, Protocol.Retire).subs
    ensures Protocol.Step(s, Protocol.Retire).ctl == s.ctl
    ensures Protocol.Step(s, Protocol.Retire).subs[k]
      == if RunsFor(s, k) then s.subs[k].(retired := s.subs[k].retired + 1) else s.subs[k]
  {
    Protocol.InvWellformed(s);
  }

  lemma {:induction false} ReqTouched(w: World, s: Sys, d: Desc, k: Id)
    requires Shaped(w, s) && Enabled(w, s, Retire(d)) && k in s.reqs
    ensures var t := Step(w, s, Retire(d));
      && t.ring == s.ring && t.target == Exec(d, w.source, s.target)
      && k in t.reqs && t.reqs[k] == Touched(w, s.reqs[k], d, RunsFor(s.proto, k))
  {
  }

  lemma {:induction false} RetiredGood(w: World, r: Req, sub: Protocol.Sub, n: nat, ring: seq<Desc>, target: Mem,
                                       d: Desc, runs: bool)
    requires PageAligned(w.bus) && Good(w, r, sub, n, ring, target)
    requires runs ==> sub.pc.Waiting? && sub.retired < n && sub.retired < |ring| && d == ring[sub.retired]
    requires runs && !sub.stale ==> sub.finished == r.first
    ensures var sub' := if runs then sub.(retired := sub.retired + 1) else sub;
      Good(w, Touched(w, r, d, runs), sub', n, ring, Exec(d, w.source, target))
  {
    if runs {
      OwnRetired(w, r, sub, n, ring, target, sub.retired, Touched(w, r, d, runs));
    } else {
      OtherRetired(w, r, sub, n, ring, target, d);
    }
  }

  /** What retiring finds for a request that the hardware runs for. */
  ghost predicate RunsNext(s: Sys, k: Id, d: Desc)
    requires k in s.proto.subs && k in s.reqs
  {
    var sub := s.proto.subs[k];
    && sub.pc.Waiting? && sub.retired < Num(s, k) && sub.retired < |s.ring| && d == s.ring[sub.retired]
    && (!sub.stale ==> sub.finished == s.reqs[k].first)
  }

  lemma {:induction false} RunsNextAt(w: World, s: Sys, d: Desc, k: Id)
    requires Shaped(w, s) && Enabled(w, s, Retire(d)) && k in s.reqs && GoodAt(w, s, k)
    requires RunsFor(s.proto, k) && OwnCount(s.proto, k)
    ensures RunsNext(s, k, d)
  {
    RetiresNext(w, s, k, d, Num(s, k));
  }

  lemma {:induction false} RetireGoodAt(w: World, s: Sys, t: Sys, d: Desc, k: Id, runs: bool)
    requires PageAligned(w.bus) && k in s.reqs && k in s.proto.subs && GoodAt(w, s, k) && (runs ==> RunsNext(s, k, d))
    requires t.ring == s.ring && t.target == Exec(d, w.source, s.target) && Num(t, k) == Num(s, k)
    requires k in t.reqs && t.reqs[k] == Touched(w, s.reqs[k], d, runs)
    requires k in t.proto.subs && var sub := s.proto.subs[k];
      t.proto.subs[k] == if runs then sub.(retired := sub.retired + 1) else sub
    ensures GoodAt(w, t, k)
  {
    RetiredGood(w, s.reqs[k], s.proto.subs[k], Num(s, k), s.ring, s.target, d, runs);
  }

  lemma {:induction false} RetireGood(w: World, s: Sys, d: Desc, k: Id)
    requires Inv(w, s) && Enabled(w, s, Retire(d)) && k in s.reqs
    ensures var t := Step(w, s, Retire(d)); k in t.proto.subs && GoodAt(w, t, k)
  {
    assert GoodAt(w, s, k);
    RetiredSub(s.proto, k);
    ReqTouched(w, s, d, k);
    if RunsFor(s.proto, k) {
      RunsOwn(s.proto, k);
      RunsNextAt(w, s, d, k);
    }
    RetireGoodAt(w, s, Step(w, s, Retire(d)), d, k, RunsFor(s.proto, k));
  }

  lemma {:induction false} StepGood(w: World, s: Sys, a: Act, k: Id)
    requires Inv(w, s) && Enabled(w, s, a) && k in Step(w, s, a).reqs
    ensures k in Step(w, s, a).proto.subs && GoodAt(w, Step(w, s, a), k)
  {
    match a {
      case Arrive(id, sd, ep) => ArriveGood(w, s, id, sd, ep, k);
      case Retire(d) => RetireGood(w, s, d, k);
      case Other(e) =>
        match e {
          case TakeLock(id) => TakeLockGood(w, s, id, k);
          case Judge(id) => JudgeGood(w, s, id, k);
          case _ => QuietGood(w, s, e, k);
        }
    }
  }

  lemma {:induction false} StepKeepsInv(w: World, s: Sys, a: Act)
    requires Inv(w, s) && Enabled(w, s, a)
    ensures Inv(w, Step(w, s, a))
  {
    ProtoKeeps(w, s, a);
    ShapeKept(w, s, a);
    forall k <- Step(w, s, a).reqs
      ensures GoodAt(w, Step(w, s, a), k)
    {
      StepGood(w, s, a, k);
    }
  }

  lemma {:induction false} RunInv(w: World, tr: seq<Sys>, acts: seq<Act>, i: nat)
    requires IsRun(w, tr, acts) && i < |tr|
    ensures Inv(w, tr[i])
  {
    if i > 0 {
      RunInv(w, tr, acts, i - 1);
      assert Moves(w, tr[i - 1], acts[i - 1], tr[i]);
      StepKeepsInv(w, tr[i - 1], acts[i - 1]);
    }
  }
}
