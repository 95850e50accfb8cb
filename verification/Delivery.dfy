/** What requests have moved in every run of the protocol with its data, whatever other requests, timeouts, offlines and
    onlines do meanwhile: success is memcpy exactly when every batch was started by its own queueing. */
module Delivery {
  import opened Words
  import opened Descriptor
  import opened Segments
  import opened Compiler
  import opened Hardware
  import opened Memcpy
  import opened UserBuffer
  import opened Submit
  import opened ReadWrite
  import opened Transfers

  // ---- What the runs do to memory ----

  function Protos(tr: seq<Sys>): (r: seq<Protocol.Sys>)
    ensures |r| == |tr| && forall i :: 0 <= i < |tr| ==> r[i] == tr[i].proto
  {
    seq(|tr|, i requires 0 <= i < |tr| => tr[i].proto)
  }

  function Events(acts: seq<Act>): (r: seq<Protocol.Event>)
    ensures |r| == |acts| && forall i :: 0 <= i < |acts| ==> r[i] == EventOf(acts[i])
  {
    seq(|acts|, i requires 0 <= i < |acts| => EventOf(acts[i]))
  }

  /** A run with data is a run of the protocol. */
  lemma {:induction false} IsProtocolRun(w: World, tr: seq<Sys>, acts: seq<Act>)
    requires IsRun(w, tr, acts)
    ensures Protocol.IsRun(Protos(tr), Events(acts))
  {
    forall i | 0 <= i < |acts|
      ensures Protocol.Moves(Protos(tr)[i], Events(acts)[i], Protos(tr)[i + 1])
    {
      RunInv(w, tr, acts, i);
      assert Moves(w, tr[i], acts[i], tr[i + 1]);
    }
  }

  /** The request arrived with step a, and this is what it brought. */
  predicate Arrived(acts: seq<Act>, a: nat, id: Id, sd: seq<Seg>, ep: u64) {
    a < |acts| && acts[a] == Arrive(id, sd, ep)
  }

  /** Step j writes byte x on behalf of another batch than one the request waits for. */
  predicate WritesForOthers(tr: seq<Sys>, acts: seq<Act>, id: Id, j: nat, x: int)
    requires j < |acts| <= |tr|
  {
    acts[j].Retire? && !RunsFor(tr[j].proto, id) && Writes(acts[j].d, x)
  }

  ghost predicate UntouchedByOthers(tr: seq<Sys>, acts: seq<Act>, id: Id, a: nat, i: nat, x: int)
    requires i <= |acts| <= |tr|
  {
    forall j :: a < j < i ==> !WritesForOthers(tr, acts, id, j, x)
  }

  /** One step, for the history of a request. */
  lemma {:induction false} HistoryStep(w: World, s: Sys, a: Act, id: Id)
    requires Shaped(w, s) && Enabled(w, s, a) && id in s.reqs
    ensures id in Step(w, s, a).reqs
    ensures var t := Step(w, s, a);
      && t.reqs[id].sd == s.reqs[id].sd && t.reqs[id].ep == s.reqs[id].ep && t.reqs[id].base == s.reqs[id].base
      && forall x: int :: x in t.reqs[id].foreign ==>
        x in s.reqs[id].foreign || (a.Retire? && !RunsFor(s.proto, id) && Writes(a.d, x))
  {
  }

  /** The history fields are what they are said to be: pieces, position and memory at arrival, and no byte counts as
      foreign that no other batch wrote. */
  lemma {:induction false} HistoryOf(w: World, tr: seq<Sys>, acts: seq<Act>, i: nat, id: Id, a: nat, sd: seq<Seg>, ep: u64)
    requires IsRun(w, tr, acts) && Arrived(acts, a, id, sd, ep) && a < i < |tr|
    ensures id in tr[i].reqs
    ensures var r := tr[i].reqs[id]; r.sd == sd && r.ep == ep && r.base == tr[a].target
    ensures forall x: int :: UntouchedByOthers(tr, acts, id, a, i, x) ==> x !in tr[i].reqs[id].foreign
  {
    RunInv(w, tr, acts, i - 1);
    assert Moves(w, tr[i - 1], acts[i - 1], tr[i]);
    if i > a + 1 {
      HistoryOf(w, tr, acts, i - 1, id, a, sd, ep);
      HistoryStep(w, tr[i - 1], acts[i - 1], id);
      forall x: int | UntouchedByOthers(tr, acts, id, a, i, x)
        ensures x !in tr[i].reqs[id].foreign
      {
        assert UntouchedByOthers(tr, acts, id, a, i - 1, x) && !WritesForOthers(tr, acts, id, i - 1, x);
      }
    }
  }

  /** Wherever no other batch wrote since the request arrived, the memory is `mine`. */
  ghost predicate AgreesWith(tr: seq<Sys>, acts: seq<Act>, id: Id, a: nat, i: nat, mine: Mem)
    requires i <= |acts| <= |tr| && i < |tr|
  {
    forall x: int :: UntouchedByOthers(tr, acts, id, a, i, x) ==> tr[i].target(x) == mine(x)
  }

  /** What a request has moved after its first q pieces, in a memory that others may have written too: some memory that
      differs from the one at arrival by exactly those pieces, and agrees with the real one wherever no other batch wrote. */
  ghost predicate MovedBy(w: World, tr: seq<Sys>, acts: seq<Act>, id: Id, a: nat, i: nat, sd: seq<Seg>, ep: u64, q: nat)
    requires a < i <= |acts| <= |tr| && i < |tr| && q <= |sd|
  {
    exists mine: Mem ::
      AgreesWith(tr, acts, id, a, i, mine) && Moved(w.dir, Bytes(sd[..q]), ep, w.source, tr[a].target, mine)
  }

  /** In every run, at any time: a request none of whose batches was judged COMPLETED without having been started has moved
      its first pieces, as many as the hardware executed for it, and nothing else. */
  lemma {:induction false} MovedSoFar(w: World, tr: seq<Sys>, acts: seq<Act>, i: nat, id: Id, a: nat, sd: seq<Seg>, ep: u64)
    requires IsRun(w, tr, acts) && Arrived(acts, a, id, sd, ep) && a < i < |tr|
    ensures id in tr[i].proto.subs && id in tr[i].reqs
    ensures var sub := tr[i].proto.subs[id]; !sub.stale ==>
      sub.finished + sub.retired <= |sd| && MovedBy(w, tr, acts, id, a, i, sd, ep, sub.finished + sub.retired)
  {
    RunInv(w, tr, acts, i);
    HistoryOf(w, tr, acts, i, id, a, sd, ep);
    assert GoodAt(w, tr[i], id);
    var r := tr[i].reqs[id];
    if !tr[i].proto.subs[id].stale {
      assert AgreesWith(tr, acts, id, a, i, r.mine) && Moved(w.dir, Bytes(sd[..r.moved]), ep, w.source, tr[a].target, r.mine);
    }
  }

  /** In every run, of a request that returns success: if none of its batches was queued on an engine already marked running,
      all of its bytes have been moved, and nothing else was but what other batches wrote; otherwise the hardware has executed
      fewer descriptors than the request has. */
  lemma {:induction false} SuccessIsMoved(w: World, tr: seq<Sys>, acts: seq<Act>, i: nat, id: Id, a: nat, sd: seq<Seg>, ep: u64)
    requires IsRun(w, tr, acts) && Arrived(acts, a, id, sd, ep) && a < i < |tr|
    requires Protocol.At(tr[i].proto, id, Protocol.Done(true))
    ensures id in tr[i].reqs
    ensures if Soundness.QueuedOnRunning(Protos(tr), Events(acts), i, id)
      then tr[i].reqs[id].moved < |sd|
      else tr[i].reqs[id].moved == |sd| && MovedBy(w, tr, acts, id, a, i, sd, ep, |sd|)
  {
    IsProtocolRun(w, tr, acts);
    Soundness.SuccessIffNotStale(Protos(tr), Events(acts), i, id);
    Soundness.MarkedIff(Protos(tr), Events(acts), i, id);
    RunInv(w, tr, acts, i);
    HistoryOf(w, tr, acts, i, id, a, sd, ep);
    MovedSoFar(w, tr, acts, i, id, a, sd, ep);
    assert GoodAt(w, tr[i], id);
  }

  // ---- For the caller's buffer ----

  lemma {:induction false} MovedSame(dir: Dir, addrs: seq<nat>, ep: nat, from: Mem, to: Mem, a: Mem, b: Mem)
    requires Moved(dir, addrs, ep, from, to, a) && forall x: int :: b(x) == a(x)
    ensures Moved(dir, addrs, ep, from, to, b)
  {
  }

  /** memcpy between the user bytes and the device bytes, `to` and `to'` being the memory the engine writes. */
  ghost predicate CopiedTo(w: World, m: Memory, buf: nat, pos: nat, count: nat, to: Mem, to': Mem) {
    if w.dir == ToDevice then Copied(w.dir, m, buf, pos, count, w.source, to, w.source, to')
    else Copied(w.dir, m, buf, pos, count, to, w.source, to', w.source)
  }

  /** End to end, over all runs: a request for a user buffer that returns success, none of its batches queued on an engine
      already marked running, is memcpy: what it makes of the memory as it was on arrival differs from the real memory only
      where other batches wrote meanwhile. */
  lemma {:induction false} SuccessIsMemcpy(w: World, tr: seq<Sys>, acts: seq<Act>, i: nat, id: Id, a: nat, sd: seq<Seg>,
                                           m: Memory, buf: u64, pos: u64, count: nat)
    requires IsRun(w, tr, acts) && Arrived(acts, a, id, sd, pos) && a < i < |tr| && Bytes(sd) == UserAddrs(m, buf, count)
    requires Protocol.At(tr[i].proto, id, Protocol.Done(true)) && !Soundness.QueuedOnRunning(Protos(tr), Events(acts), i, id)
    ensures exists mine: Mem ::
      AgreesWith(tr, acts, id, a, i, mine) && CopiedTo(w, m, buf, pos, count, tr[a].target, mine)
  {
    SuccessIsMoved(w, tr, acts, i, id, a, sd, pos);
    assert sd[..|sd|] == sd;
    var mine: Mem :| AgreesWith(tr, acts, id, a, i, mine) && Moved(w.dir, Bytes(sd), pos, w.source, tr[a].target, mine);
    MovedIsCopied(w.dir, m, buf, pos, count, w.source, tr[a].target, mine);
  }

  /** If the hardware executed nothing for anybody else meanwhile, the memory is the memcpy. */
  lemma {:induction false} UndisturbedIsMemcpy(w: World, tr: seq<Sys>, acts: seq<Act>, i: nat, id: Id, a: nat, sd: seq<Seg>,
                                               m: Memory, buf: u64, pos: u64, count: nat)
    requires IsRun(w, tr, acts) && Arrived(acts, a, id, sd, pos) && a < i < |tr| && Bytes(sd) == UserAddrs(m, buf, count)
    requires Protocol.At(tr[i].proto, id, Protocol.Done(true)) && !Soundness.QueuedOnRunning(Protos(tr), Events(acts), i, id)
    requires forall j :: a < j < i && acts[j].Retire? ==> RunsFor(tr[j].proto, id)
    ensures CopiedTo(w, m, buf, pos, count, tr[a].target, tr[i].target)
  {
    SuccessIsMoved(w, tr, acts, i, id, a, sd, pos);
    assert sd[..|sd|] == sd;
    var mine: Mem :| AgreesWith(tr, acts, id, a, i, mine) && Moved(w.dir, Bytes(sd), pos, w.source, tr[a].target, mine);
    forall x: int
      ensures tr[i].target(x) == mine(x)
    {
      assert UntouchedByOthers(tr, acts, id, a, i, x);
    }
    MovedSame(w.dir, Bytes(sd), pos, w.source, tr[a].target, mine, tr[i].target);
    MovedIsCopied(w.dir, m, buf, pos, count, w.source, tr[a].target, tr[i].target);
  }

  /** How the waiting batch looks to its waiter. */
  function WaiterSees(s: Protocol.Sys, id: Id): Outcome
    requires id in s.subs && id in s.ctl.xfers
  {
    var n, retired := s.ctl.xfers[id].descNum, s.subs[id].retired;
    match s.ctl.xfers[id].state
    case Completed => Completed(if retired <= n then n - retired else 0)
    case Failed => Failed(retired)
    case _ => TimedOut(retired)
  }

  /** In every run: the outcome of a batch started by its own queueing is honest, and says how many descriptors the hardware
      executed; one that was not started, if marked COMPLETED, misses all of them. */
  lemma {:induction false} OwnIsHonest(tr: seq<Protocol.Sys>, evs: seq<Protocol.Event>, i: nat, id: Id)
    requires Protocol.IsRun(tr, evs) && i < |tr| && Protocol.At(tr[i], id, Protocol.Waiting)
    ensures id in tr[i].ctl.xfers
    ensures var outcome, n := WaiterSees(tr[i], id), tr[i].ctl.xfers[id].descNum;
      && Executed(outcome, n) == tr[i].subs[id].retired
      && (outcome.Completed? ==> if tr[i].subs[id].own then outcome.missing == 0 else outcome.missing == n)
  {
    Soundness.RunSound(tr, evs, i);
    assert Soundness.SoundAt(tr[i], id);
  }

  // ---- Every run of the protocol is a run with data ----

  datatype Want = Want(sd: seq<Seg>, ep: u64)

  lemma {:induction false} ActFor(w: World, s: Sys, e: Protocol.Event, want: Want) returns (a: Act)
    requires Inv(w, s) && Protocol.Enabled(s.proto, e)
    requires e.Arrive? ==> e.total == |want.sd| && Fits(want.sd, want.ep, w.dir)
    ensures Enabled(w, s, a) && EventOf(a) == e
  {
    if e.Arrive? {
      a := Arrive(e.id, want.sd, want.ep);
    } else if e.Retire? {
      a := Retire(if Fetched(w, s).Some? then Fetched(w, s).value else ZERO_DESC);
      forall id <- s.proto.subs | RunsFor(s.proto, id)
        ensures Fetched(w, s).Some?
      {
        assert GoodAt(w, s, id);
        RunsOwn(s.proto, id);
        var r := s.reqs[id];
        FetchesNext(w, s, r.sd, r.ep, r.first, Num(s, id));
      }
    } else {
      a := Other(e);
    }
  }

  lemma {:induction false} RunGrows(w: World, tr: seq<Sys>, acts: seq<Act>, a: Act)
    requires IsRun(w, tr, acts) && Shaped(w, tr[|acts|]) && Enabled(w, tr[|acts|], a)
    ensures IsRun(w, tr + [Step(w, tr[|acts|], a)], acts + [a])
  {
    var more, with := tr + [Step(w, tr[|acts|], a)], acts + [a];
    forall i | 0 <= i < |with|
      ensures Moves(w, more[i], with[i], more[i + 1])
    {
      if i < |acts| {
        assert Moves(w, tr[i], acts[i], tr[i + 1]);
      }
    }
  }

  /** The data add no condition of their own: whatever the protocol does, with whatever pieces, some run with data does. */
  lemma {:induction false} RunLifts(w: World, ptr: seq<Protocol.Sys>, evs: seq<Protocol.Event>, wants: map<Id, Want>, target: Mem)
    returns (tr: seq<Sys>, acts: seq<Act>)
    requires PageAligned(w.bus) && Protocol.IsRun(ptr, evs)
    requires forall i :: 0 <= i < |evs| && evs[i].Arrive? ==>
      evs[i].id in wants && evs[i].total == |wants[evs[i].id].sd| && Fits(wants[evs[i].id].sd, wants[evs[i].id].ep, w.dir)
    ensures IsRun(w, tr, acts) && Protos(tr) == ptr && Events(acts) == evs && tr[0].target == target
    decreases |evs|
  {
    if evs == [] {
      tr, acts := [Sys(Protocol.Init(), seq(XDMA_TRANSFER_MAX_DESC, _ => ZERO_DESC), target, map[])], [];
    } else {
      var n := |evs| - 1;
      var prefix, before := RunLifts(w, ptr[..n + 1], evs[..n], wants, target);
      RunInv(w, prefix, before, n);
      var s := prefix[n];
      assert Protocol.Moves(ptr[n], evs[n], ptr[n + 1]) && s.proto == Protos(prefix)[n] == ptr[n];
      var a := ActFor(w, s, evs[n], if evs[n].Arrive? then wants[evs[n].id] else Want([], 0));
      RunGrows(w, prefix, before, a);
      tr, acts := prefix + [Step(w, s, a)], before + [a];
      Projects(prefix, before, Step(w, s, a), a, ptr, evs);
    }
  }

  lemma {:induction false} Projects(tr: seq<Sys>, acts: seq<Act>, t: Sys, a: Act,
                                    ptr: seq<Protocol.Sys>, evs: seq<Protocol.Event>)
    requires |ptr| == |evs| + 1 && |evs| > 0 && |tr| == |evs|
    requires Protos(tr) == ptr[..|evs|] && Events(acts) == evs[..|evs| - 1]
    requires t.proto == ptr[|evs|] && EventOf(a) == evs[|evs| - 1]
    ensures Protos(tr + [t]) == ptr && Events(acts + [a]) == evs
  {
    forall i | 0 <= i < |evs|
      ensures (tr + [t])[i].proto == ptr[i]
    {
      assert Protos(tr)[i] == ptr[..|evs|][i];
    }
    forall i | 0 <= i < |evs| - 1
      ensures EventOf((acts + [a])[i]) == evs[i]
    {
      assert Events(acts)[i] == evs[..|evs| - 1][i];
    }
  }
}
