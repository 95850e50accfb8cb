/** What one call of the service routine means for the queue: which transfers leave it and in
    what state, and that it never strands work. */
module Accounting {
  import opened Words
  import opened Service

  /** Descriptor counts of the queued transfers, in order. */
  function Nums(c: Ctl): seq<nat>
    requires c.Valid()
  {
    seq(|c.queue|, i requires 0 <= i < |c.queue| => c.xfers[c.queue[i]].descNum)
  }

  function Sum(nums: seq<nat>, k: nat): nat
    requires k <= |nums|
  {
    if k == 0 then 0 else nums[0] + Sum(nums[1..], k - 1)
  }

  /** Length of the shortest non-empty prefix whose total reaches `count`; all of it if none does. */
  function Reach(nums: seq<nat>, count: nat): (k: nat)
    ensures k <= |nums| && (nums != [] ==> k >= 1)
  {
    if nums == [] then 0
    else if count <= nums[0] then 1
    else 1 + Reach(nums[1..], count - nums[0])
  }

  lemma {:induction false} ReachIsShortest(nums: seq<nat>, count: nat)
    requires nums != []
    ensures count <= Sum(nums, Reach(nums, count)) || Reach(nums, count) == |nums|
    ensures forall j :: 1 <= j < Reach(nums, count) ==> Sum(nums, j) < count
    decreases |nums|
  {
    if count <= nums[0] {
      assert Sum(nums, 1) == nums[0] + Sum(nums[1..], 0);
    } else if |nums| > 1 {
      ReachIsShortest(nums[1..], count - nums[0]);
      forall j | 1 <= j < Reach(nums, count)
        ensures Sum(nums, j) < count
      {
        if j == 1 {
          assert Sum(nums[1..], 0) == 0;
        }
      }
    }
  }

  predicate NonCyclic(c: Ctl)
    requires c.Valid()
  {
    forall i :: 0 <= i < |c.queue| ==> !c.xfers[c.queue[i]].cyclic
  }

  /** `d` is `c` with the first k transfers gone from the queue, all COMPLETED but perhaps the last of them. */
  ghost predicate Accounted(c: Ctl, d: Ctl, k: nat, lastOk: bool)
    requires c.Valid() && k <= |c.queue|
  {
    && d.queue == c.queue[k..]
    && d.descDequeued == c.descDequeued + Sum(Nums(c), k)
    && d.xfers.Keys == c.xfers.Keys
    && forall id <- c.xfers :: d.xfers[id] == c.xfers[id].(state :=
        if id !in c.queue[..k] then c.xfers[id].state
        else if id == c.queue[k - 1] && !lastOk then Failed
        else Completed)
  }

  /** What engine_service_transfer_list and engine_service_final_transfer make of a completion count. */
  function Processed(c: Ctl, count: nat, error: bool): Ctl
    requires c.Valid()
  {
    var (e, rest) := AllButLast(c, count);
    Last(e, rest, error)
  }

  /** Which of the queued transfers are cyclic. */
  function Cyclics(c: Ctl): (r: seq<bool>)
    requires c.Valid()
    ensures |r| == |c.queue| && forall i :: 0 <= i < |r| ==> r[i] == c.xfers[c.queue[i]].cyclic
  {
    seq(|c.queue|, i requires 0 <= i < |c.queue| => c.xfers[c.queue[i]].cyclic)
  }

  lemma {:induction false} PopCyclics(c: Ctl)
    requires c.Valid() && c.queue != []
    ensures var d := Pop(c, Completed); d.Valid() && Cyclics(d) == Cyclics(c)[1..]
  {
    var d := Pop(c, Completed);
    forall i | 0 <= i < |d.queue|
      ensures d.queue[i] in d.xfers && d.queue[i] == c.queue[i + 1] && d.xfers[d.queue[i]] == c.xfers[c.queue[i + 1]]
    {
    }
  }

  /** What is left of the queue is its end, and none of those gone is cyclic. */
  predicate NoneCyclicGone(queue: seq<Id>, cyclics: seq<bool>, rest: seq<Id>)
    requires |queue| == |cyclics|
  {
    |rest| <= |queue| && rest == queue[|queue| - |rest|..] && forall i :: 0 <= i < |queue| - |rest| ==> !cyclics[i]
  }

  lemma {:induction false} OneMoreGone(queue: seq<Id>, cyclics: seq<bool>, rest: seq<Id>)
    requires |queue| == |cyclics| > 0 && !cyclics[0] && NoneCyclicGone(queue[1..], cyclics[1..], rest)
    ensures NoneCyclicGone(queue, cyclics, rest)
  {
    forall i | 0 <= i < |queue| - |rest|
      ensures !cyclics[i]
    {
      if i > 0 {
        assert !cyclics[1..][i - 1];
      }
    }
  }

  lemma {:induction false} PassesHead(c: Ctl, count: nat)
    requires c.Valid() && c.queue != [] && !c.xfers[c.queue[0]].cyclic && count > c.xfers[c.queue[0]].descNum
    ensures AllButLast(c, count) == AllButLast(Pop(c, Completed), count - c.xfers[c.queue[0]].descNum)
  {
  }

  /** A cyclic transfer is never passed over: of those that leave the queue in one call, only the last can be cyclic. */
  lemma {:induction false} CyclicNotPassed(c: Ctl, count: nat)
    requires c.Valid()
    ensures NoneCyclicGone(c.queue, Cyclics(c), AllButLast(c, count).0.queue)
    decreases |c.queue|
  {
    if c.queue != [] && !c.xfers[c.queue[0]].cyclic && count > c.xfers[c.queue[0]].descNum {
      PopCyclics(c);
      PassesHead(c, count);
      CyclicNotPassed(Pop(c, Completed), count - c.xfers[c.queue[0]].descNum);
      OneMoreGone(c.queue, Cyclics(c), AllButLast(c, count).0.queue);
    }
  }

  /** One at the head is judged by the whole count, and leaves the queue alone. */
  lemma {:induction false} CyclicHeadJudged(c: Ctl, count: nat, error: bool)
    requires c.Valid() && c.queue != [] && c.xfers[c.queue[0]].cyclic
    ensures var d, head := Processed(c, count, error), c.queue[0];
      && d.queue == c.queue[1..] && d.descDequeued == c.descDequeued + c.xfers[head].descNum
      && d.xfers == Mark(c.xfers, head, if error || count < c.xfers[head].descNum then Failed else Completed)
  {
  }

  /** The WARN_ON of the final transfer never fires: it is handed at most its own descriptors. */
  lemma {:induction false} NeverTooMany(c: Ctl, count: nat)
    requires c.Valid() && NonCyclic(c)
    ensures var (e, rest) := AllButLast(c, count); e.queue != [] ==> rest <= e.xfers[e.queue[0]].descNum
    decreases |c.queue|
  {
    if c.queue != [] && count > c.xfers[c.queue[0]].descNum {
      PopNonCyclic(c);
      NeverTooMany(Pop(c, Completed), count - c.xfers[c.queue[0]].descNum);
    }
  }

  lemma {:induction false} PopNonCyclic(c: Ctl)
    requires c.Valid() && c.queue != [] && NonCyclic(c)
    ensures var d := Pop(c, Completed); d.Valid() && NonCyclic(d) && Nums(d) == Nums(c)[1..]
  {
    var d := Pop(c, Completed);
    forall i | 0 <= i < |d.queue|
      ensures d.queue[i] in d.xfers && d.queue[i] == c.queue[i + 1] && d.xfers[d.queue[i]] == c.xfers[c.queue[i + 1]]
    {
    }
  }

  /** The count covers the last transfer it reaches, and no error bit takes that transfer away. */
  function LastOk(nums: seq<nat>, count: nat, error: bool): bool {
    count > Sum(nums, |nums|) || (count >= Sum(nums, Reach(nums, count)) && !error)
  }

  lemma {:induction false} LastOkCons(nums: seq<nat>, count: nat, error: bool)
    requires nums != []
    ensures count <= nums[0] ==> LastOk(nums, count, error) == (count == nums[0] && !error)
    ensures count > nums[0] ==> if |nums| == 1 then LastOk(nums, count, error)
      else LastOk(nums, count, error) == LastOk(nums[1..], count - nums[0], error)
  {
    assert Sum(nums[1..], 0) == 0;
  }

  /** Giving up on the transfer at position k of the queue: it is marked ABORTED if it was SUBMITTED, but it leaves the queue
      only from the head; all others stay, in order and as they were. */
  lemma {:induction false} AbortedLeavesFromHead(c: Ctl, k: nat)
    requires c.Valid() && k < |c.queue|
    ensures var id := c.queue[k]; var d := TimedOut(c, id);
      && (id in d.queue <==> k > 0) && d.queue == c.queue[if k == 0 then 1 else 0..] && !d.regs.run && d.running == c.running
      && d.xfers.Keys == c.xfers.Keys && (forall j <- c.xfers :: j != id ==> d.xfers[j] == c.xfers[j])
      && d.xfers[id].state == if c.xfers[id].state == Submitted then Aborted else c.xfers[id].state
  {
    assert c.queue[k] in c.queue;
  }

  /** What CompletionAccounting says of one call. */
  ghost predicate CountAccounted(c: Ctl, count: nat, error: bool)
    requires c.Valid()
  {
    Accounted(c, Processed(c, count, error), Reach(Nums(c), count), LastOk(Nums(c), count, error))
  }

  /** Completion accounting: exactly the shortest prefix whose descriptors the count reaches leaves the queue,
      the earlier ones COMPLETED, the last one COMPLETED if and only if the count covers it (and no error bit is set). */
  lemma {:induction false} CompletionAccounting(c: Ctl, count: nat, error: bool)
    requires c.Valid() && c.queue != [] && NonCyclic(c)
    ensures CountAccounted(c, count, error)
    decreases |c.queue|
  {
    if count <= Nums(c)[0] {
      HeadReached(c, count, error);
    } else {
      PopNonCyclic(c);
      if |c.queue| == 1 {
        HeadPassed(c, count, error);
      } else {
        CompletionAccounting(Pop(c, Completed), count - Nums(c)[0], error);
        CountAccountedCons(c, count, error);
      }
    }
  }

  lemma {:induction false} HeadReached(c: Ctl, count: nat, error: bool)
    requires c.Valid() && c.queue != [] && count <= Nums(c)[0]
    ensures CountAccounted(c, count, error)
  {
    LastOkCons(Nums(c), count, error);
    assert AllButLast(c, count) == (c, count);
    HeadAccounted(c, if error || count < Nums(c)[0] then Failed else Completed);
  }

  lemma {:induction false} HeadPassed(c: Ctl, count: nat, error: bool)
    requires c.Valid() && |c.queue| == 1 && count > Nums(c)[0] && NonCyclic(c)
    ensures CountAccounted(c, count, error)
  {
    var nums, d := Nums(c), Pop(c, Completed);
    assert d.queue == [] && nums[1..] == [];
    assert AllButLast(c, count) == AllButLast(d, count - nums[0]) == (d, count - nums[0]);
    LastOkCons(nums, count, error);
    HeadAccounted(c, Completed);
  }

  lemma {:induction false} CountAccountedCons(c: Ctl, count: nat, error: bool)
    requires c.Valid() && |c.queue| > 1 && count > Nums(c)[0] && NonCyclic(c)
    requires var d := Pop(c, Completed); d.Valid() && Nums(d) == Nums(c)[1..] && CountAccounted(d, count - Nums(c)[0], error)
    ensures CountAccounted(c, count, error)
  {
    var nums, d := Nums(c), Pop(c, Completed);
    LastOkCons(nums, count, error);
    assert Processed(c, count, error) == Processed(d, count - nums[0], error);
    AccountedCons(c, d, Processed(c, count, error), Reach(nums[1..], count - nums[0]), LastOk(nums, count, error));
  }

  lemma {:induction false} HeadAccounted(c: Ctl, state: State)
    requires c.Valid() && c.queue != [] && state in {Failed, Completed}
    ensures Sum(Nums(c), 1) == Nums(c)[0]
    ensures Accounted(c, Pop(c, state), 1, state == Completed)
    ensures forall regs :: Accounted(c, Pop(c.(regs := regs), state), 1, state == Completed)
  {
    var nums := Nums(c);
    assert Sum(nums[1..], 0) == 0;
    assert c.queue[..1] == [c.queue[0]];
  }

  lemma {:induction false} TakenCons(q: seq<Id>, k: nat)
    requires 1 <= k < |q| && forall i, j :: 0 <= i < j < |q| ==> q[i] != q[j]
    ensures q[k] == q[1..][k - 1] && q[k] in q[1..][..k] && q[0] !in q[1..][..k] && q[1..][k..] == q[k + 1..]
    ensures forall id :: id in q[..k + 1] <==> id == q[0] || id in q[1..][..k]
  {
    assert q[..k + 1] == [q[0]] + q[1..][..k];
    assert q[1..][..k][k - 1] == q[k];
  }

  lemma {:induction false} AccountedCons(c: Ctl, d: Ctl, e: Ctl, k: nat, lastOk: bool)
    requires c.Valid() && c.queue != [] && d == Pop(c, Completed) && d.Valid() && Nums(d) == Nums(c)[1..]
    requires 1 <= k <= |d.queue| && Accounted(d, e, k, lastOk)
    ensures Accounted(c, e, k + 1, lastOk)
  {
    TakenCons(c.queue, k);
    assert Sum(Nums(c), k + 1) == Nums(c)[0] + Sum(Nums(d), k);
  }

  lemma {:induction false} ServicedParts(c: Ctl, wb: u32, hw: Hw, stale: Hw, count: nat)
    requires c.Valid() && c.running && count == Wrap32(CountRead(wb, hw) - c.descDequeued)
    ensures var e := Processed(if ShutsDown(wb, hw, stale) then Shutdown(c) else c, count, StatusRead(wb, hw, stale).error);
      e.Valid() && Serviced(c, wb, hw, stale) == Resumed(e)
  {
  }

  lemma {:induction false} AccountedCarries(c: Ctl, shut: Ctl, count: nat, error: bool, d: Ctl)
    requires c.Valid() && c.queue != [] && NonCyclic(c) && shut == c.(running := shut.running, regs := shut.regs)
    requires var e := Processed(shut, count, error); d.queue == e.queue && d.xfers == e.xfers
    ensures var k := Reach(Nums(c), count);
      Accounted(c, d.(descDequeued := c.descDequeued + Sum(Nums(c), k)), k, LastOk(Nums(c), count, error))
  {
    assert Nums(shut) == Nums(c);
    CompletionAccounting(shut, count, error);
  }

  /** The same for the whole of engine_service, as the interrupt calls it or with a write-back word: the count is the
      32-bit difference of what it reads and what was dequeued before in this run. */
  lemma {:induction false} ServiceAccounts(c: Ctl, wb: u32, hw: Hw, stale: Hw, count: nat)
    requires c.Valid() && c.running && c.queue != [] && NonCyclic(c) && count == Wrap32(CountRead(wb, hw) - c.descDequeued)
    ensures var d, k := Serviced(c, wb, hw, stale), Reach(Nums(c), count);
      Accounted(c, d.(descDequeued := c.descDequeued + Sum(Nums(c), k)), k,
        LastOk(Nums(c), count, StatusRead(wb, hw, stale).error))
  {
    ServicedParts(c, wb, hw, stale, count);
    AccountedCarries(c, if ShutsDown(wb, hw, stale) then Shutdown(c) else c, count, StatusRead(wb, hw, stale).error,
      Serviced(c, wb, hw, stale));
  }

  /** First in, first out: a transfer just queued behind others stays queued, as SUBMITTED, for as long as the count does not
      go beyond those before it. */
  lemma {:induction false} QueuedLeavesLast(c: Ctl, id: Id, count: nat, error: bool)
    requires c.Valid() && c.running && !c.request && c.queue != [] && NonCyclic(c) && count <= Sum(Nums(c), |c.queue|)
    requires id in c.xfers && id !in c.queue && c.xfers[id].descNum > 0 && !c.xfers[id].cyclic
    ensures var d := Queued(c, id);
      && d.Valid() && var e := Processed(d, count, error);
        e.queue != [] && e.queue[|e.queue| - 1] == id && id in e.xfers && e.xfers[id].state == Submitted
  {
    var d := Queued(c, id);
    QueuedBehind(c, id);
    SumOfPrefix(Nums(c), Nums(d), |c.queue|);
    CompletionAccounting(d, count, error);
    ReachIsShortest(Nums(d), count);
    LastStays(d, Processed(d, count, error), Reach(Nums(d), count), LastOk(Nums(d), count, error));
  }

  lemma {:induction false} QueuedBehind(c: Ctl, id: Id)
    requires c.Valid() && c.running && !c.request && NonCyclic(c)
    requires id in c.xfers && id !in c.queue && c.xfers[id].descNum > 0 && !c.xfers[id].cyclic
    ensures var d := Queued(c, id);
      && d.Valid() && NonCyclic(d) && Nums(d) == Nums(c) + [c.xfers[id].descNum]
      && |d.queue| == |c.queue| + 1 && d.queue[|c.queue|] == id && d.xfers[id].state == Submitted
  {
  }

  lemma {:induction false} LastStays(d: Ctl, e: Ctl, k: nat, lastOk: bool)
    requires d.Valid() && 1 <= k < |d.queue| && Accounted(d, e, k, lastOk)
    ensures var id := d.queue[|d.queue| - 1];
      e.queue != [] && e.queue[|e.queue| - 1] == id && id in e.xfers && e.xfers[id] == d.xfers[id]
  {
    var id := d.queue[|d.queue| - 1];
    assert id !in d.queue[..k];
  }

  lemma {:induction false} SumOfPrefix(a: seq<nat>, b: seq<nat>, k: nat)
    requires k <= |a| && a <= b
    ensures Sum(a, k) == Sum(b, k)
  {
    if k > 0 {
      SumOfPrefix(a[1..], b[1..], k - 1);
    }
  }

  /** How much of the queue the count reaches, for the transfer that an error bit hits. */
  lemma {:induction false} LeftForError(c: Ctl, count: nat)
    requires c.Valid() && NonCyclic(c)
    ensures AllButLast(c, count).0.queue != [] <==> c.queue != [] && count <= Sum(Nums(c), |c.queue|)
    decreases |c.queue|
  {
    if c.queue != [] {
      var nums := Nums(c);
      assert Sum(nums, |nums|) == nums[0] + Sum(nums[1..], |nums| - 1);
      if count > nums[0] {
        PopNonCyclic(c);
        LeftForError(Pop(c, Completed), count - nums[0]);
      }
    }
  }

  /** What a service leaves in the engine's registers. Having shut the engine down, RUN is set if and only if the engine
      is marked running again; otherwise RUN is cleared exactly by an error bit that hits a queued transfer. */
  lemma {:induction false} ServiceRegisters(c: Ctl, wb: u32, hw: Hw, stale: Hw, count: nat)
    requires c.Valid() && c.running && NonCyclic(c) && count == Wrap32(CountRead(wb, hw) - c.descDequeued)
    ensures var d := Serviced(c, wb, hw, stale); var hit := c.queue != [] && count <= Sum(Nums(c), |c.queue|);
      if ShutsDown(wb, hw, stale) then
        && (d.running <==> d.regs.run)
        && (d.running ==> StartsHead(d))
        && (!d.running ==> d.regs == c.regs.(run := false))
      else d.running && d.regs == if StatusRead(wb, hw, stale).error && hit then c.regs.(run := false) else c.regs
  {
    var shut := if ShutsDown(wb, hw, stale) then Shutdown(c) else c;
    ServicedParts(c, wb, hw, stale, count);
    assert NonCyclic(shut) && Nums(shut) == Nums(c);
    LeftForError(shut, count);
  }

  lemma {:induction false} StartedStartsHead(c: Ctl)
    requires c.Valid() && !c.running && c.queue != []
    ensures StartsHead(Started(c)) && Started(c).running && Started(c).descDequeued == 0
  {
    assert c.xfers[c.queue[0]].descNum > 0;
  }

  /** No stranded work: a service that shuts the engine down leaves it idle with an empty queue, or restarted
      on the new head with nothing accounted for yet. */
  lemma {:induction false} NothingStranded(c: Ctl, wb: u32, hw: Hw, stale: Hw)
    requires c.Valid() && c.running && (wb % WB_COUNT != 0 || !hw.busy)
    ensures var d := Serviced(c, wb, hw, stale);
      && (d.running <==> d.queue != [])
      && (d.running ==> d.descDequeued == 0 && StartsHead(d))
      && (!d.running ==> !d.regs.run)
      && (if d.running then !d.request && !d.idle else d.request == c.request && (d.idle <==> c.idle || c.request))
  {
  }

  /** Whatever the status, a service keeps "not running implies empty queue". */
  lemma {:induction false} ServiceKeepsIdleEmpty(c: Ctl, wb: u32, hw: Hw, stale: Hw)
    requires c.Valid() && (!c.running ==> c.queue == [])
    ensures var d := Serviced(c, wb, hw, stale); !d.running ==> d.queue == []
  {
  }

  /** The service of a running engine with at most one transfer queued (no write-back word). */
  lemma {:induction false} ServicedOne(c: Ctl, hw: Hw, stale: Hw)
    requires c.Valid() && c.running && |c.queue| <= 1 && NonCyclic(c)
    ensures var d := Serviced(c, 0, hw, stale); var count := Wrap32(hw.count - c.descDequeued);
      && d.queue == [] && d.running == hw.busy && d.request == c.request
      && (hw.busy && c.queue != [] ==> d.descDequeued == c.descDequeued + c.xfers[c.queue[0]].descNum)
      && (c.queue == [] ==> d.xfers == c.xfers && d.descDequeued == c.descDequeued)
      && (c.queue != [] ==>
          var head := c.queue[0]; var n := c.xfers[head].descNum;
          d.xfers == Mark(c.xfers, head,
            if count > n || (count == n && !hw.error) then Completed else Failed))
  {
    var d := if !hw.busy then Shutdown(c) else c;
    var count := Wrap32(hw.count - c.descDequeued);
    ProcessedOne(d, count, hw.error);
  }

  lemma {:induction false} ProcessedOne(c: Ctl, count: nat, error: bool)
    requires c.Valid() && |c.queue| <= 1 && NonCyclic(c)
    ensures var d := Processed(c, count, error);
      && d.queue == [] && d.running == c.running && d.request == c.request
      && (c.queue != [] ==> d.descDequeued == c.descDequeued + c.xfers[c.queue[0]].descNum)
      && (c.queue == [] ==> d == c)
      && (c.queue != [] ==>
          var head := c.queue[0]; var n := c.xfers[head].descNum;
          d.xfers == Mark(c.xfers, head, if count > n || (count == n && !error) then Completed else Failed))
  {
    if c.queue != [] && count > c.xfers[c.queue[0]].descNum {
      var d := Pop(c, Completed);
      assert AllButLast(c, count) == AllButLast(d, count - c.xfers[c.queue[0]].descNum);
    }
  }

  lemma {:induction false} SumGrows(nums: seq<nat>, k: nat)
    requires k < |nums| && forall i :: 0 <= i < |nums| ==> nums[i] > 0
    ensures Sum(nums, k) < Sum(nums, |nums|)
  {
    if k > 0 {
      SumGrows(nums[1..], k - 1);
    } else {
      assert Sum(nums, |nums|) == nums[0] + Sum(nums[1..], |nums| - 1);
    }
  }

  ghost predicate AllIn(c: Ctl, d: Ctl, state: State) {
    forall i :: 0 <= i < |c.queue| ==> c.queue[i] in d.xfers && d.xfers[c.queue[i]].state == state
  }

  lemma {:induction false} AccountedAll(c: Ctl, d: Ctl, k: nat, lastOk: bool)
    requires c.Valid() && 1 <= k <= |c.queue| && AllIn(c, c, Submitted) && Accounted(c, d, k, lastOk)
    ensures AllIn(c, d, Completed) <==> k == |c.queue| && lastOk
  {
    forall i | 0 <= i < |c.queue|
      ensures c.queue[i] in d.xfers && c.queue[i] in c.xfers
      ensures d.xfers[c.queue[i]].state == if i >= k then Submitted else if i == k - 1 && !lastOk then Failed else Completed
    {
      if i < k {
        assert c.queue[..k][i] == c.queue[i];
      }
    }
    if k < |c.queue| {
      assert c.queue[k] in d.xfers && d.xfers[c.queue[k]].state == Submitted;
    } else {
      assert c.queue[k - 1] in d.xfers && d.xfers[c.queue[k - 1]].state == if lastOk then Completed else Failed;
    }
  }

  lemma {:induction false} CountedAll(c: Ctl, d: Ctl, count: nat, error: bool)
    requires c.Valid() && c.queue != [] && AllIn(c, c, Submitted)
    requires Accounted(c, d, Reach(Nums(c), count), LastOk(Nums(c), count, error))
    ensures var all := Sum(Nums(c), |c.queue|); AllIn(c, d, Completed) <==> count > all || (count == all && !error)
  {
    var nums := Nums(c);
    var k := Reach(nums, count);
    AccountedAll(c, d, k, LastOk(nums, count, error));
    ReachIsShortest(nums, count);
    if k < |nums| {
      SumGrows(nums, k);
    }
  }

  /** A service completes everything queued exactly when the outstanding count covers the descriptors of all of it. */
  lemma {:induction false} AllCompletedIff(c: Ctl, hw: Hw, stale: Hw, count: nat)
    requires c.Valid() && c.running && c.queue != [] && NonCyclic(c) && AllIn(c, c, Submitted)
    requires count == Wrap32(hw.count - c.descDequeued)
    ensures var all := Sum(Nums(c), |c.queue|);
      AllIn(c, Serviced(c, 0, hw, stale), Completed) <==> count > all || (count == all && !hw.error)
  {
    ServiceAccounts(c, 0, hw, stale, count);
    var k := Reach(Nums(c), count);
    CountedAll(c, Serviced(c, 0, hw, stale).(descDequeued := c.descDequeued + Sum(Nums(c), k)), count, hw.error);
  }

  /** Serviced with a count that is `gap` behind what was already dequeued, the 32-bit difference wraps: everything queued
      is marked COMPLETED, though the hardware has not reached it, exactly when gap and queue together fit 32 bits. */
  lemma {:induction false} WrappedCountCompletesAll(c: Ctl, hw: Hw, stale: Hw, gap: nat)
    requires c.Valid() && c.running && c.queue != [] && NonCyclic(c) && AllIn(c, c, Submitted)
    requires hw.count + gap == c.descDequeued && 1 <= gap <= U32
    ensures var all := gap + Sum(Nums(c), |c.queue|);
      AllIn(c, Serviced(c, 0, hw, stale), Completed) <==> all < U32 || (all == U32 && !hw.error)
  {
    WrapsBy(hw.count, c.descDequeued, gap);
    AllCompletedIff(c, hw, stale, U32 - gap);
  }

  lemma {:induction false} WrapsBy(count: nat, dequeued: nat, gap: nat)
    requires count + gap == dequeued && 1 <= gap <= U32
    ensures Wrap32(count - dequeued) == U32 - gap
  {
  }
}
