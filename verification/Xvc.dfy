/** The JTAG bridge: xvc_shift_bits and the chunk loop of xvc_ioctl. Bytes and 32-bit words are their bits,
    least significant first, so a little-endian memcpy into a word lays the bytes end to end. */
module Xvc {
  import opened Words
  import opened Hardware

  const COMPLETION_LOOP_MAX: nat := 100
  const EFAULT: int := 14
  const ENOMEM: int := 12
  const EINVAL: int := 22
  const ETIMEDOUT: int := 110

  type Byte = b: seq<bool> | |b| == 8 witness seq(8, _ => false)
  type Word = w: seq<bool> | |w| == 32 witness seq(32, _ => false)

  const ZERO: Word := seq(32, _ => false)

  type Tap<!S> = (S, bool, bool) -> (S, bool)

  // ---- Bit-serial JTAG ----

  /** The TAP after n steps, one per (TMS, TDI) pair of bits. */
  function TapAt<S>(step: Tap<S>, tap: S, tms: seq<bool>, tdi: seq<bool>, n: nat): S
    requires n <= |tms| && n <= |tdi|
  {
    if n == 0 then tap else step(TapAt(step, tap, tms, tdi, n - 1), tms[n - 1], tdi[n - 1]).0
  }

  /** The bit that step i puts on TDO. */
  function TdoAt<S>(step: Tap<S>, tap: S, tms: seq<bool>, tdi: seq<bool>, i: nat): bool
    requires i < |tms| && i < |tdi|
  {
    step(TapAt(step, tap, tms, tdi, i), tms[i], tdi[i]).1
  }

  // ---- The bridge ----

  class Bridge<S> {
    const step: Tap<S>
    var tap: S
    var length: nat
    var tms: Word
    var tdi: Word
    var tdo: Word
    var busy: nat
    ghost var lengths: seq<nat>

    constructor (step: Tap<S>, tap: S)
      ensures this.step == step && this.tap == tap && lengths == []
    {
      this.step, this.tap := step, tap;
      length, tms, tdi, tdo, busy, lengths := 0, ZERO, ZERO, ZERO, 0, [];
    }

    /** Writing 1 to CTRL shifts `length` bits through the TAP. CTRL reads busy for the next `polls` reads; the TDO
        bits past `length` are whatever the hardware leaves there. */
    method WriteCtrl(polls: nat, rest: Word)
      requires length <= 32
      modifies this
      ensures length == old(length) && tms == old(tms) && tdi == old(tdi) && busy == polls
      ensures tap == TapAt(step, old(tap), old(tms), old(tdi), length)
      ensures forall i :: 0 <= i < length ==> tdo[i] == TdoAt(step, old(tap), old(tms), old(tdi), i)
      ensures lengths == old(lengths) + [length]
    {
      var from, n, t, d := tap, length, tms, tdi;
      tdo := seq(32, i requires 0 <= i < 32 => if i < n then TdoAt(step, from, t, d, i) else rest[i]);
      tap := TapAt(step, from, t, d, n);
      busy := polls;
      lengths := lengths + [length];
    }

    method ReadCtrl() returns (shifting: bool)
      modifies this`busy
      ensures shifting == (old(busy) > 0) && busy == if shifting then old(busy) - 1 else 0
    {
      shifting := busy > 0;
      if shifting {
        busy := busy - 1;
      }
    }

    /** xvc_shift_bits. */
    method ShiftBits(tmsBits: Word, tdiBits: Word, polls: nat, rest: Word) returns (rv: int, tdoBits: Word)
      requires length <= 32
      modifies this
      ensures rv == if polls < 100 then 0 else -110
      ensures length == old(length) && lengths == old(lengths) + [length]
      ensures tap == TapAt(step, old(tap), tmsBits, tdiBits, length)
      ensures rv == 0 ==> forall i :: 0 <= i < length ==> tdoBits[i] == TdoAt(step, old(tap), tmsBits, tdiBits, i)
    {
      tms := tmsBits;
      tdi := tdiBits;
      WriteCtrl(polls, rest);
      var count: nat := COMPLETION_LOOP_MAX;
      while count > 0
        modifies this`busy
        invariant count <= COMPLETION_LOOP_MAX && busy + COMPLETION_LOOP_MAX == polls + count
      {
        var shifting := ReadCtrl();
        if !shifting {
          break;
        }
        count := count - 1;
      }
      if count == 0 {
        return -ETIMEDOUT, ZERO;
      }
      return 0, tdo;
    }
  }

  // ---- The chunks ----

  function BitAt(buf: seq<Byte>, i: nat): bool
    requires i < 8 * |buf|
  {
    buf[i / 8][i % 8]
  }

  /** The bits of a buffer, byte after byte. */
  function Bits(buf: seq<Byte>): (bits: seq<bool>)
    ensures |bits| == 8 * |buf|
  {
    seq(8 * |buf|, i requires 0 <= i < 8 * |buf| => BitAt(buf, i))
  }

  /** memcpy of n bytes into a zeroed word. */
  function Load(buf: seq<Byte>, at: nat, n: nat): Word
    requires n <= 4 && at + n <= |buf|
  {
    seq(32, i requires 0 <= i < 32 => i / 8 < n && buf[at + i / 8][i % 8])
  }

  function ByteOf(w: Word, k: nat): Byte
    requires k < 4
  {
    w[8 * k..8 * k + 8]
  }

  /** total_bytes, in 32-bit arithmetic. */
  function TotalBytes(totalBits: u32): u32 {
    Wrap32(totalBits + 7) / 8
  }

  /** Bytes the chunk that starts at `bits` copies in and out. */
  function ShiftBytes(totalBits: u32, bits: nat): nat
    requires bits < totalBits
  {
    if totalBits - bits < 32 then (totalBits - bits + 7) / 8 else 4
  }

  /** A step of the TAP in a chunk is the same step of the whole shift. */
  lemma {:induction false} ChunkIsSerial<S>(step: Tap<S>, tap: S, tms: seq<bool>, tdi: seq<bool>, base: nat,
                                            w: seq<bool>, v: seq<bool>, n: nat)
    requires n <= |w| && n <= |v| && base + n <= |tms| && base + n <= |tdi|
    requires forall j :: 0 <= j < n ==> w[j] == tms[base + j] && v[j] == tdi[base + j]
    ensures TapAt(step, TapAt(step, tap, tms, tdi, base), w, v, n) == TapAt(step, tap, tms, tdi, base + n)
  {
    if n > 0 {
      ChunkIsSerial(step, tap, tms, tdi, base, w, v, n - 1);
    }
  }

  /** Every copy stays inside the buffers exactly when rounding the bit count up to bytes does not wrap. */
  lemma {:induction false} CopiesFitIff(totalBits: u32)
    ensures (forall k: nat :: 32 * k < totalBits ==> 4 * k + ShiftBytes(totalBits, 32 * k) <= TotalBytes(totalBits))
      <==> totalBits + 7 < 0x1_0000_0000
  {
    if totalBits + 7 >= 0x1_0000_0000 {
      assert 32 * 0 < totalBits && ShiftBytes(totalBits, 32 * 0) == 4;
    }
  }

  /** The 32-bit loop counter, going up in steps of 32, reaches the bit count before it wraps exactly when the
      bit count is at most 2^32 - 32. */
  lemma {:induction false} CounterReachesIff(totalBits: u32)
    ensures (exists k: nat :: totalBits <= 32 * k < 0x1_0000_0000) <==> totalBits + 32 <= 0x1_0000_0000
  {
    if totalBits + 32 <= 0x1_0000_0000 {
      var k := (totalBits + 31) / 32;
      assert totalBits <= 32 * k < 0x1_0000_0000;
    }
  }

  lemma {:induction false} LoadBits(buf: seq<Byte>, at: nat, n: nat)
    requires n <= 4 && at + n <= |buf|
    ensures forall j :: 0 <= j < 8 * n ==> Load(buf, at, n)[j] == Bits(buf)[8 * at + j]
  {
    forall j | 0 <= j < 8 * n
      ensures Load(buf, at, n)[j] == Bits(buf)[8 * at + j]
    {
      assert (8 * at + j) / 8 == at + j / 8 && (8 * at + j) % 8 == j % 8;
    }
  }

  /** What the bridge shifts in and out for a chunk is that stretch of the whole shift. */
  lemma {:induction false} ChunkShift<S>(step: Tap<S>, tap: S, tms: seq<bool>, tdi: seq<bool>, base: nat,
                                         w: seq<bool>, v: seq<bool>, n: nat)
    requires n <= |w| && n <= |v| && base + n <= |tms| && base + n <= |tdi|
    requires forall j :: 0 <= j < n ==> w[j] == tms[base + j] && v[j] == tdi[base + j]
    ensures var from := TapAt(step, tap, tms, tdi, base);
      && TapAt(step, from, w, v, n) == TapAt(step, tap, tms, tdi, base + n)
      && forall j :: 0 <= j < n ==> TdoAt(step, from, w, v, j) == TdoAt(step, tap, tms, tdi, base + j)
  {
    ChunkIsSerial(step, tap, tms, tdi, base, w, v, n);
    forall j | 0 <= j < n
      ensures TdoAt(step, TapAt(step, tap, tms, tdi, base), w, v, j) == TdoAt(step, tap, tms, tdi, base + j)
    {
      ChunkIsSerial(step, tap, tms, tdi, base, w, v, j);
    }
  }

  /** memcpy of the first n bytes of a word into the buffer. */
  method Store(buf: array<Byte>, at: nat, w: Word, n: nat)
    requires n <= 4 && at + n <= buf.Length
    modifies buf
    ensures forall i :: 0 <= i < 8 * n ==> buf[at + i / 8][i % 8] == w[i]
    ensures forall k :: 0 <= k < buf.Length && !(at <= k < at + n) ==> buf[k] == old(buf[k])
  {
    forall k | 0 <= k < n {
      buf[at + k] := ByteOf(w, k);
    }
  }

  /** The first `done` bits of the buffer are what bit-serial shifting puts on TDO. */
  predicate Shifted<S>(step: Tap<S>, tap: S, tms: seq<bool>, tdi: seq<bool>, tdo: seq<Byte>, done: nat)
    requires done <= |tms| == |tdi| == 8 * |tdo|
  {
    done == 0 || (BitAt(tdo, done - 1) == TdoAt(step, tap, tms, tdi, done - 1) && Shifted(step, tap, tms, tdi, tdo, done - 1))
  }

  lemma {:induction false} ShiftedIff<S>(step: Tap<S>, tap: S, tms: seq<bool>, tdi: seq<bool>, tdo: seq<Byte>, done: nat)
    requires done <= |tms| == |tdi| == 8 * |tdo|
    ensures Shifted(step, tap, tms, tdi, tdo, done) <==>
      forall i :: 0 <= i < done ==> BitAt(tdo, i) == TdoAt(step, tap, tms, tdi, i)
  {
    if done > 0 {
      ShiftedIff(step, tap, tms, tdi, tdo, done - 1);
    }
  }

  lemma {:induction false} ShiftedOn<S>(step: Tap<S>, tap: S, tms: seq<bool>, tdi: seq<bool>, was: seq<Byte>, tdo: seq<Byte>,
                                        at: nat, n: nat, w: Word, bits: nat)
    requires |tms| == |tdi| == 8 * |tdo| && |tdo| == |was| && n <= 4 && at + n <= |tdo| && bits <= 8 * n
    requires Shifted(step, tap, tms, tdi, was, 8 * at)
    requires forall k :: 0 <= k < at ==> tdo[k] == was[k]
    requires forall i :: 0 <= i < 8 * n ==> tdo[at + i / 8][i % 8] == w[i]
    requires forall j :: 0 <= j < bits ==> w[j] == TdoAt(step, tap, tms, tdi, 8 * at + j)
    ensures Shifted(step, tap, tms, tdi, tdo, 8 * at + bits)
  {
    ShiftedIff(step, tap, tms, tdi, was, 8 * at);
    ShiftedIff(step, tap, tms, tdi, tdo, 8 * at + bits);
    forall i | 0 <= i < 8 * at + bits
      ensures BitAt(tdo, i) == TdoAt(step, tap, tms, tdi, i)
    {
      if i >= 8 * at {
        var j := i - 8 * at;
        assert w[j] == TdoAt(step, tap, tms, tdi, 8 * at + j) && tdo[at + j / 8][j % 8] == w[j];
      } else {
        assert BitAt(tdo, i) == BitAt(was, i);
      }
    }
  }

  /** The TAP and the buffer after the first `done` bits. */
  ghost predicate Serial<S>(step: Tap<S>, from: S, tms: seq<bool>, tdi: seq<bool>, tap: S, tdo: seq<Byte>, done: nat) {
    done <= |tms| == |tdi| == 8 * |tdo| && Shifted(step, from, tms, tdi, tdo, done) && tap == TapAt(step, from, tms, tdi, done)
  }

  lemma {:induction false} ChunkDone<S>(step: Tap<S>, from: S, tms: seq<bool>, tdi: seq<bool>, tap: S, was: seq<Byte>,
                                        t: Word, d: Word, tdo: seq<Byte>, at: nat, n: nat, w: Word, bits: nat)
    requires n <= 4 && at + n <= |tdo| == |was| && bits <= 8 * n
    requires Serial(step, from, tms, tdi, tap, was, 8 * at)
    requires forall j :: 0 <= j < bits ==> t[j] == tms[8 * at + j] && d[j] == tdi[8 * at + j]
    requires forall k :: 0 <= k < at ==> tdo[k] == was[k]
    requires forall i :: 0 <= i < 8 * n ==> tdo[at + i / 8][i % 8] == w[i]
    requires forall j :: 0 <= j < bits ==> w[j] == TdoAt(step, tap, t, d, j)
    ensures Serial(step, from, tms, tdi, TapAt(step, tap, t, d, bits), tdo, 8 * at + bits)
  {
    ChunkShift(step, from, tms, tdi, 8 * at, t, d, bits);
    ShiftedOn(step, from, tms, tdi, was, tdo, at, n, w, bits);
  }

  /** One pass of the loop: load, shift, store. */
  method ShiftChunk<S>(bridge: Bridge<S>, ghost from: S, tms: seq<Byte>, tdi: seq<Byte>, tdoBuf: array<Byte>,
                       bytes: nat, shiftBytes: nat, ghost next: nat, polls: nat, rest: Word) returns (rv: int)
    requires shiftBytes <= 4 && bytes + shiftBytes <= |tms| == |tdi| == tdoBuf.Length
    requires bridge.length <= 8 * shiftBytes && next == 8 * bytes + bridge.length
    requires Serial(bridge.step, from, Bits(tms), Bits(tdi), bridge.tap, tdoBuf[..], 8 * bytes)
    modifies bridge, tdoBuf
    ensures bridge.length == old(bridge.length) && bridge.lengths == old(bridge.lengths) + [bridge.length]
    ensures rv == if polls < 100 then 0 else -110
    ensures rv == 0 ==> Serial(bridge.step, from, Bits(tms), Bits(tdi), bridge.tap, tdoBuf[..], next)
  {
    var n, tmsStore, tdiStore := bridge.length, Load(tms, bytes, shiftBytes), Load(tdi, bytes, shiftBytes);
    ghost var tap, was := bridge.tap, tdoBuf[..];
    var tdoStore;
    rv, tdoStore := bridge.ShiftBits(tmsStore, tdiStore, polls, rest);
    if rv < 0 {
      return;
    }
    Store(tdoBuf, bytes, tdoStore, shiftBytes);
    LoadBits(tms, bytes, shiftBytes);
    LoadBits(tdi, bytes, shiftBytes);
    ChunkDone(bridge.step, from, Bits(tms), Bits(tdi), tap, was, tmsStore, tdiStore,
      tdoBuf[..], bytes, shiftBytes, tdoStore, n);
  }

  lemma {:induction false} ChunkFits(totalBits: u32, k: nat)
    requires totalBits + 7 < 0x1_0000_0000 && 32 * k < totalBits
    ensures 8 * (4 * k + ShiftBytes(totalBits, 32 * k)) < totalBits + 8
    ensures Min(32, totalBits - 32 * k) <= 8 * ShiftBytes(totalBits, 32 * k)
    ensures 32 * k / 8 == 4 * k && 32 * k / 32 == k
  {
  }

  function Sub32(a: u32, b: u32): u32 {
    if a >= b then a - b else a + 0x1_0000_0000 - b
  }

  /** After what was logged before, the k-th shift of a request finds the length register at min(32, bits left). */
  predicate BitsLeft(lengths: seq<nat>, before: seq<nat>, totalBits: nat) {
    && before <= lengths
    && forall k :: |before| <= k < |lengths| ==> lengths[k] == Min(32, totalBits - Min(32 * (k - |before|), totalBits))
  }

  /** None of the first n shifts keeps CTRL busy for all of its polls. */
  predicate InTime(polls: seq<nat>, n: nat)
    requires n <= |polls|
  {
    forall k :: 0 <= k < n ==> polls[k] < 100
  }

  lemma {:induction false} InTimeOn(polls: seq<nat>, k: nat)
    requires k < |polls| && InTime(polls, k)
    ensures InTime(polls, k + 1) <==> polls[k] < 100
    ensures InTime(polls, |polls|) ==> InTime(polls, k + 1)
  {
  }

  lemma {:induction false} BitsLeftOn(lengths: seq<nat>, before: seq<nat>, totalBits: nat)
    requires BitsLeft(lengths, before, totalBits) && 32 * (|lengths| - |before|) < totalBits
    ensures BitsLeft(lengths + [Min(32, totalBits - 32 * (|lengths| - |before|))], before, totalBits)
  {
  }

  /** The loop body of xvc_ioctl for the chunk at `bits`. */
  method ShiftOne<S>(bridge: Bridge<S>, ghost from: S, ghost log: seq<nat>, totalBits: u32,
                     tms: seq<Byte>, tdi: seq<Byte>, tdoBuf: array<Byte>,
                     bits: u32, bitsLeft: u32, polls: nat, rest: Word) returns (rv: int)
    requires totalBits + 7 < 0x1_0000_0000 && totalBits <= 8 * |tms| < totalBits + 8 && |tms| == |tdi| == tdoBuf.Length
    requires bits % 32 == 0 && bits < totalBits && bitsLeft == totalBits - bits && (totalBits >= 32 ==> bridge.length == 32)
    requires Serial(bridge.step, from, Bits(tms), Bits(tdi), bridge.tap, tdoBuf[..], bits)
    requires BitsLeft(bridge.lengths, log, totalBits) && 32 * (|bridge.lengths| - |log|) == bits
    modifies bridge, tdoBuf
    ensures BitsLeft(bridge.lengths, log, totalBits) && |bridge.lengths| == |old(bridge.lengths)| + 1
    ensures bits + 32 < totalBits ==> bridge.length == 32
    ensures rv == if polls < 100 then 0 else -110
    ensures rv == 0 ==> Serial(bridge.step, from, Bits(tms), Bits(tdi), bridge.tap, tdoBuf[..], Min(bits + 32, totalBits))
  {
    var bytes, shiftBytes := bits / 8, 4;
    if bitsLeft < 32 {
      bridge.length := bitsLeft;
      shiftBytes := (bitsLeft + 7) / 8;
    }
    ChunkFits(totalBits, bits / 32);
    BitsLeftOn(bridge.lengths, log, totalBits);
    assert 8 * bytes == bits && shiftBytes == ShiftBytes(totalBits, bits) && bridge.length == Min(32, totalBits - bits);
    rv := ShiftChunk(bridge, from, tms, tdi, tdoBuf, bytes, shiftBytes, Min(bits + 32, totalBits), polls, rest);
  }

  /** The loop of xvc_ioctl: k-th chunk, `polls[k]` reads of CTRL before it is done. */
  method ShiftAll<S>(bridge: Bridge<S>, totalBits: u32, tms: seq<Byte>, tdi: seq<Byte>, tdoBuf: array<Byte>,
                     polls: seq<nat>, rest: seq<Word>) returns (rv: int)
    requires totalBits + 32 <= 0x1_0000_0000 && totalBits <= 8 * |tms| < totalBits + 8 && |tms| == |tdi| == tdoBuf.Length
    requires totalBits <= 32 * |polls| < totalBits + 32 && |rest| == |polls|
    modifies bridge, tdoBuf
    ensures rv == if InTime(polls, |polls|) then 0 else -110
    ensures rv == 0 ==> Serial(bridge.step, old(bridge.tap), Bits(tms), Bits(tdi), bridge.tap, tdoBuf[..], totalBits)
    ensures BitsLeft(bridge.lengths, old(bridge.lengths), totalBits)
    ensures rv == 0 ==> |bridge.lengths| == |old(bridge.lengths)| + |polls|
  {
    if totalBits >= 32 {
      bridge.length := 32;
    }
    ghost var tap, log := bridge.tap, bridge.lengths;
    var k: nat, bits: u32, bitsLeft: u32 := 0, 0, totalBits;
    while bits < totalBits
      invariant k <= |polls| && InTime(polls, k)
      invariant bits == 32 * k && (bits >= totalBits ==> k == |polls|)
      invariant bits < totalBits ==> bitsLeft == totalBits - bits && (totalBits >= 32 ==> bridge.length == 32)
      invariant |bridge.lengths| == |log| + k && BitsLeft(bridge.lengths, log, totalBits)
      invariant Serial(bridge.step, tap, Bits(tms), Bits(tdi), bridge.tap, tdoBuf[..], Min(bits, totalBits))
      decreases |polls| - k
    {
      InTimeOn(polls, k);
      rv := ShiftOne(bridge, tap, log, totalBits, tms, tdi, tdoBuf, bits, bitsLeft, polls[k], rest[k]);
      if rv < 0 {
        return;
      }
      k, bits, bitsLeft := k + 1, bits + 32, Sub32(bitsLeft, 32);
    }
    rv := 0;
  }

  /** What copy_from_user and kmalloc do in one call: bytes not copied of the request, of tms and of tdi,
      whether memory was found, bytes of the answer not copied back. */
  datatype Env = Env(objMissing: nat, alloc: bool, tmsMissing: nat, tdiMissing: nat, outMissing: nat)

  /** xvc_ioctl, and what reaches the caller's tdo buffer. */
  method XvcIoctl<S>(bridge: Bridge<S>, env: Env, opcode: u32, totalBits: u32, tms: seq<Byte>, tdi: seq<Byte>,
                     polls: seq<nat>, rest: seq<Word>) returns (rv: int, out: Option<seq<Byte>>)
    requires totalBits + 32 <= 0x1_0000_0000 && |tms| == |tdi| == TotalBytes(totalBits)
    requires |polls| == |rest| == (totalBits + 31) / 32
    modifies bridge
    ensures env.objMissing > 0 ==> rv == env.objMissing
    ensures env.objMissing == 0 && opcode !in {1, 2} ==> rv == -22
    ensures env.objMissing == 0 && opcode in {1, 2} && !env.alloc ==> rv == -12
    ensures var ready := env.objMissing == 0 && opcode in {1, 2} && env.alloc && env.tmsMissing == env.tdiMissing == 0;
      && (ready ==> rv == if !InTime(polls, |polls|) then -110 else if env.outMissing > 0 then -14 else 0)
      && (!ready ==> rv != 0 && bridge.tap == old(bridge.tap) && bridge.lengths == old(bridge.lengths))
    ensures out.Some? <==> rv == 0
    ensures rv == 0 ==> |out.value| == TotalBytes(totalBits) && totalBits <= |Bits(tms)| == |Bits(tdi)| == 8 * |out.value|
    ensures rv == 0 && opcode == 1 ==> forall i :: 0 <= i < totalBits ==>
      BitAt(out.value, i) == TdoAt(bridge.step, old(bridge.tap), Bits(tms), Bits(tdi), i)
    ensures rv == 0 && opcode == 2 ==> out.value == tdi
    ensures rv == 0 ==> bridge.tap == TapAt(bridge.step, old(bridge.tap), Bits(tms), Bits(tdi), totalBits)
    ensures BitsLeft(bridge.lengths, old(bridge.lengths), totalBits)
    ensures rv == 0 ==> |bridge.lengths| == |old(bridge.lengths)| + (totalBits + 31) / 32
  {
    if env.objMissing > 0 {
      return env.objMissing, None;
    }
    if opcode != 1 && opcode != 2 {
      return -EINVAL, None;
    }
    if !env.alloc {
      return -ENOMEM, None;
    }
    if env.tmsMissing > 0 {
      return env.tmsMissing, None;
    }
    if env.tdiMissing > 0 {
      return env.tdiMissing, None;
    }
    var tdoBuf := new Byte[TotalBytes(totalBits)];
    rv := ShiftAll(bridge, totalBits, tms, tdi, tdoBuf, polls, rest);
    if rv < 0 {
      return rv, None;
    }
    ShiftedIff(bridge.step, old(bridge.tap), Bits(tms), Bits(tdi), tdoBuf[..], totalBits);
    if env.outMissing > 0 {
      return -EFAULT, None;
    }
    return 0, Some(if opcode == 2 then tdi else tdoBuf[..]);
  }
}
