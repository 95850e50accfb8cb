/** Machine words and addresses: 32- and 64-bit wrap-around, the driver's address
    split, and bitwise "and" on unsigned values. */
module Words {

  const U32: nat := 0x1_0000_0000
  const U64: nat := 0x1_0000_0000_0000_0000
  const PAGE_SIZE: nat := 4096

  type u32 = x: nat | x < 0x1_0000_0000
  type u64 = x: nat | x < 0x1_0000_0000_0000_0000

  function Min(a: nat, b: nat): nat {
    if a <= b then a else b
  }

  /** The value an unsigned 32-bit variable keeps. */
  function Wrap32(n: int): u32 {
    n % 0x1_0000_0000
  }

  /** 32- and 64-bit unsigned addition of a 32-bit length, which wraps at most once. */
  function Add32(a: u32, len: u32): u32 {
    if a + len < U32 then a + len else a + len - U32
  }

  function Add64(a: u64, len: u32): u64 {
    if a + len < U64 then a + len else a + len - U64
  }

  /** PCI_DMA_L: the low half of a bus address. */
  function Lo(a: u64): u32 {
    a % U32
  }

  /** PCI_DMA_H: the high half, taken as two 16-bit shifts. */
  function Hi(a: u64): u32 {
    a / 0x1_0000 / 0x1_0000
  }

  /** The address the hardware forms from the two halves. */
  function Join(lo: u32, hi: u32): u64 {
    hi * U32 + lo
  }

  lemma {:induction false} SplitJoin(a: u64)
    ensures Join(Lo(a), Hi(a)) == a
  {
    assert a / 0x1_0000 / 0x1_0000 == a / U32;
  }

  function Pow2(k: nat): (r: nat)
    ensures r >= 1
  {
    if k == 0 then 1 else 2 * Pow2(k - 1)
  }

  /** Bitwise and of two unsigned values. */
  function And(x: nat, y: nat): nat {
    if x == 0 || y == 0 then 0 else (x % 2) * (y % 2) + 2 * And(x / 2, y / 2)
  }

  /** Masking with 2^k - 1 is the remainder modulo 2^k. */
  lemma {:induction false} AndMask(x: nat, k: nat)
    ensures And(x, Pow2(k) - 1) == x % Pow2(k)
  {
    if k != 0 {
      AndMask(x / 2, k - 1);
      var p := Pow2(k - 1);
      assert (2 * p - 1) % 2 == 1 && (2 * p - 1) / 2 == p - 1;
      ModDouble(x, p);
    }
  }

  lemma {:induction false} ModDouble(x: nat, p: nat)
    requires p >= 1
    ensures x % (2 * p) == x % 2 + 2 * ((x / 2) % p)
  {
    var h := x / 2;
    var q := h / p;
    assert h == q * p + h % p;
    assert x == q * (2 * p) + (x % 2 + 2 * (h % p));
    DivModUnique(x, 2 * p, q, x % 2 + 2 * (h % p));
  }

  lemma {:induction false} DivModUnique(x: nat, m: nat, q: nat, r: nat)
    requires m > 0 && r < m && x == q * m + r
    ensures x / m == q && x % m == r
  {
    var d := x / m - q;
    assert d * m == r - x % m;
    assert d >= 1 ==> d * m >= m;
    assert d <= -1 ==> d * m + m <= 0;
  }

  lemma {:induction false} ModAdd(a: nat, b: nat, m: nat)
    requires m > 0
    ensures (a % m + b) % m == (a + b) % m
  {
    var r := a % m + b;
    assert a + b == (a / m + r / m) * m + r % m;
    DivModUnique(a + b, m, a / m + r / m, r % m);
  }
}
