/** Machine words as subset types of int, and the arithmetic on them that the driver relies on. */
module Words {

  datatype Option<+T> = None | Some(value: T) {
    function GetOr(default: T): T {
      if Some? then value else default
    }
  }

  const TWO_8 := 0x100
  const TWO_16 := 0x1_0000
  const TWO_31 := 0x8000_0000
  const TWO_32 := 0x1_0000_0000
  const TWO_63 := 0x8000_0000_0000_0000
  const TWO_64 := 0x1_0000_0000_0000_0000

  type Byte = x: int | 0 <= x < TWO_8
  type Word16 = x: int | 0 <= x < TWO_16
  type Word32 = x: int | 0 <= x < TWO_32
  type Word64 = x: int | 0 <= x < TWO_64

  /** The 16-bit representation of an unbounded sequence number. */
  function Wrap16(s: int): (w: Word16)
  {
    s % TWO_16
  }

  /** `(uint16_t)(a - b)`. */
  function Sub16(a: Word16, b: Word16): (w: Word16)
  {
    (a - b) % TWO_16
  }

  /** Wrapped subtraction recovers the distance of two sequence numbers less than 65536 apart. */
  lemma Distance16(a: int, b: int)
    requires 0 <= a - b < TWO_16
    ensures Sub16(Wrap16(a), Wrap16(b)) == a - b
  {
    var d := a / TWO_16 - b / TWO_16;
    assert Wrap16(a) - Wrap16(b) == a - b - d * TWO_16;
    if Wrap16(a) >= Wrap16(b) {
      assert d == 0;
    } else {
      assert d == 1;
    }
  }

  /** A low byte first encoding of a 16-bit field. */
  function Bytes16(w: Word16): (b: seq<Byte>)
    ensures |b| == 2 && b[0] + TWO_8 * b[1] == w
  {
    [w % TWO_8, w / TWO_8]
  }

  ghost function Pow2(k: nat): (p: nat)
    ensures p >= 1
  {
    if k == 0 then 1 else 2 * Pow2(k - 1)
  }

  ghost predicate IsPow2(n: nat) {
    exists k: nat :: n == Pow2(k)
  }

  lemma MulAssociates(a: int, b: int, c: int)
    ensures a * b * c == a * (b * c)
  {
  }

  lemma Pow2Sum(i: nat, j: nat)
    ensures Pow2(i + j) == Pow2(i) * Pow2(j)
  {
    if i != 0 {
      Pow2Sum(i - 1, j);
      MulAssociates(2, Pow2(i - 1), Pow2(j));
      assert Pow2(i + j) == 2 * Pow2(i - 1 + j);
    }
  }

  lemma Pow2Mono(i: nat, j: nat)
    requires i <= j
    ensures Pow2(i) <= Pow2(j)
  {
    Pow2Sum(i, j - i);
    assert Pow2(i) * Pow2(j - i) >= Pow2(i) * 1;
  }

  lemma Pow2Bound(k: nat, n: nat)
    requires Pow2(k) <= Pow2(n)
    ensures k <= n
  {
    if k > n {
      Pow2Mono(n + 1, k);
    }
  }

  /** Reducing a 16-bit sequence number modulo a power of two agrees with reducing the unbounded one. */
  lemma Wrap16ModPow2(s: int, q: nat)
    requires IsPow2(q) && q <= TWO_16
    ensures Wrap16(s) % q == s % q
  {
    Pow2Values();
    var k: nat :| q == Pow2(k);
    Pow2Bound(k, 16);
    Pow2Sum(k, 16 - k);
    var m, d := Pow2(16 - k), s / TWO_16;
    hide Pow2;
    assert s == Wrap16(s) + TWO_16 * d;
    MulAssociates(q, m, d);
    ModShift(Wrap16(s), q, m * d);
  }

  lemma Pow2Values()
    ensures Pow2(4) == 16 && Pow2(8) == TWO_8 && Pow2(16) == TWO_16
  {
    assert Pow2(4) == 16;
    Pow2Sum(4, 4);
    Pow2Sum(8, 8);
  }

  lemma ModShift(x: int, q: int, n: int)
    requires q > 0
    ensures (x + q * n) % q == x % q
  {
    var r := x % q;
    assert x + q * n == q * (x / q + n) + r by {
      assert q * (x / q + n) == q * (x / q) + q * n;
    }
    DivModUnique(x + q * n, q, x / q + n, r);
  }

  /** A multiple of `q` strictly between `-q` and `q` is zero. */
  lemma SmallMultiple(q: int, d: int)
    requires q > 0 && -q < q * d < q
    ensures d == 0
  {
  }

  lemma DivModUnique(x: int, q: int, d: int, r: int)
    requires q > 0 && 0 <= r < q && x == q * d + r
    ensures x / q == d && x % q == r
  {
    var e := x / q - d;
    assert q * e == q * (x / q) - q * d;
    SmallMultiple(q, e);
  }

  /** Two different numbers less than `q` apart have different remainders. */
  lemma ModDistinct(a: int, b: int, q: int)
    requires q > 0 && -q < a - b < q && a % q == b % q
    ensures a == b
  {
    var d := b / q - a / q;
    assert b - a == q * d by {
      assert q * d == q * (b / q) - q * (a / q);
    }
    SmallMultiple(q, d);
  }
}
