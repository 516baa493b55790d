/** The Internet checksum: a portable loop over 16-bit words and the 64-bit fast path for amd64. */
module Checksum {
  import opened Words

  const ONES := 0xffff

  /**
    The largest checksummed object.  No object of an amd64 process is larger, and sums over objects up to
    this size stay far below 64 bits.
   */
  const MAX_OBJECT := 0x8000_0000_0000

  // ---------------------------------------------------------------------------------------------
  // One's complement equality
  // ---------------------------------------------------------------------------------------------

  /** The two sums stand for the same one's complement value: they are congruent modulo 65535, and only a
      sum of nothing but zeros is zero. */
  predicate Same(a: nat, b: nat) {
    a % ONES == b % ONES && (a == 0 <==> b == 0)
  }

  lemma SameAdd(a: nat, b: nat, c: nat, d: nat)
    requires Same(a, b) && Same(c, d)
    ensures Same(a + c, b + d)
  {
    ModShift(a % ONES + c % ONES, ONES, a / ONES + c / ONES);
    ModShift(b % ONES + d % ONES, ONES, b / ONES + d / ONES);
  }

  /** Multiplying by a power of 2^16 does not change the value. */
  lemma SameShift(a: nat)
    ensures Same(TWO_16 * a, a) && Same(TWO_32 * a, a) && Same(TWO_64 * a, a)
  {
    SameByMultiple(TWO_16 * a, a, a);
    SameByMultiple(TWO_32 * a, a, 0x1_0001 * a);
    SameByMultiple(TWO_64 * a, a, 0x1_0001_0001_0001 * a);
  }

  lemma SameByMultiple(a: nat, b: nat, k: nat)
    requires a == b + ONES * k && (b == 0 ==> k == 0)
    ensures Same(a, b)
  {
  }

  /** A 16-bit representative is unique. */
  lemma SameUnique(a: Word16, b: Word16)
    requires Same(a, b)
    ensures a == b
  {
  }

  // ---------------------------------------------------------------------------------------------
  // Byte strings as numbers
  // ---------------------------------------------------------------------------------------------

  /** A byte string read as one little-endian number. */
  ghost function LittleEndian(b: seq<Byte>): nat {
    if b == [] then 0 else b[0] + TWO_8 * LittleEndian(b[1..])
  }

  /** The sum of the 16-bit little-endian words, an odd last byte counting as a word of its own. */
  ghost function WordSum(b: seq<Byte>): nat {
    if |b| == 0 then 0
    else if |b| == 1 then b[0]
    else b[0] + TWO_8 * b[1] + WordSum(b[2..])
  }

  /** The sum of the 16-bit big-endian words, an odd last byte padded with a zero. */
  ghost function BigWordSum(b: seq<Byte>): nat {
    if |b| == 0 then 0
    else if |b| == 1 then TWO_8 * b[0]
    else TWO_8 * b[0] + b[1] + BigWordSum(b[2..])
  }

  lemma {:induction false} WordSumBound(b: seq<Byte>)
    ensures WordSum(b) <= ONES * |b|
  {
    if |b| > 1 {
      WordSumBound(b[2..]);
    }
  }

  /** However a byte string is cut into words, as long as the cuts are at even offsets, the sum of its words
      has the same value as the string read as one number. */
  lemma {:induction false} WordSumIsLittleEndian(b: seq<Byte>)
    ensures Same(WordSum(b), LittleEndian(b))
  {
    if |b| == 1 {
      assert LittleEndian(b[1..]) == 0;
    } else if |b| > 1 {
      assert b[1..][1..] == b[2..];
      assert LittleEndian(b) == b[0] + TWO_8 * b[1] + TWO_16 * LittleEndian(b[2..]);
      WordSumIsLittleEndian(b[2..]);
      SameShift(LittleEndian(b[2..]));
      SameAdd(b[0] + TWO_8 * b[1], b[0] + TWO_8 * b[1], WordSum(b[2..]), TWO_16 * LittleEndian(b[2..]));
    }
  }

  /** Summing an even-length prefix and then the rest is summing the whole. */
  lemma {:induction false} WordSumSplit(a: seq<Byte>, b: seq<Byte>)
    requires |a| % 2 == 0
    ensures WordSum(a + b) == WordSum(a) + WordSum(b)
  {
    if a == [] {
      assert a + b == b;
    } else {
      assert (a + b)[2..] == a[2..] + b;
      WordSumSplit(a[2..], b);
    }
  }

  // ---------------------------------------------------------------------------------------------
  // Packing into 16 bits
  // ---------------------------------------------------------------------------------------------

  function Fold32(s: Word64): Word64 { s / TWO_32 + s % TWO_32 }

  function Fold16(s: Word64): Word64 { s / TWO_16 + s % TWO_16 }

  /** `csum_pack`: four folds. */
  function CsumPack(sum: Word64): Word16 {
    Fold16(Fold16(Fold32(Fold32(sum)))) % TWO_16
  }

  lemma FoldSame(s: Word64)
    ensures Same(Fold32(s), s) && Same(Fold16(s), s)
  {
    SameByMultiple(s, Fold32(s), 0x1_0001 * (s / TWO_32));
    SameByMultiple(s, Fold16(s), s / TWO_16);
  }

  lemma FoldBounds(s: Word64)
    ensures Fold32(s) <= 2 * (TWO_32 - 1)
    ensures s <= 2 * (TWO_32 - 1) ==> Fold32(s) < TWO_32
    ensures s < TWO_32 ==> Fold16(s) <= 2 * ONES
    ensures s <= 2 * ONES ==> Fold16(s) < TWO_16
  {
  }

  lemma SameTrans(a: nat, b: nat, c: nat)
    requires Same(a, b) && Same(b, c)
    ensures Same(a, c)
  {
  }

  /** Four folds are enough for any 64-bit sum: nothing is cut off, and the result is the one 16-bit value
      that the sum stands for. */
  lemma PackSame(sum: Word64)
    ensures Same(CsumPack(sum), sum)
    ensures CsumPack(sum) == Fold16(Fold16(Fold32(Fold32(sum))))
  {
    hide Same, Fold16, Fold32;
    var s1 := Fold32(sum);
    var s2 := Fold32(s1);
    var s3 := Fold16(s2);
    FoldBounds(sum);
    FoldBounds(s1);
    FoldBounds(s2);
    FoldBounds(s3);
    FoldSame(sum);
    FoldSame(s1);
    FoldSame(s2);
    FoldSame(s3);
    SameTrans(s2, s1, sum);
    SameTrans(s3, s2, sum);
    SameTrans(Fold16(s3), s3, sum);
  }

  /** Sums that stand for the same value are packed alike. */
  lemma PackDetermined(a: Word64, b: Word64)
    requires Same(a, b)
    ensures CsumPack(a) == CsumPack(b)
  {
    PackSame(a);
    PackSame(b);
    SameUnique(CsumPack(a), CsumPack(b));
  }

  // ---------------------------------------------------------------------------------------------
  // The portable loop
  // ---------------------------------------------------------------------------------------------

  function Load16(b: seq<Byte>, p: nat): Word16
    requires p + 2 <= |b|
  {
    b[p] + TWO_8 * b[p + 1]
  }

  function Load32(b: seq<Byte>, p: nat): Word32
    requires p + 4 <= |b|
  {
    Load16(b, p) + TWO_16 * Load16(b, p + 2)
  }

  function Load64(b: seq<Byte>, p: nat): Word64
    requires p + 8 <= |b|
  {
    Load32(b, p) + TWO_32 * Load32(b, p + 4)
  }

  function Add64(a: Word64, b: Word64): Word64 { (a + b) % TWO_64 }

  lemma {:induction false} WordSumTake(b: seq<Byte>, p: nat, n: nat)
    requires p % 2 == 0 && p + n <= |b|
    ensures WordSum(b[..p + n]) == WordSum(b[..p]) + WordSum(b[p..p + n])
  {
    assert b[..p + n] == b[..p] + b[p..p + n];
    WordSumSplit(b[..p], b[p..p + n]);
  }

  /** Adding a little more to a sum that has already wrapped around. */
  lemma AddWrapped(a: nat, r: Word64, b: Word64)
    requires r == a % TWO_64
    ensures Add64(r, b) == (a + b) % TWO_64
  {
    ModShift(r + b, TWO_64, a / TWO_64);
  }

  lemma WordSumPair(b: seq<Byte>, p: nat)
    requires p + 2 <= |b|
    ensures WordSum(b[p..p + 2]) == Load16(b, p)
  {
    assert b[p..p + 2][2..] == [];
  }

  lemma WordSumSingle(b: seq<Byte>, p: nat)
    requires p < |b|
    ensures WordSum(b[p..p + 1]) == b[p]
  {
  }

  /** What the portable loop has added before `p`. */
  ghost predicate AddedUpTo(buf: seq<Byte>, sum: nat, p: nat, r: nat)
    requires p <= |buf|
  {
    p % 2 == 0 && r == (sum + WordSum(buf[..p])) % TWO_64
  }

  lemma PortableStep(buf: seq<Byte>, sum: nat, p: nat, r: Word64)
    requires p + 2 <= |buf| && AddedUpTo(buf, sum, p, r)
    ensures AddedUpTo(buf, sum, p + 2, Add64(r, Load16(buf, p)))
  {
    hide WordSum, Load16, Add64;
    WordSumTake(buf, p, 2);
    WordSumPair(buf, p);
    AddWrapped(sum + WordSum(buf[..p]), r, Load16(buf, p));
  }

  lemma PortableEnd(buf: seq<Byte>, sum: nat, p: nat, r: Word64)
    requires p <= |buf| <= p + 1 && AddedUpTo(buf, sum, p, r)
    ensures (if p < |buf| then Add64(r, buf[p]) else r) == (sum + WordSum(buf)) % TWO_64
  {
    hide WordSum, Add64;
    if p < |buf| {
      WordSumTake(buf, p, 1);
      WordSumSingle(buf, p);
      AddWrapped(sum + WordSum(buf[..p]), r, buf[p]);
      assert buf[..p + 1] == buf;
    } else {
      assert buf[..p] == buf;
    }
  }

  /** Portable `csum_part`, for every byte string and initial sum: the sum of the words, modulo 2^64. */
  method CsumPartPortable(buf: seq<Byte>, sum: Word64) returns (r: Word64)
    ensures r == (sum + WordSum(buf)) % TWO_64
    ensures |buf| <= MAX_OBJECT && sum < TWO_63 ==> r == sum + WordSum(buf)
  {
    r := sum;
    var p: nat, len: nat := 0, |buf|;
    assert AddedUpTo(buf, sum, 0, r);
    hide AddedUpTo, WordSum, Load16, Add64;
    while len > 1
      invariant p + len == |buf| && AddedUpTo(buf, sum, p, r)
    {
      PortableStep(buf, sum, p, r);
      r := Add64(r, Load16(buf, p));
      len := len - 2;
      p := p + 2;
    }
    PortableEnd(buf, sum, p, r);
    if len > 0 {
      r := Add64(r, buf[p]);
    }
    WordSumBound(buf);
  }

  // ---------------------------------------------------------------------------------------------
  // The carry chain
  // ---------------------------------------------------------------------------------------------

  /** `adc`: the sum of two words and the carry flag, and the new carry flag. */
  function Adc(a: Word64, b: Word64, carry: nat): (r: (Word64, nat))
    requires carry <= 1
    ensures r.0 + TWO_64 * r.1 == a + b + carry && r.1 <= 1
  {
    ((a + b + carry) % TWO_64, (a + b + carry) / TWO_64)
  }

  /** Two words are added and the carry is added back in; the second addition never carries. */
  method AddEndAround(a: Word64, b: Word64) returns (r: Word64, lost: nat)
    ensures lost == 0 && Same(r, a + b)
  {
    var (s, c) := Adc(a, b, 0);
    var (t, d) := Adc(s, 0, c);
    r, lost := t, d;
    EndAround(s, c);
  }

  lemma EndAround(s: Word64, c: nat)
    requires c <= 1 && (c == 1 ==> s < TWO_64 - 1)
    ensures Same(s + c, s + TWO_64 * c)
  {
    SameByMultiple(s + TWO_64 * c, s + c, (TWO_64 - 1) / ONES * c);
  }

  /** One lane of a 128-byte block: four words are added to an accumulator, each carry going into the next
      addition and the last one added back in.  No carry is lost at the end. */
  method AddLane(sum: Word64, m0: Word64, m1: Word64, m2: Word64, m3: Word64) returns (r: Word64, lost: nat)
    ensures lost == 0 && Same(r, sum + m0 + m1 + m2 + m3)
  {
    hide Same;
    var (s0, c0) := Adc(sum, m0, 0);
    var (s1, c1) := Adc(s0, m1, c0);
    var (s2, c2) := Adc(s1, m2, c1);
    var (s3, c3) := Adc(s2, m3, c2);
    var (s4, c4) := Adc(s3, 0, c3);
    r, lost := s4, c4;
    CarriesFold(s3, c0, c1, c2, c3);
  }

  /** What stays in the accumulator plus the carries stands for the full sum. */
  lemma CarriesFold(s: Word64, c0: nat, c1: nat, c2: nat, c3: nat)
    requires c0 <= 1 && c1 <= 1 && c2 <= 1 && c3 <= 1
    requires s + TWO_64 * (c0 + c1 + c2 + c3) - (c0 + c1 + c2) >= 0
    requires c0 + c1 + c2 + c3 > 0 ==> s + c3 > 0
    ensures Same(s + c3, s + TWO_64 * (c0 + c1 + c2 + c3) - (c0 + c1 + c2))
  {
    SameByMultiple(s + TWO_64 * (c0 + c1 + c2 + c3) - (c0 + c1 + c2), s + c3,
                   (TWO_64 - 1) / ONES * (c0 + c1 + c2 + c3));
  }

  // ---------------------------------------------------------------------------------------------
  // The amd64 fast path
  // ---------------------------------------------------------------------------------------------

  lemma Load32IsWords(b: seq<Byte>, p: nat)
    requires p + 4 <= |b|
    ensures Same(Load32(b, p), WordSum(b[p..p + 4]))
  {
    var w := b[p..p + 4];
    assert w[2..][2..] == [];
    assert WordSum(w[2..]) == Load16(b, p + 2);
    assert WordSum(w) == Load16(b, p) + Load16(b, p + 2);
    SameByMultiple(Load32(b, p), WordSum(w), Load16(b, p + 2));
  }

  lemma Load64IsWords(b: seq<Byte>, p: nat)
    requires p + 8 <= |b|
    ensures Same(Load64(b, p), WordSum(b[p..p + 8]))
  {
    hide Same;
    var w := b[p..p + 8];
    assert w == b[p..p + 4] + b[p + 4..p + 8];
    WordSumSplit(b[p..p + 4], b[p + 4..p + 8]);
    Load32IsWords(b, p);
    Load32IsWords(b, p + 4);
    SameShift(Load32(b, p + 4));
    SameTrans(TWO_32 * Load32(b, p + 4), Load32(b, p + 4), WordSum(b[p + 4..p + 8]));
    SameAdd(Load32(b, p), WordSum(b[p..p + 4]), TWO_32 * Load32(b, p + 4), WordSum(b[p + 4..p + 8]));
  }

  /** The sum of `n` 32-bit words from `p` on. */
  function Sum32(b: seq<Byte>, p: nat, n: nat): nat
    requires p + 4 * n <= |b|
  {
    if n == 0 then 0 else Sum32(b, p, n - 1) + Load32(b, p + 4 * (n - 1))
  }

  lemma {:induction false} Sum32IsWords(b: seq<Byte>, p: nat, n: nat)
    requires p + 4 * n <= |b|
    ensures Same(Sum32(b, p, n), WordSum(b[p..p + 4 * n]))
    ensures Sum32(b, p, n) <= n * TWO_32
    decreases n
  {
    if n > 0 {
      hide Same;
      var q := p + 4 * (n - 1);
      Sum32IsWords(b, p, n - 1);
      Load32IsWords(b, q);
      assert b[p..q + 4] == b[p..q] + b[q..q + 4];
      WordSumSplit(b[p..q], b[q..q + 4]);
      SameAdd(Sum32(b, p, n - 1), WordSum(b[p..q]), Load32(b, q), WordSum(b[q..q + 4]));
    } else {
      assert b[p..p] == [];
    }
  }

  /** One lane of the block at `p` and the 32 bytes it covers. */
  method AddLaneAt(buf: seq<Byte>, p: nat, sum: Word64) returns (r: Word64, lost: nat)
    requires p + 32 <= |buf|
    ensures lost == 0 && Same(r, sum + WordSum(buf[p..p + 32]))
  {
    hide Same;
    r, lost := AddLane(sum, Load64(buf, p), Load64(buf, p + 8), Load64(buf, p + 16), Load64(buf, p + 24));
    FourLoads(buf, p);
    SameReflexive(sum);
    var total := Load64(buf, p) + Load64(buf, p + 8) + Load64(buf, p + 16) + Load64(buf, p + 24);
    SameAdd(sum, sum, total, WordSum(buf[p..p + 32]));
    SameTrans(r, sum + total, sum + WordSum(buf[p..p + 32]));
  }

  lemma SameReflexive(a: nat)
    ensures Same(a, a)
  {
  }

  /** A stretch of words, cut at an even distance from its start. */
  lemma WordSumCut(b: seq<Byte>, p: nat, m: nat, q: nat)
    requires p <= m <= q <= |b| && (m - p) % 2 == 0
    ensures WordSum(b[p..q]) == WordSum(b[p..m]) + WordSum(b[m..q])
  {
    hide WordSum;
    assert b[p..q] == b[p..m] + b[m..q];
    WordSumSplit(b[p..m], b[m..q]);
  }

  lemma FourLoads(b: seq<Byte>, p: nat)
    requires p + 32 <= |b|
    ensures Same(Load64(b, p) + Load64(b, p + 8) + Load64(b, p + 16) + Load64(b, p + 24), WordSum(b[p..p + 32]))
  {
    hide Same, WordSum, Load64;
    Load64IsWords(b, p);
    Load64IsWords(b, p + 8);
    Load64IsWords(b, p + 16);
    Load64IsWords(b, p + 24);
    WordSumCut(b, p, p + 8, p + 32);
    WordSumCut(b, p + 8, p + 16, p + 32);
    WordSumCut(b, p + 16, p + 24, p + 32);
    SameAddFour(0, 0, 0, 0, WordSum(b[p..p + 8]), WordSum(b[p + 8..p + 16]),
                WordSum(b[p + 16..p + 24]), WordSum(b[p + 24..p + 32]),
                Load64(b, p), Load64(b, p + 8), Load64(b, p + 16), Load64(b, p + 24));
  }

  /** The block loop and the combination of its four accumulators into a sum of at most 33 bits. */
  method SumBlocks(buf: seq<Byte>, sum: Word64) returns (r: Word64, p: nat)
    requires |buf| >= 128
    ensures p <= |buf| < p + 128 && p % 2 == 0
    ensures Same(r, sum + WordSum(buf[..p])) && r < 2 * TWO_32
  {
    hide Same;
    var sum0: Word64, sum1: Word64, sum2: Word64, sum3: Word64 := sum, 0, 0, 0;
    var len: nat := |buf|;
    p := 0;
    SameReflexive(sum);
    while len >= 128
      invariant p + len == |buf| && p % 2 == 0
      invariant Same(sum0 + sum1 + sum2 + sum3, sum + WordSum(buf[..p]))
    {
      var lost: nat;
      ghost var a0, a1, a2, a3 := sum0, sum1, sum2, sum3;
      sum0, lost := AddLaneAt(buf, p, sum0);
      sum1, lost := AddLaneAt(buf, p + 32, sum1);
      sum2, lost := AddLaneAt(buf, p + 64, sum2);
      sum3, lost := AddLaneAt(buf, p + 96, sum3);
      FourLanes(buf, p, sum, a0, a1, a2, a3, sum0, sum1, sum2, sum3);
      len := len - 128;
      p := p + 128;
    }
    var lost: nat;
    ghost var a0: nat, a1: nat, a2: nat, a3: nat := sum0, sum1, sum2, sum3;
    sum1, lost := AddEndAround(sum1, sum3);
    sum0, lost := AddEndAround(sum0, sum2);
    SameAdd(sum0, a0 + a2, sum1, a1 + a3);
    ghost var both: nat := sum0 + sum1;
    sum0, lost := AddEndAround(sum0, sum1);
    SameTrans(sum0, both, a0 + a1 + a2 + a3);
    FoldSame(sum0);
    FoldBounds(sum0);
    r := sum0 / TWO_32 + sum0 % TWO_32;
    SameTrans(r, sum0, a0 + a1 + a2 + a3);
    SameTrans(r, a0 + a1 + a2 + a3, sum + WordSum(buf[..p]));
  }

  lemma SameAddFour(a0: nat, a1: nat, a2: nat, a3: nat, w0: nat, w1: nat, w2: nat, w3: nat,
                    b0: nat, b1: nat, b2: nat, b3: nat)
    requires Same(b0, a0 + w0) && Same(b1, a1 + w1) && Same(b2, a2 + w2) && Same(b3, a3 + w3)
    ensures Same(b0 + b1 + b2 + b3, a0 + a1 + a2 + a3 + (w0 + w1 + w2 + w3))
  {
    hide Same;
    SameAdd(b0, a0 + w0, b1, a1 + w1);
    SameAdd(b0 + b1, a0 + w0 + (a1 + w1), b2, a2 + w2);
    SameAdd(b0 + b1 + b2, a0 + w0 + (a1 + w1) + (a2 + w2), b3, a3 + w3);
  }

  lemma FourLanes(b: seq<Byte>, p: nat, sum: nat, a0: nat, a1: nat, a2: nat, a3: nat, b0: nat, b1: nat, b2: nat, b3: nat)
    requires p + 128 <= |b| && p % 2 == 0
    requires Same(a0 + a1 + a2 + a3, sum + WordSum(b[..p]))
    requires Same(b0, a0 + WordSum(b[p..p + 32])) && Same(b1, a1 + WordSum(b[p + 32..p + 64]))
    requires Same(b2, a2 + WordSum(b[p + 64..p + 96])) && Same(b3, a3 + WordSum(b[p + 96..p + 128]))
    ensures Same(b0 + b1 + b2 + b3, sum + WordSum(b[..p + 128]))
  {
    hide Same, WordSum;
    WordSumTake(b, p, 32);
    WordSumTake(b, p + 32, 32);
    WordSumTake(b, p + 64, 32);
    WordSumTake(b, p + 96, 32);
    var w0, w1 := WordSum(b[p..p + 32]), WordSum(b[p + 32..p + 64]);
    var w2, w3 := WordSum(b[p + 64..p + 96]), WordSum(b[p + 96..p + 128]);
    SameAddFour(a0, a1, a2, a3, w0, w1, w2, w3, b0, b1, b2, b3);
    SameReflexive(w0 + w1 + w2 + w3);
    SameAdd(a0 + a1 + a2 + a3, sum + WordSum(b[..p]), w0 + w1 + w2 + w3, w0 + w1 + w2 + w3);
    SameTrans(b0 + b1 + b2 + b3, a0 + a1 + a2 + a3 + (w0 + w1 + w2 + w3),
              sum + WordSum(b[..p]) + (w0 + w1 + w2 + w3));
  }

  /** What the tail adds from `p` on, without wrapping around: 32-bit words, then the last bytes. */
  ghost function TailSum(buf: seq<Byte>, p: nat): nat
    requires p <= |buf|
    decreases |buf| - p
  {
    if |buf| - p >= 4 then Load32(buf, p) + TailSum(buf, p + 4) else WordSum(buf[p..])
  }

  lemma {:induction false} TailSumIsWords(buf: seq<Byte>, p: nat)
    requires p <= |buf|
    ensures Same(TailSum(buf, p), WordSum(buf[p..]))
    ensures TailSum(buf, p) <= TWO_32 * (|buf| - p)
    decreases |buf| - p
  {
    if |buf| - p >= 4 {
      hide Same, WordSum, Load32;
      TailSumIsWords(buf, p + 4);
      Load32IsWords(buf, p);
      WordSumCut(buf, p, p + 4, |buf|);
      assert buf[p..|buf|] == buf[p..] && buf[p + 4..|buf|] == buf[p + 4..];
      SameAdd(Load32(buf, p), WordSum(buf[p..p + 4]), TailSum(buf, p + 4), WordSum(buf[p + 4..]));
    } else {
      hide Same;
      SameReflexive(WordSum(buf[p..]));
      WordSumBound(buf[p..]);
    }
  }

  /** The first `n` of the 32-bit words. */
  lemma {:induction false} TailSumSplit(buf: seq<Byte>, p: nat, n: nat)
    requires p + 4 * n <= |buf|
    ensures TailSum(buf, p) == Sum32(buf, p, n) + TailSum(buf, p + 4 * n)
    decreases n
  {
    hide Load32;
    if n > 0 {
      TailSumSplit(buf, p, n - 1);
    }
  }

  /** What the tail has added so far, modulo 2^64. */
  ghost predicate TailSoFar(buf: seq<Byte>, start: nat, sum: nat, p: nat, r: nat)
    requires start <= p <= |buf|
  {
    TailSum(buf, p) <= TailSum(buf, start) && r == (sum + TailSum(buf, start) - TailSum(buf, p)) % TWO_64
  }

  /** `n` 32-bit words of the tail. */
  method AddTailWords(buf: seq<Byte>, p: nat, n: nat, r: Word64, ghost start: nat, ghost sum: Word64)
    returns (r': Word64, p': nat)
    requires start <= p && n <= 16 && p + 4 * n <= |buf| && TailSoFar(buf, start, sum, p, r)
    ensures p' == p + 4 * n && TailSoFar(buf, start, sum, p', r')
  {
    hide Sum32, WordSum, TailSum;
    TailSumSplit(buf, p, n);
    Sum32IsWords(buf, p, n);
    AddWrapped(sum + TailSum(buf, start) - TailSum(buf, p), r, Sum32(buf, p, n));
    r' := Add64(r, Sum32(buf, p, n));
    p' := p + 4 * n;
  }

  lemma QuarterBits(q: nat)
    requires q < 32
    ensures q == 16 * (q / 16 % 2) + 8 * (q / 8 % 2) + 4 * (q / 4 % 2) + 2 * (q / 2 % 2) + q % 2
  {
  }

  /** The tests `len & 64` down to `len & 4`, and the last two bits, decompose the length. */
  lemma TailLength(len: nat)
    requires len < 128
    ensures len == 64 * (len / 64 % 2) + 32 * (len / 32 % 2) + 16 * (len / 16 % 2) + 8 * (len / 8 % 2)
                   + 4 * (len / 4 % 2) + len % 4
  {
    var q := len / 4;
    assert len / 8 == q / 2;
    assert len / 16 == q / 4;
    assert len / 32 == q / 8;
    assert len / 64 == q / 16;
    QuarterBits(q);
  }

  /** The binary decomposition of the last `len` bytes, fewer than 128. */
  method AddTail(buf: seq<Byte>, start: nat, sum: Word64) returns (r: Word64)
    requires start <= |buf| < start + 128
    ensures r == (sum + TailSum(buf, start)) % TWO_64
  {
    var len := |buf| - start;
    TailLength(len);
    r := AddTailBits(buf, start, sum, len / 64 % 2 == 1, len / 32 % 2 == 1, len / 16 % 2 == 1,
                     len / 8 % 2 == 1, len / 4 % 2 == 1, len % 4);
  }

  method AddTailBits(buf: seq<Byte>, start: nat, sum: Word64, b64: bool, b32: bool, b16: bool, b8: bool, b4: bool, n: nat)
    returns (r: Word64)
    requires |buf| - start == (if b64 then 64 else 0) + (if b32 then 32 else 0) + (if b16 then 16 else 0)
                              + (if b8 then 8 else 0) + (if b4 then 4 else 0) + n
    requires n < 4
    ensures r == (sum + TailSum(buf, start)) % TWO_64
  {
    hide TailSum;
    var p: nat;
    r, p := sum, start;
    assert TailSoFar(buf, start, sum, start, sum);
    hide TailSoFar;
    if b64 {
      r, p := AddTailWords(buf, p, 16, r, start, sum);
    }
    if b32 {
      r, p := AddTailWords(buf, p, 8, r, start, sum);
    }
    if b16 {
      r, p := AddTailWords(buf, p, 4, r, start, sum);
    }
    if b8 {
      r, p := AddTailWords(buf, p, 2, r, start, sum);
    }
    if b4 {
      r, p := AddTailWords(buf, p, 1, r, start, sum);
    }
    r := AddTailBytes(buf, p, n, r, start, sum);
  }

  /** The last three bytes at most. */
  method AddTailBytes(buf: seq<Byte>, p: nat, n: nat, r: Word64, ghost start: nat, ghost sum: Word64) returns (r': Word64)
    requires start <= p && p + n == |buf| && n < 4 && TailSoFar(buf, start, sum, p, r)
    ensures r' == (sum + TailSum(buf, start)) % TWO_64
  {
    LastBytes(buf, p, n);
    assert TailSum(buf, p) == WordSum(buf[p..]);
    hide WordSum, TailSum;
    r' := r;
    ghost var total: nat := sum + TailSum(buf, start) - TailSum(buf, p);
    var q := p;
    if n / 2 == 1 {
      AddWrapped(total, r', Load16(buf, q));
      total := total + Load16(buf, q);
      r' := Add64(r', Load16(buf, q));
      q := q + 2;
    }
    if n % 2 == 1 {
      AddWrapped(total, r', buf[q]);
      r' := Add64(r', buf[q]);
    }
  }

  lemma LastBytes(b: seq<Byte>, p: nat, n: nat)
    requires p + n == |b| && n < 4
    ensures WordSum(b[p..]) == (if n / 2 == 1 then Load16(b, p) else 0) + if n % 2 == 1 then b[p + n - 1] else 0
  {
    if n >= 2 {
      assert b[p..][2..] == b[p + 2..];
    }
  }

  lemma BlocksThenTail(buf: seq<Byte>, p: nat, sum: nat, blocks: nat, r: nat)
    requires p <= |buf| && p % 2 == 0
    requires Same(blocks, sum + WordSum(buf[..p])) && Same(r, blocks + WordSum(buf[p..]))
    ensures Same(r, sum + WordSum(buf))
  {
    hide Same, WordSum;
    var lo, hi := buf[..p], buf[p..];
    assert buf == lo + hi;
    WordSumSplit(lo, hi);
    SameReflexive(WordSum(hi));
    SameAdd(blocks, sum + WordSum(lo), WordSum(hi), WordSum(hi));
    SameTrans(r, blocks + WordSum(hi), sum + WordSum(lo) + WordSum(hi));
  }

  /** Losing a carry out of 64 bits changes the value: 2^64 counts as one. */
  lemma WrapChangesValue(s: nat)
    requires TWO_64 <= s < 2 * TWO_64
    ensures !Same(s % TWO_64, s)
  {
    SameByMultiple(TWO_64, 1, 0x1_0001_0001_0001);
    ModShift(s - TWO_64 + 1, ONES, 0x1_0001_0001_0001);
    NextDiffers(s - TWO_64);
  }

  lemma NextDiffers(a: nat)
    ensures a % ONES != (a + 1) % ONES
  {
  }

  /** Without blocks, the fast path is right exactly when its additions fit in 64 bits. */
  lemma ShortIffFits(buf: seq<Byte>, sum: Word64)
    requires |buf| < 128
    ensures Same((sum + TailSum(buf, 0)) % TWO_64, sum + WordSum(buf)) <==> sum + TailSum(buf, 0) < TWO_64
    ensures sum <= TWO_63 ==> sum + TailSum(buf, 0) < TWO_64
  {
    hide Same, TailSum;
    var s := sum + TailSum(buf, 0);
    TailSumIsWords(buf, 0);
    assert buf[0..] == buf;
    SameReflexive(sum);
    SameAdd(sum, sum, TailSum(buf, 0), WordSum(buf));
    if s >= TWO_64 {
      WrapChangesValue(s);
      if Same(s % TWO_64, sum + WordSum(buf)) {
        SameFlip(s, sum + WordSum(buf));
        SameTrans(s % TWO_64, sum + WordSum(buf), s);
      }
    }
  }

  /** `csum_part` on amd64, for every byte string and initial sum.  With at least one block it is always
      right; without, exactly when the initial sum leaves room for the tail, as every sum up to 2^63 does. */
  method CsumPartAmd64(buf: seq<Byte>, sum: Word64) returns (r: Word64)
    ensures Same(r, sum + WordSum(buf)) <==> |buf| >= 128 || sum + TailSum(buf, 0) < TWO_64
    ensures |buf| < 128 ==> r == (sum + TailSum(buf, 0)) % TWO_64
    ensures sum <= TWO_63 ==> Same(r, sum + WordSum(buf))
  {
    hide Same, WordSum, TailSum;
    if |buf| >= 128 {
      var blocks: Word64, p: nat := SumBlocks(buf, sum);
      r := AddTail(buf, p, blocks);
      TailSumIsWords(buf, p);
      SameReflexive(blocks);
      SameAdd(blocks, blocks, TailSum(buf, p), WordSum(buf[p..]));
      BlocksThenTail(buf, p, sum, blocks, r);
    } else {
      r := AddTail(buf, 0, sum);
      ShortIffFits(buf, sum);
    }
  }

  /** `csum` by either route.  For every byte string that fits in memory and every initial sum below 2^63
      the portable loop and the fast path agree, bit for bit. */
  method Csum(buf: seq<Byte>, sum: Word64, fast: bool) returns (r: Word16)
    ensures |buf| <= MAX_OBJECT && sum < TWO_63 ==> sum + WordSum(buf) < TWO_64 && r == CsumPack(sum + WordSum(buf))
    ensures !fast ==> r == CsumPack((sum + WordSum(buf)) % TWO_64)
    ensures fast ==> (Same(r, sum + WordSum(buf)) <==> |buf| >= 128 || sum + TailSum(buf, 0) < TWO_64)
  {
    hide Same, CsumPack, TailSum, WordSum;
    WordSumBound(buf);
    var part: Word64;
    if fast {
      part := CsumPartAmd64(buf, sum);
      PackSame(part);
      SameAsPart(CsumPack(part), part, sum + WordSum(buf));
      if |buf| <= MAX_OBJECT && sum < TWO_63 {
        PackDetermined(part, sum + WordSum(buf));
      }
    } else {
      part := CsumPartPortable(buf, sum);
    }
    r := CsumPack(part);
  }

  lemma SameAsPart(a: nat, b: nat, c: nat)
    requires Same(a, b)
    ensures Same(a, c) <==> Same(b, c)
  {
  }

  // ---------------------------------------------------------------------------------------------
  // Byte order and concatenation
  // ---------------------------------------------------------------------------------------------

  /** `htons` on a little-endian machine. */
  function Swap16(w: Word16): Word16 {
    TWO_8 * (w % TWO_8) + w / TWO_8
  }

  lemma {:induction false} BigIsShifted(b: seq<Byte>)
    ensures Same(BigWordSum(b), TWO_8 * WordSum(b))
  {
    if |b| > 1 {
      BigIsShifted(b[2..]);
      SameByMultiple(TWO_8 * (b[0] + TWO_8 * b[1]), TWO_8 * b[0] + b[1], b[1]);
      SameAdd(TWO_8 * b[0] + b[1], TWO_8 * (b[0] + TWO_8 * b[1]), BigWordSum(b[2..]), TWO_8 * WordSum(b[2..]));
    }
  }

  lemma SwapIsShift(w: Word16)
    ensures Same(Swap16(w), TWO_8 * w)
  {
    SameByMultiple(TWO_8 * w, Swap16(w), w / TWO_8);
  }

  lemma SameScale(a: nat, b: nat)
    requires Same(a, b)
    ensures Same(TWO_8 * a, TWO_8 * b)
  {
    hide Same;
    SameAdd(a, b, a, b);
    SameAdd(2 * a, 2 * b, 2 * a, 2 * b);
    SameAdd(4 * a, 4 * b, 4 * a, 4 * b);
    SameAdd(8 * a, 8 * b, 8 * a, 8 * b);
    SameAdd(16 * a, 16 * b, 16 * a, 16 * b);
    SameAdd(32 * a, 32 * b, 32 * a, 32 * b);
    SameAdd(64 * a, 64 * b, 64 * a, 64 * b);
    SameAdd(128 * a, 128 * b, 128 * a, 128 * b);
  }

  /** Section 2(B) of RFC 1071: swapping the bytes of the little-endian checksum, as is done before a
      payload is sent, gives the checksum over big-endian words, for even and odd lengths alike. */
  lemma ByteOrderIndependence(b: seq<Byte>)
    requires |b| <= MAX_OBJECT
    ensures WordSum(b) < TWO_64 && BigWordSum(b) < TWO_64
    ensures Swap16(CsumPack(WordSum(b))) == CsumPack(BigWordSum(b))
  {
    WordSumBound(b);
    BigWordSumBound(b);
    var le, be := WordSum(b), BigWordSum(b);
    hide Same, CsumPack, WordSum, BigWordSum;
    PackSame(le);
    PackSame(be);
    SwapIsShift(CsumPack(le));
    SameScale(CsumPack(le), le);
    BigIsShifted(b);
    SameTrans(Swap16(CsumPack(le)), TWO_8 * CsumPack(le), TWO_8 * le);
    SameFlip(be, TWO_8 * le);
    SameTrans(Swap16(CsumPack(le)), TWO_8 * le, be);
    SameFlip(CsumPack(be), be);
    SameTrans(Swap16(CsumPack(le)), be, CsumPack(be));
    SameUnique(Swap16(CsumPack(le)), CsumPack(be));
  }

  lemma SameFlip(a: nat, b: nat)
    requires Same(a, b)
    ensures Same(b, a)
  {
  }

  lemma {:induction false} BigWordSumBound(b: seq<Byte>)
    ensures BigWordSum(b) <= ONES * |b|
  {
    if |b| > 1 {
      BigWordSumBound(b[2..]);
    }
  }

  /** The partial sum of an even-length prefix can be passed on as the initial sum for the rest. */
  lemma ChecksumOfParts(a: seq<Byte>, b: seq<Byte>, partA: Word64, partAB: Word64)
    requires |a| % 2 == 0 && |a| + |b| <= MAX_OBJECT
    requires Same(partA, WordSum(a)) && Same(partAB, partA + WordSum(b))
    ensures WordSum(a + b) < TWO_64 && CsumPack(partAB) == CsumPack(WordSum(a + b))
  {
    WordSumBound(a + b);
    WordSumSplit(a, b);
    SameReflexive(WordSum(b));
    SameAdd(partA, WordSum(a), WordSum(b), WordSum(b));
    SameTrans(partAB, partA + WordSum(b), WordSum(a + b));
    PackDetermined(partAB, WordSum(a + b));
  }

  /** The checksum is zero only for data that is nothing but zeros. */
  lemma {:induction false} ZeroOnlyForZeros(b: seq<Byte>)
    requires |b| <= MAX_OBJECT
    ensures WordSum(b) < TWO_64
    ensures CsumPack(WordSum(b)) == 0 <==> forall i :: 0 <= i < |b| ==> b[i] == 0
  {
    WordSumBound(b);
    PackSame(WordSum(b));
    ZeroSum(b);
  }

  lemma {:induction false} ZeroSum(b: seq<Byte>)
    ensures WordSum(b) == 0 <==> forall i :: 0 <= i < |b| ==> b[i] == 0
  {
    if |b| > 1 {
      ZeroSum(b[2..]);
      assert forall i :: 2 <= i < |b| ==> b[i] == b[2..][i - 2];
    }
  }
}
