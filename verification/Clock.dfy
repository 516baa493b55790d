/** The hardware clock: reading a 64-bit counter through 32-bit registers, recovering full time stamps
    from their low halves, and converting cycles to fractions of a second. */
module Clock {
  import opened Words

  const NANOS := 1_000_000_000
  const PICOS := 1_000_000_000_000
  const PICOS_OVER_4096 := 244_140_625

  // ---------------------------------------------------------------------------------------------
  // Reading the counter
  // ---------------------------------------------------------------------------------------------

  /** `exanic_read_hw_time_64`: the high word is read before and after the low word. */
  function ReadHwTime64(hi1: Word32, lo: Word32, hi2: Word32): int {
    if hi1 == hi2 then hi1 * TWO_32 + lo
    else if lo < TWO_31 then hi2 * TWO_32 + lo
    else hi1 * TWO_32 + lo
  }

  /** The three register reads of a running counter that shows `c1`, `c2` and `c3` in turn give the value
      it had when the low word was read, as long as fewer than 2^31 ticks pass in between. */
  lemma TornReadIsSafe(c1: nat, c2: nat, c3: nat)
    requires c1 <= c2 <= c3 < TWO_63 && c3 - c1 < TWO_31
    ensures ReadHwTime64(c1 / TWO_32, c2 % TWO_32, c3 / TWO_32) == c2
  {
  }

  // ---------------------------------------------------------------------------------------------
  // Expanding time stamps
  // ---------------------------------------------------------------------------------------------

  /** `(int32_t)x`. */
  function ToInt32(x: int): int {
    (x + TWO_31) % TWO_32 - TWO_31
  }

  /** The last step of `exanic_expand_timestamp`. */
  function Expand(tick: int, timestamp: Word32): int {
    tick + ToInt32(timestamp - tick)
  }

  /** What the card offers: its tick rate, whether the high word of the counter can be read, and the time
      on the kernel's info page if that is mapped. */
  datatype Card = Card(hz: Word32, hasHighWord: bool, infoTime: Option<int>)

  /** The card's own counter is the reference, unless the kernel offers a non-zero time. */
  predicate UsesRegisters(card: Card) {
    card.hasHighWord && (card.infoTime.None? || card.infoTime.value == 0)
  }

  /** `exanic_expand_timestamp`, given what the three registers show. */
  function ExpandTimestamp(card: Card, hi1: Word32, lo: Word32, hi2: Word32, timestamp: Word32): int
    requires card.hasHighWord || card.infoTime.Some?
  {
    if card.hz == 0 then 0
    else if UsesRegisters(card) then
      Expand(ReadHwTime64(hi1, lo, hi2), timestamp)
    else
      Expand(card.infoTime.value, timestamp)
  }

  /** Expansion recovers a time from its low half exactly when the time lies in the half-open window of
      2^31 ticks around the reference. */
  lemma ExpandRecoversIff(tick: int, t: int)
    ensures Expand(tick, t % TWO_32) == t <==> tick - TWO_31 <= t < tick + TWO_31
  {
    var d := ToInt32(t % TWO_32 - tick);
    assert (t % TWO_32 - tick - d) % TWO_32 == 0;
    assert (t - tick - d) % TWO_32 == 0;
  }

  /** The three registers as they show a counter at `c1`, `c2` and `c3`, less than 2^31 ticks apart. */
  predicate ReadInTime(hi1: Word32, lo: Word32, hi2: Word32, c1: nat, c2: nat, c3: nat) {
    && c1 <= c2 <= c3 < TWO_63 && c3 - c1 < TWO_31
    && hi1 == c1 / TWO_32 && lo == c2 % TWO_32 && hi2 == c3 / TWO_32
  }

  /** On every card, a time stamp is recovered exactly if it was taken less than 2^31 ticks after the
      reference or at most 2^31 ticks before.  The reference is the time on the info page; only a page that
      is not mapped, or shows 0 while the card's high word can be read, leaves the card's own counter. */
  lemma TimestampRecovered(card: Card, hi1: Word32, lo: Word32, hi2: Word32, c1: nat, c2: nat, c3: nat, t: int)
    requires card.hz > 0 && (card.hasHighWord || card.infoTime.Some?)
    requires card.infoTime == None || (card.infoTime == Some(0) && card.hasHighWord) ==>
               ReadInTime(hi1, lo, hi2, c1, c2, c3)
    ensures var reference := if card.infoTime == None || (card.infoTime == Some(0) && card.hasHighWord)
                             then c2 else card.infoTime.value;
            ExpandTimestamp(card, hi1, lo, hi2, t % TWO_32) == t
            <==> reference - 0x8000_0000 <= t < reference + 0x8000_0000
  {
    if UsesRegisters(card) {
      TornReadIsSafe(c1, c2, c3);
      ExpandRecoversIff(c2, t);
    } else {
      ExpandRecoversIff(card.infoTime.value, t);
    }
  }

  /** A page that shows 0 counts as no page as long as the high word can be read; a page that shows anything
      else decides alone, whatever the registers show and whether or not the high word can be read. */
  lemma PageDecides(hz: Word32, hi1: Word32, lo: Word32, hi2: Word32, h1: Word32, l: Word32, h2: Word32,
                    time: int, timestamp: Word32)
    ensures ExpandTimestamp(Card(hz, true, Some(0)), hi1, lo, hi2, timestamp)
            == ExpandTimestamp(Card(hz, true, None), hi1, lo, hi2, timestamp)
    ensures time != 0 ==>
              ExpandTimestamp(Card(hz, true, Some(time)), hi1, lo, hi2, timestamp)
              == ExpandTimestamp(Card(hz, false, Some(time)), h1, l, h2, timestamp)
    ensures ExpandTimestamp(Card(hz, false, Some(0)), hi1, lo, hi2, timestamp)
            == ExpandTimestamp(Card(hz, false, Some(0)), h1, l, h2, timestamp)
    ensures ExpandTimestamp(Card(0, true, Some(time)), hi1, lo, hi2, timestamp) == 0
  {
    hide Expand, ReadHwTime64;
  }

  // ---------------------------------------------------------------------------------------------
  // Cycles to picoseconds
  // ---------------------------------------------------------------------------------------------

  /** A 64-bit product. */
  function Mul64(a: nat, b: nat): Word64 { (a * b) % TWO_64 }

  /** f * p / h without bound on the product. */
  function Scale(f: nat, p: nat, h: nat): nat
    requires h > 0
  {
    f * p / h
  }

  datatype Timespec = Timespec(sec: nat, frac: nat)

  /** `exanic_cycles_to_timespecps`, with its 64-bit products. */
  function ToPicoseconds(hz: Word32, cycles: nat): Timespec
    requires hz > 0
  {
    var frac := cycles % hz;
    Timespec(cycles / hz, (Mul64(frac, PICOS / hz) + Mul64(frac, PICOS % hz) / hz) % TWO_64)
  }

  lemma DivBounds(a: int, b: int)
    requires b > 0
    ensures b * (a / b) <= a < b * (a / b) + b
  {
  }

  lemma DivUnique(a: int, b: int, q: int)
    requires b > 0 && b * q <= a < b * q + b
    ensures a / b == q
  {
    DivModUnique(a, b, q, a - b * q);
  }

  lemma MulMono(a: int, b: int, c: int)
    requires a <= b && c >= 0
    ensures a * c <= b * c
  {
  }

  lemma Mul64Exact(a: nat, b: nat, m: nat, n: nat)
    requires a <= m && b <= n && m * n < TWO_64
    ensures Mul64(a, b) == a * b <= m * n
  {
    MulMono(a, m, b);
    MulMono(b, n, m);
    assert 0 <= a * b <= m * b == b * m <= n * m == m * n;
  }

  /** Splitting the factor before dividing loses nothing. */
  lemma SplitFactor(f: nat, p: nat, h: nat)
    requires h > 0
    ensures Scale(f, p, h) == f * (p / h) + Scale(f, p % h, h)
  {
    var q, r := p / h, p % h;
    assert f * p == h * (f * q) + f * r by {
      assert p == h * q + r;
      assert f * p == f * (h * q) + f * r;
      assert f * (h * q) == h * (f * q);
    }
    DivBounds(f * r, h);
    var d := f * r / h;
    assert h * (f * q + d) == h * (f * q) + h * d;
    DivUnique(f * p, h, f * q + d);
  }

  lemma ScaleBelow(f: nat, p: nat, h: nat)
    requires f < h && p > 0
    ensures Scale(f, p, h) < p
  {
    DivBounds(f * p, h);
    assert f * p < h * p;
    var d := f * p / h;
    if d >= p {
      MulMono(p, d, h);
    }
  }

  lemma ScaleMono(f: nat, g: nat, p: nat, h: nat)
    requires f <= g && h > 0
    ensures Scale(f, p, h) <= Scale(g, p, h)
  {
    MulMono(f, g, p);
    DivMono(f * p, g * p, h);
  }

  lemma ProductsFit(hz: Word32, f: nat)
    requires f < hz
    ensures Mul64(f, PICOS / hz) == f * (PICOS / hz) <= PICOS
    ensures Mul64(f, PICOS % hz) == f * (PICOS % hz)
  {
    Mul64Exact(f, PICOS % hz, TWO_32 - 1, TWO_32 - 1);
    var q := PICOS / hz;
    DivBounds(PICOS, hz);
    MulMono(f, hz, q);
    assert f * q <= hz * q <= PICOS;
    assert f * q >= 0;
  }

  /** The picosecond part is the exact floor of frac * 10^12 / hz, less than a second, and none of the
      64-bit operations overflows. */
  lemma PicosecondsAreExact(hz: Word32, cycles: nat)
    requires hz > 0
    ensures Mul64(cycles % hz, PICOS / hz) == cycles % hz * (PICOS / hz)
    ensures Mul64(cycles % hz, PICOS % hz) == cycles % hz * (PICOS % hz)
    ensures ToPicoseconds(hz, cycles).sec == cycles / hz
    ensures ToPicoseconds(hz, cycles).frac == cycles % hz * 1_000_000_000_000 / hz < 1_000_000_000_000
  {
    var f := cycles % hz;
    ProductsFit(hz, f);
    SplitFactor(f, PICOS, hz);
    ScaleBelow(f, PICOS, hz);
    ScaleParts(hz, f);
  }

  lemma ScaleParts(hz: Word32, f: nat)
    requires 0 < hz && f < hz
    ensures Mul64(f, PICOS % hz) / hz == Scale(f, PICOS % hz, hz)
  {
    ProductsFit(hz, f);
  }

  // ---------------------------------------------------------------------------------------------
  // Picoseconds to binary fractions
  // ---------------------------------------------------------------------------------------------

  /** The fraction field of an ERF record. */
  function ErfFraction(ps: nat): Word32 {
    (ps * 0x10_0000) % TWO_64 / PICOS_OVER_4096 % TWO_32
  }

  /** It is the exact floor of ps * 2^32 / 10^12, with no overflow and nothing cut off. */
  lemma ErfFractionIsExact(ps: nat)
    requires ps < 1_000_000_000_000
    ensures ps * 0x10_0000 < TWO_64
    ensures ErfFraction(ps) == ps * 0x1_0000_0000 / 1_000_000_000_000
  {
  }

  /** ERF time of a cycle count: seconds and binary fraction as one number. */
  function ErfTime(hz: Word32, cycles: nat): nat
    requires hz > 0
  {
    ToPicoseconds(hz, cycles).sec * TWO_32 + ErfFraction(ToPicoseconds(hz, cycles).frac)
  }

  /** Scaling twice loses at most one more unit than scaling once, because the first unit is smaller. */
  lemma ScaleTwice(f: nat, p: nat, q: nat, h: nat)
    requires h > 0 && 0 < q <= p
    ensures Scale(Scale(f, p, h), q, p) <= Scale(f, q, h) <= Scale(Scale(f, p, h), q, p) + 1
  {
    var m := Scale(f, p, h);
    var e, d := Scale(m, q, p), Scale(f, q, h);
    DivBounds(f * p, h);
    DivBounds(m * q, p);
    DivBounds(f * q, h);
    ScaleTwiceUpper(f, p, q, h, m, e);
    ScaleTwiceLower(f, p, q, h, m, e);
    if e > d {
      MulMono(d + 1, e, h);
    }
    if d > e + 1 {
      MulMono(e + 2, d, h);
    }
  }

  lemma ScaleTwiceUpper(f: nat, p: nat, q: nat, h: nat, m: nat, e: nat)
    requires h > 0 && p > 0 && h * m <= f * p && p * e <= m * q
    ensures h * e <= f * q
  {
    MulMono(p * e, m * q, h);
    MulMono(h * m, f * p, q);
    assert p * (h * e) == p * e * h;
    assert m * q * h == h * m * q;
    assert f * p * q == p * (f * q);
    CancelFactor(p, h * e, f * q);
  }

  lemma ScaleTwiceLower(f: nat, p: nat, q: nat, h: nat, m: nat, e: nat)
    requires h > 0 && 0 < q <= p && f * p < h * m + h && m * q < p * e + p
    ensures f * q < h * e + 2 * h
  {
    InnerLoss(f, p, q, h, m);
    OuterLoss(p, q, h, m, e);
    assert p * (h * e + 2 * h) == p * (h * e) + 2 * (p * h);
    CancelStrictly(p, f * q, h * e + 2 * h);
  }

  lemma InnerLoss(f: nat, p: nat, q: nat, h: nat, m: nat)
    requires 0 < q <= p && f * p < h * m + h
    ensures p * (f * q) < h * (m * q) + p * h
  {
    MulMono(f * p + 1, h * m + h, q);
    assert (f * p + 1) * q == p * (f * q) + q;
    assert (h * m + h) * q == h * (m * q) + q * h;
    MulMono(q, p, h);
  }

  lemma OuterLoss(p: nat, q: nat, h: nat, m: nat, e: nat)
    requires m * q < p * e + p
    ensures h * (m * q) <= p * (h * e) + p * h
  {
    MulMono(m * q, p * e + p, h);
    assert (p * e + p) * h == p * (h * e) + p * h;
  }

  lemma CancelStrictly(p: nat, a: int, b: int)
    requires p * a < p * b
    ensures a < b
  {
    if a >= b {
      MulMono(b, a, p);
    }
  }

  lemma CancelFactor(p: nat, a: int, b: int)
    requires p > 0 && p * a <= p * b
    ensures a <= b
  {
    if a > b {
      MulMono(b + 1, a, p);
    }
  }

  /** Going through picoseconds costs at most one unit of the binary fraction. */
  lemma ErfWithinOneUnit(hz: Word32, cycles: nat)
    requires hz > 0
    ensures var direct := cycles % hz * 0x1_0000_0000 / hz;
            direct - 1 <= ErfFraction(ToPicoseconds(hz, cycles).frac) <= direct
  {
    hide ToPicoseconds, ErfFraction;
    PicosecondsAreExact(hz, cycles);
    ErfFractionIsExact(Scale(cycles % hz, PICOS, hz));
    ScaleTwice(cycles % hz, PICOS, TWO_32, hz);
  }

  lemma DivMono(a: nat, b: nat, c: nat)
    requires a <= b && c > 0
    ensures a / c <= b / c
  {
    DivBounds(a, c);
    DivBounds(b, c);
    if a / c > b / c {
      MulMono(b / c + 1, a / c, c);
    }
  }

  /** Later cycles never get an earlier ERF time. */
  lemma ErfTimeIsMonotone(hz: Word32, c1: nat, c2: nat)
    requires hz > 0 && c1 <= c2
    ensures ErfTime(hz, c1) <= ErfTime(hz, c2)
  {
    hide ToPicoseconds, ErfFraction;
    PicosecondsAreExact(hz, c1);
    PicosecondsAreExact(hz, c2);
    DivMono(c1, c2, hz);
    if c1 / hz == c2 / hz {
      SameQuotient(hz, c1, c2);
      ScaleMono(c1 % hz, c2 % hz, PICOS, hz);
      var ps1, ps2 := Scale(c1 % hz, PICOS, hz), Scale(c2 % hz, PICOS, hz);
      ErfFractionIsExact(ps1);
      ErfFractionIsExact(ps2);
      ScaleMono(ps1, ps2, TWO_32, PICOS);
    }
  }

  lemma SameQuotient(h: nat, a: nat, b: nat)
    requires h > 0 && a <= b && a / h == b / h
    ensures a % h <= b % h
  {
  }

  // ---------------------------------------------------------------------------------------------
  // Time stamps to counters and back
  // ---------------------------------------------------------------------------------------------

  /** `exanic_cycles_to_timespec` followed by the sum of `exanic_timestamp_to_counter`. */
  function ToNanoseconds(hz: Word32, cycles: nat): Word64
    requires hz > 0
  {
    (Mul64(cycles / hz, NANOS) + Mul64(cycles % hz, NANOS) / hz) % TWO_64
  }

  /** `exanic_counter_to_timestamp`. */
  function CounterToTimestamp(hz: Word32, counter: Word64): Word32 {
    (Mul64(counter / NANOS, hz) + Mul64(counter % NANOS, hz) / NANOS) % TWO_64 % TWO_32
  }

  /** The time of a cycle count in whole nanoseconds. */
  function Nanoseconds(hz: Word32, cycles: nat): nat
    requires hz > 0
  {
    var sec: nat := cycles / hz;
    sec * NANOS + Scale(cycles % hz, NANOS, hz)
  }

  /** Splitting off whole multiples before scaling loses nothing. */
  lemma SplitBase(s: nat, f: nat, p: nat, h: nat)
    requires h > 0
    ensures (s * h + f) * p / h == s * p + Scale(f, p, h)
  {
    DivBounds(f * p, h);
    var d := f * p / h;
    assert (s * h + f) * p == h * (s * p) + f * p by {
      assert (s * h + f) * p == s * h * p + f * p;
      MulAssociates(s, h, p);
      assert s * (h * p) == h * (s * p);
    }
    assert h * (s * p + d) == h * (s * p) + h * d;
    DivUnique((s * h + f) * p, h, s * p + d);
  }

  lemma NanosecondsIsFloor(hz: Word32, cycles: nat)
    requires hz > 0
    ensures Nanoseconds(hz, cycles) == cycles * 1_000_000_000 / hz
  {
    hide Scale;
    var s, f := cycles / hz, cycles % hz;
    SplitBase(s, f, NANOS, hz);
    assert cycles == s * hz + f;
  }

  lemma NanosecondsAreExact(hz: Word32, cycles: nat)
    requires hz > 0 && Nanoseconds(hz, cycles) < TWO_64
    ensures ToNanoseconds(hz, cycles) == Nanoseconds(hz, cycles)
    ensures Scale(cycles % hz, NANOS, hz) < NANOS
  {
    var s, f := cycles / hz, cycles % hz;
    ScaleBelow(f, NANOS, hz);
    Mul64Exact(f, NANOS, TWO_32 - 1, NANOS);
    assert s * NANOS < TWO_64;
  }

  /** Converting a tick count of a clock of at most 1 GHz to nanoseconds and back gives the same tick,
      modulo 2^32, exactly when the tick falls on a whole nanosecond, and the tick before otherwise. */
  lemma CounterRoundTrip(hz: Word32, cycles: nat)
    requires 0 < hz <= NANOS && Nanoseconds(hz, cycles) < TWO_64
    ensures CounterToTimestamp(hz, ToNanoseconds(hz, cycles))
            == (if cycles % hz * NANOS % hz == 0 then cycles else cycles - 1) % TWO_32
  {
    hide Scale, CounterToTimestamp, ToNanoseconds;
    var s, f := cycles / hz, cycles % hz;
    NanosecondsAreExact(hz, cycles);
    FractionRoundTrip(hz, f);
    CounterSplits(hz, s, Scale(f, NANOS, hz));
    assert cycles == s * hz + f;
  }

  lemma CounterSplits(hz: Word32, s: nat, n: nat)
    requires n < NANOS && s * NANOS + n < TWO_64
    ensures CounterToTimestamp(hz, s * NANOS + n) == (s * hz + Scale(n, hz, NANOS)) % TWO_32
  {
    var counter := s * NANOS + n;
    assert counter / NANOS == s && counter % NANOS == n;
    Mul64Exact(n, hz, NANOS, TWO_32);
    WrapTwice(s * hz, Scale(n, hz, NANOS));
  }

  /** For every rate and every counter the result is the exact floor of counter * hz / 10^9, modulo 2^32. */
  lemma CounterIsFloor(hz: Word32, counter: Word64)
    ensures CounterToTimestamp(hz, counter) == counter * hz / 1_000_000_000 % 0x1_0000_0000
  {
    hide CounterToTimestamp, Scale;
    var s, n := counter / NANOS, counter % NANOS;
    CounterSplits(hz, s, n);
    SplitBase(s, n, hz, NANOS);
    assert counter == s * NANOS + n;
  }

  lemma WrapTwice(a: nat, b: nat)
    ensures (a % TWO_64 + b) % TWO_64 % TWO_32 == (a + b) % TWO_32
  {
  }

  /** The fractional part of the round trip. */
  lemma FractionRoundTrip(hz: nat, f: nat)
    requires 0 < hz <= NANOS && f < hz
    ensures Scale(Scale(f, NANOS, hz), hz, NANOS) == if f * NANOS % hz == 0 then f else f - 1
  {
    var n := Scale(f, NANOS, hz);
    assert hz * n + f * NANOS % hz == f * NANOS;
    assert n * hz == hz * n;
    if f * NANOS % hz == 0 {
      DivUnique(n * hz, NANOS, f);
    } else {
      DivUnique(n * hz, NANOS, f - 1);
    }
  }

  /** With a tick rate that divides 10^9 every tick survives the round trip. */
  lemma WholeNanosecondsRoundTrip(hz: Word32, cycles: nat)
    requires 0 < hz <= NANOS && NANOS % hz == 0 && Nanoseconds(hz, cycles) < TWO_64
    ensures CounterToTimestamp(hz, ToNanoseconds(hz, cycles)) == cycles % TWO_32
  {
    hide Scale, CounterToTimestamp, ToNanoseconds, Nanoseconds;
    CounterRoundTrip(hz, cycles);
    var k, f := NANOS / hz, cycles % hz;
    assert f * NANOS == hz * (f * k) by { assert NANOS == hz * k; }
    DivModUnique(f * NANOS, hz, f * k, 0);
  }

  /** `exanic_timestamp_to_counter`. */
  function TimestampToCounter(card: Card, hi1: Word32, lo: Word32, hi2: Word32, timestamp: Word32): Word64
    requires card.hasHighWord || card.infoTime.Some?
    requires card.hz > 0 && ExpandTimestamp(card, hi1, lo, hi2, timestamp) >= 0
  {
    ToNanoseconds(card.hz, ExpandTimestamp(card, hi1, lo, hi2, timestamp))
  }

  /** A hardware time stamp survives the conversion to nanoseconds and back up to one tick. */
  lemma TimestampCounterRoundTrip(card: Card, hi1: Word32, lo: Word32, hi2: Word32, timestamp: Word32)
    requires card.hasHighWord || card.infoTime.Some?
    requires 0 < card.hz <= NANOS && ExpandTimestamp(card, hi1, lo, hi2, timestamp) >= 0
    requires Nanoseconds(card.hz, ExpandTimestamp(card, hi1, lo, hi2, timestamp)) < TWO_64
    ensures var t := ExpandTimestamp(card, hi1, lo, hi2, timestamp);
            CounterToTimestamp(card.hz, TimestampToCounter(card, hi1, lo, hi2, timestamp))
            == (if t % card.hz * NANOS % card.hz == 0 then timestamp else (timestamp - 1) % TWO_32)
  {
    hide CounterToTimestamp, ToNanoseconds, Nanoseconds, ReadHwTime64;
    var t := ExpandTimestamp(card, hi1, lo, hi2, timestamp);
    CounterRoundTrip(card.hz, t);
    hide Expand;
    ExpandKeepsLowWord(ReadHwTime64(hi1, lo, hi2), timestamp);
    if card.infoTime.Some? {
      ExpandKeepsLowWord(card.infoTime.value, timestamp);
    }
  }

  lemma ExpandKeepsLowWord(tick: int, timestamp: Word32)
    ensures Expand(tick, timestamp) % TWO_32 == timestamp
    ensures (Expand(tick, timestamp) - 1) % TWO_32 == (timestamp - 1) % TWO_32
  {
  }
}
