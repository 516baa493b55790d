/**
  The receive stream by absolute position: which chunk lies in which slot of the ring, what its
  generation number says, and what a frame is.

  The log holds every chunk whose header the device has written, from the chunks that were in the ring
  when it was mapped.  Its first lap is the uninitialized ring: one uniform generation, and lengths that
  are not zero.
 */
module RxStream {
  import opened Words

  const NUM_CHUNKS := 0x4000
  const PAYLOAD_SIZE := 120

  datatype Info = Info(timestamp: Word32, status: Byte, length: Byte, matchedFilter: Byte)
  datatype Chunk = Chunk(payload: seq<Byte>, info: Info)
  datatype Header = Header(info: Info, generation: Byte)

  predicate GoodChunk(c: Chunk) {
    |c.payload| == PAYLOAD_SIZE && c.info.length <= PAYLOAD_SIZE
  }

  ghost predicate GoodLog(log: seq<Chunk>) {
    && |log| >= NUM_CHUNKS
    && (forall p :: 0 <= p < |log| ==> GoodChunk(log[p]))
    && (forall p :: 0 <= p < NUM_CHUNKS ==> log[p].info.length != 0)
  }

  /** The lap a position belongs to. */
  function Lap(p: nat): nat { p / NUM_CHUNKS }

  function Slot(p: nat): (s: nat)
    ensures s < NUM_CHUNKS
  {
    p % NUM_CHUNKS
  }

  /** The 8-bit generation number of a position, when the uninitialized lap has number `base`. */
  function Gen(base: Byte, p: nat): Byte { (base + Lap(p)) % TWO_8 }

  function PrevGen(g: Byte): Byte { (g - 1) % TWO_8 }

  function NextGen(g: Byte): Byte { (g + 1) % TWO_8 }

  /** The position last written to a slot once `w` chunks have been written. */
  function Latest(w: nat, slot: nat): (p: nat)
    requires w >= NUM_CHUNKS && slot < NUM_CHUNKS
    ensures Slot(p) == slot && w - NUM_CHUNKS <= p < w
  {
    w - 1 - (w - 1 - slot) % NUM_CHUNKS
  }

  /** The only position with that slot among the last `NUM_CHUNKS` written. */
  lemma LatestUnique(w: nat, p: nat)
    requires w >= NUM_CHUNKS && w - NUM_CHUNKS <= p < w
    ensures Latest(w, Slot(p)) == p
  {
  }

  lemma LatestStep(w: nat, slot: nat)
    requires w >= NUM_CHUNKS && slot < NUM_CHUNKS
    ensures Latest(w + 1, slot) == if slot == Slot(w) then w else Latest(w, slot)
  {
    if slot == Slot(w) {
      LatestUnique(w + 1, w);
    } else {
      LatestUnique(w + 1, Latest(w, slot));
    }
  }

  /** What a slot shows for a position the writer may or may not have reached or passed: the position
      itself or one a whole number of laps away. */
  lemma LatestRelative(w: nat, p: nat)
    requires w >= NUM_CHUNKS && p <= w
    ensures Latest(w, Slot(p)) == p + NUM_CHUNKS * (Lap(Latest(w, Slot(p))) - Lap(p))
    ensures Lap(Latest(w, Slot(p))) >= Lap(p) - 1
    ensures p < w ==> Lap(Latest(w, Slot(p))) >= Lap(p) && Latest(w, Slot(p)) >= p
    ensures Latest(w, Slot(p)) == p <==> p < w <= p + NUM_CHUNKS
    ensures Latest(w, Slot(p)) < p <==> w == p
  {
  }

  // ---------------------------------------------------------------------------------------------
  // Lap detection
  // ---------------------------------------------------------------------------------------------

  /** The reader's three-way test is exact: with the writer at most 255 laps past the reader's position,
      the generation found in the slot equals the expected one exactly when the slot holds that position,
      equals the one before exactly when the position has not been written, and is anything else exactly
      when the position was overwritten. */
  lemma LapDetectionIsExact(base: Byte, w: nat, p: nat)
    requires NUM_CHUNKS <= w && p <= w <= p + 255 * NUM_CHUNKS
    ensures var found := Gen(base, Latest(w, Slot(p)));
            && (found == Gen(base, p) <==> p < w <= p + NUM_CHUNKS)
            && (found == PrevGen(Gen(base, p)) <==> w == p)
            && (found != Gen(base, p) && found != PrevGen(Gen(base, p)) <==> w > p + NUM_CHUNKS)
  {
    LatestRelative(w, p);
    GenDistance(base, Latest(w, Slot(p)), p);
  }

  /** The reader's three-way test tells the truth about position `p`. */
  predicate TestIsRight(base: Byte, w: nat, p: nat)
    requires NUM_CHUNKS <= w
  {
    var found := Gen(base, Latest(w, Slot(p)));
    && (found == Gen(base, p) <==> p < w <= p + NUM_CHUNKS)
    && (found == PrevGen(Gen(base, p)) <==> w == p)
    && (found != Gen(base, p) && found != PrevGen(Gen(base, p)) <==> w > p + NUM_CHUNKS)
  }

  /** Exactly when the test is right, wherever the writer is: if the position has not been overwritten, or
      if the slot now holds a lap that is neither a multiple of 256 laps later nor one less than that. */
  lemma TestIsRightIff(base: Byte, w: nat, p: nat)
    requires NUM_CHUNKS <= w && p <= w
    ensures var d := Lap(Latest(w, Slot(p))) - Lap(p);
            TestIsRight(base, w, p) <==> w <= p + NUM_CHUNKS || (d % 256 != 0 && d % 256 != 255)
  {
    LatestRelative(w, p);
    var q := Latest(w, Slot(p));
    GenByDistance(base, q, p);
    if w <= p + NUM_CHUNKS {
      LapDetectionIsExact(base, w, p);
    }
  }

  lemma GenByDistance(base: Byte, q: nat, p: nat)
    ensures Gen(base, q) == Gen(base, p) <==> (Lap(q) - Lap(p)) % 256 == 0
    ensures Gen(base, q) == PrevGen(Gen(base, p)) <==> (Lap(q) - Lap(p)) % 256 == 255
  {
    hide Lap;
    var x, y := base + Lap(q), base + Lap(p);
    assert x - y == Lap(q) - Lap(p);
    PrevByte(y);
    Congruent(x, y);
    Congruent(x, y - 1);
    NextByte(x - y);
  }

  lemma Congruent(x: int, y: int)
    ensures x % TWO_8 == y % TWO_8 <==> (x - y) % TWO_8 == 0
  {
  }

  lemma NextByte(d: int)
    ensures (d + 1) % TWO_8 == 0 <==> d % TWO_8 == 255
  {
  }

  /** Generation numbers tell laps apart that are less than 256 laps from each other. */
  lemma GenDistance(base: Byte, q: nat, p: nat)
    ensures Lap(q) == Lap(p) ==> Gen(base, q) == Gen(base, p)
    ensures Lap(q) == Lap(p) - 1 ==> Gen(base, q) == PrevGen(Gen(base, p))
    ensures Gen(base, q) == Gen(base, p) && -256 < Lap(q) - Lap(p) < 256 ==> Lap(q) == Lap(p)
    ensures Gen(base, q) == PrevGen(Gen(base, p)) && -257 < Lap(q) - Lap(p) < 255 ==> Lap(q) == Lap(p) - 1
  {
    hide Lap;
    var x, y := base + Lap(q), base + Lap(p);
    PrevByte(y);
    if x % TWO_8 == y % TWO_8 && -TWO_8 < x - y < TWO_8 {
      ByteDistance(x, y);
    }
    if x % TWO_8 == (y - 1) % TWO_8 && -TWO_8 < x - (y - 1) < TWO_8 {
      ByteDistance(x, y - 1);
    }
  }

  lemma PrevByte(x: nat)
    ensures (x % TWO_8 - 1) % TWO_8 == (x - 1) % TWO_8
  {
  }

  lemma ByteDistance(x: int, y: int)
    requires x % TWO_8 == y % TWO_8 && -TWO_8 < x - y < TWO_8
    ensures x == y
  {
  }

  /** The bound of 255 laps cannot be relaxed: one chunk further and an overwritten position is taken for
      one that has not been written. */
  lemma LapDetectionIsSharp(base: Byte, p: nat)
    requires p >= NUM_CHUNKS
    ensures Gen(base, Latest(p + 255 * NUM_CHUNKS + 1, Slot(p))) == PrevGen(Gen(base, p))
  {
    var q := p + 255 * NUM_CHUNKS;
    assert Slot(q) == Slot(p) && Lap(q) == Lap(p) + 255;
    LatestUnique(q + 1, q);
    hide Latest, Lap, Gen, Slot;
    GenByDistance(base, q, p);
  }

  // ---------------------------------------------------------------------------------------------
  // Frames
  // ---------------------------------------------------------------------------------------------

  /** The chunk at a position ends a frame. */
  predicate IsEnd(log: seq<Chunk>, p: int) {
    0 <= p < |log| && log[p].info.length != 0
  }

  /** Positions `p..e` hold one frame, `e` being its last chunk. */
  ghost predicate IsFrame(log: seq<Chunk>, p: nat, e: int) {
    p <= e && IsEnd(log, e) && forall i :: p <= i < e ==> !IsEnd(log, i)
  }

  /** A frame is determined by where it starts. */
  lemma FrameUnique(log: seq<Chunk>, p: nat, e: int, e': int)
    requires IsFrame(log, p, e) && IsFrame(log, p, e')
    ensures e == e'
  {
  }

  /** The concatenated payloads of full chunks. */
  ghost function Body(log: seq<Chunk>, p: nat, q: nat): (b: seq<Byte>)
    requires GoodLog(log) && p <= q <= |log|
    ensures |b| == 120 * (q - p)
    decreases q
  {
    if p == q then [] else Body(log, p, q - 1) + log[q - 1].payload
  }

  /** The bytes of the frame at `p..e`. */
  ghost function FrameBytes(log: seq<Chunk>, p: nat, e: nat): seq<Byte>
    requires GoodLog(log) && p <= e < |log|
  {
    Body(log, p, e) + log[e].payload[..log[e].info.length]
  }

  /** What was written does not change when more is written. */
  lemma {:induction false} BodyPrefix(log: seq<Chunk>, log': seq<Chunk>, p: nat, q: nat)
    requires GoodLog(log) && GoodLog(log') && log <= log' && p <= q <= |log|
    ensures Body(log', p, q) == Body(log, p, q)
    decreases q
  {
    if p < q {
      BodyPrefix(log, log', p, q - 1);
    }
  }
}
