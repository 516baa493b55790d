/** Exactly when a recovery can move the reader back. */
module RxRecovery {
  import opened Words
  import opened RxStream
  import opened RxScan
  import opened RxFrame
  import opened RxRuns

  /** The reader at `p0` has copied the next frame, finds another generation in the sentinel's slot, and
      scans the ring while the device writes on. */
  ghost predicate Recovery(log0: seq<Chunk>, p0: nat, s0: nat, logs: seq<seq<Chunk>>, base: Byte) {
    && WholeScan(logs, base)
    && log0 <= logs[0] && (exists e: nat :: IsFrame(logs[0], p0, e))
    && Gen(base, Latest(|logs[0]|, Slot(s0))) != Gen(base, s0)
    && InReach(|logs[0]|, logs[|logs| - 1])
  }

  /** The position the scan leaves the reader at. */
  ghost function Landing(logs: seq<seq<Chunk>>, base: Byte): nat
    requires Growing(logs)
  {
    Outcome(Looked(logs, base, |logs|)) + 1
  }

  // ---------------------------------------------------------------------------------------------
  // A device that laps the ring during the scan
  // ---------------------------------------------------------------------------------------------

  /** `n` chunks of a frame that goes on. */
  function Middle(n: nat): seq<Chunk> {
    seq(n, _ => Chunk(seq(PAYLOAD_SIZE, _ => 0), Info(0, 0, 0, 0)))
  }

  /** A frame of one chunk. */
  function Single(): Chunk {
    Chunk(seq(PAYLOAD_SIZE, _ => 0), Info(0, 0, 1, 0))
  }

  lemma MiddleIsGood(log: seq<Chunk>, n: nat)
    requires GoodLog(log)
    ensures GoodLog(log + Middle(n))
    ensures forall p :: |log| <= p < |log| + n ==> !IsEnd(log + Middle(n), p)
  {
  }

  /** The stream once the reader can have copied its next frame. */
  ghost function WithFrame(log0: seq<Chunk>, p0: nat): seq<Chunk> {
    if exists e: nat :: p0 <= e && IsEnd(log0, e) then log0 else log0 + [Single()]
  }

  /** The stream when the scan begins: the next frame, and just enough to overwrite the sentinel. */
  ghost function Before(log0: seq<Chunk>, p0: nat, s0: nat): seq<Chunk> {
    var log := WithFrame(log0, p0);
    log + Middle(if s0 + NUM_CHUNKS >= |log| then s0 + NUM_CHUNKS + 1 - |log| else 0)
  }

  lemma WithFrameFacts(log0: seq<Chunk>, p0: nat)
    requires GoodLog(log0) && p0 <= |log0|
    ensures GoodLog(WithFrame(log0, p0)) && log0 <= WithFrame(log0, p0) && |WithFrame(log0, p0)| == Needed(log0, p0)
    ensures exists e: nat :: p0 <= e && IsEnd(WithFrame(log0, p0), e)
  {
    assert GoodChunk(Single());
    if !exists e: nat :: p0 <= e && IsEnd(log0, e) {
      assert IsEnd(WithFrame(log0, p0), |log0|);
    }
  }

  /** The first frame end from `p` on ends the frame at `p`. */
  lemma {:induction false} FirstEnd(log: seq<Chunk>, p: nat, e: nat) returns (f: nat)
    requires p <= e && IsEnd(log, e)
    ensures IsFrame(log, p, f)
    decreases e
  {
    if i: nat :| p <= i < e && IsEnd(log, i) {
      f := FirstEnd(log, p, i);
    } else {
      f := e;
    }
  }

  lemma BeforeFacts(log0: seq<Chunk>, p0: nat, s0: nat, x: nat)
    requires GoodLog(log0) && p0 <= |log0| && Risk(log0, p0, s0, x)
    ensures var log1 := Before(log0, p0, s0);
            && GoodLog(log1) && log0 <= log1 && (exists e: nat :: IsFrame(log1, p0, e))
            && s0 + NUM_CHUNKS < |log1| <= x + NUM_CHUNKS && |log1| <= Needed(log0, p0) + NUM_CHUNKS
            && (|log1| == s0 + NUM_CHUNKS + 1 || |log1| == Needed(log0, p0))
            && Lap(|log1| - 1) == Lap(x) + 1 && IsEnd(log1, x)
  {
    hide Needed, WithFrame, IsFrame;
    var log, log1 := WithFrame(log0, p0), Before(log0, p0, s0);
    WithFrameFacts(log0, p0);
    MiddleIsGood(log, if s0 + NUM_CHUNKS >= |log| then s0 + NUM_CHUNKS + 1 - |log| else 0);
    LapBetween(x, p0 - 1, |log1| - 1);
    var e: nat :| p0 <= e && IsEnd(log, e);
    assert IsEnd(log1, e);
    var f := FirstEnd(log1, p0, e);
  }

  lemma LapBetween(x: nat, y: nat, z: nat)
    requires Lap(x) < Lap(y) && y <= z < x + NUM_CHUNKS
    ensures Lap(z) == Lap(x) + 1
  {
  }

  /** Slots from the device's position on still hold the lap of `x`. */
  lemma OldPart(w: nat, x: nat, slot: nat)
    requires NUM_CHUNKS <= w && x < w <= x + NUM_CHUNKS && Lap(w - 1) == Lap(x) + 1
    requires Slot(w) <= slot < NUM_CHUNKS
    ensures Lap(Latest(w, slot)) == Lap(x)
    ensures 0 < Slot(w) <= Slot(x)
  {
    LatestRelative(w, x);
  }

  /** While the lap stays the same the scan sees no break and keeps the first frame end it finds. */
  lemma SameLapLook(log: seq<Chunk>, sc: Scan, base: Byte, q: nat)
    requires q < |log| && !sc.beforeBreak && (sc.chunk < NUM_CHUNKS ==> Lap(q) == Lap(sc.last))
    ensures var sc' := Look(log, sc, base, q);
            && !sc'.beforeBreak && sc'.last == q && sc'.chunk == Slot(q)
            && sc'.eofFound == (sc.eofFound || IsEnd(log, q))
            && sc'.eof == if IsEnd(log, q) && !sc.eofFound then q else sc.eof
  {
  }

  /** The first part of the scan, before the device moves on: it settles for a frame end of the old lap. */
  lemma {:induction false} FirstPart(logs: seq<seq<Chunk>>, base: Byte, log1: seq<Chunk>, x: nat, n: nat)
    requires Growing(logs) && 0 < n <= |logs| && GoodLog(log1) && n <= NUM_CHUNKS - Slot(|log1|)
    requires forall i :: 0 <= i < n ==> logs[i] == log1
    requires x < |log1| <= x + NUM_CHUNKS && Lap(|log1| - 1) == Lap(x) + 1 && IsEnd(log1, x)
    ensures var sc := Looked(logs, base, n);
            && sc.chunk == NUM_CHUNKS - n && !sc.beforeBreak && Lap(sc.last) == Lap(x)
            && (sc.eofFound ==> Lap(sc.eof) == Lap(x))
            && (Slot(x) >= NUM_CHUNKS - n ==> sc.eofFound)
    decreases n
  {
    var slot := NUM_CHUNKS - n;
    OldPart(|log1|, x, slot);
    var q := Latest(|log1|, slot);
    if slot == Slot(x) {
      LatestUnique(|log1|, x);
    }
    if n > 1 {
      FirstPart(logs, base, log1, x, n - 1);
    }
    assert logs[n - 1] == log1;
    hide Look, Latest;
    SameLapLook(log1, Looked(logs, base, n - 1), base, q);
  }

  /** Slots before the device's position are overwritten when it writes a whole lap. */
  lemma NewPart(w: nat, slot: nat)
    requires NUM_CHUNKS <= w && slot < NUM_CHUNKS
    ensures w <= Latest(w + NUM_CHUNKS, slot) < w + NUM_CHUNKS
  {
  }

  /** A chunk that ends no frame does not change the candidate. */
  lemma KeepsCandidate(log: seq<Chunk>, sc: Scan, base: Byte, q: nat)
    requires q < |log| && !IsEnd(log, q) && sc.eofFound
    ensures var sc' := Look(log, sc, base, q);
            sc'.eofFound && sc'.eof == sc.eof && sc'.last == q
  {
  }

  /** The rest of the scan, after the device has lapped the ring without ending a frame: the scan keeps
      the frame end it has found. */
  lemma {:induction false} SecondPart(logs: seq<seq<Chunk>>, base: Byte, log1: seq<Chunk>, log2: seq<Chunk>, x: nat, n: nat)
    requires Growing(logs) && NUM_CHUNKS - Slot(|log1|) <= n <= |logs| && GoodLog(log1)
    requires forall i :: 0 <= i < |logs| ==> logs[i] == if i < NUM_CHUNKS - Slot(|log1|) then log1 else log2
    requires x < |log1| <= x + NUM_CHUNKS && Lap(|log1| - 1) == Lap(x) + 1 && IsEnd(log1, x)
    requires |log2| == |log1| + NUM_CHUNKS && forall p :: |log1| <= p < |log2| ==> !IsEnd(log2, p)
    ensures var sc := Looked(logs, base, n);
            && sc.eofFound && Lap(sc.eof) == Lap(x)
            && (n > NUM_CHUNKS - Slot(|log1|) ==> !IsEnd(log2, sc.last))
    decreases n
  {
    OldPart(|log1|, x, NUM_CHUNKS - 1);
    if n == NUM_CHUNKS - Slot(|log1|) {
      FirstPart(logs, base, log1, x, n);
    } else {
      SecondPart(logs, base, log1, log2, x, n - 1);
      NewPart(|log1|, NUM_CHUNKS - n);
      assert logs[n - 1] == log2;
      hide Look;
      KeepsCandidate(log2, Looked(logs, base, n - 1), base, Latest(|log2|, NUM_CHUNKS - n));
    }
  }

  /** The looks of a scan in the middle of which the device writes a whole lap. */
  ghost function Interrupted(log1: seq<Chunk>): seq<seq<Chunk>> {
    seq(NUM_CHUNKS, i => if i < NUM_CHUNKS - Slot(|log1|) then log1 else log1 + Middle(NUM_CHUNKS))
  }

  lemma InterruptedScan(log1: seq<Chunk>, x: nat, base: Byte)
    requires GoodLog(log1) && x < |log1| <= x + NUM_CHUNKS && Lap(|log1| - 1) == Lap(x) + 1 && IsEnd(log1, x)
    ensures WholeScan(Interrupted(log1), base)
    ensures Interrupted(log1)[0] == log1 && Interrupted(log1)[NUM_CHUNKS - 1] == log1 + Middle(NUM_CHUNKS)
    ensures Lap(Landing(Interrupted(log1), base) - 1) == Lap(x)
  {
    hide Looked;
    var logs, log2 := Interrupted(log1), log1 + Middle(NUM_CHUNKS);
    MiddleIsGood(log1, NUM_CHUNKS);
    OldPart(|log1|, x, NUM_CHUNKS - 1);
    var turn := NUM_CHUNKS - Slot(|log1|);
    assert Growing(logs);
    forall n: nat | 0 < n < NUM_CHUNKS
      ensures !Stops(logs[n - 1], Looked(logs, base, n))
    {
      if n <= turn {
        FirstPart(logs, base, log1, x, n);
      } else {
        SecondPart(logs, base, log1, log2, x, n);
      }
    }
    SecondPart(logs, base, log1, log2, x, NUM_CHUNKS);
  }

  /** A reader at risk can be moved back: there is a way for the device to write that makes the sentinel
      check fail and the scan settle for a frame that was read before. */
  lemma CanMoveBack(log0: seq<Chunk>, p0: nat, s0: nat, base: Byte) returns (logs: seq<seq<Chunk>>)
    requires GoodLog(log0) && p0 <= |log0| <= s0 + 255 * NUM_CHUNKS && AtRisk(log0, p0, s0)
    ensures Recovery(log0, p0, s0, logs, base) && Landing(logs, base) < p0
    ensures |logs[|logs| - 1]| == |logs[0]| + NUM_CHUNKS
    ensures |logs[0]| == s0 + NUM_CHUNKS + 1 || |logs[0]| == Needed(log0, p0)
  {
    hide WholeScan, Looked, Outcome, Gen, Latest, IsFrame, Before;
    var x: nat :| Risk(log0, p0, s0, x);
    BeforeFacts(log0, p0, s0, x);
    var log1 := Before(log0, p0, s0);
    InterruptedScan(log1, x, base);
    logs := Interrupted(log1);
    SentinelCheck(base, |log1|, s0);
  }

  /** A recovery of a reader that is not at risk never moves it back. */
  lemma RecoveryMovesForward(log0: seq<Chunk>, p0: nat, s0: nat, logs: seq<seq<Chunk>>, base: Byte)
    requires s0 < p0 && Aligned(log0, p0, s0) && Recovery(log0, p0, s0, logs, base)
    requires !AtRisk(log0, p0, s0)
    ensures p0 <= Landing(logs, base)
  {
    RecoveryFacts(log0, p0, s0, logs, base);
    NotBehind(log0, logs[|logs| - 1], |logs[0]|, p0, s0, Outcome(Looked(logs, base, |logs|)));
  }

  lemma RecoveryFacts(log0: seq<Chunk>, p0: nat, s0: nat, logs: seq<seq<Chunk>>, base: Byte)
    requires s0 < p0 <= |log0| && Recovery(log0, p0, s0, logs, base)
    ensures var w, log := |logs[0]|, logs[|logs| - 1];
            && GoodLog(log) && log0 <= log && |log0| <= w && p0 < w && s0 + NUM_CHUNKS < w && Needed(log0, p0) <= w
            && Recovered(w, log, Outcome(Looked(logs, base, |logs|)))
  {
    hide Needed, Recovered, Outcome, Looked, Latest, Gen;
    WholeScanRecovers(logs, base);
    GrowingPrefix(logs, |logs| - 1);
    SentinelCheck(base, |logs[0]|, s0);
    var e: nat :| IsFrame(logs[0], p0, e);
    NeededMet(log0, logs[0], p0, e);
  }

  /** Exactly when a recovery can move a reader back, for every aligned reader whose sentinel the device is at
      most 255 laps past: if and only if the reader is at risk, which shows in where the frames that it
      truncated since the sentinel ended. */
  lemma MovesBackIffAtRisk(log0: seq<Chunk>, p0: nat, s0: nat, base: Byte)
    requires GoodLog(log0) && s0 < p0 && Aligned(log0, p0, s0) && |log0| <= s0 + 255 * NUM_CHUNKS
    ensures (exists logs :: Recovery(log0, p0, s0, logs, base) && Landing(logs, base) < p0) <==> AtRisk(log0, p0, s0)
  {
    hide Landing, AtRisk;
    if AtRisk(log0, p0, s0) {
      var logs := CanMoveBack(log0, p0, s0, base);
    } else {
      forall logs | Recovery(log0, p0, s0, logs, base)
        ensures p0 <= Landing(logs, base)
      {
        RecoveryMovesForward(log0, p0, s0, logs, base);
      }
    }
  }

  // ---------------------------------------------------------------------------------------------
  // A run in which it happens
  // ---------------------------------------------------------------------------------------------

  /** A call of a reader at risk that reports an overflow and leaves the reader before where it was: the one
      whose recovery looks at the ring as in `CanMoveBack`. */
  lemma CallMovesBack(log0: seq<Chunk>, p0: nat, s0: nat, base: Byte) returns (c: Call, logs: seq<seq<Chunk>>)
    requires GoodLog(log0) && s0 < p0 <= |log0| <= s0 + 255 * NUM_CHUNKS && AtRisk(log0, p0, s0)
    ensures Recovery(log0, p0, s0, logs, base)
    ensures c == Call(log0, logs[|logs| - 1], p0, s0, Landing(logs, base), Landing(logs, base) - 1, Overflow, [])
    ensures Kept(c) && c.p1 < c.p0
  {
    hide Recovered, Looked, Needed, IsFrame;
    logs := CanMoveBack(log0, p0, s0, base);
    RecoveryFacts(log0, p0, s0, logs, base);
    NeededBounds(log0, p0);
    var last := Outcome(Looked(logs, base, |logs|));
    SpecOverflow(log0, logs[|logs| - 1], p0, s0, |logs[0]|, last, []);
    c := Call(log0, logs[|logs| - 1], p0, s0, last + 1, last, Overflow, []);
  }

  lemma NeededBounds(log: seq<Chunk>, p: nat)
    ensures |log| <= Needed(log, p) <= |log| + 1
  {
  }

  /** Two laps and one chunk of frames of one byte each. */
  ghost function Singles(): seq<Chunk> {
    seq(2 * NUM_CHUNKS + 1, _ => Single())
  }

  lemma SinglesAreGood()
    ensures GoodLog(Singles()) && forall p: nat :: p < |Singles()| ==> IsFrame(Singles(), p, p)
  {
    assert GoodChunk(Single());
  }

  /** A call without a buffer truncates the next frame. */
  lemma TruncatedCall(p: nat, s: nat) returns (c: Call)
    requires s < p < |Singles()|
    ensures c == Call(Singles(), Singles(), p, s, p + 1, s, Truncated, []) && Kept(c)
  {
    SinglesAreGood();
    assert |FrameBytes(Singles(), p, p)| == 1;
    SpecTruncated(Singles(), Singles(), p, s, p + 1, []);
    c := Call(Singles(), Singles(), p, s, p + 1, s, Truncated, []);
  }

  /** What any call without a buffer does there, by `CompleteFrameIsDelivered`: no other outcome keeps the
      promises of the frame reader. */
  lemma TruncatedCallIsForced(c: Call, polls: nat)
    requires c.log0 == c.log == Singles() && c.s0 < c.p0 < |Singles()| && |Singles()| <= c.s0 + NUM_CHUNKS && c.content == []
    requires ReceiveSpec(c.log0, c.log, c.p0, c.s0, c.p1, c.s1, c.r, c.content)
    requires c.r.Waiting? ==> polls < c.p1 - c.p0 || StillMissing(c.log0, c.log, c.p0, c.p1)
    ensures c == Call(Singles(), Singles(), c.p0, c.s0, c.p0 + 1, c.s0, Truncated, [])
  {
    SinglesAreGood();
    assert |FrameBytes(Singles(), c.p0, c.p0)| == 1;
    CompleteFrameIsDelivered(c.log0, c.log, c.p0, c.s0, c.p1, c.s1, c.r, [], polls, c.p0);
  }

  /** A run that moves back: the reader truncates the last frame of one lap and the first of the next, and
      the following overflow takes it back to a frame it has passed.  Without a buffer and with the device at
      rest the first two calls have no other outcome, and the third makes the recovery `logs`. */
  lemma TruncatingRunMovesBack(base: Byte) returns (calls: seq<Call>, logs: seq<seq<Chunk>>)
    ensures CompleteRun(calls) && |calls| == 3
    ensures calls[0].s0 + 1 == calls[0].p0 == 2 * NUM_CHUNKS - 1
    ensures forall i :: 0 <= i < 2 ==>
              && calls[i].log0 == calls[i].log == Singles() && calls[i].content == []
              && calls[i].r.Truncated? && |Singles()| <= calls[i].s0 + NUM_CHUNKS
    ensures calls[2].log0 == Singles() && Recovery(Singles(), calls[2].p0, calls[2].s0, logs, base)
    ensures calls[2].log == logs[|logs| - 1] && calls[2].p1 == Landing(logs, base)
    ensures calls[2].r.Overflow? && calls[2].p1 < calls[2].p0
  {
    hide Kept, Needed, IsFrame, Recovery, Landing;
    var s := 2 * NUM_CHUNKS - 2;
    SinglesAreGood();
    var c0 := TruncatedCall(s + 1, s);
    var c1 := TruncatedCall(s + 2, s);
    NeededBounds(Singles(), s + 3);
    RiskHere(s);
    var c2;
    c2, logs := CallMovesBack(Singles(), s + 3, s, base);
    RecoveryLogs(Singles(), s + 3, s, logs, base);
    calls := [c0, c1, c2];
  }

  lemma RecoveryLogs(log0: seq<Chunk>, p0: nat, s0: nat, logs: seq<seq<Chunk>>, base: Byte)
    requires Recovery(log0, p0, s0, logs, base)
    ensures |logs| > 0 && Growing(logs)
  {
  }

  lemma RiskHere(s: nat)
    requires s == 2 * NUM_CHUNKS - 2
    ensures Risk(Singles(), s + 3, s, s + 1)
  {
    hide Needed;
    SinglesAreGood();
    NeededBounds(Singles(), s + 3);
  }

  lemma {:induction false} GrowingPrefix(logs: seq<seq<Chunk>>, n: nat)
    requires Growing(logs) && n < |logs|
    ensures logs[0] <= logs[n]
    decreases n
  {
    if n > 0 {
      GrowingPrefix(logs, n - 1);
      assert logs[n - 1] <= logs[n];
    }
  }
}
