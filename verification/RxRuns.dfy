/** Runs of `exanic_receive_frame` calls: what a reader gets out of the stream over time. */
module RxRuns {
  import opened Words
  import opened RxStream
  import opened RxScan
  import opened RxFrame

  /** One call: the log, position and sentinel before and after it, its outcome and the caller's buffer. */
  datatype Call = Call(log0: seq<Chunk>, log: seq<Chunk>, p0: nat, s0: nat, p1: nat, s1: nat,
                       r: Received, content: seq<Byte>)

  /** The call kept what `ReceiveFrame` promises, and the device was not so far ahead that generation numbers
      came back: less than 256 laps past the chunk before the frame or, after a recovery, at most 255 laps
      past the sentinel or 254 past the frame. */
  ghost predicate Kept(c: Call) {
    && c.s0 < c.p0
    && ReceiveSpec(c.log0, c.log, c.p0, c.s0, c.p1, c.s1, c.r, c.content)
    && (c.r.Overflow? ==> CaughtUp(c.log0, c.log, c.p0, c.s0, c.p1, c.s1))
    && (if c.r.Overflow? then |c.log| <= c.s0 + 255 * NUM_CHUNKS || |c.log| <= c.p0 + 254 * NUM_CHUNKS
        else InTime(c.log, c.p0 - 1))
  }

  /** Calls follow each other; the device may write in between. */
  ghost predicate Run(calls: seq<Call>) {
    && (forall i :: 0 <= i < |calls| ==> Kept(calls[i]))
    && (forall i :: 0 < i < |calls| ==> Follows(calls[i - 1], calls[i]))
  }

  predicate Follows(c: Call, d: Call) {
    c.log <= d.log0 && c.p1 == d.p0 && c.s1 == d.s0
  }

  /** The call used up one frame, whether or not it could hand it out. */
  predicate Consumes(c: Call) {
    c.r.Frame? || c.r.Bad? || c.r.Truncated?
  }

  /** The ends of the frames that a run used up, in the order of the calls. */
  function Consumed(calls: seq<Call>): seq<int> {
    if calls == [] then
      []
    else
      var c := calls[|calls| - 1];
      Consumed(calls[..|calls| - 1]) + if Consumes(c) then [c.p1 - 1] else []
  }

  /** The frame ends among positions `p..q`, in order. */
  function Ends(log: seq<Chunk>, p: nat, q: nat): seq<int>
    requires p <= q
    decreases q
  {
    if p == q then [] else Ends(log, p, q - 1) + if IsEnd(log, q - 1) then [q - 1] else []
  }

  lemma {:induction false} EndsSplit(log: seq<Chunk>, p: nat, q: nat, r: nat)
    requires p <= q <= r
    ensures Ends(log, p, r) == Ends(log, p, q) + Ends(log, q, r)
    decreases r
  {
    if q < r {
      EndsSplit(log, p, q, r - 1);
    }
  }

  lemma {:induction false} NoEnds(log: seq<Chunk>, p: nat, q: nat)
    requires p <= q && NoEnd(log, p, q)
    ensures Ends(log, p, q) == []
    decreases q
  {
    if p < q {
      NoEnds(log, p, q - 1);
    }
  }

  lemma FrameEnds(log: seq<Chunk>, p: nat, e: nat)
    requires IsFrame(log, p, e)
    ensures Ends(log, p, e + 1) == [e]
  {
    NoEnds(log, p, e);
  }

  lemma {:induction false} EndsPrefix(log: seq<Chunk>, log': seq<Chunk>, p: nat, q: nat)
    requires log <= log' && p <= q <= |log|
    ensures Ends(log', p, q) == Ends(log, p, q)
    decreases q
  {
    if p < q {
      EndsPrefix(log, log', p, q - 1);
    }
  }

  // ---------------------------------------------------------------------------------------------
  // Without overflow: every frame, once, in order
  // ---------------------------------------------------------------------------------------------

  /** A call that does not overflow uses up exactly the frame ends it moves over. */
  lemma CallConsumes(c: Call)
    requires Kept(c) && !c.r.Overflow? && c.p0 <= |c.log|
    ensures c.p0 <= c.p1
    ensures c.r.Waiting? || c.p1 <= |c.log|
    ensures Ends(c.log, c.p0, c.p1) == Consumed([c])
  {
    if Consumes(c) {
      FrameEnds(c.log, c.p0, c.p1 - 1);
    } else {
      NoEnds(c.log, c.p0, c.p1);
    }
    assert Consumed([c]) == Consumed([]) + if Consumes(c) then [c.p1 - 1] else [];
  }

  lemma {:induction false} LogsGrow(calls: seq<Call>, i: nat, j: nat)
    requires Run(calls) && i <= j < |calls|
    ensures calls[i].log <= calls[j].log
    decreases j
  {
    assert Kept(calls[j]);
    if i < j {
      LogsGrow(calls, i, j - 1);
      assert Follows(calls[j - 1], calls[j]);
      assert calls[j - 1].log <= calls[j].log0 <= calls[j].log;
    }
  }

  /** Stream order: a run of calls without overflow uses up exactly the frames between where it started
      and where it ended: every one of them, each once, in the order in which they were written. */
  lemma {:induction false} NothingIsSkipped(calls: seq<Call>)
    requires Run(calls) && |calls| > 0 && calls[0].p0 <= |calls[0].log|
    requires forall i :: 0 <= i < |calls| ==> !calls[i].r.Overflow? && !calls[i].r.Waiting?
    ensures calls[0].p0 <= calls[|calls| - 1].p1 <= |calls[|calls| - 1].log|
    ensures Consumed(calls) == Ends(calls[|calls| - 1].log, calls[0].p0, calls[|calls| - 1].p1)
    decreases |calls|
  {
    hide ReceiveSpec, Ends, Consumes;
    var n := |calls| - 1;
    var c := calls[n];
    if n == 0 {
      assert Kept(c);
      CallConsumes(c);
      assert calls == [c];
    } else {
      var rest := calls[..n];
      assert Kept(c) && Follows(calls[n - 1], c);
      NothingIsSkipped(rest);
      LogsGrow(calls, n - 1, n);
      CallConsumes(c);
      EndsPrefix(calls[n - 1].log, c.log, calls[0].p0, c.p0);
      EndsSplit(c.log, calls[0].p0, c.p0, c.p1);
      assert Consumed([c]) == Consumed([]) + if Consumes(c) then [c.p1 - 1] else [];
    }
  }

  /** A reader that stands at the start of a frame gets back exactly the bytes of that frame and stands at
      the start of the next one. */
  lemma DeliveredFrame(c: Call)
    requires Kept(c) && c.r.Frame? && IsEnd(c.log, c.p0 - 1)
    ensures IsFrame(c.log, c.p0, c.p1 - 1) && IsEnd(c.log, c.p1 - 1)
    ensures c.r.size <= |c.content| && c.r.size == |FrameBytes(c.log, c.p0, c.p1 - 1)|
    ensures InTime(c.log, c.s0) ==> c.content[..c.r.size] == FrameBytes(c.log, c.p0, c.p1 - 1)
    ensures Ends(c.log, c.p0 - 1, c.p1) == [c.p0 - 1, c.p1 - 1]
  {
    FrameEnds(c.log, c.p0, c.p1 - 1);
    EndsSplit(c.log, c.p0 - 1, c.p0, c.p1);
    assert Ends(c.log, c.p0 - 1, c.p0) == Ends(c.log, c.p0 - 1, c.p0 - 1) + [c.p0 - 1];
  }

  // ---------------------------------------------------------------------------------------------
  // With overflows
  // ---------------------------------------------------------------------------------------------

  /** The reader stands just after its sentinel or, having truncated frames since, just after a frame end. */
  predicate Aligned(log: seq<Chunk>, p: nat, s: nat) {
    p <= |log| && (s + 1 == p || (0 < p && IsEnd(log, p - 1)))
  }

  /** Since the sentinel the reader has truncated a frame, ending at `x`, in an earlier lap than the last
      frame it truncated, and that frame end will still be in the ring when the next frame is complete. */
  ghost predicate Risk(log: seq<Chunk>, p: nat, s: nat, x: nat) {
    && s < x && x + 1 < p && IsEnd(log, x) && Lap(x) < Lap(p - 1)
    && Needed(log, p) <= x + NUM_CHUNKS
  }

  ghost predicate AtRisk(log: seq<Chunk>, p: nat, s: nat) {
    exists x: nat :: Risk(log, p, s, x)
  }

  /** An overflow noticed in this call does not find the reader at risk. */
  ghost predicate Steady(c: Call) {
    c.r.Overflow? ==> !AtRisk(c.log0, c.p0, c.s0)
  }

  /** Catching up after an overflow only moves forward, unless the reader was at risk. */
  lemma OverflowMovesForward(c: Call)
    requires Kept(c) && c.r.Overflow? && Aligned(c.log0, c.p0, c.s0) && Steady(c)
    ensures c.p0 <= c.p1 <= |c.log| && c.s1 + 1 == c.p1
    ensures c.s0 + 1 == c.p0 ==> c.p0 < c.p1
  {
    var w: nat :| && |c.log0| <= w && c.p0 < w && c.s0 + NUM_CHUNKS < w
                  && (c.p0 + NUM_CHUNKS < w || Needed(c.log0, c.p0) <= w)
                  && Recovered(w, c.log, c.s1) && c.p1 == c.s1 + 1;
    NotBehind(c.log0, c.log, w, c.p0, c.s0, c.s1);
  }

  lemma NotBehind(log0: seq<Chunk>, log: seq<Chunk>, w: nat, p0: nat, s0: nat, last: nat)
    requires s0 < p0 && log0 <= log && InReach(w, log)
    requires Aligned(log0, p0, s0) && !AtRisk(log0, p0, s0)
    requires |log0| <= w && p0 < w && s0 + NUM_CHUNKS < w && (p0 + NUM_CHUNKS < w || Needed(log0, p0) <= w)
    requires Recovered(w, log, last)
    ensures p0 <= last + 1 <= |log|
    ensures s0 + 1 == p0 ==> p0 <= last
  {
    hide Needed;
    var y: nat := p0 - 1;
    if w <= y + NUM_CHUNKS {
      forall x: nat | x < y && w <= x + NUM_CHUNKS && IsEnd(log, x)
        ensures Lap(x) == Lap(y)
      {
        assert !Risk(log0, p0, s0, x);
      }
      assert Leading(w, log, y);
    }
  }

  /** If any frame end stayed in the ring throughout the call, the reader stands at the start of a frame
      again after the overflow, and no frame that was complete when the catch-up began and is still in the
      ring comes after it unread. */
  lemma OverflowResynchronizes(c: Call, x: nat)
    requires Kept(c) && c.r.Overflow?
    requires IsEnd(c.log, x) && x < |c.log0| && |c.log| <= x + NUM_CHUNKS
    ensures IsEnd(c.log, c.p1 - 1) && x < c.p1
  {
    var w: nat :| |c.log0| <= w && c.p0 < w && c.s0 + NUM_CHUNKS < w && Recovered(w, c.log, c.s1) && c.p1 == c.s1 + 1;
    assert Stayed(w, c.log, x);
  }

  /** With frames of at most `k` chunks, a reader that is lapped by less than the rest of the ring while it
      recovers continues at the start of a frame, not more than `k` chunks behind the device. */
  lemma ShortFramesResynchronize(c: Call, k: nat)
    requires Kept(c) && c.r.Overflow? && 0 < k <= NUM_CHUNKS
    requires exists i: nat :: |c.log0| - k <= i && IsEnd(c.log0, i)
    requires |c.log| <= |c.log0| + NUM_CHUNKS - k
    ensures IsEnd(c.log, c.p1 - 1) && |c.log0| - k < c.p1
  {
    var x: nat :| |c.log0| - k <= x && IsEnd(c.log0, x);
    OverflowResynchronizes(c, x);
  }

  /** A completed call leaves the reader aligned again. */
  lemma CallKeepsAligned(c: Call)
    requires Kept(c) && Aligned(c.log0, c.p0, c.s0) && !c.r.Waiting?
    ensures Aligned(c.log, c.p1, c.s1)
  {
    if c.r.Overflow? {
      var w: nat :| |c.log0| <= w && c.p0 < w && c.s0 + NUM_CHUNKS < w && Recovered(w, c.log, c.s1) && c.p1 == c.s1 + 1;
      RecoveredBounds(w, c.log, c.s1);
    }
  }

  /** A run of completed calls of a reader that starts aligned. */
  ghost predicate CompleteRun(calls: seq<Call>) {
    && Run(calls)
    && |calls| > 0 && Aligned(calls[0].log0, calls[0].p0, calls[0].s0)
    && forall i :: 0 <= i < |calls| ==> !calls[i].r.Waiting?
  }

  lemma {:induction false} RunKeepsAligned(calls: seq<Call>, i: nat)
    requires CompleteRun(calls) && i < |calls|
    ensures Aligned(calls[i].log0, calls[i].p0, calls[i].s0) && Aligned(calls[i].log, calls[i].p1, calls[i].s1)
    decreases i
  {
    assert Kept(calls[i]);
    if i > 0 {
      RunKeepsAligned(calls, i - 1);
      assert Follows(calls[i - 1], calls[i]);
    }
    CallKeepsAligned(calls[i]);
  }

  /** A run of completed calls in which no overflow finds the reader at risk. */
  ghost predicate SteadyRun(calls: seq<Call>) {
    CompleteRun(calls) && forall i :: 0 <= i < |calls| ==> Steady(calls[i])
  }

  /** A reader that has a large enough buffer is never at risk: as long as no frame is truncated, the
      sentinel is the chunk before the reader's position. */
  lemma {:induction false} SteadyWithoutTruncation(calls: seq<Call>, i: nat)
    requires CompleteRun(calls) && i < |calls| && calls[0].s0 + 1 == calls[0].p0
    requires forall k :: 0 <= k < |calls| ==> !calls[k].r.Truncated?
    ensures calls[i].s0 + 1 == calls[i].p0 && calls[i].s1 + 1 == calls[i].p1 && Steady(calls[i])
    decreases i
  {
    RunKeepsAligned(calls, i);
    if i > 0 {
      SteadyWithoutTruncation(calls, i - 1);
      assert Follows(calls[i - 1], calls[i]);
    }
    assert Kept(calls[i]);
    if calls[i].r.Overflow? {
      OverflowMovesForward(calls[i]);
    }
  }

  lemma {:induction false} PositionInLog(calls: seq<Call>, i: nat)
    requires SteadyRun(calls) && i < |calls|
    ensures calls[i].p0 <= calls[i].p1 <= |calls[i].log|
  {
    assert Kept(calls[i]);
    RunKeepsAligned(calls, i);
    if calls[i].r.Overflow? {
      OverflowMovesForward(calls[i]);
    } else {
      CallConsumes(calls[i]);
    }
  }

  /** The position never moves backwards over a run. */
  lemma {:induction false} PositionNeverMovesBack(calls: seq<Call>, i: nat, j: nat)
    requires SteadyRun(calls) && i <= j < |calls|
    ensures calls[i].p0 <= calls[j].p1
    decreases j
  {
    PositionInLog(calls, j);
    if i < j {
      PositionNeverMovesBack(calls, i, j - 1);
      assert Follows(calls[j - 1], calls[j]);
    }
  }

  lemma EndConsumed(c: Call, e: nat)
    requires Kept(c) && !c.r.Overflow? && !c.r.Waiting? && c.p0 <= e < c.p1 && IsEnd(c.log, e)
    ensures Consumes(c) && e == c.p1 - 1
  {
  }

  /** Stream order with overflows: every frame end that the run moved over was used up by the call that
      moved over it, or that call reported an overflow. */
  lemma {:induction false} OnlyOverflowSkips(calls: seq<Call>, e: nat) returns (k: nat)
    requires SteadyRun(calls)
    requires calls[0].p0 <= e < calls[|calls| - 1].p1 && IsEnd(calls[|calls| - 1].log, e)
    ensures k < |calls| && calls[k].p0 <= e < calls[k].p1
    ensures calls[k].r.Overflow? || (Consumes(calls[k]) && e == calls[k].p1 - 1)
    decreases |calls|
  {
    hide ReceiveSpec, CaughtUp, AtRisk, Consumes;
    var n := |calls| - 1;
    assert Kept(calls[n]);
    if calls[n].p0 <= e {
      k := n;
      if !calls[n].r.Overflow? {
        EndConsumed(calls[n], e);
      }
    } else {
      assert Follows(calls[n - 1], calls[n]);
      PositionInLog(calls, n - 1);
      LogsGrow(calls, n - 1, n);
      k := OnlyOverflowSkips(calls[..n], e);
    }
  }

  /** Frames are used up in the order in which they were written, and no frame twice. */
  lemma ConsumedInOrder(calls: seq<Call>, i: nat, j: nat)
    requires SteadyRun(calls) && i < j < |calls| && Consumes(calls[i]) && Consumes(calls[j])
    ensures calls[i].p1 - 1 < calls[j].p1 - 1
  {
    assert Kept(calls[j]);
    PositionNeverMovesBack(calls, i + 1, j);
    assert Follows(calls[i], calls[i + 1]);
    if i + 1 < j {
      PositionNeverMovesBack(calls, i + 1, j - 1);
      assert Follows(calls[j - 1], calls[j]);
    }
  }
}
