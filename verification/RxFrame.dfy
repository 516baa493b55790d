/** What one call of the receive functions promises, and what runs of such calls then deliver. */
module RxFrame {
  import opened Words
  import opened RxStream
  import opened RxScan

  const STATUS_ERRORS := 0x10

  /** Outcome of reading a frame.  `Waiting` stands for a call that is still inside a frame whose next
      chunk the device has not written. */
  datatype Received =
    | Frame(size: nat, timestamp: Word32)
    | Nothing
    | Truncated
    | Overflow
    | Bad(code: nat)
    | Waiting

  /** The writer is less than 256 laps past position `p`, so that generation number of `p` is not taken for
      that of a later lap. */
  predicate InTime(log: seq<Chunk>, p: int) {
    |log| <= p + 256 * NUM_CHUNKS
  }

  /** The header of position `p` has not been overwritten. */
  predicate NotLapped(log: seq<Chunk>, p: int) {
    |log| <= p + NUM_CHUNKS
  }

  /** Bytes copied from position `p` on can be trusted: either the writer has not come back to the chunk
      before, or an unchanged generation of the sentinel `s` tells so. */
  predicate Trusted(log: seq<Chunk>, p: int, s: int) {
    InTime(log, p - 1) && (InTime(log, s) || NotLapped(log, p - 1))
  }

  ghost predicate NoEnd(log: seq<Chunk>, p: nat, q: nat) {
    forall i :: p <= i < q ==> !IsEnd(log, i)
  }

  /** The bytes from index `from` on are untouched. */
  ghost predicate SameFrom(before: seq<Byte>, after: seq<Byte>, from: nat) {
    |after| == |before| && forall i :: from <= i < |before| ==> after[i] == before[i]
  }

  /**
    The reader is inside a frame that starts at `p0`: it is about to process the chunk at `p`, for whose
    slot it has read the header of position `seen`, and has `size` bytes of the frame behind it.
   */
  ghost predicate Reading(base: Byte, log: seq<Chunk>, p0: nat, p: nat, seen: nat, size: nat, content: seq<Byte>) {
    && GoodLog(log)
    && 0 < p0 <= p <= seen < |log|
    && Slot(seen) == Slot(p)
    && Gen(base, seen) == Gen(base, p)
    && size == PAYLOAD_SIZE * (p - p0)
    && (InTime(log, p0 - 1) ==> seen == p && NoEnd(log, p0, p))
    && (NotLapped(log, p0 - 1) && size <= |content| ==> content[..size] == Body(log, p0, p))
  }

  /** A header that carries the expected generation belongs to the expected position or to one a multiple
      of 256 laps later; in time, to the expected one. */
  lemma SeenExpected(base: Byte, w: nat, p: nat, s0: nat)
    requires NUM_CHUNKS <= w && s0 < p <= w
    requires Gen(base, Latest(w, Slot(p))) == Gen(base, p)
    ensures p <= Latest(w, Slot(p)) < w
    ensures w <= s0 + 256 * NUM_CHUNKS ==> Latest(w, Slot(p)) == p
  {
    LatestRelative(w, p);
    GenDistance(base, Latest(w, Slot(p)), p);
  }

  /** A header with neither the expected nor the previous generation means that the position was lapped. */
  lemma SeenLapped(base: Byte, w: nat, p: nat)
    requires NUM_CHUNKS <= w && p <= w
    requires Gen(base, Latest(w, Slot(p))) != Gen(base, p)
    requires Gen(base, Latest(w, Slot(p))) != PrevGen(Gen(base, p))
    ensures w > p + NUM_CHUNKS
  {
    LatestRelative(w, p);
    GenDistance(base, Latest(w, Slot(p)), p);
  }

  /** A header with the previous generation means, within 255 laps, that the position is not written. */
  lemma SeenNothing(base: Byte, w: nat, p: nat)
    requires NUM_CHUNKS <= w && p <= w <= p + 255 * NUM_CHUNKS
    requires Gen(base, Latest(w, Slot(p))) == PrevGen(Gen(base, p))
    ensures w == p
  {
    LapDetectionIsExact(base, w, p);
  }

  /** The sentinel check: in time, the generation in the sentinel's slot is unchanged exactly when the
      sentinel's header has not been overwritten. */
  lemma SentinelCheck(base: Byte, w: nat, s: nat)
    requires NUM_CHUNKS <= w && s < w
    ensures Gen(base, Latest(w, Slot(s))) != Gen(base, s) ==> w > s + NUM_CHUNKS
    ensures w <= s + 256 * NUM_CHUNKS ==>
              (Gen(base, Latest(w, Slot(s))) == Gen(base, s) <==> w <= s + NUM_CHUNKS)
  {
    LatestRelative(w, s);
    GenDistance(base, Latest(w, Slot(s)), s);
  }

  lemma ReadingWhileWriting(base: Byte, log: seq<Chunk>, log': seq<Chunk>, p0: nat, p: nat, seen: nat,
                            size: nat, content: seq<Byte>)
    requires Reading(base, log, p0, p, seen, size, content) && GoodLog(log') && log <= log'
    ensures Reading(base, log', p0, p, seen, size, content)
  {
    BodyPrefix(log, log', p0, p);
    if InTime(log', p0 - 1) {
      assert forall i :: p0 <= i < p ==> IsEnd(log', i) == IsEnd(log, i);
    }
  }

  lemma ReadingStarts(base: Byte, log: seq<Chunk>, p0: nat, content: seq<Byte>)
    requires GoodLog(log) && 0 < p0 <= |log|
    requires Gen(base, Latest(|log|, Slot(p0))) == Gen(base, p0)
    ensures Reading(base, log, p0, p0, Latest(|log|, Slot(p0)), 0, content)
  {
    SeenExpected(base, |log|, p0, p0 - 1);
  }

  /** A full chunk was copied, or skipped because the buffer is too small, and the header of the next
      position has appeared. */
  lemma ReadingContinues(base: Byte, log: seq<Chunk>, p0: nat, p: nat, seen: nat, size: nat,
                         content: seq<Byte>, content': seq<Byte>)
    requires Reading(base, log, p0, p, seen, size, content) && log[seen].info.length == 0
    requires |content'| == |content|
    requires size <= |content| ==> content'[..size] == content[..size]
    requires |log| < p + NUM_CHUNKS && size + PAYLOAD_SIZE <= |content| ==>
               content'[size..size + PAYLOAD_SIZE] == log[p].payload
    requires Gen(base, Latest(|log|, Slot(p + 1))) == Gen(base, p + 1)
    ensures Reading(base, log, p0, p + 1, Latest(|log|, Slot(p + 1)), size + PAYLOAD_SIZE, content')
  {
    SeenExpected(base, |log|, p + 1, p0 - 1);
    if NotLapped(log, p0 - 1) && size + PAYLOAD_SIZE <= |content| {
      assert content'[..size + PAYLOAD_SIZE] == content'[..size] + content'[size..size + PAYLOAD_SIZE];
    }
  }

  /** The last chunk was processed: in time, the positions from `p0` hold one frame, whose size is known;
      and if the sentinel is still in the ring and the frame fits, the buffer holds its bytes. */
  lemma ReadingEnds(base: Byte, log: seq<Chunk>, p0: nat, p: nat, seen: nat, size: nat, n: nat,
                    content: seq<Byte>, content': seq<Byte>)
    requires Reading(base, log, p0, p, seen, size, content) && log[seen].info.length == n != 0
    requires |content'| == |content|
    requires size + n <= |content| ==> content'[..size] == content[..size]
    requires size + n <= |content| && |log| < p + NUM_CHUNKS ==>
               n <= PAYLOAD_SIZE && content'[size..size + n] == log[p].payload[..n]
    ensures InTime(log, p0 - 1) ==>
              && seen == p && IsFrame(log, p0, p)
              && |FrameBytes(log, p0, p)| == size + n
    ensures InTime(log, p0 - 1) && NotLapped(log, p0 - 1) && size + n <= |content| ==>
              content'[..size + n] == FrameBytes(log, p0, p)
  {
    assert GoodChunk(log[p]);
    if InTime(log, p0 - 1) && NotLapped(log, p0 - 1) && size + n <= |content| {
      assert content'[..size + n] == content'[..size] + content'[size..size + n];
    }
  }

  /** What one call of `exanic_receive_frame` promises.  The reader was at `p0` with sentinel `s0` and is
      now at `p1` with sentinel `s1`; the log was `log0` and is now `log`; `content` is the caller's
      buffer afterwards. */
  ghost predicate ReceiveSpec(log0: seq<Chunk>, log: seq<Chunk>, p0: nat, s0: nat, p1: nat, s1: nat,
                              r: Received, content: seq<Byte>)
  {
    && GoodLog(log) && log0 <= log
    && match r
       case Nothing =>
         // Nothing was there when the call began.
         p1 == p0 && s1 == s0 && (|log| <= p0 + 255 * NUM_CHUNKS ==> |log0| <= p0)
       case Frame(size, timestamp) =>
         // Exactly one frame, as it was written.
         && s1 + 1 == p1
         && (InTime(log, p0 - 1) ==>
               && IsFrame(log, p0, p1 - 1)
               && size == |FrameBytes(log, p0, p1 - 1)| <= |content|
               && timestamp == log[p1 - 1].info.timestamp
               && log[p1 - 1].info.status % STATUS_ERRORS == 0)
         && (Trusted(log, p0, s0) ==> content[..size] == FrameBytes(log, p0, p1 - 1))
       case Bad(code) =>
         // One frame that the device marked as bad.
         && s1 + 1 == p1
         && (InTime(log, p0 - 1) ==>
               && IsFrame(log, p0, p1 - 1)
               && |FrameBytes(log, p0, p1 - 1)| <= |content|
               && code == log[p1 - 1].info.status % STATUS_ERRORS != 0)
       case Truncated =>
         // One frame that is larger than the buffer.
         && s1 == s0
         && (InTime(log, p0 - 1) ==>
               IsFrame(log, p0, p1 - 1) && |FrameBytes(log, p0, p1 - 1)| > |content|)
       case Overflow =>
         // The device did lap the sentinel, and the reader has caught up.
         exists w: nat :: |log0| <= w && p0 < w && s0 + NUM_CHUNKS < w && Recovered(w, log, s1) && p1 == s1 + 1
       case Waiting =>
         p0 < p1 && s1 == s0 && (InTime(log, p0 - 1) ==> NoEnd(log, p0, p1))
  }

  lemma ReadingBounds(base: Byte, log: seq<Chunk>, p0: nat, p: nat, seen: nat, size: nat, content: seq<Byte>)
    requires Reading(base, log, p0, p, seen, size, content)
    ensures GoodLog(log) && 0 < p0 <= p <= seen < |log|
    ensures Gen(base, seen) == Gen(base, p) && Slot(seen) == Slot(p)
    ensures size == PAYLOAD_SIZE * (p - p0)
  {
  }

  lemma SpecTruncated(log0: seq<Chunk>, log: seq<Chunk>, p0: nat, s0: nat, p1: nat, content: seq<Byte>)
    requires GoodLog(log) && log0 <= log && p0 < p1 <= |log|
    requires InTime(log, p0 - 1) ==> IsFrame(log, p0, p1 - 1) && |FrameBytes(log, p0, p1 - 1)| > |content|
    ensures ReceiveSpec(log0, log, p0, s0, p1, s0, Truncated, content)
  {
  }

  /** How much must have been written when a reader at `p` has copied a whole frame. */
  ghost function Needed(log: seq<Chunk>, p: nat): nat {
    if exists e: nat :: p <= e && IsEnd(log, e) then |log| else |log| + 1
  }

  /** An overflow of a call that began at `p0`: it was noticed when `w` chunks had been written, either because
      a chunk that was looked for was gone or, after a whole frame was copied, at the sentinel; and the
      reader has caught up. */
  ghost predicate CaughtUp(log0: seq<Chunk>, log: seq<Chunk>, p0: nat, s0: nat, p1: nat, s1: nat) {
    exists w: nat ::
      && |log0| <= w && p0 < w && s0 + NUM_CHUNKS < w
      && (p0 + NUM_CHUNKS < w || Needed(log0, p0) <= w)
      && Recovered(w, log, s1) && p1 == s1 + 1
  }

  lemma NeededMet(log0: seq<Chunk>, log: seq<Chunk>, p: nat, e: nat)
    requires log0 <= log && p <= e && IsEnd(log, e)
    ensures Needed(log0, p) <= |log|
  {
    if e < |log0| {
      assert IsEnd(log0, e);
    }
  }

  lemma SpecOverflow(log0: seq<Chunk>, log: seq<Chunk>, p0: nat, s0: nat, w: nat, s1: nat, content: seq<Byte>)
    requires GoodLog(log) && log0 <= log && |log0| <= w && p0 < w && s0 + NUM_CHUNKS < w && Recovered(w, log, s1)
    requires p0 + NUM_CHUNKS < w || Needed(log0, p0) <= w
    ensures ReceiveSpec(log0, log, p0, s0, s1 + 1, s1, Overflow, content)
    ensures CaughtUp(log0, log, p0, s0, s1 + 1, s1)
  {
  }

  lemma SpecDone(log0: seq<Chunk>, log: seq<Chunk>, p0: nat, s0: nat, p: nat, size: nat, info: Info, r: Received,
                 content: seq<Byte>)
    requires GoodLog(log) && log0 <= log && p0 <= p < |log| && size <= |content|
    requires r == if info.status % STATUS_ERRORS != 0 then Bad(info.status % STATUS_ERRORS) else Frame(size, info.timestamp)
    requires InTime(log, p0 - 1) ==>
               info == log[p].info && IsFrame(log, p0, p) && |FrameBytes(log, p0, p)| == size
    requires Trusted(log, p0, s0) ==> content[..size] == FrameBytes(log, p0, p)
    ensures ReceiveSpec(log0, log, p0, s0, p + 1, p, r, content)
  {
  }

  lemma ReadingNoEnd(base: Byte, log: seq<Chunk>, p0: nat, p: nat, seen: nat, size: nat, content: seq<Byte>)
    requires Reading(base, log, p0, p, seen, size, content) && log[seen].info.length == 0
    ensures InTime(log, p0 - 1) ==> NoEnd(log, p0, p + 1)
  {
  }

  lemma SpecWaiting(log0: seq<Chunk>, log: seq<Chunk>, p0: nat, s0: nat, p1: nat, content: seq<Byte>)
    requires GoodLog(log) && log0 <= log && p0 < p1
    requires InTime(log, p0 - 1) ==> NoEnd(log, p0, p1)
    ensures ReceiveSpec(log0, log, p0, s0, p1, s0, Waiting, content)
  {
  }

  lemma SpecNothing(log0: seq<Chunk>, log: seq<Chunk>, p0: nat, s0: nat, content: seq<Byte>)
    requires GoodLog(log) && log0 <= log
    requires |log| <= p0 + 255 * NUM_CHUNKS ==> |log| == p0
    ensures ReceiveSpec(log0, log, p0, s0, p0, s0, Nothing, content)
  {
  }

  // ---------------------------------------------------------------------------------------------
  // A frame that is there is delivered
  // ---------------------------------------------------------------------------------------------

  /** A call that began at `p0` gave up waiting for position `p1`: as far as generations can tell, that
      position was not written when the call began. */
  predicate StillMissing(log0: seq<Chunk>, log: seq<Chunk>, p0: nat, p1: nat) {
    |log| <= p0 + 255 * NUM_CHUNKS ==> |log0| <= p1
  }

  /** Chunks that were there when the call began have cost one poll each. */
  predicate Prompt(log0: seq<Chunk>, log: seq<Chunk>, p0: nat, p: nat, polls: nat, left: nat) {
    p0 <= p && (|log| <= p0 + 255 * NUM_CHUNKS && p < |log0| ==> left + (p - p0) == polls)
  }

  lemma PromptStarts(log0: seq<Chunk>, log: seq<Chunk>, p0: nat, polls: nat)
    ensures Prompt(log0, log, p0, p0, polls, polls)
  {
  }

  lemma PromptWhileWriting(log0: seq<Chunk>, log: seq<Chunk>, log': seq<Chunk>, p0: nat, p: nat, polls: nat, left: nat)
    requires Prompt(log0, log, p0, p, polls, left) && log <= log'
    ensures Prompt(log0, log', p0, p, polls, left)
  {
  }

  lemma PromptContinues(log0: seq<Chunk>, log: seq<Chunk>, log': seq<Chunk>, p0: nat, p: nat, polls: nat,
                        left: nat, left': nat)
    requires Prompt(log0, log, p0, p, polls, left) && log0 <= log <= log'
    requires |log'| <= p + 1 + 255 * NUM_CHUNKS && p + 1 < |log| ==> left' + 1 == left
    ensures Prompt(log0, log', p0, p + 1, polls, left')
  {
  }

  lemma MissingWhenRead(log0: seq<Chunk>, log: seq<Chunk>, log': seq<Chunk>, p0: nat, p: nat)
    requires log0 <= log && p0 <= p
    requires |log'| <= p + 255 * NUM_CHUNKS ==> |log| <= p
    ensures StillMissing(log0, log', p0, p)
  {
  }

  /** A poll that finds nothing is only wasted on a chunk that was not there when the call began. */
  lemma PromptStalls(log0: seq<Chunk>, log: seq<Chunk>, log': seq<Chunk>, p0: nat, p: nat, polls: nat, left: nat)
    requires log0 <= log && p0 <= p
    requires |log'| <= p + 255 * NUM_CHUNKS ==> |log| <= p
    ensures Prompt(log0, log', p0, p, polls, left)
  {
  }

  lemma PromptRunsOut(log0: seq<Chunk>, log: seq<Chunk>, p0: nat, p: nat, polls: nat)
    requires Prompt(log0, log, p0, p, polls, 0)
    ensures polls <= p - p0 || StillMissing(log0, log, p0, p)
    ensures polls < p + 1 - p0 || StillMissing(log0, log, p0, p + 1)
  {
  }

  /** What a frame at `p..e` amounts to for a caller with room for `capacity` bytes. */
  ghost function Expected(log: seq<Chunk>, p: nat, e: nat, capacity: nat): Received
    requires GoodLog(log) && p <= e < |log|
  {
    if |FrameBytes(log, p, e)| > capacity then Truncated
    else if log[e].info.status % STATUS_ERRORS != 0 then Bad(log[e].info.status % STATUS_ERRORS)
    else Frame(|FrameBytes(log, p, e)|, log[e].info.timestamp)
  }

  /** Reassembly and truncation: when the sentinel has not been overwritten, a call that neither finds
      nothing nor is still waiting reports exactly what the next frame amounts to and leaves the reader
      just after it; there is no overflow. */
  lemma NotLappedIsDetermined(log0: seq<Chunk>, log: seq<Chunk>, p0: nat, s0: nat, p1: nat, s1: nat, r: Received,
                              content: seq<Byte>)
    requires s0 < p0 && NotLapped(log, s0)
    requires ReceiveSpec(log0, log, p0, s0, p1, s1, r, content) && !r.Nothing? && !r.Waiting?
    ensures IsFrame(log, p0, p1 - 1) && r == Expected(log, p0, p1 - 1, |content|)
    ensures r.Frame? ==> content[..r.size] == FrameBytes(log, p0, p1 - 1)
  {
  }

  /** Every frame that is complete when the call begins is delivered, provided the call may look once for
      each of its chunks: the result is what the frame amounts to and the reader stands just after it, unless
      the device lapped the sentinel and the call reports an overflow. */
  lemma CompleteFrameIsDelivered(log0: seq<Chunk>, log: seq<Chunk>, p0: nat, s0: nat, p1: nat, s1: nat, r: Received,
                                 content: seq<Byte>, polls: nat, e: nat)
    requires ReceiveSpec(log0, log, p0, s0, p1, s1, r, content)
    requires r.Waiting? ==> polls < p1 - p0 || StillMissing(log0, log, p0, p1)
    requires s0 < p0 && IsFrame(log0, p0, e) && e - p0 <= polls && |log| <= s0 + 255 * NUM_CHUNKS
    ensures r.Overflow? ==> !NotLapped(log, s0)
    ensures !r.Overflow? ==>
              && IsFrame(log, p0, e) && r == Expected(log, p0, e, |content|)
              && p1 == e + 1 && s1 == (if r.Truncated? then s0 else e)
              && (r.Frame? ==> content[..r.size] == FrameBytes(log, p0, e))
  {
    FrameStays(log0, log, p0, e);
    if !r.Overflow? && !r.Waiting? && !r.Nothing? {
      FrameUnique(log, p0, p1 - 1, e);
    }
  }

  lemma FrameStays(log0: seq<Chunk>, log: seq<Chunk>, p: nat, e: nat)
    requires log0 <= log && IsFrame(log0, p, e)
    ensures IsFrame(log, p, e)
  {
    assert forall i :: 0 <= i <= e ==> IsEnd(log, i) == IsEnd(log0, i);
  }

  // ---------------------------------------------------------------------------------------------
  // Reading without a sentinel
  // ---------------------------------------------------------------------------------------------

  /** What one call of `exanic_receive_frame_ex` promises: the frame's extent, size and status whenever
      generations are unambiguous, its bytes only if the device did not return to the frame's slots. */
  ghost predicate ReceiveExSpec(log0: seq<Chunk>, log: seq<Chunk>, p0: nat, p1: nat, r: Received, status: nat,
                                content: seq<Byte>)
  {
    && GoodLog(log) && log0 <= log && p0 > 0
    && match r
       case Nothing =>
         p1 == p0 && (|log| <= p0 + 255 * NUM_CHUNKS ==> |log0| <= p0)
       case Frame(size, timestamp) =>
         && (InTime(log, p0 - 1) ==>
               && IsFrame(log, p0, p1 - 1)
               && size == |FrameBytes(log, p0, p1 - 1)| <= |content|
               && timestamp == log[p1 - 1].info.timestamp
               && status == log[p1 - 1].info.status % STATUS_ERRORS)
         && (NotLapped(log, p0 - 1) ==>
               IsFrame(log, p0, p1 - 1) && size <= |content| && content[..size] == FrameBytes(log, p0, p1 - 1))
       case Bad(_) =>
         false
       case Truncated =>
         InTime(log, p0 - 1) ==> IsFrame(log, p0, p1 - 1) && |FrameBytes(log, p0, p1 - 1)| > |content|
       case Overflow =>
         exists w: nat, last: nat :: |log0| <= w && p0 + NUM_CHUNKS < w && Recovered(w, log, last) && p1 == last + 1
       case Waiting =>
         p0 < p1 && (InTime(log, p0 - 1) ==> NoEnd(log, p0, p1))
  }

  lemma ExSpecTruncated(log0: seq<Chunk>, log: seq<Chunk>, p0: nat, p1: nat, content: seq<Byte>)
    requires GoodLog(log) && log0 <= log && 0 < p0 < p1 <= |log|
    requires InTime(log, p0 - 1) ==> IsFrame(log, p0, p1 - 1) && |FrameBytes(log, p0, p1 - 1)| > |content|
    ensures ReceiveExSpec(log0, log, p0, p1, Truncated, 0, content)
  {
  }

  lemma ExSpecDone(log0: seq<Chunk>, log: seq<Chunk>, p0: nat, p: nat, size: nat, info: Info, r: Received, status: nat,
                   content: seq<Byte>)
    requires GoodLog(log) && log0 <= log && 0 < p0 <= p < |log| && size <= |content|
    requires r == Frame(size, info.timestamp) && status == info.status % STATUS_ERRORS
    requires InTime(log, p0 - 1) ==>
               info == log[p].info && IsFrame(log, p0, p) && |FrameBytes(log, p0, p)| == size
    requires InTime(log, p0 - 1) && NotLapped(log, p0 - 1) ==> content[..size] == FrameBytes(log, p0, p)
    ensures ReceiveExSpec(log0, log, p0, p + 1, r, status, content)
  {
  }

  lemma ExSpecWaiting(log0: seq<Chunk>, log: seq<Chunk>, p0: nat, p1: nat, content: seq<Byte>)
    requires GoodLog(log) && log0 <= log && 0 < p0 < p1
    requires InTime(log, p0 - 1) ==> NoEnd(log, p0, p1)
    ensures ReceiveExSpec(log0, log, p0, p1, Waiting, 0, content)
  {
  }

  lemma ExSpecNothing(log0: seq<Chunk>, log: seq<Chunk>, p0: nat, content: seq<Byte>)
    requires GoodLog(log) && log0 <= log && p0 > 0
    requires |log| <= p0 + 255 * NUM_CHUNKS ==> |log| == p0
    ensures ReceiveExSpec(log0, log, p0, p0, Nothing, 0, content)
  {
  }

  lemma ExSpecOverflow(log0: seq<Chunk>, log: seq<Chunk>, p0: nat, w: nat, last: nat, content: seq<Byte>)
    requires GoodLog(log) && log0 <= log && p0 > 0 && |log0| <= w && p0 + NUM_CHUNKS < w && Recovered(w, log, last)
    ensures ReceiveExSpec(log0, log, p0, last + 1, Overflow, 0, content)
  {
  }

  /** The same for the capture reader, which reports the error bits beside the frame. */
  lemma CompleteFrameIsDeliveredEx(log0: seq<Chunk>, log: seq<Chunk>, p0: nat, p1: nat, r: Received, status: nat,
                                   content: seq<Byte>, polls: nat, e: nat)
    requires ReceiveExSpec(log0, log, p0, p1, r, status, content)
    requires r.Waiting? ==> polls < p1 - p0 || StillMissing(log0, log, p0, p1)
    requires IsFrame(log0, p0, e) && e - p0 <= polls && |log| <= p0 + 255 * NUM_CHUNKS
    ensures r.Overflow? ==> !NotLapped(log, p0 - 1)
    ensures !r.Overflow? ==>
              && IsFrame(log, p0, e) && p1 == e + 1
              && r == (if |FrameBytes(log, p0, e)| > |content| then Truncated
                       else Frame(|FrameBytes(log, p0, e)|, log[e].info.timestamp))
              && (r.Frame? ==> status == log[e].info.status % STATUS_ERRORS)
              && (r.Frame? && NotLapped(log, p0 - 1) ==> content[..r.size] == FrameBytes(log, p0, e))
  {
    FrameStays(log0, log, p0, e);
    if !r.Overflow? && !r.Waiting? && !r.Nothing? {
      FrameUnique(log, p0, p1 - 1, e);
    }
  }

  // ---------------------------------------------------------------------------------------------
  // Reading chunk by chunk
  // ---------------------------------------------------------------------------------------------

  datatype ChunkRead = Data(size: nat, more: bool) | NoData | Lapped | BadChunk(code: nat)

  /** The number of payload bytes that a chunk carries. */
  function ChunkSize(c: Chunk): nat {
    if c.info.length == 0 then PAYLOAD_SIZE else c.info.length
  }

  /** What one call of `exanic_receive_chunk` promises; `bytes` is the space it may write. */
  ghost predicate ChunkSpec(log0: seq<Chunk>, log: seq<Chunk>, p0: nat, s0: nat, p1: nat, s1: nat, r: ChunkRead,
                            bytes: seq<Byte>)
  {
    && GoodLog(log) && log0 <= log
    && match r
       case NoData =>
         p1 == p0 && s1 == s0 && (|log| <= p0 + 255 * NUM_CHUNKS ==> |log0| <= p0)
       case Data(size, more) =>
         && p1 == p0 + 1 && s1 == p0 && p0 < |log| && size <= |bytes|
         && (InTime(log, p0 - 1) ==>
               && more == !IsEnd(log, p0)
               && size == ChunkSize(log[p0])
               && (!more ==> log[p0].info.status % STATUS_ERRORS == 0))
         && (Trusted(log, p0, s0) ==> bytes[..size] == log[p0].payload[..size])
       case BadChunk(code) =>
         && p1 == p0 + 1 && s1 == p0 && p0 < |log|
         && (InTime(log, p0 - 1) ==> IsEnd(log, p0) && code == log[p0].info.status % STATUS_ERRORS != 0)
       case Lapped =>
         exists w: nat :: |log0| <= w && p0 < w && s0 + NUM_CHUNKS < w && Recovered(w, log, s1) && p1 == s1 + 1
  }

  lemma ChunkSpecNoData(log0: seq<Chunk>, log: seq<Chunk>, p0: nat, s0: nat, bytes: seq<Byte>)
    requires GoodLog(log) && log0 <= log
    requires |log| <= p0 + 255 * NUM_CHUNKS ==> |log| == p0
    ensures ChunkSpec(log0, log, p0, s0, p0, s0, NoData, bytes)
  {
  }

  lemma ChunkSpecLapped(log0: seq<Chunk>, log: seq<Chunk>, p0: nat, s0: nat, w: nat, s1: nat, bytes: seq<Byte>)
    requires GoodLog(log) && log0 <= log && |log0| <= w && p0 < w && s0 + NUM_CHUNKS < w && Recovered(w, log, s1)
    ensures ChunkSpec(log0, log, p0, s0, s1 + 1, s1, Lapped, bytes)
  {
  }

  /** The old sentinel was found in the ring after the payload was copied. */
  lemma ChunkSpecDone(log0: seq<Chunk>, log: seq<Chunk>, p0: nat, s0: nat, seen: Chunk, r: ChunkRead, bytes: seq<Byte>)
    requires GoodLog(log) && log0 <= log && s0 < p0 < |log| && |bytes| == PAYLOAD_SIZE && GoodChunk(seen)
    requires r == if seen.info.length != 0 && seen.info.status % STATUS_ERRORS != 0
                  then BadChunk(seen.info.status % STATUS_ERRORS)
                  else Data(ChunkSize(seen), seen.info.length == 0)
    requires InTime(log, p0 - 1) ==> seen == log[p0]
    requires InTime(log, s0) ==> NotLapped(log, s0)
    requires |log| < p0 + NUM_CHUNKS ==> bytes[..ChunkSize(seen)] == log[p0].payload[..ChunkSize(seen)]
    ensures ChunkSpec(log0, log, p0, s0, p0 + 1, p0, r, bytes)
  {
  }

  /** A frame that is being read chunk by chunk: if the generations have been unambiguous since the frame
      began, everything up to `p` is the frame's and has been copied. */
  ghost predicate Collecting(log: seq<Chunk>, p0: nat, s0: nat, p: nat, s: nat, size: nat, content: seq<Byte>) {
    && GoodLog(log)
    && s0 <= s < p && s0 < p0 <= p <= |log|
    && size == PAYLOAD_SIZE * (p - p0) <= |content|
    && (p == p0 ==> s == s0)
    && (InTime(log, p0 - 1) ==> NoEnd(log, p0, p))
    && (Trusted(log, p0, s0) ==> content[..size] == Body(log, p0, p))
  }

  /** One more full chunk. */
  lemma CollectingContinues(log0: seq<Chunk>, log: seq<Chunk>, p0: nat, s0: nat, p: nat, s: nat, size: nat,
                            content: seq<Byte>, content': seq<Byte>, r: ChunkRead)
    requires Collecting(log0, p0, s0, p, s, size, content) && size + PAYLOAD_SIZE <= |content| == |content'|
    requires content'[..size] == content[..size]
    requires ChunkSpec(log0, log, p, s, p + 1, p, r, content'[size..size + PAYLOAD_SIZE]) && r.Data? && r.more
    ensures Collecting(log, p0, s0, p + 1, p, size + PAYLOAD_SIZE, content')
    ensures InTime(log, p0 - 1) ==> r.size == PAYLOAD_SIZE
  {
    BodyPrefix(log0, log, p0, p);
    if InTime(log, p0 - 1) {
      assert Trusted(log, p0, s0) ==> Trusted(log, p, s);
      assert forall i :: p0 <= i < p ==> IsEnd(log, i) == IsEnd(log0, i);
      assert log[p].payload[..PAYLOAD_SIZE] == log[p].payload by { assert GoodChunk(log[p]); }
      var bytes := content'[size..size + PAYLOAD_SIZE];
      assert bytes == bytes[..PAYLOAD_SIZE];
      assert content'[..size + PAYLOAD_SIZE] == content'[..size] + bytes;
    }
  }

  /** Chunk-wise reading refines frame reading: when the last chunk has been read, what was promised for
      one call of `exanic_receive_frame` holds, with the same bytes and the same reader state. */
  lemma CollectingEnds(start: seq<Chunk>, log0: seq<Chunk>, log: seq<Chunk>, p0: nat, s0: nat, p: nat, s: nat, size: nat,
                       content: seq<Byte>, content': seq<Byte>, r: ChunkRead, timestamp: Word32)
    requires start <= log0 && Collecting(log0, p0, s0, p, s, size, content)
    requires size + PAYLOAD_SIZE <= |content| == |content'| && content'[..size] == content[..size]
    requires ChunkSpec(log0, log, p, s, p + 1, p, r, content'[size..size + PAYLOAD_SIZE])
    requires r.BadChunk? || (r.Data? && !r.more)
    requires p < |log| && timestamp == log[p].info.timestamp
    ensures ReceiveSpec(start, log, p0, s0, p + 1, p,
                        if r.Data? then Frame(size + r.size, timestamp) else Bad(r.code), content')
  {
    BodyPrefix(log0, log, p0, p);
    if InTime(log, p0 - 1) {
      assert Trusted(log, p0, s0) ==> Trusted(log, p, s);
      assert forall i :: p0 <= i < p ==> IsEnd(log, i) == IsEnd(log0, i);
      assert IsFrame(log, p0, p);
      assert GoodChunk(log[p]);
      if r.Data? {
        var bytes := content'[size..size + PAYLOAD_SIZE];
        assert content'[..size + r.size] == content'[..size] + bytes[..r.size];
      }
    }
  }

  lemma CollectingLapped(start: seq<Chunk>, log0: seq<Chunk>, log: seq<Chunk>, p0: nat, s0: nat, p: nat, s: nat, size: nat,
                         content: seq<Byte>, content': seq<Byte>, bytes: seq<Byte>, p1: nat, s1: nat)
    requires start <= log0 && Collecting(log0, p0, s0, p, s, size, content)
    requires ChunkSpec(log0, log, p, s, p1, s1, Lapped, bytes)
    ensures ReceiveSpec(start, log, p0, s0, p1, s1, Overflow, content')
  {
  }

  lemma CollectingNothing(start: seq<Chunk>, log0: seq<Chunk>, log: seq<Chunk>, p0: nat, s0: nat, p1: nat, s1: nat,
                          bytes: seq<Byte>, content: seq<Byte>)
    requires start <= log0 && ChunkSpec(log0, log, p0, s0, p1, s1, NoData, bytes)
    ensures ReceiveSpec(start, log, p0, s0, p1, s1, Nothing, content)
  {
  }

  lemma NothingWritten(log0: seq<Chunk>, log: seq<Chunk>, p0: nat, s0: nat, p1: nat, s1: nat, bytes: seq<Byte>)
    requires ChunkSpec(log0, log, p0, s0, p1, s1, NoData, bytes)
    ensures |log| <= p0 + 255 * NUM_CHUNKS ==> |log0| <= p0
  {
  }

  lemma CollectingPlace(log: seq<Chunk>, p0: nat, s0: nat, p: nat, s: nat, size: nat, content: seq<Byte>)
    requires Collecting(log, p0, s0, p, s, size, content)
    ensures p0 <= p && (p == p0 ==> s == s0 && size == 0)
  {
  }

  lemma CollectingWaits(log0: seq<Chunk>, log: seq<Chunk>, p0: nat, s0: nat, p: nat, s: nat, size: nat, content: seq<Byte>)
    requires Collecting(log0, p0, s0, p, s, size, content) && GoodLog(log) && log0 <= log
    ensures Collecting(log, p0, s0, p, s, size, content)
  {
    BodyPrefix(log0, log, p0, p);
    if InTime(log, p0 - 1) {
      assert forall i :: p0 <= i < p ==> IsEnd(log, i) == IsEnd(log0, i);
    }
  }

  lemma CollectingStarts(log: seq<Chunk>, p0: nat, s0: nat, content: seq<Byte>)
    requires GoodLog(log) && s0 < p0 <= |log|
    ensures Collecting(log, p0, s0, p0, s0, 0, content)
  {
  }

  lemma CollectingSameBytes(log: seq<Chunk>, p0: nat, s0: nat, p: nat, s: nat, size: nat,
                            content: seq<Byte>, content': seq<Byte>)
    requires Collecting(log, p0, s0, p, s, size, content)
    requires |content'| == |content| && content'[..size] == content[..size]
    ensures Collecting(log, p0, s0, p, s, size, content')
  {
  }

  /** A caller who has collected chunks but not the last one, of a frame that was complete when it began and
      fits with a whole chunk to spare for the last, has not made enough attempts. */
  lemma CompleteFrameIsCollected(log0: seq<Chunk>, log: seq<Chunk>, p0: nat, s0: nat, p: nat, s: nat, size: nat,
                                 content: seq<Byte>, polls: nat, e: nat)
    requires Collecting(log, p0, s0, p, s, size, content) && log0 <= log
    requires |content| < size + PAYLOAD_SIZE || polls <= p - p0 || StillMissing(log0, log, p0, p)
    requires IsFrame(log0, p0, e) && |log| <= p0 + 255 * NUM_CHUNKS
    ensures polls <= e - p0 || |content| < PAYLOAD_SIZE * (e + 1 - p0)
  {
    FrameStays(log0, log, p0, e);
  }

  lemma ChunkSpecMoves(log0: seq<Chunk>, log: seq<Chunk>, p0: nat, s0: nat, p1: nat, s1: nat, r: ChunkRead,
                       bytes: seq<Byte>)
    requires ChunkSpec(log0, log, p0, s0, p1, s1, r, bytes)
    ensures r.NoData? ==> p1 == p0 && s1 == s0
    ensures r.Data? || r.BadChunk? ==> p1 == p0 + 1 && s1 == p0 && p0 < |log|
    ensures GoodLog(log) && log0 <= log
  {
  }

  // ---------------------------------------------------------------------------------------------
  // Reading in place and skipping
  // ---------------------------------------------------------------------------------------------

  /** What one call of `exanic_receive_chunk_inplace` promises. */
  ghost predicate InplaceSpec(log0: seq<Chunk>, log: seq<Chunk>, p0: nat, s0: nat, p1: nat, s1: nat, r: ChunkRead) {
    && GoodLog(log) && log0 <= log
    && match r
       case NoData =>
         p1 == p0 && s1 == s0 && (|log| <= p0 + 255 * NUM_CHUNKS ==> |log0| <= p0)
       case Data(size, more) =>
         && p1 == p0 + 1 && s1 == s0 && p0 < |log|
         && (InTime(log, p0 - 1) ==>
               && more == !IsEnd(log, p0) && size == ChunkSize(log[p0])
               && (!more ==> log[p0].info.status % STATUS_ERRORS == 0))
       case BadChunk(code) =>
         && p1 == p0 + 1 && s1 == s0 && p0 < |log|
         && (InTime(log, p0 - 1) ==> IsEnd(log, p0) && code == log[p0].info.status % STATUS_ERRORS != 0)
       case Lapped =>
         exists w: nat :: |log0| <= w && p0 + NUM_CHUNKS < w && Recovered(w, log, s1) && p1 == s1 + 1
  }

  lemma InplaceDone(log0: seq<Chunk>, log: seq<Chunk>, p0: nat, s0: nat, seen: Chunk, r: ChunkRead)
    requires GoodLog(log) && log0 <= log && p0 < |log|
    requires r == if seen.info.length != 0 && seen.info.status % STATUS_ERRORS != 0
                  then BadChunk(seen.info.status % STATUS_ERRORS)
                  else Data(ChunkSize(seen), seen.info.length == 0)
    requires InTime(log, p0 - 1) ==> seen == log[p0]
    ensures InplaceSpec(log0, log, p0, s0, p0 + 1, s0, r)
  {
  }

  lemma InplaceNoData(log0: seq<Chunk>, log: seq<Chunk>, p0: nat, s0: nat)
    requires GoodLog(log) && log0 <= log
    requires |log| <= p0 + 255 * NUM_CHUNKS ==> |log| == p0
    ensures InplaceSpec(log0, log, p0, s0, p0, s0, NoData)
  {
  }

  lemma InplaceLapped(log0: seq<Chunk>, log: seq<Chunk>, p0: nat, s0: nat, w: nat, s1: nat)
    requires GoodLog(log) && log0 <= log && |log0| <= w && p0 + NUM_CHUNKS < w && Recovered(w, log, s1)
    ensures InplaceSpec(log0, log, p0, s0, s1 + 1, s1, Lapped)
  {
  }

  datatype Aborted = Skipped(code: nat) | AbortLapped | AbortWaiting

  /** What one call of `exanic_receive_abort` promises. */
  ghost predicate AbortSpec(log: seq<Chunk>, p0: nat, s0: nat, p1: nat, s1: nat, r: Aborted) {
    match r
    case Skipped(code) =>
      && s1 == s0
      && (InTime(log, p0 - 1) ==> IsFrame(log, p0, p1 - 1) && code == log[p1 - 1].info.status % STATUS_ERRORS)
    case AbortLapped =>
      exists w: nat :: p0 + NUM_CHUNKS < w && Recovered(w, log, s1) && p1 == s1 + 1
    case AbortWaiting =>
      s1 == s0 && p0 <= p1 && (InTime(log, p0 - 1) ==> NoEnd(log, p0, p1))
  }

  lemma AbortDone(log: seq<Chunk>, p0: nat, s0: nat, p: nat, seen: Chunk, r: Aborted)
    requires p0 <= p < |log| && r == Skipped(seen.info.status % STATUS_ERRORS) && seen.info.length != 0
    requires InTime(log, p0 - 1) ==> seen == log[p] && NoEnd(log, p0, p)
    ensures AbortSpec(log, p0, s0, p + 1, s0, r)
  {
  }

  lemma AbortCaughtUp(log: seq<Chunk>, p0: nat, s0: nat, w: nat, s1: nat)
    requires p0 + NUM_CHUNKS < w && Recovered(w, log, s1)
    ensures AbortSpec(log, p0, s0, s1 + 1, s1, AbortLapped)
  {
  }

  lemma AbortWaits(log: seq<Chunk>, p0: nat, s0: nat, p: nat)
    requires p0 <= p && (InTime(log, p0 - 1) ==> NoEnd(log, p0, p))
    ensures AbortSpec(log, p0, s0, p, s0, AbortWaiting)
  {
  }

  lemma NoEndPrefix(log0: seq<Chunk>, log: seq<Chunk>, p: nat, q: nat)
    requires log0 <= log && q <= |log0|
    ensures NoEnd(log0, p, q) ==> NoEnd(log, p, q)
  {
    assert forall i :: 0 <= i < q ==> IsEnd(log, i) == IsEnd(log0, i);
  }

  /** Skipping ends at the frame's end if that was there when the call began. */
  lemma CompleteFrameIsSkipped(log0: seq<Chunk>, log: seq<Chunk>, p0: nat, s0: nat, p1: nat, s1: nat, r: Aborted,
                               polls: nat, e: nat)
    requires AbortSpec(log, p0, s0, p1, s1, r) && log0 <= log
    requires r.AbortWaiting? ==> polls <= p1 - p0 || StillMissing(log0, log, p0, p1)
    requires IsFrame(log0, p0, e) && e - p0 < polls && |log| <= p0 + 255 * NUM_CHUNKS
    ensures r.AbortLapped? ==> !NotLapped(log, p0 - 1)
    ensures !r.AbortLapped? ==>
              e < |log| && r == Skipped(log[e].info.status % STATUS_ERRORS) && p1 == e + 1 && s1 == s0
  {
    FrameStays(log0, log, p0, e);
    if r.Skipped? {
      FrameUnique(log, p0, p1 - 1, e);
    }
  }

  /** Reading some chunks of a frame and then skipping the rest leaves the reader where reading the whole
      frame would have left it. */
  lemma AbortEndsTheFrame(log0: seq<Chunk>, log: seq<Chunk>, p0: nat, s0: nat, p: nat, s: nat, size: nat, content: seq<Byte>,
                          p1: nat, s1: nat, code: nat, e: int)
    requires Collecting(log0, p0, s0, p, s, size, content) && log0 <= log && InTime(log, p0 - 1)
    requires AbortSpec(log, p, s, p1, s1, Skipped(code))
    ensures IsFrame(log, p0, p1 - 1)
    ensures IsFrame(log, p0, e) ==> p1 == e + 1
  {
    NoEndPrefix(log0, log, p0, p);
    if IsFrame(log, p0, e) {
      FrameUnique(log, p0, p1 - 1, e);
    }
  }

  // ---------------------------------------------------------------------------------------------
  // Status codes
  // ---------------------------------------------------------------------------------------------

  /** A status byte as the device puts it together: the matched filter's region in the high four bits; in the
      low four 0 for a good frame, 1 for an aborted, 2 for a corrupt one, 3 for a hardware overflow. */
  predicate HasStatus(log: seq<Chunk>, p: int, region: nat, code: nat) {
    && 0 <= p < |log| && region < 16 && code < 16
    && log[p].info.status == 16 * region + code
  }

  lemma ErrorBits(log: seq<Chunk>, p: int, region: nat, code: nat)
    requires HasStatus(log, p, region, code)
    ensures log[p].info.status % STATUS_ERRORS == code
  {
  }

  /** A frame is delivered as good only if its code is 0, and otherwise reported with its code; the filter
      region makes no difference. */
  lemma ReceivedStatus(log0: seq<Chunk>, log: seq<Chunk>, p0: nat, s0: nat, p1: nat, s1: nat, r: Received,
                       content: seq<Byte>, region: nat, code: nat)
    requires ReceiveSpec(log0, log, p0, s0, p1, s1, r, content) && (r.Frame? || r.Bad?)
    requires InTime(log, p0 - 1) && HasStatus(log, p1 - 1, region, code)
    ensures r.Frame? <==> code == 0
    ensures r.Bad? ==> r.code == code
  {
    ErrorBits(log, p1 - 1, region, code);
  }

  /** What a complete frame with a given code amounts to. */
  lemma ExpectedStatus(log: seq<Chunk>, p: nat, e: nat, capacity: nat, region: nat, code: nat)
    requires GoodLog(log) && p <= e && HasStatus(log, e, region, code) && |FrameBytes(log, p, e)| <= capacity
    ensures Expected(log, p, e, capacity)
            == if code == 0 then Frame(|FrameBytes(log, p, e)|, log[e].info.timestamp) else Bad(code)
  {
    ErrorBits(log, e, region, code);
  }

  /** The capture reader reports the code beside the frame. */
  lemma ReceivedStatusEx(log0: seq<Chunk>, log: seq<Chunk>, p0: nat, p1: nat, r: Received, status: nat,
                         content: seq<Byte>, region: nat, code: nat)
    requires ReceiveExSpec(log0, log, p0, p1, r, status, content) && r.Frame?
    requires InTime(log, p0 - 1) && HasStatus(log, p1 - 1, region, code)
    ensures status == code
  {
    ErrorBits(log, p1 - 1, region, code);
  }

  /** Chunk by chunk, copied or in place, the code of the last chunk decides. */
  lemma ChunkStatus(log0: seq<Chunk>, log: seq<Chunk>, p0: nat, s0: nat, p1: nat, s1: nat, r: ChunkRead,
                    bytes: seq<Byte>, region: nat, code: nat)
    requires ChunkSpec(log0, log, p0, s0, p1, s1, r, bytes) || InplaceSpec(log0, log, p0, s0, p1, s1, r)
    requires (r.Data? && !r.more) || r.BadChunk?
    requires InTime(log, p0 - 1) && HasStatus(log, p0, region, code)
    ensures r.Data? <==> code == 0
    ensures r.BadChunk? ==> r.code == code
  {
    ErrorBits(log, p0, region, code);
  }

  /** Skipping reports the code of the frame that was skipped. */
  lemma SkippedStatus(log: seq<Chunk>, p0: nat, s0: nat, p1: nat, s1: nat, r: Aborted, region: nat, code: nat)
    requires AbortSpec(log, p0, s0, p1, s1, r) && r.Skipped?
    requires InTime(log, p0 - 1) && HasStatus(log, p1 - 1, region, code)
    ensures r.code == code
  {
    ErrorBits(log, p1 - 1, region, code);
  }
}
