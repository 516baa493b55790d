/**
  The recovery scan of the receive ring.

  The reader goes through the slots from the last to the first while the device keeps writing, so every
  slot is seen at its own moment.  A scan state records, as absolute positions, what the scan's
  variables stand for.
 */
module RxScan {
  import opened Words
  import opened RxStream

  /**
    `chunk` slots are still to be read.  `top` is the position seen in the last slot of the ring, `last`
    the one seen most recently and `brk` the one at which the generation was last seen to change;
    `eof` is the end-of-frame chunk the scan would settle for, if `eofFound`.
   */
  datatype Scan = Scan(chunk: nat, top: nat, last: nat, brk: nat, eof: nat, beforeBreak: bool, eofFound: bool)

  const BEGIN := Scan(NUM_CHUNKS, 0, 0, 0, 0, false, false)

  /** One more slot is read and shows position `q`. */
  function Look(log: seq<Chunk>, sc: Scan, base: Byte, q: nat): Scan
    requires q < |log|
  {
    var changed := sc.chunk < NUM_CHUNKS && Gen(base, q) != Gen(base, sc.last);
    var before := sc.beforeBreak || changed;
    var isEnd := log[q].info.length != 0;
    Scan(Slot(q),
         if sc.chunk == NUM_CHUNKS then q else sc.top,
         q,
         if sc.chunk == NUM_CHUNKS || changed then q else sc.brk,
         if isEnd && (before || !sc.eofFound) then q else sc.eof,
         before,
         sc.eofFound || isEnd)
  }

  /** The same step in terms of the scan's own variables. */
  lemma LookFacts(log: seq<Chunk>, sc: Scan, base: Byte, q: nat)
    requires q < |log| && sc.chunk > 0 && sc.chunk <= NUM_CHUNKS
    requires sc.chunk == NUM_CHUNKS ==> !sc.beforeBreak && !sc.eofFound
    requires sc.chunk < NUM_CHUNKS ==> Gen(base, sc.brk) == Gen(base, sc.last)
    ensures var sc' := Look(log, sc, base, q);
            var first := sc.chunk == NUM_CHUNKS;
            var changed := !first && Gen(base, q) != Gen(base, sc.brk);
            && sc'.chunk == Slot(q) && sc'.last == q
            && sc'.beforeBreak == (sc.beforeBreak || changed)
            && sc'.brk == (if first || changed then q else sc.brk)
            && Gen(base, sc'.brk) == Gen(base, q)
            && sc'.eofFound == (sc.eofFound || IsEnd(log, q))
            && sc'.eof == (if IsEnd(log, q) && (sc'.beforeBreak || !sc.eofFound) then q else sc.eof)
            && (Stops(log, sc') <==> sc'.beforeBreak && IsEnd(log, q))
  {
  }

  lemma BeginScan(log: seq<Chunk>)
    requires GoodLog(log)
    ensures ScanInv(|log|, log, BEGIN) && !Stops(log, BEGIN)
  {
  }

  lemma FreshScan(w: nat, log: seq<Chunk>, sc: Scan)
    requires ScanInv(w, log, sc)
    ensures sc.chunk == NUM_CHUNKS ==> !sc.beforeBreak && !sc.eofFound
  {
  }

  /** The scan stops at the first end-of-frame chunk before the break. */
  predicate Stops(log: seq<Chunk>, sc: Scan) {
    sc.beforeBreak && IsEnd(log, sc.last)
  }

  /** `x` ended a frame that was in the ring from when `w` chunks had been written until now. */
  predicate Stayed(w: nat, log: seq<Chunk>, x: nat) {
    x < w && IsEnd(log, x) && |log| <= x + NUM_CHUNKS
  }

  /** Every end-of-frame chunk that stayed in the ring and whose slot has been read is no later than the
      candidate. */
  ghost predicate Recent(w: nat, log: seq<Chunk>, sc: Scan) {
    forall x: nat :: Stayed(w, log, x) && Slot(x) >= sc.chunk ==> sc.eofFound && x <= sc.eof
  }

  /** What the scan maintains, having started when `w` chunks had been written. */
  ghost predicate Seen(w: nat, log: seq<Chunk>, sc: Scan) {
    && NUM_CHUNKS <= w <= |log|
    && sc.chunk <= NUM_CHUNKS
    && (sc.chunk == NUM_CHUNKS ==> !sc.beforeBreak && !sc.eofFound)
    && (sc.eofFound ==> w - NUM_CHUNKS <= sc.eof && IsEnd(log, sc.eof) && Slot(sc.eof) >= sc.chunk)
    && Recent(w, log, sc)
    && (sc.chunk < NUM_CHUNKS ==>
          && Slot(sc.top) == NUM_CHUNKS - 1 && Slot(sc.last) == sc.chunk
          && w - NUM_CHUNKS <= sc.top < |log| && w - NUM_CHUNKS <= sc.last < |log|
          && w - NUM_CHUNKS <= sc.brk < |log|
          && Lap(sc.top) <= Lap(sc.last)
          && (sc.beforeBreak ==> Lap(sc.top) < Lap(sc.last))
          && (|log| <= w + NUM_CHUNKS ==>
                && (sc.beforeBreak <==> Lap(sc.top) < Lap(sc.last))
                && (!Stops(log, sc) && sc.eofFound ==> Lap(sc.eof) == Lap(sc.top)))
          && (|log| == w ==> sc.brk == if sc.beforeBreak then w - 1 else sc.top))
  }

  /** The device has not run so far ahead during the scan that a generation number could come back. */
  predicate InReach(w: nat, log: seq<Chunk>) {
    |log| <= w + 254 * NUM_CHUNKS
  }

  /** `y` ended a frame that was in the ring when `w` chunks had been written, and the ring then held no
      frame end of an earlier lap. */
  ghost predicate Leading(w: nat, log: seq<Chunk>, y: nat) {
    && y < w <= y + NUM_CHUNKS && IsEnd(log, y)
    && forall x: nat :: x < y && w <= x + NUM_CHUNKS && IsEnd(log, x) ==> Lap(x) == Lap(y)
  }

  /** The slot of `y` has been read: the candidate is at least as recent, and it stays so because either
      the slot was overwritten or the scan is still in front of the break. */
  predicate Passed(log: seq<Chunk>, sc: Scan, y: nat) {
    && (sc.eofFound ==> y <= sc.eof)
    && (Lap(y) < Lap(sc.last) || (sc.eofFound && (Lap(y) <= Lap(sc.top) || Stops(log, sc))))
  }

  /** A frame end that led the ring when the scan began is not missed even if it is overwritten before the
      scan comes to it. */
  ghost predicate Leads(w: nat, log: seq<Chunk>, sc: Scan) {
    InReach(w, log) && sc.chunk < NUM_CHUNKS ==>
      && (sc.beforeBreak <==> Lap(sc.top) < Lap(sc.last))
      && Lap(sc.brk) == Lap(sc.last) && Slot(sc.brk) >= sc.chunk
      && forall y: nat :: Leading(w, log, y) && Slot(y) >= sc.chunk ==> Passed(log, sc, y)
  }

  ghost predicate ScanInv(w: nat, log: seq<Chunk>, sc: Scan) {
    Seen(w, log, sc) && Leads(w, log, sc)
  }

  /** Everything that is claimed while more is written can only become weaker. */
  lemma ScanWhileWriting(w: nat, log: seq<Chunk>, log': seq<Chunk>, sc: Scan)
    requires ScanInv(w, log, sc) && !Stops(log, sc) && log <= log'
    ensures ScanInv(w, log', sc) && !Stops(log', sc)
  {
    SeenWhileWriting(w, log, log', sc);
    LeadsWhileWriting(w, log, log', sc);
  }

  lemma LeadsWhileWriting(w: nat, log: seq<Chunk>, log': seq<Chunk>, sc: Scan)
    requires Seen(w, log, sc) && Leads(w, log, sc) && !Stops(log, sc) && log <= log'
    ensures Leads(w, log', sc)
  {
    if InReach(w, log') && sc.chunk < NUM_CHUNKS {
      forall y: nat | Leading(w, log', y) && Slot(y) >= sc.chunk
        ensures Passed(log', sc, y)
      {
        LeadingBefore(w, log, log', y);
        assert Passed(log, sc, y);
      }
    }
  }

  lemma LeadingBefore(w: nat, log: seq<Chunk>, log': seq<Chunk>, y: nat)
    requires w <= |log| && log <= log' && Leading(w, log', y)
    ensures Leading(w, log, y)
  {
    assert forall x: nat :: x < w ==> IsEnd(log, x) == IsEnd(log', x);
  }

  lemma SeenWhileWriting(w: nat, log: seq<Chunk>, log': seq<Chunk>, sc: Scan)
    requires Seen(w, log, sc) && !Stops(log, sc) && log <= log'
    ensures Seen(w, log', sc) && !Stops(log', sc)
  {
    forall x: nat | Stayed(w, log', x) && Slot(x) >= sc.chunk
      ensures sc.eofFound && x <= sc.eof
    {
      assert Stayed(w, log, x);
    }
  }

  /** Reading one more slot keeps the invariant, in particular: the candidate stays at least as recent as
      every end-of-frame chunk that has been in the ring all the time. */
  lemma LookKeepsInv(w: nat, log: seq<Chunk>, sc: Scan, base: Byte)
    requires ScanInv(w, log, sc) && sc.chunk > 0 && !Stops(log, sc)
    ensures ScanInv(w, log, Look(log, sc, base, Latest(|log|, sc.chunk - 1)))
  {
    LookKeepsSeen(w, log, sc, base);
    LookKeepsLeads(w, log, sc, base);
  }

  lemma LookKeepsLeads(w: nat, log: seq<Chunk>, sc: Scan, base: Byte)
    requires ScanInv(w, log, sc) && sc.chunk > 0 && !Stops(log, sc)
    ensures Leads(w, log, Look(log, sc, base, Latest(|log|, sc.chunk - 1)))
  {
    hide Recent;
    var q := Latest(|log|, sc.chunk - 1);
    var sc' := Look(log, sc, base, q);
    if InReach(w, log) {
      if sc.chunk < NUM_CHUNKS {
        SameGeneration(base, log, w, sc.last, q);
      }
      forall y: nat | Leading(w, log, y) && Slot(y) >= sc'.chunk
        ensures Passed(log, sc', y)
      {
        if Slot(y) >= sc.chunk {
          StillPassed(w, log, sc, base, q, y);
        } else {
          JustPassed(w, log, sc, base, q, y);
        }
      }
    }
  }

  /** Within reach, the generation of the next slot differs exactly when its lap does, which is then later. */
  lemma SameGeneration(base: Byte, log: seq<Chunk>, w: nat, last: nat, q: nat)
    requires NUM_CHUNKS <= w <= |log| && InReach(w, log) && w <= last + NUM_CHUNKS && last < |log|
    requires Slot(last) > 0 && q == Latest(|log|, Slot(last) - 1)
    ensures Lap(last) <= Lap(q)
    ensures Gen(base, q) == Gen(base, last) <==> Lap(q) == Lap(last)
  {
    LatestAfter(|log|, last, q);
    LapsApart(w, |log|, last, q);
    GenDistance(base, q, last);
  }

  lemma LapsApart(w: nat, n: nat, a: nat, b: nat)
    requires w <= a + NUM_CHUNKS && b < n <= w + 254 * NUM_CHUNKS
    ensures Lap(b) <= Lap(a) + 255
  {
  }

  lemma StillPassed(w: nat, log: seq<Chunk>, sc: Scan, base: Byte, q: nat, y: nat)
    requires ScanInv(w, log, sc) && 0 < sc.chunk < NUM_CHUNKS && !Stops(log, sc) && InReach(w, log)
    requires q == Latest(|log|, sc.chunk - 1) && Leading(w, log, y) && Slot(y) >= sc.chunk
    ensures Passed(log, Look(log, sc, base, q), y)
  {
    hide Recent, Leading;
    assert Passed(log, sc, y);
    SameGeneration(base, log, w, sc.last, q);
  }

  lemma JustPassed(w: nat, log: seq<Chunk>, sc: Scan, base: Byte, q: nat, y: nat)
    requires ScanInv(w, log, sc) && 0 < sc.chunk && !Stops(log, sc) && InReach(w, log)
    requires q == Latest(|log|, sc.chunk - 1) && Leading(w, log, y) && Slot(y) == sc.chunk - 1
    ensures Passed(log, Look(log, sc, base, q), y)
  {
    hide Recent;
    if sc.chunk < NUM_CHUNKS {
      SameGeneration(base, log, w, sc.last, q);
    }
    if sc.eofFound {
      NotOlder(w, log, y, sc.eof);
    }
    SameSlot(|log|, y, q);
  }

  /** No frame end found in a later slot is older than one that led the ring. */
  lemma NotOlder(w: nat, log: seq<Chunk>, y: nat, e: nat)
    requires Leading(w, log, y) && IsEnd(log, e) && w <= e + NUM_CHUNKS && Slot(e) > Slot(y)
    ensures y <= e
  {
  }

  lemma SameSlot(n: nat, y: nat, q: nat)
    requires NUM_CHUNKS <= n && y < n && q == Latest(n, Slot(y))
    ensures y == q || Lap(y) < Lap(q)
  {
  }

  lemma LookKeepsSeen(w: nat, log: seq<Chunk>, sc: Scan, base: Byte)
    requires Seen(w, log, sc) && sc.chunk > 0 && !Stops(log, sc)
    ensures Seen(w, log, Look(log, sc, base, Latest(|log|, sc.chunk - 1)))
  {
    var q := Latest(|log|, sc.chunk - 1);
    var sc' := Look(log, sc, base, q);
    if sc.chunk < NUM_CHUNKS {
      GenDistance(base, q, sc.last);
      LatestAfter(|log|, sc.last, q);
    }
    LookIsRecent(w, log, sc, base, q);
  }

  /** The slot before the one last read shows a position no earlier than the one before the last. */
  lemma LatestAfter(w: nat, last: nat, q: nat)
    requires NUM_CHUNKS <= w && last < w && Slot(last) > 0 && q == Latest(w, Slot(last) - 1)
    ensures last - 1 <= q && Lap(last) <= Lap(q)
  {
    LatestRelative(w, last - 1);
  }

  lemma LookIsRecent(w: nat, log: seq<Chunk>, sc: Scan, base: Byte, q: nat)
    requires Seen(w, log, sc) && sc.chunk > 0 && !Stops(log, sc) && q == Latest(|log|, sc.chunk - 1)
    ensures Recent(w, log, Look(log, sc, base, q))
  {
    var sc' := Look(log, sc, base, q);
    if sc.chunk < NUM_CHUNKS {
      GenDistance(base, q, sc.last);
      LatestAfter(|log|, sc.last, q);
    }
    forall x: nat | Stayed(w, log, x) && Slot(x) >= sc'.chunk
      ensures sc'.eofFound && x <= sc'.eof
    {
      if Slot(x) == sc'.chunk {
        LatestUnique(|log|, x);
      }
    }
  }

  /** The position after which the reader continues, and what is known about it. */
  function Outcome(sc: Scan): nat {
    if sc.eofFound then sc.eof else sc.brk
  }

  /** A finished scan that started when `w` chunks had been written leaves the reader after `last`:
      a chunk that was in the ring during the scan; an end of frame at least as recent as every one that
      stayed in the ring; and with no writing in between, the last chunk written if the ring held no end
      of frame at all.  If the frame end `y` was there when the scan began and no frame end of an earlier
      lap was, the reader does not fall behind `y`, whatever is overwritten during the scan. */
  ghost predicate Recovered(w: nat, log: seq<Chunk>, last: nat) {
    && NUM_CHUNKS <= w <= |log|
    && w - NUM_CHUNKS <= last < |log|
    && (forall x: nat :: Stayed(w, log, x) ==> IsEnd(log, last) && x <= last)
    && (InReach(w, log) ==> forall y: nat :: Leading(w, log, y) ==> y <= last)
    && (|log| == w && !IsEnd(log, last) ==> last == w - 1)
  }

  lemma ScanFinishes(w: nat, log: seq<Chunk>, sc: Scan)
    requires ScanInv(w, log, sc) && sc.chunk < NUM_CHUNKS && (sc.chunk == 0 || Stops(log, sc))
    requires Stops(log, sc) ==> sc.eofFound && sc.eof == sc.last
    ensures Recovered(w, log, Outcome(sc))
  {
    hide Leads;
    forall x: nat | Stayed(w, log, x)
      ensures sc.eofFound && x <= sc.eof
    {
      if Slot(x) < sc.chunk {
        StoppedIsRecent(w, log, sc, x);
      }
    }
    if InReach(w, log) {
      forall y: nat | Leading(w, log, y)
        ensures y <= Outcome(sc)
      {
        LeadFinishes(w, log, sc, y);
      }
    }
  }

  lemma LeadFinishes(w: nat, log: seq<Chunk>, sc: Scan, y: nat)
    requires ScanInv(w, log, sc) && sc.chunk < NUM_CHUNKS && (sc.chunk == 0 || Stops(log, sc))
    requires Stops(log, sc) ==> sc.eofFound && sc.eof == sc.last
    requires InReach(w, log) && Leading(w, log, y)
    ensures y <= Outcome(sc)
  {
    hide Recent;
    if Slot(y) >= sc.chunk {
      assert Passed(log, sc, y);
    }
  }

  /** Slots that a stopped scan did not read hold nothing more recent than where it stopped. */
  lemma StoppedIsRecent(w: nat, log: seq<Chunk>, sc: Scan, x: nat)
    requires Seen(w, log, sc) && sc.chunk < NUM_CHUNKS && Stops(log, sc)
    requires Stayed(w, log, x) && Slot(x) < sc.chunk
    ensures x <= sc.last
  {
  }

  lemma RecoveredBounds(w: nat, log: seq<Chunk>, last: nat)
    requires Recovered(w, log, last)
    ensures w - NUM_CHUNKS <= last < |log|
  {
  }

  /** With the ring at rest, the scan finds the most recent end of frame exactly. */
  lemma RecoveredAtRest(log: seq<Chunk>, last: nat)
    requires GoodLog(log) && Recovered(|log|, log, last)
    ensures (exists x: nat :: Stayed(|log|, log, x)) ==> Stayed(|log|, log, last)
    ensures forall x :: last < x < |log| ==> !IsEnd(log, x)
    ensures !(exists x: nat :: Stayed(|log|, log, x)) ==> last == |log| - 1
  {
    forall x | last < x < |log|
      ensures !IsEnd(log, x)
    {
      if IsEnd(log, x) {
        assert Stayed(|log|, log, x);
      }
    }
    if IsEnd(log, last) {
      assert Stayed(|log|, log, last);
    }
  }

  // ---------------------------------------------------------------------------------------------
  // Whole scans
  // ---------------------------------------------------------------------------------------------

  /** `logs[i]` is what the device had written when slot `NUM_CHUNKS - 1 - i` was read. */
  ghost predicate Growing(logs: seq<seq<Chunk>>) {
    && |logs| <= NUM_CHUNKS
    && (forall i :: 0 <= i < |logs| ==> GoodLog(logs[i]))
    && forall i, j :: 0 <= i && j == i + 1 < |logs| ==> logs[i] <= logs[j]
  }

  /** The state of the scan after its first `n` looks. */
  ghost function Looked(logs: seq<seq<Chunk>>, base: Byte, n: nat): Scan
    requires Growing(logs) && n <= |logs|
  {
    if n == 0 then BEGIN
    else Look(logs[n - 1], Looked(logs, base, n - 1), base, Latest(|logs[n - 1]|, NUM_CHUNKS - n))
  }

  /** The looks make up one run of the scan: it stopped at the last of them, and not before. */
  ghost predicate WholeScan(logs: seq<seq<Chunk>>, base: Byte) {
    && Growing(logs) && |logs| > 0
    && (forall n: nat :: 0 < n < |logs| ==> !Stops(logs[n - 1], Looked(logs, base, n)))
    && (|logs| == NUM_CHUNKS || Stops(logs[|logs| - 1], Looked(logs, base, |logs|)))
  }

  lemma {:induction false} LookedInv(logs: seq<seq<Chunk>>, base: Byte, n: nat)
    requires WholeScan(logs, base) && 0 < n <= |logs|
    ensures Looked(logs, base, n).chunk == NUM_CHUNKS - n
    ensures ScanInv(|logs[0]|, logs[n - 1], Looked(logs, base, n))
    ensures var sc := Looked(logs, base, n);
            Stops(logs[n - 1], sc) ==> sc.eofFound && sc.eof == sc.last
    decreases n
  {
    hide ScanInv;
    var log := logs[n - 1];
    if n == 1 {
      BeginScan(log);
      LookKeepsInv(|log|, log, BEGIN, base);
    } else {
      LookedInv(logs, base, n - 1);
      var sc := Looked(logs, base, n - 1);
      ScanWhileWriting(|logs[0]|, logs[n - 2], log, sc);
      LookKeepsInv(|logs[0]|, log, sc, base);
    }
  }

  /** Every run of the scan, whatever the device writes in between, leaves the reader where `Recovered` says. */
  lemma WholeScanRecovers(logs: seq<seq<Chunk>>, base: Byte)
    requires WholeScan(logs, base)
    ensures Recovered(|logs[0]|, logs[|logs| - 1], Outcome(Looked(logs, base, |logs|)))
  {
    LookedInv(logs, base, |logs|);
    ScanFinishes(|logs[0]|, logs[|logs| - 1], Looked(logs, base, |logs|));
  }
}
