/** The receive side of the driver: the shared ring, the device that writes it, and the reader. */
module RxRing {
  import opened Words
  import opened RxStream
  import opened RxScan
  import opened RxFrame

  /** The header of a position as it lies in memory. */
  function HeaderOf(base: Byte, log: seq<Chunk>, p: nat): Header
    requires p < |log|
  {
    Header(log[p].info, Gen(base, p))
  }

  /** The memory shows the log: every header is the one last written to its slot, and so is every payload
      except in the slot the device writes next, where a new payload may be partly written. */
  ghost predicate Shows(base: Byte, log: seq<Chunk>, headers: seq<Header>, payloads: seq<seq<Byte>>) {
    && GoodLog(log)
    && |headers| == |payloads| == NUM_CHUNKS
    && (forall s :: 0 <= s < NUM_CHUNKS ==> headers[s] == HeaderOf(base, log, Latest(|log|, s)))
    && (forall s :: 0 <= s < NUM_CHUNKS ==> |payloads[s]| == PAYLOAD_SIZE)
    && (forall s :: 0 <= s < NUM_CHUNKS && s != Slot(|log|) ==> payloads[s] == log[Latest(|log|, s)].payload)
  }

  lemma ShowsHeader(base: Byte, log: seq<Chunk>, headers: seq<Header>, payloads: seq<seq<Byte>>, s: nat)
    requires Shows(base, log, headers, payloads) && s < NUM_CHUNKS
    ensures GoodLog(log) && |headers| == |payloads| == NUM_CHUNKS
    ensures headers[s] == HeaderOf(base, log, Latest(|log|, s))
    ensures GoodChunk(log[Latest(|log|, s)])
  {
  }

  /** The payload of a position is intact until the device reaches the same slot again. */
  lemma ShowsPayload(base: Byte, log: seq<Chunk>, headers: seq<Header>, payloads: seq<seq<Byte>>, p: nat)
    requires Shows(base, log, headers, payloads) && p < |log|
    ensures |payloads| == NUM_CHUNKS && |payloads[Slot(p)]| == PAYLOAD_SIZE && |log[p].payload| == PAYLOAD_SIZE
    ensures |log| < p + NUM_CHUNKS ==> payloads[Slot(p)] == log[p].payload
  {
    if |log| < p + NUM_CHUNKS {
      LatestUnique(|log|, p);
      LatestRelative(|log|, p);
    }
  }

  lemma ShowsTorn(base: Byte, log: seq<Chunk>, headers: seq<Header>, payloads: seq<seq<Byte>>, torn: seq<Byte>)
    requires Shows(base, log, headers, payloads) && |torn| == PAYLOAD_SIZE
    ensures Shows(base, log, headers, payloads[Slot(|log|) := torn])
  {
  }

  lemma ShowsPublished(base: Byte, log: seq<Chunk>, headers: seq<Header>, payloads: seq<seq<Byte>>, c: Chunk)
    requires Shows(base, log, headers, payloads) && GoodChunk(c)
    ensures Shows(base, log + [c], headers[Slot(|log|) := HeaderOf(base, log + [c], |log|)],
                  payloads[Slot(|log|) := c.payload])
  {
    var log' := log + [c];
    forall s | 0 <= s < NUM_CHUNKS
      ensures Latest(|log'|, s) == if s == Slot(|log|) then |log| else Latest(|log|, s)
      ensures s != Slot(|log|) ==> HeaderOf(base, log', Latest(|log'|, s)) == HeaderOf(base, log, Latest(|log|, s))
    {
      LatestStep(|log|, s);
    }
  }

  class Rx {
    const headers: array<Header>
    const payloads: array<seq<Byte>>
    // The generation of the uninitialized ring; the reader does not know it.
    ghost const base: Byte

    var nextChunk: nat
    var generation: Byte
    var sentinelChunk: nat
    var sentinelGeneration: Byte

    // The device's own place in the ring.
    var deviceSlot: nat
    var deviceGeneration: Byte

    // What the device has written, and the positions the reader's fields stand for.
    ghost var log: seq<Chunk>
    ghost var position: nat
    ghost var sentinel: nat

    ghost predicate Memory()
      reads this, headers, payloads
    {
      && headers as object != payloads as object
      && Shows(base, log, headers[..], payloads[..])
      && deviceSlot == Slot(|log|)
      && deviceGeneration == Gen(base, |log|)
    }

    ghost predicate Placed()
      reads this
    {
      nextChunk == Slot(position) && generation == Gen(base, position)
    }

    ghost predicate Reader()
      reads this
    {
      && Placed()
      && sentinelChunk == Slot(sentinel)
      && sentinelGeneration == Gen(base, sentinel)
      && sentinel < position <= |log|
    }

    ghost predicate Valid()
      reads this, headers, payloads
    {
      Memory() && Reader()
    }

    // -------------------------------------------------------------------------------------------
    // The device
    // -------------------------------------------------------------------------------------------

    /** The device writes some of the payload of the next chunk. */
    method DeviceWritesPayload(torn: seq<Byte>)
      requires Memory() && |torn| == PAYLOAD_SIZE
      modifies payloads
      ensures Memory()
    {
      hide Shows, Gen, Slot;
      ShowsHeader(base, log, headers[..], payloads[..], 0);
      ShowsTorn(base, log, headers[..], payloads[..], torn);
      payloads[deviceSlot] := torn;
      assert payloads[..] == old(payloads[..])[Slot(|log|) := torn];
      assert headers[..] == old(headers[..]);
    }

    /** The device completes the next chunk by writing its header. */
    method DevicePublishes(c: Chunk)
      requires Memory() && GoodChunk(c)
      modifies headers, payloads, this`log, this`deviceSlot, this`deviceGeneration
      ensures Memory() && log == old(log) + [c]
    {
      hide Shows, Gen, Slot;
      ShowsHeader(base, log, headers[..], payloads[..], 0);
      ShowsPublished(base, log, headers[..], payloads[..], c);
      NextPlace(base, |log|);
      payloads[deviceSlot] := c.payload;
      headers[deviceSlot] := Header(c.info, deviceGeneration);
      ghost var slot := Slot(|log|);
      log := log + [c];
      assert payloads[..] == old(payloads[..])[slot := c.payload];
      assert headers[..] == old(headers[..])[slot := HeaderOf(base, log, |log| - 1)];
      deviceSlot := deviceSlot + 1;
      if deviceSlot == NUM_CHUNKS {
        deviceSlot := 0;
        deviceGeneration := NextGen(deviceGeneration);
      }
    }

    /** Between any two steps of the reader the device may do anything: complete any number of chunks and
        leave another one partly written. */
    method DeviceRuns()
      requires Memory()
      modifies headers, payloads, this`log, this`deviceSlot, this`deviceGeneration
      ensures Memory() && old(log) <= log
    {
      hide Memory;
      var rounds :| 0 <= rounds;
      for i := 0 to rounds
        invariant Memory() && old(log) <= log
      {
        assert GoodChunk(Chunk(seq(PAYLOAD_SIZE, _ => 0), Info(0, 0, 0, 0)));
        var c: Chunk :| GoodChunk(c);
        DevicePublishes(c);
      }
      assert |seq(PAYLOAD_SIZE, _ => 0)| == PAYLOAD_SIZE;
      var torn: seq<Byte> :| |torn| == PAYLOAD_SIZE;
      DeviceWritesPayload(torn);
    }

    // -------------------------------------------------------------------------------------------
    // The reader
    // -------------------------------------------------------------------------------------------

    /** `memcpy` out of the ring, byte by byte, while the device keeps running.  If the device has not come
        back to the slot by the end, the bytes are those of position `p`. */
    method CopyPayload(dst: array<Byte>, at: nat, count: nat, slot: nat, ghost p: nat)
      requires Memory() && dst as object != headers as object && dst as object != payloads as object
      requires slot == Slot(p) && p < |log|
      requires count <= PAYLOAD_SIZE && at + count <= dst.Length
      modifies dst, headers, payloads, this`log, this`deviceSlot, this`deviceGeneration
      ensures Memory() && old(log) <= log
      ensures |log| < p + NUM_CHUNKS ==> |log[p].payload| == PAYLOAD_SIZE && dst[at..at + count] == log[p].payload[..count]
      ensures dst[..at] == old(dst[..at]) && dst[at + count..] == old(dst[at + count..])
    {
      hide Shows, Gen, Slot;
      ShowsPayload(base, log, headers[..], payloads[..], p);
      for i := 0 to count
        invariant Memory() && old(log) <= log
        invariant |log[p].payload| == PAYLOAD_SIZE
        invariant |log| < p + NUM_CHUNKS ==> dst[at..at + i] == log[p].payload[..i]
        invariant dst[..at] == old(dst[..at]) && dst[at + count..] == old(dst[at + count..])
      {
        DeviceRuns();
        ShowsPayload(base, log, headers[..], payloads[..], p);
        label Read:
        dst[at + i] := payloads[slot][i];
        assert headers[..] == old@Read(headers[..]) && payloads[..] == old@Read(payloads[..]);
      }
    }

    /** `__exanic_rx_catchup`: scan the ring backwards for the most recent end of frame, while the device
        keeps running. */
    method Catchup()
      requires Memory()
      modifies this, headers, payloads
      ensures Valid() && old(log) <= log
      ensures position == sentinel + 1 && Recovered(|old(log)|, log, sentinel) && GoodLog(log)
    {
      hide Shows, Gen, Slot, Latest, ScanInv, Recovered, Look, Stops;
      var eofGen: Byte, breakGen: Byte := 0, 0;
      var eofChunk, breakChunk, chunk := 0, 0, NUM_CHUNKS;
      var eofFound, beforeBreak := false, false;
      ghost var sc := BEGIN;
      ghost var w := |log|;
      ShowsGood(base, log, headers[..], payloads[..]);
      BeginScan(log);
      var stop := false;
      while chunk > 0 && !stop
        invariant Memory() && old(log) <= log && chunk == sc.chunk
        invariant ScanInv(w, log, sc) && stop == Stops(log, sc)
        invariant eofFound == sc.eofFound && beforeBreak == sc.beforeBreak
        invariant eofFound ==> eofChunk == Slot(sc.eof) && eofGen == Gen(base, sc.eof)
        invariant chunk < NUM_CHUNKS ==> breakChunk == Slot(sc.brk) && breakGen == Gen(base, sc.brk) == Gen(base, sc.last)
        invariant stop ==> eofFound && sc.eof == sc.last && chunk < NUM_CHUNKS
        decreases chunk, if stop then 0 else 1
      {
        chunk := chunk - 1;
        ghost var log0 := log;
        DeviceRuns();
        ScanWhileWriting(w, log0, log, sc);
        ShowsHeader(base, log, headers[..], payloads[..], chunk);
        LookKeepsInv(w, log, sc, base);
        FreshScan(w, log, sc);
        LookFacts(log, sc, base, Latest(|log|, chunk));
        sc := Look(log, sc, base, Latest(|log|, chunk));
        var u := headers[chunk];
        if chunk == NUM_CHUNKS - 1 {
          breakGen := u.generation;
          breakChunk := NUM_CHUNKS - 1;
        } else if u.generation != breakGen {
          beforeBreak := true;
          breakGen := u.generation;
          breakChunk := chunk;
        }
        if u.info.length != 0 {
          if beforeBreak {
            eofFound, eofGen, eofChunk := true, u.generation, chunk;
            stop := true;
          } else if !eofFound {
            eofFound, eofGen, eofChunk := true, u.generation, chunk;
          }
        }
      }
      ScanFinishes(w, log, sc);
      RecoveredBounds(w, log, Outcome(sc));
      ShowsGood(base, log, headers[..], payloads[..]);
      if eofFound {
        ContinueAfter(eofChunk, eofGen, Outcome(sc));
      } else {
        ContinueAfter(breakChunk, breakGen, Outcome(sc));
      }
    }

    /** Sets the reader to continue after the chunk at `last`. */
    method ContinueAfter(chunk: nat, gen: Byte, ghost last: nat)
      requires Memory() && last < |log| && chunk == Slot(last) && gen == Gen(base, last)
      modifies this`nextChunk, this`generation, this`sentinelChunk, this`sentinelGeneration
      modifies this`position, this`sentinel
      ensures Valid() && sentinel == last && position == last + 1
    {
      hide Shows, Gen, Slot;
      NextPlace(base, last);
      sentinel, position := last, last + 1;
      sentinelChunk, sentinelGeneration := chunk, gen;
      nextChunk, generation := chunk + 1, gen;
      if nextChunk == NUM_CHUNKS {
        nextChunk := 0;
        generation := NextGen(generation);
      }
    }

    /** Moves the reader to the next position. */
    method Advance()
      requires Placed()
      modifies this`nextChunk, this`generation, this`position
      ensures Placed() && position == old(position) + 1
    {
      hide Gen, Slot;
      NextPlace(base, position);
      nextChunk := nextChunk + 1;
      if nextChunk == NUM_CHUNKS {
        nextChunk := 0;
        generation := NextGen(generation);
      }
      position := position + 1;
    }

    /** Reads the header in a slot, after the device has run for a while. */
    method ReadHeader(slot: nat) returns (u: Header)
      requires Memory() && slot < NUM_CHUNKS
      modifies headers, payloads, this`log, this`deviceSlot, this`deviceGeneration
      ensures Memory() && old(log) <= log && GoodLog(log) && |log| >= NUM_CHUNKS
      ensures u == HeaderOf(base, log, Latest(|log|, slot)) && GoodChunk(log[Latest(|log|, slot)])
    {
      hide Shows, Gen, Slot, Latest;
      DeviceRuns();
      ShowsHeader(base, log, headers[..], payloads[..], slot);
      u := headers[slot];
    }

    /** Spins until the next header is no longer the one of the previous lap, at most `polls` times. */
    method SpinOnNext(polls: nat) returns (u: Header, left: nat)
      requires Valid() && polls > 0
      modifies headers, payloads, this`log, this`deviceSlot, this`deviceGeneration
      ensures Valid() && old(log) <= log && GoodLog(log) && |log| >= NUM_CHUNKS && left < polls
      ensures u == HeaderOf(base, log, Latest(|log|, Slot(position))) && GoodChunk(log[Latest(|log|, Slot(position))])
      // One look is enough if the chunk is there.
      ensures |log| <= position + 255 * NUM_CHUNKS && position < |old(log)| ==>
                u.generation != PrevGen(generation) && left + 1 == polls
    {
      hide Shows, Gen, Slot, Latest, GoodChunk;
      u := ReadHeader(nextChunk);
      left := polls - 1;
      if u.generation == PrevGen(generation) && |log| <= position + 255 * NUM_CHUNKS {
        SeenNothing(base, |log|, position);
      }
      while left > 0 && u.generation == PrevGen(generation)
        invariant Valid() && old(log) <= log && GoodLog(log) && |log| >= NUM_CHUNKS && left < polls
        invariant u == HeaderOf(base, log, Latest(|log|, Slot(position))) && GoodChunk(log[Latest(|log|, Slot(position))])
        invariant |log| <= position + 255 * NUM_CHUNKS && position < |old(log)| ==>
                    u.generation != PrevGen(generation) && left + 1 == polls
      {
        u := ReadHeader(nextChunk);
        left := left - 1;
      }
    }

    /** The sentinel moves to the chunk just copied, and the header of the old one is checked: if it has
        changed, the copy cannot be trusted and the reader catches up. */
    method MoveSentinel(slot: nat, gen: Byte, ghost p: nat) returns (lapped: bool, ghost w: nat)
      requires Valid() && position == p + 1 && slot == Slot(p) && gen == Gen(base, p) && sentinel < p
      modifies this, headers, payloads
      ensures Valid() && old(log) <= log && GoodLog(log)
      ensures !lapped ==> sentinel == p && position == old(position)
      ensures !lapped && InTime(log, old(sentinel)) ==> NotLapped(log, old(sentinel))
      ensures lapped ==>
                && |old(log)| <= w <= |log| && old(sentinel) + NUM_CHUNKS < w
                && Recovered(w, log, sentinel) && position == sentinel + 1
    {
      hide Shows, Gen, Slot, Latest, Recovered, GoodLog;
      ghost var s0 := sentinel;
      var oldSlot, oldGeneration := sentinelChunk, sentinelGeneration;
      sentinelChunk, sentinelGeneration := slot, gen;
      sentinel := p;
      var check := ReadHeader(oldSlot);
      SentinelCheck(base, |log|, s0);
      lapped, w := check.generation != oldGeneration, |log|;
      if lapped {
        Catchup();
      }
    }

    /** The end of `exanic_receive_frame`: the last chunk of a frame is copied, the sentinel moves forward,
        and the old sentinel is checked to still be in the ring. */
    method FinishFrame(buf: array<Byte>, size: nat, slot: nat, u: Header,
                       ghost log0: seq<Chunk>, ghost p0: nat, ghost seen: nat) returns (r: Received)
      requires Valid() && buf as object != headers as object && buf as object != payloads as object
      requires position > 0 && slot == Slot(position - 1)
      requires sentinel < p0 && Reading(base, log, p0, position - 1, seen, size, buf[..])
      requires log0 <= log && u == HeaderOf(base, log, seen) && GoodChunk(log[seen]) && u.info.length != 0
      modifies this, headers, payloads, buf
      ensures Valid() && old(log) <= log
      ensures ReceiveSpec(log0, log, p0, old(sentinel), position, sentinel, r, buf[..])
      ensures r.Overflow? ==> CaughtUp(log0, log, p0, old(sentinel), position, sentinel)
      ensures !r.Waiting?
      ensures r.Frame? ==> r.size <= buf.Length
      ensures r.Frame? ==> size <= r.size && SameFrom(old(buf[..]), buf[..], r.size)
    {
      hide Shows, Gen, Slot, Latest, Reading, FrameBytes, Body, IsFrame, Recovered, ReceiveSpec, GoodLog, Needed, CaughtUp;
      ghost var p, s0, content := position - 1, sentinel, buf[..];
      var n := u.info.length as nat;
      ReadingBounds(base, log, p0, p, seen, size, content);
      if size + n > buf.Length {
        ReadingEnds(base, log, p0, p, seen, size, n, content, content);
        SpecTruncated(log0, log, p0, s0, p + 1, content);
        return Truncated;
      }
      ghost var log1 := log;
      NeededMet(log0, log, p0, seen);
      CopyPayload(buf, size, n, slot, p);
      var lapped, w := MoveSentinel(slot, u.generation, p);
      if lapped {
        SpecOverflow(log0, log, p0, s0, w, sentinel, buf[..]);
        return Overflow;
      }
      ReadingWhileWriting(base, log1, log, p0, p, seen, size, content);
      ReadingEnds(base, log, p0, p, seen, size, n, content, buf[..]);
      if u.info.status % STATUS_ERRORS != 0 {
        r := Bad(u.info.status % STATUS_ERRORS);
      } else {
        r := Frame(size + n, u.info.timestamp);
      }
      SpecDone(log0, log, p0, s0, p, size + n, u.info, r, buf[..]);
    }

    /** A full chunk in the middle of a frame: copy it if it fits, then wait for the next header. */
    method TakeFullChunk(buf: array<Byte>, size: nat, slot: nat, had: nat, ghost polls: nat,
                         ghost log0: seq<Chunk>, ghost p0: nat, ghost seen: nat) returns (u: Header, left: nat)
      requires Valid() && buf as object != headers as object && buf as object != payloads as object
      requires had > 0 && position > 0 && slot == Slot(position - 1)
      requires log0 <= log && Prompt(log0, log, p0, position - 1, polls, had)
      requires Reading(base, log, p0, position - 1, seen, size, buf[..])
      requires log[seen].info.length == 0
      modifies headers, payloads, this`log, this`deviceSlot, this`deviceGeneration, buf
      ensures Valid() && old(log) <= log && GoodLog(log) && |log| >= NUM_CHUNKS && left < had
      ensures u == HeaderOf(base, log, Latest(|log|, Slot(position))) && GoodChunk(log[Latest(|log|, Slot(position))])
      ensures u.generation == generation ==>
                Reading(base, log, p0, position, Latest(|log|, Slot(position)), size + PAYLOAD_SIZE, buf[..])
      ensures InTime(log, p0 - 1) ==> NoEnd(log, p0, position)
      ensures Prompt(log0, log, p0, position, polls, left)
      ensures u.generation == PrevGen(generation) ==> StillMissing(log0, log, p0, position)
      ensures SameFrom(old(buf[..]), buf[..], size + PAYLOAD_SIZE)
    {
      hide Shows, Gen, Slot, Latest, Reading, GoodLog, Prompt, StillMissing;
      ghost var p, content, log1 := position - 1, buf[..], log;
      ReadingBounds(base, log, p0, p, seen, size, content);
      if size + PAYLOAD_SIZE <= buf.Length {
        CopyPayload(buf, size, PAYLOAD_SIZE, slot, p);
      }
      ghost var content' := buf[..];
      ghost var log2 := log;
      PromptWhileWriting(log0, log1, log2, p0, p, polls, had);
      u, left := SpinOnNext(had);
      PromptContinues(log0, log2, log, p0, p, polls, had, left);
      if u.generation == PrevGen(generation) {
        MissingWhenRead(log0, log2, log, p0, position);
      }
      ReadingWhileWriting(base, log1, log, p0, p, seen, size, content);
      ReadingNoEnd(base, log, p0, p, seen, size, content);
      if u.generation == generation {
        ReadingContinues(base, log, p0, p, seen, size, content, content');
      }
    }

    /** `exanic_receive_frame`.  `polls` bounds how often the call looks for the next chunk of a frame that
        the device has not finished. */
    method ReceiveFrame(buf: array<Byte>, polls: nat) returns (r: Received)
      requires Valid() && buf as object != headers as object && buf as object != payloads as object
      modifies this, headers, payloads, buf
      ensures Valid() && old(log) <= log
      ensures ReceiveSpec(old(log), log, old(position), old(sentinel), position, sentinel, r, buf[..])
      ensures r.Overflow? ==> CaughtUp(old(log), log, old(position), old(sentinel), position, sentinel)
      ensures r.Waiting? ==> polls < position - old(position) || StillMissing(old(log), log, old(position), position)
      ensures r.Frame? ==> r.size <= buf.Length && SameFrom(old(buf[..]), buf[..], r.size)
    {
      hide Shows, Gen, Slot, Latest, Reading, ReceiveSpec, Recovered, GoodLog, Prompt, StillMissing, CaughtUp;
      ghost var p0, s0, log0 := position, sentinel, log;
      var u := ReadHeader(nextChunk);
      if u.generation == generation {
        var size: nat, left: nat := 0, polls;
        ghost var seen: nat := Latest(|log|, Slot(position));
        ReadingStarts(base, log, p0, buf[..]);
        PromptStarts(log0, log, p0, polls);
        while true
          invariant Valid() && old(log) <= log && GoodLog(log)
          invariant sentinel == s0
          invariant Reading(base, log, p0, position, seen, size, buf[..])
          invariant seen < |log| && u == HeaderOf(base, log, seen) && GoodChunk(log[seen])
          invariant SameFrom(old(buf[..]), buf[..], size)
          invariant Prompt(log0, log, p0, position, polls, left)
          decreases left
        {
          ReadingBounds(base, log, p0, position, seen, size, buf[..]);
          var currentChunk := nextChunk;
          Advance();
          if u.info.length != 0 {
            r := FinishFrame(buf, size, currentChunk, u, log0, p0, seen);
            return;
          }
          if left == 0 {
            PromptRunsOut(log0, log, p0, position - 1, polls);
            ReadingNoEnd(base, log, p0, position - 1, seen, size, buf[..]);
            SpecWaiting(log0, log, p0, s0, position, buf[..]);
            return Waiting;
          }
          u, left := TakeFullChunk(buf, size, currentChunk, left, polls, log0, p0, seen);
          size := size + PAYLOAD_SIZE;
          seen := Latest(|log|, Slot(position));
          if u.generation == PrevGen(generation) {
            SpecWaiting(log0, log, p0, s0, position, buf[..]);
            return Waiting;
          }
          if u.generation != generation {
            SeenLapped(base, |log|, position);
            r := CatchUpFrom(log0, p0, s0, buf);
            return;
          }
        }
      } else if u.generation == PrevGen(generation) {
        if |log| <= position + 255 * NUM_CHUNKS {
          SeenNothing(base, |log|, position);
        }
        SpecNothing(log0, log, p0, s0, buf[..]);
        return Nothing;
      } else {
        SeenLapped(base, |log|, position);
        r := CatchUpFrom(log0, p0, s0, buf);
      }
    }

    /** The reader was lapped: catch up and report the overflow. */
    method CatchUpFrom(ghost log0: seq<Chunk>, ghost p0: nat, ghost s0: nat, buf: array<Byte>) returns (r: Received)
      requires Valid() && buf as object != headers as object && buf as object != payloads as object
      requires log0 <= log && s0 + NUM_CHUNKS < |log| && p0 + NUM_CHUNKS < |log|
      modifies this, headers, payloads
      ensures Valid() && old(log) <= log && r == Overflow
      ensures ReceiveSpec(log0, log, p0, s0, position, sentinel, r, buf[..])
      ensures CaughtUp(log0, log, p0, s0, position, sentinel)
    {
      hide Shows, Gen, Slot, Latest, ReceiveSpec, Recovered, GoodLog, CaughtUp, Needed;
      ghost var w := |log|;
      Catchup();
      SpecOverflow(log0, log, p0, s0, w, sentinel, buf[..]);
      return Overflow;
    }

    /** The end of `exanic_receive_frame_ex`: the last chunk is copied and its status handed out. */
    method FinishFrameEx(buf: array<Byte>, size: nat, slot: nat, u: Header,
                         ghost log0: seq<Chunk>, ghost p0: nat, ghost seen: nat) returns (r: Received, status: nat)
      requires Valid() && buf as object != headers as object && buf as object != payloads as object
      requires position > 0 && slot == Slot(position - 1) && p0 > 0
      requires Reading(base, log, p0, position - 1, seen, size, buf[..])
      requires log0 <= log && u == HeaderOf(base, log, seen) && GoodChunk(log[seen]) && u.info.length != 0
      modifies headers, payloads, this`log, this`deviceSlot, this`deviceGeneration, buf
      ensures Valid() && old(log) <= log
      ensures ReceiveExSpec(log0, log, p0, position, r, status, buf[..]) && !r.Waiting?
      ensures r.Frame? ==> r.size <= buf.Length && size <= r.size && SameFrom(old(buf[..]), buf[..], r.size)
    {
      hide Shows, Gen, Slot, Latest, Reading, ReceiveExSpec, GoodLog, FrameBytes, Body, IsFrame;
      ghost var content, log1, p := buf[..], log, position - 1;
      ReadingBounds(base, log, p0, p, seen, size, content);
      var n := u.info.length as nat;
      if size + n > buf.Length {
        ReadingEnds(base, log, p0, p, seen, size, n, content, content);
        ExSpecTruncated(log0, log, p0, p + 1, content);
        return Truncated, 0;
      }
      CopyPayload(buf, size, n, slot, p);
      ShowsGood(base, log, headers[..], payloads[..]);
      ReadingWhileWriting(base, log1, log, p0, p, seen, size, content);
      ReadingEnds(base, log, p0, p, seen, size, n, content, buf[..]);
      r, status := Frame(size + n, u.info.timestamp), u.info.status % STATUS_ERRORS;
      ExSpecDone(log0, log, p0, p, size + n, u.info, r, status, buf[..]);
    }

    /** The capture reader was lapped: catch up and report the overflow. */
    method CatchUpFromEx(ghost log0: seq<Chunk>, ghost p0: nat, buf: array<Byte>) returns (r: Received)
      requires Valid() && buf as object != headers as object && buf as object != payloads as object
      requires log0 <= log && 0 < p0 && p0 + NUM_CHUNKS < |log|
      modifies this, headers, payloads
      ensures Valid() && old(log) <= log && r == Overflow
      ensures ReceiveExSpec(log0, log, p0, position, r, 0, buf[..])
    {
      hide Shows, Gen, Slot, Latest, ReceiveExSpec, Recovered, GoodLog;
      ghost var w := |log|;
      Catchup();
      ExSpecOverflow(log0, log, p0, w, sentinel, buf[..]);
      return Overflow;
    }

    /** `exanic_receive_frame_ex` of the capture tool: the same loop without a sentinel.  The copied bytes
        are the frame's only if the device did not come back to the frame's first slot during the call. */
    method ReceiveFrameEx(buf: array<Byte>, polls: nat) returns (r: Received, status: nat)
      requires Valid() && buf as object != headers as object && buf as object != payloads as object
      modifies this, headers, payloads, buf
      ensures Valid() && old(log) <= log
      ensures ReceiveExSpec(old(log), log, old(position), position, r, status, buf[..])
      ensures r.Waiting? ==> polls < position - old(position) || StillMissing(old(log), log, old(position), position)
      ensures r.Frame? ==> r.size <= buf.Length && SameFrom(old(buf[..]), buf[..], r.size)
    {
      hide Shows, Gen, Slot, Latest, Reading, ReceiveExSpec, Recovered, GoodLog, Prompt, StillMissing;
      hide FrameBytes, Body, IsFrame;
      ghost var p0, log0 := position, log;
      status := 0;
      var u := ReadHeader(nextChunk);
      if u.generation == generation {
        var size: nat, left: nat := 0, polls;
        ghost var seen: nat := Latest(|log|, Slot(position));
        ReadingStarts(base, log, p0, buf[..]);
        PromptStarts(log0, log, p0, polls);
        while true
          invariant Valid() && old(log) <= log && GoodLog(log)
          invariant Reading(base, log, p0, position, seen, size, buf[..])
          invariant seen < |log| && u == HeaderOf(base, log, seen) && GoodChunk(log[seen])
          invariant SameFrom(old(buf[..]), buf[..], size)
          invariant Prompt(log0, log, p0, position, polls, left)
          decreases left
        {
          ReadingBounds(base, log, p0, position, seen, size, buf[..]);
          var currentChunk := nextChunk;
          Advance();
          if u.info.length != 0 {
            r, status := FinishFrameEx(buf, size, currentChunk, u, log0, p0, seen);
            return;
          }
          if left == 0 {
            PromptRunsOut(log0, log, p0, position - 1, polls);
            ReadingNoEnd(base, log, p0, position - 1, seen, size, buf[..]);
            ExSpecWaiting(log0, log, p0, position, buf[..]);
            return Waiting, status;
          }
          u, left := TakeFullChunk(buf, size, currentChunk, left, polls, log0, p0, seen);
          size := size + PAYLOAD_SIZE;
          seen := Latest(|log|, Slot(position));
          if u.generation == PrevGen(generation) {
            ExSpecWaiting(log0, log, p0, position, buf[..]);
            return Waiting, status;
          }
          if u.generation != generation {
            SeenLapped(base, |log|, position);
            r := CatchUpFromEx(log0, p0, buf);
            return;
          }
        }
      } else if u.generation == PrevGen(generation) {
        if |log| <= position + 255 * NUM_CHUNKS {
          SeenNothing(base, |log|, position);
        }
        ExSpecNothing(log0, log, p0, buf[..]);
        return Nothing, status;
      } else {
        SeenLapped(base, |log|, position);
        r := CatchUpFromEx(log0, p0, buf);
      }
    }

    /** The data branch of `exanic_receive_chunk`, with header `u` of the chunk at the reader's position. */
    method TakeChunk(dst: array<Byte>, at: nat, u: Header, ghost seen: nat, ghost log0: seq<Chunk>) returns (r: ChunkRead)
      requires Valid() && dst as object != headers as object && dst as object != payloads as object
      requires at + PAYLOAD_SIZE <= dst.Length && log0 <= log
      requires sentinel < position <= seen < |log| && (InTime(log, position - 1) ==> seen == position)
      requires u == HeaderOf(base, log, seen) && GoodChunk(log[seen]) && u.generation == generation
      modifies this, headers, payloads, dst
      ensures Valid() && old(log) <= log
      ensures ChunkSpec(log0, log, old(position), old(sentinel), position, sentinel, r, dst[at..at + PAYLOAD_SIZE])
      ensures dst[..at] == old(dst[..at])
    {
      hide Shows, Gen, Slot, Latest, ChunkSpec, Recovered, GoodLog;
      ghost var p0, s0 := position, sentinel;
      ghost var chunk := log[seen];
      var slot := nextChunk;
      Advance();
      var n: nat := if u.info.length != 0 then u.info.length else PAYLOAD_SIZE;
      CopyPayload(dst, at, n, slot, p0);
      var lapped, w := MoveSentinel(slot, u.generation, p0);
      if lapped {
        ChunkSpecLapped(log0, log, p0, s0, w, sentinel, dst[at..at + PAYLOAD_SIZE]);
        return Lapped;
      }
      if u.info.length != 0 && u.info.status % STATUS_ERRORS != 0 {
        r := BadChunk(u.info.status % STATUS_ERRORS);
      } else {
        r := Data(n, u.info.length == 0);
      }
      assert dst[at..at + PAYLOAD_SIZE][..n] == dst[at..at + n];
      ChunkSpecDone(log0, log, p0, s0, chunk, r, dst[at..at + PAYLOAD_SIZE]);
    }

    /** `exanic_receive_chunk`, into `dst` from index `at` on: the sentinel is the chunk read before. */
    method ReceiveChunk(dst: array<Byte>, at: nat) returns (r: ChunkRead)
      requires Valid() && dst as object != headers as object && dst as object != payloads as object
      requires at + PAYLOAD_SIZE <= dst.Length
      modifies this, headers, payloads, dst
      ensures Valid() && old(log) <= log
      ensures ChunkSpec(old(log), log, old(position), old(sentinel), position, sentinel, r, dst[at..at + PAYLOAD_SIZE])
      ensures dst[..at] == old(dst[..at])
    {
      hide Shows, Gen, Slot, Latest, ChunkSpec, Recovered, GoodLog;
      ghost var p0, s0, log0 := position, sentinel, log;
      var u := ReadHeader(nextChunk);
      if u.generation == generation {
        SeenExpected(base, |log|, p0, p0 - 1);
        r := TakeChunk(dst, at, u, Latest(|log|, Slot(p0)), log0);
      } else if u.generation == PrevGen(generation) {
        if |log| <= position + 255 * NUM_CHUNKS {
          SeenNothing(base, |log|, position);
        }
        ChunkSpecNoData(log0, log, p0, s0, dst[at..at + PAYLOAD_SIZE]);
        return NoData;
      } else {
        SeenLapped(base, |log|, position);
        ghost var w := |log|;
        Catchup();
        ChunkSpecLapped(log0, log, p0, s0, w, sentinel, dst[at..at + PAYLOAD_SIZE]);
        return Lapped;
      }
    }

    /** A caller that reads a frame chunk by chunk until no more chunks follow, a full chunk would not fit,
        or `polls` attempts have been made.  Whenever it reaches the end of the frame, it has done what
        one call of `ReceiveFrame` promises. */
    method ReceiveFrameByChunks(dst: array<Byte>, polls: nat) returns (r: ChunkRead, size: nat)
      requires Valid() && dst as object != headers as object && dst as object != payloads as object
      modifies this, headers, payloads, dst
      ensures Valid() && old(log) <= log
      ensures r.Data? && !r.more ==>
                && position <= |log|
                && ReceiveSpec(old(log), log, old(position), old(sentinel), position, sentinel,
                               Frame(size, log[position - 1].info.timestamp), dst[..])
      ensures r.BadChunk? ==>
                ReceiveSpec(old(log), log, old(position), old(sentinel), position, sentinel, Bad(r.code), dst[..])
      ensures r.Lapped? ==>
                ReceiveSpec(old(log), log, old(position), old(sentinel), position, sentinel, Overflow, dst[..])
      ensures r.NoData? && polls > 0 && dst.Length >= PAYLOAD_SIZE && position == old(position) ==>
                ReceiveSpec(old(log), log, old(position), old(sentinel), position, sentinel, Nothing, dst[..])
      ensures r.NoData? || (r.Data? && r.more) ==>
                Collecting(log, old(position), old(sentinel), position, sentinel, size, dst[..])
      ensures r.NoData? || (r.Data? && r.more) ==>
                || dst.Length < size + PAYLOAD_SIZE
                || polls <= position - old(position) || StillMissing(old(log), log, old(position), position)
    {
      hide Shows, Gen, Slot, Latest, ChunkSpec, ReceiveSpec, Recovered, GoodLog, Collecting, Body, Prompt, StillMissing;
      ghost var p0, s0, log0 := position, sentinel, log;
      ShowsGood(base, log, headers[..], payloads[..]);
      CollectingStarts(log, p0, s0, dst[..]);
      PromptStarts(log, log, p0, polls);
      size := 0;
      r := NoData;
      var left: nat := polls;
      while left > 0 && size + PAYLOAD_SIZE <= dst.Length
        invariant Valid() && log0 <= log
        invariant Collecting(log, p0, s0, position, sentinel, size, dst[..])
        invariant r.NoData? || (r.Data? && r.more)
        invariant p0 <= position && (r.NoData? || p0 < position) && left <= polls
        invariant left < polls && position == p0 ==>
                    ReceiveSpec(log0, log, p0, s0, position, sentinel, Nothing, dst[..])
        invariant left == polls ==> size == 0
        invariant Prompt(log0, log, p0, position, polls, left)
      {
        ghost var content, log1, p, s := dst[..], log, position, sentinel;
        CollectingPlace(log, p0, s0, p, s, size, content);
        r := ReceiveChunk(dst, size);
        left := left - 1;
        ShowsGood(base, log, headers[..], payloads[..]);
        assert dst[..][..size] == content[..size];
        assert dst[..][size..size + PAYLOAD_SIZE] == dst[size..size + PAYLOAD_SIZE];
        ChunkSpecMoves(log1, log, p, s, position, sentinel, r, dst[size..size + PAYLOAD_SIZE]);
        match r {
          case NoData =>
            CollectingWaits(log1, log, p0, s0, p, s, size, content);
            assert dst[..][..size] == content[..size];
            CollectingSameBytes(log, p0, s0, p, s, size, content, dst[..]);
            NothingWritten(log1, log, p, s, position, sentinel, dst[size..size + PAYLOAD_SIZE]);
            PromptStalls(log0, log1, log, p0, p, polls, left);
            if p == p0 {
              CollectingNothing(log0, log1, log, p0, s0, position, sentinel, dst[size..size + PAYLOAD_SIZE], dst[..]);
            }
          case Lapped =>
            CollectingLapped(log0, log1, log, p0, s0, p, s, size, content, dst[..], dst[size..size + PAYLOAD_SIZE],
                             position, sentinel);
            return;
          case BadChunk(_) =>
            CollectingEnds(log0, log1, log, p0, s0, p, s, size, content, dst[..], r, log[p].info.timestamp);
            return;
          case Data(n, more) =>
            if more {
              CollectingContinues(log1, log, p0, s0, p, s, size, content, dst[..], r);
              PromptContinues(log0, log1, log, p0, p, polls, left + 1, left);
              size := size + PAYLOAD_SIZE;
            } else {
              CollectingEnds(log0, log1, log, p0, s0, p, s, size, content, dst[..], r, log[p].info.timestamp);
              size := size + n;
              return;
            }
        }
      }
      if left == 0 {
        PromptRunsOut(log0, log, p0, position, polls);
      }
    }

    /** `exanic_receive_chunk_inplace`: hands out the slot of the next chunk and an identifier for it, and
        leaves the sentinel where it is. */
    method ReceiveChunkInplace() returns (r: ChunkRead, slot: nat, id: nat)
      requires Valid()
      modifies this, headers, payloads
      ensures Valid() && old(log) <= log
      ensures InplaceSpec(old(log), log, old(position), old(sentinel), position, sentinel, r)
      ensures r.Data? || r.BadChunk? ==> slot == Slot(old(position)) && id == ChunkId(base, old(position))
    {
      hide Shows, Gen, Slot, Latest, InplaceSpec, Recovered, GoodLog;
      ghost var p0, s0, log0 := position, sentinel, log;
      slot, id := 0, 0;
      var u := ReadHeader(nextChunk);
      if u.generation == generation {
        SeenExpected(base, |log|, p0, p0 - 1);
        slot := nextChunk;
        id := generation * NUM_CHUNKS + nextChunk;
        Advance();
        if u.info.length != 0 && u.info.status % STATUS_ERRORS != 0 {
          r := BadChunk(u.info.status % STATUS_ERRORS);
        } else if u.info.length != 0 {
          r := Data(u.info.length, false);
        } else {
          r := Data(PAYLOAD_SIZE, true);
        }
        InplaceDone(log0, log, p0, s0, log[Latest(|log|, Slot(p0))], r);
      } else if u.generation == PrevGen(generation) {
        if |log| <= position + 255 * NUM_CHUNKS {
          SeenNothing(base, |log|, position);
        }
        InplaceNoData(log0, log, p0, s0);
        r := NoData;
      } else {
        SeenLapped(base, |log|, position);
        ghost var w := |log|;
        Catchup();
        InplaceLapped(log0, log, p0, s0, w, sentinel);
        r := Lapped;
      }
    }

    /** `exanic_receive_chunk_recheck`. */
    predicate Recheck(id: nat)
      requires headers.Length == NUM_CHUNKS
      reads headers
    {
      headers[id % NUM_CHUNKS].generation == id / NUM_CHUNKS % TWO_8
    }

    /** The recheck undoes the packing of the identifier and says yes exactly when the chunk's header has not
        been overwritten, as long as the device is at most 256 laps past the chunk. */
    lemma RecheckIsExact(p: nat)
      requires Memory() && p < |log| <= p + 256 * NUM_CHUNKS
      ensures headers.Length == NUM_CHUNKS
      ensures Recheck(ChunkId(base, p)) <==> |log| <= p + NUM_CHUNKS
    {
      ShowsHeader(base, log, headers[..], payloads[..], Slot(p));
      ChunkIdUnpacks(base, p);
      LatestRelative(|log|, p);
      GenDistance(base, Latest(|log|, Slot(p)), p);
      assert headers[..][Slot(p)] == headers[Slot(p)];
    }

    /** What tells whether the payload of a chunk can still be trusted is the recheck of the chunk before it:
        it says yes exactly as long as the device cannot have begun to overwrite the payload. */
    lemma RecheckOfPrevious(p: nat)
      requires Memory() && 1 <= p < |log| <= p - 1 + 256 * NUM_CHUNKS
      ensures headers.Length == payloads.Length == NUM_CHUNKS
      ensures Recheck(ChunkId(base, p - 1)) <==> PayloadSettled(base, log, p)
      ensures Recheck(ChunkId(base, p - 1)) ==> payloads[Slot(p)] == log[p].payload
      ensures |log| <= p + NUM_CHUNKS ==> (Recheck(ChunkId(base, p - 1)) <==> PayloadSettledHere(base, log, headers[..], p))
    {
      RecheckIsExact(p - 1);
      PayloadSettledIff(base, log, p);
      ShowsPayload(base, log, headers[..], payloads[..], p);
      if |log| <= p + NUM_CHUNKS {
        PayloadSettledHereIff(base, log, headers[..], payloads[..], p);
      }
      assert payloads[..][Slot(p)] == payloads[Slot(p)];
    }

    /** `exanic_receive_abort`: skip to the end of the frame. */
    method Abort(polls: nat) returns (r: Aborted)
      requires Valid()
      modifies this, headers, payloads
      ensures Valid() && old(log) <= log
      ensures AbortSpec(log, old(position), old(sentinel), position, sentinel, r)
      ensures r.AbortWaiting? ==> polls <= position - old(position) || StillMissing(old(log), log, old(position), position)
    {
      hide Shows, Gen, Slot, Latest, AbortSpec, Recovered, GoodLog, Prompt, StillMissing;
      ghost var p0, s0, log0 := position, sentinel, log;
      PromptStarts(log0, log, p0, polls);
      var left: nat := polls;
      while left > 0
        invariant Valid() && old(log) <= log
        invariant p0 <= position && sentinel == s0
        invariant InTime(log, p0 - 1) ==> NoEnd(log, p0, position)
        invariant Prompt(log0, log, p0, position, polls, left)
      {
        left := left - 1;
        ghost var log1 := log;
        var u := ReadHeader(nextChunk);
        NoEndPrefix(log1, log, p0, position);
        if u.generation == generation {
          SeenExpected(base, |log|, position, p0 - 1);
          ghost var p := position;
          Advance();
          if u.info.length != 0 {
            r := Skipped(u.info.status % STATUS_ERRORS);
            AbortDone(log, p0, s0, p, log[Latest(|log|, Slot(p))], r);
            return;
          }
          PromptContinues(log0, log1, log, p0, p, polls, left + 1, left);
        } else if u.generation == PrevGen(generation) {
          if |log| <= position + 255 * NUM_CHUNKS {
            SeenNothing(base, |log|, position);
          }
          PromptStalls(log0, log1, log, p0, position, polls, left);
        } else {
          SeenLapped(base, |log|, position);
          ghost var w := |log|;
          Catchup();
          AbortCaughtUp(log, p0, s0, w, sentinel);
          return AbortLapped;
        }
      }
      AbortWaits(log, p0, s0, position);
      PromptRunsOut(log0, log, p0, position, polls);
      return AbortWaiting;
    }

    /** `exanic_acquire_rx_buffer`, given the mapped ring in whatever state the device has brought it to. */
    constructor (headers: array<Header>, payloads: array<seq<Byte>>, slot: nat, gen: Byte,
                 ghost base: Byte, ghost log: seq<Chunk>)
      requires headers as object != payloads as object
      requires Shows(base, log, headers[..], payloads[..])
      requires slot == Slot(|log|) && gen == Gen(base, |log|)
      modifies headers, payloads
      ensures Valid() && log <= this.log
      ensures position == sentinel + 1 && Recovered(|log|, this.log, sentinel)
    {
      this.headers, this.payloads := headers, payloads;
      this.base, this.log := base, log;
      deviceSlot, deviceGeneration := slot, gen;
      nextChunk, generation, sentinelChunk, sentinelGeneration := 0, 0, 0, 0;
      position, sentinel := 0, 0;
      new;
      hide Shows, Gen, Slot, Recovered;
      Catchup();
    }
  }

  /** An uninitialized ring: one generation everywhere and no length zero.  A reader that finds it at rest
      starts with the first chunk the device will write. */
  lemma FreshRingShows(headers: seq<Header>, payloads: seq<seq<Byte>>, base: Byte, last: nat)
    returns (log: seq<Chunk>)
    requires |headers| == |payloads| == NUM_CHUNKS
    requires forall s :: 0 <= s < NUM_CHUNKS ==>
               headers[s].generation == base && 0 < headers[s].info.length <= PAYLOAD_SIZE && |payloads[s]| == PAYLOAD_SIZE
    ensures |log| == NUM_CHUNKS && Shows(base, log, headers, payloads)
    ensures Recovered(|log|, log, last) ==> last + 1 == |log|
  {
    log := seq(NUM_CHUNKS, i requires 0 <= i < NUM_CHUNKS => Chunk(payloads[i], headers[i].info));
    forall s | 0 <= s < NUM_CHUNKS
      ensures Latest(|log|, s) == s && Gen(base, s) == base
    {
      LatestUnique(|log|, s);
    }
    if Recovered(|log|, log, last) {
      assert Stayed(|log|, log, NUM_CHUNKS - 1);
    }
  }

  /** The identifier that `exanic_receive_chunk_inplace` gives to a position. */
  function ChunkId(base: Byte, p: nat): Word32 {
    Gen(base, p) * NUM_CHUNKS + Slot(p)
  }

  lemma ChunkIdUnpacks(base: Byte, p: nat)
    ensures ChunkId(base, p) % 0x4000 == Slot(p)
    ensures ChunkId(base, p) / 0x4000 % 0x100 == Gen(base, p)
  {
  }

  /** What the recheck does not see: when the device is exactly one lap ahead it may already be writing
      the new payload while the old header, and hence a positive recheck, still stands. */
  lemma RecheckMissesTornPayload(base: Byte, log: seq<Chunk>, headers: seq<Header>, payloads: seq<seq<Byte>>,
                                 p: nat, torn: seq<Byte>)
    requires Shows(base, log, headers, payloads) && |log| == p + NUM_CHUNKS && |torn| == PAYLOAD_SIZE
    ensures Shows(base, log, headers, payloads[Slot(p) := torn])
    ensures headers[ChunkId(base, p) % NUM_CHUNKS].generation == ChunkId(base, p) / NUM_CHUNKS % TWO_8
    ensures payloads[Slot(p) := torn][Slot(p)] == torn
  {
    ShowsTorn(base, log, headers, payloads, torn);
    ChunkIdUnpacks(base, p);
    LatestUnique(|log|, p);
  }

  /** Whatever the device has done since it completed the chunk at `p`, short of completing more chunks than
      the log holds, its payload is in memory. */
  ghost predicate PayloadSettled(base: Byte, log: seq<Chunk>, p: nat)
    requires p < |log|
  {
    forall log': seq<Chunk>, headers: seq<Header>, payloads: seq<seq<Byte>> ::
      |log'| == |log| && log'[p] == log[p] && Shows(base, log', headers, payloads) ==>
        payloads[Slot(p)] == log[p].payload
  }

  /** The same for the chunks and headers that are really there. */
  ghost predicate PayloadSettledHere(base: Byte, log: seq<Chunk>, headers: seq<Header>, p: nat)
    requires p < |log|
  {
    forall payloads: seq<seq<Byte>> ::
      Shows(base, log, headers, payloads) ==> payloads[Slot(p)] == log[p].payload
  }

  /** A payload that differs from the given one. */
  function Other(payload: seq<Byte>): seq<Byte>
    requires |payload| == PAYLOAD_SIZE
  {
    payload[0 := if payload[0] == 0 then 1 else 0]
  }

  /** Headers and payloads as they are when no payload is partly written. */
  lemma SomeMemory(base: Byte, log: seq<Chunk>) returns (headers: seq<Header>, payloads: seq<seq<Byte>>)
    requires GoodLog(log)
    ensures Shows(base, log, headers, payloads)
    ensures forall s :: 0 <= s < NUM_CHUNKS ==> payloads[s] == log[Latest(|log|, s)].payload
  {
    headers := seq(NUM_CHUNKS, s requires 0 <= s < NUM_CHUNKS => HeaderOf(base, log, Latest(|log|, s)));
    payloads := seq(NUM_CHUNKS, s requires 0 <= s < NUM_CHUNKS => log[Latest(|log|, s)].payload);
  }

  lemma PayloadSettledHereIff(base: Byte, log: seq<Chunk>, headers: seq<Header>, payloads: seq<seq<Byte>>, p: nat)
    requires Shows(base, log, headers, payloads) && p < |log| <= p + NUM_CHUNKS
    ensures PayloadSettledHere(base, log, headers, p) <==> |log| < p + NUM_CHUNKS
  {
    if |log| < p + NUM_CHUNKS {
      forall payloads': seq<seq<Byte>> | Shows(base, log, headers, payloads')
        ensures payloads'[Slot(p)] == log[p].payload
      {
        ShowsPayload(base, log, headers, payloads', p);
      }
    } else {
      ShowsPayload(base, log, headers, payloads, p);
      RecheckMissesTornPayload(base, log, headers, payloads, p, Other(log[p].payload));
      var payloads' := payloads[Slot(p) := Other(log[p].payload)];
      assert payloads'[Slot(p)] != log[p].payload;
    }
  }

  /** A payload is settled exactly until the device may begin to overwrite it. */
  lemma PayloadSettledIff(base: Byte, log: seq<Chunk>, p: nat)
    requires GoodLog(log) && p < |log|
    ensures PayloadSettled(base, log, p) <==> |log| < p + NUM_CHUNKS
  {
    if |log| < p + NUM_CHUNKS {
      forall log': seq<Chunk>, headers: seq<Header>, payloads: seq<seq<Byte>>
        | |log'| == |log| && log'[p] == log[p] && Shows(base, log', headers, payloads)
        ensures payloads[Slot(p)] == log[p].payload
      {
        ShowsPayload(base, log', headers, payloads, p);
      }
    } else if |log| == p + NUM_CHUNKS {
      var headers, payloads := SomeMemory(base, log);
      PayloadSettledHereIff(base, log, headers, payloads, p);
      var torn: seq<seq<Byte>> :| Shows(base, log, headers, torn) && torn[Slot(p)] != log[p].payload;
    } else {
      var q := Latest(|log|, Slot(p));
      LatestRelative(|log|, p);
      var log' := log[q := Chunk(Other(log[p].payload), log[q].info)];
      assert GoodLog(log') && log'[p] == log[p];
      var headers, payloads := SomeMemory(base, log');
      assert payloads[Slot(p)] == Other(log[p].payload);
    }
  }

  lemma ShowsGood(base: Byte, log: seq<Chunk>, headers: seq<Header>, payloads: seq<seq<Byte>>)
    requires Shows(base, log, headers, payloads)
    ensures GoodLog(log) && |headers| == |payloads| == NUM_CHUNKS
  {
  }

  lemma NextPlace(base: Byte, p: nat)
    ensures Slot(p + 1) == if Slot(p) + 1 == NUM_CHUNKS then 0 else Slot(p) + 1
    ensures Gen(base, p + 1) == if Slot(p) + 1 == NUM_CHUNKS then NextGen(Gen(base, p)) else Gen(base, p)
  {
    var lap, slot := Lap(p), Slot(p);
    if slot + 1 == NUM_CHUNKS {
      DivModUnique(p + 1, NUM_CHUNKS, lap + 1, 0);
      NextWraps(base + lap);
    } else {
      DivModUnique(p + 1, NUM_CHUNKS, lap, slot + 1);
    }
  }

  lemma NextWraps(x: nat)
    ensures (x % TWO_8 + 1) % TWO_8 == (x + 1) % TWO_8
  {
  }
}
