/** The transmit side of the driver: its fields, its 16-bit arithmetic and its wait loops. */
module TxRing {
  import opened Words
  import opened TxMachine
  import opened Bits

  const HEADER_BYTES := 8
  const PADDING_BYTES := 2
  const TYPE_RAW: Byte := 1

  /** `CACHE_ALIGN`. */
  function CacheAlign(n: nat): (a: nat)
    ensures n <= a < n + 64 && a % 64 == 0
  {
    var q := (n + CACHE_LINE - 1) / CACHE_LINE;
    assert CACHE_LINE * q <= n + CACHE_LINE - 1 < CACHE_LINE * q + CACHE_LINE;
    DivModUnique(CACHE_LINE * q, CACHE_LINE, q, 0);
    CACHE_LINE * q
  }

  /** Rounding up stays below a limit of whole cache lines exactly if the size does. */
  lemma AlignedBelow(n: nat, m: int)
    ensures n <= CACHE_LINE * m <==> CacheAlign(n) <= CACHE_LINE * m
  {
    var a := CacheAlign(n);
    hide CacheAlign;
    assert a == CACHE_LINE * (a / CACHE_LINE);
  }

  /** `exanic_get_tx_mtu`: the largest frame for which the driver promises to wait. */
  function Mtu(size: nat): int {
    size / 2 - FEEDBACK_INTERVAL - PADDING_BYTES - HEADER_BYTES
  }

  /** A frame is within the MTU exactly when its chunk, rounded up to cache lines, is within the
      largest size the driver waits for; the rounding never pushes it over. */
  lemma MtuIsExact(size: nat, frameSize: nat)
    requires size % PAGE_BYTES == 0
    ensures frameSize <= Mtu(size)
            <==> CacheAlign(frameSize + 10) <= size / 2 - 512
  {
    hide CacheAlign;
    var pages := size / PAGE_BYTES;
    assert size == PAGE_BYTES * pages;
    AlignedBelow(frameSize + PADDING_BYTES + HEADER_BYTES, 32 * pages - 8);
  }

  /** The header fields of a chunk as they lie in memory. */
  function IdField(id: Word16, slotIndex: Word16): (b: seq<Byte>)
    ensures |b| == 4
  {
    Bytes16(id) + Bytes16(slotIndex)
  }

  function LengthField(length: nat): (b: seq<Byte>)
    ensures |b| == 4
  {
    Bytes16(length % TWO_16) + [TYPE_RAW, 0]
  }

  const PADDING: seq<Byte> := [0, 0]

  /** The slot index with its top bit set when no feedback is wanted. */
  function SlotField(slotIndex: Byte, wanted: bool): Word16 {
    if wanted then slotIndex else slotIndex + 0x8000
  }

  /** A raw frame as the device finds it in memory: header, padding, frame. */
  function ChunkBytes(id: Word16, slotField: Word16, frame: seq<Byte>): seq<Byte> {
    IdField(id, slotField) + LengthField(|frame| + PADDING_BYTES) + PADDING + frame
  }

  /** What the device makes of the first eight bytes of a chunk: the number to report, the slot to report
      it to and whether to report at all, the length of what follows, its type and flags. */
  datatype TxHeader = TxHeader(id: nat, slot: nat, wanted: bool, length: nat, kind: nat, flags: nat)

  /** A 16-bit field, low byte first. */
  function Field(low: nat, high: nat): nat {
    low + 0x100 * high
  }

  /** The top bit of the slot index says that no report is needed. */
  function Decode(b: seq<Byte>): TxHeader
    requires |b| >= 8
  {
    TxHeader(Field(b[0], b[1]), Field(b[2], b[3] % 0x80), b[3] < 0x80, Field(b[4], b[5]), b[6], b[7])
  }

  lemma SlotBytes(slotIndex: Byte, wanted: bool)
    ensures Bytes16(SlotField(slotIndex, wanted)) == [slotIndex, if wanted then 0 else 0x80]
  {
    var high := if wanted then 0 else 0x80;
    DivModUnique(SlotField(slotIndex, wanted), 0x100, high, slotIndex);
  }

  lemma DecodeFields(b: seq<Byte>, id: Word16, slotIndex: Byte, wanted: bool, length: nat)
    requires |b| >= 8 && b[..4] == IdField(id, SlotField(slotIndex, wanted)) && b[4..8] == LengthField(length)
    ensures Decode(b) == TxHeader(id, slotIndex, wanted, length % 0x1_0000, 1, 0)
  {
    SlotBytes(slotIndex, wanted);
    var n, l := Bytes16(id), Bytes16(length % TWO_16);
    assert Field(n[0], n[1]) == id && Field(l[0], l[1]) == length % TWO_16;
    hide Bytes16, SlotField, Field;
    assert b[..4] == n + [slotIndex, if wanted then 0 else 0x80] && b[4..8] == l + [1, 0];
    assert b[0] == b[..4][0] && b[1] == b[..4][1] && b[2] == b[..4][2] && b[3] == b[..4][3];
    assert b[4] == b[4..8][0] && b[5] == b[4..8][1] && b[6] == b[4..8][2] && b[7] == b[4..8][3];
    SlotValue(slotIndex, b[3]);
  }

  lemma SlotValue(slotIndex: Byte, high: Byte)
    requires high == 0 || high == 0x80
    ensures Field(slotIndex, high % 0x80) == slotIndex
  {
  }

  /** A chunk byte by byte, and the same as the device reads it: number and length low byte first, slot
      index, top bit of byte 3 for "no report", type 1, no flags, two bytes of padding, the frame. */
  lemma ChunkDecodes(id: Word16, slotIndex: Byte, wanted: bool, frame: seq<Byte>)
    ensures var b := ChunkBytes(id, SlotField(slotIndex, wanted), frame);
            && |b| == 10 + |frame|
            && b[..10] == [id % 0x100, id / 0x100, slotIndex, if wanted then 0 else 0x80,
                           (|frame| + 2) % 0x1_0000 % 0x100, (|frame| + 2) % 0x1_0000 / 0x100, 1, 0, 0, 0]
            && b[10..] == frame
            && Decode(b) == TxHeader(id, slotIndex, wanted, (|frame| + 2) % 0x1_0000, 1, 0)
  {
    var b := ChunkBytes(id, SlotField(slotIndex, wanted), frame);
    SlotBytes(slotIndex, wanted);
    hide SlotField;
    assert b[..4] == IdField(id, SlotField(slotIndex, wanted));
    assert b[4..8] == LengthField(|frame| + PADDING_BYTES);
    assert b[..10] == b[..4] + b[4..8] + PADDING;
    DecodeFields(b, id, slotIndex, wanted, |frame| + PADDING_BYTES);
  }

  /** The image of chunk `s` has the header the device needs, and the length in it stays in the chunk. */
  predicate HeaderFor(image: seq<Byte>, s: nat, wanted: bool, slotIndex: nat) {
    && 8 <= |image|
    && var h := Decode(image);
       h.id == s % 0x1_0000 && h.slot == slotIndex && h.wanted == wanted && 8 + h.length <= |image|
  }

  /** From `before` to `after`, one chunk was sent: with number `id`, holding `frame`, as long as it needs to
      be and ending where the next one may begin; nothing sent earlier changed. */
  ghost predicate FrameSent(before: Ring, after: Ring, id: Word16, slotIndex: Byte, frame: seq<Byte>) {
    var s, used := before.Next(), CacheAlign(|frame| + 10);
    && |after.regions| == |after.images| == |after.wanted| == s + 1
    && after.regions[..s] == before.regions && after.images[..s] == before.images && after.wanted[..s] == before.wanted
    && after.regions[s].start + used == after.regions[s].end == after.nextOffset
    && |after.images[s]| == used
    && after.images[s][..|frame| + 10] == ChunkBytes(id, SlotField(slotIndex, after.wanted[s]), frame)
  }

  /** The frame sent is what lay in memory behind header and padding at `nextOffset`, and `nextOffset` moves
      on by as much as that frame needs. */
  ghost predicate PreparedSent(before: Ring, after: Ring, id: Word16, slotIndex: Byte, length: nat) {
    && before.nextOffset + 10 + length <= |before.mem|
    && FrameSent(before, after, id, slotIndex,
                 before.mem[before.nextOffset + 10..before.nextOffset + 10 + length])
    && after.nextOffset == before.nextOffset + CacheAlign(length + 10)
  }

  /** Every chunk that was sent has its header in place. */
  ghost predicate HeadersMatch(images: seq<seq<Byte>>, wanted: seq<bool>, slotIndex: nat) {
    |images| == |wanted| && forall s :: 1 <= s < |images| ==> HeaderFor(images[s], s, wanted[s], slotIndex)
  }

  lemma HeadersAppend(images: seq<seq<Byte>>, wanted: seq<bool>, slotIndex: nat, image: seq<Byte>, want: bool)
    requires HeadersMatch(images, wanted, slotIndex) && HeaderFor(image, |images|, want, slotIndex)
    ensures HeadersMatch(images + [image], wanted + [want], slotIndex)
  {
    hide HeaderFor;
  }

  /** Outcome of making room for a chunk.  `WaitsForever` stands for a wait loop that the driver never
      leaves because no feedback that it has requested is outstanding. */
  datatype Room = Ready(offset: nat) | TooLarge | WaitsForever

  /** Room is at the place there is for `aligned` bytes when `f` is the last known feedback; without a
      place, a chunk the driver does not wait for is refused. */
  predicate DecidedAt(r: Ring, f: nat, aligned: nat, room: Room) {
    var place := PlaceFor(r.(feedback := f), aligned);
    && (place.Some? ==> room == Ready(place.value))
    && (place.None? && aligned > r.MaxChunk() ==> room == TooLarge)
  }

  /** Place or refusal is decided by what the driver knows once it has a sequence number to spare, which is
      what it knew before if it had one then. */
  ghost predicate Decided(before: Ring, latest: nat, aligned: nat, room: Room) {
    exists f: nat :: before.feedback <= f <= latest
                     && (before.Next() - before.feedback < before.queueLen ==> f == before.feedback)
                     && DecidedAt(before, f, aligned, room)
  }

  lemma DecidedOnce(before: Ring, middle: Ring, latest: nat, aligned: nat, room: Room)
    requires Inv(before)
    requires middle == before.(serviced := middle.serviced, slot := middle.slot, feedback := middle.feedback)
    requires before.Next() - before.feedback < before.queueLen ==> middle == before
    requires before.feedback <= middle.feedback <= latest
    requires DecidedAt(middle, middle.feedback, aligned, room)
    ensures Decided(before, latest, aligned, room)
    ensures before.Next() - before.feedback < before.queueLen && Fits(before, aligned) ==>
              room == Ready(before.nextOffset)
  {
    ReserveFindsPlace(before, aligned);
    assert DecidedAt(before, middle.feedback, aligned, room);
  }

  /** The driver retries only for a size it waits for, and only if there was no place at first. */
  predicate Retrying(before: Ring, r: Ring, aligned: nat) {
    r == before || (PlaceFor(before, aligned).None? && aligned <= before.MaxChunk())
  }

  lemma FirstTry(before: Ring, aligned: nat)
    ensures Retrying(before, before, aligned)
  {
  }

  lemma RetryDecided(before: Ring, r: Ring, aligned: nat, room: Room)
    requires Retrying(before, r, aligned)
    requires PlaceFor(r, aligned).Some? ==> room == Ready(PlaceFor(r, aligned).value)
    requires PlaceFor(r, aligned).None? && aligned > before.MaxChunk() ==> room == TooLarge
    ensures DecidedAt(before, before.feedback, aligned, room)
  {
  }

  lemma KeepsRetrying(before: Ring, r: Ring, r': Ring, aligned: nat)
    requires Retrying(before, r, aligned) && PlaceFor(r, aligned).None? && aligned <= before.MaxChunk()
    ensures Retrying(before, r', aligned)
  {
  }

  /** Outcome of a transmit call; `Hung` stands for a call that never returns. */
  datatype Outcome = Done | Failed | Hung

  /** What making room led to, and where the chunk begins if it found a place. */
  ghost predicate RoomOutcome(room: Room, outcome: Outcome, offset: int) {
    match room
    case Ready(place) => outcome == Done && offset == place
    case TooLarge => outcome == Failed
    case WaitsForever => outcome == Hung
  }

  /** A call ended as the search for room did, and used the place that was found. */
  ghost predicate FollowsRoom(before: Ring, latest: nat, aligned: nat, outcome: Outcome, offset: int) {
    exists room: Room :: Decided(before, latest, aligned, room) && RoomOutcome(room, outcome, offset)
  }

  lemma RoomFollowed(before: Ring, latest: nat, aligned: nat, room: Room, outcome: Outcome, offset: int)
    requires Decided(before, latest, aligned, room) && RoomOutcome(room, outcome, offset)
    ensures FollowsRoom(before, latest, aligned, outcome, offset)
  {
  }

  function Max(a: nat, b: nat): nat {
    if a > b then a else b
  }

  /** `after` extends the run `before` by nothing but waiting for room for `aligned` bytes. */
  ghost predicate OnlyWaits(before: seq<Step>, after: seq<Step>, aligned: nat) {
    before <= after && WaitingSteps(after[|before|..], aligned)
  }

  /** The table holds the end offsets of the last `queueLen` chunks, indexed by sequence number. */
  ghost predicate TableMatches(regions: seq<Region>, queueLen: nat, table: seq<nat>) {
    && |table| == queueLen > 0
    && forall s :: 0 <= s < |regions| && |regions| - queueLen <= s ==>
         table[s % queueLen] == regions[s].end
  }

  /** The driver's table lookup, by masked 16-bit sequence number, finds the intended chunk. */
  lemma TableLookup(regions: seq<Region>, queueLen: nat, table: seq<nat>, s: nat)
    requires TableMatches(regions, queueLen, table) && IsPow2(queueLen) && queueLen <= TWO_16
    requires s < |regions| && |regions| - queueLen <= s
    ensures Wrap16(s) % queueLen < |table|
    ensures table[Wrap16(s) % queueLen] == regions[s].end
  {
    Wrap16ModPow2(s, queueLen);
  }

  /** Overwriting the oldest entry keeps the table right for the chunks that are still looked up. */
  lemma TableAppend(regions: seq<Region>, queueLen: nat, table: seq<nat>, region: Region)
    requires TableMatches(regions, queueLen, table)
    ensures |table| == queueLen > 0
    ensures TableMatches(regions + [region], queueLen, table[|regions| % queueLen := region.end])
  {
    var table' := table[|regions| % queueLen := region.end];
    forall s | 0 <= s <= |regions| && |regions| + 1 - queueLen <= s
      ensures table'[s % queueLen] == (regions + [region])[s].end
    {
      if s < |regions| && s % queueLen == |regions| % queueLen {
        ModDistinct(s, |regions|, queueLen);
      }
    }
  }

  /** The command FIFO holds the offsets of exactly the chunks that have been sent but not serviced, in
      order; an offset is all that the driver passes to the device. */
  ghost predicate FifoMatches(regions: seq<Region>, serviced: nat, commands: seq<nat>) {
    && |regions| == serviced + 1 + |commands|
    && forall i :: 0 <= i < |commands| ==> commands[i] == regions[serviced + 1 + i].start
  }

  lemma FifoService(regions: seq<Region>, serviced: nat, commands: seq<nat>)
    requires FifoMatches(regions, serviced, commands) && commands != []
    ensures FifoMatches(regions, serviced + 1, commands[1..])
    ensures commands[0] == regions[serviced + 1].start
  {
    forall i | 0 <= i < |commands| - 1
      ensures commands[1..][i] == regions[serviced + 2 + i].start
    {
      assert commands[1..][i] == commands[i + 1];
    }
  }

  /** The device found the chunk it finished last at `at`, whole and as it was sent, and took from it what
      its header says. */
  ghost predicate Delivered(r: Ring, at: nat, wire: seq<Byte>) {
    && r.serviced < |r.images|
    && var image := r.images[r.serviced];
       && at + |image| <= |r.mem| && r.mem[at..at + |image|] == image
       && 8 <= |image| && 8 + Decode(image).length <= |image|
       && wire == image[..8 + Decode(image).length]
  }

  lemma HeaderDelivers(r: Ring, c: nat, s: nat, slotIndex: nat)
    requires s == r.serviced + 1 < |r.images| && s < |r.wanted| && c + |r.images[s]| <= |r.mem|
    requires r.mem[c..c + |r.images[s]|] == r.images[s] && HeaderFor(r.images[s], s, r.wanted[s], slotIndex)
    ensures c + 8 <= |r.mem|
    ensures var h := Decode(r.mem[c..c + 8]);
            && h.id == Wrap16(s) && h.slot == slotIndex && h.wanted == r.wanted[s]
            && c + 8 + h.length <= |r.mem|
            && Delivered(Service(r), c, r.mem[c..c + 8 + h.length])
  {
    var image := r.images[s];
    SliceOfSlice(r.mem, c, |image|, 8);
    assert Decode(r.mem[c..c + 8]) == Decode(image);
    hide Decode;
    SliceOfSlice(r.mem, c, |image|, 8 + Decode(image).length);
  }

  /** At the oldest offset lie the bytes that were sent in the chunk it was passed for, and the header
      among them tells the device everything else. */
  lemma OldestCommand(r: Ring, commands: seq<nat>, slotIndex: nat)
    requires Inv(r) && FifoMatches(r.regions, r.serviced, commands) && commands != []
    requires HeadersMatch(r.images, r.wanted, slotIndex)
    ensures var c, s := commands[0], r.serviced + 1;
            && s < |r.wanted| && c + 8 <= |r.mem|
            && var h := Decode(r.mem[c..c + 8]);
               && h.id == Wrap16(s) && h.slot == slotIndex && h.wanted == r.wanted[s]
               && c + 8 + h.length <= |r.mem|
               && Delivered(Service(r), c, r.mem[c..c + 8 + h.length])
    ensures FifoMatches(r.regions, r.serviced + 1, commands[1..])
    ensures Enabled(r, DeviceServices) && Apply(r, DeviceServices) == Service(r)
  {
    hide Config, Layout, Policy, Memory, FifoMatches, HeaderFor, Decode, Delivered, Wrap16;
    InvBounds(r);
    FifoService(r.regions, r.serviced, commands);
    var s := r.serviced + 1;
    ImageIntact(r, s);
    HeaderDelivers(r, commands[0], s, slotIndex);
  }

  lemma FifoAppend(regions: seq<Region>, serviced: nat, commands: seq<nat>, region: Region)
    requires FifoMatches(regions, serviced, commands)
    ensures FifoMatches(regions + [region], serviced, commands + [region.start])
  {
  }

  lemma FifoEmpty(r: Ring)
    requires Inv(r) && FifoMatches(r.regions, r.serviced, [])
    ensures r.slot == r.request
  {
    IdleSlot(r);
  }

  lemma WaitsRefl(trace: seq<Step>, aligned: nat)
    ensures OnlyWaits(trace, trace, aligned)
  {
  }

  lemma WaitsTrans(t0: seq<Step>, t1: seq<Step>, t2: seq<Step>, aligned: nat)
    requires OnlyWaits(t0, t1, aligned) && OnlyWaits(t1, t2, aligned)
    ensures OnlyWaits(t0, t2, aligned)
  {
    assert t2[|t0|..] == t1[|t0|..] + t2[|t1|..];
  }

  lemma WaitsStep(t0: seq<Step>, t1: seq<Step>, step: Step, aligned: nat)
    requires OnlyWaits(t0, t1, aligned)
    requires step == DeviceServices || step == DriverPolls || step == DriverReserves(aligned)
    ensures OnlyWaits(t0, t1 + [step], aligned)
  {
    assert (t1 + [step])[|t0|..] == t1[|t0|..] + [step];
  }

  /** What waiting for room may change of the machine state. */
  ghost predicate Waited(before: Ring, after: Ring, aligned: nat) {
    && after == before.(nextOffset := after.nextOffset, rollover := after.rollover,
                        feedback := after.feedback, serviced := after.serviced, slot := after.slot,
                        largest := after.largest)
    && (after.largest == before.largest || after.largest == Max(before.largest, aligned))
  }

  lemma WaitedOn(before: Ring, r: Ring, r': Ring, aligned: nat)
    requires Waited(before, r, aligned)
    requires r' == r.(serviced := r'.serviced, slot := r'.slot, feedback := r'.feedback)
    ensures Waited(before, r', aligned)
  {
  }

  lemma WaitedConfig(before: Ring, r: Ring, aligned: nat)
    requires Waited(before, r, aligned)
    ensures r.MaxChunk() == before.MaxChunk() && r.Next() == before.Next() && r.queueLen == before.queueLen
  {
  }

  lemma ReserveKeepsNumbers(r: Ring, aligned: nat)
    ensures var r' := Reserve(r, aligned);
            r'.feedback == r.feedback && r'.slot == r.slot && r'.Next() == r.Next() && r'.MaxChunk() == r.MaxChunk()
  {
  }

  lemma WaitedNothing(r: Ring, aligned: nat)
    ensures Waited(r, r, aligned)
  {
  }

  /** Deciding on a place again while waiting neither leaves nor, for an acceptable size, enters a dead
      end, and changes nothing but the place. */
  lemma ReserveWhileWaiting(before: Ring, r: Ring, aligned: nat)
    requires Inv(r) && Waited(before, r, aligned)
    ensures Waited(before, Reserve(r, aligned), aligned)
    ensures Reserve(r, aligned).largest == Max(before.largest, aligned)
    ensures DeadEnd(r, aligned) ==> DeadEnd(Reserve(r, aligned), aligned)
    ensures aligned <= r.MaxChunk() && DeadEnd(Reserve(r, aligned), aligned) ==> DeadEnd(r, aligned)
  {
  }

  lemma DeadEndUnchanged(r: Ring, r': Ring, aligned: nat)
    requires r' == r.(serviced := r'.serviced, slot := r'.slot, feedback := r'.feedback)
    ensures DeadEnd(r', aligned) <==> DeadEnd(r, aligned)
  {
  }

  /** When the device has nothing left to do and its last report was read, room that is not there now
      will never be. */
  lemma IdleMeansDeadEnd(before: Ring, r: Ring, commands: seq<nat>, aligned: nat)
    requires Inv(before) && r == Reserve(before, aligned) && Inv(r) && aligned <= r.MaxChunk()
    requires FifoMatches(r.regions, r.serviced, commands) && commands == []
    requires r.Next() - r.feedback < r.queueLen
    requires !Fits(r, aligned)
    ensures Wrap16(r.feedback) == Wrap16(r.slot) ==> DeadEnd(r, aligned)
    ensures Wrap16(r.feedback) != Wrap16(r.slot) ==> r.feedback < r.slot
  {
    IdleSlot(r);
    if Wrap16(r.feedback) == Wrap16(r.slot) {
      Distance16(r.slot, r.feedback);
      RefusedOnlyInDeadEnd(r, aligned);
    }
  }

  lemma FillKeepsRoom(r: Ring, skip: nat, data: seq<Byte>, aligned: nat)
    requires r.nextOffset + skip + |data| <= |r.mem|
    ensures Fits(Fill(r, skip, data), aligned) <==> Fits(r, aligned)
    ensures NeedsFeedback(Fill(r, skip, data), aligned) == NeedsFeedback(r, aligned)
    ensures Fill(r, skip, data).Next() == r.Next() && Fill(r, skip, data).feedback == r.feedback
    ensures Fill(r, skip, data).nextOffset == r.nextOffset
    ensures |Fill(r, skip, data).mem| == |r.mem|
    ensures Fits(r, aligned) && skip + |data| <= aligned ==> Fits(r, skip + |data|)
  {
  }

  /** Length, type, flags and padding of a chunk that is being prepared are in place. */
  ghost predicate HeaderStored(r: Ring, length: nat) {
    var first := HEADER_BYTES + PADDING_BYTES;
    && r.nextOffset + first <= |r.mem|
    && r.mem[r.nextOffset + 4..r.nextOffset + first] == LengthField(length) + PADDING
  }

  /** Both states have the same bytes from the payload of the chunk at `nextOffset` on. */
  ghost predicate SamePayload(r: Ring, r': Ring) {
    && |r'.mem| == |r.mem|
    && forall i :: r.nextOffset + HEADER_BYTES + PADDING_BYTES <= i < |r.mem| ==> r'.mem[i] == r.mem[i]
  }

  lemma FillKeepsPayload(r: Ring, skip: nat, data: seq<Byte>)
    requires r.nextOffset + skip + |data| <= |r.mem| && skip + |data| <= HEADER_BYTES + PADDING_BYTES
    ensures SamePayload(r, Fill(r, skip, data))
    ensures Fill(r, skip, data).images == r.images
  {
  }

  lemma FillStoresHeader(r: Ring, length: nat)
    requires r.nextOffset + HEADER_BYTES + PADDING_BYTES <= |r.mem|
    ensures HeaderStored(Fill(r, 4, LengthField(length) + PADDING), length)
  {
  }

  /** Changing the length leaves type, flags and padding. */
  lemma FillStoresLength(r: Ring, length: nat, shorter: nat)
    requires HeaderStored(r, length)
    ensures HeaderStored(Fill(r, 4, Bytes16(shorter % TWO_16)), shorter)
  {
    hide Bytes16;
    var r' := Fill(r, 4, Bytes16(shorter % TWO_16));
    var at := r.nextOffset + 4;
    assert r'.mem[at..at + 6] == r'.mem[at..at + 2] + r'.mem[at + 2..at + 6];
    assert r'.mem[at + 2..at + 6] == r.mem[at..at + 6][2..] == [TYPE_RAW, 0] + PADDING;
    assert LengthField(shorter) + PADDING == Bytes16(shorter % TWO_16) + ([TYPE_RAW, 0] + PADDING);
  }

  /** There is room for `aligned` bytes and a sequence number, and `want` is the decision on feedback. */
  ghost predicate RoomFound(r: Ring, aligned: nat, want: bool) {
    Fits(r, aligned) && r.Next() - r.feedback < r.queueLen && want == NeedsFeedback(r, aligned)
  }

  lemma KeepsRoomFound(r: Ring, skip: nat, data: seq<Byte>, aligned: nat, want: bool)
    requires RoomFound(r, aligned, want) && skip + |data| <= aligned && r.nextOffset + skip + |data| <= |r.mem|
    ensures RoomFound(Fill(r, skip, data), aligned, want) && Fits(r, skip + |data|)
  {
  }

  lemma RoomIsInside(r: Ring, aligned: nat, want: bool)
    requires Inv(r) && RoomFound(r, aligned, want)
    ensures r.nextOffset + aligned <= r.size == |r.mem|
  {
    FreeSpaceInBuffer(r);
  }

  lemma ServiceKeepsPrepared(r: Ring, length: nat, aligned: nat, want: bool)
    requires r.serviced + 1 < |r.wanted| && HeaderStored(r, length) && RoomFound(r, aligned, want)
    ensures HeaderStored(Service(r), length) && RoomFound(Service(r), aligned, want)
  {
  }

  lemma FillKeepsHeader(r: Ring, length: nat, skip: nat, data: seq<Byte>)
    requires HeaderStored(r, length) && skip >= HEADER_BYTES + PADDING_BYTES
    requires r.nextOffset + skip + |data| <= |r.mem|
    ensures HeaderStored(Fill(r, skip, data), length)
  {
    hide LengthField;
    var at := r.nextOffset + 4;
    assert Fill(r, skip, data).mem[at..at + 6] == r.mem[at..at + 6];
  }

  /** What is recorded for a chunk whose header and payload were written in place. */
  lemma EndImage(r: Ring, r1: Ring, id: Word16, slotIndex: Byte, want: bool, reserved: nat, length: nat)
    requires r1 == r.(mem := r1.mem) && SamePayload(r, r1) && want == NeedsFeedback(r, reserved)
    requires HeaderStored(r1, length + PADDING_BYTES)
    requires |r.images| == |r.wanted| == r.Next() && r.nextOffset + CacheAlign(length + 10) <= |r.mem|
    ensures var r' := Send(Fill(r1, 0, IdField(id, SlotField(slotIndex, want))), reserved, CacheAlign(length + 10));
            PreparedSent(r, r', id, slotIndex, length)
  {
    hide LengthField, IdField, HeaderStored, NeedsFeedback, SlotField;
    var used, head := CacheAlign(length + 10), IdField(id, SlotField(slotIndex, want));
    assert length + 10 <= used;
    hide CacheAlign;
    SameFeedback(r, Fill(r1, 0, head).mem, reserved);
    StoredImage(r, r1, head, used, length);
    SendsFrame(r, Fill(r1, 0, head), id, slotIndex, want, reserved,
               r.mem[r.nextOffset + 10..r.nextOffset + 10 + length]);
  }

  lemma SameFeedback(r: Ring, mem: seq<Byte>, reserved: nat)
    ensures NeedsFeedback(r.(mem := mem), reserved) == NeedsFeedback(r, reserved)
  {
  }

  lemma SendsFrame(r: Ring, r1: Ring, id: Word16, slotIndex: Byte, want: bool, reserved: nat, frame: seq<Byte>)
    requires r1 == r.(mem := r1.mem) && want == NeedsFeedback(r1, reserved)
    requires |r.images| == |r.wanted| == r.Next() && r.nextOffset + CacheAlign(|frame| + 10) <= |r1.mem|
    requires r1.mem[r.nextOffset..r.nextOffset + CacheAlign(|frame| + 10)][..|frame| + 10]
             == ChunkBytes(id, SlotField(slotIndex, want), frame)
    ensures var r' := Send(r1, reserved, CacheAlign(|frame| + 10));
            && FrameSent(r, r', id, slotIndex, frame)
            && r'.feedback == r.feedback && r'.regions[r.Next()].start == r.nextOffset
            && r'.nextOffset == r.nextOffset + CacheAlign(|frame| + 10)
  {
    hide NeedsFeedback, ChunkBytes, SlotField, CacheAlign;
  }

  lemma StoredImage(r: Ring, r1: Ring, head: seq<Byte>, used: nat, length: nat)
    requires r1.nextOffset == r.nextOffset && SamePayload(r, r1) && HeaderStored(r1, length + PADDING_BYTES)
    requires |head| == 4 && r.nextOffset + used <= |r.mem| && HEADER_BYTES + PADDING_BYTES + length <= used
    ensures var first := HEADER_BYTES + PADDING_BYTES;
            Fill(r1, 0, head).mem[r.nextOffset..r.nextOffset + used][..first + length]
            == head + LengthField(length + PADDING_BYTES) + PADDING
               + r.mem[r.nextOffset + first..r.nextOffset + first + length]
  {
    hide LengthField, Splice;
    var mem := Splice(r1.mem, r.nextOffset, head);
    var first := HEADER_BYTES + PADDING_BYTES;
    var at := r.nextOffset;
    SameSlice(r1.mem, mem, at + 4, at + first);
    SameSlice(r.mem, mem, at + first, at + first + length);
    InThreeParts(mem, at, 4, first, first + length);
    SliceOfSlice(mem, at, used, first + length);
    assert head + (LengthField(length + PADDING_BYTES) + PADDING)
        == head + LengthField(length + PADDING_BYTES) + PADDING;
  }

  lemma SameSlice(m: seq<Byte>, m': seq<Byte>, lo: nat, hi: nat)
    requires lo <= hi <= |m| == |m'| && forall i :: lo <= i < hi ==> m'[i] == m[i]
    ensures m'[lo..hi] == m[lo..hi]
  {
  }

  lemma SliceOfSlice(m: seq<Byte>, at: nat, n: nat, k: nat)
    requires k <= n && at + n <= |m|
    ensures m[at..at + n][..k] == m[at..at + k]
  {
  }

  lemma SliceBetween(m: seq<Byte>, at: nat, n: nat, i: nat, j: nat)
    requires i <= j <= n && at + n <= |m|
    ensures m[at..at + n][i..j] == m[at + i..at + j]
  {
    assert m[at..at + n] == m[at..at + i] + m[at + i..at + j] + m[at + j..at + n];
  }

  lemma InThreeParts(m: seq<Byte>, at: nat, i: nat, j: nat, k: nat)
    requires i <= j <= k && at + k <= |m|
    ensures m[at..at + k] == m[at..at + i] + m[at + i..at + j] + m[at + j..at + k]
  {
  }

  lemma SamePayloadRefl(r: Ring)
    ensures SamePayload(r, r)
  {
  }

  lemma CacheAlignMono(a: nat, b: nat)
    requires a <= b
    ensures a <= CacheAlign(a) <= CacheAlign(b)
  {
  }

  lemma AlignedHeader(chunkSize: nat)
    requires HEADER_BYTES <= chunkSize
    ensures CACHE_LINE <= CacheAlign(chunkSize) && CacheAlign(chunkSize) % CACHE_LINE == 0
  {
  }

  lemma NextWrap16(s: nat)
    ensures Wrap16(s + 1) == (Wrap16(s) + 1) % TWO_16
  {
  }

  lemma InitialConfig(size: nat, mem: seq<Byte>)
    requires size % PAGE_BYTES == 0 && PAGE_BYTES <= size <= MAX_REGION && |mem| == size
    ensures Config(Initial(size, RoundDownPow2(size / FIFO_DIVISOR), mem))
    ensures RoundDownPow2(size / FIFO_DIVISOR) > 0
  {
    RoundDownPow2IsLargest(size / FIFO_DIVISOR);
  }

  lemma InitialMatches(r: Ring, table: seq<nat>, slotIndex: nat)
    requires r == Initial(r.size, r.queueLen, r.mem) && |table| == r.queueLen > 0 && table[0] == r.size
    ensures TableMatches(r.regions, r.queueLen, table)
    ensures FifoMatches(r.regions, r.serviced, []) && HeadersMatch(r.images, r.wanted, slotIndex)
    ensures Wrap16(0) == 0 && Wrap16(1) == 1
    ensures Inv(r) ==> Reaches(r, [], r)
  {
  }

  /** Three stores next to each other leave their concatenation in memory. */
  lemma StoresConcatenate(m0: seq<Byte>, at: nat, head: seq<Byte>, mid: seq<Byte>, tail: seq<Byte>)
    requires at + |head| + |mid| + |tail| <= |m0|
    ensures var m1 := Splice(m0, at + |head|, mid);
            var m2 := Splice(m1, at + |head| + |mid|, tail);
            var m3 := Splice(m2, at, head);
            m3[at..at + |head| + |mid| + |tail|] == head + mid + tail
  {
    var m1 := Splice(m0, at + |head|, mid);
    var m2 := Splice(m1, at + |head| + |mid|, tail);
    var m3 := Splice(m2, at, head);
    var all := at + |head| + |mid| + |tail|;
    assert m3[at..at + |head|] == head;
    assert m3[at + |head|..at + |head| + |mid|] == mid;
    assert m3[at + |head| + |mid|..all] == tail;
    assert m3[at..all] == m3[at..at + |head|] + m3[at + |head|..at + |head| + |mid|] + m3[at + |head| + |mid|..all];
  }

  /** What is recorded for a chunk that is filled in three parts, header fields first to last, and sent. */
  lemma SentImage(r: Ring, id: Word16, slotIndex: Byte, want: bool, frame: seq<Byte>, reserved: nat)
    requires r.nextOffset + CacheAlign(|frame| + 10) <= |r.mem| && want == NeedsFeedback(r, reserved)
    requires |r.images| == |r.wanted| == r.Next()
    ensures var r1 := Fill(r, 4, LengthField(|frame| + PADDING_BYTES));
            var r2 := Fill(r1, 8, PADDING + frame);
            var r3 := Fill(r2, 0, IdField(id, SlotField(slotIndex, want)));
            var r' := Send(r3, reserved, CacheAlign(|frame| + 10));
            && FrameSent(r, r', id, slotIndex, frame)
            && r'.feedback == r.feedback && r'.regions[r.Next()].start == r.nextOffset
  {
    hide Splice, NeedsFeedback, IdField, LengthField, SlotField;
    var head, mid := IdField(id, SlotField(slotIndex, want)), LengthField(|frame| + PADDING_BYTES);
    var used := CacheAlign(|frame| + 10);
    assert |frame| + 10 <= used;
    hide CacheAlign;
    StoresConcatenate(r.mem, r.nextOffset, head, mid, PADDING + frame);
    var m2 := Splice(Splice(r.mem, r.nextOffset + 4, mid), r.nextOffset + 8, PADDING + frame);
    var m3 := Splice(m2, r.nextOffset, head);
    SliceOfSlice(m3, r.nextOffset, used, |frame| + 10);
    SameFeedback(r, m3, reserved);
    assert head + mid + (PADDING + frame) == head + mid + PADDING + frame;
    SendsFrame(r, r.(mem := m3), id, slotIndex, want, reserved, frame);
  }

  lemma CanSend(r: Ring, reserved: nat, aligned: nat, want: bool)
    requires Inv(r) && RoomFound(r, reserved, want) && CACHE_LINE <= aligned <= reserved && aligned % CACHE_LINE == 0
    ensures r.nextOffset + aligned <= |r.mem| && Enabled(r, DriverSends(reserved, aligned))
  {
    FreeSpaceInBuffer(r);
  }

  /** Table, command FIFO and recorded headers after a chunk was sent, in terms of the 16-bit number. */
  lemma CommitMatches(r: Ring, reserved: nat, aligned: nat, table: seq<nat>, commands: seq<nat>, slotIndex: nat)
    requires Inv(r) && r.nextOffset + aligned <= |r.mem| && Enabled(r, DriverSends(reserved, aligned))
    requires TableMatches(r.regions, r.queueLen, table) && FifoMatches(r.regions, r.serviced, commands)
    requires HeadersMatch(r.images, r.wanted, slotIndex)
    requires HeaderFor(r.mem[r.nextOffset..r.nextOffset + aligned], r.Next(), NeedsFeedback(r, reserved), slotIndex)
    ensures Apply(r, DriverSends(reserved, aligned)) == Send(r, reserved, aligned)
    ensures var r' := Send(r, reserved, aligned);
            && 0 < r.queueLen == |table| && Wrap16(r.Next()) % r.queueLen < |table|
            && TableMatches(r'.regions, r.queueLen, table[Wrap16(r.Next()) % r.queueLen := r.nextOffset + aligned])
            && FifoMatches(r'.regions, r'.serviced, commands + [r.nextOffset])
            && HeadersMatch(r'.images, r'.wanted, slotIndex)
            && Wrap16(r'.Next()) == (Wrap16(r.Next()) + 1) % TWO_16
  {
    hide Config, Layout, Policy, Memory, TableMatches, FifoMatches, HeadersMatch, HeaderFor, Wrap16, NeedsFeedback;
    InvBounds(r);
    var region := Region(r.nextOffset, r.nextOffset + aligned);
    Wrap16ModPow2(r.Next(), r.queueLen);
    NextWrap16(r.Next());
    FifoAppend(r.regions, r.serviced, commands, region);
    TableAppend(r.regions, r.queueLen, table, region);
    HeadersAppend(r.images, r.wanted, slotIndex, r.mem[r.nextOffset..r.nextOffset + aligned],
                  NeedsFeedback(r, reserved));
  }

  /** Length, type and flags of the chunk at `nextOffset` are in place. */
  ghost predicate LengthStored(r: Ring, length: nat) {
    r.nextOffset + 8 <= |r.mem| && r.mem[r.nextOffset + 4..r.nextOffset + 8] == LengthField(length)
  }

  lemma HeaderHasLength(r: Ring, length: nat)
    requires HeaderStored(r, length)
    ensures LengthStored(r, length)
  {
    hide LengthField;
    var at := r.nextOffset + 4;
    SliceOfSlice(r.mem, at, 6, 4);
  }

  lemma FillStoresLengthField(r: Ring, length: nat, data: seq<Byte>)
    requires r.nextOffset + 8 + |data| <= |r.mem|
    ensures LengthStored(Fill(Fill(r, 4, LengthField(length)), 8, data), length)
  {
    hide LengthField;
    var at := r.nextOffset;
    var r1 := Fill(r, 4, LengthField(length));
    SameSlice(r1.mem, Fill(r1, 8, data).mem, at + 4, at + 8);
  }

  /** Number, slot index and flag complete a header whose length is in place. */
  lemma FillCompletesHeader(r: Ring, id: Word16, slotIndex: Byte, wanted: bool, length: nat, used: nat)
    requires LengthStored(r, length) && r.nextOffset + used <= |r.mem| && 8 + length <= used
    requires id == Wrap16(r.Next())
    ensures var mem := Fill(r, 0, IdField(id, SlotField(slotIndex, wanted))).mem;
            HeaderFor(mem[r.nextOffset..r.nextOffset + used], r.Next(), wanted, slotIndex)
  {
    hide IdField, LengthField, Decode;
    var at, head := r.nextOffset, IdField(id, SlotField(slotIndex, wanted));
    var mem := Fill(r, 0, head).mem;
    SliceOfSlice(mem, at, used, 4);
    SliceBetween(mem, at, used, 4, 8);
    SameSlice(r.mem, mem, at + 4, at + 8);
    DecodeFields(mem[at..at + used], id, slotIndex, wanted, length);
    assert length % 0x1_0000 <= length;
  }

  class Tx {
    const buffer: array<Byte>
    const offsets: array<nat>
    const bufferSize: nat
    const queueLen: nat
    const slotIndex: Byte

    var nextOffset: nat
    var feedbackSeq: Word16
    var requestSeq: Word16
    var rolloverSeq: Word16
    var nextSeq: Word16
    var needFeedback: bool
    var prepared: Option<nat>
    var preparedSize: nat

    // Written by the device: the feedback slot and the commands it has not serviced.
    var feedback: Word16
    var commands: seq<nat>

    // The machine state this object stands for and the run that led to it.
    ghost var ring: Ring
    ghost var start: Ring
    ghost var trace: seq<Step>

    ghost predicate Fields()
      reads this
    {
      && ring.size == bufferSize
      && ring.queueLen == queueLen
      && ring.nextOffset == nextOffset
      && Wrap16(ring.feedback) == feedbackSeq
      && Wrap16(ring.request) == requestSeq
      && Wrap16(ring.rollover) == rolloverSeq
      && Wrap16(ring.Next()) == nextSeq
      && Wrap16(ring.slot) == feedback
    }

    /** The run that led here starts with a fresh ring. */
    ghost predicate Traced()
      reads this
    {
      && start == Initial(start.size, start.queueLen, start.mem)
      && Inv(start)
      && Reaches(start, trace, ring)
    }

    /** Room for `aligned` bytes has been found and the decision to ask for feedback was taken for it. */
    ghost predicate Reserved(aligned: nat)
      reads this
    {
      RoomFound(ring, aligned, needFeedback)
    }

    ghost predicate Core()
      reads this, buffer, offsets
    {
      && buffer as object != offsets as object
      && Inv(ring)
      && Fields()
      && TableMatches(ring.regions, queueLen, offsets[..])
      && FifoMatches(ring.regions, ring.serviced, commands)
      && HeadersMatch(ring.images, ring.wanted, slotIndex)
      && Traced()
      && buffer[..] == ring.mem
    }

    ghost predicate Valid()
      reads this, buffer, offsets
    {
      && Core()
      && (prepared.Some? ==>
            && prepared.value == nextOffset
            && preparedSize >= HEADER_BYTES + PADDING_BYTES
            && HeaderStored(ring, preparedSize - HEADER_BYTES)
            && Reserved(CacheAlign(preparedSize)))
    }

    /** Advances the machine together with its recorded run. */
    ghost method Take(step: Step)
      requires Inv(ring) && Traced() && Enabled(ring, step)
      modifies this`ring, this`trace
      ensures Inv(old(ring)) && ring == Apply(old(ring), step)
      ensures trace == old(trace) + [step]
      ensures Inv(ring) && Traced()
    {
      StepKeepsInv(ring, step);
      ReachesSnoc(start, trace, ring, step);
      trace := trace + [step];
      ring := Apply(ring, step);
    }

    /** `exanic_acquire_tx_buffer`, given the memory and the feedback slot that the kernel allocated. */
    constructor (memory: array<Byte>, slot: Byte)
      requires memory.Length % PAGE_BYTES == 0 && PAGE_BYTES <= memory.Length <= MAX_REGION
      ensures Valid() && buffer == memory && prepared == None
      ensures slotIndex == slot && queueLen == RoundDownPow2(memory.Length / 512)
      ensures ring == Initial(memory.Length, queueLen, memory[..])
      ensures trace == [] && start == ring
    {
      var size := memory.Length;
      var len := RoundDownPow2(size / FIFO_DIVISOR);
      InitialConfig(size, memory[..]);
      buffer := memory;
      bufferSize := size;
      queueLen := len;
      slotIndex := slot;
      offsets := new nat[len](i => 0);
      nextOffset := 0;
      feedbackSeq, requestSeq, rolloverSeq, nextSeq := 0, 0, 1, 1;
      needFeedback := false;
      prepared, preparedSize := None, 0;
      feedback := 0;
      commands := [];
      ring := Initial(size, len, memory[..]);
      start := Initial(size, len, memory[..]);
      trace := [];
      new;
      hide Inv, Reaches, TableMatches, FifoMatches, HeadersMatch, Wrap16, RoundDownPow2, CacheAlign;
      offsets[0] := size;
      InitialMatches(ring, offsets[..], slot);
      InitialInv(size, len, memory[..]);
    }

    // -------------------------------------------------------------------------------------------
    // The device
    // -------------------------------------------------------------------------------------------

    /** The device fetches a chunk: all it is given is an offset, the rest is what it finds in memory there. */
    method Fetch() returns (header: TxHeader, wire: seq<Byte>)
      requires Core() && commands != []
      ensures ring.serviced + 1 < |ring.wanted| && header.wanted == ring.wanted[ring.serviced + 1]
      ensures header.id == Wrap16(ring.serviced + 1) && header.slot == slotIndex
      ensures Delivered(Service(ring), commands[0], wire)
      ensures FifoMatches(ring.regions, ring.serviced + 1, commands[1..])
      ensures Enabled(ring, Step.DeviceServices) && Apply(ring, Step.DeviceServices) == Service(ring)
    {
      hide Inv, Reaches, FifoMatches, HeadersMatch, TableMatches, Apply, Enabled, Decode, Wrap16, Delivered;
      OldestCommand(ring, commands, slotIndex);
      var c := commands[0];
      header := Decode(buffer[c..c + 8]);
      wire := buffer[c..c + 8 + header.length];
    }

    /** The device services one command: it fetches the chunk, and if the chunk asks for it, reports the
        number found there to the slot found there. */
    method DeviceServices() returns (wire: seq<Byte>)
      requires Valid() && commands != []
      modifies this`feedback, this`commands, this`ring, this`trace
      ensures Valid()
      ensures old(ring).serviced + 1 < |old(ring).wanted| && ring == Service(old(ring))
      ensures trace == old(trace) + [Step.DeviceServices]
      ensures |commands| == |old(commands)| - 1
      ensures Delivered(ring, old(commands)[0], wire)
    {
      hide HeaderStored, RoomFound, Inv, Reaches, FifoMatches, HeadersMatch, TableMatches, CacheAlign, Apply, Enabled;
      hide Wrap16, Delivered;
      var header;
      header, wire := Fetch();
      if prepared.Some? {
        ServiceKeepsPrepared(ring, preparedSize - HEADER_BYTES, CacheAlign(preparedSize), needFeedback);
      }
      Take(Step.DeviceServices);
      commands := commands[1..];
      if header.wanted && header.slot == slotIndex {
        feedback := header.id;
      }
    }

    /** The device runs for a while: it services at least one command if there is any. */
    method DeviceRuns(ghost aligned: nat)
      requires Valid()
      modifies this`feedback, this`commands, this`ring, this`trace
      ensures Valid()
      ensures ring == old(ring).(serviced := ring.serviced, slot := ring.slot)
      ensures old(ring).serviced <= ring.serviced
      ensures |commands| < |old(commands)| || commands == [] == old(commands)
      ensures OnlyWaits(old(trace), trace, aligned)
    {
      hide HeaderStored, Valid, OnlyWaits;
      WaitsRefl(trace, aligned);
      if commands == [] {
        return;
      }
      var rounds :| 1 <= rounds <= |commands|;
      for i := 0 to rounds
        invariant Valid()
        invariant |commands| == |old(commands)| - i
        invariant ring == old(ring).(serviced := ring.serviced, slot := ring.slot)
        invariant old(ring).serviced <= ring.serviced
        invariant OnlyWaits(old(trace), trace, aligned)
      {
        WaitsStep(old(trace), trace, Step.DeviceServices, aligned);
        var _ := DeviceServices();
      }
    }

    // -------------------------------------------------------------------------------------------
    // The driver
    // -------------------------------------------------------------------------------------------

    /** `exanic_update_tx_feedback`, for any content of the feedback slot. */
    method UpdateFeedback() returns (ok: bool)
      modifies this`feedbackSeq, this`feedback
      ensures ok <==> Sub16(nextSeq, old(feedback)) <= queueLen
      ensures ok ==> feedbackSeq == feedback == old(feedback)
      ensures !ok ==> feedbackSeq == feedback == Sub16(nextSeq, 1)
    {
      var seqNumber := feedback;
      if Sub16(nextSeq, seqNumber) <= queueLen {
        feedbackSeq := seqNumber;
        return true;
      } else {
        feedbackSeq := Sub16(nextSeq, 1);
        feedback := feedbackSeq;
        return false;
      }
    }

    /** One turn of a wait loop: the device gets on, and the driver reads the slot.  With a conforming
        device the driver never sees an invalid feedback number. */
    method SpinOnFeedback(ghost aligned: nat)
      requires Valid() && prepared == None
      modifies this`feedback, this`commands, this`feedbackSeq, this`ring, this`trace
      ensures Valid()
      ensures ring == old(ring).(serviced := ring.serviced, slot := ring.slot, feedback := ring.slot)
      ensures old(ring).feedback <= ring.feedback
      ensures |commands| < |old(commands)| || commands == [] == old(commands)
      ensures OnlyWaits(old(trace), trace, aligned)
    {
      hide HeaderStored, Inv, Reaches, TableMatches, FifoMatches, HeadersMatch, OnlyWaits, Wrap16, Sub16, CacheAlign;
      DeviceRuns(aligned);
      InvBounds(ring);
      DistancesAreExact(ring);
      var ok := UpdateFeedback();
      assert ok;
      WaitsStep(old(trace), trace, DriverPolls, aligned);
      Take(DriverPolls);
    }

    /** The first wait loop of `exanic_prepare_tx_chunk`: spin until there are sequence numbers left. */
    method WaitForSequenceNumber(ghost aligned: nat)
      requires Valid() && prepared == None
      modifies this`feedback, this`commands, this`feedbackSeq, this`ring, this`trace
      ensures Valid()
      ensures ring == old(ring).(serviced := ring.serviced, slot := ring.slot, feedback := ring.feedback)
      ensures old(ring).feedback <= ring.feedback && ring.Next() - ring.feedback < queueLen
      // It does not wait if there is a number to spare.
      ensures old(ring).Next() - old(ring).feedback < queueLen ==> ring == old(ring)
      ensures OnlyWaits(old(trace), trace, aligned)
    {
      hide HeaderStored, Inv, Reaches, TableMatches, FifoMatches, HeadersMatch, OnlyWaits, Wrap16, Sub16, CacheAlign;
      DistancesAreExact(ring);
      WaitsRefl(trace, aligned);
      while Sub16(nextSeq, feedbackSeq) >= queueLen
        invariant Valid() && prepared == None
        invariant Sub16(nextSeq, feedbackSeq) == ring.Next() - ring.feedback
        invariant ring == old(ring).(feedback := ring.feedback, serviced := ring.serviced, slot := ring.slot)
        invariant old(ring).feedback <= ring.feedback
        invariant old(ring).Next() - old(ring).feedback < queueLen ==> ring == old(ring)
        invariant OnlyWaits(old(trace), trace, aligned)
        decreases |commands|, if ring.feedback < ring.slot then 1 else 0
      {
        DistancesAreExact(ring);
        if commands == [] {
          FifoEmpty(ring);
        }
        ghost var t := trace;
        SpinOnFeedback(aligned);
        WaitsTrans(old(trace), t, trace, aligned);
        DistancesAreExact(ring);
      }
    }

    /** One pass of the second wait loop of `exanic_prepare_tx_chunk`: decide where the chunk would go,
        wrapping around if it does not fit before the end of the buffer, and whether there is room. */
    method TryRoom(aligned: nat) returns (fits: bool)
      requires Valid() && prepared == None
      modifies this`nextOffset, this`rolloverSeq, this`ring, this`trace
      ensures Valid()
      ensures ring == Reserve(old(ring), aligned)
      ensures fits <==> Fits(ring, aligned)
      ensures fits <==> PlaceFor(old(ring), aligned).Some?
      ensures fits ==> nextOffset == PlaceFor(old(ring), aligned).value
      ensures trace == old(trace) + [DriverReserves(aligned)]
    {
      hide HeaderStored, Inv, Reaches, TableMatches, FifoMatches, HeadersMatch, Wrap16, Sub16, CacheAlign;
      InvBounds(ring);
      DistancesAreExact(ring);
      ReserveFindsPlace(ring, aligned);
      if Sub16(nextSeq, feedbackSeq) <= Sub16(nextSeq, rolloverSeq) {
        if nextOffset + aligned <= bufferSize {
          Take(DriverReserves(aligned));
          return true;
        }
        nextOffset := 0;
        rolloverSeq := nextSeq;
      }
      Take(DriverReserves(aligned));
      TableLookup(ring.regions, queueLen, offsets[..], ring.feedback);
      var feedbackOffset := offsets[feedbackSeq % queueLen];
      fits := nextOffset + aligned <= feedbackOffset;
    }

    /** The second wait loop of `exanic_prepare_tx_chunk`: spin until there is room at `nextOffset`. */
    method WaitForRoom(aligned: nat) returns (room: Room)
      requires Valid() && prepared == None && ring.Next() - ring.feedback < queueLen
      modifies this
      ensures Valid() && prepared == None
      ensures Waited(old(ring), ring, aligned) && ring.largest == Max(old(ring).largest, aligned)
      ensures ring.Next() - ring.feedback < queueLen
      ensures DecidedAt(old(ring), old(ring).feedback, aligned, room)
      ensures old(ring).feedback <= ring.feedback
      ensures room.Ready? ==> room.offset == nextOffset && Fits(ring, aligned)
      ensures room.TooLarge? ==> aligned > ring.MaxChunk() && !Fits(ring, aligned)
      ensures room.WaitsForever? <==> aligned <= ring.MaxChunk() && DeadEnd(old(ring), aligned)
      ensures OnlyWaits(old(trace), trace, aligned)
    {
      hide HeaderStored, Inv, Reaches, TableMatches, FifoMatches, HeadersMatch, OnlyWaits, Wrap16;
      hide Sub16, CacheAlign, Fits, DeadEnd;
      hide PlaceFor, DecidedAt, Retrying, Waited, Reserve, Traced, RoomFound, HeaderFor, Decode, Disjoint;
      FirstTry(ring, aligned);
      WaitedNothing(ring, aligned);
      WaitsRefl(trace, aligned);
      while true
        invariant Valid() && prepared == None
        invariant Waited(old(ring), ring, aligned)
        invariant ring.Next() - ring.feedback < queueLen
        invariant old(ring).feedback <= ring.feedback
        invariant Retrying(old(ring), ring, aligned)
        invariant DeadEnd(old(ring), aligned) ==> DeadEnd(ring, aligned)
        invariant aligned <= ring.MaxChunk() && DeadEnd(ring, aligned) ==> DeadEnd(old(ring), aligned)
        invariant OnlyWaits(old(trace), trace, aligned)
        decreases |commands|, ring.slot - ring.feedback
      {
        InvBounds(ring);
        WaitedConfig(old(ring), ring, aligned);
        ReserveWhileWaiting(old(ring), ring, aligned);
        ReserveKeepsNumbers(ring, aligned);
        WaitsStep(old(trace), trace, DriverReserves(aligned), aligned);
        ghost var before := ring;
        var fits := TryRoom(aligned);
        if fits {
          if DeadEnd(ring, aligned) {
            DeadEndDoesNotFit(ring, aligned);
          }
          RetryDecided(old(ring), before, aligned, Ready(nextOffset));
          return Ready(nextOffset);
        }
        if aligned > bufferSize / 2 - FEEDBACK_INTERVAL {
          RetryDecided(old(ring), before, aligned, TooLarge);
          return TooLarge;
        }
        if commands == [] {
          IdleMeansDeadEnd(before, ring, commands, aligned);
          if feedbackSeq == feedback {
            // Every requested feedback has arrived, so the slot will not change any more.
            RetryDecided(old(ring), before, aligned, WaitsForever);
            return WaitsForever;
          }
        }
        ghost var t, tried := trace, ring;
        SpinOnFeedback(aligned);
        WaitsTrans(old(trace), t, trace, aligned);
        DeadEndUnchanged(tried, ring, aligned);
        WaitedOn(old(ring), tried, ring, aligned);
        KeepsRetrying(old(ring), before, ring, aligned);
      }
    }

    /** The end of `exanic_prepare_tx_chunk`: ask for feedback if the last request was too long ago. */
    method DecideFeedback(aligned: nat, requestOffset: nat)
      requires Valid() && prepared == None && requestOffset == ring.End(ring.request)
      modifies this`needFeedback
      ensures Valid()
      ensures needFeedback == NeedsFeedback(ring, aligned)
    {
      hide HeaderStored, Inv, Reaches, FifoMatches, HeadersMatch, TableMatches, Wrap16, Sub16, CacheAlign;
      InvBounds(ring);
      DistancesAreExact(ring);
      if Sub16(nextSeq, requestSeq) > queueLen / 2 {
        needFeedback := true;
      } else if Sub16(nextSeq, requestSeq) > Sub16(nextSeq, rolloverSeq) {
        needFeedback := true;
      } else {
        RequestBehind(ring);
        assert requestOffset <= nextOffset;
        needFeedback := nextOffset + aligned - requestOffset > FEEDBACK_INTERVAL;
      }
    }

    /** `exanic_prepare_tx_chunk`. */
    method Prepare(chunkSize: nat) returns (room: Room)
      requires Valid() && prepared == None && chunkSize > 0
      modifies this
      ensures Valid() && prepared == None
      // Nothing that was sent is touched.
      ensures Waited(old(ring), ring, CacheAlign(chunkSize))
      ensures ring.largest == Max(old(ring).largest, CacheAlign(chunkSize))
      ensures room.Ready? ==> room.offset == nextOffset && Reserved(CacheAlign(chunkSize))
      // The space offered lies in the buffer, clear of everything the device may still read.
      ensures room.Ready? ==>
                && room.offset + CacheAlign(chunkSize) <= bufferSize
                && forall s :: ring.serviced < s < ring.Next() ==>
                     Disjoint(Region(room.offset, room.offset + CacheAlign(chunkSize)), ring.regions[s])
      // What fits behind the last chunk goes there, without waiting if there is a number to spare.
      ensures old(ring).Next() - old(ring).feedback < queueLen && Fits(old(ring), CacheAlign(chunkSize)) ==>
                room == Ready(old(nextOffset))
      ensures Decided(old(ring), ring.feedback, CacheAlign(chunkSize), room)
      // An oversize chunk is refused only if there is no room for it.
      ensures room.TooLarge? ==> CacheAlign(chunkSize) > ring.MaxChunk() && !Fits(ring, CacheAlign(chunkSize))
      // The driver hangs exactly when it is called in a dead end with an acceptable size.
      ensures room.WaitsForever?
              <==> CacheAlign(chunkSize) <= ring.MaxChunk() && DeadEnd(old(ring), CacheAlign(chunkSize))
      // A driver that has only been asked for acceptable sizes always finds room.
      ensures ring.largest <= ring.MaxChunk() ==> room.Ready?
      ensures OnlyWaits(old(trace), trace, CacheAlign(chunkSize))
    {
      hide HeaderStored, Inv, Reaches, TableMatches, FifoMatches, HeadersMatch, OnlyWaits;
      hide Wrap16, Sub16, CacheAlign, DeadEnd;
      hide DecidedAt, Decided, Fits;
      var aligned := CacheAlign(chunkSize);
      InvBounds(ring);
      if ring.largest <= ring.MaxChunk() && aligned <= ring.MaxChunk() {
        WaitsOnlyForRequestedFeedback(ring, aligned);
      }
      TableLookup(ring.regions, queueLen, offsets[..], ring.request);
      var requestOffset := offsets[requestSeq % queueLen];

      WaitForSequenceNumber(aligned);
      ghost var before, t := ring, trace;
      DeadEndUnchanged(old(ring), before, aligned);
      room := WaitForRoom(aligned);
      DecidedOnce(old(ring), before, ring.feedback, aligned, room);
      WaitsTrans(old(trace), t, trace, aligned);
      if room.Ready? {
        DecideFeedback(aligned, requestOffset);
        FreeSpaceIsDisjoint(ring, aligned);
      }
    }

    /** Writes into the space that was found, `skip` bytes from its start. */
    method Store(skip: nat, data: seq<Byte>)
      requires Core() && Fits(ring, skip + |data|)
      modifies buffer, this`ring, this`trace
      ensures Core()
      ensures |old(ring).mem| == |ring.mem| && old(ring).nextOffset + skip + |data| <= |ring.mem|
      ensures ring == Fill(old(ring), skip, data)
      ensures trace == old(trace) + [CallerFills(skip, data)]
    {
      hide Inv, Reaches, FifoMatches, HeadersMatch, TableMatches, Wrap16, CacheAlign;
      InvBounds(ring);
      FreeSpaceIsDisjoint(ring, skip + |data|);
      var at := nextOffset + skip;
      forall i | 0 <= i < |data| {
        buffer[at + i] := data[i];
      }
      Take(CallerFills(skip, data));
      assert buffer[..] == ring.mem;
      assert offsets[..] == old(offsets[..]);
    }

    /** The state update of `exanic_send_tx_chunk`: pass the command on and account for the chunk. */
    method Commit(aligned: nat, ghost reserved: nat)
      requires Core() && Reserved(reserved) && CACHE_LINE <= aligned <= reserved && aligned % CACHE_LINE == 0
      requires ring.nextOffset + aligned <= |ring.mem|
      requires HeaderFor(ring.mem[ring.nextOffset..ring.nextOffset + aligned], ring.Next(), needFeedback, slotIndex)
      modifies this`nextOffset, this`commands, this`requestSeq, this`nextSeq, this`ring, this`trace, offsets
      ensures Core()
      ensures old(ring).nextOffset + aligned <= |old(ring).mem|
      ensures ring == Send(old(ring), reserved, aligned)
    {
      hide Inv, Reaches, FifoMatches, HeadersMatch, TableMatches, Wrap16, CacheAlign;
      hide NeedsFeedback, Fits, Enabled, Apply;
      hide HeaderFor, Decode, HeaderStored;
      CanSend(ring, reserved, aligned, needFeedback);
      CommitMatches(ring, reserved, aligned, offsets[..], commands, slotIndex);
      Take(DriverSends(reserved, aligned));
      commands := commands + [nextOffset];
      nextOffset := nextOffset + aligned;
      offsets[nextSeq % queueLen] := nextOffset;
      assert offsets[..] == old(offsets[..])[nextSeq % queueLen := nextOffset];
      assert buffer[..] == old(buffer[..]);
      if needFeedback {
        requestSeq := nextSeq;
      }
      nextSeq := (nextSeq + 1) % TWO_16;
    }

    /** `exanic_send_tx_chunk`: hand the chunk at `nextOffset` to the device. */
    method SendChunk(chunkSize: nat, ghost reserved: nat)
      requires Core() && Reserved(reserved) && HEADER_BYTES <= chunkSize && CacheAlign(chunkSize) <= reserved
      requires LengthStored(ring, chunkSize - HEADER_BYTES)
      modifies this`nextOffset, this`commands, this`requestSeq, this`nextSeq, this`ring, this`trace
      modifies buffer, offsets
      ensures Core()
      ensures old(ring).nextOffset + reserved <= |old(ring).mem|
      ensures ring == Send(Fill(old(ring), 0, IdField(old(nextSeq), SlotField(slotIndex, needFeedback))),
                           reserved, CacheAlign(chunkSize))
    {
      hide Inv, Reaches, FifoMatches, HeadersMatch, TableMatches, Wrap16, CacheAlign;
      hide Bytes16, IdField, SlotField, Splice;
      hide HeaderFor, LengthStored, Decode, LengthField;
      FreeSpaceIsDisjoint(ring, reserved);
      InvBounds(ring);
      AlignedHeader(chunkSize);
      FillCompletesHeader(ring, nextSeq, slotIndex, needFeedback, chunkSize - HEADER_BYTES, CacheAlign(chunkSize));
      Store(0, IdField(nextSeq, SlotField(slotIndex, needFeedback)));
      Commit(CacheAlign(chunkSize), reserved);
    }

    /** Fills in a chunk for a raw frame in the space that was found for it, and sends it. */
    method FillAndSend(frame: seq<Byte>, chunkSize: nat)
      requires Core() && prepared == None && chunkSize == |frame| + PADDING_BYTES + HEADER_BYTES
      requires Reserved(CacheAlign(chunkSize))
      modifies this`nextOffset, this`commands, this`requestSeq, this`nextSeq, this`ring, this`trace
      modifies buffer, offsets
      ensures Valid()
      ensures FrameSent(old(ring), ring, old(nextSeq), slotIndex, frame)
      ensures ring.feedback == old(ring).feedback && ring.regions[old(ring).Next()].start == old(nextOffset)
    {
      hide Inv, Reaches, FifoMatches, HeadersMatch, TableMatches, Wrap16, Bytes16;
      hide IdField, LengthField, SlotField, Splice;
      hide CacheAlign, Send, Fill, NeedsFeedback, FrameSent;
      InvBounds(ring);
      FreeSpaceIsDisjoint(ring, CacheAlign(chunkSize));
      ghost var r := ring;
      SentImage(r, nextSeq, slotIndex, needFeedback, frame, CacheAlign(chunkSize));
      FillKeepsRoom(ring, 4, LengthField(|frame| + PADDING_BYTES), CacheAlign(chunkSize));
      Store(4, LengthField(|frame| + PADDING_BYTES));
      FillKeepsRoom(ring, 8, PADDING + frame, CacheAlign(chunkSize));
      Store(8, PADDING + frame);
      FillStoresLengthField(r, |frame| + PADDING_BYTES, PADDING + frame);
      SendChunk(chunkSize, CacheAlign(chunkSize));
    }

    /** `exanic_transmit_frame_ex`.  A frame that is transmitted is, from then on, what the device reads
        for the new chunk; a warm-up call sends nothing. */
    method TransmitFrame(frame: seq<Byte>, warm: bool) returns (outcome: Outcome)
      requires Valid()
      modifies this, buffer, offsets
      ensures Valid() && prepared == old(prepared)
      ensures old(prepared).Some? ==> outcome == Failed && ring == old(ring)
      ensures outcome == Hung
              <==> old(prepared).None?
                   && |frame| <= Mtu(bufferSize)
                   && DeadEnd(old(ring), CacheAlign(|frame| + PADDING_BYTES + HEADER_BYTES))
      ensures outcome == Failed && old(prepared).None? ==> |frame| > Mtu(bufferSize)
      ensures old(prepared).None? && ring.largest <= ring.MaxChunk() ==> outcome == Done
      // Also above the MTU, a frame for which there is a place is sent, and it is sent from that place.
      ensures old(prepared).None? ==>
                FollowsRoom(old(ring), ring.feedback, CacheAlign(|frame| + PADDING_BYTES + HEADER_BYTES), outcome,
                            if outcome == Done && !warm
                            then nextOffset - CacheAlign(|frame| + PADDING_BYTES + HEADER_BYTES) else nextOffset)
      ensures outcome != Done || warm ==> ring.images == old(ring).images && ring.mem == old(ring).mem
      ensures outcome == Done && !warm ==> FrameSent(old(ring), ring, old(nextSeq), slotIndex, frame)
    {
      hide Inv, Reaches, FifoMatches, HeadersMatch, TableMatches, Wrap16, DeadEnd, OnlyWaits;
      hide Decided, FollowsRoom, SlotField, ChunkBytes;
      InvBounds(ring);
      if prepared.Some? {
        return Failed;
      }
      var chunkSize := |frame| + PADDING_BYTES + HEADER_BYTES;
      MtuIsExact(bufferSize, |frame|);
      hide CacheAlign;
      var room := Prepare(chunkSize);
      match room {
        case WaitsForever => outcome := Hung;
        case TooLarge => outcome := Failed;
        case Ready(_) =>
          if !warm {
            FillAndSend(frame, chunkSize);
          }
          outcome := Done;
      }
      RoomFollowed(old(ring), ring.feedback, CacheAlign(chunkSize), room, outcome,
                   if room.Ready? && !warm then nextOffset - CacheAlign(chunkSize) else nextOffset);
    }

    /** The end of `exanic_begin_transmit_frame`: header and padding are written where room was found. */
    method StartFrame(offset: nat, frameSize: nat) returns (payload: nat)
      requires Valid() && prepared == None && offset == nextOffset
      requires Reserved(CacheAlign(frameSize + PADDING_BYTES + HEADER_BYTES))
      modifies buffer, this`ring, this`trace, this`prepared, this`preparedSize
      ensures Valid() && prepared == Some(nextOffset) && preparedSize == frameSize + PADDING_BYTES + HEADER_BYTES
      ensures payload == nextOffset + HEADER_BYTES + PADDING_BYTES && payload + frameSize <= bufferSize
      ensures |old(ring).mem| == |ring.mem| && ring == old(ring).(mem := ring.mem)
    {
      hide HeaderStored, Inv, Reaches, FifoMatches, HeadersMatch, TableMatches, Wrap16;
      hide LengthField, Splice, Fits, NeedsFeedback, RoomFound;
      var chunkSize := frameSize + PADDING_BYTES + HEADER_BYTES;
      assert chunkSize <= CacheAlign(chunkSize);
      hide CacheAlign;
      RoomIsInside(ring, CacheAlign(chunkSize), needFeedback);
      KeepsRoomFound(ring, 4, LengthField(frameSize + PADDING_BYTES) + PADDING, CacheAlign(chunkSize), needFeedback);
      FillStoresHeader(ring, frameSize + PADDING_BYTES);
      Store(4, LengthField(frameSize + PADDING_BYTES) + PADDING);
      prepared, preparedSize := Some(offset), chunkSize;
      payload := offset + HEADER_BYTES + PADDING_BYTES;
    }

    /** `exanic_begin_transmit_frame`: make room for a frame and let the caller write it in place. */
    method BeginTransmit(frameSize: nat) returns (outcome: Outcome, payload: nat)
      requires Valid()
      modifies this, buffer
      ensures Valid()
      ensures old(prepared).Some? ==> outcome == Failed && ring == old(ring) && prepared == old(prepared)
      ensures outcome == Hung
              <==> old(prepared).None?
                   && frameSize <= Mtu(bufferSize)
                   && DeadEnd(old(ring), CacheAlign(frameSize + PADDING_BYTES + HEADER_BYTES))
      ensures outcome == Failed && old(prepared).None? ==> frameSize > Mtu(bufferSize) && prepared == None
      ensures old(prepared).None? && ring.largest <= ring.MaxChunk() ==> outcome == Done
      ensures old(prepared).None? ==>
                FollowsRoom(old(ring), ring.feedback, CacheAlign(frameSize + PADDING_BYTES + HEADER_BYTES), outcome,
                            nextOffset)
      ensures outcome == Done ==>
                && prepared == Some(nextOffset)
                && preparedSize == frameSize + PADDING_BYTES + HEADER_BYTES
                && payload == nextOffset + HEADER_BYTES + PADDING_BYTES
                && payload + frameSize <= bufferSize
      ensures ring.images == old(ring).images
    {
      hide HeaderStored, Inv, Reaches, FifoMatches, HeadersMatch, TableMatches, Wrap16, DeadEnd, OnlyWaits;
      hide Fits, NeedsFeedback, RoomFound, Decided, FollowsRoom;
      payload := 0;
      InvBounds(ring);
      if prepared.Some? {
        return Failed, payload;
      }
      var chunkSize := frameSize + PADDING_BYTES + HEADER_BYTES;
      MtuIsExact(bufferSize, frameSize);
      assert chunkSize <= CacheAlign(chunkSize);
      hide CacheAlign;
      var room := Prepare(chunkSize);
      match room {
        case WaitsForever => outcome := Hung;
        case TooLarge => outcome := Failed;
        case Ready(offset) =>
          payload := StartFrame(offset, frameSize);
          outcome := Done;
      }
      RoomFollowed(old(ring), ring.feedback, CacheAlign(chunkSize), room, outcome, nextOffset);
    }

    /** The caller of `exanic_begin_transmit_frame` writes into the frame it was given. */
    method WritePayload(skip: nat, data: seq<Byte>)
      requires Valid() && prepared.Some?
      requires HEADER_BYTES + PADDING_BYTES + skip + |data| <= preparedSize
      modifies buffer, this`ring, this`trace
      ensures Valid()
      ensures old(ring).nextOffset + HEADER_BYTES + PADDING_BYTES + skip + |data| <= |old(ring).mem|
      ensures ring == Fill(old(ring), HEADER_BYTES + PADDING_BYTES + skip, data)
    {
      hide HeaderStored, Inv, Reaches, FifoMatches, HeadersMatch, TableMatches, Wrap16;
      var at := HEADER_BYTES + PADDING_BYTES + skip;
      InvBounds(ring);
      FreeSpaceIsDisjoint(ring, CacheAlign(preparedSize));
      assert preparedSize <= CacheAlign(preparedSize);
      hide CacheAlign;
      FillKeepsRoom(ring, at, data, CacheAlign(preparedSize));
      FillKeepsHeader(ring, preparedSize - HEADER_BYTES, at, data);
      Store(at, data);
    }

    /** The length of a frame that turned out shorter than was prepared for. */
    method StoreLength(frameSize: nat, ghost reserved: nat)
      requires Valid() && prepared.Some? && frameSize + PADDING_BYTES + HEADER_BYTES <= preparedSize
      requires reserved == CacheAlign(preparedSize)
      modifies buffer, this`ring, this`trace
      ensures Core() && Reserved(reserved)
      ensures SamePayload(old(ring), ring) && ring.images == old(ring).images
      ensures ring == old(ring).(mem := ring.mem)
      ensures HeaderStored(ring, if frameSize == 0 then preparedSize - HEADER_BYTES else frameSize + PADDING_BYTES)
    {
      hide Inv, Reaches, FifoMatches, HeadersMatch, TableMatches, Wrap16, Bytes16, LengthField;
      hide HeaderStored, SamePayload, CacheAlign, NeedsFeedback;
      assert HEADER_BYTES + PADDING_BYTES <= reserved by { CacheAlignMono(preparedSize, preparedSize); }
      InvBounds(ring);
      RoomIsInside(ring, reserved, needFeedback);
      SamePayloadRefl(ring);
      if frameSize != 0 {
        FillKeepsRoom(ring, 4, Bytes16((frameSize + PADDING_BYTES) % TWO_16), reserved);
        FillKeepsPayload(ring, 4, Bytes16((frameSize + PADDING_BYTES) % TWO_16));
        FillStoresLength(ring, preparedSize - HEADER_BYTES, frameSize + PADDING_BYTES);
        Store(4, Bytes16((frameSize + PADDING_BYTES) % TWO_16));
      }
    }

    /** The length of the frame that is sent: zero means as much as was prepared. */
    static function FinalLength(frameSize: nat, preparedSize: nat): nat {
      if frameSize != 0 then frameSize else if preparedSize < 10 then 0 else preparedSize - 10
    }

    /** `exanic_end_transmit_frame`: send what the caller wrote, or only the first `frameSize` bytes. */
    method EndTransmit(frameSize: nat)
      requires Valid() && prepared.Some? && frameSize + PADDING_BYTES + HEADER_BYTES <= preparedSize
      modifies this, buffer, offsets
      ensures Valid() && prepared == None
      // What is sent starts where it was prepared, and takes only as much as the final length needs.
      ensures PreparedSent(old(ring), ring, old(nextSeq), slotIndex, FinalLength(frameSize, old(preparedSize)))
    {
      hide Inv, Reaches, FifoMatches, HeadersMatch, TableMatches, Wrap16, Bytes16, IdField, LengthField, SlotField;
      hide ChunkBytes, Send, Fill, Fits, NeedsFeedback, HeaderStored, SamePayload, PreparedSent;
      hide LengthStored, Decode, HeaderFor, Splice;
      InvBounds(ring);
      ghost var reserved := CacheAlign(preparedSize);
      RoomIsInside(ring, reserved, needFeedback);
      ghost var r := ring;
      var chunkSize := preparedSize;
      if frameSize != 0 {
        chunkSize := frameSize + PADDING_BYTES + HEADER_BYTES;
      }
      CacheAlignMono(chunkSize, preparedSize);
      hide CacheAlign;
      StoreLength(frameSize, reserved);
      InvBounds(ring);
      EndImage(r, ring, nextSeq, slotIndex, needFeedback, reserved, chunkSize - 10);
      HeaderHasLength(ring, chunkSize - HEADER_BYTES);
      SendChunk(chunkSize, reserved);
      prepared := None;
    }

    /** `exanic_abort_transmit_frame`. */
    method Abort()
      requires Valid()
      modifies this`prepared
      ensures Valid() && prepared == None
    {
      prepared := None;
    }
  }
}
