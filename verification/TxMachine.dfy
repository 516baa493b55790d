/**
  The transmit ring as a state machine over unbounded sequence numbers.

  The driver's 16-bit counters are represented here by natural numbers that never wrap, and the
  table of end offsets by the whole history of regions.  `TxRing` shows that the driver's own fields
  follow this machine; this module proves what the machine keeps over whole runs.
 */
module TxMachine {
  import opened Words

  const CACHE_LINE := 64
  const PAGE_BYTES := 4096
  const MAX_REGION := 0x20_0000
  const FEEDBACK_INTERVAL := 512
  const FIFO_DIVISOR := 512

  /** Bytes `start..end` of the ring buffer. */
  datatype Region = Region(start: nat, end: nat)

  predicate Disjoint(a: Region, b: Region) {
    a.end <= b.start || b.end <= a.start
  }

  /**
    `regions[s]`, `images[s]` and `wanted[s]` belong to the chunk with sequence number `s`: where it
    was placed, the bytes it held when it was sent, and whether it asked for feedback.  Number 0 is
    the fictitious chunk that ends at the end of the buffer.

    `feedback` and `request` are the driver's last known and last requested feedback, `rollover` the
    first sequence number of the current lap, `serviced` the last chunk the device has finished and
    `slot` the number it last wrote to the feedback slot.  `largest` is the largest aligned size the
    driver has been asked to make room for.
   */
  datatype Ring = Ring(
    size: nat,
    queueLen: nat,
    mem: seq<Byte>,
    regions: seq<Region>,
    images: seq<seq<Byte>>,
    wanted: seq<bool>,
    nextOffset: nat,
    feedback: nat,
    request: nat,
    rollover: nat,
    serviced: nat,
    slot: nat,
    largest: nat
  ) {
    /** The sequence number of the next chunk to be sent. */
    function Next(): nat { |regions| }

    /** The largest aligned size for which the driver is prepared to wait. */
    function MaxChunk(): int { size / 2 - FEEDBACK_INTERVAL }

    /** Where chunk `s` ends; only used for chunks that exist. */
    function End(s: nat): nat { if s < |regions| then regions[s].end else 0 }
  }

  function Initial(size: nat, queueLen: nat, mem: seq<Byte>): Ring {
    Ring(size, queueLen, mem, [Region(size, size)], [[]], [true], 0, 0, 0, 1, 0, 0, 0)
  }

  // ---------------------------------------------------------------------------------------------
  // Invariant
  // ---------------------------------------------------------------------------------------------

  ghost predicate Config(r: Ring) {
    && r.size % PAGE_BYTES == 0
    && PAGE_BYTES <= r.size <= MAX_REGION
    && IsPow2(r.queueLen)
    && r.queueLen <= r.size / FIFO_DIVISOR < 2 * r.queueLen
  }

  /** How the sequence numbers of driver and device are ordered, and how far apart they may be. */
  ghost predicate Order(r: Ring) {
    && 1 <= r.Next() == |r.images| == |r.wanted|
    && r.feedback <= r.slot <= r.serviced < r.Next()
    && r.slot <= r.request < r.Next()
    && 1 <= r.rollover <= r.Next()
    && r.Next() - r.feedback <= r.queueLen
    && r.Next() - r.request <= r.queueLen / 2 + 1
    && r.wanted[r.request]
    && (forall s :: r.slot < s <= r.serviced ==> !r.wanted[s])
    && (forall s :: r.request < s < r.Next() ==> !r.wanted[s])
  }

  /** Chunk `s` starts where the previous one ends. */
  predicate Adjacent(regions: seq<Region>, s: nat)
    requires 1 <= s < |regions|
  {
    regions[s].start == regions[s - 1].end
  }

  /** Chunks `lo..hi` lie end to end. */
  ghost predicate Packed(regions: seq<Region>, lo: nat, hi: nat)
    requires hi <= |regions|
  {
    forall s :: lo < s < hi ==> Adjacent(regions, s)
  }

  predicate Placed(region: Region, size: nat) {
    region.start + CACHE_LINE <= region.end <= size && region.start % CACHE_LINE == 0
  }

  /** Where chunks lie: the current lap is packed from 0, and what is left of the previous lap is
      packed upwards from the end of the chunk that was last known to be finished. */
  ghost predicate Layout(r: Ring)
    requires Order(r)
  {
    && r.regions[0] == Region(r.size, r.size)
    && (forall s :: 1 <= s < r.Next() ==> Placed(r.regions[s], r.size))
    && Packed(r.regions, r.rollover, r.Next())
    && (r.rollover < r.Next() ==> r.regions[r.rollover].start == 0)
    && r.nextOffset == (if r.rollover == r.Next() then 0 else r.regions[r.Next() - 1].end)
    && r.nextOffset % CACHE_LINE == 0
    && CACHE_LINE * (r.Next() - r.rollover) <= r.nextOffset <= r.size
    && (r.feedback < r.rollover ==>
          && r.nextOffset <= r.regions[r.feedback].end
          && Packed(r.regions, r.feedback, r.rollover))
  }

  /** What the feedback policy maintains so that the driver never waits for an unrequested feedback. */
  ghost predicate Policy(r: Ring)
    requires Order(r)
  {
    && (r.request < r.rollover ==> r.rollover == r.Next())
    && (r.request >= r.rollover ==> r.nextOffset <= r.regions[r.request].end + FEEDBACK_INTERVAL)
    && (r.largest <= r.MaxChunk() && r.request < r.rollover ==> r.regions[r.request].end > r.size / 2)
  }

  /** The bytes of a region are still as they were when the chunk was sent. */
  predicate Intact(mem: seq<Byte>, region: Region, image: seq<Byte>) {
    region.start <= region.end <= |mem| && mem[region.start..region.end] == image
  }

  ghost predicate Memory(r: Ring)
    requires Order(r)
  {
    && |r.mem| == r.size
    && forall s :: r.feedback < s < r.Next() ==> Intact(r.mem, r.regions[s], r.images[s])
  }

  ghost predicate Inv(r: Ring) {
    Config(r) && Order(r) && Layout(r) && Policy(r) && Memory(r)
  }

  /** The bounds that hold in every reachable state. */
  lemma InvBounds(r: Ring)
    requires Inv(r)
    ensures 1 <= r.Next() == |r.images| == |r.wanted|
    ensures r.feedback <= r.slot <= r.request < r.Next() && r.slot <= r.serviced < r.Next()
    ensures 1 <= r.rollover <= r.Next()
    ensures r.Next() - r.feedback <= r.queueLen && r.Next() - r.request <= r.queueLen
    ensures IsPow2(r.queueLen) && 0 < r.queueLen <= TWO_16
    ensures |r.mem| == r.size <= MAX_REGION && r.size % PAGE_BYTES == 0
    ensures forall s :: 0 <= s < r.Next() ==> r.regions[s].start <= r.regions[s].end <= r.size
  {
  }

  lemma ImageIntact(r: Ring, s: nat)
    requires Inv(r) && r.feedback < s < r.Next()
    ensures s < |r.images| && Intact(r.mem, r.regions[s], r.images[s])
  {
  }

  lemma InitialInv(size: nat, queueLen: nat, mem: seq<Byte>)
    requires Config(Initial(size, queueLen, mem)) && |mem| == size
    ensures Inv(Initial(size, queueLen, mem))
  {
  }

  // ---------------------------------------------------------------------------------------------
  // Steps
  // ---------------------------------------------------------------------------------------------

  /** The device finishes the next chunk. */
  function Service(r: Ring): Ring
    requires r.serviced + 1 < |r.wanted|
  {
    var s := r.serviced + 1;
    r.(serviced := s, slot := if r.wanted[s] then s else r.slot)
  }

  /** The driver reads the feedback slot. */
  function Poll(r: Ring): Ring {
    r.(feedback := r.slot)
  }

  /** The driver decides where the next chunk of aligned size `a` goes; it may commit a wrap-around. */
  function Reserve(r: Ring, a: nat): Ring {
    var r1 := r.(largest := if a > r.largest then a else r.largest);
    if r.feedback >= r.rollover && r.nextOffset + a > r.size then
      r1.(nextOffset := 0, rollover := r.Next())
    else
      r1
  }

  /** The end of the space that is free from `nextOffset` on. */
  function Limit(r: Ring): nat {
    if r.feedback >= r.rollover then r.size else r.End(r.feedback)
  }

  predicate Fits(r: Ring, a: nat) {
    r.nextOffset + a <= Limit(r)
  }

  /** Where `a` bytes can go: after the last chunk, up to the end of the buffer or up to the chunk that was
      last known to be finished if that is of the lap before; and, only if the buffer ends too early for
      that, at the start of the buffer, up to the same chunk. */
  function PlaceFor(r: Ring, a: nat): Option<nat> {
    if r.feedback < r.rollover then
      if r.nextOffset + a <= r.End(r.feedback) then Some(r.nextOffset) else None
    else if r.nextOffset + a <= r.size then
      Some(r.nextOffset)
    else if a <= r.End(r.feedback) then
      Some(0)
    else
      None
  }

  /** The decision makes room exactly if there is a place, and then there. */
  lemma ReserveFindsPlace(r: Ring, a: nat)
    requires Inv(r)
    ensures Fits(Reserve(r, a), a) <==> PlaceFor(r, a).Some?
    ensures PlaceFor(r, a).Some? ==> Reserve(r, a).nextOffset == PlaceFor(r, a).value
    ensures Fits(r, a) ==> PlaceFor(r, a) == Some(r.nextOffset)
  {
  }

  /** The caller writes bytes into the space it was given, `skip` bytes from its start. */
  function Fill(r: Ring, skip: nat, data: seq<Byte>): Ring
    requires r.nextOffset + skip + |data| <= |r.mem|
  {
    r.(mem := Splice(r.mem, r.nextOffset + skip, data))
  }

  function Splice(m: seq<Byte>, at: nat, data: seq<Byte>): (m': seq<Byte>)
    requires at + |data| <= |m|
    ensures |m'| == |m|
    ensures m'[at..at + |data|] == data
    ensures forall i :: 0 <= i < |m| && !(at <= i < at + |data|) ==> m'[i] == m[i]
  {
    m[..at] + data + m[at + |data|..]
  }

  /** Whether a chunk of aligned size `a` placed now must ask for feedback. */
  predicate NeedsFeedback(r: Ring, a: nat) {
    || r.Next() - r.request > r.queueLen / 2
    || r.request < r.rollover
    || r.nextOffset + a - r.End(r.request) > FEEDBACK_INTERVAL
  }

  /** A chunk for which `prepared` bytes were reserved is sent using `used` of them. */
  function Send(r: Ring, prepared: nat, used: nat): Ring
    requires r.nextOffset + used <= |r.mem|
  {
    var s := r.Next();
    var end := r.nextOffset + used;
    var want := NeedsFeedback(r, prepared);
    r.(regions := r.regions + [Region(r.nextOffset, end)],
       images := r.images + [r.mem[r.nextOffset..end]],
       wanted := r.wanted + [want],
       nextOffset := end,
       request := if want then s else r.request)
  }

  datatype Step =
    | DeviceServices
    | DriverPolls
    | DriverReserves(aligned: nat)
    | CallerFills(skip: nat, data: seq<Byte>)
    | DriverSends(prepared: nat, used: nat)

  /** What the driver's own guards allow: it writes and sends only into space that fits, and sends only
      while there are sequence numbers left. */
  predicate Enabled(r: Ring, step: Step) {
    match step
    case DeviceServices => r.serviced + 1 < r.Next()
    case DriverPolls => true
    case DriverReserves(a) => true
    case CallerFills(skip, data) => Fits(r, skip + |data|)
    case DriverSends(prepared, used) =>
      && Fits(r, prepared)
      && CACHE_LINE <= used <= prepared
      && used % CACHE_LINE == 0
      && r.Next() - r.feedback < r.queueLen
  }

  ghost function Apply(r: Ring, step: Step): Ring
    requires Inv(r) && Enabled(r, step)
  {
    FreeSpaceInBuffer(r);
    match step
    case DeviceServices => Service(r)
    case DriverPolls => Poll(r)
    case DriverReserves(a) => Reserve(r, a)
    case CallerFills(skip, data) => Fill(r, skip, data)
    case DriverSends(prepared, used) => Send(r, prepared, used)
  }

  // ---------------------------------------------------------------------------------------------
  // Geometry
  // ---------------------------------------------------------------------------------------------

  /** Within a packed stretch of chunks, ends grow with sequence numbers. */
  lemma {:induction false} EndsGrow(r: Ring, i: nat, j: nat)
    requires Order(r) && Layout(r)
    requires i <= j
    requires (r.rollover <= i && j < r.Next()) || (r.feedback <= i && j < r.rollover)
    ensures j < r.Next() && r.regions[i].end <= r.regions[j].end
    decreases j - i
  {
    if i < j {
      EndsGrow(r, i, j - 1);
      assert Adjacent(r.regions, j);
      assert Placed(r.regions[j], r.size);
    }
  }

  lemma FreeSpaceInBuffer(r: Ring)
    requires Inv(r)
    ensures r.nextOffset <= Limit(r) <= r.size == |r.mem|
  {
    if r.feedback < r.rollover && r.feedback > 0 {
      assert r.regions[r.feedback].end <= r.size;
    }
  }

  /** Safety: the space offered for a chunk of size `a` lies inside the buffer and overlaps no chunk
      sent after the last known feedback, hence no chunk the device still has to read. */
  lemma FreeSpaceIsDisjoint(r: Ring, a: nat)
    requires Inv(r) && Fits(r, a)
    ensures r.nextOffset + a <= r.size
    ensures forall s :: r.feedback < s < r.Next() ==>
              Disjoint(Region(r.nextOffset, r.nextOffset + a), r.regions[s])
    ensures forall s :: r.serviced < s < r.Next() ==>
              Disjoint(Region(r.nextOffset, r.nextOffset + a), r.regions[s])
  {
    FreeSpaceInBuffer(r);
    forall s | r.feedback < s < r.Next()
      ensures Disjoint(Region(r.nextOffset, r.nextOffset + a), r.regions[s])
    {
      if s >= r.rollover {
        EndsGrow(r, s, r.Next() - 1);
      } else {
        EndsGrow(r, r.feedback, s - 1);
        assert Adjacent(r.regions, s);
      }
    }
  }

  /** Chunks the device may still have to read never overlap each other. */
  lemma InFlightDisjoint(r: Ring, i: nat, j: nat)
    requires Inv(r) && r.feedback < i < j < r.Next()
    ensures Disjoint(r.regions[i], r.regions[j])
  {
    if i >= r.rollover || j < r.rollover {
      EndsGrow(r, i, j - 1);
      assert Adjacent(r.regions, j);
    } else {
      EndsGrow(r, r.feedback, i - 1);
      assert Adjacent(r.regions, i);
      EndsGrow(r, j, r.Next() - 1);
    }
  }

  // ---------------------------------------------------------------------------------------------
  // Every step keeps the invariant
  // ---------------------------------------------------------------------------------------------

  lemma ServiceKeepsInv(r: Ring)
    requires Inv(r) && r.serviced + 1 < r.Next()
    ensures Inv(Service(r))
  {
  }

  lemma PollKeepsInv(r: Ring)
    requires Inv(r)
    ensures Inv(Poll(r))
  {
    if r.slot < r.rollover {
      EndsGrow(r, r.feedback, r.slot);
    }
  }

  lemma ReserveKeepsInv(r: Ring, a: nat)
    requires Inv(r)
    ensures Inv(Reserve(r, a))
  {
  }

  lemma FillKeepsInv(r: Ring, skip: nat, data: seq<Byte>)
    requires Inv(r) && Fits(r, skip + |data|)
    ensures r.nextOffset + skip + |data| <= |r.mem| && Inv(Fill(r, skip, data))
  {
    hide Memory;
    FreeSpaceInBuffer(r);
    FillKeepsMemory(r, skip, data);
  }

  lemma FillKeepsMemory(r: Ring, skip: nat, data: seq<Byte>)
    requires Inv(r) && Fits(r, skip + |data|) && r.nextOffset + skip + |data| <= |r.mem|
    ensures Order(Fill(r, skip, data)) && Memory(Fill(r, skip, data))
  {
    hide Config, Layout, Policy, Fits;
    FreeSpaceIsDisjoint(r, skip + |data|);
    var r' := Fill(r, skip, data);
    forall s | r.feedback < s < r.Next()
      ensures Intact(r'.mem, r'.regions[s], r'.images[s])
    {
      assert Intact(r.mem, r.regions[s], r.images[s]);
      assert r'.mem[r.regions[s].start..r.regions[s].end] == r.mem[r.regions[s].start..r.regions[s].end];
    }
  }

  lemma PackedAppend(r: Ring, region: Region)
    requires Order(r) && Layout(r) && region.start == r.nextOffset
    ensures Packed(r.regions + [region], r.rollover, r.Next() + 1)
    ensures r.feedback < r.rollover ==> Packed(r.regions + [region], r.feedback, r.rollover)
  {
    var regions := r.regions + [region];
    forall s | 1 <= s < r.Next() && Adjacent(r.regions, s)
      ensures Adjacent(regions, s)
    {
    }
  }

  lemma SendKeepsMemory(r: Ring, prepared: nat, used: nat)
    requires Inv(r) && Enabled(r, DriverSends(prepared, used)) && r.nextOffset + used <= |r.mem|
    requires Order(Send(r, prepared, used))
    ensures Memory(Send(r, prepared, used))
  {
    hide Config, Layout, Policy;
    var r' := Send(r, prepared, used);
    forall s | r.feedback < s < r.Next()
      ensures Intact(r'.mem, r'.regions[s], r'.images[s])
    {
      assert Intact(r.mem, r.regions[s], r.images[s]);
    }
  }

  lemma SendKeepsLayout(r: Ring, prepared: nat, used: nat)
    requires Inv(r) && Enabled(r, DriverSends(prepared, used)) && r.nextOffset + used <= |r.mem|
    requires Order(Send(r, prepared, used))
    ensures Layout(Send(r, prepared, used))
  {
    hide Config, Policy, Memory, Packed, NeedsFeedback;
    var r' := Send(r, prepared, used);
    PackedAppend(r, Region(r.nextOffset, r.nextOffset + used));
    FreeSpaceInBuffer(r);
    assert r'.regions == r.regions + [Region(r.nextOffset, r.nextOffset + used)];
    assert forall s :: 1 <= s < r'.Next() ==> Placed(r'.regions[s], r'.size);
  }

  lemma SendKeepsInv(r: Ring, prepared: nat, used: nat)
    requires Inv(r) && Enabled(r, DriverSends(prepared, used))
    ensures r.nextOffset + used <= |r.mem| && Inv(Send(r, prepared, used))
  {
    FreeSpaceInBuffer(r);
    var r' := Send(r, prepared, used);
    assert Order(r');
    SendKeepsLayout(r, prepared, used);
    SendKeepsMemory(r, prepared, used);
    assert Policy(r') by {
      hide Layout, Memory;
    }
  }

  lemma StepKeepsInv(r: Ring, step: Step)
    requires Inv(r) && Enabled(r, step)
    ensures Inv(Apply(r, step))
  {
    match step
    case DeviceServices => ServiceKeepsInv(r);
    case DriverPolls => PollKeepsInv(r);
    case DriverReserves(a) => ReserveKeepsInv(r, a);
    case CallerFills(skip, data) => FillKeepsInv(r, skip, data);
    case DriverSends(prepared, used) => SendKeepsInv(r, prepared, used);
  }

  // ---------------------------------------------------------------------------------------------
  // Runs
  // ---------------------------------------------------------------------------------------------

  /** `steps` can be taken one after the other from `r` and lead to `r'`. */
  ghost predicate Reaches(r: Ring, steps: seq<Step>, r': Ring)
    requires Inv(r)
    decreases |steps|
  {
    if steps == [] then
      r' == r
    else
      Enabled(r, steps[0]) && (StepKeepsInv(r, steps[0]); Reaches(Apply(r, steps[0]), steps[1..], r'))
  }

  lemma ReachesCons(r: Ring, step: Step, steps: seq<Step>, r': Ring)
    requires Inv(r) && Enabled(r, step)
    requires (StepKeepsInv(r, step); Reaches(Apply(r, step), steps, r'))
    ensures Reaches(r, [step] + steps, r')
  {
    assert ([step] + steps)[1..] == steps;
  }

  lemma {:induction false} RunKeepsInv(r: Ring, steps: seq<Step>, r': Ring)
    requires Inv(r) && Reaches(r, steps, r')
    ensures Inv(r')
    decreases |steps|
  {
    if steps != [] {
      StepKeepsInv(r, steps[0]);
      RunKeepsInv(Apply(r, steps[0]), steps[1..], r');
    }
  }

  /** Safety over whole runs: after any number of steps and ring wraps, space that is offered for a
      chunk is inside the buffer and overlaps nothing the device may still read. */
  lemma RunIsSafe(size: nat, queueLen: nat, mem: seq<Byte>, steps: seq<Step>, r: Ring, a: nat)
    requires Config(Initial(size, queueLen, mem)) && |mem| == size
    requires (InitialInv(size, queueLen, mem); Reaches(Initial(size, queueLen, mem), steps, r))
    requires Fits(r, a)
    ensures r.nextOffset + a <= r.size == size
    ensures forall s :: r.serviced < s < r.Next() ==>
              Disjoint(Region(r.nextOffset, r.nextOffset + a), r.regions[s])
    ensures forall i, j :: r.serviced < i < j < r.Next() ==> Disjoint(r.regions[i], r.regions[j])
  {
    InitialInv(size, queueLen, mem);
    RunKeepsInv(Initial(size, queueLen, mem), steps, r);
    RunKeepsSize(Initial(size, queueLen, mem), steps, r);
    FreeSpaceIsDisjoint(r, a);
    forall i, j | r.serviced < i < j < r.Next()
      ensures Disjoint(r.regions[i], r.regions[j])
    {
      InFlightDisjoint(r, i, j);
    }
  }

  lemma {:induction false} RunKeepsSize(r: Ring, steps: seq<Step>, r': Ring)
    requires Inv(r) && Reaches(r, steps, r')
    ensures r'.size == r.size && r'.queueLen == r.queueLen
    decreases |steps|
  {
    if steps != [] {
      StepKeepsInv(r, steps[0]);
      RunKeepsSize(Apply(r, steps[0]), steps[1..], r');
    }
  }

  // ---------------------------------------------------------------------------------------------
  // What goes on the wire
  // ---------------------------------------------------------------------------------------------

  /** The contents of the chunks that have been sent but not serviced. */
  ghost function Pending(r: Ring): seq<seq<Byte>>
    requires r.serviced < |r.images|
  {
    r.images[r.serviced + 1..]
  }

  /** What the device reads from the buffer when it services the next chunk. */
  function DeviceReads(r: Ring): seq<Byte>
    requires r.serviced + 1 < |r.regions|
    requires r.regions[r.serviced + 1].start <= r.regions[r.serviced + 1].end <= |r.mem|
  {
    var region := r.regions[r.serviced + 1];
    r.mem[region.start..region.end]
  }

  /** What the device reads in one step: the next chunk if the step services it, nothing otherwise. */
  ghost function ReadBy(r: Ring, step: Step): seq<seq<Byte>>
    requires Inv(r) && Enabled(r, step)
  {
    if step.DeviceServices? then [DeviceReads(r)] else []
  }

  /** What the driver hands over in one step. */
  ghost function SentBy(r: Ring, step: Step): seq<seq<Byte>>
    requires Inv(r) && Enabled(r, step)
  {
    FreeSpaceInBuffer(r);
    if step.DriverSends? then [r.mem[r.nextOffset..r.nextOffset + step.used]] else []
  }

  /** What the device reads during a run, in order. */
  ghost function Wire(r: Ring, steps: seq<Step>, r': Ring): seq<seq<Byte>>
    requires Inv(r) && Reaches(r, steps, r')
    decreases |steps|
  {
    if steps == [] then
      []
    else
      StepKeepsInv(r, steps[0]);
      ReadBy(r, steps[0]) + Wire(Apply(r, steps[0]), steps[1..], r')
  }

  /** What the driver hands over during a run, in order. */
  ghost function Sent(r: Ring, steps: seq<Step>, r': Ring): seq<seq<Byte>>
    requires Inv(r) && Reaches(r, steps, r')
    decreases |steps|
  {
    if steps == [] then
      []
    else
      StepKeepsInv(r, steps[0]);
      SentBy(r, steps[0]) + Sent(Apply(r, steps[0]), steps[1..], r')
  }

  lemma ServiceConserves(r: Ring)
    requires Inv(r) && r.serviced + 1 < r.Next()
    ensures r.regions[r.serviced + 1].start <= r.regions[r.serviced + 1].end <= |r.mem|
    ensures Pending(r) == [DeviceReads(r)] + Pending(Service(r))
  {
    hide Config, Layout, Policy;
    assert Intact(r.mem, r.regions[r.serviced + 1], r.images[r.serviced + 1]);
  }

  lemma SendConserves(r: Ring, prepared: nat, used: nat)
    requires r.serviced < |r.images| && r.nextOffset + used <= |r.mem|
    ensures Pending(Send(r, prepared, used)) == Pending(r) + [r.mem[r.nextOffset..r.nextOffset + used]]
  {
    hide NeedsFeedback;
  }

  lemma StepConserves(r: Ring, step: Step)
    requires Inv(r) && Enabled(r, step)
    ensures Apply(r, step).serviced < |Apply(r, step).images|
    ensures Pending(r) + SentBy(r, step) == ReadBy(r, step) + Pending(Apply(r, step))
  {
    hide Config, Layout, Policy, Memory, Pending, DeviceReads;
    FreeSpaceInBuffer(r);
    match step
    case DeviceServices => ServiceConserves(r);
    case DriverSends(prepared, used) => SendConserves(r, prepared, used);
    case DriverPolls => SamePending(r, Poll(r));
    case DriverReserves(a) => SamePending(r, Reserve(r, a));
    case CallerFills(skip, data) => SamePending(r, Fill(r, skip, data));
  }

  lemma SamePending(r: Ring, r': Ring)
    requires r.serviced < |r.images| && r'.images == r.images && r'.serviced == r.serviced
    ensures Pending(r) + [] == [] + Pending(r')
  {
  }

  lemma Regroup<T>(p: seq<T>, s: seq<T>, w: seq<T>, p1: seq<T>, ss: seq<T>, ws: seq<T>, q: seq<T>)
    requires p + s == w + p1 && p1 + ss == ws + q
    ensures p + (s + ss) == (w + ws) + q
  {
    assert p + (s + ss) == (p + s) + ss;
    assert w + (p1 + ss) == (w + p1) + ss;
    assert w + (ws + q) == (w + ws) + q;
  }

  /** Conservation: what was pending plus what was sent is what went on the wire plus what is still
      pending.  Nothing is lost, repeated, reordered or overwritten before it is read. */
  lemma {:induction false} WireIsWhatWasSent(r: Ring, steps: seq<Step>, r': Ring)
    requires Inv(r) && Reaches(r, steps, r')
    ensures Inv(r')
    ensures Pending(r) + Sent(r, steps, r') == Wire(r, steps, r') + Pending(r')
    decreases |steps|
  {
    if steps == [] {
    } else {
      StepKeepsInv(r, steps[0]);
      StepConserves(r, steps[0]);
      var r1 := Apply(r, steps[0]);
      WireIsWhatWasSent(r1, steps[1..], r');
      Regroup(Pending(r), SentBy(r, steps[0]), ReadBy(r, steps[0]), Pending(r1),
              Sent(r1, steps[1..], r'), Wire(r1, steps[1..], r'), Pending(r'));
    }
  }

  // ---------------------------------------------------------------------------------------------
  // How often feedback is asked for
  // ---------------------------------------------------------------------------------------------

  /** No wrap-around lies between the two chunks. */
  ghost predicate SameLap(regions: seq<Region>, s1: nat, s2: nat)
    requires s2 < |regions|
  {
    forall s :: s1 < s <= s2 ==> regions[s].start != 0
  }

  /** Two chunks of one lap that both ask for feedback are more than half a queue of chunks or more than
      512 bytes apart. */
  ghost predicate Spaced(r: Ring)
    requires Order(r)
  {
    forall s1, s2 :: 0 <= s1 < s2 < r.Next() && r.wanted[s1] && r.wanted[s2] && SameLap(r.regions, s1, s2) ==>
      s2 - s1 > r.queueLen / 2 || r.regions[s2].end > r.regions[s1].end + 512
  }

  /** Every chunk is sent with the size that was prepared for it. */
  ghost predicate SentAsPrepared(steps: seq<Step>) {
    forall i :: 0 <= i < |steps| ==> steps[i].DriverSends? ==> steps[i].used == steps[i].prepared
  }

  lemma SendKeepsSpaced(r: Ring, used: nat)
    requires Inv(r) && Spaced(r) && Enabled(r, DriverSends(used, used)) && r.nextOffset + used <= |r.mem|
    ensures Order(Send(r, used, used)) && Spaced(Send(r, used, used))
  {
    hide Config, Memory, Policy;
    var r' := Send(r, used, used);
    forall s1, s2 | 0 <= s1 < s2 < r'.Next() && r'.wanted[s1] && r'.wanted[s2] && SameLap(r'.regions, s1, s2)
      ensures s2 - s1 > r.queueLen / 2 || r'.regions[s2].end > r'.regions[s1].end + 512
    {
      if s2 < r.Next() {
        assert SameLap(r.regions, s1, s2) by {
          assert forall s :: s1 < s <= s2 ==> r'.regions[s] == r.regions[s];
        }
      } else {
        assert r'.regions[s2].start == r.nextOffset != 0;
        assert r'.regions[r.rollover] == r.regions[r.rollover] && r.regions[r.rollover].start == 0;
        assert r.rollover <= s1;
        EndsGrow(r, s1, r.request);
      }
    }
  }

  lemma StepKeepsSpaced(r: Ring, step: Step)
    requires Inv(r) && Spaced(r) && Enabled(r, step) && SentAsPrepared([step])
    ensures Inv(Apply(r, step)) && Spaced(Apply(r, step))
  {
    StepKeepsInv(r, step);
    FreeSpaceInBuffer(r);
    if step.DriverSends? {
      assert [step][0].used == [step][0].prepared;
      SendKeepsSpaced(r, step.used);
    } else {
      hide Config, Layout, Memory, Policy;
      assert Apply(r, step).regions == r.regions && Apply(r, step).wanted == r.wanted;
    }
  }

  lemma {:induction false} RunKeepsSpaced(r: Ring, steps: seq<Step>, r': Ring)
    requires Inv(r) && Spaced(r) && Reaches(r, steps, r') && SentAsPrepared(steps)
    ensures Inv(r') && Spaced(r')
    decreases |steps|
  {
    if steps != [] {
      assert SentAsPrepared([steps[0]]) && SentAsPrepared(steps[1..]);
      StepKeepsSpaced(r, steps[0]);
      RunKeepsSpaced(Apply(r, steps[0]), steps[1..], r');
    }
  }

  /** Over any run in which frames are sent as they were prepared, feedback is asked for no more often
      than that; the invariant says that it is asked for no less often. */
  lemma FeedbackIsSpaced(size: nat, queueLen: nat, mem: seq<Byte>, steps: seq<Step>, r: Ring)
    requires Config(Initial(size, queueLen, mem)) && |mem| == size
    requires (InitialInv(size, queueLen, mem); Reaches(Initial(size, queueLen, mem), steps, r))
    requires SentAsPrepared(steps)
    ensures Inv(r) && Spaced(r)
    ensures r.Next() - r.request <= r.queueLen / 2 + 1
    ensures r.request >= r.rollover ==> r.nextOffset <= r.regions[r.request].end + 512
    ensures r.request < r.rollover ==> r.rollover == r.Next()
  {
    InitialInv(size, queueLen, mem);
    RunKeepsSpaced(Initial(size, queueLen, mem), steps, r);
  }

  // ---------------------------------------------------------------------------------------------
  // 16-bit sequence numbers
  // ---------------------------------------------------------------------------------------------

  /** In every reachable state the wrapped distances are the true ones, so every 16-bit comparison of
      the driver agrees with the comparison of unbounded sequence numbers. */
  lemma DistancesAreExact(r: Ring)
    requires Inv(r)
    ensures Sub16(Wrap16(r.Next()), Wrap16(r.feedback)) == r.Next() - r.feedback <= r.queueLen
    ensures Sub16(Wrap16(r.Next()), Wrap16(r.slot)) == r.Next() - r.slot <= r.queueLen
    ensures Sub16(Wrap16(r.Next()), Wrap16(r.request)) == r.Next() - r.request <= r.queueLen / 2 + 1
    ensures Sub16(Wrap16(r.Next()), Wrap16(r.rollover)) == r.Next() - r.rollover <= r.size / CACHE_LINE
    ensures r.queueLen / 2 + 1 < r.queueLen <= MAX_REGION / FIFO_DIVISOR
  {
    Distance16(r.Next(), r.feedback);
    Distance16(r.Next(), r.slot);
    Distance16(r.Next(), r.request);
    Distance16(r.Next(), r.rollover);
  }

  // ---------------------------------------------------------------------------------------------
  // Progress
  // ---------------------------------------------------------------------------------------------

  /** The driver can leave both of its wait loops with room for a chunk of size `a`. */
  predicate Granted(r: Ring, a: nat) {
    r.Next() - r.feedback < r.queueLen && Fits(Reserve(r, a), a)
  }

  /** The state in which waiting for room for a chunk of size `a` cannot help: no chunk was sent since
      the ring wrapped, and the chunk last asked to report ended too early in the lap before. */
  predicate DeadEnd(r: Ring, a: nat) {
    r.request < r.rollover && r.End(r.request) < a
  }

  /** With every requested feedback received, room is refused to an acceptable size only in a dead end. */
  lemma RefusedOnlyInDeadEnd(r: Ring, a: nat)
    requires Inv(r) && a <= r.MaxChunk() && r.feedback == r.request
    ensures Granted(r, a) <==> !DeadEnd(r, a)
  {
  }

  /** If no size above the maximum was ever asked for, the driver waits only while a feedback that it
      did request is outstanding. */
  lemma WaitsOnlyForRequestedFeedback(r: Ring, a: nat)
    requires Inv(r) && r.largest <= r.MaxChunk() && a <= r.MaxChunk()
    ensures !DeadEnd(r, a)
    ensures !Granted(r, a) ==> r.feedback < r.request
  {
    if r.feedback == r.request {
      RefusedOnlyInDeadEnd(r, a);
    }
  }

  /** Steps that happen while the driver waits for room for a chunk of size `a`. */
  ghost predicate WaitingSteps(steps: seq<Step>, a: nat) {
    forall i :: 0 <= i < |steps| ==>
      steps[i] == DeviceServices || steps[i] == DriverPolls || steps[i] == DriverReserves(a)
  }

  lemma DeadEndDoesNotFit(r: Ring, a: nat)
    requires Inv(r) && DeadEnd(r, a)
    ensures !Fits(r, a) && !Granted(r, a)
  {
    EndsGrow(r, r.feedback, r.request);
  }

  lemma {:induction false} DeadEndIsForever(r: Ring, steps: seq<Step>, a: nat, r': Ring)
    requires Inv(r) && WaitingSteps(steps, a) && Reaches(r, steps, r')
    requires DeadEnd(r, a)
    ensures Inv(r') && DeadEnd(r', a) && !Granted(r', a)
    decreases |steps|
  {
    if steps == [] {
      DeadEndDoesNotFit(r, a);
    } else {
      StepKeepsInv(r, steps[0]);
      assert steps[0] == DeviceServices || steps[0] == DriverPolls || steps[0] == DriverReserves(a);
      var r1 := Apply(r, steps[0]);
      assert WaitingSteps(steps[1..], a);
      DeadEndIsForever(r1, steps[1..], a, r');
    }
  }

  /** Within a lap, the chunk last asked to report ends no later than the next one starts, so the
      driver's subtraction of the two offsets does not underflow. */
  lemma RequestBehind(r: Ring)
    requires Inv(r) && r.request >= r.rollover
    ensures r.regions[r.request].end <= r.nextOffset
  {
    EndsGrow(r, r.request, r.Next() - 1);
  }

  /** When the device has finished everything, the slot holds the last requested feedback. */
  lemma IdleSlot(r: Ring)
    requires Inv(r) && r.serviced + 1 == r.Next()
    ensures r.slot == r.request
  {
  }

  /** The device can finish everything it was given; the feedback slot then holds the last request. */
  lemma {:induction false} Drain(r: Ring, a: nat) returns (steps: seq<Step>, r': Ring)
    requires Inv(r)
    ensures WaitingSteps(steps, a) && Reaches(r, steps, r') && Inv(r')
    ensures r' == r.(serviced := r.Next() - 1, slot := r.request, feedback := r.request)
    decreases r.Next() - r.serviced
  {
    hide Config, Layout, Policy, Memory;
    if r.serviced + 1 == r.Next() {
      StepKeepsInv(r, DriverPolls);
      IdleSlot(r);
      steps, r' := [DriverPolls], Poll(r);
      assert Reaches(Poll(r), [], r');
      ReachesCons(r, DriverPolls, [], r');
      assert [DriverPolls] + [] == steps;
    } else {
      StepKeepsInv(r, DeviceServices);
      steps, r' := Drain(Service(r), a);
      ReachesCons(r, DeviceServices, steps, r');
      WaitingCons(DeviceServices, steps, a);
      steps := [DeviceServices] + steps;
    }
  }

  lemma WaitingCons(step: Step, steps: seq<Step>, a: nat)
    requires WaitingSteps(steps, a) && (step == DeviceServices || step == DriverPolls)
    ensures WaitingSteps([step] + steps, a)
  {
  }

  /** Exactly when waiting for an acceptable size can succeed: if and only if it does not start in a
      dead end.  The driver's caller can read the condition off the request and rollover counters and
      one table entry before the call. */
  lemma WaitSucceedsIff(r: Ring, a: nat)
    requires Inv(r) && a <= r.MaxChunk()
    ensures (exists steps, r' :: WaitingSteps(steps, a) && Reaches(r, steps, r') && Inv(r') && Granted(r', a))
            <==> !DeadEnd(r, a)
  {
    if DeadEnd(r, a) {
      forall steps, r' | WaitingSteps(steps, a) && Reaches(r, steps, r')
        ensures Inv(r') && !Granted(r', a)
      {
        DeadEndIsForever(r, steps, a, r');
      }
    } else {
      var steps, r' := Drain(r, a);
      RefusedOnlyInDeadEnd(r', a);
    }
  }

  ghost predicate AsksAtMost(steps: seq<Step>, limit: int) {
    forall i :: 0 <= i < |steps| ==> steps[i].DriverReserves? ==> steps[i].aligned <= limit
  }

  lemma {:induction false} LargestIsBounded(r: Ring, steps: seq<Step>, r': Ring, limit: int)
    requires Inv(r) && Reaches(r, steps, r') && AsksAtMost(steps, limit) && r.largest <= limit
    ensures r'.largest <= limit
    decreases |steps|
  {
    if steps != [] {
      StepKeepsInv(r, steps[0]);
      assert AsksAtMost(steps[1..], limit);
      LargestIsBounded(Apply(r, steps[0]), steps[1..], r', limit);
    }
  }

  /** Progress over whole runs: as long as only acceptable sizes are asked for, no run of the driver
      ever reaches a state in which it would wait for a feedback that nobody asked for, and the device
      alone can always bring the wait to an end. */
  lemma RunMakesProgress(size: nat, queueLen: nat, mem: seq<Byte>, steps: seq<Step>, r: Ring, a: nat)
    requires Config(Initial(size, queueLen, mem)) && |mem| == size
    requires (InitialInv(size, queueLen, mem); Reaches(Initial(size, queueLen, mem), steps, r))
    requires AsksAtMost(steps, size / 2 - FEEDBACK_INTERVAL) && a <= size / 2 - FEEDBACK_INTERVAL
    ensures Inv(r)
    ensures !Granted(r, a) ==> r.feedback < r.request
    ensures exists waits, r' :: WaitingSteps(waits, a) && Reaches(r, waits, r') && Inv(r') && Granted(r', a)
  {
    var r0 := Initial(size, queueLen, mem);
    InitialInv(size, queueLen, mem);
    RunKeepsInv(r0, steps, r);
    RunKeepsSize(r0, steps, r);
    LargestIsBounded(r0, steps, r, size / 2 - FEEDBACK_INTERVAL);
    WaitsOnlyForRequestedFeedback(r, a);
    WaitSucceedsIff(r, a);
  }

  /** Where the premise fails: the wrap-around is committed before the size is checked, so a request
      that is refused for its size can leave the ring in a dead end for every size above the end of the
      chunk that was last asked to report. */
  lemma RefusedRequestCommitsWrap(r: Ring, oversize: nat, a: nat)
    requires Inv(r) && r.rollover <= r.feedback == r.request
    requires r.nextOffset + oversize > r.size
    ensures DeadEnd(Reserve(r, oversize), a) <==> r.regions[r.request].end < a
    ensures !Fits(Reserve(r, oversize), oversize) <==> r.regions[r.request].end < oversize
  {
  }

  /** A first chunk of 64 bytes is sent, finished and acknowledged in a 4096-byte buffer. */
  lemma FirstChunkAcknowledged(mem: seq<Byte>) returns (steps: seq<Step>, r: Ring)
    requires |mem| == 4096
    ensures Config(Initial(4096, 8, mem)) && Inv(Initial(4096, 8, mem))
    ensures Reaches(Initial(4096, 8, mem), steps, r) && Inv(r)
    ensures r.size == 4096 && r.regions == [Region(4096, 4096), Region(0, 64)]
    ensures r.nextOffset == 64 && r.rollover == r.feedback == r.request == r.serviced == 1
  {
    var r0 := Initial(4096, 8, mem);
    assert IsPow2(8) by { assert Pow2(3) == 8; }
    InitialInv(4096, 8, mem);
    SendKeepsInv(r0, 64, 64);
    var r1 := Send(r0, 64, 64);
    ServiceKeepsInv(r1);
    var r2 := Service(r1);
    PollKeepsInv(r2);
    r := Poll(r2);
    assert Reaches(r, [], r);
    ReachesCons(r2, DriverPolls, [], r);
    ReachesCons(r1, DeviceServices, [DriverPolls], r);
    steps := [DriverSends(64, 64), DeviceServices, DriverPolls];
    ReachesCons(r0, DriverSends(64, 64), [DeviceServices, DriverPolls], r);
  }

  lemma {:induction false} ReachesSnoc(r: Ring, steps: seq<Step>, r': Ring, step: Step)
    requires Inv(r) && Reaches(r, steps, r')
    requires Inv(r') && Enabled(r', step)
    ensures Reaches(r, steps + [step], Apply(r', step))
    decreases |steps|
  {
    hide Config, Order, Layout, Policy, Memory, Enabled, Apply;
    if steps == [] {
      StepKeepsInv(r, step);
      assert Reaches(Apply(r', step), [], Apply(r', step));
      ReachesCons(r', step, [], Apply(r', step));
      assert steps + [step] == [step] + [];
    } else {
      StepKeepsInv(r, steps[0]);
      ReachesSnoc(Apply(r, steps[0]), steps[1..], r', step);
      assert (steps + [step])[1..] == steps[1..] + [step];
    }
  }

  /** A concrete lock-up: asking for a chunk as large as the buffer is refused, and the next request for
      128 bytes then waits forever although nothing is in flight. */
  lemma OversizeRequestLocksUp(mem: seq<Byte>) returns (steps: seq<Step>, r: Ring)
    requires |mem| == 4096
    ensures Inv(Initial(4096, 8, mem)) && Reaches(Initial(4096, 8, mem), steps, r)
    ensures Inv(r) && r.serviced + 1 == r.Next() && r.feedback == r.request
    ensures 128 <= r.MaxChunk() < 4096 && DeadEnd(r, 128)
  {
    var steps0, r0 := FirstChunkAcknowledged(mem);
    ReachesSnoc(Initial(4096, 8, mem), steps0, r0, DriverReserves(4096));
    StepKeepsInv(r0, DriverReserves(4096));
    steps, r := steps0 + [DriverReserves(4096)], Reserve(r0, 4096);
  }
}
