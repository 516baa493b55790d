/** The bank of firewall filters: control bytes and interleaved filter words behind device registers. */
module Firewall {
  import opened Words
  import opened FilterRule
  import opened FilterParser
  import opened FilterCompiler
  import opened FilterPacket

  const WORDS_PER_SLOT := 32
  const WORDS_USED := 22
  const ENABLE: bv8 := 1
  const ALLOW: bv8 := 2

  // ---------------------------------------------------------------------------------------------
  // Bytes of a register
  // ---------------------------------------------------------------------------------------------

  function Lane(w: bv32, k: nat): bv8
    requires k < 4
  {
    if k == 0 then Byte3(w) else if k == 1 then Byte2(w) else if k == 2 then Byte1(w) else Byte0(w)
  }

  /** `w & ~(0xFF << 8 * k)`. */
  function ClearLane(w: bv32, k: nat): bv32
    requires k < 4
  {
    if k == 0 then Masked32(w, 0xFFFF_FF00)
    else if k == 1 then Masked32(w, 0xFFFF_00FF)
    else if k == 2 then Masked32(w, 0xFF00_FFFF)
    else Masked32(w, 0x00FF_FFFF)
  }

  /** `w | b << 8 * k`. */
  function OrLane(w: bv32, k: nat, b: bv8): bv32
    requires k < 4
  {
    if k == 0 then w | (b as bv32)
    else if k == 1 then w | ((b as bv32) << 8)
    else if k == 2 then w | ((b as bv32) << 16)
    else w | ((b as bv32) << 24)
  }

  lemma ClearLane0(w: bv32)
    ensures Byte3(Masked32(w, 0xFFFF_FF00)) == 0 && Byte2(Masked32(w, 0xFFFF_FF00)) == Byte2(w)
    ensures Byte1(Masked32(w, 0xFFFF_FF00)) == Byte1(w) && Byte0(Masked32(w, 0xFFFF_FF00)) == Byte0(w)
  {
  }

  lemma ClearLane1(w: bv32)
    ensures Byte3(Masked32(w, 0xFFFF_00FF)) == Byte3(w) && Byte2(Masked32(w, 0xFFFF_00FF)) == 0
    ensures Byte1(Masked32(w, 0xFFFF_00FF)) == Byte1(w) && Byte0(Masked32(w, 0xFFFF_00FF)) == Byte0(w)
  {
  }

  lemma ClearLane2(w: bv32)
    ensures Byte3(Masked32(w, 0xFF00_FFFF)) == Byte3(w) && Byte2(Masked32(w, 0xFF00_FFFF)) == Byte2(w)
    ensures Byte1(Masked32(w, 0xFF00_FFFF)) == 0 && Byte0(Masked32(w, 0xFF00_FFFF)) == Byte0(w)
  {
  }

  lemma ClearLane3(w: bv32)
    ensures Byte3(Masked32(w, 0x00FF_FFFF)) == Byte3(w) && Byte2(Masked32(w, 0x00FF_FFFF)) == Byte2(w)
    ensures Byte1(Masked32(w, 0x00FF_FFFF)) == Byte1(w) && Byte0(Masked32(w, 0x00FF_FFFF)) == 0
  {
  }

  lemma ClearLaneLanes(w: bv32, k: nat, m: nat)
    requires k < 4 && m < 4
    ensures Lane(ClearLane(w, k), m) == if m == k then 0 else Lane(w, m)
  {
    hide Byte0, Byte1, Byte2, Byte3, Masked32;
    if k == 0 {
      ClearLane0(w);
    } else if k == 1 {
      ClearLane1(w);
    } else if k == 2 {
      ClearLane2(w);
    } else {
      ClearLane3(w);
    }
  }

  lemma OrLane0(w: bv32, b: bv8)
    ensures Byte3(w) == 0 ==> Byte3(OrLane(w, 0, b)) == b
    ensures Byte2(OrLane(w, 0, b)) == Byte2(w) && Byte1(OrLane(w, 0, b)) == Byte1(w) && Byte0(OrLane(w, 0, b)) == Byte0(w)
  {
  }

  lemma OrLane1(w: bv32, b: bv8)
    ensures Byte2(w) == 0 ==> Byte2(OrLane(w, 1, b)) == b
    ensures Byte3(OrLane(w, 1, b)) == Byte3(w) && Byte1(OrLane(w, 1, b)) == Byte1(w) && Byte0(OrLane(w, 1, b)) == Byte0(w)
  {
  }

  lemma OrLane2(w: bv32, b: bv8)
    ensures Byte1(w) == 0 ==> Byte1(OrLane(w, 2, b)) == b
    ensures Byte3(OrLane(w, 2, b)) == Byte3(w) && Byte2(OrLane(w, 2, b)) == Byte2(w) && Byte0(OrLane(w, 2, b)) == Byte0(w)
  {
  }

  lemma OrLane3(w: bv32, b: bv8)
    ensures Byte0(w) == 0 ==> Byte0(OrLane(w, 3, b)) == b
    ensures Byte3(OrLane(w, 3, b)) == Byte3(w) && Byte2(OrLane(w, 3, b)) == Byte2(w) && Byte1(OrLane(w, 3, b)) == Byte1(w)
  {
  }

  lemma OrLaneLanes(w: bv32, k: nat, b: bv8, m: nat)
    requires k < 4 && m < 4
    ensures m != k ==> Lane(OrLane(w, k, b), m) == Lane(w, m)
    ensures m == k && Lane(w, k) == 0 ==> Lane(OrLane(w, k, b), m) == b
  {
    hide Byte0, Byte1, Byte2, Byte3, OrLane;
    if k == 0 {
      OrLane0(w, b);
    } else if k == 1 {
      OrLane1(w, b);
    } else if k == 2 {
      OrLane2(w, b);
    } else {
      OrLane3(w, b);
    }
  }

  /** One filter word: mask and pattern bytes in turn, the first mask byte lowest. */
  function Interleaved(m0: bv8, p0: bv8, m1: bv8, p1: bv8): bv32 {
    Join32(p1, m1, p0, m0)
  }

  lemma InterleavedLanes(m0: bv8, p0: bv8, m1: bv8, p1: bv8)
    ensures Lane(Interleaved(m0, p0, m1, p1), 0) == m0 && Lane(Interleaved(m0, p0, m1, p1), 1) == p0
    ensures Lane(Interleaved(m0, p0, m1, p1), 2) == m1 && Lane(Interleaved(m0, p0, m1, p1), 3) == p1
  {
  }

  // ---------------------------------------------------------------------------------------------
  // The bank
  // ---------------------------------------------------------------------------------------------

  /** A filter as it was installed. */
  datatype Filter = Filter(pattern: seq<bv8>, mask: seq<bv8>, control: bv8)

  /** The registers, and what has been installed in each slot and not taken away since. */
  datatype Bank = Bank(control: seq<bv32>, words: seq<bv32>, installed: seq<Option<Filter>>) {
    predicate Shape() {
      && |control| * 4 >= |installed|
      && |words| >= |installed| * WORDS_PER_SLOT
    }

    /** Word `k` of a slot. */
    function Word(slot: nat, k: nat): bv32
      requires Shape() && slot < |installed| && k < WORDS_PER_SLOT
    {
      words[slot * WORDS_PER_SLOT + k]
    }

    function ControlByte(slot: nat): bv8
      requires Shape() && slot < |installed|
    {
      Lane(control[slot / 4], slot % 4)
    }

    /** Byte `j` of the mask that the words of a slot hold. */
    function MaskByte(slot: nat, j: nat): bv8
      requires Shape() && slot < |installed| && j < FILTER_SIZE
    {
      Lane(Word(slot, j / 2), if j % 2 == 0 then 0 else 2)
    }

    function PatternByte(slot: nat, j: nat): bv8
      requires Shape() && slot < |installed| && j < FILTER_SIZE
    {
      Lane(Word(slot, j / 2), if j % 2 == 0 then 1 else 3)
    }
  }

  /** The words of the slot decode to the filter. */
  ghost predicate Decodes(b: Bank, slot: nat, filter: Filter)
    requires b.Shape() && slot < |b.installed|
  {
    && |filter.pattern| == |filter.mask| == FILTER_SIZE
    && forall j :: 0 <= j < FILTER_SIZE ==>
         b.MaskByte(slot, j) == filter.mask[j] && b.PatternByte(slot, j) == filter.pattern[j]
  }

  /** What the device may act on is what was installed: an enabled slot holds, control byte and words, the
      filter last installed there, and a slot with nothing installed is switched off. */
  ghost predicate SlotConsistent(b: Bank, slot: nat)
    requires b.Shape() && slot < |b.installed|
  {
    match b.installed[slot]
    case Some(filter) => b.ControlByte(slot) == filter.control && Decodes(b, slot, filter)
    case None => b.ControlByte(slot) == 0
  }

  ghost predicate Consistent(b: Bank) {
    b.Shape() && forall slot :: 0 <= slot < |b.installed| ==> SlotConsistent(b, slot)
  }

  /** The two banks agree on everything the device reads for a slot. */
  ghost predicate SameSlot(b: Bank, b': Bank, s: nat)
    requires b.Shape() && b'.Shape() && s < |b.installed| == |b'.installed|
  {
    && b.ControlByte(s) == b'.ControlByte(s)
    && forall k :: 0 <= k < WORDS_PER_SLOT ==> b.Word(s, k) == b'.Word(s, k)
  }

  /** At most one slot differs. */
  ghost predicate OnlySlot(b: Bank, b': Bank, slot: nat) {
    && b.Shape() && b'.Shape() && |b.installed| == |b'.installed|
    && forall s :: 0 <= s < |b.installed| && s != slot ==> SameSlot(b, b', s)
  }

  lemma OnlySlotTwice(b: Bank, b': Bank, b'': Bank, slot: nat)
    requires OnlySlot(b, b', slot) && OnlySlot(b', b'', slot)
    ensures OnlySlot(b, b'', slot)
  {
    forall s | 0 <= s < |b.installed| && s != slot
      ensures SameSlot(b, b'', s)
    {
      assert SameSlot(b, b', s) && SameSlot(b', b'', s);
      forall k | 0 <= k < WORDS_PER_SLOT
        ensures b.Word(s, k) == b''.Word(s, k)
      {
        assert b.Word(s, k) == b'.Word(s, k);
      }
    }
  }

  // ---------------------------------------------------------------------------------------------
  // Single register writes
  // ---------------------------------------------------------------------------------------------

  function Disabled(b: Bank, slot: nat): Bank
    requires b.Shape() && slot < |b.installed|
  {
    b.(control := b.control[slot / 4 := ClearLane(b.control[slot / 4], slot % 4)],
       installed := b.installed[slot := None])
  }

  function Loaded(b: Bank, slot: nat, i: nat, w: bv32): Bank
    requires b.Shape() && slot < |b.installed| && i < WORDS_USED
  {
    b.(words := b.words[slot * WORDS_PER_SLOT + i := w])
  }

  function Switched(b: Bank, slot: nat, filter: Filter): Bank
    requires b.Shape() && slot < |b.installed|
  {
    b.(control := b.control[slot / 4 := OrLane(b.control[slot / 4], slot % 4, filter.control)],
       installed := b.installed[slot := if filter.control == 0 then None else Some(filter)])
  }

  /** One register is written. */
  ghost predicate OneWrite(b: Bank, b': Bank) {
    || (b'.words == b.words && |b'.control| == |b.control|
        && exists k :: 0 <= k < |b.control| && b'.control == b.control[k := b'.control[k]])
    || (b'.control == b.control && |b'.words| == |b.words|
        && exists k :: 0 <= k < |b.words| && b'.words == b.words[k := b'.words[k]])
  }

  lemma StepsAreWrites(b: Bank, slot: nat, i: nat, w: bv32, filter: Filter)
    requires b.Shape() && slot < |b.installed| && i < WORDS_USED
    ensures OneWrite(b, Disabled(b, slot)) && OneWrite(b, Loaded(b, slot, i, w)) && OneWrite(b, Switched(b, slot, filter))
  {
    hide ClearLane, OrLane;
    assert Disabled(b, slot).control == b.control[slot / 4 := Disabled(b, slot).control[slot / 4]];
    var at := slot * WORDS_PER_SLOT + i;
    assert Loaded(b, slot, i, w).words == b.words[at := Loaded(b, slot, i, w).words[at]];
    assert Switched(b, slot, filter).control == b.control[slot / 4 := Switched(b, slot, filter).control[slot / 4]];
  }

  /** Switching a slot off leaves every other slot as it was. */
  lemma DisabledConsistent(b: Bank, slot: nat)
    requires Consistent(b) && slot < |b.installed|
    ensures Consistent(Disabled(b, slot)) && OnlySlot(b, Disabled(b, slot), slot)
  {
    hide Lane, ClearLane;
    var b' := Disabled(b, slot);
    forall s | 0 <= s < |b.installed|
      ensures SlotConsistent(b', s) && (s != slot ==> SameSlot(b, b', s))
    {
      assert SlotConsistent(b, s);
      ClearLaneLanes(b.control[slot / 4], slot % 4, s % 4);
      SameWords(b, b', s);
    }
  }

  lemma SameWords(b: Bank, b': Bank, s: nat)
    requires b.Shape() && b'.Shape() && b'.words == b.words && s < |b.installed| == |b'.installed|
    ensures forall filter :: Decodes(b, s, filter) ==> Decodes(b', s, filter)
  {
    hide Lane;
    forall filter | Decodes(b, s, filter)
      ensures Decodes(b', s, filter)
    {
      forall j | 0 <= j < FILTER_SIZE
        ensures b'.MaskByte(s, j) == filter.mask[j] && b'.PatternByte(s, j) == filter.pattern[j]
      {
        assert b.MaskByte(s, j) == filter.mask[j] && b.PatternByte(s, j) == filter.pattern[j];
      }
    }
  }

  /** Loading a word of a slot that is switched off leaves every other slot as it was. */
  lemma LoadedConsistent(b: Bank, slot: nat, i: nat, w: bv32)
    requires Consistent(b) && slot < |b.installed| && b.installed[slot].None? && i < WORDS_USED
    ensures Consistent(Loaded(b, slot, i, w)) && OnlySlot(b, Loaded(b, slot, i, w), slot)
  {
    hide Lane;
    var b' := Loaded(b, slot, i, w);
    forall s | 0 <= s < |b.installed|
      ensures SlotConsistent(b', s) && (s != slot ==> SameSlot(b, b', s))
    {
      assert SlotConsistent(b, s);
      if s != slot && b.installed[s].Some? {
        OtherWords(b, slot, i, w, s, b.installed[s].value);
      }
    }
  }

  lemma OtherWords(b: Bank, slot: nat, i: nat, w: bv32, s: nat, filter: Filter)
    requires b.Shape() && slot < |b.installed| && s < |b.installed| && s != slot && i < WORDS_USED
    requires Decodes(b, s, filter)
    ensures Decodes(Loaded(b, slot, i, w), s, filter)
  {
    hide Lane;
    var b' := Loaded(b, slot, i, w);
    forall j | 0 <= j < FILTER_SIZE
      ensures b'.MaskByte(s, j) == filter.mask[j] && b'.PatternByte(s, j) == filter.pattern[j]
    {
      assert b.MaskByte(s, j) == filter.mask[j] && b.PatternByte(s, j) == filter.pattern[j];
      SlotsApart(slot, i, s, j / 2);
    }
  }

  lemma SlotsApart(slot: nat, i: nat, s: nat, k: nat)
    requires slot != s && i < WORDS_PER_SLOT && k < WORDS_PER_SLOT
    ensures slot * WORDS_PER_SLOT + i != s * WORDS_PER_SLOT + k
  {
  }

  /** Switching a slot on whose words are loaded leaves every other slot as it was. */
  lemma SwitchedConsistent(b: Bank, slot: nat, filter: Filter)
    requires Consistent(b) && slot < |b.installed| && b.installed[slot].None? && Decodes(b, slot, filter)
    ensures Consistent(Switched(b, slot, filter)) && OnlySlot(b, Switched(b, slot, filter), slot)
  {
    hide Lane, OrLane;
    var b' := Switched(b, slot, filter);
    forall s | 0 <= s < |b.installed|
      ensures SlotConsistent(b', s) && (s != slot ==> SameSlot(b, b', s))
    {
      assert SlotConsistent(b, s);
      OrLaneLanes(b.control[slot / 4], slot % 4, filter.control, s % 4);
      SameWords(b, b', s);
    }
  }

  /** The first `n` bytes of mask and pattern are in the words of the slot. */
  ghost predicate DecodedUpTo(b: Bank, slot: nat, pattern: seq<bv8>, mask: seq<bv8>, n: nat) {
    && b.Shape() && slot < |b.installed| && n <= FILTER_SIZE == |pattern| == |mask|
    && forall j :: 0 <= j < n ==> b.MaskByte(slot, j) == mask[j] && b.PatternByte(slot, j) == pattern[j]
  }

  /** A word decodes to the bytes that were interleaved into it. */
  lemma LoadedDecodes(b: Bank, slot: nat, i: nat, pattern: seq<bv8>, mask: seq<bv8>)
    requires i < WORDS_USED && DecodedUpTo(b, slot, pattern, mask, 2 * i)
    ensures DecodedUpTo(Loaded(b, slot, i, Interleaved(mask[2 * i], pattern[2 * i], mask[2 * i + 1], pattern[2 * i + 1])),
                        slot, pattern, mask, 2 * i + 2)
  {
    hide Lane, Interleaved;
    InterleavedLanes(mask[2 * i], pattern[2 * i], mask[2 * i + 1], pattern[2 * i + 1]);
    var b' := Loaded(b, slot, i, Interleaved(mask[2 * i], pattern[2 * i], mask[2 * i + 1], pattern[2 * i + 1]));
    forall j | 0 <= j < 2 * i + 2
      ensures b'.MaskByte(slot, j) == mask[j] && b'.PatternByte(slot, j) == pattern[j]
    {
      if j < 2 * i {
        assert b.MaskByte(slot, j) == mask[j] && b.PatternByte(slot, j) == pattern[j];
      }
    }
  }

  lemma SwitchedDecodes(b: Bank, slot: nat, filter: Filter, pattern: seq<bv8>, mask: seq<bv8>)
    requires DecodedUpTo(b, slot, pattern, mask, FILTER_SIZE)
    ensures DecodedUpTo(Switched(b, slot, filter), slot, pattern, mask, FILTER_SIZE)
  {
    hide Lane, OrLane;
    var b' := Switched(b, slot, filter);
    forall j | 0 <= j < FILTER_SIZE
      ensures b'.MaskByte(slot, j) == mask[j] && b'.PatternByte(slot, j) == pattern[j]
    {
      assert b.MaskByte(slot, j) == mask[j] && b.PatternByte(slot, j) == pattern[j];
    }
  }

  /** Mask and pattern of the slot are all zeros. */
  ghost predicate Blank(b: Bank, slot: nat) {
    DecodedUpTo(b, slot, Zeros(), Zeros(), FILTER_SIZE)
  }

  lemma StaysBlank(b: Bank, b': Bank, slot: nat, s: nat)
    requires OnlySlot(b, b', slot) && s != slot && Blank(b, s)
    ensures Blank(b', s)
  {
    hide Lane;
    assert SameSlot(b, b', s);
    forall j | 0 <= j < FILTER_SIZE
      ensures b'.MaskByte(s, j) == Zeros()[j] && b'.PatternByte(s, j) == Zeros()[j]
    {
      assert b.MaskByte(s, j) == Zeros()[j] && b.PatternByte(s, j) == Zeros()[j];
      assert b.Word(s, j / 2) == b'.Word(s, j / 2);
    }
  }

  // ---------------------------------------------------------------------------------------------
  // What the device does with a slot
  // ---------------------------------------------------------------------------------------------

  /** The device takes the frame to be one the slot is about. */
  ghost predicate Hits(b: Bank, slot: nat, f: seq<bv8>)
    requires b.Shape() && slot < |b.installed| && |f| >= FILTER_SIZE
  {
    && b.ControlByte(slot) & ENABLE != 0
    && forall j :: 0 <= j < FILTER_SIZE ==> Masked8(f[j], b.MaskByte(slot, j)) == b.PatternByte(slot, j)
  }

  function ControlFor(r: Rule): bv8 {
    if r.drop then ENABLE else ENABLE | ALLOW
  }

  /** The filter is the compiled form of the rule. */
  ghost predicate Compiles(filter: Filter, r: Rule) {
    filter.control == ControlFor(r) && Accepted(r) && Holds(r, filter.pattern, filter.mask)
  }

  lemma ControlBits(r: Rule)
    ensures ControlFor(r) & ENABLE != 0 && (ControlFor(r) & ALLOW != 0 <==> !r.drop)
  {
  }

  /** At every moment: a slot that holds a compiled rule hits exactly the frames the rule means, if its
      addresses have no host bits, and lets them pass exactly if it is an allow rule. */
  lemma InstalledRuleDecides(b: Bank, slot: nat, r: Rule, f: seq<bv8>)
    requires Consistent(b) && slot < |b.installed| && |f| >= FILTER_SIZE
    requires b.installed[slot].Some? && Compiles(b.installed[slot].value, r)
    ensures Hits(b, slot, f) <==> Means(r, f) && Canonical(r)
    ensures b.ControlByte(slot) & ALLOW != 0 <==> !r.drop
  {
    hide Lane, Accepted, Means, Canonical, Compiled, Masked8, ControlFor;
    var filter := b.installed[slot].value;
    assert SlotConsistent(b, slot);
    ControlBits(r);
    CompilationPreservesMeaning(r, f);
    forall j | 0 <= j < FILTER_SIZE
      ensures CellMatches(Compiled(r, j), f[j]) <==> Masked8(f[j], b.MaskByte(slot, j)) == b.PatternByte(slot, j)
    {
      assert b.MaskByte(slot, j) == filter.mask[j] && b.PatternByte(slot, j) == filter.pattern[j];
      assert Cell(filter.pattern[j], filter.mask[j]) == Compiled(r, j);
    }
  }

  /** A slot with nothing installed hits no frame. */
  lemma EmptySlotIsSilent(b: Bank, slot: nat, f: seq<bv8>)
    requires Consistent(b) && slot < |b.installed| && |f| >= FILTER_SIZE && b.installed[slot].None?
    ensures !Hits(b, slot, f)
  {
    assert SlotConsistent(b, slot);
  }

  /** Byte `k` of a register, the lowest first. */
  function Octet(w: bv32, k: nat): bv8
    requires k < 4
  {
    match k
    case 0 => (w & 0xFF) as bv8
    case 1 => ((w >> 8) & 0xFF) as bv8
    case 2 => ((w >> 16) & 0xFF) as bv8
    case 3 => ((w >> 24) & 0xFF) as bv8
  }

  /** How the device reads its registers: bit 0 of a slot's control byte switches the slot on; its 128 bytes
      of filter hold mask and pattern of the frame's first 44 bytes in turn. */
  ghost predicate DeviceHits(control: seq<bv32>, words: seq<bv32>, slot: nat, f: seq<bv8>)
    requires slot / 4 < |control| && 32 * slot + 22 <= |words| && |f| >= 44
  {
    && Octet(control[slot / 4], slot % 4) & 0x01 != 0
    && forall j: nat :: j < 44 ==>
         f[j] & Octet(words[32 * slot + j / 2], j % 2 * 2) == Octet(words[32 * slot + j / 2], j % 2 * 2 + 1)
  }

  /** Bit 1 of the control byte tells an allow rule from a drop rule. */
  ghost predicate DeviceAllows(control: seq<bv32>, slot: nat)
    requires slot / 4 < |control|
  {
    Octet(control[slot / 4], slot % 4) & 0x02 != 0
  }

  lemma LaneIsOctet(w: bv32, k: nat)
    requires k < 4
    ensures Lane(w, k) == Octet(w, k)
  {
    HighOctet(w);
  }

  lemma HighOctet(w: bv32)
    ensures Byte0(w) == Octet(w, 3)
  {
  }

  lemma DeviceReadsBank(b: Bank, slot: nat, f: seq<bv8>)
    requires b.Shape() && slot < |b.installed| && |f| >= FILTER_SIZE
    ensures slot / 4 < |b.control| && 32 * slot + 22 <= |b.words|
    ensures DeviceHits(b.control, b.words, slot, f) <==> Hits(b, slot, f)
    ensures DeviceAllows(b.control, slot) <==> b.ControlByte(slot) & ALLOW != 0
  {
    hide Lane, Octet;
    LaneIsOctet(b.control[slot / 4], slot % 4);
    forall j: nat | j < FILTER_SIZE
      ensures b.MaskByte(slot, j) == Octet(b.words[32 * slot + j / 2], j % 2 * 2)
      ensures b.PatternByte(slot, j) == Octet(b.words[32 * slot + j / 2], j % 2 * 2 + 1)
    {
      LaneIsOctet(b.words[32 * slot + j / 2], j % 2 * 2);
      LaneIsOctet(b.words[32 * slot + j / 2], j % 2 * 2 + 1);
    }
  }

  /** From a rule's words to the device's registers: at every moment, an installed slot hits the frame of a
      packet if and only if the rule selects the packet and has no host bits in its addresses. */
  lemma InstalledRuleSelects(b: Bank, slot: nat, r: Rule, k: Packet)
    requires Consistent(b) && slot < |b.installed| && WellFormed(k) && |Serialize(k)| >= 44
    requires b.installed[slot].Some? && Compiles(b.installed[slot].value, r)
    ensures b.Shape() && slot / 4 < |b.control| && 32 * slot + 22 <= |b.words|
    ensures DeviceHits(b.control, b.words, slot, Serialize(k)) <==> Selects(r, k) && NoHostBits(r)
    ensures DeviceAllows(b.control, slot) <==> !r.drop
  {
    hide Lane, Accepted, Means, Canonical, Selects, NoHostBits, WellFormed, Serialize, Hits, DeviceHits, Matches;
    DeviceReadsBank(b, slot, Serialize(k));
    InstalledRuleDecides(b, slot, r, Serialize(k));
    CompilationPreservesMeaning(r, Serialize(k));
    MatchesIffSelects(r, k);
  }

  // ---------------------------------------------------------------------------------------------
  // The driver
  // ---------------------------------------------------------------------------------------------

  class Driver {
    const isFirewall: bool
    const numSlots: nat
    const control: array<bv32>
    const words: array<bv32>
    /** What was last installed in each slot: as bytes, and as the rule they were compiled from. */
    ghost var installed: seq<Option<Filter>>
    ghost var rules: seq<Option<Rule>>
    /** The bank after every single register write so far, newest last: two neighbours differ in one register. */
    ghost var history: seq<Bank>

    ghost function Now(): Bank
      reads this, control, words
    {
      Bank(control[..], words[..], installed)
    }

    ghost predicate Recorded()
      reads this, control, words
    {
      && control != words
      && |installed| == numSlots
      && |history| > 0 && history[|history| - 1] == Now()
      && (forall i :: 0 <= i < |history| ==> Consistent(history[i]))
      && forall i, j :: 0 <= i && j == i + 1 < |history| ==> OneWrite(history[i], history[j])
    }

    ghost predicate Valid()
      reads this, control, words
    {
      && Recorded()
      && |rules| == numSlots
      && forall s :: 0 <= s < numSlots ==>
           if rules[s].Some? then installed[s].Some? && Compiles(installed[s].value, rules[s].value) else installed[s].None?
    }

    /** A card whose control registers are all zero. */
    constructor (isFirewall: bool, numSlots: nat, control: array<bv32>, words: array<bv32>)
      requires control != words && control.Length * 4 >= numSlots && words.Length >= numSlots * WORDS_PER_SLOT
      requires forall i :: 0 <= i < control.Length ==> control[i] == 0
      ensures Valid() && fresh(this)
      ensures this.isFirewall == isFirewall && this.numSlots == numSlots
      ensures this.control == control && this.words == words
      ensures rules == seq(numSlots, _ => None)
    {
      hide Lane;
      this.isFirewall, this.numSlots, this.control, this.words := isFirewall, numSlots, control, words;
      installed, rules := seq(numSlots, _ => None), seq(numSlots, _ => None);
      new;
      history := [Now()];
      ZeroLanes();
      forall s | 0 <= s < numSlots
        ensures SlotConsistent(Now(), s)
      {
      }
    }

    /** `registers[...] &= ~(0xFF << ctl_shift)` */
    method Disable(slot: nat)
      requires Recorded() && slot < numSlots
      modifies control, `installed, `history
      ensures Recorded() && Now() == Disabled(old(Now()), slot) && history == old(history) + [Now()]
    {
      hide OneWrite, Consistent, ClearLane;
      assert Consistent(Now());
      DisabledConsistent(Now(), slot);
      ConsistentShape(Now());
      StepsAreWrites(Now(), slot, 0, 0, Filter([], [], 0));
      control[slot / 4] := ClearLane(control[slot / 4], slot % 4);
      installed := installed[slot := None];
      history := history + [Now()];
    }

    /** One word of the load loop. */
    method LoadWord(slot: nat, i: nat, w: bv32)
      requires Recorded() && slot < numSlots && i < WORDS_USED && installed[slot].None?
      modifies words, `history
      ensures Recorded() && Now() == Loaded(old(Now()), slot, i, w) && history == old(history) + [Now()]
    {
      hide OneWrite, Consistent;
      assert Consistent(Now());
      LoadedConsistent(Now(), slot, i, w);
      ConsistentShape(Now());
      StepsAreWrites(Now(), slot, i, w, Filter([], [], 0));
      words[slot * WORDS_PER_SLOT + i] := w;
      history := history + [Now()];
    }

    /** `registers[...] |= ctl << ctl_shift` */
    method Switch(slot: nat, ctl: bv8, ghost filter: Filter)
      requires Recorded() && slot < numSlots && installed[slot].None? && ctl == filter.control
      requires Now().Shape() && Decodes(Now(), slot, filter)
      modifies control, `installed, `history
      ensures Recorded() && Now() == Switched(old(Now()), slot, filter) && history == old(history) + [Now()]
    {
      hide OneWrite, Consistent, OrLane, Decodes;
      assert Consistent(Now());
      SwitchedConsistent(Now(), slot, filter);
      ConsistentShape(Now());
      StepsAreWrites(Now(), slot, 0, 0, filter);
      control[slot / 4] := OrLane(control[slot / 4], slot % 4, ctl);
      installed := installed[slot := if ctl == 0 then None else Some(filter)];
      history := history + [Now()];
    }

    /** Since the given moment of the history every register write was about this slot only. */
    ghost predicate TouchedOnly(slot: nat, since: nat, before: Bank)
      reads `history
    {
      since <= |history| && forall i :: since <= i < |history| ==> OnlySlot(before, history[i], slot)
    }

    /** `exanic_set_firewall_filter_raw`: switch the slot off, load its words, switch it on. */
    method SetRaw(slot: nat, pattern: seq<bv8>, mask: seq<bv8>, ctl: bv8)
      requires Recorded() && slot < numSlots && |pattern| == |mask| == FILTER_SIZE
      modifies control, words, `installed, `history
      ensures Recorded() && old(history) <= history
      ensures installed == old(installed)[slot := if ctl == 0 then None else Some(Filter(pattern, mask, ctl))]
      ensures TouchedOnly(slot, old(|history|), old(Now())) && OnlySlot(old(Now()), Now(), slot)
      ensures DecodedUpTo(Now(), slot, pattern, mask, FILTER_SIZE)
    {
      hide OneWrite, Consistent, OnlySlot, Lane, ClearLane, OrLane, Interleaved;
      ghost var before := Now();
      DisabledConsistent(before, slot);
      Disable(slot);
      ConsistentShape(Now());
      for i := 0 to WORDS_USED
        invariant Recorded() && installed == old(installed)[slot := None]
        invariant old(history) <= history && TouchedOnly(slot, old(|history|), before)
        invariant OnlySlot(before, Now(), slot)
        invariant DecodedUpTo(Now(), slot, pattern, mask, 2 * i)
      {
        var w := Interleaved(mask[2 * i], pattern[2 * i], mask[2 * i + 1], pattern[2 * i + 1]);
        ghost var b := Now();
        LoadedConsistent(b, slot, i, w);
        LoadedDecodes(b, slot, i, pattern, mask);
        LoadWord(slot, i, w);
        OnlySlotTwice(before, b, Now(), slot);
      }
      ghost var b := Now();
      SwitchedConsistent(b, slot, Filter(pattern, mask, ctl));
      Switch(slot, ctl, Filter(pattern, mask, ctl));
      SwitchedDecodes(b, slot, Filter(pattern, mask, ctl), pattern, mask);
      OnlySlotTwice(before, b, Now(), slot);
    }

    /** `exanic_set_firewall_filter`.  `saved` tells whether the filter string could be stored in its file. */
    method SetFilter(slot: int, toks: seq<Token>, saved: bool) returns (status: Status)
      requires Valid()
      modifies this, control, words
      ensures Valid() && old(history) <= history
      ensures status == if !isFirewall || slot < 0 || slot >= numSlots then Error
                        else match Parse(toks)
                          case Accept(_) => if saved then Ok else Error
                          case Reject => Error
                          case Undefined => ShiftBy32
      ensures !status.Ok? ==> Now() == old(Now()) && history == old(history) && rules == old(rules)
      ensures status.Ok? ==> rules == old(rules)[slot := Some(Parse(toks).rule)]
      ensures status.Ok? ==> TouchedOnly(slot, old(|history|), old(Now()))
    {
      hide OneWrite, Consistent, Parse, Compiled, Holds, Accepted, TouchedOnly;
      status := Error;
      if !isFirewall || slot < 0 || slot >= numSlots {
        return;
      }
      var pattern, mask := new bv8[FILTER_SIZE], new bv8[FILTER_SIZE];
      var drop;
      status, drop := ParseFilter(toks, pattern, mask);
      if !status.Ok? {
        return;
      }
      if !saved {
        status := Error;
        return;
      }
      ghost var r := Parse(toks).rule;
      ParsedIsAccepted(toks);
      HoldsLength(r, pattern[..], mask[..]);
      SetRaw(slot, pattern[..], mask[..], if drop then ENABLE else ENABLE | ALLOW);
      rules := rules[slot := Some(r)];
    }

    /** What the registers do now to packets: a slot with a rule acts as the rule says, any other does nothing. */
    lemma RegistersDecide(slot: nat, k: Packet)
      requires Valid() && slot < numSlots && WellFormed(k) && |Serialize(k)| >= 44
      ensures slot / 4 < control.Length && 32 * slot + 22 <= words.Length
      ensures DeviceHits(control[..], words[..], slot, Serialize(k))
              <==> rules[slot].Some? && Selects(rules[slot].value, k) && NoHostBits(rules[slot].value)
      ensures rules[slot].Some? ==> (DeviceAllows(control[..], slot) <==> !rules[slot].value.drop)
    {
      hide Consistent, Compiles, Selects, NoHostBits, WellFormed, Serialize, DeviceHits, DeviceAllows, OneWrite, Hits;
      assert Consistent(Now());
      ConsistentShape(Now());
      DeviceReadsBank(Now(), slot, Serialize(k));
      if rules[slot].Some? {
        InstalledRuleSelects(Now(), slot, rules[slot].value, k);
      } else {
        EmptySlotIsSilent(Now(), slot, Serialize(k));
      }
    }

    /** `exanic_clear_firewall_filter` */
    method ClearFilter(slot: int, saved: bool) returns (ok: bool)
      requires Valid()
      modifies this, control, words
      ensures Valid() && old(history) <= history
      ensures ok <==> isFirewall && 0 <= slot < numSlots && saved
      ensures !ok ==> Now() == old(Now()) && history == old(history) && rules == old(rules)
      ensures ok ==> rules == old(rules)[slot := None] && TouchedOnly(slot, old(|history|), old(Now()))
      ensures ok ==> Blank(Now(), slot)
    {
      hide OneWrite, Consistent, TouchedOnly, Compiles, OnlySlot;
      ok := isFirewall && 0 <= slot < numSlots && saved;
      if ok {
        SetRaw(slot, Zeros(), Zeros(), 0);
        rules := rules[slot := None];
      }
    }

    /** `exanic_clear_all_firewall_filters`: the registers are cleared even if the strings cannot be. */
    method ClearAll(saved: bool) returns (ok: bool)
      requires Valid()
      modifies this, control, words
      ensures Valid() && old(history) <= history
      ensures ok <==> isFirewall && saved
      ensures isFirewall ==> rules == seq(numSlots, _ => None) && forall s :: 0 <= s < numSlots ==> Blank(Now(), s)
      ensures !isFirewall ==> Now() == old(Now()) && history == old(history) && rules == old(rules)
    {
      hide OneWrite, Consistent, TouchedOnly, Compiles, OnlySlot, DecodedUpTo;
      if !isFirewall {
        return false;
      }
      for slot := 0 to numSlots
        invariant Valid() && old(history) <= history
        invariant forall s :: 0 <= s < slot ==> rules[s].None?
        invariant forall s :: 0 <= s < slot ==> Blank(Now(), s)
      {
        ghost var before := Now();
        SetRaw(slot, Zeros(), Zeros(), 0);
        forall s | 0 <= s < slot
          ensures Blank(Now(), s)
        {
          StaysBlank(before, Now(), slot, s);
        }
        rules := rules[slot := None];
      }
      return saved;
    }
  }

  function Zeros(): (z: seq<bv8>)
    ensures |z| == 44 && forall j :: 0 <= j < 44 ==> z[j] == 0
  {
    seq(FILTER_SIZE, _ => 0)
  }

  lemma ZeroLanes()
    ensures forall k :: 0 <= k < 4 ==> Lane(0, k) == 0
  {
  }

  lemma ConsistentShape(b: Bank)
    requires Consistent(b)
    ensures b.Shape()
  {
  }
}
