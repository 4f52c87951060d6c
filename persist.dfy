/** What `_writeEeprom` does to the EEPROM and what `_readEeprom` reads back
    from it, as functions on the EEPROM contents, with their properties. */
module Persist {
  import opened Codec
  import opened Memory
  import opened Layout

  datatype Option<T> = None | Some(value: T)

  // ---------------------------------------------------------------------
  // Configuration block

  const CONFIG_FIELDS: nat := 10

  /** Field j of the configuration block, in the order `_writeEeprom` and
      `_readEeprom` visit them: its offset, width and the value s gives it. */
  function FieldOffset(j: nat): (off: nat)
    requires j <= CONFIG_FIELDS
  {
    match j
    case 0 => MAX_POSITION_AT
    case 1 => MAX_MOVEMENT_AT
    case 2 => STEP_MODE_AT
    case 3 => STEP_MODE_MANUAL_AT
    case 4 => SPEED_MODE_AT
    case 5 => SETTLE_BUFFER_MS_AT
    case 6 => IDLE_EEPROM_WRITE_MS_AT
    case 7 => REVERSE_DIRECTION_AT
    case 8 => MOTOR_I_MOVE_AT
    case 9 => MOTOR_I_HOLD_AT
    case _ => CONFIGURATION_SIZE
  }

  function FieldWidth(j: nat): (w: nat)
    requires j < CONFIG_FIELDS
    ensures FieldOffset(j) + w == FieldOffset(j + 1)
  {
    match j
    case 0 => U32_SIZE
    case 1 => U32_SIZE
    case 2 => ENUM_SIZE
    case 3 => ENUM_SIZE
    case 4 => ENUM_SIZE
    case 5 => U32_SIZE
    case 6 => U32_SIZE
    case 7 => BOOL_SIZE
    case 8 => U8_SIZE
    case _ => U8_SIZE
  }

  function FieldValue(s: State, j: nat): (v: nat)
    requires j < CONFIG_FIELDS
    ensures v < Pow256(FieldWidth(j))
  {
    Pow256Widths();
    match j
    case 0 => s.maxPosition
    case 1 => s.maxMovement
    case 2 => s.stepMode
    case 3 => s.stepModeManual
    case 4 => s.speedMode
    case 5 => s.settleBufferMs
    case 6 => s.idleEepromWriteMs
    case 7 => BoolByte(s.reverseDirection)
    case 8 => s.motorIMoveMultiplier
    case _ => s.motorIHoldMultiplier
  }

  lemma FieldOffsetsAscend(i: nat, j: nat)
    requires i <= j <= CONFIG_FIELDS
    ensures FieldOffset(i) <= FieldOffset(j)
  {
  }

  /** The bytes of the first k configuration fields of s, back to back. */
  function ConfigPrefix(s: State, k: nat): (bs: seq<byte>)
    requires k <= CONFIG_FIELDS
    ensures |bs| == FieldOffset(k)
  {
    if k == 0 then [] else ConfigPrefix(s, k - 1) + Encode(FieldValue(s, k - 1), FieldWidth(k - 1))
  }

  /** The bytes of a configuration block holding the settings of s. */
  function ConfigImage(s: State): (bs: seq<byte>)
    ensures |bs| == CONFIGURATION_SIZE
  {
    ConfigPrefix(s, CONFIG_FIELDS)
  }

  /** Inside any longer prefix, field j sits at its offset. */
  lemma {:induction false} PrefixField(s: State, k: nat, j: nat)
    requires j < k <= CONFIG_FIELDS
    ensures ConfigPrefix(s, k)[FieldOffset(j)..FieldOffset(j + 1)] == Encode(FieldValue(s, j), FieldWidth(j))
  {
    var front := ConfigPrefix(s, k - 1);
    var last := Encode(FieldValue(s, k - 1), FieldWidth(k - 1));
    if j < k - 1 {
      PrefixField(s, k - 1, j);
      FieldOffsetsAscend(j + 1, k - 1);
      SliceLeft(front, last, FieldOffset(j), FieldOffset(j + 1));
    } else {
      SliceRight(front, last);
    }
  }

  /** The configuration block of m stores exactly the settings of s. */
  predicate ConfigStored(m: seq<byte>, s: State)
    requires |m| == EEPROM_SIZE
  {
    m[..CONFIGURATION_SIZE] == ConfigImage(s)
  }

  /** a and b agree on the ten persisted settings. */
  predicate SameConfig(a: State, b: State) {
    a.maxPosition == b.maxPosition && a.maxMovement == b.maxMovement &&
    a.stepMode == b.stepMode && a.stepModeManual == b.stepModeManual &&
    a.speedMode == b.speedMode && a.settleBufferMs == b.settleBufferMs &&
    a.idleEepromWriteMs == b.idleEepromWriteMs && a.reverseDirection == b.reverseDirection &&
    a.motorIMoveMultiplier == b.motorIMoveMultiplier &&
    a.motorIHoldMultiplier == b.motorIHoldMultiplier
  }

  /** The first k differential writes of the configuration block, in order. */
  function WriteFields(e: Eeprom, s: State, k: nat): (r: Eeprom)
    requires |e.bytes| == EEPROM_SIZE && k <= CONFIG_FIELDS
    ensures |r.bytes| == EEPROM_SIZE
  {
    if k == 0 then e
    else TryWrite(WriteFields(e, s, k - 1), FieldOffset(k - 1), FieldValue(s, k - 1), FieldWidth(k - 1))
  }

  /** The ten differential writes of the configuration block, in order. */
  function WriteConfig(e: Eeprom, s: State): (r: Eeprom)
    requires |e.bytes| == EEPROM_SIZE
    ensures |r.bytes| == EEPROM_SIZE
  {
    WriteFields(e, s, CONFIG_FIELDS)
  }

  /** The boot read of the configuration block into s; a stored bool byte
      other than 0 reads as true. */
  function LoadConfig(m: seq<byte>, s: State): (r: State)
    requires |m| == EEPROM_SIZE
    ensures r.position == s.position && r.targetPosition == s.targetPosition
    ensures r.checksum == s.checksum
  {
    Pow256Widths();
    s.(maxPosition := Read(m, MAX_POSITION_AT, U32_SIZE),
       maxMovement := Read(m, MAX_MOVEMENT_AT, U32_SIZE),
       stepMode := Read(m, STEP_MODE_AT, ENUM_SIZE),
       stepModeManual := Read(m, STEP_MODE_MANUAL_AT, ENUM_SIZE),
       speedMode := Read(m, SPEED_MODE_AT, ENUM_SIZE),
       settleBufferMs := Read(m, SETTLE_BUFFER_MS_AT, U32_SIZE),
       idleEepromWriteMs := Read(m, IDLE_EEPROM_WRITE_MS_AT, U32_SIZE),
       reverseDirection := Read(m, REVERSE_DIRECTION_AT, BOOL_SIZE) != 0,
       motorIMoveMultiplier := Read(m, MOTOR_I_MOVE_AT, U8_SIZE),
       motorIHoldMultiplier := Read(m, MOTOR_I_HOLD_AT, U8_SIZE))
  }

  /** One differential write just past an already-written prefix p. */
  lemma TryWriteFrontier(e: Eeprom, e': Eeprom, p: seq<byte>, p': seq<byte>, m: seq<byte>, v: nat, w: nat)
    requires |p| + w <= |m| && e.bytes == p + m[|p|..]
    requires v < Pow256(w) && e' == TryWrite(e, |p|, v, w) && p' == p + Encode(v, w)
    ensures e'.bytes == p' + m[|p'|..]
  {
    TryWriteStores(e, |p|, v, w);
    WriteAtFrontier(p, m, Encode(v, w));
  }

  /** After the first k configuration writes, the first k fields hold the
      image of s and nothing after them has changed. */
  lemma {:induction false} WriteFieldsImage(e: Eeprom, s: State, k: nat)
    requires |e.bytes| == EEPROM_SIZE && k <= CONFIG_FIELDS
    ensures WriteFields(e, s, k).bytes == ConfigPrefix(s, k) + e.bytes[FieldOffset(k)..]
  {
    if k == 0 {
      assert e.bytes == [] + e.bytes[0..];
    } else {
      WriteFieldsImage(e, s, k - 1);
      TryWriteFrontier(WriteFields(e, s, k - 1), WriteFields(e, s, k), ConfigPrefix(s, k - 1),
        ConfigPrefix(s, k), e.bytes, FieldValue(s, k - 1), FieldWidth(k - 1));
    }
  }

  /** After the configuration writes, the block holds the image of s and
      nothing past the block has changed. */
  lemma WriteConfigImage(e: Eeprom, s: State)
    requires |e.bytes| == EEPROM_SIZE
    ensures WriteConfig(e, s).bytes == ConfigImage(s) + e.bytes[CONFIGURATION_SIZE..]
  {
    WriteFieldsImage(e, s, CONFIG_FIELDS);
  }

  /** A stored configuration block reads back field by field. */
  lemma ConfigStoredReads(m: seq<byte>, s: State)
    requires |m| == EEPROM_SIZE && ConfigStored(m, s)
    ensures Read(m, MAX_POSITION_AT, U32_SIZE) == s.maxPosition
    ensures Read(m, MAX_MOVEMENT_AT, U32_SIZE) == s.maxMovement
    ensures Read(m, STEP_MODE_AT, ENUM_SIZE) == s.stepMode
    ensures Read(m, STEP_MODE_MANUAL_AT, ENUM_SIZE) == s.stepModeManual
    ensures Read(m, SPEED_MODE_AT, ENUM_SIZE) == s.speedMode
    ensures Read(m, SETTLE_BUFFER_MS_AT, U32_SIZE) == s.settleBufferMs
    ensures Read(m, IDLE_EEPROM_WRITE_MS_AT, U32_SIZE) == s.idleEepromWriteMs
    ensures Read(m, REVERSE_DIRECTION_AT, BOOL_SIZE) == BoolByte(s.reverseDirection)
    ensures Read(m, MOTOR_I_MOVE_AT, U8_SIZE) == s.motorIMoveMultiplier
    ensures Read(m, MOTOR_I_HOLD_AT, U8_SIZE) == s.motorIHoldMultiplier
  {
    forall j | 0 <= j < CONFIG_FIELDS
      ensures Read(m, FieldOffset(j), FieldWidth(j)) == FieldValue(s, j)
    {
      StoredFieldReads(m, s, j);
    }
    assert Read(m, MAX_POSITION_AT, U32_SIZE) == FieldValue(s, 0);
    assert Read(m, MAX_MOVEMENT_AT, U32_SIZE) == FieldValue(s, 1);
    assert Read(m, STEP_MODE_AT, ENUM_SIZE) == FieldValue(s, 2);
    assert Read(m, STEP_MODE_MANUAL_AT, ENUM_SIZE) == FieldValue(s, 3);
    assert Read(m, SPEED_MODE_AT, ENUM_SIZE) == FieldValue(s, 4);
    assert Read(m, SETTLE_BUFFER_MS_AT, U32_SIZE) == FieldValue(s, 5);
    assert Read(m, IDLE_EEPROM_WRITE_MS_AT, U32_SIZE) == FieldValue(s, 6);
    assert Read(m, REVERSE_DIRECTION_AT, BOOL_SIZE) == FieldValue(s, 7);
    assert Read(m, MOTOR_I_MOVE_AT, U8_SIZE) == FieldValue(s, 8);
    assert Read(m, MOTOR_I_HOLD_AT, U8_SIZE) == FieldValue(s, 9);
  }

  /** Field j of a stored configuration block reads back as its value. */
  lemma StoredFieldReads(m: seq<byte>, s: State, j: nat)
    requires |m| == EEPROM_SIZE && ConfigStored(m, s) && j < CONFIG_FIELDS
    ensures Read(m, FieldOffset(j), FieldWidth(j)) == FieldValue(s, j)
  {
    PrefixField(s, CONFIG_FIELDS, j);
    FieldAt(m, 0, ConfigImage(s), FieldOffset(j), FieldValue(s, j), FieldWidth(j));
  }

  /** A field whose bytes inside a stored image img (at address a) are those
      of v reads back as v. */
  lemma FieldAt(m: seq<byte>, a: nat, img: seq<byte>, off: nat, v: nat, w: nat)
    requires a + |img| <= |m| && m[a..a + |img|] == img
    requires off + w <= |img| && img[off..off + w] == Encode(v, w) && v < Pow256(w)
    ensures Read(m, a + off, w) == v
  {
    var field, part := m[a + off..a + off + w], img[off..off + w];
    forall i | 0 <= i < w
      ensures field[i] == part[i]
    {
      assert part[i] == img[off + i] == m[a..a + |img|][off + i];
    }
    assert field == part;
    DecodeEncode(v, w);
    ReadDecode(m, a + off, w);
  }

  /** The configuration block after the writes loads back as the settings of
      s, and re-writing settings that are already stored writes nothing. */
  lemma ConfigRoundTrip(e: Eeprom, s: State, t: State)
    requires |e.bytes| == EEPROM_SIZE
    ensures ConfigStored(WriteConfig(e, s).bytes, s)
    ensures SameConfig(LoadConfig(WriteConfig(e, s).bytes, t), s)
    ensures ConfigStored(e.bytes, s) ==> WriteConfig(e, s) == e
  {
    WriteConfigImage(e, s);
    var m := WriteConfig(e, s).bytes;
    assert m[..CONFIGURATION_SIZE] == ConfigImage(s);
    ConfigStoredReads(m, s);
    if ConfigStored(e.bytes, s) {
      forall j | 0 <= j < CONFIG_FIELDS
        ensures Read(e.bytes, FieldOffset(j), FieldWidth(j)) == FieldValue(s, j)
      {
        StoredFieldReads(e.bytes, s, j);
      }
      WriteFieldsUnchanged(e, s, CONFIG_FIELDS);
    }
  }

  /** Differential writes of fields that already hold their values change
      nothing, not even the write counter. */
  lemma {:induction false} WriteFieldsUnchanged(e: Eeprom, s: State, k: nat)
    requires |e.bytes| == EEPROM_SIZE && k <= CONFIG_FIELDS
    requires forall j | 0 <= j < k :: Read(e.bytes, FieldOffset(j), FieldWidth(j)) == FieldValue(s, j)
    ensures WriteFields(e, s, k) == e
  {
    if k > 0 {
      WriteFieldsUnchanged(e, s, k - 1);
      assert Read(e.bytes, FieldOffset(k - 1), FieldWidth(k - 1)) == FieldValue(s, k - 1);
    }
  }

  // ---------------------------------------------------------------------
  // Position log

  /** Start address of slot k. */
  function SlotAddr(k: nat): nat {
    CONFIGURATION_SIZE + k * SLIDING_SIZE
  }

  /** The cursor (`_slidingCurrentAddress`) is the start of a whole slot. */
  predicate ValidCursor(c: int) {
    SlotFits(c) && (c - CONFIGURATION_SIZE) % SLIDING_SIZE == 0
  }

  /** A slot-sized block at c lies inside the position log. */
  predicate SlotFits(c: int) {
    CONFIGURATION_SIZE <= c && c + SLIDING_SIZE <= EEPROM_SIZE
  }

  function SlotIndex(c: nat): (k: nat)
    requires ValidCursor(c)
    ensures k < SLIDING_ADDRESS_COUNT && SlotAddr(k) == c
  {
    (c - CONFIGURATION_SIZE) / SLIDING_SIZE
  }

  lemma SlotAddrValid(k: nat)
    requires k < SLIDING_ADDRESS_COUNT
    ensures ValidCursor(SlotAddr(k)) && SlotIndex(SlotAddr(k)) == k
  {
  }

  /** The slot after c, wrapping to the first slot when the next one would not
      fit in the EEPROM. */
  function NextCursor(c: nat): (r: nat)
    requires ValidCursor(c)
    ensures ValidCursor(r) && r != c
  {
    if c + SLIDING_SIZE + SLIDING_SIZE > EEPROM_SIZE then CONFIGURATION_SIZE else c + SLIDING_SIZE
  }

  /** The rotation visits the slots in ascending order and wraps after the
      last one, so it cycles through all of them. */
  lemma NextCursorCycles(k: nat)
    requires k < SLIDING_ADDRESS_COUNT
    ensures NextCursor(SlotAddr(k)) == SlotAddr((k + 1) % SLIDING_ADDRESS_COUNT)
  {
    SlotAddrValid(k);
  }

  /** The bytes of a slot holding position, targetPosition and checksum of s. */
  function SlotImage(s: State): (bs: seq<byte>)
    ensures |bs| == SLIDING_SIZE
  {
    Encode(s.position, U32_SIZE) + Encode(s.targetPosition, U32_SIZE) + Encode(s.checksum, U32_SIZE)
  }

  /** The three differential writes of a slot at c. */
  function WriteSlot(e: Eeprom, c: nat, s: State): (r: Eeprom)
    requires |e.bytes| == EEPROM_SIZE && SlotFits(c)
    ensures |r.bytes| == EEPROM_SIZE
  {
    Pow256Widths();
    var e1 := TryWrite(e, c, s.position, U32_SIZE);
    var e2 := TryWrite(e1, c + U32_SIZE, s.targetPosition, U32_SIZE);
    TryWrite(e2, c + 2 * U32_SIZE, s.checksum, U32_SIZE)
  }

  /** The slot at c read over s: its position, targetPosition and checksum. */
  function LoadSlot(m: seq<byte>, c: nat, s: State): (r: State)
    requires |m| == EEPROM_SIZE && SlotFits(c)
    ensures SameConfig(r, s)
  {
    Pow256Widths();
    s.(position := Read(m, c, U32_SIZE),
       targetPosition := Read(m, c + U32_SIZE, U32_SIZE),
       checksum := Read(m, c + SLOT_CHECKSUM_AT, U32_SIZE))
  }

  /** The slot at c validates against the settings of cfg: its stored
      checksum equals the checksum recomputed with its position. */
  predicate SlotValid(m: seq<byte>, c: nat, cfg: State)
    requires |m| == EEPROM_SIZE && SlotFits(c)
  {
    var l := LoadSlot(m, c, cfg);
    l.checksum == Checksum(l)
  }

  /** The slot at c already holds the triple of s. */
  predicate SlotHolds(m: seq<byte>, c: nat, s: State)
    requires |m| == EEPROM_SIZE && SlotFits(c)
  {
    Read(m, c, U32_SIZE) == s.position &&
    Read(m, c + U32_SIZE, U32_SIZE) == s.targetPosition &&
    Read(m, c + SLOT_CHECKSUM_AT, U32_SIZE) == s.checksum
  }

  /** The stored checksum of slot k. */
  function SlotChecksum(m: seq<byte>, k: nat): u32
    requires |m| == EEPROM_SIZE && k < SLIDING_ADDRESS_COUNT
  {
    Pow256Widths();
    Read(m, SlotAddr(k) + SLOT_CHECKSUM_AT, U32_SIZE)
  }

  /** The boot scan from slot k on: the first slot that validates against cfg. */
  function FirstValid(m: seq<byte>, cfg: State, k: nat): (r: Option<nat>)
    requires |m| == EEPROM_SIZE
    ensures r.Some? ==> k <= r.value < SLIDING_ADDRESS_COUNT && SlotValid(m, SlotAddr(r.value), cfg)
    ensures r.Some? ==> forall i | k <= i < r.value :: !SlotValid(m, SlotAddr(i), cfg)
    ensures r.None? ==> forall i | k <= i < SLIDING_ADDRESS_COUNT :: !SlotValid(m, SlotAddr(i), cfg)
    decreases SLIDING_ADDRESS_COUNT - k
  {
    if k >= SLIDING_ADDRESS_COUNT then None
    else if SlotValid(m, SlotAddr(k), cfg) then Some(k)
    else FirstValid(m, cfg, k + 1)
  }

  /** Every slot before c is invalidated: its stored checksum is 0. */
  predicate ZeroedBehind(m: seq<byte>, c: nat)
    requires |m| == EEPROM_SIZE && ValidCursor(c)
  {
    forall k | 0 <= k < SlotIndex(c) :: SlotChecksum(m, k) == 0
  }

  /** No slot before c validates against cfg. */
  predicate NoneValidBefore(m: seq<byte>, c: nat, cfg: State)
    requires |m| == EEPROM_SIZE && ValidCursor(c)
  {
    forall k | 0 <= k < SlotIndex(c) :: !SlotValid(m, SlotAddr(k), cfg)
  }

  // ---------------------------------------------------------------------
  // Commit and boot

  /** The state with its checksum field recomputed, as every commit does
      first; the result validates against itself. */
  function Seal(s: State): (r: State)
    ensures r.checksum == Checksum(r)
    ensures r.(checksum := s.checksum) == s
  {
    s.(checksum := Checksum(s))
  }

  /** The position-log half of `_writeEeprom` for the sealed state s at
      cursor c: the new EEPROM and the new cursor. */
  function CommitSlot(e: Eeprom, s: State, c: nat, isReset: bool): (r: (Eeprom, nat))
    requires |e.bytes| == EEPROM_SIZE && ValidCursor(c)
    ensures |r.0.bytes| == EEPROM_SIZE && ValidCursor(r.1)
  {
    Pow256Widths();
    if isReset then
      (WriteSlot(e, CONFIGURATION_SIZE, s), CONFIGURATION_SIZE)
    else if SlotHolds(e.bytes, c, s) then
      (WriteSlot(e, c, s), c)
    else
      var invalidated := TryWrite(e, c + SLOT_CHECKSUM_AT, 0, U32_SIZE);
      var next := NextCursor(c);
      (WriteSlot(invalidated, next, s), next)
  }

  /** `_writeEeprom(isReset)` on the EEPROM e with in-memory state s and
      cursor c: the new EEPROM (with its write counter) and the new cursor,
      which always stays on a whole slot inside the EEPROM. */
  function Commit(e: Eeprom, s: State, c: nat, isReset: bool): (r: (Eeprom, nat))
    requires |e.bytes| == EEPROM_SIZE && ValidCursor(c)
    ensures |r.0.bytes| == EEPROM_SIZE && ValidCursor(r.1)
    ensures CONFIGURATION_SIZE <= r.1 <= EEPROM_SIZE - SLIDING_SIZE
    ensures isReset ==> r.1 == CONFIGURATION_SIZE
  {
    var sealed := Seal(s);
    CommitSlot(WriteConfig(e, sealed), sealed, c, isReset)
  }

  /** `_readEeprom` up to the decision: the settings are read from the
      configuration block over s, then the first slot that validates gives
      the position, target, checksum and the cursor; None when no slot
      validates (the caller then resets to the defaults). */
  function Load(m: seq<byte>, s: State): (r: Option<(State, nat)>)
    requires |m| == EEPROM_SIZE
    ensures r.Some? ==> ValidCursor(r.value.1) && r.value.0.checksum == Checksum(r.value.0)
  {
    var cfg := LoadConfig(m, s);
    match FirstValid(m, cfg, 0)
    case Some(k) =>
      SlotAddrValid(k);
      Some((LoadSlot(m, SlotAddr(k), cfg), SlotAddr(k)))
    case None => None
  }

  // ---------------------------------------------------------------------
  // Lemmas about slots

  /** The three slot writes leave the slot holding the image of s and touch
      nothing else. */
  lemma WriteSlotImage(e: Eeprom, c: nat, s: State)
    requires |e.bytes| == EEPROM_SIZE && SlotFits(c)
    ensures WriteSlot(e, c, s).bytes == Write(e.bytes, c, SlotImage(s))
  {
    Pow256Widths();
    var a, b, z := Encode(s.position, 4), Encode(s.targetPosition, 4), Encode(s.checksum, 4);
    var e1 := TryWrite(e, c, s.position, 4);
    var e2 := TryWrite(e1, c + 4, s.targetPosition, 4);
    TryWriteStores(e, c, s.position, 4);
    TryWriteStores(e1, c + 4, s.targetPosition, 4);
    TryWriteStores(e2, c + 8, s.checksum, 4);
    WriteAdjacent(e.bytes, c, a, b);
    WriteAdjacent(e.bytes, c, a + b, z);
  }

  /** A slot holding the image of s reads back as the triple of s. */
  lemma SlotStoredReads(m: seq<byte>, c: nat, s: State)
    requires |m| == EEPROM_SIZE && SlotFits(c)
    requires m[c..c + SLIDING_SIZE] == SlotImage(s)
    ensures SlotHolds(m, c, s)
  {
    Pow256Widths();
    var img := SlotImage(s);
    assert img[0..U32_SIZE] == Encode(s.position, U32_SIZE);
    assert img[U32_SIZE..2 * U32_SIZE] == Encode(s.targetPosition, U32_SIZE);
    assert img[SLOT_CHECKSUM_AT..SLOT_CHECKSUM_AT + U32_SIZE] == Encode(s.checksum, U32_SIZE);
    FieldAt(m, c, img, 0, s.position, U32_SIZE);
    FieldAt(m, c, img, U32_SIZE, s.targetPosition, U32_SIZE);
    FieldAt(m, c, img, SLOT_CHECKSUM_AT, s.checksum, U32_SIZE);
  }

  /** Loading a slot only replaces the three slot fields, so it sees the
      settings of its base state only. */
  lemma LoadSlotConfig(m: seq<byte>, c: nat, a: State, b: State)
    requires |m| == EEPROM_SIZE && ValidCursor(c)
    requires SameConfig(a, b)
    ensures LoadSlot(m, c, a) == LoadSlot(m, c, b)
    ensures SlotValid(m, c, a) == SlotValid(m, c, b)
  {
  }

  /** A memory whose configuration block stores the settings of s and whose
      slot at c holds the triple of s loads back as exactly s there. */
  lemma LoadStored(m: seq<byte>, c: nat, s: State, t: State)
    requires |m| == EEPROM_SIZE && ValidCursor(c)
    requires ConfigStored(m, s) && m[c..c + SLIDING_SIZE] == SlotImage(s)
    ensures LoadSlot(m, c, LoadConfig(m, t)) == s
  {
    ConfigStoredReads(m, s);
    SlotStoredReads(m, c, s);
  }

  /** Writing at or above address n leaves the first n bytes alone. */
  lemma WriteAbove(m: seq<byte>, a: nat, bs: seq<byte>, n: nat)
    requires n <= a && a + |bs| <= |m|
    ensures Write(m, a, bs)[..n] == m[..n]
  {
  }

  /** The configuration writes do not change any field of the position log. */
  lemma ReadPastConfig(e: Eeprom, s: State, b: nat, w: nat)
    requires |e.bytes| == EEPROM_SIZE
    requires CONFIGURATION_SIZE <= b && b + w <= EEPROM_SIZE
    ensures Read(WriteConfig(e, s).bytes, b, w) == Read(e.bytes, b, w)
  {
    WriteConfigImage(e, s);
    var m := e.bytes;
    assert (ConfigImage(s) + m[CONFIGURATION_SIZE..])[b..b + w] == m[b..b + w];
    ReadDecode(WriteConfig(e, s).bytes, b, w);
    ReadDecode(m, b, w);
  }

  /** A stored configuration block loads back as its settings. */
  lemma LoadConfigStored(m: seq<byte>, s: State, t: State)
    requires |m| == EEPROM_SIZE && ConfigStored(m, s)
    ensures SameConfig(LoadConfig(m, t), s)
  {
    ConfigStoredReads(m, s);
  }

  /** A slot write keeps a stored configuration block and leaves the slot
      holding the image of s. */
  lemma WriteSlotStores(x: Eeprom, c: nat, s: State, cfg: State)
    requires |x.bytes| == EEPROM_SIZE && SlotFits(c) && ConfigStored(x.bytes, cfg)
    ensures ConfigStored(WriteSlot(x, c, s).bytes, cfg)
    ensures WriteSlot(x, c, s).bytes[c..c + SLIDING_SIZE] == SlotImage(s)
  {
    WriteSlotImage(x, c, s);
    WriteAbove(x.bytes, c, SlotImage(s), CONFIGURATION_SIZE);
  }

  /** The invalidating write of a slot checksum keeps the configuration. */
  lemma InvalidateKeepsConfig(x: Eeprom, c: nat, cfg: State)
    requires |x.bytes| == EEPROM_SIZE && ValidCursor(c) && ConfigStored(x.bytes, cfg)
    ensures ConfigStored(TryWrite(x, c + SLOT_CHECKSUM_AT, 0, U32_SIZE).bytes, cfg)
  {
    Pow256Widths();
    TryWriteStores(x, c + SLOT_CHECKSUM_AT, 0, U32_SIZE);
    WriteAbove(x.bytes, c + SLOT_CHECKSUM_AT, Encode(0, U32_SIZE), CONFIGURATION_SIZE);
  }

  /** After a commit the configuration block stores the settings of s, the
      slot at the new cursor holds the image of the sealed state, and a boot
      that reads that slot recovers the sealed state exactly. */
  lemma CommitStores(e: Eeprom, s: State, c: nat, isReset: bool, t: State)
    requires |e.bytes| == EEPROM_SIZE && ValidCursor(c)
    ensures var (e', c') := Commit(e, s, c, isReset);
      ConfigStored(e'.bytes, Seal(s)) &&
      e'.bytes[c'..c' + SLIDING_SIZE] == SlotImage(Seal(s)) &&
      LoadSlot(e'.bytes, c', LoadConfig(e'.bytes, t)) == Seal(s)
  {
    var sealed := Seal(s);
    var e1 := WriteConfig(e, sealed);
    ConfigRoundTrip(e, sealed, t);
    var (e', c') := Commit(e, s, c, isReset);
    if isReset || SlotHolds(e1.bytes, c, sealed) {
      WriteSlotStores(e1, c', sealed, sealed);
    } else {
      var inv := TryWrite(e1, c + SLOT_CHECKSUM_AT, 0, U32_SIZE);
      InvalidateKeepsConfig(e1, c, sealed);
      WriteSlotStores(inv, c', sealed, sealed);
    }
    LoadStored(e'.bytes, c', sealed, t);
  }

  /** A commit changes no field of the position log outside the slot at the
      old cursor and the slot at the new one. */
  lemma CommitKeepsOthers(e: Eeprom, s: State, c: nat, isReset: bool, b: nat, w: nat)
    requires |e.bytes| == EEPROM_SIZE && ValidCursor(c)
    requires CONFIGURATION_SIZE <= b && b + w <= EEPROM_SIZE
    requires b + w <= c || c + SLIDING_SIZE <= b
    requires var c' := Commit(e, s, c, isReset).1; b + w <= c' || c' + SLIDING_SIZE <= b
    ensures Read(Commit(e, s, c, isReset).0.bytes, b, w) == Read(e.bytes, b, w)
  {
    Pow256Widths();
    var sealed := Seal(s);
    var e1 := WriteConfig(e, sealed);
    ReadPastConfig(e, sealed, b, w);
    var (e', c') := Commit(e, s, c, isReset);
    if isReset || SlotHolds(e1.bytes, c, sealed) {
      WriteSlotImage(e1, c', sealed);
      ReadOther(e1.bytes, c', SlotImage(sealed), b, w);
    } else {
      var inv := TryWrite(e1, c + SLOT_CHECKSUM_AT, 0, U32_SIZE);
      TryWriteStores(e1, c + SLOT_CHECKSUM_AT, 0, U32_SIZE);
      ReadOther(e1.bytes, c + SLOT_CHECKSUM_AT, Encode(0, U32_SIZE), b, w);
      WriteSlotImage(inv, c', sealed);
      ReadOther(inv.bytes, c', SlotImage(sealed), b, w);
    }
  }

  /** A slot that already holds the triple costs no slot write. */
  lemma WriteSlotUnchanged(e: Eeprom, c: nat, s: State)
    requires |e.bytes| == EEPROM_SIZE && SlotFits(c) && SlotHolds(e.bytes, c, s)
    ensures WriteSlot(e, c, s) == e
  {
  }

  /** Reads in the position log see through the configuration writes. */
  lemma SlotHoldsPastConfig(e: Eeprom, cfg: State, c: nat, s: State)
    requires |e.bytes| == EEPROM_SIZE && SlotFits(c)
    ensures SlotHolds(WriteConfig(e, cfg).bytes, c, s) == SlotHolds(e.bytes, c, s)
  {
    Pow256Widths();
    ReadPastConfig(e, cfg, c, U32_SIZE);
    ReadPastConfig(e, cfg, c + U32_SIZE, U32_SIZE);
    ReadPastConfig(e, cfg, c + SLOT_CHECKSUM_AT, U32_SIZE);
  }

  /** When the slot at the cursor already holds the sealed triple, the
      cursor stays and only the configuration writes can reach the EEPROM. */
  lemma CommitStays(e: Eeprom, s: State, c: nat)
    requires |e.bytes| == EEPROM_SIZE && ValidCursor(c)
    requires SlotHolds(e.bytes, c, Seal(s))
    ensures Commit(e, s, c, false) == (WriteConfig(e, Seal(s)), c)
  {
    SlotHoldsPastConfig(e, Seal(s), c, Seal(s));
    WriteSlotUnchanged(WriteConfig(e, Seal(s)), c, Seal(s));
  }

  /** Otherwise the slot at the old cursor is invalidated (its checksum reads
      0) and the cursor moves to the next slot. */
  lemma CommitRotates(e: Eeprom, s: State, c: nat)
    requires |e.bytes| == EEPROM_SIZE && ValidCursor(c)
    requires !SlotHolds(e.bytes, c, Seal(s))
    ensures Commit(e, s, c, false).1 == NextCursor(c)
    ensures SlotChecksum(Commit(e, s, c, false).0.bytes, SlotIndex(c)) == 0
  {
    Pow256Widths();
    var sealed := Seal(s);
    var e1 := WriteConfig(e, sealed);
    SlotHoldsPastConfig(e, sealed, c, sealed);
    var inv := TryWrite(e1, c + SLOT_CHECKSUM_AT, 0, U32_SIZE);
    TryWriteStores(e1, c + SLOT_CHECKSUM_AT, 0, U32_SIZE);
    var next := NextCursor(c);
    WriteSlotImage(inv, next, sealed);
    ReadOther(inv.bytes, next, SlotImage(sealed), c + SLOT_CHECKSUM_AT, U32_SIZE);
  }

  /** Invalidated slots stay invalidated: a commit keeps every slot before
      its new cursor zeroed when every slot before the old one was. */
  lemma CommitKeepsZeroedBehind(e: Eeprom, s: State, c: nat, isReset: bool)
    requires |e.bytes| == EEPROM_SIZE && ValidCursor(c) && ZeroedBehind(e.bytes, c)
    ensures var r := Commit(e, s, c, isReset); ZeroedBehind(r.0.bytes, r.1)
  {
    if isReset {
    } else if SlotHolds(e.bytes, c, Seal(s)) {
      ZeroedBehindWhenStaying(e, s, c);
    } else {
      ZeroedBehindWhenRotating(e, s, c);
    }
  }

  lemma ZeroedBehindWhenStaying(e: Eeprom, s: State, c: nat)
    requires |e.bytes| == EEPROM_SIZE && ValidCursor(c) && ZeroedBehind(e.bytes, c)
    requires SlotHolds(e.bytes, c, Seal(s))
    ensures var r := Commit(e, s, c, false); r.1 == c && ZeroedBehind(r.0.bytes, c)
  {
    CommitStays(e, s, c);
    var m' := Commit(e, s, c, false).0.bytes;
    forall k | 0 <= k < SlotIndex(c) ensures SlotChecksum(m', k) == 0 {
      ZeroedSlotKept(e, s, c, false, k);
    }
  }

  lemma ZeroedBehindWhenRotating(e: Eeprom, s: State, c: nat)
    requires |e.bytes| == EEPROM_SIZE && ValidCursor(c) && ZeroedBehind(e.bytes, c)
    requires !SlotHolds(e.bytes, c, Seal(s))
    ensures var r := Commit(e, s, c, false); ZeroedBehind(r.0.bytes, r.1)
  {
    CommitRotates(e, s, c);
    var r := Commit(e, s, c, false);
    if r.1 != CONFIGURATION_SIZE {
      forall k | 0 <= k < SlotIndex(c) ensures SlotChecksum(r.0.bytes, k) == SlotChecksum(e.bytes, k) {
        ZeroedSlotKept(e, s, c, false, k);
      }
      ZeroedBehindExtends(e.bytes, r.0.bytes, c);
    }
  }

  /** Zeroing the slot at c, keeping the slots before it, extends the zeroed
      prefix by one slot. */
  lemma ZeroedBehindExtends(m: seq<byte>, m': seq<byte>, c: nat)
    requires |m| == EEPROM_SIZE && |m'| == EEPROM_SIZE && ValidCursor(c) && ZeroedBehind(m, c)
    requires NextCursor(c) == c + SLIDING_SIZE
    requires SlotChecksum(m', SlotIndex(c)) == 0
    requires forall k | 0 <= k < SlotIndex(c) :: SlotChecksum(m', k) == SlotChecksum(m, k)
    ensures ZeroedBehind(m', NextCursor(c))
  {
    assert SlotIndex(NextCursor(c)) == SlotIndex(c) + 1;
  }

  /** One zeroed slot behind both cursors survives the commit. */
  lemma ZeroedSlotKept(e: Eeprom, s: State, c: nat, isReset: bool, k: nat)
    requires |e.bytes| == EEPROM_SIZE && ValidCursor(c) && k < SlotIndex(c)
    requires Commit(e, s, c, isReset).1 >= c
    ensures SlotChecksum(Commit(e, s, c, isReset).0.bytes, k) == SlotChecksum(e.bytes, k)
  {
    Pow256Widths();
    CommitKeepsOthers(e, s, c, isReset, SlotAddr(k) + SLOT_CHECKSUM_AT, U32_SIZE);
  }

  /** Committing again with nothing changed writes nothing: the EEPROM, its
      write counter and the cursor stay as the first commit left them. */
  lemma CommitTwiceIsNoop(e: Eeprom, s: State, c: nat, isReset: bool)
    requires |e.bytes| == EEPROM_SIZE && ValidCursor(c)
    ensures var (e1, c1) := Commit(e, s, c, isReset); Commit(e1, s, c1, false) == (e1, c1)
    ensures var (e1, c1) := Commit(e, s, c, isReset); Commit(e1, Seal(s), c1, false) == (e1, c1)
  {
    var (e1, c1) := Commit(e, s, c, isReset);
    CommitStores(e, s, c, isReset, s);
    SlotStoredReads(e1.bytes, c1, Seal(s));
    CommitStays(e1, s, c1);
    ConfigRoundTrip(e1, Seal(s), s);
    CommitSealed(e1, s, c1, false);
  }

  /** Sealing twice is sealing once, so committing the state a commit left
      behind (its sealed form) is committing the original state. */
  lemma CommitSealed(e: Eeprom, s: State, c: nat, isReset: bool)
    requires |e.bytes| == EEPROM_SIZE && ValidCursor(c)
    ensures Seal(Seal(s)) == Seal(s)
    ensures Commit(e, Seal(s), c, isReset) == Commit(e, s, c, isReset)
  {
    ChecksumIgnoresTarget(s, s.targetPosition, Checksum(s));
  }

  /** The boot scan stops at the first valid slot. */
  lemma FirstValidFinds(m: seq<byte>, cfg: State, j: nat)
    requires |m| == EEPROM_SIZE && j < SLIDING_ADDRESS_COUNT
    requires SlotValid(m, SlotAddr(j), cfg)
    requires forall i | 0 <= i < j :: !SlotValid(m, SlotAddr(i), cfg)
    ensures FirstValid(m, cfg, 0) == Some(j)
  {
  }

  /** A memory whose configuration block stores the settings of a sealed
      state s, whose slot at c holds s, and in which no earlier slot
      validates against those settings, boots into s at cursor c. */
  lemma LoadFindsSealed(m: seq<byte>, c: nat, s: State, t: State)
    requires |m| == EEPROM_SIZE && ValidCursor(c) && s.checksum == Checksum(s)
    requires ConfigStored(m, s) && m[c..c + SLIDING_SIZE] == SlotImage(s)
    requires NoneValidBefore(m, c, s)
    ensures Load(m, t) == Some((s, c))
  {
    var cfg := LoadConfig(m, t);
    LoadConfigStored(m, s, t);
    LoadStored(m, c, s, t);
    NoneValidBeforeConfig(m, c, cfg, s);
    FirstValidFinds(m, cfg, SlotIndex(c));
  }

  /** Whether the slots before c validate depends only on the settings. */
  lemma NoneValidBeforeConfig(m: seq<byte>, c: nat, a: State, b: State)
    requires |m| == EEPROM_SIZE && ValidCursor(c)
    requires SameConfig(a, b) && NoneValidBefore(m, c, b)
    ensures forall i | 0 <= i < SlotIndex(c) :: !SlotValid(m, SlotAddr(i), a)
  {
    forall i | 0 <= i < SlotIndex(c) ensures !SlotValid(m, SlotAddr(i), a) {
      LoadSlotConfig(m, SlotAddr(i), a, b);
    }
  }

  /** A boot after a commit recovers the sealed state and the cursor, as
      long as no earlier slot validates against the committed settings. */
  lemma BootAfterCommit(e: Eeprom, s: State, c: nat, isReset: bool, t: State)
    requires |e.bytes| == EEPROM_SIZE && ValidCursor(c)
    requires var r := Commit(e, s, c, isReset); NoneValidBefore(r.0.bytes, r.1, Seal(s))
    ensures var r := Commit(e, s, c, isReset); Load(r.0.bytes, t) == Some((Seal(s), r.1))
  {
    var r := Commit(e, s, c, isReset);
    CommitStores(e, s, c, isReset, t);
    LoadFindsSealed(r.0.bytes, r.1, Seal(s), t);
  }

  /** `_resetEeprom`: after a reset commit of s a boot recovers the sealed s
      from the first slot, whatever the EEPROM held before. */
  lemma BootAfterReset(e: Eeprom, s: State, c: nat, t: State)
    requires |e.bytes| == EEPROM_SIZE && ValidCursor(c)
    ensures Load(Commit(e, s, c, true).0.bytes, t) == Some((Seal(s), CONFIGURATION_SIZE))
  {
    BootAfterCommit(e, s, c, true, t);
  }

  /** Invalidating by zeroing is only as strong as the checksum: a zeroed
      slot still validates exactly when its recomputed checksum is 0. */
  lemma ZeroedSlotValidates(m: seq<byte>, k: nat, cfg: State)
    requires |m| == EEPROM_SIZE && k < SLIDING_ADDRESS_COUNT && SlotChecksum(m, k) == 0
    ensures SlotValid(m, SlotAddr(k), cfg) <==> Checksum(LoadSlot(m, SlotAddr(k), cfg)) == 0
  {
  }

  /** The rotation invariant gives the boot hypothesis: with every slot
      before c zeroed, none of them validates unless the checksum recomputed
      from it is 0. */
  lemma ZeroedBehindNoneValid(m: seq<byte>, c: nat, cfg: State)
    requires |m| == EEPROM_SIZE && ValidCursor(c) && ZeroedBehind(m, c)
    requires forall k | 0 <= k < SlotIndex(c) :: Checksum(LoadSlot(m, SlotAddr(k), cfg)) != 0
    ensures NoneValidBefore(m, c, cfg)
  {
    forall k | 0 <= k < SlotIndex(c) ensures !SlotValid(m, SlotAddr(k), cfg) {
      ZeroedSlotValidates(m, k, cfg);
    }
  }

  /** A commit from a memory that keeps the rotation invariant is recovered
      by the next boot, unless a slot before the new cursor holds a position
      whose recomputed checksum is 0. */
  lemma BootAfterZeroedCommit(e: Eeprom, s: State, c: nat, isReset: bool, t: State)
    requires |e.bytes| == EEPROM_SIZE && ValidCursor(c) && ZeroedBehind(e.bytes, c)
    requires var r := Commit(e, s, c, isReset);
      forall k | 0 <= k < SlotIndex(r.1) :: Checksum(LoadSlot(r.0.bytes, SlotAddr(k), Seal(s))) != 0
    ensures var r := Commit(e, s, c, isReset); Load(r.0.bytes, t) == Some((Seal(s), r.1))
  {
    var r := Commit(e, s, c, isReset);
    CommitKeepsZeroedBehind(e, s, c, isReset);
    ZeroedBehindNoneValid(r.0.bytes, r.1, Seal(s));
    BootAfterCommit(e, s, c, isReset, t);
  }

  /** Settings the setters accept, with a position in range, whose checksum
      wraps to exactly 0. */
  const ZERO_SUM_STATE: State := State(
    position := 18996, targetPosition := 0, maxPosition := 0xFFFF_FFFF - 20000, maxMovement := 1000,
    stepMode := STP1, stepModeManual := STP1, speedMode := VERYSLOW,
    settleBufferMs := 0, idleEepromWriteMs := 0, reverseDirection := false,
    motorIMoveMultiplier := 1, motorIHoldMultiplier := 1, checksum := 0)

  /** Zeroing a checksum does not always invalidate its slot: under valid
      settings, a zeroed slot holding position 18996 still validates, so the
      log can hold two valid slots and the boot takes the earlier one. */
  lemma ZeroedSlotRevalidates(m: seq<byte>, k: nat, cfg: State)
    requires |m| == EEPROM_SIZE && k < SLIDING_ADDRESS_COUNT && SlotChecksum(m, k) == 0
    requires SameConfig(cfg, ZERO_SUM_STATE) && Read(m, SlotAddr(k), U32_SIZE) == ZERO_SUM_STATE.position
    ensures SettingsValid(cfg) && InRange(ZERO_SUM_STATE)
    ensures SlotValid(m, SlotAddr(k), cfg)
  {
    ZeroedSlotValidates(m, k, cfg);
    assert Checksum(ZERO_SUM_STATE) == 0;
  }

  /** The state every field of which is 0. */
  const ZERO_STATE: State := State(0, 0, 0, 0, 0, 0, 0, 0, 0, false, 0, 0, 0)

  /** An EEPROM whose cells all hold 0. */
  predicate Blank(m: seq<byte>) {
    forall i | 0 <= i < |m| :: m[i] == 0
  }

  /** An all-zero EEPROM does not fall back to the defaults: its first slot
      validates, because the all-zero state sums to 0, and the boot loads
      the all-zero state, whose settings the setters would never accept. */
  lemma BlankLoadsZeroState(m: seq<byte>, t: State)
    requires |m| == EEPROM_SIZE && Blank(m)
    ensures Load(m, t) == Some((ZERO_STATE, CONFIGURATION_SIZE))
    ensures !SettingsValid(ZERO_STATE)
  {
    var cfg := LoadConfig(m, t);
    assert FirstValid(m, cfg, 0) == Some(0) by {
      BlankConfig(m, t);
      BlankFirstSlot(m, cfg);
      FirstValidFinds(m, cfg, 0);
    }
    assert LoadSlot(m, CONFIGURATION_SIZE, cfg) == ZERO_STATE by {
      BlankConfig(m, t);
      BlankFirstSlot(m, cfg);
    }
  }

  lemma BlankConfig(m: seq<byte>, t: State)
    requires |m| == EEPROM_SIZE && Blank(m)
    ensures SameConfig(LoadConfig(m, t), ZERO_STATE)
  {
    Pow256Widths();
    ReadZeros(m, MAX_POSITION_AT, U32_SIZE);
    ReadZeros(m, MAX_MOVEMENT_AT, U32_SIZE);
    ReadZeros(m, STEP_MODE_AT, ENUM_SIZE);
    ReadZeros(m, STEP_MODE_MANUAL_AT, ENUM_SIZE);
    ReadZeros(m, SPEED_MODE_AT, ENUM_SIZE);
    ReadZeros(m, SETTLE_BUFFER_MS_AT, U32_SIZE);
    ReadZeros(m, IDLE_EEPROM_WRITE_MS_AT, U32_SIZE);
    ReadZeros(m, REVERSE_DIRECTION_AT, BOOL_SIZE);
    ReadZeros(m, MOTOR_I_MOVE_AT, U8_SIZE);
    ReadZeros(m, MOTOR_I_HOLD_AT, U8_SIZE);
  }

  lemma BlankFirstSlot(m: seq<byte>, cfg: State)
    requires |m| == EEPROM_SIZE && Blank(m)
    requires SameConfig(cfg, ZERO_STATE)
    ensures LoadSlot(m, CONFIGURATION_SIZE, cfg) == ZERO_STATE
  {
    Pow256Widths();
    ReadZeros(m, CONFIGURATION_SIZE, U32_SIZE);
    ReadZeros(m, CONFIGURATION_SIZE + U32_SIZE, U32_SIZE);
    ReadZeros(m, CONFIGURATION_SIZE + SLOT_CHECKSUM_AT, U32_SIZE);
  }

  /** An EEPROM whose cells all hold 0xFF, as an erased EEPROM does. */
  predicate Erased(m: seq<byte>) {
    forall i | 0 <= i < |m| :: m[i] == 0xFF
  }

  /** The state every field of which has all its bits set. */
  const ERASED_STATE: State := State(
    0xFFFF_FFFF, 0xFFFF_FFFF, 0xFFFF_FFFF, 0xFFFF_FFFF, 0xFFFF, 0xFFFF, 0xFFFF,
    0xFFFF_FFFF, 0xFFFF_FFFF, true, 0xFF, 0xFF, 0xFFFF_FFFF)

  /** An erased EEPROM falls back to the defaults: no slot validates,
      because every slot recomputes to 1271 but stores 0xFFFFFFFF. */
  lemma ErasedFallsBackToDefaults(m: seq<byte>, t: State)
    requires |m| == EEPROM_SIZE && Erased(m)
    ensures Load(m, t).None?
  {
    var cfg := LoadConfig(m, t);
    ErasedConfig(m, t);
    forall k | 0 <= k < SLIDING_ADDRESS_COUNT ensures !SlotValid(m, SlotAddr(k), cfg) {
      ErasedSlotInvalid(m, k, cfg);
    }
  }

  lemma ErasedConfig(m: seq<byte>, t: State)
    requires |m| == EEPROM_SIZE && Erased(m)
    ensures SameConfig(LoadConfig(m, t), ERASED_STATE)
  {
    Pow256Widths();
    ReadOnes(m, MAX_POSITION_AT, U32_SIZE);
    ReadOnes(m, MAX_MOVEMENT_AT, U32_SIZE);
    ReadOnes(m, STEP_MODE_AT, ENUM_SIZE);
    ReadOnes(m, STEP_MODE_MANUAL_AT, ENUM_SIZE);
    ReadOnes(m, SPEED_MODE_AT, ENUM_SIZE);
    ReadOnes(m, SETTLE_BUFFER_MS_AT, U32_SIZE);
    ReadOnes(m, IDLE_EEPROM_WRITE_MS_AT, U32_SIZE);
    ReadOnes(m, REVERSE_DIRECTION_AT, BOOL_SIZE);
    ReadOnes(m, MOTOR_I_MOVE_AT, U8_SIZE);
    ReadOnes(m, MOTOR_I_HOLD_AT, U8_SIZE);
  }

  lemma ErasedSlotInvalid(m: seq<byte>, k: nat, cfg: State)
    requires |m| == EEPROM_SIZE && Erased(m) && k < SLIDING_ADDRESS_COUNT
    requires SameConfig(cfg, ERASED_STATE)
    ensures !SlotValid(m, SlotAddr(k), cfg)
  {
    Pow256Widths();
    SlotAddrValid(k);
    ReadOnes(m, SlotAddr(k), U32_SIZE);
    ReadOnes(m, SlotAddr(k) + SLOT_CHECKSUM_AT, U32_SIZE);
    assert Checksum(LoadSlot(m, SlotAddr(k), cfg)) == 1271;
  }
}
