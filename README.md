# EEPROM storage manager of the DeepSkyDad AF3 focuser

The AF3 focuser keeps its settings and its position in the 1 KiB EEPROM of
its microcontroller. `EEPROM_AF3` divides the EEPROM into two parts:

* a **configuration block** of 25 bytes at address 0. It holds ten settings
  in a fixed order: maxPosition, maxMovement, stepMode, stepModeManual,
  speedMode, settleBufferMs, idleEepromWriteMs, reverseDirection,
  motorIMoveMultiplier and motorIHoldMultiplier;
* a **wear-levelled position log**: 83 slots of 12 bytes from address 25 on.
  Each slot holds position, targetPosition and a checksum. The checksum is the
  32-bit sum of the position and the settings.

Writes are differential. `_tryWriteProperty` writes a field only when its
stored value differs, and it counts the writes it makes.

A commit (`_writeEeprom`) does the following:

1. It seals the state by recomputing the checksum.
2. It writes the configuration block.
3. If the slot at the cursor already holds the new triple, the cursor stays
   there, and the slot's differential writes find nothing to change.
4. Otherwise it zeroes the checksum of the old slot and moves the cursor to
   the next slot. After the last slot that fits, the cursor wraps back to the
   first.

A reset commit instead puts the cursor on the first slot.

At boot (`_readEeprom`), the manager reads the configuration block and then
scans the slots in order. It takes the first slot whose stored checksum
matches the recomputed one. If no slot validates, it resets to the defaults.

`handleEeprom` decides when to commit. Once per check period, it commits if a
setting changed. Otherwise, it commits once the position has been idle for
`idleEepromWriteMs`. The setters of the settings validate or clamp their
argument and mark the state dirty. `setPosition` and `setTargetPosition` do
not mark it dirty; they restart the idle timer instead.

## How the model is built

* `Codec`: little-endian encoding of a value into a fixed number of bytes,
  and decoding back.
* `Memory`: the EEPROM as a byte sequence with a write counter, plus the
  block read, block write and differential write on it.
* `Layout`: the field offsets, the slot geometry, the controller state and
  the checksum. It also holds the value ranges the setters enforce, and the
  defaults.
* `Persist`: the commit (`Commit`) and the boot read (`Load`) as functions
  on the EEPROM contents, with their properties: round trips, what a commit
  keeps, rotation, idempotence, and recovery after a commit or a reset.
* `Debounce`: the clock comparisons of `handleEeprom`, on 32-bit
  milliseconds, exactly as written.
* `Storage.EepromAF3`: the manager object. Its EEPROM is an `array<byte>` and
  its other fields are the fields of the C++ object. Each method that reads or
  writes the EEPROM is proved equal to the matching `Persist` or `Memory`
  function. The setters state their new state outright.

The configuration header is not part of this model. The model therefore
assumes its constants:

* EEPROM size 1024;
* check period 1000 ms;
* step-mode codes 1, 2, 4, …, 256 and speed codes 1 to 5;
* enums stored in 2 bytes (the AVR `int`);
* defaults that satisfy the setters' ranges.

### Where the code and its description differ

The model follows the code in each of these cases:

* The checksum does not include targetPosition. A stored target can
  therefore change without invalidating its slot. This is
  `Layout.ChecksumIgnoresTarget`.
* The checksum adds the enum codes cast to `unsigned char`. This is
  `Layout.ChecksumTruncatesStepMode`.
* An all-zero EEPROM does not fall back to the defaults. Its first slot
  validates, because zero equals the sum of zeros. The boot therefore loads
  the all-zero state, whose settings no setter would accept. This is
  `Persist.BlankLoadsZeroState`. An erased EEPROM, whose cells all hold 0xFF,
  does fall back: every slot recomputes to 1271 but stores 0xFFFFFFFF. This
  is `Persist.ErasedFallsBackToDefaults`.
* Zeroing the checksum of the slot left behind does not guarantee that only
  one slot validates. A zeroed slot still validates when the checksum
  recomputed from its position is 0, and this happens under settings the
  setters accept. One such case: maxPosition 2^32 − 1 − 20000, maxMovement
  1000, all codes 1, both multipliers 1, and position 18996. A boot then takes
  the earliest such slot, not the last one committed. This is
  `Persist.ZeroedSlotRevalidates`. Without such a slot, the invariant that
  every slot before the cursor is zeroed makes the boot recover the last
  commit. This is `Persist.BootAfterZeroedCommit`.
* The debounce comparisons `last + delay < millis()` are not wrap-safe:
  * if the deadline overflows, the check fires at once;
  * after the clock wraps, it stalls until the clock passes the old
    deadline again.

  This is `Debounce.DueEarlyWhenDeadlineOverflows`,
  `Debounce.DueStallsAfterClockWraps` and `Debounce.StallExample`.

## Model

| member | source | states |
|---|---|---|
| Codec.DecodeEncode | DeepSkyDad.AF3.Arduino/src/EEPROM_AF3.cpp:25-30 | A value below 256^w, stored little-endian in w bytes, reads back as itself. |
| Codec.EncodeDecode | DeepSkyDad.AF3.Arduino/src/EEPROM_AF3.cpp:6-13 | Any w stored bytes, decoded and re-encoded, are the same bytes. This is why a field written or left alone holds the same bytes. |
| Codec.DecodeZeros | DeepSkyDad.AF3.Arduino/src/EEPROM_AF3.cpp:25-30 | All-zero bytes decode to 0. |
| Memory.ReadDecode | DeepSkyDad.AF3.Arduino/src/EEPROM_AF3.cpp:25-30 | The byte-by-byte read of a field equals the decoding of the bytes it occupies. |
| Memory.ReadWritten | DeepSkyDad.AF3.Arduino/src/EEPROM_AF3.cpp:13 | A block written at an address reads back as its decoding. |
| Memory.ReadOther | DeepSkyDad.AF3.Arduino/src/EEPROM_AF3.cpp:13 | A block write leaves every field it does not overlap unchanged. |
| Memory.TryWriteStores | DeepSkyDad.AF3.Arduino/src/EEPROM_AF3.cpp:6-23 | Whether or not the differential write touches the EEPROM, afterwards the field holds the value, as a plain write would leave it. The write counter rises by one exactly when the stored value differed. |
| Memory.WriteSame | DeepSkyDad.AF3.Arduino/src/EEPROM_AF3.cpp:11-22 | Writing back the stored bytes changes nothing. |
| Memory.WriteAdjacent | DeepSkyDad.AF3.Arduino/src/EEPROM_AF3.cpp:124-127 | Two writes of adjacent blocks equal one write of their concatenation, as the three slot fields are written. |
| Memory.ReadZeros | DeepSkyDad.AF3.Arduino/src/EEPROM_AF3.cpp:25-30 | An all-zero field reads as 0. |
| Memory.ReadOnes | DeepSkyDad.AF3.Arduino/src/EEPROM_AF3.cpp:25-30 | A field whose cells all hold 0xFF (erased) reads as the largest value of its width. |
| Memory.Read | DeepSkyDad.AF3.Arduino/src/EEPROM_AF3.cpp:25-30 | The field copied out of w cells, least significant byte first, is below 256^w. Its partner is `Memory.ReadDecode`. |
| Memory.TryWrite | DeepSkyDad.AF3.Arduino/src/EEPROM_AF3.cpp:6-23 | The differential write keeps the EEPROM size. Its content and counter are stated by `Memory.TryWriteStores`. |
| Layout.Checksum | DeepSkyDad.AF3.Arduino/src/EEPROM_AF3.cpp:32-35 | The sum modulo 2^32 of position and the ten settings, with the enum codes taken modulo 256. It has no contract of its own; its properties are the three `Checksum…` lemmas below. |
| Layout.LayoutFits | DeepSkyDad.AF3.Arduino/src/EEPROM_AF3.cpp:39-49 | The ten fields are packed back to back in read order and fill exactly the 25-byte block. A slot is three u32 values with the checksum last. 83 slots fit in the EEPROM. The defaults satisfy every setter range. |
| Layout.ChecksumIgnoresTarget | DeepSkyDad.AF3.Arduino/src/EEPROM_AF3.cpp:32-35 | The checksum does not depend on targetPosition or on the stored checksum. |
| Layout.ChecksumTruncatesStepMode | DeepSkyDad.AF3.Arduino/src/EEPROM_AF3.cpp:34 | Step-mode codes that agree modulo 256 give the same checksum. |
| Layout.ChecksumDetectsPosition | DeepSkyDad.AF3.Arduino/src/EEPROM_AF3.cpp:32-35 | With every other field fixed, two positions give the same checksum if and only if they are equal. |
| Layout.AddModInjective | DeepSkyDad.AF3.Arduino/src/EEPROM_AF3.cpp:34 | Adding the same amount modulo 2^32 to two u32 values keeps them equal if and only if they were equal. |
| Persist.FieldWidth | DeepSkyDad.AF3.Arduino/src/EEPROM_AF3.cpp:85-94 | Each configuration field starts where the previous one ends. |
| Persist.FieldValue | DeepSkyDad.AF3.Arduino/src/EEPROM_AF3.cpp:85-94 | The value of each field fits its width. |
| Persist.FieldOffsetsAscend | DeepSkyDad.AF3.Arduino/src/EEPROM_AF3.cpp:85-94 | Field offsets increase in write order. |
| Persist.WriteFields | DeepSkyDad.AF3.Arduino/src/EEPROM_AF3.cpp:85-94 | The first k differential configuration writes keep the EEPROM size. Their content is `Persist.WriteFieldsImage`. |
| Persist.WriteConfig | DeepSkyDad.AF3.Arduino/src/EEPROM_AF3.cpp:85-94 | The ten configuration writes keep the EEPROM size. Their content is `Persist.WriteConfigImage`, and their round trip is `Persist.ConfigRoundTrip`. |
| Persist.LoadConfig | DeepSkyDad.AF3.Arduino/src/EEPROM_AF3.cpp:40-49 | The boot read of the block replaces the ten settings only: position, target and checksum are kept. |
| Persist.LoadSlot | DeepSkyDad.AF3.Arduino/src/EEPROM_AF3.cpp:54-56 | Reading a slot replaces position, target and checksum only: the settings are kept. |
| Persist.SlotValid | DeepSkyDad.AF3.Arduino/src/EEPROM_AF3.cpp:58 | A slot validates when its stored checksum equals the one recomputed from it over the settings. It has no contract of its own; see `Persist.ZeroedSlotValidates` and `Persist.FirstValid`. |
| Persist.PrefixField | DeepSkyDad.AF3.Arduino/src/EEPROM_AF3.cpp:85-94 | Inside the bytes of the first k fields, field j < k sits at its offset and holds its encoding. |
| Persist.TryWriteFrontier | DeepSkyDad.AF3.Arduino/src/EEPROM_AF3.cpp:6-23 | A differential write just past an already-written prefix extends the prefix and keeps the rest. |
| Persist.WriteFieldsImage | DeepSkyDad.AF3.Arduino/src/EEPROM_AF3.cpp:85-94 | After the first k configuration writes, the first k fields hold the settings and nothing after them has changed. |
| Persist.WriteConfigImage | DeepSkyDad.AF3.Arduino/src/EEPROM_AF3.cpp:85-94 | After the ten configuration writes, the block holds the image of the settings and the position log is untouched. |
| Persist.ConfigStoredReads | DeepSkyDad.AF3.Arduino/src/EEPROM_AF3.cpp:40-49 | A stored block reads back field by field as the settings. The bool reads back as its byte. |
| Persist.StoredFieldReads | DeepSkyDad.AF3.Arduino/src/EEPROM_AF3.cpp:40-49 | One field of a stored block reads back as its value. |
| Persist.FieldAt | DeepSkyDad.AF3.Arduino/src/EEPROM_AF3.cpp:25-30 | A field whose bytes inside a stored image encode v reads back as v. |
| Persist.ConfigRoundTrip | DeepSkyDad.AF3.Arduino/src/EEPROM_AF3.cpp:40-94 | After the configuration writes, the block stores the settings and the boot read loads them back. Re-writing settings that are already stored changes nothing, not even the write counter. |
| Persist.WriteFieldsUnchanged | DeepSkyDad.AF3.Arduino/src/EEPROM_AF3.cpp:11-22 | Differential writes of fields that already hold their values change neither the EEPROM nor the write counter. |
| Persist.SlotIndex | DeepSkyDad.AF3.Arduino/src/EEPROM_AF3.cpp:60 | A valid cursor is the start of one of the 83 slots. |
| Persist.SlotAddrValid | DeepSkyDad.AF3.Arduino/src/EEPROM_AF3.cpp:52-60 | The address of slot k is a valid cursor whose index is k. |
| Persist.NextCursor | DeepSkyDad.AF3.Arduino/src/EEPROM_AF3.cpp:115-120 | The rotated cursor is again the start of a whole slot inside the EEPROM, and it differs from the old one. |
| Persist.NextCursorCycles | DeepSkyDad.AF3.Arduino/src/EEPROM_AF3.cpp:115-120 | Rotation moves from slot k to slot k+1 and wraps from the last slot to the first, so it cycles through all 83 slots. |
| Persist.SlotImage | DeepSkyDad.AF3.Arduino/src/EEPROM_AF3.cpp:124-127 | A slot image is 12 bytes. |
| Persist.WriteSlot | DeepSkyDad.AF3.Arduino/src/EEPROM_AF3.cpp:124-127 | The three slot writes keep the EEPROM size. |
| Persist.FirstValid | DeepSkyDad.AF3.Arduino/src/EEPROM_AF3.cpp:51-64 | The scan result is the first slot that validates against the settings. If it finds none, no slot validates. |
| Persist.Seal | DeepSkyDad.AF3.Arduino/src/EEPROM_AF3.cpp:78 | The sealed state carries its own checksum and differs from the input in the checksum only. |
| Persist.CommitSlot | DeepSkyDad.AF3.Arduino/src/EEPROM_AF3.cpp:96-127 | The position-log half of a commit keeps the EEPROM size and leaves the cursor on a whole slot. |
| Persist.Commit | DeepSkyDad.AF3.Arduino/src/EEPROM_AF3.cpp:72-128 | After a commit the cursor is on a whole slot inside the EEPROM. A reset commit puts it on the first slot. |
| Persist.Load | DeepSkyDad.AF3.Arduino/src/EEPROM_AF3.cpp:37-64 | A successful boot read gives a cursor on a whole slot and a state whose checksum validates. |
| Persist.WriteSlotImage | DeepSkyDad.AF3.Arduino/src/EEPROM_AF3.cpp:124-127 | The three differential slot writes equal one write of the slot image. |
| Persist.SlotStoredReads | DeepSkyDad.AF3.Arduino/src/EEPROM_AF3.cpp:102-108 | A slot holding the image of s reads back as the triple of s. |
| Persist.LoadSlotConfig | DeepSkyDad.AF3.Arduino/src/EEPROM_AF3.cpp:54-58 | Whether a slot loads and validates depends only on the settings of the base state. |
| Persist.LoadStored | DeepSkyDad.AF3.Arduino/src/EEPROM_AF3.cpp:40-58 | An EEPROM whose block stores the settings of s and whose slot holds the triple of s loads back as exactly s. |
| Persist.WriteAbove | DeepSkyDad.AF3.Arduino/src/EEPROM_AF3.cpp:124-127 | Slot writes leave the configuration block alone. |
| Persist.ReadPastConfig | DeepSkyDad.AF3.Arduino/src/EEPROM_AF3.cpp:85-94 | The configuration writes change no field of the position log. |
| Persist.LoadConfigStored | DeepSkyDad.AF3.Arduino/src/EEPROM_AF3.cpp:40-49 | A stored block loads as its settings. |
| Persist.WriteSlotStores | DeepSkyDad.AF3.Arduino/src/EEPROM_AF3.cpp:124-127 | A slot write keeps a stored configuration and leaves the slot holding the image. |
| Persist.InvalidateKeepsConfig | DeepSkyDad.AF3.Arduino/src/EEPROM_AF3.cpp:110-113 | Zeroing the old slot's checksum keeps the configuration. |
| Persist.CommitStores | DeepSkyDad.AF3.Arduino/src/EEPROM_AF3.cpp:72-128 | After a commit, the block stores the settings and the slot at the new cursor holds the sealed triple. A boot that reads that slot recovers the sealed state exactly. |
| Persist.CommitKeepsOthers | DeepSkyDad.AF3.Arduino/src/EEPROM_AF3.cpp:96-127 | A commit changes no field of the position log outside the old slot and the new slot. |
| Persist.WriteSlotUnchanged | DeepSkyDad.AF3.Arduino/src/EEPROM_AF3.cpp:124-127 | Writing a slot that already holds the triple changes nothing. |
| Persist.SlotHoldsPastConfig | DeepSkyDad.AF3.Arduino/src/EEPROM_AF3.cpp:102-108 | The comparison with the stored triple sees through the configuration writes. |
| Persist.CommitStays | DeepSkyDad.AF3.Arduino/src/EEPROM_AF3.cpp:102-127 | When the slot at the cursor already holds the sealed triple, the cursor stays and only the configuration writes can change the EEPROM. |
| Persist.CommitRotates | DeepSkyDad.AF3.Arduino/src/EEPROM_AF3.cpp:108-121 | Otherwise the old slot's checksum reads 0 afterwards and the cursor moves to the next slot. |
| Persist.CommitKeepsZeroedBehind | DeepSkyDad.AF3.Arduino/src/EEPROM_AF3.cpp:96-127 | A commit preserves the invariant that every slot before the cursor has a zeroed checksum. |
| Persist.ZeroedBehindWhenStaying | DeepSkyDad.AF3.Arduino/src/EEPROM_AF3.cpp:124-127 | The zeroed prefix survives a commit that stays on its slot. |
| Persist.ZeroedBehindWhenRotating | DeepSkyDad.AF3.Arduino/src/EEPROM_AF3.cpp:108-121 | The zeroed prefix survives, and grows with, a rotating commit. |
| Persist.ZeroedBehindExtends | DeepSkyDad.AF3.Arduino/src/EEPROM_AF3.cpp:110-116 | Zeroing the slot at the cursor and moving on extends the zeroed prefix by one slot. |
| Persist.ZeroedSlotKept | DeepSkyDad.AF3.Arduino/src/EEPROM_AF3.cpp:96-127 | A zeroed checksum behind both cursors is not touched by the commit. |
| Persist.CommitTwiceIsNoop | DeepSkyDad.AF3.Arduino/src/EEPROM_AF3.cpp:72-128 | Committing again with nothing changed writes nothing: the EEPROM, the write counter and the cursor stay. This holds both for the original state and for the sealed state the object holds after the first commit. |
| Persist.CommitSealed | DeepSkyDad.AF3.Arduino/src/EEPROM_AF3.cpp:78 | Sealing twice is sealing once, so committing the sealed state a commit leaves behind is committing the original state. |
| Persist.FirstValidFinds | DeepSkyDad.AF3.Arduino/src/EEPROM_AF3.cpp:52-63 | The scan stops at the first valid slot. |
| Persist.LoadFindsSealed | DeepSkyDad.AF3.Arduino/src/EEPROM_AF3.cpp:37-64 | An EEPROM holding sealed s in its block and its slot at c, with no earlier valid slot, boots into s at c. |
| Persist.NoneValidBeforeConfig | DeepSkyDad.AF3.Arduino/src/EEPROM_AF3.cpp:52-58 | Whether earlier slots validate depends only on the settings. |
| Persist.BootAfterCommit | DeepSkyDad.AF3.Arduino/src/EEPROM_AF3.cpp:37-128 | A boot after a commit recovers the sealed state and the cursor, as long as no earlier slot validates against the committed settings. |
| Persist.BootAfterReset | DeepSkyDad.AF3.Arduino/src/EEPROM_AF3.cpp:130-134 | After a reset commit, a boot recovers the sealed state from the first slot, whatever the EEPROM held before. |
| Persist.ZeroedSlotValidates | DeepSkyDad.AF3.Arduino/src/EEPROM_AF3.cpp:110-113 | An invalidated slot still validates if and only if its recomputed checksum is 0. |
| Persist.ZeroedBehindNoneValid | DeepSkyDad.AF3.Arduino/src/EEPROM_AF3.cpp:51-64 | With every slot before the cursor zeroed, none of them validates unless the checksum recomputed from it is 0. |
| Persist.BootAfterZeroedCommit | DeepSkyDad.AF3.Arduino/src/EEPROM_AF3.cpp:37-128 | From a memory whose slots before the cursor are zeroed, a boot after a commit recovers the sealed state and the new cursor, unless an earlier slot recomputes to checksum 0. |
| Persist.ZeroedSlotRevalidates | DeepSkyDad.AF3.Arduino/src/EEPROM_AF3.cpp:110-113 | Under settings the setters accept, a zeroed slot holding position 18996 still validates, so invalidation by zeroing can fail. |
| Persist.BlankLoadsZeroState | DeepSkyDad.AF3.Arduino/src/EEPROM_AF3.cpp:37-69 | An all-zero EEPROM boots into the all-zero state from the first slot, not into the defaults, and those settings violate the setter ranges. |
| Persist.BlankConfig | DeepSkyDad.AF3.Arduino/src/EEPROM_AF3.cpp:40-49 | An all-zero configuration block loads as all-zero settings. |
| Persist.BlankFirstSlot | DeepSkyDad.AF3.Arduino/src/EEPROM_AF3.cpp:54-56 | An all-zero first slot loads as the all-zero state. |
| Persist.ErasedFallsBackToDefaults | DeepSkyDad.AF3.Arduino/src/EEPROM_AF3.cpp:37-69 | An erased EEPROM (all cells 0xFF) has no valid slot, so the boot resets to the defaults. |
| Persist.ErasedConfig | DeepSkyDad.AF3.Arduino/src/EEPROM_AF3.cpp:40-49 | An erased block loads as settings with every bit set, the bool as true. |
| Persist.ErasedSlotInvalid | DeepSkyDad.AF3.Arduino/src/EEPROM_AF3.cpp:54-58 | No slot of an erased EEPROM validates. |
| Debounce.Due | DeepSkyDad.AF3.Arduino/src/EEPROM_AF3.cpp:144-154 | `since + delay < now` with the sum wrapping at 2^32. It has no contract of its own; the `Debounce` lemmas below relate it to the wrap-safe `Elapsed`. |
| Debounce.DueWithoutOverflow | DeepSkyDad.AF3.Arduino/src/EEPROM_AF3.cpp:144-154 | Without overflow of the deadline, the check fires if and only if more than the delay has passed since the start. |
| Debounce.DueEarlyWhenDeadlineOverflows | DeepSkyDad.AF3.Arduino/src/EEPROM_AF3.cpp:144-154 | When start plus delay overflows 32 bits, the check fires at the very start. |
| Debounce.DueStallsAfterClockWraps | DeepSkyDad.AF3.Arduino/src/EEPROM_AF3.cpp:144-154 | After the clock has wrapped below the start, the check does not fire. |
| Debounce.Elapsed | DeepSkyDad.AF3.Arduino/src/EEPROM_AF3.cpp:144-154 | The wrap-safe elapsed time, added to the start modulo 2^32, gives the current time. |
| Debounce.DueAgreesWithElapsed | DeepSkyDad.AF3.Arduino/src/EEPROM_AF3.cpp:144-154 | Without wrap, the check agrees with the wrap-safe "elapsed exceeds delay". |
| Debounce.StallExample | DeepSkyDad.AF3.Arduino/src/EEPROM_AF3.cpp:144 | A concrete case: 4112 ms have passed across the wrap, the period is 1000 ms, and the check does not fire. |
| Storage.EepromAF3.ReadProperty | DeepSkyDad.AF3.Arduino/src/EEPROM_AF3.cpp:25-30 | The byte loop returns the field's stored value and advances the address by its width. |
| Storage.EepromAF3.TryWriteProperty | DeepSkyDad.AF3.Arduino/src/EEPROM_AF3.cpp:6-23 | It writes and counts if and only if the stored value differs. The new EEPROM and counter are `TryWrite` of the old ones, and the address advances by the width. |
| Storage.EepromAF3.WriteConfiguration | DeepSkyDad.AF3.Arduino/src/EEPROM_AF3.cpp:82-94 | The ten field writes leave the EEPROM and counter as `WriteConfig` of the old ones. |
| Storage.EepromAF3.WriteField | DeepSkyDad.AF3.Arduino/src/EEPROM_AF3.cpp:85-94 | Each field write extends the configuration writes by field k and advances the address to the next field. |
| Storage.EepromAF3.ReadConfiguration | DeepSkyDad.AF3.Arduino/src/EEPROM_AF3.cpp:39-49 | The ten reads leave the state as `LoadConfig` of the EEPROM. |
| Storage.EepromAF3.RotateSlot | DeepSkyDad.AF3.Arduino/src/EEPROM_AF3.cpp:100-122 | If the slot holds the triple, nothing changes. Otherwise the old checksum is differentially zeroed and the cursor becomes `NextCursor`. |
| Storage.EepromAF3.WriteSlidingState | DeepSkyDad.AF3.Arduino/src/EEPROM_AF3.cpp:124-127 | The three slot writes leave the EEPROM as `WriteSlot` at the cursor. |
| Storage.EepromAF3.WriteEeprom | DeepSkyDad.AF3.Arduino/src/EEPROM_AF3.cpp:72-128 | The state becomes the sealed state. The EEPROM, counter and cursor are `Commit` of the old ones. The prologue clears the dirty flag and the idle timer and restarts the check clock. If every slot before the cursor was zeroed, that still holds afterwards. |
| Storage.EepromAF3.ResetEeprom | DeepSkyDad.AF3.Arduino/src/EEPROM_AF3.cpp:130-134 | A reset commit of the defaults. |
| Storage.EepromAF3.ReadSlidingState | DeepSkyDad.AF3.Arduino/src/EEPROM_AF3.cpp:54-56 | The three reads replace the slot fields of the state with `LoadSlot` and advance by one slot. |
| Storage.EepromAF3.ScanSlots | DeepSkyDad.AF3.Arduino/src/EEPROM_AF3.cpp:51-64 | The loop finds exactly `FirstValid`: the state and cursor of the first valid slot. If there is none, it reports not found and leaves the cursor and settings alone. |
| Storage.EepromAF3.ReadStoredState | DeepSkyDad.AF3.Arduino/src/EEPROM_AF3.cpp:39-64 | It finds a slot if and only if `Load` succeeds, and then the state and cursor are `Load`'s. |
| Storage.EepromAF3.ReadEeprom | DeepSkyDad.AF3.Arduino/src/EEPROM_AF3.cpp:37-70 | When `Load` succeeds, state and cursor are what it gives and nothing else changes. Otherwise the defaults are committed as a reset. |
| Storage.EepromAF3.Init | DeepSkyDad.AF3.Arduino/src/EEPROM_AF3.cpp:136-140 | Boots as `ReadEeprom` does, then starts the check clock at now. |
| Storage.EepromAF3.HandleEeprom | DeepSkyDad.AF3.Arduino/src/EEPROM_AF3.cpp:142-159 | It commits exactly in two cases: the period is due and the state is dirty, or the period is not due and the idle deadline has passed since a position change. Otherwise nothing but the check clock changes, and that only when the period is due. |
| Storage.EepromAF3.ResetToDefaults | DeepSkyDad.AF3.Arduino/src/EEPROM_AF3.cpp:161-164 | A reset commit of the defaults, after which any boot recovers the sealed defaults at the first slot. |
| Storage.EepromAF3.GetPosition | DeepSkyDad.AF3.Arduino/src/EEPROM_AF3.cpp:202-205 | In range, the position is at most maxPosition. |
| Storage.EepromAF3.SetPosition | DeepSkyDad.AF3.Arduino/src/EEPROM_AF3.cpp:206-219 | The position becomes the value clamped to maxPosition and the idle timer restarts. Settings, dirty flag and cursor are kept, and ranges are preserved. |
| Storage.EepromAF3.SyncPosition | DeepSkyDad.AF3.Arduino/src/EEPROM_AF3.cpp:220-234 | Position and target both become the clamped value and the state is marked dirty. |
| Storage.EepromAF3.GetTargetPosition | DeepSkyDad.AF3.Arduino/src/EEPROM_AF3.cpp:235-238 | In range, the target is at most maxPosition. |
| Storage.EepromAF3.SetTargetPosition | DeepSkyDad.AF3.Arduino/src/EEPROM_AF3.cpp:239-255 | It succeeds if and only if the distance from the position is at most maxMovement. On success the target becomes the value clamped to maxPosition and the idle timer restarts; on refusal nothing changes. |
| Storage.EepromAF3.GetMaxPosition | DeepSkyDad.AF3.Arduino/src/EEPROM_AF3.cpp:256-259 | Under valid settings, the limit is at least 10000. |
| Storage.EepromAF3.SetMaxPosition | DeepSkyDad.AF3.Arduino/src/EEPROM_AF3.cpp:260-273 | The limit becomes the value floored at 10000, and position and target are pulled under it. The state is marked dirty and left in range. |
| Storage.EepromAF3.GetMaxMovement | DeepSkyDad.AF3.Arduino/src/EEPROM_AF3.cpp:274-277 | Under valid settings, it is at least 1000. |
| Storage.EepromAF3.SetMaxMovement | DeepSkyDad.AF3.Arduino/src/EEPROM_AF3.cpp:278-285 | maxMovement becomes the value floored at 1000, and the state is marked dirty. |
| Storage.EepromAF3.GetStepMode | DeepSkyDad.AF3.Arduino/src/EEPROM_AF3.cpp:287-290 | Under valid settings, it is one of the nine step codes. |
| Storage.EepromAF3.SetStepMode | DeepSkyDad.AF3.Arduino/src/EEPROM_AF3.cpp:291-301 | It accepts if and only if the value is one of the nine step codes; then it stores the value and marks the state dirty. Otherwise nothing changes. |
| Storage.EepromAF3.GetStepModeManual | DeepSkyDad.AF3.Arduino/src/EEPROM_AF3.cpp:302-305 | Under valid settings, it is one of the nine step codes. |
| Storage.EepromAF3.SetStepModeManual | DeepSkyDad.AF3.Arduino/src/EEPROM_AF3.cpp:306-316 | As `SetStepMode`, for the manual step mode. |
| Storage.EepromAF3.GetSpeedMode | DeepSkyDad.AF3.Arduino/src/EEPROM_AF3.cpp:317-320 | Returns the code cast to a byte, which for a valid speed code is the code itself. |
| Storage.EepromAF3.SetSpeedMode | DeepSkyDad.AF3.Arduino/src/EEPROM_AF3.cpp:321-331 | It accepts if and only if the value is one of the five speed codes; then it stores the value and marks the state dirty. Otherwise nothing changes. |
| Storage.EepromAF3.SetSettleBufferMs | DeepSkyDad.AF3.Arduino/src/EEPROM_AF3.cpp:332-340 | Any value is stored and reads back through the getter, and the state is marked dirty. |
| Storage.EepromAF3.SetReverseDirection | DeepSkyDad.AF3.Arduino/src/EEPROM_AF3.cpp:341-349 | The flag is stored and reads back through the getter, and the state is marked dirty. |
| Storage.EepromAF3.SetIdleEepromWriteMs | DeepSkyDad.AF3.Arduino/src/EEPROM_AF3.cpp:350-358 | Any value is stored and reads back through the getter, and the state is marked dirty. |
| Storage.EepromAF3.GetMotorIMoveMultiplier | DeepSkyDad.AF3.Arduino/src/EEPROM_AF3.cpp:359-362 | Under valid settings, it lies in [1, 100]. |
| Storage.EepromAF3.SetMotorIMoveMultiplier | DeepSkyDad.AF3.Arduino/src/EEPROM_AF3.cpp:363-376 | The value is clamped into [1, 100] and stored, and the state is marked dirty. |
| Storage.EepromAF3.GetMotorIHoldMultiplier | DeepSkyDad.AF3.Arduino/src/EEPROM_AF3.cpp:377-380 | Under valid settings, it lies in [1, 100]. |
| Storage.EepromAF3.SetMotorIHoldMultiplier | DeepSkyDad.AF3.Arduino/src/EEPROM_AF3.cpp:381-394 | The value is clamped into [1, 100] and stored, and the state is marked dirty. |
| Storage.Clamp100 | DeepSkyDad.AF3.Arduino/src/EEPROM_AF3.cpp:365-372 | The result lies in [1, 100]. Values inside are kept, values below become 1 and values above become 100. |

## Left out

- Storage.EepromAF3.constructor: the header's member initialisers are not part of this model. The constructor assumes the defaults as the state, a cursor on the first slot, clean timers and a zero write counter. `Init`'s result does not depend on these values: a successful `Load` overwrites every field of the state and the cursor, and otherwise the reset commit sets both.
- `debug()` writes to the serial port only; it is not modelled.
- The EEPROM driver calls (`eeprom_read_block`, `eeprom_write_block`) are modelled as reads and writes of the byte array. Power loss in the middle of a write, and the resulting torn fields, is not modelled.
- `millis()` is a `now` parameter. Each operation reads one `now`, so two reads of the clock within one call see the same time.
- The configuration header `EEPROM_AF3.h` and `General_AF3.h` are not part of this model. Its constants are assumed as listed above, and the defaults are a constant that satisfies every setter range.
- The branches `value < 0` of `setPosition` and `syncPosition` test an unsigned value and can never be taken. The model has no such branch.
- The write counter `_propertyWritesSinceBoot` is an unbounded natural number; the wrap-around of its fixed-width C++ type is not modelled.
- A stored `reverseDirection` byte other than 0 reads as true. The model reads it that way and does not model how the C++ `bool` holds such a byte.
- Storage.EepromAF3.GetSettleBufferMs, Storage.EepromAF3.GetReverseDirection, Storage.EepromAF3.GetIdleEepromWriteMs: these only return a field. They carry no contract of their own; the matching setters state that the stored value reads back through them.
- Storage.EepromAF3.ReadEeprom, Storage.EepromAF3.Init: the boot does not re-establish the setter ranges, because the settings are loaded from raw memory exactly as the code does. The ranges are preserved by the setters only.
