/** The controller state, its checksum, the legal setting values and the
    persistent layout. The constants belong to headers that are not part of
    this model; the values below are assumptions, which the proofs use
    directly. `LayoutFits` states the relations between them that the layout
    needs: back-to-back fields, a block of 25 bytes, whole slots. */
module Layout {
  import opened Codec

  // Field widths in bytes (`sizeof` of the C++ field types on an 8-bit AVR).
  const U32_SIZE: nat := 4
  const ENUM_SIZE: nat := 2
  const BOOL_SIZE: nat := 1
  const U8_SIZE: nat := 1

  // Configuration block: the ten rarely-changing fields, in their fixed order,
  // each starting where the previous one ends (see `LayoutFits`).
  const MAX_POSITION_AT: nat := 0
  const MAX_MOVEMENT_AT: nat := 4
  const STEP_MODE_AT: nat := 8
  const STEP_MODE_MANUAL_AT: nat := 10
  const SPEED_MODE_AT: nat := 12
  const SETTLE_BUFFER_MS_AT: nat := 14
  const IDLE_EEPROM_WRITE_MS_AT: nat := 18
  const REVERSE_DIRECTION_AT: nat := 22
  const MOTOR_I_MOVE_AT: nat := 23
  const MOTOR_I_HOLD_AT: nat := 24
  /** `_configurationSize`: the position log starts right after the block. */
  const CONFIGURATION_SIZE: nat := 25

  /** `_slidingSize`: one slot holds position, targetPosition, checksum. */
  const SLIDING_SIZE: nat := 12
  /** Offset of the checksum inside a slot: it is the slot's last field. */
  const SLOT_CHECKSUM_AT: nat := 8
  const EEPROM_SIZE: nat := 1024
  /** `_slidingAddressCount`: how many whole slots fit after the block. */
  const SLIDING_ADDRESS_COUNT: nat := 83

  const EEPROM_CHECK_PERIOD_MS: u32 := 1000

  // STEP_MODE codes: the step division.
  const STP1: u16 := 1
  const STP2: u16 := 2
  const STP4: u16 := 4
  const STP8: u16 := 8
  const STP16: u16 := 16
  const STP32: u16 := 32
  const STP64: u16 := 64
  const STP128: u16 := 128
  const STP256: u16 := 256

  // SPEED_MODE codes.
  const VERYSLOW: u16 := 1
  const SLOW: u16 := 2
  const MEDIUM: u16 := 3
  const FAST: u16 := 4
  const VERYFAST: u16 := 5

  predicate IsStepMode(v: int) {
    v == STP1 || v == STP2 || v == STP4 || v == STP8 || v == STP16 ||
    v == STP32 || v == STP64 || v == STP128 || v == STP256
  }

  predicate IsSpeedMode(v: int) {
    v == VERYSLOW || v == SLOW || v == MEDIUM || v == FAST || v == VERYFAST
  }

  /** `EEPROMState`. Enum fields hold raw codes: the boot read copies whatever
      bytes the EEPROM holds, legal or not. */
  datatype State = State(
    position: u32,
    targetPosition: u32,
    maxPosition: u32,
    maxMovement: u32,
    stepMode: u16,
    stepModeManual: u16,
    speedMode: u16,
    settleBufferMs: u32,
    idleEepromWriteMs: u32,
    reverseDirection: bool,
    motorIMoveMultiplier: u8,
    motorIHoldMultiplier: u8,
    checksum: u32)

  function BoolByte(b: bool): u8 {
    if b then 1 else 0
  }

  /** `_calculateChecksum`: the sum, wrapping at 2^32, of every field except
      targetPosition and the checksum, the three enum codes cast to
      `unsigned char` first. */
  function Checksum(s: State): u32 {
    (s.position + s.maxPosition + s.maxMovement
     + s.stepMode % 0x100 + s.stepModeManual % 0x100 + s.speedMode % 0x100
     + s.settleBufferMs + s.idleEepromWriteMs + BoolByte(s.reverseDirection)
     + s.motorIMoveMultiplier + s.motorIHoldMultiplier) % 0x1_0000_0000
  }

  /** The range invariant of the positions. */
  predicate InRange(s: State) {
    s.position <= s.maxPosition && s.targetPosition <= s.maxPosition
  }

  /** The constraints the validated setters enforce on the settings. */
  predicate SettingsValid(s: State) {
    s.maxPosition >= 10000 && s.maxMovement >= 1000 &&
    IsStepMode(s.stepMode) && IsStepMode(s.stepModeManual) && IsSpeedMode(s.speedMode) &&
    1 <= s.motorIMoveMultiplier <= 100 && 1 <= s.motorIHoldMultiplier <= 100
  }

  /** `_stateDefaults` (the values are assumptions). */
  const DEFAULTS: State := State(
    position := 0, targetPosition := 0, maxPosition := 1000000, maxMovement := 5000,
    stepMode := STP2, stepModeManual := STP4, speedMode := MEDIUM,
    settleBufferMs := 0, idleEepromWriteMs := 120000, reverseDirection := false,
    motorIMoveMultiplier := 75, motorIHoldMultiplier := 25, checksum := 0)

  /** The assumed relations between the layout constants. */
  lemma LayoutFits()
    ensures MAX_MOVEMENT_AT == MAX_POSITION_AT + U32_SIZE
    ensures STEP_MODE_AT == MAX_MOVEMENT_AT + U32_SIZE
    ensures STEP_MODE_MANUAL_AT == STEP_MODE_AT + ENUM_SIZE
    ensures SPEED_MODE_AT == STEP_MODE_MANUAL_AT + ENUM_SIZE
    ensures SETTLE_BUFFER_MS_AT == SPEED_MODE_AT + ENUM_SIZE
    ensures IDLE_EEPROM_WRITE_MS_AT == SETTLE_BUFFER_MS_AT + U32_SIZE
    ensures REVERSE_DIRECTION_AT == IDLE_EEPROM_WRITE_MS_AT + U32_SIZE
    ensures MOTOR_I_MOVE_AT == REVERSE_DIRECTION_AT + BOOL_SIZE
    ensures MOTOR_I_HOLD_AT == MOTOR_I_MOVE_AT + U8_SIZE
    ensures CONFIGURATION_SIZE == MOTOR_I_HOLD_AT + U8_SIZE
    ensures SLIDING_SIZE == 3 * U32_SIZE && SLOT_CHECKSUM_AT == SLIDING_SIZE - U32_SIZE
    ensures SLIDING_ADDRESS_COUNT == (EEPROM_SIZE - CONFIGURATION_SIZE) / SLIDING_SIZE
    ensures CONFIGURATION_SIZE + SLIDING_ADDRESS_COUNT * SLIDING_SIZE <= EEPROM_SIZE
    ensures SLIDING_ADDRESS_COUNT >= 2
    ensures InRange(DEFAULTS) && SettingsValid(DEFAULTS)
  {
  }

  /** targetPosition and the stored checksum do not enter the checksum. */
  lemma ChecksumIgnoresTarget(s: State, target: u32, sum: u32)
    ensures Checksum(s.(targetPosition := target, checksum := sum)) == Checksum(s)
  {
  }

  /** A step-mode code is only seen modulo 256: codes 256 apart collide. */
  lemma ChecksumTruncatesStepMode(s: State)
    requires s.stepMode < 0x100
    ensures Checksum(s.(stepMode := s.stepMode + 0x100)) == Checksum(s)
  {
  }

  /** Changing the position alone always changes the checksum. */
  lemma ChecksumDetectsPosition(s: State, p: u32)
    ensures Checksum(s.(position := p)) == Checksum(s) <==> p == s.position
  {
    var rest := s.maxPosition + s.maxMovement
      + s.stepMode % 0x100 + s.stepModeManual % 0x100 + s.speedMode % 0x100
      + s.settleBufferMs + s.idleEepromWriteMs + BoolByte(s.reverseDirection)
      + s.motorIMoveMultiplier + s.motorIHoldMultiplier;
    assert Checksum(s.(position := p)) == (rest + p) % 0x1_0000_0000;
    assert Checksum(s) == (rest + s.position) % 0x1_0000_0000;
    AddModInjective(rest, p, s.position);
  }

  /** Adding two different 32-bit values to the same sum gives different
      results modulo 2^32. */
  lemma AddModInjective(k: nat, p: u32, q: u32)
    ensures (k + p) % 0x1_0000_0000 == (k + q) % 0x1_0000_0000 <==> p == q
  {
    var r := k % 0x1_0000_0000;
    assert (k + p) % 0x1_0000_0000 == (r + p) % 0x1_0000_0000;
    assert (k + q) % 0x1_0000_0000 == (r + q) % 0x1_0000_0000;
  }
}
