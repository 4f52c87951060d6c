/** `EEPROM_AF3`: the storage manager object. Its fields are updated in place
    by the methods below, each of which is tied to the value-level model in
    `Persist` (commit, boot) and `Memory` (differential write). */
module Storage {
  import opened Codec
  import opened Memory
  import opened Layout
  import opened Persist
  import opened Debounce

  class EepromAF3 {
    /** The EEPROM cells. */
    const mem: array<byte>
    /** `_state`: the in-memory controller state. */
    var state: State
    var isConfigDirty: bool
    var lastPositionChangeMs: u32
    var lastEepromCheckMs: u32
    /** `_slidingCurrentAddress`: start of the active position-log slot. */
    var slidingCurrentAddress: nat
    var propertyWritesSinceBoot: nat

    ghost predicate Valid()
      reads this`slidingCurrentAddress
    {
      mem.Length == EEPROM_SIZE && ValidCursor(slidingCurrentAddress)
    }

    /** The EEPROM together with the write counter, as the value model sees it. */
    ghost function Image(): Eeprom
      reads this`propertyWritesSinceBoot, mem
    {
      Eeprom(mem[..], propertyWritesSinceBoot)
    }

    /** A `_writeEeprom(isReset)` of the state s0 happened between the old and
        the new heap: the new state is s0 sealed, memory and cursor are what
        `Commit` says, and the prologue reset the timers and the dirty flag. */
    twostate predicate CommittedFrom(s0: State, isReset: bool, now: u32)
      reads this, mem
      requires mem.Length == EEPROM_SIZE && ValidCursor(old(slidingCurrentAddress))
    {
      state == Seal(s0) &&
      (Image(), slidingCurrentAddress) == Commit(old(Image()), s0, old(slidingCurrentAddress), isReset) &&
      !isConfigDirty && lastPositionChangeMs == 0 && lastEepromCheckMs == now
    }

    /** The fields the setters never touch. */
    twostate predicate LogKept()
      reads this
    {
      slidingCurrentAddress == old(slidingCurrentAddress) &&
      propertyWritesSinceBoot == old(propertyWritesSinceBoot) &&
      lastEepromCheckMs == old(lastEepromCheckMs)
    }

    /** A manager over the given EEPROM cells, before `init`. */
    constructor (cells: array<byte>)
      requires cells.Length == EEPROM_SIZE
      ensures mem == cells && Valid()
      ensures state == DEFAULTS && !isConfigDirty
      ensures lastPositionChangeMs == 0 && lastEepromCheckMs == 0
      ensures slidingCurrentAddress == CONFIGURATION_SIZE && propertyWritesSinceBoot == 0
    {
      mem := cells;
      state := DEFAULTS;
      isConfigDirty := false;
      lastPositionChangeMs := 0;
      lastEepromCheckMs := 0;
      slidingCurrentAddress := CONFIGURATION_SIZE;
      propertyWritesSinceBoot := 0;
    }

    /** `_readProperty`: the w-byte field at address, copied out byte by byte
        and assembled least significant byte first; the address advances by w. */
    method ReadProperty(address: nat, w: nat) returns (v: nat, next: nat)
      requires address + w <= mem.Length
      ensures v == Read(mem[..], address, w) && v < Pow256(w)
      ensures next == address + w
    {
      v := 0;
      var i := w;
      while i > 0
        invariant 0 <= i <= w
        invariant v == Read(mem[..], address + i, w - i)
      {
        i := i - 1;
        v := mem[address + i] + 256 * v;
      }
      next := address + w;
    }

    /** `_tryWriteProperty`: the field is written, and the write counted, only
        when the stored value differs; the address advances by w either way,
        and afterwards the field holds value. */
    method TryWriteProperty(address: nat, value: nat, w: nat) returns (written: bool, next: nat)
      requires address + w <= mem.Length && value < Pow256(w)
      modifies this`propertyWritesSinceBoot, mem
      ensures next == address + w
      ensures written <==> Read(old(mem[..]), address, w) != value
      ensures Image() == TryWrite(old(Image()), address, value, w)
    {
      var current;
      current, next := ReadProperty(address, w);
      written := current != value;
      if written {
        var bs := Encode(value, w);
        ghost var before := mem[..];
        forall i | 0 <= i < w {
          mem[address + i] := bs[i];
        }
        forall j | 0 <= j < mem.Length ensures mem[..][j] == Write(before, address, bs)[j] {
        }
        assert mem[..] == Write(before, address, bs);
        propertyWritesSinceBoot := propertyWritesSinceBoot + 1;
      }
    }

    /** The configuration half of `_writeEeprom`: the ten fields, written
        differentially in their fixed order, the address running on from one
        field to the next. */
    method WriteConfiguration()
      requires mem.Length == EEPROM_SIZE
      modifies this`propertyWritesSinceBoot, mem
      ensures Image() == WriteConfig(old(Image()), state)
    {
      var s := state;
      ghost var e0 := Image();
      var address := MAX_POSITION_AT;
      address := WriteField(e0, s, 0, address);  // maxPosition
      address := WriteField(e0, s, 1, address);  // maxMovement
      address := WriteField(e0, s, 2, address);  // stepMode
      address := WriteField(e0, s, 3, address);  // stepModeManual
      address := WriteField(e0, s, 4, address);  // speedMode
      address := WriteField(e0, s, 5, address);  // settleBufferMs
      address := WriteField(e0, s, 6, address);  // idleEepromWriteMs
      address := WriteField(e0, s, 7, address);  // reverseDirection
      address := WriteField(e0, s, 8, address);  // motorIMoveMultiplier
      address := WriteField(e0, s, 9, address);  // motorIHoldMultiplier
    }

    /** One `_tryWriteProperty` of the configuration block: field k of s,
        written over an image that holds the first k fields written from e0. */
    method WriteField(ghost e0: Eeprom, s: State, k: nat, address: nat) returns (next: nat)
      requires mem.Length == EEPROM_SIZE && |e0.bytes| == EEPROM_SIZE
      requires k < CONFIG_FIELDS && address == FieldOffset(k)
      requires Image() == WriteFields(e0, s, k)
      modifies this`propertyWritesSinceBoot, mem
      ensures Image() == WriteFields(e0, s, k + 1)
      ensures next == FieldOffset(k + 1)
    {
      var written;
      written, next := TryWriteProperty(address, FieldValue(s, k), FieldWidth(k));
    }

    /** The configuration half of `_readEeprom`: the ten fields read into
        the state at their fixed offsets. */
    method ReadConfiguration()
      requires mem.Length == EEPROM_SIZE
      modifies this`state
      ensures state == LoadConfig(mem[..], old(state))
    {
      Pow256Widths();
      var address := 0;
      var maxPosition, maxMovement, stepMode, stepModeManual, speedMode;
      var settleBufferMs, idleEepromWriteMs, reverseDirection, motorIMove, motorIHold;
      maxPosition, address := ReadProperty(address, U32_SIZE);
      maxMovement, address := ReadProperty(address, U32_SIZE);
      stepMode, address := ReadProperty(address, ENUM_SIZE);
      stepModeManual, address := ReadProperty(address, ENUM_SIZE);
      speedMode, address := ReadProperty(address, ENUM_SIZE);
      settleBufferMs, address := ReadProperty(address, U32_SIZE);
      idleEepromWriteMs, address := ReadProperty(address, U32_SIZE);
      reverseDirection, address := ReadProperty(address, BOOL_SIZE);
      motorIMove, address := ReadProperty(address, U8_SIZE);
      motorIHold, address := ReadProperty(address, U8_SIZE);
      state := state.(maxPosition := maxPosition, maxMovement := maxMovement,
        stepMode := stepMode, stepModeManual := stepModeManual, speedMode := speedMode,
        settleBufferMs := settleBufferMs, idleEepromWriteMs := idleEepromWriteMs,
        reverseDirection := reverseDirection != 0,
        motorIMoveMultiplier := motorIMove, motorIHoldMultiplier := motorIHold);
    }

    /** The rotation step of `_writeEeprom`: when the slot at the cursor does
        not already hold the triple of the state, zero its checksum field and
        move the cursor to the next slot, wrapping to the first. */
    method RotateSlot()
      requires Valid()
      modifies this`propertyWritesSinceBoot, this`slidingCurrentAddress, mem
      ensures Valid()
      ensures SlotHolds(old(mem[..]), old(slidingCurrentAddress), state) ==>
        Image() == old(Image()) && slidingCurrentAddress == old(slidingCurrentAddress)
      ensures !SlotHolds(old(mem[..]), old(slidingCurrentAddress), state) ==>
        Image() == TryWrite(old(Image()), old(slidingCurrentAddress) + SLOT_CHECKSUM_AT, 0, U32_SIZE) &&
        slidingCurrentAddress == NextCursor(old(slidingCurrentAddress))
    {
      Pow256Widths();
      ghost var m, c := mem[..], slidingCurrentAddress;
      var storedPosition, storedTargetPosition, storedChecksum, address, written;
      address := slidingCurrentAddress;
      storedPosition, address := ReadProperty(address, U32_SIZE);
      storedTargetPosition, address := ReadProperty(address, U32_SIZE);
      storedChecksum, address := ReadProperty(address, U32_SIZE);
      if storedPosition != state.position || storedTargetPosition != state.targetPosition
         || storedChecksum != state.checksum
      {
        assert !SlotHolds(m, c, state);
        address := slidingCurrentAddress + SLIDING_SIZE - U32_SIZE;
        written, address := TryWriteProperty(address, 0, U32_SIZE);
        slidingCurrentAddress := slidingCurrentAddress + SLIDING_SIZE;
        if slidingCurrentAddress + SLIDING_SIZE > EEPROM_SIZE {
          slidingCurrentAddress := CONFIGURATION_SIZE;
        }
        assert slidingCurrentAddress == NextCursor(c);
      } else {
        assert SlotHolds(m, c, state);
      }
    }

    /** The last step of `_writeEeprom`: the triple of the state, written
        differentially into the slot at the cursor. */
    method WriteSlidingState()
      requires Valid()
      modifies this`propertyWritesSinceBoot, mem
      ensures Image() == WriteSlot(old(Image()), slidingCurrentAddress, state)
    {
      Pow256Widths();
      var address, written;
      address := slidingCurrentAddress;
      written, address := TryWriteProperty(address, state.position, U32_SIZE);
      written, address := TryWriteProperty(address, state.targetPosition, U32_SIZE);
      written, address := TryWriteProperty(address, state.checksum, U32_SIZE);
    }

    /** `_writeEeprom(isReset)`: seal the state, write the configuration block
        differentially, then keep or rotate the position-log slot (the reset
        path goes straight to the first slot) and write the triple there. */
    method WriteEeprom(isReset: bool, now: u32)
      requires Valid()
      modifies this, mem
      ensures Valid()
      ensures CommittedFrom(old(state), isReset, now)
      ensures old(ZeroedBehind(mem[..], slidingCurrentAddress)) ==> ZeroedBehind(mem[..], slidingCurrentAddress)
    {
      ghost var e0, s0, c := Image(), state, slidingCurrentAddress;
      lastEepromCheckMs := now;
      isConfigDirty := false;
      lastPositionChangeMs := 0;
      state := state.(checksum := Checksum(state));

      WriteConfiguration();
      ghost var e1, c0 := Image(), slidingCurrentAddress;
      if isReset {
        slidingCurrentAddress := CONFIGURATION_SIZE;
      } else {
        RotateSlot();
      }
      WriteSlidingState();
      assert (Image(), slidingCurrentAddress) == CommitSlot(e1, state, c0, isReset);
      if ZeroedBehind(e0.bytes, c) {
        CommitKeepsZeroedBehind(e0, s0, c, isReset);
      }
    }

    /** `_resetEeprom`: the defaults become the state and are committed on
        the reset path, into the first slot. */
    method ResetEeprom(now: u32)
      requires Valid()
      modifies this, mem
      ensures Valid()
      ensures CommittedFrom(DEFAULTS, true, now)
    {
      state := DEFAULTS;
      WriteEeprom(true, now);
    }

    /** One step of the scan in `_readEeprom`: the triple of the slot at c
        read into the state, leaving the configuration fields as they are. */
    method ReadSlidingState(c: nat) returns (next: nat)
      requires mem.Length == EEPROM_SIZE && SlotFits(c)
      modifies this`state
      ensures state == LoadSlot(mem[..], c, old(state))
      ensures next == c + SLIDING_SIZE
    {
      Pow256Widths();
      var address := c;
      var position, target, sum;
      position, address := ReadProperty(address, U32_SIZE);
      target, address := ReadProperty(address, U32_SIZE);
      sum, address := ReadProperty(address, U32_SIZE);
      state := state.(position := position, targetPosition := target, checksum := sum);
      next := address;
    }

    /** The scan loop of `_readEeprom` over the configuration already read
        into the state: slots in ascending order, stopping at the first whose
        stored checksum equals the one recomputed from it. */
    method ScanSlots() returns (found: bool)
      requires Valid()
      modifies this`state, this`slidingCurrentAddress
      ensures var cfg := old(state);
        match FirstValid(mem[..], cfg, 0)
        case Some(k) => found && slidingCurrentAddress == SlotAddr(k) && state == LoadSlot(mem[..], SlotAddr(k), cfg)
        case None => !found && slidingCurrentAddress == old(slidingCurrentAddress) && SameConfig(state, cfg)
    {
      Pow256Widths();
      ghost var m, cfg := mem[..], state;
      var address := CONFIGURATION_SIZE;
      found := false;
      var i := 0;
      while i < SLIDING_ADDRESS_COUNT
        invariant 0 <= i <= SLIDING_ADDRESS_COUNT && address == SlotAddr(i)
        invariant SameConfig(state, cfg) && slidingCurrentAddress == old(slidingCurrentAddress)
        invariant FirstValid(m, cfg, 0) == FirstValid(m, cfg, i)
      {
        address := ReadSlidingState(address);
        assert state == LoadSlot(m, SlotAddr(i), cfg);
        if state.checksum == Checksum(state) {
          slidingCurrentAddress := address - SLIDING_SIZE;
          found := true;
          return;
        }
        i := i + 1;
      }
    }

    /** The reading half of `_readEeprom`: the configuration block, then the
        scan; found tells whether a slot validated, and then the state and the
        cursor are the ones a boot from these cells yields. */
    method ReadStoredState() returns (found: bool)
      requires Valid()
      modifies this`state, this`slidingCurrentAddress
      ensures found <==> Load(mem[..], old(state)).Some?
      ensures found ==> (state, slidingCurrentAddress) == Load(mem[..], old(state)).value
      ensures !found ==> slidingCurrentAddress == old(slidingCurrentAddress)
    {
      ReadConfiguration();
      ghost var cfg := state;
      assert cfg == LoadConfig(mem[..], old(state));
      found := ScanSlots();
    }

    /** `_readEeprom`: read the configuration block, then scan the position
        log; reset to the defaults when no slot validates. */
    method ReadEeprom(now: u32)
      requires Valid()
      modifies this, mem
      ensures Valid()
      ensures Load(old(mem[..]), old(state)).Some? ==>
        (state, slidingCurrentAddress) == Load(old(mem[..]), old(state)).value &&
        Image() == old(Image()) && isConfigDirty == old(isConfigDirty) &&
        lastPositionChangeMs == old(lastPositionChangeMs) && lastEepromCheckMs == old(lastEepromCheckMs)
      ensures Load(old(mem[..]), old(state)).None? ==> CommittedFrom(DEFAULTS, true, now)
    {
      var found := ReadStoredState();
      assert unchanged(mem);
      assert Image() == old(Image());
      if !found {
        ResetEeprom(now);
      }
    }

    /** `init`: boot from the EEPROM and start the periodic-check clock. */
    method Init(now: u32)
      requires Valid()
      modifies this, mem
      ensures Valid() && lastEepromCheckMs == now
      ensures Load(old(mem[..]), old(state)).Some? ==>
        (state, slidingCurrentAddress) == Load(old(mem[..]), old(state)).value &&
        Image() == old(Image()) && isConfigDirty == old(isConfigDirty) &&
        lastPositionChangeMs == old(lastPositionChangeMs)
      ensures Load(old(mem[..]), old(state)).None? ==> CommittedFrom(DEFAULTS, true, now)
    {
      ReadEeprom(now);
      ghost var e1 := Image();
      lastEepromCheckMs := now;
      assert Image() == e1;
    }

    /** `handleEeprom`: once per check period, commit if a setting changed
        and restart the period; otherwise commit when the position has been
        idle for `idleEepromWriteMs` since its last change. */
    method HandleEeprom(now: u32)
      requires Valid()
      modifies this, mem
      ensures Valid()
      ensures
        var periodic := Due(old(lastEepromCheckMs), EEPROM_CHECK_PERIOD_MS, now);
        var commits := if periodic then old(isConfigDirty)
          else old(lastPositionChangeMs) != 0 &&
               Due(old(lastPositionChangeMs), old(state.idleEepromWriteMs), now);
        (commits ==> CommittedFrom(old(state), false, now)) &&
        (!commits ==>
          state == old(state) && Image() == old(Image()) &&
          slidingCurrentAddress == old(slidingCurrentAddress) &&
          isConfigDirty == old(isConfigDirty) && lastPositionChangeMs == old(lastPositionChangeMs) &&
          lastEepromCheckMs == (if periodic then now else old(lastEepromCheckMs)))
    {
      if Due(lastEepromCheckMs, EEPROM_CHECK_PERIOD_MS, now) {
        if isConfigDirty {
          WriteEeprom(false, now);
        }
        lastEepromCheckMs := now;
      } else if lastPositionChangeMs != 0 {
        if Due(lastPositionChangeMs, state.idleEepromWriteMs, now) {
          WriteEeprom(false, now);
        }
      }
    }

    /** `resetToDefaults`: commit the defaults into the first slot; a boot
        that follows finds them there, whatever state it starts from. */
    method ResetToDefaults(now: u32)
      requires Valid()
      modifies this, mem
      ensures Valid()
      ensures CommittedFrom(DEFAULTS, true, now)
      ensures forall t :: Load(mem[..], t) == Some((Seal(DEFAULTS), CONFIGURATION_SIZE))
    {
      ghost var e0, c0 := Image(), slidingCurrentAddress;
      ResetEeprom(now);
      forall t ensures Load(mem[..], t) == Some((Seal(DEFAULTS), CONFIGURATION_SIZE)) {
        BootAfterReset(e0, DEFAULTS, c0, t);
      }
    }

    // -------------------------------------------------------------------
    // Accessors

    function GetPosition(): (r: u32)
      reads this
      ensures InRange(state) ==> r <= state.maxPosition
    {
      state.position
    }

    /** `setPosition`: clamp to maxPosition and start the idle timer; the
        change is not marked dirty. */
    method SetPosition(value: u32, now: u32)
      modifies this
      ensures state == old(state).(position := if value > old(state.maxPosition) then old(state.maxPosition) else value)
      ensures lastPositionChangeMs == now && isConfigDirty == old(isConfigDirty) && LogKept()
      ensures state.position <= state.maxPosition
      ensures old(InRange(state)) ==> InRange(state)
      ensures SameConfig(state, old(state))
    {
      var v := value;
      if v > state.maxPosition {
        v := state.maxPosition;
      }
      lastPositionChangeMs := now;
      state := state.(position := v);
    }

    /** `syncPosition`: position and target both become the clamped value and
        the change is marked dirty. */
    method SyncPosition(value: u32)
      modifies this
      ensures var v := if value > old(state.maxPosition) then old(state.maxPosition) else value;
        state == old(state).(position := v, targetPosition := v)
      ensures isConfigDirty && lastPositionChangeMs == old(lastPositionChangeMs) && LogKept()
      ensures InRange(state) && SameConfig(state, old(state))
    {
      var v := value;
      if v > state.maxPosition {
        v := state.maxPosition;
      }
      isConfigDirty := true;
      state := state.(targetPosition := v, position := v);
    }

    function GetTargetPosition(): (r: u32)
      reads this
      ensures InRange(state) ==> r <= state.maxPosition
    {
      state.targetPosition
    }

    /** `setTargetPosition`: refuse a move farther than maxMovement from the
        current position (changing nothing), otherwise clamp the target to
        maxPosition and start the idle timer. */
    method SetTargetPosition(value: u32, now: u32) returns (ok: bool)
      modifies this
      ensures var dist := if old(state.position) > value then old(state.position) - value else value - old(state.position);
        ok <==> dist <= old(state.maxMovement)
      ensures !ok ==> state == old(state) && lastPositionChangeMs == old(lastPositionChangeMs)
      ensures ok ==> lastPositionChangeMs == now
      ensures ok ==> state == old(state).(targetPosition := if value > old(state.maxPosition) then old(state.maxPosition) else value)
      ensures isConfigDirty == old(isConfigDirty) && LogKept()
      ensures old(InRange(state)) ==> InRange(state)
      ensures SameConfig(state, old(state))
    {
      var diff := if state.position > value then state.position - value else value - state.position;
      if diff > state.maxMovement {
        return false;
      }
      var v := value;
      if v > state.maxPosition {
        v := state.maxPosition;
      }
      lastPositionChangeMs := now;
      state := state.(targetPosition := v);
      return true;
    }

    function GetMaxPosition(): (r: u32)
      reads this
      ensures SettingsValid(state) ==> r >= 10000
    {
      state.maxPosition
    }

    /** `setMaxPosition`: floor the limit at 10000 and pull position and
        target down to it. */
    method SetMaxPosition(value: u32)
      modifies this
      ensures var v := if value < 10000 then 10000 else value;
        state == old(state).(maxPosition := v,
          targetPosition := if old(state.targetPosition) > v then v else old(state.targetPosition),
          position := if old(state.position) > v then v else old(state.position))
      ensures isConfigDirty && lastPositionChangeMs == old(lastPositionChangeMs) && LogKept()
      ensures InRange(state) && state.maxPosition >= 10000
      ensures old(SettingsValid(state)) ==> SettingsValid(state)
    {
      var v := value;
      if v < 10000 {
        v := 10000;
      }
      if state.targetPosition > v {
        state := state.(targetPosition := v);
      }
      if state.position > v {
        state := state.(position := v);
      }
      isConfigDirty := true;
      state := state.(maxPosition := v);
    }

    function GetMaxMovement(): (r: u32)
      reads this
      ensures SettingsValid(state) ==> r >= 1000
    {
      state.maxMovement
    }

    /** `setMaxMovement`: floor at 1000. */
    method SetMaxMovement(value: u32)
      modifies this
      ensures state == old(state).(maxMovement := if value < 1000 then 1000 else value)
      ensures isConfigDirty && lastPositionChangeMs == old(lastPositionChangeMs) && LogKept()
      ensures state.maxMovement >= 1000
      ensures old(InRange(state)) ==> InRange(state)
      ensures old(SettingsValid(state)) ==> SettingsValid(state)
    {
      var v := value;
      if v < 1000 {
        v := 1000;
      }
      isConfigDirty := true;
      state := state.(maxMovement := v);
    }

    function GetStepMode(): (r: u16)
      reads this
      ensures SettingsValid(state) ==> IsStepMode(r)
    {
      state.stepMode
    }

    /** `setStepMode`: accept only one of the nine step-mode codes; otherwise
        change nothing, not even the dirty flag. */
    method SetStepMode(value: u16) returns (ok: bool)
      modifies this
      ensures ok <==> IsStepMode(value)
      ensures ok ==> state == old(state).(stepMode := value) && isConfigDirty
      ensures !ok ==> state == old(state) && isConfigDirty == old(isConfigDirty)
      ensures lastPositionChangeMs == old(lastPositionChangeMs) && LogKept()
      ensures old(InRange(state)) ==> InRange(state)
      ensures old(SettingsValid(state)) ==> SettingsValid(state)
    {
      if value != STP1 && value != STP2 && value != STP4 && value != STP8 && value != STP16
         && value != STP32 && value != STP64 && value != STP128 && value != STP256
      {
        return false;
      }
      isConfigDirty := true;
      state := state.(stepMode := value);
      return true;
    }

    function GetStepModeManual(): (r: u16)
      reads this
      ensures SettingsValid(state) ==> IsStepMode(r)
    {
      state.stepModeManual
    }

    /** `setStepModeManual`: as `setStepMode`, for the manual-control mode. */
    method SetStepModeManual(value: u16) returns (ok: bool)
      modifies this
      ensures ok <==> IsStepMode(value)
      ensures ok ==> state == old(state).(stepModeManual := value) && isConfigDirty
      ensures !ok ==> state == old(state) && isConfigDirty == old(isConfigDirty)
      ensures lastPositionChangeMs == old(lastPositionChangeMs) && LogKept()
      ensures old(InRange(state)) ==> InRange(state)
      ensures old(SettingsValid(state)) ==> SettingsValid(state)
    {
      if value != STP1 && value != STP2 && value != STP4 && value != STP8 && value != STP16
         && value != STP32 && value != STP64 && value != STP128 && value != STP256
      {
        return false;
      }
      isConfigDirty := true;
      state := state.(stepModeManual := value);
      return true;
    }

    /** `getSpeedMode` returns the code cast to `unsigned char`. */
    function GetSpeedMode(): (r: u8)
      reads this
      ensures r == state.speedMode % 0x100
      ensures IsSpeedMode(state.speedMode) ==> r == state.speedMode
    {
      state.speedMode % 0x100
    }

    /** `setSpeedMode`: accept only one of the five speed codes. */
    method SetSpeedMode(value: u8) returns (ok: bool)
      modifies this
      ensures ok <==> IsSpeedMode(value)
      ensures ok ==> state == old(state).(speedMode := value) && isConfigDirty
      ensures !ok ==> state == old(state) && isConfigDirty == old(isConfigDirty)
      ensures lastPositionChangeMs == old(lastPositionChangeMs) && LogKept()
      ensures old(InRange(state)) ==> InRange(state)
      ensures old(SettingsValid(state)) ==> SettingsValid(state)
    {
      if value != VERYSLOW && value != SLOW && value != MEDIUM && value != FAST && value != VERYFAST {
        return false;
      }
      isConfigDirty := true;
      state := state.(speedMode := value);
      return true;
    }

    function GetSettleBufferMs(): u32
      reads this
    {
      state.settleBufferMs
    }

    /** `setSettleBufferMs`: any value is accepted. */
    method SetSettleBufferMs(value: u32)
      modifies this
      ensures state == old(state).(settleBufferMs := value) && GetSettleBufferMs() == value
      ensures isConfigDirty && lastPositionChangeMs == old(lastPositionChangeMs) && LogKept()
      ensures old(InRange(state)) ==> InRange(state)
      ensures old(SettingsValid(state)) ==> SettingsValid(state)
    {
      isConfigDirty := true;
      state := state.(settleBufferMs := value);
    }

    function GetReverseDirection(): bool
      reads this
    {
      state.reverseDirection
    }

    /** `setReverseDirection`. */
    method SetReverseDirection(value: bool)
      modifies this
      ensures state == old(state).(reverseDirection := value) && GetReverseDirection() == value
      ensures isConfigDirty && lastPositionChangeMs == old(lastPositionChangeMs) && LogKept()
      ensures old(InRange(state)) ==> InRange(state)
      ensures old(SettingsValid(state)) ==> SettingsValid(state)
    {
      isConfigDirty := true;
      state := state.(reverseDirection := value);
    }

    function GetIdleEepromWriteMs(): u32
      reads this
    {
      state.idleEepromWriteMs
    }

    /** `setIdleEepromWriteMs`: any value is accepted. */
    method SetIdleEepromWriteMs(value: u32)
      modifies this
      ensures state == old(state).(idleEepromWriteMs := value) && GetIdleEepromWriteMs() == value
      ensures isConfigDirty && lastPositionChangeMs == old(lastPositionChangeMs) && LogKept()
      ensures old(InRange(state)) ==> InRange(state)
      ensures old(SettingsValid(state)) ==> SettingsValid(state)
    {
      isConfigDirty := true;
      state := state.(idleEepromWriteMs := value);
    }

    function GetMotorIMoveMultiplier(): (r: u8)
      reads this
      ensures SettingsValid(state) ==> 1 <= r <= 100
    {
      state.motorIMoveMultiplier
    }

    /** `setMotorIMoveMultiplier`: clamp to [1, 100]. */
    method SetMotorIMoveMultiplier(value: u8)
      modifies this
      ensures state == old(state).(motorIMoveMultiplier := Clamp100(value))
      ensures 1 <= state.motorIMoveMultiplier <= 100
      ensures isConfigDirty && lastPositionChangeMs == old(lastPositionChangeMs) && LogKept()
      ensures old(InRange(state)) ==> InRange(state)
      ensures old(SettingsValid(state)) ==> SettingsValid(state)
    {
      var v := value;
      if v < 1 {
        v := 1;
      } else if v > 100 {
        v := 100;
      }
      isConfigDirty := true;
      state := state.(motorIMoveMultiplier := v);
    }

    function GetMotorIHoldMultiplier(): (r: u8)
      reads this
      ensures SettingsValid(state) ==> 1 <= r <= 100
    {
      state.motorIHoldMultiplier
    }

    /** `setMotorIHoldMultiplier`: clamp to [1, 100]. */
    method SetMotorIHoldMultiplier(value: u8)
      modifies this
      ensures state == old(state).(motorIHoldMultiplier := Clamp100(value))
      ensures 1 <= state.motorIHoldMultiplier <= 100
      ensures isConfigDirty && lastPositionChangeMs == old(lastPositionChangeMs) && LogKept()
      ensures old(InRange(state)) ==> InRange(state)
      ensures old(SettingsValid(state)) ==> SettingsValid(state)
    {
      var v := value;
      if v < 1 {
        v := 1;
      } else if v > 100 {
        v := 100;
      }
      isConfigDirty := true;
      state := state.(motorIHoldMultiplier := v);
    }
  }

  /** A motor-current multiplier clamped into [1, 100]: values inside are
      kept, values outside go to the nearer bound. */
  function Clamp100(v: u8): (r: u8)
    ensures 1 <= r <= 100
    ensures 1 <= v <= 100 ==> r == v
    ensures v < 1 ==> r == 1
    ensures v > 100 ==> r == 100
  {
    if v < 1 then 1 else if v > 100 then 100 else v
  }
}
