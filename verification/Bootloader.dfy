/**
 * takt_boot/src/bootloader.cpp: the boot record and the decisions taken from it, as functions.
 */
module BootSpec {
  import opened Words
  import opened Crc32Spec

  const BOOT_MAGIC: u32 := 0xB007C0DE

  /** Values of the record's mode byte; the byte itself may hold anything. */
  datatype BootMode = Normal | Recovery | OtaPending | FactoryReset | Emergency

  function Code(m: BootMode): byte {
    match m
    case Normal => 0
    case Recovery => 1
    case OtaPending => 2
    case FactoryReset => 3
    case Emergency => 4
  }

  /** The record kept in memory that survives a reset; `pad` is the struct's padding byte. */
  datatype BootConfig = BootConfig(magic: u32, mode: byte, bootCount: byte, otaSlot: byte, pad: byte, crc32: u32)

  function Bytes(c: BootConfig): (s: seq<byte>)
    ensures |s| == 12
  {
    Le32(c.magic) + [c.mode, c.bootCount, c.otaSlot, c.pad] + Le32(c.crc32)
  }

  function Checksum(c: BootConfig): u32 { Crc(Bytes(c.(crc32 := 0))) }

  /** loadBootConfig: what the caller sees, and whether the record is intact. */
  function Load(stored: BootConfig): (BootConfig, bool) {
    if stored.magic != BOOT_MAGIC then (BootConfig(BOOT_MAGIC, Code(Normal), 0, 0, stored.pad, 0), false)
    else (stored.(crc32 := 0), Checksum(stored) == stored.crc32)
  }

  function Save(c: BootConfig): BootConfig { c.(crc32 := Checksum(c)) }

  function MarkBootSuccessful(stored: BootConfig): BootConfig {
    Save(Load(stored).0.(bootCount := 0, mode := Code(Normal)))
  }

  function RequestOtaBoot(stored: BootConfig, slot: byte): BootConfig {
    Save(Load(stored).0.(mode := Code(OtaPending), otaSlot := slot))
  }

  function CountBoot(stored: BootConfig): BootConfig {
    var c := Load(stored).0;
    Save(c.(bootCount := (c.bootCount + 1) % 256))
  }

  /** determineBootMode; okA and okB are the verdicts on the two firmware slots. */
  function Decide(stored: BootConfig, okA: bool, okB: bool): BootMode {
    var c := Load(stored).0;
    if c.bootCount > 3 then Recovery
    else if c.mode == Code(FactoryReset) then FactoryReset
    else if c.mode == Code(OtaPending) then OtaPending
    else if !okA && !okB then Emergency
    else Normal
  }

  /** One entry(): count the boot, then decide. */
  function Entry(stored: BootConfig, okA: bool, okB: bool): (BootConfig, BootMode) {
    (CountBoot(stored), Decide(CountBoot(stored), okA, okB))
  }

  // ---------------------------------------------------------------- round trip

  /** A saved record loads as intact, with every field as it was. */
  lemma SaveThenLoad(c: BootConfig)
    requires c.magic == BOOT_MAGIC
    ensures Load(Save(c)) == (c.(crc32 := 0), true)
  {
    hide Crc, Bytes;
    assert Save(c).(crc32 := 0) == c.(crc32 := 0);
  }

  /** Any damage confined to the four bytes after the magic number shows. */
  lemma DamagedRecordShows(c: BootConfig, d: BootConfig)
    requires c.magic == BOOT_MAGIC && d.crc32 == Save(c).crc32 && d.magic == c.magic
    requires d.(crc32 := 0) != c.(crc32 := 0)
    ensures !Load(d).1
  {
    hide Crc;
    var u, v := [c.mode, c.bootCount, c.otaSlot, c.pad], [d.mode, d.bootCount, d.otaSlot, d.pad];
    assert u[0] == c.mode && u[1] == c.bootCount && u[2] == c.otaSlot && u[3] == c.pad;
    assert v[0] == d.mode && v[1] == d.bootCount && v[2] == d.otaSlot && v[3] == d.pad;
    CrcDetectsWindow(Le32(c.magic), u, v, Le32(0));
  }

  /** Where the fields lie in the 12 bytes that the checksum covers. */
  lemma RecordLayout(c: BootConfig)
    ensures var s := Bytes(c);
      && Field(s, 0) == c.magic && s[4] == c.mode && s[5] == c.bootCount && s[6] == c.otaSlot && s[7] == c.pad && Field(s, 8) == c.crc32
  {
    hide Field, Le32, FromLe32;
    var s := Bytes(c);
    assert s[0..4] == Le32(c.magic) && s[8..12] == Le32(c.crc32);
    FieldIs(s, 0);
    FieldIs(s, 8);
    Le32RoundTrip(c.magic);
    Le32RoundTrip(c.crc32);
  }

  /** The decision read off the record's bytes: a lost record counts as 0 boots and asks for nothing. */
  lemma DecisionTable(stored: BootConfig, okA: bool, okB: bool)
    ensures var known := stored.magic == 0xB007_C0DE; var mode := Decide(stored, okA, okB);
      var boots, asked: nat := if known then stored.bootCount else 0, if known then stored.mode else 0;
      && (mode == Recovery <==> boots > 3)
      && (mode == FactoryReset <==> boots <= 3 && asked == 3)
      && (mode == OtaPending <==> boots <= 3 && asked == 2)
      && (mode == Emergency <==> boots <= 3 && asked != 3 && asked != 2 && !okA && !okB)
      && (mode == Normal <==> boots <= 3 && asked != 3 && asked != 2 && (okA || okB))
  {
    hide Checksum;
  }

  // ---------------------------------------------------------------- damage that goes unnoticed

  /** The record that determineBootMode would act on if it treated a damaged one as lost. */
  function Lost(d: BootConfig): BootConfig { BootConfig(0, 0, 0, 0, d.pad, 0) }

  /**
   * determineBootMode does not look at the checksum result.  For a record that load reports as damaged
   * it decides as it would for a lost one exactly when the damaged fields ask for nothing special.
   */
  lemma DamageHarmlessIff(d: BootConfig, okA: bool, okB: bool)
    requires d.magic == BOOT_MAGIC && !Load(d).1
    ensures Decide(d, okA, okB) == Decide(Lost(d), okA, okB)
       <==> d.bootCount <= 3 && d.mode != Code(OtaPending) && d.mode != Code(FactoryReset)
  {
    hide Checksum;
  }

  /** The same for a whole boot, which counts first; it also saves the damaged fields under a fresh checksum. */
  lemma DamagedEntryHarmlessIff(d: BootConfig, okA: bool, okB: bool)
    requires d.magic == BOOT_MAGIC && !Load(d).1
    ensures Entry(d, okA, okB).1 == Entry(Lost(d), okA, okB).1
       <==> (d.bootCount + 1) % 256 <= 3 && d.mode != Code(OtaPending) && d.mode != Code(FactoryReset)
    ensures Load(Entry(d, okA, okB).0) == (d.(crc32 := 0, bootCount := (d.bootCount + 1) % 256), true)
  {
    hide Save, Checksum;
    SaveThenLoad(Load(d).0.(bootCount := (d.bootCount + 1) % 256));
    SaveThenLoad(Load(Lost(d)).0.(bootCount := 1));
  }

  /** A concrete case: one flipped bit in the counter of a healthy record sends the device to recovery. */
  lemma FlippedCounterBitRecovers(pad: byte)
    ensures var c := BootConfig(BOOT_MAGIC, Code(Normal), 0, 0, pad, 0);
      var d := Save(c).(bootCount := 0x80);
      Decide(Save(c), true, true) == Normal && !Load(d).1 && Decide(d, true, true) == Recovery
  {
    hide Checksum;
    var c := BootConfig(BOOT_MAGIC, Code(Normal), 0, 0, pad, 0);
    SaveThenLoad(c);
    DamagedRecordShows(c, Save(c).(bootCount := 0x80));
  }

  // ---------------------------------------------------------------- runs

  /** What happens to the record between two successful starts of the application. */
  datatype Event = Boot(okA: bool, okB: bool) | Ota(slot: byte)

  function After(stored: BootConfig, e: Event): BootConfig {
    match e
    case Boot(okA, okB) => Entry(stored, okA, okB).0
    case Ota(slot) => RequestOtaBoot(stored, slot)
  }

  function Run(stored: BootConfig, events: seq<Event>): BootConfig
    decreases |events|
  {
    if |events| == 0 then stored else After(Run(stored, events[..|events| - 1]), events[|events| - 1])
  }

  /** What one event does to the record that is loaded next. */
  lemma AfterLoads(stored: BootConfig, e: Event)
    ensures var c, next := Load(stored).0, After(stored, e);
      && next.magic == BOOT_MAGIC && Load(next).1 && Load(next).0 == next.(crc32 := 0)
      && next.bootCount == (if e.Boot? then (c.bootCount + 1) % 256 else c.bootCount)
      && next.mode == (if e.Ota? then 2 else c.mode)
      && next.otaSlot == (if e.Ota? then e.slot else c.otaSlot)
  {
    hide Checksum;
    var c := Load(stored).0;
    match e
    case Boot(okA, okB) => SaveThenLoad(c.(bootCount := (c.bootCount + 1) % 256));
    case Ota(slot) => SaveThenLoad(c.(mode := Code(OtaPending), otaSlot := slot));
  }

  function Boots(events: seq<Event>): nat
    decreases |events|
  {
    if |events| == 0 then 0 else Boots(events[..|events| - 1]) + if events[|events| - 1].Boot? then 1 else 0
  }

  function OtaAsked(events: seq<Event>): bool
    decreases |events|
  {
    |events| > 0 && (events[|events| - 1].Ota? || OtaAsked(events[..|events| - 1]))
  }

  /** The slot asked for last, or the one that was asked for before. */
  function AskedSlot(events: seq<Event>, before: byte): byte
    decreases |events|
  {
    if |events| == 0 then before
    else match events[|events| - 1]
      case Boot(okA, okB) => AskedSlot(events[..|events| - 1], before)
      case Ota(slot) => slot
  }

  /** The record after a successful start and any events: an 8-bit count of the boots since, and the mode asked for. */
  lemma {:induction false} RecordAfter(stored: BootConfig, events: seq<Event>)
    ensures var c := Run(MarkBootSuccessful(stored), events);
      && Load(c) == (c.(crc32 := 0), true)
      && c.magic == BOOT_MAGIC
      && c.bootCount == Boots(events) % 256
      && c.mode == (if OtaAsked(events) then 2 else 0)
    decreases |events|
  {
    hide Load, After, MarkBootSuccessful, OtaAsked, Boots;
    if |events| == 0 {
      Started(stored);
      NothingHappened();
    } else {
      var prefix := events[..|events| - 1];
      RecordAfter(stored, prefix);
      AfterLoads(Run(MarkBootSuccessful(stored), prefix), events[|events| - 1]);
      OneMoreEvent(events);
    }
  }

  lemma Started(stored: BootConfig)
    ensures var c := MarkBootSuccessful(stored);
      Load(c) == (c.(crc32 := 0), true) && c.magic == BOOT_MAGIC && c.bootCount == 0 && c.mode == 0 && c.otaSlot == Load(stored).0.otaSlot
  {
    hide Checksum;
    SaveThenLoad(Load(stored).0.(bootCount := 0, mode := Code(Normal)));
  }

  lemma NothingHappened()
    ensures Boots([]) == 0 && !OtaAsked([])
  {}

  lemma OneMoreEvent(events: seq<Event>)
    requires |events| > 0
    ensures var prefix, e := events[..|events| - 1], events[|events| - 1];
      && Boots(events) % 256 == (if e.Boot? then (Boots(prefix) % 256 + 1) % 256 else Boots(prefix) % 256)
      && (OtaAsked(events) <==> e.Ota? || OtaAsked(prefix))
  {}

  /** And the slot asked for last. */
  lemma {:induction false} SlotAfter(stored: BootConfig, events: seq<Event>)
    ensures Load(Run(MarkBootSuccessful(stored), events)).0.otaSlot == AskedSlot(events, Load(stored).0.otaSlot)
    decreases |events|
  {
    hide Load, After, MarkBootSuccessful;
    Started(stored);
    if |events| > 0 {
      var prefix := events[..|events| - 1];
      SlotAfter(stored, prefix);
      AfterLoads(Run(MarkBootSuccessful(stored), prefix), events[|events| - 1]);
    }
  }

  /** The same from a record that was lost: it counts from 0 and asks for nothing. */
  lemma {:induction false} RecordAfterLoss(stored: BootConfig, events: seq<Event>)
    requires stored.magic != 0xB007_C0DE
    ensures var c := Load(Run(stored, events)).0;
      && c.magic == 0xB007_C0DE && c.bootCount == Boots(events) % 256 && c.mode == (if OtaAsked(events) then 2 else 0)
    decreases |events|
  {
    hide Load, After, OtaAsked, Boots;
    if |events| == 0 {
      NothingHappened();
      NothingKnown(stored);
    } else {
      var prefix := events[..|events| - 1];
      RecordAfterLoss(stored, prefix);
      AfterLoads(Run(stored, prefix), events[|events| - 1]);
      OneMoreEvent(events);
    }
  }

  lemma NothingKnown(stored: BootConfig)
    requires stored.magic != 0xB007_C0DE
    ensures var c := Load(stored).0; c.magic == 0xB007_C0DE && c.bootCount == 0 && c.mode == 0
  {}

  /** Boot-loop protection from a lost record: the n-th boot after the loss goes to recovery exactly when n mod 256 exceeds 3. */
  lemma LostRecordProtection(stored: BootConfig, events: seq<Event>, okA: bool, okB: bool)
    requires stored.magic != 0xB007_C0DE
    ensures Entry(Run(stored, events), okA, okB).1 == Recovery <==> (Boots(events) + 1) % 256 > 3
  {
    hide Load, Save, Run, OtaAsked, Boots;
    RecordAfterLoss(stored, events);
    var before := Load(Run(stored, events)).0;
    SaveThenLoad(before.(bootCount := (before.bootCount + 1) % 256));
  }

  /**
   * Boot-loop protection.  After a successful start, whatever is requested in between, the n-th boot
   * without another success goes to recovery exactly when n mod 256 exceeds 3 (the counter has eight
   * bits); otherwise it tries the update if one was requested, and then runs what verifies.
   */
  lemma BootLoopProtection(stored: BootConfig, events: seq<Event>, okA: bool, okB: bool)
    ensures var n := Boots(events) + 1;
      var mode := Entry(Run(MarkBootSuccessful(stored), events), okA, okB).1;
      && (mode == Recovery <==> n % 256 > 3)
      && (mode == OtaPending <==> n % 256 <= 3 && OtaAsked(events))
      && (mode == Emergency <==> n % 256 <= 3 && !OtaAsked(events) && !okA && !okB)
      && (mode == Normal <==> n % 256 <= 3 && !OtaAsked(events) && (okA || okB))
  {
    hide Load, Save, Run, MarkBootSuccessful, OtaAsked, Boots;
    RecordAfter(stored, events);
    var before := Run(MarkBootSuccessful(stored), events);
    var counted := Load(before).0.(bootCount := (before.bootCount + 1) % 256);
    SaveThenLoad(counted);
    assert CountBoot(before) == Save(counted);
  }

  /** The counter is eight bits wide: after 255 failed boots in a row, the 256th is a normal one again. */
  lemma ProtectionWrapsAround(stored: BootConfig, events: seq<Event>)
    requires Boots(events) == 255 && !OtaAsked(events)
    ensures Entry(Run(MarkBootSuccessful(stored), events), true, true).1 == Normal
  {
    hide Run, Entry, MarkBootSuccessful, OtaAsked, Boots;
    BootLoopProtection(stored, events, true, true);
  }
}

/** The bootloader in place: its boot record, the bit-at-a-time checksum, and the firmware it judges. */
module BootloaderImpl {
  import opened Words
  import opened ShiftRegister
  import opened Crc32Spec
  import opened BootSpec
  import FirmwareSpec
  import opened FirmwareCacheImpl

  class Bootloader {
    const firmware: FirmwareCache
    var stored: BootConfig

    constructor (firmware: FirmwareCache, stored: BootConfig)
      ensures this.firmware == firmware && this.stored == stored
    {
      this.firmware, this.stored := firmware, stored;
    }

    /** The bit-at-a-time checksum equals the table-driven one on every byte string: both are Crc. */
    static method Crc32Config(data: seq<byte>) returns (crc: u32)
      ensures crc == Crc(data)
    {
      var c := FoldBitwise(POLYNOMIAL, ToBits(0xFFFF_FFFF, 32), data);
      crc := NumberOf(Xor(c, Ones(32)));
      ToBitsToNat(c);
    }

    static method FoldBitwise(poly: word32, initial: word32, data: seq<byte>) returns (crc: word32)
      ensures crc == Fold(poly, initial, data)
    {
      crc := initial;
      for i := 0 to |data|
        invariant Fold(poly, crc, data[i..]) == Fold(poly, initial, data)
      {
        var mixed: word32 := Xor(crc, Widen(BitsOf(data[i]), 32));
        assert data[i..][1..] == data[i + 1..];
        crc := EightBitSteps(poly, mixed);
      }
    }

    static method EightBitSteps(poly: word32, w: word32) returns (crc: word32)
      ensures crc == Shifts(poly, w, 8)
    {
      crc := w;
      for j := 0 to 8
        invariant Shifts(poly, crc, 8 - j) == Shifts(poly, w, 8)
      {
        var next: word32 := Xor(crc[1..] + [false], if crc[0] then poly else Zeros(32));
        assert next == Shift(poly, crc);
        crc := next;
      }
    }

    method LoadBootConfig() returns (intact: bool, config: BootConfig)
      ensures (config, intact) == Load(stored)
    {
      config := stored;
      if config.magic != BOOT_MAGIC {
        config := BootConfig(BOOT_MAGIC, Code(Normal), 0, 0, stored.pad, 0);
        return false, config;
      }
      var crc := config.crc32;
      config := config.(crc32 := 0);
      var computed := Crc32Config(Bytes(config));
      intact := computed == crc;
    }

    method SaveBootConfig(config: BootConfig)
      modifies this
      ensures stored == Save(config)
    {
      var cfg := config.(crc32 := 0);
      var crc := Crc32Config(Bytes(cfg));
      cfg := cfg.(crc32 := crc);
      stored := cfg;
    }

    method DetermineBootMode() returns (mode: BootMode)
      requires firmware.Valid()
      modifies firmware.crc, firmware.crc.table
      ensures firmware.Valid()
      ensures mode == Decide(stored,
        FirmwareSpec.Verifies(firmware.Geometry(), firmware.storage.backend.mem[..], 0),
        FirmwareSpec.Verifies(firmware.Geometry(), firmware.storage.backend.mem[..], 1))
    {
      hide FirmwareSpec.Verifies, Checksum;
      var intact, config := LoadBootConfig();
      if config.bootCount > 3 {
        return Recovery;
      }
      if config.mode == Code(FactoryReset) {
        return FactoryReset;
      }
      if config.mode == Code(OtaPending) {
        return OtaPending;
      }
      var okA := firmware.Verify(0);
      var okB := false;
      if !okA {
        okB := firmware.Verify(1);
      }
      mode := if !okA && !okB then Emergency else Normal;
    }

    method MarkBootSuccessful()
      modifies this
      ensures stored == BootSpec.MarkBootSuccessful(old(stored))
    {
      var intact, config := LoadBootConfig();
      SaveBootConfig(config.(bootCount := 0, mode := Code(Normal)));
    }

    method RequestOtaBoot(slot: byte)
      modifies this
      ensures stored == BootSpec.RequestOtaBoot(old(stored), slot)
    {
      var intact, config := LoadBootConfig();
      SaveBootConfig(config.(mode := Code(OtaPending), otaSlot := slot));
    }

    /** The decision part of entry(): the mode it acts on. */
    method Entry() returns (mode: BootMode)
      requires firmware.Valid() && this as object !in firmware.Repr()
      modifies this, firmware.crc, firmware.crc.table
      ensures firmware.Valid()
      ensures (stored, mode) == BootSpec.Entry(old(stored),
        FirmwareSpec.Verifies(firmware.Geometry(), firmware.storage.backend.mem[..], 0),
        FirmwareSpec.Verifies(firmware.Geometry(), firmware.storage.backend.mem[..], 1))
    {
      hide FirmwareSpec.Verifies, Checksum, Decide;
      var intact, config := LoadBootConfig();
      SaveBootConfig(config.(bootCount := (config.bootCount + 1) % 256));
      mode := DetermineBootMode();
    }
  }
}
