/**
 * kernel/src/firmware_cache.cpp: the A/B update machine, as functions on its state.
 *
 * The state holds the flash contents next to the private fields; each function is one public
 * call.  FirmwareCache.dfy proves that the class computes them; FirmwareRuns.dfy proves what the
 * machine promises over whole runs.
 */
module FirmwareSpec {
  import opened Words
  import opened Sectors
  import opened StorageSpec
  import opened Crc32Spec

  const MAGIC: u32 := 0x54414B54
  const HEADER_RESERVED: nat := 4096
  const HEADER_SIZE: nat := 24

  // ---------------------------------------------------------------- header

  datatype Header = Header(
    magic: u32, version: u32, size: u32, crc32: u32, timestamp: u32,
    slot: byte, flags: byte, reserved0: byte, reserved1: byte)
  {
    predicate IsValid() { flags % 2 == 1 }
    predicate IsBootable() { flags / 2 % 2 == 1 }

    /** flags |= 0x02 */
    function Bootable(): (h: Header)
      ensures h.IsBootable() && (h.IsValid() <==> IsValid())
      ensures h.(flags := flags) == this
    {
      if IsBootable() then this else SetBit(); this.(flags := flags + 2)
    }

    lemma SetBit()
      requires !IsBootable()
      ensures flags + 2 < 256 && (flags + 2) / 2 % 2 == 1 && (flags + 2) % 2 == flags % 2
    {
      assert (flags + 2) / 2 == flags / 2 + 1;
      assert flags != 254 && flags != 255;
    }
  }

  function Encode(h: Header): (s: seq<byte>)
    ensures |s| == HEADER_SIZE
  {
    Le32(h.magic) + Le32(h.version) + Le32(h.size) + Le32(h.crc32) + Le32(h.timestamp)
    + [h.slot, h.flags, h.reserved0, h.reserved1]
  }

  function Decode(s: seq<byte>): Header
    requires |s| == HEADER_SIZE
  {
    Header(FromLe32(s[0..4]), FromLe32(s[4..8]), FromLe32(s[8..12]), FromLe32(s[12..16]), FromLe32(s[16..20]),
           s[20], s[21], s[22], s[23])
  }

  /** A header written to flash is the header read back. */
  lemma HeaderRoundTrip(h: Header)
    ensures Decode(Encode(h)) == h
  {
    var s := Encode(h);
    assert s[0..4] == Le32(h.magic) && s[4..8] == Le32(h.version) && s[8..12] == Le32(h.size);
    assert s[12..16] == Le32(h.crc32) && s[16..20] == Le32(h.timestamp);
    Le32RoundTrip(h.magic);
    Le32RoundTrip(h.version);
    Le32RoundTrip(h.size);
    Le32RoundTrip(h.crc32);
    Le32RoundTrip(h.timestamp);
  }

  /** Where the fields lie in the 24 bytes. */
  lemma HeaderLayout(h: Header)
    ensures var s := Encode(h);
      && Field(s, 0) == h.magic && Field(s, 4) == h.version && Field(s, 8) == h.size
      && Field(s, 12) == h.crc32 && Field(s, 16) == h.timestamp
      && s[20] == h.slot && s[21] == h.flags && s[22] == h.reserved0 && s[23] == h.reserved1
  {
    hide Encode, Field;
    var s := Encode(h);
    HeaderRoundTrip(h);
    FieldIs(s, 0);
    FieldIs(s, 4);
    FieldIs(s, 8);
    FieldIs(s, 12);
    FieldIs(s, 16);
  }

  // ---------------------------------------------------------------- layout

  datatype Layout = Layout(slotA: nat, slotB: nat, slotSize: nat, sector: nat, total: nat)
  {
    function Offset(slot: nat): nat { if slot == 0 then slotA else slotB }

    function End(slot: nat): nat { Offset(slot) + slotSize }

    /** Two disjoint slots of whole sectors inside the flash, with the header in sectors of its own. */
    ghost predicate Ok() {
      && sector > 0 && Aligned(HEADER_RESERVED, sector)
      && Aligned(slotA, sector) && Aligned(slotB, sector) && Aligned(slotSize, sector)
      && HEADER_RESERVED <= slotSize
      && slotA + slotSize <= total && slotB + slotSize <= total && total < 0x8000_0000
      && (slotA + slotSize <= slotB || slotB + slotSize <= slotA)
    }
  }

  // ---------------------------------------------------------------- state and calls

  datatype Firmware = Firmware(
    mem: seq<byte>, active: nat,
    writeOffset: u32, writeCrc: u32, imageSize: u32, version: u32, writing: bool)
  {
    function Inactive(): nat { if active == 0 then 1 else 0 }
  }

  function HeaderAt(l: Layout, m: seq<byte>, slot: nat): Header
    requires l.Offset(slot) + HEADER_SIZE <= |m|
  {
    var o := l.Offset(slot);
    Decode(m[o..o + HEADER_SIZE])
  }

  /** The body lies in the flash, or there is nothing to read. */
  predicate Readable(l: Layout, m: seq<byte>, slot: nat, size: nat) {
    size == 0 || l.Offset(slot) + HEADER_RESERVED + size <= |m|
  }

  function BodyAt(l: Layout, m: seq<byte>, slot: nat, size: nat): seq<byte>
    requires Readable(l, m, slot, size)
  {
    var o := l.Offset(slot) + HEADER_RESERVED;
    if size == 0 then [] else m[o..o + size]
  }

  /** getHeader succeeds: there is a header with the right magic. */
  predicate HasHeader(l: Layout, m: seq<byte>, slot: nat) {
    slot <= 1 && l.Offset(slot) + HEADER_SIZE <= |m| && HeaderAt(l, m, slot).magic == MAGIC
  }

  /** verify: a valid header whose checksum is that of the body it announces. */
  predicate Verifies(l: Layout, m: seq<byte>, slot: nat) {
    && HasHeader(l, m, slot)
    && var h := HeaderAt(l, m, slot);
    && h.IsValid()
    && Readable(l, m, slot, h.size)
    && Crc(BodyAt(l, m, slot, h.size)) == h.crc32
  }

  /** The verdict on the bytes of the flash: "TKAT", an odd flags byte, and the checksum of as many bytes as announced. */
  lemma VerdictOnBytes(l: Layout, m: seq<byte>, slot: nat)
    ensures HasHeader(l, m, slot) <==>
      slot <= 1 && l.Offset(slot) + 24 <= |m| && m[l.Offset(slot)..l.Offset(slot) + 4] == [0x54, 0x4B, 0x41, 0x54]
    ensures HasHeader(l, m, slot) ==> var o := l.Offset(slot);
      && (HeaderAt(l, m, slot).IsValid() <==> m[o + 21] % 2 == 1)
      && var size := Field(m, o + 8);
      (Verifies(l, m, slot) <==>
        && m[o + 21] % 2 == 1
        && (size == 0 || o + 4096 + size <= |m|)
        && Crc(if size == 0 then [] else m[o + 4096..o + 4096 + size]) == Field(m, o + 12))
  {
    hide Field, Crc, FromLe32;
    var o := l.Offset(slot);
    if slot <= 1 && o + 24 <= |m| {
      var s := m[o..o + 24];
      SliceOfSlice(m, o, o + 24, o, o + 4);
      SliceOfSlice(m, o, o + 24, o + 8, o + 12);
      SliceOfSlice(m, o, o + 24, o + 12, o + 16);
      FieldIs(m, o + 8);
      FieldIs(m, o + 12);
      MagicBytes(m[o..o + 4]);
    }
  }

  lemma MagicBytes(s: seq<byte>)
    requires |s| == 4
    ensures FromLe32(s) == 0x5441_4B54 <==> s == [0x54, 0x4B, 0x41, 0x54]
  {}

  function InitialSlot(l: Layout, m: seq<byte>): nat {
    if HasHeader(l, m, 0) && HeaderAt(l, m, 0).IsValid() then 0
    else if HasHeader(l, m, 1) && HeaderAt(l, m, 1).IsValid() then 1
    else 0
  }

  function BeginWrite(l: Layout, s: Firmware, imageSize: u32, version: u32): (r: (Firmware, bool))
    ensures |r.0.mem| == |s.mem|
  {
    if imageSize > Wrap32(l.slotSize - HEADER_RESERVED) then (s, false)
    else (s.(writeOffset := HEADER_RESERVED, writeCrc := INITIAL, imageSize := imageSize, version := version, writing := true), true)
  }

  /** An update is accepted exactly when its image fits the slot behind the 4096 bytes of the header. */
  lemma BeginAcceptsIff(l: Layout, s: Firmware, imageSize: u32, version: u32)
    requires l.Ok()
    ensures BeginWrite(l, s, imageSize, version).1 <==> imageSize <= l.slotSize - 4096
    ensures !BeginWrite(l, s, imageSize, version).1 ==> BeginWrite(l, s, imageSize, version).0 == s
  {}

  function WriteChunk(l: Layout, s: Firmware, data: seq<byte>): (r: (Firmware, int))
    requires l.sector > 0
    ensures |r.0.mem| == |s.mem|
  {
    if !s.writing then (s, -1)
    else
      var offset := Wrap32(l.Offset(s.Inactive()) + s.writeOffset);
      var r := Write(s.mem, l.sector, offset, data);
      if !r.ok then (s.(mem := r.mem), -1)
      else (s.(mem := r.mem, writeCrc := Update(s.writeCrc, data), writeOffset := Wrap32(s.writeOffset + |data|)), |data|)
  }

  function NewHeader(s: Firmware): Header {
    Header(MAGIC, s.version, s.imageSize, Finalize(s.writeCrc), 0, s.Inactive(), 1, 0, 0)
  }

  function FinalizeWrite(l: Layout, s: Firmware): (r: (Firmware, bool))
    requires l.sector > 0
    ensures |r.0.mem| == |s.mem|
  {
    if !s.writing then (s, false)
    else
      var slot := s.Inactive();
      var m := Write(s.mem, l.sector, l.Offset(slot), Encode(NewHeader(s))).mem;
      (s.(mem := m, writing := false), Verifies(l, m, slot))
  }

  function ActivateSlot(l: Layout, s: Firmware, slot: nat): (r: (Firmware, bool))
    requires l.sector > 0
    ensures |r.0.mem| == |s.mem|
  {
    if slot > 1 || !Verifies(l, s.mem, slot) then (s, false)
    else
      var h := HeaderAt(l, s.mem, slot).Bootable();
      (s.(mem := Write(s.mem, l.sector, l.Offset(slot), Encode(h)).mem, active := slot), true)
  }

  function Rollback(l: Layout, s: Firmware): (r: (Firmware, bool))
    requires l.sector > 0
    ensures |r.0.mem| == |s.mem|
  {
    if !Verifies(l, s.mem, s.Inactive()) then (s, false) else ActivateSlot(l, s, s.Inactive())
  }

  // ---------------------------------------------------------------- what each slot keeps

  /** The bytes of one slot. */
  ghost predicate SameSlot(l: Layout, m: seq<byte>, n: seq<byte>, slot: nat)
    requires l.Ok() && |m| == |n| == l.total
  {
    m[l.Offset(slot)..l.End(slot)] == n[l.Offset(slot)..l.End(slot)]
  }

  lemma SliceOfSlice(m: seq<byte>, o: nat, e: nat, a: nat, b: nat)
    requires o <= a <= b <= e <= |m|
    ensures m[o..e][a - o..b - o] == m[a..b]
  {
    var x, y := m[o..e][a - o..b - o], m[a..b];
    assert |x| == |y|;
    assert forall i | 0 <= i < |x| :: x[i] == m[o..e][a - o + i] == m[a + i] == y[i];
  }

  lemma SameSlotSameBody(l: Layout, m: seq<byte>, n: seq<byte>, slot: nat, size: nat)
    requires l.Ok() && |m| == |n| == l.total && slot <= 1 && SameSlot(l, m, n, slot)
    requires HEADER_RESERVED + size <= l.slotSize
    ensures BodyAt(l, m, slot, size) == BodyAt(l, n, slot, size)
  {
    var o, e := l.Offset(slot), l.End(slot);
    var a := o + HEADER_RESERVED;
    SliceOfSlice(m, o, e, a, a + size);
    SliceOfSlice(n, o, e, a, a + size);
  }

  lemma SameSlotSameHeader(l: Layout, m: seq<byte>, n: seq<byte>, slot: nat)
    requires l.Ok() && |m| == |n| == l.total && slot <= 1 && SameSlot(l, m, n, slot)
    ensures HeaderAt(l, m, slot) == HeaderAt(l, n, slot)
  {
    var o, e := l.Offset(slot), l.End(slot);
    SliceOfSlice(m, o, e, o, o + HEADER_SIZE);
    SliceOfSlice(n, o, e, o, o + HEADER_SIZE);
    assert m[o..o + HEADER_SIZE] == n[o..o + HEADER_SIZE];
  }

  /** Whether a slot verifies depends on its own bytes only, as long as its header announces a body that fits. */
  lemma SameSlotSameVerdict(l: Layout, m: seq<byte>, n: seq<byte>, slot: nat)
    requires l.Ok() && |m| == |n| == l.total && slot <= 1 && SameSlot(l, m, n, slot)
    requires HEADER_RESERVED + HeaderAt(l, m, slot).size <= l.slotSize
    ensures Verifies(l, m, slot) <==> Verifies(l, n, slot)
  {
    SameSlotSameHeader(l, m, n, slot);
    SameSlotSameBody(l, m, n, slot, HeaderAt(l, m, slot).size);
  }

  lemma AgreeOutside(m: seq<byte>, r: seq<byte>, lo: nat, hi: nat, a: nat, b: nat)
    requires |m| == |r| && forall i | 0 <= i < |m| && !(lo <= i < hi) :: r[i] == m[i]
    requires a <= b <= |m| && (b <= lo || hi <= a)
    ensures m[a..b] == r[a..b]
  {}

  /** A write inside whole sectors lo..hi keeps every slice outside them. */
  lemma WriteKeepsSlice(l: Layout, m: seq<byte>, offset: nat, data: seq<byte>, lo: nat, hi: nat, a: nat, b: nat)
    requires l.sector > 0 && Aligned(lo, l.sector) && Aligned(hi, l.sector)
    requires lo <= offset && offset + |data| <= hi <= |m| && (|data| > 0 || lo < offset)
    requires a <= b <= |m| && (b <= lo || hi <= a)
    ensures var r := Write(m, l.sector, offset, data);
      r.ok && r.mem[a..b] == m[a..b]
  {
    WriteStaysInside(m, l.sector, offset, data, lo, hi);
    AgreeOutside(m, Write(m, l.sector, offset, data).mem, lo, hi, a, b);
  }

  lemma Boundaries(l: Layout, slot: nat)
    requires l.Ok() && slot <= 1
    ensures Aligned(l.Offset(slot), l.sector) && Aligned(l.End(slot), l.sector)
    ensures Aligned(l.Offset(slot) + HEADER_RESERVED, l.sector)
  {
    AlignedSum(l.Offset(slot), l.slotSize, l.sector);
    AlignedSum(l.Offset(slot), HEADER_RESERVED, l.sector);
  }

  /** A write inside one slot leaves the other one alone. */
  lemma WriteKeepsOtherSlot(l: Layout, m: seq<byte>, slot: nat, offset: nat, data: seq<byte>)
    requires l.Ok() && |m| == l.total && slot <= 1
    requires l.Offset(slot) <= offset && offset + |data| <= l.End(slot) && (|data| > 0 || l.Offset(slot) < offset)
    ensures var r := Write(m, l.sector, offset, data);
      r.ok && SameSlot(l, m, r.mem, 1 - slot)
  {
    Boundaries(l, slot);
    WriteKeepsSlice(l, m, offset, data, l.Offset(slot), l.End(slot), l.Offset(1 - slot), l.End(1 - slot));
  }

  /** A header written at the start of a slot is the header read from it. */
  lemma HeaderWriteReadsBack(l: Layout, m: seq<byte>, slot: nat, h: Header)
    requires l.Ok() && |m| == l.total && slot <= 1
    ensures var r := Write(m, l.sector, l.Offset(slot), Encode(h));
      r.ok && HeaderAt(l, r.mem, slot) == h
  {
    var o := l.Offset(slot);
    Boundaries(l, slot);
    WriteStaysInside(m, l.sector, o, Encode(h), o, o + HEADER_RESERVED);
    WriteThenRead(m, l.sector, o, Encode(h));
    HeaderRoundTrip(h);
  }

  /** Rewriting a slot's header keeps the body. */
  lemma HeaderWriteKeepsBody(l: Layout, m: seq<byte>, slot: nat, h: Header, size: nat)
    requires l.Ok() && |m| == l.total && slot <= 1 && HEADER_RESERVED + size <= l.slotSize
    ensures BodyAt(l, Write(m, l.sector, l.Offset(slot), Encode(h)).mem, slot, size) == BodyAt(l, m, slot, size)
  {
    var o := l.Offset(slot);
    Boundaries(l, slot);
    var a := o + HEADER_RESERVED;
    WriteKeepsSlice(l, m, o, Encode(h), o, a, a, a + size);
  }

  /** An empty write on a sector boundary after the start of the flash does nothing. */
  lemma EmptyChunk(m: seq<byte>, sector: nat, offset: nat)
    requires sector > 0 && Aligned(offset, sector) && 0 < offset <= |m|
    ensures Write(m, sector, offset, []) == Outcome(true, m)
  {
    EmptyWantedEnd(sector, offset);
    WriteBounds(|m|, sector, offset, 0);
    assert Write(m, sector, offset, []).mem == m;
  }

  /** Writing body bytes keeps the slot's header. */
  lemma ChunkWriteKeepsHeader(l: Layout, m: seq<byte>, slot: nat, at: nat, data: seq<byte>)
    requires l.Ok() && |m| == l.total && slot <= 1
    requires HEADER_RESERVED <= at && at + |data| <= l.slotSize
    ensures var r := Write(m, l.sector, l.Offset(slot) + at, data);
      r.ok && HeaderAt(l, r.mem, slot) == HeaderAt(l, m, slot)
  {
    hide Write, Decode, Down;
    var o := l.Offset(slot);
    Boundaries(l, slot);
    if |data| > 0 || at > HEADER_RESERVED {
      WriteKeepsSlice(l, m, o + at, data, o + HEADER_RESERVED, l.End(slot), o, o + HEADER_SIZE);
    } else {
      EmptyChunk(m, l.sector, o + at);
    }
  }
}
