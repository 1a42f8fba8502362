/** kernel/src/firmware_cache.cpp, in place over the storage manager and the table-driven checksum. */
module FirmwareCacheImpl {
  import opened Words
  import opened Sectors
  import opened Storage
  import opened StorageSpec
  import opened Crc32Spec
  import opened Crc32
  import opened FirmwareSpec

  class FirmwareCache {
    const storage: StorageManager
    const crc: Crc32Engine

    var slotOffset: seq<u32>
    var slotSize: u32
    var activeSlot: nat
    var writeOffset: u32
    var writeCrc: u32
    var writeImageSize: u32
    var writeVersion: u32
    var writing: bool

    ghost function Repr(): set<object> {
      {this, storage.backend.mem, crc, crc.table}
    }

    ghost function Geometry(): Layout
      requires |slotOffset| == 2
      reads this
    {
      Layout(slotOffset[0], slotOffset[1], slotSize, storage.backend.sectorSize, storage.backend.mem.Length)
    }

    /** The state the specification talks about: the private fields and the flash. */
    ghost function State(): Firmware
      reads this, storage.backend.mem
    {
      Firmware(storage.backend.mem[..], activeSlot, writeOffset, writeCrc, writeImageSize, writeVersion, writing)
    }

    /** A backend that reports byte counts, a checksum engine and a flash that do not share memory. */
    ghost predicate Valid()
      reads Repr()
    {
      && crc.table as object != storage.backend.mem as object
      && crc.Valid() && storage.backend.Valid() && storage.backend.codes == ByteCount
      && |slotOffset| == 2 && activeSlot <= 1
    }

    /** The slot has a header with the right magic and the valid bit set. */
    ghost predicate ValidHeader(slot: nat)
      requires |slotOffset| == 2
      reads this, storage.backend.mem
    {
      HasHeader(Geometry(), storage.backend.mem[..], slot) && HeaderAt(Geometry(), storage.backend.mem[..], slot).flags % 2 == 1
    }

    constructor (storage: StorageManager, crc: Crc32Engine)
      requires crc.table as object != storage.backend.mem as object
      requires crc.Valid() && storage.backend.Valid() && storage.backend.codes == ByteCount
      ensures Valid() && this.storage == storage && this.crc == crc
      ensures State() == Firmware(storage.backend.mem[..], 0, 0, 0, 0, 0, false)
    {
      this.storage, this.crc := storage, crc;
      slotOffset := [0, 0];
      slotSize := 0;
      activeSlot, writeOffset, writeCrc, writeImageSize, writeVersion, writing := 0, 0, 0, 0, 0, false;
    }

    method Init(slotAOffset: u32, slotBOffset: u32, slotSize: u32) returns (ok: bool)
      requires Valid()
      modifies this
      ensures Valid() && ok
      ensures Geometry() == Layout(slotAOffset, slotBOffset, slotSize, storage.backend.sectorSize, storage.backend.mem.Length)
      ensures State() == old(State()).(active := InitialSlot(Geometry(), storage.backend.mem[..]))
      ensures activeSlot == 0 || activeSlot == 1
      ensures activeSlot == 1 <==> ValidHeader(1) && !ValidHeader(0)
    {
      hide Decode, HasHeader, HeaderAt;
      slotOffset := [slotAOffset, slotBOffset];
      this.slotSize := slotSize;
      var okA, hdrA := GetHeader(0);
      var okB, hdrB := GetHeader(1);
      var validA, validB := okA && hdrA.flags % 2 == 1, okB && hdrB.flags % 2 == 1;
      activeSlot := if validA then 0 else if validB then 1 else 0;
      ok := true;
    }

    method InactiveSlot() returns (slot: nat)
      ensures slot == State().Inactive()
    {
      slot := if activeSlot == 0 then 1 else 0;
    }

    method GetHeader(slot: nat) returns (ok: bool, header: Header)
      requires Valid()
      ensures ok == HasHeader(Geometry(), storage.backend.mem[..], slot)
      ensures ok ==> header == HeaderAt(Geometry(), storage.backend.mem[..], slot)
    {
      hide Decode;
      header := Header(0, 0, 0, 0, 0, 0, 0, 0, 0);
      if slot > 1 {
        return false, header;
      }
      var code, buf := storage.Read(slotOffset[slot], HEADER_SIZE);
      if code != HEADER_SIZE {
        return false, header;
      }
      header := Decode(buf);
      ok := header.magic == MAGIC;
    }

    method BeginWrite(imageSize: u32, version: u32) returns (ok: bool)
      requires Valid()
      modifies this
      ensures Valid() && Geometry() == old(Geometry())
      ensures (State(), ok) == FirmwareSpec.BeginWrite(Geometry(), old(State()), imageSize, version)
    {
      if imageSize > Wrap32(slotSize - HEADER_RESERVED) {
        return false;
      }
      writeOffset := HEADER_RESERVED;
      writeCrc := INITIAL;
      writeImageSize := imageSize;
      writeVersion := version;
      writing := true;
      ok := true;
    }

    method WriteChunk(data: seq<byte>) returns (written: int)
      requires Valid()
      modifies Repr()
      ensures Valid() && Geometry() == old(Geometry())
      ensures (State(), written) == FirmwareSpec.WriteChunk(Geometry(), old(State()), data)
    {
      hide FirmwareSpec.WriteChunk, StorageSpec.Write, Crc32Spec.Update, HasHeader, HeaderAt, Decode;
      ChunkOutcome(Geometry(), State(), data);
      if !writing {
        return -1;
      }
      var slot := InactiveSlot();
      var offset := Wrap32(slotOffset[slot] + writeOffset);
      var code := storage.Write(offset, data);
      if code < 0 {
        return -1;
      }
      writeCrc := crc.Update(writeCrc, data);
      writeOffset := Wrap32(writeOffset + |data|);
      written := |data|;
    }

    method FinalizeWrite() returns (ok: bool)
      requires Valid()
      modifies Repr()
      ensures Valid() && Geometry() == old(Geometry())
      ensures (State(), ok) == FirmwareSpec.FinalizeWrite(Geometry(), old(State()))
    {
      if !writing {
        return false;
      }
      var slot := InactiveSlot();
      var finalCrc := Finalize(writeCrc);
      var hdr := Header(MAGIC, writeVersion, writeImageSize, finalCrc, 0, slot, 1, 0, 0);
      var code := storage.Write(slotOffset[slot], Encode(hdr));
      writing := false;
      ok := Verify(slot);
    }

    /** Re-reads the body in blocks; the verdict does not depend on the blocking. */
    method Verify(slot: nat) returns (ok: bool)
      requires Valid()
      modifies crc, crc.table
      ensures Valid()
      ensures ok == Verifies(Geometry(), storage.backend.mem[..], slot)
    {
      hide Decode, Crc32Spec.Update, Finalize, HeaderAt, Verifies, BodyAt;
      ghost var l, m := Geometry(), storage.backend.mem[..];
      VerdictSteps(l, m, slot);
      if slot > 1 {
        return false;
      }
      var found, hdr := GetHeader(slot);
      if !found {
        return false;
      }
      if hdr.magic != MAGIC || hdr.flags % 2 != 1 {
        return false;
      }
      var readable, c := ReadBack(slotOffset[slot] + HEADER_RESERVED, hdr.size);
      if !readable {
        return false;
      }
      ok := Finalize(c) == hdr.crc32;
    }

    /** The block-wise loop of verify: the register after size bytes from start on. */
    method ReadBack(start: nat, size: nat) returns (readable: bool, c: u32)
      requires Valid()
      modifies crc, crc.table
      ensures Valid()
      ensures readable <==> size == 0 || start + size <= storage.backend.mem.Length
      ensures readable ==> c == Crc32Spec.Update(INITIAL, if size == 0 then [] else storage.backend.mem[..][start..start + size])
    {
      hide Crc32Spec.Update;
      c := INITIAL;
      var remaining: nat := size;
      var offset := start;
      ghost var m := storage.backend.mem[..];
      UpdateNothing(INITIAL);
      while remaining > 0
        invariant Valid() && m == storage.backend.mem[..]
        invariant start <= offset && offset + remaining == start + size && (offset == start || offset <= |m|)
        invariant c == Crc32Spec.Update(INITIAL, if offset == start then [] else m[start..offset])
      {
        var chunk := if remaining > VERIFY_CHUNK then VERIFY_CHUNK else remaining;
        var code, buf := storage.Read(offset, chunk);
        if code != chunk {
          return false, c;
        }
        assert buf == m[offset..offset + chunk];
        UpdateBlock(m, start, offset, offset + chunk);
        c := crc.Update(c, buf);
        offset := offset + chunk;
        remaining := remaining - chunk;
      }
      readable := true;
    }

    method ActivateSlot(slot: nat) returns (ok: bool)
      requires Valid()
      modifies Repr()
      ensures Valid() && Geometry() == old(Geometry())
      ensures (State(), ok) == FirmwareSpec.ActivateSlot(Geometry(), old(State()), slot)
    {
      hide Decode, Encode, StorageSpec.Write, BodyAt, Crc;
      if slot > 1 {
        return false;
      }
      var verified := Verify(slot);
      if !verified {
        return false;
      }
      var found, hdr := GetHeader(slot);
      var code := storage.Write(slotOffset[slot], Encode(hdr.Bootable()));
      activeSlot := slot;
      ok := true;
    }

    method Rollback() returns (ok: bool)
      requires Valid()
      modifies Repr()
      ensures Valid() && Geometry() == old(Geometry())
      ensures (State(), ok) == FirmwareSpec.Rollback(Geometry(), old(State()))
    {
      var prev := InactiveSlot();
      var verified := Verify(prev);
      if !verified {
        return false;
      }
      ok := ActivateSlot(prev);
    }
  }

  /** What becomes of a chunk: refused, lost in the flash, or written and counted. */
  lemma ChunkOutcome(l: Layout, s: Firmware, data: seq<byte>)
    requires l.sector > 0
    ensures !s.writing ==> FirmwareSpec.WriteChunk(l, s, data) == (s, -1)
    ensures s.writing ==> var r := StorageSpec.Write(s.mem, l.sector, Wrap32(l.Offset(s.Inactive()) + s.writeOffset), data);
      FirmwareSpec.WriteChunk(l, s, data) ==
        if !r.ok then (s.(mem := r.mem), -1)
        else (s.(mem := r.mem, writeCrc := Crc32Spec.Update(s.writeCrc, data), writeOffset := Wrap32(s.writeOffset + |data|)), |data|)
  {
    hide StorageSpec.Write, Crc32Spec.Update;
  }

  const VERIFY_CHUNK: nat := 4096

  /** The verdict in the order in which verify reaches it. */
  lemma VerdictSteps(l: Layout, m: seq<byte>, slot: nat)
    ensures Verifies(l, m, slot) ==> HasHeader(l, m, slot)
    ensures HasHeader(l, m, slot) ==> var h := HeaderAt(l, m, slot); var a := l.Offset(slot) + HEADER_RESERVED;
      && h.magic == MAGIC
      && (Verifies(l, m, slot) <==>
          && h.IsValid() && (h.size == 0 || a + h.size <= |m|)
          && Finalize(Crc32Spec.Update(INITIAL, if h.size == 0 then [] else m[a..a + h.size])) == h.crc32)
  {
    hide Decode, Crc32Spec.Update, Finalize;
  }

  lemma UpdateBlock(m: seq<byte>, a: nat, b: nat, c: nat)
    requires a <= b <= c <= |m|
    ensures Crc32Spec.Update(INITIAL, m[a..c]) == Crc32Spec.Update(Crc32Spec.Update(INITIAL, m[a..b]), m[b..c])
  {
    UpdateAppend(INITIAL, m[a..b], m[b..c]);
    assert m[a..b] + m[b..c] == m[a..c];
  }
}
