/**
 * Sector boundaries.
 *
 * Products and roundings with a variable sector size are spelled as recursive functions, so that
 * proofs about sectors of any size stay linear; TimesIsProduct and DownIsFloor say that they are
 * the source's s * d and x / d * d.
 */
module Sectors {

  /** Start of the sector that contains byte x, for sectors of d bytes. */
  function Down(x: nat, d: nat): nat
    requires d > 0
    decreases x
  {
    if x < d then 0 else Down(x - d, d) + d
  }

  /** x is a multiple of d, as AlignedIsMultiple says. */
  ghost predicate Aligned(x: nat, d: nat)
    requires d > 0
  {
    Down(x, d) == x
  }

  lemma {:induction false} DownBounds(x: nat, d: nat)
    requires d > 0
    ensures Down(x, d) <= x < Down(x, d) + d
    decreases x
  {
    if x >= d {
      DownBounds(x - d, d);
    }
  }

  /** Later bytes lie in the same or in a later sector. */
  lemma {:induction false} DownMonotone(x: nat, y: nat, d: nat)
    requires x <= y && d > 0
    ensures Down(x, d) == Down(y, d) || Down(x, d) + d <= Down(y, d)
    decreases x
  {
    if x >= d {
      DownMonotone(x - d, y - d, d);
    }
  }

  lemma {:induction false} DownAligned(x: nat, d: nat)
    requires d > 0
    ensures Aligned(Down(x, d), d) && Aligned(Down(x, d) + d, d)
    decreases x
  {
    if x >= d {
      DownAligned(x - d, d);
    }
  }

  /** Start of sector number s. */
  function Times(s: nat, d: nat): nat {
    if s == 0 then 0 else Times(s - 1, d) + d
  }

  lemma {:induction false} TimesIsProduct(s: nat, d: nat)
    ensures Times(s, d) == s * d
    decreases s
  {
    if s > 0 {
      TimesIsProduct(s - 1, d);
      assert s * d == (s - 1) * d + d;
    }
  }

  lemma {:induction false} TimesMonotone(a: nat, b: nat, d: nat)
    requires a <= b
    ensures Times(a, d) <= Times(b, d)
    ensures a < b ==> Times(a, d) + d <= Times(b, d)
    decreases b - a
  {
    if a < b {
      TimesMonotone(a, b - 1, d);
    }
  }

  lemma SameTimes(a: nat, b: nat, d: nat)
    requires d > 0 && Times(a, d) == Times(b, d)
    ensures a == b
  {
    if a < b {
      TimesMonotone(a, b, d);
    } else if b < a {
      TimesMonotone(b, a, d);
    }
  }

  lemma {:induction false} DownOfSector(x: nat, s: nat, d: nat)
    requires d > 0 && Times(s, d) <= x < Times(s, d) + d
    ensures Down(x, d) == Times(s, d)
    decreases s
  {
    if s > 0 {
      DownOfSector(x - d, s - 1, d);
    }
  }

  lemma Division(x: nat, d: nat)
    requires d > 0
    ensures x / d * d <= x < x / d * d + d && x == x / d * d + x % d
  {}

  lemma DownIsFloor(x: nat, d: nat)
    requires d > 0
    ensures Down(x, d) == Times(x / d, d) == x / d * d
    ensures Down(x, d) == x - x % d
  {
    Division(x, d);
    TimesIsProduct(x / d, d);
    DownOfSector(x, x / d, d);
  }

  lemma AlignedIsMultiple(x: nat, d: nat)
    requires d > 0
    ensures Aligned(x, d) <==> x % d == 0
  {
    DownIsFloor(x, d);
  }

  lemma {:induction false} AlignedSum(a: nat, b: nat, d: nat)
    requires d > 0 && Aligned(a, d) && Aligned(b, d)
    ensures Aligned(a + b, d)
    decreases a
  {
    if a >= d {
      AlignedSum(a - d, b, d);
    }
  }
}

/**
 * kernel/src/storage_manager.cpp over a NOR flash: erasing a range sets its bytes to 0xFF and
 * programming ands bytes in.  The flash contents are a byte sequence; the functions of this
 * module say what one StorageManager call does to it.
 */
module StorageSpec {
  import opened Words
  import opened Sectors

  /** The bytes lo..hi erased. */
  function Erased(m: seq<byte>, lo: nat, hi: nat): (r: seq<byte>)
    requires lo <= hi <= |m|
    ensures |r| == |m|
    ensures forall i | 0 <= i < |m| :: r[i] == if lo <= i < hi then 0xFF else m[i]
  {
    m[..lo] + seq(hi - lo, _ => 0xFF as byte) + m[hi..]
  }

  /** The bytes from offset on replaced by data. */
  function Overlaid(m: seq<byte>, offset: nat, data: seq<byte>): (r: seq<byte>)
    requires offset + |data| <= |m|
    ensures |r| == |m|
    ensures forall i | 0 <= i < |m| :: r[i] == if offset <= i < offset + |data| then data[i - offset] else m[i]
  {
    m[..offset] + data + m[offset + |data|..]
  }

  /**
   * The last sector the source computes for an empty write at offset 0: the 64-bit subtraction
   * offset + len - 1 wraps and the quotient is truncated to 32 bits.
   */
  function WrappedLastSector(sector: nat): nat
    requires sector > 0
  {
    0xFFFF_FFFF_FFFF_FFFF / sector % 0x1_0000_0000
  }

  /** End of the last sector a write wants erased. */
  function WantedEnd(sector: nat, offset: nat, len: nat): nat
    requires sector > 0
  {
    if offset + len == 0 then Times(WrappedLastSector(sector) + 1, sector) else Down(offset + len - 1, sector) + sector
  }

  datatype Outcome = Outcome(ok: bool, mem: seq<byte>)

  function Min(a: nat, b: nat): nat { if a < b then a else b }

  /** End of the erased bytes: sectors that stick out of the flash are not erased. */
  function ErasedEnd(total: nat, sector: nat, offset: nat, len: nat): nat
    requires sector > 0
  {
    Min(WantedEnd(sector, offset, len), Down(total, sector))
  }

  /**
   * StorageManager::write.  Sectors are erased one by one; the first that does not lie wholly
   * inside the flash stops the call with -1 after the earlier ones are gone.
   */
  function Write(m: seq<byte>, sector: nat, offset: nat, data: seq<byte>): (r: Outcome)
    requires sector > 0
    ensures |r.mem| == |m|
  {
    if offset + |data| > |m| then Outcome(false, m)
    else
      WriteBounds(|m|, sector, offset, |data|);
      var wiped := Erased(m, Down(offset, sector), ErasedEnd(|m|, sector, offset, |data|));
      if WantedEnd(sector, offset, |data|) <= |m|
      then Outcome(true, Overlaid(wiped, offset, data))
      else Outcome(false, wiped)
  }

  lemma StartBelowWanted(sector: nat, offset: nat, len: nat)
    requires sector > 0
    ensures Down(offset, sector) <= WantedEnd(sector, offset, len)
    ensures len > 0 ==> offset + len <= WantedEnd(sector, offset, len)
  {
    if offset + len > 0 {
      var x := offset + len - 1;
      DownBounds(x, sector);
      DownAligned(x, sector);
      DownMonotone(offset, Down(x, sector) + sector, sector);
    }
  }

  lemma WriteBounds(total: nat, sector: nat, offset: nat, len: nat)
    requires sector > 0 && offset + len <= total
    ensures Down(offset, sector) <= ErasedEnd(total, sector, offset, len) <= total
    ensures Down(offset, sector) <= offset && Down(offset, sector) <= Down(total, sector) <= total
    ensures len > 0 ==> offset + len <= WantedEnd(sector, offset, len)
  {
    StartBelowWanted(sector, offset, len);
    DownBounds(offset, sector);
    DownBounds(total, sector);
    DownMonotone(offset, total, sector);
  }

  /** The erased bytes end where the write wants them to exactly when that is inside the flash. */
  lemma WantedEndReached(total: nat, sector: nat, offset: nat, len: nat)
    requires sector > 0 && 0 < offset + len <= total
    ensures WantedEnd(sector, offset, len) <= total <==> WantedEnd(sector, offset, len) <= Down(total, sector)
  {
    var e := WantedEnd(sector, offset, len);
    DownAligned(offset + len - 1, sector);
    DownBounds(total, sector);
    if e <= total {
      DownMonotone(e, total, sector);
    }
  }

  // ---------------------------------------------------------------- what a write means

  /** The sector of byte i lies between the sector of the first written byte and that of the last. */
  ghost predicate InTouchedSector(i: nat, sector: nat, offset: nat, len: nat)
    requires sector > 0 && len > 0
  {
    Down(offset, sector) <= Down(i, sector) <= Down(offset + len - 1, sector)
  }

  lemma TouchedRange(i: nat, sector: nat, offset: nat, len: nat)
    requires sector > 0 && len > 0
    ensures InTouchedSector(i, sector, offset, len) <==> Down(offset, sector) <= i < WantedEnd(sector, offset, len)
  {
    var a, b := Down(offset, sector), Down(offset + len - 1, sector);
    DownBounds(i, sector);
    DownAligned(offset, sector);
    DownAligned(offset + len - 1, sector);
    if a <= i {
      DownMonotone(a, i, sector);
    }
    if i < b + sector {
      DownMonotone(i, b + sector, sector);
    }
  }

  lemma WriteAt(m: seq<byte>, sector: nat, offset: nat, data: seq<byte>, i: nat)
    requires sector > 0 && |data| > 0 && i < |m| && Write(m, sector, offset, data).ok
    ensures Write(m, sector, offset, data).mem[i] ==
      (if offset <= i < offset + |data| then data[i - offset]
       else if InTouchedSector(i, sector, offset, |data|) then 0xFF
       else m[i])
  {
    WriteBounds(|m|, sector, offset, |data|);
    WantedEndReached(|m|, sector, offset, |data|);
    TouchedRange(i, sector, offset, |data|);
  }

  /**
   * Erase-before-write is exact: whatever was there before, a successful non-empty write leaves the
   * data in place, the rest of every touched sector erased, and every other byte alone.  It fails
   * exactly when the range or the last touched sector sticks out of the flash.
   */
  lemma WriteIsExact(m: seq<byte>, sector: nat, offset: nat, data: seq<byte>)
    requires sector > 0 && |data| > 0
    ensures Write(m, sector, offset, data).ok
       <==> offset + |data| <= |m| && Down(offset + |data| - 1, sector) + sector <= |m|
    ensures Write(m, sector, offset, data).ok ==>
      forall i | 0 <= i < |m| :: Write(m, sector, offset, data).mem[i] ==
        (if offset <= i < offset + |data| then data[i - offset]
         else if InTouchedSector(i, sector, offset, |data|) then 0xFF
         else m[i])
  {
    if Write(m, sector, offset, data).ok {
      forall i | 0 <= i < |m|
        ensures Write(m, sector, offset, data).mem[i] ==
          (if offset <= i < offset + |data| then data[i - offset]
           else if InTouchedSector(i, sector, offset, |data|) then 0xFF
           else m[i])
      {
        WriteAt(m, sector, offset, data, i);
      }
    }
  }

  /** A successful write can be read back. */
  lemma WriteThenRead(m: seq<byte>, sector: nat, offset: nat, data: seq<byte>)
    requires sector > 0
    requires Write(m, sector, offset, data).ok
    ensures offset + |data| <= |m| && Write(m, sector, offset, data).mem[offset..offset + |data|] == data
  {
    WriteBounds(|m|, sector, offset, |data|);
  }

  lemma InsideBounds(total: nat, sector: nat, offset: nat, len: nat, lo: nat, hi: nat)
    requires sector > 0 && Aligned(lo, sector) && Aligned(hi, sector)
    requires lo <= offset && offset + len <= hi <= total && (len > 0 || lo < offset)
    ensures lo <= Down(offset, sector) && WantedEnd(sector, offset, len) <= hi
  {
    DownMonotone(lo, offset, sector);
    DownBounds(offset + len - 1, sector);
    DownMonotone(offset + len - 1, hi, sector);
  }

  /**
   * A write that stays inside a range of whole sectors succeeds and changes nothing outside it.
   * It may be empty, provided it does not start at the very beginning of the range.
   */
  lemma WriteStaysInside(m: seq<byte>, sector: nat, offset: nat, data: seq<byte>, lo: nat, hi: nat)
    requires sector > 0 && Aligned(lo, sector) && Aligned(hi, sector)
    requires lo <= offset && offset + |data| <= hi <= |m| && (|data| > 0 || lo < offset)
    ensures Write(m, sector, offset, data).ok
    ensures forall i | 0 <= i < |m| && !(lo <= i < hi) :: Write(m, sector, offset, data).mem[i] == m[i]
  {
    InsideBounds(|m|, sector, offset, |data|, lo, hi);
    WriteBounds(|m|, sector, offset, |data|);
  }

  /** A write that runs out of the flash is refused before anything is erased. */
  lemma RefusedWrite(m: seq<byte>, sector: nat, offset: nat, data: seq<byte>)
    requires sector > 0 && offset + |data| > |m|
    ensures Write(m, sector, offset, data) == Outcome(false, m)
  {}

  /** A write that starts on a sector boundary leaves everything before it alone. */
  lemma AlignedWriteKeepsPrefix(m: seq<byte>, sector: nat, offset: nat, data: seq<byte>)
    requires sector > 0 && Aligned(offset, sector) && Write(m, sector, offset, data).ok
    ensures offset <= |m| && Write(m, sector, offset, data).mem[..offset] == m[..offset]
  {
    WriteBounds(|m|, sector, offset, |data|);
  }

  /** A write that starts inside a sector wipes that sector up to the write. */
  lemma MisalignedWriteWipes(m: seq<byte>, sector: nat, offset: nat, data: seq<byte>)
    requires sector > 0 && |data| > 0 && Write(m, sector, offset, data).ok
    ensures offset <= |m|
    ensures forall i | 0 <= i < offset ::
      Write(m, sector, offset, data).mem[i] == if i < Down(offset, sector) then m[i] else 0xFF
  {
    WriteBounds(|m|, sector, offset, |data|);
    WantedEndReached(|m|, sector, offset, |data|);
  }

  lemma EmptyWantedEnd(sector: nat, offset: nat)
    requires sector > 0 && offset > 0
    ensures WantedEnd(sector, offset, 0) == Down(offset, sector) + (if Aligned(offset, sector) then 0 else sector)
  {
    DownBounds(offset, sector);
    DownBounds(offset - 1, sector);
    DownMonotone(offset - 1, offset, sector);
  }

  /** The end of the sectors an empty write wants erased: none, the one it starts in, or at offset 0 the wrapped count of them. */
  ghost function EmptyReach(sector: nat, offset: nat): nat
    requires sector > 0
  {
    if offset == 0 then Times(WrappedLastSector(sector) + 1, sector)
    else if Aligned(offset, sector) then offset
    else Down(offset, sector) + sector
  }

  /**
   * An empty write is not always harmless.  Whatever the flash holds, it leaves the contents alone exactly
   * when it starts beyond the flash, or on a sector boundary other than 0, or when the whole sectors it
   * reaches, one of them or at offset 0 all of them, are erased already.
   */
  lemma EmptyWriteHarmlessIff(m: seq<byte>, sector: nat, offset: nat)
    requires sector > 0
    ensures Write(m, sector, offset, []).mem == m
       <==>
         || offset > |m|
         || (offset > 0 && Aligned(offset, sector))
         || forall i | Down(offset, sector) <= i < |m| && i < EmptyReach(sector, offset) && i < Down(|m|, sector) :: m[i] == 0xFF
  {
    if offset <= |m| {
      WriteBounds(|m|, sector, offset, 0);
      DownMonotone(offset, |m|, sector);
      if offset > 0 {
        EmptyWantedEnd(sector, offset);
      }
      var r := Write(m, sector, offset, []).mem;
      var lo, hi := Down(offset, sector), ErasedEnd(|m|, sector, offset, 0);
      assert forall i | 0 <= i < |m| :: r[i] == if lo <= i < hi then 0xFF else m[i];
    }
  }

  /** The extreme case: an empty write at offset 0 of any flash of 4096-byte sectors erases all of it and reports failure. */
  lemma EmptyWriteAtZeroErasesFlash(m: seq<byte>, sector: nat)
    requires sector == 4096 && Aligned(|m|, sector) && |m| < 0x8000_0000
    ensures var r := Write(m, sector, 0, []);
      !r.ok && forall i | 0 <= i < |m| :: r.mem[i] == 0xFF
  {
    assert WrappedLastSector(sector) == 0xFFFF_FFFF;
    TimesIsProduct(0xFFFF_FFFF + 1, sector);
    WriteBounds(|m|, sector, 0, 0);
  }
}

/** The flash device and the manager in front of it, updated in place. */
module Storage {
  import opened Words
  import opened Sectors
  import opened StorageSpec

  /** What a backend call returns when it succeeds: the number of bytes moved, or 0. */
  datatype Convention = ByteCount | Zero

  function SuccessCode(c: Convention, len: nat): int {
    if c == ByteCount then len else 0
  }

  /** A fault-free NOR flash: calls fail only when they leave the device. */
  class FlashBackend {
    const mem: array<byte>
    const sectorSize: nat
    const codes: Convention

    ghost predicate Valid() {
      sectorSize > 0 && mem.Length < 0x8000_0000
    }

    constructor (mem: array<byte>, sectorSize: nat, codes: Convention)
      requires sectorSize > 0 && mem.Length < 0x8000_0000
      ensures Valid() && this.mem == mem && this.sectorSize == sectorSize && this.codes == codes
    {
      this.mem, this.sectorSize, this.codes := mem, sectorSize, codes;
    }

    method Read(offset: nat, len: nat) returns (code: int, buf: seq<byte>)
      ensures if offset + len <= mem.Length
        then code == SuccessCode(codes, len) && buf == mem[offset..offset + len]
        else code == -1 && buf == []
    {
      if offset + len > mem.Length {
        return -1, [];
      }
      return SuccessCode(codes, len), mem[offset..offset + len];
    }

    /** Programming can only clear bits. */
    method Program(offset: nat, buf: seq<byte>) returns (code: int)
      modifies mem
      ensures code == if offset + |buf| <= mem.Length then SuccessCode(codes, |buf|) else -1
      ensures forall i | 0 <= i < mem.Length ::
        mem[i] == if offset + |buf| <= mem.Length && offset <= i < offset + |buf|
                  then And(old(mem[i]), buf[i - offset]) else old(mem[i])
    {
      if offset + |buf| > mem.Length {
        return -1;
      }
      forall i | offset <= i < offset + |buf| {
        mem[i] := And(mem[i], buf[i - offset]);
      }
      code := SuccessCode(codes, |buf|);
    }

    method Erase(offset: nat, len: nat) returns (code: int)
      modifies mem
      ensures code == if offset + len <= mem.Length then 0 else -1
      ensures mem[..] == if offset + len <= mem.Length then Erased(old(mem[..]), offset, offset + len) else old(mem[..])
    {
      if offset + len > mem.Length {
        return -1;
      }
      forall i | offset <= i < offset + len {
        mem[i] := 0xFF;
      }
      code := 0;
      assert mem[..] == Erased(old(mem[..]), offset, offset + len);
    }
  }

  class StorageManager {
    const backend: FlashBackend

    constructor (backend: FlashBackend)
      ensures this.backend == backend
    {
      this.backend := backend;
    }

    method Read(offset: nat, len: nat) returns (code: int, buf: seq<byte>)
      ensures if offset + len <= backend.mem.Length
        then code == SuccessCode(backend.codes, len) && buf == backend.mem[offset..offset + len]
        else code == -1 && buf == []
    {
      if offset + len > backend.mem.Length {
        return -1, [];
      }
      code, buf := backend.Read(offset, len);
    }

    /** Erase every touched sector, then program. */
    method Write(offset: nat, buf: seq<byte>) returns (code: int)
      requires backend.Valid()
      modifies backend.mem
      ensures var r := StorageSpec.Write(old(backend.mem[..]), backend.sectorSize, offset, buf);
        && backend.mem[..] == r.mem
        && code == if r.ok then SuccessCode(backend.codes, |buf|) else -1
    {
      if offset + |buf| > backend.mem.Length {
        return -1;
      }
      var sector := backend.sectorSize;
      var startSector := offset / sector;
      var endSector := (offset + |buf| - 1) % 0x1_0000_0000_0000_0000 / sector % 0x1_0000_0000;
      DownIsFloor(offset, sector);
      EndSectorEnds(offset, |buf|, sector, endSector);
      WriteBounds(backend.mem.Length, sector, offset, |buf|);
      FirstUpToLast(offset, |buf|, sector, startSector, endSector);
      EraseTarget(backend.mem.Length, sector, offset, |buf|);
      var ok := EraseSectors(startSector, endSector);
      if !ok {
        return -1;
      }
      ghost var wiped := backend.mem[..];
      code := backend.Program(offset, buf);
      ProgramErased(wiped, backend.mem[..], offset, buf);
    }

    /** Erases sectors first..=last one by one; stops at the first that is not wholly inside the device. */
    method EraseSectors(first: nat, last: nat) returns (ok: bool)
      requires backend.Valid()
      requires first <= last + 1 && Times(first, backend.sectorSize) <= Down(backend.mem.Length, backend.sectorSize)
      modifies backend.mem
      ensures ok <==> Times(last + 1, backend.sectorSize) <= backend.mem.Length
      ensures var sector := backend.sectorSize;
        var hi := Min(Times(last + 1, sector), Down(backend.mem.Length, sector));
        && Times(first, sector) <= hi <= backend.mem.Length
        && backend.mem[..] == Erased(old(backend.mem[..]), Times(first, sector), hi)
    {
      hide Erased, Down, Times;
      var sector := backend.sectorSize;
      var s := first;
      ghost var m, cap := backend.mem[..], Down(backend.mem.Length, sector);
      ghost var lo := Times(first, sector);
      ghost var hi, end := lo, Times(last + 1, sector);
      DownBounds(backend.mem.Length, sector);
      TimesMonotone(first, last + 1, sector);
      ErasedNothing(m, lo);
      while s <= last
        invariant first <= s <= last + 1
        invariant lo <= hi == Times(s, sector) <= cap
        invariant hi <= end
        invariant backend.mem[..] == Erased(m, lo, hi)
        decreases last + 1 - s
      {
        TimesMonotone(s, last + 1, sector);
        SectorFits(s, sector, |m|);
        TimesIsProduct(s, sector);
        TimesNext(s, sector);
        var erased := backend.Erase(s * sector, sector);
        if erased != 0 {
          return false;
        }
        ErasedFurther(m, lo, hi, hi + sector);
        s, hi := s + 1, hi + sector;
      }
      ok := true;
    }
  }

  lemma ErasedNothing(m: seq<byte>, lo: nat)
    requires lo <= |m|
    ensures Erased(m, lo, lo) == m
  {}

  lemma TimesNext(s: nat, d: nat)
    ensures Times(s + 1, d) == Times(s, d) + d
  {}

  lemma SectorFits(s: nat, sector: nat, total: nat)
    requires sector > 0 && Times(s, sector) <= Down(total, sector)
    ensures Times(s, sector) + sector <= total ==> Times(s, sector) + sector <= Down(total, sector)
    ensures Times(s, sector) + sector > total ==> Times(s, sector) == Down(total, sector)
  {
    DownBounds(total, sector);
    DownOfSector(Times(s, sector), s, sector);
    DownMonotone(Times(s, sector), total, sector);
  }

  lemma ErasedFurther(m: seq<byte>, a: nat, b: nat, c: nat)
    requires a <= b <= c <= |m|
    ensures Erased(Erased(m, a, b), b, c) == Erased(m, a, c)
  {}

  lemma TimesAtLeast(s: nat, d: nat)
    requires d > 0
    ensures s <= Times(s, d)
  {}

  lemma QuotientBelow(x: nat, d: nat)
    requires d > 0
    ensures x / d <= x
  {
    DownIsFloor(x, d);
    DownBounds(x, d);
    TimesAtLeast(x / d, d);
  }

  lemma SmallQuotient(x: nat, sector: nat)
    requires sector > 0 && x < 0x8000_0000
    ensures x % 0x1_0000_0000_0000_0000 / sector % 0x1_0000_0000 == x / sector
  {
    hide Down, Times;
    QuotientBelow(x, sector);
    assert x % 0x1_0000_0000_0000_0000 == x;
  }

  /** The 64-bit subtraction and the 32-bit truncation of the source give the end of the last touched sector. */
  lemma EndSectorEnds(offset: nat, len: nat, sector: nat, endSector: nat)
    requires sector > 0 && offset + len < 0x8000_0000
    requires endSector == (offset + len - 1) % 0x1_0000_0000_0000_0000 / sector % 0x1_0000_0000
    ensures Times(endSector + 1, sector) == WantedEnd(sector, offset, len)
  {
    hide Down, Times;
    if offset + len > 0 {
      var x := offset + len - 1;
      SmallQuotient(x, sector);
      TimesNext(x / sector, sector);
      DownIsFloor(x, sector);
    }
  }

  lemma EraseTarget(total: nat, sector: nat, offset: nat, len: nat)
    requires sector > 0 && offset + len <= total
    ensures WantedEnd(sector, offset, len) <= total ==> offset + len <= ErasedEnd(total, sector, offset, len) || len == 0
  {
    if len > 0 {
      WriteBounds(total, sector, offset, len);
      WantedEndReached(total, sector, offset, len);
    }
  }

  lemma FirstUpToLast(offset: nat, len: nat, sector: nat, startSector: nat, endSector: nat)
    requires sector > 0
    requires Times(startSector, sector) == Down(offset, sector)
    requires Times(endSector + 1, sector) == WantedEnd(sector, offset, len)
    ensures startSector <= endSector + 1
  {
    WriteBounds(offset + len, sector, offset, len);
    StartBelowWanted(sector, offset, len);
    if startSector > endSector + 1 {
      TimesMonotone(endSector + 1, startSector, sector);
    }
  }

  lemma ProgramErased(wiped: seq<byte>, after: seq<byte>, offset: nat, buf: seq<byte>)
    requires offset + |buf| <= |wiped| == |after|
    requires forall i | offset <= i < offset + |buf| :: wiped[i] == 0xFF
    requires forall i | 0 <= i < |wiped| ::
      after[i] == if offset <= i < offset + |buf| then And(wiped[i], buf[i - offset]) else wiped[i]
    ensures after == Overlaid(wiped, offset, buf)
  {
    forall i | offset <= i < offset + |buf| ensures after[i] == buf[i - offset] {
      AndErased(buf[i - offset]);
    }
  }
}
