/**
 * What goes wrong with an update: chunks that do not start on a sector boundary, chunks that run over
 * their slot, and headers that announce more than their slot holds.  Each hazard comes with the exact
 * condition under which it is harmless.
 */
module FirmwareHazards {
  import opened Words
  import opened Sectors
  import opened StorageSpec
  import opened Crc32Spec
  import opened ShiftRegister
  import opened FirmwareSpec
  import opened FirmwareRuns

  // ---------------------------------------------------------------- chunks inside a sector

  function Erasure(n: nat): (e: seq<byte>)
    ensures |e| == n && forall i | 0 <= i < n :: e[i] == 0xFF
  {
    seq(n, _ => 0xFF as byte)
  }

  lemma WipedBody(m: seq<byte>, n: seq<byte>, a: nat, o: nat, wipe: nat, c1: seq<byte>, c2: seq<byte>)
    requires o == a + |c1| && o + |c2| <= |m| == |n| && a <= wipe <= o
    requires m[a..o] == c1 && n[o..o + |c2|] == c2
    requires forall i | 0 <= i < o :: n[i] == if i < wipe then m[i] else 0xFF
    ensures n[a..o + |c2|] == c1[..wipe - a] + Erasure(o - wipe) + c2
  {
    assert n[a..o + |c2|] == n[a..o] + n[o..o + |c2|];
    assert n[a..wipe] == c1[..wipe - a] by {
      assert forall i | a <= i < wipe :: n[i] == m[i] == m[a..o][i - a];
    }
    assert n[wipe..o] == Erasure(o - wipe);
    assert n[a..o] == n[a..wipe] + n[wipe..o];
  }

  lemma {:induction false} DownSum(a: nat, x: nat, d: nat)
    requires d > 0 && Aligned(a, d)
    ensures Down(a + x, d) == a + Down(x, d)
    decreases a
  {
    if a >= d {
      DownSum(a - d, x, d);
    }
  }

  /** How many bytes of the previous chunk lie in the sector the next one starts in. */
  function Overlap(sector: nat, received: nat): nat
    requires sector > 0
  {
    DownBounds(HEADER_RESERVED + received, sector);
    HEADER_RESERVED + received - Down(HEADER_RESERVED + received, sector)
  }

  lemma OverlapIsReceived(sector: nat, received: nat)
    requires sector > 0 && Aligned(HEADER_RESERVED, sector)
    ensures Overlap(sector, received) <= received
  {
    DownMonotone(HEADER_RESERVED, HEADER_RESERVED + received, sector);
  }

  /** A write that continues data inside a sector, empty or not, erases that sector up to the write. */
  lemma SectorStartWiped(m: seq<byte>, sector: nat, offset: nat, data: seq<byte>)
    requires sector > 0 && offset > 0 && Write(m, sector, offset, data).ok
    ensures offset <= |m|
    ensures forall i | 0 <= i < offset ::
      Write(m, sector, offset, data).mem[i] == if i < Down(offset, sector) then m[i] else 0xFF
  {
    hide Down;
    WriteBounds(|m|, sector, offset, |data|);
    WantedEndReached(|m|, sector, offset, |data|);
    DownBounds(offset, sector);
    if data == [] {
      EmptyWantedEnd(sector, offset);
    }
  }

  /** The bytes around a write that continues data inside a sector. */
  lemma MisalignedWriteBody(m: seq<byte>, n: seq<byte>, sector: nat, a: nat, c1: seq<byte>, c2: seq<byte>)
    requires sector > 0 && 0 < a <= Down(a + |c1|, sector) <= a + |c1| <= |m|
    requires m[a..a + |c1|] == c1 && Write(m, sector, a + |c1|, c2) == Outcome(true, n)
    ensures a + |c1| + |c2| <= |n|
    ensures n[a..a + |c1| + |c2|] == c1[..Down(a + |c1|, sector) - a] + Erasure(a + |c1| - Down(a + |c1|, sector)) + c2
  {
    hide Write, Down, Erasure;
    var o := a + |c1|;
    var wipe := Down(o, sector);
    SectorStartWiped(m, sector, o, c2);
    WriteThenRead(m, sector, o, c2);
    assert |n| == |m| by { WriteKeepsLength(m, sector, o, c2); }
    assert forall i | 0 <= i < o :: n[i] == if i < wipe then m[i] else 0xFF;
    WipedBody(m, n, a, o, wipe, c1, c2);
  }

  lemma WriteKeepsLength(m: seq<byte>, sector: nat, offset: nat, data: seq<byte>)
    requires sector > 0
    ensures |Write(m, sector, offset, data).mem| == |m|
  {}

  /** Where the sector that a chunk starts in begins, seen from the slot and from the flash. */
  lemma WipeStart(l: Layout, slot: nat, received: nat)
    requires l.Ok() && slot <= 1
    ensures var a := l.Offset(slot) + HEADER_RESERVED; var r := Overlap(l.sector, received);
      r <= received && Down(a + received, l.sector) == a + received - r
  {
    hide Down, Aligned;
    Boundaries(l, slot);
    OverlapIsReceived(l.sector, received);
    DownSum(l.Offset(slot), HEADER_RESERVED + received, l.sector);
  }

  /** The body in flash after one more chunk: the chunk wipes what lies before it in the sector it starts in. */
  function AfterChunk(sector: nat, stored: seq<byte>, data: seq<byte>): (r: seq<byte>)
    requires sector > 0 && Aligned(HEADER_RESERVED, sector)
    ensures |r| == |stored| + |data|
  {
    OverlapIsReceived(sector, |stored|);
    var r := Overlap(sector, |stored|);
    stored[..|stored| - r] + Erasure(r) + data
  }

  /** An update in progress has received `sent`, and the flash holds `stored` of it. */
  ghost predicate Stored(l: Layout, s: Firmware, sent: seq<byte>, stored: seq<byte>) {
    && Inv(l, s) && s.writing && |stored| == |sent|
    && s.writeOffset == HEADER_RESERVED + |sent|
    && s.writeCrc == Update(INITIAL, sent)
    && BodyAt(l, s.mem, s.Inactive(), |stored|) == stored
  }

  /** A chunk that starts anywhere in a sector, empty or not: what the flash holds and what the checksum covers afterwards. */
  lemma MisalignedChunkBody(l: Layout, s: Firmware, sent: seq<byte>, stored: seq<byte>, data: seq<byte>)
    requires Stored(l, s, sent, stored) && s.writeOffset + |data| <= l.slotSize
    ensures var t := WriteChunk(l, s, data).0;
      && Stored(l, t, sent + data, AfterChunk(l.sector, stored, data))
      && t.active == s.active && t.imageSize == s.imageSize && t.version == s.version
  {
    hide Update, Write, WriteChunk, Decode, SizesFit, Down, Aligned, HeaderAt, Overlap, Erasure;
    var slot := s.Inactive();
    ChunkStep(l, s, data);
    StepKeepsInv(l, s, Chunk(data));
    UpdateAppend(INITIAL, sent, data);
    WipeStart(l, slot, |stored|);
    MisalignedWriteBody(s.mem, WriteChunk(l, s, data).0.mem, l.sector, l.Offset(slot) + HEADER_RESERVED, stored, data);
  }

  // ---------------------------------------------------------------- whole updates in any chunks

  /** The body in flash after a list of chunks. */
  function InFlash(sector: nat, stored: seq<byte>, chunks: seq<seq<byte>>): (r: seq<byte>)
    requires sector > 0 && Aligned(HEADER_RESERVED, sector)
    decreases |chunks|
  {
    if |chunks| == 0 then stored else InFlash(sector, AfterChunk(sector, stored, chunks[0]), chunks[1..])
  }

  /** Whatever the chunks wipe was 0xFF anyway. */
  ghost predicate TailsErased(sector: nat, sent: seq<byte>, chunks: seq<seq<byte>>)
    requires sector > 0 && Aligned(HEADER_RESERVED, sector)
    decreases |chunks|
  {
    |chunks| == 0 || (TailErased(sector, sent) && TailsErased(sector, sent + chunks[0], chunks[1..]))
  }

  ghost predicate TailErased(sector: nat, sent: seq<byte>)
    requires sector > 0 && Aligned(HEADER_RESERVED, sector)
  {
    OverlapIsReceived(sector, |sent|);
    sent[|sent| - Overlap(sector, |sent|)..] == Erasure(Overlap(sector, |sent|))
  }

  lemma {:induction false} ChunksStored(l: Layout, s: Firmware, sent: seq<byte>, stored: seq<byte>, chunks: seq<seq<byte>>)
    requires Stored(l, s, sent, stored) && s.writeOffset + |Flatten(chunks)| <= l.slotSize
    ensures var t := Run(l, s, Chunks(chunks));
      && Stored(l, t, sent + Flatten(chunks), InFlash(l.sector, stored, chunks))
      && t.active == s.active && t.imageSize == s.imageSize
    decreases |chunks|
  {
    hide Update, Write, Decode, WriteChunk, Aligned, SizesFit, BodyAt, HeaderAt, Step, AfterChunk;
    if |chunks| == 0 {
      assert sent + Flatten(chunks) == sent;
    } else {
      MisalignedChunkBody(l, s, sent, stored, chunks[0]);
      FirstChunk(l, s, sent, chunks);
      ChunksStored(l, WriteChunk(l, s, chunks[0]).0, sent + chunks[0], AfterChunk(l.sector, stored, chunks[0]), chunks[1..]);
    }
  }

  /** Bytes of the flash are as sent or erased. */
  ghost predicate SentOrErased(sent: seq<byte>, stored: seq<byte>) {
    |stored| == |sent| && forall i | 0 <= i < |sent| :: stored[i] == sent[i] || stored[i] == 0xFF
  }

  /** One chunk: the flash agrees with what was sent exactly when it did before and the wiped bytes were 0xFF. */
  lemma ChunkIntactIff(sector: nat, sent: seq<byte>, stored: seq<byte>, data: seq<byte>)
    requires sector > 0 && Aligned(HEADER_RESERVED, sector) && SentOrErased(sent, stored)
    ensures SentOrErased(sent + data, AfterChunk(sector, stored, data))
    ensures AfterChunk(sector, stored, data) == sent + data <==> stored == sent && TailErased(sector, sent)
  {
    hide Overlap, Aligned;
    OverlapIsReceived(sector, |sent|);
    var r := Overlap(sector, |sent|);
    var k := |sent| - r;
    var after := AfterChunk(sector, stored, data);
    if after == sent + data {
      assert stored[..k] == after[..k] == sent[..k];
      assert Erasure(r) == after[k..|sent|] == (sent + data)[k..|sent|] == sent[k..];
      assert forall i | k <= i < |sent| :: sent[i] == sent[k..][i - k] == 0xFF;
      assert stored == sent;
    }
    if stored == sent && TailErased(sector, sent) {
      assert sent == sent[..k] + sent[k..];
    }
  }

  /** A spoiled byte never recovers: the flash holds the image exactly when no chunk wiped anything but 0xFF. */
  lemma {:induction false} FlashIntactIff(sector: nat, sent: seq<byte>, stored: seq<byte>, chunks: seq<seq<byte>>)
    requires sector > 0 && Aligned(HEADER_RESERVED, sector) && SentOrErased(sent, stored)
    ensures InFlash(sector, stored, chunks) == sent + Flatten(chunks) <==> stored == sent && TailsErased(sector, sent, chunks)
    decreases |chunks|
  {
    hide Aligned, SentOrErased, TailErased, AfterChunk;
    if |chunks| == 0 {
      assert sent + Flatten(chunks) == sent;
    } else {
      ChunkIntactIff(sector, sent, stored, chunks[0]);
      FlashIntactIff(sector, sent + chunks[0], AfterChunk(sector, stored, chunks[0]), chunks[1..]);
      assert (sent + chunks[0]) + Flatten(chunks[1..]) == sent + Flatten(chunks);
    }
  }

  /** On sector boundaries nothing is wiped. */
  lemma {:induction false} SectorWiseTailsErased(sector: nat, sent: seq<byte>, chunks: seq<seq<byte>>)
    requires sector > 0 && Aligned(HEADER_RESERVED, sector) && SectorWise(sector, HEADER_RESERVED + |sent|, chunks)
    ensures TailsErased(sector, sent, chunks)
    decreases |chunks|
  {
    hide Down;
    if |chunks| > 0 {
      SectorWiseTailsErased(sector, sent + chunks[0], chunks[1..]);
    }
  }

  /**
   * A whole update in chunks of any lengths, empty ones included: the slot reads back as the image exactly when every
   * wiped tail was 0xFF, and finalizeWrite succeeds exactly when what is in flash has the image's checksum.
   */
  lemma UpdateIntactIff(l: Layout, s: Firmware, version: u32, chunks: seq<seq<byte>>)
    requires Inv(l, s) && HEADER_RESERVED + |Flatten(chunks)| <= l.slotSize
    ensures var image := Flatten(chunks);
      var t := Run(l, BeginWrite(l, s, |image|, version).0, Chunks(chunks));
      && (BodyAt(l, t.mem, s.Inactive(), |image|) == image <==> TailsErased(l.sector, [], chunks))
      && (FinalizeWrite(l, t).1 <==> Crc(InFlash(l.sector, [], chunks)) == Crc(image))
  {
    hide Update, Write, Decode, FinalizeWrite, Run, TailsErased, InFlash, Finalize, Aligned, SizesFit, HeaderAt, BodyAt;
    var image := Flatten(chunks);
    var b := BeginWrite(l, s, |image|, version).0;
    BeginReceives(l, s, |image|, version);
    ChunksStored(l, b, [], [], chunks);
    assert [] + image == image;
    FlashIntactIff(l.sector, [], [], chunks);
    FinalizeSucceedsIff(l, Run(l, b, Chunks(chunks)));
  }

  // ---------------------------------------------------------------- spoiled updates are noticed

  /**
   * An update of any chunks that lost bytes on the way is refused by finalizeWrite whenever the damage lies
   * in a burst of 32 bits.
   */
  lemma SpoiledUpdateRejected(l: Layout, s: Firmware, version: u32, chunks: seq<seq<byte>>, p: nat)
    requires Inv(l, s) && HEADER_RESERVED + |Flatten(chunks)| <= l.slotSize
    requires !TailsErased(l.sector, [], chunks)
    requires DifferOnlyInBurst(InFlash(l.sector, [], chunks), Flatten(chunks), p, 32)
    ensures !FinalizeWrite(l, Run(l, BeginWrite(l, s, |Flatten(chunks)|, version).0, Chunks(chunks))).1
  {
    hide FinalizeWrite, BeginWrite, Run, Chunks, TailsErased, InFlash, SizesFit, Crc, BodyAt, Down;
    var image := Flatten(chunks);
    UpdateIntactIff(l, s, version, chunks);
    assert [] + image == image;
    FlashIntactIff(l.sector, [], [], chunks);
    CrcDetectsBurst(InFlash(l.sector, [], chunks), image, p);
  }

  /** Chunks that would not wipe anything but 0xFF add their bytes to whatever the flash holds by then. */
  lemma {:induction false} HarmlessChunksStored(sector: nat, sent: seq<byte>, stored: seq<byte>, chunks: seq<seq<byte>>)
    requires sector > 0 && Aligned(HEADER_RESERVED, sector) && SentOrErased(sent, stored) && TailsErased(sector, sent, chunks)
    ensures InFlash(sector, stored, chunks) == stored + Flatten(chunks)
    decreases |chunks|
  {
    hide Aligned, SentOrErased, TailErased, AfterChunk;
    if |chunks| == 0 {
      assert stored + Flatten(chunks) == stored;
    } else {
      ChunkIntactIff(sector, sent, stored, chunks[0]);
      HarmlessChunkStored(sector, sent, stored, chunks[0]);
      HarmlessChunksStored(sector, sent + chunks[0], AfterChunk(sector, stored, chunks[0]), chunks[1..]);
      assert (stored + chunks[0]) + Flatten(chunks[1..]) == stored + Flatten(chunks);
    }
  }

  lemma HarmlessChunkStored(sector: nat, sent: seq<byte>, stored: seq<byte>, data: seq<byte>)
    requires sector > 0 && Aligned(HEADER_RESERVED, sector) && SentOrErased(sent, stored) && TailErased(sector, sent)
    ensures AfterChunk(sector, stored, data) == stored + data
  {
    hide Overlap, Aligned;
    OverlapIsReceived(sector, |sent|);
    var k := |sent| - Overlap(sector, |sent|);
    assert forall i | k <= i < |sent| :: sent[i] == sent[k..][i - k] == 0xFF;
    assert stored == stored[..k] + stored[k..];
  }

  lemma {:induction false} ChunksSplit(sector: nat, stored: seq<byte>, before: seq<seq<byte>>, after: seq<seq<byte>>)
    requires sector > 0 && Aligned(HEADER_RESERVED, sector)
    ensures Flatten(before + after) == Flatten(before) + Flatten(after)
    ensures InFlash(sector, stored, before + after) == InFlash(sector, InFlash(sector, stored, before), after)
    decreases |before|
  {
    hide Aligned, AfterChunk;
    if |before| == 0 {
      assert before + after == after;
    } else {
      assert (before + after)[1..] == before[1..] + after;
      ChunksSplit(sector, AfterChunk(sector, stored, before[0]), before[1..], after);
    }
  }

  /**
   * One chunk, anywhere in an update, that starts one to four bytes into a sector: finalizeWrite notices
   * the loss, unless the wiped bytes were 0xFF anyway.
   */
  lemma MisalignedUpdateRejected(l: Layout, s: Firmware, version: u32, before: seq<seq<byte>>, c: seq<byte>, after: seq<seq<byte>>)
    requires Inv(l, s) && HEADER_RESERVED + |Flatten(before + ([c] + after))| <= l.slotSize
    requires TailsErased(l.sector, [], before) && TailsErased(l.sector, Flatten(before) + c, after)
    requires 1 <= Overlap(l.sector, |Flatten(before)|) <= 4 && !TailErased(l.sector, Flatten(before))
    ensures var chunks := before + ([c] + after);
      !FinalizeWrite(l, Run(l, BeginWrite(l, s, |Flatten(chunks)|, version).0, Chunks(chunks))).1
  {
    hide FinalizeWrite, BeginWrite, Run, Chunks, TailsErased, InFlash, SizesFit, Crc, BodyAt, Down, Flatten, Overlap;
    var sent, chunks := Flatten(before), before + ([c] + after);
    var r := Overlap(l.sector, |sent|);
    OverlapIsReceived(l.sector, |sent|);
    UpdateIntactIff(l, s, version, chunks);
    SpoiledInFlash(l.sector, before, c, after);
    var pre, u := sent[..|sent| - r], sent[|sent| - r..];
    CrcDetectsWindow(pre, u, Erasure(r), c + Flatten(after));
    assert pre + u == sent;
    assert pre + u + (c + Flatten(after)) == sent + c + Flatten(after);
    assert pre + Erasure(r) + (c + Flatten(after)) == pre + Erasure(r) + c + Flatten(after);
  }

  lemma SpoiledInFlash(sector: nat, before: seq<seq<byte>>, c: seq<byte>, after: seq<seq<byte>>)
    requires sector > 0 && Aligned(HEADER_RESERVED, sector)
    requires TailsErased(sector, [], before) && TailsErased(sector, Flatten(before) + c, after)
    ensures Flatten(before + ([c] + after)) == Flatten(before) + c + Flatten(after)
    ensures InFlash(sector, [], before + ([c] + after)) == AfterChunk(sector, Flatten(before), c) + Flatten(after)
  {
    hide AfterChunk, Aligned, TailsErased;
    var sent := Flatten(before);
    ChunksSplit(sector, [], before, [c] + after);
    HarmlessChunksStored(sector, [], [], before);
    assert [] + sent == sent;
    assert ([c] + after)[1..] == after;
    ChunkIntactIff(sector, sent, sent, c);
    HarmlessChunksStored(sector, sent + c, AfterChunk(sector, sent, c), after);
  }

  lemma TwoChunksRun(l: Layout, s: Firmware, a: seq<byte>, b: seq<byte>)
    requires l.sector > 0
    ensures Flatten([a, b]) == a + b && Flatten([a]) == a && Flatten([]) == []
    ensures Run(l, s, Chunks([a, b])) == WriteChunk(l, WriteChunk(l, s, a).0, b).0
  {
    hide WriteChunk;
    assert [a, b][1..] == [b] && [b][1..] == [] && [a][1..] == [];
    FirstChunk(l, s, [], [a, b]);
    FirstChunk(l, WriteChunk(l, s, a).0, [], [b]);
  }

  /** A concrete case, for any layout with sectors of more than one byte: the bytes 1 and 2 sent in two chunks are refused. */
  lemma TwoBytesRejected(l: Layout, s: Firmware, version: u32)
    requires Inv(l, s) && l.sector > 1 && HEADER_RESERVED + 2 <= l.slotSize
    ensures !FinalizeWrite(l, WriteChunk(l, WriteChunk(l, BeginWrite(l, s, 2, version).0, [1]).0, [2]).0).1
  {
    hide FinalizeWrite, BeginWrite, WriteChunk, Run, Chunks, SizesFit, Flatten;
    var chunks := [[1 as byte], [2]];
    assert [[1 as byte]] + ([[2 as byte]] + []) == chunks;
    TwoChunksRun(l, BeginWrite(l, s, 2, version).0, [1], [2]);
    OneByteReceived(l.sector);
    MisalignedUpdateRejected(l, s, version, [[1]], [2], []);
  }

  lemma OneByteReceived(sector: nat)
    requires sector > 1 && Aligned(HEADER_RESERVED, sector)
    ensures Overlap(sector, 0) == 0 && Overlap(sector, 1) == 1
    ensures TailsErased(sector, [], [[1]]) && !TailErased(sector, [1])
  {
    hide Down;
    DownSum(HEADER_RESERVED, 0, sector);
    DownSum(HEADER_RESERVED, 1, sector);
    SmallDown(sector);
    assert [[1 as byte]][1..] == [];
    assert [] + [1 as byte] == [1];
    assert [1 as byte][0..][0] == 1;
  }

  lemma SmallDown(sector: nat)
    requires sector > 1
    ensures Down(0, sector) == 0 && Down(1, sector) == 0
  {}

  // ---------------------------------------------------------------- chunks over the end of the slot

  lemma WriteKeepsBelow(m: seq<byte>, sector: nat, offset: nat, data: seq<byte>, a: nat, b: nat)
    requires sector > 0 && a <= b <= Down(offset, sector) && b <= |m|
    ensures Write(m, sector, offset, data).mem[a..b] == m[a..b]
  {
    hide Down;
    if offset + |data| <= |m| {
      WriteBounds(|m|, sector, offset, |data|);
    }
  }

  lemma ActiveKeptBySlot(l: Layout, s: Firmware, n: seq<byte>)
    requires Inv(l, s) && Verifies(l, s.mem, s.active) && |n| == l.total && SameSlot(l, s.mem, n, s.active)
    ensures Verifies(l, n, s.active)
  {
    hide Decode, Crc, BodyAt;
    SameSlotSameVerdict(l, s.mem, n, s.active);
  }

  /** A chunk behind the active slot, or one that ends before it, leaves the slot alone, even when it fails. */
  lemma ChunkMissesActive(l: Layout, s: Firmware, data: seq<byte>)
    requires Inv(l, s) && s.writing && Verifies(l, s.mem, s.active)
    requires
      || l.Offset(s.active) < l.Offset(s.Inactive())
      || l.Offset(s.Inactive()) + s.writeOffset + |data| <= l.Offset(s.active)
      || l.Offset(s.Inactive()) + s.writeOffset + |data| > l.total
    ensures Verifies(l, WriteChunk(l, s, data).0.mem, s.active)
  {
    hide Update, Write, Decode, Verifies, BodyAt, HeaderAt, SizesFit, Down, Aligned;
    var slot, a := s.Inactive(), s.active;
    var o := l.Offset(slot) + s.writeOffset;
    var n := Write(s.mem, l.sector, o, data).mem;
    Boundaries(l, slot);
    Boundaries(l, a);
    if o + |data| > l.total {
      RefusedWrite(s.mem, l.sector, o, data);
    } else if l.Offset(a) < l.Offset(slot) {
      SectorNotBelow(l.Offset(slot), o, l.sector);
      WriteKeepsBelow(s.mem, l.sector, o, data, l.Offset(a), l.End(a));
    } else {
      WriteKeepsSlice(l, s.mem, o, data, l.Offset(slot), l.Offset(a), l.Offset(a), l.End(a));
    }
    ActiveKeptBySlot(l, s, n);
  }

  lemma SectorNotBelow(a: nat, o: nat, sector: nat)
    requires sector > 0 && Aligned(a, sector) && a <= o
    ensures a <= Down(o, sector)
  {
    DownMonotone(a, o, sector);
  }

  /** A write that reaches byte i leaves its data or an erased byte there, even when it fails half-way. */
  lemma ReachedByte(m: seq<byte>, sector: nat, offset: nat, data: seq<byte>, i: nat)
    requires sector > 0 && offset <= i < offset + |data| <= |m| && i < Down(|m|, sector)
    ensures var r := Write(m, sector, offset, data).mem[i]; r == data[i - offset] || r == 0xFF
  {
    hide Down;
    WriteBounds(|m|, sector, offset, |data|);
    if Write(m, sector, offset, data).ok {
      WriteAt(m, sector, offset, data, i);
    }
  }

  lemma HeaderSectorInside(l: Layout, slot: nat)
    requires l.Ok() && slot <= 1
    ensures l.Offset(slot) < Down(l.total, l.sector)
  {
    Boundaries(l, slot);
    DownBounds(HEADER_RESERVED, l.sector);
    DownBounds(l.total, l.sector);
    DownMonotone(l.Offset(slot), l.total, l.sector);
  }

  /** A chunk that reaches the start of the active slot destroys its header, even when it fails half-way. */
  lemma OverrunDestroysActive(l: Layout, s: Firmware, data: seq<byte>)
    requires WellFormed(l, s) && s.writing && l.Offset(s.Inactive()) < l.Offset(s.active)
    requires l.Offset(s.active) < l.Offset(s.Inactive()) + s.writeOffset + |data| <= l.total
    requires data[l.Offset(s.active) - l.Offset(s.Inactive()) - s.writeOffset] != 0x54
    ensures !Verifies(l, WriteChunk(l, s, data).0.mem, s.active)
  {
    hide Update, Write, Decode, BodyAt, Crc, Down, Aligned;
    var o := l.Offset(s.Inactive()) + s.writeOffset;
    var m, h := WriteChunk(l, s, data).0.mem, l.Offset(s.active);
    HeaderSectorInside(l, s.active);
    ReachedByte(s.mem, l.sector, o, data, h);
    assert m[h] != 0x54;
    if HasHeader(l, m, s.active) {
      MagicFirstByte(m[h..h + HEADER_SIZE]);
    }
  }

  /**
   * Exactly when a chunk length is safe for the active image, whatever the chunk holds: the active slot
   * comes first, or the chunk ends before it starts, or the chunk is refused because it runs out of the
   * flash altogether.  writeChunk checks only the last of these.
   */
  lemma ChunkLengthSafeIff(l: Layout, s: Firmware, n: nat)
    requires Inv(l, s) && s.writing && Verifies(l, s.mem, s.active)
    ensures (forall data: seq<byte> | |data| == n :: Verifies(l, WriteChunk(l, s, data).0.mem, s.active))
       <==>
         || l.Offset(s.active) < l.Offset(s.Inactive())
         || l.Offset(s.Inactive()) + s.writeOffset + n <= l.Offset(s.active)
         || l.Offset(s.Inactive()) + s.writeOffset + n > l.total
  {
    hide WriteChunk, Verifies, SizesFit;
    if l.Offset(s.active) < l.Offset(s.Inactive())
      || l.Offset(s.Inactive()) + s.writeOffset + n <= l.Offset(s.active)
      || l.Offset(s.Inactive()) + s.writeOffset + n > l.total
    {
      forall data: seq<byte> | |data| == n ensures Verifies(l, WriteChunk(l, s, data).0.mem, s.active) {
        ChunkMissesActive(l, s, data);
      }
    } else {
      OverrunDestroysActive(l, s, seq(n, _ => 0 as byte));
    }
  }

  // ---------------------------------------------------------------- images larger than their slot

  /**
   * verify does not compare the size with the slot: for every size that stays in the flash, however far
   * beyond the slot, the header with that size and the checksum of those bytes verifies.
   */
  lemma OversizedVerifies(l: Layout, m: seq<byte>, slot: nat, version: u32, size: u32)
    requires l.Ok() && |m| == l.total && slot <= 1 && l.Offset(slot) + HEADER_RESERVED + size <= l.total
    ensures var h := Header(MAGIC, version, size, Crc(BodyAt(l, m, slot, size)), 0, slot, 1, 0, 0);
      var r := Write(m, l.sector, l.Offset(slot), Encode(h));
      r.ok && HeaderAt(l, r.mem, slot) == h && Verifies(l, r.mem, slot)
  {
    hide Write, Decode, Encode, Crc, Down, Aligned;
    var o := l.Offset(slot);
    var h := Header(MAGIC, version, size, Crc(BodyAt(l, m, slot, size)), 0, slot, 1, 0, 0);
    Boundaries(l, slot);
    HeaderWriteReadsBack(l, m, slot, h);
    WriteKeepsSlice(l, m, o, Encode(h), o, o + HEADER_RESERVED, o + HEADER_RESERVED, o + HEADER_RESERVED + size);
  }

  /** The end of the body a slot's header announces. */
  function BodyEnd(l: Layout, m: seq<byte>, slot: nat): nat
    requires l.Offset(slot) + HEADER_SIZE <= |m|
  {
    l.Offset(slot) + HEADER_RESERVED + HeaderAt(l, m, slot).size
  }

  /** The calls that make up an update. */
  ghost predicate OnlyUpdates(calls: seq<Call>) {
    forall k | 0 <= k < |calls| :: calls[k].Begin? || calls[k].Chunk? || calls[k].Finish?
  }

  /**
   * Whatever an update had got to, and whatever updates of the other slot follow, finished or not: the
   * slot that runs verifies at the end.
   */
  ghost predicate UpdatesHarmless(l: Layout, m: seq<byte>, slot: nat)
    requires l.Ok()
  {
    forall s: Firmware, calls: seq<Call>
      | WellFormed(l, s) && s.mem == m && s.active == slot && OnlyUpdates(calls) && AllFit(l, s, calls) ::
      Verifies(l, Run(l, s, calls).mem, slot)
  }

  /** From m to n only the one slot was written, and its first bytes are as before or those of the magic number. */
  ghost predicate SlotWritten(l: Layout, m: seq<byte>, n: seq<byte>, slot: nat)
    requires l.Ok() && |m| == |n| == l.total
  {
    var o := l.Offset(slot);
    && (forall i | 0 <= i < |m| && !(o <= i < l.End(slot)) :: n[i] == m[i])
    && (n[o..o + 4] == m[o..o + 4] || n[o..o + 4] == Le32(MAGIC))
  }

  lemma ChunkWritesSlot(l: Layout, s: Firmware, data: seq<byte>)
    requires WellFormed(l, s) && s.writing && s.writeOffset + |data| <= l.slotSize
    ensures SlotWritten(l, s.mem, WriteChunk(l, s, data).0.mem, s.Inactive())
  {
    hide Write, Update, Down, Aligned;
    var o := l.Offset(s.Inactive());
    Boundaries(l, s.Inactive());
    ChunkStep(l, s, data);
    if |data| > 0 || s.writeOffset > HEADER_RESERVED {
      WriteStaysInside(s.mem, l.sector, o + s.writeOffset, data, o + HEADER_RESERVED, l.End(s.Inactive()));
    } else {
      EmptyChunk(s.mem, l.sector, o + s.writeOffset);
    }
  }

  lemma FinishWritesSlot(l: Layout, s: Firmware)
    requires WellFormed(l, s) && s.writing
    ensures var n := FinalizeWrite(l, s).0.mem; var o := l.Offset(s.Inactive());
      SlotWritten(l, s.mem, n, s.Inactive()) && n[o..o + 4] == Le32(MAGIC)
  {
    hide Write, Down, Aligned, FinalizeWrite, Encode, Le32, Finalize;
    var o, h := l.Offset(s.Inactive()), NewHeader(s);
    Boundaries(l, s.Inactive());
    FinishWritesHeader(l, s);
    StartsWithMagic(h);
    WriteStaysInside(s.mem, l.sector, o, Encode(h), o, l.End(s.Inactive()));
    WriteThenRead(s.mem, l.sector, o, Encode(h));
    var n := FinalizeWrite(l, s).0.mem;
    assert n[o..o + HEADER_SIZE] == Encode(h);
    assert n[o..o + 4] == n[o..o + HEADER_SIZE][..4];
  }

  lemma StartsWithMagic(h: Header)
    ensures Encode(h)[..4] == Le32(h.magic)
  {}

  lemma FinishWritesHeader(l: Layout, s: Firmware)
    requires l.sector > 0 && s.writing
    ensures FinalizeWrite(l, s).0.mem == Write(s.mem, l.sector, l.Offset(s.Inactive()), Encode(NewHeader(s))).mem
  {}

  lemma LengthOfWord(n: u32)
    ensures |Le32(n)| == 4
  {}

  lemma StepWritesSlot(l: Layout, s: Firmware, c: Call)
    requires WellFormed(l, s) && OnlyUpdates([c]) && Fits(l, s, c)
    ensures var t := Step(l, s, c);
      WellFormed(l, t) && t.active == s.active && SlotWritten(l, s.mem, t.mem, s.Inactive())
  {
    hide Write, Update, WriteChunk, FinalizeWrite, SlotWritten, SameSlot, BodyAt, HeaderAt, Verifies;
    assert [c][0] == c;
    NothingWritten(l, s.mem, s.Inactive());
    match c
    case Begin(n, v) =>
    case Chunk(d) =>
      if s.writing {
        ChunkKeeps(l, s, d);
        ChunkWritesSlot(l, s, d);
      } else {
        NotWriting(l, s, d);
      }
    case Finish =>
      if s.writing {
        FinishStep(l, s);
        FinishWritesSlot(l, s);
      } else {
        NotWriting(l, s, []);
      }
  }

  lemma NothingWritten(l: Layout, m: seq<byte>, slot: nat)
    requires l.Ok() && |m| == l.total
    ensures SlotWritten(l, m, m, slot)
  {}

  lemma WrittenOn(l: Layout, m: seq<byte>, n: seq<byte>, p: seq<byte>, slot: nat)
    requires l.Ok() && |m| == |n| == |p| == l.total
    requires SlotWritten(l, m, n, slot) && SlotWritten(l, n, p, slot)
    ensures SlotWritten(l, m, p, slot)
  {}

  lemma {:induction false} UpdatesWriteSlot(l: Layout, s: Firmware, calls: seq<Call>)
    requires WellFormed(l, s) && OnlyUpdates(calls) && AllFit(l, s, calls)
    ensures SlotWritten(l, s.mem, Run(l, s, calls).mem, s.Inactive())
    decreases |calls|
  {
    hide SlotWritten, Step, Fits;
    if |calls| == 0 {
      NothingWritten(l, s.mem, s.Inactive());
    } else {
      var t := Step(l, s, calls[0]);
      assert [calls[0]][0] == calls[0];
      StepWritesSlot(l, s, calls[0]);
      UpdatesWriteSlot(l, t, calls[1..]);
      WrittenOn(l, s.mem, t.mem, Run(l, s, calls).mem, s.Inactive());
    }
  }

  /** No update of the other slot can reach what this slot's verdict depends on. */
  predicate OutOfReach(l: Layout, m: seq<byte>, slot: nat)
    requires l.Ok() && |m| == l.total && slot <= 1
  {
    var other, end := l.Offset(1 - slot), BodyEnd(l, m, slot);
    || other < l.Offset(slot)
    || end <= other
    || (end <= other + 4 && m[other..end] == Le32(MAGIC)[..end - other])
  }

  lemma OutOfReachKept(l: Layout, m: seq<byte>, n: seq<byte>, slot: nat)
    requires l.Ok() && |m| == |n| == l.total && slot <= 1 && Verifies(l, m, slot) && OutOfReach(l, m, slot)
    requires SlotWritten(l, m, n, 1 - slot)
    ensures Verifies(l, n, slot)
  {
    hide Decode, Crc, Le32, HeaderAt, BodyAt, Announced, Aligned;
    var other, end := l.Offset(1 - slot), BodyEnd(l, m, slot);
    SameHeaderBytes(l, m, n, slot);
    AnnouncedAt(l, m, slot);
    AnnouncedAt(l, n, slot);
    LengthOfWord(MAGIC);
    forall i | l.Offset(slot) + HEADER_RESERVED <= i < end && i < |m| ensures n[i] == m[i] {
      if other <= i && l.Offset(slot) <= other {
        assert m[i] == m[other..end][i - other] == Le32(MAGIC)[i - other];
        assert n[i] == n[other..other + 4][i - other] && m[i] == m[other..other + 4][i - other];
      }
    }
    assert Announced(l, m, slot) == Announced(l, n, slot);
    SameBodyVerifies(l, m, n, slot);
  }

  lemma SameBodyVerifies(l: Layout, m: seq<byte>, n: seq<byte>, slot: nat)
    requires |m| == |n| && Verifies(l, m, slot) && HeaderAt(l, n, slot) == HeaderAt(l, m, slot)
    requires Announced(l, m, slot) == Announced(l, n, slot)
    ensures Verifies(l, n, slot)
  {
    hide Decode, Crc, BodyAt;
  }

  /** Two byte strings that differ in up to four consecutive bytes do not have the same checksum. */
  lemma FewBytesApart(x: seq<byte>, y: seq<byte>, i: nat, j: nat)
    requires |x| == |y| && i <= j <= |x| && j <= i + 4 && Crc(x) == Crc(y)
    requires forall k | 0 <= k < |x| && !(i <= k < j) :: x[k] == y[k]
    ensures x[i..j] == y[i..j]
  {
    hide Crc;
    if x[i..j] != y[i..j] {
      assert x[..i] == y[..i] && x[j..] == y[j..];
      assert x == x[..i] + x[i..j] + x[j..];
      assert y == x[..i] + y[i..j] + x[j..];
      CrcDetectsWindow(x[..i], x[i..j], y[i..j], x[j..]);
    }
  }

  /** The body a slot's header announces, as it lies in the flash. */
  function Announced(l: Layout, m: seq<byte>, slot: nat): (b: seq<byte>)
    requires l.Offset(slot) + HEADER_SIZE <= |m| && Readable(l, m, slot, HeaderAt(l, m, slot).size)
  {
    BodyAt(l, m, slot, HeaderAt(l, m, slot).size)
  }

  lemma BothVerify(l: Layout, m: seq<byte>, n: seq<byte>, slot: nat)
    requires |m| == |n| && Verifies(l, m, slot) && Verifies(l, n, slot) && HeaderAt(l, m, slot) == HeaderAt(l, n, slot)
    ensures Crc(Announced(l, m, slot)) == Crc(Announced(l, n, slot))
  {
    hide Decode, Crc, BodyAt;
  }

  lemma AnnouncedAt(l: Layout, m: seq<byte>, slot: nat)
    requires l.Offset(slot) + HEADER_SIZE <= |m| && Readable(l, m, slot, HeaderAt(l, m, slot).size)
    ensures var a := l.Offset(slot) + HEADER_RESERVED; var b := Announced(l, m, slot);
      |b| == BodyEnd(l, m, slot) - a && forall k | 0 <= k < |b| :: a + k < |m| && b[k] == m[a + k]
  {
    hide Decode;
  }

  /** Damage to up to four consecutive bytes of the announced body alone makes a slot fail. */
  lemma DamagedBodyFails(l: Layout, m: seq<byte>, n: seq<byte>, slot: nat, i: nat, j: nat)
    requires |m| == |n| && Verifies(l, m, slot) && HeaderAt(l, n, slot) == HeaderAt(l, m, slot)
    requires l.Offset(slot) + HEADER_RESERVED <= i <= j <= BodyEnd(l, m, slot) && j <= i + 4
    requires forall k | 0 <= k < BodyEnd(l, m, slot) && k < |m| && !(i <= k < j) :: m[k] == n[k]
    requires exists k :: i <= k < j && k < |m| && m[k] != n[k]
    ensures !Verifies(l, n, slot)
  {
    hide Decode, HeaderAt, Crc, BodyAt, Announced;
    if Verifies(l, n, slot) {
      var a := l.Offset(slot) + HEADER_RESERVED;
      BothVerify(l, m, n, slot);
      AnnouncedAt(l, m, slot);
      AnnouncedAt(l, n, slot);
      var x, y := Announced(l, m, slot), Announced(l, n, slot);
      var k :| i <= k < j && k < |m| && m[k] != n[k];
      assert x[i - a..j - a][k - i] == x[k - a] == m[k] && y[i - a..j - a][k - i] == y[k - a] == n[k];
      FewBytesApart(x, y, i - a, j - a);
    }
  }

  lemma SameHeaderBytes(l: Layout, m: seq<byte>, n: seq<byte>, slot: nat)
    requires |m| == |n| && l.Offset(slot) + HEADER_SIZE <= |m|
    requires forall i | l.Offset(slot) <= i < l.Offset(slot) + HEADER_SIZE :: n[i] == m[i]
    ensures HeaderAt(l, n, slot) == HeaderAt(l, m, slot)
  {
    var o := l.Offset(slot);
    assert n[o..o + HEADER_SIZE] == m[o..o + HEADER_SIZE];
  }

  /** A body that reaches up to four bytes into the other slot does not survive the header written there. */
  lemma FinishSpoils(l: Layout, s: Firmware)
    requires WellFormed(l, s) && s.writing && Verifies(l, s.mem, s.active)
    requires l.Offset(s.active) < l.Offset(s.Inactive()) < BodyEnd(l, s.mem, s.active) <= l.Offset(s.Inactive()) + 4
    requires var o, e := l.Offset(s.Inactive()), BodyEnd(l, s.mem, s.active); s.mem[o..e] != Le32(MAGIC)[..e - o]
    ensures !Verifies(l, FinalizeWrite(l, s).0.mem, s.active)
  {
    hide Decode, Crc, Le32, HeaderAt, Verifies, FinalizeWrite, Down, Aligned;
    var n, other, end := FinalizeWrite(l, s).0.mem, l.Offset(s.Inactive()), BodyEnd(l, s.mem, s.active);
    FinishWritesSlot(l, s);
    SameHeaderBytes(l, s.mem, n, s.active);
    LengthOfWord(MAGIC);
    var k :| 0 <= k < end - other && s.mem[other..end][k] != Le32(MAGIC)[..end - other][k];
    assert n[other..other + 4][k] == n[other + k] && s.mem[other..end][k] == s.mem[other + k];
    DamagedBodyFails(l, s.mem, n, s.active, other, end);
  }

  /** Headers for two versions differ in one byte. */
  lemma VersionsApart(h: Header, k: nat)
    requires k < HEADER_SIZE
    ensures Encode(h.(version := 0))[k] == Encode(h.(version := 1))[k] <==> k != 4
  {
    assert Le32(0) == [0, 0, 0, 0] && Le32(1) == [1, 0, 0, 0];
  }

  /** The flash after an empty update of the other slot. */
  function EmptyUpdate(l: Layout, m: seq<byte>, slot: nat, version: u32): seq<byte>
    requires l.sector > 0
  {
    Run(l, Firmware(m, slot, 0, 0, 0, 0, false), [Begin(0, version), Finish]).mem
  }

  lemma EmptyUpdateIs(l: Layout, m: seq<byte>, slot: nat, version: u32)
    requires l.sector > 0
    ensures var b := BeginWrite(l, Firmware(m, slot, 0, 0, 0, 0, false), 0, version).0;
      EmptyUpdate(l, m, slot, version) == FinalizeWrite(l, b).0.mem
  {
    hide FinalizeWrite, BeginWrite;
    var s, calls := Firmware(m, slot, 0, 0, 0, 0, false), [Begin(0, version), Finish];
    assert calls[1..] == [Finish];
    var b := BeginWrite(l, s, 0, version).0;
    assert Run(l, s, calls) == Run(l, b, [Finish]);
    assert [Finish][1..] == [];
    assert Run(l, b, [Finish]) == Run(l, FinalizeWrite(l, b).0, []);
  }

  lemma EmptyUpdateAt(l: Layout, m: seq<byte>, slot: nat, version: u32, i: nat)
    requires l.Ok() && |m| == l.total && slot <= 1 && i < |m|
    ensures var h := Header(MAGIC, version, 0, Finalize(INITIAL), 0, 1 - slot, 1, 0, 0); var o := l.Offset(1 - slot);
      |EmptyUpdate(l, m, slot, version)| == |m|
      && EmptyUpdate(l, m, slot, version)[i] ==
        if o <= i < o + HEADER_SIZE then Encode(h)[i - o]
        else if InTouchedSector(i, l.sector, o, HEADER_SIZE) then 0xFF else m[i]
  {
    hide Write, Encode, InTouchedSector, Finalize, FinalizeWrite, EmptyUpdate, Aligned, HeaderAt;
    var b := BeginWrite(l, Firmware(m, slot, 0, 0, 0, 0, false), 0, version).0;
    EmptyUpdateIs(l, m, slot, version);
    FinishWritesHeader(l, b);
    HeaderWriteReadsBack(l, m, 1 - slot, NewHeader(b));
    WriteAt(m, l.sector, l.Offset(1 - slot), Encode(NewHeader(b)), i);
  }

  /** A body that reaches further into the other slot does not survive the header of one of two versions. */
  lemma SomeVersionSpoils(l: Layout, m: seq<byte>, slot: nat)
    requires l.Ok() && |m| == l.total && slot <= 1 && Verifies(l, m, slot)
    requires l.Offset(slot) < l.Offset(1 - slot) && l.Offset(1 - slot) + 4 < BodyEnd(l, m, slot)
    ensures !Verifies(l, EmptyUpdate(l, m, slot, 0), slot) || !Verifies(l, EmptyUpdate(l, m, slot, 1), slot)
  {
    hide Decode, Crc, Encode, HeaderAt, Verifies, EmptyUpdate, InTouchedSector, Finalize;
    var other := l.Offset(1 - slot);
    var h := Header(MAGIC, 0, 0, Finalize(INITIAL), 0, 1 - slot, 1, 0, 0);
    var zero, one := EmptyUpdate(l, m, slot, 0), EmptyUpdate(l, m, slot, 1);
    EmptyUpdateAt(l, m, slot, 0, 0);
    EmptyUpdateAt(l, m, slot, 1, 0);
    forall i | 0 <= i < |m| ensures (zero[i] == one[i] <==> i != other + 4) && (i < l.Offset(slot) + HEADER_SIZE ==> zero[i] == m[i]) {
      EmptyUpdateAt(l, m, slot, 0, i);
      EmptyUpdateAt(l, m, slot, 1, i);
      if other <= i < other + HEADER_SIZE {
        VersionsApart(h, i - other);
      }
      BeforeTouched(l, 1 - slot, i);
    }
    SameHeaderBytes(l, m, zero, slot);
    SameHeaderBytes(l, m, one, slot);
    if Verifies(l, zero, slot) {
      assert zero[other + 4] != one[other + 4];
      DamagedBodyFails(l, zero, one, slot, other + 4, other + 5);
    }
  }

  lemma BeforeTouched(l: Layout, slot: nat, i: nat)
    requires l.Ok() && slot <= 1
    ensures i < l.Offset(slot) ==> !InTouchedSector(i, l.sector, l.Offset(slot), HEADER_SIZE)
  {
    hide Down;
    Boundaries(l, slot);
    DownBounds(i, l.sector);
  }

  lemma EmptyUpdateCounts(l: Layout, m: seq<byte>, slot: nat, version: u32)
    requires l.Ok() && |m| == l.total && slot <= 1 && UpdatesHarmless(l, m, slot)
    ensures Verifies(l, EmptyUpdate(l, m, slot, version), slot)
  {
    hide Verifies, FinalizeWrite;
    var s := Firmware(m, slot, 0, 0, 0, 0, false);
    var calls := [Begin(0, version), Finish];
    assert calls[1..] == [Finish] && [Finish][1..] == [];
    assert AllFit(l, s, calls);
  }

  /**
   * What updates of the other slot do to a verifying slot: nothing, whatever they write and wherever they
   * stop, exactly when the other slot comes first, or the announced body ends before it, or reaches at most
   * four bytes into it and those are the magic number that every update writes there.  Otherwise some
   * update makes the slot fail.
   */
  lemma UpdatesHarmlessIff(l: Layout, m: seq<byte>, slot: nat)
    requires l.Ok() && |m| == l.total && slot <= 1 && Verifies(l, m, slot)
    ensures UpdatesHarmless(l, m, slot) <==> OutOfReach(l, m, slot)
  {
    hide Decode, HeaderAt, Crc, BodyAt, Verifies, Run, SlotWritten, AllFit, EmptyUpdate, Le32;
    if OutOfReach(l, m, slot) {
      forall s: Firmware, calls: seq<Call>
        | WellFormed(l, s) && s.mem == m && s.active == slot && OnlyUpdates(calls) && AllFit(l, s, calls)
        ensures Verifies(l, Run(l, s, calls).mem, slot)
      {
        UpdatesWriteSlot(l, s, calls);
        OutOfReachKept(l, m, Run(l, s, calls).mem, slot);
      }
    } else {
      if UpdatesHarmless(l, m, slot) {
        EmptyUpdateCounts(l, m, slot, 0);
        EmptyUpdateCounts(l, m, slot, 1);
        if BodyEnd(l, m, slot) <= l.Offset(1 - slot) + 4 {
          EmptyUpdateSpoils(l, m, slot);
        } else {
          SomeVersionSpoils(l, m, slot);
        }
      }
    }
  }

  lemma EmptyUpdateSpoils(l: Layout, m: seq<byte>, slot: nat)
    requires l.Ok() && |m| == l.total && slot <= 1 && Verifies(l, m, slot) && !OutOfReach(l, m, slot)
    requires BodyEnd(l, m, slot) <= l.Offset(1 - slot) + 4
    ensures !Verifies(l, EmptyUpdate(l, m, slot, 0), slot)
  {
    hide Verifies, FinalizeWrite, OutOfReach, Decode, HeaderAt;
    var b := BeginWrite(l, Firmware(m, slot, 0, 0, 0, 0, false), 0, 0).0;
    EmptyUpdateIs(l, m, slot, 0);
    NotOutOfReach(l, m, slot);
    FinishSpoils(l, b);
  }

  lemma NotOutOfReach(l: Layout, m: seq<byte>, slot: nat)
    requires l.Ok() && |m| == l.total && slot <= 1 && !OutOfReach(l, m, slot)
    ensures l.Offset(slot) < l.Offset(1 - slot) < BodyEnd(l, m, slot)
    ensures var o, e := l.Offset(1 - slot), BodyEnd(l, m, slot); e <= o + 4 ==> m[o..e] != Le32(MAGIC)[..e - o]
  {}

  /**
   * One announced byte too many is enough: on an erased flash with two adjacent slots of 8192 bytes, the
   * header of 4097 bytes verifies until any update of the other slot is finalized.
   */
  lemma OneByteTooMany(m: seq<byte>, version: u32)
    requires |m| == 16384 && forall i | 0 <= i < |m| :: m[i] == 0xFF
    ensures var l := Layout(0, 8192, 8192, 4096, 16384);
      var n := Write(m, l.sector, 0, Encode(Header(MAGIC, version, 4097, Crc(m[4096..8193]), 0, 0, 1, 0, 0))).mem;
      && l.Ok() && |n| == l.total && Verifies(l, n, 0)
      && forall s: Firmware | WellFormed(l, s) && s.writing && s.active == 0 && s.mem == n ::
           !Verifies(l, FinalizeWrite(l, s).0.mem, 0)
  {
    hide Write, Encode, Crc, Decode, Verifies, HeaderAt, FinalizeWrite, Down;
    var l := Layout(0, 8192, 8192, 4096, 16384);
    AlignedIsMultiple(4096, 4096);
    AlignedIsMultiple(8192, 4096);
    AlignedIsMultiple(0, 4096);
    var h := Header(MAGIC, version, 4097, Crc(m[4096..8193]), 0, 0, 1, 0, 0);
    var n := Write(m, 4096, 0, Encode(h)).mem;
    OversizedVerifies(l, m, 0, version, 4097);
    WriteStaysInside(m, 4096, 0, Encode(h), 0, 4096);
    assert n[8192] == 0xFF;
    assert n[8192..8193][0] == 0xFF && Le32(MAGIC)[..1][0] == 0x54;
    forall s: Firmware | WellFormed(l, s) && s.writing && s.active == 0 && s.mem == n
      ensures !Verifies(l, FinalizeWrite(l, s).0.mem, 0)
    {
      FinishSpoils(l, s);
    }
  }

  // ---------------------------------------------------------------- restarting in the middle

  /** Whatever header slot 0 has, valid as it may look, its image verifies. */
  predicate FirstSlotSound(l: Layout, m: seq<byte>) {
    HasHeader(l, m, 0) && HeaderAt(l, m, 0).IsValid() ==> Verifies(l, m, 0)
  }

  /** init looks at the headers only: it picks a slot that verifies exactly when a valid header in slot 0 means what it says. */
  lemma InitPicksVerifiedIff(l: Layout, m: seq<byte>)
    requires exists slot | 0 <= slot <= 1 :: Verifies(l, m, slot)
    ensures Verifies(l, m, InitialSlot(l, m)) <==> FirstSlotSound(l, m)
  {
    hide Decode, Crc, BodyAt, HeaderAt;
  }

  /** A failed update of slot 0 leaves a valid header there, and the next init picks it. */
  lemma FailedUpdateMisleadsInit(l: Layout, s: Firmware)
    requires WellFormed(l, s) && s.writing && s.active == 1 && !FinalizeWrite(l, s).1
    ensures var m := FinalizeWrite(l, s).0.mem;
      InitialSlot(l, m) == 0 && !Verifies(l, m, 0) && !FirstSlotSound(l, m)
  {
    hide Decode, Crc, BodyAt, HeaderAt, FinalizeWrite, Verifies;
    FinishStep(l, s);
    assert NewHeader(s).IsValid() && NewHeader(s).magic == MAGIC;
  }

  /** The first byte of an update spoils the image it overwrites, for one of two values. */
  lemma FirstByteSpoils(l: Layout, s: Firmware)
    requires WellFormed(l, s) && s.writing && s.writeOffset == HEADER_RESERVED < l.slotSize
    requires Verifies(l, s.mem, s.Inactive()) && HeaderAt(l, s.mem, s.Inactive()).size > 0
    ensures !Verifies(l, WriteChunk(l, s, [0]).0.mem, s.Inactive()) || !Verifies(l, WriteChunk(l, s, [1]).0.mem, s.Inactive())
  {
    hide Decode, Crc, HeaderAt, Verifies, WriteChunk, Write, Update, Down, Aligned, SameSlot;
    var slot := s.Inactive();
    var o := l.Offset(slot) + HEADER_RESERVED;
    var zero, one := WriteChunk(l, s, [0]).0.mem, WriteChunk(l, s, [1]).0.mem;
    ChunkStep(l, s, [0]);
    ChunkStep(l, s, [1]);
    ChunkKeeps(l, s, [0]);
    ChunkKeeps(l, s, [1]);
    forall i | 0 <= i < |zero| ensures zero[i] == one[i] <==> i != o {
      WriteAt(s.mem, l.sector, o, [0], i);
      WriteAt(s.mem, l.sector, o, [1], i);
    }
    if Verifies(l, zero, slot) {
      assert zero[o] != one[o];
      DamagedBodyFails(l, zero, one, slot, o, o + 1);
    }
  }
}
