/**
 * What the A/B update machine promises over whole runs: the active image keeps verifying and its
 * body never changes while it is active, an update that was written sector by sector verifies and
 * reads back, and a damaged one is rejected.
 */
module FirmwareRuns {
  import opened Words
  import opened Sectors
  import opened StorageSpec
  import opened Crc32Spec
  import opened ShiftRegister
  import opened FirmwareSpec

  // ---------------------------------------------------------------- runs

  datatype Call =
    | Begin(imageSize: u32, version: u32)
    | Chunk(data: seq<byte>)
    | Finish
    | Activate(slot: nat)
    | Back

  function Step(l: Layout, s: Firmware, c: Call): (t: Firmware)
    requires l.sector > 0
    ensures |t.mem| == |s.mem|
  {
    match c
    case Begin(n, v) => BeginWrite(l, s, n, v).0
    case Chunk(d) => WriteChunk(l, s, d).0
    case Finish => FinalizeWrite(l, s).0
    case Activate(slot) => ActivateSlot(l, s, slot).0
    case Back => Rollback(l, s).0
  }

  function Run(l: Layout, s: Firmware, calls: seq<Call>): (t: Firmware)
    requires l.sector > 0
    ensures |t.mem| == |s.mem|
    decreases |calls|
  {
    if |calls| == 0 then s else Run(l, Step(l, s, calls[0]), calls[1..])
  }

  /** The one thing writeChunk does not check: the chunk ends inside the slot. */
  ghost predicate Fits(l: Layout, s: Firmware, c: Call) {
    c.Chunk? && s.writing ==> s.writeOffset + |c.data| <= l.slotSize
  }

  ghost predicate AllFit(l: Layout, s: Firmware, calls: seq<Call>)
    requires l.sector > 0
    decreases |calls|
  {
    |calls| == 0 || (Fits(l, s, calls[0]) && AllFit(l, Step(l, s, calls[0]), calls[1..]))
  }

  /** Every valid header announces a body that fits its slot. */
  ghost predicate SizesFit(l: Layout, m: seq<byte>)
    requires l.Ok() && |m| == l.total
  {
    forall slot | 0 <= slot <= 1 && HasHeader(l, m, slot) && HeaderAt(l, m, slot).IsValid() ::
      HEADER_RESERVED + HeaderAt(l, m, slot).size <= l.slotSize
  }

  ghost predicate WellFormed(l: Layout, s: Firmware) {
    && l.Ok() && |s.mem| == l.total && s.active <= 1
    && (s.writing ==> HEADER_RESERVED <= s.writeOffset <= l.slotSize && HEADER_RESERVED + s.imageSize <= l.slotSize)
  }

  ghost predicate Inv(l: Layout, s: Firmware) {
    WellFormed(l, s) && SizesFit(l, s.mem)
  }

  /** The image the device runs. */
  function ActiveBody(l: Layout, s: Firmware): seq<byte>
    requires l.Ok() && |s.mem| == l.total && s.active <= 1 && Verifies(l, s.mem, s.active)
  {
    BodyAt(l, s.mem, s.active, HeaderAt(l, s.mem, s.active).size)
  }

  /** The image in a slot did not change: same header up to the bootable flag, same body. */
  ghost predicate SameImage(l: Layout, m: seq<byte>, n: seq<byte>, slot: nat)
    requires l.Ok() && |m| == |n| == l.total && slot <= 1
    requires HEADER_RESERVED + HeaderAt(l, m, slot).size <= l.slotSize
  {
    var h, g := HeaderAt(l, m, slot), HeaderAt(l, n, slot);
    && g.(flags := h.flags) == h && (g.IsValid() <==> h.IsValid())
    && BodyAt(l, n, slot, h.size) == BodyAt(l, m, slot, h.size)
  }

  lemma SameImageSameVerdict(l: Layout, m: seq<byte>, n: seq<byte>, slot: nat)
    requires l.Ok() && |m| == |n| == l.total && slot <= 1
    requires HEADER_RESERVED + HeaderAt(l, m, slot).size <= l.slotSize
    requires SameImage(l, m, n, slot)
    ensures Verifies(l, m, slot) <==> Verifies(l, n, slot)
  {}

  lemma SameSlotSameImage(l: Layout, m: seq<byte>, n: seq<byte>, slot: nat)
    requires l.Ok() && |m| == |n| == l.total && slot <= 1 && SameSlot(l, m, n, slot)
    requires HEADER_RESERVED + HeaderAt(l, m, slot).size <= l.slotSize
    ensures SameImage(l, m, n, slot)
  {
    SameSlotSameHeader(l, m, n, slot);
    SameSlotSameBody(l, m, n, slot, HeaderAt(l, m, slot).size);
  }

  // ---------------------------------------------------------------- single steps

  /** Outside an update chunks and finishing are refused. */
  lemma NotWriting(l: Layout, s: Firmware, data: seq<byte>)
    requires l.sector > 0 && !s.writing
    ensures WriteChunk(l, s, data) == (s, -1) && FinalizeWrite(l, s) == (s, false)
  {}

  /** A chunk that fits is stored where the update has got to. */
  lemma ChunkStep(l: Layout, s: Firmware, data: seq<byte>)
    requires WellFormed(l, s) && s.writing && s.writeOffset + |data| <= l.slotSize
    ensures var r := Write(s.mem, l.sector, l.Offset(s.Inactive()) + s.writeOffset, data); var t := WriteChunk(l, s, data);
      && r.ok && |r.mem| == l.total
      && t.1 == |data|
      && t.0.mem == r.mem && t.0.writeCrc == Update(s.writeCrc, data) && t.0.writeOffset == s.writeOffset + |data|
      && t.0.active == s.active && t.0.imageSize == s.imageSize && t.0.version == s.version && t.0.writing
  {
    hide Update, Decode, Erased, Overlaid;
    ChunkWriteKeepsHeader(l, s.mem, s.Inactive(), s.writeOffset, data);
  }

  lemma ChunkKeeps(l: Layout, s: Firmware, data: seq<byte>)
    requires WellFormed(l, s) && s.writing && s.writeOffset + |data| <= l.slotSize
    ensures var t := WriteChunk(l, s, data).0;
      && |t.mem| == l.total
      && t.active == s.active && t.imageSize == s.imageSize && t.version == s.version
      && t.writing && t.writeOffset == s.writeOffset + |data|
      && HeaderAt(l, t.mem, s.Inactive()) == HeaderAt(l, s.mem, s.Inactive())
      && SameSlot(l, s.mem, t.mem, s.active)
  {
    hide Update, Write, Decode;
    var slot := s.Inactive();
    ChunkStep(l, s, data);
    ChunkWriteKeepsHeader(l, s.mem, slot, s.writeOffset, data);
    WriteKeepsOtherSlot(l, s.mem, slot, l.Offset(slot) + s.writeOffset, data);
  }

  lemma FinishStep(l: Layout, s: Firmware)
    requires WellFormed(l, s) && s.writing
    ensures var t := FinalizeWrite(l, s).0; var slot := s.Inactive();
      && t.active == s.active && !t.writing
      && |t.mem| == l.total
      && HeaderAt(l, t.mem, slot) == NewHeader(s)
      && BodyAt(l, t.mem, slot, s.imageSize) == BodyAt(l, s.mem, slot, s.imageSize)
      && SameSlot(l, s.mem, t.mem, s.active)
    ensures FinalizeWrite(l, s).1 == Verifies(l, FinalizeWrite(l, s).0.mem, s.Inactive())
  {
    hide Update, Write, Decode, Encode, Crc;
    var slot := s.Inactive();
    HeaderWriteReadsBack(l, s.mem, slot, NewHeader(s));
    HeaderWriteKeepsBody(l, s.mem, slot, NewHeader(s), s.imageSize);
    WriteKeepsOtherSlot(l, s.mem, slot, l.Offset(slot), Encode(NewHeader(s)));
  }

  lemma ActivateStep(l: Layout, s: Firmware, slot: nat)
    requires Inv(l, s) && slot <= 1 && Verifies(l, s.mem, slot)
    ensures var r := ActivateSlot(l, s, slot);
      && r.1
      && r.0.active == slot && r.0.writing == s.writing
      && r.0.writeOffset == s.writeOffset && r.0.writeCrc == s.writeCrc && r.0.imageSize == s.imageSize
      && |r.0.mem| == l.total
      && HeaderAt(l, r.0.mem, slot).IsBootable()
      && SameImage(l, s.mem, r.0.mem, slot)
      && SameSlot(l, s.mem, r.0.mem, 1 - slot)
      && Verifies(l, r.0.mem, slot)
  {
    hide Update, Write, Decode, Encode, Crc;
    var h := HeaderAt(l, s.mem, slot);
    HeaderWriteReadsBack(l, s.mem, slot, h.Bootable());
    HeaderWriteKeepsBody(l, s.mem, slot, h.Bootable(), h.size);
    WriteKeepsOtherSlot(l, s.mem, slot, l.Offset(slot), Encode(h.Bootable()));
    SameImageSameVerdict(l, s.mem, ActivateSlot(l, s, slot).0.mem, slot);
  }

  /** Sizes keep fitting when one slot is untouched and the other one's header is old or announces a body that fits. */
  lemma SizesStayFit(l: Layout, m: seq<byte>, n: seq<byte>, slot: nat)
    requires l.Ok() && |m| == |n| == l.total && slot <= 1 && SizesFit(l, m)
    requires SameSlot(l, m, n, 1 - slot)
    requires HeaderAt(l, n, slot) == HeaderAt(l, m, slot) || HEADER_RESERVED + HeaderAt(l, n, slot).size <= l.slotSize
    ensures SizesFit(l, n)
  {
    hide Decode;
    SameSlotSameHeader(l, m, n, 1 - slot);
    forall t | 0 <= t <= 1 && HasHeader(l, n, t) && HeaderAt(l, n, t).IsValid()
      ensures HEADER_RESERVED + HeaderAt(l, n, t).size <= l.slotSize
    {
      assert t == slot || t == 1 - slot;
    }
  }

  lemma StepKeepsInv(l: Layout, s: Firmware, c: Call)
    requires Inv(l, s) && Fits(l, s, c)
    ensures Inv(l, Step(l, s, c))
  {
    hide Update, Write, Decode, Encode, Crc;
    match c
    case Begin(n, v) =>
    case Chunk(d) =>
      if s.writing {
        ChunkKeeps(l, s, d);
        SizesStayFit(l, s.mem, Step(l, s, c).mem, s.Inactive());
      }
    case Finish =>
      if s.writing {
        FinishStep(l, s);
        SizesStayFit(l, s.mem, Step(l, s, c).mem, s.Inactive());
      }
    case Activate(slot) =>
      if slot <= 1 && Verifies(l, s.mem, slot) {
        ActivateStep(l, s, slot);
        SizesStayFit(l, s.mem, Step(l, s, c).mem, slot);
      }
    case Back =>
      var slot := s.Inactive();
      if Verifies(l, s.mem, slot) {
        ActivateStep(l, s, slot);
        SizesStayFit(l, s.mem, Step(l, s, c).mem, slot);
      }
  }

  /** No call damages the active image, and only a verified image becomes active. */
  lemma StepKeepsActiveImage(l: Layout, s: Firmware, c: Call)
    requires Inv(l, s) && Fits(l, s, c) && Verifies(l, s.mem, s.active)
    ensures var t := Step(l, s, c);
      && Inv(l, t) && Verifies(l, t.mem, t.active)
      && (t.active == s.active ==> SameImage(l, s.mem, t.mem, s.active))
      && (t.active != s.active ==> Verifies(l, s.mem, t.active) && SameImage(l, s.mem, t.mem, t.active))
  {
    hide Update, Write, Decode, Encode, Crc;
    StepKeepsInv(l, s, c);
    var t := Step(l, s, c);
    match c
    case Begin(n, v) =>
    case Chunk(d) =>
      if s.writing {
        ChunkKeeps(l, s, d);
        SameSlotSameImage(l, s.mem, t.mem, s.active);
        SameImageSameVerdict(l, s.mem, t.mem, s.active);
      }
    case Finish =>
      if s.writing {
        FinishStep(l, s);
        SameSlotSameImage(l, s.mem, t.mem, s.active);
        SameImageSameVerdict(l, s.mem, t.mem, s.active);
      }
    case Activate(slot) =>
      if slot <= 1 && Verifies(l, s.mem, slot) {
        ActivateStep(l, s, slot);
      }
    case Back =>
      if Verifies(l, s.mem, s.Inactive()) {
        ActivateStep(l, s, s.Inactive());
      }
  }

  // ---------------------------------------------------------------- whole runs

  /** Over every run, the active slot verifies in every state it does in the first one. */
  lemma {:induction false} ActiveSlotAlwaysVerifies(l: Layout, s: Firmware, calls: seq<Call>)
    requires Inv(l, s) && AllFit(l, s, calls) && Verifies(l, s.mem, s.active)
    ensures var t := Run(l, s, calls); Inv(l, t) && Verifies(l, t.mem, t.active)
    decreases |calls|
  {
    if |calls| > 0 {
      StepKeepsActiveImage(l, s, calls[0]);
      ActiveSlotAlwaysVerifies(l, Step(l, s, calls[0]), calls[1..]);
    }
  }

  /** The active slot is the same in every state of the run. */
  ghost predicate NeverSwitches(l: Layout, s: Firmware, calls: seq<Call>)
    requires l.sector > 0
    decreases |calls|
  {
    |calls| == 0 || (Step(l, s, calls[0]).active == s.active && NeverSwitches(l, Step(l, s, calls[0]), calls[1..]))
  }

  /** While a slot stays active, no run changes a byte of its body. */
  lemma {:induction false} ActiveBodyNeverChanges(l: Layout, s: Firmware, calls: seq<Call>)
    requires Inv(l, s) && AllFit(l, s, calls) && Verifies(l, s.mem, s.active) && NeverSwitches(l, s, calls)
    ensures var t := Run(l, s, calls);
      && Inv(l, t) && t.active == s.active && Verifies(l, t.mem, t.active)
      && ActiveBody(l, t) == ActiveBody(l, s)
    decreases |calls|
  {
    if |calls| > 0 {
      StepKeepsActiveImage(l, s, calls[0]);
      ActiveBodyNeverChanges(l, Step(l, s, calls[0]), calls[1..]);
    }
  }

  // ---------------------------------------------------------------- a whole update

  function Flatten(chunks: seq<seq<byte>>): seq<byte>
    decreases |chunks|
  {
    if |chunks| == 0 then [] else chunks[0] + Flatten(chunks[1..])
  }

  function Chunks(chunks: seq<seq<byte>>): seq<Call>
    decreases |chunks|
  {
    if |chunks| == 0 then [] else [Chunk(chunks[0])] + Chunks(chunks[1..])
  }

  /** Every chunk starts on a sector boundary of the slot. */
  ghost predicate SectorWise(sector: nat, at: nat, chunks: seq<seq<byte>>)
    requires sector > 0
    decreases |chunks|
  {
    |chunks| == 0 || (Aligned(at, sector) && SectorWise(sector, at + |chunks[0]|, chunks[1..]))
  }

  /** `done` has been received and is in the flash. */
  ghost predicate Received(l: Layout, s: Firmware, done: seq<byte>) {
    && Inv(l, s) && s.writing
    && s.writeOffset == HEADER_RESERVED + |done|
    && s.writeCrc == Update(INITIAL, done)
    && BodyAt(l, s.mem, s.Inactive(), |done|) == done
  }

  lemma ChunkReceived(l: Layout, s: Firmware, done: seq<byte>, data: seq<byte>)
    requires Received(l, s, done) && Aligned(s.writeOffset, l.sector) && s.writeOffset + |data| <= l.slotSize
    ensures Received(l, WriteChunk(l, s, data).0, done + data)
  {
    hide Update, Write, Decode, Aligned;
    var slot, t := s.Inactive(), WriteChunk(l, s, data).0;
    var o := l.Offset(slot) + s.writeOffset;
    StepKeepsInv(l, s, Chunk(data));
    ChunkStep(l, s, data);
    Boundaries(l, slot);
    AlignedSum(l.Offset(slot), s.writeOffset, l.sector);
    AlignedWriteKeepsPrefix(s.mem, l.sector, o, data);
    WriteThenRead(s.mem, l.sector, o, data);
    UpdateAppend(INITIAL, done, data);
    PrefixThenData(s.mem, t.mem, l.Offset(slot) + HEADER_RESERVED, o, done, data);
  }

  lemma PrefixThenData(m: seq<byte>, n: seq<byte>, a: nat, o: nat, done: seq<byte>, data: seq<byte>)
    requires o == a + |done| && o + |data| <= |m| == |n|
    requires n[..o] == m[..o] && n[o..o + |data|] == data && m[a..o] == done
    ensures n[a..o + |data|] == done + data
  {
    assert n[a..o] == n[..o][a..] == m[..o][a..] == m[a..o];
    assert n[a..o + |data|] == n[a..o] + n[o..o + |data|];
  }

  lemma FirstChunk(l: Layout, s: Firmware, done: seq<byte>, chunks: seq<seq<byte>>)
    requires l.sector > 0 && |chunks| > 0
    ensures Run(l, s, Chunks(chunks)) == Run(l, WriteChunk(l, s, chunks[0]).0, Chunks(chunks[1..]))
    ensures (done + chunks[0]) + Flatten(chunks[1..]) == done + Flatten(chunks)
  {
    hide WriteChunk;
    assert Chunks(chunks)[0] == Chunk(chunks[0]) && Chunks(chunks)[1..] == Chunks(chunks[1..]);
  }

  lemma {:induction false} ChunksReceived(l: Layout, s: Firmware, done: seq<byte>, chunks: seq<seq<byte>>)
    requires Received(l, s, done) && SectorWise(l.sector, s.writeOffset, chunks)
    requires s.writeOffset + |Flatten(chunks)| <= l.slotSize
    ensures var t := Run(l, s, Chunks(chunks));
      && Received(l, t, done + Flatten(chunks))
      && t.active == s.active && t.imageSize == s.imageSize && t.version == s.version
    decreases |chunks|
  {
    hide Update, Write, Decode, WriteChunk, Aligned, SizesFit, BodyAt, HeaderAt, SameSlot, Step;
    if |chunks| == 0 {
      assert done + Flatten(chunks) == done;
    } else {
      var t := WriteChunk(l, s, chunks[0]).0;
      ChunkReceived(l, s, done, chunks[0]);
      ChunkKeeps(l, s, chunks[0]);
      FirstChunk(l, s, done, chunks);
      ChunksReceived(l, t, done + chunks[0], chunks[1..]);
    }
  }

  lemma BeginReceives(l: Layout, s: Firmware, imageSize: u32, version: u32)
    requires Inv(l, s) && HEADER_RESERVED + imageSize <= l.slotSize
    ensures var r := BeginWrite(l, s, imageSize, version);
      r.1 && Received(l, r.0, []) && r.0.active == s.active && r.0.imageSize == imageSize && r.0.version == version && r.0.mem == s.mem
  {
    WordRoundTrip(INITIAL);
  }

  /**
   * End to end: an image sent in any chunks that start on sector boundaries is finalized
   * successfully, reads back as exactly the bytes sent, and its header carries the announced size,
   * the version and the checksum.
   */
  lemma UpdateReadsBack(l: Layout, s: Firmware, version: u32, chunks: seq<seq<byte>>)
    requires Inv(l, s)
    requires HEADER_RESERVED + |Flatten(chunks)| <= l.slotSize
    requires SectorWise(l.sector, HEADER_RESERVED, chunks)
    ensures var image := Flatten(chunks);
      var t := Run(l, BeginWrite(l, s, |image|, version).0, Chunks(chunks));
      var r := FinalizeWrite(l, t);
      && r.1
      && r.0.active == s.active
      && BodyAt(l, r.0.mem, s.Inactive(), |image|) == image
      && HeaderAt(l, r.0.mem, s.Inactive()) == Header(MAGIC, version, |image|, Crc(image), 0, s.Inactive(), 1, 0, 0)
      && Verifies(l, r.0.mem, s.Inactive())
  {
    hide Update, Write, Decode, FinalizeWrite, SectorWise, Run, Finalize;
    var image := Flatten(chunks);
    BeginReceives(l, s, |image|, version);
    var b := BeginWrite(l, s, |image|, version).0;
    ChunksReceived(l, b, [], chunks);
    assert [] + image == image;
    FinishStep(l, Run(l, b, Chunks(chunks)));
  }

  /** A flash fresh from the factory. */
  ghost predicate Blank(l: Layout, m: seq<byte>) {
    l.Ok() && |m| == l.total && forall i | 0 <= i < |m| :: m[i] == 0xFF
  }

  lemma BlankHasNoHeader(l: Layout, m: seq<byte>, slot: nat)
    requires Blank(l, m) && slot <= 1
    ensures !HasHeader(l, m, slot)
  {
    var o := l.Offset(slot);
    if HasHeader(l, m, slot) {
      MagicFirstByte(m[o..o + HEADER_SIZE]);
    }
  }

  /** What init makes of a flash: nothing in progress, and an active slot. */
  function Initialized(l: Layout, m: seq<byte>): Firmware { Firmware(m, InitialSlot(l, m), 0, 0, 0, 0, false) }

  /** The second slot is active after init exactly when it has a valid header and the first one has none. */
  lemma SecondSlotFirstIff(l: Layout, m: seq<byte>)
    ensures var s := Initialized(l, m).active;
      && (s == 0 || s == 1)
      && (s == 1 <==> (HasHeader(l, m, 1) && HeaderAt(l, m, 1).flags % 2 == 1) && !(HasHeader(l, m, 0) && HeaderAt(l, m, 0).flags % 2 == 1))
  {
    hide Decode;
  }

  /**
   * A blank device: init makes slot 0 the active one, the first update goes to slot 1, and once it is
   * activated the device runs it, marked valid and bootable.
   */
  lemma FactoryInstall(l: Layout, m: seq<byte>, version: u32, chunks: seq<seq<byte>>)
    requires Blank(l, m)
    requires HEADER_RESERVED + |Flatten(chunks)| <= l.slotSize && SectorWise(l.sector, HEADER_RESERVED, chunks)
    ensures Initialized(l, m).active == 0 && Inv(l, Initialized(l, m))
    ensures var image := Flatten(chunks);
      var f := FinalizeWrite(l, Run(l, BeginWrite(l, Initialized(l, m), |image|, version).0, Chunks(chunks)));
      var r := ActivateSlot(l, f.0, 1);
      && f.1 && BodyAt(l, f.0.mem, 1, |image|) == image
      && r.1 && Inv(l, r.0) && r.0.active == 1
      && HeaderAt(l, r.0.mem, 1) == Header(MAGIC, version, |image|, Crc(image), 0, 1, 3, 0, 0)
      && Verifies(l, r.0.mem, 1) && ActiveBody(l, r.0) == image
  {
    hide Update, Write, Decode, FinalizeWrite, ActivateSlot, WriteChunk, SectorWise, Run, Finalize, Crc, BodyAt, HeaderAt, InitialSlot;
    var s := Initialized(l, m);
    BlankHasNoHeader(l, m, 0);
    BlankHasNoHeader(l, m, 1);
    SecondSlotFirstIff(l, m);
    var b := BeginWrite(l, s, |Flatten(chunks)|, version).0;
    BeginReceives(l, s, |Flatten(chunks)|, version);
    ChunksReceived(l, b, [], chunks);
    UpdateReadsBack(l, s, version, chunks);
    var t := Run(l, b, Chunks(chunks));
    var f := FinalizeWrite(l, t).0;
    FinishStep(l, t);
    StepKeepsInv(l, t, Finish);
    StepKeepsInv(l, f, Activate(1));
    ActivateStep(l, f, 1);
    ActivatedHeader(l, f, 1);
  }

  /** Activating rewrites the header with its second flag bit set. */
  lemma ActivatedHeader(l: Layout, s: Firmware, slot: nat)
    requires Inv(l, s) && slot <= 1 && Verifies(l, s.mem, slot)
    ensures var h := HeaderAt(l, s.mem, slot);
      HeaderAt(l, ActivateSlot(l, s, slot).0.mem, slot) == h.(flags := if h.flags / 2 % 2 == 1 then h.flags else h.flags + 2)
  {
    hide Update, Write, Decode, Encode, Crc, BodyAt;
    HeaderWriteReadsBack(l, s.mem, slot, HeaderAt(l, s.mem, slot).Bootable());
  }

  // ---------------------------------------------------------------- damaged updates

  /** Finalizing succeeds exactly when the flash holds a body with the checksum of the bytes received. */
  lemma FinalizeSucceedsIff(l: Layout, s: Firmware)
    requires Inv(l, s) && s.writing
    ensures FinalizeWrite(l, s).1 <==> Crc(BodyAt(l, s.mem, s.Inactive(), s.imageSize)) == Finalize(s.writeCrc)
  {
    FinishStep(l, s);
  }

  /** Any burst of up to 32 damaged bits in a verified body makes verify fail. */
  lemma VerifyRejectsBurst(l: Layout, m: seq<byte>, n: seq<byte>, slot: nat, p: nat)
    requires l.Ok() && |m| == |n| == l.total && Verifies(l, m, slot)
    requires HeaderAt(l, n, slot) == HeaderAt(l, m, slot)
    requires var size := HeaderAt(l, m, slot).size;
      BodyAt(l, m, slot, size) != BodyAt(l, n, slot, size) && DifferOnlyInBurst(BodyAt(l, m, slot, size), BodyAt(l, n, slot, size), p, 32)
    ensures !Verifies(l, n, slot)
  {
    var size := HeaderAt(l, m, slot).size;
    CrcDetectsBurst(BodyAt(l, m, slot, size), BodyAt(l, n, slot, size), p);
  }

  lemma MagicFirstByte(s: seq<byte>)
    requires |s| == HEADER_SIZE && Decode(s).magic == MAGIC
    ensures s[0] == 0x54
  {
    assert FromLe32(s[0..4]) % 0x100 == s[0..4][0];
  }
}
