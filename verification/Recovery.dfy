/**
 * recovery/src/recovery_manager.cpp: the device firmware update state machine over the firmware
 * cache and the boot record, as functions on the state of all three.
 */
module RecoverySpec {
  import opened Words
  import opened Sectors
  import opened StorageSpec
  import opened FirmwareSpec
  import opened FirmwareRuns
  import opened FirmwareHazards
  import BootSpec
  import Crc32Spec

  datatype DfuState = Idle | AwaitingImage | Receiving | Verifying | Installing | Complete | Failed | RollingBack

  datatype Channel = NoChannel | Ble | WiFi | Uart

  datatype Dfu = Dfu(state: DfuState, received: u32, totalSize: u32, fw: Firmware, boot: BootSpec.BootConfig)

  function StartDfuListener(d: Dfu, channel: Channel, started: bool): (Dfu, bool) {
    (d.(state := AwaitingImage), channel != NoChannel && started)
  }

  function ReceiveChunk(l: Layout, d: Dfu, data: seq<byte>): (Dfu, int)
    requires l.sector > 0
  {
    if d.state != AwaitingImage && d.state != Receiving then (d, -1)
    else
      var (fw, written) := WriteChunk(l, d.fw, data);
      (d.(state := Receiving, fw := fw, received := if written > 0 then Wrap32(d.received + written) else d.received), written)
  }

  function FinalizeDfu(l: Layout, d: Dfu): (Dfu, bool)
    requires l.sector > 0
  {
    var (finished, ok) := FinalizeWrite(l, d.fw);
    if !ok then (d.(state := Failed, fw := finished), false)
    else
      var slot := finished.Inactive();
      var (switched, active) := ActivateSlot(l, finished, slot);
      if !active then (d.(state := Failed, fw := switched), false)
      else (d.(state := Complete, fw := switched, boot := BootSpec.RequestOtaBoot(d.boot, slot)), true)
  }

  function RollbackDfu(l: Layout, d: Dfu): (Dfu, bool)
    requires l.sector > 0
  {
    var (fw, ok) := Rollback(l, d.fw);
    (d.(state := if ok then Complete else Failed, fw := fw), ok)
  }

  function Abort(d: Dfu): Dfu { d.(state := Idle, received := 0, totalSize := 0) }

  // ---------------------------------------------------------------- all or nothing

  /** An image is being written and its bytes in flash have the checksum of the bytes received. */
  ghost predicate ImageArrived(l: Layout, s: Firmware)
    requires Inv(l, s)
  {
    s.writing && Crc32Spec.Crc(BodyAt(l, s.mem, s.Inactive(), s.imageSize)) == Crc32Spec.Finalize(s.writeCrc)
  }

  /**
   * finalizeDfu is all or nothing.  It succeeds exactly when an image is being written whose bytes in
   * flash have the checksum of the bytes received.  Success means: complete, the other slot is active
   * and verifies, and the boot record asks for exactly that slot.  Failure means: failed, with the
   * active slot and the boot record as they were.  Either way the image that was active is untouched.
   */
  lemma FinalizeDfuAllOrNothing(l: Layout, d: Dfu)
    requires Inv(l, d.fw)
    ensures var (t, ok) := FinalizeDfu(l, d);
      && Inv(l, t.fw)
      && (ok <==> ImageArrived(l, d.fw))
      && (ok ==>
            && t.state == Complete
            && t.fw.active == d.fw.Inactive() && Verifies(l, t.fw.mem, t.fw.active)
            && var (record, intact) := BootSpec.Load(t.boot);
               intact && record.mode == BootSpec.Code(BootSpec.OtaPending) && record.otaSlot == t.fw.active)
      && (!ok ==> t.state == Failed && t.fw.active == d.fw.active && t.boot == d.boot)
      && SameSlot(l, d.fw.mem, t.fw.mem, d.fw.active)
  {
    hide Crc32Spec.Update, Write, Crc32Spec.Crc, Crc32Spec.Finalize, FinalizeWrite, ActivateSlot, HeaderAt, BodyAt, SizesFit, BootSpec.Checksum, Verifies;
    if d.fw.writing {
      FinishStep(l, d.fw);
      FinalizeSucceedsIff(l, d.fw);
      StepKeepsInv(l, d.fw, Finish);
      var s := FinalizeWrite(l, d.fw).0;
      if FinalizeWrite(l, d.fw).1 {
        ActivateStep(l, s, s.Inactive());
        StepKeepsInv(l, s, Activate(s.Inactive()));
        BootRecordAsks(d.boot, s.Inactive());
      }
    } else {
      NotWriting(l, d.fw, []);
    }
  }

  lemma BootRecordAsks(boot: BootSpec.BootConfig, slot: byte)
    ensures var (record, intact) := BootSpec.Load(BootSpec.RequestOtaBoot(boot, slot));
      intact && record.mode == BootSpec.Code(BootSpec.OtaPending) && record.otaSlot == slot
  {
    hide BootSpec.Checksum;
    var c := BootSpec.Load(boot).0.(mode := BootSpec.Code(BootSpec.OtaPending), otaSlot := slot);
    BootSpec.SaveThenLoad(c);
  }

  /**
   * A rollback straight after a successful update reactivates the earlier slot with its image
   * unchanged, provided it verified before the update.  The boot record is not rewritten: it still
   * asks for the slot that was rolled back.
   */
  lemma RollbackUndoesUpdate(l: Layout, d: Dfu)
    requires Inv(l, d.fw) && Verifies(l, d.fw.mem, d.fw.active) && FinalizeDfu(l, d).1
    ensures var t := FinalizeDfu(l, d).0; var (u, ok) := RollbackDfu(l, t);
      && ok && u.state == Complete
      && Inv(l, u.fw) && u.fw.active == d.fw.active && Verifies(l, u.fw.mem, u.fw.active)
      && SameImage(l, d.fw.mem, u.fw.mem, d.fw.active)
      && ActiveBody(l, u.fw) == ActiveBody(l, d.fw)
      && var (record, intact) := BootSpec.Load(u.boot);
         intact && record.mode == BootSpec.Code(BootSpec.OtaPending) && record.otaSlot == 1 - u.fw.active
  {
    hide Crc32Spec.Update, Write, Crc32Spec.Crc, Crc32Spec.Finalize, FinalizeWrite, ActivateSlot, HeaderAt, BodyAt, SizesFit, FinalizeDfu, Verifies;
    FinalizeDfuAllOrNothing(l, d);
    var t, a := FinalizeDfu(l, d).0, d.fw.active;
    ActiveSizeFits(l, d.fw);
    SameSlotSameImage(l, d.fw.mem, t.fw.mem, a);
    SameImageSameVerdict(l, d.fw.mem, t.fw.mem, a);
    SameSlotSameHeader(l, d.fw.mem, t.fw.mem, a);
    ActivateStep(l, t.fw, a);
    StepKeepsInv(l, t.fw, Back);
    ImageChain(l, d.fw.mem, t.fw.mem, RollbackDfu(l, t).0.fw.mem, a);
  }

  /** The boot record asks for a slot. */
  predicate Asks(boot: BootSpec.BootConfig, slot: nat) {
    BootSpec.Load(boot).0.mode == BootSpec.Code(BootSpec.OtaPending) && BootSpec.Load(boot).0.otaSlot == slot
  }

  /** After a successful rollback the record asks for the slot that is active now exactly when it did so before. */
  lemma RollbackRecordAgreesIff(l: Layout, d: Dfu)
    requires Inv(l, d.fw) && RollbackDfu(l, d).1
    ensures var u := RollbackDfu(l, d).0;
      && u.fw.active == d.fw.Inactive()
      && (Asks(u.boot, u.fw.active) <==> Asks(d.boot, d.fw.Inactive()))
  {
    hide Verifies, Write, HeaderAt, Asks;
  }

  lemma ActiveSizeFits(l: Layout, s: Firmware)
    requires Inv(l, s) && Verifies(l, s.mem, s.active)
    ensures HEADER_RESERVED + HeaderAt(l, s.mem, s.active).size <= l.slotSize
  {}

  lemma ImageChain(l: Layout, m: seq<byte>, n: seq<byte>, p: seq<byte>, slot: nat)
    requires l.Ok() && |m| == |n| == |p| == l.total && slot <= 1
    requires HEADER_RESERVED + HeaderAt(l, m, slot).size <= l.slotSize
    requires HeaderAt(l, n, slot) == HeaderAt(l, m, slot)
    requires SameImage(l, m, n, slot) && SameImage(l, n, p, slot)
    ensures SameImage(l, m, p, slot)
    ensures Verifies(l, m, slot) ==> Verifies(l, p, slot)
    ensures var size := HeaderAt(l, m, slot).size;
      HeaderAt(l, p, slot).size == size && BodyAt(l, p, slot, size) == BodyAt(l, m, slot, size)
  {
    hide Decode, Crc32Spec.Crc;
  }

  // ---------------------------------------------------------------- runs

  datatype DfuCall =
    | BeginImage(imageSize: u32, version: u32)
    | Listen(channel: Channel, started: bool)
    | Receive(data: seq<byte>)
    | FinalizeCall
    | RollbackCall
    | AbortCall
    | Reboot
    | Started

  /** The mode the bootloader picks. */
  function BootMode(l: Layout, d: Dfu): BootSpec.BootMode {
    BootSpec.Entry(d.boot, Verifies(l, d.fw.mem, 0), Verifies(l, d.fw.mem, 1)).1
  }

  /** A reboot: the bootloader counts it, everything in memory is gone, and init picks the active slot anew. */
  function Rebooted(l: Layout, d: Dfu): Dfu {
    Dfu(Idle, 0, 0, Initialized(l, d.fw.mem),
        BootSpec.Entry(d.boot, Verifies(l, d.fw.mem, 0), Verifies(l, d.fw.mem, 1)).0)
  }

  function DfuStep(l: Layout, d: Dfu, c: DfuCall): Dfu
    requires l.sector > 0
  {
    match c
    case BeginImage(n, v) => d.(fw := BeginWrite(l, d.fw, n, v).0)
    case Listen(channel, started) => StartDfuListener(d, channel, started).0
    case Receive(data) => ReceiveChunk(l, d, data).0
    case FinalizeCall => FinalizeDfu(l, d).0
    case RollbackCall => RollbackDfu(l, d).0
    case AbortCall => Abort(d)
    case Reboot => Rebooted(l, d)
    case Started => d.(boot := BootSpec.MarkBootSuccessful(d.boot))
  }

  function DfuRun(l: Layout, d: Dfu, calls: seq<DfuCall>): Dfu
    requires l.sector > 0
    decreases |calls|
  {
    if |calls| == 0 then d else DfuRun(l, DfuStep(l, d, calls[0]), calls[1..])
  }

  /** Chunks end inside the slot, and no reboot comes while slot 1 is active and slot 0 has a valid header for something else. */
  ghost predicate DfuFits(l: Layout, d: Dfu, calls: seq<DfuCall>)
    requires l.sector > 0
    decreases |calls|
  {
    |calls| == 0 ||
    ((calls[0].Receive? && d.fw.writing ==> d.fw.writeOffset + |calls[0].data| <= l.slotSize)
     && (calls[0].Reboot? && d.fw.active == 1 ==> FirstSlotSound(l, d.fw.mem))
     && DfuFits(l, DfuStep(l, d, calls[0]), calls[1..]))
  }

  /** What the device can rely on at every moment: a verified image to run, and a boot record that names a slot. */
  ghost predicate Bootable(l: Layout, d: Dfu) {
    && Inv(l, d.fw) && Verifies(l, d.fw.mem, d.fw.active)
    && BootSpec.Load(d.boot).1
    && (BootSpec.Load(d.boot).0.mode == BootSpec.Code(BootSpec.OtaPending) ==> BootSpec.Load(d.boot).0.otaSlot <= 1)
  }

  lemma DfuStepKeepsBootable(l: Layout, d: Dfu, c: DfuCall)
    requires Bootable(l, d) && DfuFits(l, d, [c])
    ensures Bootable(l, DfuStep(l, d, c))
  {
    hide Crc32Spec.Update, Write, Crc32Spec.Crc, Crc32Spec.Finalize, FinalizeWrite, ActivateSlot, HeaderAt, BodyAt, SizesFit, BootSpec.Checksum, Verifies, WriteChunk;
    match c
    case BeginImage(n, v) => StepKeepsActiveImage(l, d.fw, Begin(n, v));
    case Listen(channel, started) =>
    case Receive(data) =>
      StepKeepsActiveImage(l, d.fw, Chunk(data));
    case FinalizeCall =>
      FinalizeDfuAllOrNothing(l, d);
      var t := FinalizeDfu(l, d).0;
      ActiveSizeFits(l, d.fw);
      SameSlotSameImage(l, d.fw.mem, t.fw.mem, d.fw.active);
      SameImageSameVerdict(l, d.fw.mem, t.fw.mem, d.fw.active);
    case RollbackCall =>
      StepKeepsActiveImage(l, d.fw, Back);
    case AbortCall =>
    case Reboot =>
      RebootKeepsBootableIff(l, d);
      FirstActiveSound(l, d);
    case Started => RecordStarted(d.boot);
  }

  lemma RecordStarted(boot: BootSpec.BootConfig)
    ensures var (record, intact) := BootSpec.Load(BootSpec.MarkBootSuccessful(boot));
      intact && record.mode == BootSpec.Code(BootSpec.Normal)
  {
    hide BootSpec.Checksum;
    BootSpec.SaveThenLoad(BootSpec.Load(boot).0.(bootCount := 0, mode := BootSpec.Code(BootSpec.Normal)));
  }

  lemma RecordCounted(boot: BootSpec.BootConfig)
    ensures var (record, intact) := BootSpec.Load(BootSpec.CountBoot(boot)); var before := BootSpec.Load(boot).0;
      intact && record.mode == before.mode && record.otaSlot == before.otaSlot
  {
    hide BootSpec.Checksum;
    var c := BootSpec.Load(boot).0;
    BootSpec.SaveThenLoad(c.(bootCount := (c.bootCount + 1) % 256));
  }

  /** A reboot keeps the device bootable exactly when a valid header in slot 0 means what it says. */
  lemma RebootKeepsBootableIff(l: Layout, d: Dfu)
    requires Bootable(l, d)
    ensures Bootable(l, Rebooted(l, d)) <==> FirstSlotSound(l, d.fw.mem)
  {
    hide Verifies, HeaderAt, SizesFit, InitialSlot, FirstSlotSound, BootSpec.CountBoot, BootSpec.Load, BootSpec.Decide;
    assert 0 <= d.fw.active <= 1;
    InitPicksVerifiedIff(l, d.fw.mem);
    InitPicksSlot(l, d.fw.mem);
    RecordCounted(d.boot);
  }

  /** While slot 0 is active every reboot is safe, in the middle of an update too: only updates of slot 0 need care. */
  lemma FirstActiveSound(l: Layout, d: Dfu)
    requires Bootable(l, d)
    ensures d.fw.active == 0 ==> FirstSlotSound(l, d.fw.mem) && Bootable(l, Rebooted(l, d))
  {
    hide Verifies, HeaderAt, SizesFit, Rebooted, BootSpec.Load;
    RebootKeepsBootableIff(l, d);
  }

  /** A reboot of a flash without a valid header leaves slot 0 active, so that the next update goes to slot 1. */
  lemma RebootWithoutHeader(l: Layout, d: Dfu)
    requires forall slot | 0 <= slot <= 1 :: !(HasHeader(l, d.fw.mem, slot) && HeaderAt(l, d.fw.mem, slot).IsValid())
    ensures var r := Rebooted(l, d); r.fw.active == 0 && r.fw.Inactive() == 1 && !r.fw.writing && r.fw.mem == d.fw.mem && r.state == Idle
  {
    hide HeaderAt, HasHeader;
  }

  lemma InitPicksSlot(l: Layout, m: seq<byte>)
    ensures InitialSlot(l, m) <= 1
  {
    hide HeaderAt, HasHeader;
  }

  /** Over every run of the recovery manager, in any order of calls, starts and reboots, the device stays bootable. */
  lemma {:induction false} DeviceStaysBootable(l: Layout, d: Dfu, calls: seq<DfuCall>)
    requires Bootable(l, d) && DfuFits(l, d, calls)
    ensures Bootable(l, DfuRun(l, d, calls))
    decreases |calls|
  {
    hide DfuStep, SizesFit, Verifies, BootSpec.Load;
    if |calls| > 0 {
      FirstFits(l, d, calls);
      DfuStepKeepsBootable(l, d, calls[0]);
      DeviceStaysBootable(l, DfuStep(l, d, calls[0]), calls[1..]);
    }
  }

  /** After every such run a reboot finds firmware: the bootloader never goes into emergency mode. */
  lemma NoEmergency(l: Layout, d: Dfu, calls: seq<DfuCall>)
    requires Bootable(l, d) && DfuFits(l, d, calls)
    ensures BootMode(l, DfuRun(l, d, calls)) != BootSpec.Emergency
  {
    hide DfuStep, DfuRun, DfuFits, SizesFit, Verifies, BootSpec.Load, BootSpec.CountBoot;
    DeviceStaysBootable(l, d, calls);
    assert DfuRun(l, d, calls).fw.active == 0 || DfuRun(l, d, calls).fw.active == 1;
  }

  /**
   * A successful update is still the active one after a reboot exactly when it went to slot 0 or slot 0 has
   * no valid header: init asks neither the boot record nor the bootable flag.
   */
  lemma UpdateSurvivesRebootIff(l: Layout, d: Dfu)
    requires Inv(l, d.fw) && FinalizeDfu(l, d).1
    ensures var t := FinalizeDfu(l, d).0;
      Rebooted(l, t).fw.active == t.fw.active
      <==> t.fw.active == 0 || !(HasHeader(l, d.fw.mem, 0) && HeaderAt(l, d.fw.mem, 0).IsValid())
  {
    hide Crc32Spec.Update, Write, Crc32Spec.Crc, Crc32Spec.Finalize, FinalizeWrite, ActivateSlot, HeaderAt, BodyAt, SizesFit, FinalizeDfu, BootSpec.Entry;
    var t := FinalizeDfu(l, d).0;
    FinalizeDfuAllOrNothing(l, d);
    if t.fw.active == 1 {
      SameSlotSameHeader(l, d.fw.mem, t.fw.mem, 0);
    }
  }

  /**
   * What the condition on reboots keeps out.  When an update of slot 0 fails and the device reboots, init
   * makes the spoiled slot the active one, although slot 1 still verifies; and the first chunk of the next
   * update, which goes to slot 1, can leave no slot that verifies.
   */
  lemma FailedUpdateThenReboot(l: Layout, d: Dfu, version: u32, size: u32)
    requires Bootable(l, d) && d.fw.active == 1 && d.fw.writing && !FinalizeDfu(l, d).1
    requires HeaderAt(l, d.fw.mem, 1).size > 0 && HEADER_RESERVED + size <= l.slotSize
    ensures var r := Rebooted(l, FinalizeDfu(l, d).0);
      && r.fw.active == 0 && !Verifies(l, r.fw.mem, 0) && Verifies(l, r.fw.mem, 1)
      && exists x: byte :: var t := DfuRun(l, r, [BeginImage(size, version), Listen(Ble, true), Receive([x])]);
           !Verifies(l, t.fw.mem, 0) && !Verifies(l, t.fw.mem, 1)
  {
    hide Crc32Spec.Update, Write, Crc32Spec.Crc, Crc32Spec.Finalize, FinalizeWrite, HeaderAt, BodyAt, SizesFit, Verifies, WriteChunk, InitialSlot, BootSpec.Entry, Rebooted;
    var s := d.fw;
    var t := FinalizeWrite(l, s).0;
    FinalizeDfuAllOrNothing(l, d);
    FailedFinalize(l, d);
    FailedUpdateMisleadsInit(l, s);
    FinishStep(l, s);
    StepKeepsInv(l, s, Finish);
    ActiveSizeFits(l, s);
    SameSlotSameVerdict(l, s.mem, t.mem, 1);
    SameSlotSameHeader(l, s.mem, t.mem, 1);
    var r := Rebooted(l, FinalizeDfu(l, d).0);
    RebootedFirmware(l, FinalizeDfu(l, d).0);
    NextUpdateSpoils(l, r, version, size);
  }

  lemma FailedFinalize(l: Layout, d: Dfu)
    requires Inv(l, d.fw) && d.fw.writing && !FinalizeDfu(l, d).1
    ensures !FinalizeWrite(l, d.fw).1 && FinalizeDfu(l, d).0.fw == FinalizeWrite(l, d.fw).0
  {
    hide Crc32Spec.Update, Write, Crc32Spec.Crc, Crc32Spec.Finalize, FinalizeWrite, ActivateSlot, HeaderAt, BodyAt, SizesFit, Verifies;
    FinishStep(l, d.fw);
    StepKeepsInv(l, d.fw, Finish);
    if FinalizeWrite(l, d.fw).1 {
      ActivateStep(l, FinalizeWrite(l, d.fw).0, d.fw.Inactive());
    }
  }

  lemma RebootedFirmware(l: Layout, d: Dfu)
    ensures var r := Rebooted(l, d);
      r.fw == Initialized(l, d.fw.mem) && r.state == Idle
  {}

  lemma NextUpdateSpoils(l: Layout, r: Dfu, version: u32, size: u32)
    requires Inv(l, r.fw) && r.fw.active == 0 && !r.fw.writing && !Verifies(l, r.fw.mem, 0) && Verifies(l, r.fw.mem, 1)
    requires HeaderAt(l, r.fw.mem, 1).size > 0 && HEADER_RESERVED + size <= l.slotSize
    ensures exists x: byte :: var t := DfuRun(l, r, [BeginImage(size, version), Listen(Ble, true), Receive([x])]);
      !Verifies(l, t.fw.mem, 0) && !Verifies(l, t.fw.mem, 1)
  {
    hide Crc32Spec.Update, Write, HeaderAt, BodyAt, SizesFit, Verifies, WriteChunk;
    var b := BeginWrite(l, r.fw, size, version).0;
    BeginReceives(l, r.fw, size, version);
    ActiveSizeFits(l, r.fw.(active := 1));
    FirstByteSpoils(l, b);
    var x: byte :| x <= 1 && !Verifies(l, WriteChunk(l, b, [x]).0.mem, 1);
    ChunkKeeps(l, b, [x]);
    StillUnsound(l, b.mem, WriteChunk(l, b, [x]).0.mem);
    ThreeCalls(l, r, version, size, x);
  }

  // ---------------------------------------------------------------- one device that ends up with nothing

  lemma {:induction false} DfuRunOnward(l: Layout, d: Dfu, calls: seq<DfuCall>, more: seq<DfuCall>)
    requires l.sector > 0
    ensures DfuRun(l, d, calls + more) == DfuRun(l, DfuRun(l, d, calls), more)
    decreases |calls|
  {
    hide DfuStep;
    if |calls| == 0 {
      assert calls + more == more;
    } else {
      assert (calls + more)[1..] == calls[1..] + more;
      DfuRunOnward(l, DfuStep(l, d, calls[0]), calls[1..], more);
    }
  }

  /** An update of one chunk or two, as the recovery manager gets it. */
  function OneChunk(c: seq<byte>): seq<DfuCall> {
    [Listen(Ble, true), BeginImage(|c| % 0x1_0000_0000, 1), Receive(c), FinalizeCall]
  }

  function TwoChunks(a: seq<byte>, b: seq<byte>): seq<DfuCall> {
    [Listen(Ble, true), BeginImage((|a| + |b|) % 0x1_0000_0000, 1), Receive(a), Receive(b), FinalizeCall]
  }

  /** The first start on some flash. */
  function Factory(l: Layout, m: seq<byte>, boot: BootSpec.BootConfig): Dfu { Dfu(Idle, 0, 0, Initialized(l, m), boot) }

  /** The recovery manager passes an update on to the firmware cache. */
  lemma OneChunkPasses(l: Layout, d: Dfu, c: seq<byte>)
    requires l.sector > 0 && |c| < 0x1_0000_0000
    ensures var t := DfuRun(l, d, OneChunk(c)[..3]);
      && t.fw == WriteChunk(l, BeginWrite(l, d.fw, |c|, 1).0, c).0 && t.boot == d.boot
      && DfuRun(l, d, OneChunk(c)) == FinalizeDfu(l, t).0
  {
    hide WriteChunk, BeginWrite, FinalizeDfu;
    var calls := OneChunk(c);
    var d1 := DfuStep(l, d, calls[0]);
    var d2 := DfuStep(l, d1, calls[1]);
    var d3 := DfuStep(l, d2, calls[2]);
    FourSteps(l, d, calls);
    assert d2.state == AwaitingImage;
    assert d3.fw == WriteChunk(l, d2.fw, c).0;
  }

  lemma FourSteps(l: Layout, d: Dfu, calls: seq<DfuCall>)
    requires l.sector > 0 && |calls| == 4
    ensures var d3 := DfuStep(l, DfuStep(l, DfuStep(l, d, calls[0]), calls[1]), calls[2]);
      DfuRun(l, d, calls[..3]) == d3 && DfuRun(l, d, calls) == DfuStep(l, d3, calls[3])
  {
    hide DfuStep;
    ThreeSteps(l, d, calls[..3]);
    DfuRunOnward(l, d, calls[..3], [calls[3]]);
    assert calls[..3] + [calls[3]] == calls && [calls[3]][1..] == [];
  }

  lemma ThreeSteps(l: Layout, d: Dfu, calls: seq<DfuCall>)
    requires l.sector > 0 && |calls| == 3
    ensures DfuRun(l, d, calls) == DfuStep(l, DfuStep(l, DfuStep(l, d, calls[0]), calls[1]), calls[2])
  {
    hide DfuStep;
    assert calls[1..][1..] == [calls[2]] && [calls[2]][1..] == [];
    assert DfuRun(l, DfuStep(l, DfuStep(l, d, calls[0]), calls[1]), [calls[2]])
        == DfuStep(l, DfuStep(l, DfuStep(l, d, calls[0]), calls[1]), calls[2]);
  }

  /** The first update of a blank device succeeds. */
  lemma FirstInstall(l: Layout, m: seq<byte>, boot: BootSpec.BootConfig)
    requires Blank(l, m) && HEADER_RESERVED + 1 <= l.slotSize
    ensures Factory(l, m, boot).fw.active == 0
    ensures var d := DfuRun(l, Factory(l, m, boot), OneChunk([7]));
      Bootable(l, d) && d.fw.active == 1 && HeaderAt(l, d.fw.mem, 1).size == 1
  {
    hide WriteChunk, BeginWrite, FinalizeWrite, FinalizeDfu, ActivateSlot, Verifies, HeaderAt, SizesFit, DfuRun, Run, Crc32Spec.Crc, Crc32Spec.Finalize;
    var c: seq<byte> := [7];
    var s := Initialized(l, m);
    var t := DfuRun(l, Factory(l, m, boot), OneChunk(c)[..3]);
    OneChunkPasses(l, Factory(l, m, boot), c);
    OneChunkRun(l, BeginWrite(l, s, 1, 1).0, c);
    FactoryInstall(l, m, 1, [c]);
    UpdateReadsBack(l, s, 1, [c]);
    BeginReceives(l, s, 1, 1);
    ChunksReceived(l, BeginWrite(l, s, 1, 1).0, [], [c]);
    FinalizeDfuAllOrNothing(l, t);
    InstalledBody(l, t, c);
  }

  lemma OneChunkRun(l: Layout, s: Firmware, c: seq<byte>)
    requires l.sector > 0 && Aligned(HEADER_RESERVED, l.sector)
    ensures Flatten([c]) == c && Run(l, s, Chunks([c])) == WriteChunk(l, s, c).0 && SectorWise(l.sector, HEADER_RESERVED, [c])
  {
    hide WriteChunk;
    assert [c][1..] == [];
    FirstChunk(l, s, [], [c]);
  }

  lemma InstalledBody(l: Layout, t: Dfu, c: seq<byte>)
    requires Inv(l, t.fw) && t.fw.writing && t.fw.active == 0 && FinalizeWrite(l, t.fw).1
    requires var r := ActivateSlot(l, FinalizeWrite(l, t.fw).0, 1); r.1 && Inv(l, r.0) && r.0.active == 1 && Verifies(l, r.0.mem, 1) && ActiveBody(l, r.0) == c
    ensures FinalizeDfu(l, t).1 && HeaderAt(l, FinalizeDfu(l, t).0.fw.mem, 1).size == |c|
  {
    hide Write, Crc32Spec.Crc, HeaderAt, FinalizeWrite, ActivateSlot, BootSpec.RequestOtaBoot;
    FinishStep(l, t.fw);
  }

  /** Then an update of slot 0 that loses a byte fails. */
  lemma SecondInstallFails(l: Layout, d: Dfu)
    requires Bootable(l, d) && d.fw.active == 1 && l.sector > 1 && HEADER_RESERVED + 2 <= l.slotSize
    ensures var t := DfuRun(l, d, TwoChunks([1], [2])[..4]);
      && Bootable(l, t) && t.fw.active == 1 && t.fw.writing && !FinalizeDfu(l, t).1
      && SameSlot(l, d.fw.mem, t.fw.mem, 1)
      && DfuRun(l, d, TwoChunks([1], [2])) == FinalizeDfu(l, t).0
  {
    hide WriteChunk, FinalizeWrite, FinalizeDfu, Verifies, HeaderAt, SizesFit, DfuRun, Crc32Spec.Update, SameSlot, BodyAt;
    var calls := TwoChunks([1], [2]);
    var b := BeginWrite(l, d.fw, 2, 1).0;
    var b1 := WriteChunk(l, b, [1]).0;
    TwoChunksPass(l, d);
    BeginReceives(l, d.fw, 2, 1);
    StepKeepsActiveImage(l, d.fw, Begin(2, 1));
    StepKeepsActiveImage(l, b, Chunk([1]));
    ChunkKeeps(l, b, [1]);
    StepKeepsActiveImage(l, b1, Chunk([2]));
    ChunkKeeps(l, b1, [2]);
    SlotTwice(l, b.mem, b1.mem, WriteChunk(l, b1, [2]).0.mem);
    TwoBytesRejected(l, d.fw, 1);
    FailsTogether(l, DfuRun(l, d, calls[..4]));
  }

  lemma SlotTwice(l: Layout, m: seq<byte>, n: seq<byte>, p: seq<byte>)
    requires l.Ok() && |m| == |n| == |p| == l.total && SameSlot(l, m, n, 1) && SameSlot(l, n, p, 1)
    ensures SameSlot(l, m, p, 1)
  {}

  lemma FailsTogether(l: Layout, t: Dfu)
    requires l.sector > 0 && !FinalizeWrite(l, t.fw).1
    ensures !FinalizeDfu(l, t).1
  {
    hide FinalizeWrite, ActivateSlot;
  }

  lemma TwoChunksPass(l: Layout, d: Dfu)
    requires l.sector > 0
    ensures var calls := TwoChunks([1], [2]); var t := DfuRun(l, d, calls[..4]);
      && t.fw == WriteChunk(l, WriteChunk(l, BeginWrite(l, d.fw, 2, 1).0, [1]).0, [2]).0 && t.boot == d.boot
      && DfuRun(l, d, calls) == FinalizeDfu(l, t).0
  {
    hide WriteChunk, BeginWrite, FinalizeDfu;
    var calls := TwoChunks([1], [2]);
    FourSteps(l, d, calls[..4]);
    DfuRunOnward(l, d, calls[..4], [calls[4]]);
    assert calls[..4] + [calls[4]] == calls && [calls[4]][1..] == [];
    assert DfuRun(l, DfuRun(l, d, calls[..4]), [calls[4]]) == DfuStep(l, DfuRun(l, d, calls[..4]), calls[4]);
  }

  /**
   * From the factory to nothing, in any layout with sectors of more than one byte: an update that succeeds,
   * one sent in two chunks of one byte that fails, a reboot, and one more byte leave no slot that verifies.
   */
  lemma DeviceEndsWithNothing(l: Layout, m: seq<byte>, boot: BootSpec.BootConfig)
    requires Blank(l, m) && l.sector > 1 && HEADER_RESERVED + 2 <= l.slotSize
    ensures exists x: byte ::
      var t := DfuRun(l, Factory(l, m, boot), OneChunk([7]) + TwoChunks([1], [2]) + [Reboot] + [BeginImage(0, 2), Listen(Ble, true), Receive([x])]);
      !Verifies(l, t.fw.mem, 0) && !Verifies(l, t.fw.mem, 1)
  {
    hide DfuRun, DfuStep, FinalizeDfu, Verifies, HeaderAt, Rebooted, SizesFit, BootSpec.Load;
    var d0 := Factory(l, m, boot);
    var a, b := OneChunk([7]), TwoChunks([1], [2]);
    var d1 := DfuRun(l, d0, a);
    var t := DfuRun(l, d1, b[..4]);
    FirstInstall(l, m, boot);
    SecondInstallFails(l, d1);
    SameSlotSameHeader(l, d1.fw.mem, t.fw.mem, 1);
    FailedUpdateThenReboot(l, t, 2, 0);
    var r := Rebooted(l, FinalizeDfu(l, t).0);
    OneReboot(l, FinalizeDfu(l, t).0);
    var x: byte :| var u := DfuRun(l, r, [BeginImage(0, 2), Listen(Ble, true), Receive([x])]);
      !Verifies(l, u.fw.mem, 0) && !Verifies(l, u.fw.mem, 1);
    DfuRunOnward(l, d0, a, b);
    DfuRunOnward(l, d0, a + b, [Reboot]);
    DfuRunOnward(l, d0, a + b + [Reboot], [BeginImage(0, 2), Listen(Ble, true), Receive([x])]);
  }

  lemma OneReboot(l: Layout, d: Dfu)
    requires l.sector > 0
    ensures DfuRun(l, d, [Reboot]) == Rebooted(l, d)
  {
    hide Rebooted;
    assert [Reboot][1..] == [];
    assert DfuRun(l, Rebooted(l, d), []) == Rebooted(l, d);
  }

  lemma StillUnsound(l: Layout, m: seq<byte>, n: seq<byte>)
    requires l.Ok() && |m| == |n| == l.total && SizesFit(l, m) && SameSlot(l, m, n, 0) && !Verifies(l, m, 0)
    ensures !Verifies(l, n, 0)
  {
    hide Crc32Spec.Crc, BodyAt;
    SameSlotSameHeader(l, m, n, 0);
    if Verifies(l, n, 0) {
      SameSlotSameVerdict(l, m, n, 0);
    }
  }

  lemma ThreeCalls(l: Layout, r: Dfu, version: u32, size: u32, x: byte)
    requires l.sector > 0
    ensures DfuRun(l, r, [BeginImage(size, version), Listen(Ble, true), Receive([x])]).fw
         == WriteChunk(l, BeginWrite(l, r.fw, size, version).0, [x]).0
  {
    hide WriteChunk, BeginWrite;
    var a, b, c := BeginImage(size, version), Listen(Ble, true), Receive([x]);
    assert [a, b, c][1..] == [b, c] && [b, c][1..] == [c] && [c][1..] == [];
    var r1 := DfuStep(l, r, a);
    var r2 := DfuStep(l, r1, b);
    assert DfuRun(l, r, [a, b, c]) == DfuRun(l, r1, [b, c]) == DfuRun(l, r2, [c]) == DfuRun(l, DfuStep(l, r2, c), []);
  }

  lemma FirstFits(l: Layout, d: Dfu, calls: seq<DfuCall>)
    requires l.sector > 0 && |calls| > 0 && DfuFits(l, d, calls)
    ensures DfuFits(l, d, [calls[0]])
  {
    assert [calls[0]][1..] == [];
  }

  /**
   * Chunks are taken only while an image is awaited or being received; otherwise they change nothing.
   * A chunk that comes before the image was announced is refused, but counts as receiving.
   */
  lemma ChunksOnlyWhileReceiving(l: Layout, d: Dfu, data: seq<byte>)
    requires l.sector > 0
    ensures var (t, n) := ReceiveChunk(l, d, data);
      && (d.state != AwaitingImage && d.state != Receiving ==> t == d && n == -1)
      && (d.state == AwaitingImage || d.state == Receiving ==> t.state == Receiving && t.boot == d.boot && t.totalSize == d.totalSize)
      && (n != -1 ==> d.fw.writing && t.state == Receiving && n == |data| && t.received == Wrap32(d.received + n))
      && (!d.fw.writing ==> n == -1 && t.fw == d.fw && t.received == d.received)
  {}

  /** After an abort chunks are refused and change nothing until the listener is started again. */
  lemma AbortRefuses(l: Layout, d: Dfu, data: seq<byte>, channel: Channel, started: bool)
    requires l.sector > 0
    ensures Abort(d).received == 0 && Abort(d).totalSize == 0 && Abort(d).fw == d.fw && Abort(d).boot == d.boot
    ensures ReceiveChunk(l, Abort(d), data) == (Abort(d), -1)
    ensures var a := StartDfuListener(Abort(d), channel, started).0; ReceiveChunk(l, a, data).1 == WriteChunk(l, d.fw, data).1
  {
    hide WriteChunk;
  }

  /** The listener answers true exactly when a transport was chosen and started; chunks are awaited either way. */
  lemma ListenerAnswers(l: Layout, d: Dfu, channel: Channel, started: bool)
    ensures var (t, ok) := StartDfuListener(d, channel, started);
      && (ok <==> started && (channel == Ble || channel == WiFi || channel == Uart))
      && t.state == AwaitingImage && t.fw == d.fw && t.boot == d.boot && t.received == d.received
  {}

  /** A rollback that fails leaves the active slot, the flash and the boot record alone, and says so. */
  lemma FailedRollback(l: Layout, d: Dfu)
    requires l.sector > 0
    ensures RollbackDfu(l, d).1 <==> Verifies(l, d.fw.mem, d.fw.Inactive())
    ensures !RollbackDfu(l, d).1 ==> RollbackDfu(l, d).0 == d.(state := Failed)
  {
    hide Verifies, Write, HeaderAt;
  }
}

/** The recovery manager in place. */
module RecoveryImpl {
  import opened Words
  import opened FirmwareSpec
  import opened FirmwareCacheImpl
  import opened BootloaderImpl
  import opened RecoverySpec
  import BootSpec

  class RecoveryManager {
    const firmware: FirmwareCache
    const boot: Bootloader
    var state: DfuState
    var channel: Channel
    var received: u32
    var totalSize: u32

    constructor (firmware: FirmwareCache, boot: Bootloader)
      ensures this.firmware == firmware && this.boot == boot && state == Idle && received == 0 && totalSize == 0
    {
      this.firmware, this.boot := firmware, boot;
      state, channel, received, totalSize := Idle, NoChannel, 0, 0;
    }

    ghost predicate Valid()
      reads firmware.Repr()
    {
      && firmware.Valid()
      && boot as object !in firmware.Repr() && this as object !in firmware.Repr() && boot as object != this
    }

    ghost function Abstract(): Dfu
      reads this, boot, firmware, firmware.storage.backend.mem
    {
      Dfu(state, received, totalSize, firmware.State(), boot.stored)
    }

    /** `started` is the answer of the channel's transport. */
    method StartDfuListener(started: bool) returns (ok: bool)
      modifies this
      ensures (Abstract(), ok) == RecoverySpec.StartDfuListener(old(Abstract()), old(channel), started) && channel == old(channel)
    {
      state := AwaitingImage;
      ok := if channel == NoChannel then false else started;
    }

    method ReceiveChunk(data: seq<byte>) returns (written: int)
      requires Valid()
      modifies this, firmware.Repr()
      ensures Valid() && firmware.Geometry() == old(firmware.Geometry())
      ensures (Abstract(), written) == RecoverySpec.ReceiveChunk(firmware.Geometry(), old(Abstract()), data)
    {
      hide FirmwareSpec.WriteChunk;
      if state != AwaitingImage && state != Receiving {
        return -1;
      }
      if state == AwaitingImage {
        state := Receiving;
      }
      written := firmware.WriteChunk(data);
      if written > 0 {
        received := Wrap32(received + written);
      }
    }

    method FinalizeDfu() returns (ok: bool)
      requires Valid()
      modifies this, boot, firmware.Repr()
      ensures Valid() && firmware.Geometry() == old(firmware.Geometry())
      ensures (Abstract(), ok) == RecoverySpec.FinalizeDfu(firmware.Geometry(), old(Abstract()))
    {
      hide FirmwareSpec.FinalizeWrite, FirmwareSpec.ActivateSlot;
      hide BootSpec.RequestOtaBoot;
      state := Verifying;
      var finished := firmware.FinalizeWrite();
      if !finished {
        state := Failed;
        return false;
      }
      state := Installing;
      var slot := firmware.InactiveSlot();
      var active := firmware.ActivateSlot(slot);
      if !active {
        state := Failed;
        return false;
      }
      state := Complete;
      boot.RequestOtaBoot(slot);
      ok := true;
    }

    method Rollback() returns (ok: bool)
      requires Valid()
      modifies this, firmware.Repr()
      ensures Valid() && firmware.Geometry() == old(firmware.Geometry())
      ensures (Abstract(), ok) == RollbackDfu(firmware.Geometry(), old(Abstract()))
    {
      hide FirmwareSpec.Rollback;
      state := RollingBack;
      ok := firmware.Rollback();
      if !ok {
        state := Failed;
        return false;
      }
      state := Complete;
    }

    method Abort()
      modifies this
      ensures Abstract() == RecoverySpec.Abort(old(Abstract()))
    {
      state := Idle;
      received := 0;
      totalSize := 0;
    }
  }
}
