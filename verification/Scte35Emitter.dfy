/**
 Writing splice information sections: what each value is written as, the size hints that are computed
 ahead of it, and how the two relate.
 */
module Scte35Emitter {
  import opened Wrappers
  import opened Words
  import opened Wire
  import opened Scte35
  import opened Crc32

  // ---------- Size hints ----------

  function SpliceTimeHint(t: SpliceTime): nat {
    if t.ptsTime.Some? then 5 else 1
  }

  function BreakDurationHint(b: Option<BreakDuration>): nat {
    if b.Some? then 5 else 0
  }

  /** The size of the splice is computed but not added. */
  function ScheduleDetailsHint(d: ScheduleDetails): nat {
    1 + 4 + BreakDurationHint(d.breakDuration)
  }

  function ScheduleEventHint(e: ScheduleEvent): nat {
    5 + (if e.details.Some? then ScheduleDetailsHint(e.details.value) else 0)
  }

  function ScheduleEventsHint(es: seq<ScheduleEvent>): nat {
    if es == [] then 0 else ScheduleEventsHint(es[..|es| - 1]) + ScheduleEventHint(es[|es| - 1])
  }

  function OptionalTimeHint(t: Option<SpliceTime>): nat {
    if t.Some? then SpliceTimeHint(t.value) else 0
  }

  function InsertComponentsHint(cs: seq<InsertComponent>): nat {
    if cs == [] then 0
    else InsertComponentsHint(cs[..|cs| - 1]) + 1 + OptionalTimeHint(cs[|cs| - 1].spliceTime)
  }

  function InsertDetailsHint(d: InsertDetails): nat {
    1 + 4 + OptionalTimeHint(d.spliceTime)
      + (if d.components.Some? then 1 + InsertComponentsHint(d.components.value) else 0)
      + BreakDurationHint(d.breakDuration)
  }

  function CommandHint(c: Command): nat {
    match c
    case SpliceNull => 0
    case SpliceSchedule(events) => 1 + ScheduleEventsHint(events)
    case SpliceInsert(_, details) => 5 + (if details.Some? then InsertDetailsHint(details.value) else 0)
    case TimeSignal(t) => SpliceTimeHint(t)
    case BandwidthReservation => 0
    case PrivateCommand(_, data) => 4 + |data|
  }

  function DescriptorHint(d: Descriptor): nat {
    match d
    case AvailDescriptor(_) => 2 + AVAIL_LENGTH
    case DtmfDescriptor(_, chars) => 8 + |chars|
    case SegmentationDescriptor(data) => 6 + |data|
    case TimeDescriptor(_, _, _) => 2 + TIME_LENGTH
  }

  function DescriptorsHint(ds: seq<Descriptor>): nat {
    if ds == [] then 0 else DescriptorsHint(ds[..|ds| - 1]) + DescriptorHint(ds[|ds| - 1])
  }

  function SectionLength(s: Section): nat {
    17 + CommandHint(s.command) + DescriptorsHint(s.descriptors)
  }

  function SectionHint(s: Section): nat {
    3 + SectionLength(s)
  }

  // ---------- What values are written as ----------

  function Bit(b: bool, weight: byte): byte {
    if b then weight else 0
  }

  function SpliceTimeBytes(t: SpliceTime): bytes {
    if t.ptsTime.Some? then Write33Prefix(0xFF, t.ptsTime.value) else Write8(0x7F)
  }

  function OptionalTimeBytes(t: Option<SpliceTime>): bytes {
    if t.Some? then SpliceTimeBytes(t.value) else []
  }

  function BreakDurationBytes(b: Option<BreakDuration>): bytes {
    if b.Some? then Write33Prefix(Bit(b.value.autoReturn, 0x80), b.value.duration) else []
  }

  function ScheduleComponentsBytes(cs: seq<ScheduleComponent>): (r: bytes)
    ensures |r| == 5 * |cs|
  {
    if cs == [] then []
    else
      var c := cs[|cs| - 1];
      ScheduleComponentsBytes(cs[..|cs| - 1]) + Write8(c.tag) + Write32(c.utcSpliceTime)
  }

  function ProgramSpliceBytes(p: ProgramSplice): bytes {
    match p
    case ProgramSpliceOn(t) => Write32(t)
    case ProgramSpliceOff(cs) => Write8(|cs|) + ScheduleComponentsBytes(cs)
  }

  function ProgramBytes(uniqueProgramId: u16, availNum: byte, availsExpected: byte): bytes {
    Write16(uniqueProgramId) + Write8(availNum) + Write8(availsExpected)
  }

  function ScheduleFlags(d: ScheduleDetails): byte {
    Bit(d.outOfNetwork, 0x80) + Bit(d.splice.ProgramSpliceOn?, 0x40) + Bit(d.breakDuration.Some?, 0x20) + 0x1F
  }

  function ScheduleDetailsBytes(d: ScheduleDetails): bytes {
    Write8(ScheduleFlags(d)) + ProgramSpliceBytes(d.splice) + BreakDurationBytes(d.breakDuration)
      + ProgramBytes(d.uniqueProgramId, d.availNum, d.availsExpected)
  }

  function ScheduleEventBytes(e: ScheduleEvent): bytes {
    Write32(e.id) + (if e.details.Some? then Write8(0x7F) + ScheduleDetailsBytes(e.details.value) else Write8(0xFF))
  }

  function ScheduleEventsBytes(es: seq<ScheduleEvent>): bytes {
    if es == [] then [] else ScheduleEventsBytes(es[..|es| - 1]) + ScheduleEventBytes(es[|es| - 1])
  }

  function InsertComponentsBytes(cs: seq<InsertComponent>): bytes {
    if cs == [] then []
    else
      var c := cs[|cs| - 1];
      InsertComponentsBytes(cs[..|cs| - 1]) + Write8(c.tag) + OptionalTimeBytes(c.spliceTime)
  }

  function OptionalComponentsBytes(cs: Option<seq<InsertComponent>>): bytes {
    if cs.Some? then Write8(|cs.value|) + InsertComponentsBytes(cs.value) else []
  }

  function InsertFlags(d: InsertDetails): byte {
    Bit(d.outOfNetwork, 0x80) + Bit(d.programSplice, 0x40) + Bit(d.breakDuration.Some?, 0x20)
      + Bit(d.spliceImmediate, 0x10) + 0x0F
  }

  function InsertDetailsBytes(d: InsertDetails): bytes {
    Write8(InsertFlags(d)) + OptionalTimeBytes(d.spliceTime) + OptionalComponentsBytes(d.components)
      + BreakDurationBytes(d.breakDuration) + ProgramBytes(d.uniqueProgramId, d.availNum, d.availsExpected)
  }

  function CommandBytes(c: Command): bytes {
    match c
    case SpliceNull => []
    case SpliceSchedule(events) => Write8(|events|) + ScheduleEventsBytes(events)
    case SpliceInsert(id, details) =>
      Write32(id) + (if details.Some? then Write8(0x7F) + InsertDetailsBytes(details.value) else Write8(0xFF))
    case TimeSignal(t) => SpliceTimeBytes(t)
    case BandwidthReservation => []
    case PrivateCommand(identifier, data) => Write32(identifier) + data
  }

  /** splice_descriptor_tag, descriptor_length and identifier. */
  function DescriptorHead(tag: byte, length: nat): bytes {
    Write8(tag) + Write8(length) + Write32(CUEI_IDENTIFIER)
  }

  function DescriptorBytes(d: Descriptor): bytes {
    match d
    case AvailDescriptor(id) => DescriptorHead(AVAIL_TAG, AVAIL_LENGTH) + Write32(id)
    case DtmfDescriptor(preroll, chars) =>
      DescriptorHead(DTMF_TAG, 6 + |chars|) + Write8(preroll) + Write8(0x20 * |chars|) + chars
    case SegmentationDescriptor(data) => DescriptorHead(SEGMENTATION_TAG, 4 + |data|) + data
    case TimeDescriptor(seconds, nanoseconds, offset) =>
      DescriptorHead(TIME_TAG, TIME_LENGTH) + Write48(seconds) + Write32(nanoseconds) + Write16(offset)
  }

  function DescriptorsBytes(ds: seq<Descriptor>): bytes {
    if ds == [] then [] else DescriptorsBytes(ds[..|ds| - 1]) + DescriptorBytes(ds[|ds| - 1])
  }

  /** table_id, the flags and section_length. */
  function LengthBytes(s: Section): bytes {
    Write8(TABLE_ID) + Write12Prefix(0x3, SectionLength(s))
  }

  /** protocol_version to cw_index. */
  function HeaderBytes(s: Section): bytes {
    Write8(PROTOCOL_VERSION)
      + Write33Prefix(Bit(s.encryptedPacket, 0x80) + 2 * (s.encryptionAlgorithm % 0x40), s.ptsAdjustment)
      + Write8(s.cwIndex)
  }

  /** tier to the end of the command. */
  function BodyBytes(s: Section): bytes {
    Write12Pair(s.tier, CommandHint(s.command) % 0x1_0000) + Write8(s.command.Type()) + CommandBytes(s.command)
  }

  function LoopBytes(s: Section): bytes {
    Write16(DescriptorsHint(s.descriptors)) + DescriptorsBytes(s.descriptors)
  }

  function Unchecked(s: Section): bytes {
    LengthBytes(s) + HeaderBytes(s) + BodyBytes(s) + LoopBytes(s)
  }

  /** A whole section: the checksum of all bytes before it comes last. */
  function Emit(s: Section): bytes {
    Unchecked(s) + ChecksumBytes(Compute(Unchecked(s)))
  }

  // ---------- How long it gets ----------

  /** What the size hint forgets about an event. */
  function Forgotten(e: ScheduleEvent): nat {
    match e.details
    case None => 0
    case Some(d) =>
      match d.splice
      case ProgramSpliceOn(_) => 4
      case ProgramSpliceOff(cs) => 1 + 5 * |cs|
  }

  function ForgottenAll(es: seq<ScheduleEvent>): nat {
    if es == [] then 0 else ForgottenAll(es[..|es| - 1]) + Forgotten(es[|es| - 1])
  }

  function ForgottenIn(c: Command): nat {
    if c.SpliceSchedule? then ForgottenAll(c.events) else 0
  }

  lemma EventLength(e: ScheduleEvent)
    ensures |ScheduleEventBytes(e)| == ScheduleEventHint(e) + Forgotten(e)
  {
  }

  lemma {:induction false} EventsLength(es: seq<ScheduleEvent>)
    ensures |ScheduleEventsBytes(es)| == ScheduleEventsHint(es) + ForgottenAll(es)
    decreases |es|
  {
    if es != [] {
      EventsLength(es[..|es| - 1]);
      EventLength(es[|es| - 1]);
    }
  }

  lemma OptionalTimeLength(t: Option<SpliceTime>)
    ensures |OptionalTimeBytes(t)| == OptionalTimeHint(t)
  {
  }

  lemma {:induction false} InsertComponentsLength(cs: seq<InsertComponent>)
    ensures |InsertComponentsBytes(cs)| == InsertComponentsHint(cs)
    decreases |cs|
  {
    if cs != [] {
      InsertComponentsLength(cs[..|cs| - 1]);
      OptionalTimeLength(cs[|cs| - 1].spliceTime);
    }
  }

  lemma InsertDetailsLength(d: InsertDetails)
    ensures |InsertDetailsBytes(d)| == InsertDetailsHint(d)
  {
    OptionalTimeLength(d.spliceTime);
    if d.components.Some? {
      InsertComponentsLength(d.components.value);
    }
  }

  lemma CommandLength(c: Command)
    ensures |CommandBytes(c)| == CommandHint(c) + ForgottenIn(c)
  {
    match c
    case SpliceSchedule(events) => EventsLength(events);
    case SpliceInsert(_, details) =>
      if details.Some? {
        InsertDetailsLength(details.value);
      }
    case _ =>
  }

  lemma {:induction false} DescriptorsLength(ds: seq<Descriptor>)
    ensures |DescriptorsBytes(ds)| == DescriptorsHint(ds)
    decreases |ds|
  {
    if ds != [] {
      DescriptorsLength(ds[..|ds| - 1]);
    }
  }

  /**
   For every section: the bytes emitted are as many as the hint says, and for every event of a
   schedule that is not cancelled 4 more, or 1 + 5n more when it lists n components.
   */
  lemma EmittedLength(s: Section)
    ensures |Emit(s)| == SectionHint(s) + ForgottenIn(s.command)
  {
    CommandLength(s.command);
    DescriptorsLength(s.descriptors);
    hide CommandBytes, DescriptorsBytes, CommandHint, DescriptorsHint, ForgottenIn, Compute, ChecksumBytes;
    assert |Unchecked(s)| == 16 + |CommandBytes(s.command)| + |DescriptorsBytes(s.descriptors)|;
  }

  /** For every section: the checksum over the emitted bytes is zero. */
  lemma EmittedChecksum(s: Section)
    ensures Compute(Emit(s)) == 0
  {
    hide Unchecked, Compute, ChecksumBytes;
    ChecksumAppended(Unchecked(s));
  }
}
