/**
 The emit functions as the program runs them: every byte goes to the output and into the checksum at
 once, and the length fields come from size hints summed up beforehand.
 */
module Scte35Writer {
  import opened Wrappers
  import opened Words
  import opened Wire
  import opened Scte35
  import opened Scte35Emitter
  import Crc32

  /** The output iterator that writes and checksums together. */
  class CrcOutput {
    var out: bytes
    const crc: Crc32.Accumulator
    ghost const before: bytes
    ghost var written: bytes

    ghost predicate Valid()
      reads this, crc
    {
      out == before + written && crc.register == Crc32.UpdatedAll(0xffff_ffff, written)
    }

    constructor (inner: bytes)
      ensures Valid() && fresh(crc) && before == inner && written == []
    {
      out := inner;
      crc := new Crc32.Accumulator();
      before := inner;
      written := [];
    }

    method Put(b: byte)
      requires Valid()
      modifies this, crc
      ensures Valid() && written == old(written) + [b]
    {
      hide Crc32.Updated;
      out := out + [b];
      crc.Update(b);
      assert (written + [b])[..|written|] == written;
      written := written + [b];
    }

    method PutAll(bs: bytes)
      requires Valid()
      modifies this, crc
      ensures Valid() && written == old(written) + bs
    {
      hide Valid;
      var i := 0;
      while i < |bs|
        invariant i <= |bs| && Valid() && written == old(written) + bs[..i]
      {
        Put(bs[i]);
        i := i + 1;
      }
      assert bs[..i] == bs;
    }
  }

  // ---------- Commands ----------

  method EmitSpliceTime(t: SpliceTime, o: CrcOutput)
    requires o.Valid()
    modifies o, o.crc
    ensures o.Valid() && o.written == old(o.written) + SpliceTimeBytes(t)
  {
    if t.ptsTime.Some? {
      o.PutAll(Write33Prefix(0xFF, t.ptsTime.value));
    } else {
      o.PutAll(Write8(0x7F));
    }
  }

  method EmitOptionalTime(t: Option<SpliceTime>, o: CrcOutput)
    requires o.Valid()
    modifies o, o.crc
    ensures o.Valid() && o.written == old(o.written) + OptionalTimeBytes(t)
  {
    if t.Some? {
      EmitSpliceTime(t.value, o);
    }
  }

  method EmitBreakDuration(b: Option<BreakDuration>, o: CrcOutput)
    requires o.Valid()
    modifies o, o.crc
    ensures o.Valid() && o.written == old(o.written) + BreakDurationBytes(b)
  {
    if b.Some? {
      o.PutAll(Write33Prefix(Bit(b.value.autoReturn, 0x80), b.value.duration));
    }
  }

  method EmitProgram(uniqueProgramId: u16, availNum: byte, availsExpected: byte, o: CrcOutput)
    requires o.Valid()
    modifies o, o.crc
    ensures o.Valid() && o.written == old(o.written) + ProgramBytes(uniqueProgramId, availNum, availsExpected)
  {
    hide CrcOutput.Valid, Write8, Write16;
    Right3(o.written, Write16(uniqueProgramId), Write8(availNum), Write8(availsExpected));
    o.PutAll(Write16(uniqueProgramId));
    o.PutAll(Write8(availNum));
    o.PutAll(Write8(availsExpected));
  }

  method EmitProgramSplice(p: ProgramSplice, o: CrcOutput)
    requires o.Valid()
    modifies o, o.crc
    ensures o.Valid() && o.written == old(o.written) + ProgramSpliceBytes(p)
  {
    hide CrcOutput.Valid, Write8, Write32, ScheduleComponentsBytes;
    match p
    case ProgramSpliceOn(t) => o.PutAll(Write32(t));
    case ProgramSpliceOff(cs) =>
      Right2(o.written, Write8(|cs|), ScheduleComponentsBytes(cs));
      o.PutAll(Write8(|cs|));
      EmitScheduleComponents(cs, o);
  }

  method EmitScheduleComponents(cs: seq<ScheduleComponent>, o: CrcOutput)
    requires o.Valid()
    modifies o, o.crc
    ensures o.Valid() && o.written == old(o.written) + ScheduleComponentsBytes(cs)
  {
    hide CrcOutput.Valid, Write8, Write32;
    ghost var start := o.written;
    var i := 0;
    while i < |cs|
      invariant i <= |cs| && o.Valid() && o.written == start + ScheduleComponentsBytes(cs[..i])
    {
      assert cs[..i + 1][..i] == cs[..i];
      Right3(start, ScheduleComponentsBytes(cs[..i]), Write8(cs[i].tag), Write32(cs[i].utcSpliceTime));
      o.PutAll(Write8(cs[i].tag));
      o.PutAll(Write32(cs[i].utcSpliceTime));
      i := i + 1;
    }
    assert cs[..i] == cs;
  }

  method EmitScheduleDetails(d: ScheduleDetails, o: CrcOutput)
    requires o.Valid()
    modifies o, o.crc
    ensures o.Valid() && o.written == old(o.written) + ScheduleDetailsBytes(d)
  {
    hide CrcOutput.Valid, Write8, ProgramSpliceBytes, BreakDurationBytes, ProgramBytes, ScheduleFlags;
    Right4(o.written, Write8(ScheduleFlags(d)), ProgramSpliceBytes(d.splice), BreakDurationBytes(d.breakDuration),
           ProgramBytes(d.uniqueProgramId, d.availNum, d.availsExpected));
    o.PutAll(Write8(ScheduleFlags(d)));
    EmitProgramSplice(d.splice, o);
    EmitBreakDuration(d.breakDuration, o);
    EmitProgram(d.uniqueProgramId, d.availNum, d.availsExpected, o);
  }

  method EmitScheduleEvent(e: ScheduleEvent, o: CrcOutput)
    requires o.Valid()
    modifies o, o.crc
    ensures o.Valid() && o.written == old(o.written) + ScheduleEventBytes(e)
  {
    hide CrcOutput.Valid, Write8, Write32, ScheduleDetailsBytes;
    ghost var start := o.written;
    o.PutAll(Write32(e.id));
    if e.details.Some? {
      Right2(Write32(e.id), Write8(0x7F), ScheduleDetailsBytes(e.details.value));
      Right3(start, Write32(e.id), Write8(0x7F), ScheduleDetailsBytes(e.details.value));
      o.PutAll(Write8(0x7F));
      EmitScheduleDetails(e.details.value, o);
    } else {
      Right2(start, Write32(e.id), Write8(0xFF));
      o.PutAll(Write8(0xFF));
    }
  }

  method EmitScheduleEvents(es: seq<ScheduleEvent>, o: CrcOutput)
    requires o.Valid()
    modifies o, o.crc
    ensures o.Valid() && o.written == old(o.written) + ScheduleEventsBytes(es)
  {
    hide CrcOutput.Valid, ScheduleEventBytes;
    ghost var start := o.written;
    var i := 0;
    while i < |es|
      invariant i <= |es| && o.Valid() && o.written == start + ScheduleEventsBytes(es[..i])
    {
      assert es[..i + 1][..i] == es[..i];
      Right2(start, ScheduleEventsBytes(es[..i]), ScheduleEventBytes(es[i]));
      EmitScheduleEvent(es[i], o);
      i := i + 1;
    }
    assert es[..i] == es;
  }

  method EmitInsertComponents(cs: seq<InsertComponent>, o: CrcOutput)
    requires o.Valid()
    modifies o, o.crc
    ensures o.Valid() && o.written == old(o.written) + OptionalComponentsBytes(Some(cs))
  {
    hide CrcOutput.Valid, Write8, OptionalTimeBytes;
    Right2(o.written, Write8(|cs|), InsertComponentsBytes(cs));
    o.PutAll(Write8(|cs|));
    ghost var start := o.written;
    var i := 0;
    while i < |cs|
      invariant i <= |cs| && o.Valid() && o.written == start + InsertComponentsBytes(cs[..i])
    {
      assert cs[..i + 1][..i] == cs[..i];
      Right3(start, InsertComponentsBytes(cs[..i]), Write8(cs[i].tag), OptionalTimeBytes(cs[i].spliceTime));
      o.PutAll(Write8(cs[i].tag));
      EmitOptionalTime(cs[i].spliceTime, o);
      i := i + 1;
    }
    assert cs[..i] == cs;
  }

  method EmitInsertDetails(d: InsertDetails, o: CrcOutput)
    requires o.Valid()
    modifies o, o.crc
    ensures o.Valid() && o.written == old(o.written) + InsertDetailsBytes(d)
  {
    hide CrcOutput.Valid, Write8, OptionalTimeBytes, InsertComponentsBytes, BreakDurationBytes, ProgramBytes,
      InsertFlags;
    Right5(o.written, Write8(InsertFlags(d)), OptionalTimeBytes(d.spliceTime), OptionalComponentsBytes(d.components),
           BreakDurationBytes(d.breakDuration), ProgramBytes(d.uniqueProgramId, d.availNum, d.availsExpected));
    o.PutAll(Write8(InsertFlags(d)));
    EmitOptionalTime(d.spliceTime, o);
    if d.components.Some? {
      EmitInsertComponents(d.components.value, o);
    }
    EmitBreakDuration(d.breakDuration, o);
    EmitProgram(d.uniqueProgramId, d.availNum, d.availsExpected, o);
  }

  method EmitCommand(c: Command, o: CrcOutput)
    requires o.Valid()
    modifies o, o.crc
    ensures o.Valid() && o.written == old(o.written) + CommandBytes(c)
  {
    hide CrcOutput.Valid, Write8, Write32, ScheduleEventsBytes, InsertDetailsBytes, SpliceTimeBytes;
    ghost var start := o.written;
    match c
    case SpliceNull =>
    case SpliceSchedule(events) =>
      Right2(start, Write8(|events|), ScheduleEventsBytes(events));
      o.PutAll(Write8(|events|));
      EmitScheduleEvents(events, o);
    case SpliceInsert(id, details) =>
      o.PutAll(Write32(id));
      if details.Some? {
        Right2(Write32(id), Write8(0x7F), InsertDetailsBytes(details.value));
        Right3(start, Write32(id), Write8(0x7F), InsertDetailsBytes(details.value));
        o.PutAll(Write8(0x7F));
        EmitInsertDetails(details.value, o);
      } else {
        Right2(start, Write32(id), Write8(0xFF));
        o.PutAll(Write8(0xFF));
      }
    case TimeSignal(t) => EmitSpliceTime(t, o);
    case BandwidthReservation =>
    case PrivateCommand(identifier, data) =>
      Right2(start, Write32(identifier), data);
      o.PutAll(Write32(identifier));
      o.PutAll(data);
  }

  // ---------- Descriptors ----------

  /** What all descriptors start with. */
  method EmitDescriptorHead(tag: byte, length: nat, o: CrcOutput)
    requires o.Valid()
    modifies o, o.crc
    ensures o.Valid() && o.written == old(o.written) + DescriptorHead(tag, length)
  {
    hide CrcOutput.Valid, Write8, Write32;
    Right3(o.written, Write8(tag), Write8(length), Write32(CUEI_IDENTIFIER));
    o.PutAll(Write8(tag));
    o.PutAll(Write8(length));
    o.PutAll(Write32(CUEI_IDENTIFIER));
  }

  method EmitDescriptor(d: Descriptor, o: CrcOutput)
    requires o.Valid()
    modifies o, o.crc
    ensures o.Valid() && o.written == old(o.written) + DescriptorBytes(d)
  {
    hide CrcOutput.Valid, Write8, Write16, Write32, Write48, DescriptorHead, DescriptorHint;
    ghost var start := o.written;
    match d
    case AvailDescriptor(id) =>
      Right2(start, DescriptorHead(AVAIL_TAG, AVAIL_LENGTH), Write32(id));
      EmitDescriptorHead(AVAIL_TAG, AVAIL_LENGTH, o);
      o.PutAll(Write32(id));
    case DtmfDescriptor(preroll, chars) =>
      Right4(start, DescriptorHead(DTMF_TAG, 6 + |chars|), Write8(preroll), Write8(0x20 * |chars|), chars);
      EmitDescriptorHead(DTMF_TAG, 6 + |chars|, o);
      o.PutAll(Write8(preroll));
      o.PutAll(Write8(0x20 * |chars|));
      o.PutAll(chars);
    case SegmentationDescriptor(data) =>
      Right2(start, DescriptorHead(SEGMENTATION_TAG, 4 + |data|), data);
      EmitDescriptorHead(SEGMENTATION_TAG, 4 + |data|, o);
      o.PutAll(data);
    case TimeDescriptor(seconds, nanoseconds, offset) =>
      Right4(start, DescriptorHead(TIME_TAG, TIME_LENGTH), Write48(seconds), Write32(nanoseconds), Write16(offset));
      EmitDescriptorHead(TIME_TAG, TIME_LENGTH, o);
      o.PutAll(Write48(seconds));
      o.PutAll(Write32(nanoseconds));
      o.PutAll(Write16(offset));
  }

  method EmitDescriptors(ds: seq<Descriptor>, o: CrcOutput)
    requires o.Valid()
    modifies o, o.crc
    ensures o.Valid() && o.written == old(o.written) + DescriptorsBytes(ds)
  {
    hide CrcOutput.Valid, DescriptorBytes;
    ghost var start := o.written;
    var i := 0;
    while i < |ds|
      invariant i <= |ds| && o.Valid() && o.written == start + DescriptorsBytes(ds[..i])
    {
      assert ds[..i + 1][..i] == ds[..i];
      Right2(start, DescriptorsBytes(ds[..i]), DescriptorBytes(ds[i]));
      EmitDescriptor(ds[i], o);
      i := i + 1;
    }
    assert ds[..i] == ds;
  }

  // ---------- Size hints that are sums ----------

  method SumScheduleEvents(es: seq<ScheduleEvent>) returns (sum: nat)
    ensures sum == 1 + ScheduleEventsHint(es)
  {
    sum := 1;
    for i := 0 to |es|
      invariant sum == 1 + ScheduleEventsHint(es[..i])
    {
      assert es[..i + 1][..i] == es[..i];
      sum := sum + ScheduleEventHint(es[i]);
    }
    assert es[..|es|] == es;
  }

  method SumInsertComponents(cs: seq<InsertComponent>) returns (sum: nat)
    ensures sum == 1 + InsertComponentsHint(cs)
  {
    sum := 1;
    for i := 0 to |cs|
      invariant sum == 1 + InsertComponentsHint(cs[..i])
    {
      assert cs[..i + 1][..i] == cs[..i];
      sum := sum + 1 + OptionalTimeHint(cs[i].spliceTime);
    }
    assert cs[..|cs|] == cs;
  }

  method CommandSizeHint(c: Command) returns (hint: nat)
    ensures hint == CommandHint(c)
  {
    match c
    case SpliceSchedule(events) => hint := SumScheduleEvents(events);
    case SpliceInsert(_, Some(d)) =>
      hint := 5 + 1 + 4 + OptionalTimeHint(d.spliceTime);
      if d.components.Some? {
        var sum := SumInsertComponents(d.components.value);
        hint := hint + sum;
      }
      hint := hint + BreakDurationHint(d.breakDuration);
    case SpliceInsert(_, None) => hint := 5;
    case TimeSignal(t) => hint := SpliceTimeHint(t);
    case PrivateCommand(_, data) => hint := 4 + |data|;
    case SpliceNull => hint := 0;
    case BandwidthReservation => hint := 0;
  }

  method DescriptorsSizeHint(ds: seq<Descriptor>) returns (sum: nat)
    ensures sum == DescriptorsHint(ds)
  {
    sum := 0;
    for i := 0 to |ds|
      invariant sum == DescriptorsHint(ds[..i])
    {
      assert ds[..i + 1][..i] == ds[..i];
      sum := sum + DescriptorHint(ds[i]);
    }
    assert ds[..|ds|] == ds;
  }

  // ---------- Sections ----------

  method EmitHeader(s: Section, sectionLength: nat, o: CrcOutput)
    requires o.Valid() && sectionLength == SectionLength(s)
    modifies o, o.crc
    ensures o.Valid() && o.written == old(o.written) + (LengthBytes(s) + HeaderBytes(s))
  {
    hide CrcOutput.Valid, Write8, Write12Prefix, Write33Prefix, SectionLength;
    var prefix := Bit(s.encryptedPacket, 0x80) + 2 * (s.encryptionAlgorithm % 0x40);
    ghost var start := o.written;
    Right2(start, Write8(TABLE_ID), Write12Prefix(0x3, sectionLength));
    Right3(start + LengthBytes(s), Write8(PROTOCOL_VERSION), Write33Prefix(prefix, s.ptsAdjustment), Write8(s.cwIndex));
    Right2(start, LengthBytes(s), HeaderBytes(s));
    o.PutAll(Write8(TABLE_ID));
    o.PutAll(Write12Prefix(0x3, sectionLength));
    o.PutAll(Write8(PROTOCOL_VERSION));
    o.PutAll(Write33Prefix(prefix, s.ptsAdjustment));
    o.PutAll(Write8(s.cwIndex));
  }

  method EmitBody(s: Section, commandHint: nat, descriptorsHint: nat, o: CrcOutput)
    requires o.Valid() && commandHint == CommandHint(s.command) && descriptorsHint == DescriptorsHint(s.descriptors)
    modifies o, o.crc
    ensures o.Valid() && o.written == old(o.written) + (BodyBytes(s) + LoopBytes(s))
  {
    hide CrcOutput.Valid, Write8, Write12Pair, Write16, CommandBytes, DescriptorsBytes, CommandHint, DescriptorsHint;
    ghost var start := o.written;
    Right3(start, Write12Pair(s.tier, commandHint % 0x1_0000), Write8(s.command.Type()), CommandBytes(s.command));
    Right2(start + BodyBytes(s), Write16(descriptorsHint), DescriptorsBytes(s.descriptors));
    Right2(start, BodyBytes(s), LoopBytes(s));
    o.PutAll(Write12Pair(s.tier, commandHint % 0x1_0000));
    o.PutAll(Write8(s.command.Type()));
    EmitCommand(s.command, o);
    o.PutAll(Write16(descriptorsHint));
    EmitDescriptors(s.descriptors, o);
  }

  /** emit() of a section: the output grows by the section, its checksum taken from the accumulator. */
  method EmitSection(s: Section, realOut: bytes) returns (out: bytes)
    ensures out == realOut + Emit(s)
  {
    hide LengthBytes, HeaderBytes, BodyBytes, LoopBytes, CommandHint, DescriptorsHint,
      Crc32.ChecksumBytes, Crc32.UpdatedAll, Crc32.Value;
    var o := new CrcOutput(realOut);
    var commandHint := CommandSizeHint(s.command);
    var descriptorsHint := DescriptorsSizeHint(s.descriptors);
    EmitHeader(s, 17 + commandHint + descriptorsHint, o);
    EmitBody(s, commandHint, descriptorsHint, o);
    assert o.written == Unchecked(s);
    o.PutAll(Crc32.ChecksumBytes(Crc32.Value(o.crc.register)));
    out := o.out;
  }
}
