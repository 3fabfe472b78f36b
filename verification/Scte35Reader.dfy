/**
 The parse functions as the program runs them: a cursor moves over the buffer with every read, loops
 collect into vectors, and the descriptor loop reads against an end of its own.
 */
module Scte35Reader {
  import opened Wrappers
  import opened Words
  import opened Wire
  import opened BinaryParsing
  import opened Scte35
  import opened Scte35Parser
  import Crc32

  /** The buffer and the pointer into it that all parse functions share. */
  class Cursor {
    const data: bytes
    var ptr: nat

    ghost predicate Within(end: nat)
      reads this
    {
      ptr <= end <= |data|
    }

    /** The bytes up to an end that are still to be read. */
    ghost function Rest(end: nat): (r: bytes)
      requires Within(end)
      reads this
      ensures |r| == end - ptr
    {
      data[ptr..end]
    }

    constructor (data: bytes)
      ensures this.data == data && ptr == 0
    {
      this.data := data;
      ptr := 0;
    }

    method Advance(n: nat, end: nat)
      requires Within(end) && n <= end - ptr
      modifies this
      ensures Within(end) && ptr == old(ptr) + n && Rest(end) == old(Rest(end))[n..]
    {
      ghost var before := Rest(end);
      ptr := ptr + n;
      assert Rest(end) == before[n..];
    }

    method Scan8(end: nat) returns (r: Result<byte>)
      requires Within(end)
      ensures r == Wire.Scan8(Rest(end))
    {
      if end - ptr < 1 {
        return Failure(TooFewBytes);
      }
      return Success(data[ptr]);
    }

    method Read8(end: nat) returns (r: Result<byte>)
      requires Within(end)
      modifies this
      ensures Within(end) && Did(r, Wire.Read8(old(Rest(end))), Rest(end))
    {
      var b :- Scan8(end);
      Advance(1, end);
      return Success(b);
    }

    method Scan12High(end: nat) returns (r: Result<u16>)
      requires Within(end)
      ensures r == Wire.Scan12High(Rest(end))
    {
      if end - ptr < 2 {
        return Failure(TooFewBytes);
      }
      return Success(0x10 * (data[ptr] as int) + data[ptr + 1] / 0x10);
    }

    method Read12Low(end: nat) returns (r: Result<u16>)
      requires Within(end)
      modifies this
      ensures Within(end) && Did(r, Wire.Read12Low(old(Rest(end))), Rest(end))
    {
      if end - ptr < 2 {
        return Failure(TooFewBytes);
      }
      r := Success(Number12(data[ptr], data[ptr + 1]));
      Advance(2, end);
    }

    method Read16(end: nat) returns (r: Result<u16>)
      requires Within(end)
      modifies this
      ensures Within(end) && Did(r, Wire.Read16(old(Rest(end))), Rest(end))
    {
      if end - ptr < 2 {
        return Failure(TooFewBytes);
      }
      r := Success(Number16(data[ptr], data[ptr + 1]));
      Advance(2, end);
    }

    method Read32(end: nat) returns (r: Result<u32>)
      requires Within(end)
      modifies this
      ensures Within(end) && Did(r, Wire.Read32(old(Rest(end))), Rest(end))
    {
      hide Number32;
      if end - ptr < 4 {
        return Failure(TooFewBytes);
      }
      r := Success(Number32(data[ptr], data[ptr + 1], data[ptr + 2], data[ptr + 3]));
      Advance(4, end);
    }

    method Read33(end: nat) returns (r: Result<u64>)
      requires Within(end)
      modifies this
      ensures Within(end) && Did(r, Wire.Read33(old(Rest(end))), Rest(end))
    {
      hide Number32;
      if end - ptr < 5 {
        return Failure(TooFewBytes);
      }
      var low := Number32(data[ptr + 1], data[ptr + 2], data[ptr + 3], data[ptr + 4]);
      r := Success(0x1_0000_0000 * (data[ptr] as int % 2) + low);
      Advance(5, end);
    }
  }

  /** A call gave the value that was to be read, and left the bytes that were to be left. */
  ghost predicate Did<T>(r: Result<T>, spec: Parsed<T>, left: bytes) {
    match spec
    case Success((v, rest)) => r == Success(v) && left == rest
    case Failure(e) => r == Failure(e)
  }

  lemma PartOf(d: bytes, ptr: nat, end: nat, from: nat, to: nat)
    requires from <= to && ptr + to <= end <= |d|
    ensures d[ptr + from..ptr + to] == d[ptr..end][from..to]
  {
    var a, b := d[ptr + from..ptr + to], d[ptr..end][from..to];
    forall k | 0 <= k < to - from
      ensures a[k] == b[k]
    {
      assert b[k] == d[ptr..end][from + k] == d[ptr + (from + k)];
    }
    assert |a| == |b|;
    assert a == b;
  }

  /** The elements that a loop has collected, in front of those it still has to read. */
  ghost function After<T>(front: seq<T>, r: Parsed<seq<T>>): Parsed<seq<T>> {
    match r
    case Failure(e) => Failure(e)
    case Success((vs, rest)) => Success((front + vs, rest))
  }

  lemma AfterOne<T>(front: seq<T>, x: T, r: Parsed<seq<T>>)
    ensures After(front, After([x], r)) == After(front + [x], r)
  {
    if r.Success? {
      assert front + ([x] + r.value.0) == front + [x] + r.value.0;
    }
  }

  lemma AfterNone<T>(front: seq<T>, r: Parsed<seq<T>>, d: bytes)
    ensures After([], r) == r
    ensures After(front, Success(([], d))) == Success((front, d))
  {
    if r.Success? {
      assert [] + r.value.0 == r.value.0;
    }
    assert front + [] == front;
  }

  // ---------- Commands ----------

  method ReadSpliceTime(c: Cursor, end: nat) returns (r: Result<SpliceTime>)
    requires c.Within(end)
    modifies c
    ensures c.Within(end) && Did(r, ParseSpliceTime(old(c.Rest(end))), c.Rest(end))
  {
    hide Wire.Scan8, Wire.Read8, Wire.Read33;
    var flags :- c.Scan8(end);
    if Flag(flags, 0x80) {
      var t :- c.Read33(end);
      return Success(SpliceTime(Some(t)));
    } else {
      var _ :- c.Read8(end);
      return Success(SpliceTime(None));
    }
  }

  method ReadBreakDuration(c: Cursor, end: nat) returns (r: Result<BreakDuration>)
    requires c.Within(end)
    modifies c
    ensures c.Within(end) && Did(r, ParseBreakDuration(old(c.Rest(end))), c.Rest(end))
  {
    hide Wire.Read33;
    var flags :- c.Scan8(end);
    var duration :- c.Read33(end);
    return Success(BreakDuration(Flag(flags, 0x80), duration));
  }

  method ReadOptionalBreak(c: Cursor, end: nat, present: bool) returns (r: Result<Option<BreakDuration>>)
    requires c.Within(end)
    modifies c
    ensures c.Within(end) && Did(r, ParseOptionalBreak(old(c.Rest(end)), present), c.Rest(end))
  {
    hide ParseBreakDuration;
    if !present {
      return Success(None);
    }
    var b :- ReadBreakDuration(c, end);
    return Success(Some(b));
  }

  method ReadProgram(c: Cursor, end: nat) returns (r: Result<(u16, byte, byte)>)
    requires c.Within(end)
    modifies c
    ensures c.Within(end) && Did(r, ParseProgram(old(c.Rest(end))), c.Rest(end))
  {
    hide Wire.Read8, Wire.Read16;
    var uniqueProgramId :- c.Read16(end);
    var availNum :- c.Read8(end);
    var availsExpected :- c.Read8(end);
    return Success((uniqueProgramId, availNum, availsExpected));
  }

  method ReadScheduleComponents(c: Cursor, end: nat, n: nat) returns (r: Result<seq<ScheduleComponent>>)
    requires c.Within(end)
    modifies c
    ensures c.Within(end) && Did(r, ParseScheduleComponents(old(c.Rest(end)), n), c.Rest(end))
  {
    hide Wire.Read8, Wire.Read32;
    var components := [];
    ghost var spec := ParseScheduleComponents(c.Rest(end), n);
    AfterNone([], spec, []);
    for i := 0 to n
      invariant c.Within(end)
      invariant spec == After(components, ParseScheduleComponents(c.Rest(end), n - i))
    {
      var tag :- c.Read8(end);
      var t :- c.Read32(end);
      AfterOne(components, ScheduleComponent(tag, t), ParseScheduleComponents(c.Rest(end), n - i - 1));
      components := components + [ScheduleComponent(tag, t)];
    }
    AfterNone(components, spec, c.Rest(end));
    return Success(components);
  }

  method ReadProgramSplice(c: Cursor, end: nat, programSplice: bool) returns (r: Result<ProgramSplice>)
    requires c.Within(end)
    modifies c
    ensures c.Within(end) && Did(r, ParseProgramSplice(old(c.Rest(end)), programSplice), c.Rest(end))
  {
    hide Wire.Read8, Wire.Read32, ParseScheduleComponents;
    if programSplice {
      var t :- c.Read32(end);
      return Success(ProgramSpliceOn(t));
    } else {
      var n :- c.Read8(end);
      if n < 1 {
        return Failure(ConditionFailed);
      }
      var components :- ReadScheduleComponents(c, end, n);
      return Success(ProgramSpliceOff(components));
    }
  }

  method ReadScheduleDetails(c: Cursor, end: nat) returns (r: Result<ScheduleDetails>)
    requires c.Within(end)
    modifies c
    ensures c.Within(end) && Did(r, ParseScheduleDetails(old(c.Rest(end))), c.Rest(end))
  {
    hide Wire.Read8, ParseProgramSplice, ParseOptionalBreak, ParseProgram, Flag;
    var flags :- c.Read8(end);
    var splice :- ReadProgramSplice(c, end, Flag(flags, 0x40));
    var breakDuration :- ReadOptionalBreak(c, end, Flag(flags, 0x20));
    var p :- ReadProgram(c, end);
    return Success(ScheduleDetails(Flag(flags, 0x80), splice, breakDuration, p.0, p.1, p.2));
  }

  method ReadScheduleEvent(c: Cursor, end: nat) returns (r: Result<ScheduleEvent>)
    requires c.Within(end)
    modifies c
    ensures c.Within(end) && Did(r, ParseScheduleEvent(old(c.Rest(end))), c.Rest(end))
  {
    hide Wire.Read8, Wire.Read32, ParseScheduleDetails, Flag;
    var id :- c.Read32(end);
    var flags :- c.Read8(end);
    if Flag(flags, 0x80) {
      return Success(ScheduleEvent(id, None));
    }
    var details :- ReadScheduleDetails(c, end);
    return Success(ScheduleEvent(id, Some(details)));
  }

  method ReadSchedule(c: Cursor, end: nat) returns (r: Result<Command>)
    requires c.Within(end)
    modifies c
    ensures c.Within(end) && Did(r, ParseSchedule(old(c.Rest(end))), c.Rest(end))
  {
    hide Wire.Read8, ParseScheduleEvent;
    var events := [];
    var n :- c.Read8(end);
    ghost var spec := ParseScheduleEvents(c.Rest(end), n);
    AfterNone([], spec, []);
    for i := 0 to n
      invariant c.Within(end)
      invariant spec == After(events, ParseScheduleEvents(c.Rest(end), n - i))
    {
      var event :- ReadScheduleEvent(c, end);
      AfterOne(events, event, ParseScheduleEvents(c.Rest(end), n - i - 1));
      events := events + [event];
    }
    AfterNone(events, spec, c.Rest(end));
    return Success(SpliceSchedule(events));
  }

  method ReadOptionalTime(c: Cursor, end: nat, present: bool) returns (r: Result<Option<SpliceTime>>)
    requires c.Within(end)
    modifies c
    ensures c.Within(end) && Did(r, ParseOptionalTime(old(c.Rest(end)), present), c.Rest(end))
  {
    hide ParseSpliceTime;
    if !present {
      return Success(None);
    }
    var t :- ReadSpliceTime(c, end);
    return Success(Some(t));
  }

  method ReadInsertComponents(c: Cursor, end: nat, n: nat, immediate: bool) returns (r: Result<seq<InsertComponent>>)
    requires c.Within(end)
    modifies c
    ensures c.Within(end) && Did(r, ParseInsertComponents(old(c.Rest(end)), n, immediate), c.Rest(end))
  {
    hide Wire.Read8, ParseOptionalTime;
    var components := [];
    ghost var spec := ParseInsertComponents(c.Rest(end), n, immediate);
    AfterNone([], spec, []);
    for i := 0 to n
      invariant c.Within(end)
      invariant spec == After(components, ParseInsertComponents(c.Rest(end), n - i, immediate))
    {
      var tag :- c.Read8(end);
      var t :- ReadOptionalTime(c, end, !immediate);
      AfterOne(components, InsertComponent(tag, t), ParseInsertComponents(c.Rest(end), n - i - 1, immediate));
      components := components + [InsertComponent(tag, t)];
    }
    AfterNone(components, spec, c.Rest(end));
    return Success(components);
  }

  method ReadOptionalComponents(c: Cursor, end: nat, present: bool, immediate: bool)
    returns (r: Result<Option<seq<InsertComponent>>>)
    requires c.Within(end)
    modifies c
    ensures c.Within(end) && Did(r, ParseOptionalComponents(old(c.Rest(end)), present, immediate), c.Rest(end))
  {
    hide Wire.Read8, ParseInsertComponents;
    if !present {
      return Success(None);
    }
    var n :- c.Read8(end);
    if n < 1 {
      return Failure(ConditionFailed);
    }
    var components :- ReadInsertComponents(c, end, n, immediate);
    return Success(Some(components));
  }

  method ReadInsertDetails(c: Cursor, end: nat) returns (r: Result<InsertDetails>)
    requires c.Within(end)
    modifies c
    ensures c.Within(end) && Did(r, ParseInsertDetails(old(c.Rest(end))), c.Rest(end))
  {
    hide Wire.Read8, ParseOptionalTime, ParseOptionalComponents, ParseOptionalBreak, ParseProgram, Flag;
    var flags :- c.Read8(end);
    var program, immediate := Flag(flags, 0x40), Flag(flags, 0x10);
    var spliceTime :- ReadOptionalTime(c, end, program && !immediate);
    var components :- ReadOptionalComponents(c, end, !program, immediate);
    var breakDuration :- ReadOptionalBreak(c, end, Flag(flags, 0x20));
    var p :- ReadProgram(c, end);
    return Success(InsertDetails(Flag(flags, 0x80), program, immediate, spliceTime, components, breakDuration,
                                 p.0, p.1, p.2));
  }

  method ReadInsert(c: Cursor, end: nat) returns (r: Result<Command>)
    requires c.Within(end)
    modifies c
    ensures c.Within(end) && Did(r, ParseInsert(old(c.Rest(end))), c.Rest(end))
  {
    hide Wire.Read8, Wire.Read32, ParseInsertDetails, Flag;
    var id :- c.Read32(end);
    var flags :- c.Read8(end);
    if Flag(flags, 0x80) {
      return Success(SpliceInsert(id, None));
    }
    var details :- ReadInsertDetails(c, end);
    return Success(SpliceInsert(id, Some(details)));
  }

  method ReadPrivateCommand(c: Cursor, end: nat, length: u16) returns (r: Result<Command>)
    requires c.Within(end)
    modifies c
    ensures c.Within(end) && Did(r, ParsePrivateCommand(old(c.Rest(end)), length), c.Rest(end))
  {
    hide Wire.Read32;
    if length <= 4 || length >= 0xFFF {
      return Failure(ConditionFailed);
    }
    var identifier :- c.Read32(end);
    if length > end - c.ptr {
      return Failure(Undefined);
    }
    var data := c.data[c.ptr + 4..c.ptr + length];
    PartOf(c.data, c.ptr, end, 4, length);
    c.Advance(length, end);
    return Success(PrivateCommand(identifier, data));
  }

  method ReadCommand(c: Cursor, end: nat, commandType: byte, length: u16) returns (r: Result<Command>)
    requires c.Within(end)
    modifies c
    ensures c.Within(end) && Did(r, ParseCommand(old(c.Rest(end)), commandType, length), c.Rest(end))
  {
    hide ParseSchedule, ParseInsert, ParseSpliceTime, ParsePrivateCommand;
    match commandType
    case 0x00 => r := Success(SpliceNull);
    case 0x04 => r := ReadSchedule(c, end);
    case 0x05 => r := ReadInsert(c, end);
    case 0x06 =>
      var t :- ReadSpliceTime(c, end);
      r := Success(TimeSignal(t));
    case 0x07 => r := Success(BandwidthReservation);
    case 0xFF => r := ReadPrivateCommand(c, end, length);
    case _ => r := Failure(UnsupportedCommand);
  }

  // ---------- Descriptors ----------

  method ReadAvailDescriptor(c: Cursor, end: nat, length: byte, identifier: u32) returns (r: Result<Descriptor>)
    requires c.Within(end)
    modifies c
    ensures c.Within(end) && Did(r, ParseAvailDescriptor(old(c.Rest(end)), length, identifier), c.Rest(end))
  {
    hide Wire.Read32;
    if length != AVAIL_LENGTH || identifier != CUEI_IDENTIFIER {
      return Failure(ConditionFailed);
    }
    var id :- c.Read32(end);
    return Success(AvailDescriptor(id));
  }

  method ReadDtmfDescriptor(c: Cursor, end: nat, length: byte, identifier: u32) returns (r: Result<Descriptor>)
    requires c.Within(end)
    modifies c
    ensures c.Within(end) && Did(r, ParseDtmfDescriptor(old(c.Rest(end)), length, identifier), c.Rest(end))
  {
    hide Wire.Read8;
    if identifier != CUEI_IDENTIFIER {
      return Failure(ConditionFailed);
    }
    var preroll :- c.Read8(end);
    var b :- c.Read8(end);
    var count := b / 0x20;
    if length != 4 + 1 + count {
      return Failure(ConditionFailed);
    }
    if count > end - c.ptr {
      return Failure(ConditionFailed);
    }
    var chars := c.data[c.ptr..c.ptr + count];
    PartOf(c.data, c.ptr, end, 0, count);
    c.Advance(count, end);
    return Success(DtmfDescriptor(preroll, chars));
  }

  method ReadSegmentationDescriptor(c: Cursor, realEnd: nat, length: byte, identifier: u32)
    returns (r: Result<Descriptor>)
    requires c.Within(realEnd)
    modifies c
    ensures c.Within(realEnd)
    ensures Did(r, ParseSegmentationDescriptor(old(c.Rest(realEnd)), length, identifier), c.Rest(realEnd))
  {
    if identifier != CUEI_IDENTIFIER {
      return Failure(ConditionFailed);
    }
    ghost var d := c.Rest(realEnd);
    var end := c.ptr + length - 4;
    if end < c.ptr {
      return Failure(Undefined);
    }
    if end > realEnd {
      return Failure(ConditionFailed);
    }
    var data := c.data[c.ptr..end];
    PartOf(c.data, c.ptr, realEnd, 0, length - 4);
    c.Advance(length - 4, realEnd);
    return Success(SegmentationDescriptor(data));
  }

  method ReadDescriptor(c: Cursor, end: nat) returns (r: Result<Descriptor>)
    requires c.Within(end)
    modifies c
    ensures c.Within(end) && Did(r, ParseDescriptor(old(c.Rest(end))), c.Rest(end))
  {
    hide Wire.Read8, Wire.Read32, ParseAvailDescriptor, ParseDtmfDescriptor, ParseSegmentationDescriptor;
    var tag :- c.Read8(end);
    var length :- c.Read8(end);
    if length > end - c.ptr {
      return Failure(ConditionFailed);
    }
    var identifier :- c.Read32(end);
    match tag
    case 0x00 => r := ReadAvailDescriptor(c, end, length, identifier);
    case 0x01 => r := ReadDtmfDescriptor(c, end, length, identifier);
    case 0x02 => r := ReadSegmentationDescriptor(c, end, length, identifier);
    case 0x03 => r := Failure(NotModelled);
    case _ => r := Failure(UnknownDescriptor);
  }

  /** The loop that reads descriptors up to their own end. */
  method ReadDescriptors(c: Cursor, end: nat) returns (r: Result<seq<Descriptor>>)
    requires c.Within(end)
    modifies c
    ensures c.Within(end) && r == ParseDescriptors(old(c.Rest(end)))
    ensures r.Success? ==> c.ptr == end
  {
    hide ParseDescriptor;
    var descriptors := [];
    ghost var spec := ParseDescriptors(c.Rest(end));
    PrependTwice<Descriptor>([], [], spec);
    while c.ptr < end
      invariant c.Within(end)
      invariant spec == Prepend(descriptors, ParseDescriptors(c.Rest(end)))
      decreases end - c.ptr
    {
      var descriptor :- ReadDescriptor(c, end);
      PrependTwice(descriptors, [descriptor], ParseDescriptors(c.Rest(end)));
      descriptors := descriptors + [descriptor];
    }
    assert descriptors + [] == descriptors;
    return Success(descriptors);
  }

  // ---------- Sections ----------

  /** read_splice_info_section_until_length; the second result tells whether a pointer byte was skipped. */
  method ReadUntilLength(c: Cursor, end: nat) returns (r: Result<nat>, choppedPrefix: bool)
    requires c.Within(end)
    modifies c
    ensures c.Within(end) && Did(r, ParseUntilLength(old(c.Rest(end))), c.Rest(end))
    ensures r.Success? ==> choppedPrefix == (old(c.Rest(end)) != [] && old(c.Rest(end))[0] == 0)
  {
    choppedPrefix := false;
    if end - c.ptr < MIN_SECTION_SIZE {
      return Failure(ConditionFailed), false;
    }
    ghost var d := c.Rest(end);
    var start := c.ptr;
    if c.data[c.ptr] == 0x00 {
      c.Advance(1, end);
      choppedPrefix := true;
    }
    ghost var d1 := c.Rest(end);
    assert d1 == Chopped(d);
    hide Chopped, Flag, Number12;
    assert c.data[c.ptr] == d1[0] && c.data[c.ptr + 1] == d1[1] && c.data[c.ptr + 2] == d1[2];
    var tableId := c.data[c.ptr];
    if tableId != TABLE_ID {
      return Failure(ConditionFailed), choppedPrefix;
    }
    c.Advance(1, end);
    var flags := c.data[c.ptr];
    if Flag(flags, 0x80) || Flag(flags, 0x40) {
      return Failure(ConditionFailed), choppedPrefix;
    }
    var length := Number12(c.data[c.ptr], c.data[c.ptr + 1]);
    c.Advance(2, end);
    assert c.Rest(end) == d1[3..];
    var headerLength := c.ptr - start;
    if length < MIN_SECTION_SIZE - headerLength || length > MAX_SECTION_LENGTH || length > end - c.ptr {
      return Failure(ConditionFailed), choppedPrefix;
    }
    return Success(length), choppedPrefix;
  }

  lemma ChoppedIs(d: bytes)
    ensures Chopped(d) == if d != [] && d[0] == 0 then d[1..] else d
  {
  }

  /** scte35_parser_next. */
  method Next(d: bytes) returns (r: Result<Option<Bounds<()>>>)
    ensures r == NextSection(d)
  {
    hide ParseUntilLength, Chopped;
    if |d| < MIN_SECTION_SIZE {
      return Success(None);
    }
    var c := new Cursor(d);
    assert c.Rest(|d|) == d;
    var found, choppedPrefix := ReadUntilLength(c, |d|);
    if found.Failure? {
      return Failure(found.error);
    }
    ChoppedIs(d);
    var start := if choppedPrefix then 1 else 0;
    var headerLength := c.ptr - start;
    return Success(Some(Bounds(start, headerLength + found.value, ())));
  }

  method ReadHeader(c: Cursor, end: nat) returns (r: Result<Header>)
    requires c.Within(end)
    modifies c
    ensures c.Within(end) && Did(r, ParseHeader(old(c.Rest(end))), c.Rest(end))
  {
    hide Wire.Read8, Wire.Read33;
    var version :- c.Read8(end);
    if version != PROTOCOL_VERSION {
      return Failure(ConditionFailed);
    }
    var flags :- c.Scan8(end);
    if Flag(flags, 0x80) {
      return Failure(Encrypted);
    }
    var ptsAdjustment :- c.Read33(end);
    var cwIndex :- c.Read8(end);
    return Success(Header(flags / 2 % 0x40, ptsAdjustment, cwIndex));
  }

  method ReadBody(c: Cursor, end: nat) returns (r: Result<(u16, Command)>)
    requires c.Within(end)
    modifies c
    ensures c.Within(end) && Did(r, ParseBody(old(c.Rest(end))), c.Rest(end))
  {
    hide Wire.Scan12High, Wire.Read8, Wire.Read12Low, ParseCommand;
    var tier :- c.Scan12High(end);
    var _ :- c.Read8(end);
    var length :- c.Read12Low(end);
    var commandType :- c.Read8(end);
    var commandStart := c.ptr;
    if length != 0xFFF && length >= end - c.ptr {
      return Failure(ConditionFailed);
    }
    var command :- ReadCommand(c, end, commandType, length);
    if length != 0xFFF && (c.ptr - commandStart) % 0x1_0000 != length {
      return Failure(CommandLengthDiffers);
    }
    return Success((tier, command));
  }

  method ReadLoop(c: Cursor, end: nat) returns (r: Result<seq<Descriptor>>)
    requires c.Within(end)
    modifies c
    ensures c.Within(end) && Did(r, ParseLoop(old(c.Rest(end))), c.Rest(end))
  {
    hide Wire.Read16, ParseDescriptors;
    var length :- c.Read16(end);
    if length == 0 {
      return Success([]);
    }
    if length >= end - c.ptr {
      return Failure(ConditionFailed);
    }
    var loopEnd := c.ptr + length;
    ghost var d := c.Rest(end);
    assert c.Rest(loopEnd) == d[..length];
    var descriptors :- ReadDescriptors(c, loopEnd);
    assert c.Rest(end) == d[length..];
    return Success(descriptors);
  }

  /** scte35_parser_pack. */
  method Pack(d: bytes) returns (r: Result<Section>)
    ensures r == ParseSection(d, ())
  {
    hide ParseUntilLength, ParseHeader, ParseBody, ParseLoop, Wire.Read32, Crc32.Compute, Chopped;
    var c := new Cursor(d);
    var end := |d|;
    assert c.Rest(end) == d;
    var until, choppedPrefix := ReadUntilLength(c, end);
    if until.Failure? {
      return Failure(until.error);
    }
    var header :- ReadHeader(c, end);
    var body :- ReadBody(c, end);
    var descriptors :- ReadLoop(c, end);
    var _ :- c.Read32(end);
    var covered := if choppedPrefix then d[1..] else d;
    ChoppedIs(d);
    var checksum := Crc32.ComputeOver(covered);
    if checksum != 0 {
      return Failure(ChecksumMismatch);
    }
    return Success(Section(false, header.encryptionAlgorithm, header.ptsAdjustment, header.cwIndex,
                           body.0, body.1, descriptors));
  }
}
