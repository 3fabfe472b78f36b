/**
 Reading splice information sections: for every piece, the value that is read and the bytes that are
 left. Checks come in the order in which the program makes them.
 */
module Scte35Parser {
  import opened Wrappers
  import opened Words
  import opened Wire
  import opened BinaryParsing
  import opened Scte35
  import Crc32

  type Parsed<+T> = Result<(T, bytes)>

  // ---------- Commands ----------

  function ParseSpliceTime(d: bytes): Parsed<SpliceTime> {
    var flags :- Scan8(d);
    if Flag(flags, 0x80) then
      var (t, rest) :- Read33(d);
      Success((SpliceTime(Some(t)), rest))
    else
      var (_, rest) :- Read8(d);
      Success((SpliceTime(None), rest))
  }

  function ParseOptionalTime(d: bytes, present: bool): Parsed<Option<SpliceTime>> {
    if present then
      var (t, rest) :- ParseSpliceTime(d);
      Success((Some(t), rest))
    else Success((None, d))
  }

  function ParseBreakDuration(d: bytes): Parsed<BreakDuration> {
    var flags :- Scan8(d);
    var (duration, rest) :- Read33(d);
    Success((BreakDuration(Flag(flags, 0x80), duration), rest))
  }

  function ParseOptionalBreak(d: bytes, present: bool): Parsed<Option<BreakDuration>> {
    if present then
      var (b, rest) :- ParseBreakDuration(d);
      Success((Some(b), rest))
    else Success((None, d))
  }

  function ParseProgram(d: bytes): Parsed<(u16, byte, byte)> {
    var (uniqueProgramId, d1) :- Read16(d);
    var (availNum, d2) :- Read8(d1);
    var (availsExpected, d3) :- Read8(d2);
    Success(((uniqueProgramId, availNum, availsExpected), d3))
  }

  /** The components that the loop adds to those it has read. */
  function ParseScheduleComponents(d: bytes, n: nat): Parsed<seq<ScheduleComponent>>
    decreases n
  {
    if n == 0 then Success(([], d))
    else
      var (tag, d1) :- Read8(d);
      var (t, d2) :- Read32(d1);
      var (cs, rest) :- ParseScheduleComponents(d2, n - 1);
      Success(([ScheduleComponent(tag, t)] + cs, rest))
  }

  function ParseProgramSplice(d: bytes, programSplice: bool): Parsed<ProgramSplice> {
    if programSplice then
      var (t, rest) :- Read32(d);
      Success((ProgramSpliceOn(t), rest))
    else
      var (n, d1) :- Read8(d);
      if n < 1 then Failure(ConditionFailed)
      else
        var (cs, rest) :- ParseScheduleComponents(d1, n);
        Success((ProgramSpliceOff(cs), rest))
  }

  function ParseScheduleDetails(d: bytes): Parsed<ScheduleDetails> {
    var (flags, d1) :- Read8(d);
    var (splice, d2) :- ParseProgramSplice(d1, Flag(flags, 0x40));
    var (breakDuration, d3) :- ParseOptionalBreak(d2, Flag(flags, 0x20));
    var (p, rest) :- ParseProgram(d3);
    Success((ScheduleDetails(Flag(flags, 0x80), splice, breakDuration, p.0, p.1, p.2), rest))
  }

  function ParseScheduleEvent(d: bytes): Parsed<ScheduleEvent> {
    var (id, d1) :- Read32(d);
    var (flags, d2) :- Read8(d1);
    if Flag(flags, 0x80) then Success((ScheduleEvent(id, None), d2))
    else
      var (details, rest) :- ParseScheduleDetails(d2);
      Success((ScheduleEvent(id, Some(details)), rest))
  }

  function ParseScheduleEvents(d: bytes, n: nat): Parsed<seq<ScheduleEvent>>
    decreases n
  {
    if n == 0 then Success(([], d))
    else
      var (e, d1) :- ParseScheduleEvent(d);
      var (es, rest) :- ParseScheduleEvents(d1, n - 1);
      Success(([e] + es, rest))
  }

  function ParseSchedule(d: bytes): Parsed<Command> {
    var (n, d1) :- Read8(d);
    var (events, rest) :- ParseScheduleEvents(d1, n);
    Success((SpliceSchedule(events), rest))
  }

  function ParseInsertComponents(d: bytes, n: nat, immediate: bool): Parsed<seq<InsertComponent>>
    decreases n
  {
    if n == 0 then Success(([], d))
    else
      var (tag, d1) :- Read8(d);
      var (t, d2) :- ParseOptionalTime(d1, !immediate);
      var (cs, rest) :- ParseInsertComponents(d2, n - 1, immediate);
      Success(([InsertComponent(tag, t)] + cs, rest))
  }

  function ParseOptionalComponents(d: bytes, present: bool, immediate: bool): Parsed<Option<seq<InsertComponent>>> {
    if !present then Success((None, d))
    else
      var (n, d1) :- Read8(d);
      if n < 1 then Failure(ConditionFailed)
      else
        var (cs, rest) :- ParseInsertComponents(d1, n, immediate);
        Success((Some(cs), rest))
  }

  function ParseInsertDetails(d: bytes): Parsed<InsertDetails> {
    var (flags, d1) :- Read8(d);
    var program, immediate := Flag(flags, 0x40), Flag(flags, 0x10);
    var (spliceTime, d2) :- ParseOptionalTime(d1, program && !immediate);
    var (components, d3) :- ParseOptionalComponents(d2, !program, immediate);
    var (breakDuration, d4) :- ParseOptionalBreak(d3, Flag(flags, 0x20));
    var (p, rest) :- ParseProgram(d4);
    Success((InsertDetails(Flag(flags, 0x80), program, immediate, spliceTime, components, breakDuration,
                           p.0, p.1, p.2), rest))
  }

  function ParseInsert(d: bytes): Parsed<Command> {
    var (id, d1) :- Read32(d);
    var (flags, d2) :- Read8(d1);
    if Flag(flags, 0x80) then Success((SpliceInsert(id, None), d2))
    else
      var (details, rest) :- ParseInsertDetails(d2);
      Success((SpliceInsert(id, Some(details)), rest))
  }

  function ParseTimeSignal(d: bytes): Parsed<Command> {
    var (t, rest) :- ParseSpliceTime(d);
    Success((TimeSignal(t), rest))
  }

  /**
   The private command takes its length once more after the identifier, so it takes four bytes more
   than were announced and the caller rejects it; it may also copy bytes from behind the section.
   */
  function ParsePrivateCommand(d: bytes, length: u16): Parsed<Command> {
    if length <= 4 || length >= 0xFFF then Failure(ConditionFailed)
    else
      var (identifier, d1) :- Read32(d);
      if length > |d1| then Failure(Undefined)
      else Success((PrivateCommand(identifier, d1[4..length]), d1[length..]))
  }

  function ParseCommand(d: bytes, commandType: byte, length: u16): Parsed<Command> {
    match commandType
    case 0x00 => Success((SpliceNull, d))
    case 0x04 => ParseSchedule(d)
    case 0x05 => ParseInsert(d)
    case 0x06 => ParseTimeSignal(d)
    case 0x07 => Success((BandwidthReservation, d))
    case 0xFF => ParsePrivateCommand(d, length)
    case _ => Failure(UnsupportedCommand)
  }

  // ---------- Descriptors ----------

  function ParseAvailDescriptor(d: bytes, length: byte, identifier: u32): Parsed<Descriptor> {
    if length != AVAIL_LENGTH || identifier != CUEI_IDENTIFIER then Failure(ConditionFailed)
    else
      var (id, rest) :- Read32(d);
      Success((AvailDescriptor(id), rest))
  }

  function ParseDtmfDescriptor(d: bytes, length: byte, identifier: u32): Parsed<Descriptor> {
    if identifier != CUEI_IDENTIFIER then Failure(ConditionFailed)
    else
      var (preroll, d1) :- Read8(d);
      var (b, d2) :- Read8(d1);
      var count := b / 0x20;
      if length != 5 + count || count > |d2| then Failure(ConditionFailed)
      else Success((DtmfDescriptor(preroll, d2[..count]), d2[count..]))
  }

  /** A length below 4 makes the program copy a range that ends before it starts. */
  function ParseSegmentationDescriptor(d: bytes, length: byte, identifier: u32): Parsed<Descriptor> {
    if identifier != CUEI_IDENTIFIER then Failure(ConditionFailed)
    else if length < 4 then Failure(Undefined)
    else if length - 4 > |d| then Failure(ConditionFailed)
    else Success((SegmentationDescriptor(d[..length - 4]), d[length - 4..]))
  }

  function ParseDescriptor(d: bytes): (r: Parsed<Descriptor>)
    ensures r.Success? ==> |r.value.1| < |d|
  {
    var (tag, d1) :- Read8(d);
    var (length, d2) :- Read8(d1);
    if length > |d2| then Failure(ConditionFailed)
    else
      var (identifier, d3) :- Read32(d2);
      match tag
      case 0x00 => ParseAvailDescriptor(d3, length, identifier)
      case 0x01 => ParseDtmfDescriptor(d3, length, identifier)
      case 0x02 => ParseSegmentationDescriptor(d3, length, identifier)
      case 0x03 => Failure(NotModelled)
      case _ => Failure(UnknownDescriptor)
  }

  /** All descriptors of the loop. */
  function ParseDescriptors(d: bytes): Result<seq<Descriptor>>
    decreases |d|
  {
    if d == [] then Success([])
    else
      var (first, rest) :- ParseDescriptor(d);
      Prepend([first], ParseDescriptors(rest))
  }

  // ---------- Sections ----------

  /** The section without the pointer byte 00 that may stand before it. */
  function Chopped(d: bytes): (r: bytes)
    ensures |d| - 1 <= |r| <= |d|
  {
    if d != [] && d[0] == 0 then d[1..] else d
  }

  /** section_length, after the checks of the first fields. */
  function ParseUntilLength(d: bytes): (r: Parsed<nat>)
    ensures r.Success? ==> |r.value.1| == |Chopped(d)| - 3 && r.value.0 <= |r.value.1|
  {
    if |d| < MIN_SECTION_SIZE then Failure(ConditionFailed)
    else
      var d1 := Chopped(d);
      if d1[0] != TABLE_ID || Flag(d1[1], 0x80) || Flag(d1[1], 0x40) then Failure(ConditionFailed)
      else
        var length, rest := Number12(d1[1], d1[2]), d1[3..];
        var headerLength := |d| - |rest|;
        if length < MIN_SECTION_SIZE - headerLength || length > MAX_SECTION_LENGTH || length > |rest| then
          Failure(ConditionFailed)
        else Success((length, rest))
  }

  function NextSection(d: bytes): Result<Option<Bounds<()>>> {
    if |d| < MIN_SECTION_SIZE then Success(None)
    else
      var (length, rest) :- ParseUntilLength(d);
      var start := |d| - |Chopped(d)|;
      var headerLength := |d| - |rest| - start;
      Success(Some(Bounds(start, headerLength + length, ())))
  }

  datatype Header = Header(encryptionAlgorithm: byte, ptsAdjustment: u64, cwIndex: byte)

  function ParseHeader(d: bytes): Parsed<Header> {
    var (version, d1) :- Read8(d);
    if version != PROTOCOL_VERSION then Failure(ConditionFailed)
    else
      var flags :- Scan8(d1);
      if Flag(flags, 0x80) then Failure(Encrypted)
      else
        var (ptsAdjustment, d2) :- Read33(d1);
        var (cwIndex, d3) :- Read8(d2);
        Success((Header(flags / 2 % 0x40, ptsAdjustment, cwIndex), d3))
  }

  function ParseBody(d: bytes): Parsed<(u16, Command)> {
    var tier :- Scan12High(d);
    var (_, d1) :- Read8(d);
    var (length, d2) :- Read12Low(d1);
    var (commandType, d3) :- Read8(d2);
    if length != 0xFFF && length >= |d3| then Failure(ConditionFailed)
    else
      var (command, rest) :- ParseCommand(d3, commandType, length);
      if length != 0xFFF && (|d3| - |rest|) % 0x1_0000 != length then Failure(CommandLengthDiffers)
      else Success(((tier, command), rest))
  }

  function ParseLoop(d: bytes): Parsed<seq<Descriptor>> {
    var (length, d1) :- Read16(d);
    if length == 0 then Success(([], d1))
    else if length >= |d1| then Failure(ConditionFailed)
    else
      var descriptors :- ParseDescriptors(d1[..length]);
      Success((descriptors, d1[length..]))
  }

  /** What scte35_parser_pack makes of the bytes of a section. */
  function ParseSection(d: bytes, tag: ()): Result<Section> {
    var (length, d1) :- ParseUntilLength(d);
    var (header, d2) :- ParseHeader(d1);
    var (body, d3) :- ParseBody(d2);
    var (descriptors, d4) :- ParseLoop(d3);
    var (crc, d5) :- Read32(d4);
    if Crc32.Compute(Chopped(d)) != 0 then Failure(ChecksumMismatch)
    else
      Success(Section(false, header.encryptionAlgorithm, header.ptsAdjustment, header.cwIndex,
                      body.0, body.1, descriptors))
  }

  lemma NextSectionInBuffer()
    ensures InBuffer(NextSection)
  {
  }
}
