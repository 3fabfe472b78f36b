/**
 The bit syntax of splice information sections, as the tables of sections 9 and 10 of ANSI/SCTE 35 2017
 lay it down: which fields there are, in which order, how wide they are and which values are fixed.
 Nothing here is taken from what the program reads or writes.
 */
module Scte35Syntax {
  import opened Wrappers
  import opened Words
  import opened Scte35

  /** A bit that is prescribed, or one that is reserved and may have any value. */
  datatype Symbol = Zero | One | Reserved

  function Bit(b: bool): (r: seq<Symbol>)
    ensures |r| == 1
  {
    [if b then One else Zero]
  }

  /** An unsigned number, most significant bit first. */
  function Number(v: nat, width: nat): (r: seq<Symbol>)
    ensures |r| == width
  {
    if width == 0 then [] else Number(v / 2, width - 1) + Bit(v % 2 == 1)
  }

  function ReservedBits(n: nat): (r: seq<Symbol>)
    ensures |r| == n
  {
    seq(n, _ => Reserved)
  }

  function BytesSyntax(data: bytes): (r: seq<Symbol>)
    ensures |r| == 8 * |data|
  {
    if data == [] then [] else Number(data[0], 8) + BytesSyntax(data[1..])
  }

  /** A whole number of bytes. */
  predicate Whole(p: seq<Symbol>) {
    |p| % 8 == 0
  }

  // ---------- Commands ----------

  function SpliceTimeSyntax(t: SpliceTime): (r: seq<Symbol>)
    ensures |r| == if t.ptsTime.Some? then 40 else 8
  {
    match t.ptsTime
    case Some(v) => Bit(true) + ReservedBits(6) + Number(v, 33)
    case None => Bit(false) + ReservedBits(7)
  }

  function OptionalTimeSyntax(t: Option<SpliceTime>): (r: seq<Symbol>)
    ensures Whole(r)
  {
    if t.Some? then SpliceTimeSyntax(t.value) else []
  }

  function BreakDurationSyntax(b: Option<BreakDuration>): (r: seq<Symbol>)
    ensures |r| == if b.Some? then 40 else 0
  {
    if b.Some? then Bit(b.value.autoReturn) + ReservedBits(6) + Number(b.value.duration, 33) else []
  }

  function ProgramSyntax(uniqueProgramId: u16, availNum: byte, availsExpected: byte): (r: seq<Symbol>)
    ensures |r| == 32
  {
    Number(uniqueProgramId, 16) + Number(availNum, 8) + Number(availsExpected, 8)
  }

  function ScheduleComponentsSyntax(cs: seq<ScheduleComponent>): seq<Symbol> {
    if cs == [] then []
    else Number(cs[0].tag, 8) + Number(cs[0].utcSpliceTime, 32) + ScheduleComponentsSyntax(cs[1..])
  }

  function ProgramSpliceSyntax(p: ProgramSplice): seq<Symbol> {
    match p
    case ProgramSpliceOn(t) => Number(t, 32)
    case ProgramSpliceOff(cs) => Number(|cs|, 8) + ScheduleComponentsSyntax(cs)
  }

  function ScheduleFlagsSyntax(d: ScheduleDetails): (r: seq<Symbol>)
    ensures |r| == 8
  {
    Bit(d.outOfNetwork) + Bit(d.splice.ProgramSpliceOn?) + Bit(d.breakDuration.Some?) + ReservedBits(5)
  }

  function ScheduleDetailsSyntax(d: ScheduleDetails): seq<Symbol> {
    ScheduleFlagsSyntax(d) + ProgramSpliceSyntax(d.splice) + BreakDurationSyntax(d.breakDuration)
      + ProgramSyntax(d.uniqueProgramId, d.availNum, d.availsExpected)
  }

  /** splice_event_id, splice_event_cancel_indicator and seven reserved bits. */
  function EventHeadSyntax(id: u32, cancelled: bool): (r: seq<Symbol>)
    ensures |r| == 40
  {
    Number(id, 32) + (Bit(cancelled) + ReservedBits(7))
  }

  function ScheduleEventSyntax(e: ScheduleEvent): seq<Symbol> {
    EventHeadSyntax(e.id, e.details.None?) + (if e.details.Some? then ScheduleDetailsSyntax(e.details.value) else [])
  }

  function ScheduleEventsSyntax(es: seq<ScheduleEvent>): seq<Symbol> {
    if es == [] then [] else ScheduleEventSyntax(es[0]) + ScheduleEventsSyntax(es[1..])
  }

  function InsertComponentsSyntax(cs: seq<InsertComponent>): seq<Symbol> {
    if cs == [] then []
    else Number(cs[0].tag, 8) + OptionalTimeSyntax(cs[0].spliceTime) + InsertComponentsSyntax(cs[1..])
  }

  function OptionalComponentsSyntax(cs: Option<seq<InsertComponent>>): seq<Symbol> {
    if cs.Some? then Number(|cs.value|, 8) + InsertComponentsSyntax(cs.value) else []
  }

  function InsertFlagsSyntax(d: InsertDetails): (r: seq<Symbol>)
    ensures |r| == 8
  {
    Bit(d.outOfNetwork) + Bit(d.programSplice) + Bit(d.breakDuration.Some?) + Bit(d.spliceImmediate) + ReservedBits(4)
  }

  function InsertDetailsSyntax(d: InsertDetails): seq<Symbol> {
    InsertFlagsSyntax(d) + OptionalTimeSyntax(d.spliceTime) + OptionalComponentsSyntax(d.components)
      + BreakDurationSyntax(d.breakDuration) + ProgramSyntax(d.uniqueProgramId, d.availNum, d.availsExpected)
  }

  function CommandSyntax(c: Command): seq<Symbol> {
    match c
    case SpliceNull => []
    case SpliceSchedule(events) => Number(|events|, 8) + ScheduleEventsSyntax(events)
    case SpliceInsert(id, details) =>
      EventHeadSyntax(id, details.None?) + (if details.Some? then InsertDetailsSyntax(details.value) else [])
    case TimeSignal(t) => SpliceTimeSyntax(t)
    case BandwidthReservation => []
    case PrivateCommand(identifier, data) => Number(identifier, 32) + BytesSyntax(data)
  }

  /** splice_command_type. */
  function CommandType(c: Command): byte {
    match c
    case SpliceNull => 0x00
    case SpliceSchedule(_) => 0x04
    case SpliceInsert(_, _) => 0x05
    case TimeSignal(_) => 0x06
    case BandwidthReservation => 0x07
    case PrivateCommand(_, _) => 0xFF
  }

  // ---------- Descriptors ----------

  /** What stands behind the identifier "CUEI". */
  function DescriptorContent(d: Descriptor): seq<Symbol> {
    match d
    case AvailDescriptor(id) => Number(id, 32)
    case DtmfDescriptor(preroll, chars) =>
      Number(preroll, 8) + (Number(|chars|, 3) + ReservedBits(5)) + BytesSyntax(chars)
    case SegmentationDescriptor(data) => BytesSyntax(data)
    case TimeDescriptor(seconds, nanoseconds, offset) =>
      Number(seconds, 48) + Number(nanoseconds, 32) + Number(offset, 16)
  }

  /** splice_descriptor_tag. */
  function DescriptorTag(d: Descriptor): byte {
    match d
    case AvailDescriptor(_) => 0x00
    case DtmfDescriptor(_, _) => 0x01
    case SegmentationDescriptor(_) => 0x02
    case TimeDescriptor(_, _, _) => 0x03
  }

  /** splice_descriptor_tag, descriptor_length and the identifier "CUEI". */
  function HeadSyntax(tag: byte, length: nat): (r: seq<Symbol>)
    ensures |r| == 48
  {
    Number(tag, 8) + Number(length, 8) + Number(0x4355_4549, 32)
  }

  function DescriptorSyntax(d: Descriptor, length: nat): seq<Symbol> {
    HeadSyntax(DescriptorTag(d), length) + DescriptorContent(d)
  }

  /** descriptor_length counts the bytes behind it: the identifier and the content. */
  function ContentLength(d: Descriptor): nat {
    4 + |DescriptorContent(d)| / 8
  }

  /**
   A descriptor loop. Where short is set, DTMF descriptors are announced one byte shorter than they are:
   the form that the program's parser demands.
   */
  function DescriptorsSyntax(ds: seq<Descriptor>, short: bool): seq<Symbol> {
    if ds == [] then [] else DescriptorSyntax(ds[0], LengthOf(ds[0], short)) + DescriptorsSyntax(ds[1..], short)
  }

  function LengthOf(d: Descriptor, short: bool): nat {
    if short && d.DtmfDescriptor? then ContentLength(d) - 1 else ContentLength(d)
  }

  // ---------- Sections ----------

  /** table_id, section_syntax_indicator, private_indicator, two reserved bits and section_length. */
  function StartSyntax(sectionLength: nat): (r: seq<Symbol>)
    ensures |r| == 24
  {
    Number(0xFC, 8) + (Bit(false) + Bit(false) + ReservedBits(2) + Number(sectionLength, 12))
  }

  /** protocol_version, encrypted_packet, encryption_algorithm, pts_adjustment and cw_index. */
  function HeaderSyntax(encrypted: bool, algorithm: byte, ptsAdjustment: u64, cwIndex: byte): (r: seq<Symbol>)
    ensures |r| == 56
  {
    Number(0, 8) + (Bit(encrypted) + Number(algorithm, 6) + Number(ptsAdjustment, 33)) + Number(cwIndex, 8)
  }

  /** tier, splice_command_length, splice_command_type and the command. */
  function BodySyntax(tier: nat, commandLength: nat, c: Command): seq<Symbol> {
    (Number(tier, 12) + Number(commandLength, 12)) + Number(CommandType(c), 8) + CommandSyntax(c)
  }

  function LoopSyntax(ds: seq<Descriptor>, short: bool): seq<Symbol> {
    Number(|DescriptorsSyntax(ds, short)| / 8, 16) + DescriptorsSyntax(ds, short)
  }

  /** A section up to the end of its descriptor loop. */
  function SectionSyntax(s: Section, sectionLength: nat, commandLength: nat, short: bool): seq<Symbol> {
    StartSyntax(sectionLength) + HeaderSyntax(s.encryptedPacket, s.encryptionAlgorithm, s.ptsAdjustment, s.cwIndex)
      + BodySyntax(s.tier, commandLength, s.command) + LoopSyntax(s.descriptors, short)
  }

  /** splice_command_length: the number of bytes of the command. */
  function CommandSize(c: Command): nat {
    |CommandSyntax(c)| / 8
  }

  /** Descriptors that the parser can deliver: the count of DTMF characters has three bits. */
  predicate DescriptorReadable(d: Descriptor) {
    match d
    case AvailDescriptor(_) => true
    case DtmfDescriptor(_, chars) => |chars| <= 7
    case SegmentationDescriptor(data) => |data| <= 251
    case TimeDescriptor(_, _, _) => false
  }

  predicate DescriptorsReadable(ds: seq<Descriptor>) {
    forall i :: 0 <= i < |ds| ==> DescriptorReadable(ds[i])
  }

  predicate DescriptorInRange(d: Descriptor) {
    match d
    case AvailDescriptor(_) => true
    case DtmfDescriptor(_, chars) => |chars| <= 7
    case SegmentationDescriptor(data) => |data| <= 251
    case TimeDescriptor(seconds, _, _) => seconds < 0x1_0000_0000_0000
  }

  /** All values have room in their fields, and optional fields are there as the flags demand. */
  predicate SectionInRange(s: Section) {
    && s.encryptionAlgorithm < 0x40 && s.ptsAdjustment < 0x2_0000_0000 && s.tier < 0x1000
    && CommandOk(s.command)
    && (forall i :: 0 <= i < |s.descriptors| ==> DescriptorInRange(s.descriptors[i]))
  }

  // ---------- Whole bytes ----------

  lemma WholeConcat(p: seq<Symbol>, q: seq<Symbol>)
    requires Whole(p) && Whole(q)
    ensures Whole(p + q)
  {
  }

  lemma WholeThree(p: seq<Symbol>, q: seq<Symbol>, r: seq<Symbol>)
    requires Whole(p) && Whole(q) && Whole(r)
    ensures Whole(p + q) && Whole(p + q + r)
  {
    hide Whole;
    WholeConcat(p, q);
    WholeConcat(p + q, r);
  }

  lemma {:induction false} ScheduleComponentsWhole(cs: seq<ScheduleComponent>)
    ensures Whole(ScheduleComponentsSyntax(cs))
    decreases |cs|
  {
    if cs != [] {
      ScheduleComponentsWhole(cs[1..]);
    }
  }

  lemma ProgramSpliceWhole(p: ProgramSplice)
    ensures Whole(ProgramSpliceSyntax(p))
  {
    if p.ProgramSpliceOff? {
      ScheduleComponentsWhole(p.components);
    }
    hide ScheduleComponentsSyntax;
  }

  lemma ScheduleDetailsWhole(d: ScheduleDetails)
    ensures var a, b, c := ScheduleFlagsSyntax(d), ProgramSpliceSyntax(d.splice), BreakDurationSyntax(d.breakDuration);
      Whole(a) && Whole(a + b) && Whole(a + b + c) && Whole(ScheduleDetailsSyntax(d))
  {
    hide ScheduleFlagsSyntax, ProgramSpliceSyntax, BreakDurationSyntax, ProgramSyntax;
    ProgramSpliceWhole(d.splice);
    var a, b, c := ScheduleFlagsSyntax(d), ProgramSpliceSyntax(d.splice), BreakDurationSyntax(d.breakDuration);
    WholeThree(a, b, c);
    WholeConcat(a + b + c, ProgramSyntax(d.uniqueProgramId, d.availNum, d.availsExpected));
  }

  lemma ScheduleEventWhole(e: ScheduleEvent)
    ensures Whole(ScheduleEventSyntax(e))
  {
    hide EventHeadSyntax, ScheduleDetailsSyntax;
    if e.details.Some? {
      ScheduleDetailsWhole(e.details.value);
    }
  }

  lemma {:induction false} ScheduleEventsWhole(es: seq<ScheduleEvent>)
    ensures Whole(ScheduleEventsSyntax(es))
    decreases |es|
  {
    hide ScheduleEventSyntax;
    if es != [] {
      ScheduleEventWhole(es[0]);
      ScheduleEventsWhole(es[1..]);
      WholeConcat(ScheduleEventSyntax(es[0]), ScheduleEventsSyntax(es[1..]));
    }
  }

  lemma {:induction false} InsertComponentsWhole(cs: seq<InsertComponent>)
    ensures Whole(InsertComponentsSyntax(cs))
    decreases |cs|
  {
    hide OptionalTimeSyntax;
    if cs != [] {
      InsertComponentsWhole(cs[1..]);
      WholeThree(Number(cs[0].tag, 8), OptionalTimeSyntax(cs[0].spliceTime), InsertComponentsSyntax(cs[1..]));
    }
  }

  lemma OptionalComponentsWhole(cs: Option<seq<InsertComponent>>)
    ensures Whole(OptionalComponentsSyntax(cs))
  {
    if cs.Some? {
      InsertComponentsWhole(cs.value);
    }
    hide InsertComponentsSyntax;
  }

  lemma InsertDetailsWhole(d: InsertDetails)
    ensures var a, b := InsertFlagsSyntax(d), OptionalTimeSyntax(d.spliceTime);
      var c := OptionalComponentsSyntax(d.components);
      var e := BreakDurationSyntax(d.breakDuration);
      Whole(a) && Whole(a + b) && Whole(a + b + c) && Whole(a + b + c + e) && Whole(InsertDetailsSyntax(d))
  {
    hide InsertFlagsSyntax, OptionalTimeSyntax, OptionalComponentsSyntax, BreakDurationSyntax, ProgramSyntax;
    OptionalComponentsWhole(d.components);
    var a, b, c := InsertFlagsSyntax(d), OptionalTimeSyntax(d.spliceTime), OptionalComponentsSyntax(d.components);
    var e := BreakDurationSyntax(d.breakDuration);
    WholeThree(a, b, c);
    WholeThree(a + b + c, e, ProgramSyntax(d.uniqueProgramId, d.availNum, d.availsExpected));
  }

  lemma CommandWhole(c: Command)
    ensures Whole(CommandSyntax(c))
  {
    hide Number, ScheduleEventsSyntax, EventHeadSyntax, InsertDetailsSyntax, SpliceTimeSyntax;
    match c
    case SpliceSchedule(events) => ScheduleEventsWhole(events);
    case SpliceInsert(_, details) =>
      if details.Some? {
        InsertDetailsWhole(details.value);
      }
    case _ =>
  }

  lemma DescriptorWhole(d: Descriptor, length: nat)
    ensures Whole(DescriptorContent(d)) && Whole(DescriptorSyntax(d, length)) && |DescriptorSyntax(d, length)| >= 48
  {
    ContentWhole(d);
    hide DescriptorContent, HeadSyntax;
    WholeConcat(HeadSyntax(DescriptorTag(d), length), DescriptorContent(d));
  }

  lemma ContentWhole(d: Descriptor)
    ensures Whole(DescriptorContent(d))
  {
    hide Number, BytesSyntax;
  }

  lemma {:induction false} DescriptorsWhole(ds: seq<Descriptor>, short: bool)
    ensures Whole(DescriptorsSyntax(ds, short))
    decreases |ds|
  {
    hide DescriptorSyntax, LengthOf;
    if ds != [] {
      DescriptorWhole(ds[0], LengthOf(ds[0], short));
      DescriptorsWhole(ds[1..], short);
      WholeConcat(DescriptorSyntax(ds[0], LengthOf(ds[0], short)), DescriptorsSyntax(ds[1..], short));
    }
  }

  // ---------- Values that have a syntax ----------

  predicate TimeOk(t: SpliceTime) {
    t.ptsTime.Some? ==> t.ptsTime.value < 0x2_0000_0000
  }

  predicate OptionalTimeOk(t: Option<SpliceTime>, present: bool) {
    t.Some? == present && (t.Some? ==> TimeOk(t.value))
  }

  predicate BreakOk(b: Option<BreakDuration>) {
    b.Some? ==> b.value.duration < 0x2_0000_0000
  }

  predicate InsertComponentsOk(cs: seq<InsertComponent>, immediate: bool) {
    forall i :: 0 <= i < |cs| ==> OptionalTimeOk(cs[i].spliceTime, !immediate)
  }

  /** Optional fields are there exactly as the flags demand, and components are not too many to count. */
  predicate InsertOk(d: InsertDetails) {
    && OptionalTimeOk(d.spliceTime, d.programSplice && !d.spliceImmediate)
    && d.components.Some? == !d.programSplice
    && (d.components.Some? ==>
          1 <= |d.components.value| < 0x100 && InsertComponentsOk(d.components.value, d.spliceImmediate))
    && BreakOk(d.breakDuration)
  }

  predicate ScheduleOk(d: ScheduleDetails) {
    && (d.splice.ProgramSpliceOff? ==> 1 <= |d.splice.components| < 0x100)
    && BreakOk(d.breakDuration)
  }

  predicate EventsOk(es: seq<ScheduleEvent>) {
    forall i :: 0 <= i < |es| && es[i].details.Some? ==> ScheduleOk(es[i].details.value)
  }

  predicate CommandOk(c: Command) {
    match c
    case SpliceNull => true
    case SpliceSchedule(events) => |events| < 0x100 && EventsOk(events)
    case SpliceInsert(_, details) => details.Some? ==> InsertOk(details.value)
    case TimeSignal(t) => TimeOk(t)
    case BandwidthReservation => true
    case PrivateCommand(_, _) => true
  }

  // ---------- Bytes that have a given syntax ----------

  predicate Fit(symbol: Symbol, n: nat) {
    symbol.Reserved? || (symbol.One? <==> n % 2 == 1)
  }

  predicate FitsByte(p: seq<Symbol>, x: byte)
    requires |p| == 8
  {
    && Fit(p[0], x / 0x80) && Fit(p[1], x / 0x40) && Fit(p[2], x / 0x20) && Fit(p[3], x / 0x10)
    && Fit(p[4], x / 8) && Fit(p[5], x / 4) && Fit(p[6], x / 2) && Fit(p[7], x)
  }

  /** The first bits of d are as p prescribes, a whole number of bytes of them. */
  predicate Starts(p: seq<Symbol>, d: bytes)
    decreases |p|
  {
    p == [] || (|p| >= 8 && d != [] && FitsByte(p[..8], d[0]) && Starts(p[8..], d[1..]))
  }

  /** The bytes behind them. */
  function After(p: seq<Symbol>, d: bytes): bytes {
    if |p| / 8 <= |d| then d[|p| / 8..] else []
  }

  /** All of d is as p prescribes. */
  predicate Fits(p: seq<Symbol>, d: bytes) {
    |p| == 8 * |d| && Starts(p, d)
  }

  lemma {:induction false} StartsWhole(p: seq<Symbol>, d: bytes)
    requires Starts(p, d)
    ensures Whole(p) && |p| / 8 <= |d|
    decreases |p|
  {
    if p != [] {
      StartsWhole(p[8..], d[1..]);
    }
  }

  lemma StartsNothing(d: bytes)
    ensures Starts([], d) && After([], d) == d
  {
  }

  /** One part after the other. */
  lemma {:induction false} StartsConcat(p: seq<Symbol>, q: seq<Symbol>, d: bytes)
    requires Whole(p)
    ensures Starts(p + q, d) <==> Starts(p, d) && Starts(q, After(p, d))
    ensures Starts(p, d) ==> After(p + q, d) == After(q, After(p, d))
    decreases |p|
  {
    if p == [] {
      assert p + q == q;
    } else {
      assert (p + q)[..8] == p[..8] && (p + q)[8..] == p[8..] + q;
      if d != [] {
        StartsConcat(p[8..], q, d[1..]);
        AfterByte(p, d);
        AfterByte(p + q, d);
      }
    }
  }

  lemma AfterByte(p: seq<Symbol>, d: bytes)
    requires |p| >= 8 && d != []
    ensures After(p, d) == After(p[8..], d[1..])
  {
    assert |p[8..]| / 8 == |p| / 8 - 1;
  }

  /** What stands behind is of no account. */
  lemma {:induction false} FitsBefore(p: seq<Symbol>, d: bytes, tail: bytes)
    requires |p| == 8 * |d|
    ensures Starts(p, d + tail) <==> Fits(p, d)
    ensures After(p, d + tail) == tail
    decreases |d|
  {
    if d != [] {
      assert (d + tail)[1..] == d[1..] + tail;
      FitsBefore(p[8..], d[1..], tail);
    }
  }

  lemma FitsConcat(p: seq<Symbol>, q: seq<Symbol>, a: bytes, b: bytes)
    requires |p| == 8 * |a|
    ensures Fits(p + q, a + b) <==> Fits(p, a) && Fits(q, b)
  {
    hide Starts, After;
    StartsConcat(p, q, a + b);
    FitsBefore(p, a, b);
  }

  lemma AfterBytes(p: seq<Symbol>, d: bytes, n: nat)
    requires |p| == 8 * n && n <= |d|
    ensures After(p, d) == d[n..]
  {
  }

  lemma StartsOneByte(p: seq<Symbol>, d: bytes)
    requires |p| == 8
    ensures Starts(p, d) <==> d != [] && FitsByte(p, d[0])
    ensures d != [] ==> After(p, d) == d[1..]
  {
    assert p[..8] == p && p[8..] == [];
  }
}
