/**
 What the parser accepts: for every piece, every value and all bytes, the parser delivers the value if
 and only if the bytes are as the bit syntax of the standard prescribes, whatever the reserved bits.
 */
module Scte35Acceptance {
  import opened Wrappers
  import opened Words
  import opened Wire
  import opened BinaryParsing
  import opened Scte35
  import opened Scte35Syntax
  import opened Scte35Fields
  import opened Scte35Parser
  import Scte35Rejection
  import Crc32
  import CrcDivision

  /** r gives x for d just when x is allowed and d starts with p, and then it leaves what stands behind. */
  ghost predicate Exact<T>(r: Parsed<T>, x: T, ok: bool, p: seq<Symbol>, d: bytes) {
    && (ok && Starts(p, d) ==> r == Success((x, After(p, d))))
    && (r.Success? && r.value.0 == x ==> ok && Starts(p, d))
  }

  // ---------- Numbers ----------

  lemma Exact8(x: byte, d: bytes)
    ensures Exact(Read8(d), x, true, Number(x, 8), d)
  {
    hide Number, Starts, After;
    StartsNumber8(x, d);
  }

  lemma Exact16(x: u16, d: bytes)
    ensures Exact(Read16(d), x, true, Number(x, 16), d)
  {
    hide Number, Starts, After;
    StartsNumber16(x, d);
  }

  lemma Exact32(x: u32, d: bytes)
    ensures Exact(Read32(d), x, true, Number(x, 32), d)
  {
    hide Number, Starts, After;
    StartsNumber32(x, d);
    if |d| >= 4 {
      Value32(x, d[0], d[1], d[2], d[3]);
    }
    hide Number32, Write32;
  }

  lemma Value32(x: u32, a: byte, b: byte, c: byte, e: byte)
    ensures Number32(a, b, c, e) == x <==> [a, b, c, e] == Write32(x)
  {
    Split32(x);
    Join32(a, b, c, e);
    hide Number32, Write32;
  }

  lemma Value33(v: nat, d: bytes)
    requires |d| >= 5
    ensures 0x1_0000_0000 * (d[0] as int % 2) + Number32(d[1], d[2], d[3], d[4]) == v <==>
      v < 0x2_0000_0000 && d[0] as int % 2 == v / 0x1_0000_0000 % 2 && [d[1], d[2], d[3], d[4]] == Write32(v)
  {
    var high, low := v / 0x1_0000_0000, v % 0x1_0000_0000;
    assert v == 0x1_0000_0000 * high + low;
    Write32Low(high, low);
    Value32(low, d[1], d[2], d[3], d[4]);
    hide Number32, Write32;
    SameParts(d[0] as int % 2, Number32(d[1], d[2], d[3], d[4]), high, low);
  }

  lemma SameParts(a: nat, b: nat, high: nat, low: nat)
    requires a < 2 && b < 0x1_0000_0000 && low < 0x1_0000_0000
    ensures 0x1_0000_0000 * a + b == 0x1_0000_0000 * high + low <==> a == high && b == low
    ensures high < 2 <==> 0x1_0000_0000 * high + low < 0x2_0000_0000
    ensures high < 2 ==> high % 2 == high
  {
  }

  // ---------- Commands ----------

  lemma TimeExact(t: SpliceTime, d: bytes)
    ensures Exact(ParseSpliceTime(d), t, TimeOk(t), SpliceTimeSyntax(t), d)
  {
    hide Number, ReservedBits, Bit, Starts, After, Number32, Write32, Flag;
    match t.ptsTime
    case Some(v) =>
      StartsFlag33(true, v, d);
      if |d| >= 5 {
        Value33(v, d);
      }
    case None => StartsFlag(false, d);
  }

  lemma OptionalTimeExact(t: Option<SpliceTime>, present: bool, d: bytes)
    ensures Exact(ParseOptionalTime(d, present), t, OptionalTimeOk(t, present), OptionalTimeSyntax(t), d)
  {
    hide SpliceTimeSyntax, Starts, After;
    if t.Some? {
      TimeExact(t.value, d);
    } else {
      StartsNothing(d);
    }
  }

  lemma OptionalBreakExact(b: Option<BreakDuration>, present: bool, d: bytes)
    ensures Exact(ParseOptionalBreak(d, present), b, b.Some? == present && BreakOk(b), BreakDurationSyntax(b), d)
  {
    hide Number, ReservedBits, Bit, Starts, After, Number32, Write32, Flag;
    if b.Some? {
      StartsFlag33(b.value.autoReturn, b.value.duration, d);
      if |d| >= 5 {
        Value33(b.value.duration, d);
      }
    } else {
      StartsNothing(d);
    }
  }

  lemma ProgramExact(id: u16, num: byte, expected: byte, d: bytes)
    ensures Exact(ParseProgram(d), (id, num, expected), true, ProgramSyntax(id, num, expected), d)
  {
    hide Number, Starts, After, Read16, Read8;
    var a, b, c := Number(id, 16), Number(num, 8), Number(expected, 8);
    StartsConcat(a + b, c, d);
    StartsConcat(a, b, d);
    Exact16(id, d);
    Exact8(num, After(a, d));
    Exact8(expected, After(b, After(a, d)));
  }

  lemma {:induction false} ScheduleComponentsExact(cs: seq<ScheduleComponent>, n: nat, d: bytes)
    ensures Exact(ParseScheduleComponents(d, n), cs, |cs| == n, ScheduleComponentsSyntax(cs), d)
    decreases n
  {
    hide Number, Starts, After, Read8, Read32;
    StartsNothing(d);
    if n > 0 && cs != [] {
      var a, b := Number(cs[0].tag, 8), Number(cs[0].utcSpliceTime, 32);
      var rest := ScheduleComponentsSyntax(cs[1..]);
      StartsConcat(a + b, rest, d);
      StartsConcat(a, b, d);
      Exact8(cs[0].tag, d);
      Exact32(cs[0].utcSpliceTime, After(a, d));
      ScheduleComponentsExact(cs[1..], n - 1, After(b, After(a, d)));
      assert cs == [cs[0]] + cs[1..];
    }
  }

  lemma ProgramSpliceExact(p: ProgramSplice, programSplice: bool, d: bytes)
    ensures Exact(ParseProgramSplice(d, programSplice), p,
      p.ProgramSpliceOn? == programSplice && (p.ProgramSpliceOff? ==> 1 <= |p.components| < 0x100),
      ProgramSpliceSyntax(p), d)
  {
    hide Number, Starts, After, Read8, Read32, ParseScheduleComponents, ScheduleComponentsSyntax;
    match p
    case ProgramSpliceOn(t) => Exact32(t, d);
    case ProgramSpliceOff(cs) =>
      StartsConcat(Number(|cs|, 8), ScheduleComponentsSyntax(cs), d);
      var d1 := After(Number(|cs|, 8), d);
      if |cs| < 0x100 {
        Exact8(|cs|, d);
      }
      if Read8(d).Success? {
        ReadByte(d);
        ScheduleComponentsExact(cs, d[0], d[1..]);
      }
  }

  lemma ReadByte(d: bytes)
    ensures Read8(d).Success? <==> d != []
    ensures d != [] ==> Read8(d) == Success((d[0], d[1..]))
  {
  }

  lemma ScheduleDetailsExact(x: ScheduleDetails, d: bytes)
    ensures Exact(ParseScheduleDetails(d), x, ScheduleOk(x), ScheduleDetailsSyntax(x), d)
  {
    hide Bit, ReservedBits, Starts, After, Flag, Read8, ProgramSpliceSyntax, BreakDurationSyntax, ProgramSyntax,
      ParseProgramSplice, ParseOptionalBreak, ParseProgram, BreakOk;
    var a, b, c := ScheduleFlagsSyntax(x), ProgramSpliceSyntax(x.splice), BreakDurationSyntax(x.breakDuration);
    var e := ProgramSyntax(x.uniqueProgramId, x.availNum, x.availsExpected);
    ScheduleDetailsWhole(x);
    StartsConcat(a + b + c, e, d);
    StartsConcat(a + b, c, d);
    StartsConcat(a, b, d);
    ReadByte(d);
    StartsFlags(x.outOfNetwork, x.splice.ProgramSpliceOn?, x.breakDuration.Some?, d);
    if d != [] {
      var d1 := d[1..];
      var d2 := After(b, d1);
      ProgramSpliceExact(x.splice, Flag(d[0], 0x40), d1);
      OptionalBreakExact(x.breakDuration, Flag(d[0], 0x20), d2);
      ProgramExact(x.uniqueProgramId, x.availNum, x.availsExpected, After(c, d2));
    }
  }

  lemma EventHeadStarts(id: u32, cancelled: bool, d: bytes)
    ensures var p := EventHeadSyntax(id, cancelled);
      && (Starts(p, d) <==> |d| >= 5 && Read32(d) == Success((id, d[4..])) && Flag(d[4], 0x80) == cancelled)
      && (|d| >= 5 ==> After(p, d) == d[5..])
  {
    hide Number, Bit, ReservedBits, Starts, After, Flag, Read32;
    var a, b := Number(id, 32), Bit(cancelled) + ReservedBits(7);
    StartsConcat(a, b, d);
    Exact32(id, d);
    ReadFour(d);
    if |d| >= 4 {
      AfterBytes(a, d, 4);
      StartsFlag(cancelled, d[4..]);
    }
    if |d| >= 5 {
      AfterBytes(a + b, d, 5);
    }
  }

  lemma ScheduleEventExact(e: ScheduleEvent, d: bytes)
    ensures Exact(ParseScheduleEvent(d), e, e.details.Some? ==> ScheduleOk(e.details.value), ScheduleEventSyntax(e), d)
  {
    hide EventHeadSyntax, Starts, After, Flag, Number32, ParseScheduleDetails, ScheduleDetailsSyntax, ScheduleOk;
    EventHeadStarts(e.id, e.details.None?, d);
    var details := if e.details.Some? then ScheduleDetailsSyntax(e.details.value) else [];
    StartsConcat(EventHeadSyntax(e.id, e.details.None?), details, d);
    if |d| >= 5 {
      StartsNothing(d[5..]);
      if e.details.Some? {
        ScheduleDetailsExact(e.details.value, d[5..]);
      }
    }
  }

  lemma {:induction false} ScheduleEventsExact(es: seq<ScheduleEvent>, n: nat, d: bytes)
    ensures Exact(ParseScheduleEvents(d, n), es, |es| == n && EventsOk(es), ScheduleEventsSyntax(es), d)
    decreases n
  {
    hide ScheduleEventSyntax, Starts, After, ParseScheduleEvent, ScheduleOk;
    StartsNothing(d);
    if n > 0 && es != [] {
      ScheduleEventWhole(es[0]);
      StartsConcat(ScheduleEventSyntax(es[0]), ScheduleEventsSyntax(es[1..]), d);
      ScheduleEventExact(es[0], d);
      ScheduleEventsExact(es[1..], n - 1, After(ScheduleEventSyntax(es[0]), d));
      assert es == [es[0]] + es[1..];
      EventsOkCons(es);
    }
  }

  lemma EventsOkCons(es: seq<ScheduleEvent>)
    requires es != []
    ensures EventsOk(es) <==> (es[0].details.Some? ==> ScheduleOk(es[0].details.value)) && EventsOk(es[1..])
  {
    hide ScheduleOk;
    assert forall i :: 0 < i < |es| ==> es[i] == es[1..][i - 1];
  }

  lemma ScheduleExact(events: seq<ScheduleEvent>, d: bytes)
    ensures Exact(ParseSchedule(d), SpliceSchedule(events), |events| < 0x100 && EventsOk(events),
      Number(|events|, 8) + ScheduleEventsSyntax(events), d)
  {
    hide Number, Starts, After, Read8, ParseScheduleEvents, ScheduleEventsSyntax, EventsOk;
    StartsConcat(Number(|events|, 8), ScheduleEventsSyntax(events), d);
    if |events| < 0x100 {
      Exact8(|events|, d);
    }
    ReadByte(d);
    if d != [] {
      ScheduleEventsExact(events, d[0], d[1..]);
    }
  }

  lemma {:induction false} InsertComponentsExact(cs: seq<InsertComponent>, n: nat, immediate: bool, d: bytes)
    ensures Exact(ParseInsertComponents(d, n, immediate), cs, |cs| == n && InsertComponentsOk(cs, immediate),
      InsertComponentsSyntax(cs), d)
    decreases n
  {
    hide Number, Starts, After, Read8, OptionalTimeSyntax, ParseOptionalTime, OptionalTimeOk;
    StartsNothing(d);
    if n > 0 && cs != [] {
      var a, b := Number(cs[0].tag, 8), OptionalTimeSyntax(cs[0].spliceTime);
      StartsConcat(a + b, InsertComponentsSyntax(cs[1..]), d);
      StartsConcat(a, b, d);
      Exact8(cs[0].tag, d);
      OptionalTimeExact(cs[0].spliceTime, !immediate, After(a, d));
      InsertComponentsExact(cs[1..], n - 1, immediate, After(b, After(a, d)));
      assert cs == [cs[0]] + cs[1..];
      InsertComponentsOkCons(cs, immediate);
    }
  }

  lemma InsertComponentsOkCons(cs: seq<InsertComponent>, immediate: bool)
    requires cs != []
    ensures InsertComponentsOk(cs, immediate) <==>
      OptionalTimeOk(cs[0].spliceTime, !immediate) && InsertComponentsOk(cs[1..], immediate)
  {
    hide OptionalTimeOk;
    assert forall i :: 0 < i < |cs| ==> cs[i] == cs[1..][i - 1];
  }

  /** Components are there just when the flags demand it, and then they can be counted. */
  predicate OptionalComponentsOk(cs: Option<seq<InsertComponent>>, present: bool, immediate: bool) {
    cs.Some? == present && (cs.Some? ==> 1 <= |cs.value| < 0x100 && InsertComponentsOk(cs.value, immediate))
  }

  lemma OptionalComponentsExact(cs: Option<seq<InsertComponent>>, present: bool, immediate: bool, d: bytes)
    ensures Exact(ParseOptionalComponents(d, present, immediate), cs, OptionalComponentsOk(cs, present, immediate),
      OptionalComponentsSyntax(cs), d)
  {
    hide Number, Starts, After, Read8, ParseInsertComponents, InsertComponentsSyntax, InsertComponentsOk;
    StartsNothing(d);
    if cs.Some? {
      StartsConcat(Number(|cs.value|, 8), InsertComponentsSyntax(cs.value), d);
      if |cs.value| < 0x100 {
        Exact8(|cs.value|, d);
      }
      ReadByte(d);
      if d != [] {
        InsertComponentsExact(cs.value, d[0], immediate, d[1..]);
      }
    }
  }

  lemma InsertDetailsExact(x: InsertDetails, d: bytes)
    ensures Exact(ParseInsertDetails(d), x, InsertOk(x), InsertDetailsSyntax(x), d)
  {
    hide Bit, ReservedBits, Starts, After, Flag, Read8, OptionalTimeSyntax, OptionalComponentsSyntax,
      BreakDurationSyntax, ProgramSyntax, ParseOptionalTime, ParseOptionalComponents, ParseOptionalBreak, ParseProgram,
      BreakOk, OptionalTimeOk, InsertComponentsOk;
    var a, b, c := InsertFlagsSyntax(x), OptionalTimeSyntax(x.spliceTime), OptionalComponentsSyntax(x.components);
    var e := BreakDurationSyntax(x.breakDuration);
    var f := ProgramSyntax(x.uniqueProgramId, x.availNum, x.availsExpected);
    InsertDetailsWhole(x);
    StartsConcat(a + b + c + e, f, d);
    StartsConcat(a + b + c, e, d);
    StartsConcat(a + b, c, d);
    StartsConcat(a, b, d);
    ReadByte(d);
    StartsFourFlags(x.outOfNetwork, x.programSplice, x.breakDuration.Some?, x.spliceImmediate, d);
    if d != [] {
      var program, immediate := Flag(d[0], 0x40), Flag(d[0], 0x10);
      var d1 := d[1..];
      var d2 := After(b, d1);
      var d3 := After(c, d2);
      OptionalTimeExact(x.spliceTime, program && !immediate, d1);
      OptionalComponentsExact(x.components, !program, immediate, d2);
      OptionalBreakExact(x.breakDuration, Flag(d[0], 0x20), d3);
      ProgramExact(x.uniqueProgramId, x.availNum, x.availsExpected, After(e, d3));
    }
  }

  lemma InsertExact(id: u32, details: Option<InsertDetails>, d: bytes)
    ensures Exact(ParseInsert(d), SpliceInsert(id, details), details.Some? ==> InsertOk(details.value),
      CommandSyntax(SpliceInsert(id, details)), d)
  {
    hide EventHeadSyntax, Starts, After, Flag, Number32, ParseInsertDetails, InsertDetailsSyntax, InsertOk;
    EventHeadStarts(id, details.None?, d);
    var rest := if details.Some? then InsertDetailsSyntax(details.value) else [];
    StartsConcat(EventHeadSyntax(id, details.None?), rest, d);
    if |d| >= 5 {
      StartsNothing(d[5..]);
      if details.Some? {
        InsertDetailsExact(details.value, d[5..]);
      }
    }
  }

  /** Every command but a private one, whatever length was announced for it. */
  lemma CommandExact(c: Command, commandType: byte, length: u16, d: bytes)
    requires !c.PrivateCommand?
    ensures Exact(ParseCommand(d, commandType, length), c, CommandOk(c) && commandType == CommandType(c),
      CommandSyntax(c), d)
  {
    hide Starts, After, ParseSchedule, ParseInsert, ParsePrivateCommand, ParseSpliceTime, EventsOk, InsertOk, TimeOk,
      SpliceTimeSyntax, EventHeadSyntax, ScheduleEventsSyntax, InsertDetailsSyntax, Number;
    if ParseCommand(d, commandType, length).Success? {
      CommandKind(commandType, length, d);
    }
    StartsNothing(d);
    match c
    case SpliceSchedule(events) => ScheduleExact(events, d);
    case SpliceInsert(id, details) => InsertExact(id, details, d);
    case TimeSignal(t) => TimeExact(t, d);
    case _ =>
  }

  lemma CommandKind(commandType: byte, length: u16, d: bytes)
    requires ParseCommand(d, commandType, length).Success?
    ensures CommandType(ParseCommand(d, commandType, length).value.0) == commandType
  {
    hide ParseScheduleEvents, ParseInsertDetails, ParseSpliceTime, Flag, Number32;
  }

  lemma ReadFour(d: bytes)
    ensures Read32(d).Success? <==> |d| >= 4
    ensures Read32(d).Success? ==> Read32(d).value.1 == d[4..]
  {
  }

  // ---------- Descriptors ----------

  lemma HeadStarts(tag: byte, length: byte, d: bytes)
    ensures var p := HeadSyntax(tag, length);
      && (Starts(p, d) <==>
            |d| >= 6 && d[0] == tag && d[1] == length && Read32(d[2..]) == Success((CUEI_IDENTIFIER, d[6..])))
      && (|d| >= 6 ==> After(p, d) == d[6..])
  {
    hide Starts, After, Number, Read32;
    var a, c := Number(tag, 8) + Number(length, 8), Number(0x4355_4549, 32);
    StartsConcat(a, c, d);
    TagStarts(tag, length, d);
    if |d| >= 2 {
      Exact32(0x4355_4549, d[2..]);
      ReadFour(d[2..]);
    }
    if |d| >= 6 {
      AfterBytes(a + c, d, 6);
    }
  }

  lemma TagStarts(tag: byte, length: byte, d: bytes)
    ensures var p := Number(tag, 8) + Number(length, 8);
      && (Starts(p, d) <==> |d| >= 2 && d[0] == tag && d[1] == length)
      && (|d| >= 2 ==> After(p, d) == d[2..])
  {
    hide Starts, After, Number;
    var a, b := Number(tag, 8), Number(length, 8);
    StartsConcat(a, b, d);
    StartsNumber8(tag, d);
    if d != [] {
      StartsNumber8(length, d[1..]);
    }
    if |d| >= 2 {
      AfterBytes(a + b, d, 2);
    }
  }

  lemma AvailExact(x: Descriptor, d: bytes, length: byte)
    requires x.AvailDescriptor?
    ensures Exact(ParseAvailDescriptor(d, length, CUEI_IDENTIFIER), x, length == ContentLength(x), DescriptorContent(x),
      d)
  {
    hide Starts, After, Number, Read32;
    Exact32(x.providerAvailId, d);
  }

  lemma DtmfExact(x: Descriptor, d: bytes, length: byte)
    requires x.DtmfDescriptor?
    ensures Exact(ParseDtmfDescriptor(d, length, CUEI_IDENTIFIER), x,
      |x.dtmfChars| <= 7 && length == ContentLength(x) - 1, DescriptorContent(x), d)
  {
    hide Starts, After, Number, BytesSyntax, Read8, ReservedBits;
    var n := |x.dtmfChars|;
    var a, b, c := Number(x.preroll, 8), Number(n, 3) + ReservedBits(5), BytesSyntax(x.dtmfChars);
    StartsConcat(a + b, c, d);
    StartsConcat(a, b, d);
    Exact8(x.preroll, d);
    ReadByte(d);
    if d != [] {
      StartsCount(n, d[1..]);
      ReadByte(d[1..]);
      if |d| >= 2 {
        StartsBytes(x.dtmfChars, d[2..]);
        if n <= |d| - 2 {
          AfterBytes(c, d[2..], n);
        }
      }
    }
  }

  lemma SegmentationExact(x: Descriptor, d: bytes, length: byte)
    requires x.SegmentationDescriptor?
    ensures Exact(ParseSegmentationDescriptor(d, length, CUEI_IDENTIFIER), x,
      length == ContentLength(x), DescriptorContent(x), d)
  {
    hide Starts, After, BytesSyntax;
    StartsBytes(x.data, d);
    if |x.data| <= |d| {
      AfterBytes(BytesSyntax(x.data), d, |x.data|);
    }
  }

  /** The identifier has to be "CUEI", and the kind follows from the tag. */
  lemma DescriptorKind(d: bytes)
    requires ParseDescriptor(d).Success?
    ensures |d| >= 6 && DescriptorTag(ParseDescriptor(d).value.0) == d[0]
    ensures Read32(d[2..]) == Success((CUEI_IDENTIFIER, d[6..]))
  {
    hide Number32;
  }

  /** Behind the head of a descriptor of the kind of x. */
  function ParseContent(x: Descriptor, length: byte, d: bytes): Parsed<Descriptor> {
    match x
    case AvailDescriptor(_) => ParseAvailDescriptor(d, length, CUEI_IDENTIFIER)
    case DtmfDescriptor(_, _) => ParseDtmfDescriptor(d, length, CUEI_IDENTIFIER)
    case SegmentationDescriptor(_) => ParseSegmentationDescriptor(d, length, CUEI_IDENTIFIER)
    case TimeDescriptor(_, _, _) => Failure(NotModelled)
  }

  lemma DescriptorBehind(x: Descriptor, d: bytes)
    requires |d| >= 6 && d[0] == DescriptorTag(x) && Read32(d[2..]) == Success((CUEI_IDENTIFIER, d[6..]))
    ensures ParseDescriptor(d) == if d[1] > |d| - 2 then Failure(ConditionFailed) else ParseContent(x, d[1], d[6..])
  {
    hide Read32, ParseAvailDescriptor, ParseDtmfDescriptor, ParseSegmentationDescriptor;
    assert d[1..][1..] == d[2..];
  }

  lemma ContentExact(x: Descriptor, length: byte, d: bytes)
    requires !x.TimeDescriptor?
    ensures Exact(ParseContent(x, length, d), x,
      length == LengthOf(x, true) && (x.DtmfDescriptor? ==> |x.dtmfChars| <= 7), DescriptorContent(x), d)
  {
    hide Starts, After, DescriptorContent, ContentLength, ParseAvailDescriptor, ParseDtmfDescriptor,
      ParseSegmentationDescriptor;
    match x
    case AvailDescriptor(_) => AvailExact(x, d, length);
    case DtmfDescriptor(_, _) => DtmfExact(x, d, length);
    case SegmentationDescriptor(_) => SegmentationExact(x, d, length);
  }

  lemma ReadableLength(x: Descriptor)
    requires !x.TimeDescriptor?
    ensures DescriptorReadable(x) <==> LengthOf(x, true) < 0x100 && (x.DtmfDescriptor? ==> |x.dtmfChars| <= 7)
    ensures LengthOf(x, true) <= 4 + |DescriptorContent(x)| / 8
  {
    hide Number, BytesSyntax, ReservedBits;
  }

  /** Every descriptor but a time descriptor, in the form that the parser demands. */
  lemma DescriptorExact(x: Descriptor, d: bytes)
    requires !x.TimeDescriptor?
    ensures Exact(ParseDescriptor(d), x, DescriptorReadable(x), DescriptorSyntax(x, LengthOf(x, true)), d)
  {
    hide Starts, After, HeadSyntax, DescriptorContent, Read32, ParseDescriptor, ParseContent, DescriptorReadable,
      LengthOf;
    var length := LengthOf(x, true);
    var head, content := HeadSyntax(DescriptorTag(x), length), DescriptorContent(x);
    StartsConcat(head, content, d);
    ReadableLength(x);
    if length < 0x100 {
      HeadStarts(DescriptorTag(x), length, d);
    }
    if ParseDescriptor(d).Success? {
      DescriptorKind(d);
    }
    if |d| >= 6 && d[0] == DescriptorTag(x) && Read32(d[2..]) == Success((CUEI_IDENTIFIER, d[6..])) {
      DescriptorBehind(x, d);
      ContentExact(x, d[1], d[6..]);
      if Starts(content, d[6..]) {
        StartsWhole(content, d[6..]);
      }
    }
  }

  predicate NoTime(ds: seq<Descriptor>) {
    forall i :: 0 <= i < |ds| ==> !ds[i].TimeDescriptor?
  }

  lemma FirstOfDescriptors(ds: seq<Descriptor>)
    requires ds != []
    ensures DescriptorsReadable(ds) <==> DescriptorReadable(ds[0]) && DescriptorsReadable(ds[1..])
    ensures NoTime(ds) ==> !ds[0].TimeDescriptor? && NoTime(ds[1..])
    ensures ds == [ds[0]] + ds[1..]
  {
    hide DescriptorReadable;
    assert forall i :: 0 < i < |ds| ==> ds[i] == ds[1..][i - 1];
  }

  /** All descriptors of a loop. */
  lemma {:induction false} DescriptorsExact(ds: seq<Descriptor>, d: bytes)
    requires NoTime(ds)
    ensures ParseDescriptors(d) == Success(ds) <==> DescriptorsReadable(ds) && Fits(DescriptorsSyntax(ds, true), d)
    decreases |ds|
  {
    hide Starts, After, ParseDescriptor, DescriptorSyntax, DescriptorReadable, LengthOf;
    if ds == [] {
      NoDescriptors(d);
      StartsNothing(d);
    } else {
      FirstOfDescriptors(ds);
      var p, q := DescriptorSyntax(ds[0], LengthOf(ds[0], true)), DescriptorsSyntax(ds[1..], true);
      DescriptorWhole(ds[0], LengthOf(ds[0], true));
      DescriptorExact(ds[0], d);
      StartsConcat(p, q, d);
      DescriptorsExact(ds[1..], After(p, d));
      FitsBehind(p, q, d);
      if ParseDescriptors(d) == Success(ds) {
        HeadOfList(ParseDescriptor(d).value.0, ParseDescriptors(ParseDescriptor(d).value.1), ds);
      }
    }
  }

  lemma NoDescriptors(d: bytes)
    ensures ParseDescriptors(d) == Success([]) <==> d == []
  {
    hide ParseDescriptor;
  }

  lemma FitsBehind(p: seq<Symbol>, q: seq<Symbol>, d: bytes)
    requires Whole(p) && |p| > 0
    ensures Fits(p + q, d) <==> d != [] && Starts(p, d) && Fits(q, After(p, d))
  {
    StartsConcat(p, q, d);
    if Starts(p, d) {
      StartsWhole(p, d);
    }
    hide Starts;
  }

  lemma HeadOfList(first: Descriptor, rest: Result<seq<Descriptor>>, ds: seq<Descriptor>)
    requires Prepend([first], rest) == Success(ds)
    ensures ds != [] && first == ds[0] && rest == Success(ds[1..])
  {
    assert ds == [first] + rest.value;
  }

  lemma LoopExact(ds: seq<Descriptor>, d: bytes)
    requires NoTime(ds) && |d| < 0x1_0000
    ensures Exact(ParseLoop(d), ds, DescriptorsReadable(ds) && (ds != [] ==> After(LoopSyntax(ds, true), d) != []),
      LoopSyntax(ds, true), d)
  {
    hide Starts, After, Number, Read16, ParseDescriptors, DescriptorsSyntax, DescriptorsReadable;
    var p := DescriptorsSyntax(ds, true);
    DescriptorsWhole(ds, true);
    StartsConcat(Number(|p| / 8, 16), p, d);
    SyntaxOfNone(ds);
    if |p| / 8 < 0x1_0000 {
      Exact16(|p| / 8, d);
    }
    if ds == [] {
      assert p == [];
    }
    StartsNumber16(|p| / 8, d);
    ReadTwo(d);
    if |d| >= 2 {
      var length, d1 := Read16(d).value.0, d[2..];
      if 0 < length < |d1| {
        DescriptorsExact(ds, d1[..length]);
        FitsPrefix(p, d1, length);
      }
      StartsNothing(d1);
      if Starts(p, d1) {
        StartsWhole(p, d1);
      }
      if |p| / 8 <= |d1| {
        AfterBytes(p, d1, |p| / 8);
      }
    }
  }

  lemma ReadTwo(d: bytes)
    ensures Read16(d).Success? <==> |d| >= 2
    ensures Read16(d).Success? ==> Read16(d).value.1 == d[2..]
  {
  }

  lemma SyntaxOfNone(ds: seq<Descriptor>)
    ensures |DescriptorsSyntax(ds, true)| == 0 <==> ds == []
    ensures DescriptorsReadable([])
    ensures ds != [] ==> |DescriptorsSyntax(ds, true)| >= 48
  {
    hide DescriptorContent, HeadSyntax;
  }

  lemma FitsPrefix(p: seq<Symbol>, d: bytes, n: nat)
    requires n <= |d|
    ensures Fits(p, d[..n]) <==> Starts(p, d) && |p| == 8 * n
    ensures |p| == 8 * n ==> After(p, d) == d[n..]
  {
    hide Starts;
    assert d == d[..n] + d[n..];
    if |p| == 8 * n {
      FitsBefore(p, d[..n], d[n..]);
    }
  }

  // ---------- Sections ----------

  lemma HeaderExact(h: Header, d: bytes)
    ensures Exact(ParseHeader(d), h, h.encryptionAlgorithm < 0x40 && h.ptsAdjustment < 0x2_0000_0000,
      HeaderSyntax(false, h.encryptionAlgorithm, h.ptsAdjustment, h.cwIndex), d)
  {
    hide Bit, Number, Starts, After, Flag, Number32, Write32, Read8;
    var e, v := h.encryptionAlgorithm, h.ptsAdjustment;
    var a, b, c := Number(0, 8), Bit(false) + Number(e, 6) + Number(v, 33), Number(h.cwIndex, 8);
    assert Number(0, 8) + (Bit(false) + Number(e, 6) + Number(v, 33)) == a + b;
    StartsConcat(a + b, c, d);
    StartsConcat(a, b, d);
    StartsNumber8(0, d);
    ReadByte(d);
    if d != [] && e < 0x40 {
      StartsKeys(false, e, v, d[1..]);
      if |d| >= 6 {
        Value33(v, d[1..]);
        Exact8(h.cwIndex, d[6..]);
      }
    }
  }

  lemma EncryptedHeader(algorithm: byte, ptsAdjustment: u64, cwIndex: byte, d: bytes)
    requires algorithm < 0x40 && Starts(HeaderSyntax(true, algorithm, ptsAdjustment, cwIndex), d)
    ensures ParseHeader(d) == Failure(Encrypted)
  {
    hide Bit, Number, Starts, After, Flag, Write32, Read33;
    var a, b := Number(0, 8), Bit(true) + Number(algorithm, 6) + Number(ptsAdjustment, 33);
    StartsConcat(a + b, Number(cwIndex, 8), d);
    StartsConcat(a, b, d);
    StartsNumber8(0, d);
    StartsKeys(true, algorithm, ptsAdjustment, d[1..]);
  }

  lemma BodyHeadStarts(tier: nat, length: nat, commandType: byte, d: bytes)
    requires length < 0x1000
    ensures var p := (Number(tier, 12) + Number(length, 12)) + Number(commandType, 8);
      && (tier < 0x1000 ==>
            (Starts(p, d) <==>
               |d| >= 4 && Scan12High(d) == Success(tier) && Number12(d[1], d[2]) == length && d[3] == commandType))
      && (|d| >= 4 ==> After(p, d) == d[4..])
  {
    hide Number, Starts, After;
    var a, b := Number(tier, 12) + Number(length, 12), Number(commandType, 8);
    StartsConcat(a, b, d);
    StartsPair(tier, length, d);
    if |d| >= 3 {
      StartsNumber8(commandType, d[3..]);
      TierBytes(tier, d[0], d[1]);
      TwelveBits(length, d[1], d[2]);
    }
    if |d| >= 4 {
      AfterBytes(a + b, d, 4);
    }
  }

  lemma TierBytes(tier: nat, a: byte, b: byte)
    ensures tier < 0x1000 ==> (a == tier / 0x10 % 0x100 && b / 0x10 == tier % 0x10 <==> 0x10 * a + b / 0x10 == tier)
    ensures 0x10 * a + b / 0x10 < 0x1000
  {
  }

  lemma TwelveBits(n: nat, b: byte, c: byte)
    requires n < 0x1000
    ensures b as int % 0x10 == n / 0x100 % 0x10 && c == n % 0x100 <==> Number12(b, c) == n
  {
  }

  lemma BodyTaken(d: bytes)
    requires ParseBody(d).Success?
    ensures |d| >= 4 && ParseBody(d).value.0.0 < 0x1000 && Scan12High(d) == Success(ParseBody(d).value.0.0)
    ensures var length := Number12(d[1], d[2]);
      var r := ParseCommand(d[4..], d[3], length);
      && r.Success? && ParseBody(d).value.0.1 == r.value.0 && ParseBody(d).value.1 == r.value.1
      && (length == 0xFFF || (|d| - 4 - |r.value.1|) % 0x1_0000 == length)
  {
    hide ParseCommand;
    assert d[1..][2..][1..] == d[4..];
  }

  lemma ReadsBody(d: bytes, length: u16)
    requires |d| >= 4 && length == Number12(d[1], d[2]) && ParseCommand(d[4..], d[3], length).Success?
    requires var rest := ParseCommand(d[4..], d[3], length).value.1;
      length == 0xFFF || (length < |d| - 4 && (|d| - 4 - |rest|) % 0x1_0000 == length)
    ensures var (c, rest) := ParseCommand(d[4..], d[3], length).value;
      Scan12High(d).Success? && ParseBody(d) == Success(((Scan12High(d).value, c), rest))
  {
    hide ParseCommand;
    assert d[1..][2..][1..] == d[4..];
  }

  /** Tier and command: the announced length is that of the command, or FFF. */
  lemma BodyExact(tier: u16, c: Command, length: u16, d: bytes)
    requires !c.PrivateCommand? && |d| <= 0x1000 && (length == CommandSize(c) < 0xFFF || length == 0xFFF)
    ensures var p := BodySyntax(tier, length, c);
      tier < 0x1000 && CommandOk(c) && Starts(p, d) && After(p, d) != [] ==>
        ParseBody(d) == Success(((tier, c), After(p, d)))
  {
    hide Number, Starts, After, Scan12High, Number12, ParseCommand, CommandSyntax, CommandOk, ParseBody;
    var p, cs := BodySyntax(tier, length, c), CommandSyntax(c);
    var head := (Number(tier, 12) + Number(length, 12)) + Number(CommandType(c), 8);
    if tier < 0x1000 && CommandOk(c) && Starts(p, d) && After(p, d) != [] {
      StartsConcat(head, cs, d);
      BodyHeadStarts(tier, length, CommandType(c), d);
      CommandExact(c, d[3], length, d[4..]);
      StartsWhole(cs, d[4..]);
      AfterBytes(cs, d[4..], CommandSize(c));
      ReadsBody(d, length);
    }
  }

  lemma BodyExactly(tier: u16, c: Command, d: bytes)
    requires !c.PrivateCommand? && |d| <= 0x1000
    requires ParseBody(d).Success? && ParseBody(d).value.0 == (tier, c)
    ensures tier < 0x1000 && CommandOk(c)
    ensures Starts(BodySyntax(tier, 0xFFF, c), d)
      || (CommandSize(c) < 0xFFF && Starts(BodySyntax(tier, CommandSize(c), c), d))
  {
    hide Number, Starts, After, Scan12High, Number12, ParseCommand, CommandSyntax, CommandOk, ParseBody;
    BodyTaken(d);
    var length, cs := Number12(d[1], d[2]), CommandSyntax(c);
    CommandExact(c, d[3], length, d[4..]);
    StartsWhole(cs, d[4..]);
    AfterBytes(cs, d[4..], CommandSize(c));
    Twelve(d[1], d[2]);
    BodyHeadStarts(tier, length, CommandType(c), d);
    StartsConcat((Number(tier, 12) + Number(length, 12)) + Number(CommandType(c), 8), cs, d);
  }

  lemma Twelve(b: byte, c: byte)
    ensures Number12(b, c) < 0x1000
  {
  }

  // ---------- Whole sections ----------

  /** Values that the parser can deliver. */
  predicate SectionReadable(s: Section) {
    && !s.encryptedPacket && s.encryptionAlgorithm < 0x40 && s.ptsAdjustment < 0x2_0000_0000 && s.tier < 0x1000
    && CommandOk(s.command) && !s.command.PrivateCommand? && DescriptorsReadable(s.descriptors)
  }

  /** The bytes announce their own number, and leave at least the checksum behind the descriptor loop. */
  predicate Carries(sec: bytes, s: Section, commandLength: nat) {
    |sec| >= 3 &&
    var p := SectionSyntax(s, |sec| - 3, commandLength, true);
    Starts(p, sec) && |After(p, sec)| >= 4
  }

  /**
   The bytes are a section with these values: not too long, every bit as prescribed but for reserved
   ones, the command length given or left open as FFF, and the remainder of their division zero.
   */
  predicate Coded(sec: bytes, s: Section) {
    && SectionReadable(s) && |sec| <= 3 + 4093
    && (Carries(sec, s, CommandSize(s.command)) || Carries(sec, s, 0xFFF))
    && CrcDivision.Divide(0xFFFF_FFFF, CrcDivision.Bits(sec)) == 0
  }

  lemma StartStarts(n: nat, d: bytes)
    requires n < 0x1000
    ensures var p := StartSyntax(n);
      && (Starts(p, d) <==>
            |d| >= 3 && d[0] == 0xFC && !Flag(d[1], 0x80) && !Flag(d[1], 0x40) && Number12(d[1], d[2]) == n)
      && (|d| >= 3 ==> After(p, d) == d[3..])
  {
    hide Bit, Number, Starts, After, Flag, Number12;
    StartsConcat(Number(0xFC, 8), Bit(false) + Bit(false) + ReservedBits(2) + Number(n, 12), d);
    StartsNumber8(0xFC, d);
    if d != [] {
      StartsLength(n, d[1..]);
      if |d| >= 3 {
        TwelveBits(n, d[1], d[2]);
        AfterBytes(StartSyntax(n), d, 3);
      }
    }
  }

  /** A section, part by part. */
  lemma CarriesParts(sec: bytes, s: Section, commandLength: nat)
    requires |sec| >= 3
    ensures var h := HeaderSyntax(s.encryptedPacket, s.encryptionAlgorithm, s.ptsAdjustment, s.cwIndex);
      var b, l := BodySyntax(s.tier, commandLength, s.command), LoopSyntax(s.descriptors, true);
      var d1 := sec[3..];
      var d2 := After(h, d1);
      var d3 := After(b, d2);
      Carries(sec, s, commandLength) <==>
        && Starts(StartSyntax(|sec| - 3), sec) && Starts(h, d1) && Starts(b, d2) && Starts(l, d3)
        && |After(l, d3)| >= 4
  {
    hide Starts, After, StartSyntax, HeaderSyntax, BodySyntax, LoopSyntax, Whole;
    var a := StartSyntax(|sec| - 3);
    var h := HeaderSyntax(s.encryptedPacket, s.encryptionAlgorithm, s.ptsAdjustment, s.cwIndex);
    var b, l := BodySyntax(s.tier, commandLength, s.command), LoopSyntax(s.descriptors, true);
    BodyWhole(s.tier, commandLength, s.command);
    WholeParts(a, h, b);
    AfterBytes(a, sec, 3);
    StartsConcat(a + h + b, l, sec);
    StartsConcat(a + h, b, sec);
    StartsConcat(a, h, sec);
  }

  lemma WholeParts(a: seq<Symbol>, h: seq<Symbol>, b: seq<Symbol>)
    requires |a| == 24 && |h| == 56 && Whole(b)
    ensures Whole(a) && Whole(a + h) && Whole(a + h + b)
  {
  }

  lemma BodyWhole(tier: nat, length: nat, c: Command)
    ensures Whole(BodySyntax(tier, length, c)) && |BodySyntax(tier, length, c)| == 32 + 8 * CommandSize(c)
  {
    CommandWhole(c);
    hide CommandSyntax, Number;
  }

  lemma Remainder(d: bytes)
    ensures Crc32.Compute(d) == 0 <==> CrcDivision.Divide(0xFFFF_FFFF, CrcDivision.Bits(d)) == 0
  {
    Crc32.ComputeDivides(d);
  }

  lemma ShortCommand(sec: bytes, s: Section)
    requires Carries(sec, s, CommandSize(s.command)) && |sec| <= 0x1000
    ensures CommandSize(s.command) < 0xFFF
  {
    hide Starts, After, StartSyntax, HeaderSyntax, BodySyntax, LoopSyntax;
    CarriesParts(sec, s, CommandSize(s.command));
    var h := HeaderSyntax(s.encryptedPacket, s.encryptionAlgorithm, s.ptsAdjustment, s.cwIndex);
    var b := BodySyntax(s.tier, CommandSize(s.command), s.command);
    var d2 := After(h, sec[3..]);
    AfterShorter(h, sec[3..]);
    BodyWhole(s.tier, CommandSize(s.command), s.command);
    StartsWhole(b, d2);
  }

  lemma AfterShorter(p: seq<Symbol>, d: bytes)
    ensures |After(p, d)| <= |d|
    ensures Starts(p, d) ==> |d| == |p| / 8 + |After(p, d)|
  {
    if Starts(p, d) {
      StartsWhole(p, d);
    }
    hide Starts;
  }

  /** What pack reads behind the announced length. */
  function ParseRest(d1: bytes): Parsed<Section> {
    var (header, d2) :- ParseHeader(d1);
    var (body, d3) :- ParseBody(d2);
    var (descriptors, d4) :- ParseLoop(d3);
    var (crc, d5) :- Read32(d4);
    Success((Section(false, header.encryptionAlgorithm, header.ptsAdjustment, header.cwIndex, body.0, body.1,
                     descriptors), d5))
  }

  lemma PackIsRest(d: bytes, d1: bytes, length: nat)
    requires ParseUntilLength(d) == Success((length, d1))
    ensures ParseSection(d, ()).Success? <==> ParseRest(d1).Success? && Crc32.Compute(Chopped(d)) == 0
    ensures ParseSection(d, ()).Success? ==> ParseSection(d, ()).value == ParseRest(d1).value.0
    ensures ParseRest(d1).Success? && Crc32.Compute(Chopped(d)) != 0 ==>
      ParseSection(d, ()) == Failure(ChecksumMismatch)
  {
    hide ParseUntilLength, ParseHeader, ParseBody, ParseLoop, Read32, Crc32.Compute, Chopped;
  }

  lemma CarriedRead(sec: bytes, s: Section, commandLength: u16)
    requires NoTime(s.descriptors) && 3 <= |sec| <= 0x1000 && SectionReadable(s) && Carries(sec, s, commandLength)
    requires commandLength == CommandSize(s.command) < 0xFFF || commandLength == 0xFFF
    ensures ParseRest(sec[3..]).Success? && ParseRest(sec[3..]).value.0 == s
  {
    hide Starts, After, StartSyntax, HeaderSyntax, BodySyntax, LoopSyntax, ParseHeader, ParseBody, ParseLoop, Carries,
      CommandOk, DescriptorsReadable, CommandSize;
    CarriesParts(sec, s, commandLength);
    var header := Header(s.encryptionAlgorithm, s.ptsAdjustment, s.cwIndex);
    var h := HeaderSyntax(s.encryptedPacket, s.encryptionAlgorithm, s.ptsAdjustment, s.cwIndex);
    var b, l := BodySyntax(s.tier, commandLength, s.command), LoopSyntax(s.descriptors, true);
    var d1 := sec[3..];
    var d2 := After(h, d1);
    var d3 := After(b, d2);
    AfterShorter(h, d1);
    AfterShorter(b, d2);
    HeaderExact(header, d1);
    BodyExact(s.tier, s.command, commandLength, d2);
    LoopExact(s.descriptors, d3);
    AfterShorter(l, d3);
    ReadFour(After(l, d3));
  }

  lemma ReadCarries(sec: bytes, s: Section)
    requires NoTime(s.descriptors) && 3 <= |sec| <= 0x1000 && Starts(StartSyntax(|sec| - 3), sec)
    requires ParseRest(sec[3..]).Success? && ParseRest(sec[3..]).value.0 == s
    ensures SectionReadable(s) && (Carries(sec, s, CommandSize(s.command)) || Carries(sec, s, 0xFFF))
  {
    hide Starts, After, StartSyntax, HeaderSyntax, BodySyntax, LoopSyntax, ParseHeader, ParseBody, ParseLoop, Carries,
      CommandOk, DescriptorsReadable, CommandSize;
    CarriesParts(sec, s, CommandSize(s.command));
    CarriesParts(sec, s, 0xFFF);
    var header := Header(s.encryptionAlgorithm, s.ptsAdjustment, s.cwIndex);
    var h := HeaderSyntax(false, s.encryptionAlgorithm, s.ptsAdjustment, s.cwIndex);
    var d1 := sec[3..];
    var d2 := ParseHeader(d1).value.1;
    var d3 := ParseBody(d2).value.1;
    HeaderExact(header, d1);
    AfterShorter(h, d1);
    BodyBehind(s, d2);
    LoopExact(s.descriptors, d3);
    ReadFour(ParseLoop(d3).value.1);
  }

  lemma BodyBehind(s: Section, d: bytes)
    requires |d| <= 0x1000 && ParseBody(d).Success? && ParseBody(d).value.0 == (s.tier, s.command)
    ensures s.tier < 0x1000 && CommandOk(s.command) && !s.command.PrivateCommand?
    ensures var n, d3 := CommandSize(s.command), ParseBody(d).value.1;
      |d3| <= |d| &&
      ((Starts(BodySyntax(s.tier, n, s.command), d) && d3 == After(BodySyntax(s.tier, n, s.command), d))
       || (Starts(BodySyntax(s.tier, 0xFFF, s.command), d) && d3 == After(BodySyntax(s.tier, 0xFFF, s.command), d)))
  {
    hide Starts, BodySyntax, ParseBody, CommandOk, CommandSize;
    var n := CommandSize(s.command);
    Scte35Rejection.NoPrivateBody(d);
    BodyExactly(s.tier, s.command, d);
    BodyWhole(s.tier, n, s.command);
    BodyWhole(s.tier, 0xFFF, s.command);
    BodyLeaves(s.command, d);
    AfterShorter(BodySyntax(s.tier, n, s.command), d);
    AfterShorter(BodySyntax(s.tier, 0xFFF, s.command), d);
  }

  /** What is left behind the command. */
  lemma BodyLeaves(c: Command, d: bytes)
    requires !c.PrivateCommand? && ParseBody(d).Success? && ParseBody(d).value.0.1 == c
    ensures 4 + CommandSize(c) <= |d| && ParseBody(d).value.1 == d[4 + CommandSize(c)..]
  {
    hide Starts, After, Scan12High, Number12, ParseCommand, CommandSyntax, CommandOk, ParseBody;
    BodyTaken(d);
    var length, cs := Number12(d[1], d[2]), CommandSyntax(c);
    CommandExact(c, d[3], length, d[4..]);
    StartsWhole(cs, d[4..]);
    AfterBytes(cs, d[4..], CommandSize(c));
  }

  /** Pack delivers a value from bytes that announce their own number just when they are a section with that value. */
  lemma PackExact(sec: bytes, s: Section)
    requires NoTime(s.descriptors) && 3 <= |sec| <= 3 + 4093 && ParseUntilLength(sec) == Success((|sec| - 3, sec[3..]))
    requires Chopped(sec) == sec && Starts(StartSyntax(|sec| - 3), sec)
    ensures ParseSection(sec, ()) == Success(s) <==> Coded(sec, s)
  {
    hide Starts, StartSyntax, ParseUntilLength, ParseSection, ParseRest, Chopped, Carries, SectionReadable, CommandSize,
      Crc32.Compute, CrcDivision.Divide;
    PackIsRest(sec, sec[3..], |sec| - 3);
    Remainder(sec);
    if ParseSection(sec, ()) == Success(s) {
      ReadCarries(sec, s);
    }
    if Coded(sec, s) {
      if Carries(sec, s, 0xFFF) {
        CarriedRead(sec, s, 0xFFF);
      } else {
        ShortCommand(sec, s);
        CarriedRead(sec, s, CommandSize(s.command));
      }
    }
  }

  /** Where a pointer byte 00 ends, if there is one. */
  function PointerSize(d: bytes): nat {
    if d != [] && d[0] == 0 then 1 else 0
  }

  /** The bytes from behind a pointer byte, if there is one, up to position k are a section with these values. */
  predicate SectionAt(d: bytes, s: Section, k: nat) {
    PointerSize(d) <= k <= |d| && Coded(d[PointerSize(d)..k], s)
  }

  lemma CodedStart(sec: bytes, s: Section)
    requires Coded(sec, s)
    ensures |sec| >= 20 && Starts(StartSyntax(|sec| - 3), sec)
  {
    hide Starts, After, StartSyntax, HeaderSyntax, BodySyntax, LoopSyntax, SectionReadable, CrcDivision.Divide;
    var n := if Carries(sec, s, 0xFFF) then 0xFFF else CommandSize(s.command);
    assert Carries(sec, s, n);
    CarriesParts(sec, s, n);
    hide Carries, CommandSize;
    var h := HeaderSyntax(s.encryptedPacket, s.encryptionAlgorithm, s.ptsAdjustment, s.cwIndex);
    var b, l := BodySyntax(s.tier, n, s.command), LoopSyntax(s.descriptors, true);
    var d1 := sec[3..];
    var d2 := After(h, d1);
    AfterShorter(h, d1);
    AfterShorter(b, d2);
    AfterShorter(l, After(b, d2));
    BodyWhole(s.tier, n, s.command);
    LoopSize(s.descriptors);
  }

  lemma LoopSize(ds: seq<Descriptor>)
    ensures |LoopSyntax(ds, true)| >= 16
  {
  }

  /** Where next() finds a section: a start as the syntax prescribes it, and the announced number of bytes. */
  lemma FoundAt(d: bytes, n: nat)
    requires n < 0x1000
    ensures var p := PointerSize(d);
      NextSection(d) == Success(Some(Bounds(p, 3 + n, ()))) <==>
        |d| >= 20 && 17 - p <= n <= 4093 && p + 3 + n <= |d| && Starts(StartSyntax(n), d[p..])
  {
    hide Starts, StartSyntax, Flag, Number12;
    StartStarts(n, d[PointerSize(d)..]);
  }

  lemma FoundStart(d: bytes)
    requires NextSection(d).Success? && NextSection(d).value.Some?
    ensures var b := NextSection(d).value.value;
      b == Bounds(PointerSize(d), b.length, ()) && 3 <= b.length <= 3 + 4093
  {
    hide Flag, Number12;
  }

  lemma StartAgain(n: nat, sec: bytes)
    requires |sec| == 3 + n && n <= 4093 && Starts(StartSyntax(n), sec)
    ensures Chopped(sec) == sec
    ensures n >= 17 ==> ParseUntilLength(sec) == Success((n, sec[3..]))
    ensures n < 17 ==> ParseSection(sec, ()).Failure?
  {
    hide Starts, StartSyntax, Flag, Number12;
    StartStarts(n, sec);
  }

  lemma StartWithin(n: nat, d: bytes)
    requires 3 + n <= |d|
    ensures Starts(StartSyntax(n), d) <==> Starts(StartSyntax(n), d[..3 + n])
  {
    hide Starts, StartSyntax;
    var p, a := StartSyntax(n), d[..3];
    assert d == a + d[3..] && d[..3 + n] == a + d[3..3 + n];
    FitsBefore(p, a, d[3..]);
    FitsBefore(p, a, d[3..3 + n]);
  }

  /**
   For all bytes, every section without time descriptors and every position: next() delivers that section
   and moves to that position if and only if the bytes up to there are, behind an optional pointer byte,
   a section with exactly those values in the bit syntax of the standard, whatever its reserved bits.
   */
  lemma NextExact(d: bytes, s: Section, k: nat)
    requires NoTime(s.descriptors)
    ensures Next(NextSection, ParseSection, d) == (Success(Some(s)), k) <==> SectionAt(d, s, k)
  {
    hide Starts, StartSyntax, NextSection, ParseSection, ParseUntilLength, Coded, PointerSize;
    var p := PointerSize(d);
    PointerIn(d);
    if SectionAt(d, s, k) {
      var sec := d[p..k];
      var n := |sec| - 3;
      CodedStart(sec, s);
      CodedSize(sec, s);
      assert d[p..][..3 + n] == sec;
      StartWithin(n, d[p..]);
      FoundAt(d, n);
      StartAgain(n, sec);
      PackExact(sec, s);
    } else if Next(NextSection, ParseSection, d) == (Success(Some(s)), k) {
      FoundStart(d);
      var n := NextSection(d).value.value.length - 3;
      FoundAt(d, n);
      var sec := d[p..k];
      assert d[p..][..3 + n] == sec;
      StartWithin(n, d[p..]);
      StartAgain(n, sec);
      PackExact(sec, s);
    }
  }

  lemma PointerIn(d: bytes)
    ensures PointerSize(d) <= |d|
  {
  }

  lemma CodedSize(sec: bytes, s: Section)
    requires Coded(sec, s)
    ensures |sec| <= 3 + 4093
  {
    hide Carries, SectionReadable;
  }
}
