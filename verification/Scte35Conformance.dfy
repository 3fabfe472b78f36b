/**
 What the emitter writes: for every value, its bytes have the bit syntax of the standard, and for whole
 sections exactly when that is so, since lengths are computed ahead and two of them share a byte with
 the tier.
 */
module Scte35Conformance {
  import opened Wrappers
  import opened Words
  import opened Wire
  import opened Scte35
  import opened Scte35Syntax
  import opened Scte35Fields
  import E = Scte35Emitter
  import Crc32
  import CrcDivision

  // ---------- Commands ----------

  lemma FirstBits(prefix: byte, v: nat)
    ensures var b := FirstOf33(prefix, v);
      Flag(b, 0x80) == (prefix >= 0x80) && b as int % 2 == v / 0x1_0000_0000 % 2
  {
    FirstByte33(prefix, v / 0x1_0000_0000 % 2);
    TopFlag(FirstOf33(prefix, v), prefix);
  }

  lemma TopFlag(b: byte, prefix: byte)
    requires b / 2 == prefix / 2
    ensures Flag(b, 0x80) == (prefix >= 0x80)
  {
  }

  lemma Flag33Fits(prefix: byte, v: nat)
    ensures Fits(Bit(prefix >= 0x80) + ReservedBits(6) + Number(v, 33), Write33Prefix(prefix, v))
  {
    hide Starts, Number, Flag, Write32, FirstOf33;
    FirstBits(prefix, v);
    StartsFlag33(prefix >= 0x80, v, Write33Prefix(prefix, v));
  }

  lemma FlagFits(b: bool)
    ensures Fits(Bit(b) + ReservedBits(7), Write8(if b then 0xFF else 0x7F))
  {
    hide Starts;
    StartsFlag(b, Write8(if b then 0xFF else 0x7F));
  }

  lemma TimeFits(t: SpliceTime)
    ensures Fits(SpliceTimeSyntax(t), E.SpliceTimeBytes(t))
  {
    hide Fits, Number, Write33Prefix, Write8, ReservedBits;
    match t.ptsTime
    case Some(v) => Flag33Fits(0xFF, v);
    case None => FlagFits(false);
  }

  lemma NothingFits()
    ensures Fits([], [])
  {
  }

  lemma OptionalTimeFits(t: Option<SpliceTime>)
    ensures Fits(OptionalTimeSyntax(t), E.OptionalTimeBytes(t))
  {
    hide Fits, SpliceTimeSyntax, E.SpliceTimeBytes;
    NothingFits();
    if t.Some? {
      TimeFits(t.value);
    }
  }

  lemma BreakFits(b: Option<BreakDuration>)
    ensures Fits(BreakDurationSyntax(b), E.BreakDurationBytes(b))
  {
    hide Fits, Number, Write33Prefix, ReservedBits;
    NothingFits();
    if b.Some? {
      Flag33Fits(E.Bit(b.value.autoReturn, 0x80), b.value.duration);
    }
  }

  lemma FitsThree(p: seq<Symbol>, q: seq<Symbol>, r: seq<Symbol>, a: bytes, b: bytes, c: bytes)
    requires Fits(p, a) && Fits(q, b) && Fits(r, c)
    ensures Fits(p + q, a + b) && Fits(p + q + r, a + b + c)
  {
    hide Starts;
    FitsConcat(p, q, a, b);
    FitsConcat(p + q, r, a + b, c);
  }

  lemma ProgramFits(id: u16, num: byte, expected: byte)
    ensures Fits(ProgramSyntax(id, num, expected), E.ProgramBytes(id, num, expected))
  {
    Fits16(id);
    Fits8(num);
    Fits8(expected);
    hide Fits, Number, Write16, Write8;
    FitsThree(Number(id, 16), Number(num, 8), Number(expected, 8), Write16(id), Write8(num), Write8(expected));
  }

  lemma ScheduleComponentsSnoc(cs: seq<ScheduleComponent>, c: ScheduleComponent)
    ensures E.ScheduleComponentsBytes(cs + [c]) ==
      E.ScheduleComponentsBytes(cs) + Write8(c.tag) + Write32(c.utcSpliceTime)
  {
    assert (cs + [c])[..|cs|] == cs;
  }

  lemma ScheduleComponentsNone()
    ensures E.ScheduleComponentsBytes([]) == []
  {
  }

  lemma {:induction false} ScheduleComponentsCons(c: ScheduleComponent, cs: seq<ScheduleComponent>)
    ensures E.ScheduleComponentsBytes([c] + cs) ==
      Write8(c.tag) + Write32(c.utcSpliceTime) + E.ScheduleComponentsBytes(cs)
    decreases |cs|
  {
    hide Write8, Write32, E.ScheduleComponentsBytes;
    var a, b := Write8(c.tag), Write32(c.utcSpliceTime);
    if cs == [] {
      ScheduleComponentsNone();
      ScheduleComponentsSnoc([], c);
      assert [c] + cs == [] + [c];
    } else {
      var front, last := cs[..|cs| - 1], cs[|cs| - 1];
      assert cs == front + [last] && [c] + cs == ([c] + front) + [last];
      ScheduleComponentsCons(c, front);
      ScheduleComponentsSnoc(front, last);
      ScheduleComponentsSnoc([c] + front, last);
      Right3(a + b, E.ScheduleComponentsBytes(front), Write8(last.tag), Write32(last.utcSpliceTime));
      Right2(E.ScheduleComponentsBytes(front), Write8(last.tag), Write32(last.utcSpliceTime));
    }
  }

  lemma {:induction false} ScheduleComponentsFit(cs: seq<ScheduleComponent>)
    ensures Fits(ScheduleComponentsSyntax(cs), E.ScheduleComponentsBytes(cs))
    decreases |cs|
  {
    hide Fits, Number, Write8, Write32, E.ScheduleComponentsBytes;
    if cs == [] {
      NothingFits();
      ScheduleComponentsNone();
    } else {
      ScheduleComponentsFit(cs[1..]);
      ScheduleComponentsCons(cs[0], cs[1..]);
      assert cs == [cs[0]] + cs[1..];
      Fits8(cs[0].tag);
      Fits32(cs[0].utcSpliceTime);
      FitsThree(Number(cs[0].tag, 8), Number(cs[0].utcSpliceTime, 32), ScheduleComponentsSyntax(cs[1..]),
                Write8(cs[0].tag), Write32(cs[0].utcSpliceTime), E.ScheduleComponentsBytes(cs[1..]));
    }
  }

  lemma FitsTwo(p: seq<Symbol>, q: seq<Symbol>, a: bytes, b: bytes)
    requires Fits(p, a) && Fits(q, b)
    ensures Fits(p + q, a + b)
  {
    hide Starts;
    FitsConcat(p, q, a, b);
  }

  lemma ProgramSpliceFits(p: ProgramSplice)
    ensures Fits(ProgramSpliceSyntax(p), E.ProgramSpliceBytes(p))
  {
    hide Fits, Number, Write8, Write32, ScheduleComponentsSyntax, E.ScheduleComponentsBytes;
    match p
    case ProgramSpliceOn(t) => Fits32(t);
    case ProgramSpliceOff(cs) =>
      Fits8(|cs|);
      ScheduleComponentsFit(cs);
      FitsTwo(Number(|cs|, 8), ScheduleComponentsSyntax(cs), Write8(|cs|), E.ScheduleComponentsBytes(cs));
  }

  lemma ScheduleFlagsFit(d: ScheduleDetails)
    ensures Fits(ScheduleFlagsSyntax(d), Write8(E.ScheduleFlags(d)))
  {
    hide Starts;
    StartsFlags(d.outOfNetwork, d.splice.ProgramSpliceOn?, d.breakDuration.Some?, Write8(E.ScheduleFlags(d)));
  }

  lemma ScheduleDetailsFit(d: ScheduleDetails)
    ensures Fits(ScheduleDetailsSyntax(d), E.ScheduleDetailsBytes(d))
  {
    hide Fits, ScheduleFlagsSyntax, ProgramSpliceSyntax, BreakDurationSyntax, ProgramSyntax, Write8, E.ScheduleFlags,
      E.ProgramSpliceBytes, E.BreakDurationBytes, E.ProgramBytes;
    ScheduleFlagsFit(d);
    ProgramSpliceFits(d.splice);
    BreakFits(d.breakDuration);
    ProgramFits(d.uniqueProgramId, d.availNum, d.availsExpected);
    var a, b, c := Write8(E.ScheduleFlags(d)), E.ProgramSpliceBytes(d.splice), E.BreakDurationBytes(d.breakDuration);
    var p, q, r := ScheduleFlagsSyntax(d), ProgramSpliceSyntax(d.splice), BreakDurationSyntax(d.breakDuration);
    FitsThree(p, q, r, a, b, c);
    FitsTwo(p + q + r, ProgramSyntax(d.uniqueProgramId, d.availNum, d.availsExpected), a + b + c,
            E.ProgramBytes(d.uniqueProgramId, d.availNum, d.availsExpected));
  }

  lemma EventHeadFits(id: u32, cancelled: bool)
    ensures Fits(EventHeadSyntax(id, cancelled), Write32(id) + Write8(if cancelled then 0xFF else 0x7F))
  {
    hide Fits, Number, Write8, Write32, ReservedBits;
    Fits32(id);
    FlagFits(cancelled);
    FitsTwo(Number(id, 32), Bit(cancelled) + ReservedBits(7), Write32(id), Write8(if cancelled then 0xFF else 0x7F));
  }

  lemma ScheduleEventFits(e: ScheduleEvent)
    ensures Fits(ScheduleEventSyntax(e), E.ScheduleEventBytes(e))
  {
    hide Fits, EventHeadSyntax, ScheduleDetailsSyntax, E.ScheduleDetailsBytes, Write8, Write32;
    EventHeadFits(e.id, e.details.None?);
    if e.details.Some? {
      var rest := E.ScheduleDetailsBytes(e.details.value);
      ScheduleDetailsFit(e.details.value);
      FitsTwo(EventHeadSyntax(e.id, false), ScheduleDetailsSyntax(e.details.value), Write32(e.id) + Write8(0x7F), rest);
      Right2(Write32(e.id), Write8(0x7F), rest);
    } else {
      assert EventHeadSyntax(e.id, true) + [] == EventHeadSyntax(e.id, true);
    }
  }

  lemma EventsSnoc(es: seq<ScheduleEvent>, e: ScheduleEvent)
    ensures E.ScheduleEventsBytes(es + [e]) == E.ScheduleEventsBytes(es) + E.ScheduleEventBytes(e)
  {
    assert (es + [e])[..|es|] == es;
  }

  lemma EventsNone()
    ensures E.ScheduleEventsBytes([]) == []
  {
  }

  lemma {:induction false} EventsCons(e: ScheduleEvent, es: seq<ScheduleEvent>)
    ensures E.ScheduleEventsBytes([e] + es) == E.ScheduleEventBytes(e) + E.ScheduleEventsBytes(es)
    decreases |es|
  {
    hide E.ScheduleEventBytes, E.ScheduleEventsBytes;
    if es == [] {
      EventsNone();
      EventsSnoc([], e);
      assert [e] + es == [] + [e];
    } else {
      var front, last := es[..|es| - 1], es[|es| - 1];
      assert es == front + [last] && [e] + es == ([e] + front) + [last];
      EventsCons(e, front);
      EventsSnoc(front, last);
      EventsSnoc([e] + front, last);
      Right2(E.ScheduleEventBytes(e), E.ScheduleEventsBytes(front), E.ScheduleEventBytes(last));
    }
  }

  lemma {:induction false} ScheduleEventsFit(es: seq<ScheduleEvent>)
    ensures Fits(ScheduleEventsSyntax(es), E.ScheduleEventsBytes(es))
    decreases |es|
  {
    hide Fits, ScheduleEventSyntax, E.ScheduleEventBytes, E.ScheduleEventsBytes;
    if es == [] {
      NothingFits();
      EventsNone();
    } else {
      ScheduleEventsFit(es[1..]);
      EventsCons(es[0], es[1..]);
      assert es == [es[0]] + es[1..];
      ScheduleEventFits(es[0]);
      FitsTwo(ScheduleEventSyntax(es[0]), ScheduleEventsSyntax(es[1..]), E.ScheduleEventBytes(es[0]),
              E.ScheduleEventsBytes(es[1..]));
    }
  }

  lemma InsertComponentsSnoc(cs: seq<InsertComponent>, c: InsertComponent)
    ensures E.InsertComponentsBytes(cs + [c]) ==
      E.InsertComponentsBytes(cs) + Write8(c.tag) + E.OptionalTimeBytes(c.spliceTime)
  {
    assert (cs + [c])[..|cs|] == cs;
  }

  lemma InsertComponentsNone()
    ensures E.InsertComponentsBytes([]) == []
  {
  }

  lemma {:induction false} InsertComponentsCons(c: InsertComponent, cs: seq<InsertComponent>)
    ensures E.InsertComponentsBytes([c] + cs) ==
      Write8(c.tag) + E.OptionalTimeBytes(c.spliceTime) + E.InsertComponentsBytes(cs)
    decreases |cs|
  {
    hide Write8, E.OptionalTimeBytes, E.InsertComponentsBytes;
    var a, b := Write8(c.tag), E.OptionalTimeBytes(c.spliceTime);
    if cs == [] {
      InsertComponentsNone();
      InsertComponentsSnoc([], c);
      assert [c] + cs == [] + [c];
    } else {
      var front, last := cs[..|cs| - 1], cs[|cs| - 1];
      assert cs == front + [last] && [c] + cs == ([c] + front) + [last];
      InsertComponentsCons(c, front);
      InsertComponentsSnoc(front, last);
      InsertComponentsSnoc([c] + front, last);
      Right3(a + b, E.InsertComponentsBytes(front), Write8(last.tag), E.OptionalTimeBytes(last.spliceTime));
      Right2(E.InsertComponentsBytes(front), Write8(last.tag), E.OptionalTimeBytes(last.spliceTime));
    }
  }

  lemma {:induction false} InsertComponentsFit(cs: seq<InsertComponent>)
    ensures Fits(InsertComponentsSyntax(cs), E.InsertComponentsBytes(cs))
    decreases |cs|
  {
    hide Fits, Number, Write8, OptionalTimeSyntax, E.OptionalTimeBytes, E.InsertComponentsBytes;
    if cs == [] {
      NothingFits();
      InsertComponentsNone();
    } else {
      var a, b := Write8(cs[0].tag), E.OptionalTimeBytes(cs[0].spliceTime);
      InsertComponentsFit(cs[1..]);
      InsertComponentsCons(cs[0], cs[1..]);
      assert cs == [cs[0]] + cs[1..];
      Fits8(cs[0].tag);
      OptionalTimeFits(cs[0].spliceTime);
      FitsThree(Number(cs[0].tag, 8), OptionalTimeSyntax(cs[0].spliceTime), InsertComponentsSyntax(cs[1..]), a, b,
                E.InsertComponentsBytes(cs[1..]));
    }
  }

  lemma OptionalComponentsFit(cs: Option<seq<InsertComponent>>)
    ensures Fits(OptionalComponentsSyntax(cs), E.OptionalComponentsBytes(cs))
  {
    hide Fits, Number, Write8, InsertComponentsSyntax, E.InsertComponentsBytes;
    NothingFits();
    if cs.Some? {
      var n := |cs.value|;
      Fits8(n);
      InsertComponentsFit(cs.value);
      FitsTwo(Number(n, 8), InsertComponentsSyntax(cs.value), Write8(n), E.InsertComponentsBytes(cs.value));
    }
  }

  lemma InsertFlagsFit(d: InsertDetails)
    ensures Fits(InsertFlagsSyntax(d), Write8(E.InsertFlags(d)))
  {
    InsertFlagBits(d);
    hide Starts, Flag, E.InsertFlags, ReservedBits, Bit;
    StartsFourFlags(d.outOfNetwork, d.programSplice, d.breakDuration.Some?, d.spliceImmediate,
                    Write8(E.InsertFlags(d)));
  }

  lemma InsertFlagBits(d: InsertDetails)
    ensures var f := E.InsertFlags(d);
      && Write8(f) == [f] && Flag(f, 0x80) == d.outOfNetwork && Flag(f, 0x40) == d.programSplice
      && Flag(f, 0x20) == d.breakDuration.Some? && Flag(f, 0x10) == d.spliceImmediate
  {
  }

  lemma InsertDetailsFit(d: InsertDetails)
    ensures Fits(InsertDetailsSyntax(d), E.InsertDetailsBytes(d))
  {
    hide Fits, InsertFlagsSyntax, OptionalTimeSyntax, OptionalComponentsSyntax, BreakDurationSyntax, ProgramSyntax,
      Write8, E.InsertFlags, E.OptionalTimeBytes, E.OptionalComponentsBytes, E.BreakDurationBytes, E.ProgramBytes;
    InsertFlagsFit(d);
    OptionalTimeFits(d.spliceTime);
    OptionalComponentsFit(d.components);
    BreakFits(d.breakDuration);
    ProgramFits(d.uniqueProgramId, d.availNum, d.availsExpected);
    var p, q, r := InsertFlagsSyntax(d), OptionalTimeSyntax(d.spliceTime), OptionalComponentsSyntax(d.components);
    var a, b, c := Write8(E.InsertFlags(d)), E.OptionalTimeBytes(d.spliceTime), E.OptionalComponentsBytes(d.components);
    FitsThree(p, q, r, a, b, c);
    FitsThree(p + q + r, BreakDurationSyntax(d.breakDuration),
              ProgramSyntax(d.uniqueProgramId, d.availNum, d.availsExpected), a + b + c,
              E.BreakDurationBytes(d.breakDuration), E.ProgramBytes(d.uniqueProgramId, d.availNum, d.availsExpected));
  }

  lemma BytesFit(data: bytes)
    ensures Fits(BytesSyntax(data), data)
  {
    hide Starts;
    StartsBytes(data, data);
    assert data[..|data|] == data;
  }

  /** Every command, private ones included, is written in its syntax. */
  lemma CommandFits(c: Command)
    ensures Fits(CommandSyntax(c), E.CommandBytes(c))
  {
    hide Fits, Number, Write8, Write32, ScheduleEventsSyntax, E.ScheduleEventsBytes, InsertDetailsSyntax,
      E.InsertDetailsBytes, EventHeadSyntax, SpliceTimeSyntax, E.SpliceTimeBytes, BytesSyntax;
    NothingFits();
    match c
    case SpliceNull =>
    case SpliceSchedule(events) =>
      Fits8(|events|);
      ScheduleEventsFit(events);
      FitsTwo(Number(|events|, 8), ScheduleEventsSyntax(events), Write8(|events|), E.ScheduleEventsBytes(events));
    case SpliceInsert(id, details) =>
      EventHeadFits(id, details.None?);
      if details.Some? {
        InsertDetailsFit(details.value);
        var rest := E.InsertDetailsBytes(details.value);
        FitsTwo(EventHeadSyntax(id, false), InsertDetailsSyntax(details.value), Write32(id) + Write8(0x7F), rest);
        Right2(Write32(id), Write8(0x7F), rest);
      } else {
        assert EventHeadSyntax(id, true) + [] == EventHeadSyntax(id, true);
      }
    case TimeSignal(t) => TimeFits(t);
    case BandwidthReservation =>
    case PrivateCommand(identifier, data) =>
      Fits32(identifier);
      BytesFit(data);
      FitsTwo(Number(identifier, 32), BytesSyntax(data), Write32(identifier), data);
  }

  /** Its size is the announced one and what the hint forgets. */
  lemma CommandSizeIs(c: Command)
    ensures CommandSize(c) == |E.CommandBytes(c)| == E.CommandHint(c) + E.ForgottenIn(c)
  {
    hide Starts, CommandSyntax, E.CommandBytes;
    CommandFits(c);
    E.CommandLength(c);
  }

  // ---------- Descriptors ----------

  lemma HeadFits(tag: byte, length: nat)
    ensures Fits(HeadSyntax(tag, length), E.DescriptorHead(tag, length))
  {
    hide Fits, Number, Write8, Write32;
    Fits8(tag);
    Fits8(length);
    Fits32(0x4355_4549);
    FitsThree(Number(tag, 8), Number(length, 8), Number(0x4355_4549, 32), Write8(tag), Write8(length),
              Write32(0x4355_4549));
  }

  lemma CountFits(n: nat)
    ensures Fits(Number(n, 3) + ReservedBits(5), Write8(0x20 * n))
  {
    hide Starts, Number;
    StartsCount(n, Write8(0x20 * n));
    CountRead(n);
  }

  /** The count that is read back from the three bits left for it. */
  lemma CountRead(n: nat)
    ensures 0x20 * n % 0x100 / 0x20 == n % 8
  {
    var q, r := n / 8, n % 8;
    assert 0x20 * n == 0x100 * q + 0x20 * r;
    ByteRemainder(q, 0x20 * r);
  }

  /** Every descriptor, those included that the parser never takes back. */
  lemma DescriptorFits(d: Descriptor)
    ensures Fits(DescriptorSyntax(d, ContentLength(d)), E.DescriptorBytes(d))
  {
    hide Fits, Number, Write8, Write16, Write32, Write48, BytesSyntax, HeadSyntax, E.DescriptorHead, ReservedBits;
    HeadFits(DescriptorTag(d), ContentLength(d));
    var head := E.DescriptorHead(DescriptorTag(d), ContentLength(d));
    match d
    case AvailDescriptor(id) =>
      Fits32(id);
      FitsTwo(HeadSyntax(0x00, 8), Number(id, 32), head, Write32(id));
    case DtmfDescriptor(preroll, chars) =>
      var n := |chars|;
      Fits8(preroll);
      CountFits(n);
      BytesFit(chars);
      FitsThree(Number(preroll, 8), Number(n, 3) + ReservedBits(5), BytesSyntax(chars), Write8(preroll),
                Write8(0x20 * n), chars);
      FitsTwo(HeadSyntax(0x01, 6 + n), DescriptorContent(d), head, Write8(preroll) + Write8(0x20 * n) + chars);
      Right3(head, Write8(preroll), Write8(0x20 * n), chars);
    case SegmentationDescriptor(data) =>
      BytesFit(data);
      FitsTwo(HeadSyntax(0x02, 4 + |data|), BytesSyntax(data), head, data);
    case TimeDescriptor(seconds, nanoseconds, offset) =>
      var a, b, c := Write48(seconds), Write32(nanoseconds), Write16(offset);
      Fits48(seconds);
      Fits32(nanoseconds);
      Fits16(offset);
      FitsThree(Number(seconds, 48), Number(nanoseconds, 32), Number(offset, 16), a, b, c);
      FitsTwo(HeadSyntax(0x03, 16), DescriptorContent(d), head, a + b + c);
      Right3(head, a, b, c);
  }

  lemma DescriptorsSnoc(ds: seq<Descriptor>, d: Descriptor)
    ensures E.DescriptorsBytes(ds + [d]) == E.DescriptorsBytes(ds) + E.DescriptorBytes(d)
  {
    assert (ds + [d])[..|ds|] == ds;
  }

  lemma DescriptorsNone()
    ensures E.DescriptorsBytes([]) == []
  {
  }

  lemma {:induction false} DescriptorsCons(d: Descriptor, ds: seq<Descriptor>)
    ensures E.DescriptorsBytes([d] + ds) == E.DescriptorBytes(d) + E.DescriptorsBytes(ds)
    decreases |ds|
  {
    hide E.DescriptorBytes, E.DescriptorsBytes;
    if ds == [] {
      DescriptorsNone();
      DescriptorsSnoc([], d);
      assert [d] + ds == [] + [d];
    } else {
      var front, last := ds[..|ds| - 1], ds[|ds| - 1];
      assert ds == front + [last] && [d] + ds == ([d] + front) + [last];
      DescriptorsCons(d, front);
      DescriptorsSnoc(front, last);
      DescriptorsSnoc([d] + front, last);
      Right2(E.DescriptorBytes(d), E.DescriptorsBytes(front), E.DescriptorBytes(last));
    }
  }

  lemma {:induction false} DescriptorsFit(ds: seq<Descriptor>)
    ensures Fits(DescriptorsSyntax(ds, false), E.DescriptorsBytes(ds))
    decreases |ds|
  {
    hide Fits, DescriptorSyntax, E.DescriptorBytes, E.DescriptorsBytes, ContentLength;
    if ds == [] {
      NothingFits();
      DescriptorsNone();
    } else {
      DescriptorsFit(ds[1..]);
      DescriptorsCons(ds[0], ds[1..]);
      assert ds == [ds[0]] + ds[1..];
      DescriptorFits(ds[0]);
      FitsTwo(DescriptorSyntax(ds[0], ContentLength(ds[0])), DescriptorsSyntax(ds[1..], false),
              E.DescriptorBytes(ds[0]), E.DescriptorsBytes(ds[1..]));
    }
  }

  // ---------- Sections ----------

  lemma LoopFits(s: Section)
    ensures Fits(LoopSyntax(s.descriptors, false), E.LoopBytes(s))
  {
    hide Starts, Number, Write16, DescriptorsSyntax, E.DescriptorsBytes;
    var p, n := DescriptorsSyntax(s.descriptors, false), E.DescriptorsHint(s.descriptors);
    DescriptorsFit(s.descriptors);
    E.DescriptorsLength(s.descriptors);
    Fits16(n);
    FitsTwo(Number(n, 16), p, Write16(n), E.DescriptorsBytes(s.descriptors));
  }

  lemma KeysFit(e: bool, algorithm: byte, v: nat)
    ensures Fits(Bit(e) + Number(algorithm, 6) + Number(v, 33),
      Write33Prefix(E.Bit(e, 0x80) + 2 * (algorithm % 0x40), v))
  {
    hide Starts, Number, Write32;
    var low: byte := algorithm % 0x40;
    var w := Write33Prefix(E.Bit(e, 0x80) + 2 * low, v);
    SixLowest(algorithm);
    StartsKeys(e, low, v, w);
    KeyByte(e, low, v / 0x1_0000_0000 % 2);
  }

  lemma KeyByte(e: bool, algorithm: byte, high: nat)
    requires algorithm < 0x40 && high < 2
    ensures var prefix: byte := E.Bit(e, 0x80) + 2 * algorithm;
      var b := prefix / 2 * 2 + high;
      b < 0x100 && Flag(b, 0x80) == e && b / 2 % 0x40 == algorithm && b % 2 == high
  {
  }

  lemma HeaderFits(s: Section)
    ensures Fits(HeaderSyntax(s.encryptedPacket, s.encryptionAlgorithm, s.ptsAdjustment, s.cwIndex), E.HeaderBytes(s))
  {
    hide Fits, Number, Write8, Write33Prefix;
    var e, algorithm := s.encryptedPacket, s.encryptionAlgorithm;
    Fits8(0);
    KeysFit(e, algorithm, s.ptsAdjustment);
    Fits8(s.cwIndex);
    FitsThree(Number(0, 8), Bit(e) + Number(algorithm, 6) + Number(s.ptsAdjustment, 33), Number(s.cwIndex, 8),
              Write8(0), Write33Prefix(E.Bit(e, 0x80) + 2 * (algorithm % 0x40), s.ptsAdjustment), Write8(s.cwIndex));
  }

  /** The pair is right exactly when the length has no more than eight bits and the tier has those it meets. */
  lemma PairFits(tier: nat, n: nat)
    requires n < 0x1000
    ensures Fits(Number(tier, 12) + Number(n, 12), Write12Pair(tier, n)) <==>
      n < 0x100 && Covers(tier % 0x10, n / 0x10 % 0x10)
  {
    hide Starts, Number, NibbleOr, Covers;
    StartsPair(tier, n, Write12Pair(tier, n));
    CoversIsOr(tier % 0x10, n / 0x10 % 0x10);
    MiddleByte(NibbleOr(tier % 0x10, n / 0x10 % 0x10));
    assert n / 0x100 % 0x10 == 0 <==> n < 0x100;
  }

  lemma BodyFits(s: Section)
    requires E.ForgottenIn(s.command) == 0 && E.CommandHint(s.command) < 0x1000
    ensures var n := E.CommandHint(s.command);
      Fits(BodySyntax(s.tier, n, s.command), E.BodyBytes(s)) <==>
        n < 0x100 && Covers(s.tier as int % 0x10, n / 0x10 % 0x10)
  {
    hide Starts, Number, Write8, Write12Pair, Covers, CommandSyntax, E.CommandBytes, E.CommandHint, E.ForgottenIn;
    var n := E.CommandHint(s.command);
    PairFits(s.tier, n);
    Fits8(CommandType(s.command));
    CommandFits(s.command);
    var p, q, r := Number(s.tier, 12) + Number(n, 12), Number(CommandType(s.command), 8), CommandSyntax(s.command);
    var a, b, c := Write12Pair(s.tier, n), Write8(CommandType(s.command)), E.CommandBytes(s.command);
    PairSize(s.tier, n);
    FitsConcat(p, q, a, b);
    FitsConcat(p + q, r, a + b, c);
  }

  lemma PairSize(tier: nat, n: nat)
    ensures |Write12Pair(tier, n)| == 3
  {
  }

  /** The announced length is right exactly when nothing is forgotten. */
  lemma StartFits(s: Section, n: nat)
    requires n < 0x1000 && E.SectionLength(s) < 0x1000
    ensures Fits(StartSyntax(n), E.LengthBytes(s)) <==> n == E.SectionLength(s)
  {
    hide Starts, Number, Bit, ReservedBits, Flag, E.SectionLength;
    var m := E.SectionLength(s);
    var w := Write12Prefix(0x3, m);
    StartsLength(n, w);
    Fits8(0xFC);
    var p, q := Number(0xFC, 8), Bit(false) + Bit(false) + ReservedBits(2) + Number(n, 12);
    FitsConcat(p, q, Write8(0xFC), w);
    LengthBits(m);
    SameTwelve(n, m);
  }

  lemma LengthBits(m: nat)
    requires m < 0x1000
    ensures var b := 0x30 + m / 0x100 % 0x10;
      !Flag(b, 0x80) && !Flag(b, 0x40) && b % 0x10 == m / 0x100 % 0x10
  {
  }

  lemma SameTwelve(n: nat, m: nat)
    requires n < 0x1000 && m < 0x1000
    ensures n / 0x100 % 0x10 == m / 0x100 % 0x10 && n % 0x100 == m % 0x100 <==> n == m
  {
  }

  /**
   The bytes are the section as the standard prescribes it: values in range, not too long, section_length and
   splice_command_length the numbers of bytes that they count, every bit as it has to be but for reserved
   ones, the checksum right behind the descriptor loop and the remainder of the division zero.
   */
  predicate Conforms(sec: bytes, s: Section) {
    && SectionInRange(s) && 3 <= |sec| <= 3 + 4093
    && (var p := SectionSyntax(s, |sec| - 3, CommandSize(s.command), false);
        Starts(p, sec) && |After(p, sec)| == 4)
    && CrcDivision.Divide(0xFFFF_FFFF, CrcDivision.Bits(sec)) == 0
  }

  lemma PartsFit(s: Section, n: nat)
    ensures |SectionSyntax(s, n, CommandSize(s.command), false)| == 8 * |E.Unchecked(s)|
    ensures Fits(SectionSyntax(s, n, CommandSize(s.command), false), E.Unchecked(s)) <==>
      && Fits(StartSyntax(n), E.LengthBytes(s))
      && Fits(BodySyntax(s.tier, CommandSize(s.command), s.command), E.BodyBytes(s))
  {
    HeaderFits(s);
    LoopFits(s);
    BodySizes(s);
    assert |E.LengthBytes(s)| == 3;
    hide Starts, StartSyntax, HeaderSyntax, BodySyntax, LoopSyntax, CommandSize, E.LengthBytes, E.HeaderBytes,
      E.BodyBytes, E.LoopBytes;
    var p, h := StartSyntax(n), HeaderSyntax(s.encryptedPacket, s.encryptionAlgorithm, s.ptsAdjustment, s.cwIndex);
    var b, l := BodySyntax(s.tier, CommandSize(s.command), s.command), LoopSyntax(s.descriptors, false);
    FitsConcat(p + h + b, l, E.LengthBytes(s) + E.HeaderBytes(s) + E.BodyBytes(s), E.LoopBytes(s));
    FitsConcat(p + h, b, E.LengthBytes(s) + E.HeaderBytes(s), E.BodyBytes(s));
    FitsConcat(p, h, E.LengthBytes(s), E.HeaderBytes(s));
  }

  lemma BodySizes(s: Section)
    ensures |BodySyntax(s.tier, CommandSize(s.command), s.command)| == 8 * |E.BodyBytes(s)|
  {
    hide Starts, Number, CommandSyntax, E.CommandBytes, E.CommandHint;
    CommandFits(s.command);
    PairSize(s.tier, E.CommandHint(s.command) % 0x1_0000);
  }

  /** What is emitted for a section has its checksum behind the rest. */
  lemma ConformsUnchecked(s: Section)
    ensures var n := |E.Emit(s)| - 3;
      Conforms(E.Emit(s), s) <==>
        SectionInRange(s) && 0 <= n <= 4093 && Fits(SectionSyntax(s, n, CommandSize(s.command), false), E.Unchecked(s))
  {
    hide Starts, After, SectionInRange, SectionSyntax, CommandSize, E.Unchecked, Crc32.Compute, Crc32.ChecksumBytes,
      CrcDivision.Divide;
    E.EmittedChecksum(s);
    Crc32.ComputeDivides(E.Emit(s));
    var n := |E.Emit(s)| - 3;
    if n >= 0 {
      var p := SectionSyntax(s, n, CommandSize(s.command), false);
      var c := Crc32.ChecksumBytes(Crc32.Compute(E.Unchecked(s)));
      BeforeFour(p, E.Unchecked(s), c);
    }
  }

  lemma BeforeFour(p: seq<Symbol>, d: bytes, c: bytes)
    requires |c| == 4
    ensures Starts(p, d + c) && |After(p, d + c)| == 4 <==> Fits(p, d)
  {
    if Starts(p, d + c) {
      StartsWhole(p, d + c);
    }
    hide Starts;
    if |p| == 8 * |d| {
      FitsBefore(p, d, c);
    }
  }

  /** The two places where lengths are announced decide. */
  lemma UncheckedFits(s: Section, n: nat)
    requires n <= 4093 && n == E.SectionLength(s) + E.ForgottenIn(s.command)
    ensures Fits(SectionSyntax(s, n, CommandSize(s.command), false), E.Unchecked(s)) <==>
      && E.ForgottenIn(s.command) == 0
      && E.CommandHint(s.command) < 0x100
      && Covers(s.tier as int % 0x10, E.CommandHint(s.command) / 0x10 % 0x10)
  {
    HintBelow(s);
    hide Fits, SectionSyntax, StartSyntax, BodySyntax, CommandSize, E.Unchecked, E.LengthBytes, E.BodyBytes,
      E.SectionLength, E.CommandHint, E.ForgottenIn, Covers;
    PartsFit(s, n);
    StartFits(s, n);
    CommandSizeIs(s.command);
    if E.ForgottenIn(s.command) == 0 {
      BodyFits(s);
    }
  }

  lemma HintBelow(s: Section)
    ensures E.CommandHint(s.command) <= E.SectionLength(s)
  {
    hide E.CommandHint;
  }

  lemma EmittedSize(s: Section)
    ensures |E.Emit(s)| == 3 + E.SectionLength(s) + E.ForgottenIn(s.command)
  {
    hide E.CommandHint, E.DescriptorsHint, E.ForgottenIn, E.Emit;
    E.EmittedLength(s);
  }

  /**
   For every section, whatever its command and descriptors, encrypted or not: what is emitted for it is
   that section as the standard prescribes it if and only if its values are in range, it is not too long,
   the size hint forgets nothing, the command is shorter than 256 bytes and the tier already has the bits
   that the command length merges into it.
   */
  lemma EmitConforms(s: Section)
    ensures Conforms(E.Emit(s), s) <==>
      && SectionInRange(s)
      && E.SectionLength(s) <= 4093
      && E.ForgottenIn(s.command) == 0
      && E.CommandHint(s.command) < 0x100
      && Covers(s.tier as int % 0x10, E.CommandHint(s.command) / 0x10 % 0x10)
  {
    hide Conforms, SectionInRange, Fits, SectionSyntax, E.Emit, E.SectionLength, E.CommandHint, E.ForgottenIn,
      E.Unchecked, Covers;
    EmittedSize(s);
    ConformsUnchecked(s);
    if |E.Emit(s)| - 3 <= 4093 {
      UncheckedFits(s, |E.Emit(s)| - 3);
    }
  }

  /**
   For every section, whether or not its lengths come out right: every other part of what is emitted is as
   the standard prescribes it, and stands where it has to stand.
   */
  lemma EmittedParts(s: Section)
    ensures |E.Emit(s)| == 20 + CommandSize(s.command) + |DescriptorsSyntax(s.descriptors, false)| / 8
    ensures var e, n := E.Emit(s), 14 + CommandSize(s.command);
      && e[0] == 0xFC && e[1] / 0x10 == 0x3
      && Fits(HeaderSyntax(s.encryptedPacket, s.encryptionAlgorithm, s.ptsAdjustment, s.cwIndex), e[3..10])
      && e[13] == CommandType(s.command)
      && Fits(CommandSyntax(s.command), e[14..n])
      && Fits(LoopSyntax(s.descriptors, false), e[n..|e| - 4])
  {
    hide Fits, Starts, HeaderSyntax, CommandSyntax, LoopSyntax, CommandSize, DescriptorsSyntax, E.HeaderBytes,
      E.CommandBytes, E.LoopBytes, E.SectionLength, E.CommandHint, E.DescriptorsHint, E.ForgottenIn, Crc32.Compute,
      Crc32.ChecksumBytes, Write12Pair;
    HeaderFits(s);
    CommandFits(s.command);
    CommandSizeIs(s.command);
    LoopFits(s);
    LoopSizeIs(s);
    HeaderSizeIs(s);
    var hint := E.CommandHint(s.command);
    PairSize(s.tier, hint % 0x1_0000);
    var l, h, p := E.LengthBytes(s), E.HeaderBytes(s), Write12Pair(s.tier, hint % 0x1_0000);
    var c, d, crc := E.CommandBytes(s.command), E.LoopBytes(s), Crc32.ChecksumBytes(Crc32.Compute(E.Unchecked(s)));
    StartBytes(s);
    Pieces(l, h, p, Write8(s.command.Type()), c, d, crc);
  }

  lemma StartBytes(s: Section)
    ensures var l := E.LengthBytes(s);
      |l| == 3 && l[0] == 0xFC && l[1] / 0x10 == 0x3
  {
    hide E.SectionLength;
  }

  lemma HeaderSizeIs(s: Section)
    ensures |E.HeaderBytes(s)| == 7
  {
    hide Write32;
  }

  lemma LoopSizeIs(s: Section)
    ensures |E.LoopBytes(s)| == 2 + |DescriptorsSyntax(s.descriptors, false)| / 8
  {
    hide Starts, DescriptorsSyntax, E.DescriptorsBytes, E.DescriptorsHint;
    DescriptorsFit(s.descriptors);
  }

  lemma Pieces(l: bytes, h: bytes, p: bytes, t: bytes, c: bytes, d: bytes, crc: bytes)
    requires |l| == 3 && |h| == 7 && |p| == 3 && |t| == 1 && |crc| == 4
    ensures var e, n := l + h + (p + t + c) + d + crc, 14 + |c|;
      && |e| == 18 + |c| + |d|
      && e[0] == l[0] && e[1] == l[1] && e[3..10] == h && e[13] == t[0] && e[14..n] == c && e[n..|e| - 4] == d
  {
  }

  lemma TimeReserved(t: SpliceTime)
    ensures E.SpliceTimeBytes(t)[0] / 2 == if t.ptsTime.Some? then 0x7F else 0x3F
    ensures t.ptsTime.None? ==> E.SpliceTimeBytes(t) == [0x7F]
  {
    hide Write32;
    if t.ptsTime.Some? {
      FirstByte33(0xFF, t.ptsTime.value / 0x1_0000_0000 % 2);
    }
  }

  lemma BreakReserved(b: BreakDuration)
    ensures E.BreakDurationBytes(Some(b))[0] / 2 == if b.autoReturn then 0x40 else 0
  {
    hide Write32;
    FirstByte33(E.Bit(b.autoReturn, 0x80), b.duration / 0x1_0000_0000 % 2);
  }

  lemma FlagsReserved(i: InsertDetails, c: ScheduleDetails)
    ensures E.InsertFlags(i) as int % 0x10 == 0x0F
    ensures E.ScheduleFlags(c) as int % 0x20 == 0x1F
  {
  }

  /** Reserved bits are written as ones, but as zeros in break durations and behind the count of DTMF characters. */
  lemma ReservedWritten(t: SpliceTime, b: BreakDuration, i: InsertDetails, c: ScheduleDetails, id: u32, cancelled: bool)
    ensures E.SpliceTimeBytes(t)[0] / 2 == if t.ptsTime.Some? then 0x7F else 0x3F
    ensures t.ptsTime.None? ==> E.SpliceTimeBytes(t) == [0x7F]
    ensures E.BreakDurationBytes(Some(b))[0] / 2 == if b.autoReturn then 0x40 else 0
    ensures E.InsertDetailsBytes(i)[0] as int % 0x10 == 0x0F
    ensures E.ScheduleDetailsBytes(c)[0] as int % 0x20 == 0x1F
    ensures E.CommandBytes(SpliceInsert(id, if cancelled then None else Some(i)))[4] == if cancelled then 0xFF else 0x7F
    ensures E.ScheduleEventBytes(ScheduleEvent(id, if cancelled then None else Some(c)))[4] ==
      if cancelled then 0xFF else 0x7F
  {
    TimeReserved(t);
    BreakReserved(b);
    FlagsReserved(i, c);
    hide Write32, E.OptionalTimeBytes, E.OptionalComponentsBytes, E.ProgramBytes, E.ProgramSpliceBytes, E.InsertFlags,
      E.ScheduleFlags, E.SpliceTimeBytes, E.BreakDurationBytes;
  }

  lemma DtmfCountWritten(preroll: byte, chars: bytes)
    ensures var d := E.DescriptorBytes(DtmfDescriptor(preroll, chars));
      |d| == 8 + |chars| && d[7] as int % 0x20 == 0
  {
    var n := |chars|;
    assert 0x20 * n == 0x100 * (n / 8) + 0x20 * (n % 8);
    ByteRemainder(n / 8, 0x20 * (n % 8));
    hide Write32;
  }

  /** A reader of the standard gets identifier and data of a private command, though the program's parser does not. */
  lemma PrivateCommandBytes(identifier: u32, data: bytes, tail: bytes)
    ensures Read32(E.CommandBytes(PrivateCommand(identifier, data)) + tail) == Success((identifier, data + tail))
  {
    hide Write32, Read32;
    Reads32(identifier, data + tail);
    Right2(Write32(identifier), data, tail);
  }
}
