/** Which sections next() refuses, and why: the errors that follow from fixed bytes, exactly. */
module Scte35Refusal {
  import opened Wrappers
  import opened Words
  import opened Wire
  import opened BinaryParsing
  import opened Scte35
  import opened Scte35Syntax
  import opened Scte35Emitter
  import opened Scte35Parser
  import opened Scte35Acceptance
  import opened Scte35Conformance
  import opened Scte35RoundTrip
  import Crc32
  import CrcDivision

  // ---------- Errors of the parts ----------

  /** Errors of single fields. */
  predicate OfFields(e: Error) {
    e == TooFewBytes || e == ConditionFailed || e == Undefined
  }

  predicate FailsOfFields<T>(r: Result<T>) {
    r.Failure? ==> OfFields(r.error)
  }

  lemma {:induction false} ScheduleComponentsErrors(d: bytes, n: nat)
    ensures FailsOfFields(ParseScheduleComponents(d, n))
    decreases n
  {
    hide Number32;
    if n > 0 && Read8(d).Success? && Read32(Read8(d).value.1).Success? {
      ScheduleComponentsErrors(Read32(Read8(d).value.1).value.1, n - 1);
    }
  }

  lemma ScheduleDetailsErrors(d: bytes)
    ensures FailsOfFields(ParseScheduleDetails(d))
  {
    hide ParseScheduleComponents, Number32, Flag;
    forall d1: bytes, n: nat
      ensures FailsOfFields(ParseScheduleComponents(d1, n))
    {
      ScheduleComponentsErrors(d1, n);
    }
  }

  lemma {:induction false} ScheduleEventsErrors(d: bytes, n: nat)
    ensures FailsOfFields(ParseScheduleEvents(d, n))
    decreases n
  {
    hide ParseScheduleEvent;
    ScheduleEventErrors(d);
    if n > 0 && ParseScheduleEvent(d).Success? {
      ScheduleEventsErrors(ParseScheduleEvent(d).value.1, n - 1);
    }
  }

  lemma ScheduleEventErrors(d: bytes)
    ensures FailsOfFields(ParseScheduleEvent(d))
  {
    hide ParseScheduleDetails, Number32, Flag;
    if |d| >= 5 {
      ScheduleDetailsErrors(d[4..][1..]);
    }
  }

  lemma {:induction false} InsertComponentsErrors(d: bytes, n: nat, immediate: bool)
    ensures FailsOfFields(ParseInsertComponents(d, n, immediate))
    decreases n
  {
    hide ParseOptionalTime;
    if n > 0 && d != [] {
      var d1 := Read8(d).value.1;
      OptionalTimeErrors(d1, !immediate);
      if ParseOptionalTime(d1, !immediate).Success? {
        InsertComponentsErrors(ParseOptionalTime(d1, !immediate).value.1, n - 1, immediate);
      }
    }
  }

  lemma OptionalTimeErrors(d: bytes, present: bool)
    ensures FailsOfFields(ParseOptionalTime(d, present))
  {
    hide Number32, Flag;
  }

  lemma OptionalComponentsErrors(d: bytes, present: bool, immediate: bool)
    ensures FailsOfFields(ParseOptionalComponents(d, present, immediate))
  {
    hide ParseInsertComponents;
    if present && d != [] {
      InsertComponentsErrors(d[1..], d[0], immediate);
    }
  }

  lemma OptionalBreakErrors(d: bytes, present: bool)
    ensures FailsOfFields(ParseOptionalBreak(d, present))
  {
    hide Number32, Flag;
  }

  lemma ProgramErrors(d: bytes)
    ensures FailsOfFields(ParseProgram(d))
  {
  }

  lemma InsertDetailsErrors(d: bytes)
    ensures FailsOfFields(ParseInsertDetails(d))
  {
    hide Flag, ParseOptionalTime, ParseOptionalComponents, ParseOptionalBreak, ParseProgram;
    if d != [] {
      var program, immediate := Flag(d[0], 0x40), Flag(d[0], 0x10);
      var r1 := ParseOptionalTime(d[1..], program && !immediate);
      OptionalTimeErrors(d[1..], program && !immediate);
      if r1.Success? {
        var r2 := ParseOptionalComponents(r1.value.1, !program, immediate);
        OptionalComponentsErrors(r1.value.1, !program, immediate);
        if r2.Success? {
          var r3 := ParseOptionalBreak(r2.value.1, Flag(d[0], 0x20));
          OptionalBreakErrors(r2.value.1, Flag(d[0], 0x20));
          if r3.Success? {
            ProgramErrors(r3.value.1);
          }
        }
      }
    }
  }

  /** splice_command_type of a command that the parser knows. */
  predicate Known(commandType: byte) {
    commandType in {0x00, 0x04, 0x05, 0x06, 0x07, 0xFF}
  }

  lemma CommandErrors(d: bytes, commandType: byte, length: u16)
    ensures var r := ParseCommand(d, commandType, length);
      if Known(commandType) then FailsOfFields(r) else r == Failure(UnsupportedCommand)
  {
    hide ParseScheduleEvents, ParseInsertDetails, Number32, Flag;
    if commandType == 0x04 && d != [] {
      ScheduleEventsErrors(d[1..], d[0]);
    } else if commandType == 0x05 && |d| >= 5 {
      InsertDetailsErrors(d[4..][1..]);
    }
  }

  /** Errors of a descriptor loop. */
  predicate OfLoop(e: Error) {
    OfFields(e) || e == UnknownDescriptor || e == NotModelled
  }

  /** A descriptor of an unknown tag is refused for that just when its announced bytes are there. */
  lemma DescriptorErrors(d: bytes)
    ensures var r := ParseDescriptor(d);
      && (r == Failure(UnknownDescriptor) <==> |d| >= 6 && d[0] > 0x03 && d[1] <= |d| - 2)
      && (r.Failure? ==> OfLoop(r.error))
  {
    hide Number32;
    if |d| >= 2 {
      assert d[1..][1..] == d[2..];
    }
  }

  lemma {:induction false} DescriptorsErrors(d: bytes)
    ensures var r := ParseDescriptors(d);
      r.Failure? ==> OfLoop(r.error)
    decreases |d|
  {
    hide ParseDescriptor, OfLoop;
    DescriptorErrors(d);
    if d != [] && ParseDescriptor(d).Success? {
      DescriptorsErrors(ParseDescriptor(d).value.1);
    }
  }

  /** Behind descriptors that can be read, one of an unknown tag ends the loop with that error. */
  lemma {:induction false} UnknownBehind(ds: seq<Descriptor>, a: bytes, d: bytes)
    requires NoTime(ds) && DescriptorsReadable(ds) && Fits(DescriptorsSyntax(ds, true), a)
    requires |d| >= 6 && d[0] > 0x03 && d[1] <= |d| - 2
    ensures ParseDescriptors(a + d) == Failure(UnknownDescriptor)
    decreases |ds|
  {
    hide Starts, ParseDescriptor, DescriptorSyntax, DescriptorReadable, LengthOf;
    if ds == [] {
      assert a + d == d;
      DescriptorErrors(d);
    } else {
      FirstOfDescriptors(ds);
      var p, q := DescriptorSyntax(ds[0], LengthOf(ds[0], true)), DescriptorsSyntax(ds[1..], true);
      DescriptorWhole(ds[0], LengthOf(ds[0], true));
      FitsBehind(p, q, a);
      var n := |p| / 8;
      StartsWhole(p, a);
      FitsPrefix(p, a, n);
      assert a + d == a[..n] + (a[n..] + d);
      FitsBefore(p, a[..n], a[n..] + d);
      DescriptorExact(ds[0], a + d);
      UnknownBehind(ds[1..], a[n..], d);
    }
  }

  lemma LoopErrors(d: bytes)
    ensures ParseLoop(d).Failure? ==> OfLoop(ParseLoop(d).error)
  {
    hide ParseDescriptors;
    if |d| >= 2 && Number16(d[0], d[1]) <= |d[2..]| {
      DescriptorsErrors(d[2..][..Number16(d[0], d[1])]);
    }
  }

  // ---------- Errors of sections ----------

  /** A section of the announced length n is found: with its start as the standard prescribes it, and whole. */
  predicate Announced(d: bytes, n: nat) {
    var p := PointerSize(d);
    |d| >= 20 && 17 <= n <= 4093 && p + 3 + n <= |d| && Starts(StartSyntax(n), d[p..])
  }

  lemma PackAnnounced(d: bytes, n: nat)
    requires Announced(d, n)
    ensures var p := PointerSize(d);
      var sec := d[p..p + 3 + n];
      && Next(NextSection, ParseSection, d) ==
         (match ParseSection(sec, ())
          case Failure(e) => (Failure(e), p + 3 + n)
          case Success(s) => (Success(Some(s)), p + 3 + n))
      && ParseUntilLength(sec) == Success((n, sec[3..]))
  {
    hide Starts, StartSyntax, NextSection, ParseSection, ParseUntilLength, PointerSize;
    PointerIn(d);
    var p := PointerSize(d);
    var sec := d[p..p + 3 + n];
    FoundAt(d, n);
    assert d[p..][..3 + n] == sec;
    StartWithin(n, d[p..]);
    StartAgain(n, sec);
  }

  /** Why the bytes behind the announced length are refused; the checksum comes last. */
  lemma RestErrors(sec: bytes, n: nat)
    requires |sec| == 3 + n && n >= 17 && ParseUntilLength(sec) == Success((n, sec[3..]))
    ensures var r := ParseSection(sec, ());
      && (sec[3] != 0 ==> r == Failure(ConditionFailed))
      && (r == Failure(Encrypted) <==> sec[3] == 0 && sec[4] >= 0x80)
      && (r == Failure(UnsupportedCommand) <==>
            && sec[3] == 0 && sec[4] < 0x80
            && (var length := Number12(sec[11], sec[12]); length == 0xFFF || length < n - 11)
            && !Known(sec[13]))
  {
    hide ParseUntilLength, ParseHeader, ParseBody, ParseLoop, Read32, Crc32.Compute, Number12, Known, OfLoop, Chopped;
    HeaderErrors(sec[3..]);
    if ParseHeader(sec[3..]).Success? {
      var d2 := ParseHeader(sec[3..]).value.1;
      assert sec[3..][7..] == sec[10..];
      BodyErrors(d2);
      if ParseBody(d2).Success? {
        LoopErrors(ParseBody(d2).value.1);
        LoopErrorKinds();
        ReadErrors(if ParseLoop(ParseBody(d2).value.1).Success? then ParseLoop(ParseBody(d2).value.1).value.1 else []);
      }
    }
  }

  lemma LoopErrorKinds()
    ensures forall e :: OfLoop(e) ==> e != Encrypted && e != UnsupportedCommand
  {
  }

  lemma ReadErrors(d: bytes)
    ensures Read32(d).Failure? ==> Read32(d).error == TooFewBytes
  {
  }

  lemma HeaderErrors(d: bytes)
    requires |d| >= 7
    ensures var r := ParseHeader(d);
      && (if d[0] != 0 then r == Failure(ConditionFailed)
          else if d[1] >= 0x80 then r == Failure(Encrypted)
          else r.Success? && r.value.1 == d[7..])
  {
    hide Number32;
    assert d[1..][5..][1..] == d[7..];
  }

  lemma BodyErrors(d: bytes)
    requires |d| >= 4
    ensures var r := ParseBody(d);
      && (r == Failure(UnsupportedCommand) <==>
            && (var length := Number12(d[1], d[2]); length == 0xFFF || length < |d| - 4)
            && !Known(d[3]))
      && (r.Failure? ==> r.error != Encrypted)
  {
    hide ParseCommand, Number12, Known;
    assert d[1..][2..][1..] == d[4..];
    CommandErrors(d[4..], d[3], Number12(d[1], d[2]));
  }

  /**
   For all bytes that announce a section: next() refuses them as encrypted, for an unknown command or for
   another protocol version exactly as the bytes in those places say, and moves behind them either way.
   */
  lemma RefusedExactly(d: bytes, n: nat)
    requires Announced(d, n)
    ensures Next(NextSection, ParseSection, d).1 == PointerSize(d) + 3 + n
    ensures var c, r := d[PointerSize(d)..], Next(NextSection, ParseSection, d).0;
      && (c[3] != 0 ==> r == Failure(ConditionFailed))
      && (r == Failure(Encrypted) <==> c[3] == 0 && c[4] >= 0x80)
      && (r == Failure(UnsupportedCommand) <==>
            && c[3] == 0 && c[4] < 0x80
            && (var length := Number12(c[11], c[12]); length == 0xFFF || length < n - 11)
            && c[13] !in {0x00, 0x04, 0x05, 0x06, 0x07, 0xFF})
  {
    hide Starts, StartSyntax, NextSection, ParseSection, ParseUntilLength, Next, Number12;
    var p := PointerSize(d);
    PackAnnounced(d, n);
    RestErrors(d[p..p + 3 + n], n);
  }

  // ---------- Errors behind the header ----------

  /** The bytes behind the header of a section are those of a body that can be read, under some announced length. */
  predicate Carried(sec: bytes, tier: u16, length: u16, c: Command) {
    && |sec| >= 10 && sec[3] == 0 && sec[4] < 0x80
    && tier < 0x1000 && CommandOk(c) && !c.PrivateCommand? && length < 0x1000
    && Starts(BodySyntax(tier, length, c), sec[10..])
  }

  lemma BodyOf(tier: u16, length: u16, c: Command, rest: bytes, d: bytes)
    requires 4 + |rest| <= |d| <= 0x1000 && Scan12High(d) == Success(tier) && Number12(d[1], d[2]) == length
    requires ParseCommand(d[4..], d[3], length) == Success((c, rest))
    ensures ParseBody(d) ==
      if length != 0xFFF && length >= |d| - 4 then Failure(ConditionFailed)
      else if length != 0xFFF && length != |d| - 4 - |rest| then Failure(CommandLengthDiffers)
      else Success(((tier, c), rest))
  {
    hide ParseCommand, Scan12High, Number12;
    assert d[1..][2..][1..] == d[4..];
  }

  lemma BodyOutcome(tier: u16, length: u16, c: Command, d: bytes)
    requires tier < 0x1000 && CommandOk(c) && !c.PrivateCommand? && length < 0x1000 && |d| <= 0x1000
    requires Starts(BodySyntax(tier, length, c), d)
    ensures 4 + CommandSize(c) <= |d| && d[4 + CommandSize(c)..] == After(BodySyntax(tier, length, c), d)
    ensures ParseBody(d) ==
      if length != 0xFFF && length >= |d| - 4 then Failure(ConditionFailed)
      else if length != 0xFFF && length != CommandSize(c) then Failure(CommandLengthDiffers)
      else Success(((tier, c), d[4 + CommandSize(c)..]))
  {
    hide Number, Starts, After, Scan12High, Number12, ParseCommand, CommandSyntax, CommandOk, ParseBody;
    var p, cs := BodySyntax(tier, length, c), CommandSyntax(c);
    var head := (Number(tier, 12) + Number(length, 12)) + Number(CommandType(c), 8);
    StartsConcat(head, cs, d);
    BodyHeadStarts(tier, length, CommandType(c), d);
    CommandExact(c, d[3], length, d[4..]);
    StartsWhole(cs, d[4..]);
    AfterBytes(cs, d[4..], CommandSize(c));
    assert d[4..][CommandSize(c)..] == d[4 + CommandSize(c)..];
    BodyOf(tier, length, c, d[4 + CommandSize(c)..], d);
  }

  lemma HeaderBehind(sec: bytes, n: nat)
    requires |sec| == 3 + n && n >= 17 && ParseUntilLength(sec) == Success((n, sec[3..]))
    requires sec[3] == 0 && sec[4] < 0x80
    ensures ParseHeader(sec[3..]).Success? && ParseHeader(sec[3..]).value.1 == sec[10..]
    ensures ParseBody(sec[10..]).Failure? ==> ParseSection(sec, ()) == Failure(ParseBody(sec[10..]).error)
    ensures ParseBody(sec[10..]).Success? && ParseLoop(ParseBody(sec[10..]).value.1).Failure? ==>
      ParseSection(sec, ()) == Failure(ParseLoop(ParseBody(sec[10..]).value.1).error)
  {
    hide ParseUntilLength, ParseHeader, ParseBody, ParseLoop, Read32, Crc32.Compute, Chopped;
    HeaderErrors(sec[3..]);
    assert sec[3..][7..] == sec[10..];
  }

  /** A command that is there is refused if and only if its announced length is neither its own nor FFF. */
  lemma WrongLengthRefused(d: bytes, n: nat, tier: u16, length: u16, c: Command)
    requires Announced(d, n) && Carried(d[PointerSize(d)..PointerSize(d) + 3 + n], tier, length, c)
    ensures var r := Next(NextSection, ParseSection, d).0;
      && (length != 0xFFF && length >= n - 11 ==> r == Failure(ConditionFailed))
      && (length < n - 11 && length != CommandSize(c) && length != 0xFFF ==> r == Failure(CommandLengthDiffers))
  {
    hide Starts, StartSyntax, BodySyntax, NextSection, ParseSection, ParseUntilLength, Next, ParseHeader, ParseBody,
      ParseLoop, CommandSize, CommandOk, PointerSize;
    var p := PointerSize(d);
    var sec := d[p..p + 3 + n];
    PackAnnounced(d, n);
    HeaderBehind(sec, n);
    BodyOutcome(tier, length, c, sec[10..]);
  }

  /**
   Behind a body and descriptors that can be read comes one of an unknown tag, in a loop that leaves at
   least one byte of the section behind it; x is what the loop announces from that descriptor on.
   */
  predicate UnknownAfter(d: bytes, ds: seq<Descriptor>, a: bytes, x: bytes, rest: bytes) {
    && NoTime(ds) && DescriptorsReadable(ds) && Fits(DescriptorsSyntax(ds, true), a)
    && |x| >= 6 && x[0] > 0x03 && x[1] <= |x| - 2 && rest != []
    && d == Write16(|a + x|) + (a + x) + rest
  }

  lemma UnknownDescriptorRefused(d: bytes, n: nat, tier: u16, length: u16, c: Command, ds: seq<Descriptor>, a: bytes,
                                 x: bytes, rest: bytes)
    requires Announced(d, n) && Carried(d[PointerSize(d)..PointerSize(d) + 3 + n], tier, length, c)
    requires length == 0xFFF || length == CommandSize(c) < n - 11
    requires UnknownAfter(After(BodySyntax(tier, length, c), d[PointerSize(d)..PointerSize(d) + 3 + n][10..]), ds, a, x,
                          rest)
    ensures Next(NextSection, ParseSection, d).0 == Failure(UnknownDescriptor)
  {
    hide Starts, After, StartSyntax, BodySyntax, NextSection, ParseSection, ParseUntilLength, Next, ParseHeader,
      ParseBody, ParseLoop, CommandSize, CommandOk, PointerSize, UnknownAfter;
    var p := PointerSize(d);
    var sec := d[p..p + 3 + n];
    PackAnnounced(d, n);
    HeaderBehind(sec, n);
    BodyOutcome(tier, length, c, sec[10..]);
    LoopRefused(sec[10..][4 + CommandSize(c)..], ds, a, x, rest);
  }

  lemma LoopRefused(d: bytes, ds: seq<Descriptor>, a: bytes, x: bytes, rest: bytes)
    requires UnknownAfter(d, ds, a, x, rest) && |d| <= 0x1000
    ensures ParseLoop(d) == Failure(UnknownDescriptor)
  {
    hide Fits, DescriptorsReadable, ParseDescriptors, Write16, Read16;
    Reads16Size(a + x, rest);
    Right2(Write16(|a + x|), a + x, rest);
    assert ((a + x) + rest)[..|a + x|] == a + x;
    UnknownBehind(ds, a, x);
  }

  lemma Reads16Size(x: bytes, rest: bytes)
    requires |x| <= 0x1000
    ensures Read16(Write16(|x|) + (x + rest)) == Success((|x|, x + rest))
  {
    Reads16(|x|, x + rest);
  }

  /** A section of which all bits are right but the remainder is refused for just that. */
  lemma ChecksumRefused(d: bytes, n: nat, s: Section)
    requires Announced(d, n) && NoTime(s.descriptors) && SectionReadable(s)
    requires var sec := d[PointerSize(d)..PointerSize(d) + 3 + n];
      (Carries(sec, s, CommandSize(s.command)) || Carries(sec, s, 0xFFF))
      && CrcDivision.Divide(0xFFFF_FFFF, CrcDivision.Bits(sec)) != 0
    ensures Next(NextSection, ParseSection, d).0 == Failure(ChecksumMismatch)
  {
    hide Starts, StartSyntax, NextSection, ParseSection, ParseUntilLength, Next, PointerSize, Carries, SectionReadable,
      ParseRest, CommandSize, CrcDivision.Divide, Crc32.Compute, Chopped;
    var p := PointerSize(d);
    var sec := d[p..p + 3 + n];
    PackAnnounced(d, n);
    AnnouncedStart(d, n);
    StartAgain(n, sec);
    Remainder(sec);
    PackIsRest(sec, sec[3..], n);
    if Carries(sec, s, 0xFFF) {
      CarriedRead(sec, s, 0xFFF);
    } else {
      ShortCommand(sec, s);
      CarriedRead(sec, s, CommandSize(s.command));
    }
  }

  lemma AnnouncedStart(d: bytes, n: nat)
    requires Announced(d, n)
    ensures Starts(StartSyntax(n), d[PointerSize(d)..PointerSize(d) + 3 + n])
  {
    hide Starts, StartSyntax;
    var p := PointerSize(d);
    StartWithin(n, d[p..]);
    assert d[p..][..3 + n] == d[p..p + 3 + n];
  }

  /** Without 20 bytes there is nothing to deliver; bytes that announce no section are refused at once. */
  lemma NothingAnnounced(d: bytes)
    ensures |d| < 20 ==> Next(NextSection, ParseSection, d) == (Success(None), 0)
    ensures |d| >= 20 ==>
      var p := PointerSize(d);
      !Announced(d, Number12(d[p + 1], d[p + 2])) ==> Next(NextSection, ParseSection, d).0 == Failure(ConditionFailed)
  {
    hide Starts, StartSyntax, ParseSection, Flag, Number12;
    if |d| >= 20 {
      var p := PointerSize(d);
      var n := Number12(d[p + 1], d[p + 2]);
      Twelve(d[p + 1], d[p + 2]);
      StartStarts(n, d[p..]);
      FoundAt(d, n);
      FoundOrFailed(d);
      if !Announced(d, n) && NextSection(d).Success? {
        ShortWithPointer(d);
      }
    }
  }

  lemma FoundOrFailed(d: bytes)
    requires |d| >= 20
    ensures var p := PointerSize(d);
      NextSection(d) == Failure(ConditionFailed)
      || NextSection(d) == Success(Some(Bounds(p, 3 + Number12(d[p + 1], d[p + 2]), ())))
  {
    hide Number12, Flag;
  }

  /** A section of 16 bytes behind a pointer byte is found, and then it is too short to be packed. */
  lemma ShortWithPointer(d: bytes)
    requires PointerSize(d) + 19 <= |d| && NextSection(d) == Success(Some(Bounds(PointerSize(d), 19, ())))
    ensures Next(NextSection, ParseSection, d).0 == Failure(ConditionFailed)
  {
    hide NextSection, ParseHeader, ParseBody, ParseLoop, PointerSize;
    var sec := d[PointerSize(d)..PointerSize(d) + 19];
    assert |sec| == 19 && ParseUntilLength(sec) == Failure(ConditionFailed);
    assert ParseSection(sec, ()) == Failure(ConditionFailed);
  }

  /** An encrypted section is always refused as such, whatever else is in it and whatever follows it. */
  lemma EncryptedRefused(s: Section, pointer: bool, tail: bytes)
    requires SectionOk(s) && s.encryptedPacket
    ensures var front := if pointer then [0] else [];
      Next(NextSection, ParseSection, front + (Emit(s) + tail)).0 == Failure(Encrypted)
  {
    hide Emit, Next, NextSection, ParseSection, ParseUntilLength, SectionOk, SectionLength, ForgottenIn;
    NextTakes(s, pointer, tail);
    TakenStart(s);
    RestErrors(Emit(s)[..3 + SectionLength(s)], SectionLength(s));
  }

  lemma TakenStart(s: Section)
    requires SectionOk(s)
    ensures |Emit(s)| >= 3 + SectionLength(s) >= 20
    ensures var taken := Emit(s)[..3 + SectionLength(s)];
      && ParseUntilLength(taken) == Success((SectionLength(s), taken[3..]))
      && taken[3] == 0 && (taken[4] >= 0x80 <==> s.encryptedPacket)
  {
    hide Emit, SectionLength, CommandOk, DescriptorsOk, Number12, Flag, ForgottenIn, HeaderBytes, BodyBytes, LoopBytes,
      Crc32.Compute, Crc32.ChecksumBytes;
    EmitSize(s);
    FirstBytes(s);
    ShortEnough(s);
    LengthFlags(SectionLength(s));
    EmitSplit(s);
    HeaderStart(s);
    var taken := Emit(s)[..3 + SectionLength(s)];
    assert taken[0] == Emit(s)[..3][0] && taken[1] == Emit(s)[..3][1] && taken[2] == Emit(s)[..3][2];
    assert taken[3] == Emit(s)[3..][0] && taken[4] == Emit(s)[3..][1];
  }

  /** protocol_version, and encrypted_packet in the highest bit behind it. */
  lemma HeaderStart(s: Section)
    ensures var h := HeaderBytes(s);
      |h| == 7 && h[0] == 0 && (h[1] >= 0x80 <==> s.encryptedPacket)
  {
    hide Write32;
    var prefix: byte := Scte35Emitter.Bit(s.encryptedPacket, 0x80) + 2 * (s.encryptionAlgorithm % 0x40);
    FirstBits(prefix, s.ptsAdjustment);
  }
}
