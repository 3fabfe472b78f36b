/** Two messages of the program's own tests, byte for byte, and the sections that next() makes of them. */
module Scte35Messages {
  import opened Wrappers
  import opened Words
  import opened Wire
  import opened BinaryParsing
  import opened Scte35
  import opened Scte35Syntax
  import opened Scte35Fields
  import opened Scte35Parser
  import opened Scte35Acceptance
  import opened Scte35Conformance
  import Scte35Emitter
  import Crc32
  import CrcDivision
  import CrcTable

  const NULL_ROW0: bytes := [0xFC, 0x30, 0x11, 0x00, 0x00, 0x00, 0x00, 0x00, 0x00, 0x00]
  const NULL_ROW1: bytes := [0xFF, 0xFF, 0xFF, 0x00, 0x00, 0x00, 0x4F, 0x25, 0x33, 0x96]

  const NULL_MESSAGE: bytes := NULL_ROW0 + NULL_ROW1

  const NULL_SECTION := Section(false, 0, 0, 0, 0xFFF, SpliceNull, [])

  const INSERT_ROW0: bytes := [0xFC, 0x30, 0x2F, 0x00, 0x00, 0x00, 0x00, 0x00, 0x00, 0x00]
  const INSERT_ROW1: bytes := [0xFF, 0xFF, 0xFF, 0x05, 0x00, 0x00, 0x02, 0x96, 0x7F, 0xEF]
  const INSERT_ROW2: bytes := [0xFF, 0xE1, 0x6A, 0x1A, 0xB8, 0x7E, 0x01, 0x4C, 0x56, 0x20]
  const INSERT_ROW3: bytes := [0x00, 0x01, 0x00, 0x00, 0x00, 0x0A, 0x00, 0x08, 0x43, 0x55]
  const INSERT_ROW4: bytes := [0x45, 0x49, 0x00, 0x00, 0x00, 0x00, 0x10, 0xFA, 0x4D, 0x9E]

  const INSERT_MESSAGE: bytes := INSERT_ROW0 + INSERT_ROW1 + INSERT_ROW2 + INSERT_ROW3 + INSERT_ROW4

  const INSERT_DETAILS := InsertDetails(
    true, true, false, Some(SpliceTime(Some(8_076_794_552))), None, Some(BreakDuration(false, 0x14C_5620)), 1, 0, 0)

  const INSERT_SECTION := Section(
    false, 0, 0, 0, 0xFFF, SpliceInsert(0x296, Some(INSERT_DETAILS)), [AvailDescriptor(0)])

  // ---------- Checksums ----------

  /** Division of one byte, and of five. */
  function DivideOne(r: bv32, b: byte): bv32 {
    CrcTable.StepEight(r ^ ((b as bv8 as bv32) << 24))
  }

  function DivideFive(r: bv32, a: byte, b: byte, c: byte, d: byte, e: byte): bv32 {
    DivideOne(DivideOne(DivideOne(DivideOne(DivideOne(r, a), b), c), d), e)
  }

  lemma DividedOne(r: bv32, b: byte, rest: bytes)
    ensures CrcDivision.Divide(r, CrcDivision.Bits([b] + rest)) ==
      CrcDivision.Divide(DivideOne(r, b), CrcDivision.Bits(rest))
  {
    hide CrcDivision.Divide, CrcDivision.Bits, CrcDivision.ByteBits, CrcTable.StepEight, CrcDivision.Steps;
    CrcDivision.BitsConcat([b], rest);
    OneByte(b);
    CrcDivision.DivideConcat(r, CrcDivision.Bits([b]), CrcDivision.Bits(rest));
    CrcDivision.DivideByte(r, b as bv8);
    CrcTable.StepsEight(r ^ ((b as bv8 as bv32) << 24));
  }

  lemma OneByte(b: byte)
    ensures CrcDivision.Bits([b]) == CrcDivision.ByteBits(b as bv8)
  {
    hide CrcDivision.ByteBits;
    var none: bytes := [b][..0];
    assert CrcDivision.Bits(none) == [];
    assert CrcDivision.Bits([b]) == CrcDivision.Bits(none) + CrcDivision.ByteBits(b as bv8);
  }

  lemma DividedFive(r: bv32, a: byte, b: byte, c: byte, d: byte, e: byte, rest: bytes)
    ensures CrcDivision.Divide(r, CrcDivision.Bits([a, b, c, d, e] + rest)) ==
      CrcDivision.Divide(DivideFive(r, a, b, c, d, e), CrcDivision.Bits(rest))
  {
    hide CrcDivision.Divide, CrcDivision.Bits, DivideOne;
    var r1 := DivideOne(r, a);
    var r2 := DivideOne(r1, b);
    var r3 := DivideOne(r2, c);
    var r4 := DivideOne(r3, d);
    var m4 := [e] + rest;
    var m3 := [d] + m4;
    var m2 := [c] + m3;
    var m1 := [b] + m2;
    assert [a, b, c, d, e] + rest == [a] + m1;
    DividedOne(r, a, m1);
    DividedOne(r1, b, m2);
    DividedOne(r2, c, m3);
    DividedOne(r3, d, m4);
    DividedOne(r4, e, rest);
  }

  lemma NothingLeft(r: bv32, m: bytes)
    requires m == []
    ensures CrcDivision.Divide(r, CrcDivision.Bits(m)) == r
  {
  }

  lemma DividedRow(r: bv32, a: bytes, b: bytes)
    ensures CrcDivision.Divide(r, CrcDivision.Bits(a + b)) ==
      CrcDivision.Divide(CrcDivision.Divide(r, CrcDivision.Bits(a)), CrcDivision.Bits(b))
  {
    hide CrcDivision.Divide, CrcDivision.Bits;
    CrcDivision.BitsConcat(a, b);
    CrcDivision.DivideConcat(r, CrcDivision.Bits(a), CrcDivision.Bits(b));
  }

  lemma NullSteps0()
    ensures DivideFive(0xFFFFFFFF, 0xFC, 0x30, 0x11, 0x00, 0x00) == 0xAC4B3AFD
    ensures DivideFive(0xAC4B3AFD, 0x00, 0x00, 0x00, 0x00, 0x00) == 0xE2C4E6C7
  {
  }

  lemma NullRow0()
    ensures CrcDivision.Divide(0xFFFFFFFF, CrcDivision.Bits(NULL_ROW0)) == 0xE2C4E6C7
  {
    hide CrcDivision.Divide, CrcDivision.Bits, DivideFive, DivideOne;
    NullSteps0();
    var m2: bytes := [];
    var m1: bytes := [0x00, 0x00, 0x00, 0x00, 0x00] + m2;
    var m0: bytes := [0xFC, 0x30, 0x11, 0x00, 0x00] + m1;
    DividedFive(0xFFFFFFFF, 0xFC, 0x30, 0x11, 0x00, 0x00, m1);
    DividedFive(0xAC4B3AFD, 0x00, 0x00, 0x00, 0x00, 0x00, m2);
    NothingLeft(0xE2C4E6C7, m2);
    assert NULL_ROW0 == m0;
  }

  lemma NullSteps1()
    ensures DivideFive(0xE2C4E6C7, 0xFF, 0xFF, 0xFF, 0x00, 0x00) == 0xC9306653
    ensures DivideFive(0xC9306653, 0x00, 0x4F, 0x25, 0x33, 0x96) == 0x00000000
  {
  }

  lemma NullRow1()
    ensures CrcDivision.Divide(0xE2C4E6C7, CrcDivision.Bits(NULL_ROW1)) == 0x00000000
  {
    hide CrcDivision.Divide, CrcDivision.Bits, DivideFive, DivideOne;
    NullSteps1();
    var m2: bytes := [];
    var m1: bytes := [0x00, 0x4F, 0x25, 0x33, 0x96] + m2;
    var m0: bytes := [0xFF, 0xFF, 0xFF, 0x00, 0x00] + m1;
    DividedFive(0xE2C4E6C7, 0xFF, 0xFF, 0xFF, 0x00, 0x00, m1);
    DividedFive(0xC9306653, 0x00, 0x4F, 0x25, 0x33, 0x96, m2);
    NothingLeft(0x00000000, m2);
    assert NULL_ROW1 == m0;
  }

  lemma NullChecksum()
    ensures CrcDivision.Divide(0xFFFF_FFFF, CrcDivision.Bits(NULL_MESSAGE)) == 0
  {
    NullRow0();
    NullRow1();
    hide CrcDivision.Divide, CrcDivision.Bits;
    DividedRow(0xFFFF_FFFF, NULL_ROW0, NULL_ROW1);
  }

  lemma InsertSteps0()
    ensures DivideFive(0xFFFFFFFF, 0xFC, 0x30, 0x2F, 0x00, 0x00) == 0x80C2ED47
    ensures DivideFive(0x80C2ED47, 0x00, 0x00, 0x00, 0x00, 0x00) == 0x19E51918
  {
  }

  lemma InsertRow0()
    ensures CrcDivision.Divide(0xFFFFFFFF, CrcDivision.Bits(INSERT_ROW0)) == 0x19E51918
  {
    hide CrcDivision.Divide, CrcDivision.Bits, DivideFive, DivideOne;
    InsertSteps0();
    var m2: bytes := [];
    var m1: bytes := [0x00, 0x00, 0x00, 0x00, 0x00] + m2;
    var m0: bytes := [0xFC, 0x30, 0x2F, 0x00, 0x00] + m1;
    DividedFive(0xFFFFFFFF, 0xFC, 0x30, 0x2F, 0x00, 0x00, m1);
    DividedFive(0x80C2ED47, 0x00, 0x00, 0x00, 0x00, 0x00, m2);
    NothingLeft(0x19E51918, m2);
    assert INSERT_ROW0 == m0;
  }

  lemma InsertSteps1()
    ensures DivideFive(0x19E51918, 0xFF, 0xFF, 0xFF, 0x05, 0x00) == 0xA0AEF422
    ensures DivideFive(0xA0AEF422, 0x00, 0x02, 0x96, 0x7F, 0xEF) == 0x38EA8F62
  {
  }

  lemma InsertRow1()
    ensures CrcDivision.Divide(0x19E51918, CrcDivision.Bits(INSERT_ROW1)) == 0x38EA8F62
  {
    hide CrcDivision.Divide, CrcDivision.Bits, DivideFive, DivideOne;
    InsertSteps1();
    var m2: bytes := [];
    var m1: bytes := [0x00, 0x02, 0x96, 0x7F, 0xEF] + m2;
    var m0: bytes := [0xFF, 0xFF, 0xFF, 0x05, 0x00] + m1;
    DividedFive(0x19E51918, 0xFF, 0xFF, 0xFF, 0x05, 0x00, m1);
    DividedFive(0xA0AEF422, 0x00, 0x02, 0x96, 0x7F, 0xEF, m2);
    NothingLeft(0x38EA8F62, m2);
    assert INSERT_ROW1 == m0;
  }

  lemma InsertSteps2()
    ensures DivideFive(0x38EA8F62, 0xFF, 0xE1, 0x6A, 0x1A, 0xB8) == 0xAE380A44
    ensures DivideFive(0xAE380A44, 0x7E, 0x01, 0x4C, 0x56, 0x20) == 0xEA8E1B2F
  {
  }

  lemma InsertRow2()
    ensures CrcDivision.Divide(0x38EA8F62, CrcDivision.Bits(INSERT_ROW2)) == 0xEA8E1B2F
  {
    hide CrcDivision.Divide, CrcDivision.Bits, DivideFive, DivideOne;
    InsertSteps2();
    var m2: bytes := [];
    var m1: bytes := [0x7E, 0x01, 0x4C, 0x56, 0x20] + m2;
    var m0: bytes := [0xFF, 0xE1, 0x6A, 0x1A, 0xB8] + m1;
    DividedFive(0x38EA8F62, 0xFF, 0xE1, 0x6A, 0x1A, 0xB8, m1);
    DividedFive(0xAE380A44, 0x7E, 0x01, 0x4C, 0x56, 0x20, m2);
    NothingLeft(0xEA8E1B2F, m2);
    assert INSERT_ROW2 == m0;
  }

  lemma InsertSteps3()
    ensures DivideFive(0xEA8E1B2F, 0x00, 0x01, 0x00, 0x00, 0x00) == 0x1444C5E2
    ensures DivideFive(0x1444C5E2, 0x0A, 0x00, 0x08, 0x43, 0x55) == 0x50556E2E
  {
  }

  lemma InsertRow3()
    ensures CrcDivision.Divide(0xEA8E1B2F, CrcDivision.Bits(INSERT_ROW3)) == 0x50556E2E
  {
    hide CrcDivision.Divide, CrcDivision.Bits, DivideFive, DivideOne;
    InsertSteps3();
    var m2: bytes := [];
    var m1: bytes := [0x0A, 0x00, 0x08, 0x43, 0x55] + m2;
    var m0: bytes := [0x00, 0x01, 0x00, 0x00, 0x00] + m1;
    DividedFive(0xEA8E1B2F, 0x00, 0x01, 0x00, 0x00, 0x00, m1);
    DividedFive(0x1444C5E2, 0x0A, 0x00, 0x08, 0x43, 0x55, m2);
    NothingLeft(0x50556E2E, m2);
    assert INSERT_ROW3 == m0;
  }

  lemma InsertSteps4()
    ensures DivideFive(0x50556E2E, 0x45, 0x49, 0x00, 0x00, 0x00) == 0x9035E776
    ensures DivideFive(0x9035E776, 0x00, 0x10, 0xFA, 0x4D, 0x9E) == 0x00000000
  {
  }

  lemma InsertRow4()
    ensures CrcDivision.Divide(0x50556E2E, CrcDivision.Bits(INSERT_ROW4)) == 0x00000000
  {
    hide CrcDivision.Divide, CrcDivision.Bits, DivideFive, DivideOne;
    InsertSteps4();
    var m2: bytes := [];
    var m1: bytes := [0x00, 0x10, 0xFA, 0x4D, 0x9E] + m2;
    var m0: bytes := [0x45, 0x49, 0x00, 0x00, 0x00] + m1;
    DividedFive(0x50556E2E, 0x45, 0x49, 0x00, 0x00, 0x00, m1);
    DividedFive(0x9035E776, 0x00, 0x10, 0xFA, 0x4D, 0x9E, m2);
    NothingLeft(0x00000000, m2);
    assert INSERT_ROW4 == m0;
  }

  lemma InsertChecksum()
    ensures CrcDivision.Divide(0xFFFF_FFFF, CrcDivision.Bits(INSERT_MESSAGE)) == 0
  {
    InsertRow0();
    InsertRow1();
    InsertRow2();
    InsertRow3();
    InsertRow4();
    hide CrcDivision.Divide, CrcDivision.Bits;
    DividedRow(0xFFFF_FFFF, INSERT_ROW0, INSERT_ROW1);
    DividedRow(0xFFFF_FFFF, INSERT_ROW0 + INSERT_ROW1, INSERT_ROW2);
    DividedRow(0xFFFF_FFFF, INSERT_ROW0 + INSERT_ROW1 + INSERT_ROW2, INSERT_ROW3);
    DividedRow(0xFFFF_FFFF, INSERT_ROW0 + INSERT_ROW1 + INSERT_ROW2 + INSERT_ROW3, INSERT_ROW4);
  }

  // ---------- Fields ----------

  /** The start of a section with all its header fields zero. */
  lemma StartAndHeader(n: byte)
    ensures Fits(StartSyntax(n) + HeaderSyntax(false, 0, 0, 0), [0xFC, 0x30, n, 0, 0, 0, 0, 0, 0, 0])
  {
    hide StartSyntax, HeaderSyntax, Starts, Scte35Emitter.HeaderBytes;
    ThreeBytes(n);
    ZeroHeader();
    HeaderFits(NULL_SECTION);
    FitsTwo(StartSyntax(n), HeaderSyntax(false, 0, 0, 0), [0xFC, 0x30, n], [0, 0, 0, 0, 0, 0, 0]);
    assert [0xFC, 0x30, n] + [0, 0, 0, 0, 0, 0, 0] == [0xFC, 0x30, n, 0, 0, 0, 0, 0, 0, 0];
  }

  lemma ZeroHeader()
    ensures Scte35Emitter.HeaderBytes(NULL_SECTION) == [0, 0, 0, 0, 0, 0, 0]
  {
    ZeroFields();
    hide Write8, Write33Prefix;
    assert NULL_SECTION.ptsAdjustment == 0;
  }

  lemma ZeroPrefix()
    ensures FirstOf33(0, 0) == 0
  {
  }

  lemma ZeroNumber()
    ensures Write32(0) == [0, 0, 0, 0]
  {
    assert Number32(0, 0, 0, 0) == 0;
    Join32(0, 0, 0, 0);
    hide Write32, Number32;
  }

  lemma ZeroFields()
    ensures Write8(0) == [0] && Write33Prefix(0, 0) == [0, 0, 0, 0, 0]
  {
    hide Write32, FirstOf33;
    ZeroPrefix();
    ZeroNumber();
  }

  lemma ThreeBytes(n: byte)
    ensures Fits(StartSyntax(n), [0xFC, 0x30, n])
  {
    hide StartSyntax, Starts;
    StartStarts(n, [0xFC, 0x30, n]);
  }

  /** Tier FFF, a command length that is left open as FFF, and the type. */
  lemma OpenLength(commandType: byte)
    ensures Fits((Number(0xFFF, 12) + Number(0xFFF, 12)) + Number(commandType, 8), [0xFF, 0xFF, 0xFF] + [commandType])
  {
    hide Starts, Number;
    StartsPair(0xFFF, 0xFFF, [0xFF, 0xFF, 0xFF]);
    Fits8(commandType);
    FitsTwo(Number(0xFFF, 12) + Number(0xFFF, 12), Number(commandType, 8), [0xFF, 0xFF, 0xFF], [commandType]);
  }

  /** A section whose bytes fit and whose remainder is zero is delivered, whatever follows it. */
  lemma FittingDelivered(s: Section, a: bytes, checksum: bytes, tail: bytes)
    requires NoTime(s.descriptors) && SectionReadable(s) && |checksum| == 4 && 3 <= |a| <= 4092
    requires Fits(SectionSyntax(s, |a| + 1, 0xFFF, true), a) && a[0] != 0
    requires CrcDivision.Divide(0xFFFF_FFFF, CrcDivision.Bits(a + checksum)) == 0
    ensures Next(NextSection, ParseSection, a + checksum + tail) == (Success(Some(s)), |a| + 4)
  {
    hide Starts, After, SectionSyntax, SectionReadable, CrcDivision.Divide, CrcDivision.Bits, Next, NextSection,
      ParseSection;
    var sec := a + checksum;
    FitsBefore(SectionSyntax(s, |a| + 1, 0xFFF, true), a, checksum);
    assert Carries(sec, s, 0xFFF);
    assert (sec + tail)[0] == a[0];
    assert (sec + tail)[0..|sec|] == sec;
    NextExact(sec + tail, s, |sec|);
  }

  lemma NullFits()
    ensures Fits(SectionSyntax(NULL_SECTION, 17, 0xFFF, true), NULL_ROW0 + [0xFF, 0xFF, 0xFF, 0x00, 0x00, 0x00])
  {
    hide Starts, Number, StartSyntax, HeaderSyntax, LoopSyntax;
    StartAndHeader(0x11);
    OpenLength(0x00);
    NoLoop();
    var b := BodySyntax(0xFFF, 0xFFF, SpliceNull);
    assert b == (Number(0xFFF, 12) + Number(0xFFF, 12)) + Number(0x00, 8);
    FitsThree(StartSyntax(17) + HeaderSyntax(false, 0, 0, 0), b, LoopSyntax([], true), NULL_ROW0,
              [0xFF, 0xFF, 0xFF] + [0x00], [0x00, 0x00]);
    assert NULL_ROW0 + ([0xFF, 0xFF, 0xFF] + [0x00]) + [0x00, 0x00] ==
      NULL_ROW0 + [0xFF, 0xFF, 0xFF, 0x00, 0x00, 0x00];
  }

  lemma NoLoop()
    ensures Fits(LoopSyntax([], true), [0x00, 0x00])
  {
    hide Starts, Number;
    Fits16(0);
    assert Number(0, 16) + [] == Number(0, 16);
  }

  /** next() makes the splice_null section of the 20 bytes, whatever follows them. */
  lemma NullDelivered(tail: bytes)
    ensures |NULL_MESSAGE| == 20
    ensures Next(NextSection, ParseSection, NULL_MESSAGE + tail) == (Success(Some(NULL_SECTION)), 20)
  {
    NullFits();
    NullChecksum();
    hide Fits, SectionSyntax, CrcDivision.Divide, CrcDivision.Bits, Next, NextSection, ParseSection;
    var a: bytes := NULL_ROW0 + [0xFF, 0xFF, 0xFF, 0x00, 0x00, 0x00];
    assert a + [0x4F, 0x25, 0x33, 0x96] == NULL_MESSAGE;
    FittingDelivered(NULL_SECTION, a, [0x4F, 0x25, 0x33, 0x96], tail);
  }

  lemma InsertTimeFits()
    ensures Fits(OptionalTimeSyntax(INSERT_DETAILS.spliceTime), TIME_BYTES)
  {
    TimeWritten();
    hide Starts, Number, ReservedBits, Bit, Write32;
    StartsFlag33(true, 8_076_794_552, TIME_BYTES);
  }

  lemma TimeWritten()
    ensures Write32(8_076_794_552) == [0xE1, 0x6A, 0x1A, 0xB8]
  {
    assert Number32(0xE1, 0x6A, 0x1A, 0xB8) == 8_076_794_552 - 0x1_0000_0000;
    hide Write32, Number32;
    Join32(0xE1, 0x6A, 0x1A, 0xB8);
    Write32Low(1, 8_076_794_552 - 0x1_0000_0000);
  }

  lemma InsertBreakFits()
    ensures Fits(BreakDurationSyntax(INSERT_DETAILS.breakDuration), BREAK_BYTES)
  {
    BreakWritten();
    hide Starts, Number, ReservedBits, Bit, Write32;
    StartsFlag33(false, 0x14C_5620, BREAK_BYTES);
  }

  lemma BreakWritten()
    ensures Write32(0x14C_5620) == [0x01, 0x4C, 0x56, 0x20]
  {
    assert Number32(0x01, 0x4C, 0x56, 0x20) == 0x14C_5620;
    hide Write32, Number32;
    Join32(0x01, 0x4C, 0x56, 0x20);
  }

  lemma InsertFlagsFit()
    ensures Fits(InsertFlagsSyntax(INSERT_DETAILS), [0xEF])
  {
    hide Starts, ReservedBits, Bit;
    StartsFourFlags(true, true, true, false, [0xEF]);
  }

  const TIME_BYTES: bytes := [0xFF, 0xE1, 0x6A, 0x1A, 0xB8]
  const BREAK_BYTES: bytes := [0x7E, 0x01, 0x4C, 0x56, 0x20]
  const PROGRAM_BYTES: bytes := [0x00, 0x01, 0x00, 0x00]

  lemma InsertTimes()
    ensures INSERT_ROW2 == TIME_BYTES + BREAK_BYTES
  {
  }

  lemma InsertProgramFits()
    ensures var d := INSERT_DETAILS;
      Fits(ProgramSyntax(d.uniqueProgramId, d.availNum, d.availsExpected), PROGRAM_BYTES)
  {
    ProgramFits(1, 0, 0);
    assert Scte35Emitter.ProgramBytes(1, 0, 0) == PROGRAM_BYTES;
    hide ProgramSyntax, Fits, PROGRAM_BYTES;
  }

  lemma DetailsFitParts(d: InsertDetails, a: bytes, b: bytes, c: bytes, e: bytes)
    requires d.components == None
    requires Fits(InsertFlagsSyntax(d), a) && Fits(OptionalTimeSyntax(d.spliceTime), b)
    requires Fits(BreakDurationSyntax(d.breakDuration), c)
    requires Fits(ProgramSyntax(d.uniqueProgramId, d.availNum, d.availsExpected), e)
    ensures Fits(InsertDetailsSyntax(d), a + b + c + e)
  {
    hide Fits, InsertFlagsSyntax, OptionalTimeSyntax, BreakDurationSyntax, ProgramSyntax;
    var p, q, r := InsertFlagsSyntax(d), OptionalTimeSyntax(d.spliceTime), BreakDurationSyntax(d.breakDuration);
    assert p + q + [] == p + q;
    FitsThree(p, q, r, a, b, c);
    FitsTwo(p + q + r, ProgramSyntax(d.uniqueProgramId, d.availNum, d.availsExpected), a + b + c, e);
  }

  lemma InsertDetailsBytesFit()
    ensures Fits(InsertDetailsSyntax(INSERT_DETAILS), [0xEF] + INSERT_ROW2 + PROGRAM_BYTES)
  {
    hide ProgramSyntax, InsertFlagsSyntax, OptionalTimeSyntax, BreakDurationSyntax, InsertDetailsSyntax, Fits,
      INSERT_DETAILS, INSERT_ROW2, TIME_BYTES, BREAK_BYTES, PROGRAM_BYTES;
    InsertFlagsFit();
    InsertTimeFits();
    InsertBreakFits();
    InsertProgramFits();
    InsertTimes();
    InsertNoComponents();
    DetailsFitParts(INSERT_DETAILS, [0xEF], TIME_BYTES, BREAK_BYTES, PROGRAM_BYTES);
    Right2([0xEF], TIME_BYTES, BREAK_BYTES);
  }

  lemma InsertNoComponents()
    ensures INSERT_DETAILS.components == None
  {
  }

  const INSERT_COMMAND := SpliceInsert(0x296, Some(INSERT_DETAILS))

  lemma InsertCommandFits()
    ensures Fits(CommandSyntax(INSERT_COMMAND),
      [0x00, 0x00, 0x02, 0x96, 0x7F] + ([0xEF] + INSERT_ROW2 + PROGRAM_BYTES))
  {
    hide Starts, EventHeadSyntax, InsertDetailsSyntax;
    EventHeadFits(0x296, false);
    assert Write32(0x296) + Write8(0x7F) == [0x00, 0x00, 0x02, 0x96, 0x7F];
    InsertDetailsBytesFit();
    FitsTwo(EventHeadSyntax(0x296, false), InsertDetailsSyntax(INSERT_DETAILS), [0x00, 0x00, 0x02, 0x96, 0x7F],
            [0xEF] + INSERT_ROW2 + PROGRAM_BYTES);
  }

  const AVAIL_BYTES: bytes := [0x00, 0x08, 0x43, 0x55, 0x45, 0x49, 0x00, 0x00, 0x00, 0x00]

  lemma AvailWritten()
    ensures Scte35Emitter.DescriptorBytes(AvailDescriptor(0)) == AVAIL_BYTES
  {
    assert Number32(0x43, 0x55, 0x45, 0x49) == CUEI_IDENTIFIER;
    Join32(0x43, 0x55, 0x45, 0x49);
    ZeroNumber();
    hide Write32, Number32;
    assert Scte35Emitter.DescriptorHead(AVAIL_TAG, AVAIL_LENGTH) == [0x00, 0x08, 0x43, 0x55, 0x45, 0x49];
  }

  lemma OneDescriptor(x: Descriptor)
    requires !x.DtmfDescriptor?
    ensures DescriptorsSyntax([x], true) == DescriptorSyntax(x, ContentLength(x))
  {
    hide DescriptorSyntax, ContentLength;
    assert [x][1..] == [];
    assert DescriptorsSyntax([], true) == [];
    assert LengthOf(x, true) == ContentLength(x);
    assert DescriptorSyntax(x, ContentLength(x)) + [] == DescriptorSyntax(x, ContentLength(x));
  }

  lemma TenFits()
    ensures Fits(Number(10, 16), [0x00, 0x0A])
  {
    hide Fits, Number;
    Fits16(10);
    assert Write16(10) == [0x00, 0x0A];
  }

  lemma AvailSize()
    ensures |DescriptorSyntax(AvailDescriptor(0), ContentLength(AvailDescriptor(0)))| == 80
  {
    hide Number;
  }

  lemma InsertLoopFits()
    ensures Fits(LoopSyntax([AvailDescriptor(0)], true), [0x00, 0x0A] + AVAIL_BYTES)
  {
    var x := AvailDescriptor(0);
    DescriptorFits(x);
    AvailWritten();
    OneDescriptor(x);
    TenFits();
    AvailSize();
    hide Fits, Number, DescriptorSyntax, DescriptorsSyntax, AVAIL_BYTES, Scte35Emitter.DescriptorBytes, ContentLength;
    FitsTwo(Number(10, 16), DescriptorSyntax(x, ContentLength(x)), [0x00, 0x0A], AVAIL_BYTES);
  }

  /** The last bytes but the checksum. */
  const INSERT_END: bytes := [
    0x00, 0x01, 0x00, 0x00, 0x00, 0x0A, 0x00, 0x08, 0x43, 0x55, 0x45, 0x49, 0x00, 0x00, 0x00, 0x00
  ]

  lemma InsertRows()
    ensures var command := [0x00, 0x00, 0x02, 0x96, 0x7F] + ([0xEF] + INSERT_ROW2 + PROGRAM_BYTES);
      var loop := [0x00, 0x0A] + AVAIL_BYTES;
      INSERT_ROW0 + (([0xFF, 0xFF, 0xFF] + [0x05]) + command) + loop ==
        INSERT_ROW0 + INSERT_ROW1 + INSERT_ROW2 + INSERT_END
  {
    var r := INSERT_ROW2;
    var e: bytes := [0x00, 0x01, 0x00, 0x00];
    var loop := [0x00, 0x0A] + AVAIL_BYTES;
    assert ([0xFF, 0xFF, 0xFF] + [0x05]) + ([0x00, 0x00, 0x02, 0x96, 0x7F] + ([0xEF] + r + e)) == INSERT_ROW1 + (r + e);
    assert e + loop == INSERT_END;
  }

  lemma InsertFits()
    ensures Fits(SectionSyntax(INSERT_SECTION, 47, 0xFFF, true), INSERT_ROW0 + INSERT_ROW1 + INSERT_ROW2 + INSERT_END)
  {
    hide Starts, Number, StartSyntax, HeaderSyntax, LoopSyntax, CommandSyntax;
    StartAndHeader(0x2F);
    OpenLength(0x05);
    InsertCommandFits();
    InsertLoopFits();
    InsertRows();
    var p := (Number(0xFFF, 12) + Number(0xFFF, 12)) + Number(0x05, 8);
    var command := [0x00, 0x00, 0x02, 0x96, 0x7F] + ([0xEF] + INSERT_ROW2 + PROGRAM_BYTES);
    FitsTwo(p, CommandSyntax(INSERT_COMMAND), [0xFF, 0xFF, 0xFF] + [0x05], command);
    assert BodySyntax(0xFFF, 0xFFF, INSERT_COMMAND) == p + CommandSyntax(INSERT_COMMAND);
    FitsThree(StartSyntax(47) + HeaderSyntax(false, 0, 0, 0), BodySyntax(0xFFF, 0xFFF, INSERT_COMMAND),
              LoopSyntax([AvailDescriptor(0)], true), INSERT_ROW0, ([0xFF, 0xFF, 0xFF] + [0x05]) + command,
              [0x00, 0x0A] + AVAIL_BYTES);
  }

  lemma InsertReadable()
    ensures SectionReadable(INSERT_SECTION) && NoTime(INSERT_SECTION.descriptors)
  {
  }

  /** next() makes the splice_insert section of the 50 bytes, whatever follows them. */
  lemma InsertDelivered(tail: bytes)
    ensures |INSERT_MESSAGE| == 50
    ensures Next(NextSection, ParseSection, INSERT_MESSAGE + tail) == (Success(Some(INSERT_SECTION)), 50)
  {
    InsertFits();
    InsertChecksum();
    InsertReadable();
    hide Fits, SectionSyntax, SectionReadable, CrcDivision.Divide, CrcDivision.Bits, Next, NextSection, ParseSection,
      NoTime;
    var a: bytes := INSERT_ROW0 + INSERT_ROW1 + INSERT_ROW2 + INSERT_END;
    assert INSERT_END + [0x10, 0xFA, 0x4D, 0x9E] == INSERT_ROW3 + INSERT_ROW4;
    assert a + [0x10, 0xFA, 0x4D, 0x9E] == INSERT_MESSAGE;
    FittingDelivered(INSERT_SECTION, a, [0x10, 0xFA, 0x4D, 0x9E], tail);
  }
}
