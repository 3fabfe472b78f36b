/** How the parser and the emitter of splice information sections relate. */
module Scte35RoundTrip {
  import opened Wrappers
  import opened Words
  import opened Wire
  import opened BinaryParsing
  import opened Scte35
  import opened Scte35Syntax
  import opened Scte35Emitter
  import opened Scte35Parser
  import opened Scte35Acceptance
  import opened Scte35Conformance
  import Scte35Rejection
  import Crc32

  // ---------- The domain ----------

  predicate DescriptorOk(d: Descriptor) {
    match d
    case AvailDescriptor(_) => true
    case DtmfDescriptor(_, _) => true
    case SegmentationDescriptor(data) => |data| <= 251
    case TimeDescriptor(_, _, _) => false
  }

  predicate DescriptorsOk(ds: seq<Descriptor>) {
    forall i :: 0 <= i < |ds| ==> DescriptorOk(ds[i])
  }

  /** Well-formed sections: fields in range, optional fields as the flags demand, not too long. */
  predicate SectionOk(s: Section) {
    && s.encryptionAlgorithm < 0x40
    && s.ptsAdjustment < 0x2_0000_0000
    && s.tier < 0x1000
    && CommandOk(s.command)
    && DescriptorsOk(s.descriptors)
    && SectionLength(s) <= MAX_SECTION_LENGTH
  }

  /** The eight bits that the command length is reduced to are the size of the command, counted in 16 bits. */
  predicate LengthAgrees(c: Command) {
    (CommandHint(c) + ForgottenIn(c)) % 0x1_0000 == CommandHint(c) % 0x100
  }

  /** Where the size hint forgets nothing, that means a command of less than 256 bytes. */
  lemma ShortLengthAgrees(c: Command)
    requires ForgottenIn(c) == 0 && CommandHint(c) < 0x1_0000
    ensures LengthAgrees(c) <==> CommandHint(c) < 0x100
  {
  }

  /** The command length survives, and the tier already has the bits that it leaves there. */
  predicate PairOk(s: Section) {
    LengthAgrees(s.command) && Covers(s.tier as int % 0x10, CommandHint(s.command) / 0x10 % 0x10)
  }

  predicate NoDtmf(ds: seq<Descriptor>) {
    forall i :: 0 <= i < |ds| ==> !ds[i].DtmfDescriptor?
  }

  /** The sections that come back from all bytes that were written for them. */
  predicate ComesBack(s: Section) {
    !s.encryptedPacket && !s.command.PrivateCommand? && NoDtmf(s.descriptors) && PairOk(s)
  }

  predicate AllCancelled(es: seq<ScheduleEvent>) {
    forall i :: 0 <= i < |es| ==> es[i].details.None?
  }

  /** The sections that come back from the bytes that next() takes for them. */
  predicate Survives(s: Section) {
    && !s.encryptedPacket
    && !s.command.PrivateCommand?
    && (s.command.SpliceSchedule? ==> AllCancelled(s.command.events))
    && NoDtmf(s.descriptors)
    && CommandHint(s.command) < 0x100
    && Covers(s.tier as int % 0x10, CommandHint(s.command) / 0x10 % 0x10)
  }

  lemma {:induction false} NoneForgotten(es: seq<ScheduleEvent>)
    ensures ForgottenAll(es) == 0 <==> AllCancelled(es)
    decreases |es|
  {
    if es != [] {
      var front, last := es[..|es| - 1], es[|es| - 1];
      NoneForgotten(front);
      assert last.details.Some? ==> Forgotten(last) > 0;
      assert AllCancelled(es) <==> AllCancelled(front) && last.details.None?;
    }
  }

  lemma SurvivesWhole(s: Section)
    requires SectionOk(s)
    ensures Survives(s) <==> ComesBack(s) && ForgottenIn(s.command) == 0
  {
    hide CommandHint, CommandOk, DescriptorsOk, NoDtmf, AllCancelled, Covers, ForgottenAll, LengthAgrees;
    if s.command.SpliceSchedule? {
      NoneForgotten(s.command.events);
    }
    if ForgottenIn(s.command) == 0 {
      ShortLengthAgrees(s.command);
    }
  }

  /** Kinds of sections that the parser takes back from the emitter. */
  predicate Supported(s: Section) {
    !s.encryptedPacket && !s.command.PrivateCommand? && NoDtmf(s.descriptors)
  }

  lemma InRange(s: Section)
    requires SectionOk(s) && NoDtmf(s.descriptors)
    ensures SectionInRange(s)
  {
    hide CommandOk, SectionLength;
  }

  /** A section survives exactly when it is of such a kind and written as the standard prescribes it. */
  lemma SurvivesConforming(s: Section)
    requires SectionOk(s)
    ensures Survives(s) <==> Supported(s) && Conforms(Emit(s), s)
  {
    hide Emit, SectionOk, SectionInRange, CommandHint, NoDtmf, AllCancelled, Covers, ForgottenAll, Conforms, CommandOk;
    EmitConforms(s);
    ShortEnough(s);
    if NoDtmf(s.descriptors) {
      InRange(s);
    }
    if s.command.SpliceSchedule? {
      NoneForgotten(s.command.events);
    }
  }

  lemma ShortEnough(s: Section)
    requires SectionOk(s)
    ensures SectionLength(s) <= 4093
  {
    hide CommandOk, DescriptorsOk, SectionLength;
  }

  lemma {:induction false} SameForm(ds: seq<Descriptor>)
    requires NoDtmf(ds)
    ensures DescriptorsSyntax(ds, true) == DescriptorsSyntax(ds, false)
    decreases |ds|
  {
    hide DescriptorSyntax, ContentLength;
    if ds != [] {
      NoDtmfCons(ds[0], ds[1..]);
      assert ds == [ds[0]] + ds[1..];
      SameForm(ds[1..]);
    }
  }

  lemma ReadableDescriptors(ds: seq<Descriptor>)
    requires NoTime(ds) && forall i :: 0 <= i < |ds| ==> DescriptorInRange(ds[i])
    ensures DescriptorsReadable(ds)
  {
  }

  lemma CodedIfConforms(sec: bytes, s: Section)
    requires Supported(s) && NoTime(s.descriptors) && Conforms(sec, s)
    ensures Coded(sec, s)
  {
    hide Starts, After, StartSyntax, HeaderSyntax, BodySyntax, DescriptorsSyntax, CommandSize, CommandOk, Crc32.Compute,
      DescriptorInRange, DescriptorsReadable;
    SameForm(s.descriptors);
    ReadableDescriptors(s.descriptors);
  }

  /**
   The parser reads the standard: any section of such a kind without time descriptors, written as the
   standard prescribes it, is delivered from its bytes, whatever follows them. That includes sections that
   the program itself does not write like this: with long commands, or events that are not cancelled.
   */
  lemma StandardDelivered(sec: bytes, s: Section, pointer: bool, tail: bytes)
    requires Supported(s) && NoTime(s.descriptors) && Conforms(sec, s)
    ensures var front := if pointer then [0] else [];
      Next(NextSection, ParseSection, front + (sec + tail)) == (Success(Some(s)), |front| + |sec|)
  {
    hide Starts, StartSyntax, Coded, Conforms, Supported, Next, NextSection, ParseSection;
    CodedIfConforms(sec, s);
    CodedStart(sec, s);
    CodedSize(sec, s);
    StartStarts(|sec| - 3, sec);
    var front: bytes := if pointer then [0] else [];
    var d := front + (sec + tail);
    Between(front, sec, tail, |sec|);
    assert sec[..|sec|] == sec;
    assert pointer || d[0] == sec[0];
    NextExact(d, s, |front| + |sec|);
  }

  // ---------- Commands come back ----------

  /** Every well-formed command but a private one comes back, and nothing behind it is touched. */
  lemma CommandReads(c: Command, length: u16, tail: bytes)
    requires CommandOk(c) && !c.PrivateCommand?
    ensures ParseCommand(CommandBytes(c) + tail, c.Type(), length) == Success((c, tail))
  {
    assert c.Type() == CommandType(c);
    hide Starts, After, CommandSyntax, CommandBytes, ParseCommand, CommandOk;
    CommandFits(c);
    FitsBefore(CommandSyntax(c), CommandBytes(c), tail);
    CommandExact(c, c.Type(), length, CommandBytes(c) + tail);
  }

  // ---------- Descriptors come back ----------

  lemma DescriptorHeadReads(tag: byte, length: byte, rest: bytes)
    ensures var d := DescriptorHead(tag, length) + rest;
      && Read8(d) == Success((tag, d[1..]))
      && Read8(d[1..]) == Success((length, d[2..]))
      && Read32(d[2..]) == Success((CUEI_IDENTIFIER, rest))
      && |d[2..]| == 4 + |rest|
  {
    var d := DescriptorHead(tag, length) + rest;
    assert d[2..] == Write32(CUEI_IDENTIFIER) + rest;
    Reads32(CUEI_IDENTIFIER, rest);
  }

  lemma DescriptorReads(d: Descriptor, tail: bytes)
    requires DescriptorOk(d) && !d.DtmfDescriptor?
    ensures ParseDescriptor(DescriptorBytes(d) + tail) == Success((d, tail))
  {
    hide Starts, After, DescriptorSyntax, DescriptorBytes, ParseDescriptor, ContentLength;
    DescriptorFits(d);
    FitsBefore(DescriptorSyntax(d, ContentLength(d)), DescriptorBytes(d), tail);
    DescriptorExact(d, DescriptorBytes(d) + tail);
  }

  lemma DescriptorNotEmpty(d: Descriptor)
    ensures |DescriptorBytes(d)| > 0
  {
  }

  /** A DTMF descriptor is announced one byte longer than the parser demands, so it never comes back. */
  lemma DtmfNeverReads(preroll: byte, chars: bytes, tail: bytes)
    ensures ParseDescriptor(DescriptorBytes(DtmfDescriptor(preroll, chars)) + tail).Failure?
  {
    var length: byte := (6 + |chars|) % 0x100;
    var count := 0x20 * |chars| % 0x100 / 0x20;
    var rest := Write8(preroll) + Write8(0x20 * |chars|) + chars + tail;
    DtmfLength(|chars|);
    DescriptorHeadReads(DTMF_TAG, length, rest);
    assert DescriptorHead(DTMF_TAG, 6 + |chars|) == DescriptorHead(DTMF_TAG, length);
    assert DescriptorBytes(DtmfDescriptor(preroll, chars)) + tail == DescriptorHead(DTMF_TAG, length) + rest;
    hide DescriptorHead, Write32;
  }

  lemma DtmfLength(n: nat)
    ensures (6 + n) % 0x100 != 5 + 0x20 * n % 0x100 / 0x20
  {
    CountRead(n);
    DivMod(6 + n, 0x100);
    DivMod(n, 8);
    Incongruent(n / 8, n % 8, (6 + n) / 0x100);
  }

  lemma DivMod(x: nat, y: nat)
    requires y > 0
    ensures x == y * (x / y) + x % y
  {
  }

  lemma Incongruent(q: int, r: int, k: int)
    ensures 8 * q + r + 6 != 0x100 * k + 5 + r
  {
    assert 8 * (0x20 * k - q) != 1;
  }

  /** A descriptor loop comes back unless there is a DTMF descriptor in it; then it is rejected. */
  lemma {:induction false} DescriptorsRead(ds: seq<Descriptor>)
    requires DescriptorsOk(ds)
    ensures var r := ParseDescriptors(DescriptorsBytes(ds));
      if NoDtmf(ds) then r == Success(ds) else r.Failure?
    decreases |ds|
  {
    hide DescriptorBytes, DescriptorsBytes, ParseDescriptor, DescriptorOk;
    if ds == [] {
      DescriptorsNone();
    } else {
      var d, ds' := ds[0], ds[1..];
      assert ds == [d] + ds';
      NoDtmfCons(d, ds');
      DescriptorsCons(d, ds');
      DescriptorsRead(ds');
      DescriptorNotEmpty(d);
      if d.DtmfDescriptor? {
        DtmfNeverReads(d.preroll, d.dtmfChars, DescriptorsBytes(ds'));
      } else {
        DescriptorReads(d, DescriptorsBytes(ds'));
      }
    }
  }

  lemma NoDtmfCons(d: Descriptor, ds: seq<Descriptor>)
    ensures NoDtmf([d] + ds) <==> !d.DtmfDescriptor? && NoDtmf(ds)
  {
    assert ([d] + ds)[0] == d && forall i :: 0 <= i < |ds| ==> ds[i] == ([d] + ds)[i + 1];
  }

  // ---------- Sections come back ----------

  lemma LoopReads(ds: seq<Descriptor>, tail: bytes)
    requires DescriptorsOk(ds) && DescriptorsHint(ds) < 0x1_0000 && tail != []
    ensures var r := ParseLoop(Write16(DescriptorsHint(ds)) + DescriptorsBytes(ds) + tail);
      if NoDtmf(ds) then r == Success((ds, tail)) else r.Failure?
  {
    hide Write16, Read16, DescriptorsBytes, DescriptorsHint, ParseDescriptors, DescriptorOk;
    var n, bs := DescriptorsHint(ds), DescriptorsBytes(ds);
    DescriptorsRead(ds);
    DescriptorsLength(ds);
    Right2(Write16(n), bs, tail);
    Reads16(n, bs + tail);
    assert (bs + tail)[..n] == bs && (bs + tail)[n..] == tail;
    if n == 0 {
      NoDescriptors(ds);
      DescriptorsNone();
      assert bs + tail == tail;
    }
  }

  lemma NoDescriptors(ds: seq<Descriptor>)
    requires DescriptorsHint(ds) == 0
    ensures ds == []
  {
  }

  lemma HeaderReads(s: Section, tail: bytes)
    requires SectionOk(s)
    ensures ParseHeader(HeaderBytes(s) + tail) ==
      if s.encryptedPacket then Failure(Encrypted)
      else Success((Header(s.encryptionAlgorithm, s.ptsAdjustment, s.cwIndex), tail))
  {
    hide Starts, After, HeaderSyntax, HeaderBytes, ParseHeader, SectionLength, CommandOk, DescriptorsOk;
    HeaderFits(s);
    var p := HeaderSyntax(s.encryptedPacket, s.encryptionAlgorithm, s.ptsAdjustment, s.cwIndex);
    FitsBefore(p, HeaderBytes(s), tail);
    if s.encryptedPacket {
      EncryptedHeader(s.encryptionAlgorithm, s.ptsAdjustment, s.cwIndex, HeaderBytes(s) + tail);
    } else {
      HeaderExact(Header(s.encryptionAlgorithm, s.ptsAdjustment, s.cwIndex), HeaderBytes(s) + tail);
    }
  }

  /** The tier that is read back. */
  function TierRead(s: Section): nat {
    s.tier / 0x10 * 0x10 + NibbleOr(s.tier as int % 0x10, CommandHint(s.command) / 0x10 % 0x10)
  }

  lemma BodyReads(s: Section, tail: bytes)
    requires SectionOk(s) && !s.command.PrivateCommand? && tail != []
    ensures var r := ParseBody(BodyBytes(s) + tail);
      if LengthAgrees(s.command) then r == Success(((TierRead(s), s.command), tail))
      else r == Failure(CommandLengthDiffers)
  {
    hide NibbleOr, Write8, Read8, Write12Pair, Scan12High, Read12Low, ParseCommand, CommandBytes, CommandHint,
      CommandOk, DescriptorsOk, DescriptorsHint, ForgottenIn;
    var n, c := CommandHint(s.command), CommandBytes(s.command);
    assert n < 0x1000;
    var pair, kind := Write12Pair(s.tier, n), Write8(s.command.Type());
    Right3(pair, kind, c, tail);
    var d := pair + (kind + (c + tail));
    Reads12Pair(s.tier, n, kind + (c + tail));
    Reads8(s.command.Type(), c + tail);
    CommandReads(s.command, n % 0x100, tail);
    CommandLength(s.command);
    FirstByteRead(d);
  }

  lemma FirstByteRead(d: bytes)
    requires d != []
    ensures Read8(d) == Success((d[0], d[1..]))
  {
  }

  lemma EmitSize(s: Section)
    ensures |Emit(s)| == 3 + SectionLength(s) + ForgottenIn(s.command) && SectionLength(s) >= 17
  {
    hide ForgottenIn;
    EmittedLength(s);
  }

  lemma FirstBytes(s: Section)
    ensures var w := Write12Prefix(0x3, SectionLength(s));
      |Emit(s)| >= MIN_SECTION_SIZE && Emit(s)[..3] == [TABLE_ID, w[0], w[1]]
  {
    hide SectionLength, HeaderBytes, BodyBytes, LoopBytes, Crc32.Compute, Crc32.ChecksumBytes, ForgottenIn;
    EmittedLength(s);
    SectionLengthLeast(s);
    LengthThree(s);
  }

  lemma SectionLengthLeast(s: Section)
    ensures SectionLength(s) >= 17
  {
  }

  lemma LengthThree(s: Section)
    ensures var w := Write12Prefix(0x3, SectionLength(s));
      LengthBytes(s) == [TABLE_ID, w[0], w[1]]
  {
    hide SectionLength;
  }

  /** The first three bytes of an emitted section, whatever follows it. */
  lemma LengthReads(s: Section, tail: bytes)
    requires SectionOk(s)
    ensures var d := Emit(s) + tail;
      && Chopped(d) == d && |d| >= MIN_SECTION_SIZE
      && ParseUntilLength(d) == Success((SectionLength(s), d[3..]))
      && |Emit(s)| == 3 + SectionLength(s) + ForgottenIn(s.command)
  {
    hide SectionLength, Emit, CommandOk, DescriptorsOk, Number12, Flag, ForgottenIn;
    EmitSize(s);
    FirstBytes(s);
    var n := SectionLength(s);
    LengthFlags(n);
    var d := Emit(s) + tail;
    assert d[0] == Emit(s)[..3][0] && d[1] == Emit(s)[..3][1] && d[2] == Emit(s)[..3][2];
  }

  lemma LengthFlags(n: nat)
    requires n < 0x1000
    ensures var w := Write12Prefix(0x3, n);
      !Flag(w[0], 0x80) && !Flag(w[0], 0x40) && Number12(w[0], w[1]) == n
  {
    hide Write12Prefix, Number12, Flag;
    var w := Write12Prefix(0x3, n);
    Reads12Prefix(0x3, n, []);
    assert w + [] == w;
    FlagsClear(w[0]);
  }

  lemma FlagsClear(b: byte)
    requires b / 0x10 == 0x3
    ensures !Flag(b, 0x80) && !Flag(b, 0x40)
  {
  }

  /** All of a section but its first three bytes. */
  lemma EmitSplit(s: Section)
    requires SectionOk(s)
    ensures Emit(s)[3..] ==
      HeaderBytes(s) + (BodyBytes(s) + (LoopBytes(s) + Crc32.ChecksumBytes(Crc32.Compute(Unchecked(s)))))
  {
    var h, b, l := HeaderBytes(s), BodyBytes(s), LoopBytes(s);
    var c := Crc32.ChecksumBytes(Crc32.Compute(Unchecked(s)));
    assert |LengthBytes(s)| == 3;
    hide LengthBytes, HeaderBytes, BodyBytes, LoopBytes, Crc32.Compute, Crc32.ChecksumBytes;
    Right4(LengthBytes(s), h, b, l, c);
  }

  /** What the parser makes of an emitted section. */
  lemma ReadsAs(s: Section)
    requires SectionOk(s) && !s.command.PrivateCommand?
    ensures var r := ParseSection(Emit(s), ());
      if s.encryptedPacket then r == Failure(Encrypted)
      else if !LengthAgrees(s.command) then r == Failure(CommandLengthDiffers)
      else if NoDtmf(s.descriptors) then r == Success(s.(tier := TierRead(s)))
      else r.Failure?
  {
    hide Emit, HeaderBytes, BodyBytes, LoopBytes, ParseUntilLength, ParseHeader, ParseBody, ParseLoop, Crc32.Compute,
      Crc32.ChecksumBytes, Read32, LengthAgrees, NoDtmf, TierRead, CommandOk, DescriptorsOk, SectionLength;
    var c := Crc32.ChecksumBytes(Crc32.Compute(Unchecked(s)));
    assert Emit(s) + [] == Emit(s);
    LengthReads(s, []);
    EmitSplit(s);
    HeaderReads(s, BodyBytes(s) + (LoopBytes(s) + c));
    BodyReads(s, LoopBytes(s) + c);
    SectionLoopReads(s, c);
    EmittedChecksum(s);
    ReadChecksum(c);
  }

  lemma ReadChecksum(c: bytes)
    requires |c| == 4
    ensures Read32(c).Success?
  {
  }

  lemma SectionLoopReads(s: Section, tail: bytes)
    requires SectionOk(s) && tail != []
    ensures var r := ParseLoop(LoopBytes(s) + tail);
      if NoDtmf(s.descriptors) then r == Success((s.descriptors, tail)) else r.Failure?
  {
    hide ParseLoop, DescriptorsHint, DescriptorsBytes, CommandHint, NoDtmf;
    assert DescriptorsHint(s.descriptors) < 0x1000;
    LoopReads(s.descriptors, tail);
  }

  lemma TierReadExact(s: Section)
    requires LengthAgrees(s.command)
    ensures TierRead(s) == s.tier <==> PairOk(s)
  {
    hide CommandHint, NibbleOr, Covers, LengthAgrees;
    var a, b := s.tier as int % 0x10, CommandHint(s.command) / 0x10 % 0x10;
    CoversIsOr(a, b);
  }

  /**
   Packing on its own: given all bytes that were emitted, the parser gives the section back if and only if
   it is not encrypted, has no private command and no DTMF descriptor, its command length survives, and its
   tier already has the bits that the command length merges into it.
   */
  lemma PackRoundTrip(s: Section)
    requires SectionOk(s)
    ensures ParseSection(Emit(s), ()) == Success(s) <==> ComesBack(s)
  {
    hide Emit, ParseSection, TierRead, CommandOk, DescriptorsOk, SectionLength, LengthAgrees, NoDtmf, PairOk;
    if s.command.PrivateCommand? {
      Scte35Rejection.PrivateCommandRejected(Emit(s));
    } else {
      ReadsAs(s);
      if LengthAgrees(s.command) {
        TierReadExact(s);
      } else {
        DisagreeingPair(s);
      }
    }
  }

  lemma DisagreeingPair(s: Section)
    requires !LengthAgrees(s.command)
    ensures !PairOk(s)
  {
    hide LengthAgrees;
  }

  /** Where no splice of a schedule is left out of the size hint, the condition is about sizes and bits only. */
  lemma PackRoundTripWhole(s: Section)
    requires SectionOk(s) && ForgottenIn(s.command) == 0
    ensures ParseSection(Emit(s), ()) == Success(s) <==>
      && !s.encryptedPacket && !s.command.PrivateCommand? && NoDtmf(s.descriptors)
      && CommandHint(s.command) < 0x100 && Covers(s.tier as int % 0x10, CommandHint(s.command) / 0x10 % 0x10)
  {
    hide Emit, ParseSection, CommandHint, ForgottenIn, CommandOk, DescriptorsOk, LengthAgrees, NoDtmf, Covers;
    PackRoundTrip(s);
    ShortLengthAgrees(s.command);
  }

  /** A section of tier 0 with an insert of 20 bytes. */
  function InsertInTierZero(): Section {
    var d := InsertDetails(true, true, false, Some(SpliceTime(Some(0))), None, Some(BreakDuration(true, 0)), 1, 0, 0);
    Section(false, 0, 0, 0, 0, SpliceInsert(1, Some(d)), [])
  }

  lemma InsertInTierZeroSize(c: Command)
    requires c == InsertInTierZero().command
    ensures CommandOk(c) && CommandHint(c) == 20 && ForgottenIn(c) == 0
  {
  }

  lemma InsertInTierZeroRead(s: Section)
    requires s == InsertInTierZero()
    ensures s.tier == 0 && !s.encryptedPacket && !s.command.PrivateCommand?
    ensures SectionOk(s) && LengthAgrees(s.command) && NoDtmf(s.descriptors) && TierRead(s) == 1
  {
    hide CommandOk, CommandHint, ForgottenIn, NibbleOr, DescriptorsHint, DescriptorOk;
    InsertInTierZeroSize(s.command);
    NoDescriptorsHint();
    var a, b := s.tier as int % 0x10, CommandHint(s.command) / 0x10 % 0x10;
    LowestBitMerged(a, b);
  }

  lemma LowestBitMerged(a: nibble, b: nibble)
    requires a == 0 && b == 1
    ensures NibbleOr(a, b) == 1
  {
  }

  /** It is well-formed and next() delivers it changed: a bit of its command length has got into the tier. */
  lemma InsertChangesTier()
    ensures var s := InsertInTierZero();
      s.tier == 0 && SectionOk(s) && Next(NextSection, ParseSection, Emit(s)).0 == Success(Some(s.(tier := 1)))
  {
    hide InsertInTierZero, Emit, Next, NextSection, ParseSection, SectionOk, LengthAgrees, NoDtmf, TierRead,
      SectionLength, CommandOk, CommandHint, ForgottenIn;
    var s := InsertInTierZero();
    InsertInTierZeroSize(s.command);
    InsertInTierZeroRead(s);
    ReadsAs(s);
    NextTakes(s, false, []);
    EmitSize(s);
    EmptyAround(Emit(s));
    assert Emit(s)[..|Emit(s)|] == Emit(s);
  }

  // ---------- Streams of sections ----------

  /** Sections one after the other, each with a pointer byte 00 before it or not. */
  function Stream(ss: seq<Section>, pointers: seq<bool>): bytes
    requires |ss| == |pointers|
  {
    if ss == [] then []
    else (if pointers[0] then [0] else []) + (Emit(ss[0]) + Stream(ss[1..], pointers[1..]))
  }

  lemma UntilLengthPointer(d: bytes)
    requires Chopped(d) == d && ParseUntilLength(d).Success?
    ensures Chopped([0] + d) == d && ParseUntilLength([0] + d) == ParseUntilLength(d)
  {
    assert ([0] + d)[1..] == d;
  }

  /** What one call of next() hands to the parser: as many bytes as the section announces. */
  lemma NextTakes(s: Section, pointer: bool, tail: bytes)
    requires SectionOk(s)
    ensures 3 + SectionLength(s) <= |Emit(s)|
    ensures var front := if pointer then [0] else [];
      var taken := Emit(s)[..3 + SectionLength(s)];
      Next(NextSection, ParseSection, front + (Emit(s) + tail)) ==
        match ParseSection(taken, ())
        case Failure(e) => (Failure(e), |front| + |taken|)
        case Success(p) => (Success(Some(p)), |front| + |taken|)
  {
    hide Emit, ParseSection, ParseUntilLength, SectionLength, CommandOk, DescriptorsOk, ForgottenIn;
    var e, n := Emit(s), 3 + SectionLength(s);
    LengthReads(s, tail);
    var front: bytes := if pointer then [0] else [];
    var d := front + (e + tail);
    if pointer {
      UntilLengthPointer(e + tail);
    } else {
      assert d == e + tail;
    }
    Between(front, e, tail, n);
  }

  lemma Between(front: bytes, e: bytes, tail: bytes, n: nat)
    requires n <= |e|
    ensures (front + (e + tail))[|front|..|front| + n] == e[..n]
  {
    var a, b := (front + (e + tail))[|front|..|front| + n], e[..n];
    forall i | 0 <= i < n
      ensures a[i] == b[i]
    {
      assert a[i] == (front + (e + tail))[|front| + i];
    }
  }

  /** A section that is accepted has taken all its bytes, those that its size hint forgets as well. */
  lemma AcceptedSize(d: bytes)
    requires ParseSection(d, ()).Success?
    ensures var s := ParseSection(d, ()).value;
      3 + SectionLength(s) + ForgottenIn(s.command) <= |d|
  {
    hide ParseUntilLength, ParseHeader, ParseBody, ParseLoop, CommandHint, ForgottenIn, DescriptorsHint, CommandOk,
      DescriptorsOk, Crc32.Compute, Chopped, Number32;
    var d1 := ParseUntilLength(d).value.1;
    var d2 := ParseHeader(d1).value.1;
    var d3 := ParseBody(d2).value.1;
    ParsedHeader(d1);
    ParsedBody(d2);
    ParsedLoop(d3);
  }

  /**
   For every well-formed section, with or without a pointer byte and whatever follows it: one call of
   next() on what was emitted delivers the section if and only if it is not encrypted, has no private
   command, no event of a schedule that is not cancelled and no DTMF descriptor, its command is shorter
   than 256 bytes, and its tier already has the bits that the command length merges into it.
   */
  lemma RoundTrip(s: Section, pointer: bool, tail: bytes)
    requires SectionOk(s)
    ensures var front := if pointer then [0] else [];
      Next(NextSection, ParseSection, front + (Emit(s) + tail)).0 == Success(Some(s)) <==> Survives(s)
  {
    hide Emit, Next, NextSection, ParseSection, SectionOk, Survives, ComesBack, SectionLength, ForgottenIn;
    NextTakes(s, pointer, tail);
    EmitSize(s);
    PackRoundTrip(s);
    SurvivesWhole(s);
    var taken := Emit(s)[..3 + SectionLength(s)];
    if ParseSection(taken, ()) == Success(s) {
      AcceptedSize(taken);
    }
    if ForgottenIn(s.command) == 0 {
      assert taken == Emit(s);
    }
  }

  /** For such a section next() takes exactly the pointer byte and its bytes. */
  lemma NextReads(s: Section, pointer: bool, tail: bytes)
    requires SectionOk(s) && Survives(s)
    ensures var front := if pointer then [0] else [];
      Next(NextSection, ParseSection, front + (Emit(s) + tail)) == (Success(Some(s)), |front| + |Emit(s)|)
  {
    hide Emit, Next, NextSection, ParseSection, SectionOk, Survives, ComesBack, SectionLength, ForgottenIn;
    NextTakes(s, pointer, tail);
    RoundTrip(s, pointer, tail);
    EmitSize(s);
    SurvivesWhole(s);
  }

  /**
   Repeated calls of next() over any list of well-formed sections give back that list if and only if
   every section of it survives.
   */
  lemma {:induction false} StreamReads(ss: seq<Section>, pointers: seq<bool>)
    requires |ss| == |pointers| && forall i :: 0 <= i < |ss| ==> SectionOk(ss[i])
    ensures Packets(NextSection, ParseSection, Stream(ss, pointers)) == Success(ss) <==> AllSurvive(ss)
    decreases |ss|
  {
    hide Emit, SectionOk, Survives, AllSurvive, Next, NextSection, ParseSection;
    if ss == [] {
      NextNothing();
      NoneDies();
    } else {
      var front: bytes := if pointers[0] then [0] else [];
      var first, others := ss[0], ss[1..];
      var e, tail := Emit(first), Stream(others, pointers[1..]);
      StreamReads(others, pointers[1..]);
      RoundTrip(first, pointers[0], tail);
      EmitNotEmpty(first);
      var d := front + (e + tail);
      assert d[|front| + |e|..] == tail;
      assert ss == [first] + others;
      AllSurviveCons(first, others);
      if Survives(first) {
        NextReads(first, pointers[0], tail);
        PrependFirst(first, Packets(NextSection, ParseSection, tail), others);
      } else if Packets(NextSection, ParseSection, d) == Success(ss) {
        FirstPacket(d, ss);
        assert false;
      }
    }
  }

  predicate AllSurvive(ss: seq<Section>) {
    forall i :: 0 <= i < |ss| ==> Survives(ss[i])
  }

  lemma NoneDies()
    ensures AllSurvive([])
  {
  }

  lemma AllSurviveCons(first: Section, others: seq<Section>)
    ensures AllSurvive([first] + others) <==> Survives(first) && AllSurvive(others)
  {
    hide Survives;
    var ss := [first] + others;
    assert ss[0] == first && forall i :: 0 <= i < |others| ==> others[i] == ss[i + 1];
  }

  lemma PrependFirst(first: Section, rest: Result<seq<Section>>, others: seq<Section>)
    ensures Prepend([first], rest) == Success([first] + others) <==> rest == Success(others)
  {
    if rest.Success? && [first] + rest.value == [first] + others {
      assert rest.value == ([first] + rest.value)[1..] == ([first] + others)[1..] == others;
    }
  }

  /** The first of the packets is the one that the first call of next() delivers. */
  lemma FirstPacket(d: bytes, ss: seq<Section>)
    requires ss != [] && Packets(NextSection, ParseSection, d) == Success(ss)
    ensures Next(NextSection, ParseSection, d).0 == Success(Some(ss[0]))
  {
    hide Next, NextSection, ParseSection;
  }

  lemma NextNothing()
    ensures Next(NextSection, ParseSection, []) == (Success(None), 0)
  {
  }

  // ---------- A schedule that next() cuts off ----------

  function LongEvent(): ScheduleEvent {
    var splice := ProgramSpliceOff(seq(203, i => ScheduleComponent(0, 0)));
    ScheduleEvent(0, Some(ScheduleDetails(false, splice, None, 0, 0, 0)))
  }

  /** 64 events of 203 components: of 65665 bytes, the size hint forgets 65024. */
  function LongSchedule(): Section {
    Section(false, 0, 0, 0, 0xFFF, SpliceSchedule(seq(64, i => LongEvent())), [])
  }

  lemma LongEventSize(e: ScheduleEvent)
    requires e == LongEvent()
    ensures ScheduleEventHint(e) == 10 && Forgotten(e) == 1016 && e.details.Some? && ScheduleOk(e.details.value)
  {
  }

  lemma {:induction false} RepeatedEvents(es: seq<ScheduleEvent>, hint: nat, forgotten: nat)
    requires forall i :: 0 <= i < |es| ==> ScheduleEventHint(es[i]) == hint && Forgotten(es[i]) == forgotten
    ensures ScheduleEventsHint(es) == |es| * hint && ForgottenAll(es) == |es| * forgotten
    decreases |es|
  {
    hide ScheduleEventHint, Forgotten;
    if es != [] {
      RepeatedEvents(es[..|es| - 1], hint, forgotten);
      assert (|es| - 1) * hint + hint == |es| * hint && (|es| - 1) * forgotten + forgotten == |es| * forgotten;
    }
  }

  lemma LongCommandSize(c: Command)
    requires c == LongSchedule().command
    ensures c.SpliceSchedule? && CommandOk(c) && CommandHint(c) == 641 && ForgottenIn(c) == 65024
  {
    hide LongEvent, ScheduleEventHint, Forgotten, ScheduleOk, ScheduleEventsHint, ForgottenAll;
    LongEventSize(LongEvent());
    RepeatedEvents(c.events, 10, 1016);
  }

  lemma AllBits(a: nibble, b: nibble)
    requires a == 0xF
    ensures Covers(a, b)
  {
  }

  lemma LongScheduleOk(s: Section)
    requires s == LongSchedule()
    ensures SectionOk(s) && ComesBack(s) && !Survives(s)
  {
    hide CommandOk, CommandHint, ForgottenIn, Covers, DescriptorsHint, AllCancelled;
    LongCommandSize(s.command);
    NoDescriptorsHint();
    AllBits(s.tier as int % 0x10, CommandHint(s.command) / 0x10 % 0x10);
  }

  /**
   It is well-formed and comes back from all bytes that were emitted, because what the hint forgets makes
   up for its length modulo 65536; but next() takes no more than the announced bytes, and does not deliver it.
   */
  lemma LongScheduleCutOff()
    ensures var s := LongSchedule();
      && SectionOk(s) && ParseSection(Emit(s), ()) == Success(s)
      && Next(NextSection, ParseSection, Emit(s)).0 != Success(Some(s))
  {
    var s := LongSchedule();
    hide LongSchedule, Emit, Next, NextSection, ParseSection, SectionOk, ComesBack, Survives;
    LongScheduleOk(s);
    PackRoundTrip(s);
    RoundTrip(s, false, []);
    EmptyAround(Emit(s));
  }

  lemma EmptyAround(d: bytes)
    ensures [] + (d + []) == d
  {
  }

  lemma EmitNotEmpty(s: Section)
    ensures Emit(s) != []
  {
    EmittedLength(s);
  }

  // ---------- What was parsed is in the domain ----------

  /** The size of an accepted command is the announced one and what the hint forgets. */
  lemma ParsedBody(d: bytes)
    requires ParseBody(d).Success?
    ensures var (b, rest) := ParseBody(d).value;
      && b.0 < 0x1000 && CommandOk(b.1) && !b.1.PrivateCommand?
      && |d| == 4 + CommandHint(b.1) + ForgottenIn(b.1) + |rest|
  {
    hide Starts, After, ParseBody, ParseCommand, CommandOk, CommandHint, ForgottenIn, CommandSyntax, CommandSize,
      Scan12High, Number12;
    var c := ParseBody(d).value.0.1;
    Scte35Rejection.NoPrivateBody(d);
    BodyTaken(d);
    CommandExact(c, d[3], Number12(d[1], d[2]), d[4..]);
    BodyLeaves(c, d);
    CommandSizeIs(c);
  }

  /** Time descriptors are never read. */
  lemma {:induction false} ParsedNoTime(d: bytes)
    requires ParseDescriptors(d).Success?
    ensures NoTime(ParseDescriptors(d).value)
    decreases |d|
  {
    hide ParseDescriptor;
    if d != [] {
      var (x, rest) := ParseDescriptor(d).value;
      var ds := ParseDescriptors(rest).value;
      assert ParseDescriptors(d).value == [x] + ds;
      ParsedNoTime(rest);
      OneNoTime(d);
      assert forall i :: 0 < i < |[x] + ds| ==> ([x] + ds)[i] == ds[i - 1];
    }
  }

  lemma OneNoTime(d: bytes)
    requires ParseDescriptor(d).Success?
    ensures !ParseDescriptor(d).value.0.TimeDescriptor?
  {
    hide Number32;
  }

  /** For both announced forms a descriptor loop has the hinted size. */
  lemma {:induction false} SyntaxSize(ds: seq<Descriptor>, short: bool)
    ensures |DescriptorsSyntax(ds, short)| == |DescriptorsSyntax(ds, false)| == 8 * DescriptorsHint(ds)
    decreases |ds|
  {
    hide Starts, DescriptorContent, HeadSyntax, DescriptorsBytes, DescriptorsHint, LengthOf;
    DescriptorsFit(ds);
    DescriptorsLength(ds);
    if ds != [] {
      SyntaxSize(ds[1..], short);
    }
  }

  lemma ReadableOk(ds: seq<Descriptor>)
    requires DescriptorsReadable(ds)
    ensures DescriptorsOk(ds)
  {
  }

  lemma NoDescriptorsHint()
    ensures DescriptorsHint([]) == 0
  {
  }

  lemma ParsedLoop(d: bytes)
    requires ParseLoop(d).Success?
    ensures var (ds, rest) := ParseLoop(d).value;
      DescriptorsOk(ds) && |d| == 2 + DescriptorsHint(ds) + |rest|
  {
    hide Starts, ParseDescriptors, DescriptorsHint, DescriptorsSyntax, DescriptorsReadable, DescriptorOk;
    var (length, d1) := Read16(d).value;
    if length == 0 {
      NoDescriptorsHint();
    } else {
      var ds := ParseDescriptors(d1[..length]).value;
      ParsedNoTime(d1[..length]);
      DescriptorsExact(ds, d1[..length]);
      SyntaxSize(ds, true);
      ReadableOk(ds);
    }
  }

  lemma ParsedHeader(d: bytes)
    requires ParseHeader(d).Success?
    ensures var (h, rest) := ParseHeader(d).value;
      h.encryptionAlgorithm < 0x40 && h.ptsAdjustment < 0x2_0000_0000 && |d| == 7 + |rest|
  {
    hide Number32;
  }

  /** Whatever the parser accepts in a buffer no longer than a section is well-formed. */
  lemma ParsedSection(d: bytes)
    requires ParseSection(d, ()).Success? && |Chopped(d)| <= 3 + MAX_SECTION_LENGTH
    ensures SectionOk(ParseSection(d, ()).value)
  {
    hide ParseUntilLength, ParseHeader, ParseBody, ParseLoop, CommandOk, DescriptorsOk, CommandHint, ForgottenIn,
      DescriptorsHint, Crc32.Compute, Chopped, Number32;
    var d1 := ParseUntilLength(d).value.1;
    var d2 := ParseHeader(d1).value.1;
    var d3 := ParseBody(d2).value.1;
    ParsedHeader(d1);
    ParsedBody(d2);
    ParsedLoop(d3);
  }

  /** What next() hands to the parser is no longer than a section. */
  lemma Delivered(d: bytes, s: Section) returns (section: bytes)
    requires Next(NextSection, ParseSection, d).0 == Success(Some(s))
    ensures ParseSection(section, ()) == Success(s) && |section| <= 3 + MAX_SECTION_LENGTH
  {
    hide ParseHeader, ParseBody, ParseLoop, Read32, Crc32.Compute, Flag, Number12;
    var b := NextSection(d).value.value;
    section := d[b.start..b.start + b.length];
  }

  /**
   Parse, emit, parse: for everything that next() delivers, whatever its reserved bits were and even
   where the command length was given as FFF, next() delivers the same value from what is emitted for it
   if and only if that value survives.
   */
  lemma Stable(d: bytes, s: Section)
    requires Next(NextSection, ParseSection, d).0 == Success(Some(s))
    ensures Next(NextSection, ParseSection, Emit(s)).0 == Success(Some(s)) <==> Survives(s)
  {
    hide NextSection, ParseSection, Emit, Survives, SectionOk, Next, Chopped;
    var section := Delivered(d, s);
    ParsedSection(section);
    RoundTrip(s, false, []);
    EmptyAround(Emit(s));
  }
}
