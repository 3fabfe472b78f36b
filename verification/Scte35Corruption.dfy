/** What becomes of a section that next() would deliver when one byte of it is changed on the way. */
module Scte35Corruption {
  import opened Wrappers
  import opened Words
  import opened Wire
  import opened BinaryParsing
  import opened Scte35
  import opened Scte35Syntax
  import opened Scte35Emitter
  import opened Scte35Parser
  import opened Scte35RoundTrip
  import Scte35Rejection
  import Crc32

  predicate Delivers(d: bytes) {
    var r := Next(NextSection, ParseSection, d).0;
    r.Success? && r.value.Some?
  }

  /** section_length, behind the pointer byte if there is one. */
  function Announced(d: bytes): nat {
    var c := Chopped(d);
    if |c| < 3 then 0 else Number12(c[1], c[2])
  }

  function Start(d: bytes): nat {
    |d| - |Chopped(d)|
  }

  /** Where a section is delivered, it is the announced bytes behind the pointer byte that were accepted. */
  lemma DeliveredBytes(d: bytes)
    requires Delivers(d)
    ensures var size := 3 + Announced(d);
      && |Chopped(d)| >= 3 && Chopped(d)[0] == TABLE_ID && !Flag(Chopped(d)[1], 0x80)
      && Start(d) + size <= |d| && Next(NextSection, ParseSection, d).1 == Start(d) + size
      && ParseSection(d[Start(d)..Start(d) + size], ()).Success?
  {
    hide ParseSection, Number12, Flag;
  }

  /** Changing one byte does not turn the table_id into a pointer byte, or back, unnoticed. */
  lemma SameStart(d: bytes, i: nat, y: byte)
    requires i < |d| && d[i] != y && Delivers(d) && Delivers(d[i := y])
    ensures i > 0 && Start(d[i := y]) == Start(d)
  {
    hide Delivers, Next, NextSection, ParseSection, Announced, Flag;
    DeliveredBytes(d);
    DeliveredBytes(d[i := y]);
    TableIdFlag();
  }

  lemma TableIdFlag()
    ensures Flag(TABLE_ID, 0x80)
  {
  }

  lemma SliceUpdated(d: bytes, start: nat, size: nat, i: nat, y: byte)
    requires start <= i < start + size <= |d|
    ensures d[i := y][start..start + size] == d[start..start + size][i - start := y]
  {
  }

  /**
   Whatever single byte of what next() takes is changed, pointer byte included: if the announced length
   is still the same, next() delivers nothing any more.
   */
  lemma ChangedByteRejected(d: bytes, i: nat, y: byte)
    requires Delivers(d) && i < Next(NextSection, ParseSection, d).1 && i < |d| && d[i] != y
    requires Announced(d[i := y]) == Announced(d)
    ensures !Delivers(d[i := y])
  {
    hide Delivers, Next, NextSection, ParseSection, Announced, Start, Chopped;
    var d' := d[i := y];
    if Delivers(d') {
      DeliveredBytes(d);
      DeliveredBytes(d');
      SameStart(d, i, y);
      StartAtMostOne(d);
      var start, size := Start(d), 3 + Announced(d);
      var section := d[start..start + size];
      SliceUpdated(d, start, size, i, y);
      Scte35Rejection.PackRejectsChangedByte(section, i - start, y);
      assert false;
    }
  }

  lemma StartAtMostOne(d: bytes)
    ensures Start(d) <= 1
  {
  }

  // ---------- Why the announced length has to stay the same ----------

  /** The bytes of a section, announced as four bytes longer, and a checksum that suits them. */
  function Lengthened(s: Section): bytes {
    var q := Announcing(s, SectionLength(s) + 4);
    q + Crc32.ChecksumBytes(Crc32.Compute(q))
  }

  /** The bytes of a section, with another length announced. */
  function Announcing(s: Section, length: nat): (q: bytes)
    ensures |q| >= 3
  {
    Write8(TABLE_ID) + Write12Prefix(0x3, length) + Behind(s)
  }

  /** All of a section but its first three bytes. */
  function Behind(s: Section): bytes {
    var checksum := Crc32.ChecksumBytes(Crc32.Compute(Unchecked(s)));
    HeaderBytes(s) + (BodyBytes(s) + (LoopBytes(s) + checksum))
  }

  lemma AnnouncingOwnLength(s: Section)
    requires SectionOk(s)
    ensures Announcing(s, SectionLength(s)) == Emit(s)
  {
    hide Emit, Behind, SectionLength, SectionOk, Write12Prefix;
    EmitBehind(s);
    FirstBytes(s);
    TwoBytes(SectionLength(s));
    var w := Write12Prefix(0x3, SectionLength(s));
    assert Emit(s) == Emit(s)[..3] + Emit(s)[3..];
    assert Write8(TABLE_ID) + w == [TABLE_ID, w[0], w[1]];
  }

  lemma EmitBehind(s: Section)
    requires SectionOk(s)
    ensures Emit(s)[3..] == Behind(s)
  {
    hide Emit, HeaderBytes, BodyBytes, LoopBytes, Crc32.Compute, Crc32.ChecksumBytes, SectionOk;
    EmitSplit(s);
  }

  /** The start of such bytes, with whatever follows them. */
  lemma AnnouncingReads(s: Section, length: nat, tail: bytes)
    requires 17 <= length < 0x1000 && length <= MAX_SECTION_LENGTH && length <= |Behind(s) + tail|
    ensures var d := Announcing(s, length) + tail;
      Chopped(d) == d && ParseUntilLength(d) == Success((length, Behind(s) + tail)) && |d| == 3 + |Behind(s) + tail|
  {
    hide Behind, Write12Prefix, Number12, Flag;
    LengthFlags(length);
    var w := Write12Prefix(0x3, length);
    var d := Announcing(s, length) + tail;
    assert |w| == 2 by {
      TwoBytes(length);
    }
    assert d == Write8(TABLE_ID) + w + (Behind(s) + tail);
    assert d[0] == TABLE_ID && d[1] == w[0] && d[2] == w[1];
    assert d[3..] == Behind(s) + tail;
  }

  lemma TwoBytes(length: nat)
    ensures |Write12Prefix(0x3, length)| == 2
  {
  }

  /** The parser takes no notice of bytes that are left behind the field of the checksum. */
  lemma RestIgnored(s: Section, d: bytes, length: nat, extra: bytes)
    requires SectionOk(s) && Survives(s) && Crc32.Compute(Chopped(d)) == 0
    requires ParseUntilLength(d) == Success((length, Behind(s) + extra))
    ensures ParseSection(d, ()) == Success(s)
  {
    hide HeaderBytes, BodyBytes, LoopBytes, ParseUntilLength, ParseHeader, ParseBody, ParseLoop, Crc32.Compute,
      Crc32.ChecksumBytes, Read32, LengthAgrees, NoDtmf, TierRead, SectionOk, Survives, ForgottenIn, Chopped, PairOk;
    var c := Crc32.ChecksumBytes(Crc32.Compute(Unchecked(s)));
    var h, b, l := HeaderBytes(s), BodyBytes(s), LoopBytes(s);
    Right4(h, b, l, c, extra);
    assert Behind(s) + extra == h + (b + (l + (c + extra)));
    SurvivesWhole(s);
    AgreesAndTier(s);
    HeaderReads(s, b + (l + (c + extra)));
    BodyReads(s, l + (c + extra));
    SectionLoopReads(s, c + extra);
    ReadsFour(c, extra);
    PlainSection(s);
  }

  lemma AgreesAndTier(s: Section)
    requires ComesBack(s)
    ensures LengthAgrees(s.command) && TierRead(s) == s.tier && NoDtmf(s.descriptors) && !s.command.PrivateCommand?
  {
    hide LengthAgrees, TierRead, NoDtmf;
    Agrees(s);
    TierReadExact(s);
  }

  lemma Agrees(s: Section)
    requires PairOk(s)
    ensures LengthAgrees(s.command)
  {
    hide LengthAgrees;
  }

  lemma ReadsFour(c: bytes, extra: bytes)
    requires |c| == 4
    ensures Read32(c + extra).Success?
  {
  }

  lemma PlainSection(s: Section)
    requires Survives(s)
    ensures !s.encryptedPacket
  {
    hide CommandHint, NoDtmf, AllCancelled, Covers;
  }

  lemma NextAt(d: bytes, length: nat, rest: bytes, s: Section)
    requires Chopped(d) == d && |d| >= MIN_SECTION_SIZE && ParseUntilLength(d) == Success((length, rest))
    requires |d| == 3 + |rest| && length == |rest| && ParseSection(d, ()) == Success(s)
    ensures Next(NextSection, ParseSection, d) == (Success(Some(s)), |d|)
  {
    hide ParseUntilLength, ParseSection, Chopped;
    assert d[0..|d|] == d;
  }

  lemma LowByte(s: Section)
    requires SectionLength(s) % 0x100 < 0xFC
    ensures var q := Announcing(s, SectionLength(s) + 4);
      q[2 := SectionLength(s) % 0x100] == Announcing(s, SectionLength(s)) && q[2] != SectionLength(s) % 0x100
  {
    hide Behind, SectionLength;
    var n := SectionLength(s);
    assert (n + 4) / 0x100 == n / 0x100 && (n + 4) % 0x100 == n % 0x100 + 4;
    var a, b := Announcing(s, n + 4), Announcing(s, n);
    assert |a| == |b| && forall k :: 0 <= k < |a| && k != 2 ==> a[k] == b[k];
    assert a[2] == n % 0x100 + 4 && b[2] == n % 0x100;
  }

  lemma BehindSize(s: Section)
    requires SectionOk(s) && Survives(s)
    ensures |Behind(s)| == SectionLength(s) >= 17
  {
    hide Emit, Behind, SectionOk, Survives, ComesBack, SectionLength, ForgottenIn;
    EmitBehind(s);
    EmitSize(s);
    SurvivesWhole(s);
  }

  /** A section that is announced four bytes longer, with a checksum that suits, is delivered all the same. */
  lemma LengthenedDelivered(s: Section)
    requires SectionOk(s) && Survives(s) && SectionLength(s) + 4 <= MAX_SECTION_LENGTH
    ensures Next(NextSection, ParseSection, Lengthened(s)) == (Success(Some(s)), |Lengthened(s)|)
  {
    hide Behind, Announcing, SectionOk, Survives, SectionLength, Chopped, ParseUntilLength, ParseSection, Crc32.Compute,
      Crc32.ChecksumBytes, Next;
    var n := SectionLength(s);
    var q := Announcing(s, n + 4);
    var c := Crc32.ChecksumBytes(Crc32.Compute(q));
    BehindSize(s);
    AnnouncingReads(s, n + 4, c);
    Crc32.ChecksumAppended(q);
    RestIgnored(s, q + c, n + 4, c);
    NextAt(q + c, n + 4, Behind(s) + c, s);
  }

  /**
   The condition is needed: of these bytes, all of which next() takes for the section, one can be changed
   so that next() delivers the same section from fewer of them. It is a byte of the announced length.
   */
  lemma ChangedLengthDelivered(s: Section)
    requires SectionOk(s) && Survives(s) && SectionLength(s) + 4 <= MAX_SECTION_LENGTH
    requires SectionLength(s) % 0x100 < 0xFC
    ensures var d, y := Lengthened(s), SectionLength(s) % 0x100;
      && |d| > 2 && d[2] != y
      && Next(NextSection, ParseSection, d) == (Success(Some(s)), |d|)
      && Next(NextSection, ParseSection, d[2 := y]) == (Success(Some(s)), |d| - 4)
  {
    hide Behind, Announcing, Emit, SectionOk, Survives, ComesBack, SectionLength, Crc32.Compute, Crc32.ChecksumBytes,
      Next, NextSection, ParseSection, ForgottenIn;
    var n := SectionLength(s);
    var y: byte := n % 0x100;
    var q: bytes := Announcing(s, n + 4);
    var c: bytes := Crc32.ChecksumBytes(Crc32.Compute(q));
    var d: bytes := q + c;
    LengthenedDelivered(s);
    LowByte(s);
    AnnouncingOwnLength(s);
    assert d[2 := y] == q[2 := y] + c;
    NextReads(s, false, c);
    EmptyFront(Emit(s) + c);
  }

  lemma EmptyFront(d: bytes)
    ensures [] + d == d
  {
  }

  /** The shortest section: 20 bytes, and 24 when it is lengthened. */
  const SHORTEST := Section(false, 0, 0, 0, 0xFFF, SpliceNull, [])

  lemma ShortestOk(s: Section)
    requires s == SHORTEST
    ensures SectionOk(s) && Survives(s) && SectionLength(s) == 17
  {
    AllBits(s.tier as int % 0x10, CommandHint(s.command) / 0x10 % 0x10);
    hide Covers;
  }

  lemma ShortestChanged()
    ensures var d := Lengthened(SHORTEST);
      && |d| == 24 && d[2] != 0x11
      && Next(NextSection, ParseSection, d) == (Success(Some(SHORTEST)), 24)
      && Next(NextSection, ParseSection, d[2 := 0x11]) == (Success(Some(SHORTEST)), 20)
  {
    hide Next, NextSection, ParseSection, Lengthened, Behind, Announcing, SectionOk, Survives, SectionLength;
    ShortestOk(SHORTEST);
    ChangedLengthDelivered(SHORTEST);
    LengthenedSize(SHORTEST);
  }

  lemma LengthenedSize(s: Section)
    requires SectionOk(s) && Survives(s)
    ensures |Lengthened(s)| == 7 + SectionLength(s)
  {
    hide Behind, SectionOk, Survives, SectionLength, Crc32.Compute, Crc32.ChecksumBytes;
    BehindSize(s);
    TwoBytes(SectionLength(s) + 4);
  }
}
