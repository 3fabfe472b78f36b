/** Packets that have been rewritten: what they are to the program when they come again, and to a reader. */
module RewrittenAgain {
  import opened Wrappers
  import opened Words
  import opened BinaryParsing
  import opened Nalus
  import opened Seis
  import opened PacketRewriter
  import opened StandardSeis
  import Rbsp
  import SeiRoundTrip
  import Wire

  // ---------- Header bytes ----------

  /** The NALUs whose forbidden bit is clear, in their order. */
  function Usable(nalus: seq<bytes>): seq<bytes> {
    if nalus == [] then []
    else (if nalus[0] != [] && nalus[0][0] < 0x80 then [nalus[0]] else []) + Usable(nalus[1..])
  }

  lemma {:induction false} UsableSnoc(nalus: seq<bytes>, last: bytes)
    ensures Usable(nalus + [last]) == Usable(nalus) + (if last != [] && last[0] < 0x80 then [last] else [])
    decreases |nalus|
  {
    if nalus == [] {
      assert (nalus + [last])[1..] == [];
    } else {
      assert (nalus + [last])[1..] == nalus[1..] + [last];
      UsableSnoc(nalus[1..], last);
    }
  }

  lemma {:induction false} ValidAreUsable(nalus: seq<bytes>)
    ensures ValidOnly(nalus) == Usable(nalus)
    decreases |nalus|
  {
    if nalus != [] {
      var front, last := nalus[..|nalus| - 1], nalus[|nalus| - 1];
      ValidAreUsable(front);
      UsableSnoc(front, last);
      assert front + [last] == nalus;
    }
  }

  /** Where the header bytes of a packet's NALUs put the new SEI NALU. */
  predicate CutByHeaders(video: seq<bytes>, parts: Parts) {
    && video == parts.leading + (if parts.sei.Some? then [parts.sei.value] else []) + parts.others
    && (forall i :: 0 <= i < |parts.leading| ==> parts.leading[i] != [] && 7 <= parts.leading[i][0] % 0x20 <= 9)
    && (parts.sei.Some? ==> parts.sei.value != [] && parts.sei.value[0] % 0x20 == 6)
    && (parts.sei.None? && parts.others != [] ==>
          parts.others[0] == [] || !(6 <= parts.others[0][0] % 0x20 <= 9))
  }

  lemma SplitIsCut(video: seq<bytes>)
    ensures CutByHeaders(video, Split(video))
  {
    var parts := Split(video);
    forall i | 0 <= i < |parts.leading|
      ensures parts.leading[i] != [] && 7 <= parts.leading[i][0] % 0x20 <= 9
    {
      assert IsLeading(video[i]);
    }
  }

  /** The leading NALUs are as many as are leading before one that is not. */
  lemma {:induction false} LeadingAreFrom(nalus: seq<bytes>, k: nat, n: nat)
    requires k <= n <= |nalus| && forall i :: k <= i < n ==> IsLeading(nalus[i])
    requires n < |nalus| ==> !IsLeading(nalus[n])
    ensures LeadingFrom(nalus, k) == n
    decreases n - k
  {
    hide IsLeading;
    if k < n {
      LeadingAreFrom(nalus, k + 1, n);
    }
  }

  /** There is one way to cut: behind the NALUs of types 7 to 9 that come first, at a NALU of type 6. */
  lemma SplitByHeaders(video: seq<bytes>, parts: Parts)
    ensures CutByHeaders(video, parts) <==> parts == Split(video)
  {
    SplitIsCut(video);
    if CutByHeaders(video, parts) {
      CutIsSplit(video, parts);
    }
  }

  lemma CutIsSplit(video: seq<bytes>, parts: Parts)
    requires CutByHeaders(video, parts)
    ensures parts == Split(video)
  {
    var n := |parts.leading|;
    assert parts.leading == video[..n];
    forall i | 0 <= i < n
      ensures IsLeading(video[i])
    {
      assert video[i] == parts.leading[i];
    }
    if parts.sei.Some? {
      assert video[n] == parts.sei.value && IsSei(video[n]) && parts.others == video[n + 1..];
    } else {
      assert parts.others == video[n..];
      assert n < |video| ==> video[n] == parts.others[0] && !IsLeading(video[n]) && !IsSei(video[n]);
    }
    hide IsLeading, IsSei, CutByHeaders;
    LeadingAreFrom(video, 0, n);
  }

  // ---------- A rewritten packet that comes again ----------

  lemma WrittenIsFound(leading: seq<bytes>, seis: seq<Sei>, others: seq<bytes>)
    requires forall i :: 0 <= i < |leading| ==> IsLeading(leading[i])
    ensures Split(leading + [SeiNalu(seis)] + others) == Parts(leading, Some(SeiNalu(seis)), others)
  {
    var nalu := SeiNalu(seis);
    assert nalu[0] == 6;
    hide SeiNalu;
    var parts := Parts(leading, Some(nalu), others);
    assert leading + [nalu] + others == parts.leading + [parts.sei.value] + parts.others;
    forall i | 0 <= i < |leading|
      ensures leading[i] != [] && 7 <= leading[i][0] % 0x20 <= 9
    {
      assert IsLeading(leading[i]);
    }
    SplitByHeaders(leading + [nalu] + others, parts);
  }

  lemma ValidKept(nalus: seq<bytes>)
    requires forall i :: 0 <= i < |nalus| ==> IsValid(nalus[i])
    ensures ValidOnly(nalus) == nalus
  {
  }

  lemma AllUsable(leading: seq<bytes>, seis: seq<Sei>, others: seq<bytes>)
    requires forall i :: 0 <= i < |leading| ==> IsValid(leading[i])
    requires forall i :: 0 <= i < |others| ==> IsValid(others[i])
    ensures var all := leading + [SeiNalu(seis)] + others;
      forall i :: 0 <= i < |all| ==> IsValid(all[i])
  {
    assert IsValid(SeiNalu(seis));
    hide IsValid, SeiNalu;
    var all := leading + [SeiNalu(seis)] + others;
    forall i | 0 <= i < |all|
      ensures IsValid(all[i])
    {
      assert i < |leading| ==> all[i] == leading[i];
      assert i > |leading| ==> all[i] == others[i - |leading| - 1];
    }
  }

  lemma PartsValid(video: seq<bytes>)
    requires forall i :: 0 <= i < |video| ==> IsValid(video[i])
    ensures var parts := Split(video);
      && (forall i :: 0 <= i < |parts.leading| ==> IsValid(parts.leading[i]) && IsLeading(parts.leading[i]))
      && (forall i :: 0 <= i < |parts.others| ==> IsValid(parts.others[i]))
  {
    hide IsValid, IsLeading;
    var parts := Split(video);
    var k := |video| - |parts.others|;
    assert forall i :: 0 <= i < |parts.others| ==> parts.others[i] == video[k + i];
    assert forall i :: 0 <= i < |parts.leading| ==> parts.leading[i] == video[i];
  }

  /**
   The SEI NALU that the program writes is the one it finds when the packet comes again, for every packet
   that can be rewritten and whose new length field is right; no NALU of that packet is dropped.
   */
  lemma FoundAgain(packet: bytes, found: seq<Sei>)
    requires Rewrite(packet, found).Success? && LengthRight(NewSeis(packet, found))
    ensures var parts, rewritten := VideoParts(packet), Rewrite(packet, found).value;
      && Parse(rewritten).Success?
      && Usable(Parse(rewritten).value) == Parse(rewritten).value
      && VideoParts(rewritten) == Parts(parts.leading, Some(SeiNalu(NewSeis(packet, found))), parts.others)
  {
    hide Parse, SeiNalu, EmittedSeiNalu, KeptSeis, LengthRight, IsValid, IsLeading, NewSeis;
    RewritePreservesVideo(packet, found);
    var parts, seis := VideoParts(packet), NewSeis(packet, found);
    var video := parts.leading + [SeiNalu(seis)] + parts.others;
    PartsValid(ValidOnly(Parse(packet).value));
    AllUsable(parts.leading, seis, parts.others);
    ValidKept(video);
    ValidAreUsable(video);
    WrittenIsFound(parts.leading, seis, parts.others);
  }

  /** The new packet for given parts, when kept messages and found ones go into it. */
  function Rebuilt(parts: Parts, seis: seq<Sei>): bytes {
    EmitAll(parts.leading) + EmittedSeiNalu(seis) + EmitAll(parts.others)
  }

  /** Rewriting again keeps what can be read of the messages written first, and nothing else changes. */
  lemma RewriteTwice(packet: bytes, found: seq<Sei>, again: seq<Sei>)
    requires Rewrite(packet, found).Success? && LengthRight(NewSeis(packet, found))
    ensures Rewrite(Rewrite(packet, found).value, again) ==
      match StripCaptions(SeiNalu(NewSeis(packet, found)))
      case Failure(e) => Failure(e)
      case Success(kept) => Success(Rebuilt(VideoParts(packet), kept + again))
  {
    FoundAgain(packet, found);
    hide Parse, SeiNalu, EmittedSeiNalu, LengthRight, NewSeis, ValidOnly, Split, StripCaptions, EmitAll, Usable;
    var rewritten := Rewrite(packet, found).value;
    assert VideoParts(rewritten) == Split(ValidOnly(Parse(rewritten).value));
  }

  /**
   Captions are replaced, not added to: where the packet keeps no messages of its own, rewriting it with
   one caption message that reads back, and then with others, is rewriting it with the others only.
   */
  lemma CaptionsReplaced(packet: bytes, caption: Sei, again: seq<Sei>)
    requires Rewrite(packet, [caption]).Success? && NewSeis(packet, []) == []
    requires caption.payloadType == 4
    requires Writable(|caption.data|) && caption.data != [] && Rbsp.NoneMissed(caption.data)
    ensures Rewrite(Rewrite(packet, [caption]).value, again) == Rewrite(packet, again)
  {
    hide Parse, SeiNalu, EmittedSeiNalu, LengthRight, Split, StripCaptions, EmitAll, ValidOnly, Rewrite, KeptSeis,
      Rbsp.NoneMissed, Writable, StandardNalu;
    NewSeisConcat(packet, [caption]);
    assert [] + [caption] == [caption];
    CaptionFits(caption);
    RewriteTwice(packet, [caption], again);
    StripsStandard(6, [caption], []);
    assert StandardNalu(6, [caption]) + [] == StandardNalu(6, [caption]);
    WritesStandard(caption);
    assert [caption][1..] == [];
    assert NotRegistered([caption]) == [];
    assert StripCaptions(SeiNalu([caption])) == Success([]);
    RewriteSucceeds(packet, [caption]);
    RewriteKeeps(packet, again);
    assert [] + again == again;
  }

  lemma CaptionFits(caption: Sei)
    requires caption.payloadType == 4
    requires Writable(|caption.data|) && caption.data != [] && Rbsp.NoneMissed(caption.data)
    ensures LengthRight([caption]) && Rbsp.NoOverlap(caption.data) && Writable(caption.payloadType)
  {
    SeiRoundTrip.WritableIsShort(caption);
    SeiRoundTrip.OneHint(caption);
    Rbsp.NoneMissedNoOverlap(caption.data);
    NaluLength([caption]);
    hide SizeHint;
  }

  /** Rewriting in terms of the messages that are kept. */
  lemma RewriteKeeps(packet: bytes, found: seq<Sei>)
    requires Rewritable(packet)
    ensures Rewrite(packet, found) == Success(Rebuilt(VideoParts(packet), NewSeis(packet, []) + found))
  {
    hide Parse, EmittedSeiNalu, Split, EmitAll, ValidOnly, KeptSeis;
    var kept := KeptSeis(Split(ValidOnly(Parse(packet).value))).value;
    assert kept + [] == kept;
  }

  /** A packet whose SEI NALU is written as the standard prescribes keeps all its messages but those of type 4. */
  lemma RewritesStandard(packet: bytes, header: byte, seis: seq<Sei>, zeros: bytes, found: seq<Sei>)
    requires Parse(packet).Success? && Rbsp.AllZero(zeros)
    requires VideoParts(packet).sei == Some(StandardNalu(header, seis) + zeros)
    ensures Rewrite(packet, found) == Success(Rebuilt(VideoParts(packet), NotRegistered(seis) + found))
  {
    hide Parse, EmittedSeiNalu, Split, EmitAll, ValidOnly, StripCaptions, StandardNalu, NotRegistered;
    StripsStandard(header, seis, zeros);
  }

  // ---------- A packet byte by byte ----------

  const DELIMITER: bytes := [0x09, 0xF0]
  const SEQUENCE_SET: bytes := [0x67, 0x42]
  const PICTURE_SET: bytes := [0x68, 0xCE]
  const OLD_SEI: bytes := [0x06, 0x05, 0x01, 0xAA, 0x04, 0x01, 0xB5, 0x80]
  const BROKEN: bytes := [0xE5, 0x88]

  /** All of them, with a slice at the end; the forbidden bit of the NALU before it is set. */
  const PACKET: bytes :=
    [0x00, 0x00, 0x00, 0x02, 0x09, 0xF0] +
    [0x00, 0x00, 0x00, 0x02, 0x67, 0x42] +
    [0x00, 0x00, 0x00, 0x02, 0x68, 0xCE] +
    [0x00, 0x00, 0x00, 0x08, 0x06, 0x05, 0x01, 0xAA, 0x04, 0x01, 0xB5, 0x80] +
    [0x00, 0x00, 0x00, 0x02, 0xE5, 0x88] +
    [0x00, 0x00, 0x00, 0x02, 0x65, 0x88]

  /** The same with the captions taken out, others written behind the kept message, and the broken NALU dropped. */
  const REWRITTEN: bytes :=
    [0x00, 0x00, 0x00, 0x02, 0x09, 0xF0] +
    [0x00, 0x00, 0x00, 0x02, 0x67, 0x42] +
    [0x00, 0x00, 0x00, 0x02, 0x68, 0xCE] +
    [0x00, 0x00, 0x00, 0x0A, 0x06, 0x05, 0x01, 0xAA, 0x80, 0x04, 0x02, 0xB5, 0x2F, 0x80] +
    [0x00, 0x00, 0x00, 0x02, 0x65, 0x88]

  lemma FramedShort(a: byte, b: byte)
    ensures Emit([a, b]) == [0, 0, 0, 2, a, b]
  {
    assert Wire.Write32(2) == [0, 0, 0, 2];
  }

  lemma FramedSei()
    ensures Emit(OLD_SEI) == [0, 0, 0, 8, 6, 5, 1, 0xAA, 4, 1, 0xB5, 0x80]
  {
    assert Wire.Write32(8) == [0, 0, 0, 8];
  }

  lemma FromTheRight<T>(a: seq<T>, b: seq<T>, c: seq<T>, d: seq<T>, e: seq<T>, f: seq<T>)
    ensures a + b + c + d + e + f == a + (b + (c + (d + (e + f))))
  {
  }

  lemma PacketBytes()
    ensures PACKET ==
      Emit(DELIMITER) + Emit(SEQUENCE_SET) + Emit(PICTURE_SET) + Emit(OLD_SEI) + Emit(BROKEN) + Emit(SLICE)
  {
    FramedShort(0x09, 0xF0);
    FramedShort(0x67, 0x42);
    FramedShort(0x68, 0xCE);
    FramedShort(0xE5, 0x88);
    FramedShort(0x65, 0x88);
    FramedSei();
    hide Emit;
  }

  lemma ParseInFront(nalu: bytes, tail: bytes, nalus: seq<bytes>)
    requires 0 < |nalu| <= 8249344 && Parse(tail) == Success(nalus)
    ensures Parse(Emit(nalu) + tail) == Success([nalu] + nalus)
  {
    hide Parse, Emit;
    ParseEmit(nalu, tail);
  }

  lemma PacketParsed()
    ensures Parse(PACKET) == Success([DELIMITER] + [SEQUENCE_SET] + [PICTURE_SET] + [OLD_SEI] + [BROKEN] + [SLICE])
  {
    PacketBytes();
    PacketSizes();
    FieldMissing([]);
    hide Parse, Emit, PACKET, DELIMITER, SEQUENCE_SET, PICTURE_SET, OLD_SEI, BROKEN, SLICE;
    var a, b, c, d, e, f :=
      Emit(DELIMITER), Emit(SEQUENCE_SET), Emit(PICTURE_SET), Emit(OLD_SEI), Emit(BROKEN), Emit(SLICE);
    FromTheRight(a, b, c, d, e, f);
    FromTheRight([DELIMITER], [SEQUENCE_SET], [PICTURE_SET], [OLD_SEI], [BROKEN], [SLICE]);
    ParseOthers([SLICE]);
    EmitOne(SLICE);
    ParseInFront(BROKEN, f, [SLICE]);
    ParseInFront(OLD_SEI, e + f, [BROKEN] + [SLICE]);
    ParseInFront(PICTURE_SET, d + (e + f), [OLD_SEI] + ([BROKEN] + [SLICE]));
    ParseInFront(SEQUENCE_SET, c + (d + (e + f)), [PICTURE_SET] + ([OLD_SEI] + ([BROKEN] + [SLICE])));
    ParseInFront(DELIMITER, b + (c + (d + (e + f))),
                 [SEQUENCE_SET] + ([PICTURE_SET] + ([OLD_SEI] + ([BROKEN] + [SLICE]))));
  }

  lemma PacketSizes()
    ensures |DELIMITER| == |SEQUENCE_SET| == |PICTURE_SET| == |BROKEN| == |SLICE| == 2 && |OLD_SEI| == 8
  {
  }

  lemma PacketHeaders()
    ensures DELIMITER != [] && SEQUENCE_SET != [] && PICTURE_SET != [] && OLD_SEI != [] && BROKEN != [] && SLICE != []
    ensures DELIMITER[0] == 0x09 && SEQUENCE_SET[0] == 0x67 && PICTURE_SET[0] == 0x68
    ensures OLD_SEI[0] == 0x06 && BROKEN[0] == 0xE5 && SLICE[0] == 0x65
  {
  }

  lemma PacketUsable()
    ensures ValidOnly([DELIMITER] + [SEQUENCE_SET] + [PICTURE_SET] + [OLD_SEI] + [BROKEN] + [SLICE]) ==
      [DELIMITER, SEQUENCE_SET, PICTURE_SET, OLD_SEI] + [SLICE]
  {
    PacketHeaders();
    hide DELIMITER, SEQUENCE_SET, PICTURE_SET, OLD_SEI, BROKEN, SLICE;
    assert IsValid(DELIMITER) && IsValid(SEQUENCE_SET) && IsValid(PICTURE_SET) && IsValid(OLD_SEI);
    assert !IsValid(BROKEN) && IsValid(SLICE);
    BrokenDropped(DELIMITER, SEQUENCE_SET, PICTURE_SET, OLD_SEI, BROKEN, SLICE);
  }

  lemma BrokenDropped(a: bytes, b: bytes, c: bytes, d: bytes, broken: bytes, last: bytes)
    requires IsValid(a) && IsValid(b) && IsValid(c) && IsValid(d) && IsValid(last) && !IsValid(broken)
    ensures ValidOnly([a] + [b] + [c] + [d] + [broken] + [last]) == [a, b, c, d] + [last]
  {
    hide IsValid;
    ValidKept([a, b, c, d]);
    NalusSnoc([a, b, c, d], broken);
    NalusSnoc([a, b, c, d] + [broken], last);
    hide ValidOnly;
    assert [a] + [b] + [c] + [d] == [a, b, c, d];
  }

  lemma PacketParts()
    ensures VideoParts(PACKET) == Parts([DELIMITER, SEQUENCE_SET, PICTURE_SET], Some(OLD_SEI), [SLICE])
  {
    PacketParsed();
    PacketUsable();
    PacketHeaders();
    hide Parse, ValidOnly, Split, PACKET, DELIMITER, SEQUENCE_SET, PICTURE_SET, OLD_SEI, BROKEN, SLICE;
    var parts := Parts([DELIMITER, SEQUENCE_SET, PICTURE_SET], Some(OLD_SEI), [SLICE]);
    var video := [DELIMITER, SEQUENCE_SET, PICTURE_SET, OLD_SEI] + [SLICE];
    assert video == parts.leading + [OLD_SEI] + parts.others;
    assert CutByHeaders(video, parts);
    SplitByHeaders(video, parts);
  }

  const KEPT: Sei := Sei(5, [0xAA])
  const OLD_CAPTION: Sei := Sei(4, [0xB5])
  const NEW_CAPTION: Sei := Sei(4, [0xB5, 0x2F])

  lemma TwoMessages(a: Sei, b: Sei)
    ensures StandardMessages([a, b]) == StandardMessage(a) + StandardMessage(b)
    ensures NotRegistered([a, b]) == NotRegistered([a]) + NotRegistered([b])
    ensures Messages([a, b]) == Message(a) + Message(b)
    ensures SizeHints([a, b]) == SizeHint(a) + SizeHint(b)
  {
    hide StandardMessage, Message, SizeHint;
    SeiRoundTrip.OneHint(a);
    assert [a, b][1..] == [b] && [b][1..] == [] && [a][1..] == [];
    assert [a, b][..1] == [a];
    assert NotRegistered([]) == [] && StandardMessages([]) == [];
    assert StandardMessages([b]) == StandardMessage(b) + [];
  }

  lemma SeiStripped()
    ensures StripCaptions(OLD_SEI) == Success([KEPT])
  {
    var seis := [KEPT, OLD_CAPTION];
    TwoMessages(KEPT, OLD_CAPTION);
    assert StandardMessage(KEPT) == [5, 1, 0xAA] && StandardMessage(OLD_CAPTION) == [4, 1, 0xB5];
    assert NotRegistered([KEPT]) == [KEPT] && NotRegistered([OLD_CAPTION]) == [];
    hide StripCaptions, StandardMessages, NotRegistered, Rbsp.StandardEscape, Rbsp.Escape;
    EscapeNoZeroPair(OLD_SEI);
    Rbsp.AgreesWithStandard(OLD_SEI);
    assert [6] + StandardMessages(seis) + [0x80] == OLD_SEI;
    assert StandardNalu(6, seis) + [] == OLD_SEI;
    StripsStandard(6, seis, []);
  }

  lemma KeptWritten()
    ensures Message(KEPT) == [5, 1, 0xAA, 0x80] && SizeHint(KEPT) == 4
  {
    Rbsp.EscapeShort(KEPT.data, 1);
    Rbsp.HintCountShort(KEPT.data, 1);
    hide Rbsp.EscapeTo, Rbsp.HintCountTo;
  }

  lemma CaptionWritten()
    ensures Message(NEW_CAPTION) == [4, 2, 0xB5, 0x2F, 0x80] && SizeHint(NEW_CAPTION) == 5
  {
    Rbsp.EscapeShort(NEW_CAPTION.data, 2);
    Rbsp.HintCountShort(NEW_CAPTION.data, 2);
    hide Rbsp.EscapeTo, Rbsp.HintCountTo;
  }

  lemma NewSeiBytes()
    ensures EmittedSeiNalu([KEPT, NEW_CAPTION]) ==
      [0, 0, 0, 0x0A, 6, 5, 1, 0xAA, 0x80, 4, 2, 0xB5, 0x2F, 0x80]
  {
    TenWritten();
    KeptWritten();
    CaptionWritten();
    hide Message, SizeHint, Messages, SizeHints, Wire.Write32, KEPT, NEW_CAPTION;
    TwoMessages(KEPT, NEW_CAPTION);
    NewSeiParts();
  }

  lemma TenWritten()
    ensures Wire.Write32(10) == [0, 0, 0, 10]
  {
    assert Wire.Number32(0, 0, 0, 10) == 10;
    hide Wire.Write32, Wire.Number32;
    Wire.Join32(0, 0, 0, 10);
  }

  lemma NewSeiParts()
    ensures [0, 0, 0, 10] + ([6] + ([5, 1, 0xAA, 0x80] + [4, 2, 0xB5, 0x2F, 0x80])) ==
      [0, 0, 0, 0x0A, 6, 5, 1, 0xAA, 0x80, 4, 2, 0xB5, 0x2F, 0x80]
  {
  }

  lemma LeadingBytes()
    ensures EmitAll([DELIMITER, SEQUENCE_SET, PICTURE_SET]) ==
      Emit(DELIMITER) + Emit(SEQUENCE_SET) + Emit(PICTURE_SET)
  {
    hide Emit, EmitAll, DELIMITER, SEQUENCE_SET, PICTURE_SET;
    EmitOne(DELIMITER);
    EmitOne(SEQUENCE_SET);
    EmitOne(PICTURE_SET);
    EmitAllConcat([DELIMITER], [SEQUENCE_SET]);
    EmitAllConcat([DELIMITER] + [SEQUENCE_SET], [PICTURE_SET]);
    assert [DELIMITER] + [SEQUENCE_SET] + [PICTURE_SET] == [DELIMITER, SEQUENCE_SET, PICTURE_SET];
  }

  lemma RewrittenBytes()
    ensures REWRITTEN == Emit(DELIMITER) + Emit(SEQUENCE_SET) + Emit(PICTURE_SET) +
      EmittedSeiNalu([KEPT, NEW_CAPTION]) + Emit(SLICE)
  {
    hide Emit, EmittedSeiNalu, KEPT, NEW_CAPTION;
    FramedShort(0x09, 0xF0);
    FramedShort(0x67, 0x42);
    FramedShort(0x68, 0xCE);
    FramedShort(0x65, 0x88);
    NewSeiBytes();
  }

  /** What process() makes of that packet when one caption message was found. */
  lemma PacketRewritten()
    ensures Rewrite(PACKET, [NEW_CAPTION]) == Success(REWRITTEN)
  {
    hide Parse, PACKET, EmittedSeiNalu, StripCaptions, ValidOnly, Split, EmitAll, OLD_SEI, SLICE, DELIMITER,
      SEQUENCE_SET, PICTURE_SET, KEPT, NEW_CAPTION, Emit, REWRITTEN;
    PacketParts();
    PacketParsed();
    SeiStripped();
    RewrittenBytes();
    LeadingBytes();
    EmitOne(SLICE);
    assert [KEPT] + [NEW_CAPTION] == [KEPT, NEW_CAPTION];
  }
}
