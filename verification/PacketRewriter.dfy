/** How the injector rewrites the NALUs of a video packet around one SEI NALU. */
module PacketRewriter {
  import opened Wrappers
  import opened Words
  import opened BinaryParsing
  import opened Nalus
  import opened Seis
  import Rbsp
  import Wire

  // ---------- What a packet becomes ----------

  /** NALUs that stay in front of the SEI NALU. */
  predicate IsLeading(nalu: bytes) {
    nalu != [] && (TypeOf(nalu) == AUD || TypeOf(nalu) == SPS || TypeOf(nalu) == PPS)
  }

  predicate IsSei(nalu: bytes) {
    nalu != [] && TypeOf(nalu) == SEI
  }

  function ValidOnly(nalus: seq<bytes>): (r: seq<bytes>)
    ensures forall i :: 0 <= i < |r| ==> r[i] in nalus && IsValid(r[i])
    ensures (forall i :: 0 <= i < |nalus| ==> IsValid(nalus[i])) ==> r == nalus
  {
    if nalus == [] then []
    else ValidOnly(nalus[..|nalus| - 1]) + (if IsValid(nalus[|nalus| - 1]) then [nalus[|nalus| - 1]] else [])
  }

  /** The number of leading NALUs, counted from position k on. */
  function LeadingFrom(nalus: seq<bytes>, k: nat): (r: nat)
    requires k <= |nalus|
    ensures k <= r <= |nalus|
    ensures forall i :: k <= i < r ==> IsLeading(nalus[i])
    ensures r < |nalus| ==> !IsLeading(nalus[r])
    decreases |nalus| - k
  {
    if k < |nalus| && IsLeading(nalus[k]) then LeadingFrom(nalus, k + 1) else k
  }

  function WithoutCaptions(seis: seq<Sei>): (r: seq<Sei>)
    ensures forall i :: 0 <= i < |r| ==> r[i] in seis && r[i].payloadType != USER_DATA_REGISTERED
    ensures forall i :: 0 <= i < |seis| && seis[i].payloadType != USER_DATA_REGISTERED ==> seis[i] in r
  {
    if seis == [] then []
    else WithoutCaptions(seis[..|seis| - 1]) +
         (if seis[|seis| - 1].payloadType == USER_DATA_REGISTERED then [] else [seis[|seis| - 1]])
  }

  function StripCaptions(nalu: bytes): Result<seq<Sei>> {
    match ReadSeis(nalu)
    case Failure(e) => Failure(e)
    case Success(seis) => Success(WithoutCaptions(seis))
  }

  /** The parts of a packet: leading NALUs, an SEI NALU directly after them if there is one, the others. */
  datatype Parts = Parts(leading: seq<bytes>, sei: Option<bytes>, others: seq<bytes>)

  function Split(nalus: seq<bytes>): Parts {
    var k := LeadingFrom(nalus, 0);
    if k < |nalus| && IsSei(nalus[k]) then Parts(nalus[..k], Some(nalus[k]), nalus[k + 1..])
    else Parts(nalus[..k], None, nalus[k..])
  }

  function KeptSeis(parts: Parts): Result<seq<Sei>> {
    match parts.sei
    case None => Success([])
    case Some(nalu) => StripCaptions(nalu)
  }

  /** A failure leaves the packet as it was; MissingStopBit is not caught by the caller's handler. */
  function Rewrite(packet: bytes, found: seq<Sei>): Result<bytes> {
    match Parse(packet)
    case Failure(e) => Failure(e)
    case Success(nalus) =>
      var parts := Split(ValidOnly(nalus));
      match KeptSeis(parts)
      case Failure(e) => Failure(e)
      case Success(kept) =>
        Success(EmitAll(parts.leading) + EmittedSeiNalu(kept + found) + EmitAll(parts.others))
  }

  /** Whether a packet can be rewritten does not depend on what is injected. */
  predicate Rewritable(packet: bytes) {
    Parse(packet).Success? && KeptSeis(Split(ValidOnly(Parse(packet).value))).Success?
  }

  lemma RewriteSucceeds(packet: bytes, found: seq<Sei>)
    ensures Rewrite(packet, found).Success? <==> Rewritable(packet)
  {
    hide Parse, ValidOnly, Split, KeptSeis, EmitAll, EmittedSeiNalu;
  }

  // ---------- The code ----------

  method StripCc(nalu: bytes) returns (r: Result<seq<Sei>>)
    ensures r == StripCaptions(nalu)
  {
    hide ParseSeis, Rbsp.FromEbsp, WithoutCaptions;
    var sodb := Rbsp.CopyFromEbsp(nalu, true);
    if sodb.Failure? {
      return Failure(sodb.error);
    }
    if sodb.value == [] {
      return Failure(Undefined);
    }
    r := ParseStripping(sodb.value[1..]);
  }

  /** The loop of strip_cc. */
  method ParseStripping(data: bytes) returns (r: Result<seq<Sei>>)
    ensures r == match ParseSeis(data)
                 case Failure(e) => Failure(e)
                 case Success(seis) => Success(WithoutCaptions(seis))
  {
    hide Packets, Next, NextSei, PackSei, WithoutCaptions, InBuffer;
    NextSeiInBuffer();
    var parser := new Parser(NextSei, PackSei, data);
    var kept: seq<Sei> := [];
    ghost var done: seq<Sei> := [];
    CaptionsStart(data);
    while parser.HasNext()
      invariant parser.Valid() && fresh(parser)
      invariant parser.next == NextSei && parser.pack == PackSei && parser.data == data
      invariant ParseSeis(data) == Prepend(done, ParseSeis(data[parser.position..]))
      invariant kept == WithoutCaptions(done)
      decreases parser.BytesLeft()
    {
      ghost var before := parser.position;
      PacketsStep(NextSei, PackSei, done, data[before..]);
      SeiThere(data[before..]);
      var p := parser.NextPacket();
      if p.Failure? {
        return Failure(p.error);
      }
      var sei := p.value.value;
      if sei.payloadType != USER_DATA_REGISTERED {
        kept := kept + [sei];
      }
      CaptionsSnoc(done, sei);
      assert data[before..][parser.position - before..] == data[parser.position..];
      done := done + [sei];
    }
    CaptionsEnd(done, data[parser.position..]);
    r := Success(kept);
  }

  lemma CaptionsStart(data: bytes)
    ensures ParseSeis(data) == Prepend([], ParseSeis(data[0..]))
    ensures WithoutCaptions([]) == []
  {
    assert data[0..] == data;
    var none: seq<Sei> := [];
    PrependTwice(none, none, ParseSeis(data));
  }

  lemma CaptionsSnoc(done: seq<Sei>, sei: Sei)
    ensures WithoutCaptions(done + [sei]) ==
      WithoutCaptions(done) + (if sei.payloadType == USER_DATA_REGISTERED then [] else [sei])
  {
    assert (done + [sei])[..|done|] == done;
  }

  lemma CaptionsEnd(done: seq<Sei>, left: bytes)
    requires left == []
    ensures Prepend(done, ParseSeis(left)) == Success(done)
  {
    assert done + [] == done;
  }

  /** Where bytes are left, next() finds a message or fails. */
  lemma SeiThere(d: bytes)
    requires d != []
    ensures Next(NextSei, PackSei, d).0.Success? ==> Next(NextSei, PackSei, d).0.value.Some?
  {
  }

  method EmitAvccNalu(nalu: bytes, dest: bytes) returns (dest': bytes)
    ensures dest' == dest + Emit(nalu)
  {
    dest' := dest + Wire.Write32(|nalu|);
    dest' := dest' + nalu;
  }

  /** All NALUs of the packet but those that are not valid. */
  method CollectNalus(packet: bytes) returns (r: Result<seq<bytes>>)
    ensures r == match Parse(packet)
                 case Failure(e) => Failure(e)
                 case Success(nalus) => Success(ValidOnly(nalus))
  {
    hide Packets, Next, NextBounds, Pack, ValidOnly, InBuffer, IsValid, Parse, Prepend;
    NextBoundsInBuffer();
    var parser := new Parser(NextBounds, Pack, packet);
    var nalus: seq<bytes> := [];
    ghost var done: seq<bytes> := [];
    NalusStart(packet);
    while parser.HasNext()
      invariant parser.Valid() && fresh(parser)
      invariant parser.next == NextBounds && parser.pack == Pack && parser.data == packet
      invariant Parse(packet) == Prepend(done, Parse(packet[parser.position..]))
      invariant nalus == ValidOnly(done)
      decreases parser.BytesLeft()
    {
      ghost var before := parser.position;
      NalusStep(packet, done, before);
      var p := parser.NextPacket();
      if p.Failure? {
        return Failure(p.error);
      }
      var nalu := p.value.value;
      if IsValid(nalu) {
        nalus := nalus + [nalu];
      }
      NalusSnoc(done, nalu);
      done := done + [nalu];
    }
    NalusEnd(done, packet[parser.position..]);
    r := Success(nalus);
  }

  lemma NalusStart(packet: bytes)
    ensures Parse(packet) == Prepend([], Parse(packet[0..]))
    ensures ValidOnly([]) == []
  {
    assert packet[0..] == packet;
    var none: seq<bytes> := [];
    PrependTwice(none, none, Parse(packet));
  }

  lemma NalusSnoc(done: seq<bytes>, nalu: bytes)
    ensures ValidOnly(done + [nalu]) == ValidOnly(done) + (if IsValid(nalu) then [nalu] else [])
  {
    assert (done + [nalu])[..|done|] == done;
  }

  lemma NalusEnd(done: seq<bytes>, left: bytes)
    requires left == []
    ensures Prepend(done, Parse(left)) == Success(done)
  {
    assert done + [] == done;
  }

  /** What one call of next() means for the NALUs still to come; where bytes are left it finds one or fails. */
  lemma NalusStep(packet: bytes, done: seq<bytes>, position: nat)
    requires position < |packet| && Parse(packet) == Prepend(done, Parse(packet[position..]))
    ensures var (r, taken) := Next(NextBounds, Pack, packet[position..]);
      match r
      case Failure(e) => Parse(packet) == Failure(e)
      case Success(None) => false
      case Success(Some(nalu)) =>
        0 < taken <= |packet| - position ==>
          Parse(packet) == Prepend(done + [nalu], Parse(packet[position + taken..]))
  {
    var left := packet[position..];
    NaluThere(left);
    hide Next, NextBounds, Pack;
    PacketsStep(NextBounds, Pack, done, left);
    var (r, taken) := Next(NextBounds, Pack, left);
    if 0 < taken <= |left| {
      assert left[taken..] == packet[position + taken..];
    }
  }

  lemma NaluThere(d: bytes)
    requires d != []
    ensures Next(NextBounds, Pack, d).0.Success? ==> Next(NextBounds, Pack, d).0.value.Some?
  {
  }

  /** The loop that emits the leading NALUs; it is the first NALU after them. */
  method EmitLeading(ns: seq<bytes>) returns (buf: bytes, it: nat)
    ensures it == LeadingFrom(ns, 0) && buf == EmitAll(ns[..it])
  {
    hide Emit, IsLeading;
    buf := [];
    it := 0;
    while it < |ns| && IsLeading(ns[it])
      invariant it <= |ns|
      invariant LeadingFrom(ns, it) == LeadingFrom(ns, 0)
      invariant buf == EmitAll(ns[..it])
    {
      EmitAllStep(ns, 0, it);
      buf := EmitAvccNalu(ns[it], buf);
      it := it + 1;
    }
  }

  /** The loop that emits the NALUs from a position on. */
  method EmitOthers(ns: seq<bytes>, from: nat, buf: bytes) returns (buf': bytes)
    requires from <= |ns|
    ensures buf' == buf + EmitAll(ns[from..])
  {
    hide Emit;
    buf' := buf;
    var it := from;
    while it < |ns|
      invariant from <= it <= |ns|
      invariant buf' == buf + EmitAll(ns[from..it])
    {
      EmitAllStep(ns, from, it);
      buf' := EmitAvccNalu(ns[it], buf');
      it := it + 1;
    }
    assert ns[from..it] == ns[from..];
  }

  /** The packet part of process(). */
  method RewritePacket(packet: bytes, found: seq<Sei>) returns (r: Result<bytes>)
    ensures r == Rewrite(packet, found)
  {
    hide Parse, ValidOnly, StripCaptions, EmittedSeiNalu, EmitAll, LeadingFrom;
    var nalus := CollectNalus(packet);
    if nalus.Failure? {
      return Failure(nalus.error);
    }
    var buf, it := EmitLeading(nalus.value);
    var seis: seq<Sei> := [];
    if it < |nalus.value| && IsSei(nalus.value[it]) {
      var stripped := StripCc(nalus.value[it]);
      if stripped.Failure? {
        return Failure(stripped.error);
      }
      seis := stripped.value;
      it := it + 1;
    }
    seis := AppendAll(seis, found);
    buf := EmitSeiPayloadsToNalu(seis, buf);
    buf := EmitOthers(nalus.value, it, buf);
    r := Success(buf);
  }

  method AppendAll(seis: seq<Sei>, found: seq<Sei>) returns (all: seq<Sei>)
    ensures all == seis + found
  {
    all := seis;
    for i := 0 to |found|
      invariant all == seis + found[..i]
    {
      all := all + [found[i]];
    }
    assert found[..|found|] == found;
  }

  lemma EmitAllStep(ns: seq<bytes>, from: nat, to: nat)
    requires from <= to < |ns|
    ensures EmitAll(ns[from..to + 1]) == EmitAll(ns[from..to]) + Emit(ns[to])
  {
    assert ns[from..to + 1][..to - from] == ns[from..to];
  }

  // ---------- What it preserves ----------

  /** The length field of the SEI NALU, a 32-bit sum of hints, is the length of what follows it. */
  predicate LengthRight(seis: seq<Sei>) {
    (1 + SizeHints(seis)) % 0x1_0000_0000 == |SeiNalu(seis)| <= MAX_LENGTH
  }

  lemma CancelFront(front: seq<bytes>, r: Result<seq<bytes>>, rest: seq<bytes>)
    ensures Prepend(front, r) == Success(front + rest) <==> r == Success(rest)
  {
    if r.Success? && front + r.value == front + rest {
      assert r.value == (front + r.value)[|front|..] == (front + rest)[|front|..] == rest;
    }
  }

  /** Behind a length field n, exactly nalu is found first if and only if n is its length and not too large. */
  lemma FoundBehind(n: u32, nalu: bytes, tail: bytes, others: seq<bytes>)
    requires nalu != [] && Parse(tail) == Success(others)
    ensures Parse(Wire.Write32(n) + nalu + tail) == Success([nalu] + others) <==> n == |nalu| <= MAX_LENGTH
  {
    hide Parse, Wire.Write32;
    var d := Wire.Write32(n) + nalu + tail;
    if n == |nalu| <= MAX_LENGTH {
      ParseEmit(nalu, tail);
    }
    if Parse(d) == Success([nalu] + others) {
      var first, rest := ParseHead(d);
      assert ([nalu] + others)[0] == nalu;
      FirstOf(first, Parse(rest), [nalu] + others);
      Wire.Right2(Wire.Write32(n), nalu, tail);
      Wire.Right2(Wire.Write32(|nalu|), nalu, rest);
      SameLengthField(n, |nalu|, nalu + tail, nalu + rest);
    }
  }

  lemma FirstOf(first: bytes, r: Result<seq<bytes>>, all: seq<bytes>)
    requires Prepend([first], r) == Success(all)
    ensures all != [] && all[0] == first
  {
  }

  /** What was emitted around the SEI NALU parses back if and only if its length field is right. */
  lemma EmittedParses(leading: seq<bytes>, seis: seq<Sei>, others: seq<bytes>)
    requires forall i :: 0 <= i < |leading| ==> Framable(leading[i])
    requires forall i :: 0 <= i < |others| ==> Framable(others[i])
    ensures var rewritten := EmitAll(leading) + EmittedSeiNalu(seis) + EmitAll(others);
      Parse(rewritten) == Success(leading + [SeiNalu(seis)] + others) <==> LengthRight(seis)
  {
    hide Parse, EmitAll, Wire.Write32, SizeHints, Messages, Emit, Framable;
    var nalu := SeiNalu(seis);
    var a, b, c := EmitAll(leading), EmittedSeiNalu(seis), EmitAll(others);
    assert a + b + c == a + (b + c);
    ParseEmitAll(leading, b + c);
    ParseOthers(others);
    LengthField(seis);
    FoundBehind((1 + SizeHints(seis)) % 0x1_0000_0000, nalu, c, others);
    CancelFront(leading, Parse(b + c), [nalu] + others);
    assert leading + ([nalu] + others) == leading + [nalu] + others;
  }

  lemma ParseOthers(others: seq<bytes>)
    requires forall i :: 0 <= i < |others| ==> Framable(others[i])
    ensures Parse(EmitAll(others)) == Success(others)
  {
    hide Parse, EmitAll, Framable;
    ParseEmitAll(others, []);
    NalusEnd(others, []);
    assert EmitAll(others) + [] == EmitAll(others);
  }

  /** The valid NALUs of a packet, in parts. */
  function VideoParts(packet: bytes): Parts {
    match Parse(packet)
    case Failure(_) => Parts([], None, [])
    case Success(nalus) => Split(ValidOnly(nalus))
  }

  /** The messages of the new SEI NALU: those kept from the packet's own, and the injected ones. */
  function NewSeis(packet: bytes, found: seq<Sei>): seq<Sei> {
    match KeptSeis(VideoParts(packet))
    case Failure(_) => found
    case Success(kept) => kept + found
  }

  /** Messages that may be framed together. */
  predicate AllFraming(seis: seq<Sei>) {
    (forall i :: 0 <= i < |seis| ==> Framing(seis[i])) && 1 + SizeHints(seis) <= MAX_LENGTH
  }

  /** What parsing the rewritten packet has to give: the valid NALUs in their order around the new one. */
  predicate VideoPreserved(packet: bytes, found: seq<Sei>, rewritten: bytes) {
    var parts := VideoParts(packet);
    Parse(rewritten) == Success(parts.leading + [SeiNalu(NewSeis(packet, found))] + parts.others)
  }

  /**
   For every packet that can be parsed and stripped: parsing the rewritten packet gives the valid NALUs
   in their order, with the new SEI NALU after the leading ones, in place of an SEI NALU that stood
   there, if and only if the length field of the new NALU is right. No other NALU is then changed, lost
   or added.
   */
  lemma RewritePreservesVideo(packet: bytes, found: seq<Sei>)
    requires Rewrite(packet, found).Success?
    ensures VideoPreserved(packet, found, Rewrite(packet, found).value) <==> LengthRight(NewSeis(packet, found))
    ensures var parts := VideoParts(packet);
      && ValidOnly(Parse(packet).value) ==
         parts.leading + (if parts.sei.Some? then [parts.sei.value] else []) + parts.others
      && (forall i :: 0 <= i < |parts.leading| ==> IsLeading(parts.leading[i]))
      && (parts.sei.Some? ==> IsSei(parts.sei.value))
      && (parts.sei.None? && parts.others != [] ==> !IsLeading(parts.others[0]) && !IsSei(parts.others[0]))
  {
    hide Parse, SeiNalu, EmittedSeiNalu, ValidOnly, KeptSeis, LeadingFrom, LengthRight;
    var all := Parse(packet).value;
    var video := ValidOnly(all);
    var parts := Split(video);
    EmitParse(packet);
    SplitParts(all, video);
    EmittedParses(parts.leading, NewSeis(packet, found), parts.others);
  }

  /** Among messages whose sizes the hints get right, that is: no 00 00 {00, 01, 02}, and not too long in all. */
  lemma LengthRightFraming(seis: seq<Sei>)
    requires AllHinted(seis)
    ensures LengthRight(seis) <==> AllFraming(seis)
  {
    hide SeiNalu, SizeHints, MissedIn;
    HintedLength(seis);
    FramingMissed(seis);
  }

  lemma FramingMissed(seis: seq<Sei>)
    requires AllHinted(seis)
    ensures (forall i :: 0 <= i < |seis| ==> Framing(seis[i])) <==> AllNoneMissed(seis)
  {
    hide Hinted, Rbsp.NoneMissed;
  }

  /**
   The form that can be checked before: if all messages of the new SEI NALU are not empty and have types
   and sizes below 510, the video is preserved if and only if none of them has 00 00 {00, 01, 02} and
   their hints sum up to no more than a NALU may have.
   */
  lemma RewriteFraming(packet: bytes, found: seq<Sei>)
    requires Rewrite(packet, found).Success? && AllHinted(NewSeis(packet, found))
    ensures VideoPreserved(packet, found, Rewrite(packet, found).value) <==> AllFraming(NewSeis(packet, found))
  {
    hide Rewrite, VideoPreserved, LengthRight, AllHinted, AllFraming, NewSeis;
    RewritePreservesVideo(packet, found);
    LengthRightFraming(NewSeis(packet, found));
  }

  /** The 32-bit sum of the hints is the sum of hints and excesses, and not too large. */
  predicate HintsExact(seis: seq<Sei>) {
    (1 + SizeHints(seis)) % 0x1_0000_0000 == 1 + SizeHints(seis) + ExcessIn(seis) <= MAX_LENGTH
  }

  lemma LengthRightExcess(seis: seq<Sei>)
    ensures LengthRight(seis) <==> HintsExact(seis)
  {
    hide SeiNalu, SizeHints, ExcessIn;
    NaluExcess(seis);
  }

  /** Below 2^32 that is: the excesses of all messages cancel. */
  lemma HintsCancel(seis: seq<Sei>)
    requires 1 + SizeHints(seis) < 0x1_0000_0000
    ensures HintsExact(seis) <==> ExcessIn(seis) == 0 && 1 + SizeHints(seis) <= MAX_LENGTH
  {
    hide SizeHints, ExcessIn;
    BelowMod(1 + SizeHints(seis));
  }

  lemma BelowMod(n: nat)
    requires n < 0x1_0000_0000
    ensures n % 0x1_0000_0000 == n
  {
  }

  /** The condition as arithmetic, for every packet that can be rewritten, whatever its messages. */
  lemma RewriteArithmetic(packet: bytes, found: seq<Sei>)
    requires Rewrite(packet, found).Success?
    ensures VideoPreserved(packet, found, Rewrite(packet, found).value) <==> HintsExact(NewSeis(packet, found))
  {
    hide Rewrite, VideoPreserved, NewSeis, LengthRight, HintsExact;
    RewritePreservesVideo(packet, found);
    LengthRightExcess(NewSeis(packet, found));
  }

  // ---------- A packet that is spoiled ----------

  /** A packet of one slice. */
  const SLICE: bytes := [0x65, 0x88]

  const ZEROS: Sei := Sei(USER_DATA_REGISTERED, [0, 0, 0])

  lemma SliceParts()
    ensures Parse(Emit(SLICE)) == Success([SLICE])
    ensures VideoParts(Emit(SLICE)) == Parts([], None, [SLICE])
  {
    assert IsValid(SLICE) && TypeOf(SLICE) == Other(5);
    hide Emit, TypeOf, LeadingFrom, Parse, IsValid;
    ParseOthers([SLICE]);
    EmitOne(SLICE);
    assert ValidOnly([SLICE]) == [SLICE];
    NoneLeading([SLICE]);
  }

  lemma NoneLeading(nalus: seq<bytes>)
    requires nalus != [] && !IsLeading(nalus[0]) && !IsSei(nalus[0])
    ensures Split(nalus) == Parts([], None, nalus)
  {
    hide IsLeading, IsSei;
  }

  /** The NALU that is announced with seven bytes, and the byte behind them. */
  lemma ZerosNalu()
    ensures SizeHints([ZEROS]) == 6
    ensures SeiNalu([ZEROS]) == [6, 4, 3, 0, 0, 3, 0] + [0x80]
  {
    var data, none := ZEROS.data, [ZEROS][..0];
    assert Rbsp.EscapeTo(data, 2) == [0, 0];
    assert Rbsp.Escape(data) == [0, 0, 3, 0];
    assert Rbsp.HintCountTo(data, 1) == 0;
    assert Messages(none) == [] && SizeHints(none) == 0;
    assert Message(ZEROS) == [4, 3, 0, 0, 3, 0, 0x80];
    assert Messages([ZEROS]) == Messages(none) + Message(ZEROS);
  }

  lemma TooLong(tail: bytes)
    requires |tail| >= LENGTH_SIZE && tail[0] == 0x80
    ensures Parse(tail) == Failure(MalformedNalu)
  {
  }

  /** A stop byte that the length field leaves behind reads as the start of a length that is too large. */
  lemma StopByteLeft(nalu: bytes, stop: byte, others: bytes)
    requires Framable(nalu) && stop == 0x80 && |others| >= 3
    ensures Parse(Wire.Write32(|nalu|) + (nalu + [stop]) + others) == Failure(MalformedNalu)
  {
    hide Parse, Wire.Write32;
    TooLong([stop] + others);
    ParseEmit(nalu, [stop] + others);
    Wire.Right2(Wire.Write32(|nalu|), nalu, [stop]);
    Wire.Right2(Wire.Write32(|nalu|) + nalu, [stop], others);
  }

  lemma ZerosRewritten()
    ensures Rewrite(Emit(SLICE), [ZEROS]) == Success(EmittedSeiNalu([ZEROS]) + Emit(SLICE))
  {
    SliceParts();
    EmitOne(SLICE);
    hide Emit, Parse, EmittedSeiNalu, ValidOnly, LeadingFrom;
    var none: seq<Sei> := [];
    assert none + [ZEROS] == [ZEROS];
    assert EmitAll([]) + EmittedSeiNalu([ZEROS]) == EmittedSeiNalu([ZEROS]);
  }

  /** Injecting three zero bytes spoils the packet: it cannot be parsed any more. */
  lemma ZerosSpoilPacket()
    ensures Rewrite(Emit(SLICE), [ZEROS]).Success?
    ensures Parse(Rewrite(Emit(SLICE), [ZEROS]).value) == Failure(MalformedNalu)
  {
    assert |Emit(SLICE)| == 6;
    hide Rewrite, Emit, Parse, SeiNalu, Wire.Write32, SizeHints;
    ZerosRewritten();
    ZerosNalu();
    StopByteLeft([6, 4, 3, 0, 0, 3, 0], 0x80, Emit(SLICE));
  }

  lemma SplitParts(all: seq<bytes>, video: seq<bytes>)
    requires forall i :: 0 <= i < |all| ==> Framable(all[i])
    requires forall i :: 0 <= i < |video| ==> video[i] in all
    ensures var parts := Split(video);
      && video == parts.leading + (if parts.sei.Some? then [parts.sei.value] else []) + parts.others
      && (forall i :: 0 <= i < |parts.leading| ==> Framable(parts.leading[i]) && IsLeading(parts.leading[i]))
      && (forall i :: 0 <= i < |parts.others| ==> Framable(parts.others[i]))
      && (parts.sei.Some? ==> IsSei(parts.sei.value))
      && (parts.sei.None? && parts.others != [] ==> !IsLeading(parts.others[0]) && !IsSei(parts.others[0]))
  {
    hide Framable, IsLeading, IsSei, LeadingFrom;
    var parts := Split(video);
    var k := |video| - |parts.others|;
    forall i | 0 <= i < |video|
      ensures Framable(video[i])
    {
      assert video[i] in all;
    }
    forall i | 0 <= i < |parts.leading|
      ensures Framable(parts.leading[i]) && IsLeading(parts.leading[i])
    {
      assert parts.leading[i] == video[i];
    }
    forall i | 0 <= i < |parts.others|
      ensures Framable(parts.others[i])
    {
      assert parts.others[i] == video[k + i];
    }
  }

  lemma NewSeisConcat(packet: bytes, found: seq<Sei>)
    ensures NewSeis(packet, found) == NewSeis(packet, []) + found
  {
    hide KeptSeis, VideoParts;
    match KeptSeis(VideoParts(packet))
    case Failure(_) => assert found == [] + found;
    case Success(kept) => assert kept + [] == kept;
  }

  lemma NewSeisFraming(packet: bytes, found: seq<Sei>)
    requires AllFraming(NewSeis(packet, [])) && 1 + SizeHints(NewSeis(packet, found)) <= MAX_LENGTH
    requires forall i :: 0 <= i < |found| ==> Framing(found[i])
    ensures AllFraming(NewSeis(packet, found))
    ensures forall i :: 0 <= i < |found| ==> found[i] in NewSeis(packet, found)
  {
    var kept, seis := NewSeis(packet, []), NewSeis(packet, found);
    hide NewSeis, Framing, SizeHints;
    NewSeisConcat(packet, found);
    forall i | 0 <= i < |seis|
      ensures Framing(seis[i])
    {
      assert seis[i] == if i < |kept| then kept[i] else found[i - |kept|];
    }
    forall i | 0 <= i < |found|
      ensures found[i] in seis
    {
      assert seis[|kept| + i] == found[i];
    }
  }
}
