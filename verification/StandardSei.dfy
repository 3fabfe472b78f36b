/**
 SEI NAL units as ITU-T H.264 prescribes them: how its sections 7.3.2.3 and 7.4.1.1 write a list of
 messages, that the program reads every such unit, and when it writes one itself.
 */
module StandardSeis {
  import opened Wrappers
  import opened Words
  import opened BinaryParsing
  import opened Rbsp
  import opened Seis
  import opened PacketRewriter
  import SeiRoundTrip

  function StandardMessage(sei: Sei): bytes {
    StandardVariadic(sei.payloadType) + StandardVariadic(|sei.data|) + sei.data
  }

  function StandardMessages(seis: seq<Sei>): bytes {
    if seis == [] then [] else StandardMessage(seis[0]) + StandardMessages(seis[1..])
  }

  /** A header byte, the messages one after the other and one stop bit, all of it escaped at once. */
  function StandardNalu(header: byte, seis: seq<Sei>): bytes {
    StandardEscape([header] + StandardMessages(seis) + [0x80])
  }

  // ---------- Reading ----------

  /** Nothing is inserted before the stop bit. */
  lemma StopBitLast(s: bytes)
    ensures StandardEscape(s + [0x80]) == StandardTo(s, |s|) + [0x80]
  {
    StandardToPrefix(s, [0x80], |s|);
    var whole := s + [0x80];
    var o := StandardTo(whole, |whole| - 1);
    assert StandardTo(whole, |whole|) == o + [0x80];
    hide StandardTo;
    assert StandardEscape(whole) == StandardTo(whole, |whole|) + [];
  }

  lemma {:induction false} StandardToPrefix(a: bytes, b: bytes, n: nat)
    requires n <= |a|
    ensures StandardTo(a + b, n) == StandardTo(a, n)
    decreases n
  {
    if n > 0 {
      StandardToPrefix(a, b, n - 1);
    }
  }

  lemma StandardDecoded(s: bytes, zeros: bytes)
    requires AllZero(zeros)
    ensures FromEbsp(StandardEscape(s + [0x80]) + zeros, true) == Success(s)
  {
    hide StandardEscape, StandardTo, Unescape, FromEbsp;
    var o := StandardTo(s, |s|);
    StopBitLast(s);
    DecodeExactly(o + [0x80], zeros);
    UnescapeStandardTo(s, |s|);
    assert s[..|s|] == s && (o + [0x80])[..|o|] == o;
  }

  lemma {:induction false} ParseStandardMessages(seis: seq<Sei>)
    ensures ParseSeis(StandardMessages(seis)) == Success(seis)
    decreases |seis|
  {
    if seis != [] {
      var sei, d := seis[0], StandardMessages(seis[1..]);
      ParseStandardMessages(seis[1..]);
      StandardFirst(sei.payloadType, |sei.data|, sei.data + d);
      var a := StandardVariadic(sei.payloadType) + StandardVariadic(|sei.data|);
      assert StandardMessages(seis) == a + (sei.data + d);
      assert (sei.data + d)[..|sei.data|] == sei.data && (sei.data + d)[|sei.data|..] == d;
      assert [sei] + seis[1..] == seis;
    }
  }

  lemma StandardBounds(payloadType: nat, size: nat, d: bytes)
    ensures var t, z := StandardVariadic(payloadType), StandardVariadic(size);
      NextSei(t + z + d) ==
        if size > |d| then Failure(MalformedSei) else Success(Some(Bounds(|t + z|, size, payloadType)))
  {
    var t, z := StandardVariadic(payloadType), StandardVariadic(size);
    ParseStandard(payloadType, z + d);
    ParseStandard(size, d);
    NotEmpty(payloadType);
    hide StandardVariadic, ParseVariadic;
    assert t + z + d == t + (z + d);
  }

  /** A message is taken if as many bytes are there as its size says. */
  lemma StandardFirst(payloadType: nat, size: nat, d: bytes)
    ensures ParseSeis(StandardVariadic(payloadType) + StandardVariadic(size) + d) ==
      if size > |d| then Failure(MalformedSei)
      else Prepend([Sei(payloadType, d[..size])], ParseSeis(d[size..]))
  {
    var a := StandardVariadic(payloadType) + StandardVariadic(size);
    var all := a + d;
    NotEmpty(payloadType);
    StandardBounds(payloadType, size, d);
    hide StandardVariadic, NextSei;
    if size <= |d| {
      TailParts(a, d, size);
      OnePacket(all, Sei(payloadType, d[..size]), |a|, size);
    }
  }

  lemma OnePacket(d: bytes, sei: Sei, start: nat, size: nat)
    requires 0 < start && start + size <= |d| && d[start..start + size] == sei.data
    requires NextSei(d) == Success(Some(Bounds(start, size, sei.payloadType)))
    ensures ParseSeis(d) == Prepend([sei], ParseSeis(d[start + size..]))
  {
    hide NextSei;
    assert Next(NextSei, PackSei, d) == (Success(Some(sei)), start + size);
  }

  lemma NotEmpty(n: nat)
    ensures StandardVariadic(n) != []
  {
  }

  /** The program reads the standard: every list of messages, under any header, with any zeros behind. */
  lemma ReadsStandard(header: byte, seis: seq<Sei>, zeros: bytes)
    requires AllZero(zeros)
    ensures ReadSeis(StandardNalu(header, seis) + zeros) == Success(seis)
  {
    hide StandardEscape, FromEbsp, ParseSeis, StandardMessages;
    var s := [header] + StandardMessages(seis);
    StandardDecoded(s, zeros);
    assert s[1..] == StandardMessages(seis);
    ParseStandardMessages(seis);
  }

  /** The messages of any other type than registered user data, which is type 4. */
  function NotRegistered(seis: seq<Sei>): seq<Sei> {
    if seis == [] then []
    else (if seis[0].payloadType == 4 then [] else [seis[0]]) + NotRegistered(seis[1..])
  }

  lemma {:induction false} NotRegisteredSnoc(seis: seq<Sei>, last: Sei)
    ensures NotRegistered(seis + [last]) ==
      NotRegistered(seis) + (if last.payloadType == 4 then [] else [last])
    decreases |seis|
  {
    var whole, end := seis + [last], if last.payloadType == 4 then [] else [last];
    if seis == [] {
      assert whole[1..] == [] && whole[0] == last;
      assert NotRegistered(whole[1..]) == [];
    } else {
      assert whole[1..] == seis[1..] + [last] && whole[0] == seis[0];
      NotRegisteredSnoc(seis[1..], last);
      var first := if seis[0].payloadType == 4 then [] else [seis[0]];
      assert first + (NotRegistered(seis[1..]) + end) == first + NotRegistered(seis[1..]) + end;
    }
  }

  lemma {:induction false} CaptionsAreRegistered(seis: seq<Sei>)
    ensures WithoutCaptions(seis) == NotRegistered(seis)
    decreases |seis|
  {
    if seis != [] {
      var front, last := seis[..|seis| - 1], seis[|seis| - 1];
      CaptionsAreRegistered(front);
      NotRegisteredSnoc(front, last);
      assert front + [last] == seis;
    }
  }

  /** Stripping a standard SEI NAL unit drops its messages of type 4 and keeps all others in their order. */
  lemma StripsStandard(header: byte, seis: seq<Sei>, zeros: bytes)
    requires AllZero(zeros)
    ensures StripCaptions(StandardNalu(header, seis) + zeros) == Success(NotRegistered(seis))
  {
    hide ReadSeis, StandardNalu, NotRegistered, WithoutCaptions;
    ReadsStandard(header, seis, zeros);
    CaptionsAreRegistered(seis);
  }

  // ---------- Writing ----------

  lemma RawIsStandard(sei: Sei)
    requires Writable(sei.payloadType) && Writable(|sei.data|)
    ensures RawNalu([sei]) == [6] + StandardMessages([sei]) + [0x80]
  {
    VariadicIsStandard(sei.payloadType);
    VariadicIsStandard(|sei.data|);
    hide Variadic, StandardVariadic;
    assert [sei][..0] == [] && [sei][1..] == [];
    assert RawNalu([]) == [6];
    assert StandardMessages([sei]) == StandardMessage(sei);
    assert RawNalu([sei]) == [6] + Header(sei) + sei.data + [0x80];
  }

  lemma OverlapShift(a: bytes, s: bytes, b: byte)
    requires a != [] && a[|a| - 1] != 0 && NoZeroPair(a) && b > 3
    ensures NoOverlap(a + s + [b]) <==> NoOverlap(s)
  {
    var e := a + s + [b];
    if NoOverlap(e) {
      forall i | 0 <= i < |s|
        ensures !Overlap(s, i)
      {
        assert !Overlap(e, |a| + i);
      }
    }
    if NoOverlap(s) {
      forall i | 0 <= i < |e|
        ensures !Overlap(e, i)
      {
        if 3 <= i < |a| {
          assert a[i - 2] != 0 || a[i - 1] != 0;
        } else if |a| <= i < |a| + |s| {
          assert !Overlap(s, i - |a|);
        }
      }
    }
  }

  /**
   The SEI NAL unit that the program writes for one message is the one that the standard prescribes if and
   only if its type and size are below 255 (or 256), it is not empty and no run of three zero bytes in it
   is followed by a byte of at most 3.
   */
  lemma WritesStandard(sei: Sei)
    ensures SeiNalu([sei]) == StandardNalu(6, [sei]) <==>
      Writable(sei.payloadType) && Writable(|sei.data|) && sei.data != [] && NoOverlap(sei.data)
  {
    hide StandardNalu, SeiNalu, ReadSeis, NoOverlap, Writable;
    ReadsStandard(6, [sei], []);
    assert StandardNalu(6, [sei]) + [] == StandardNalu(6, [sei]);
    if sei.data == [] {
      SeiRoundTrip.EmptyNeverReads(sei);
    } else {
      ReadReadable(sei);
      if Readable(sei) {
        ReadableWritten(sei);
      }
    }
  }

  lemma ReadableWritten(sei: Sei)
    requires Readable(sei)
    ensures SeiNalu([sei]) == StandardNalu(6, [sei])
  {
    hide Escape, StandardEscape, SeiNalu, NoOverlap, NoZeroPair, Header, StandardMessages;
    RawIsStandard(sei);
    SeiNaluIsEscaped([sei]);
    HeaderNoZeroPair(sei);
    var a := [SEI_NALU_TYPE_BYTE] + Header(sei);
    RawParts(sei);
    BeforePayload(Header(sei));
    OverlapShift(a, sei.data, 0x80);
    AgreesWithStandard(RawNalu([sei]));
  }

  lemma RawParts(sei: Sei)
    ensures RawNalu([sei]) == [SEI_NALU_TYPE_BYTE] + Header(sei) + sei.data + [STOP_BYTE]
  {
    assert [sei][..0] == [];
    hide Header;
    assert RawNalu([]) == [SEI_NALU_TYPE_BYTE];
  }

  lemma BeforePayload(h: bytes)
    requires NoZeroPair(h)
    ensures NoZeroPair([SEI_NALU_TYPE_BYTE] + h)
  {
    forall i | 0 < i < |h| + 1
      ensures ([SEI_NALU_TYPE_BYTE] + h)[i - 1] != 0 || ([SEI_NALU_TYPE_BYTE] + h)[i] != 0
    {
      assert i > 1 ==> h[i - 2] != 0 || h[i - 1] != 0;
    }
  }
}
