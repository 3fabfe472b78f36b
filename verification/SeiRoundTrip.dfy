/** One message from the emitter through a packet and back to the SEI parser. */
module SeiRoundTrip {
  import opened Wrappers
  import opened Words
  import opened BinaryParsing
  import opened Nalus
  import opened Seis
  import opened Rbsp
  import opened Wire

  /** Finds the bounds of the only NALU, decodes it and parses its messages. */
  function ReadBack(packet: bytes): Result<seq<Sei>> {
    match Parse(packet)
    case Failure(e) => Failure(e)
    case Success(nalus) => if |nalus| == 1 then ReadSeis(nalus[0]) else Failure(MalformedNalu)
  }

  /** The NALU of one message reads back as that message if and only if its length field is right and it does. */
  lemma ReadBackFramed(sei: Sei)
    ensures var n, content := (1 + SizeHint(sei)) % 0x1_0000_0000, SeiNalu([sei]);
      ReadBack(EmittedSeiNalu([sei])) == Success([sei]) <==>
        n == |content| <= MAX_LENGTH && ReadSeis(content) == Success([sei])
  {
    hide Parse, ReadSeis, SizeHint, SizeHints, Write32, Messages;
    OneHint(sei);
    LengthField([sei]);
    ParseOnly((1 + SizeHint(sei)) % 0x1_0000_0000, SeiNalu([sei]));
  }

  lemma {:induction false} FewCounted(s: bytes, n: nat)
    requires n <= |s|
    ensures HintCountTo(s, n) <= n
    decreases n
  {
    if n > 0 {
      FewCounted(s, n - 1);
    }
  }

  lemma WritableIsShort(sei: Sei)
    requires Writable(sei.payloadType) && Writable(|sei.data|)
    ensures 1 + SizeHint(sei) < 0x1000
  {
    FewCounted(sei.data, |sei.data|);
  }

  /**
   A message comes back from its NALU exactly when its type and size are below 255 (or 256), it is not
   empty and its payload has no 00 00 followed by a byte below 03.
   */
  lemma EndToEnd(sei: Sei)
    ensures ReadBack(EmittedSeiNalu([sei])) == Success([sei]) <==>
      Writable(sei.payloadType) && Writable(|sei.data|) && sei.data != [] && NoneMissed(sei.data)
  {
    hide ReadBack, ReadSeis, SeiNalu, EmittedSeiNalu, SizeHint, NoneMissed, NoOverlap, Writable;
    ReadBackFramed(sei);
    if sei.data == [] {
      EmptyNeverReads(sei);
    } else {
      ReadReadable(sei);
      if Writable(sei.payloadType) && Writable(|sei.data|) {
        WritableIsShort(sei);
        WholeLength(sei);
      }
      if NoneMissed(sei.data) {
        NoneMissedNoOverlap(sei.data);
      }
    }
  }

  lemma OneHint(sei: Sei)
    ensures SizeHints([sei]) == SizeHint(sei) && Messages([sei]) == Message(sei)
  {
    var none: seq<Sei> := [sei][..0];
    hide SizeHint, Message;
    assert SizeHints([sei]) == SizeHints(none) + SizeHint(sei);
    assert Messages([sei]) == Messages(none) + Message(sei);
  }

  // ---------- Empty messages ----------

  predicate AllOnes(d: bytes) {
    forall i :: 0 <= i < |d| ==> d[i] == 0xFF
  }

  lemma {:induction false} AllOnesFail(d: bytes)
    requires d != [] && AllOnes(d)
    ensures ParseVariadic(d).Failure?
    decreases |d|
  {
    if |d| > 1 {
      AllOnesFail(d[1..]);
    }
  }

  lemma AllOnesUnread(d: bytes, sei: Sei)
    requires AllOnes(d)
    ensures ParseSeis(d) != Success([sei])
  {
    if d != [] {
      AllOnesFail(d);
    }
  }

  /** The decoder takes the size for trailing zeros, and the type for a stop bit if it ends in 80. */
  lemma EmptyDecoded(e: bytes, v: bytes)
    requires e == [SEI_NALU_TYPE_BYTE] + v + [0] && v != []
    requires AllOnes(v[..|v| - 1]) && (v[|v| - 1] == 0 ==> |v| == 1)
    ensures var r := FromEbsp(e, true);
      r.Success? ==> r.value == [SEI_NALU_TYPE_BYTE] + v[..|v| - 1]
  {
    hide Unescape, WithoutTrailingZeros, NoZeroPair;
    var t, front := [SEI_NALU_TYPE_BYTE] + v, [SEI_NALU_TYPE_BYTE] + v[..|v| - 1];
    OnesKeptApart(v);
    UnescapeNoZeroPair(front);
    assert e == t + [0] && t == front + [v[|v| - 1]];
    ZeroTrimmed(t);
    if v[|v| - 1] == 0 {
      assert front == [SEI_NALU_TYPE_BYTE];
      ZeroTrimmed(front);
    } else {
      assert t[..|t| - 1] == front;
    }
  }

  lemma ZeroTrimmed(t: bytes)
    requires t != []
    ensures WithoutTrailingZeros(t + [0]) == WithoutTrailingZeros(t)
    ensures t[|t| - 1] != 0 ==> WithoutTrailingZeros(t) == t
  {
    assert (t + [0])[..|t|] == t;
  }

  lemma OnesKeptApart(v: bytes)
    requires v != [] && AllOnes(v[..|v| - 1])
    ensures NoZeroPair([SEI_NALU_TYPE_BYTE] + v[..|v| - 1])
  {
  }

  lemma EmptyNeverReads(sei: Sei)
    requires sei.data == []
    ensures ReadSeis(SeiNalu([sei])) != Success([sei])
  {
    OneHint(sei);
    VariadicEnds(sei.payloadType);
    var e, v := SeiNalu([sei]), Variadic(sei.payloadType);
    EmptyNalu(sei);
    hide SeiNalu, Variadic, FromEbsp, ParseSeis;
    EmptyDecoded(e, v);
    var ones := v[..|v| - 1];
    assert ([SEI_NALU_TYPE_BYTE] + ones)[1..] == ones;
    AllOnesUnread(ones, sei);
  }

  lemma EmptyNalu(sei: Sei)
    requires sei.data == []
    ensures SeiNalu([sei]) == [SEI_NALU_TYPE_BYTE] + Variadic(sei.payloadType) + [0]
  {
    OneHint(sei);
    hide Messages;
    assert Message(sei) == Variadic(sei.payloadType) + [0];
  }

  /** Where the length field is right, numbers that survive leave no escape uncounted. */
  lemma WholeLength(sei: Sei)
    requires sei.data != [] && Writable(sei.payloadType) && Writable(|sei.data|)
    ensures |SeiNalu([sei])| == 1 + SizeHint(sei) <==> NoneMissed(sei.data)
  {
    OneHint(sei);
    FramingLength(sei);
  }
}
