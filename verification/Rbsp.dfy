/**
 Emulation prevention: the byte copying loops, what they compute, and how they relate to each other
 and to the encoder of section 7.4.1.1 of ITU-T H.264.
 */
module Rbsp {
  import opened Wrappers
  import opened Words

  const EMULATION_PREVENTION: byte := 0x03
  const STOP_BYTE: byte := 0x80

  // ---------- What the loops compute ----------

  /** The encoder inserts a byte before position i: it looks at the source only. */
  predicate Escaped(s: bytes, i: nat)
    requires i < |s|
  {
    i >= 2 && s[i - 2] == 0 && s[i - 1] == 0 && s[i] <= 3
  }

  /** What the encoder has written after n source bytes. */
  function EscapeTo(s: bytes, n: nat): bytes
    requires n <= |s|
  {
    if n == 0 then []
    else EscapeTo(s, n - 1) + (if Escaped(s, n - 1) then [EMULATION_PREVENTION, s[n - 1]] else [s[n - 1]])
  }

  function Escape(s: bytes): bytes {
    EscapeTo(s, |s|)
  }

  /** The decoder drops the last byte of e: it looks at the encoded bytes only. */
  predicate Dropped(e: bytes)
    requires |e| > 0
  {
    |e| >= 3 && e[|e| - 3] == 0 && e[|e| - 2] == 0 && e[|e| - 1] == 3
  }

  function Unescape(e: bytes): bytes {
    if e == [] then []
    else Unescape(e[..|e| - 1]) + (if Dropped(e) then [] else [e[|e| - 1]])
  }

  function ToEbsp(s: bytes, addStopBit: bool): bytes {
    if s == [] then [] else Escape(s) + (if addStopBit then [STOP_BYTE] else [])
  }

  function WithoutTrailingZeros(e: bytes): bytes {
    if e != [] && e[|e| - 1] == 0 then WithoutTrailingZeros(e[..|e| - 1]) else e
  }

  /** Data that are all zero make the search for the stop bit leave the buffer. */
  function FromEbsp(e: bytes, dropStopBit: bool): Result<bytes> {
    if e == [] then Success([])
    else if !dropStopBit then Success(Unescape(e))
    else
      var t := WithoutTrailingZeros(e);
      if t == [] then Failure(Undefined)
      else if t[|t| - 1] != STOP_BYTE then Failure(MissingStopBit)
      else Success(Unescape(t[..|t| - 1]))
  }

  // ---------- The loops ----------

  method CopyToEbsp(src: bytes, addStopBit: bool) returns (dest: bytes)
    ensures dest == ToEbsp(src, addStopBit)
  {
    if src == [] {
      return [];
    }
    var first := 0;
    if |src| <= 2 {
      dest := src;
      EscapeShort(src, |src|);
    } else {
      dest := src[..2];
      first := 2;
      EscapeShort(src, 2);
      while first < |src|
        invariant 2 <= first <= |src|
        invariant dest == EscapeTo(src, first)
      {
        if src[first - 2] == 0 && src[first - 1] == 0 && src[first] <= 3 {
          dest := dest + [EMULATION_PREVENTION];
        }
        dest := dest + [src[first]];
        first := first + 1;
      }
    }
    if addStopBit {
      dest := dest + [STOP_BYTE];
    }
  }

  method CopyFromEbsp(src: bytes, dropStopBit: bool) returns (r: Result<bytes>)
    ensures r == FromEbsp(src, dropStopBit)
  {
    hide Unescape, WithoutTrailingZeros;
    if src == [] {
      return Success([]);
    }
    var last: nat := |src|;
    Whole(src);
    if dropStopBit {
      while last > 0 && src[last - 1] == 0
        invariant last <= |src|
        invariant WithoutTrailingZeros(src[..last]) == WithoutTrailingZeros(src)
      {
        TrimStep(src, last);
        last := last - 1;
      }
      TrimEnd(src, last);
      if last == 0 {
        return Failure(Undefined);
      }
      if src[last - 1] != STOP_BYTE {
        return Failure(MissingStopBit);
      }
      last := last - 1;
    }
    var dest := src[..last];
    if last <= 2 {
      UnescapeShort(src[..last]);
    } else {
      dest := src[..2];
      var first := 2;
      UnescapeShort(src[..2]);
      while first < last
        invariant 2 <= first <= last
        invariant dest == Unescape(src[..first])
      {
        UnescapeStep(src, first);
        if !(src[first - 2] == 0 && src[first - 1] == 0 && src[first] == 3) {
          dest := dest + [src[first]];
        }
        first := first + 1;
      }
    }
    assert dropStopBit ==> src[..last + 1][..last] == src[..last];
    r := Success(dest);
  }

  lemma Whole(s: bytes)
    ensures s[..|s|] == s
  {
  }

  lemma TrimStep(src: bytes, last: nat)
    requires 0 < last <= |src| && src[last - 1] == 0
    ensures WithoutTrailingZeros(src[..last]) == WithoutTrailingZeros(src[..last - 1])
  {
    assert src[..last][..last - 1] == src[..last - 1];
  }

  lemma TrimEnd(src: bytes, last: nat)
    requires last <= |src| && (last == 0 || src[last - 1] != 0)
    ensures WithoutTrailingZeros(src[..last]) == src[..last]
  {
  }

  lemma UnescapeStep(src: bytes, first: nat)
    requires first < |src|
    ensures Unescape(src[..first + 1]) == Unescape(src[..first]) +
      (if first >= 2 && src[first - 2] == 0 && src[first - 1] == 0 && src[first] == 3 then [] else [src[first]])
  {
    assert src[..first + 1][..first] == src[..first];
  }

  lemma EscapeShort(s: bytes, n: nat)
    requires n <= 2 && n <= |s|
    ensures EscapeTo(s, n) == s[..n]
  {
    if n > 0 {
      EscapeShort(s, n - 1);
    }
  }

  lemma UnescapeNone()
    ensures Unescape([]) == []
  {
  }

  lemma UnescapeShort(e: bytes)
    requires |e| <= 2
    ensures Unescape(e) == e
  {
    hide Unescape;
    if e == [] {
      UnescapeNone();
    } else {
      var front, last := e[..|e| - 1], e[|e| - 1];
      UnescapeShort(front);
      UnescapeSnoc(front, last);
      assert front + [last] == e;
    }
  }

  // ---------- The round trip ----------

  /** Three zero bytes followed by a byte of at most 3 end at position i. */
  predicate Overlap(s: bytes, i: nat)
    requires i < |s|
  {
    i >= 3 && s[i - 3] == 0 && s[i - 2] == 0 && s[i - 1] == 0 && s[i] <= 3
  }

  predicate NoOverlap(s: bytes) {
    forall i :: 0 <= i < |s| ==> !Overlap(s, i)
  }

  function OverlapsTo(s: bytes, n: nat): nat
    requires n <= |s|
  {
    if n == 0 then 0 else OverlapsTo(s, n - 1) + (if Overlap(s, n - 1) then 1 else 0)
  }

  /** What comes back: the source with a stray 03 before the last byte of every such run. */
  function EchoTo(s: bytes, n: nat): (r: bytes)
    requires n <= |s|
    ensures |r| == n + OverlapsTo(s, n)
  {
    if n == 0 then []
    else EchoTo(s, n - 1) + (if Overlap(s, n - 1) then [EMULATION_PREVENTION, s[n - 1]] else [s[n - 1]])
  }

  lemma EscapeEnds(s: bytes, n: nat)
    requires 0 < n <= |s|
    ensures var e := EscapeTo(s, n);
      && |e| >= n
      && e[|e| - 1] == s[n - 1]
      && (n >= 2 ==> e[|e| - 2] == if Escaped(s, n - 1) then EMULATION_PREVENTION else s[n - 2])
  {
    if n >= 2 {
      EscapeEnds(s, n - 1);
    }
  }

  predicate EndsInZeros(o: bytes) {
    |o| >= 2 && o[|o| - 2] == 0 && o[|o| - 1] == 0
  }

  lemma UnescapeSnoc(e: bytes, b: byte)
    ensures Unescape(e + [b]) == Unescape(e) + (if EndsInZeros(e) && b == 3 then [] else [b])
  {
    assert (e + [b])[..|e|] == e;
    assert Dropped(e + [b]) <==> EndsInZeros(e) && b == 3;
  }

  /** An inserted byte is dropped after two zero bytes, and it protects the byte that follows. */
  lemma UnescapeInserted(e: bytes, b: byte)
    ensures Unescape(e + [EMULATION_PREVENTION, b]) ==
      Unescape(e) + (if EndsInZeros(e) then [b] else [EMULATION_PREVENTION, b])
  {
    hide Unescape;
    var u, v := Unescape(e), if EndsInZeros(e) then [] else [EMULATION_PREVENTION];
    UnescapeSnoc(e, EMULATION_PREVENTION);
    UnescapeSnoc(e + [EMULATION_PREVENTION], b);
    assert !EndsInZeros(e + [EMULATION_PREVENTION]);
    hide EndsInZeros;
    assert e + [EMULATION_PREVENTION, b] == e + [EMULATION_PREVENTION] + [b];
    assert u + v + [b] == u + (v + [b]);
  }

  lemma EscapeToEndsInZeros(s: bytes, n: nat)
    requires 0 < n < |s|
    ensures EndsInZeros(EscapeTo(s, n)) <==> n >= 2 && s[n - 2] == 0 && s[n - 1] == 0 && !Escaped(s, n - 1)
  {
    EscapeEnds(s, n);
    if n == 1 {
      assert EscapeTo(s, 1) == [s[0]];
    }
  }

  lemma NothingEscaped(s: bytes)
    ensures Unescape(EscapeTo(s, 0)) == EchoTo(s, 0)
  {
  }

  lemma EscapeToStep(s: bytes, n: nat)
    requires 0 < n <= |s|
    ensures EscapeTo(s, n) ==
      EscapeTo(s, n - 1) + (if Escaped(s, n - 1) then [EMULATION_PREVENTION, s[n - 1]] else [s[n - 1]])
    ensures EchoTo(s, n) ==
      EchoTo(s, n - 1) + (if Overlap(s, n - 1) then [EMULATION_PREVENTION, s[n - 1]] else [s[n - 1]])
  {
  }

  lemma {:induction false} UnescapeEscapeTo(s: bytes, n: nat)
    requires n <= |s|
    ensures Unescape(EscapeTo(s, n)) == EchoTo(s, n)
  {
    hide Unescape, EndsInZeros, Escaped, Overlap, EscapeTo, EchoTo;
    if n == 0 {
      NothingEscaped(s);
    } else {
      UnescapeEscapeTo(s, n - 1);
      EscapeToStep(s, n);
      Inserted(s, n);
      var e, b := EscapeTo(s, n - 1), s[n - 1];
      if Escaped(s, n - 1) {
        UnescapeInserted(e, b);
      } else {
        UnescapeSnoc(e, b);
      }
    }
  }

  /** A byte inserted before the last of n source bytes is dropped again unless the run is too long. */
  lemma Inserted(s: bytes, n: nat)
    requires 0 < n <= |s|
    ensures var o := EndsInZeros(EscapeTo(s, n - 1));
      && (Escaped(s, n - 1) ==> o == !Overlap(s, n - 1))
      && (!Escaped(s, n - 1) ==> !Overlap(s, n - 1) && !(o && s[n - 1] == 3))
  {
    if n > 1 {
      EscapeToEndsInZeros(s, n - 1);
    }
  }

  lemma EchoIsSource(s: bytes, n: nat)
    requires n <= |s| && OverlapsTo(s, n) == 0
    ensures EchoTo(s, n) == s[..n]
  {
    if n > 0 {
      EchoIsSource(s, n - 1);
    }
  }

  lemma OverlapsCounted(s: bytes, n: nat)
    requires n <= |s|
    ensures OverlapsTo(s, n) == 0 <==> forall i :: 0 <= i < n ==> !Overlap(s, i)
  {
    if n > 0 {
      OverlapsCounted(s, n - 1);
    }
  }

  lemma StopBitDropped(e: bytes)
    ensures FromEbsp(e + [STOP_BYTE], true) == Success(Unescape(e))
  {
    hide Unescape;
    assert (e + [STOP_BYTE])[..|e|] == e;
  }

  /** Decoding what the encoder wrote, with or without the stop bit. */
  lemma DecodeEncode(s: bytes, stopBit: bool)
    ensures FromEbsp(ToEbsp(s, stopBit), stopBit) == Success(EchoTo(s, |s|))
  {
    hide Unescape, EscapeTo;
    if s != [] {
      UnescapeEscapeTo(s, |s|);
      var e := EscapeTo(s, |s|);
      if stopBit {
        StopBitDropped(e);
      } else {
        assert e + [] == e;
        EscapeNotEmpty(s);
      }
    }
  }

  lemma EscapeNotEmpty(s: bytes)
    requires s != []
    ensures Escape(s) != []
  {
    EscapeEnds(s, |s|);
  }

  /** The source comes back exactly when no three zero bytes are followed by a byte of at most 3. */
  lemma RoundTrip(s: bytes, stopBit: bool)
    ensures FromEbsp(ToEbsp(s, stopBit), stopBit) == Success(s) <==> NoOverlap(s)
  {
    DecodeEncode(s, stopBit);
    OverlapsCounted(s, |s|);
    if OverlapsTo(s, |s|) == 0 {
      EchoIsSource(s, |s|);
      assert s[..|s|] == s;
    }
  }

  /** In general what comes back is longer by one byte for every such run. */
  lemma RoundTripGrowth(s: bytes, stopBit: bool)
    ensures var r := FromEbsp(ToEbsp(s, stopBit), stopBit);
      r.Success? && |r.value| == |s| + OverlapsTo(s, |s|)
  {
    DecodeEncode(s, stopBit);
  }

  /** A source that does not come back. */
  lemma RoundTripFails()
    ensures FromEbsp(ToEbsp([0, 0, 0, 1], true), true) == Success([0, 0, 0, 3, 1])
  {
    var s: bytes := [0, 0, 0, 1];
    DecodeEncode(s, true);
    assert EchoTo(s, 2) == [0, 0];
    assert EchoTo(s, 4) == [0, 0, 0, 3, 1];
  }

  predicate AllZero(zeros: bytes) {
    forall i :: 0 <= i < |zeros| ==> zeros[i] == 0
  }

  lemma {:induction false} TrailingZeros(e: bytes, zeros: bytes)
    requires AllZero(zeros) && (e == [] || e[|e| - 1] != 0)
    ensures WithoutTrailingZeros(e + zeros) == e
    decreases |zeros|
  {
    if zeros == [] {
      assert e + zeros == e;
    } else {
      var front := zeros[..|zeros| - 1];
      TrailingZeros(e, front);
      assert (e + zeros)[..|e + zeros| - 1] == e + front;
    }
  }

  /**
   What dropping the stop bit does with all data, behind any zero bytes at the end: the last byte but
   those has to be 80, and then what is before it is decoded; data that are all zero are overrun.
   */
  lemma DecodeExactly(e: bytes, zeros: bytes)
    requires AllZero(zeros) && (e == [] || e[|e| - 1] != 0) && e + zeros != []
    ensures FromEbsp(e + zeros, true) ==
      if e == [] then Failure(Undefined)
      else if e[|e| - 1] == 0x80 then Success(Unescape(e[..|e| - 1]))
      else Failure(MissingStopBit)
  {
    hide Unescape;
    TrailingZeros(e, zeros);
  }

  // ---------- Legality ----------

  /**
   No start code and no other forbidden pattern at position k: after two zero bytes comes nothing
   below 03, and a 03 there is followed by the byte of at most 3 that it protects.
   */
  predicate LegalAt(e: bytes, k: nat) {
    k + 2 < |e| && e[k] == 0 && e[k + 1] == 0 ==>
      e[k + 2] >= 3 && (e[k + 2] == 3 ==> k + 3 < |e| && e[k + 3] <= 3)
  }

  predicate Legal(e: bytes) {
    forall k :: 0 <= k < |e| ==> LegalAt(e, k)
  }

  lemma {:induction false} EscapeToLegal(s: bytes, n: nat)
    requires n <= |s|
    ensures Legal(EscapeTo(s, n))
  {
    if n > 0 {
      EscapeToLegal(s, n - 1);
      var e := EscapeTo(s, n - 1);
      if n > 1 {
        EscapeEnds(s, n - 1);
      }
      if Escaped(s, n - 1) {
        LegalPair(e, s[n - 1]);
      } else {
        LegalSnoc(e, s[n - 1]);
      }
    }
  }

  lemma LegalSnoc(e: bytes, b: byte)
    requires Legal(e) && (EndsInZeros(e) ==> b > 3)
    ensures Legal(e + [b])
  {
    forall k | 0 <= k < |e + [b]|
      ensures LegalAt(e + [b], k)
    {
      if k < |e| {
        assert LegalAt(e, k);
      }
    }
  }

  lemma LegalPair(e: bytes, b: byte)
    requires Legal(e) && b <= 3
    ensures Legal(e + [EMULATION_PREVENTION, b])
  {
    var e' := e + [EMULATION_PREVENTION, b];
    forall k | 0 <= k < |e'|
      ensures LegalAt(e', k)
    {
      if k < |e| {
        assert LegalAt(e, k);
      }
    }
  }

  lemma LegalConcat(a: bytes, b: bytes)
    requires Legal(a) && Legal(b) && (a == [] || a[|a| - 1] != 0)
    ensures Legal(a + b)
  {
    forall k | 0 <= k < |a + b|
      ensures LegalAt(a + b, k)
    {
      if k < |a| {
        assert LegalAt(a, k);
      } else {
        assert LegalAt(b, k - |a|);
      }
    }
  }

  /** Whatever the source, the encoder writes no forbidden pattern. */
  lemma EncodeLegal(s: bytes, addStopBit: bool)
    ensures Legal(ToEbsp(s, addStopBit))
  {
    EscapeToLegal(s, |s|);
    hide Legal, Escape;
    if s != [] && addStopBit {
      LegalSnoc(Escape(s), STOP_BYTE);
    } else if s != [] {
      assert Escape(s) + [] == Escape(s);
    }
  }

  // ---------- The encoder of the standard ----------

  /** Section 7.4.1.1: a 03 is inserted whenever two zero bytes of the output precede a byte of at most 3. */
  function StandardTo(s: bytes, n: nat): bytes
    requires n <= |s|
  {
    if n == 0 then []
    else
      var o := StandardTo(s, n - 1);
      if EndsInZeros(o) && s[n - 1] <= 3 then o + [EMULATION_PREVENTION, s[n - 1]] else o + [s[n - 1]]
  }

  /** Data that end in 00 get a final 03. */
  function StandardEscape(s: bytes): bytes {
    StandardTo(s, |s|) + (if s != [] && s[|s| - 1] == 0 then [EMULATION_PREVENTION] else [])
  }

  lemma StandardEnds(s: bytes, n: nat)
    requires 0 < n <= |s|
    ensures var o := StandardTo(s, n);
      && |o| >= n
      && o[|o| - 1] == s[n - 1]
      && (n >= 2 ==> o[|o| - 2] == EMULATION_PREVENTION || o[|o| - 2] == s[n - 2])
  {
    if n >= 2 {
      StandardEnds(s, n - 1);
    }
  }

  lemma UnescapeStandardStep(s: bytes, n: nat)
    requires 0 < n <= |s|
    ensures Unescape(StandardTo(s, n)) == Unescape(StandardTo(s, n - 1)) + [s[n - 1]]
  {
    hide Unescape;
    var o := StandardTo(s, n - 1);
    if EndsInZeros(o) && s[n - 1] <= 3 {
      UnescapeInserted(o, s[n - 1]);
    } else {
      UnescapeSnoc(o, s[n - 1]);
    }
  }

  lemma {:induction false} UnescapeStandardTo(s: bytes, n: nat)
    requires n <= |s|
    ensures Unescape(StandardTo(s, n)) == s[..n]
  {
    hide Unescape, EndsInZeros;
    if n > 0 {
      UnescapeStandardTo(s, n - 1);
      UnescapeStandardStep(s, n);
    } else {
      UnescapeShort([]);
    }
  }

  /** The decoder inverts the standard's encoder on data that end in a non-zero byte, as RBSP data do. */
  lemma DecodeStandard(s: bytes)
    requires s == [] || s[|s| - 1] != 0
    ensures Unescape(StandardEscape(s)) == s
  {
    UnescapeStandardTo(s, |s|);
    assert s[..|s|] == s;
    assert StandardTo(s, |s|) + [] == StandardTo(s, |s|);
  }

  lemma StandardInserted(s: bytes, n: nat)
    requires 0 < n <= |s|
    ensures EndsInZeros(StandardTo(s, n - 1)) && s[n - 1] <= 3 ==> Escaped(s, n - 1)
    ensures Escaped(s, n - 1) ==> s[n - 1] <= 3
  {
    if n > 1 {
      StandardEnds(s, n - 1);
    }
  }

  /** The program's encoder inserts wherever the standard's does, and strictly more after such a run. */
  lemma {:induction false} StandardInsertsLess(s: bytes, n: nat)
    requires n <= |s|
    ensures |StandardTo(s, n)| <= |EscapeTo(s, n)|
    ensures OverlapsTo(s, n) == 0 ==> StandardTo(s, n) == EscapeTo(s, n)
    ensures OverlapsTo(s, n) > 0 ==> |StandardTo(s, n)| < |EscapeTo(s, n)|
  {
    if n > 0 {
      StandardInsertsLess(s, n - 1);
      EscapeToStep(s, n);
      Inserted(s, n);
      StandardInserted(s, n);
      hide EndsInZeros, Escaped, Overlap, EscapeTo, EchoTo;
      assert OverlapsTo(s, n - 1) == 0 ==> StandardTo(s, n - 1) == EscapeTo(s, n - 1);
    }
  }

  /** On such data the two encoders agree exactly when no run 00 00 00 is followed by a byte of at most 3. */
  lemma AgreesWithStandard(s: bytes)
    requires s == [] || s[|s| - 1] != 0
    ensures Escape(s) == StandardEscape(s) <==> NoOverlap(s)
  {
    StandardInsertsLess(s, |s|);
    OverlapsCounted(s, |s|);
    assert StandardTo(s, |s|) + [] == StandardTo(s, |s|);
  }

  // ---------- Counting ----------

  /** 00 00 03 ends at position i: what the size hint counts. */
  predicate HintCounts(s: bytes, i: nat)
    requires i < |s|
  {
    i >= 2 && s[i - 2] == 0 && s[i - 1] == 0 && s[i] == 3
  }

  function HintCountTo(s: bytes, n: nat): nat
    requires n <= |s|
  {
    if n == 0 then 0 else HintCountTo(s, n - 1) + (if HintCounts(s, n - 1) then 1 else 0)
  }

  method CountEmulationPreventionBytes(s: bytes) returns (count: nat)
    ensures count == HintCountTo(s, |s|)
  {
    if |s| <= 2 {
      HintCountShort(s, |s|);
      return 0;
    }
    count := 0;
    var first := 2;
    HintCountShort(s, 2);
    while first < |s|
      invariant 2 <= first <= |s|
      invariant count == HintCountTo(s, first)
    {
      if s[first - 2] == 0 && s[first - 1] == 0 && s[first] == 3 {
        count := count + 1;
      }
      first := first + 1;
    }
  }

  lemma HintCountShort(s: bytes, n: nat)
    requires n <= 2 && n <= |s|
    ensures HintCountTo(s, n) == 0
  {
  }

  /** 00 00 followed by 00, 01 or 02 ends at position i: inserted before, but not counted. */
  predicate Missed(s: bytes, i: nat)
    requires i < |s|
  {
    i >= 2 && s[i - 2] == 0 && s[i - 1] == 0 && s[i] <= 2
  }

  function MissedTo(s: bytes, n: nat): nat
    requires n <= |s|
  {
    if n == 0 then 0 else MissedTo(s, n - 1) + (if Missed(s, n - 1) then 1 else 0)
  }

  predicate NoneMissed(s: bytes) {
    forall i :: 0 <= i < |s| ==> !Missed(s, i)
  }

  lemma {:induction false} EscapeLength(s: bytes, n: nat)
    requires n <= |s|
    ensures |EscapeTo(s, n)| == n + HintCountTo(s, n) + MissedTo(s, n)
  {
    if n > 0 {
      EscapeLength(s, n - 1);
    }
  }

  lemma MissedCounted(s: bytes, n: nat)
    requires n <= |s|
    ensures MissedTo(s, n) == 0 <==> forall i :: 0 <= i < n ==> !Missed(s, i)
  {
    if n > 0 {
      MissedCounted(s, n - 1);
    }
  }

  lemma NoneMissedNoOverlap(s: bytes)
    requires NoneMissed(s)
    ensures NoOverlap(s)
  {
    forall i | 0 <= i < |s| && i >= 3
      ensures !Overlap(s, i)
    {
      assert !Missed(s, i - 1);
    }
  }

  lemma NoneMissedConcat(a: bytes, b: bytes)
    requires NoneMissed(a) && NoneMissed(b) && !EndsInZeros(a) && (b == [] || b[0] != 0)
    ensures NoneMissed(a + b)
  {
    forall i | 0 <= i < |a + b|
      ensures !Missed(a + b, i)
    {
      assert i < |a| ==> !Missed(a, i);
      assert i >= |a| ==> !Missed(b, i - |a|);
    }
  }
}
