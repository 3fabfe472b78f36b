/** SEI messages: how they are written into a NALU and read back from it. */
module Seis {
  import opened Wrappers
  import opened Words
  import opened BinaryParsing
  import opened Rbsp
  import Wire

  /**
   A message. Types and sizes are 32-bit numbers in the program; those read from a NALU, whose length
   is at most 8249344, are below 2^32 without any reduction.
   */
  datatype Sei = Sei(payloadType: nat, data: bytes)

  const SEI_NALU_TYPE_BYTE: byte := 6
  const USER_DATA_REGISTERED := 4

  // ---------- Variable-length numbers ----------

  function VariadicSize(n: nat): nat {
    n / 255 + 1
  }

  /** What emit_variadic_length_int appends. */
  function Variadic(n: nat): bytes {
    if n < 255 then [n] else [0xFF] + Variadic(n / 255)
  }

  method EmitVariadic(num: nat, dest: bytes) returns (dest': bytes)
    ensures dest' == dest + Variadic(num)
  {
    var n := num;
    dest' := dest;
    while n >= 255
      invariant dest' + Variadic(n) == dest + Variadic(num)
    {
      assert dest' + Variadic(n) == dest' + [0xFF] + Variadic(n / 255);
      dest' := dest' + [0xFF];
      n := n / 255;
    }
    dest' := dest' + [n % 255];
  }

  /** Section 7.3.2.3.1: a byte FF for every 255, and the rest in the last byte. */
  function StandardVariadic(n: nat): bytes {
    if n < 255 then [n] else [0xFF] + StandardVariadic(n - 255)
  }

  /** The number that is read, and the bytes after it. Reading from no bytes at all leaves the buffer. */
  function ParseVariadic(d: bytes): (r: Result<(nat, bytes)>)
    ensures r.Success? ==> |r.value.1| < |d|
  {
    if d == [] then Failure(Undefined)
    else if d[0] != 0xFF then Success((d[0], d[1..]))
    else if |d| == 1 then Failure(MalformedSei)
    else
      match ParseVariadic(d[1..])
      case Failure(e) => Failure(e)
      case Success((n, rest)) => Success((255 + n, rest))
  }

  /** The C++ code advances startptr; here it is an index into the buffer. */
  method ReadVariadic(d: bytes, start: nat) returns (r: Result<nat>, start': nat)
    requires start <= |d|
    ensures match ParseVariadic(d[start..])
      case Failure(e) => r == Failure(e)
      case Success((n, rest)) => r == Success(n) && start' <= |d| && d[start'..] == rest
  {
    start' := start;
    if start == |d| {
      return Failure(Undefined), start;
    }
    var x := 0;
    while d[start'] == 0xFF
      invariant start <= start' < |d|
      invariant ParseVariadic(d[start..]) == match ParseVariadic(d[start'..])
                                             case Failure(e) => Failure(e)
                                             case Success((n, rest)) => Success((x + n, rest))
      decreases |d| - start'
    {
      x := x + 255;
      start' := start' + 1;
      assert d[start' - 1..][1..] == d[start'..];
      if start' == |d| {
        return Failure(MalformedSei), start';
      }
    }
    assert d[start'..][1..] == d[start' + 1..];
    x := x + d[start'];
    start' := start' + 1;
    r := Success(x);
  }

  /** What a number written by the program reads back as. */
  function ReadsAs(n: nat): nat {
    if n < 255 then n else 255 + ReadsAs(n / 255)
  }

  /** The numbers that survive. */
  predicate Writable(n: nat) {
    n < 255 || n == 256
  }

  lemma {:induction false} ReadsAsLess(n: nat)
    ensures n >= 510 ==> ReadsAs(n) < n
    ensures ReadsAs(n) == n <==> Writable(n)
  {
    if n >= 255 {
      ReadsAsLess(n / 255);
    }
  }

  lemma {:induction false} ParseVariadicEmitted(n: nat, tail: bytes)
    ensures ParseVariadic(Variadic(n) + tail) == Success((ReadsAs(n), tail))
    decreases n
  {
    if n < 255 {
      assert (Variadic(n) + tail)[1..] == tail;
    } else {
      ParseVariadicEmitted(n / 255, tail);
      assert (Variadic(n) + tail)[1..] == Variadic(n / 255) + tail;
    }
  }

  /** Parsing gives back the number exactly when it is below 255, or 256. */
  lemma VariadicRoundTrip(n: nat, tail: bytes)
    ensures ParseVariadic(Variadic(n) + tail) == Success((n, tail)) <==> Writable(n)
  {
    ParseVariadicEmitted(n, tail);
    ReadsAsLess(n);
  }

  lemma {:induction false} ParseStandard(n: nat, tail: bytes)
    ensures ParseVariadic(StandardVariadic(n) + tail) == Success((n, tail))
    decreases n
  {
    if n < 255 {
      assert (StandardVariadic(n) + tail)[1..] == tail;
    } else {
      ParseStandard(n - 255, tail);
      assert (StandardVariadic(n) + tail)[1..] == StandardVariadic(n - 255) + tail;
    }
  }

  /** Numbers that cannot be read: no byte at all, or nothing but FF. */
  lemma {:induction false} VariadicRefused(d: bytes)
    ensures var r := ParseVariadic(d);
      && (r == Failure(Undefined) <==> d == [])
      && (r == Failure(MalformedSei) <==> d != [] && forall i :: 0 <= i < |d| ==> d[i] == 0xFF)
      && (r.Failure? ==> r == Failure(Undefined) || r == Failure(MalformedSei))
    decreases |d|
  {
    if |d| > 1 && d[0] == 0xFF {
      VariadicRefused(d[1..]);
      assert (forall i :: 0 <= i < |d| ==> d[i] == 0xFF) <==> (forall i :: 0 <= i < |d[1..]| ==> d[1..][i] == 0xFF) by {
        if forall i :: 0 <= i < |d[1..]| ==> d[1..][i] == 0xFF {
          assert forall i :: 1 <= i < |d| ==> d[i] == d[1..][i - 1];
        }
      }
    }
  }

  /** The program writes what the standard prescribes exactly for those numbers. */
  lemma VariadicIsStandard(n: nat)
    ensures Variadic(n) == StandardVariadic(n) <==> Writable(n)
  {
    ParseVariadicEmitted(n, []);
    ParseStandard(n, []);
    ReadsAsLess(n);
    if n == 256 {
      assert Variadic(256) == [0xFF, 1] == StandardVariadic(256);
    }
  }

  lemma {:induction false} VariadicShort(n: nat)
    ensures |Variadic(n)| <= VariadicSize(n)
    ensures |Variadic(n)| == VariadicSize(n) <==> n < 510
    decreases n
  {
    if n >= 255 {
      VariadicShort(n / 255);
    }
  }

  /** The byte count hint for a number is exact if and only if the number is below 510. */
  lemma VariadicSizeExact(n: nat)
    ensures |Variadic(n)| == VariadicSize(n) <==> n < 510
  {
    VariadicShort(n);
  }

  /** A written number ends in a byte that is neither FF nor, for a positive number, 00. */
  lemma {:induction false} VariadicEnds(n: nat)
    ensures var v := Variadic(n);
      && v != []
      && v[|v| - 1] != 0xFF
      && (v[|v| - 1] == 0 ==> n == 0)
      && forall i :: 0 <= i < |v| - 1 ==> v[i] == 0xFF
    decreases n
  {
    if n >= 255 {
      VariadicEnds(n / 255);
    }
  }

  // ---------- Writing messages ----------

  function SizeHint(sei: Sei): nat {
    |sei.data| + HintCountTo(sei.data, |sei.data|) + 1 + VariadicSize(|sei.data|) + VariadicSize(sei.payloadType)
  }

  method SeiPayloadSizeHint(sei: Sei) returns (x: nat)
    ensures x == SizeHint(sei)
  {
    x := 0;
    var count := CountEmulationPreventionBytes(sei.data);
    x := x + |sei.data| + count + 1;
    x := x + VariadicSize(|sei.data|);
    x := x + VariadicSize(sei.payloadType);
  }

  function Header(sei: Sei): bytes {
    Variadic(sei.payloadType) + Variadic(|sei.data|)
  }

  function Message(sei: Sei): bytes {
    Header(sei) + ToEbsp(sei.data, true)
  }

  method EmitSeiPayload(sei: Sei, dest: bytes) returns (dest': bytes)
    ensures dest' == dest + Message(sei)
  {
    dest' := EmitVariadic(sei.payloadType, dest);
    dest' := EmitVariadic(|sei.data|, dest');
    var e := CopyToEbsp(sei.data, true);
    dest' := dest' + e;
  }

  function Messages(seis: seq<Sei>): bytes {
    if seis == [] then [] else Messages(seis[..|seis| - 1]) + Message(seis[|seis| - 1])
  }

  function SizeHints(seis: seq<Sei>): nat {
    if seis == [] then 0 else SizeHints(seis[..|seis| - 1]) + SizeHint(seis[|seis| - 1])
  }

  /** The content of the NALU that carries the messages. */
  function SeiNalu(seis: seq<Sei>): (r: bytes)
    ensures r != []
  {
    [SEI_NALU_TYPE_BYTE] + Messages(seis)
  }

  /** The NALU as it is written: its length field holds the hint. */
  function EmittedSeiNalu(seis: seq<Sei>): bytes {
    Wire.Write32(1 + SizeHints(seis)) + SeiNalu(seis)
  }

  lemma LengthField(seis: seq<Sei>)
    ensures EmittedSeiNalu(seis) == Wire.Write32((1 + SizeHints(seis)) % 0x1_0000_0000) + SeiNalu(seis)
  {
    hide Wire.Write32, SeiNalu;
    var n := 1 + SizeHints(seis);
    assert n == 0x1_0000_0000 * (n / 0x1_0000_0000) + n % 0x1_0000_0000;
    Wire.Write32Low(n / 0x1_0000_0000, n % 0x1_0000_0000);
  }

  method EmitSeiPayloadsToNalu(seis: seq<Sei>, dest: bytes) returns (dest': bytes)
    ensures dest' == dest + EmittedSeiNalu(seis)
  {
    hide SizeHint, Message, Wire.Write32;
    var sizeHint := 1;
    var i := 0;
    while i < |seis|
      invariant i <= |seis|
      invariant sizeHint == 1 + SizeHints(seis[..i])
    {
      assert seis[..i + 1][..i] == seis[..i];
      var x := SeiPayloadSizeHint(seis[i]);
      sizeHint := sizeHint + x;
      i := i + 1;
    }
    assert seis[..|seis|] == seis;
    dest' := dest + Wire.Write32(sizeHint) + [SEI_NALU_TYPE_BYTE];
    ghost var start := dest';
    i := 0;
    while i < |seis|
      invariant i <= |seis|
      invariant dest' == start + Messages(seis[..i])
    {
      assert seis[..i + 1][..i] == seis[..i];
      dest' := EmitSeiPayload(seis[i], dest');
      i := i + 1;
    }
  }

  // ---------- The length field ----------

  /** Payloads whose size the hint gets right. */
  predicate Hinted(sei: Sei) {
    sei.data != [] && sei.payloadType < 510 && |sei.data| < 510
  }

  /** For them the emitted size exceeds the hint by the number of 00 00 {00, 01, 02}. */
  lemma MessageLength(sei: Sei)
    requires Hinted(sei)
    ensures |Message(sei)| == SizeHint(sei) + MissedTo(sei.data, |sei.data|)
  {
    VariadicSizeExact(sei.payloadType);
    VariadicSizeExact(|sei.data|);
    EscapeLength(sei.data, |sei.data|);
  }

  /** An empty payload gets no stop bit, though one is counted. */
  lemma EmptyMessageLength(payloadType: nat)
    requires payloadType < 510
    ensures |Message(Sei(payloadType, []))| + 1 == SizeHint(Sei(payloadType, []))
  {
    VariadicSizeExact(payloadType);
  }

  /** The payloads that may be written into a NALU without spoiling its length. */
  predicate Framing(sei: Sei) {
    Hinted(sei) && NoneMissed(sei.data)
  }

  lemma FramingLength(sei: Sei)
    requires Hinted(sei)
    ensures |Message(sei)| == SizeHint(sei) <==> Framing(sei)
  {
    MessageLength(sei);
    MissedCounted(sei.data, |sei.data|);
  }

  lemma {:induction false} NaluLength(seis: seq<Sei>)
    requires forall i :: 0 <= i < |seis| ==> Framing(seis[i])
    ensures |SeiNalu(seis)| == 1 + SizeHints(seis)
    decreases |seis|
  {
    if seis != [] {
      NaluLength(seis[..|seis| - 1]);
      FramingLength(seis[|seis| - 1]);
    }
  }

  /** How many bytes fewer than its hint a number takes. */
  function Shortfall(n: nat): (r: nat)
    ensures r == 0 <==> n < 510
  {
    VariadicShort(n);
    VariadicSize(n) - |Variadic(n)|
  }

  /** By how many bytes a message exceeds its hint, or falls short of it. */
  function Excess(sei: Sei): int {
    MissedTo(sei.data, |sei.data|) - Shortfall(sei.payloadType) - Shortfall(|sei.data|)
      - (if sei.data == [] then 1 else 0)
  }

  function ExcessIn(seis: seq<Sei>): int {
    if seis == [] then 0 else ExcessIn(seis[..|seis| - 1]) + Excess(seis[|seis| - 1])
  }

  /** For every message: missed escapes count up, numbers of 510 and more and empty payloads count down. */
  lemma MessageExcess(sei: Sei)
    ensures |Message(sei)| == SizeHint(sei) + Excess(sei)
  {
    EscapeLength(sei.data, |sei.data|);
  }

  /** For every list of messages the NALU exceeds its hint by the sum of that. */
  lemma {:induction false} NaluExcess(seis: seq<Sei>)
    ensures |SeiNalu(seis)| == 1 + SizeHints(seis) + ExcessIn(seis)
    decreases |seis|
  {
    hide Message, SizeHint, Excess;
    if seis != [] {
      NaluExcess(seis[..|seis| - 1]);
      MessageExcess(seis[|seis| - 1]);
    }
  }

  /** How many escapes the hints of the messages miss. */
  function MissedIn(seis: seq<Sei>): nat {
    if seis == [] then 0
    else
      var data := seis[|seis| - 1].data;
      MissedIn(seis[..|seis| - 1]) + MissedTo(data, |data|)
  }

  predicate AllHinted(seis: seq<Sei>) {
    forall i :: 0 <= i < |seis| ==> Hinted(seis[i])
  }

  predicate AllNoneMissed(seis: seq<Sei>) {
    forall i :: 0 <= i < |seis| ==> NoneMissed(seis[i].data)
  }

  /** For any such messages the NALU exceeds its hint by the number of 00 00 {00, 01, 02} in them. */
  lemma {:induction false} HintedLength(seis: seq<Sei>)
    requires AllHinted(seis)
    ensures |SeiNalu(seis)| == 1 + SizeHints(seis) + MissedIn(seis)
    ensures MissedIn(seis) == 0 <==> AllNoneMissed(seis)
    decreases |seis|
  {
    hide Hinted, Message, SizeHint, NoneMissed, MissedTo;
    if seis != [] {
      var front, last := seis[..|seis| - 1], seis[|seis| - 1];
      HintedLength(front);
      MessageLength(last);
      MissedWhole(last.data);
      assert AllNoneMissed(seis) <==> AllNoneMissed(front) && NoneMissed(last.data);
    }
  }

  lemma MissedWhole(s: bytes)
    ensures MissedTo(s, |s|) == 0 <==> NoneMissed(s)
  {
    MissedCounted(s, |s|);
  }

  // ---------- Reading messages ----------

  function NextSei(d: bytes): Result<Option<Bounds<nat>>> {
    if d == [] then Success(None)
    else
      match ParseVariadic(d)
      case Failure(e) => Failure(e)
      case Success((payloadType, d1)) =>
        match ParseVariadic(d1)
        case Failure(e) => Failure(e)
        case Success((size, d2)) =>
          if size > |d2| then Failure(MalformedSei)
          else Success(Some(Bounds(|d| - |d2|, size, payloadType)))
  }

  method SeiParserNext(d: bytes) returns (r: Result<Option<Bounds<nat>>>)
    ensures r == NextSei(d)
  {
    if |d| == 0 {
      return Success(None);
    }
    assert d[0..] == d;
    var payloadType, start := ReadVariadic(d, 0);
    if payloadType.Failure? {
      return Failure(payloadType.error);
    }
    var size, start' := ReadVariadic(d, start);
    if size.Failure? {
      return Failure(size.error);
    }
    if size.value > |d| - start' {
      return Failure(MalformedSei);
    }
    r := Success(Some(Bounds(start', size.value, payloadType.value)));
  }

  function PackSei(d: bytes, payloadType: nat): Result<Sei> {
    Success(Sei(payloadType, d))
  }

  lemma {:induction false} ParseVariadicTakes(d: bytes)
    requires ParseVariadic(d).Success?
    ensures var (n, rest) := ParseVariadic(d).value;
      |rest| < |d| && |d| - |rest| == VariadicSize(n) && rest == d[|d| - |rest|..]
    decreases |d|
  {
    if d[0] == 0xFF {
      ParseVariadicTakes(d[1..]);
    }
  }

  lemma NextSeiInBuffer()
    ensures InBuffer(NextSei)
  {
    forall d: bytes | NextSei(d).Success? && NextSei(d).value.Some?
      ensures var b := NextSei(d).value.value;
        0 < b.start + b.length <= |d|
    {
      ParseVariadicTakes(d);
    }
  }

  function ParseSeis(d: bytes): Result<seq<Sei>> {
    Packets(NextSei, PackSei, d)
  }

  lemma TailParts(a: bytes, d: bytes, n: nat)
    requires n <= |d|
    ensures (a + d)[|a|..|a| + n] == d[..n] && (a + d)[|a| + n..] == d[n..]
  {
  }

  lemma ParseFirst(payloadType: nat, size: nat, d: bytes)
    ensures var r := ParseSeis(Variadic(payloadType) + Variadic(size) + d);
      if ReadsAs(size) > |d| then r == Failure(MalformedSei)
      else r == Prepend([Sei(ReadsAs(payloadType), d[..ReadsAs(size)])], ParseSeis(d[ReadsAs(size)..]))
  {
    var all := Variadic(payloadType) + Variadic(size) + d;
    VariadicEnds(payloadType);
    ParseVariadicEmitted(payloadType, Variadic(size) + d);
    ParseVariadicEmitted(size, d);
    hide Variadic, ParseVariadic, ReadsAs;
    assert all == Variadic(payloadType) + (Variadic(size) + d);
    var z := ReadsAs(size);
    if z <= |d| {
      var start := |all| - |d|;
      TailParts(Variadic(payloadType) + Variadic(size), d, z);
      assert Next(NextSei, PackSei, all) == (Success(Some(Sei(ReadsAs(payloadType), d[..z]))), start + z);
    }
  }

  // ---------- From a NALU back to messages ----------

  /** Messages of a NALU: decode to SODB, skip the type byte, parse. */
  function ReadSeis(nalu: bytes): Result<seq<Sei>> {
    match FromEbsp(nalu, true)
    case Failure(e) => Failure(e)
    case Success(sodb) => if sodb == [] then Failure(Undefined) else ParseSeis(sodb[1..])
  }

  lemma EndsInZerosConcat(a: bytes, b: bytes)
    requires a == [] || a[|a| - 1] != 0
    ensures EndsInZeros(a + b) <==> EndsInZeros(b)
  {
  }

  /** Decoding works piece by piece where a piece does not end in a zero byte. */
  lemma {:induction false} UnescapeConcat(a: bytes, b: bytes)
    requires a == [] || a[|a| - 1] != 0
    ensures Unescape(a + b) == Unescape(a) + Unescape(b)
    decreases |b|
  {
    hide Unescape, EndsInZeros;
    if b == [] {
      UnescapeShort([]);
      assert a + b == a;
    } else {
      var front, last := b[..|b| - 1], b[|b| - 1];
      UnescapeConcat(a, front);
      EndsInZerosConcat(a, front);
      UnescapeSnoc(a + front, last);
      UnescapeSnoc(front, last);
      assert a + b == (a + front) + [last];
      assert b == front + [last];
    }
  }

  predicate NoZeroPair(e: bytes) {
    forall i :: 0 < i < |e| ==> e[i - 1] != 0 || e[i] != 0
  }

  lemma {:induction false} UnescapeNoZeroPair(e: bytes)
    requires NoZeroPair(e)
    ensures Unescape(e) == e
    decreases |e|
  {
    if e != [] {
      var front, last := e[..|e| - 1], e[|e| - 1];
      assert NoZeroPair(front);
      UnescapeNoZeroPair(front);
      assert e == front + [last];
      assert !EndsInZeros(front);
      hide Unescape;
      UnescapeSnoc(front, last);
    }
  }

  lemma HeaderNoZeroPair(sei: Sei)
    requires sei.data != []
    ensures NoZeroPair(Header(sei)) && Header(sei) != [] && Header(sei)[|Header(sei)| - 1] != 0
  {
    VariadicEnds(sei.payloadType);
    VariadicEnds(|sei.data|);
  }

  lemma {:induction false} EscapePrefix(a: bytes, b: bytes, n: nat)
    requires n <= |a|
    ensures EscapeTo(a + b, n) == EscapeTo(a, n)
    decreases n
  {
    if n > 0 {
      EscapePrefix(a, b, n - 1);
    }
  }

  lemma EscapeSnoc(s: bytes, b: byte)
    ensures Escape(s + [b]) == Escape(s) + (if EndsInZeros(s) && b <= 3 then [EMULATION_PREVENTION, b] else [b])
  {
    EscapePrefix(s, [b], |s|);
    EscapeToStep(s + [b], |s| + 1);
  }

  lemma EscapeEmpty()
    ensures Escape([]) == []
  {
  }

  /** Encoding works piece by piece where a piece does not end in a zero byte. */
  lemma {:induction false} EscapeConcat(a: bytes, b: bytes)
    requires a == [] || a[|a| - 1] != 0
    ensures Escape(a + b) == Escape(a) + Escape(b)
    decreases |b|
  {
    hide Escape, EndsInZeros;
    if b == [] {
      EscapeEmpty();
      assert a + b == a;
    } else {
      var front, last := b[..|b| - 1], b[|b| - 1];
      EscapeConcat(a, front);
      EndsInZerosConcat(a, front);
      EscapeSnoc(a + front, last);
      EscapeSnoc(front, last);
      assert a + b == (a + front) + [last];
      assert b == front + [last];
    }
  }

  lemma NoZeroPairFront(e: bytes)
    requires NoZeroPair(e) && e != []
    ensures NoZeroPair(e[..|e| - 1]) && !EndsInZeros(e[..|e| - 1])
  {
  }

  lemma {:induction false} EscapeNoZeroPair(e: bytes)
    requires NoZeroPair(e)
    ensures Escape(e) == e
    decreases |e|
  {
    hide Escape, EndsInZeros, NoZeroPair;
    if e == [] {
      EscapeEmpty();
    } else {
      var front, last := e[..|e| - 1], e[|e| - 1];
      NoZeroPairFront(e);
      EscapeNoZeroPair(front);
      EscapeSnoc(front, last);
      assert e == front + [last];
    }
  }

  /**
   Escaping the payload alone is escaping the whole: whatever stands before a message, unless it ends in
   a zero byte, encoding it together with the message's header and payload leaves the header as it is.
   */
  lemma EscapeWhole(before: bytes, sei: Sei)
    requires sei.data != [] && (before == [] || before[|before| - 1] != 0)
    ensures Escape(before + Header(sei) + sei.data) == Escape(before) + Header(sei) + Escape(sei.data)
  {
    hide Header, Escape, NoZeroPair;
    HeaderNoZeroPair(sei);
    EscapeNoZeroPair(Header(sei));
    EscapeConcat(before, Header(sei));
    EscapeConcat(before + Header(sei), sei.data);
  }

  /** The NALU before encoding: every message with its stop bit. */
  function RawNalu(seis: seq<Sei>): (r: bytes)
    ensures r != [] && r[|r| - 1] != 0
  {
    if seis == [] then [SEI_NALU_TYPE_BYTE]
    else
      var last := seis[|seis| - 1];
      RawNalu(seis[..|seis| - 1]) + Header(last) + last.data + [STOP_BYTE]
  }

  /** Encoding payload by payload gives what encoding the whole NALU at once gives. */
  lemma {:induction false} SeiNaluIsEscaped(seis: seq<Sei>)
    requires forall i :: 0 <= i < |seis| ==> seis[i].data != []
    ensures SeiNalu(seis) == Escape(RawNalu(seis))
    decreases |seis|
  {
    hide SeiNalu, Header, Escape, EndsInZeros;
    if seis == [] {
      NoMessages(seis);
    } else {
      var front, last := seis[..|seis| - 1], seis[|seis| - 1];
      SeiNaluIsEscaped(front);
      assert seis == front + [last];
      NaluSplit(front, last);
      EscapeWhole(RawNalu(front), last);
      EscapeSnoc(RawNalu(front) + Header(last) + last.data, STOP_BYTE);
    }
  }

  lemma NoMessages(seis: seq<Sei>)
    requires seis == []
    ensures SeiNalu(seis) == [SEI_NALU_TYPE_BYTE] == Escape([SEI_NALU_TYPE_BYTE])
  {
    EscapeShort([SEI_NALU_TYPE_BYTE], 1);
  }

  function Echo(s: bytes): bytes {
    EchoTo(s, |s|)
  }

  /** What the decoder makes of one message: the header comes back as it is, the payload on its own. */
  lemma UnescapeMessage(before: bytes, sei: Sei)
    requires sei.data != [] && before != [] && before[|before| - 1] != 0
    ensures Unescape(before + Header(sei) + Escape(sei.data)) == Unescape(before) + Header(sei) + Echo(sei.data)
  {
    HeaderNoZeroPair(sei);
    UnescapeConcat(before + Header(sei), Escape(sei.data));
    UnescapeConcat(before, Header(sei));
    UnescapeNoZeroPair(Header(sei));
    UnescapeEscapeTo(sei.data, |sei.data|);
  }

  /** The NALU up to its last stop bit. */
  lemma NaluSplit(front: seq<Sei>, last: Sei)
    requires last.data != []
    ensures SeiNalu(front + [last]) == SeiNalu(front) + Header(last) + Escape(last.data) + [STOP_BYTE]
  {
    assert (front + [last])[..|front|] == front;
    hide Escape, Header;
    assert ToEbsp(last.data, true) == Escape(last.data) + [STOP_BYTE];
  }

  /** What the decoder makes of the NALU: every message but the last keeps its stop bit as data. */
  function Decoded(seis: seq<Sei>): bytes {
    if seis == [] then [SEI_NALU_TYPE_BYTE]
    else
      var last := seis[|seis| - 1];
      Decoded(seis[..|seis| - 1]) + Header(last) + Echo(last.data) + [STOP_BYTE]
  }

  lemma {:induction false} UnescapeNalu(seis: seq<Sei>)
    requires forall i :: 0 <= i < |seis| ==> seis[i].data != []
    ensures Unescape(SeiNalu(seis)) == Decoded(seis)
    ensures SeiNalu(seis)[|SeiNalu(seis)| - 1] != 0
    decreases |seis|
  {
    hide Unescape, SeiNalu, Header, Escape, Echo, EndsInZeros;
    if seis == [] {
      NoMessages(seis);
      UnescapeShort(SeiNalu(seis));
    } else {
      var front, last := seis[..|seis| - 1], seis[|seis| - 1];
      UnescapeNalu(front);
      assert seis == front + [last];
      NaluSplit(front, last);
      UnescapeMessage(SeiNalu(front), last);
      UnescapeSnoc(SeiNalu(front) + Header(last) + Escape(last.data), STOP_BYTE);
    }
  }

  lemma DecodeNalu(front: seq<Sei>, last: Sei)
    requires last.data != [] && forall i :: 0 <= i < |front| ==> front[i].data != []
    ensures FromEbsp(SeiNalu(front + [last]), true) == Success(Decoded(front) + Header(last) + Echo(last.data))
  {
    UnescapeNalu(front);
    NaluSplit(front, last);
    UnescapeMessage(SeiNalu(front), last);
    hide Unescape, SeiNalu, Header, Escape, Echo, Decoded;
    StopBitDropped(SeiNalu(front) + Header(last) + Escape(last.data));
  }

  /** One message, read back from its NALU. */
  lemma ReadOne(sei: Sei)
    requires sei.data != []
    ensures ReadSeis(SeiNalu([sei])) == ParseSeis(Header(sei) + Echo(sei.data))
  {
    var front: seq<Sei> := [];
    assert front + [sei] == [sei];
    DecodeNalu(front, sei);
    hide SeiNalu, Header, Echo;
    var sodb := Decoded(front) + Header(sei) + Echo(sei.data);
    assert sodb[1..] == Header(sei) + Echo(sei.data);
  }

  /** Payloads that survive being written and read. */
  predicate Readable(sei: Sei) {
    Writable(sei.payloadType) && sei.data != [] && Writable(|sei.data|) && NoOverlap(sei.data)
  }

  lemma EchoSource(s: bytes)
    ensures NoOverlap(s) <==> Echo(s) == s
  {
    OverlapsCounted(s, |s|);
    if NoOverlap(s) {
      EchoIsSource(s, |s|);
      assert s[..|s|] == s;
    }
  }

  lemma ParseNone()
    ensures ParseSeis([]) == Success([])
  {
  }

  /** Reading a NALU of one message gives that message exactly when the message is readable. */
  lemma ReadReadable(sei: Sei)
    requires sei.data != []
    ensures ReadSeis(SeiNalu([sei])) == Success([sei]) <==> Readable(sei)
  {
    ReadOne(sei);
    ReadsAsLess(sei.payloadType);
    ReadsAsLess(|sei.data|);
    var d := Echo(sei.data);
    ParseFirst(sei.payloadType, |sei.data|, d);
    EchoSource(sei.data);
    ParseNone();
    assert Header(sei) + d == Variadic(sei.payloadType) + Variadic(|sei.data|) + d;
    hide SeiNalu, ReadSeis, ParseSeis, Header, Echo, NoOverlap, Variadic;
    var r, n := ReadSeis(SeiNalu([sei])), ReadsAs(|sei.data|);
    assert n <= |d| ==> r == Prepend([Sei(ReadsAs(sei.payloadType), d[..n])], ParseSeis(d[n..]));
    if Readable(sei) {
      assert d[..n] == sei.data && d[n..] == [];
      var none: seq<Sei> := [];
      assert [sei] + none == [sei];
      assert r == Prepend([sei], Success(none));
    } else if r == Success([sei]) {
      ReadBackWhole(sei, d, r);
    }
  }

  lemma ReadBackWhole(sei: Sei, d: bytes, r: Result<seq<Sei>>)
    requires r == Success([sei]) && ReadsAs(|sei.data|) <= |d|
    requires var n := ReadsAs(|sei.data|);
      r == Prepend([Sei(ReadsAs(sei.payloadType), d[..n])], ParseSeis(d[n..]))
    ensures sei.payloadType == ReadsAs(sei.payloadType) && |sei.data| == ReadsAs(|sei.data|) && d == sei.data
  {
    var n := ReadsAs(|sei.data|);
    var first := Sei(ReadsAs(sei.payloadType), d[..n]);
    var rest := ParseSeis(d[n..]);
    assert [first] + rest.value == [sei];
    assert first == ([first] + rest.value)[0] == sei;
    assert rest.value == [];
    ParsedSize(d[n..]);
    assert d == d[..n];
  }

  /** The number of bytes that a message takes up when it is read. */
  function Taken(seis: seq<Sei>): nat {
    if seis == [] then 0
    else VariadicSize(seis[0].payloadType) + VariadicSize(|seis[0].data|) + |seis[0].data| + Taken(seis[1..])
  }

  lemma {:induction false} ParsedSize(d: bytes)
    requires ParseSeis(d).Success?
    ensures |d| == Taken(ParseSeis(d).value)
    decreases |d|
  {
    if d != [] {
      var d1 := ParseVariadic(d).value.1;
      var d2 := ParseVariadic(d1).value.1;
      ParseVariadicTakes(d);
      ParseVariadicTakes(d1);
      var b := NextSei(d).value.value;
      var first := Sei(b.tag, d[b.start..b.start + b.length]);
      var tail := d[b.start + b.length..];
      assert Next(NextSei, PackSei, d) == (Success(Some(first)), b.start + b.length);
      var rest := ParseSeis(tail);
      ParsedSize(tail);
      assert ([first] + rest.value)[1..] == rest.value;
    }
  }

  lemma {:induction false} TakenConcat(a: seq<Sei>, b: seq<Sei>)
    ensures Taken(a + b) == Taken(a) + Taken(b)
    decreases |a|
  {
    if a == [] {
      assert a + b == b;
    } else {
      assert (a + b)[1..] == a[1..] + b;
      TakenConcat(a[1..], b);
    }
  }

  lemma {:induction false} DecodedSize(seis: seq<Sei>)
    requires forall i :: 0 <= i < |seis| ==> Readable(seis[i])
    ensures |Decoded(seis)| == 1 + Taken(seis) + |seis|
    decreases |seis|
  {
    if seis != [] {
      var front, last := seis[..|seis| - 1], seis[|seis| - 1];
      assert Readable(last);
      DecodedSize(front);
      assert seis == front + [last];
      TakenConcat(front, [last]);
      TakenOne(last);
      EchoSource(last.data);
    }
  }

  lemma TakenOne(sei: Sei)
    requires Readable(sei)
    ensures |Header(sei)| + |sei.data| == Taken([sei])
  {
    VariadicSizeExact(sei.payloadType);
    VariadicSizeExact(|sei.data|);
    assert [sei][1..] == [];
  }

  /** Since a stop bit follows every message, a list of readable messages reads back only when it has one. */
  lemma ReadBackOnlyOne(seis: seq<Sei>)
    requires seis != [] && forall i :: 0 <= i < |seis| ==> Readable(seis[i])
    ensures ReadSeis(SeiNalu(seis)) == Success(seis) <==> |seis| == 1
  {
    var front, last := seis[..|seis| - 1], seis[|seis| - 1];
    assert Readable(last);
    assert seis == front + [last];
    if |seis| == 1 {
      assert seis == [last];
      ReadReadable(last);
    } else {
      DecodeNalu(front, last);
      DecodedSize(front);
      DecodedStart(front);
      EchoSource(last.data);
      TakenOne(last);
      TakenConcat(front, [last]);
      hide SeiNalu, Decoded, Header, Echo, ParseSeis;
      var sodb := Decoded(front) + Header(last) + Echo(last.data);
      if ReadSeis(SeiNalu(seis)) == Success(seis) {
        ParsedSize(sodb[1..]);
      }
    }
  }

  lemma DecodedStart(seis: seq<Sei>)
    ensures Decoded(seis) != []
  {
  }
}
