/** NAL units in the length-prefixed format of section 5.3 of ISO/IEC 14496-15, with 4-byte lengths. */
module Nalus {
  import opened Wrappers
  import opened Words
  import opened BinaryParsing
  import opened Wire

  const MAX_LENGTH := 4 * 1024 * 2014
  const LENGTH_SIZE := 4

  datatype NaluType = SEI | SPS | PPS | AUD | Other(code: nat)

  /** A NALU is valid when it is not empty and its forbidden bit is clear. */
  predicate IsValid(nalu: bytes) {
    nalu != [] && nalu[0] < 0x80
  }

  function TypeOf(nalu: bytes): NaluType
    requires nalu != []
  {
    match nalu[0] % 0x20
    case 6 => SEI
    case 7 => SPS
    case 8 => PPS
    case 9 => AUD
    case code => Other(code)
  }

  function LengthOf(d: bytes): u32
    requires |d| == LENGTH_SIZE
  {
    Number32(d[0], d[1], d[2], d[3])
  }

  /** Copies the length into a buffer and swaps its bytes in place, as a little-endian host does. */
  method ParseLength(data: bytes) returns (n: u32)
    requires |data| == LENGTH_SIZE
    ensures n == LengthOf(data)
  {
    var buffer := new byte[LENGTH_SIZE](i => 0);
    forall i | 0 <= i < LENGTH_SIZE {
      buffer[i] := data[i];
    }
    buffer[0], buffer[3] := buffer[3], buffer[0];
    buffer[1], buffer[2] := buffer[2], buffer[1];
    n := Number32(buffer[3], buffer[2], buffer[1], buffer[0]);
  }

  function NextBounds(d: bytes): Result<Option<Bounds<()>>> {
    if d == [] then Success(None)
    else if LENGTH_SIZE > |d| then Failure(MalformedNalu)
    else
      var n := LengthOf(d[..LENGTH_SIZE]);
      if n == 0 || n > MAX_LENGTH || LENGTH_SIZE + n > |d| then Failure(MalformedNalu)
      else Success(Some(Bounds(LENGTH_SIZE, n, ())))
  }

  function Pack(d: bytes, tag: ()): Result<bytes> {
    Success(d)
  }

  lemma NextBoundsInBuffer()
    ensures InBuffer(NextBounds)
  {
  }

  /** All NALUs of a packet. */
  function Parse(packet: bytes): Result<seq<bytes>> {
    Packets(NextBounds, Pack, packet)
  }

  function Emit(nalu: bytes): bytes {
    Write32(|nalu|) + nalu
  }

  function EmitAll(nalus: seq<bytes>): bytes {
    if nalus == [] then [] else EmitAll(nalus[..|nalus| - 1]) + Emit(nalus[|nalus| - 1])
  }

  predicate Framable(nalu: bytes) {
    0 < |nalu| <= MAX_LENGTH
  }

  lemma FieldValue(a: byte, b: byte, c: byte, e: byte, rest: bytes)
    ensures LengthOf(([a, b, c, e] + rest)[..LENGTH_SIZE]) == 0x100_0000 * a + 0x1_0000 * b + 0x100 * c + e
  {
    assert ([a, b, c, e] + rest)[..LENGTH_SIZE] == [a, b, c, e];
  }

  /**
   Four bytes, most significant first, announce a NALU: it is taken if it has 1 to 8249344 bytes and they
   are there, and parsing goes on behind it; otherwise the packet is refused.
   */
  lemma ParseField(a: byte, b: byte, c: byte, e: byte, rest: bytes)
    ensures var n := 0x100_0000 * a + 0x1_0000 * b + 0x100 * c + e;
      Parse([a, b, c, e] + rest) ==
        if 0 < n <= 8249344 && n <= |rest| then Prepend([rest[..n]], Parse(rest[n..])) else Failure(MalformedNalu)
  {
    var n := 0x100_0000 * a + 0x1_0000 * b + 0x100 * c + e;
    var d := [a, b, c, e] + rest;
    FieldValue(a, b, c, e, rest);
    hide LengthOf;
    if 0 < n <= 8249344 && n <= |rest| {
      assert d[LENGTH_SIZE..LENGTH_SIZE + n] == rest[..n] && d[LENGTH_SIZE + n..] == rest[n..];
      assert Next(NextBounds, Pack, d) == (Success(Some(rest[..n])), LENGTH_SIZE + n);
    }
  }

  /** A packet of one to three bytes has no length field. */
  lemma FieldMissing(d: bytes)
    ensures 0 < |d| < 4 ==> Parse(d) == Failure(MalformedNalu)
    ensures d == [] ==> Parse(d) == Success([])
  {
  }

  lemma ParseEmit(nalu: bytes, tail: bytes)
    requires 0 < |nalu| <= 8249344
    ensures Parse(Emit(nalu) + tail) == Prepend([nalu], Parse(tail))
  {
    var d := Emit(nalu) + tail;
    assert LengthOf(d[..LENGTH_SIZE]) == |nalu| by {
      Split32(|nalu|);
      assert d[..LENGTH_SIZE] == Write32(|nalu|);
    }
    hide Write32, LengthOf;
    assert d[LENGTH_SIZE..LENGTH_SIZE + |nalu|] == nalu;
    assert d[LENGTH_SIZE + |nalu|..] == tail;
    assert Next(NextBounds, Pack, d) == (Success(Some(nalu)), LENGTH_SIZE + |nalu|);
  }

  /** Parsing inverts emitting, for every list of NALUs that can be framed. */
  lemma {:induction false} ParseEmitAll(nalus: seq<bytes>, tail: bytes)
    requires forall i :: 0 <= i < |nalus| ==> Framable(nalus[i])
    ensures Parse(EmitAll(nalus) + tail) == Prepend(nalus, Parse(tail))
    decreases |nalus|
  {
    hide Parse, Emit;
    if nalus == [] {
      assert EmitAll(nalus) + tail == tail;
      PrependTwice(nalus, [], Parse(tail));
    } else {
      var front, last := nalus[..|nalus| - 1], nalus[|nalus| - 1];
      assert Framable(last);
      ParseEmit(last, tail);
      hide Framable;
      ParseEmitAll(front, Emit(last) + tail);
      assert EmitAll(nalus) + tail == EmitAll(front) + (Emit(last) + tail);
      PrependTwice(front, [last], Parse(tail));
      assert front + [last] == nalus;
    }
  }

  lemma HeadParts(packet: bytes, n: nat)
    requires LENGTH_SIZE + n <= |packet|
    ensures packet[..LENGTH_SIZE] == [packet[0], packet[1], packet[2], packet[3]]
    ensures packet == packet[..LENGTH_SIZE] + packet[LENGTH_SIZE..LENGTH_SIZE + n] + packet[LENGTH_SIZE + n..]
  {
  }

  /** The first NALU of a packet that can be parsed. */
  lemma ParseHead(packet: bytes) returns (nalu: bytes, tail: bytes)
    requires packet != [] && Parse(packet).Success?
    ensures packet == Emit(nalu) + tail && Framable(nalu)
    ensures Parse(packet) == Prepend([nalu], Parse(tail))
  {
    var n := LengthOf(packet[..LENGTH_SIZE]);
    nalu, tail := packet[LENGTH_SIZE..LENGTH_SIZE + n], packet[LENGTH_SIZE + n..];
    Join32(packet[0], packet[1], packet[2], packet[3]);
    HeadParts(packet, n);
    hide Write32;
    assert Write32(n) == packet[..LENGTH_SIZE];
    hide LengthOf;
    assert Next(NextBounds, Pack, packet) == (Success(Some(nalu)), LENGTH_SIZE + n);
  }

  /** What was parsed can be framed again, and its framing is the packet it came from. */
  lemma {:induction false} EmitParse(packet: bytes)
    requires Parse(packet).Success?
    ensures EmitAll(Parse(packet).value) == packet
    ensures forall i :: 0 <= i < |Parse(packet).value| ==> Framable(Parse(packet).value[i])
    decreases |packet|
  {
    if packet != [] {
      var nalu, tail := ParseHead(packet);
      hide Emit, Parse;
      EmitParse(tail);
      EmitAllConcat([nalu], Parse(tail).value);
      EmitOne(nalu);
    }
  }

  lemma EmitOne(nalu: bytes)
    ensures EmitAll([nalu]) == Emit(nalu)
  {
    var front: seq<bytes> := [nalu][..0];
    assert EmitAll(front) + Emit(nalu) == Emit(nalu);
  }

  lemma {:induction false} EmitAllConcat(a: seq<bytes>, b: seq<bytes>)
    ensures EmitAll(a + b) == EmitAll(a) + EmitAll(b)
    decreases |b|
  {
    hide Emit;
    if b == [] {
      assert a + b == a;
    } else {
      var front := b[..|b| - 1];
      assert (a + b)[..|a + b| - 1] == a + front;
      EmitAllConcat(a, front);
    }
  }

  lemma SameLengthField(m: u32, n: u32, a: bytes, b: bytes)
    requires Write32(m) + a == Write32(n) + b
    ensures m == n
  {
    Split32(m);
    Split32(n);
    hide Write32, Number32;
    assert (Write32(m) + a)[..4] == Write32(m);
    assert (Write32(n) + b)[..4] == Write32(n);
  }

  lemma ParseTail(tail: bytes)
    ensures tail == [] ==> Parse(tail) == Success([])
    ensures tail != [] && Parse(tail).Success? ==> |Parse(tail).value| > 0
  {
    if tail != [] && Parse(tail).Success? {
      var nalu, rest := ParseHead(tail);
    }
  }

  /** Behind a length field there is exactly one NALU if and only if the field is the length of all that follows. */
  lemma ParseOnly(n: u32, content: bytes)
    ensures var r := Parse(Write32(n) + content);
      if 0 < n == |content| <= MAX_LENGTH then r == Success([content]) else r.Failure? || |r.value| != 1
  {
    hide Write32, Parse;
    var d := Write32(n) + content;
    if 0 < n == |content| <= MAX_LENGTH {
      ParseEmit(content, []);
      ParseTail([]);
      assert d + [] == d;
      var none: seq<bytes> := [];
      assert [content] + none == [content];
    } else if Parse(d).Success? && |Parse(d).value| == 1 {
      var nalu, tail := ParseHead(d);
      ParseTail(tail);
      Right2(Write32(|nalu|), nalu, tail);
      SameLengthField(n, |nalu|, content, nalu + tail);
      assert false;
    }
  }
}
