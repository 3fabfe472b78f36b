/**
 Packed big-endian fields: what the write functions append and what the read functions take.
 Numbers are truncated as the masks and casts of the program truncate them.
 */
module Wire {
  import opened Wrappers
  import opened Words

  // ---------- Writing ----------

  function Write8(v: nat): bytes {
    [v % 0x100]
  }

  function Write16(v: nat): bytes {
    [v / 0x100 % 0x100, v % 0x100]
  }

  function Write32(v: nat): (r: bytes)
    ensures |r| == 4
  {
    [v / 0x100_0000 % 0x100, v / 0x1_0000 % 0x100, v / 0x100 % 0x100, v % 0x100]
  }

  function Write48(v: nat): (r: bytes)
    ensures |r| == 6
  {
    Write16(v / 0x1_0000_0000) + Write32(v)
  }

  /** A 4-bit prefix and a 12-bit value. */
  function Write12Prefix(prefix: nat, v: nat): bytes {
    [0x10 * (prefix % 0x10) + v / 0x100 % 0x10, v % 0x100]
  }

  /**
   Two 12-bit values, as the program packs them: the mask of the second value is shifted before it
   is applied, so bits 4 to 7 of low, not bits 8 to 11, meet the lowest four bits of high.
   */
  function Write12Pair(high: nat, low: nat): bytes {
    [high / 0x10 % 0x100, 0x10 * NibbleOr(high % 0x10, low / 0x10 % 0x10), low % 0x100]
  }

  /** Seven bits of prefix (its lowest bit is masked out) and a 33-bit value. */
  function Write33Prefix(prefix: byte, v: nat): (r: bytes)
    ensures |r| == 5
  {
    [FirstOf33(prefix, v)] + Write32(v)
  }

  function FirstOf33(prefix: byte, v: nat): byte {
    prefix / 2 * 2 + v / 0x1_0000_0000 % 2
  }

  type nibble = x: int | 0 <= x < 0x10

  function BitOr(a: nat, b: nat): (r: nat)
    ensures r <= 1
  {
    if a % 2 == 1 || b % 2 == 1 then 1 else 0
  }

  function NibbleOr(a: nibble, b: nibble): (r: nibble) {
    8 * BitOr(a / 8, b / 8) + 4 * BitOr(a / 4, b / 4) + 2 * BitOr(a / 2, b / 2) + BitOr(a, b)
  }

  /** Every bit that is set in b is set in a. */
  predicate Covers(a: nibble, b: nibble) {
    && (b / 8 % 2 == 1 ==> a / 8 % 2 == 1)
    && (b / 4 % 2 == 1 ==> a / 4 % 2 == 1)
    && (b / 2 % 2 == 1 ==> a / 2 % 2 == 1)
    && (b % 2 == 1 ==> a % 2 == 1)
  }

  lemma NibbleBits(a: nibble)
    ensures a == 8 * (a / 8 % 2) + 4 * (a / 4 % 2) + 2 * (a / 2 % 2) + a % 2
  {
  }

  lemma EqualBits(a3: nat, a2: nat, a1: nat, a0: nat, b3: nat, b2: nat, b1: nat, b0: nat)
    requires a3 <= 1 && a2 <= 1 && a1 <= 1 && a0 <= 1 && b3 <= 1 && b2 <= 1 && b1 <= 1 && b0 <= 1
    ensures 8 * a3 + 4 * a2 + 2 * a1 + a0 == 8 * b3 + 4 * b2 + 2 * b1 + b0
      <==> a3 == b3 && a2 == b2 && a1 == b1 && a0 == b0
  {
  }

  lemma CoversIsOr(a: nibble, b: nibble)
    ensures NibbleOr(a, b) == a <==> Covers(a, b)
  {
    NibbleBits(a);
    EqualBits(BitOr(a / 8, b / 8), BitOr(a / 4, b / 4), BitOr(a / 2, b / 2), BitOr(a, b),
              a / 8 % 2, a / 4 % 2, a / 2 % 2, a % 2);
  }

  // ---------- Reading: the value and the bytes that are left ----------

  predicate Flag(b: byte, mask: nat)
    requires mask > 0
  {
    b / mask % 2 == 1
  }

  function Scan8(d: bytes): Result<byte> {
    if |d| < 1 then Failure(TooFewBytes) else Success(d[0])
  }

  function Read8(d: bytes): Result<(byte, bytes)> {
    if |d| < 1 then Failure(TooFewBytes) else Success((d[0], d[1..]))
  }

  /** The upper 12 bits of the first two bytes; nothing is taken. */
  function Scan12High(d: bytes): Result<u16> {
    if |d| < 2 then Failure(TooFewBytes) else Success(0x10 * (d[0] as int) + d[1] / 0x10)
  }

  function Number12(a: byte, b: byte): u16 {
    0x100 * (a as int % 0x10) + b
  }

  function Read12Low(d: bytes): Result<(u16, bytes)> {
    if |d| < 2 then Failure(TooFewBytes) else Success((Number12(d[0], d[1]), d[2..]))
  }

  function Number16(a: byte, b: byte): u16 {
    0x100 * (a as int) + b
  }

  function Read16(d: bytes): Result<(u16, bytes)> {
    if |d| < 2 then Failure(TooFewBytes) else Success((Number16(d[0], d[1]), d[2..]))
  }

  function Number32(a: byte, b: byte, c: byte, d: byte): u32 {
    0x100_0000 * (a as int) + 0x1_0000 * (b as int) + 0x100 * (c as int) + d
  }

  function Read32(d: bytes): Result<(u32, bytes)> {
    if |d| < 4 then Failure(TooFewBytes) else Success((Number32(d[0], d[1], d[2], d[3]), d[4..]))
  }

  function Read33(d: bytes): Result<(u64, bytes)> {
    if |d| < 5 then Failure(TooFewBytes)
    else Success((0x1_0000_0000 * (d[0] as int % 2) + Number32(d[1], d[2], d[3], d[4]), d[5..]))
  }

  // ---------- Reading back what was written ----------

  lemma Split32(v: nat)
    requires v < 0x1_0000_0000
    ensures var w := Write32(v);
      Number32(w[0], w[1], w[2], w[3]) == v
  {
    var q0 := v / 0x100;
    var q1 := q0 / 0x100;
    var q2 := q1 / 0x100;
    Quotients(v);
    assert v == 0x100 * q0 + v % 0x100;
    assert q0 == 0x100 * q1 + q0 % 0x100;
    assert q1 == 0x100 * q2 + q1 % 0x100;
    assert q2 % 0x100 == q2;
  }

  lemma Quotients(v: nat)
    ensures v / 0x1_0000 == v / 0x100 / 0x100
    ensures v / 0x100_0000 == v / 0x100 / 0x100 / 0x100
  {
  }

  lemma Join32(a: byte, b: byte, c: byte, d: byte)
    ensures Write32(Number32(a, b, c, d)) == [a, b, c, d]
  {
    var n := Number32(a, b, c, d);
    assert n / 0x100 == 0x1_0000 * (a as int) + 0x100 * (b as int) + c;
    assert n / 0x1_0000 == 0x100 * (a as int) + b;
    assert n / 0x100_0000 == a;
  }

  lemma Reads8(v: nat, tail: bytes)
    requires v < 0x100
    ensures Read8(Write8(v) + tail) == Success((v, tail))
  {
    assert (Write8(v) + tail)[1..] == tail;
  }

  lemma Reads16(v: nat, tail: bytes)
    requires v < 0x1_0000
    ensures Read16(Write16(v) + tail) == Success((v, tail))
  {
    assert (Write16(v) + tail)[2..] == tail;
  }

  lemma Reads32(v: nat, tail: bytes)
    requires v < 0x1_0000_0000
    ensures Read32(Write32(v) + tail) == Success((v, tail))
  {
    assert (Write32(v) + tail)[4..] == tail;
    Split32(v);
  }

  lemma ModPlus(high: nat, low: nat)
    ensures (0x100 * high + low) % 0x100 == low % 0x100
  {
  }

  lemma Write32Low(high: nat, low: nat)
    requires low < 0x1_0000_0000
    ensures Write32(0x1_0000_0000 * high + low) == Write32(low)
  {
    var v := 0x1_0000_0000 * high + low;
    assert v / 0x100_0000 == 0x100 * high + low / 0x100_0000;
    assert v / 0x1_0000 == 0x100 * (0x100 * high) + low / 0x1_0000;
    assert v / 0x100 == 0x100 * (0x1_0000 * high) + low / 0x100;
    ModPlus(high, low / 0x100_0000);
    ModPlus(0x100 * high, low / 0x1_0000);
    ModPlus(0x1_0000 * high, low / 0x100);
    ModPlus(0x100_0000 * high, low);
  }

  lemma FirstByte33(prefix: byte, high: nat)
    requires high < 2
    ensures var b := prefix / 2 * 2 + high;
      b < 0x100 && b % 2 == high && b / 2 == prefix / 2
  {
  }

  lemma Read33Parts(b: byte, w: bytes, tail: bytes)
    requires |w| == 4
    ensures Read33([b] + w + tail) ==
      Success((0x1_0000_0000 * (b as int % 2) + Number32(w[0], w[1], w[2], w[3]), tail))
  {
    hide Number32;
    assert ([b] + w + tail)[5..] == tail;
  }

  lemma Prefix33(prefix: byte, v: nat)
    requires v < 0x2_0000_0000
    ensures FirstOf33(prefix, v) / 2 == prefix / 2
    ensures v == 0x1_0000_0000 * (FirstOf33(prefix, v) as int % 2) + v % 0x1_0000_0000
    ensures Write32(v) == Write32(v % 0x1_0000_0000)
  {
    var high, low := v / 0x1_0000_0000, v % 0x1_0000_0000;
    assert v == 0x1_0000_0000 * high + low && high < 2;
    Write32Low(high, low);
    hide Write32;
    FirstByte33(prefix, high);
  }

  /** A 33-bit value comes back, and the seven bits of its prefix stand in the first byte. */
  lemma Reads33(prefix: byte, v: nat, tail: bytes)
    requires v < 0x2_0000_0000
    ensures Read33(Write33Prefix(prefix, v) + tail) == Success((v, tail))
    ensures Write33Prefix(prefix, v)[0] / 2 == prefix / 2
  {
    Prefix33(prefix, v);
    Split32(v % 0x1_0000_0000);
    hide Write32, Number32, Read33, FirstOf33;
    Read33Parts(FirstOf33(prefix, v), Write32(v), tail);
  }

  /** A 12-bit value comes back from behind its prefix, whose bits stand above it. */
  lemma Reads12Prefix(prefix: nat, v: nat, tail: bytes)
    requires v < 0x1000
    ensures Read12Low(Write12Prefix(prefix, v) + tail) == Success((v, tail))
    ensures Write12Prefix(prefix, v)[0] / 0x10 == prefix % 0x10
  {
    assert (Write12Prefix(prefix, v) + tail)[2..] == tail;
  }

  /**
   What the pair reads back as: the first value with four bits of the second merged into it, and the
   second value reduced to its lowest eight bits.
   */
  lemma Reads12Pair(high: nat, low: nat, tail: bytes)
    requires high < 0x1000
    ensures var d := Write12Pair(high, low) + tail;
      && Scan12High(d) == Success(high / 0x10 * 0x10 + NibbleOr(high % 0x10, low / 0x10 % 0x10))
      && Read12Low(d[1..]) == Success((low % 0x100, tail))
  {
    hide NibbleOr;
    var d := Write12Pair(high, low) + tail;
    assert d[1..][2..] == tail;
    MiddleByte(NibbleOr(high % 0x10, low / 0x10 % 0x10));
    assert high / 0x10 % 0x100 == high / 0x10;
  }

  lemma MiddleByte(n: nibble)
    ensures 0x10 * n / 0x10 == n && 0x10 * n % 0x10 == 0
  {
  }

  // ---------- Regrouping ----------

  lemma Right2(a: bytes, b: bytes, t: bytes)
    ensures a + b + t == a + (b + t)
  {
  }

  lemma Right3(a: bytes, b: bytes, c: bytes, t: bytes)
    ensures a + b + c + t == a + (b + (c + t)) == a + (b + c + t)
  {
  }

  lemma Right4(a: bytes, b: bytes, c: bytes, d: bytes, t: bytes)
    ensures a + b + c + d + t == a + (b + (c + (d + t))) == a + (b + c + d + t)
  {
  }

  lemma Right5(a: bytes, b: bytes, c: bytes, d: bytes, e: bytes, t: bytes)
    ensures a + b + c + d + e + t == a + (b + (c + (d + (e + t)))) == a + (b + c + d + e + t)
  {
  }
}
