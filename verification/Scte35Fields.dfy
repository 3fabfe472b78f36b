/** What numbers, flags and reserved bits of the syntax are in bytes, group by group of whole bytes. */
module Scte35Fields {
  import opened Words
  import opened Wire
  import opened Scte35Syntax

  // ---------- Numbers ----------

  /** v without its k lowest bits. */
  function Halved(v: nat, k: nat): nat {
    if k == 0 then v else Halved(v / 2, k - 1)
  }

  /** A number is its upper bits and then its lower ones. */
  lemma {:induction false} NumberSplit(v: nat, n: nat, k: nat)
    ensures Number(v, n + k) == Number(Halved(v, k), n) + Number(v, k)
    decreases k
  {
    if k > 0 {
      NumberSplit(v / 2, n, k - 1);
    } else {
      assert Number(v, n) + [] == Number(v, n);
    }
  }

  lemma HalvedFour(v: nat)
    ensures Halved(v, 4) == v / 0x10
  {
    assert Halved(v, 4) == Halved(v / 2, 3) == Halved(v / 2 / 2, 2) == Halved(v / 2 / 2 / 2, 1) == v / 2 / 2 / 2 / 2;
  }

  lemma HalvedEight(v: nat)
    ensures Halved(v, 8) == v / 0x100
  {
    HalvedFour(v / 0x10);
    HalvedFour(v);
    HalvedTwice(v, 4, 4);
    Quotients(v);
  }

  lemma {:induction false} HalvedTwice(v: nat, k: nat, l: nat)
    ensures Halved(v, k + l) == Halved(Halved(v, k), l)
    decreases k
  {
    if k > 0 {
      HalvedTwice(v / 2, k - 1, l);
    }
  }

  lemma Quotients(v: nat)
    ensures v / 0x10 / 0x10 == v / 0x100
    ensures v / 0x100 / 0x100 == v / 0x1_0000
    ensures v / 0x1_0000 / 0x100 == v / 0x100_0000
    ensures v / 0x100_0000 / 0x100 == v / 0x1_0000_0000
  {
  }

  lemma HalvedThirtyTwo(v: nat)
    ensures Halved(v, 16) == v / 0x1_0000 && Halved(v, 24) == v / 0x100_0000 && Halved(v, 32) == v / 0x1_0000_0000
  {
    HalvedTwice(v, 8, 8);
    HalvedTwice(v, 16, 8);
    HalvedTwice(v, 24, 8);
    HalvedEight(v);
    HalvedEight(v / 0x100);
    HalvedEight(v / 0x1_0000);
    HalvedEight(v / 0x100_0000);
    Quotients(v);
  }

  function Symbol0(n: nat): Symbol {
    if n % 2 == 1 then One else Zero
  }

  lemma NumberOne(v: nat)
    ensures Number(v, 1) == [Symbol0(v)]
  {
    assert Number(v / 2, 0) == [];
  }

  lemma HalvedTwo(v: nat)
    ensures Halved(v, 2) == v / 4 && v / 4 / 2 == v / 8
  {
    assert Halved(v, 2) == Halved(v / 2, 1) == Halved(v / 2 / 2, 0);
  }

  lemma NumberFour(v: nat)
    ensures Number(v, 4) == [Symbol0(v / 8), Symbol0(v / 4), Symbol0(v / 2), Symbol0(v)]
  {
    hide Number, Symbol0, Halved;
    NumberSplit(v, 2, 2);
    HalvedTwo(v);
    NumberTwo(v);
    NumberTwo(v / 4);
  }

  lemma NumberTwo(v: nat)
    ensures Number(v, 2) == [Symbol0(v / 2), Symbol0(v)]
  {
    NumberOne(v / 2);
  }

  // ---------- Bytes ----------

  lemma NibbleOf(v: nat)
    ensures v % 0x10 == 8 * (v / 8 % 2) + 4 * (v / 4 % 2) + 2 * (v / 2 % 2) + v % 2
  {
    var a, b, c := v / 2, v / 4, v / 8;
    Halves(v);
    Remainder(c / 2, 8 * (c % 2) + 4 * (b % 2) + 2 * (a % 2) + v % 2);
  }

  lemma Halves(v: nat)
    ensures v == 2 * (v / 2) + v % 2 && v / 2 == 2 * (v / 4) + v / 2 % 2
    ensures v / 4 == 2 * (v / 8) + v / 4 % 2 && v / 8 == 2 * (v / 8 / 2) + v / 8 % 2
  {
    Half(v);
    Half(v / 2);
    Half(v / 4);
    Half(v / 8);
    HalfTwice(v);
    HalfTwice(v / 2);
    assert v / 8 == v / 2 / 4;
  }

  lemma Half(v: nat)
    ensures v == 2 * (v / 2) + v % 2
  {
  }

  lemma HalfTwice(v: nat)
    ensures v / 2 / 2 == v / 4
  {
  }

  lemma Remainder(q: nat, r: nat)
    requires r < 0x10
    ensures (0x10 * q + r) % 0x10 == r
  {
  }

  lemma ByteOf(v: nat)
    ensures v % 0x100 == 0x10 * (v / 0x10 % 0x10) + v % 0x10
    ensures v / 0x10 / 8 == v / 0x80 && v / 0x10 / 4 == v / 0x40 && v / 0x10 / 2 == v / 0x20
  {
    assert v == 0x10 * (v / 0x10) + v % 0x10;
    assert v / 0x10 == 0x10 * (v / 0x10 / 0x10) + v / 0x10 % 0x10;
    ByteRemainder(v / 0x10 / 0x10, 0x10 * (v / 0x10 % 0x10) + v % 0x10);
  }

  lemma ByteRemainder(q: nat, r: nat)
    requires r < 0x100
    ensures (0x100 * q + r) % 0x100 == r
  {
  }

  /** The upper four symbols prescribe the upper half of a byte. */
  predicate FitsHigh(p: seq<Symbol>, x: byte)
    requires |p| == 4
  {
    Fit(p[0], x / 0x80) && Fit(p[1], x / 0x40) && Fit(p[2], x / 0x20) && Fit(p[3], x / 0x10)
  }

  predicate FitsLow(p: seq<Symbol>, x: byte)
    requires |p| == 4
  {
    Fit(p[0], x / 8) && Fit(p[1], x / 4) && Fit(p[2], x / 2) && Fit(p[3], x)
  }

  lemma FitsHalves(p: seq<Symbol>, q: seq<Symbol>, x: byte)
    requires |p| == 4 && |q| == 4
    ensures FitsByte(p + q, x) <==> FitsHigh(p, x) && FitsLow(q, x)
  {
    hide Fit;
  }

  lemma LowNumber(v: nat, x: byte)
    ensures FitsLow(Number(v, 4), x) <==> x as int % 0x10 == v % 0x10
  {
    NumberFour(v);
    NibbleOf(v);
    NibbleOf(x);
    hide Number;
  }

  lemma HighNumber(v: nat, x: byte)
    ensures FitsHigh(Number(v, 4), x) <==> x / 0x10 == v % 0x10
  {
    hide Number;
    NumberFour(v);
    NibbleOf(v);
    ByteOf(x);
    NibbleBits(x / 0x10);
    EqualBits(x / 0x80 % 2, x / 0x40 % 2, x / 0x20 % 2, x / 0x10 % 2, v / 8 % 2, v / 4 % 2, v / 2 % 2, v % 2);
  }

  lemma FitsNumber(v: nat, x: byte)
    ensures FitsByte(Number(v, 8), x) <==> x == v % 0x100
  {
    NumberSplit(v, 4, 4);
    HalvedFour(v);
    FitsHalves(Number(v / 0x10, 4), Number(v, 4), x);
    LowNumber(v, x);
    HighNumber(v / 0x10, x);
    ByteOf(v);
    ByteOf(x);
    hide Number, FitsByte, FitsHigh, FitsLow;
  }

  lemma StartsNumber8(v: nat, d: bytes)
    ensures Starts(Number(v, 8), d) <==> d != [] && d[0] == v % 0x100
    ensures d != [] ==> After(Number(v, 8), d) == d[1..]
  {
    hide Number, FitsByte, Starts, After;
    StartsOneByte(Number(v, 8), d);
    if d != [] {
      FitsNumber(v, d[0]);
    }
  }

  lemma NumberHalves(v: nat)
    ensures Number(v, 12) == Number(v / 0x100, 4) + Number(v, 8)
    ensures Number(v, 16) == Number(v / 0x100, 8) + Number(v, 8)
    ensures Number(v, 32) == Number(v / 0x1_0000, 16) + Number(v, 16)
    ensures Number(v, 33) == Number(v / 0x1_0000_0000, 1) + Number(v, 32)
    ensures Number(v, 48) == Number(v / 0x1_0000_0000, 16) + Number(v, 32)
  {
    hide Number, Halved;
    NumberSplit(v, 4, 8);
    NumberSplit(v, 8, 8);
    NumberSplit(v, 16, 16);
    NumberSplit(v, 1, 32);
    NumberSplit(v, 16, 32);
    HalvedEight(v);
    HalvedThirtyTwo(v);
  }

  lemma StartsNumber16(v: nat, d: bytes)
    ensures Starts(Number(v, 16), d) <==> |d| >= 2 && d[0] == v / 0x100 % 0x100 && d[1] == v % 0x100
    ensures |d| >= 2 ==> After(Number(v, 16), d) == d[2..]
  {
    hide Number, Starts;
    NumberHalves(v);
    StartsConcat(Number(v / 0x100, 8), Number(v, 8), d);
    StartsNumber8(v / 0x100, d);
    if d != [] {
      StartsNumber8(v, d[1..]);
    }
  }

  lemma FromHalves(v: nat)
    ensures Write32(v) == [v / 0x1_0000 / 0x100 % 0x100, v / 0x1_0000 % 0x100, v / 0x100 % 0x100, v % 0x100]
  {
    assert v / 0x100_0000 == v / 0x1_0000 / 0x100;
  }

  lemma StartsNumber32(v: nat, d: bytes)
    ensures Starts(Number(v, 32), d) <==> |d| >= 4 && [d[0], d[1], d[2], d[3]] == Write32(v)
    ensures |d| >= 4 ==> After(Number(v, 32), d) == d[4..]
  {
    FromHalves(v);
    hide Number, Starts, Write32;
    NumberHalves(v);
    StartsConcat(Number(v / 0x1_0000, 16), Number(v, 16), d);
    StartsNumber16(v / 0x1_0000, d);
    if |d| >= 2 {
      StartsNumber16(v, d[2..]);
    }
  }

  // ---------- Flags ----------

  lemma StartsFlag(b: bool, d: bytes)
    ensures var p := Bit(b) + ReservedBits(7);
      && (Starts(p, d) <==> d != [] && Flag(d[0], 0x80) == b)
      && (d != [] ==> After(p, d) == d[1..])
  {
    hide Starts, After;
    StartsOneByte(Bit(b) + ReservedBits(7), d);
  }

  lemma StartsFlags(a: bool, b: bool, c: bool, d: bytes)
    ensures var p := Bit(a) + Bit(b) + Bit(c) + ReservedBits(5);
      && (Starts(p, d) <==> d != [] && Flag(d[0], 0x80) == a && Flag(d[0], 0x40) == b && Flag(d[0], 0x20) == c)
      && (d != [] ==> After(p, d) == d[1..])
  {
    hide Starts, After;
    StartsOneByte(Bit(a) + Bit(b) + Bit(c) + ReservedBits(5), d);
  }

  lemma StartsFourFlags(a: bool, b: bool, c: bool, e: bool, d: bytes)
    ensures var p := Bit(a) + Bit(b) + Bit(c) + Bit(e) + ReservedBits(4);
      && (Starts(p, d) <==> d != [] && Flag(d[0], 0x80) == a && Flag(d[0], 0x40) == b && Flag(d[0], 0x20) == c
                            && Flag(d[0], 0x10) == e)
      && (d != [] ==> After(p, d) == d[1..])
  {
    hide Starts, After;
    StartsOneByte(Bit(a) + Bit(b) + Bit(c) + Bit(e) + ReservedBits(4), d);
  }

  // ---------- 33 bits ----------

  /** Seven bits and a 33-bit number: the highest bit of the number is the lowest of the first byte. */
  lemma Starts33(p: seq<Symbol>, v: nat, d: bytes)
    requires |p| == 7
    ensures var q := p + Number(v, 33);
      && (Starts(q, d) <==> |d| >= 5 && FitsByte(p + Number(v / 0x1_0000_0000, 1), d[0])
                            && [d[1], d[2], d[3], d[4]] == Write32(v))
      && (|d| >= 5 ==> After(q, d) == d[5..])
  {
    hide Number, Starts, FitsByte, Write32;
    NumberHalves(v);
    var a, b := p + Number(v / 0x1_0000_0000, 1), Number(v, 32);
    assert p + Number(v, 33) == a + b;
    StartsConcat(a, b, d);
    StartsOneByte(a, d);
    if d != [] {
      StartsNumber32(v, d[1..]);
    }
  }

  /** A flag, six reserved bits and a 33-bit number. */
  lemma StartsFlag33(b: bool, v: nat, d: bytes)
    ensures var q := Bit(b) + ReservedBits(6) + Number(v, 33);
      && (Starts(q, d) <==> |d| >= 5 && Flag(d[0], 0x80) == b && d[0] as int % 2 == v / 0x1_0000_0000 % 2
                            && [d[1], d[2], d[3], d[4]] == Write32(v))
      && (|d| >= 5 ==> After(q, d) == d[5..])
  {
    hide Starts, Write32;
    var p := Bit(b) + ReservedBits(6);
    Starts33(p, v, d);
    NumberOne(v / 0x1_0000_0000);
    hide Number;
  }

  // ---------- Groups that share bytes ----------

  /** The second half of a pair: four bits that are left over, and a 12-bit number. */
  lemma StartsRest(high: nat, low: nat, d: bytes)
    ensures var p := Number(high, 4) + Number(low / 0x100, 4) + Number(low, 8);
      && (Starts(p, d) <==>
            |d| >= 2 && d[0] / 0x10 == high % 0x10 && d[0] as int % 0x10 == low / 0x100 % 0x10 && d[1] == low % 0x100)
      && (|d| >= 2 ==> After(p, d) == d[2..])
  {
    hide Number, Starts, FitsByte, FitsHigh, FitsLow;
    var b, c := Number(high, 4) + Number(low / 0x100, 4), Number(low, 8);
    StartsConcat(b, c, d);
    StartsOneByte(b, d);
    if d != [] {
      FitsHalves(Number(high, 4), Number(low / 0x100, 4), d[0]);
      HighNumber(high, d[0]);
      LowNumber(low / 0x100, d[0]);
      StartsNumber8(low, d[1..]);
    }
  }

  lemma PairParts(high: nat, low: nat)
    ensures Number(high, 12) + Number(low, 12) ==
      Number(high / 0x10, 8) + (Number(high, 4) + Number(low / 0x100, 4) + Number(low, 8))
  {
    hide Number, Halved;
    NumberSplit(high, 8, 4);
    HalvedFour(high);
    NumberHalves(low);
  }

  /** Two 12-bit numbers. */
  lemma StartsPair(high: nat, low: nat, d: bytes)
    ensures var p := Number(high, 12) + Number(low, 12);
      && (Starts(p, d) <==>
            |d| >= 3 && d[0] == high / 0x10 % 0x100 && d[1] / 0x10 == high % 0x10
            && d[1] as int % 0x10 == low / 0x100 % 0x10 && d[2] == low % 0x100)
      && (|d| >= 3 ==> After(p, d) == d[3..])
  {
    hide Number, Starts;
    PairParts(high, low);
    var a, b := Number(high / 0x10, 8), Number(high, 4) + Number(low / 0x100, 4) + Number(low, 8);
    StartsConcat(a, b, d);
    StartsNumber8(high / 0x10, d);
    if d != [] {
      StartsRest(high, low, d[1..]);
    }
  }

  /** Two bits that are clear, two reserved ones and a 12-bit number. */
  lemma StartsLength(n: nat, d: bytes)
    ensures var p := Bit(false) + Bit(false) + ReservedBits(2) + Number(n, 12);
      && (Starts(p, d) <==>
            |d| >= 2 && !Flag(d[0], 0x80) && !Flag(d[0], 0x40) && d[0] as int % 0x10 == n / 0x100 % 0x10
            && d[1] == n % 0x100)
      && (|d| >= 2 ==> After(p, d) == d[2..])
  {
    hide Number, Starts, FitsByte, FitsLow;
    NumberHalves(n);
    var high := Bit(false) + Bit(false) + ReservedBits(2);
    var a, b := high + Number(n / 0x100, 4), Number(n, 8);
    assert high + Number(n, 12) == a + b;
    StartsConcat(a, b, d);
    StartsOneByte(a, d);
    if d != [] {
      FitsHalves(high, Number(n / 0x100, 4), d[0]);
      LowNumber(n / 0x100, d[0]);
      StartsNumber8(n, d[1..]);
    }
  }

  lemma SixBits(a: nat, z: nat)
    requires a < 0x40 && z < 0x40
    ensures a == z <==>
      && a / 0x20 % 2 == z / 0x20 % 2 && a / 0x10 % 2 == z / 0x10 % 2 && a / 8 % 2 == z / 8 % 2
      && a / 4 % 2 == z / 4 % 2 && a / 2 % 2 == z / 2 % 2 && a % 2 == z % 2
  {
    SixOf(a);
    SixOf(z);
    NibbleOf(a);
    NibbleOf(z);
    EqualBits(a / 8 % 2, a / 4 % 2, a / 2 % 2, a % 2, z / 8 % 2, z / 4 % 2, z / 2 % 2, z % 2);
  }

  lemma SixOf(n: nat)
    requires n < 0x40
    ensures n == 0x20 * (n / 0x20 % 2) + 0x10 * (n / 0x10 % 2) + n % 0x10
  {
    assert n == 0x10 * (n / 0x10) + n % 0x10;
    assert n / 0x10 == 2 * (n / 0x20) + n / 0x10 % 2;
  }

  lemma ShiftedBits(x: byte)
    ensures var z := x / 2 % 0x40;
      && x / 0x40 % 2 == z / 0x20 % 2 && x / 0x20 % 2 == z / 0x10 % 2 && x / 0x10 % 2 == z / 8 % 2
      && x / 8 % 2 == z / 4 % 2 && x / 4 % 2 == z / 2 % 2 && x / 2 % 2 == z % 2
  {
    var y := x / 2;
    HigherBits(y / 0x40, y % 0x40);
    assert x / 0x40 == y / 0x20 && x / 0x20 == y / 0x10 && x / 0x10 == y / 8 && x / 8 == y / 4 && x / 4 == y / 2;
  }

  /** What is added above does not touch the lower bits. */
  lemma HigherBits(q: nat, z: nat)
    ensures var y := 0x40 * q + z;
      && y / 0x20 % 2 == z / 0x20 % 2 && y / 0x10 % 2 == z / 0x10 % 2 && y / 8 % 2 == z / 8 % 2
      && y / 4 % 2 == z / 4 % 2 && y / 2 % 2 == z / 2 % 2 && y % 2 == z % 2
  {
    var y := 0x40 * q + z;
    assert y / 0x20 == 2 * q + z / 0x20 && y / 0x10 == 4 * q + z / 0x10 && y / 8 == 8 * q + z / 8;
    assert y / 4 == 0x10 * q + z / 4 && y / 2 == 0x20 * q + z / 2;
    EvenAdded(q, z / 0x20);
    EvenAdded(2 * q, z / 0x10);
    EvenAdded(4 * q, z / 8);
    EvenAdded(8 * q, z / 4);
    EvenAdded(0x10 * q, z / 2);
    EvenAdded(0x20 * q, z);
  }

  lemma EvenAdded(k: nat, w: nat)
    ensures (2 * k + w) % 2 == w % 2
  {
  }

  lemma NumberSix(v: nat)
    ensures Number(v, 6) == [Symbol0(v / 0x20), Symbol0(v / 0x10), Symbol0(v / 8), Symbol0(v / 4), Symbol0(v / 2),
                             Symbol0(v)]
  {
    hide Number, Symbol0, Halved;
    NumberSplit(v, 2, 4);
    HalvedFour(v);
    NumberTwo(v / 0x10);
    NumberFour(v);
    assert v / 0x10 / 2 == v / 0x20;
  }

  /** Of a number that is too large for six bits the lowest ones stay. */
  lemma SixLowest(v: nat)
    ensures Number(v, 6) == Number(v % 0x40, 6)
  {
    hide Number;
    NumberSix(v);
    NumberSix(v % 0x40);
    HigherBits(v / 0x40, v % 0x40);
  }

  lemma FitsKeyByte(e: bool, algorithm: byte, high: nat, x: byte)
    requires algorithm < 0x40
    ensures FitsByte(Bit(e) + Number(algorithm, 6) + Number(high, 1), x) <==>
      Flag(x, 0x80) == e && x / 2 % 0x40 == algorithm && x as int % 2 == high % 2
  {
    hide Number;
    NumberSix(algorithm);
    NumberOne(high);
    ShiftedBits(x);
    SixBits(algorithm, x / 2 % 0x40);
  }

  /** A flag, a 6-bit number and a 33-bit number. */
  lemma StartsKeys(e: bool, algorithm: byte, v: nat, d: bytes)
    requires algorithm < 0x40
    ensures var p := Bit(e) + Number(algorithm, 6) + Number(v, 33);
      && (Starts(p, d) <==>
            |d| >= 5 && Flag(d[0], 0x80) == e && d[0] / 2 % 0x40 == algorithm
            && d[0] as int % 2 == v / 0x1_0000_0000 % 2 && [d[1], d[2], d[3], d[4]] == Write32(v))
      && (|d| >= 5 ==> After(p, d) == d[5..])
  {
    hide Starts, Number, FitsByte, Flag, Write32;
    Starts33(Bit(e) + Number(algorithm, 6), v, d);
    if d != [] {
      FitsKeyByte(e, algorithm, v / 0x1_0000_0000, d[0]);
    }
  }

  /** A 3-bit number and five reserved bits. */
  lemma StartsCount(n: nat, d: bytes)
    ensures var p := Number(n, 3) + ReservedBits(5);
      && (Starts(p, d) <==> d != [] && d[0] / 0x20 == n % 8)
      && (d != [] ==> After(p, d) == d[1..])
  {
    hide Starts, After;
    NumberSplit(n, 1, 2);
    HalvedTwo(n);
    NumberOne(n / 4);
    NumberTwo(n);
    hide Number;
    var p := Number(n, 3) + ReservedBits(5);
    StartsOneByte(p, d);
    if d != [] {
      ThreeBits(n, d[0]);
    }
  }

  lemma ThreeOf(n: nat)
    ensures n % 8 == 4 * (n / 4 % 2) + 2 * (n / 2 % 2) + n % 2
  {
    Half(n);
    Half(n / 2);
    Half(n / 4);
    HalfTwice(n);
    var q := n / 4 / 2;
    assert n == 8 * q + (4 * (n / 4 % 2) + 2 * (n / 2 % 2) + n % 2);
    EightsDropped(q, 4 * (n / 4 % 2) + 2 * (n / 2 % 2) + n % 2);
  }

  lemma UpperThree(x: byte)
    ensures x / 0x80 == x / 0x20 / 4 && x / 0x40 == x / 0x20 / 2 && x / 0x20 % 8 == x / 0x20
  {
  }

  lemma EightsDropped(q: nat, r: nat)
    requires r < 8
    ensures (8 * q + r) % 8 == r
  {
  }

  lemma ThreeBits(n: nat, x: byte)
    ensures x / 0x20 == n % 8 <==> x / 0x80 % 2 == n / 4 % 2 && x / 0x40 % 2 == n / 2 % 2 && x / 0x20 % 2 == n % 2
  {
    var y := x / 0x20;
    UpperThree(x);
    ThreeOf(y);
    ThreeOf(n);
    EqualBits(0, y / 4 % 2, y / 2 % 2, y % 2, 0, n / 4 % 2, n / 2 % 2, n % 2);
  }

  lemma {:induction false} StartsBytes(data: bytes, d: bytes)
    ensures Starts(BytesSyntax(data), d) <==> |data| <= |d| && d[..|data|] == data
    decreases |data|
  {
    hide Number, Starts, After;
    if data == [] {
      StartsNothing(d);
    } else {
      StartsConcat(Number(data[0], 8), BytesSyntax(data[1..]), d);
      StartsNumber8(data[0], d);
      if d != [] {
        StartsBytes(data[1..], d[1..]);
        FirstAndRest(data, d);
      }
    }
  }

  lemma FirstAndRest(data: bytes, d: bytes)
    requires data != [] && d != []
    ensures |data| <= |d| && d[..|data|] == data <==>
      d[0] == data[0] && |data[1..]| <= |d[1..]| && d[1..][..|data[1..]|] == data[1..]
  {
    if |data| <= |d| {
      assert d[..|data|] == [d[0]] + d[1..][..|data| - 1];
      assert data == [data[0]] + data[1..];
    }
  }

  lemma Fits8(v: nat)
    ensures Fits(Number(v, 8), Write8(v))
  {
    StartsNumber8(v, Write8(v));
    hide Starts;
  }

  lemma Fits16(v: nat)
    ensures Fits(Number(v, 16), Write16(v))
  {
    StartsNumber16(v, Write16(v));
    hide Starts;
  }

  lemma Fits32(v: nat)
    ensures Fits(Number(v, 32), Write32(v))
  {
    StartsNumber32(v, Write32(v));
    hide Starts;
  }

  lemma Fits48(v: nat)
    ensures Fits(Number(v, 48), Write48(v))
  {
    hide Starts, Number, Write32;
    NumberHalves(v);
    Fits16(v / 0x1_0000_0000);
    Fits32(v);
    FitsConcat(Number(v / 0x1_0000_0000, 16), Number(v, 32), Write16(v / 0x1_0000_0000), Write32(v));
  }
}
