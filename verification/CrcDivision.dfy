/**
 The reference for the checksum: division of a bit string by the generator polynomial, one bit at a
 time, as the decoder model of Annex A of ISO/IEC 13818-1 does it; and what that division detects.
 */
module CrcDivision {
  import opened Words

  /** x^32 + x^26 + x^23 + x^22 + x^16 + x^12 + x^11 + x^10 + x^8 + x^7 + x^5 + x^4 + x^2 + x + 1 */
  const POLYNOMIAL: bv32 := 0x04C1_1DB7
  const INITIAL: bv32 := 0xFFFF_FFFF

  // Registers are polynomials over GF(2); adding two of them is exclusive or.
  function Plus(a: bv32, b: bv32): bv32 {
    a ^ b
  }

  function Double(a: bv32): bv32 {
    a << 1
  }

  /** The bit that leaves a register when it is shifted left. */
  predicate Top(r: bv32) {
    r >= 0x8000_0000
  }

  function Multiple(subtract: bool): bv32 {
    if subtract then POLYNOMIAL else 0
  }

  /** One bit of the message enters the register of the decoder model. */
  function BitStep(r: bv32, bit: bool): bv32 {
    Plus(Double(r), Multiple(Top(r) != bit))
  }

  function Divide(r: bv32, bits: seq<bool>): bv32
    decreases |bits|
  {
    if bits == [] then r else Divide(BitStep(r, bits[0]), bits[1..])
  }

  /** The n highest bits of p, most significant first. */
  function HighBits(p: bv32, n: nat): (bits: seq<bool>)
    ensures |bits| == n
    decreases n
  {
    if n == 0 then [] else [Top(p)] + HighBits(Double(p), n - 1)
  }

  /** The bits of a byte, most significant first. */
  function ByteBits(b: bv8): (bits: seq<bool>)
    ensures |bits| == 8
  {
    HighBits((b as bv32) << 24, 8)
  }

  function Bits(message: bytes): (bits: seq<bool>)
    ensures |bits| == 8 * |message|
  {
    if message == [] then [] else Bits(message[..|message| - 1]) + ByteBits(message[|message| - 1] as bv8)
  }

  lemma {:induction false} DivideConcat(r: bv32, a: seq<bool>, b: seq<bool>)
    ensures Divide(r, a + b) == Divide(Divide(r, a), b)
    decreases |a|
  {
    hide BitStep;
    if a == [] {
      assert a + b == b;
    } else {
      assert (a + b)[1..] == a[1..] + b;
      DivideConcat(BitStep(r, a[0]), a[1..], b);
    }
  }

  // ---------- Dividing a whole byte ----------

  /** Shifts the register left with no bit entering. */
  function Step(r: bv32): bv32 {
    Plus(Double(r), Multiple(Top(r)))
  }

  function Steps(r: bv32, n: nat): bv32
    decreases n
  {
    if n == 0 then r else Steps(Step(r), n - 1)
  }

  function Shift(p: bv32, n: nat): bv32
    decreases n
  {
    if n == 0 then p else Shift(Double(p), n - 1)
  }

  lemma TopPlus(a: bv32, b: bv32)
    ensures Top(Plus(a, b)) == (Top(a) != Top(b))
  {
  }

  lemma DoublePlus(a: bv32, b: bv32)
    ensures Double(Plus(a, b)) == Plus(Double(a), Double(b))
  {
  }

  lemma PlusComm(a: bv32, b: bv32)
    ensures Plus(a, b) == Plus(b, a)
  {
  }

  lemma PlusAssoc(a: bv32, b: bv32, c: bv32)
    ensures Plus(Plus(a, b), c) == Plus(a, Plus(b, c))
  {
  }

  lemma PlusSwap(a: bv32, b: bv32, c: bv32)
    ensures Plus(Plus(a, b), c) == Plus(Plus(a, c), b)
  {
    hide Plus;
    PlusAssoc(a, b, c);
    PlusComm(b, c);
    PlusAssoc(a, c, b);
  }

  lemma PlusZero(a: bv32)
    ensures Plus(a, 0) == a
  {
  }

  /** Bits that are still to enter may as well wait in the top of the register. */
  lemma BitStepPending(r: bv32, p: bv32)
    ensures Plus(BitStep(r, Top(p)), Double(p)) == Step(Plus(r, p))
  {
    hide Plus, Double, Top, Multiple;
    TopPlus(r, p);
    DoublePlus(r, p);
    PlusSwap(Double(r), Multiple(Top(r) != Top(p)), Double(p));
  }

  lemma {:induction false} DividePending(r: bv32, p: bv32, n: nat)
    ensures Plus(Divide(r, HighBits(p, n)), Shift(p, n)) == Steps(Plus(r, p), n)
    decreases n
  {
    hide Plus, Double, Top, Multiple, BitStep, Step;
    if n > 0 {
      BitStepPending(r, p);
      DividePending(BitStep(r, Top(p)), Double(p), n - 1);
      assert HighBits(p, n)[1..] == HighBits(Double(p), n - 1);
    }
  }

  lemma ByteShiftedOut(b: bv8)
    ensures Shift((b as bv32) << 24, 8) == 0
  {
    var p := (b as bv32) << 24;
    assert Shift(p, 8) == Shift(Double(Double(p)), 6) == Shift(Double(Double(Double(Double(p)))), 4);
  }

  /** A byte enters the register at its top end. */
  lemma DivideByte(r: bv32, b: bv8)
    ensures Divide(r, ByteBits(b)) == Steps(r ^ ((b as bv32) << 24), 8)
  {
    var p := (b as bv32) << 24;
    assert Divide(r, ByteBits(b)) == Steps(Plus(r, p), 8) by {
      hide Plus, BitStep, Step;
      DividePending(r, p, 8);
      ByteShiftedOut(b);
      PlusZero(Divide(r, HighBits(p, 8)));
    }
  }

  // ---------- Division adds up ----------

  lemma StepPlus(a: bv32, b: bv32)
    ensures Step(Plus(a, b)) == Plus(Step(a), Step(b))
  {
    hide Plus, Double, Top, Multiple;
    TopPlus(a, b);
    DoublePlus(a, b);
    MultiplePlus(Top(a), Top(b));
    PlusExchange(Double(a), Multiple(Top(a)), Double(b), Multiple(Top(b)));
  }

  lemma {:induction false} StepsPlus(a: bv32, b: bv32, n: nat)
    ensures Steps(Plus(a, b), n) == Plus(Steps(a, n), Steps(b, n))
    decreases n
  {
    hide Plus, Step;
    if n > 0 {
      StepPlus(a, b);
      StepsPlus(Step(a), Step(b), n - 1);
    }
  }

  // ---------- Bit strings of messages ----------

  lemma Halve(a: bv32, b: bv32)
    requires Double(a) == Double(b) && Top(a) == Top(b)
    ensures a == b
  {
  }

  lemma {:induction false} HighBitsInjective(p: bv32, q: bv32, n: nat)
    requires HighBits(p, n) == HighBits(q, n) && Shift(p, n) == Shift(q, n)
    ensures p == q
    decreases n
  {
    hide Double, Top;
    if n > 0 {
      assert HighBits(p, n)[0] == HighBits(q, n)[0] && HighBits(p, n)[1..] == HighBits(q, n)[1..];
      HighBitsInjective(Double(p), Double(q), n - 1);
      Halve(p, q);
    }
  }

  lemma SameByte(b: bv8, c: bv8)
    requires (b as bv32) << 24 == (c as bv32) << 24
    ensures b == c
  {
  }

  lemma ByteBitsInjective(b: bv8, c: bv8)
    requires ByteBits(b) == ByteBits(c)
    ensures b == c
  {
    ByteShiftedOut(b);
    ByteShiftedOut(c);
    HighBitsInjective((b as bv32) << 24, (c as bv32) << 24, 8);
    SameByte(b, c);
  }

  lemma {:induction false} ByteOf(x: byte) returns (b: bv8)
    ensures b as int == x
    decreases x
  {
    if x == 0 {
      b := 0;
    } else {
      var c := ByteOf(x - 1);
      b := c + 1;
    }
  }

  lemma ByteOfBits(x: byte)
    ensures (x as bv8) as int == x
  {
    var b := ByteOf(x);
  }

  lemma {:induction false} BitsConcat(a: bytes, b: bytes)
    ensures Bits(a + b) == Bits(a) + Bits(b)
    decreases |b|
  {
    hide ByteBits;
    if b == [] {
      assert a + b == a;
    } else {
      assert (a + b)[..|a + b| - 1] == a + b[..|b| - 1];
      BitsConcat(a, b[..|b| - 1]);
    }
  }

  // ---------- What the division detects ----------

  lemma LowestBit(a: bv32, subtract: bool)
    ensures (Plus(Double(a), Multiple(subtract)) & 1 != 0) == subtract
  {
  }

  lemma PlusCancel(a: bv32, b: bv32, c: bv32)
    requires Plus(a, c) == Plus(b, c)
    ensures a == b
  {
  }

  lemma BitStepInjective(a: bv32, b: bv32, bit: bool)
    requires BitStep(a, bit) == BitStep(b, bit)
    ensures a == b
  {
    hide Plus, Double, Top, Multiple;
    LowestBit(a, Top(a) != bit);
    LowestBit(b, Top(b) != bit);
    PlusCancel(Double(a), Double(b), Multiple(Top(a) != bit));
    Halve(a, b);
  }

  /** Different registers stay different while the same bits enter. */
  lemma {:induction false} DivideInjective(a: bv32, b: bv32, bits: seq<bool>)
    requires Divide(a, bits) == Divide(b, bits)
    ensures a == b
    decreases |bits|
  {
    hide BitStep;
    if bits != [] {
      DivideInjective(BitStep(a, bits[0]), BitStep(b, bits[0]), bits[1..]);
      BitStepInjective(a, b, bits[0]);
    }
  }

  /** k shifts to the left bring the register to zero. */
  predicate ShiftsOut(a: bv32, k: bv8)
    requires k <= 32
  {
    a << k == 0
  }

  lemma PlusExchange(a: bv32, b: bv32, c: bv32, d: bv32)
    ensures Plus(Plus(a, b), Plus(c, d)) == Plus(Plus(a, c), Plus(b, d))
  {
    hide Plus;
    PlusAssoc(Plus(a, b), c, d);
    PlusSwap(a, b, c);
    PlusAssoc(Plus(a, c), b, d);
  }

  lemma MultiplePlus(x: bool, y: bool)
    ensures Plus(Multiple(x), Multiple(y)) == Multiple(x != y)
  {
  }

  lemma SumOfSteps(a: bv32, b: bv32, x: bool, y: bool)
    ensures Plus(BitStep(a, x), BitStep(b, y)) ==
      Plus(Double(Plus(a, b)), Multiple((Top(a) != x) != (Top(b) != y)))
  {
    hide Plus, Double, Top, Multiple;
    DoublePlus(a, b);
    PlusExchange(Double(a), Multiple(Top(a) != x), Double(b), Multiple(Top(b) != y));
    MultiplePlus(Top(a) != x, Top(b) != y);
  }

  /** The polynomial is odd, and 31 shifts do not remove the lowest bit. */
  lemma StepBack(difference: bv32, odd: bool, k: bv8)
    requires k <= 31 && ShiftsOut(Plus(Double(difference), Multiple(odd)), k)
    ensures !odd && ShiftsOut(difference, k + 1)
  {
  }

  lemma EqualShiftsOut(a: bv32)
    ensures ShiftsOut(Plus(a, a), 0)
  {
  }

  /** Registers that fewer than 32 steps make equal differ only in bits that those steps shift out. */
  lemma {:induction false} MergeWithin(a: bv32, b: bv32, u: seq<bool>, w: seq<bool>, k: bv8)
    requires |u| == |w| == k as int && k <= 31
    requires Divide(a, u) == Divide(b, w)
    ensures ShiftsOut(Plus(a, b), k)
    decreases |u|
  {
    hide Plus, Double, Top, Multiple, ShiftsOut, BitStep;
    if u == [] {
      EqualShiftsOut(a);
    } else {
      MergeWithin(BitStep(a, u[0]), BitStep(b, w[0]), u[1..], w[1..], k - 1);
      SumOfSteps(a, b, u[0], w[0]);
      StepBack(Plus(a, b), (Top(a) != u[0]) != (Top(b) != w[0]), k - 1);
    }
  }

  lemma FirstBitSeen(r: bv32, x: bool, y: bool, k: bv8)
    requires k <= 31 && x != y
    ensures !ShiftsOut(Plus(BitStep(r, x), BitStep(r, y)), k)
  {
    hide Plus, Double, Top, Multiple, ShiftsOut, BitStep;
    SumOfSteps(r, r, x, y);
    if ShiftsOut(Plus(BitStep(r, x), BitStep(r, y)), k) {
      StepBack(Plus(r, r), true, k);
    }
  }

  /** Two different windows of at most 32 bits leave different registers. */
  lemma {:induction false} WindowDetected(r: bv32, u: seq<bool>, w: seq<bool>)
    requires |u| == |w| <= 32 && u != w
    ensures Divide(r, u) != Divide(r, w)
    decreases |u|
  {
    hide Plus, ShiftsOut, BitStep;
    if u[0] == w[0] {
      assert u == [u[0]] + u[1..] && w == [w[0]] + w[1..];
      WindowDetected(BitStep(r, u[0]), u[1..], w[1..]);
    } else {
      var k := ByteOf(|u| - 1);
      FirstBitSeen(r, u[0], w[0], k);
      if Divide(r, u) == Divide(r, w) {
        MergeWithin(BitStep(r, u[0]), BitStep(r, w[0]), u[1..], w[1..], k);
      }
    }
  }

  /** Every burst error of at most 32 bits changes the remainder, wherever in the message it lies. */
  lemma BurstDetected(r: bv32, before: seq<bool>, u: seq<bool>, w: seq<bool>, after: seq<bool>)
    requires |u| == |w| <= 32 && u != w
    ensures Divide(r, before + u + after) != Divide(r, before + w + after)
  {
    var s := Divide(r, before);
    forall x | x == u || x == w
      ensures Divide(r, before + x + after) == Divide(Divide(s, x), after)
    {
      DivideConcat(r, before + x, after);
      DivideConcat(r, before, x);
    }
    WindowDetected(s, u, w);
    if Divide(r, before + u + after) == Divide(r, before + w + after) {
      DivideInjective(Divide(s, u), Divide(s, w), after);
    }
  }
}
