/**
 The table-driven checksum on a 64-bit register, and its meaning: its low half is the remainder of the
 bit-by-bit division.
 */
module Crc32 {
  import opened Words
  import opened Division = CrcDivision
  import Table = CrcTable

  /** The part of the register that value() shows. */
  function Value(register: bv64): bv32 {
    (register & 0xffff_ffff) as bv32
  }

  function Index(register: bv64, b: byte): bv8 {
    (((register >> 24) & 0x00ff) as bv8) ^ (b as bv8)
  }

  function Updated(register: bv64, b: byte): bv64 {
    (register << 8) ^ (Table.Entry(Index(register, b)) as bv64)
  }

  function UpdatedAll(register: bv64, message: bytes): bv64 {
    if message == [] then register
    else Updated(UpdatedAll(register, message[..|message| - 1]), message[|message| - 1])
  }

  function Compute(message: bytes): bv32 {
    Value(UpdatedAll(0xffff_ffff, message))
  }

  /** The accumulator object. */
  class Accumulator {
    var register: bv64

    constructor ()
      ensures register == 0xffff_ffff
    {
      register := 0xffff_ffff;
    }

    method Update(b: byte)
      modifies this
      ensures register == Updated(old(register), b)
      ensures Value(register) == Divide(old(Value(register)), ByteBits(b as bv8))
    {
      hide Table.Entry, Index, Value, Divide, ByteBits;
      UpdateDivides(register, b);
      var index := Index(register, b);
      register := (register << 8) ^ (Table.Entry(index) as bv64);
    }

    method UpdateRange(message: bytes)
      modifies this
      ensures register == UpdatedAll(old(register), message)
      ensures Value(register) == Divide(old(Value(register)), Bits(message))
    {
      hide Updated, Value, Divide, Bits;
      UpdateAllDivides(register, message);
      var i := 0;
      while i < |message|
        invariant i <= |message|
        invariant register == UpdatedAll(old(register), message[..i])
      {
        assert message[..i + 1][..i] == message[..i];
        Update(message[i]);
        i := i + 1;
      }
      assert message[..i] == message;
    }
  }

  method ComputeOver(message: bytes) returns (value: bv32)
    ensures value == Compute(message)
  {
    var crc := new Accumulator();
    crc.UpdateRange(message);
    value := Value(crc.register);
  }

  // ---------- The register holds the remainder ----------

  lemma StepLow(r: bv32, limit: bv32)
    requires r < limit <= 0x8000_0000
    ensures Step(r) == Double(r)
    ensures limit < 0x8000_0000 ==> Double(r) < limit << 1
  {
  }

  lemma DoubleEight(r: bv32)
    ensures Double(Double(Double(Double(Double(Double(Double(Double(r)))))))) == r << 8
  {
  }

  /** The lower three bytes of the register are shifted up without any division. */
  lemma StepsLow(r: bv32)
    requires r < 0x0100_0000
    ensures Steps(r, 8) == r << 8
  {
    Table.StepsEight(r);
    hide Step, Steps, Double;
    DoubleEight(r);
    var d1 := Double(r);
    var d2 := Double(d1);
    var d3 := Double(d2);
    var d4 := Double(d3);
    var d5 := Double(d4);
    var d6 := Double(d5);
    var d7 := Double(d6);
    StepLow(r, 0x0100_0000);
    StepLow(d1, 0x0200_0000);
    StepLow(d2, 0x0400_0000);
    StepLow(d3, 0x0800_0000);
    StepLow(d4, 0x1000_0000);
    StepLow(d5, 0x2000_0000);
    StepLow(d6, 0x4000_0000);
    StepLow(d7, 0x8000_0000);
  }

  lemma SplitTop(r: bv32, b: bv8)
    ensures r ^ ((b as bv32) << 24) ==
      Plus(r & 0x00ff_ffff, (((((r >> 24) as bv8) ^ b) as bv32) << 24))
  {
  }

  /** The index into the table, from the 32-bit value. */
  function IndexOf(value: bv32, x: bv8): bv8 {
    ((value >> 24) as bv8) ^ x
  }

  function Rest(value: bv32): bv32 {
    (value & 0x00ff_ffff) << 8
  }

  lemma IndexOfValue(register: bv64, b: byte)
    ensures Index(register, b) == IndexOf(Value(register), b as bv8)
  {
    assert ((register >> 24) & 0x00ff) as bv8 == (Value(register) >> 24) as bv8;
  }

  lemma TableDivides(r: bv32, x: bv8)
    ensures Steps(r ^ ((x as bv32) << 24), 8) == Plus(Rest(r), Table.Entry(IndexOf(r, x)))
  {
    hide Table.Entry, Steps, Plus;
    LowPart(r);
    StepsLow(r & 0x00ff_ffff);
    SplitTop(r, x);
    StepsPlus(r & 0x00ff_ffff, (((r >> 24) as bv8) ^ x) as bv32 << 24, 8);
  }

  lemma LowPart(r: bv32)
    ensures r & 0x00ff_ffff < 0x0100_0000
  {
  }

  lemma UpdatedValue(register: bv64, b: byte, entry: bv32)
    requires entry == Table.Entry(Index(register, b))
    ensures Value(Updated(register, b)) == Plus(Rest(Value(register)), entry)
  {
    hide Table.Entry, Index;
  }

  lemma UpdateDivides(register: bv64, b: byte)
    ensures Value(Updated(register, b)) == Divide(Value(register), ByteBits(b as bv8))
  {
    hide Table.Entry, Index, IndexOf, Rest, Value, Updated, Plus, Steps;
    var r, x := Value(register), b as bv8;
    IndexOfValue(register, b);
    UpdatedValue(register, b, Table.Entry(Index(register, b)));
    TableDivides(r, x);
    DivideByte(r, x);
  }

  /** For every message, table look-up computes the division of Annex A of ISO/IEC 13818-1. */
  lemma {:induction false} UpdateAllDivides(register: bv64, message: bytes)
    ensures Value(UpdatedAll(register, message)) == Divide(Value(register), Bits(message))
  {
    hide Value, Updated, ByteBits;
    if message != [] {
      var front := message[..|message| - 1];
      UpdateAllDivides(register, front);
      UpdateDivides(UpdatedAll(register, front), message[|message| - 1]);
      DivideConcat(Value(register), Bits(front), ByteBits(message[|message| - 1] as bv8));
    }
  }

  lemma ComputeDivides(message: bytes)
    ensures Compute(message) == Divide(INITIAL, Bits(message))
  {
    UpdateAllDivides(0xffff_ffff, message);
  }

  // ---------- What the checksum is for ----------

  /** write_32 of the checksum: its four bytes, most significant first. */
  function ChecksumBytes(crc: bv32): (s: bytes)
    ensures |s| == 4
  {
    [(((crc & 0xff00_0000) >> 24) as bv8) as int, (((crc & 0x00ff_0000) >> 16) as bv8) as int,
     (((crc & 0x0000_ff00) >> 8) as bv8) as int, ((crc & 0x0000_00ff) as bv8) as int]
  }

  lemma {:induction false} UpdatedAllConcat(register: bv64, a: bytes, b: bytes)
    ensures UpdatedAll(register, a + b) == UpdatedAll(UpdatedAll(register, a), b)
    decreases |b|
  {
    hide Updated;
    if b == [] {
      assert a + b == a;
    } else {
      assert (a + b)[..|a + b| - 1] == a + b[..|b| - 1];
      UpdatedAllConcat(register, a, b[..|b| - 1]);
    }
  }

  lemma TopByteLeaves(register: bv64, b: byte)
    requires b as bv8 == (Value(register) >> 24) as bv8
    ensures Value(Updated(register, b)) == Rest(Value(register))
  {
    var zero: bv8 := 0;
    assert IndexOf(Value(register), b as bv8) == zero;
    IndexOfValue(register, b);
    assert Table.Entry(zero) == 0 by {
      StepsLow(0);
    }
    UpdatedValue(register, b, 0);
    PlusZero(Rest(Value(register)));
  }

  lemma ChecksumByte(crc: bv32)
    ensures var s := ChecksumBytes(crc);
      && s[0] as bv8 == (crc >> 24) as bv8
      && s[1] as bv8 == (Rest(crc) >> 24) as bv8
      && s[2] as bv8 == (Rest(Rest(crc)) >> 24) as bv8
      && s[3] as bv8 == (Rest(Rest(Rest(crc))) >> 24) as bv8
    ensures Rest(Rest(Rest(Rest(crc)))) == 0
  {
  }

  lemma UpdatedFour(register: bv64, s: bytes)
    requires |s| == 4
    ensures UpdatedAll(register, s) == Updated(Updated(Updated(Updated(register, s[0]), s[1]), s[2]), s[3])
  {
    hide Updated;
    assert s[..3][..2] == s[..2] && s[..2][..1] == s[..1] && s[..1][..0] == [];
    assert UpdatedAll(register, s[..1]) == Updated(register, s[0]);
    assert UpdatedAll(register, s[..2]) == Updated(UpdatedAll(register, s[..1]), s[1]);
    assert UpdatedAll(register, s[..3]) == Updated(UpdatedAll(register, s[..2]), s[2]);
  }

  /** A message followed by its own checksum has checksum zero: the test that the receiver makes. */
  lemma ChecksumAppended(message: bytes)
    ensures Compute(message + ChecksumBytes(Compute(message))) == 0
  {
    hide Value, Updated, Rest, ChecksumBytes;
    var crc := Compute(message);
    var s := ChecksumBytes(crc);
    ChecksumByte(crc);
    var r0 := UpdatedAll(0xffff_ffff, message);
    var r1 := Updated(r0, s[0]);
    var r2 := Updated(r1, s[1]);
    var r3 := Updated(r2, s[2]);
    TopByteLeaves(r0, s[0]);
    TopByteLeaves(r1, s[1]);
    TopByteLeaves(r2, s[2]);
    TopByteLeaves(r3, s[3]);
    UpdatedAllConcat(0xffff_ffff, message, s);
    UpdatedFour(r0, s);
  }

  /** Messages whose bits differ only inside one window of at most 32 bits never share a checksum. */
  lemma BurstChangesChecksum(m: bytes, m': bytes, before: seq<bool>, u: seq<bool>, w: seq<bool>, after: seq<bool>)
    requires Bits(m) == before + u + after && Bits(m') == before + w + after
    requires |u| == |w| <= 32 && u != w
    ensures Compute(m) != Compute(m')
  {
    ComputeDivides(m);
    ComputeDivides(m');
    BurstDetected(INITIAL, before, u, w, after);
  }

  /** Messages of equal length that differ in exactly one byte never share a checksum. */
  lemma ByteChangesChecksum(before: bytes, x: byte, y: byte, after: bytes)
    requires x != y
    ensures Compute(before + [x] + after) != Compute(before + [y] + after)
  {
    hide ByteBits, Compute;
    forall z: byte
      ensures Bits(before + [z] + after) == Bits(before) + ByteBits(z as bv8) + Bits(after)
    {
      BitsConcat(before + [z], after);
      BitsConcat(before, [z]);
      assert [z][..0] == [];
      assert Bits([z]) == Bits([]) + ByteBits(z as bv8);
    }
    if ByteBits(x as bv8) == ByteBits(y as bv8) {
      ByteBitsInjective(x as bv8, y as bv8);
      ByteOfBits(x);
      ByteOfBits(y);
    }
    BurstChangesChecksum(before + [x] + after, before + [y] + after,
                         Bits(before), ByteBits(x as bv8), ByteBits(y as bv8), Bits(after));
  }
}
