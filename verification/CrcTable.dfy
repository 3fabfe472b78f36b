/**
 The lookup table of the checksum, row by row, and the proof that each entry is the remainder it
 stands for: eight steps of division by the generator polynomial.
 */
module CrcTable {
  import opened Division = CrcDivision

  const ROW0: seq<bv32> := [
    0x00000000, 0x04c11db7, 0x09823b6e, 0x0d4326d9, 0x130476dc, 0x17c56b6b, 0x1a864db2, 0x1e475005,
    0x2608edb8, 0x22c9f00f, 0x2f8ad6d6, 0x2b4bcb61, 0x350c9b64, 0x31cd86d3, 0x3c8ea00a, 0x384fbdbd
  ]

  const ROW1: seq<bv32> := [
    0x4c11db70, 0x48d0c6c7, 0x4593e01e, 0x4152fda9, 0x5f15adac, 0x5bd4b01b, 0x569796c2, 0x52568b75,
    0x6a1936c8, 0x6ed82b7f, 0x639b0da6, 0x675a1011, 0x791d4014, 0x7ddc5da3, 0x709f7b7a, 0x745e66cd
  ]

  const ROW2: seq<bv32> := [
    0x9823b6e0, 0x9ce2ab57, 0x91a18d8e, 0x95609039, 0x8b27c03c, 0x8fe6dd8b, 0x82a5fb52, 0x8664e6e5,
    0xbe2b5b58, 0xbaea46ef, 0xb7a96036, 0xb3687d81, 0xad2f2d84, 0xa9ee3033, 0xa4ad16ea, 0xa06c0b5d
  ]

  const ROW3: seq<bv32> := [
    0xd4326d90, 0xd0f37027, 0xddb056fe, 0xd9714b49, 0xc7361b4c, 0xc3f706fb, 0xceb42022, 0xca753d95,
    0xf23a8028, 0xf6fb9d9f, 0xfbb8bb46, 0xff79a6f1, 0xe13ef6f4, 0xe5ffeb43, 0xe8bccd9a, 0xec7dd02d
  ]

  const ROW4: seq<bv32> := [
    0x34867077, 0x30476dc0, 0x3d044b19, 0x39c556ae, 0x278206ab, 0x23431b1c, 0x2e003dc5, 0x2ac12072,
    0x128e9dcf, 0x164f8078, 0x1b0ca6a1, 0x1fcdbb16, 0x018aeb13, 0x054bf6a4, 0x0808d07d, 0x0cc9cdca
  ]

  const ROW5: seq<bv32> := [
    0x7897ab07, 0x7c56b6b0, 0x71159069, 0x75d48dde, 0x6b93dddb, 0x6f52c06c, 0x6211e6b5, 0x66d0fb02,
    0x5e9f46bf, 0x5a5e5b08, 0x571d7dd1, 0x53dc6066, 0x4d9b3063, 0x495a2dd4, 0x44190b0d, 0x40d816ba
  ]

  const ROW6: seq<bv32> := [
    0xaca5c697, 0xa864db20, 0xa527fdf9, 0xa1e6e04e, 0xbfa1b04b, 0xbb60adfc, 0xb6238b25, 0xb2e29692,
    0x8aad2b2f, 0x8e6c3698, 0x832f1041, 0x87ee0df6, 0x99a95df3, 0x9d684044, 0x902b669d, 0x94ea7b2a
  ]

  const ROW7: seq<bv32> := [
    0xe0b41de7, 0xe4750050, 0xe9362689, 0xedf73b3e, 0xf3b06b3b, 0xf771768c, 0xfa325055, 0xfef34de2,
    0xc6bcf05f, 0xc27dede8, 0xcf3ecb31, 0xcbffd686, 0xd5b88683, 0xd1799b34, 0xdc3abded, 0xd8fba05a
  ]

  const ROW8: seq<bv32> := [
    0x690ce0ee, 0x6dcdfd59, 0x608edb80, 0x644fc637, 0x7a089632, 0x7ec98b85, 0x738aad5c, 0x774bb0eb,
    0x4f040d56, 0x4bc510e1, 0x46863638, 0x42472b8f, 0x5c007b8a, 0x58c1663d, 0x558240e4, 0x51435d53
  ]

  const ROW9: seq<bv32> := [
    0x251d3b9e, 0x21dc2629, 0x2c9f00f0, 0x285e1d47, 0x36194d42, 0x32d850f5, 0x3f9b762c, 0x3b5a6b9b,
    0x0315d626, 0x07d4cb91, 0x0a97ed48, 0x0e56f0ff, 0x1011a0fa, 0x14d0bd4d, 0x19939b94, 0x1d528623
  ]

  const ROW10: seq<bv32> := [
    0xf12f560e, 0xf5ee4bb9, 0xf8ad6d60, 0xfc6c70d7, 0xe22b20d2, 0xe6ea3d65, 0xeba91bbc, 0xef68060b,
    0xd727bbb6, 0xd3e6a601, 0xdea580d8, 0xda649d6f, 0xc423cd6a, 0xc0e2d0dd, 0xcda1f604, 0xc960ebb3
  ]

  const ROW11: seq<bv32> := [
    0xbd3e8d7e, 0xb9ff90c9, 0xb4bcb610, 0xb07daba7, 0xae3afba2, 0xaafbe615, 0xa7b8c0cc, 0xa379dd7b,
    0x9b3660c6, 0x9ff77d71, 0x92b45ba8, 0x9675461f, 0x8832161a, 0x8cf30bad, 0x81b02d74, 0x857130c3
  ]

  const ROW12: seq<bv32> := [
    0x5d8a9099, 0x594b8d2e, 0x5408abf7, 0x50c9b640, 0x4e8ee645, 0x4a4ffbf2, 0x470cdd2b, 0x43cdc09c,
    0x7b827d21, 0x7f436096, 0x7200464f, 0x76c15bf8, 0x68860bfd, 0x6c47164a, 0x61043093, 0x65c52d24
  ]

  const ROW13: seq<bv32> := [
    0x119b4be9, 0x155a565e, 0x18197087, 0x1cd86d30, 0x029f3d35, 0x065e2082, 0x0b1d065b, 0x0fdc1bec,
    0x3793a651, 0x3352bbe6, 0x3e119d3f, 0x3ad08088, 0x2497d08d, 0x2056cd3a, 0x2d15ebe3, 0x29d4f654
  ]

  const ROW14: seq<bv32> := [
    0xc5a92679, 0xc1683bce, 0xcc2b1d17, 0xc8ea00a0, 0xd6ad50a5, 0xd26c4d12, 0xdf2f6bcb, 0xdbee767c,
    0xe3a1cbc1, 0xe760d676, 0xea23f0af, 0xeee2ed18, 0xf0a5bd1d, 0xf464a0aa, 0xf9278673, 0xfde69bc4
  ]

  const ROW15: seq<bv32> := [
    0x89b8fd09, 0x8d79e0be, 0x803ac667, 0x84fbdbd0, 0x9abc8bd5, 0x9e7d9662, 0x933eb0bb, 0x97ffad0c,
    0xafb010b1, 0xab710d06, 0xa6322bdf, 0xa2f33668, 0xbcb4666d, 0xb8757bda, 0xb5365d03, 0xb1f740b4
  ]

  const QUARTER0 := ROW0 + ROW1 + ROW2 + ROW3
  const QUARTER1 := ROW4 + ROW5 + ROW6 + ROW7
  const QUARTER2 := ROW8 + ROW9 + ROW10 + ROW11
  const QUARTER3 := ROW12 + ROW13 + ROW14 + ROW15

  const CRC_TABLE: seq<bv32> := QUARTER0 + QUARTER1 + QUARTER2 + QUARTER3

  function StepEight(r: bv32): bv32 {
    Step(Step(Step(Step(Step(Step(Step(Step(r))))))))
  }

  lemma StepsEight(r: bv32)
    ensures Steps(r, 8) == StepEight(r)
  {
    hide Step;
    var r4 := Step(Step(Step(Step(r))));
    assert Steps(r, 8) == Steps(Step(Step(r)), 6) == Steps(r4, 4) == Steps(Step(Step(r4)), 2);
  }

  // ---------- The first row, and how the others follow from it ----------

  lemma FirstRow(b: bv8)
    requires b <= 0x0f
    ensures ROW0[b as int] == StepEight((b as bv32) << 24)
  {
  }

  /** Every entry of the row is its first entry added to the entry of the first row in the same place. */
  predicate Shifted(row: seq<bv32>) {
    && |row| == 16
    && row[0] == Plus(row[0], ROW0[0]) && row[1] == Plus(row[0], ROW0[1])
    && row[2] == Plus(row[0], ROW0[2]) && row[3] == Plus(row[0], ROW0[3])
    && row[4] == Plus(row[0], ROW0[4]) && row[5] == Plus(row[0], ROW0[5])
    && row[6] == Plus(row[0], ROW0[6]) && row[7] == Plus(row[0], ROW0[7])
    && row[8] == Plus(row[0], ROW0[8]) && row[9] == Plus(row[0], ROW0[9])
    && row[10] == Plus(row[0], ROW0[10]) && row[11] == Plus(row[0], ROW0[11])
    && row[12] == Plus(row[0], ROW0[12]) && row[13] == Plus(row[0], ROW0[13])
    && row[14] == Plus(row[0], ROW0[14]) && row[15] == Plus(row[0], ROW0[15])
  }

  lemma RowsShifted0()
    ensures Shifted(ROW0) && Shifted(ROW1)
  {
  }

  lemma RowsShifted1()
    ensures Shifted(ROW2) && Shifted(ROW3)
  {
  }

  lemma RowsShifted2()
    ensures Shifted(ROW4) && Shifted(ROW5)
  {
  }

  lemma RowsShifted3()
    ensures Shifted(ROW6) && Shifted(ROW7)
  {
  }

  lemma RowsShifted4()
    ensures Shifted(ROW8) && Shifted(ROW9)
  {
  }

  lemma RowsShifted5()
    ensures Shifted(ROW10) && Shifted(ROW11)
  {
  }

  lemma RowsShifted6()
    ensures Shifted(ROW12) && Shifted(ROW13)
  {
  }

  lemma RowsShifted7()
    ensures Shifted(ROW14) && Shifted(ROW15)
  {
  }

  /** The first entry of a row is the remainder of the row's first index. */
  predicate Headed(row: seq<bv32>, first: bv8) {
    |row| == 16 && row[0] == StepEight((first as bv32) << 24)
  }

  lemma RowsHeaded()
    ensures Headed(ROW0, 0x00) && Headed(ROW1, 0x10) && Headed(ROW2, 0x20) && Headed(ROW3, 0x30)
    ensures Headed(ROW4, 0x40) && Headed(ROW5, 0x50) && Headed(ROW6, 0x60) && Headed(ROW7, 0x70)
    ensures Headed(ROW8, 0x80) && Headed(ROW9, 0x90) && Headed(ROW10, 0xa0) && Headed(ROW11, 0xb0)
    ensures Headed(ROW12, 0xc0) && Headed(ROW13, 0xd0) && Headed(ROW14, 0xe0) && Headed(ROW15, 0xf0)
  {
  }

  lemma SplitIndex(b: bv8, first: bv8)
    requires first & 0x0f == 0 && first <= b && b - first <= 0x0f
    ensures (b as bv32) << 24 == Plus((first as bv32) << 24, ((b - first) as bv32) << 24)
  {
  }

  /** Division adds up, so the entries of a row follow from its first entry and the first row. */
  lemma RowEntry(row: seq<bv32>, first: bv8, b: bv8)
    requires Shifted(row) && Headed(row, first)
    requires first & 0x0f == 0 && first <= b && b - first <= 0x0f
    ensures row[(b - first) as int] == Steps((b as bv32) << 24, 8)
  {
    var low := b - first;
    SplitIndex(b, first);
    FirstRow(low);
    StepsEight((first as bv32) << 24);
    StepsEight((low as bv32) << 24);
    hide Plus, Steps, StepEight;
    StepsPlus((first as bv32) << 24, (low as bv32) << 24, 8);
  }

  lemma Quarter0(b: bv8)
    requires 0x00 <= b <= 0x3f
    ensures QUARTER0[(b - 0x00) as int] == Steps((b as bv32) << 24, 8)
  {
    RowsShifted0();
    RowsShifted1();
    RowsHeaded();
    hide Shifted, Headed, Steps;
    if
    case 0x00 <= b <= 0x0f => RowEntry(ROW0, 0x00, b);
    case 0x10 <= b <= 0x1f => RowEntry(ROW1, 0x10, b);
    case 0x20 <= b <= 0x2f => RowEntry(ROW2, 0x20, b);
    case 0x30 <= b <= 0x3f => RowEntry(ROW3, 0x30, b);
  }

  lemma Quarter1(b: bv8)
    requires 0x40 <= b <= 0x7f
    ensures QUARTER1[(b - 0x40) as int] == Steps((b as bv32) << 24, 8)
  {
    RowsShifted2();
    RowsShifted3();
    RowsHeaded();
    hide Shifted, Headed, Steps;
    if
    case 0x40 <= b <= 0x4f => RowEntry(ROW4, 0x40, b);
    case 0x50 <= b <= 0x5f => RowEntry(ROW5, 0x50, b);
    case 0x60 <= b <= 0x6f => RowEntry(ROW6, 0x60, b);
    case 0x70 <= b <= 0x7f => RowEntry(ROW7, 0x70, b);
  }

  lemma Quarter2(b: bv8)
    requires 0x80 <= b <= 0xbf
    ensures QUARTER2[(b - 0x80) as int] == Steps((b as bv32) << 24, 8)
  {
    RowsShifted4();
    RowsShifted5();
    RowsHeaded();
    hide Shifted, Headed, Steps;
    if
    case 0x80 <= b <= 0x8f => RowEntry(ROW8, 0x80, b);
    case 0x90 <= b <= 0x9f => RowEntry(ROW9, 0x90, b);
    case 0xa0 <= b <= 0xaf => RowEntry(ROW10, 0xa0, b);
    case 0xb0 <= b <= 0xbf => RowEntry(ROW11, 0xb0, b);
  }

  lemma Quarter3(b: bv8)
    requires 0xc0 <= b <= 0xff
    ensures QUARTER3[(b - 0xc0) as int] == Steps((b as bv32) << 24, 8)
  {
    RowsShifted6();
    RowsShifted7();
    RowsHeaded();
    hide Shifted, Headed, Steps;
    if
    case 0xc0 <= b <= 0xcf => RowEntry(ROW12, 0xc0, b);
    case 0xd0 <= b <= 0xdf => RowEntry(ROW13, 0xd0, b);
    case 0xe0 <= b <= 0xef => RowEntry(ROW14, 0xe0, b);
    case 0xf0 <= b <= 0xff => RowEntry(ROW15, 0xf0, b);
  }

  lemma InQuarter(q0: seq<bv32>, q1: seq<bv32>, q2: seq<bv32>, q3: seq<bv32>, i: nat)
    requires |q0| == |q1| == |q2| == |q3| == 64 && i < 256
    ensures (q0 + q1 + q2 + q3)[i] ==
      if i < 64 then q0[i] else if i < 128 then q1[i - 64] else if i < 192 then q2[i - 128] else q3[i - 192]
  {
  }

  /** Entry b of the table is what eight steps of division make of b at the top of the register. */
  lemma TableEntry(b: bv8)
    ensures |CRC_TABLE| == 256
    ensures CRC_TABLE[b as int] == Steps((b as bv32) << 24, 8)
  {
    hide Steps;
    InQuarter(QUARTER0, QUARTER1, QUARTER2, QUARTER3, b as int);
    if
    case b <= 0x3f => Quarter0(b);
    case 0x40 <= b <= 0x7f => Quarter1(b);
    case 0x80 <= b <= 0xbf => Quarter2(b);
    case 0xc0 <= b => Quarter3(b);
  }

  function Entry(b: bv8): (entry: bv32)
    ensures entry == Steps((b as bv32) << 24, 8)
  {
    TableEntry(b);
    CRC_TABLE[b as int]
  }
}
