/** What the parser of splice information sections never accepts. */
module Scte35Rejection {
  import opened Wrappers
  import opened Words
  import opened Wire
  import opened Scte35
  import opened Scte35Parser
  import Crc32

  lemma AcceptedChecksum(d: bytes)
    requires ParseSection(d, ()).Success?
    ensures Crc32.Compute(Chopped(d)) == 0
  {
    hide ParseUntilLength, ParseHeader, ParseBody, ParseLoop, Read32, Crc32.Compute;
  }

  lemma AcceptedStart(d: bytes)
    requires ParseSection(d, ()).Success?
    ensures var c := Chopped(d);
      |c| >= 3 && c[0] == TABLE_ID && !Flag(c[1], 0x80)
  {
    hide ParseHeader, ParseBody, ParseLoop, Read32, Crc32.Compute;
  }

  /** Changing one byte does not turn the table_id into a pointer byte, or back, unnoticed. */
  lemma SameChop(d: bytes, i: nat, y: byte)
    requires i < |d| && d[i] != y
    requires ParseSection(d, ()).Success? && ParseSection(d[i := y], ()).Success?
    ensures |Chopped(d[i := y])| == |Chopped(d)|
  {
    hide ParseSection;
    AcceptedStart(d);
    AcceptedStart(d[i := y]);
    if i == 0 {
      assert d[1..][0] == d[1] && d[i := y][1..] == d[1..];
    }
  }

  lemma SplitAt(m: bytes, i: nat, y: byte)
    requires i < |m|
    ensures m == m[..i] + [m[i]] + m[i + 1..]
    ensures m[i := y] == m[..i] + [y] + m[i + 1..]
  {
  }

  /**
   Packing on its own: whatever single byte of a buffer that was accepted is changed, a buffer of the same
   size is no longer accepted.
   */
  lemma PackRejectsChangedByte(d: bytes, i: nat, y: byte)
    requires i < |d| && d[i] != y && ParseSection(d, ()).Success?
    ensures ParseSection(d[i := y], ()).Failure?
  {
    hide ParseSection, Crc32.Compute;
    var d' := d[i := y];
    if ParseSection(d', ()).Success? {
      SameChop(d, i, y);
      AcceptedChecksum(d);
      AcceptedChecksum(d');
      var start := |d| - |Chopped(d)|;
      assert i >= start;
      var m, k := Chopped(d), i - start;
      assert Chopped(d') == m[k := y];
      SplitAt(m, k, y);
      Crc32.ByteChangesChecksum(m[..k], m[k], y, m[k + 1..]);
      assert false;
    }
  }

  /** The identifier is taken in addition to the announced length, and FFF is refused. */
  lemma PrivateCommandTaken(d: bytes, length: u16)
    requires ParsePrivateCommand(d, length).Success?
    ensures 4 < length < 0xFFF
    ensures var (_, rest) := ParsePrivateCommand(d, length).value;
      |d| - |rest| == 4 + length
  {
    hide Number32;
  }

  /** No section with a private command is ever accepted, whoever wrote it. */
  lemma PrivateCommandRejected(d: bytes)
    ensures ParseSection(d, ()).Success? ==> !ParseSection(d, ()).value.command.PrivateCommand?
  {
    hide ParseUntilLength, ParseHeader, ParseBody, ParseLoop, Read32, Crc32.Compute, Chopped;
    if ParseSection(d, ()).Success? {
      var d1 := ParseUntilLength(d).value.1;
      NoPrivateBody(ParseHeader(d1).value.1);
    }
  }

  lemma NoPrivateBody(d: bytes)
    requires ParseBody(d).Success?
    ensures !ParseBody(d).value.0.1.PrivateCommand?
  {
    hide ParsePrivateCommand, ParseSchedule, ParseInsert, ParseTimeSignal;
    var (length, d2) := Read12Low(d[1..]).value;
    var (commandType, d3) := Read8(d2).value;
    if commandType == 0xFF {
      PrivateCommandTaken(d3, length);
      assert false;
    } else {
      OthersNotPrivate(d3, commandType, length);
    }
  }

  lemma OthersNotPrivate(d: bytes, commandType: byte, length: u16)
    requires commandType != 0xFF && ParseCommand(d, commandType, length).Success?
    ensures !ParseCommand(d, commandType, length).value.0.PrivateCommand?
  {
    hide ParseScheduleEvents, ParseInsertDetails, ParseSpliceTime;
  }
}
