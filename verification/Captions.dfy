/**
 What caption data in user data mean to a decoder: the triplets of the ATSC1_data structure, with
 commands of CEA-608 for the two fields and service blocks of CEA-708.
 */
module Captions {
  import opened Wrappers
  import opened Words
  import opened Seis

  datatype Effect =
    | EraseDisplayed(field: nat, channel: nat)
    | EraseHidden(field: nat, channel: nat)
    | EndOfCaption(field: nat, channel: nat)
    | Characters(field: nat, first: byte, second: byte)
    | Service(number: nat, command: byte) // the first byte of a service block

  const SERVICE_RESET: byte := 0x8F

  /** What a pair of bytes does in a field, without their parity bits; pairs that start below 10 show nothing. */
  function PairEffect(field: nat, first: byte, second: byte): seq<Effect> {
    var a, b := first % 0x80, second % 0x80;
    var channel := if a == 0x14 then 1 else 2;
    if a < 0x10 then []
    else if (a == 0x14 || a == 0x1C) && b == 0x2C then [EraseDisplayed(field, channel)]
    else if (a == 0x14 || a == 0x1C) && b == 0x2E then [EraseHidden(field, channel)]
    else if (a == 0x14 || a == 0x1C) && b == 0x2F then [EndOfCaption(field, channel)]
    else [Characters(field, first, second)]
  }

  /** The third bit from the end says that a triplet is valid, the last two say what it carries. */
  predicate IsValid(head: byte) {
    head / 4 % 2 == 1
  }

  /** A packet start carries the header of a service block; the block's first byte is in the data that follow. */
  function StartEffect(header: byte, rest: bytes): seq<Effect> {
    if |rest| >= 3 && IsValid(rest[0]) && rest[0] % 4 == 2 && header % 0x20 > 0 then
      [Service(header / 0x20, rest[1])]
    else []
  }

  function TripletEffect(head: byte, first: byte, second: byte, rest: bytes): seq<Effect> {
    if !IsValid(head) then []
    else if head % 4 < 2 then PairEffect(1 + head % 4, first, second)
    else if head % 4 == 3 then StartEffect(second, rest)
    else []
  }

  function TripletEffects(d: bytes): seq<Effect> {
    if |d| < 3 then [] else TripletEffect(d[0], d[1], d[2], d[3..]) + TripletEffects(d[3..])
  }

  function Triplet(head: byte, first: byte, second: byte): bytes {
    [head, first, second]
  }

  /** Four bits of which one or three are set. */
  predicate OddNibble(n: nat) {
    n == 1 || n == 2 || n == 4 || n == 8 || n == 7 || n == 11 || n == 13 || n == 14
  }

  /** The number of bits that are set is odd. */
  predicate OddParity(b: byte) {
    OddNibble(b / 0x10) != OddNibble(b % 0x10)
  }

  /** Marker bits are set, and pairs for the two fields have odd parity. */
  predicate WellFormed(d: bytes) {
    |d| >= 3 ==>
      && d[0] / 8 == 0x1F && (d[0] % 4 < 2 ==> OddParity(d[1]) && OddParity(d[2]))
      && WellFormed(d[3..])
  }

  /** Country, provider and user identifier, and the type of the user data. */
  const PREFIX: bytes := [0xB5, 0x00, 0x31, 0x47, 0x41, 0x39, 0x34, 0x03]

  /** The triplets of a message: as many as the five low bits of byte 8 say, between byte 9 and a marker FF. */
  function Triplets(sei: Sei): Option<bytes> {
    if sei.payloadType == 4 && |sei.data| >= 10 && sei.data[..8] == PREFIX && sei.data[8] / 0x40 % 2 == 1 then
      var end := 10 + 3 * (sei.data[8] % 0x20);
      if |sei.data| > end && sei.data[end] == 0xFF then Some(sei.data[10..end]) else None
    else None
  }

  function Effects(sei: Sei): seq<Effect> {
    match Triplets(sei)
    case None => []
    case Some(d) => TripletEffects(d)
  }

  /** What a decoder that gets the messages one after the other does. */
  function AllEffects(seis: seq<Sei>): seq<Effect> {
    if seis == [] then [] else Effects(seis[0]) + AllEffects(seis[1..])
  }

  lemma {:induction false} AllEffectsConcat(a: seq<Sei>, b: seq<Sei>)
    ensures AllEffects(a + b) == AllEffects(a) + AllEffects(b)
    decreases |a|
  {
    hide Effects;
    if a == [] {
      assert a + b == b;
    } else {
      assert (a + b)[1..] == a[1..] + b;
      AllEffectsConcat(a[1..], b);
    }
  }

  lemma OneEffects(sei: Sei)
    ensures AllEffects([sei]) == Effects(sei)
  {
    assert [sei][1..] == [];
    assert AllEffects([]) == [];
    hide Effects;
  }

  lemma FirstTriplet(head: byte, first: byte, second: byte, rest: bytes)
    ensures TripletEffects(Triplet(head, first, second) + rest) ==
      TripletEffect(head, first, second, rest) + TripletEffects(rest)
    ensures WellFormed(Triplet(head, first, second) + rest) <==>
      && head / 8 == 0x1F && (head % 4 < 2 ==> OddParity(first) && OddParity(second))
      && WellFormed(rest)
  {
    assert (Triplet(head, first, second) + rest)[3..] == rest;
    hide TripletEffect, OddParity;
  }

  lemma InvalidTriplet(first: byte, second: byte, rest: bytes)
    ensures TripletEffects(Triplet(0xFA, first, second) + rest) == TripletEffects(rest)
    ensures WellFormed(Triplet(0xFA, first, second) + rest) <==> WellFormed(rest)
  {
    FirstTriplet(0xFA, first, second, rest);
    hide TripletEffects, WellFormed;
  }

  lemma PairTriplet(head: byte, first: byte, second: byte, rest: bytes)
    requires head == 0xFC || head == 0xFD
    ensures TripletEffects(Triplet(head, first, second) + rest) ==
      PairEffect(1 + head % 4, first, second) + TripletEffects(rest)
    ensures WellFormed(Triplet(head, first, second) + rest) <==>
      OddParity(first) && OddParity(second) && WellFormed(rest)
  {
    FirstTriplet(head, first, second, rest);
    hide TripletEffects, WellFormed, PairEffect, OddParity;
  }

  /** A packet start and the first data of its service block. */
  lemma StartTriplets(size: byte, header: byte, command: byte, next: byte, rest: bytes)
    requires header % 0x20 > 0
    ensures TripletEffects(Triplet(0xFF, size, header) + (Triplet(0xFE, command, next) + rest)) ==
      [Service(header / 0x20, command)] + TripletEffects(rest)
    ensures WellFormed(Triplet(0xFF, size, header) + (Triplet(0xFE, command, next) + rest)) <==> WellFormed(rest)
  {
    var d := Triplet(0xFE, command, next) + rest;
    FirstTriplet(0xFF, size, header, d);
    FirstTriplet(0xFE, command, next, rest);
    hide TripletEffects, WellFormed;
    assert TripletEffect(0xFE, command, next, rest) == [];
    assert [Service(header / 0x20, command)] + ([] + TripletEffects(rest)) ==
      [Service(header / 0x20, command)] + TripletEffects(rest);
  }
}
