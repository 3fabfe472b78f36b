/** The metadata that the injector makes up itself, and what a caption decoder does with them. */
module Fillers {
  import opened Wrappers
  import opened Words
  import opened MetadataQueues
  import opened Seis
  import opened Captions
  import Rbsp

  const INT_MAX := 0x7fff_ffff
  const INT_MIN := -0x8000_0000

  /** User data of four caption packets without content. */
  const EMPTY_SEI: Sei := Sei(USER_DATA_REGISTERED, [
    181, 0, 49, 71, 65, 57, 52, 3, 0x44, 0x00,
    0xFC, 0x80, 0x80, 0xFD, 0x01, 0x85, 0xFA, 0x00, 0x00, 0xFA, 0x00, 0x00, 0xFF
  ])

  const RESET_HEADER: bytes := [181, 0, 49, 71, 65, 57, 52, 3, 0x52, 0x00]

  const RESET_608: bytes := [
    0xFC, 0x94, 0x2C, 0xFC, 0x94, 0xAE, 0xFC, 0x94, 0x2F, 0xFC, 0x1C, 0x2C, 0xFC, 0x1C, 0xAE, 0xFC, 0x1C, 0x2F,
    0xFD, 0x94, 0x2C, 0xFD, 0x94, 0xAE, 0xFD, 0x94, 0x2F, 0xFD, 0x1C, 0x2C, 0xFD, 0x1C, 0xAE, 0xFD, 0x1C, 0x2F
  ]

  const RESET_708: bytes := [
    0xFF, 0x02, 0x21, 0xFE, 0x8F, 0x00, 0xFF, 0x02, 0x41, 0xFE, 0x8F, 0x00, 0xFA, 0x00, 0x00, 0xFA, 0x00, 0x00, 0xFF
  ]

  /** User data of 18 caption packets that clear both caption fields and reset both services. */
  const RESET_SEI: Sei := Sei(USER_DATA_REGISTERED, RESET_HEADER + RESET_608 + RESET_708)

  function EmptyMetadata(id: nat, ts: int): Entry {
    Entry(id, ts, ts, INT_MAX, EMPTY_SEI)
  }

  function ResetMetadata(id: nat, ts: int): Entry {
    Entry(id, ts, ts, INT_MIN, RESET_SEI)
  }

  /** The payloads that the injector makes up itself may be framed and come back when they are read. */
  lemma FillersAreSafe()
    ensures Framing(EMPTY_SEI) && Readable(EMPTY_SEI)
    ensures Framing(RESET_SEI) && Readable(RESET_SEI)
  {
    Rbsp.NoneMissedNoOverlap(EMPTY_SEI.data);
    ResetNoneMissed();
    Rbsp.NoneMissedNoOverlap(RESET_SEI.data);
  }

  lemma ResetNoneMissed()
    ensures Rbsp.NoneMissed(RESET_SEI.data)
  {
    Rbsp.NoneMissedConcat(RESET_HEADER, RESET_608);
    Rbsp.NoneMissedConcat(RESET_HEADER + RESET_608, RESET_708);
  }

  // ---------- What a decoder does ----------

  /** Both memories of a channel are erased and the caption ends. */
  function ChannelReset(field: nat, channel: nat): seq<Effect> {
    [EraseDisplayed(field, channel)] + [EraseHidden(field, channel)] + [EndOfCaption(field, channel)]
  }

  /** Both channels of both fields are reset, and the first two services. */
  const RESET: seq<Effect> :=
    ChannelReset(1, 1) + ChannelReset(1, 2) + ChannelReset(2, 1) + ChannelReset(2, 2) +
    [Service(1, SERVICE_RESET)] + [Service(2, SERVICE_RESET)]

  lemma ShortEffects(d: bytes)
    requires |d| < 3
    ensures TripletEffects(d) == [] && WellFormed(d)
  {
  }

  const EMPTY_TRIPLETS: bytes :=
    Triplet(0xFC, 0x80, 0x80) + (Triplet(0xFD, 0x01, 0x85) + (Triplet(0xFA, 0, 0) + (Triplet(0xFA, 0, 0) + [])))

  lemma EmptyParts()
    ensures Triplets(EMPTY_SEI) == Some(EMPTY_TRIPLETS) && |EMPTY_SEI.data| == 11 + 3 * 4
  {
    var data := EMPTY_SEI.data;
    assert data[8] == 0x44 && data[22] == 0xFF;
    assert data[..8] == PREFIX;
    assert data[10..22] == EMPTY_TRIPLETS;
    hide EMPTY_SEI, EMPTY_TRIPLETS, PREFIX;
  }

  lemma EmptyPairs()
    ensures OddParity(0x80) && OddParity(0x01) && OddParity(0x85)
    ensures PairEffect(1, 0x80, 0x80) == [] && PairEffect(2, 0x01, 0x85) == []
  {
  }

  lemma EmptyTriplets()
    ensures WellFormed(EMPTY_TRIPLETS) && TripletEffects(EMPTY_TRIPLETS) == []
  {
    EmptyPairs();
    ShortEffects([]);
    hide Triplet, TripletEffects, WellFormed, OddParity, PairEffect;
    var d: bytes := Triplet(0xFA, 0, 0) + [];
    InvalidTriplet(0, 0, []);
    var c := Triplet(0xFA, 0, 0) + d;
    InvalidTriplet(0, 0, d);
    var b := Triplet(0xFD, 0x01, 0x85) + c;
    PairTriplet(0xFD, 0x01, 0x85, c);
    PairTriplet(0xFC, 0x80, 0x80, b);
  }

  /** Four triplets, of which the first is padding, the second no caption data, and the others are not valid. */
  lemma EmptyHasNoEffect()
    ensures Triplets(EMPTY_SEI).Some? && |Triplets(EMPTY_SEI).value| == 3 * 4 == |EMPTY_SEI.data| - 11
    ensures WellFormed(Triplets(EMPTY_SEI).value)
    ensures Effects(EMPTY_SEI) == []
  {
    EmptyParts();
    assert |EMPTY_TRIPLETS| == 12;
    hide EMPTY_SEI, EMPTY_TRIPLETS, TripletEffects, WellFormed, Triplets;
    EmptyTriplets();
  }

  /** Three triplets for one channel. */
  function ChannelTriplets(head: byte, control: byte, rest: bytes): bytes {
    Triplet(head, control, 0x2C) + (Triplet(head, control, 0xAE) + (Triplet(head, control, 0x2F) + rest))
  }

  lemma ControlParity()
    ensures OddParity(0x94) && OddParity(0x1C) && OddParity(0x2C) && OddParity(0xAE) && OddParity(0x2F)
  {
  }

  lemma FirstControls(field: nat)
    ensures PairEffect(field, 0x94, 0x2C) == [EraseDisplayed(field, 1)]
    ensures PairEffect(field, 0x94, 0xAE) == [EraseHidden(field, 1)]
    ensures PairEffect(field, 0x94, 0x2F) == [EndOfCaption(field, 1)]
  {
  }

  lemma SecondControls(field: nat)
    ensures PairEffect(field, 0x1C, 0x2C) == [EraseDisplayed(field, 2)]
    ensures PairEffect(field, 0x1C, 0xAE) == [EraseHidden(field, 2)]
    ensures PairEffect(field, 0x1C, 0x2F) == [EndOfCaption(field, 2)]
  {
  }

  lemma ChannelEffects(head: byte, control: byte, rest: bytes)
    requires (head == 0xFC || head == 0xFD) && (control == 0x94 || control == 0x1C)
    ensures TripletEffects(ChannelTriplets(head, control, rest)) ==
      ChannelReset(1 + head % 4, if control == 0x94 then 1 else 2) + TripletEffects(rest)
    ensures WellFormed(ChannelTriplets(head, control, rest)) <==> WellFormed(rest)
  {
    var field, channel := 1 + head % 4, if control == 0x94 then 1 else 2;
    hide Triplet, TripletEffects, WellFormed, OddParity, PairEffect;
    ControlParity();
    FirstControls(field);
    SecondControls(field);
    var c := Triplet(head, control, 0x2F) + rest;
    var b := Triplet(head, control, 0xAE) + c;
    PairTriplet(head, control, 0x2F, rest);
    PairTriplet(head, control, 0xAE, c);
    PairTriplet(head, control, 0x2C, b);
    ThreeThen([EraseDisplayed(field, channel)], [EraseHidden(field, channel)], [EndOfCaption(field, channel)],
              TripletEffects(rest));
  }

  lemma ThreeThen<T>(a: seq<T>, b: seq<T>, c: seq<T>, d: seq<T>)
    ensures a + (b + (c + d)) == a + b + c + d
  {
  }

  /** The last six triplets. */
  const SERVICE_TRIPLETS: bytes :=
    Triplet(0xFF, 0x02, 0x21) + (Triplet(0xFE, 0x8F, 0x00) + (Triplet(0xFF, 0x02, 0x41) + (Triplet(0xFE, 0x8F, 0x00) +
    (Triplet(0xFA, 0, 0) + (Triplet(0xFA, 0, 0) + [])))))

  lemma ServiceEffects()
    ensures TripletEffects(SERVICE_TRIPLETS) == [Service(1, SERVICE_RESET)] + [Service(2, SERVICE_RESET)]
    ensures WellFormed(SERVICE_TRIPLETS)
  {
    ShortEffects([]);
    hide Triplet, TripletEffects, WellFormed;
    var f: bytes := Triplet(0xFA, 0, 0) + [];
    InvalidTriplet(0, 0, []);
    var e := Triplet(0xFA, 0, 0) + f;
    InvalidTriplet(0, 0, f);
    var c := Triplet(0xFF, 0x02, 0x41) + (Triplet(0xFE, 0x8F, 0x00) + e);
    StartTriplets(0x02, 0x41, 0x8F, 0x00, e);
    StartTriplets(0x02, 0x21, 0x8F, 0x00, c);
  }

  lemma ResetParts()
    ensures Triplets(RESET_SEI) == Some(RESET_608 + SERVICE_TRIPLETS) && |RESET_SEI.data| == 11 + 3 * 18
    ensures |RESET_608 + SERVICE_TRIPLETS| == 54
  {
    assert RESET_HEADER == PREFIX + [0x52, 0x00];
    assert RESET_708 == SERVICE_TRIPLETS + [0xFF];
    assert |PREFIX| == 8 && |RESET_608| == 36 && |SERVICE_TRIPLETS| == 18;
    hide PREFIX, RESET_608, SERVICE_TRIPLETS, RESET_HEADER, RESET_708;
    PartsFound(RESET_SEI, RESET_608 + SERVICE_TRIPLETS, 0x52);
    assert RESET_SEI.data == PREFIX + [0x52, 0x00] + (RESET_608 + SERVICE_TRIPLETS) + [0xFF];
  }

  lemma PartsFound(sei: Sei, d: bytes, head: byte)
    requires sei.payloadType == 4 && sei.data == PREFIX + [head, 0x00] + d + [0xFF]
    requires head / 0x40 % 2 == 1 && |d| == 3 * (head % 0x20)
    ensures Triplets(sei) == Some(d)
  {
    assert |PREFIX| == 8;
    hide PREFIX;
    assert sei.data[..8] == PREFIX && sei.data[8] == head;
    assert sei.data[10..10 + |d|] == d && sei.data[10 + |d|] == 0xFF;
  }

  lemma FieldBytes(head: byte, rest: bytes)
    ensures ChannelTriplets(head, 0x94, ChannelTriplets(head, 0x1C, rest)) ==
      [head, 0x94, 0x2C, head, 0x94, 0xAE, head, 0x94, 0x2F, head, 0x1C, 0x2C, head, 0x1C, 0xAE, head, 0x1C, 0x2F]
      + rest
  {
  }

  lemma FieldsBytes()
    ensures RESET_608 + SERVICE_TRIPLETS ==
      ChannelTriplets(0xFC, 0x94, ChannelTriplets(0xFC, 0x1C,
        ChannelTriplets(0xFD, 0x94, ChannelTriplets(0xFD, 0x1C, SERVICE_TRIPLETS))))
  {
    hide SERVICE_TRIPLETS, ChannelTriplets;
    FieldBytes(0xFD, SERVICE_TRIPLETS);
    FieldBytes(0xFC, ChannelTriplets(0xFD, 0x94, ChannelTriplets(0xFD, 0x1C, SERVICE_TRIPLETS)));
  }

  /** 18 triplets that erase both memories of every channel and reset two services. */
  lemma ResetResets()
    ensures Triplets(RESET_SEI).Some? && |Triplets(RESET_SEI).value| == 3 * 18 == |RESET_SEI.data| - 11
    ensures WellFormed(Triplets(RESET_SEI).value)
    ensures Effects(RESET_SEI) == RESET
  {
    ResetParts();
    ServiceEffects();
    FieldsBytes();
    hide TripletEffects, WellFormed, ChannelTriplets, SERVICE_TRIPLETS, RESET_608, RESET_SEI, ChannelReset, Triplets;
    var d := ChannelTriplets(0xFD, 0x1C, SERVICE_TRIPLETS);
    var c := ChannelTriplets(0xFD, 0x94, d);
    var b := ChannelTriplets(0xFC, 0x1C, c);
    ChannelEffects(0xFD, 0x1C, SERVICE_TRIPLETS);
    ChannelEffects(0xFD, 0x94, d);
    ChannelEffects(0xFC, 0x1C, c);
    ChannelEffects(0xFC, 0x94, b);
    var s := [Service(1, SERVICE_RESET)] + [Service(2, SERVICE_RESET)];
    ThreeThen(ChannelReset(1, 2), ChannelReset(2, 1), ChannelReset(2, 2), s);
  }
}
