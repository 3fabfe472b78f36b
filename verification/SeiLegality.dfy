/** When the SEI NALU is free of start codes and other forbidden patterns: an exact condition on its messages. */
module SeiLegality {
  import opened Words
  import opened Rbsp
  import opened Seis

  /** What may follow two zero bytes. */
  predicate AfterZeros(r: bytes) {
    |r| > 0 ==> r[0] >= 3 && (r[0] == 3 ==> |r| > 1 && r[1] <= 3)
  }

  lemma LegalAtMeans(e: bytes, k: nat)
    requires k + 1 < |e|
    ensures LegalAt(e, k) <==> (e[k] == 0 && e[k + 1] == 0 ==> AfterZeros(e[k + 2..]))
  {
  }

  lemma ShiftLegalAt(a: bytes, r: bytes, k: nat)
    ensures LegalAt(a + r, |a| + k) <==> LegalAt(r, k)
  {
  }

  lemma LegalSuffix(a: bytes, r: bytes)
    requires Legal(a + r)
    ensures Legal(r)
  {
    forall k | 0 <= k < |r|
      ensures LegalAt(r, k)
    {
      ShiftLegalAt(a, r, k);
      assert LegalAt(a + r, |a| + k);
    }
  }

  // ---------- Messages with a payload ----------

  lemma NoZeroPairLegal(e: bytes)
    requires NoZeroPair(e)
    ensures Legal(e)
  {
    forall k | 0 <= k < |e|
      ensures LegalAt(e, k)
    {
      assert k + 1 < |e| ==> e[k + 1 - 1] != 0 || e[k + 1] != 0;
    }
  }

  lemma FullLegal(sei: Sei, r: bytes)
    requires sei.data != []
    ensures Legal(Message(sei) + r) <==> Legal(r)
  {
    HeaderNoZeroPair(sei);
    NoZeroPairLegal(Header(sei));
    EncodeLegal(sei.data, true);
    hide Legal, Header, Escape, NoZeroPair;
    var m := Message(sei);
    LegalConcat(Header(sei), ToEbsp(sei.data, true));
    if Legal(r) {
      LegalConcat(m, r);
    }
    if Legal(m + r) {
      LegalSuffix(m, r);
    }
  }

  // ---------- Messages without ----------

  lemma EmptyMessage(sei: Sei)
    requires sei.data == []
    ensures Message(sei) == Variadic(sei.payloadType) + [0]
  {
  }

  /** An empty message puts zero bytes together in two ways: with its own type, or with the type that follows. */
  lemma EmptyLegal(sei: Sei, r: bytes)
    requires sei.data == []
    ensures Legal(Message(sei) + r) <==>
      && Legal(r)
      && (sei.payloadType == 0 ==> AfterZeros(r))
      && (r != [] && r[0] == 0 ==> AfterZeros(r[1..]))
  {
    var v := Variadic(sei.payloadType);
    EmptyMessage(sei);
    VariadicEnds(sei.payloadType);
    ZeroType(sei.payloadType);
    hide Variadic, Message;
    EmptyLegalFrom(v, r, sei.payloadType == 0);
  }

  lemma ZeroType(t: nat)
    ensures Variadic(t)[|Variadic(t)| - 1] == 0 <==> t == 0
  {
    VariadicEnds(t);
  }

  lemma EmptyLegalFrom(v: bytes, r: bytes, zero: bool)
    requires v != [] && (v[|v| - 1] == 0 <==> zero) && forall i :: 0 <= i < |v| - 1 ==> v[i] == 0xFF
    ensures Legal(v + [0] + r) <==>
      Legal(r) && (zero ==> AfterZeros(r)) && (r != [] && r[0] == 0 ==> AfterZeros(r[1..]))
  {
    var m := v + [0];
    var e, n := m + r, |v|;
    assert e[n - 1] == v[n - 1] && e[n] == 0;
    assert e[n + 1..] == r;
    LegalAtMeans(e, n - 1);
    if r != [] {
      assert e[n + 1] == r[0] && e[n + 2..] == r[1..];
      LegalAtMeans(e, n);
    }
    assert LegalAt(e, n - 1) <==> (zero ==> AfterZeros(r));
    assert LegalAt(e, n) <==> (r != [] && r[0] == 0 ==> AfterZeros(r[1..]));
    hide LegalAt, AfterZeros;
    if Legal(e) {
      LegalSuffix(m, r);
    }
    if Legal(r) && LegalAt(e, n - 1) && LegalAt(e, n) {
      forall k | 0 <= k < |e|
        ensures LegalAt(e, k)
      {
        if k < n - 1 {
          NonZeroLegalAt(e, k);
        } else if k > n {
          ShiftLegalAt(m, r, k - n - 1);
        }
      }
    }
  }

  lemma NonZeroLegalAt(e: bytes, k: nat)
    requires k < |e| && e[k] != 0
    ensures LegalAt(e, k)
  {
  }

  // ---------- Two messages ----------

  /** Read after two zero bytes, the type of a message and what follows it are harmless. */
  predicate TypeHarmless(b: Sei) {
    b.payloadType >= 3 && (b.payloadType == 3 ==> |b.data| <= 3)
  }

  /** Read after two zero bytes, the size of a message and what follows it are harmless. */
  predicate SizeHarmless(b: Sei) {
    |b.data| >= 3 && (|b.data| == 3 ==> b.data[0] <= 3)
  }

  /** The second message makes a forbidden pattern out of the zero size of the first. */
  predicate Clashes(a: Sei, b: Sei) {
    a.data == [] && ((a.payloadType == 0 && !TypeHarmless(b)) || (b.payloadType == 0 && !SizeHarmless(b)))
  }

  lemma FirstByte(n: nat)
    ensures Variadic(n) != [] && Variadic(n)[0] == if n < 255 then n else 0xFF
    ensures n < 255 ==> |Variadic(n)| == 1
  {
  }

  /** The bytes that a message starts with, as far as they can clash. */
  lemma MessageStart(b: Sei, r: bytes)
    ensures var e := Message(b) + r;
      && |e| >= 2
      && (AfterZeros(e) <==> TypeHarmless(b))
      && (e[0] == 0 <==> b.payloadType == 0)
      && (b.payloadType == 0 ==> (AfterZeros(e[1..]) <==> SizeHarmless(b)))
  {
    FirstByte(b.payloadType);
    FirstByte(|b.data|);
    var t, z, d := Variadic(b.payloadType), Variadic(|b.data|), ToEbsp(b.data, true);
    hide Variadic;
    var e := Message(b) + r;
    assert e == t + (z + (d + r));
    if b.payloadType < 255 {
      assert e[1] == z[0] && e[1..] == z + (d + r);
      if |b.data| == 3 {
        FirstOfPayload(b.data);
        assert e[1..][1] == d[0];
      }
    }
  }

  lemma FirstOfPayload(s: bytes)
    requires s != []
    ensures ToEbsp(s, true) != [] && ToEbsp(s, true)[0] == s[0]
  {
    EscapeFirst(s, |s|);
  }

  lemma {:induction false} EscapeFirst(s: bytes, n: nat)
    requires 0 < n <= |s|
    ensures EscapeTo(s, n) != [] && EscapeTo(s, n)[0] == s[0]
    decreases n
  {
    if n > 1 {
      EscapeFirst(s, n - 1);
    }
  }

  // ---------- All messages ----------

  /** The messages written one after the other, from the front. */
  function Body(seis: seq<Sei>): bytes {
    if seis == [] then [] else Message(seis[0]) + Body(seis[1..])
  }

  lemma {:induction false} BodySnoc(seis: seq<Sei>, last: Sei)
    ensures Body(seis + [last]) == Body(seis) + Message(last)
    decreases |seis|
  {
    hide Message;
    if seis == [] {
      assert (seis + [last])[1..] == [];
      assert Body([]) == [];
    } else {
      assert (seis + [last])[1..] == seis[1..] + [last];
      BodySnoc(seis[1..], last);
    }
  }

  lemma {:induction false} BodyIsMessages(seis: seq<Sei>)
    ensures Body(seis) == Messages(seis)
    decreases |seis|
  {
    hide Message;
    if seis != [] {
      var front, last := seis[..|seis| - 1], seis[|seis| - 1];
      BodyIsMessages(front);
      BodySnoc(front, last);
      assert seis == front + [last];
    }
  }

  predicate NoneClash(seis: seq<Sei>) {
    forall i :: 0 <= i < |seis| - 1 ==> !Clashes(seis[i], seis[i + 1])
  }

  lemma NoneClashCons(a: Sei, b: Sei, others: seq<Sei>)
    ensures NoneClash([a, b] + others) <==> !Clashes(a, b) && NoneClash([b] + others)
  {
    hide Clashes;
    var seis, rest := [a, b] + others, [b] + others;
    assert forall i :: 0 <= i < |rest| ==> rest[i] == seis[i + 1];
    if NoneClash(rest) && !Clashes(a, b) {
      forall i | 0 <= i < |seis| - 1
        ensures !Clashes(seis[i], seis[i + 1])
      {
        assert i > 0 ==> seis[i] == rest[i - 1] && seis[i + 1] == rest[i];
      }
    }
    if NoneClash(seis) {
      assert !Clashes(seis[0], seis[1]);
      forall i | 0 <= i < |rest| - 1
        ensures !Clashes(rest[i], rest[i + 1])
      {
        assert !Clashes(seis[i + 1], seis[i + 2]);
      }
    }
  }

  lemma OneLegal(a: Sei)
    ensures Legal(Message(a) + [])
  {
    if a.data == [] {
      EmptyLegal(a, []);
    } else {
      FullLegal(a, []);
    }
  }

  lemma PairLegal(a: Sei, b: Sei, r: bytes)
    ensures Legal(Message(a) + (Message(b) + r)) <==> Legal(Message(b) + r) && !Clashes(a, b)
  {
    hide Legal, Message, TypeHarmless, SizeHarmless, AfterZeros;
    MessageStart(b, r);
    if a.data == [] {
      EmptyLegal(a, Message(b) + r);
    } else {
      FullLegal(a, Message(b) + r);
    }
  }

  lemma {:induction false} BodyLegal(seis: seq<Sei>)
    ensures Legal(Body(seis)) <==> NoneClash(seis)
    decreases |seis|
  {
    hide Legal, Message, Clashes, NoneClash;
    if |seis| <= 1 {
      ShortLegal(seis);
    } else {
      var a, b, others := seis[0], seis[1], seis[2..];
      assert seis == [a, b] + others && seis[1..] == [b] + others && seis[1..][1..] == others;
      BodyLegal(seis[1..]);
      NoneClashCons(a, b, others);
      PairLegal(a, b, Body(others));
    }
  }

  lemma ShortLegal(seis: seq<Sei>)
    requires |seis| <= 1
    ensures Legal(Body(seis)) && NoneClash(seis)
  {
    hide Message;
    if seis != [] {
      OneLegal(seis[0]);
    }
  }

  /**
   For every list of messages: the SEI NALU holds no start code and no other forbidden pattern if and
   only if no message clashes with the empty one before it; and it ends in a zero byte if and only if its
   last message is empty.
   */
  lemma SeiNaluLegal(seis: seq<Sei>)
    ensures Legal(SeiNalu(seis)) <==> NoneClash(seis)
    ensures SeiNalu(seis)[|SeiNalu(seis)| - 1] == 0 <==> seis != [] && seis[|seis| - 1].data == []
  {
    hide Message, Legal, NoneClash;
    BodyIsMessages(seis);
    BodyLegal(seis);
    TypeByteFirst(Body(seis));
    if seis != [] {
      MessageEnd(seis[|seis| - 1]);
    }
  }

  lemma TypeByteFirst(r: bytes)
    ensures Legal([SEI_NALU_TYPE_BYTE] + r) <==> Legal(r)
  {
    var e := [SEI_NALU_TYPE_BYTE] + r;
    NonZeroLegalAt(e, 0);
    hide LegalAt;
    if Legal(r) {
      forall k | 0 <= k < |e|
        ensures LegalAt(e, k)
      {
        if k > 0 {
          ShiftLegalAt([SEI_NALU_TYPE_BYTE], r, k - 1);
        }
      }
    }
    if Legal(e) {
      LegalSuffix([SEI_NALU_TYPE_BYTE], r);
    }
  }

  lemma MessageEnd(sei: Sei)
    ensures Message(sei) != [] && (Message(sei)[|Message(sei)| - 1] == 0 <==> sei.data == [])
  {
    hide Variadic;
    if sei.data == [] {
      EmptyMessage(sei);
    }
  }

  /** An empty message and one of type 0 and size 1 make a start code. */
  lemma EmptyMakesStartCode()
    ensures SeiNalu([Sei(5, []), Sei(0, [7])]) == [6, 5, 0, 0, 1, 7, 0x80]
    ensures !Legal(SeiNalu([Sei(5, []), Sei(0, [7])]))
  {
    var a, b := Sei(5, []), Sei(0, [7]);
    BodyIsMessages([a, b]);
    assert [a, b][1..] == [b] && [b][1..] == [];
    assert Body([b]) == Message(b) + Body([]);
    assert Body([a, b]) == Message(a) + Body([b]);
    EscapeShort([7], 1);
    assert Message(a) == [5, 0] && Message(b) == [0, 1, 7, 0x80];
    hide Message, Messages, Body;
    assert Clashes([a, b][0], [a, b][1]);
    SeiNaluLegal([a, b]);
  }
}
