/**
 The parser object that walks over a buffer: a function finds the bounds of the next packet, another
 makes the packet from its bytes.
 */
module BinaryParsing {
  import opened Wrappers
  import opened Words

  /** Where the next packet starts, counted from the cursor, and how long it is. */
  datatype Bounds<+T> = Bounds(start: nat, length: nat, tag: T)

  type Finder<!T> = bytes -> Result<Option<Bounds<T>>>
  type Packer<!T, !P> = (bytes, T) -> Result<P>

  /** Bounds lie inside the buffer, and taking a packet moves the cursor. */
  ghost predicate InBuffer<T>(next: Finder<T>) {
    forall d: bytes :: var r := next(d);
      r.Success? && r.value.Some? ==> 0 < r.value.value.start + r.value.value.length <= |d|
  }

  /** One call of next() on the bytes that are left: the result, and how many bytes it takes. */
  function Next<T, P>(next: Finder<T>, pack: Packer<T, P>, left: bytes): (Result<Option<P>>, nat) {
    if left == [] then (Success(None), 0)
    else
      match next(left)
      case Failure(e) => (Failure(e), 0)
      case Success(None) => (Success(None), 0)
      case Success(Some(b)) =>
        if b.start + b.length > |left| then (Failure(Undefined), 0)
        else
          match pack(left[b.start..b.start + b.length], b.tag)
          case Failure(e) => (Failure(e), b.start + b.length)
          case Success(p) => (Success(Some(p)), b.start + b.length)
  }

  function Prepend<P>(front: seq<P>, r: Result<seq<P>>): Result<seq<P>> {
    match r
    case Failure(e) => Failure(e)
    case Success(ps) => Success(front + ps)
  }

  lemma PrependTwice<P>(a: seq<P>, b: seq<P>, r: Result<seq<P>>)
    ensures Prepend(a, Prepend(b, r)) == Prepend(a + b, r)
    ensures Prepend([], r) == r
  {
    if r.Success? {
      assert a + (b + r.value) == a + b + r.value;
      assert [] + r.value == r.value;
    }
  }

  /** The packets that repeated calls of next() deliver until there are none left. */
  function Packets<T, P>(next: Finder<T>, pack: Packer<T, P>, left: bytes): Result<seq<P>>
    decreases |left|
  {
    var (r, taken) := Next(next, pack, left);
    match r
    case Failure(e) => Failure(e)
    case Success(None) => Success([])
    case Success(Some(p)) =>
      if taken == 0 || taken > |left| then Failure(Undefined)
      else Prepend([p], Packets(next, pack, left[taken..]))
  }

  /** One step of a caller's loop that has delivered the packets done. */
  lemma PacketsStep<T, P>(next: Finder<T>, pack: Packer<T, P>, done: seq<P>, left: bytes)
    ensures var (r, taken) := Next(next, pack, left);
      match r
      case Failure(e) => Packets(next, pack, left) == Failure(e)
      case Success(None) => Prepend(done, Packets(next, pack, left)) == Success(done)
      case Success(Some(p)) =>
        0 < taken <= |left| ==>
          Prepend(done, Packets(next, pack, left)) == Prepend(done + [p], Packets(next, pack, left[taken..]))
  {
    var (r, taken) := Next(next, pack, left);
    if r.Success? && r.value.Some? && 0 < taken <= |left| {
      PrependTwice(done, [r.value.value], Packets(next, pack, left[taken..]));
    }
    assert done + [] == done;
  }

  class Parser<!T, !P> {
    const next: Finder<T>
    const pack: Packer<T, P>
    const data: bytes
    var position: nat

    ghost predicate Valid()
      reads this
    {
      position <= |data| && InBuffer(next)
    }

    function BytesConsumed(): nat
      reads this
    {
      position
    }

    function BytesLeft(): int
      reads this
    {
      |data| - position
    }

    predicate HasNext()
      reads this
    {
      position < |data|
    }

    constructor (next: Finder<T>, pack: Packer<T, P>, data: bytes)
      requires InBuffer(next)
      ensures Valid() && this.next == next && this.pack == pack && this.data == data && position == 0
    {
      this.next := next;
      this.pack := pack;
      this.data := data;
      position := 0;
    }

    /** The cursor moves past the packet before the packet is made, so it moves also when that fails. */
    method NextPacket() returns (r: Result<Option<P>>)
      requires Valid()
      modifies this
      ensures Valid()
      ensures var (spec, taken) := Next(next, pack, old(data[position..]));
        r == spec && position == old(position) + taken
      ensures BytesConsumed() + BytesLeft() == old(BytesConsumed() + BytesLeft())
      ensures r.Success? && r.value.Some? ==> BytesLeft() < old(BytesLeft())
    {
      if !HasNext() {
        return Success(None);
      }
      var left := data[position..];
      var found := next(left);
      if found.Failure? {
        return Failure(found.error);
      }
      if found.value.None? {
        return Success(None);
      }
      var bounds := found.value.value;
      position := position + bounds.start + bounds.length;
      var packed := pack(left[bounds.start..bounds.start + bounds.length], bounds.tag);
      match packed
      case Failure(e) => r := Failure(e);
      case Success(p) => r := Success(Some(p));
    }
  }
}
