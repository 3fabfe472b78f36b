/** The queue of metadata that waits for injection: a binary heap kept in a vector. */
module MetadataQueues {
  import opened Wrappers
  import opened Seis

  datatype Entry = Entry(inputId: nat, pts: int, dts: int, order: int, val: Sei)

  /** The heap's comparator: lhs leaves the queue later than rhs. */
  predicate Later(lhs: Entry, rhs: Entry) {
    if lhs.pts == rhs.pts then
      if lhs.inputId == rhs.inputId then lhs.order > rhs.order else lhs.inputId > rhs.inputId
    else lhs.pts > rhs.pts
  }

  /** By time first, then by input, then by order, v comes no later than e. */
  ghost predicate NoLater(v: Entry, e: Entry) {
    v.pts < e.pts
    || (v.pts == e.pts && (v.inputId < e.inputId || (v.inputId == e.inputId && v.order <= e.order)))
  }

  function Parent(j: nat): nat
    requires j > 0
  {
    (j - 1) / 2
  }

  predicate InOrder(q: seq<Entry>, j: nat)
    requires 0 < j < |q|
  {
    !Later(q[Parent(j)], q[j])
  }

  /** The first n elements of the vector form a heap whose front leaves first. */
  predicate IsHeapTo(q: seq<Entry>, n: nat)
    requires n <= |q|
  {
    forall j :: 0 < j < n ==> InOrder(q, j)
  }

  predicate IsHeap(q: seq<Entry>) {
    IsHeapTo(q, |q|)
  }

  lemma {:induction false} FrontIsFirst(q: seq<Entry>, j: nat)
    requires IsHeap(q) && j < |q|
    ensures !Later(q[0], q[j])
    decreases j
  {
    if j > 0 {
      assert InOrder(q, j);
      FrontIsFirst(q, Parent(j));
    }
  }

  function Swap(q: seq<Entry>, i: nat, j: nat): (r: seq<Entry>)
    requires i < |q| && j < |q|
    ensures |r| == |q|
    ensures forall k :: 0 <= k < |q| ==> r[k] == if k == i then q[j] else if k == j then q[i] else q[k]
  {
    q[i := q[j]][j := q[i]]
  }

  lemma SwapPermutes(q: seq<Entry>, i: nat, j: nat)
    requires i < |q| && j < |q|
    ensures multiset(Swap(q, i, j)) == multiset(q)
  {
  }

  // ---------- Sifting ----------

  lemma LaterAsymmetric(a: Entry, b: Entry)
    requires Later(a, b)
    ensures !Later(b, a)
  {
  }

  /** The heap below k is in order except that the element at i may belong further down. */
  predicate Sinking(q: seq<Entry>, k: nat, n: nat, i: nat)
    requires k <= i && n <= |q|
  {
    && (forall j :: 0 < j < n && Parent(j) >= k && Parent(j) != i ==> InOrder(q, j))
    && (k < i < n ==>
          Parent(i) >= k && forall j :: 0 < j < n && Parent(j) == i ==> !Later(q[Parent(i)], q[j]))
  }

  lemma SinkStep(q: seq<Entry>, k: nat, n: nat, i: nat, child: nat)
    requires k <= i < child < n <= |q| && Parent(child) == i && Sinking(q, k, n, i)
    requires Later(q[i], q[child])
    requires forall j :: 0 < j < n && Parent(j) == i ==> !Later(q[child], q[j])
    ensures Sinking(Swap(q, i, child), k, n, child)
  {
    LaterAsymmetric(q[i], q[child]);
    hide Later;
    var q' := Swap(q, i, child);
    forall j | 0 < j < n && Parent(j) >= k && Parent(j) != child
      ensures InOrder(q', j)
    {
      assert Parent(j) != i && j != i ==> InOrder(q, j);
    }
    forall j | 0 < j < n && Parent(j) == child
      ensures !Later(q'[Parent(child)], q'[j])
    {
      assert InOrder(q, j);
    }
  }

  lemma NothingBelow(q: seq<Entry>, n: nat, i: nat, child: nat)
    requires i < child < n <= |q| && !Later(q[i], q[child])
    requires forall j :: 0 < j < n && Parent(j) == i ==> !Later(q[child], q[j])
    ensures forall j :: 0 < j < n && Parent(j) == i ==> !Later(q[i], q[j])
  {
    forall j | 0 < j < n && Parent(j) == i
      ensures !Later(q[i], q[j])
    {
      LaterTransitive(q[i], q[child], q[j]);
    }
  }

  lemma SinkEnd(q: seq<Entry>, k: nat, n: nat, i: nat)
    requires k <= i && n <= |q| && Sinking(q, k, n, i)
    requires forall j :: 0 < j < n && Parent(j) == i ==> !Later(q[i], q[j])
    ensures forall j :: 0 < j < n && Parent(j) >= k ==> InOrder(q, j)
  {
  }

  /** The vector is a heap except that the element at i may belong further up. */
  predicate Rising(q: seq<Entry>, i: nat)
    requires i < |q|
  {
    && (forall j :: 0 < j < |q| && j != i ==> InOrder(q, j))
    && (i > 0 ==> forall j :: 0 < j < |q| && Parent(j) == i ==> !Later(q[Parent(i)], q[j]))
  }

  lemma RiseEnd(q: seq<Entry>, i: nat)
    requires i < |q| && Rising(q, i) && (i > 0 ==> !Later(q[Parent(i)], q[i]))
    ensures IsHeap(q)
  {
  }

  function SmallerChild(q: seq<Entry>, n: nat, i: nat): (child: nat)
    requires 2 * i + 1 < n <= |q|
    ensures i < child < n && Parent(child) == i
  {
    var child := 2 * i + 1;
    if child + 1 < n && Later(q[child], q[child + 1]) then child + 1 else child
  }

  lemma SmallerChildFirst(q: seq<Entry>, n: nat, i: nat)
    requires 2 * i + 1 < n <= |q|
    ensures forall j :: 0 < j < n && Parent(j) == i ==> !Later(q[SmallerChild(q, n, i)], q[j])
  {
  }

  lemma LaterTransitive(a: Entry, b: Entry, c: Entry)
    requires !Later(a, b) && !Later(b, c)
    ensures !Later(a, c)
  {
  }

  lemma RiseStep(q: seq<Entry>, i: nat)
    requires 0 < i < |q| && Rising(q, i) && Later(q[Parent(i)], q[i])
    ensures Rising(Swap(q, i, Parent(i)), Parent(i))
  {
    var p := Parent(i);
    LaterAsymmetric(q[p], q[i]);
    var q' := Swap(q, i, p);
    forall j | 0 < j < |q| && j != p
      ensures InOrder(q', j)
    {
      assert j != i ==> InOrder(q, j);
      if Parent(j) == p && j != i {
        LaterTransitive(q[i], q[p], q[j]);
      }
    }
    if p > 0 {
      forall j | 0 < j < |q| && Parent(j) == p
        ensures !Later(q'[Parent(p)], q'[j])
      {
        assert InOrder(q, p);
        if j != i {
          assert InOrder(q, j);
          LaterTransitive(q[Parent(p)], q[p], q[j]);
        }
      }
    }
  }

  // ---------- Reference: what a query may deliver ----------

  /** m' holds exactly the entries of m that are not before t. */
  ghost predicate KeptFrom(m: multiset<Entry>, m': multiset<Entry>, t: int) {
    forall e: Entry :: m'[e] == if e.pts >= t then m[e] else 0
  }

  ghost predicate InWindow(e: Entry, id: nat, since: int, until: int) {
    e.inputId == id && since <= e.pts < until
  }

  /** No entry of the same input at the same time has a lower order. */
  ghost predicate LeastOrder(m: multiset<Entry>, v: Entry) {
    forall e :: e in m && e.inputId == v.inputId && e.pts == v.pts ==> v.order <= e.order
  }

  ghost predicate Increasing(out: seq<Entry>) {
    forall i, j :: 0 <= i < j < |out| ==> out[i].pts < out[j].pts
  }

  /**
   What pop_all has to deliver from a multiset of entries: in strictly increasing time, one entry of
   least order for each time at which the input has an entry in the window; entries from until on stay.
   */
  ghost predicate PoppedAll(m: multiset<Entry>, id: nat, since: int, until: int, out: seq<Entry>, m': multiset<Entry>) {
    && KeptFrom(m, m', until)
    && Increasing(out)
    && (forall i :: 0 <= i < |out| ==> out[i] in m && InWindow(out[i], id, since, until) && LeastOrder(m, out[i]))
    && (forall e :: e in m && InWindow(e, id, since, until) ==> HasTime(out, e.pts))
  }

  ghost predicate HasTime(out: seq<Entry>, t: int) {
    exists i :: 0 <= i < |out| && out[i].pts == t
  }

  /** What pop has to deliver: the first entry of the window, or nothing if the input has none there. */
  ghost predicate Popped(m: multiset<Entry>, id: nat, since: int, until: int, r: Option<Entry>, m': multiset<Entry>) {
    match r
    case None =>
      KeptFrom(m, m', until) && forall e :: e in m ==> !InWindow(e, id, since, until)
    case Some(v) =>
      && v in m && InWindow(v, id, since, until) && LeastOrder(m, v)
      && (forall e :: e in m && InWindow(e, id, since, until) ==> v.pts <= e.pts)
      && KeptFrom(m, m', v.pts + 1)
  }

  // ---------- The queue ----------

  function Without(q: seq<Entry>, id: nat): seq<Entry> {
    if q == [] then []
    else Without(q[..|q| - 1], id) + (if q[|q| - 1].inputId == id then [] else [q[|q| - 1]])
  }

  class MetadataQueue {
    var q: seq<Entry>

    ghost function Contents(): multiset<Entry>
      reads this
    {
      multiset(q)
    }

    ghost predicate Ordered()
      reads this
    {
      IsHeap(q)
    }

    constructor ()
      ensures Ordered() && Contents() == multiset{} && q == []
    {
      q := [];
    }

    constructor FromList(init: seq<Entry>)
      ensures Ordered() && Contents() == multiset(init)
    {
      q := init;
      new;
      MakeHeap();
    }

    constructor Copy(other: MetadataQueue)
      ensures q == other.q
    {
      q := other.q;
    }

    method MakeHeap()
      modifies this
      ensures Ordered() && Contents() == old(Contents())
    {
      var k := |q| / 2;
      while k > 0
        invariant k <= |q| / 2 && |q| == old(|q|)
        invariant forall j :: 0 < j < |q| && Parent(j) >= k ==> InOrder(q, j)
        invariant Contents() == old(Contents())
      {
        k := k - 1;
        assert Sinking(q, k, |q|, k);
        SiftDown(k, |q|, true);
      }
    }

    /** Moves the element at k down until the heap below it is in order again. */
    method SiftDown(k: nat, n: nat, ghost ordered: bool)
      requires k <= n <= |q|
      requires ordered ==> Sinking(q, k, n, k)
      modifies this
      ensures |q| == old(|q|) && q[n..] == old(q[n..])
      ensures Contents() == old(Contents())
      ensures ordered ==> forall j :: 0 < j < n && Parent(j) >= k ==> InOrder(q, j)
    {
      hide Later, Sinking;
      var i := k;
      while 2 * i + 1 < n
        invariant k <= i <= n && |q| == old(|q|) && q[n..] == old(q[n..])
        invariant Contents() == old(Contents())
        invariant ordered ==> Sinking(q, k, n, i)
        decreases n - i
      {
        var child := SmallerChild(q, n, i);
        SmallerChildFirst(q, n, i);
        if !Later(q[i], q[child]) {
          if ordered {
            NothingBelow(q, n, i, child);
            SinkEnd(q, k, n, i);
          }
          return;
        }
        if ordered {
          SinkStep(q, k, n, i, child);
        }
        SwapPermutes(q, i, child);
        q := Swap(q, i, child);
        i := child;
      }
      if ordered {
        SinkEnd(q, k, n, i);
      }
    }

    /** Moves the last element up to its place. */
    method PushHeap()
      requires |q| > 0
      modifies this
      ensures |q| == old(|q|) && Contents() == old(Contents())
      ensures old(IsHeapTo(q, |q| - 1)) ==> Ordered()
      ensures old(|q| == 1 || !Later(q[Parent(|q| - 1)], q[|q| - 1])) ==> q == old(q)
    {
      var i: nat := |q| - 1;
      ghost var ordered := IsHeapTo(q, |q| - 1);
      ghost var stays := |q| == 1 || !Later(q[Parent(|q| - 1)], q[|q| - 1]);
      assert ordered ==> Rising(q, i);
      hide Later, Rising;
      while i > 0 && Later(q[Parent(i)], q[i])
        invariant i < |q| == old(|q|) && Contents() == old(Contents())
        invariant ordered ==> Rising(q, i)
        invariant stays ==> i == |q| - 1 && q == old(q)
      {
        if ordered {
          RiseStep(q, i);
        }
        SwapPermutes(q, i, Parent(i));
        q := Swap(q, i, Parent(i));
        i := Parent(i);
      }
      if ordered {
        RiseEnd(q, i);
      }
    }

    method Push(value: Entry)
      modifies this
      ensures Contents() == old(Contents()) + multiset{value}
      ensures old(Ordered()) ==> Ordered()
      ensures old(q == [] || !Later(q[Parent(|q|)], value)) ==> q == old(q) + [value]
    {
      q := q + [value];
      assert q[..|q| - 1] == old(q);
      assert old(Ordered()) ==> IsHeapTo(q, |q| - 1) by {
        assert forall j :: 0 < j < |q| - 1 ==> InOrder(q, j) == InOrder(old(q), j);
      }
      PushHeap();
    }

    /** Swaps the front to the back and restores the heap before it. */
    method PopHeap()
      requires |q| > 0
      modifies this
      ensures |q| == old(|q|) && Contents() == old(Contents())
      ensures q[|q| - 1] == old(q[0])
      ensures old(Ordered()) ==> IsHeapTo(q, |q| - 1)
    {
      var n := |q| - 1;
      SwapPermutes(q, 0, n);
      ghost var ordered := Ordered();
      ghost var before := q;
      q := Swap(q, 0, n);
      assert ordered ==> Sinking(q, 0, n, 0) by {
        assert forall j :: 0 < j < n && Parent(j) != 0 ==> InOrder(q, j) == InOrder(before, j);
      }
      SiftDown(0, n, ordered);
      assert q[n] == q[n..][0];
    }

    method PopAny() returns (value: Entry)
      requires |q| > 0
      modifies this
      ensures value == old(q[0]) && |q| == old(|q|) - 1
      ensures Contents() + multiset{value} == old(Contents())
      ensures old(Ordered()) ==> Ordered() && forall e :: e in Contents() ==> !Later(value, e) && NoLater(value, e)
    {
      FrontFirst();
      PopHeap();
      value := q[|q| - 1];
      ghost var before := q;
      q := q[..|q| - 1];
      assert before == q + [value];
      assert forall j :: 0 < j < |q| ==> InOrder(q, j) == InOrder(before, j);
      assert forall e :: e in Contents() ==> e in old(Contents());
    }

    lemma FrontFirst()
      ensures Ordered() ==> forall e :: e in Contents() ==> !Later(q[0], e)
    {
      if Ordered() {
        forall e | e in Contents()
          ensures !Later(q[0], e)
        {
          var j :| 0 <= j < |q| && q[j] == e;
          FrontIsFirst(q, j);
        }
      }
    }

    /**
     One pop. Entries are dropped until one matches; then all entries at its time are dropped. The
     entries taken out are the result and the dropped ones, whatever order the vector is in.
     */
    method Pop(id: nat, since: int, until: int) returns (r: Option<Entry>, ghost dropped: multiset<Entry>)
      modifies this
      ensures Contents() + AsMultiset(r) + dropped == old(Contents())
      ensures old(Ordered()) ==> Ordered() && Popped(old(Contents()), id, since, until, r, Contents())
      ensures r.Some? ==> |q| < old(|q|)
      ensures old(q != [] && q[0].pts >= until) ==> r == None && q == old(q)
    {
      hide Later, IsHeap, Passed, Popped, AsMultiset;
      dropped := multiset{};
      ghost var m, ordered, before := Contents(), Ordered(), q;
      ghost var blocked := q != [] && q[0].pts >= until;
      PassedStart(m, id, since, until);
      while |q| > 0
        invariant Contents() + dropped == m
        invariant ordered ==> Ordered() && Passed(m, Contents(), dropped, id, since, until)
        invariant |q| <= |before| && (blocked ==> q == before)
        decreases |q|
      {
        if q[0].pts >= until {
          if ordered {
            FrontFirst();
            NothingMore(m, Contents(), dropped, id, since, until, q[0]);
          }
          NoneTaken(Contents(), dropped);
          return None, dropped;
        }
        ghost var c := Contents();
        var value := PopAny();
        if value.pts >= since && value.inputId == id {
          ghost var c', d' := DropCollisions(value);
          if ordered {
            Matched(m, c, dropped, id, since, until, value, c', d');
          }
          OneTaken(m, c, dropped, value, c', d');
          dropped := dropped + d';
          return Some(value), dropped;
        }
        if ordered {
          PassOver(m, c, dropped, id, since, until, value, Contents());
        }
        OneDropped(m, c, dropped, value, Contents());
        dropped := dropped + multiset{value};
      }
      if ordered {
        NothingLeft(m, Contents(), dropped, id, since, until);
      }
      NoneTaken(Contents(), dropped);
      return None, dropped;
    }

    /** Drops the entries at the front that are at the time of the value just popped. */
    method DropCollisions(value: Entry) returns (ghost c: multiset<Entry>, ghost d: multiset<Entry>)
      modifies this
      ensures c == Contents() && c + d == old(Contents()) && |q| <= old(|q|)
      ensures forall e :: e in d ==> e.pts == value.pts
      ensures old(Ordered()) && (forall e :: e in old(Contents()) ==> !Later(value, e)) ==>
        Ordered() && forall e :: e in c ==> e.pts > value.pts
    {
      hide IsHeap;
      d := multiset{};
      ghost var m, ordered := Contents(), Ordered();
      while |q| > 0 && q[0].pts == value.pts
        invariant Contents() + d == m && |q| <= old(|q|)
        invariant forall e :: e in d ==> e.pts == value.pts
        invariant ordered ==> Ordered()
        decreases |q|
      {
        var v := PopAny();
        d := d + multiset{v};
      }
      c := Contents();
      FrontFirst();
      if ordered && q != [] {
        Beyond(m, c, value, q[0]);
      }
    }

    /** Pops until nothing is found. */
    method PopAll(id: nat, since: int, until: int) returns (out: seq<Entry>, ghost dropped: multiset<Entry>)
      modifies this
      ensures Contents() + multiset(out) + dropped == old(Contents())
      ensures old(Ordered()) ==> Ordered() && PoppedAll(old(Contents()), id, since, until, out, Contents())
      ensures old(q != [] && q[0].pts >= until) ==> out == [] && q == old(q)
    {
      hide Later, IsHeap, AsMultiset, Popped, PoppedAll, PoppedSoFar;
      out, dropped := [], multiset{};
      ghost var m, ordered, before := Contents(), Ordered(), q;
      ghost var blocked := q != [] && q[0].pts >= until;
      NothingCollected(m);
      PopStart(m, id, since, until);
      var more := true;
      while more
        invariant Contents() + multiset(out) + dropped == m
        invariant ordered ==> Ordered()
        invariant ordered && more ==> PoppedSoFar(m, id, since, until, out, Contents())
        invariant ordered && !more ==> PoppedAll(m, id, since, until, out, Contents())
        invariant blocked ==> out == [] && q == before
        decreases more, |q|
      {
        ghost var c := Contents();
        var r, d := Pop(id, since, until);
        Collected(m, c, out, dropped, r, Contents(), d);
        dropped := dropped + d;
        match r {
          case None =>
            if ordered {
              PopLast(m, c, id, since, until, out, Contents());
            }
            more := false;
          case Some(v) =>
            if ordered {
              PopNext(m, c, id, since, until, out, v, Contents());
            }
            out := out + [v];
        }
      }
    }

    /** Removes the entries of one input in place; the others keep their relative order. */
    method DropId(id: nat) returns (count: nat)
      modifies this
      ensures q == Without(old(q), id)
      ensures count == |old(q)| - |q|
    {
      ghost var all := q;
      var tail, i := 0, 0;
      while i < |q|
        invariant tail <= i <= |q| == |all|
        invariant q[..tail] == Without(all[..i], id)
        invariant q[i..] == all[i..]
      {
        WithoutStep(all, i, id);
        assert q[i] == q[i..][0] == all[i..][0];
        if q[i].inputId != id {
          ghost var before := q;
          q := q[tail := q[i]];
          assert q[..tail + 1] == before[..tail] + [before[i]];
          tail := tail + 1;
        }
        assert all[i + 1..] == all[i..][1..];
        i := i + 1;
      }
      assert all[..i] == all;
      count := |q| - tail;
      q := q[..tail];
    }
  }

  // ---------- Proof steps of the queries ----------

  ghost function AsMultiset(r: Option<Entry>): multiset<Entry> {
    match r
    case None => multiset{}
    case Some(v) => multiset{v}
  }

  lemma NothingCollected(m: multiset<Entry>)
    ensures var none: seq<Entry> := [];
      m + multiset(none) + multiset{} == m
  {
  }

  /** One more pop moves its result to those collected, and what it dropped to those dropped. */
  lemma Collected(m: multiset<Entry>, c: multiset<Entry>, out: seq<Entry>, dropped: multiset<Entry>,
                  r: Option<Entry>, c': multiset<Entry>, d: multiset<Entry>)
    requires c + multiset(out) + dropped == m && c' + AsMultiset(r) + d == c
    ensures r.None? ==> c' + multiset(out) + (dropped + d) == m
    ensures r.Some? ==> c' + multiset(out + [r.value]) + (dropped + d) == m
  {
    if r.Some? {
      assert multiset(out + [r.value]) == multiset(out) + multiset{r.value};
    }
  }

  lemma PopStart(m: multiset<Entry>, id: nat, since: int, until: int)
    ensures PoppedSoFar(m, id, since, until, [], m)
  {
  }

  lemma NoneTaken(c: multiset<Entry>, dropped: multiset<Entry>)
    ensures c + AsMultiset(None) + dropped == c + dropped
  {
  }

  lemma OneDropped(m: multiset<Entry>, c: multiset<Entry>, dropped: multiset<Entry>, v: Entry, c': multiset<Entry>)
    requires c + dropped == m && c' + multiset{v} == c
    ensures c' + (dropped + multiset{v}) == m
  {
  }

  lemma OneTaken(m: multiset<Entry>, c: multiset<Entry>, dropped: multiset<Entry>, v: Entry,
                 c': multiset<Entry>, d: multiset<Entry>)
    requires c + dropped == m && c' + d + multiset{v} == c
    ensures c' + AsMultiset(Some(v)) + (dropped + d) == m
  {
  }

  lemma Beyond(m: multiset<Entry>, c: multiset<Entry>, value: Entry, front: Entry)
    requires c <= m && front in c && front.pts != value.pts && forall e :: e in c ==> !Later(front, e)
    ensures (forall e :: e in m ==> !Later(value, e)) ==> forall e :: e in c ==> e.pts > value.pts
  {
    assert front in m;
  }

  /** What has been dropped so far is before until, does not match and is not later than what is left. */
  ghost predicate Passed(m: multiset<Entry>, c: multiset<Entry>, dropped: multiset<Entry>,
                         id: nat, since: int, until: int) {
    && c + dropped == m
    && (forall e :: e in dropped ==> e.pts < until && !InWindow(e, id, since, until))
    && (forall d, e :: d in dropped && e in c ==> d.pts <= e.pts)
  }

  lemma PassedStart(m: multiset<Entry>, id: nat, since: int, until: int)
    ensures Passed(m, m, multiset{}, id, since, until)
  {
  }

  lemma NothingLeft(m: multiset<Entry>, c: multiset<Entry>, dropped: multiset<Entry>, id: nat, since: int, until: int)
    requires Passed(m, c, dropped, id, since, until) && c == multiset{}
    ensures Popped(m, id, since, until, None, c)
  {
    assert dropped == m;
  }

  lemma NothingMore(m: multiset<Entry>, c: multiset<Entry>, dropped: multiset<Entry>,
                    id: nat, since: int, until: int, front: Entry)
    requires Passed(m, c, dropped, id, since, until)
    requires front.pts >= until && forall e :: e in c ==> !Later(front, e)
    ensures Popped(m, id, since, until, None, c)
  {
    forall e: Entry
      ensures c[e] == if e.pts >= until then m[e] else 0
      ensures e in m ==> !InWindow(e, id, since, until)
    {
      assert m[e] == c[e] + dropped[e];
      assert e in c ==> e.pts >= until;
      assert e in dropped ==> e.pts < until && !InWindow(e, id, since, until);
    }
  }

  lemma PassOver(m: multiset<Entry>, c: multiset<Entry>, dropped: multiset<Entry>,
                 id: nat, since: int, until: int, v: Entry, c': multiset<Entry>)
    requires Passed(m, c, dropped, id, since, until)
    requires c' + multiset{v} == c && v.pts < until && !InWindow(v, id, since, until)
    requires forall e :: e in c' ==> !Later(v, e)
    ensures Passed(m, c', dropped + multiset{v}, id, since, until)
  {
    assert forall e :: e in c' ==> e in c;
    assert v in c;
  }

  lemma Matched(m: multiset<Entry>, c: multiset<Entry>, dropped: multiset<Entry>,
                id: nat, since: int, until: int, v: Entry, c': multiset<Entry>, d: multiset<Entry>)
    requires Passed(m, c, dropped, id, since, until)
    requires c' + d + multiset{v} == c && InWindow(v, id, since, until)
    requires forall e :: e in c' + d ==> !Later(v, e)
    requires (forall e :: e in d ==> e.pts == v.pts) && (forall e :: e in c' ==> e.pts > v.pts)
    ensures Popped(m, id, since, until, Some(v), c')
  {
    assert v in c;
    forall e: Entry
      ensures c'[e] == if e.pts >= v.pts + 1 then m[e] else 0
      ensures e in m && e.inputId == id && e.pts == v.pts ==> v.order <= e.order
      ensures e in m && InWindow(e, id, since, until) ==> v.pts <= e.pts
    {
      assert m[e] == c'[e] + d[e] + multiset{v}[e] + dropped[e];
      assert e in dropped ==> e.pts <= v.pts;
    }
  }

  /** After some pops: out is what pop_all delivers for the times up to its last, and later entries are left. */
  ghost predicate PoppedSoFar(m: multiset<Entry>, id: nat, since: int, until: int,
                              out: seq<Entry>, c: multiset<Entry>) {
    if out == [] then c == m
    else
      var last := out[|out| - 1].pts;
      && last < until
      && PoppedAll(m, id, since, last + 1, out, c)
  }

  lemma PopNextKept(m: multiset<Entry>, c: multiset<Entry>, id: nat, since: int, until: int,
                    out: seq<Entry>, v: Entry, c': multiset<Entry>)
    requires PoppedSoFar(m, id, since, until, out, c) && Popped(c, id, since, until, Some(v), c')
    ensures KeptFrom(m, c', v.pts + 1)
    ensures v in m && LeastOrder(m, v) && InWindow(v, id, since, until)
    ensures out != [] ==> out[|out| - 1].pts < v.pts
  {
    assert c[v] > 0;
    forall e: Entry
      ensures c'[e] == if e.pts >= v.pts + 1 then m[e] else 0
      ensures e in m && e.pts == v.pts ==> e in c
    {
      assert c[e] > 0 || c[e] == 0;
    }
  }

  /** Every matching time up to the new entry is the time of an entry that has been delivered. */
  lemma PopNextTimes(m: multiset<Entry>, c: multiset<Entry>, id: nat, since: int, until: int,
                     out: seq<Entry>, v: Entry, c': multiset<Entry>, e: Entry)
    requires PoppedSoFar(m, id, since, until, out, c) && Popped(c, id, since, until, Some(v), c')
    requires e in m && InWindow(e, id, since, v.pts + 1)
    ensures HasTime(out + [v], e.pts)
  {
    var out' := out + [v];
    if out != [] && e.pts <= out[|out| - 1].pts {
      assert InWindow(e, id, since, out[|out| - 1].pts + 1);
      var i :| 0 <= i < |out| && out[i].pts == e.pts;
      assert out'[i].pts == e.pts;
    } else {
      assert c[e] == m[e];
      assert e in c && InWindow(e, id, since, until);
      assert out'[|out|].pts == e.pts;
    }
  }

  lemma PopNext(m: multiset<Entry>, c: multiset<Entry>, id: nat, since: int, until: int,
                out: seq<Entry>, v: Entry, c': multiset<Entry>)
    requires PoppedSoFar(m, id, since, until, out, c) && Popped(c, id, since, until, Some(v), c')
    ensures PoppedSoFar(m, id, since, until, out + [v], c')
  {
    hide HasTime, KeptFrom, LeastOrder, Popped;
    var out' := out + [v];
    PopNextKept(m, c, id, since, until, out, v, c');
    forall e | e in m && InWindow(e, id, since, v.pts + 1)
      ensures HasTime(out', e.pts)
    {
      PopNextTimes(m, c, id, since, until, out, v, c', e);
    }
    assert PoppedAll(m, id, since, v.pts + 1, out', c');
  }

  lemma PopLast(m: multiset<Entry>, c: multiset<Entry>, id: nat, since: int, until: int,
                out: seq<Entry>, c': multiset<Entry>)
    requires PoppedSoFar(m, id, since, until, out, c) && Popped(c, id, since, until, None, c')
    ensures PoppedAll(m, id, since, until, out, c')
  {
    forall e: Entry
      ensures c'[e] == if e.pts >= until then m[e] else 0
    {
      assert c[e] > 0 || c[e] == 0;
    }
    forall e | e in m && InWindow(e, id, since, until)
      ensures HasTime(out, e.pts)
    {
      if out != [] && e.pts <= out[|out| - 1].pts {
        assert InWindow(e, id, since, out[|out| - 1].pts + 1);
      }
    }
  }

  lemma WithoutStep(q: seq<Entry>, i: nat, id: nat)
    requires i < |q|
    ensures Without(q[..i + 1], id) == Without(q[..i], id) + (if q[i].inputId == id then [] else [q[i]])
  {
    assert q[..i + 1][..i] == q[..i];
  }

  // ---------- What follows from the reference ----------

  /** drop_id removes exactly the entries of its input. */
  lemma {:induction false} WithoutContents(q: seq<Entry>, id: nat)
    ensures forall e: Entry :: multiset(Without(q, id))[e] == if e.inputId == id then 0 else multiset(q)[e]
    decreases |q|
  {
    if q != [] {
      var front, last := q[..|q| - 1], q[|q| - 1];
      WithoutContents(front, id);
      assert q == front + [last];
    }
  }

  const ANY_PAYLOAD := Sei(USER_DATA_REGISTERED, [181])

  /** An entry of an input that ends, and two of another, pushed in this order. */
  const GONE := Entry(9, 0, 0, 0, ANY_PAYLOAD)
  const LATE := Entry(1, 5, 5, 0, ANY_PAYLOAD)
  const SOON := Entry(1, 2, 2, 0, ANY_PAYLOAD)

  lemma WithoutGone()
    ensures Without([GONE, LATE, SOON], GONE.inputId) == [LATE, SOON]
  {
    var q := [GONE, LATE, SOON];
    WithoutStep(q, 0, 9);
    WithoutStep(q, 1, 9);
    WithoutStep(q, 2, 9);
    assert q[..3] == q;
  }

  /** After drop_id the vector may be no heap. */
  lemma DropIdBreaksOrder()
    ensures exists q: seq<Entry>, id: nat :: IsHeap(q) && !IsHeap(Without(q, id))
  {
    var q := [GONE, LATE, SOON];
    WithoutGone();
    assert !InOrder([LATE, SOON], 1);
    assert IsHeap(q) && !IsHeap(Without(q, 9));
  }

  /** A query may then miss an entry of its window: three pushes, the end of an input, and the query. */
  method MissedEntry() returns (out: seq<Entry>, left: seq<Entry>)
    ensures out == [] && SOON in left && InWindow(SOON, 1, 0, 4)
  {
    assert !Later(GONE, LATE) && !Later(GONE, SOON) && Parent(1) == 0 && Parent(2) == 0;
    WithoutGone();
    assert LATE.pts == 5 && InWindow(SOON, 1, 0, 4);
    hide Later, Parent, IsHeap, Without, PoppedAll, InWindow;
    var queue := new MetadataQueue();
    queue.Push(GONE);
    queue.Push(LATE);
    queue.Push(SOON);
    assert queue.q == [GONE, LATE, SOON];
    var count := queue.DropId(9);
    ghost var dropped;
    out, dropped := queue.PopAll(1, 0, 4);
    left := queue.q;
  }

  /** Two answers that both meet the reference agree in their times, inputs and orders. */
  lemma PoppedAllDetermined(m: multiset<Entry>, id: nat, since: int, until: int,
                            a: seq<Entry>, a': multiset<Entry>, b: seq<Entry>, b': multiset<Entry>)
    requires PoppedAll(m, id, since, until, a, a') && PoppedAll(m, id, since, until, b, b')
    ensures a' == b' && |a| == |b|
    ensures forall i :: 0 <= i < |a| ==> a[i].pts == b[i].pts && a[i].order == b[i].order
    ensures forall i :: 0 <= i < |a| ==> a[i].inputId == b[i].inputId == id
  {
    SameTimes(m, id, since, until, a, a', b, b', 0);
    forall i | 0 <= i < |a|
      ensures a[i].order == b[i].order
    {
      assert a[i] in m && b[i] in m;
    }
  }

  /** Where the answers agree before position k, the other one goes on, and not later. */
  lemma NextTime(m: multiset<Entry>, id: nat, since: int, until: int,
                 a: seq<Entry>, a': multiset<Entry>, b: seq<Entry>, b': multiset<Entry>, k: nat)
    requires PoppedAll(m, id, since, until, a, a') && PoppedAll(m, id, since, until, b, b')
    requires k < |a| && k <= |b| && forall i :: 0 <= i < k ==> a[i].pts == b[i].pts
    ensures k < |b| && b[k].pts <= a[k].pts
  {
    hide KeptFrom, LeastOrder, InWindow;
    assert a[k] in m && InWindow(a[k], id, since, until);
    assert HasTime(b, a[k].pts);
    var j :| 0 <= j < |b| && b[j].pts == a[k].pts;
    assert k < j ==> b[k].pts < b[j].pts;
  }

  lemma {:induction false} SameTimes(m: multiset<Entry>, id: nat, since: int, until: int,
                                     a: seq<Entry>, a': multiset<Entry>, b: seq<Entry>, b': multiset<Entry>, k: nat)
    requires PoppedAll(m, id, since, until, a, a') && PoppedAll(m, id, since, until, b, b')
    requires k <= |a| && k <= |b| && forall i :: 0 <= i < k ==> a[i].pts == b[i].pts
    ensures |a| == |b| && forall i :: 0 <= i < |a| ==> a[i].pts == b[i].pts
    decreases |a| - k
  {
    hide PoppedAll;
    if k < |a| {
      NextTime(m, id, since, until, a, a', b, b', k);
      NextTime(m, id, since, until, b, b', a, a', k);
      SameTimes(m, id, since, until, a, a', b, b', k + 1);
    } else if k < |b| {
      NextTime(m, id, since, until, b, b', a, a', k);
    }
  }
}
