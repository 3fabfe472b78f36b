/**
 Injection as a state machine: entries are pushed, inputs are selected, packets query the queue with
 contiguous half-open windows. What holds over whole runs.
 */
module InjectionRuns {
  import opened Wrappers
  import opened MetadataQueues

  /** Inputs that extract metadata, and the virtual input that only issues resets. */
  datatype Input = User(id: nat) | Clear(id: nat)

  datatype Event =
    | Push(entry: Entry)
    | Select(input: Input)
    | DropId(id: nat)
    | Packet(pts: int) // rescaled and adjusted

  /** ordered: the queue's vector is in heap order. */
  datatype State = State(queue: multiset<Entry>, ordered: bool, prevPts: int, current: Input)

  /** What one packet takes from the queue: nothing while the current input is the clear input. */
  ghost predicate Queried(s: State, until: int, left: multiset<Entry>, popped: seq<Entry>, dropped: multiset<Entry>) {
    match s.current
    case Clear(_) => popped == [] && dropped == multiset{} && left == s.queue
    case User(id) =>
      && left + multiset(popped) + dropped == s.queue
      && (s.ordered ==> PoppedAll(s.queue, id, s.prevPts, until, popped, left))
  }

  ghost predicate Step(s: State, ev: Event, s': State, popped: seq<Entry>, dropped: multiset<Entry>) {
    match ev
    case Push(e) =>
      && popped == [] && dropped == multiset{}
      && s'.queue == s.queue + multiset{e} && (s.ordered ==> s'.ordered)
      && s'.prevPts == s.prevPts && s'.current == s.current
    case Select(input) =>
      popped == [] && dropped == multiset{} && s' == s.(current := input)
    case DropId(id) =>
      && popped == [] && s'.queue + dropped == s.queue
      && (forall e: Entry :: s'.queue[e] == if e.inputId == id then 0 else s.queue[e])
      && s'.prevPts == s.prevPts && s'.current == s.current
    case Packet(pts) =>
      && Queried(s, pts + 1, s'.queue, popped, dropped)
      && (s.ordered ==> s'.ordered)
      && s'.prevPts == pts + 1 && s'.current == s.current
  }

  datatype Run = Run(states: seq<State>, events: seq<Event>, popped: seq<seq<Entry>>, dropped: seq<multiset<Entry>>) {
    ghost predicate Shaped() {
      |states| == |events| + 1 && |popped| == |dropped| == |events|
    }

    ghost predicate StepAt(i: nat)
      requires Shaped() && i < |events|
    {
      Step(states[i], events[i], states[i + 1], popped[i], dropped[i])
    }

    ghost predicate Valid() {
      Shaped() && forall i :: 0 <= i < |events| ==> StepAt(i)
    }

    /** Packets do not go back in time, and no input is dropped while the run lasts. */
    ghost predicate Regular() {
      && Valid()
      && states[0].ordered
      && (forall i :: 0 <= i < |events| ==> !events[i].DropId?)
      && (forall i :: 0 <= i < |events| && events[i].Packet? ==> states[i].prevPts <= events[i].pts + 1)
    }
  }

  // ---------- Conservation ----------

  function Pushed(events: seq<Event>, n: nat): multiset<Entry>
    requires n <= |events|
  {
    if n == 0 then multiset{}
    else Pushed(events, n - 1) + PushedAt(events[n - 1])
  }

  function Emitted(popped: seq<seq<Entry>>, n: nat): multiset<Entry>
    requires n <= |popped|
  {
    if n == 0 then multiset{} else Emitted(popped, n - 1) + multiset(popped[n - 1])
  }

  function Dropped(dropped: seq<multiset<Entry>>, n: nat): multiset<Entry>
    requires n <= |dropped|
  {
    if n == 0 then multiset{} else Dropped(dropped, n - 1) + dropped[n - 1]
  }

  function PushedAt(event: Event): multiset<Entry> {
    match event
    case Push(e) => multiset{e}
    case _ => multiset{}
  }

  lemma StepConserves(run: Run, j: nat)
    requires run.Valid() && j < |run.events|
    ensures run.states[j + 1].queue + multiset(run.popped[j]) + run.dropped[j] ==
      run.states[j].queue + PushedAt(run.events[j])
  {
    assert run.StepAt(j);
  }

  lemma {:induction false} Counts(run: Run, n: nat, e: Entry)
    requires run.Valid() && n <= |run.events|
    ensures run.states[n].queue[e] + Emitted(run.popped, n)[e] + Dropped(run.dropped, n)[e] ==
      run.states[0].queue[e] + Pushed(run.events, n)[e]
  {
    hide PushedAt, Step;
    if n > 0 {
      Counts(run, n - 1, e);
      StepConserves(run, n - 1);
      assert (run.states[n].queue + multiset(run.popped[n - 1]) + run.dropped[n - 1])[e] ==
             (run.states[n - 1].queue + PushedAt(run.events[n - 1]))[e];
    }
  }

  /**
   In any run, even with time going backwards or inputs being dropped: every entry that was there or
   was pushed has been emitted once, dropped once, or is still queued.
   */
  lemma Conservation(run: Run, n: nat)
    requires run.Valid() && n <= |run.events|
    ensures run.states[n].queue + Emitted(run.popped, n) + Dropped(run.dropped, n) ==
      run.states[0].queue + Pushed(run.events, n)
  {
    hide Pushed, Emitted, Dropped, Step;
    forall e: Entry
      ensures (run.states[n].queue + Emitted(run.popped, n) + Dropped(run.dropped, n))[e] ==
              (run.states[0].queue + Pushed(run.events, n))[e]
    {
      Counts(run, n, e);
    }
  }

  // ---------- Windows ----------

  /** The packet at step k asks for a window that contains time t. */
  ghost predicate Covers(run: Run, k: nat, t: int)
    requires run.Shaped()
  {
    k < |run.events| && run.events[k].Packet? && run.states[k].prevPts <= t <= run.events[k].pts
  }

  lemma {:induction false} WindowsAscend(run: Run, i: nat, j: nat)
    requires run.Regular() && i <= j <= |run.events|
    ensures run.states[i].prevPts <= run.states[j].prevPts
    ensures run.states[j].ordered
    decreases j
  {
    if i < j {
      WindowsAscend(run, i, j - 1);
      assert run.StepAt(j - 1);
    } else if j > 0 {
      WindowsAscend(run, j - 1, j - 1);
      assert run.StepAt(j - 1);
    }
  }

  /** Nothing but packets moves the window. */
  lemma {:induction false} WindowKept(run: Run, n: nat)
    requires run.Valid() && n <= |run.events| && forall i :: 0 <= i < n ==> !run.events[i].Packet?
    ensures run.states[n].prevPts == run.states[0].prevPts
  {
    if n > 0 {
      WindowKept(run, n - 1);
      assert run.StepAt(n - 1);
    }
  }

  /** What a step emits lies in its own window. */
  lemma EmittedInWindow(run: Run, j: nat, e: Entry)
    requires run.Regular() && j < |run.events| && e in run.popped[j]
    ensures Covers(run, j, e.pts) && run.states[j].current == User(e.inputId)
    ensures e in run.states[j].queue && e.pts < run.states[j + 1].prevPts
  {
    WindowsAscend(run, j, j);
    assert run.StepAt(j);
    var i :| 0 <= i < |run.popped[j]| && run.popped[j][i] == e;
  }

  /** Over a whole regular run entries are emitted in strictly increasing time. */
  lemma EmittedInOrder(run: Run, j: nat, l: nat, d: Entry, e: Entry)
    requires run.Regular() && j < l < |run.events| && d in run.popped[j] && e in run.popped[l]
    ensures d.pts < e.pts
  {
    EmittedInWindow(run, j, d);
    EmittedInWindow(run, l, e);
    WindowsAscend(run, j + 1, l);
  }

  // ---------- One entry ----------

  /** e is pushed at step i, and it is the only entry of its input at its time in the whole run. */
  ghost predicate OnlyPush(run: Run, i: nat, e: Entry)
    requires run.Shaped()
  {
    && i < |run.events| && run.events[i] == Push(e)
    && (forall j :: 0 <= j < |run.events| && j != i && run.events[j].Push? ==> !SameSlot(run.events[j].entry, e))
    && (forall f :: f in run.states[0].queue ==> !SameSlot(f, e))
  }

  ghost predicate SameSlot(f: Entry, e: Entry) {
    f.inputId == e.inputId && f.pts == e.pts
  }

  lemma {:induction false} AbsentBefore(run: Run, i: nat, e: Entry, j: nat, f: Entry)
    requires run.Regular() && OnlyPush(run, i, e) && j <= i && SameSlot(f, e)
    ensures f !in run.states[j].queue
    decreases j
  {
    if j > 0 {
      AbsentBefore(run, i, e, j - 1, f);
      if f in run.states[j].queue {
        StepSubset(run, j - 1, f);
      }
    }
  }

  lemma StepSubset(run: Run, j: nat, f: Entry)
    requires run.Regular() && j < |run.events| && f in run.states[j + 1].queue
    ensures f in run.states[j].queue || run.events[j] == Push(f)
  {
    assert run.StepAt(j);
    var s, s' := run.states[j].queue, run.states[j + 1].queue;
    if run.events[j].Packet? && run.states[j].current.User? {
      assert s[f] == s'[f] + multiset(run.popped[j])[f] + run.dropped[j][f];
    }
  }

  /** A step other than its push changes nothing for an entry whose time the windows have not reached. */
  lemma StepKeeps(run: Run, j: nat, e: Entry)
    requires run.Regular() && j < |run.events| && run.events[j] != Push(e)
    requires run.states[j + 1].prevPts <= e.pts
    ensures run.states[j + 1].queue[e] == run.states[j].queue[e]
  {
    WindowsAscend(run, j, j);
    assert run.StepAt(j);
  }

  /** After its push the entry waits, alone in its slot, until a window reaches its time. */
  lemma {:induction false} WaitsInQueue(run: Run, i: nat, e: Entry, j: nat)
    requires run.Regular() && OnlyPush(run, i, e) && i < j <= |run.events| && run.states[j].prevPts <= e.pts
    ensures run.states[j].queue[e] == 1
    ensures forall f :: f in run.states[j].queue && SameSlot(f, e) ==> f == e
    decreases j
  {
    assert run.StepAt(j - 1);
    if j == i + 1 {
      forall f | SameSlot(f, e)
        ensures f !in run.states[i].queue
      {
        AbsentBefore(run, i, e, i, f);
      }
    } else {
      WindowsAscend(run, j - 1, j);
      WaitsInQueue(run, i, e, j - 1);
      StepKeeps(run, j - 1, e);
      forall f | f in run.states[j].queue && SameSlot(f, e)
        ensures f == e
      {
        StepSubset(run, j - 1, f);
      }
    }
  }

  /** Steps whose window does not contain the entry's time do not emit it, nor do steps before its push. */
  lemma NotElsewhere(run: Run, i: nat, e: Entry, j: nat)
    requires run.Regular() && OnlyPush(run, i, e) && j < |run.events|
    requires j <= i || !Covers(run, j, e.pts)
    ensures e !in run.popped[j]
  {
    if e in run.popped[j] {
      EmittedInWindow(run, j, e);
      if j <= i {
        AbsentBefore(run, i, e, j, e);
      }
    }
  }

  /** An entry that is alone in its slot is popped once from the window it lies in. */
  lemma PoppedOnce(m: multiset<Entry>, since: int, until: int, out: seq<Entry>, m': multiset<Entry>, e: Entry)
    requires PoppedAll(m, e.inputId, since, until, out, m')
    requires e in m && since <= e.pts < until && forall f :: f in m && SameSlot(f, e) ==> f == e
    ensures multiset(out)[e] == 1
  {
    assert InWindow(e, e.inputId, since, until);
    var x :| 0 <= x < |out| && out[x].pts == e.pts;
    assert SameSlot(out[x], e) && out[x] == e;
    OnceInIncreasing(out, x);
  }

  /** The step whose window contains the entry's time emits it just when the current input is its own. */
  lemma EmittedAtWindow(run: Run, i: nat, e: Entry, k: nat)
    requires run.Regular() && OnlyPush(run, i, e) && i < k && Covers(run, k, e.pts)
    ensures multiset(run.popped[k])[e] == if run.states[k].current == User(e.inputId) then 1 else 0
  {
    hide PoppedAll, SameSlot;
    WindowsAscend(run, k, k);
    WaitsInQueue(run, i, e, k);
    var s, s' := run.states[k], run.states[k + 1];
    if s.current == User(e.inputId) {
      assert run.StepAt(k);
      PoppedOnce(s.queue, s.prevPts, run.events[k].pts + 1, run.popped[k], s'.queue, e);
    } else if e in run.popped[k] {
      EmittedInWindow(run, k, e);
    }
  }

  lemma {:induction false} OnceInIncreasing(out: seq<Entry>, x: nat)
    requires Increasing(out) && x < |out|
    ensures multiset(out)[out[x]] == 1
  {
    var e := out[x];
    assert out == out[..x] + [e] + out[x + 1..];
    assert e !in out[..x] && e !in out[x + 1..];
  }

  lemma {:induction false} EmittedOnlyAt(popped: seq<seq<Entry>>, e: Entry, k: nat, n: nat)
    requires n <= |popped| && forall j :: 0 <= j < n && j != k ==> e !in popped[j]
    ensures Emitted(popped, n)[e] == if k < n then multiset(popped[k])[e] else 0
  {
    if n > 0 {
      EmittedOnlyAt(popped, e, k, n - 1);
    }
  }

  lemma OneWindow(run: Run, j: nat, k: nat, t: int)
    requires run.Regular() && Covers(run, j, t) && Covers(run, k, t)
    ensures j == k
  {
    if j < k {
      WindowBehind(run, j, k, t);
    } else if k < j {
      WindowBehind(run, k, j, t);
    }
  }

  lemma WindowBehind(run: Run, j: nat, k: nat, t: int)
    requires run.Regular() && j < k <= |run.events| && Covers(run, j, t)
    ensures t < run.states[k].prevPts
  {
    assert run.StepAt(j);
    WindowsAscend(run, j + 1, k);
  }

  /**
   The whole run: an entry that is the only one of its input at its time is handed to the output
   exactly once if a window that contains its time is queried after its push while its own input is
   current, and never otherwise: not if it comes after its window, not if another input or the clear
   input is current then, however long that lasts.
   */
  lemma HandedOutExactlyOnce(run: Run, i: nat, e: Entry)
    requires run.Regular() && OnlyPush(run, i, e)
    ensures Emitted(run.popped, |run.events|)[e] ==
      if exists k :: i < k && Covers(run, k, e.pts) && run.states[k].current == User(e.inputId) then 1 else 0
  {
    var n := |run.events|;
    if k :| i < k && Covers(run, k, e.pts) {
      forall j | 0 <= j < n && j != k
        ensures e !in run.popped[j]
      {
        if j > i && Covers(run, j, e.pts) {
          OneWindow(run, j, k, e.pts);
        }
        NotElsewhere(run, i, e, j);
      }
      EmittedOnlyAt(run.popped, e, k, n);
      EmittedAtWindow(run, i, e, k);
      forall l | i < l && Covers(run, l, e.pts)
        ensures l == k
      {
        OneWindow(run, l, k, e.pts);
      }
    } else {
      forall j | 0 <= j < n
        ensures e !in run.popped[j]
      {
        NotElsewhere(run, i, e, j);
      }
      EmittedOnlyAt(run.popped, e, n, n);
    }
  }

  // ---------- One slot ----------

  ghost predicate InSlot(f: Entry, id: nat, t: int) {
    f.inputId == id && f.pts == t
  }

  ghost predicate SlotQueued(m: multiset<Entry>, id: nat, t: int) {
    exists f :: f in m && InSlot(f, id, t)
  }

  /** The packet at step k asks for time t while input id is current and has an entry at that time queued. */
  ghost predicate Due(run: Run, id: nat, t: int, k: nat)
    requires run.Shaped()
  {
    Covers(run, k, t) && run.states[k].current == User(id) && SlotQueued(run.states[k].queue, id, t)
  }

  /** Of the slot, e is handed out once in the whole run and nothing else ever; at step k no order is lower. */
  ghost predicate AloneOfSlot(run: Run, id: nat, t: int, k: nat, e: Entry)
    requires run.Shaped() && k < |run.events|
  {
    && InSlot(e, id, t) && e in run.states[k].queue && LeastOrder(run.states[k].queue, e)
    && Emitted(run.popped, |run.events|)[e] == 1
    && forall f: Entry :: InSlot(f, id, t) && f != e ==> Emitted(run.popped, |run.events|)[f] == 0
  }

  lemma PoppedOfSlot(m: multiset<Entry>, id: nat, since: int, until: int, out: seq<Entry>, m': multiset<Entry>, t: int)
    returns (e: Entry)
    requires PoppedAll(m, id, since, until, out, m') && since <= t < until && SlotQueued(m, id, t)
    ensures InSlot(e, id, t) && e in m && LeastOrder(m, e) && multiset(out)[e] == 1
    ensures forall f: Entry :: InSlot(f, id, t) && f != e ==> f !in out
  {
    hide KeptFrom, LeastOrder;
    var f :| f in m && InSlot(f, id, t);
    assert InWindow(f, id, since, until) && HasTime(out, t);
    var x :| 0 <= x < |out| && out[x].pts == t;
    e := out[x];
    assert InWindow(e, id, since, until);
    OnceInIncreasing(out, x);
    forall f: Entry | InSlot(f, id, t) && f in out
      ensures f == e
    {
      var y :| 0 <= y < |out| && out[y] == f;
      assert x == y;
    }
  }

  lemma SlotElsewhere(run: Run, id: nat, t: int, k: nat, f: Entry, j: nat)
    requires run.Regular() && Covers(run, k, t) && InSlot(f, id, t) && j < |run.events| && j != k
    ensures f !in run.popped[j]
  {
    if f in run.popped[j] {
      EmittedInWindow(run, j, f);
      OneWindow(run, j, k, t);
    }
  }

  lemma SlotEmittedAt(run: Run, id: nat, t: int, k: nat, f: Entry)
    requires run.Regular() && Covers(run, k, t) && InSlot(f, id, t)
    ensures Emitted(run.popped, |run.events|)[f] == multiset(run.popped[k])[f]
  {
    forall j | 0 <= j < |run.events| && j != k
      ensures f !in run.popped[j]
    {
      SlotElsewhere(run, id, t, k, f, j);
    }
    EmittedOnlyAt(run.popped, f, k, |run.events|);
  }

  lemma SlotHandedOut(run: Run, id: nat, t: int, k: nat) returns (e: Entry)
    requires run.Regular() && Due(run, id, t, k)
    ensures AloneOfSlot(run, id, t, k, e)
  {
    hide PoppedAll, LeastOrder, InSlot, SlotQueued, Emitted;
    WindowsAscend(run, k, k);
    assert run.StepAt(k);
    var s, s' := run.states[k], run.states[k + 1];
    e := PoppedOfSlot(s.queue, id, s.prevPts, run.events[k].pts + 1, run.popped[k], s'.queue, t);
    forall f | InSlot(f, id, t)
      ensures Emitted(run.popped, |run.events|)[f] == if f == e then 1 else 0
    {
      SlotEmittedAt(run, id, t, k, f);
    }
  }

  lemma SlotNeverHandedOut(run: Run, id: nat, t: int, f: Entry)
    requires run.Regular() && InSlot(f, id, t) && forall k :: 0 <= k < |run.events| ==> !Due(run, id, t, k)
    ensures Emitted(run.popped, |run.events|)[f] == 0
  {
    var n := |run.events|;
    forall j | 0 <= j < n
      ensures f !in run.popped[j]
    {
      if f in run.popped[j] {
        EmittedInWindow(run, j, f);
        assert Due(run, id, t, j);
      }
    }
    EmittedOnlyAt(run.popped, f, n, n);
  }

  /**
   The whole run, with any number of entries of one input at one time: exactly one of them is handed out,
   once, and it has least order among those queued then, if a window that contains their time is queried
   with their input current while there is one; and otherwise none of them is, ever.
   */
  lemma OneOfSlotHandedOut(run: Run, id: nat, t: int)
    requires run.Regular()
    ensures if exists k :: 0 <= k < |run.events| && Due(run, id, t, k)
            then exists k, e :: 0 <= k < |run.events| && Due(run, id, t, k) && AloneOfSlot(run, id, t, k, e)
            else forall f: Entry :: InSlot(f, id, t) ==> Emitted(run.popped, |run.events|)[f] == 0
  {
    hide Due, AloneOfSlot, Emitted, InSlot;
    if k :| 0 <= k < |run.events| && Due(run, id, t, k) {
      var e := SlotHandedOut(run, id, t, k);
    } else {
      forall f: Entry | InSlot(f, id, t)
        ensures Emitted(run.popped, |run.events|)[f] == 0
      {
        SlotNeverHandedOut(run, id, t, f);
      }
    }
  }

  // ---------- Two entries in one slot ----------

  const FIRST := Entry(1, 0, 0, 0, ANY_PAYLOAD)
  const SECOND := Entry(1, 0, 0, 1, ANY_PAYLOAD)

  /** Two pushes and the packet that asks for their time. */
  function TwoInSlot(): Run {
    Run([State(multiset{}, true, -1, User(1)), State(multiset{FIRST}, true, -1, User(1)),
         State(multiset{FIRST, SECOND}, true, -1, User(1)), State(multiset{}, true, 1, User(1))],
        [Push(FIRST), Push(SECOND), Packet(0)],
        [[], [], [FIRST]],
        [multiset{}, multiset{}, multiset{SECOND}])
  }

  lemma TwoInSlotPopped()
    ensures PoppedAll(multiset{FIRST, SECOND}, 1, -1, 1, [FIRST], multiset{})
  {
    var out := [FIRST];
    assert out[0].pts == 0;
    assert HasTime(out, 0);
  }

  lemma TwoInSlotRegular(run: Run)
    requires run == TwoInSlot()
    ensures run.Regular() && Due(run, 1, 0, 2)
  {
    TwoInSlotPopped();
    hide PoppedAll;
    assert run.StepAt(0) && run.StepAt(1) && run.StepAt(2);
    assert FIRST in run.states[2].queue && InSlot(FIRST, 1, 0);
  }

  lemma TwoInSlotEmitted(run: Run)
    requires run == TwoInSlot()
    ensures Emitted(run.popped, 3)[FIRST] == 1 && Emitted(run.popped, 3)[SECOND] == 0
  {
    EmittedOnlyAt(run.popped, FIRST, 2, 3);
    EmittedOnlyAt(run.popped, SECOND, 2, 3);
  }

  /** The second of them is lost though its input is current when its time is queried. */
  lemma SecondIsLost()
    ensures var run := TwoInSlot();
      && run.Regular() && Due(run, 1, 0, 2)
      && Emitted(run.popped, 3)[FIRST] == 1 && Emitted(run.popped, 3)[SECOND] == 0
  {
    var run := TwoInSlot();
    hide Due, Emitted;
    TwoInSlotRegular(run);
    TwoInSlotEmitted(run);
  }

  // ---------- Runs that grow ----------

  /** A run after one more step. */
  ghost function Extended(run: Run, ev: Event, s: State, popped: seq<Entry>, dropped: multiset<Entry>): Run {
    Run(run.states + [s], run.events + [ev], run.popped + [popped], run.dropped + [dropped])
  }

  lemma ExtendedValid(run: Run, ev: Event, s: State, popped: seq<Entry>, dropped: multiset<Entry>)
    requires run.Valid() && Step(run.states[|run.events|], ev, s, popped, dropped)
    ensures Extended(run, ev, s, popped, dropped).Valid()
  {
    hide Step;
    var run' := Extended(run, ev, s, popped, dropped);
    forall i | 0 <= i < |run'.events|
      ensures run'.StepAt(i)
    {
      if i < |run.events| {
        assert run.StepAt(i);
      }
    }
  }

  /** The times of the packets of a run. */
  function PacketTimes(events: seq<Event>): seq<int> {
    if events == [] then []
    else
      PacketTimes(events[..|events| - 1]) +
      match events[|events| - 1]
      case Packet(pts) => [pts]
      case _ => []
  }

  predicate Ascending(ts: seq<int>) {
    forall i :: 0 < i < |ts| ==> ts[i - 1] <= ts[i]
  }

  lemma PacketTimesSnoc(events: seq<Event>, n: nat)
    requires n < |events|
    ensures PacketTimes(events[..n + 1]) ==
      PacketTimes(events[..n]) + (if events[n].Packet? then [events[n].pts] else [])
  {
    assert events[..n + 1][..n] == events[..n];
  }

  lemma PacketTimesAfter(events: seq<Event>, ev: Event)
    ensures PacketTimes(events + [ev]) == PacketTimes(events) + (if ev.Packet? then [ev.pts] else [])
  {
    assert (events + [ev])[..|events|] == events;
  }

  lemma {:induction false} PacketTimesPrefix(events: seq<Event>, n: nat)
    requires n <= |events|
    ensures PacketTimes(events[..n]) <= PacketTimes(events)
    decreases |events| - n
  {
    if n == |events| {
      assert events[..n] == events;
    } else {
      PacketTimesPrefix(events, n + 1);
      PacketTimesSnoc(events, n);
    }
  }

  /** A window starts where the one of the packet before has ended. */
  lemma {:induction false} WindowStart(run: Run, n: nat)
    requires run.Valid() && n <= |run.events|
    ensures var ts := PacketTimes(run.events[..n]);
      run.states[n].prevPts == if ts == [] then run.states[0].prevPts else ts[|ts| - 1] + 1
    decreases n
  {
    hide PacketTimes, Step;
    if n == 0 {
      NoTimes(run.events[..0]);
    } else {
      WindowStart(run, n - 1);
      PacketTimesSnoc(run.events, n - 1);
      WindowMoves(run, n - 1);
    }
  }

  lemma NoTimes(events: seq<Event>)
    requires events == []
    ensures PacketTimes(events) == []
  {
  }

  lemma WindowMoves(run: Run, j: nat)
    requires run.Valid() && j < |run.events|
    ensures run.states[j + 1].prevPts ==
      if run.events[j].Packet? then run.events[j].pts + 1 else run.states[j].prevPts
  {
    assert run.StepAt(j);
  }

  lemma StartsBefore(run: Run, i: nat)
    requires run.Valid() && i < |run.events| && run.events[i].Packet?
    requires var ts := PacketTimes(run.events);
      Ascending(ts) && (ts != [] ==> run.states[0].prevPts <= ts[0] + 1)
    ensures run.states[i].prevPts <= run.events[i].pts + 1
  {
    hide PacketTimes, Step;
    WindowStart(run, i);
    PacketTimesSnoc(run.events, i);
    PacketTimesPrefix(run.events, i + 1);
    var ts, all := PacketTimes(run.events[..i]), PacketTimes(run.events);
    Neighbours(ts, run.events[i].pts, all);
  }

  lemma Neighbours(ts: seq<int>, t: int, all: seq<int>)
    requires ts + [t] <= all && Ascending(all)
    ensures if ts == [] then all[0] == t else ts[|ts| - 1] <= t && all[0] == ts[0]
  {
    assert all[|ts|] == (ts + [t])[|ts|] == t;
    assert ts != [] ==> all[|ts| - 1] == (ts + [t])[|ts| - 1] == ts[|ts| - 1];
  }

  /** A run without dropped inputs is regular if the times of its packets never go back. */
  lemma RegularIfAscending(run: Run)
    requires run.Valid() && run.states[0].ordered && forall i :: 0 <= i < |run.events| ==> !run.events[i].DropId?
    requires var ts := PacketTimes(run.events);
      Ascending(ts) && (ts != [] ==> run.states[0].prevPts <= ts[0] + 1)
    ensures run.Regular()
  {
    hide PacketTimes, Step, Ascending;
    forall i | 0 <= i < |run.events| && run.events[i].Packet?
      ensures run.states[i].prevPts <= run.events[i].pts + 1
    {
      StartsBefore(run, i);
    }
  }
}
