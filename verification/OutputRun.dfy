/** Which entries end up in output packets, over whole runs of the injector and the packets it treats. */
module OutputRuns {
  import opened Wrappers
  import opened Words
  import opened MetadataQueues
  import opened InjectionRuns
  import opened Seis
  import opened PacketRewriter
  import opened Injector

  /** A packet that could be rewritten: its rewritten form goes to the output. Others carry nothing new. */
  predicate Written(outcome: Outcome) {
    outcome.Treated? && Rewritable(outcome.packet)
  }

  lemma WrittenResult(run: Run, outcomes: seq<Outcome>, k: nat)
    requires Accounted(run, outcomes) && k < |outcomes| && outcomes[k].Treated?
    ensures outcomes[k].result.Success? <==> Written(outcomes[k])
  {
    hide Rewrite, Injected, Payloads, Rewritable;
    assert Fits(run.states[k], run.events[k], run.popped[k], outcomes[k]);
    var found := Payloads(Injected(outcomes[k].previous, run.states[k].current, run.states[k].prevPts,
                                   run.events[k].pts, run.popped[k]));
    RewriteSucceeds(outcomes[k].packet, found);
  }

  /** The entries popped at the first n steps that went into an output packet. */
  function Reached(outcomes: seq<Outcome>, popped: seq<seq<Entry>>, n: nat): multiset<Entry>
    requires n <= |outcomes| == |popped|
  {
    if n == 0 then multiset{}
    else Reached(outcomes, popped, n - 1) + (if Written(outcomes[n - 1]) then multiset(popped[n - 1]) else multiset{})
  }

  /** The entries popped at packets that could not be rewritten: they reach nobody. */
  function Spoiled(outcomes: seq<Outcome>, popped: seq<seq<Entry>>, n: nat): multiset<Entry>
    requires n <= |outcomes| == |popped|
  {
    if n == 0 then multiset{}
    else Spoiled(outcomes, popped, n - 1) + (if Written(outcomes[n - 1]) then multiset{} else multiset(popped[n - 1]))
  }

  lemma {:induction false} EmittedSplits(outcomes: seq<Outcome>, popped: seq<seq<Entry>>, n: nat, e: Entry)
    requires n <= |outcomes| == |popped|
    ensures Emitted(popped, n)[e] == Reached(outcomes, popped, n)[e] + Spoiled(outcomes, popped, n)[e]
  {
    hide Written;
    if n > 0 {
      EmittedSplits(outcomes, popped, n - 1, e);
    }
  }

  /**
   In any run: every entry that was there or was pushed has gone into an output packet once, was popped
   once at a packet that could not be rewritten, was dropped once, or is still queued.
   */
  lemma OutputConservation(run: Run, outcomes: seq<Outcome>, n: nat)
    requires run.Valid() && Accounted(run, outcomes) && n <= |run.events|
    ensures run.states[n].queue + Reached(outcomes, run.popped, n) + Spoiled(outcomes, run.popped, n)
        + Dropped(run.dropped, n) ==
      run.states[0].queue + Pushed(run.events, n)
  {
    hide Pushed, Emitted, Dropped, Reached, Spoiled, Accounted, Step;
    Conservation(run, n);
    AccountedSize(run, outcomes);
    var a, b, c, q := Reached(outcomes, run.popped, n), Spoiled(outcomes, run.popped, n), Dropped(run.dropped, n),
      run.states[n].queue;
    forall e: Entry
      ensures (q + a + b + c)[e] == (q + Emitted(run.popped, n) + c)[e]
    {
      EmittedSplits(outcomes, run.popped, n, e);
    }
    assert q + a + b + c == q + Emitted(run.popped, n) + c;
  }

  lemma AccountedSize(run: Run, outcomes: seq<Outcome>)
    requires Accounted(run, outcomes)
    ensures run.Shaped() && |outcomes| == |run.events| == |run.popped|
  {
  }

  lemma {:induction false} ReachedOnlyAt(outcomes: seq<Outcome>, popped: seq<seq<Entry>>, e: Entry, k: nat, n: nat)
    requires n <= |outcomes| == |popped| && forall j :: 0 <= j < n && j != k ==> e !in popped[j]
    ensures Reached(outcomes, popped, n)[e] == if k < n && Written(outcomes[k]) then multiset(popped[k])[e] else 0
  {
    hide Written;
    if n > 0 {
      ReachedOnlyAt(outcomes, popped, e, k, n - 1);
    }
  }

  /** The output packet of step k is the rewritten one, and the payload of e is among the messages written into it. */
  ghost predicate InOutput(run: Run, outcomes: seq<Outcome>, k: nat, e: Entry)
    requires Accounted(run, outcomes) && k < |outcomes| && run.events[k].Packet?
  {
    var o, s := outcomes[k], run.states[k];
    var found := Payloads(Injected(o.previous, s.current, s.prevPts, run.events[k].pts, run.popped[k]));
    && o.Treated? && o.result.Success? && e.val in NewSeis(o.packet, found)
    && (VideoPreserved(o.packet, found, o.result.value) <==> LengthRight(NewSeis(o.packet, found)))
  }

  lemma PoppedInjected(previous: Option<nat>, id: nat, since: int, pts: int, popped: seq<Entry>, e: Entry)
    requires e in popped
    ensures e.val in Payloads(Injected(previous, User(id), since, pts, popped))
  {
    var i :| 0 <= i < |popped| && popped[i] == e;
    var injected := Injected(previous, User(id), since, pts, popped);
    assert injected[|injected| - |popped| + i] == e;
    assert Payloads(injected)[|injected| - |popped| + i] == e.val;
  }

  lemma WrittenIsInOutput(run: Run, outcomes: seq<Outcome>, k: nat, id: nat, e: Entry)
    requires Accounted(run, outcomes) && k < |outcomes| && run.events[k].Packet? && Written(outcomes[k])
    requires run.states[k].current == User(id) && e in run.popped[k]
    ensures InOutput(run, outcomes, k, e)
  {
    hide Rewrite, Injected, Payloads, NewSeis, VideoPreserved, LengthRight, Rewritable;
    var o, s := outcomes[k], run.states[k];
    assert Fits(s, run.events[k], run.popped[k], o);
    var found := Payloads(Injected(o.previous, s.current, s.prevPts, run.events[k].pts, run.popped[k]));
    WrittenResult(run, outcomes, k);
    PoppedInjected(o.previous, id, s.prevPts, run.events[k].pts, run.popped[k], e);
    NewSeisConcat(o.packet, found);
    RewritePreservesVideo(o.packet, found);
  }

  /** A packet that is due and can be rewritten. */
  ghost predicate DueAndWritten(run: Run, outcomes: seq<Outcome>, id: nat, t: int, k: nat)
    requires Accounted(run, outcomes)
  {
    k < |run.events| && Due(run, id, t, k) && Written(outcomes[k])
  }

  /** Of the slot, e goes into the output packet of step k, and nothing else goes into any output packet. */
  ghost predicate AloneInOutput(run: Run, outcomes: seq<Outcome>, id: nat, t: int, k: nat, e: Entry)
    requires Accounted(run, outcomes) && k < |run.events| && run.events[k].Packet?
  {
    && AloneOfSlot(run, id, t, k, e) && InOutput(run, outcomes, k, e)
    && Reached(outcomes, run.popped, |run.events|)[e] == 1
    && forall f: Entry :: InSlot(f, id, t) && f != e ==> Reached(outcomes, run.popped, |run.events|)[f] == 0
  }

  lemma SlotReachedAt(run: Run, outcomes: seq<Outcome>, id: nat, t: int, k: nat, f: Entry)
    requires run.Regular() && Accounted(run, outcomes) && Covers(run, k, t) && InSlot(f, id, t)
    ensures Reached(outcomes, run.popped, |run.events|)[f] ==
      if Written(outcomes[k]) then multiset(run.popped[k])[f] else 0
  {
    hide Written, Fits;
    forall j | 0 <= j < |run.events| && j != k
      ensures f !in run.popped[j]
    {
      SlotElsewhere(run, id, t, k, f, j);
    }
    ReachedOnlyAt(outcomes, run.popped, f, k, |run.events|);
  }

  lemma SlotReaches(run: Run, outcomes: seq<Outcome>, id: nat, t: int, k: nat) returns (e: Entry)
    requires run.Regular() && Accounted(run, outcomes) && DueAndWritten(run, outcomes, id, t, k)
    ensures run.events[k].Packet? && AloneInOutput(run, outcomes, id, t, k, e)
  {
    hide Written, Accounted, InSlot, LeastOrder, SlotQueued, InOutput, Emitted, Reached;
    e := SlotHandedOut(run, id, t, k);
    AccountedSize(run, outcomes);
    forall f | InSlot(f, id, t)
      ensures Reached(outcomes, run.popped, |run.events|)[f] == if f == e then 1 else 0
    {
      SlotEmittedAt(run, id, t, k, f);
      SlotReachedAt(run, outcomes, id, t, k, f);
    }
    SlotEmittedAt(run, id, t, k, e);
    WrittenIsInOutput(run, outcomes, k, id, e);
  }

  lemma SlotNeverReaches(run: Run, outcomes: seq<Outcome>, id: nat, t: int, f: Entry)
    requires run.Regular() && Accounted(run, outcomes) && InSlot(f, id, t)
    requires forall k :: 0 <= k < |run.events| ==> !DueAndWritten(run, outcomes, id, t, k)
    ensures Reached(outcomes, run.popped, |run.events|)[f] == 0
  {
    hide Written, Accounted, Reached, Emitted;
    AccountedSize(run, outcomes);
    var n := |run.events|;
    if k :| 0 <= k < n && Due(run, id, t, k) {
      assert !DueAndWritten(run, outcomes, id, t, k);
      SlotReachedAt(run, outcomes, id, t, k, f);
    } else {
      SlotNeverHandedOut(run, id, t, f);
      EmittedSplits(outcomes, run.popped, n, f);
    }
  }

  ghost predicate ReachesAlone(run: Run, outcomes: seq<Outcome>, id: nat, t: int, k: nat, e: Entry)
    requires Accounted(run, outcomes)
  {
    && k < |run.events| && run.events[k].Packet?
    && DueAndWritten(run, outcomes, id, t, k) && AloneInOutput(run, outcomes, id, t, k, e)
  }

  /**
   Exactly one entry of the slot goes into an output packet, once, and it has least order among those
   queued then, if a packet that can be rewritten asks for its time with its input current while the slot
   is not empty; and otherwise none of them does, ever.
   */
  ghost predicate SlotSettled(run: Run, outcomes: seq<Outcome>, id: nat, t: int)
    requires Accounted(run, outcomes)
  {
    if exists k :: 0 <= k < |run.events| && DueAndWritten(run, outcomes, id, t, k) then
      exists k, e :: ReachesAlone(run, outcomes, id, t, k, e)
    else
      forall f: Entry :: InSlot(f, id, t) ==> Reached(outcomes, run.popped, |run.events|)[f] == 0
  }

  /** Over every regular run, with any number of entries of one input at one time. */
  lemma OneOfSlotReachesOutput(run: Run, outcomes: seq<Outcome>, id: nat, t: int)
    requires run.Regular() && Accounted(run, outcomes)
    ensures SlotSettled(run, outcomes, id, t)
  {
    hide DueAndWritten, AloneInOutput, Reached, InSlot, Fits;
    if k :| 0 <= k < |run.events| && DueAndWritten(run, outcomes, id, t, k) {
      var e := SlotReaches(run, outcomes, id, t, k);
      assert ReachesAlone(run, outcomes, id, t, k, e);
    } else {
      forall f: Entry | InSlot(f, id, t)
        ensures Reached(outcomes, run.popped, |run.events|)[f] == 0
      {
        SlotNeverReaches(run, outcomes, id, t, f);
      }
    }
  }

  /** Whatever calls an injector has got, if they make up a regular run. */
  lemma CallsReachOutput(injector: SeiInjector, id: nat, t: int)
    requires injector.Valid() && injector.history.Regular()
    ensures SlotSettled(injector.history, injector.outcomes, id, t)
  {
    hide SlotSettled, Accounted;
    OneOfSlotReachesOutput(injector.history, injector.outcomes, id, t);
  }
}
