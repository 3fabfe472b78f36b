/**
 The injector: per packet it selects the window, queries the current input and rewrites the packet.
 Each of its methods is a step of the state machine whose runs are described elsewhere.
 */
module Injector {
  import opened Wrappers
  import opened Words
  import opened Clocks
  import opened MetadataQueues
  import Runs = InjectionRuns
  import opened Seis
  import opened PacketRewriter
  import opened Fillers
  import opened Captions
  import Rbsp
  import Nalus

  const TS_MIN := -0x8000_0000_0000_0000

  function Max(a: int, b: int): int {
    if a >= b then a else b
  }

  /** The time that metadata made up for a window get. */
  function FillerTime(since: int, until: int): int {
    Max(since, until - 1)
  }

  /** What a query of the input returns when the queue has delivered popped. */
  function Answer(input: Runs.Input, since: int, until: int, popped: seq<Entry>): seq<Entry> {
    match input
    case Clear(id) => [ResetMetadata(id, FillerTime(since, until))]
    case User(id) => if popped != [] then popped else [EmptyMetadata(id, FillerTime(since, until))]
  }

  /** What is injected at a packet: a reset first if the input has changed, then the answer to the query. */
  function Injected(previous: Option<nat>, input: Runs.Input, since: int, pts: int, popped: seq<Entry>): seq<Entry> {
    (if Some(input.id) != previous then [ResetMetadata(input.id, pts)] else []) + Answer(input, since, pts + 1, popped)
  }

  function Payloads(found: seq<Entry>): (seis: seq<Sei>)
    ensures |seis| == |found| && forall i :: 0 <= i < |found| ==> seis[i] == found[i].val
  {
    seq(|found|, i requires 0 <= i < |found| => found[i].val)
  }

  /**
   What is made up for a window bears the packet's time and its input; in the order of the queue no reset
   comes after anything of that input at that time, and no filler before anything.
   */
  lemma MadeUpEntries(previous: Option<nat>, input: Runs.Input, since: int, pts: int, popped: seq<Entry>, e: Entry)
    requires since <= pts && e in Injected(previous, input, since, pts, popped) && e !in popped
    ensures e.inputId == input.id && e.pts == e.dts == pts
    ensures e.val == RESET_SEI || e.val == EMPTY_SEI
    ensures forall f: Entry :: f.inputId == e.inputId && f.pts == e.pts && -0x8000_0000 <= f.order <= 0x7fff_ffff ==>
      (e.val == RESET_SEI ==> !Later(e, f)) && (e.val == EMPTY_SEI ==> !Later(f, e))
  {
    assert |RESET_SEI.data| != |EMPTY_SEI.data|;
    hide RESET_SEI, EMPTY_SEI;
  }

  // ---------- What the viewer sees ----------

  /** A reset when the input changes, a reset from the clear input, and from a user's input what it has pushed. */
  function Seen(previous: Option<nat>, input: Runs.Input, popped: seq<Entry>): seq<Effect> {
    (if Some(input.id) != previous then RESET else []) +
    match input
    case Clear(_) => RESET
    case User(_) => AllEffects(Payloads(popped))
  }

  lemma PayloadsConcat(a: seq<Entry>, b: seq<Entry>)
    ensures Payloads(a + b) == Payloads(a) + Payloads(b)
  {
  }

  lemma MadeUpEffects(e: Entry)
    ensures e.val == RESET_SEI ==> AllEffects(Payloads([e])) == RESET
    ensures e.val == EMPTY_SEI ==> AllEffects(Payloads([e])) == []
  {
    hide RESET_SEI, EMPTY_SEI, RESET, Effects, AllEffects;
    assert Payloads([e]) == [e.val];
    OneEffects(e.val);
    ResetResets();
    EmptyHasNoEffect();
  }

  lemma AnswerEffects(input: Runs.Input, since: int, until: int, popped: seq<Entry>)
    ensures AllEffects(Payloads(Answer(input, since, until, popped))) ==
      match input
      case Clear(_) => RESET
      case User(_) => AllEffects(Payloads(popped))
  {
    hide RESET_SEI, EMPTY_SEI, RESET, Effects, AllEffects;
    match input
    case Clear(id) => MadeUpEffects(ResetMetadata(id, FillerTime(since, until)));
    case User(id) =>
      if popped == [] {
        MadeUpEffects(EmptyMetadata(id, FillerTime(since, until)));
        assert Payloads([]) == [];
        NoEffects();
      }
  }

  lemma NoEffects()
    ensures AllEffects([]) == []
  {
  }

  /** What is injected at a packet does just that: nothing that was not asked for is erased or shown. */
  lemma InjectedSeen(previous: Option<nat>, input: Runs.Input, since: int, pts: int, popped: seq<Entry>)
    ensures AllEffects(Payloads(Injected(previous, input, since, pts, popped))) == Seen(previous, input, popped)
  {
    var front := if Some(input.id) != previous then [ResetMetadata(input.id, pts)] else [];
    var answer := Answer(input, since, pts + 1, popped);
    MadeUpEffects(ResetMetadata(input.id, pts));
    AnswerEffects(input, since, pts + 1, popped);
    NoEffects();
    hide RESET_SEI, EMPTY_SEI, RESET, Effects, AllEffects, Answer, Payloads;
    PayloadsConcat(front, answer);
    AllEffectsConcat(Payloads(front), Payloads(answer));
    if front == [] {
      assert Payloads(front) == [];
    }
  }

  /** What the threads of the application share. */
  class Context {
    const metaQueue: MetadataQueue
    var current: Runs.Input
    var tsAdjustment: int

    constructor (metaQueue: MetadataQueue, current: Runs.Input, tsAdjustment: int)
      ensures this.metaQueue == metaQueue && this.current == current && this.tsAdjustment == tsAdjustment
    {
      this.metaQueue := metaQueue;
      this.current := current;
      this.tsAdjustment := tsAdjustment;
    }
  }

  /** A packet as it comes to the injector: its stream timestamp, and the adjustment set at that time. */
  datatype Arrival = Arrival(streamPts: int, adjustment: int)

  function StreamTimes(arrivals: seq<Arrival>): (r: seq<int>)
    ensures |r| == |arrivals|
  {
    seq(|arrivals|, i requires 0 <= i < |arrivals| => arrivals[i].streamPts)
  }

  /** The adjusted times of a whole run of packets. */
  function Adjusted(arrivals: seq<Arrival>, base: int, intb: TimeBase, outtb: TimeBase): (r: seq<int>)
    requires intb.Valid() && outtb.Valid()
    ensures |r| == |arrivals|
  {
    var ts := RescaledAll(StreamTimes(arrivals), base, intb, outtb);
    seq(|arrivals|, i requires 0 <= i < |arrivals| => ts[i] - arrivals[i].adjustment)
  }

  lemma AdjustedSnoc(arrivals: seq<Arrival>, a: Arrival, base: int, intb: TimeBase, outtb: TimeBase)
    requires intb.Valid() && outtb.Valid()
    ensures var first := if arrivals == [] then a.streamPts else arrivals[0].streamPts;
      Adjusted(arrivals + [a], base, intb, outtb) ==
        Adjusted(arrivals, base, intb, outtb) + [base + Rescale(a.streamPts - first, intb, outtb) - a.adjustment]
  {
    hide Rescale;
    assert StreamTimes(arrivals + [a]) == StreamTimes(arrivals) + [a.streamPts];
    RescaledSnoc(StreamTimes(arrivals), a.streamPts, base, intb, outtb);
  }

  /** Stream timestamps never go back, and the adjustment is never raised. */
  predicate Steady(arrivals: seq<Arrival>) {
    forall i :: 0 < i < |arrivals| ==>
      arrivals[i - 1].streamPts <= arrivals[i].streamPts && arrivals[i - 1].adjustment >= arrivals[i].adjustment
  }

  lemma SteadyAscends(arrivals: seq<Arrival>, base: int, intb: TimeBase, outtb: TimeBase)
    requires intb.Valid() && outtb.Valid() && Steady(arrivals)
    ensures Runs.Ascending(Adjusted(arrivals, base, intb, outtb))
    ensures arrivals != [] ==> Adjusted(arrivals, base, intb, outtb)[0] == base - arrivals[0].adjustment
  {
    hide Rescale, RescaledAll;
    forall i | 0 < i < |arrivals|
      ensures Adjusted(arrivals, base, intb, outtb)[i - 1] <= Adjusted(arrivals, base, intb, outtb)[i]
    {
      RescaledMonotone(StreamTimes(arrivals), base, intb, outtb, i - 1, i);
    }
    if arrivals != [] {
      FirstRescaled(base, StreamTimes(arrivals), intb, outtb);
    }
  }

  /** What became of the packet of a step: the input before it, the packet and the outcome of its rewriting. */
  datatype Outcome = NoPacket | Treated(previous: Option<nat>, packet: bytes, result: Result<bytes>)

  ghost predicate Fits(s: Runs.State, ev: Runs.Event, popped: seq<Entry>, outcome: Outcome) {
    match ev
    case Packet(pts) =>
      && outcome.Treated?
      && outcome.result ==
         Rewrite(outcome.packet, Payloads(Injected(outcome.previous, s.current, s.prevPts, pts, popped)))
    case _ => outcome == NoPacket
  }

  /** Every packet step of the run has the outcome of rewriting its packet with what was injected at it. */
  ghost predicate Accounted(run: Runs.Run, outcomes: seq<Outcome>) {
    && run.Shaped() && |outcomes| == |run.events|
    && forall j :: 0 <= j < |outcomes| ==> Fits(run.states[j], run.events[j], run.popped[j], outcomes[j])
  }

  lemma AccountedAfter(run: Runs.Run, outcomes: seq<Outcome>, ev: Runs.Event, s: Runs.State, popped: seq<Entry>,
                       dropped: multiset<Entry>, outcome: Outcome)
    requires Accounted(run, outcomes) && Fits(run.states[|run.events|], ev, popped, outcome)
    ensures Accounted(Runs.Extended(run, ev, s, popped, dropped), outcomes + [outcome])
  {
    hide Fits;
  }

  class SeiInjector {
    const ctx: Context
    const rescaler: TSRescaler
    var prevPts: int
    var prevInputId: Option<nat>
    ghost var history: Runs.Run
    ghost var arrivals: seq<Arrival>
    ghost var outcomes: seq<Outcome>

    /** All calls so far make up a run of the state machine, and its packets are those that arrived. */
    ghost predicate Valid()
      reads this, rescaler, ctx, ctx.metaQueue
    {
      && rescaler.Valid()
      && history.Valid() && history.states[|history.events|] == State()
      && history.states[0].prevPts == TS_MIN
      && (rescaler.tsZero == if arrivals == [] then None else Some(arrivals[0].streamPts))
      && Runs.PacketTimes(history.events) == Times()
      && Accounted(history, outcomes)
    }

    ghost function State(): Runs.State
      reads this, ctx, ctx.metaQueue
    {
      Runs.State(ctx.metaQueue.Contents(), ctx.metaQueue.Ordered(), prevPts, ctx.current)
    }

    /** The adjusted times of all packets so far. */
    ghost function Times(): seq<int>
      requires rescaler.Valid()
      reads this
    {
      Adjusted(arrivals, rescaler.base, rescaler.localTimeBase, rescaler.clock.timeBase)
    }

    constructor (streamTimeBase: TimeBase, clock: Clock, ctx: Context)
      requires streamTimeBase.Valid() && clock.timeBase.Valid()
      ensures Valid() && this.ctx == ctx && fresh(rescaler)
      ensures rescaler.base == clock.value && rescaler.localTimeBase == streamTimeBase && rescaler.clock == clock
      ensures prevPts == TS_MIN && prevInputId == None
      ensures history == Runs.Run([State()], [], [], []) && arrivals == [] && outcomes == []
    {
      this.ctx := ctx;
      rescaler := new TSRescaler.ClockRelative(clock, streamTimeBase);
      prevPts := TS_MIN;
      prevInputId := None;
      arrivals, outcomes := [], [];
      history := Runs.Run(
        [Runs.State(ctx.metaQueue.Contents(), ctx.metaQueue.Ordered(), TS_MIN, ctx.current)], [], [], []);
    }

    /** Keeps a step that has just been made in the history, with its outcome. */
    ghost method Record(ev: Runs.Event, popped: seq<Entry>, dropped: multiset<Entry>, outcome: Outcome)
      requires history.Valid() && Runs.Step(history.states[|history.events|], ev, State(), popped, dropped)
      requires Accounted(history, outcomes) && Fits(history.states[|history.events|], ev, popped, outcome)
      modifies this`history, this`outcomes
      ensures history == Runs.Extended(old(history), ev, State(), popped, dropped)
      ensures outcomes == old(outcomes) + [outcome] && Accounted(history, outcomes)
      ensures history.Valid() && history.states[|history.events|] == State()
      ensures history.states[0] == old(history).states[0]
      ensures Runs.PacketTimes(history.events) ==
        Runs.PacketTimes(old(history).events) + (if ev.Packet? then [ev.pts] else [])
    {
      hide Runs.Step, Runs.PacketTimes, Accounted, Fits;
      Runs.ExtendedValid(history, ev, State(), popped, dropped);
      Runs.PacketTimesAfter(history.events, ev);
      AccountedAfter(history, outcomes, ev, State(), popped, dropped, outcome);
      history := Runs.Extended(history, ev, State(), popped, dropped);
      outcomes := outcomes + [outcome];
    }

    /** An input pushes an entry. */
    method Push(entry: Entry)
      requires Valid()
      modifies this`history, this`outcomes, ctx.metaQueue
      ensures Valid() && history == Runs.Extended(old(history), Runs.Push(entry), State(), [], multiset{})
    {
      hide Runs.PacketTimes, Adjusted, Accounted;
      ctx.metaQueue.Push(entry);
      Record(Runs.Push(entry), [], multiset{}, NoPacket);
    }

    method SelectInput(input: Runs.Input)
      requires Valid()
      modifies this`history, this`outcomes, ctx`current
      ensures Valid() && ctx.current == input
      ensures history == Runs.Extended(old(history), Runs.Select(input), State(), [], multiset{})
    {
      hide Runs.PacketTimes, Adjusted, Accounted;
      ctx.current := input;
      Record(Runs.Select(input), [], multiset{}, NoPacket);
    }

    method DropEntries(id: nat) returns (count: nat, ghost dropped: multiset<Entry>)
      modifies ctx.metaQueue
      ensures Runs.Step(old(State()), Runs.DropId(id), State(), [], dropped)
      ensures count == |dropped|
    {
      ghost var m := ctx.metaQueue.Contents();
      ghost var q := ctx.metaQueue.q;
      count := ctx.metaQueue.DropId(id);
      WithoutContents(q, id);
      dropped := m - ctx.metaQueue.Contents();
      assert ctx.metaQueue.Contents() <= m;
      assert ctx.metaQueue.Contents() + dropped == m;
    }

    /** An input has ended. */
    method DropInput(id: nat) returns (count: nat, ghost dropped: multiset<Entry>)
      requires Valid()
      modifies this`history, this`outcomes, ctx.metaQueue
      ensures Valid() && history == Runs.Extended(old(history), Runs.DropId(id), State(), [], dropped)
      ensures count == |dropped|
    {
      hide Runs.Step, Runs.PacketTimes, Adjusted, Accounted;
      count, dropped := DropEntries(id);
      Record(Runs.DropId(id), [], dropped, NoPacket);
    }

    /** The adjustment may be set at any time; it is no step of the state machine. */
    method SetAdjustment(adjustment: int)
      requires Valid()
      modifies ctx`tsAdjustment
      ensures Valid() && ctx.tsAdjustment == adjustment && State() == old(State())
    {
      ctx.tsAdjustment := adjustment;
    }

    /** query() of the current input. */
    method Query(since: int, until: int)
      returns (found: seq<Entry>, ghost popped: seq<Entry>, ghost dropped: multiset<Entry>)
      modifies ctx.metaQueue
      ensures Runs.Queried(old(State()).(prevPts := since), until, ctx.metaQueue.Contents(), popped, dropped)
      ensures old(ctx.metaQueue.Ordered()) ==> ctx.metaQueue.Ordered()
      ensures found == Answer(ctx.current, since, until, popped)
    {
      match ctx.current {
        case Clear(id) =>
          found, popped, dropped := [ResetMetadata(id, FillerTime(since, until))], [], multiset{};
        case User(id) =>
          found, dropped := ctx.metaQueue.PopAll(id, since, until);
          popped := found;
          if |found| == 0 {
            found := [EmptyMetadata(id, FillerTime(since, until))];
          }
      }
    }

    /** Rescales and adjusts the time, and asks the current input for the window that ends with it. */
    method TakeWindow(streamPts: int)
      returns (found: seq<Entry>, pts: int, ghost popped: seq<Entry>, ghost dropped: multiset<Entry>)
      requires rescaler.Valid()
      modifies this`prevPts, this`prevInputId, rescaler, ctx.metaQueue
      ensures rescaler.tsZero == Some(if old(rescaler.tsZero).None? then streamPts else old(rescaler.tsZero).value)
      ensures pts == rescaler.base +
        Rescale(streamPts - rescaler.tsZero.value, rescaler.localTimeBase, rescaler.clock.timeBase) - ctx.tsAdjustment
      ensures Runs.Step(old(State()), Runs.Packet(pts), State(), popped, dropped)
      ensures found == Injected(old(prevInputId), ctx.current, old(prevPts), pts, popped)
      ensures prevInputId == Some(ctx.current.id)
    {
      hide PoppedAll, Rescale, Runs.Queried, Answer;
      found := [];
      pts := rescaler.RescaleToClock(streamPts);
      pts := pts - ctx.tsAdjustment;
      var inputId := ctx.current.id;
      if Some(inputId) != prevInputId {
        found := found + [ResetMetadata(inputId, pts)];
      }
      prevInputId := Some(inputId);
      var answer;
      assert State().(prevPts := prevPts) == old(State());
      answer, popped, dropped := Query(prevPts, pts + 1);
      found := found + answer;
      prevPts := pts + 1;
    }

    /** The first part of process(): a packet step of the state machine. */
    method FindMetadata(streamPts: int, ghost packet: bytes)
      returns (found: seq<Entry>, pts: int, ghost popped: seq<Entry>, ghost dropped: multiset<Entry>)
      requires Valid()
      modifies this, rescaler, ctx.metaQueue
      ensures Valid() && arrivals == old(arrivals) + [Arrival(streamPts, ctx.tsAdjustment)]
      ensures pts == Times()[|arrivals| - 1]
      ensures history == Runs.Extended(old(history), Runs.Packet(pts), State(), popped, dropped)
      ensures found == Injected(old(prevInputId), ctx.current, old(prevPts), pts, popped)
      ensures prevInputId == Some(ctx.current.id)
      ensures outcomes == old(outcomes) + [Treated(old(prevInputId), packet, Rewrite(packet, Payloads(found)))]
    {
      hide Rescale, Runs.Step, Runs.PacketTimes, Adjusted, Injected, Accounted, Rewrite;
      ghost var previous := prevInputId;
      AdjustedSnoc(arrivals, Arrival(streamPts, ctx.tsAdjustment), rescaler.base, rescaler.localTimeBase,
                   rescaler.clock.timeBase);
      found, pts, popped, dropped := TakeWindow(streamPts);
      Record(Runs.Packet(pts), popped, dropped, Treated(previous, packet, Rewrite(packet, Payloads(found))));
      arrivals := arrivals + [Arrival(streamPts, ctx.tsAdjustment)];
    }

    /** process(): the packet becomes what the found metadata make of it; on a failure it stays as it was. */
    method Process(streamPts: int, packet: bytes)
      returns (r: Result<bytes>, found: seq<Entry>, pts: int, ghost popped: seq<Entry>, ghost dropped: multiset<Entry>)
      requires Valid()
      modifies this, rescaler, ctx.metaQueue
      ensures Valid() && arrivals == old(arrivals) + [Arrival(streamPts, ctx.tsAdjustment)]
      ensures pts == Times()[|arrivals| - 1]
      ensures history == Runs.Extended(old(history), Runs.Packet(pts), State(), popped, dropped)
      ensures found == Injected(old(prevInputId), ctx.current, old(prevPts), pts, popped)
      ensures prevInputId == Some(ctx.current.id)
      ensures AllEffects(Payloads(found)) == Seen(old(prevInputId), ctx.current, popped)
      ensures r == Rewrite(packet, Payloads(found))
      ensures outcomes == old(outcomes) + [Treated(old(prevInputId), packet, r)]
    {
      hide Rewrite, PoppedAll, Rescale, Injected, Runs.Step, Accounted, Seen, AllEffects;
      ghost var previous, since := prevInputId, prevPts;
      found, pts, popped, dropped := FindMetadata(streamPts, packet);
      InjectedSeen(previous, ctx.current, since, pts, popped);
      r := RewritePacket(packet, Payloads(found));
    }

    /** The window of the first packet takes in every 64-bit time up to that of the packet. */
    lemma FirstWindow(k: nat, t: int)
      requires Valid() && k < |history.events| && history.events[k].Packet?
      requires forall i :: 0 <= i < k ==> !history.events[i].Packet?
      ensures -0x8000_0000_0000_0000 <= t <= history.events[k].pts ==> Runs.Covers(history, k, t)
    {
      hide Adjusted, Runs.PacketTimes, Accounted, Runs.Step;
      Runs.WindowKept(history, k);
    }

    /**
     Whatever calls were made: if the queue was in heap order at first, no input was dropped, stream
     timestamps have not gone back and the adjustment was not raised, then the calls make up a regular
     run, so that all that holds of regular runs holds of the injector.
     */
    lemma CallsAreRegular()
      requires Valid() && history.states[0].ordered && Steady(arrivals)
      requires forall i :: 0 <= i < |history.events| ==> !history.events[i].DropId?
      requires arrivals != [] ==> TS_MIN <= rescaler.base - arrivals[0].adjustment + 1
      ensures history.Regular()
    {
      hide Rescale, Adjusted, Runs.PacketTimes;
      SteadyAscends(arrivals, rescaler.base, rescaler.localTimeBase, rescaler.clock.timeBase);
      Runs.RegularIfAscending(history);
    }
  }

  // ---------- What the viewer gets ----------

  /** The messages that the packet's own SEI NALU keeps. */
  function Kept(packet: bytes): seq<Sei> {
    NewSeis(packet, [])
  }

  /** Everything that goes into the new SEI NALU may be framed. */
  predicate MayFrame(packet: bytes, injected: seq<Entry>, popped: seq<Entry>) {
    && (forall i :: 0 <= i < |popped| ==> Framing(popped[i].val))
    && AllFraming(Kept(packet))
    && 1 + SizeHints(NewSeis(packet, Payloads(injected))) <= Nalus.MAX_LENGTH
  }

  lemma NewNalu(packet: bytes, previous: Option<nat>, input: Runs.Input, since: int, pts: int, popped: seq<Entry>)
    requires var injected := Injected(previous, input, since, pts, popped);
      Rewrite(packet, Payloads(injected)).Success? && MayFrame(packet, injected, popped)
    ensures var found := Payloads(Injected(previous, input, since, pts, popped));
      && VideoPreserved(packet, found, Rewrite(packet, found).value)
      && AllFraming(NewSeis(packet, found))
      && NewSeis(packet, found) == Kept(packet) + found
  {
    hide Rewrite, Framing, NewSeis, VideoPreserved, LengthRight, Injected, SizeHints;
    var injected := Injected(previous, input, since, pts, popped);
    var found := Payloads(injected);
    InjectedFraming(previous, input, since, pts, popped);
    NewSeisConcat(packet, found);
    NewSeisFraming(packet, found);
    RewritePreservesVideo(packet, found);
    FramingIsRight(NewSeis(packet, found));
  }

  /**
   Captions that may be framed reach the packet: if it can be rewritten and all popped and kept messages
   may be framed, the rewritten packet has exactly the NALUs of the original around an SEI NALU whose
   messages are the kept ones and then the injected ones, of which the popped ones come last.
   */
  lemma InjectedReachesPacket(packet: bytes, previous: Option<nat>, input: Runs.Input, since: int, pts: int,
                              popped: seq<Entry>)
    requires var injected := Injected(previous, input, since, pts, popped);
      Rewrite(packet, Payloads(injected)).Success? && MayFrame(packet, injected, popped)
    ensures var found := Payloads(Injected(previous, input, since, pts, popped));
      && VideoPreserved(packet, found, Rewrite(packet, found).value)
      && NewSeis(packet, found) == Kept(packet) + found
      && (input.User? ==> |popped| <= |found| && found[|found| - |popped|..] == Payloads(popped))
  {
    hide Rewrite, NewSeis, VideoPreserved, Injected, MayFrame, Kept, Payloads;
    NewNalu(packet, previous, input, since, pts, popped);
    InjectedEnds(previous, input, since, pts, popped);
  }

  lemma FramingIsRight(seis: seq<Sei>)
    requires AllFraming(seis)
    ensures LengthRight(seis)
  {
    hide SizeHints, SeiNalu;
    NaluLength(seis);
  }

  predicate AllWritable(seis: seq<Sei>) {
    forall i :: 0 <= i < |seis| ==> Writable(seis[i].payloadType) && Writable(|seis[i].data|)
  }

  /**
   What a reader of the rewritten packet gets from its SEI NALU: all messages, if and only if the packet
   kept none of its own, the input has not changed and no more than one entry was popped. Otherwise the
   stop bits between the messages are read as parts of them.
   */
  lemma ReaderGetsInjected(packet: bytes, previous: Option<nat>, input: Runs.Input, since: int, pts: int,
                           popped: seq<Entry>)
    requires var injected := Injected(previous, input, since, pts, popped);
      && Rewrite(packet, Payloads(injected)).Success? && MayFrame(packet, injected, popped)
      && AllWritable(Kept(packet)) && AllWritable(Payloads(popped))
    ensures var found := Payloads(Injected(previous, input, since, pts, popped));
      var nalus, position := Nalus.Parse(Rewrite(packet, found).value), |VideoParts(packet).leading|;
      && nalus.Success? && position < |nalus.value|
      && (ReadSeis(nalus.value[position]) == Success(Kept(packet) + found) <==>
            Kept(packet) == [] && previous == Some(input.id) && (input.User? ==> |popped| <= 1))
  {
    hide Rewrite, NewSeis, VideoParts, VideoPreserved, Nalus.Parse, SeiNalu, ReadSeis, AllWritable, AllFraming,
      Injected, MayFrame, Kept, Payloads;
    var found := Payloads(Injected(previous, input, since, pts, popped));
    NewNalu(packet, previous, input, since, pts, popped);
    InjectedWritable(previous, input, since, pts, popped);
    InjectedCount(previous, input, since, pts, popped);
    WritableConcat(Kept(packet), found);
    ReaderGets(packet, found);
  }

  lemma ReaderGets(packet: bytes, found: seq<Sei>)
    requires found != [] && Rewrite(packet, found).Success?
    requires VideoPreserved(packet, found, Rewrite(packet, found).value)
    requires NewSeis(packet, found) == Kept(packet) + found
    requires AllFraming(Kept(packet) + found) && AllWritable(Kept(packet) + found)
    ensures var nalus, position := Nalus.Parse(Rewrite(packet, found).value), |VideoParts(packet).leading|;
      && nalus.Success? && position < |nalus.value|
      && (ReadSeis(nalus.value[position]) == Success(Kept(packet) + found) <==> Kept(packet) == [] && |found| == 1)
  {
    hide Rewrite, NewSeis, VideoParts, Nalus.Parse, SeiNalu, ReadSeis, Readable, AllWritable, AllFraming, Kept;
    var seis := Kept(packet) + found;
    FramingReadable(seis);
    ReadBackOnlyOne(seis);
  }

  /** Something is injected at every packet, and exactly one message if nothing has to be reset or put together. */
  lemma InjectedCount(previous: Option<nat>, input: Runs.Input, since: int, pts: int, popped: seq<Entry>)
    ensures var n := |Injected(previous, input, since, pts, popped)|;
      n >= 1 && (n == 1 <==> previous == Some(input.id) && (input.User? ==> |popped| <= 1))
  {
  }

  lemma WritableConcat(a: seq<Sei>, b: seq<Sei>)
    requires AllWritable(a) && AllWritable(b)
    ensures AllWritable(a + b)
  {
    hide Writable;
  }

  lemma InjectedWritable(previous: Option<nat>, input: Runs.Input, since: int, pts: int, popped: seq<Entry>)
    requires AllWritable(Payloads(popped))
    ensures AllWritable(Payloads(Injected(previous, input, since, pts, popped)))
  {
    FillersAreSafe();
    var injected := Injected(previous, input, since, pts, popped);
    forall i | 0 <= i < |injected|
      ensures Writable(injected[i].val.payloadType) && Writable(|injected[i].val.data|)
    {
      if injected[i].val == EMPTY_SEI || injected[i].val == RESET_SEI {
      } else {
        assert injected[i] in popped;
        var k :| 0 <= k < |popped| && popped[k] == injected[i];
        assert Payloads(popped)[k] == injected[i].val;
      }
    }
  }

  lemma FramingReadable(seis: seq<Sei>)
    requires AllFraming(seis) && AllWritable(seis)
    ensures forall i :: 0 <= i < |seis| ==> Readable(seis[i])
  {
    forall i | 0 <= i < |seis|
      ensures Readable(seis[i])
    {
      assert Framing(seis[i]);
      Rbsp.NoneMissedNoOverlap(seis[i].data);
    }
  }

  lemma InjectedFraming(previous: Option<nat>, input: Runs.Input, since: int, pts: int, popped: seq<Entry>)
    requires forall i :: 0 <= i < |popped| ==> Framing(popped[i].val)
    ensures var found := Injected(previous, input, since, pts, popped);
      forall i :: 0 <= i < |found| ==> Framing(found[i].val)
  {
    FillersAreSafe();
    hide Framing;
    var found := Injected(previous, input, since, pts, popped);
    forall i | 0 <= i < |found|
      ensures Framing(found[i].val)
    {
      if found[i] !in popped {
        assert found[i].val == EMPTY_SEI || found[i].val == RESET_SEI;
      }
    }
  }

  lemma InjectedEnds(previous: Option<nat>, input: Runs.Input, since: int, pts: int, popped: seq<Entry>)
    ensures var found := Payloads(Injected(previous, input, since, pts, popped));
      input.User? ==> |popped| <= |found| && found[|found| - |popped|..] == Payloads(popped)
  {
    hide ResetMetadata, EmptyMetadata, Payloads;
    if input.User? {
      var injected := Injected(previous, input, since, pts, popped);
      var front := injected[..|injected| - |popped|];
      assert injected == front + popped;
      PayloadsEnd(front, popped);
    }
  }

  lemma PayloadsEnd(front: seq<Entry>, popped: seq<Entry>)
    ensures Payloads(front + popped)[|front|..] == Payloads(popped)
  {
  }
}
