/** The bounded audit queue: emitters, one drain goroutine and Close, as labelled atomic steps. */
module AsyncSink {
  import opened Entries

  type Event = string

  /** Where the drain goroutine stands. */
  datatype Drain =
    | Waiting                                  // at the outer select
    | Forwarding(event: Event, closing: bool)  // handing one event to the wrapped sink
    | Flushing                                 // at the inner select, after Close was seen
    | Exited

  datatype Reason = Full | Closed

  /** A dropped event with the queue length and the closed flag at that moment. */
  datatype Drop = Drop(event: Event, reason: Reason, queued: nat, closed: bool)

  datatype Sink = Sink(
    capacity: nat, buffer: seq<Event>, closed: bool, drain: Drain,
    // history
    emitted: seq<Event>, accepted: seq<Event>, forwarded: seq<Event>, dropped: seq<Drop>,
    acceptedAtClose: Option<seq<Event>>)

  datatype Label =
    | Accept(event: Event) | DropFull(event: Event) | DropClosed(event: Event)
    | Receive | Forward | SeeClosed | Exit | Close

  /** A capacity below one becomes one. */
  function NewAsyncSink(n: int): Sink {
    Sink(if n < 1 then 1 else n, [], false, Waiting, [], [], [], [], None)
  }

  // ---------------------------------------------------------------- the steps

  /** The sends and receives a select may choose from; the default branch only when none is ready. */
  predicate Enabled(s: Sink, l: Label) {
    match l
    case Accept(_) => |s.buffer| < s.capacity
    case DropClosed(_) => s.closed
    case DropFull(_) => |s.buffer| >= s.capacity && !s.closed
    case Receive => (s.drain.Waiting? || s.drain.Flushing?) && s.buffer != []
    case Forward => s.drain.Forwarding?
    case SeeClosed => s.drain.Waiting? && s.closed
    case Exit => s.drain.Flushing? && s.buffer == []
    case Close => true
  }

  function Step(s: Sink, l: Label): Sink
    requires Enabled(s, l)
  {
    match l
    case Accept(e) => s.(buffer := s.buffer + [e], emitted := s.emitted + [e], accepted := s.accepted + [e])
    case DropFull(e) => s.(emitted := s.emitted + [e], dropped := s.dropped + [Drop(e, Full, |s.buffer|, s.closed)])
    case DropClosed(e) => s.(emitted := s.emitted + [e], dropped := s.dropped + [Drop(e, Closed, |s.buffer|, s.closed)])
    case Receive => s.(buffer := s.buffer[1..], drain := Forwarding(s.buffer[0], s.drain.Flushing?))
    case Forward =>
      s.(forwarded := s.forwarded + [s.drain.event], drain := if s.drain.closing then Flushing else Waiting)
    case SeeClosed => s.(drain := Flushing)
    case Exit => s.(drain := Exited)
    case Close =>
      if s.closed then s else s.(closed := true, acceptedAtClose := Some(s.accepted))
  }

  ghost predicate IsRun(ss: seq<Sink>, ls: seq<Label>) {
    && |ss| == |ls| + 1
    && forall i :: 0 <= i < |ls| ==> Enabled(ss[i], ls[i]) && ss[i + 1] == Step(ss[i], ls[i])
  }

  // ---------------------------------------------------------------- what every step keeps

  function InHand(s: Sink): seq<Event> {
    if s.drain.Forwarding? then [s.drain.event] else []
  }

  function DroppedEvents(ds: seq<Drop>): seq<Event> {
    if ds == [] then [] else DroppedEvents(ds[..|ds| - 1]) + [ds[|ds| - 1].event]
  }

  predicate Justified(d: Drop, capacity: nat) {
    match d.reason
    case Full => d.queued >= capacity
    case Closed => d.closed
  }

  /** First in, first out, exactly once, and never more than the capacity in the buffer. */
  ghost predicate QueueInv(s: Sink) {
    && s.capacity > 0 && |s.buffer| <= s.capacity
    && s.forwarded + (InHand(s) + s.buffer) == s.accepted
  }

  /** Every emitted event was accepted or dropped, and dropped only for a reason. */
  ghost predicate DropInv(s: Sink) {
    && multiset(s.emitted) == multiset(s.accepted) + multiset(DroppedEvents(s.dropped))
    && (forall i :: 0 <= i < |s.dropped| ==> Justified(s.dropped[i], s.capacity))
  }

  predicate Closing(d: Drain) {
    d.Flushing? || d.Exited? || (d.Forwarding? && d.closing)
  }

  ghost predicate CloseInv(s: Sink) {
    && (s.closed <==> s.acceptedAtClose.Some?)
    && (Closing(s.drain) ==> s.closed)
    && (s.acceptedAtClose.Some? ==> s.acceptedAtClose.value <= s.accepted)
    && (s.drain.Exited? ==> s.acceptedAtClose.Some? && s.acceptedAtClose.value <= s.forwarded)
  }

  ghost predicate Inv(s: Sink) {
    QueueInv(s) && DropInv(s) && CloseInv(s)
  }

  lemma NewSinkInv(n: int)
    ensures Inv(NewAsyncSink(n))
  {
  }

  lemma DroppedSnoc(ds: seq<Drop>, d: Drop)
    ensures DroppedEvents(ds + [d]) == DroppedEvents(ds) + [d.event]
  {
    assert (ds + [d])[..|ds|] == ds;
  }

  lemma Requeue(f: seq<Event>, b: seq<Event>)
    requires b != []
    ensures f + ([] + b) == f + ([b[0]] + b[1..])
  {
    assert b == [b[0]] + b[1..];
  }

  lemma HandOver(f: seq<Event>, e: Event, b: seq<Event>)
    ensures f + ([e] + b) == (f + [e]) + ([] + b)
  {
  }

  lemma Enqueue(f: seq<Event>, h: seq<Event>, b: seq<Event>, e: Event)
    ensures f + (h + (b + [e])) == f + (h + b) + [e]
  {
  }

  lemma QueueStep(s: Sink, l: Label)
    requires QueueInv(s) && Enabled(s, l)
    ensures QueueInv(Step(s, l))
  {
    match l
    case Accept(e) => Enqueue(s.forwarded, InHand(s), s.buffer, e);
    case Receive => Requeue(s.forwarded, s.buffer);
    case Forward => HandOver(s.forwarded, s.drain.event, s.buffer);
    case _ =>
  }

  /** One more drop, with its reason. */
  lemma DropOne(s: Sink, d: Drop)
    requires DropInv(s) && Justified(d, s.capacity)
    ensures DropInv(s.(emitted := s.emitted + [d.event], dropped := s.dropped + [d]))
  {
    DroppedSnoc(s.dropped, d);
  }

  lemma DropStep(s: Sink, l: Label)
    requires DropInv(s) && Enabled(s, l)
    ensures DropInv(Step(s, l))
  {
    match l
    case DropFull(e) => DropOne(s, Drop(e, Full, |s.buffer|, s.closed));
    case DropClosed(e) => DropOne(s, Drop(e, Closed, |s.buffer|, s.closed));
    case _ =>
  }

  /** An empty buffer and an empty hand: everything accepted has been forwarded. */
  lemma NothingPending(s: Sink)
    requires QueueInv(s) && s.buffer == [] && !s.drain.Forwarding?
    ensures s.forwarded == s.accepted
  {
    assert s.forwarded + ([] + []) == s.forwarded;
  }

  lemma CloseStep(s: Sink, l: Label)
    requires QueueInv(s) && CloseInv(s) && Enabled(s, l)
    ensures CloseInv(Step(s, l))
  {
    if l.Exit? { NothingPending(s); }
  }

  lemma StepKeepsInv(s: Sink, l: Label)
    requires Inv(s) && Enabled(s, l)
    ensures Inv(Step(s, l))
  {
    QueueStep(s, l);
    DropStep(s, l);
    CloseStep(s, l);
  }

  predicate IsEmit(l: Label, e: Event) {
    l == Accept(e) || l == DropFull(e) || l == DropClosed(e)
  }

  /** Emit never waits: it always has a step, whatever the drain is doing, and its step leaves the drain alone. */
  lemma EmitNeverBlocks(s: Sink, e: Event)
    ensures exists l :: IsEmit(l, e) && Enabled(s, l)
    ensures forall l :: IsEmit(l, e) && Enabled(s, l) ==>
      var t := Step(s, l);
      t.emitted == s.emitted + [e] && t.drain == s.drain && t.forwarded == s.forwarded && t.closed == s.closed
  {
    var l := if |s.buffer| < s.capacity then Accept(e) else if s.closed then DropClosed(e) else DropFull(e);
    assert IsEmit(l, e) && Enabled(s, l);
  }

  /** Before Close an event is accepted exactly if there is room; after Close it may be dropped in any case. */
  lemma EmitAccepts(s: Sink, e: Event, l: Label)
    requires IsEmit(l, e) && Enabled(s, l)
    ensures l.Accept? <==> Step(s, l).buffer == s.buffer + [e] && Step(s, l).accepted == s.accepted + [e]
    ensures !s.closed ==> (l.Accept? <==> |s.buffer| < s.capacity)
    ensures !l.Accept? ==> Step(s, l).buffer == s.buffer && Step(s, l).accepted == s.accepted
    ensures l.DropFull? ==> !s.closed && |s.buffer| >= s.capacity
    ensures l.DropClosed? ==> s.closed
    ensures s.closed ==> Enabled(s, DropClosed(e))
  {
    assert |s.buffer + [e]| == |s.buffer| + 1;
  }

  /** Close never waits either, may come again, and takes nothing out of the queue. */
  lemma CloseKeepsQueue(s: Sink)
    ensures Enabled(s, Close) && Step(s, Close).closed
    ensures var t := Step(s, Close);
      t.buffer == s.buffer && t.drain == s.drain && t.accepted == s.accepted && t.forwarded == s.forwarded
    ensures s.closed ==> Step(s, Close) == s
  {
  }

  lemma StepKeepsCapacity(s: Sink, l: Label)
    requires Enabled(s, l)
    ensures Step(s, l).capacity == s.capacity
  {
  }

  /** In every run: first in, first out, exactly once, within capacity, and every drop has its reason. */
  lemma {:induction false} RunKeepsInv(n: int, ss: seq<Sink>, ls: seq<Label>, i: nat)
    requires IsRun(ss, ls) && ss[0] == NewAsyncSink(n) && i < |ss|
    ensures Inv(ss[i]) && ss[i].capacity == if n < 1 then 1 else n
    decreases i
  {
    if i == 0 {
      NewSinkInv(n);
    } else {
      RunKeepsInv(n, ss, ls, i - 1);
      StepKeepsInv(ss[i - 1], ls[i - 1]);
      StepKeepsCapacity(ss[i - 1], ls[i - 1]);
    }
  }

  /** When drain exits, everything accepted so far has been forwarded, in order. */
  lemma ExitForwardsAll(n: int, ss: seq<Sink>, ls: seq<Label>, i: nat)
    requires IsRun(ss, ls) && ss[0] == NewAsyncSink(n) && i < |ls| && ls[i].Exit?
    ensures ss[i + 1].forwarded == ss[i + 1].accepted
  {
    RunKeepsInv(n, ss, ls, i);
    NothingPending(ss[i]);
  }

  /** Once drain has exited, every event accepted before Close stays forwarded, in order, whatever is emitted later. */
  lemma AcceptedBeforeCloseIsForwarded(n: int, ss: seq<Sink>, ls: seq<Label>, i: nat)
    requires IsRun(ss, ls) && ss[0] == NewAsyncSink(n) && i < |ss| && ss[i].drain.Exited?
    ensures ss[i].closed && ss[i].acceptedAtClose.Some?
    ensures ss[i].acceptedAtClose.value <= ss[i].forwarded
  {
    RunKeepsInv(n, ss, ls, i);
  }

  // ---------------------------------------------------------------- progress of the drain

  predicate IsDrainStep(l: Label) {
    l.Receive? || l.Forward? || l.SeeClosed? || l.Exit?
  }

  /** How many drain steps are left once the sink is closed and nothing more is accepted. */
  function Left(s: Sink): nat {
    2 * |s.buffer| + match s.drain
      case Waiting => 2
      case Forwarding(_, closing) => if closing then 2 else 3
      case Flushing => 1
      case Exited => 0
  }

  /** After Close the drain is never stuck and every one of its steps brings the exit nearer. */
  lemma DrainProgresses(s: Sink)
    requires s.closed && !s.drain.Exited?
    ensures exists l :: IsDrainStep(l) && Enabled(s, l)
    ensures forall l :: IsDrainStep(l) && Enabled(s, l) ==> Left(Step(s, l)) < Left(s)
  {
    if s.drain.Forwarding? {
      assert Enabled(s, Forward) && IsDrainStep(Forward);
    } else if s.buffer != [] {
      assert Enabled(s, Receive) && IsDrainStep(Receive);
    } else if s.drain.Waiting? {
      assert Enabled(s, SeeClosed) && IsDrainStep(SeeClosed);
    } else {
      assert Enabled(s, Exit) && IsDrainStep(Exit);
    }
  }

  function DrainLabel(s: Sink): Label {
    if s.drain.Forwarding? then Forward
    else if s.buffer != [] then Receive
    else if s.drain.Waiting? then SeeClosed
    else Exit
  }

  /** Run alone after Close, the drain exits with everything accepted forwarded. */
  method DrainToExit(s: Sink) returns (t: Sink)
    requires Inv(s) && s.closed && !s.drain.Exited?
    ensures Inv(t) && t.drain.Exited? && t.accepted == s.accepted && t.forwarded == t.accepted
  {
    t := s;
    while !t.drain.Exited?
      invariant Inv(t) && t.closed && t.accepted == s.accepted
      invariant t.drain.Exited? ==> t.forwarded == t.accepted
      decreases Left(t)
    {
      var l := DrainLabel(t);
      DrainProgresses(t);
      StepKeepsInv(t, l);
      if l.Exit? { NothingPending(t); }
      t := Step(t, l);
    }
  }
}
