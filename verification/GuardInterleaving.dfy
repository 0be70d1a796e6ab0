/** Any number of writes in flight on one guard, each a few separately locked steps. */
module GuardInterleaving {
  import opened Text
  import opened Entries
  import opened Stores
  import opened Principals
  import opened KeyPolicy
  import opened Guard

  /** Where one ValidateWrite call stands between its critical sections. */
  datatype Pc =
    | Ready
    | Accepted(flags: seq<string>, answers: seq<string>, asked: nat) // past the policy; so many inspectors asked
    | Finished(result: WriteResult)

  datatype Thread = Thread(write: Write, pc: Pc)

  /** The guard's shared state, the calls in flight or done, and which call minted each id. */
  datatype System = System(state: State, threads: map<nat, Thread>, origin: map<string, nat>)

  datatype Label =
    | Start(tid: nat, write: Write)
    | Check(tid: nat)          // injection gate and key policy: the baseline lock
    | Inspect(tid: nat)        // the next inspector's own lock
    | Put(tid: nat, id: string) // the store lock
    | Delete(id: string)

  const EMPTY := System(State(map[], map[], map[]), map[], map[])

  // ---------------------------------------------------------------- the steps

  predicate Hashed(env: Env, w: Write) {
    w.contentHash == BaselineHash(env, w.content)
  }

  /** Minted ids are fresh. */
  predicate Enabled(env: Env, s: System, l: Label) {
    match l
    case Start(tid, w) => tid !in s.threads && Hashed(env, w)
    case Check(tid) => tid in s.threads && s.threads[tid].pc.Ready?
    case Inspect(tid) =>
      tid in s.threads && s.threads[tid].pc.Accepted? && s.threads[tid].pc.asked < |env.inspectors|
    case Put(tid, id) =>
      && tid in s.threads && s.threads[tid].pc.Accepted? && s.threads[tid].pc.asked == |env.inspectors|
      && id !in s.origin
    case Delete(_) => true
  }

  function CheckedPc(env: Env, w: Write, b: Baselines): Pc {
    var o := KeyOutcome(env, w, b);
    if Injected(w) then Finished(Blocked(w.flags))
    else if o.reject then Finished(Blocked(w.flags + o.flags))
    else Accepted(w.flags + o.flags, [], 0)
  }

  function CheckedBaselines(env: Env, w: Write, b: Baselines): Baselines {
    if Injected(w) then b else KeyOutcome(env, w, b).baselines
  }

  function At(s: System, tid: nat, pc: Pc): System
    requires tid in s.threads
  {
    s.(threads := s.threads[tid := s.threads[tid].(pc := pc)])
  }

  function Step(env: Env, s: System, l: Label): System
    requires Enabled(env, s, l)
  {
    match l
    case Start(tid, w) => s.(threads := s.threads[tid := Thread(w, Ready)])
    case Check(tid) =>
      var w := s.threads[tid].write;
      At(s, tid, CheckedPc(env, w, s.state.baselines)).(
        state := s.state.(baselines := CheckedBaselines(env, w, s.state.baselines)))
    case Inspect(tid) =>
      var Thread(w, Accepted(flags, answers, asked)) := s.threads[tid];
      At(s, tid, Accepted(flags, answers + Answer(env, w, s.state.log, asked), asked + 1)).(
        state := s.state.(log := Recorded(w, s.state.log, asked)))
    case Put(tid, id) =>
      var Thread(_, Accepted(before, answers, _)) := s.threads[tid];
      var flags := before + Merged(env, answers);
      At(s, tid, Finished(Stored(id, flags))).(
        state := s.state.(store := s.state.store[id := EntryFor(s.threads[tid].write, flags)]),
        origin := s.origin[id := tid])
    case Delete(id) => s.(state := AfterDelete(s.state, id))
  }

  ghost predicate IsRun(env: Env, ss: seq<System>, ls: seq<Label>) {
    && |ss| == |ls| + 1 && ss[0] == EMPTY
    && forall i :: 0 <= i < |ls| ==> Enabled(env, ss[i], ls[i]) && ss[i + 1] == Step(env, ss[i], ls[i])
  }

  /** Where these steps lead, if each can be taken. */
  function After(env: Env, s: System, ls: seq<Label>): Option<System> {
    if ls == [] then Some(s)
    else
      var before, l := After(env, s, ls[..|ls| - 1]), ls[|ls| - 1];
      if before.Some? && Enabled(env, before.value, l) then Some(Step(env, before.value, l)) else None
  }

  lemma AfterSnoc(env: Env, s: System, ls: seq<Label>, t: System, l: Label)
    requires After(env, s, ls) == Some(t) && Enabled(env, t, l)
    ensures After(env, s, ls + [l]) == Some(Step(env, t, l))
  {
    assert (ls + [l])[..|ls|] == ls;
  }

  /** The system once the call has asked its first `n` inspectors with nothing in between. */
  function AfterAsking(env: Env, s: System, tid: nat, n: nat): System
    requires tid in s.threads && s.threads[tid].pc.Accepted? && n <= |env.inspectors|
  {
    var w := s.threads[tid].write;
    At(s, tid, Accepted(s.threads[tid].pc.flags, Answers(env, w, s.state.log, n), n)).(
      state := s.state.(log := Asked(w, s.state.log, n)))
  }

  lemma AskOne(env: Env, s: System, tid: nat, n: nat)
    requires tid in s.threads && s.threads[tid].pc.Accepted? && n < |env.inspectors|
    ensures Enabled(env, AfterAsking(env, s, tid, n), Inspect(tid))
    ensures Step(env, AfterAsking(env, s, tid, n), Inspect(tid)) == AfterAsking(env, s, tid, n + 1)
  {
    var w := s.threads[tid].write;
    AskedOnce(w, s.state.log, n, n, w.boundKey);
    var before, after := AfterAsking(env, s, tid, n), AfterAsking(env, s, tid, n + 1);
    assert before.threads[tid].write == w;
    assert Step(env, before, Inspect(tid)).threads == after.threads;
  }

  lemma AskNone(env: Env, s: System, tid: nat)
    requires tid in s.threads && s.threads[tid].pc.Accepted?
    requires s.threads[tid].pc.answers == [] && s.threads[tid].pc.asked == 0
    ensures AfterAsking(env, s, tid, 0) == s
  {
    assert s.threads[tid := s.threads[tid]] == s.threads;
  }

  lemma AskMore(env: Env, start: System, ls: seq<Label>, s: System, tid: nat, n: nat)
    requires tid in s.threads && s.threads[tid].pc.Accepted? && n < |env.inspectors|
    requires After(env, start, ls) == Some(AfterAsking(env, s, tid, n))
    ensures After(env, start, ls + [Inspect(tid)]) == Some(AfterAsking(env, s, tid, n + 1))
  {
    AskOne(env, s, tid, n);
    AfterSnoc(env, start, ls, AfterAsking(env, s, tid, n), Inspect(tid));
  }

  function AskLabels(tid: nat, n: nat): seq<Label> {
    seq(n, i => Inspect(tid))
  }

  lemma AskLabelsNone(ls: seq<Label>, tid: nat)
    ensures ls + AskLabels(tid, 0) == ls
  {
  }

  lemma AskLabelsSnoc(ls: seq<Label>, tid: nat, n: nat)
    requires n > 0
    ensures ls + AskLabels(tid, n) == ls + AskLabels(tid, n - 1) + [Inspect(tid)]
  {
  }

  /** So many inspector steps lead where asking that many inspectors leads. */
  ghost predicate AskedBy(env: Env, start: System, ls: seq<Label>, s: System, tid: nat, n: nat) {
    && tid in s.threads && s.threads[tid].pc.Accepted? && n <= |env.inspectors|
    && After(env, start, ls + AskLabels(tid, n)) == Some(AfterAsking(env, s, tid, n))
  }

  lemma AskedByNone(env: Env, start: System, ls: seq<Label>, s: System, tid: nat)
    requires After(env, start, ls) == Some(s) && tid in s.threads && s.threads[tid].pc.Accepted?
    requires s.threads[tid].pc.answers == [] && s.threads[tid].pc.asked == 0
    ensures AskedBy(env, start, ls, s, tid, 0)
  {
    AskNone(env, s, tid);
    AskLabelsNone(ls, tid);
  }

  lemma AskedByOneMore(env: Env, start: System, ls: seq<Label>, s: System, tid: nat, n: nat)
    requires AskedBy(env, start, ls, s, tid, n) && n < |env.inspectors|
    ensures AskedBy(env, start, ls, s, tid, n + 1)
  {
    AskMore(env, start, ls + AskLabels(tid, n), s, tid, n);
    AskLabelsSnoc(ls, tid, n + 1);
  }

  ghost function Asking(env: Env, start: System, ls: seq<Label>, s: System, tid: nat): nat -> bool {
    var asked := AskedBy; // a function value keeps the steps folded
    (n: nat) => asked(env, start, ls, s, tid, n)
  }

  lemma AskingOneMore(env: Env, start: System, ls: seq<Label>, s: System, tid: nat, n: nat)
    requires Asking(env, start, ls, s, tid)(n) && n < |env.inspectors|
    ensures Asking(env, start, ls, s, tid)(n + 1)
  {
    assert Asking(env, start, ls, s, tid)(n) == AskedBy(env, start, ls, s, tid, n);
    AskedByOneMore(env, start, ls, s, tid, n);
    assert Asking(env, start, ls, s, tid)(n + 1) == AskedBy(env, start, ls, s, tid, n + 1);
  }

  lemma {:induction false} Counting(p: nat -> bool, n: nat)
    requires p(0) && forall i :: 0 <= i < n && p(i) ==> p(i + 1)
    ensures p(n)
  {
    if n > 0 { Counting(p, n - 1); }
  }

  lemma AskingAll(env: Env, start: System, ls: seq<Label>, s: System, tid: nat, n: nat)
    requires Asking(env, start, ls, s, tid)(0) && n <= |env.inspectors|
    ensures Asking(env, start, ls, s, tid)(n)
  {
    forall i | 0 <= i < n && Asking(env, start, ls, s, tid)(i) ensures Asking(env, start, ls, s, tid)(i + 1) {
      AskingOneMore(env, start, ls, s, tid, i);
    }
    Counting(Asking(env, start, ls, s, tid), n);
  }

  /** The call's inspector steps, one after another. */
  lemma InspectSteps(env: Env, start: System, ls: seq<Label>, s: System, tid: nat, n: nat)
    requires After(env, start, ls) == Some(s) && tid in s.threads && n <= |env.inspectors|
    requires s.threads[tid].pc.Accepted? && s.threads[tid].pc.answers == [] && s.threads[tid].pc.asked == 0
    ensures After(env, start, ls + AskLabels(tid, n)) == Some(AfterAsking(env, s, tid, n))
  {
    AskedByNone(env, start, ls, s, tid);
    AskingAll(env, start, ls, s, tid, n);
    assert AskedBy(env, start, ls, s, tid, n);
  }

  /** The steps of one write. */
  function WriteLabels(env: Env, s: State, tid: nat, w: Write, id: string): seq<Label> {
    [Start(tid, w), Check(tid)]
    + (if IsBlocked(env, s, w) then [] else AskLabels(tid, |env.inspectors|) + [Put(tid, id)])
  }

  lemma FirstSteps(env: Env, s: System, tid: nat, w: Write) returns (t: System)
    requires tid !in s.threads && Hashed(env, w)
    ensures After(env, s, [Start(tid, w), Check(tid)]) == Some(t)
    ensures t.state == s.state.(baselines := CheckedBaselines(env, w, s.state.baselines)) && t.origin == s.origin
    ensures t.threads == s.threads[tid := Thread(w, CheckedPc(env, w, s.state.baselines))]
  {
    var s1 := Step(env, s, Start(tid, w));
    assert After(env, s, []) == Some(s);
    AfterSnoc(env, s, [], s, Start(tid, w));
    AfterSnoc(env, s, [Start(tid, w)], s1, Check(tid));
    assert [] + [Start(tid, w)] == [Start(tid, w)] && [Start(tid, w)] + [Check(tid)] == [Start(tid, w), Check(tid)];
    t := Step(env, s1, Check(tid));
  }

  /** Run without interference, the steps of a write are the one call. */
  lemma SequentialWriteIsAfterWrite(env: Env, s: System, tid: nat, w: Write, id: string)
    requires tid !in s.threads && id !in s.origin && Hashed(env, w)
    ensures var t := After(env, s, WriteLabels(env, s.state, tid, w, id));
      && t.Some? && t.value.state == AfterWrite(env, s.state, w, id)
      && t.value.threads == s.threads[tid := Thread(w, Finished(ResultOf(env, s.state, w, id)))]
  {
    var first := [Start(tid, w), Check(tid)];
    var t := FirstSteps(env, s, tid, w);
    BlockedKeepsBaselines(env, w, s.state.baselines);
    if IsBlocked(env, s.state, w) {
      var o := KeyOutcome(env, w, s.state.baselines);
      assert w.flags + o.flags + [] == w.flags + o.flags;
      assert first + [] == first;
    } else {
      var n := |env.inspectors|;
      InspectSteps(env, s, first, t, tid, n);
      AfterSnoc(env, s, first + AskLabels(tid, n), AfterAsking(env, t, tid, n), Put(tid, id));
      assert first + (AskLabels(tid, n) + [Put(tid, id)]) == first + AskLabels(tid, n) + [Put(tid, id)];
      PutIsLast(env, s, t, tid, w, id);
    }
  }

  /** The write is what some request comes to. */
  ghost predicate IsPrepared(env: Env, w: Write) {
    exists req :: w == Prepared(env, req)
  }

  lemma PreparedIsHashed(env: Env, w: Write)
    requires IsPrepared(env, w)
    ensures Hashed(env, w)
  {
  }

  /** A request run as steps, without interference, does what the guard's ValidateWrite does in one call. */
  lemma CallIsRun(env: Env, s: System, tid: nat, req: Request, id: string)
    requires tid !in s.threads && id !in s.origin
    ensures var w := Prepared(env, req);
      var t := After(env, s, WriteLabels(env, s.state, tid, w, id));
      && t.Some? && t.value.state == AfterWrite(env, s.state, w, id)
      && t.value.threads == s.threads[tid := Thread(w, Finished(ResultOf(env, s.state, w, id)))]
  {
    var w := Prepared(env, req);
    PreparedIsHashed(env, w);
    SequentialWriteIsAfterWrite(env, s, tid, w, id);
  }

  lemma PutIsLast(env: Env, s: System, t: System, tid: nat, w: Write, id: string)
    requires !IsBlocked(env, s.state, w) && id !in t.origin
    requires t.state == s.state.(baselines := CheckedBaselines(env, w, s.state.baselines))
    requires t.threads == s.threads[tid := Thread(w, CheckedPc(env, w, s.state.baselines))]
    ensures var u := Step(env, AfterAsking(env, t, tid, |env.inspectors|), Put(tid, id));
      && u.state == AfterWrite(env, s.state, w, id)
      && u.threads == s.threads[tid := Thread(w, Finished(ResultOf(env, s.state, w, id)))]
  {
  }

  lemma BlockedKeepsBaselines(env: Env, w: Write, b: Baselines)
    ensures CheckedPc(env, w, b).Finished? ==> CheckedBaselines(env, w, b) == b
    ensures Pins(b, CheckedBaselines(env, w, b))
  {
    if w.key != "" { EvaluatePins(env.glob, env.policy, b, w.key, w.contentHash, w.attested); }
  }

  // ---------------------------------------------------------------- invariants

  /** The call has passed the policy. */
  predicate Passing(t: Thread) {
    t.pc.Accepted? || (t.pc.Finished? && t.pc.result.allow)
  }

  /** A reserved key that a call has passed is pinned to that call's content. */
  predicate Pinned(t: Thread, b: Baselines) {
    Passing(t) && IsReserved(t.write.key) ==> t.write.key in b && b[t.write.key] == t.write.contentHash
  }

  /** allow, a minted id and a state other than block go together. */
  predicate Consistent(r: WriteResult) {
    && (r.allow <==> r.state != Block)
    && (r.allow <==> r.id.Some?)
    && (r.allow ==> r == Stored(r.id.value, r.flags))
  }

  ghost predicate ThreadInv(env: Env, s: System) {
    forall tid :: tid in s.threads ==>
      && Hashed(env, s.threads[tid].write)
      && Pinned(s.threads[tid], s.state.baselines)
      && (s.threads[tid].pc.Finished? ==> Consistent(s.threads[tid].pc.result))
  }

  /** The call that minted `id` has finished with it. */
  predicate Minted(s: System, id: string) {
    && id in s.origin && s.origin[id] in s.threads
    && s.threads[s.origin[id]].pc.Finished?
    && s.threads[s.origin[id]].pc.result.id == Some(id)
  }

  ghost predicate OriginInv(s: System) {
    && (forall id :: id in s.origin ==> Minted(s, id))
    && (forall tid :: tid in s.threads && s.threads[tid].pc.Finished? && s.threads[tid].pc.result.id.Some? ==>
          s.threads[tid].pc.result.id.value in s.origin && s.origin[s.threads[tid].pc.result.id.value] == tid)
  }

  /** Every stored entry is what its call decided to store. */
  ghost predicate StoreInv(s: System) {
    forall id :: id in s.state.store ==>
      Minted(s, id)
      && s.state.store[id] == EntryFor(s.threads[s.origin[id]].write, s.threads[s.origin[id]].pc.result.flags)
  }

  ghost predicate Inv(env: Env, s: System) {
    ThreadInv(env, s) && OriginInv(s) && StoreInv(s)
  }

  lemma CheckPins(env: Env, w: Write, b: Baselines)
    ensures CheckedPc(env, w, b).Accepted? && IsReserved(w.key) ==>
      var b' := CheckedBaselines(env, w, b); w.key in b' && b'[w.key] == w.contentHash
    ensures CheckedPc(env, w, b).Finished? ==> Consistent(CheckedPc(env, w, b).result)
  {
    if IsReserved(w.key) { ReservedPassesIff(env.glob, env.policy, b, w.key, w.contentHash, w.attested); }
  }

  lemma ThreadStep(env: Env, s: System, l: Label)
    requires ThreadInv(env, s) && Enabled(env, s, l)
    ensures ThreadInv(env, Step(env, s, l))
  {
    if l.Check? {
      var w := s.threads[l.tid].write;
      CheckPins(env, w, s.state.baselines);
      BlockedKeepsBaselines(env, w, s.state.baselines);
    }
  }

  lemma OriginStep(env: Env, s: System, l: Label)
    requires OriginInv(s) && Enabled(env, s, l)
    ensures OriginInv(Step(env, s, l))
  {
    var s' := Step(env, s, l);
    forall id | id in s'.origin ensures Minted(s', id) {
      if id in s.origin { assert Minted(s, id); }
    }
  }

  lemma StoreStep(env: Env, s: System, l: Label)
    requires OriginInv(s) && StoreInv(s) && Enabled(env, s, l)
    ensures StoreInv(Step(env, s, l))
  {
    var s' := Step(env, s, l);
    forall id | id in s'.state.store
      ensures Minted(s', id)
        && s'.state.store[id] == EntryFor(s'.threads[s'.origin[id]].write, s'.threads[s'.origin[id]].pc.result.flags)
    {
      if id in s.state.store { assert Minted(s, id); }
    }
  }

  lemma {:induction false} RunKeepsInv(env: Env, ss: seq<System>, ls: seq<Label>, i: nat)
    requires IsRun(env, ss, ls) && i < |ss|
    ensures Inv(env, ss[i])
    decreases i
  {
    if i > 0 {
      RunKeepsInv(env, ss, ls, i - 1);
      ThreadStep(env, ss[i - 1], ls[i - 1]);
      OriginStep(env, ss[i - 1], ls[i - 1]);
      StoreStep(env, ss[i - 1], ls[i - 1]);
    }
  }

  // ---------------------------------------------------------------- baselines

  /** Under every interleaving a baseline, once set, never changes. */
  lemma {:induction false} BaselinesArePinned(env: Env, ss: seq<System>, ls: seq<Label>, i: nat, j: nat)
    requires IsRun(env, ss, ls) && i <= j < |ss|
    ensures Pins(ss[i].state.baselines, ss[j].state.baselines)
    decreases j
  {
    if i < j {
      BaselinesArePinned(env, ss, ls, i, j - 1);
      PinsStep(env, ss[j - 1], ls[j - 1]);
    }
  }

  lemma PinsStep(env: Env, s: System, l: Label)
    requires Enabled(env, s, l)
    ensures Pins(s.state.baselines, Step(env, s, l).state.baselines)
  {
    if l.Check? { BlockedKeepsBaselines(env, s.threads[l.tid].write, s.state.baselines); }
  }

  function KeyOf(s: System, id: string): string
    requires Minted(s, id)
  {
    s.threads[s.origin[id]].write.key
  }

  /** Every entry stored under a reserved key hashes to that key's baseline. */
  lemma ReservedEntryIsBaseline(env: Env, ss: seq<System>, ls: seq<Label>, i: nat, id: string)
    requires IsRun(env, ss, ls) && i < |ss| && id in ss[i].state.store
    ensures Minted(ss[i], id)
    ensures IsReserved(KeyOf(ss[i], id)) ==>
      && KeyOf(ss[i], id) in ss[i].state.baselines
      && ss[i].state.baselines[KeyOf(ss[i], id)] == BaselineHash(env, ss[i].state.store[id].content)
  {
    RunKeepsInv(env, ss, ls, i);
    var t := ss[i].threads[ss[i].origin[id]];
    assert Pinned(t, ss[i].state.baselines) && Consistent(t.pc.result);
  }

  /** With an injective hash all entries ever stored under one reserved key hold the same redacted content. */
  lemma ReservedEntriesAgree(env: Env, ss: seq<System>, ls: seq<Label>, i: nat, id: string, j: nat, id': string)
    requires IsRun(env, ss, ls) && i <= j < |ss| && Injective(env.hash)
    requires id in ss[i].state.store && id' in ss[j].state.store
    requires Minted(ss[i], id) && Minted(ss[j], id')
    requires IsReserved(KeyOf(ss[i], id)) && KeyOf(ss[i], id) == KeyOf(ss[j], id')
    ensures ss[i].state.store[id].content == ss[j].state.store[id'].content
  {
    ReservedEntryIsBaseline(env, ss, ls, i, id);
    ReservedEntryIsBaseline(env, ss, ls, j, id');
    BaselinesArePinned(env, ss, ls, i, j);
    BaselineHashInjective(env, ss[i].state.store[id].content, ss[j].state.store[id'].content);
  }

  // ---------------------------------------------------------------- what is stored, from the requests

  /** The calls are those of these requests. */
  ghost predicate Asks(env: Env, ls: seq<Label>, reqs: map<nat, Request>) {
    forall i :: 0 <= i < |ls| && ls[i].Start? ==> ls[i].tid in reqs && ls[i].write == Prepared(env, reqs[ls[i].tid])
  }

  lemma CallIsAsked(env: Env, ss: seq<System>, ls: seq<Label>, reqs: map<nat, Request>, i: nat, tid: nat)
    requires IsRun(env, ss, ls) && Asks(env, ls, reqs) && i < |ss| && tid in ss[i].threads
    ensures tid in reqs && ss[i].threads[tid].write == Prepared(env, reqs[tid])
  {
    var j := WriteWasStarted(env, ss, ls, i, tid);
  }

  /** Every result a call is on its way to begins with what its write brought along. */
  predicate OwnFlagsFirst(t: Thread) {
    && (t.pc.Accepted? ==> t.write.flags <= t.pc.flags)
    && (t.pc.Finished? ==> t.write.flags <= t.pc.result.flags)
  }

  lemma {:induction false} OwnFlagsStayFirst(env: Env, ss: seq<System>, ls: seq<Label>, i: nat, tid: nat)
    requires IsRun(env, ss, ls) && i < |ss| && tid in ss[i].threads
    ensures OwnFlagsFirst(ss[i].threads[tid])
    decreases i
  {
    if tid in ss[i - 1].threads { OwnFlagsStayFirst(env, ss, ls, i - 1, tid); }
  }

  /** In every state that requests lead to each entry is its own request's: the redaction of that request's text,
      bound to its writer, quarantined exactly if borderline. */
  lemma EntryIsItsRequest(env: Env, ss: seq<System>, ls: seq<Label>, reqs: map<nat, Request>, i: nat, id: string)
    requires IsRun(env, ss, ls) && Asks(env, ls, reqs) && i < |ss| && id in ss[i].state.store
    ensures id in ss[i].origin && ss[i].origin[id] in reqs
    ensures var req, e := reqs[ss[i].origin[id]], ss[i].state.store[id];
      IsKept(env, req, e) && e.content == env.redact(req.text).0
  {
    RunKeepsInv(env, ss, ls, i);
    assert Minted(ss[i], id);
    var tid := ss[i].origin[id];
    CallIsAsked(env, ss, ls, reqs, i, tid);
    OwnFlagsStayFirst(env, ss, ls, i, tid);
    BoundByItsKeys(reqs[tid].identity);
    ClassIsRead(reqs[tid].identity);
  }

  /** Some call with this key gave the baseline. */
  ghost predicate SetBy(s: System, key: string, tid: nat) {
    && key in s.state.baselines && tid in s.threads && s.threads[tid].write.key == key
    && s.threads[tid].write.contentHash == s.state.baselines[key]
  }

  lemma SetByStays(env: Env, s: System, l: Label, key: string, tid: nat)
    requires Enabled(env, s, l) && SetBy(s, key, tid)
    ensures SetBy(Step(env, s, l), key, tid)
  {
    PinsStep(env, s, l);
  }

  lemma CheckSets(env: Env, s: System, l: Label, key: string)
    requires Enabled(env, s, l) && key !in s.state.baselines && key in Step(env, s, l).state.baselines
    ensures l.Check? && SetBy(Step(env, s, l), key, l.tid)
  {
    var w := s.threads[l.tid].write;
    EvaluateSets(env.glob, env.policy, s.state.baselines, w.key, w.contentHash, w.attested);
  }

  lemma {:induction false} BaselineHasCall(env: Env, ss: seq<System>, ls: seq<Label>, i: nat, key: string)
    returns (tid: nat)
    requires IsRun(env, ss, ls) && i < |ss| && key in ss[i].state.baselines
    ensures SetBy(ss[i], key, tid)
    decreases i
  {
    if key in ss[i - 1].state.baselines {
      tid := BaselineHasCall(env, ss, ls, i - 1, key);
      SetByStays(env, ss[i - 1], ls[i - 1], key, tid);
    } else {
      CheckSets(env, ss[i - 1], ls[i - 1], key);
      tid := ls[i - 1].tid;
    }
  }

  /** Each baseline is the hash of the redaction of what some request under its key says. */
  lemma BaselineIsSomeRequest(env: Env, ss: seq<System>, ls: seq<Label>, reqs: map<nat, Request>, i: nat, key: string)
    returns (tid: nat)
    requires IsRun(env, ss, ls) && Asks(env, ls, reqs) && i < |ss| && key in ss[i].state.baselines
    ensures tid in reqs && tid in ss[i].threads && reqs[tid].key == key
    ensures ss[i].state.baselines[key] == env.hash("immutable\0" + env.redact(reqs[tid].text).0)
  {
    tid := BaselineHasCall(env, ss, ls, i, key);
    CallIsAsked(env, ss, ls, reqs, i, tid);
  }

  // ---------------------------------------------------------------- blocked calls

  predicate LabelOf(l: Label, tid: nat) {
    !l.Delete? && l.tid == tid
  }

  lemma PassingStays(env: Env, s: System, l: Label, tid: nat)
    requires Enabled(env, s, l) && tid in s.threads
    ensures tid in Step(env, s, l).threads
    ensures Passing(s.threads[tid]) ==> Passing(Step(env, s, l).threads[tid])
    ensures s.threads[tid].pc.Finished? ==> Step(env, s, l).threads[tid] == s.threads[tid]
  {
  }

  lemma {:induction false} PassingStaysInRun(env: Env, ss: seq<System>, ls: seq<Label>, i: nat, j: nat, tid: nat)
    requires IsRun(env, ss, ls) && i <= j < |ss| && tid in ss[i].threads && Passing(ss[i].threads[tid])
    ensures tid in ss[j].threads && Passing(ss[j].threads[tid])
    decreases j
  {
    if i < j {
      PassingStaysInRun(env, ss, ls, i, j - 1, tid);
      PassingStays(env, ss[j - 1], ls[j - 1], tid);
    }
  }

  /** No step of a call that ends blocked changes the store, the baselines or a log, whatever else runs. */
  lemma BlockedCallChangesNothing(env: Env, ss: seq<System>, ls: seq<Label>, tid: nat, i: nat, j: nat)
    requires IsRun(env, ss, ls) && i < j < |ss| && LabelOf(ls[i], tid)
    requires tid in ss[j].threads && ss[j].threads[tid].pc.Finished? && !ss[j].threads[tid].pc.result.allow
    ensures ss[i + 1].state == ss[i].state && ss[i + 1].origin == ss[i].origin
  {
    var t := ss[i + 1].threads[tid];
    if Passing(t) {
      PassingStaysInRun(env, ss, ls, i + 1, j, tid);
    } else if ls[i].Check? {
      BlockedKeepsBaselines(env, ss[i].threads[tid].write, ss[i].state.baselines);
    }
  }

  /** A call is allowed iff its state is not block iff exactly one id is minted for it. */
  lemma AllowedIffMinted(env: Env, ss: seq<System>, ls: seq<Label>, i: nat, tid: nat)
    requires IsRun(env, ss, ls) && i < |ss| && tid in ss[i].threads && ss[i].threads[tid].pc.Finished?
    ensures var r := ss[i].threads[tid].pc.result;
      && (r.allow <==> r.state != Block)
      && (r.allow <==> exists id :: id in ss[i].origin && ss[i].origin[id] == tid)
      && (forall id :: id in ss[i].origin && ss[i].origin[id] == tid ==> r.id == Some(id))
  {
    RunKeepsInv(env, ss, ls, i);
    var r := ss[i].threads[tid].pc.result;
    assert Consistent(r);
    forall id | id in ss[i].origin && ss[i].origin[id] == tid ensures r.id == Some(id) {
      assert Minted(ss[i], id);
    }
  }

  // ---------------------------------------------------------------- the quarantine partition

  lemma EverythingMatchesEmpty(e: Entry, keys: seq<string>)
    requires e.boundIdentity in keys
    ensures Selects(e, "", Some(keys))
  {
    assert Text.At(e.content, 0, "");
  }

  lemma BoundByIdentity(env: Env, w: Write)
    requires IsPrepared(env, w)
    ensures w.boundKey in VisibleKeys(Some(PrincipalFromMap(ReaderOf(w.boundKey))))
  {
    var req :| w == Prepared(env, req);
    ReaderOfSees(req.identity);
  }

  /** Every started write is what some request comes to. */
  ghost predicate AllPrepared(env: Env, ls: seq<Label>) {
    forall i :: 0 <= i < |ls| && ls[i].Start? ==> IsPrepared(env, ls[i].write)
  }

  /** A call is doing a write that was started. */
  lemma {:induction false} WriteWasStarted(env: Env, ss: seq<System>, ls: seq<Label>, i: nat, tid: nat) returns (j: nat)
    requires IsRun(env, ss, ls) && i < |ss| && tid in ss[i].threads
    ensures j < i && ls[j] == Start(tid, ss[i].threads[tid].write)
    decreases i
  {
    if i > 0 && ls[i - 1].Start? && ls[i - 1].tid == tid {
      j := i - 1;
    } else {
      WriteStays(env, ss[i - 1], ls[i - 1], tid);
      j := WriteWasStarted(env, ss, ls, i - 1, tid);
    }
  }

  lemma WriteStays(env: Env, s: System, l: Label, tid: nat)
    requires Enabled(env, s, l) && tid in Step(env, s, l).threads && !(l.Start? && l.tid == tid)
    ensures tid in s.threads && s.threads[tid].write == Step(env, s, l).threads[tid].write
  {
  }

  /** In every state that requests lead to each live entry is offered to some identity's read or found by review,
      never both. */
  lemma Partition(env: Env, ss: seq<System>, ls: seq<Label>, i: nat, id: string, keys: seq<string>, query: string)
    requires IsRun(env, ss, ls) && AllPrepared(env, ls) && i < |ss| && id in ss[i].state.store
    ensures var store := ss[i].state.store;
      && (ReviewOf(env, store, id).found <==> store[id].quarantined)
      && (ReviewOf(env, store, id).found ==> id !in Offered(store, query, keys))
      && (!ReviewOf(env, store, id).found ==>
            exists identity :: id in Offered(store, "", VisibleKeys(Some(PrincipalFromMap(identity)))))
  {
    RunKeepsInv(env, ss, ls, i);
    var e := ss[i].state.store[id];
    var w := ss[i].threads[ss[i].origin[id]].write;
    var j := WriteWasStarted(env, ss, ls, i, ss[i].origin[id]);
    BoundByIdentity(env, w);
    EverythingMatchesEmpty(e, VisibleKeys(Some(PrincipalFromMap(ReaderOf(w.boundKey)))));
  }

  /** Review tells an unknown id from an ordinary entry's id in no way. */
  lemma ReviewIsNoOracle(env: Env, store: Table, unknown: string, ordinary: string)
    requires unknown !in store && ordinary in store && !store[ordinary].quarantined
    ensures ReviewOf(env, store, unknown) == ReviewOf(env, store, ordinary)
  {
  }

  /** An entry, its quarantine bit included, stays as written until it is deleted, and never comes back. */
  lemma {:induction false} EntriesAreImmutable(env: Env, ss: seq<System>, ls: seq<Label>, i: nat, j: nat, id: string)
    requires IsRun(env, ss, ls) && i <= j < |ss| && id in ss[i].origin
    ensures id in ss[j].origin
    ensures id in ss[j].state.store ==> id in ss[i].state.store && ss[j].state.store[id] == ss[i].state.store[id]
    decreases j
  {
    if i < j { EntriesAreImmutable(env, ss, ls, i, j - 1, id); }
  }

  /** The stored bit is the one its call answered with. */
  lemma BitIsTheAnswer(env: Env, ss: seq<System>, ls: seq<Label>, i: nat, id: string)
    requires IsRun(env, ss, ls) && i < |ss| && id in ss[i].state.store
    ensures Minted(ss[i], id)
    ensures ss[i].state.store[id].quarantined <==> ss[i].threads[ss[i].origin[id]].pc.result.state == Quarantine
  {
    RunKeepsInv(env, ss, ls, i);
    assert Consistent(ss[i].threads[ss[i].origin[id]].pc.result);
  }

  /** Once a minted id is deleted neither path ever returns its entry again. */
  lemma DeletedNeverReturns(env: Env, ss: seq<System>, ls: seq<Label>, i: nat, j: nat, id: string,
                            query: string, keys: seq<string>)
    requires IsRun(env, ss, ls) && i < j < |ss| && ls[i] == Delete(id) && id in ss[i].origin
    ensures id !in Offered(ss[j].state.store, query, keys)
    ensures ReviewOf(env, ss[j].state.store, id) == Review(false, "", [])
  {
    assert id !in ss[i + 1].state.store && id in ss[i + 1].origin;
    EntriesAreImmutable(env, ss, ls, i + 1, j, id);
  }
}
