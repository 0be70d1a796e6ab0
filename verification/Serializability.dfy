/** When writes in flight together come to what some order of one-call writes would have come to. */
module Serializability {
  import opened Entries
  import opened Stores
  import opened KeyPolicy
  import opened Guard
  import opened GuardInterleaving
  import RI = ReadIsolation

  // ---------------------------------------------------------------- orders of calls

  ghost predicate Distinct(ts: seq<nat>) {
    forall i, j :: 0 <= i < j < |ts| ==> ts[i] != ts[j]
  }

  /** The chosen calls, in order. */
  function Chosen(ts: seq<nat>, p: set<nat>): seq<nat> {
    if ts == [] then []
    else Chosen(ts[..|ts| - 1], p) + (if ts[|ts| - 1] in p then [ts[|ts| - 1]] else [])
  }

  lemma {:induction false} ChosenAlike(ts: seq<nat>, p: set<nat>, q: set<nat>)
    requires forall t :: t in ts ==> (t in p <==> t in q)
    ensures Chosen(ts, p) == Chosen(ts, q)
    decreases |ts|
  {
    if ts != [] {
      var init := ts[..|ts| - 1];
      forall t | t in init ensures t in p <==> t in q { assert t in ts; }
      ChosenAlike(init, p, q);
      assert ts[|ts| - 1] in ts;
    }
  }

  /** Nothing chosen from `n` on. */
  lemma {:induction false} ChosenBefore(ts: seq<nat>, p: set<nat>, n: nat)
    requires n <= |ts| && forall i :: n <= i < |ts| ==> ts[i] !in p
    ensures Chosen(ts, p) == Chosen(ts[..n], p)
    decreases |ts|
  {
    if n < |ts| {
      var init := ts[..|ts| - 1];
      assert forall i :: n <= i < |init| ==> init[i] == ts[i];
      ChosenBefore(init, p, n);
      assert init[..n] == ts[..n];
    } else {
      assert ts[..n] == ts;
    }
  }

  lemma ChosenStep(ts: seq<nat>, p: set<nat>, n: nat)
    requires n < |ts|
    ensures Chosen(ts[..n + 1], p) == Chosen(ts[..n], p) + (if ts[n] in p then [ts[n]] else [])
  {
    assert ts[..n + 1][..n] == ts[..n];
  }

  /** Choosing one more call, after all those chosen so far. */
  lemma ChosenOneMore(ts: seq<nat>, p: set<nat>, q: set<nat>, n: nat)
    requires Distinct(ts) && n < |ts| && forall i :: n <= i < |ts| ==> ts[i] !in p
    requires forall t :: t in ts ==> (t in q <==> t in p || t == ts[n])
    ensures Chosen(ts, q) == Chosen(ts, p) + [ts[n]]
  {
    forall i | n + 1 <= i < |ts| ensures ts[i] !in q { assert ts[i] in ts && ts[i] != ts[n]; }
    ChosenBefore(ts, q, n + 1);
    assert ts[n] in ts;
    ChosenStep(ts, q, n);
    forall t | t in ts[..n] ensures t in q <==> t in p {
      var i :| 0 <= i < n && ts[i] == t;
      assert t in ts && t != ts[n];
    }
    ChosenAlike(ts[..n], q, p);
    ChosenBefore(ts, p, n);
  }

  function Place(ts: seq<nat>, t: nat): (i: nat)
    requires t in ts
    ensures i < |ts| && ts[i] == t
  {
    if ts[|ts| - 1] == t then |ts| - 1 else Place(ts[..|ts| - 1], t)
  }

  lemma PlaceOf(ts: seq<nat>, i: nat)
    requires Distinct(ts) && i < |ts|
    ensures Place(ts, ts[i]) == i
  {
  }

  // ---------------------------------------------------------------- what calls depend on

  function Lookup(b: Baselines, k: string): Option<string> {
    if k in b then Some(b[k]) else None
  }

  function OneBaseline(k: string, h: Option<string>): Baselines {
    if h.None? then map[] else map[k := h.value]
  }

  /** The write compares its content with its key's baseline, or sets it. */
  predicate Compares(env: Env, w: Write) {
    RI.Compares(env, true, w)
  }

  /** A check sees one baseline, and only if the write compares. */
  lemma CheckSees(env: Env, w: Write, b: Baselines, c: Baselines)
    requires Compares(env, w) ==> Lookup(b, w.key) == Lookup(c, w.key)
    ensures CheckedPc(env, w, b) == CheckedPc(env, w, c)
  {
  }

  lemma CheckSets(env: Env, w: Write, b: Baselines, k: string)
    ensures Lookup(CheckedBaselines(env, w, b), k)
         == if Lookup(b, k).None? && Compares(env, w) && w.key == k then Some(w.contentHash) else Lookup(b, k)
  {
  }

  function HashOf(f: System, t: int): string {
    if t in f.threads then f.threads[t].write.contentHash else ""
  }

  function SeenOf(f: System, t: int): Seen {
    if t in f.threads then f.threads[t].write.seen else Seen("", "", 0)
  }

  /** The first of them sets the baseline. */
  function BaselineOf(f: System, ts: seq<nat>): Option<string> {
    if ts == [] then None else Some(HashOf(f, ts[0]))
  }

  function SeensOf(f: System, ts: seq<nat>): seq<Seen> {
    seq(|ts|, i requires 0 <= i < |ts| => SeenOf(f, ts[i]))
  }

  lemma SeensSnoc(f: System, ts: seq<nat>, t: nat)
    ensures SeensOf(f, ts + [t]) == SeensOf(f, ts) + [SeenOf(f, t)]
  {
  }

  predicate Allowed(f: System, t: int) {
    t in f.threads && f.threads[t].pc.Finished? && f.threads[t].pc.result.allow
  }

  /** Calls that compare with the baseline of `k`; calls that inspectors are shown under `b`. */
  function Comparing(env: Env, f: System, k: string): set<nat> {
    set t | t in f.threads && Compares(env, f.threads[t].write) && f.threads[t].write.key == k
  }

  function Showing(f: System, b: string): set<nat> {
    set t | t in f.threads && Allowed(f, t) && f.threads[t].write.boundKey == b
  }

  predicate HasChecked(s: System, t: int) {
    t in s.threads && !s.threads[t].pc.Ready?
  }

  predicate HasAsked(s: System, j: nat, t: int) {
    t in s.threads && ((s.threads[t].pc.Accepted? && s.threads[t].pc.asked > j) || Allowed(s, t))
  }

  /** Of those, the ones that have done so. */
  function Compared(env: Env, f: System, s: System, k: string): set<nat> {
    set t | t in Comparing(env, f, k) && HasChecked(s, t)
  }

  function Shown(f: System, s: System, j: nat, b: string): set<nat> {
    set t | t in Showing(f, b) && HasAsked(s, j, t)
  }

  // ---------------------------------------------------------------- runs that follow an order

  ghost predicate Finishes(f: System) {
    forall t :: t in f.threads ==> f.threads[t].pc.Finished?
  }

  ghost predicate Orders(ord: seq<nat>, f: System) {
    Distinct(ord) && forall t :: t in ord <==> t in f.threads
  }

  /** The step comes after those steps of other calls that `ord` puts before it and it depends on, and before the rest:
      checks of one key's baseline, and visits to one inspector under one bound key. */
  ghost predicate StepFollows(env: Env, f: System, ord: seq<nat>, s: System, l: Label)
    requires Enabled(env, s, l) && Orders(ord, f)
  {
    match l
    case Check(t) =>
      t in f.threads && (Compares(env, f.threads[t].write) ==>
        forall u :: u != t && u in Comparing(env, f, f.threads[t].write.key) ==>
          (HasChecked(s, u) <==> Place(ord, u) < Place(ord, t)))
    case Inspect(t) =>
      t in f.threads &&
      forall u :: u != t && u in Showing(f, f.threads[t].write.boundKey) ==>
        (HasAsked(s, s.threads[t].pc.asked, u) <==> Place(ord, u) < Place(ord, t))
    case _ => true
  }

  ghost predicate Follows(env: Env, ss: seq<System>, ls: seq<Label>, ord: seq<nat>)
    requires IsRun(env, ss, ls) && Orders(ord, ss[|ls|])
  {
    forall i :: 0 <= i < |ls| ==> StepFollows(env, ss[|ls|], ord, ss[i], ls[i])
  }

  // ---------------------------------------------------------------- what an order makes of a call

  /** What the call's check comes to after the calls before it. */
  function ExpectedCheck(env: Env, f: System, ord: seq<nat>, t: nat): Pc
    requires t in ord && t in f.threads
  {
    var w := f.threads[t].write;
    CheckedPc(env, w, OneBaseline(w.key, BaselineOf(f, Chosen(ord[..Place(ord, t)], Comparing(env, f, w.key)))))
  }

  function ExpectedAnswers(env: Env, f: System, ord: seq<nat>, t: nat, n: nat): seq<string>
    requires t in ord && t in f.threads && n <= |env.inspectors|
  {
    if n == 0 then []
    else
      var w := f.threads[t].write;
      ExpectedAnswers(env, f, ord, t, n - 1)
      + env.inspectors[n - 1](SeensOf(f, Chosen(ord[..Place(ord, t)], Showing(f, w.boundKey))), w.seen)
  }

  /** The call stands where the order would have it. */
  predicate Fits(env: Env, f: System, ord: seq<nat>, t: nat, pc: Pc)
    requires t in ord && t in f.threads
  {
    var c := ExpectedCheck(env, f, ord, t);
    match pc
    case Ready => true
    case Accepted(flags, answers, asked) =>
      asked <= |env.inspectors| && c == Accepted(flags, [], 0) && answers == ExpectedAnswers(env, f, ord, t, asked)
    case Finished(r) =>
      if c.Finished? then pc == c
      else
        && c.Accepted? && r.id.Some?
        && r == Stored(r.id.value, c.flags + Merged(env, ExpectedAnswers(env, f, ord, t, |env.inspectors|)))
  }

  ghost predicate CallsFit(env: Env, f: System, ord: seq<nat>, s: System)
    requires Orders(ord, f)
  {
    forall t :: t in s.threads ==>
      t in f.threads && s.threads[t].write == f.threads[t].write && Fits(env, f, ord, t, s.threads[t].pc)
  }

  ghost predicate BaselinesFit(env: Env, f: System, ord: seq<nat>, s: System) {
    forall k :: Lookup(s.state.baselines, k) == BaselineOf(f, Chosen(ord, Compared(env, f, s, k)))
  }

  ghost predicate LogsFit(env: Env, f: System, ord: seq<nat>, s: System) {
    forall j: nat, b :: j < |env.inspectors| ==>
      LogOf(s.state.log, j, b) == SeensOf(f, Chosen(ord, Shown(f, s, j, b)))
  }

  // ---------------------------------------------------------------- steps

  /** The writes of calls do not change, and a call that has passed the policy ends allowed. */
  ghost predicate LeadsTo(s: System, f: System) {
    forall t :: t in s.threads ==>
      t in f.threads && s.threads[t].write == f.threads[t].write && (Passing(s.threads[t]) ==> Allowed(f, t))
  }

  lemma SameChecked(env: Env, f: System, ord: seq<nat>, s: System, s': System)
    requires BaselinesFit(env, f, ord, s) && s'.state.baselines == s.state.baselines
    requires forall t :: HasChecked(s', t) == HasChecked(s, t)
    ensures BaselinesFit(env, f, ord, s')
  {
    forall k ensures Lookup(s'.state.baselines, k) == BaselineOf(f, Chosen(ord, Compared(env, f, s', k))) {
      ChosenAlike(ord, Compared(env, f, s', k), Compared(env, f, s, k));
    }
  }

  lemma SameAsked(env: Env, f: System, ord: seq<nat>, s: System, s': System)
    requires LogsFit(env, f, ord, s) && s'.state.log == s.state.log
    requires forall j: nat, t :: j < |env.inspectors| ==> HasAsked(s', j, t) == HasAsked(s, j, t)
    ensures LogsFit(env, f, ord, s')
  {
    forall j: nat, b | j < |env.inspectors|
      ensures LogOf(s'.state.log, j, b) == SeensOf(f, Chosen(ord, Shown(f, s', j, b)))
    {
      ChosenAlike(ord, Shown(f, s', j, b), Shown(f, s, j, b));
    }
  }

  /** At a check the baseline is the one the calls before it, in the order, make. */
  lemma CheckFits(env: Env, f: System, ord: seq<nat>, s: System, t: nat)
    requires Orders(ord, f) && LeadsTo(s, f) && BaselinesFit(env, f, ord, s)
    requires Enabled(env, s, Check(t)) && StepFollows(env, f, ord, s, Check(t))
    ensures CheckedPc(env, s.threads[t].write, s.state.baselines) == ExpectedCheck(env, f, ord, t)
  {
    var w, n := f.threads[t].write, Place(ord, t);
    var p, q := Compared(env, f, s, w.key), Comparing(env, f, w.key);
    if Compares(env, w) {
      NoneAfter(ord, p, n);
      ChosenBefore(ord, p, n);
      forall u | u in ord[..n] ensures u in p <==> u in q {
        var i :| 0 <= i < n && ord[i] == u;
        PlaceOf(ord, i);
        assert u in ord;
      }
      ChosenAlike(ord[..n], p, q);
      var h := BaselineOf(f, Chosen(ord[..n], q));
      assert Lookup(s.state.baselines, w.key) == h;
      assert Lookup(OneBaseline(w.key, h), w.key) == h;
    }
    CheckSees(env, w, s.state.baselines, OneBaseline(w.key, BaselineOf(f, Chosen(ord[..n], q))));
  }

  /** What is chosen is before place `n`. */
  lemma NoneAfter(ord: seq<nat>, p: set<nat>, n: nat)
    requires Distinct(ord) && forall u :: u in ord && u in p ==> Place(ord, u) < n
    ensures forall i :: n <= i < |ord| ==> ord[i] !in p
  {
    forall i | n <= i < |ord| ensures ord[i] !in p {
      PlaceOf(ord, i);
      assert ord[i] in ord;
    }
  }

  lemma CheckKeepsBaselines(env: Env, f: System, ord: seq<nat>, s: System, t: nat)
    requires Orders(ord, f) && LeadsTo(s, f) && BaselinesFit(env, f, ord, s)
    requires Enabled(env, s, Check(t)) && StepFollows(env, f, ord, s, Check(t))
    ensures BaselinesFit(env, f, ord, Step(env, s, Check(t)))
  {
    var s' := Step(env, s, Check(t));
    var w, n := f.threads[t].write, Place(ord, t);
    forall k ensures Lookup(s'.state.baselines, k) == BaselineOf(f, Chosen(ord, Compared(env, f, s', k))) {
      var p, q := Compared(env, f, s, k), Compared(env, f, s', k);
      CheckSets(env, w, s.state.baselines, k);
      assert Lookup(s.state.baselines, k) == BaselineOf(f, Chosen(ord, p));
      if Compares(env, w) && w.key == k {
        NoneAfter(ord, p, n);
        ChosenOneMore(ord, p, q, n);
      } else {
        ChosenAlike(ord, q, p);
      }
    }
  }

  /** At a visit the inspector has been shown what the calls before it, in the order, show. */
  lemma InspectFits(env: Env, f: System, ord: seq<nat>, s: System, t: nat)
    requires Orders(ord, f) && LeadsTo(s, f) && LogsFit(env, f, ord, s)
    requires Enabled(env, s, Inspect(t)) && StepFollows(env, f, ord, s, Inspect(t))
    ensures var w := f.threads[t].write;
      LogOf(s.state.log, s.threads[t].pc.asked, w.boundKey)
      == SeensOf(f, Chosen(ord[..Place(ord, t)], Showing(f, w.boundKey)))
  {
    var b, n, j := f.threads[t].write.boundKey, Place(ord, t), s.threads[t].pc.asked;
    var p, q := Shown(f, s, j, b), Showing(f, b);
    NoneAfter(ord, p, n);
    ChosenBefore(ord, p, n);
    forall u | u in ord[..n] ensures u in p <==> u in q {
      var i :| 0 <= i < n && ord[i] == u;
      PlaceOf(ord, i);
      assert u in ord;
    }
    ChosenAlike(ord[..n], p, q);
  }

  lemma InspectKeepsLog(env: Env, f: System, ord: seq<nat>, s: System, t: nat, j: nat, b: string)
    requires Orders(ord, f) && LeadsTo(s, f) && j < |env.inspectors|
    requires Enabled(env, s, Inspect(t)) && StepFollows(env, f, ord, s, Inspect(t))
    requires LogOf(s.state.log, j, b) == SeensOf(f, Chosen(ord, Shown(f, s, j, b)))
    ensures var s' := Step(env, s, Inspect(t)); LogOf(s'.state.log, j, b) == SeensOf(f, Chosen(ord, Shown(f, s', j, b)))
  {
    var s' := Step(env, s, Inspect(t));
    var p, q := Shown(f, s, j, b), Shown(f, s', j, b);
    if j == s.threads[t].pc.asked && b == f.threads[t].write.boundKey {
      NoneAfter(ord, p, Place(ord, t));
      ChosenOneMore(ord, p, q, Place(ord, t));
      SeensSnoc(f, Chosen(ord, p), t);
    } else {
      ChosenAlike(ord, q, p);
    }
  }

  lemma InspectKeepsLogs(env: Env, f: System, ord: seq<nat>, s: System, t: nat)
    requires Orders(ord, f) && LeadsTo(s, f) && LogsFit(env, f, ord, s)
    requires Enabled(env, s, Inspect(t)) && StepFollows(env, f, ord, s, Inspect(t))
    ensures LogsFit(env, f, ord, Step(env, s, Inspect(t)))
  {
    var s' := Step(env, s, Inspect(t));
    forall j: nat, b | j < |env.inspectors|
      ensures LogOf(s'.state.log, j, b) == SeensOf(f, Chosen(ord, Shown(f, s', j, b)))
    {
      InspectKeepsLog(env, f, ord, s, t, j, b);
    }
  }

  lemma StepKeepsBaselines(env: Env, f: System, ord: seq<nat>, s: System, l: Label)
    requires Orders(ord, f) && LeadsTo(s, f) && BaselinesFit(env, f, ord, s)
    requires Enabled(env, s, l) && StepFollows(env, f, ord, s, l)
    ensures BaselinesFit(env, f, ord, Step(env, s, l))
  {
    if l.Check? {
      CheckKeepsBaselines(env, f, ord, s, l.tid);
    } else {
      SameChecked(env, f, ord, s, Step(env, s, l));
    }
  }

  lemma StepKeepsLogs(env: Env, f: System, ord: seq<nat>, s: System, l: Label)
    requires Orders(ord, f) && LeadsTo(s, f) && LogsFit(env, f, ord, s)
    requires Enabled(env, s, l) && StepFollows(env, f, ord, s, l)
    ensures LogsFit(env, f, ord, Step(env, s, l))
  {
    if l.Inspect? {
      InspectKeepsLogs(env, f, ord, s, l.tid);
    } else {
      SameAsked(env, f, ord, s, Step(env, s, l));
    }
  }

  lemma CheckFitsCall(env: Env, f: System, ord: seq<nat>, s: System, t: nat)
    requires Orders(ord, f) && LeadsTo(s, f) && BaselinesFit(env, f, ord, s)
    requires Enabled(env, s, Check(t)) && StepFollows(env, f, ord, s, Check(t))
    ensures Fits(env, f, ord, t, Step(env, s, Check(t)).threads[t].pc)
  {
    CheckFits(env, f, ord, s, t);
  }

  lemma InspectFitsCall(env: Env, f: System, ord: seq<nat>, s: System, t: nat)
    requires Orders(ord, f) && LeadsTo(s, f) && LogsFit(env, f, ord, s)
    requires Enabled(env, s, Inspect(t)) && StepFollows(env, f, ord, s, Inspect(t))
    requires t in f.threads && Fits(env, f, ord, t, s.threads[t].pc)
    ensures Fits(env, f, ord, t, Step(env, s, Inspect(t)).threads[t].pc)
  {
    InspectFits(env, f, ord, s, t);
  }

  lemma PutFitsCall(env: Env, f: System, ord: seq<nat>, s: System, t: nat, id: string)
    requires Orders(ord, f) && Enabled(env, s, Put(t, id)) && t in f.threads && Fits(env, f, ord, t, s.threads[t].pc)
    ensures Fits(env, f, ord, t, Step(env, s, Put(t, id)).threads[t].pc)
  {
  }

  /** The call that steps still stands where the order would have it. */
  lemma StepFits(env: Env, f: System, ord: seq<nat>, s: System, l: Label)
    requires Orders(ord, f) && LeadsTo(s, f) && BaselinesFit(env, f, ord, s) && LogsFit(env, f, ord, s)
    requires CallsFit(env, f, ord, s) && Enabled(env, s, l) && StepFollows(env, f, ord, s, l)
    requires !l.Start? && !l.Delete?
    ensures l.tid in f.threads && Fits(env, f, ord, l.tid, Step(env, s, l).threads[l.tid].pc)
  {
    match l
    case Check(t) => CheckFitsCall(env, f, ord, s, t);
    case Inspect(t) => InspectFitsCall(env, f, ord, s, t);
    case Put(t, id) => PutFitsCall(env, f, ord, s, t, id);
  }

  lemma StepKeepsCalls(env: Env, f: System, ord: seq<nat>, s: System, l: Label)
    requires Orders(ord, f) && LeadsTo(s, f) && BaselinesFit(env, f, ord, s) && LogsFit(env, f, ord, s)
    requires CallsFit(env, f, ord, s) && Enabled(env, s, l) && StepFollows(env, f, ord, s, l)
    requires LeadsTo(Step(env, s, l), f)
    ensures CallsFit(env, f, ord, Step(env, s, l))
  {
    var s' := Step(env, s, l);
    if !l.Start? && !l.Delete? { StepFits(env, f, ord, s, l); }
    forall t | t in s'.threads ensures Fits(env, f, ord, t, s'.threads[t].pc) {
      if l.Delete? || t != l.tid { assert s'.threads[t] == s.threads[t]; }
    }
  }

  // ---------------------------------------------------------------- runs

  lemma {:induction false} WriteStaysInRun(env: Env, ss: seq<System>, ls: seq<Label>, i: nat, j: nat, t: nat)
    requires IsRun(env, ss, ls) && i <= j < |ss| && t in ss[i].threads
    ensures t in ss[j].threads && ss[j].threads[t].write == ss[i].threads[t].write
    decreases j
  {
    if i < j {
      WriteStaysInRun(env, ss, ls, i, j - 1, t);
      WriteKept(env, ss[j - 1], ls[j - 1], t);
    }
  }

  lemma WriteKept(env: Env, s: System, l: Label, t: nat)
    requires Enabled(env, s, l) && t in s.threads
    ensures t in Step(env, s, l).threads && Step(env, s, l).threads[t].write == s.threads[t].write
  {
  }

  lemma RunLeadsTo(env: Env, ss: seq<System>, ls: seq<Label>, i: nat)
    requires IsRun(env, ss, ls) && i < |ss| && Finishes(ss[|ls|])
    ensures LeadsTo(ss[i], ss[|ls|])
  {
    forall t | t in ss[i].threads
      ensures t in ss[|ls|].threads && ss[i].threads[t].write == ss[|ls|].threads[t].write
      ensures Passing(ss[i].threads[t]) ==> Allowed(ss[|ls|], t)
    {
      WriteStaysInRun(env, ss, ls, i, |ls|, t);
      if Passing(ss[i].threads[t]) { PassingStaysInRun(env, ss, ls, i, |ls|, t); }
    }
  }

  lemma NothingFits(env: Env, f: System, ord: seq<nat>)
    requires Orders(ord, f)
    ensures BaselinesFit(env, f, ord, EMPTY) && LogsFit(env, f, ord, EMPTY) && CallsFit(env, f, ord, EMPTY)
  {
    forall k ensures Chosen(ord, Compared(env, f, EMPTY, k)) == [] { ChosenBefore(ord, Compared(env, f, EMPTY, k), 0); }
    forall j: nat, b ensures Chosen(ord, Shown(f, EMPTY, j, b)) == [] { ChosenBefore(ord, Shown(f, EMPTY, j, b), 0); }
  }

  lemma {:induction false} RunFits(env: Env, ss: seq<System>, ls: seq<Label>, ord: seq<nat>, i: nat)
    requires IsRun(env, ss, ls) && Finishes(ss[|ls|]) && Orders(ord, ss[|ls|]) && Follows(env, ss, ls, ord) && i < |ss|
    ensures var f := ss[|ls|];
      BaselinesFit(env, f, ord, ss[i]) && LogsFit(env, f, ord, ss[i]) && CallsFit(env, f, ord, ss[i])
    decreases i
  {
    var f := ss[|ls|];
    if i == 0 {
      NothingFits(env, f, ord);
    } else {
      RunFits(env, ss, ls, ord, i - 1);
      RunLeadsTo(env, ss, ls, i - 1);
      RunLeadsTo(env, ss, ls, i);
      assert StepFollows(env, f, ord, ss[i - 1], ls[i - 1]);
      StepKeepsBaselines(env, f, ord, ss[i - 1], ls[i - 1]);
      StepKeepsLogs(env, f, ord, ss[i - 1], ls[i - 1]);
      StepKeepsCalls(env, f, ord, ss[i - 1], ls[i - 1]);
    }
  }

  // ---------------------------------------------------------------- one call at a time

  function IdOf(f: System, t: nat): string
    requires t in f.threads
  {
    var pc := f.threads[t].pc;
    if pc.Finished? && pc.result.id.Some? then pc.result.id.value else ""
  }

  /** The calls made one by one, in this order, each with the id it was given. */
  function OneByOne(env: Env, f: System, ts: seq<nat>): State
    requires forall t :: t in ts ==> t in f.threads
  {
    if ts == [] then EMPTY.state
    else
      var init, t := ts[..|ts| - 1], ts[|ts| - 1];
      AfterWrite(env, OneByOne(env, f, init), f.threads[t].write, IdOf(f, t))
  }

  /** What the calls came to is what they would have come to one by one: the baselines, the inspectors' logs, every
      answer, and every entry that is stored. */
  ghost predicate Explains(env: Env, f: System, ord: seq<nat>)
    requires Orders(ord, f)
  {
    var s := OneByOne(env, f, ord);
    && s.baselines == f.state.baselines
    && (forall j: nat, b :: j < |env.inspectors| ==> LogOf(s.log, j, b) == LogOf(f.state.log, j, b))
    && (forall n :: 0 <= n < |ord| ==> AnsweredInPlace(env, f, ord, n))
    && (forall id :: id in f.state.store ==> id in s.store && s.store[id] == f.state.store[id])
  }

  predicate AnsweredInPlace(env: Env, f: System, ord: seq<nat>, n: int)
    requires forall t :: t in ord ==> t in f.threads
  {
    0 <= n < |ord| &&
    var t := ord[n];
    f.threads[t].pc == Finished(ResultOf(env, OneByOne(env, f, ord[..n]), f.threads[t].write, IdOf(f, t)))
  }

  /** One call, by its check and its visits. */
  lemma OneCall(env: Env, s: State, w: Write, id: string)
    ensures var c, r, s' := CheckedPc(env, w, s.baselines), ResultOf(env, s, w, id), AfterWrite(env, s, w, id);
      && s'.baselines == CheckedBaselines(env, w, s.baselines)
      && (c.Finished? ==> r == c.result && !r.allow && s' == s)
      && (c.Accepted? ==> r == Stored(id, c.flags + InspectorFlags(env, w, s.log)) && s'.log == LogAfter(env, w, s.log)
                          && s'.store == s.store[id := EntryFor(w, r.flags)])
  {
    BlockedKeepsBaselines(env, w, s.baselines);
    var o := KeyOutcome(env, w, s.baselines);
    assert w.flags + o.flags + [] == w.flags + o.flags;
  }

  ghost predicate SerialBaselines(env: Env, f: System, ts: seq<nat>, b: Baselines) {
    forall k :: Lookup(b, k) == BaselineOf(f, Chosen(ts, Comparing(env, f, k)))
  }

  ghost predicate SerialLogs(env: Env, f: System, ts: seq<nat>, log: Log) {
    forall j: nat, b :: j < |env.inspectors| ==> LogOf(log, j, b) == SeensOf(f, Chosen(ts, Showing(f, b)))
  }

  ghost predicate SerialStore(f: System, ts: seq<nat>, store: Table) {
    && (forall t :: t in ts && Allowed(f, t) ==>
          IdOf(f, t) in store && store[IdOf(f, t)] == EntryFor(f.threads[t].write, f.threads[t].pc.result.flags))
    && (forall id :: id in store ==> exists t :: t in ts && Allowed(f, t) && IdOf(f, t) == id)
  }

  /** No two calls were given one id. */
  ghost predicate OwnIds(f: System) {
    forall t, u :: Allowed(f, t) && Allowed(f, u) && IdOf(f, t) == IdOf(f, u) ==> t == u
  }

  lemma AnswersExpected(env: Env, f: System, ord: seq<nat>, n: nat, log: Log, m: nat)
    requires Orders(ord, f) && n < |ord| && SerialLogs(env, f, ord[..n], log) && m <= |env.inspectors|
    ensures Answers(env, f.threads[ord[n]].write, log, m) == ExpectedAnswers(env, f, ord, ord[n], m)
  {
    PlaceOf(ord, n);
    if m > 0 { AnswersExpected(env, f, ord, n, log, m - 1); }
  }

  /** A call fits its place exactly when it was answered as in the one-by-one order. */
  lemma AnswerFits(env: Env, f: System, ord: seq<nat>, n: nat, s: State)
    requires Orders(ord, f) && n < |ord| && Finishes(f) && CallsFit(env, f, ord, f)
    requires SerialBaselines(env, f, ord[..n], s.baselines) && SerialLogs(env, f, ord[..n], s.log)
    ensures var t := ord[n];
      && CheckedPc(env, f.threads[t].write, s.baselines) == ExpectedCheck(env, f, ord, t)
      && f.threads[t].pc == Finished(ResultOf(env, s, f.threads[t].write, IdOf(f, t)))
  {
    var t := ord[n];
    assert t in ord;
    var w := f.threads[t].write;
    PlaceOf(ord, n);
    var h := BaselineOf(f, Chosen(ord[..n], Comparing(env, f, w.key)));
    assert Lookup(s.baselines, w.key) == h == Lookup(OneBaseline(w.key, h), w.key);
    CheckSees(env, w, s.baselines, OneBaseline(w.key, h));
    OneCall(env, s, w, IdOf(f, t));
    AnswersExpected(env, f, ord, n, s.log, |env.inspectors|);
    assert Fits(env, f, ord, t, f.threads[t].pc);
  }

  lemma SerialBaselinesStep(env: Env, f: System, ord: seq<nat>, n: nat, b: Baselines)
    requires Orders(ord, f) && n < |ord| && SerialBaselines(env, f, ord[..n], b)
    ensures SerialBaselines(env, f, ord[..n + 1], CheckedBaselines(env, f.threads[ord[n]].write, b))
  {
    var t := ord[n];
    assert t in ord;
    forall k ensures Lookup(CheckedBaselines(env, f.threads[t].write, b), k)
                  == BaselineOf(f, Chosen(ord[..n + 1], Comparing(env, f, k)))
    {
      assert Lookup(b, k) == BaselineOf(f, Chosen(ord[..n], Comparing(env, f, k)));
      CheckSets(env, f.threads[t].write, b, k);
      ChosenStep(ord, Comparing(env, f, k), n);
    }
  }

  lemma SerialLogsStep(env: Env, f: System, ord: seq<nat>, n: nat, log: Log)
    requires Orders(ord, f) && n < |ord| && SerialLogs(env, f, ord[..n], log)
    ensures SerialLogs(env, f, ord[..n + 1],
                       if Allowed(f, ord[n]) then LogAfter(env, f.threads[ord[n]].write, log) else log)
  {
    var t := ord[n];
    assert t in ord;
    var w := f.threads[t].write;
    var log' := if Allowed(f, t) then LogAfter(env, w, log) else log;
    forall j: nat, b | j < |env.inspectors|
      ensures LogOf(log', j, b) == SeensOf(f, Chosen(ord[..n + 1], Showing(f, b)))
    {
      assert LogOf(log, j, b) == SeensOf(f, Chosen(ord[..n], Showing(f, b)));
      AskedOnce(w, log, |env.inspectors|, j, b);
      ChosenStep(ord, Showing(f, b), n);
      SeensSnoc(f, Chosen(ord[..n], Showing(f, b)), t);
      assert Chosen(ord[..n], Showing(f, b)) + [] == Chosen(ord[..n], Showing(f, b));
    }
  }

  lemma SerialStoreStep(env: Env, f: System, ord: seq<nat>, n: nat, store: Table)
    requires Orders(ord, f) && n < |ord| && SerialStore(f, ord[..n], store) && OwnIds(f)
    ensures SerialStore(f, ord[..n + 1],
      if Allowed(f, ord[n])
      then store[IdOf(f, ord[n]) := EntryFor(f.threads[ord[n]].write, f.threads[ord[n]].pc.result.flags)]
      else store)
  {
    var t := ord[n];
    assert t in ord;
    assert ord[..n + 1] == ord[..n] + [t];
    forall u | u in ord[..n] ensures u != t {
      var i :| 0 <= i < n && ord[i] == u;
    }
  }

  lemma {:induction false} SerialFits(env: Env, f: System, ord: seq<nat>, n: nat)
    requires Orders(ord, f) && Finishes(f) && CallsFit(env, f, ord, f) && OwnIds(f) && n <= |ord|
    ensures var s := OneByOne(env, f, ord[..n]);
      && SerialBaselines(env, f, ord[..n], s.baselines) && SerialLogs(env, f, ord[..n], s.log)
      && SerialStore(f, ord[..n], s.store)
  {
    if n > 0 {
      SerialFits(env, f, ord, n - 1);
      OneByOneSnoc(env, f, ord, n - 1);
      OneMoreFits(env, f, ord, n - 1, OneByOne(env, f, ord[..n - 1]));
    }
  }

  lemma OneByOneSnoc(env: Env, f: System, ord: seq<nat>, n: nat)
    requires n < |ord| && forall t :: t in ord ==> t in f.threads
    ensures ord[n] in ord
    ensures OneByOne(env, f, ord[..n + 1])
         == AfterWrite(env, OneByOne(env, f, ord[..n]), f.threads[ord[n]].write, IdOf(f, ord[n]))
  {
    assert ord[..n + 1][..n] == ord[..n];
  }

  lemma OneMoreFits(env: Env, f: System, ord: seq<nat>, n: nat, s: State)
    requires Orders(ord, f) && Finishes(f) && CallsFit(env, f, ord, f) && OwnIds(f) && n < |ord|
    requires SerialBaselines(env, f, ord[..n], s.baselines) && SerialLogs(env, f, ord[..n], s.log)
    requires SerialStore(f, ord[..n], s.store)
    ensures ord[n] in ord
    ensures var s' := AfterWrite(env, s, f.threads[ord[n]].write, IdOf(f, ord[n]));
      && SerialBaselines(env, f, ord[..n + 1], s'.baselines) && SerialLogs(env, f, ord[..n + 1], s'.log)
      && SerialStore(f, ord[..n + 1], s'.store)
  {
    AnswerFits(env, f, ord, n, s);
    OneCall(env, s, f.threads[ord[n]].write, IdOf(f, ord[n]));
    SerialBaselinesStep(env, f, ord, n, s.baselines);
    SerialLogsStep(env, f, ord, n, s.log);
    SerialStoreStep(env, f, ord, n, s.store);
  }

  // ---------------------------------------------------------------- finished runs

  lemma SameLookups(a: Baselines, b: Baselines)
    requires forall k :: Lookup(a, k) == Lookup(b, k)
    ensures a == b
  {
    forall k ensures k in a <==> k in b { assert Lookup(a, k) == Lookup(b, k); }
    forall k | k in a ensures a[k] == b[k] { assert Lookup(a, k) == Lookup(b, k); }
  }

  lemma RunOwnsIds(env: Env, ss: seq<System>, ls: seq<Label>)
    requires IsRun(env, ss, ls)
    ensures OwnIds(ss[|ls|])
  {
    RunKeepsInv(env, ss, ls, |ls|);
    var f := ss[|ls|];
    forall t, u | Allowed(f, t) && Allowed(f, u) && IdOf(f, t) == IdOf(f, u) ensures t == u {
      assert Consistent(f.threads[t].pc.result) && Consistent(f.threads[u].pc.result);
      assert f.origin[IdOf(f, t)] == t && f.origin[IdOf(f, u)] == u;
    }
  }

  /** Once all calls have finished, the order has made the baselines and the logs. */
  lemma FinalState(env: Env, f: System, ord: seq<nat>, s: State)
    requires Orders(ord, f) && Finishes(f) && BaselinesFit(env, f, ord, f) && LogsFit(env, f, ord, f)
    requires SerialBaselines(env, f, ord, s.baselines) && SerialLogs(env, f, ord, s.log)
    ensures s.baselines == f.state.baselines
    ensures forall j: nat, b :: j < |env.inspectors| ==> LogOf(s.log, j, b) == LogOf(f.state.log, j, b)
  {
    forall k ensures Lookup(s.baselines, k) == Lookup(f.state.baselines, k) {
      assert Compared(env, f, f, k) == Comparing(env, f, k);
      assert Lookup(f.state.baselines, k) == BaselineOf(f, Chosen(ord, Compared(env, f, f, k)));
    }
    SameLookups(s.baselines, f.state.baselines);
    forall j: nat, b | j < |env.inspectors| ensures LogOf(s.log, j, b) == LogOf(f.state.log, j, b) {
      assert Shown(f, f, j, b) == Showing(f, b);
    }
  }

  ghost predicate NoDeletes(ls: seq<Label>) {
    forall i :: 0 <= i < |ls| ==> !ls[i].Delete?
  }

  lemma {:induction false} MintedStays(env: Env, ss: seq<System>, ls: seq<Label>, i: nat)
    requires IsRun(env, ss, ls) && NoDeletes(ls) && i < |ss|
    ensures forall id :: id in ss[i].origin ==> id in ss[i].state.store
    decreases i
  {
    if i > 0 {
      MintedStays(env, ss, ls, i - 1);
      assert !ls[i - 1].Delete?;
      StepKeepsMinted(env, ss[i - 1], ls[i - 1]);
    }
  }

  lemma StepKeepsMinted(env: Env, s: System, l: Label)
    requires Enabled(env, s, l) && !l.Delete? && forall id :: id in s.origin ==> id in s.state.store
    ensures forall id :: id in Step(env, s, l).origin ==> id in Step(env, s, l).state.store
  {
  }

  /** Every entry in the store is the one its call puts there. */
  lemma StoredEntries(env: Env, f: System, ord: seq<nat>, store: Table)
    requires Inv(env, f) && Orders(ord, f) && SerialStore(f, ord, store)
    ensures forall id :: id in f.state.store ==> id in store && store[id] == f.state.store[id]
  {
    forall id | id in f.state.store ensures id in store && store[id] == f.state.store[id] {
      assert Minted(f, id) && Consistent(f.threads[f.origin[id]].pc.result);
      assert f.origin[id] in ord && IdOf(f, f.origin[id]) == id;
    }
  }

  /** Without deletes it is all of them. */
  lemma AllStored(env: Env, f: System, ord: seq<nat>, store: Table)
    requires Inv(env, f) && Orders(ord, f) && SerialStore(f, ord, store)
    requires forall id :: id in f.origin ==> id in f.state.store
    ensures store == f.state.store
  {
    StoredEntries(env, f, ord, store);
    forall id | id in store ensures id in f.state.store {
      var t :| t in ord && Allowed(f, t) && IdOf(f, t) == id;
      assert Consistent(f.threads[t].pc.result);
    }
  }

  /** A finished run whose steps follow an order is explained by the calls made one by one in that order. */
  lemma FinishedRunIsSerial(env: Env, ss: seq<System>, ls: seq<Label>, ord: seq<nat>)
    requires IsRun(env, ss, ls) && Finishes(ss[|ls|]) && Orders(ord, ss[|ls|]) && Follows(env, ss, ls, ord)
    ensures Explains(env, ss[|ls|], ord)
    ensures NoDeletes(ls) ==> OneByOne(env, ss[|ls|], ord).store == ss[|ls|].state.store
  {
    var f := ss[|ls|];
    RunFits(env, ss, ls, ord, |ls|);
    RunOwnsIds(env, ss, ls);
    SerialFits(env, f, ord, |ord|);
    assert ord[..|ord|] == ord;
    FinalState(env, f, ord, OneByOne(env, f, ord));
    RunKeepsInv(env, ss, ls, |ls|);
    StoredEntries(env, f, ord, OneByOne(env, f, ord).store);
    if NoDeletes(ls) {
      MintedStays(env, ss, ls, |ls|);
      AllStored(env, f, ord, OneByOne(env, f, ord).store);
    }
    forall n | 0 <= n < |ord| ensures AnsweredInPlace(env, f, ord, n) {
      SerialFits(env, f, ord, n);
      AnswerFits(env, f, ord, n, OneByOne(env, f, ord[..n]));
    }
  }

  // ---------------------------------------------------------------- the order of checks

  function CheckOrder(ls: seq<Label>): seq<nat> {
    if ls == [] then []
    else CheckOrder(ls[..|ls| - 1]) + (if ls[|ls| - 1].Check? then [ls[|ls| - 1].tid] else [])
  }

  lemma {:induction false} CheckOrderIs(env: Env, ss: seq<System>, ls: seq<Label>, i: nat)
    requires IsRun(env, ss, ls) && i < |ss|
    ensures Distinct(CheckOrder(ls[..i])) && forall t :: t in CheckOrder(ls[..i]) <==> HasChecked(ss[i], t)
    decreases i
  {
    if i > 0 {
      CheckOrderIs(env, ss, ls, i - 1);
      assert ls[..i][..i - 1] == ls[..i - 1];
      CheckedByStep(env, ss[i - 1], ls[i - 1]);
    }
  }

  lemma CheckedByStep(env: Env, s: System, l: Label)
    requires Enabled(env, s, l)
    ensures forall t :: HasChecked(Step(env, s, l), t) <==> HasChecked(s, t) || (l.Check? && t == l.tid)
    ensures l.Check? ==> !HasChecked(s, l.tid)
  {
  }

  lemma {:induction false} CheckOrderPrefix(ls: seq<Label>, i: nat)
    requires i <= |ls|
    ensures CheckOrder(ls[..i]) <= CheckOrder(ls)
    decreases |ls|
  {
    if i < |ls| {
      CheckOrderPrefix(ls[..|ls| - 1], i);
      assert ls[..|ls| - 1][..i] == ls[..i];
    } else {
      assert ls[..i] == ls;
    }
  }

  /** In the order of checks, those checked before come before. */
  lemma CheckFollows(s: System, ls: seq<Label>, i: nat)
    requires i < |ls| && ls[i].Check? && Distinct(CheckOrder(ls))
    requires forall t :: t in CheckOrder(ls[..i]) <==> HasChecked(s, t)
    ensures var ord, t := CheckOrder(ls), ls[i].tid;
      t in ord && forall u :: u in ord && u != t ==> (HasChecked(s, u) <==> Place(ord, u) < Place(ord, t))
  {
    CheckOrderAt(ls, i);
    PlaceAfter(CheckOrder(ls), CheckOrder(ls[..i]), ls[i].tid);
  }

  lemma CheckOrderAt(ls: seq<Label>, i: nat)
    requires i < |ls| && ls[i].Check?
    ensures CheckOrder(ls[..i]) + [ls[i].tid] <= CheckOrder(ls)
  {
    CheckOrderPrefix(ls, i + 1);
    assert ls[..i + 1][..i] == ls[..i];
  }

  lemma PlaceAfter(ord: seq<nat>, before: seq<nat>, t: nat)
    requires Distinct(ord) && before + [t] <= ord
    ensures t in ord && Place(ord, t) == |before|
    ensures forall u :: u in ord && u != t ==> (u in before <==> Place(ord, u) < |before|)
  {
    assert ord[|before|] == t;
    PlaceOf(ord, |before|);
    forall u | u in ord && u != t ensures u in before <==> Place(ord, u) < |before| {
      if u in before {
        var i :| 0 <= i < |before| && before[i] == u;
        PlaceOf(ord, i);
      } else {
        assert ord[Place(ord, u)] == u;
      }
    }
  }

  /** Without inspectors every finished run is explained by the order of the checks. */
  lemma UninspectedRunIsSerial(env: Env, ss: seq<System>, ls: seq<Label>)
    requires IsRun(env, ss, ls) && Finishes(ss[|ls|]) && env.inspectors == []
    ensures Orders(CheckOrder(ls), ss[|ls|]) && Explains(env, ss[|ls|], CheckOrder(ls))
    ensures NoDeletes(ls) ==> OneByOne(env, ss[|ls|], CheckOrder(ls)).store == ss[|ls|].state.store
  {
    var f, ord := ss[|ls|], CheckOrder(ls);
    CheckOrderIs(env, ss, ls, |ls|);
    assert ls[..|ls|] == ls;
    assert Orders(ord, f);
    forall i | 0 <= i < |ls| ensures StepFollows(env, f, ord, ss[i], ls[i]) {
      if ls[i].Check? {
        CheckOrderIs(env, ss, ls, i);
        CheckFollows(ss[i], ls, i);
      }
    }
    FinishedRunIsSerial(env, ss, ls, ord);
  }

  // ---------------------------------------------------------------- what no order explains

  /** One call at a time, an empty store means that no baseline has been set. */
  lemma {:induction false} EmptyStoreNoBaselines(env: Env, f: System, ts: seq<nat>)
    requires forall t :: t in ts ==> t in f.threads
    ensures OneByOne(env, f, ts).store == map[] ==> OneByOne(env, f, ts).baselines == map[]
    decreases |ts|
  {
    if ts != [] {
      var init, t := ts[..|ts| - 1], ts[|ts| - 1];
      EmptyStoreNoBaselines(env, f, init);
      assert t in ts;
      var before, w := OneByOne(env, f, init), f.threads[t].write;
      if !IsBlocked(env, before, w) {
        assert IdOf(f, t) in AfterWrite(env, before, w, IdOf(f, t)).store;
      }
    }
  }

  lemma {:induction false} StoreStaysEmpty(env: Env, ss: seq<System>, ls: seq<Label>, i: nat)
    requires IsRun(env, ss, ls) && i < |ss| && forall j :: 0 <= j < |ls| ==> !ls[j].Put?
    ensures ss[i].state.store == map[]
    decreases i
  {
    if i > 0 {
      StoreStaysEmpty(env, ss, ls, i - 1);
      assert !ls[i - 1].Put?;
    }
  }

  /** A run may show what no order of calls shows: a call blocked by a baseline whose entry is not stored yet. Whatever
      calls are made one by one before it, if they leave the store empty the write is not blocked. */
  lemma BlockedBeforeStored(env: Env, own: string, h: Write, v: Write) returns (ss: seq<System>, ls: seq<Label>)
    requires RI.Contend(env, own, false, h, v) && Hashed(env, h) && Hashed(env, v)
    ensures IsRun(env, ss, ls) && ls == [Start(0, h), Check(0), Start(1, v), Check(1)]
    ensures 1 in ss[4].threads && ss[4].threads[1].pc.Finished? && !ss[4].threads[1].pc.result.allow
    ensures ss[4].state.store == map[]
    ensures forall ts: seq<nat> :: (forall t :: t in ts ==> t in ss[4].threads) ==>
      EmptyMeansOpen(env, OneByOne(env, ss[4], ts), v)
  {
    ss, ls := RI.TwoCalls(env, h, v);
    RI.ContentionTells(env, own, false, h, v);
    ContentionBlocks(env, own, h, v);
    StoreStaysEmpty(env, ss, ls, 4);
    forall ts: seq<nat> | forall t :: t in ts ==> t in ss[4].threads
      ensures EmptyMeansOpen(env, OneByOne(env, ss[4], ts), v)
    {
      EmptyStoreNoBaselines(env, ss[4], ts);
    }
  }

  /** With an empty store the write is not blocked by a baseline. */
  predicate EmptyMeansOpen(env: Env, s: State, v: Write) {
    s.store == map[] ==> !IsBlocked(env, s, v)
  }

  lemma ContentionBlocks(env: Env, own: string, h: Write, v: Write)
    requires RI.Contend(env, own, false, h, v)
    ensures CheckedPc(env, v, CheckedBaselines(env, h, map[])).Finished?
    ensures !CheckedPc(env, v, CheckedBaselines(env, h, map[])).result.allow
    ensures forall s: State :: s.baselines == map[] ==> !IsBlocked(env, s, v)
  {
    assert CheckedBaselines(env, h, map[]) == map[h.key := h.contentHash];
  }

  /** Two calls under one configured key and one bound key, where the inspector answers the first otherwise once it has
      been shown the second. */
  predicate Crossed(env: Env, v: Write, w: Write) {
    && |env.inspectors| == 1 && v.key == w.key && v.boundKey == w.boundKey
    && Compares(env, v) && Compares(env, w) && !IsReserved(v.key) && v.contentHash != w.contentHash
    && env.merge(env.inspectors[0]([], v.seen)) != env.merge(env.inspectors[0]([w.seen], v.seen))
  }

  function UnauthorizedFlags(env: Env, w: Write): seq<string> {
    if IsProtected(env.glob, env.policy, w.key) && !w.attested then [PROTECTED_FLAG] else []
  }

  /** The checks of two crossed calls: the first sets the baseline, the second misses it. */
  lemma CrossedChecks(env: Env, v: Write, w: Write)
    requires Crossed(env, v, w)
    ensures CheckedPc(env, v, map[]) == Accepted(v.flags + UnauthorizedFlags(env, v), [], 0)
    ensures CheckedBaselines(env, v, map[]) == map[v.key := v.contentHash]
    ensures CheckedPc(env, w, map[]) == Accepted(w.flags + UnauthorizedFlags(env, w), [], 0)
    ensures CheckedPc(env, w, map[v.key := v.contentHash])
         == Accepted(w.flags + (UnauthorizedFlags(env, w) + [MISMATCH_FLAG]), [], 0)
    ensures CheckedBaselines(env, w, map[v.key := v.contentHash]) == map[v.key := v.contentHash]
  {
    assert UnauthorizedFlags(env, v) + [] == UnauthorizedFlags(env, v);
    assert UnauthorizedFlags(env, w) + [] == UnauthorizedFlags(env, w);
  }

  function CrossedLabels(v: Write, w: Write): seq<Label> {
    [Start(0, v), Start(1, w), Check(0), Check(1), Inspect(1), Inspect(0), Put(0, "0"), Put(1, "1")]
  }

  ghost predicate IsStep(env: Env, s: System, l: Label, s': System) {
    var step := Step; // a function value keeps the step folded in proofs about several
    step.requires(env, s, l) && s' == step(env, s, l)
  }

  /** Both calls at one point: in flight, past the policy, or inspected. */
  function Both(state: State, v: Write, p: Pc, w: Write, q: Pc, origin: map<string, nat>): System {
    System(state, map[0 := Thread(v, p), 1 := Thread(w, q)], origin)
  }

  lemma CrossedStart(env: Env, v: Write, w: Write) returns (m: System, s: System)
    requires Hashed(env, v) && Hashed(env, w)
    ensures IsStep(env, EMPTY, Start(0, v), m) && IsStep(env, m, Start(1, w), s)
    ensures s == Both(EMPTY.state, v, Ready, w, Ready, map[])
  {
    m := Step(env, EMPTY, Start(0, v));
    s := Step(env, m, Start(1, w));
  }

  lemma CrossedCheck(env: Env, v: Write, w: Write, s: System) returns (m: System, s': System)
    requires Crossed(env, v, w) && s == Both(EMPTY.state, v, Ready, w, Ready, map[])
    ensures IsStep(env, s, Check(0), m) && IsStep(env, m, Check(1), s')
    ensures s' == Both(State(map[], map[v.key := v.contentHash], map[]), v, CheckedPc(env, v, map[]),
                       w, CheckedPc(env, w, map[v.key := v.contentHash]), map[])
  {
    CrossedChecks(env, v, w);
    m := Step(env, s, Check(0));
    s' := Step(env, m, Check(1));
  }

  lemma CrossedInspect(env: Env, v: Write, w: Write, b: Baselines, f: seq<string>, g: seq<string>, s: System)
    returns (m: System, s': System)
    requires |env.inspectors| == 1 && v.boundKey == w.boundKey
    requires s == Both(State(map[], b, map[]), v, Accepted(f, [], 0), w, Accepted(g, [], 0), map[])
    ensures IsStep(env, s, Inspect(1), m) && IsStep(env, m, Inspect(0), s')
    ensures s'.threads == map[0 := Thread(v, Accepted(f, env.inspectors[0]([w.seen], v.seen), 1)),
                              1 := Thread(w, Accepted(g, env.inspectors[0]([], w.seen), 1))]
    ensures s'.origin == map[]
  {
    m := Step(env, s, Inspect(1));
    assert [] + [w.seen] == [w.seen];
    assert [] + env.inspectors[0]([], w.seen) == env.inspectors[0]([], w.seen);
    s' := Step(env, m, Inspect(0));
    assert [] + env.inspectors[0]([w.seen], v.seen) == env.inspectors[0]([w.seen], v.seen);
  }

  lemma CrossedPut(env: Env, v: Write, w: Write, f: seq<string>, x: seq<string>, g: seq<string>, y: seq<string>,
                   s: System) returns (m: System, s': System)
    requires |env.inspectors| == 1 && s.origin == map[]
    requires s.threads == map[0 := Thread(v, Accepted(f, x, 1)), 1 := Thread(w, Accepted(g, y, 1))]
    ensures IsStep(env, s, Put(0, "0"), m) && IsStep(env, m, Put(1, "1"), s')
    ensures s'.threads == map[0 := Thread(v, Finished(Stored("0", f + env.merge(x)))),
                              1 := Thread(w, Finished(Stored("1", g + env.merge(y))))]
  {
    m := Step(env, s, Put(0, "0"));
    s' := Step(env, m, Put(1, "1"));
  }

  /** Checked in one order and inspected in the other. */
  lemma CrossedRun(env: Env, v: Write, w: Write) returns (ss: seq<System>)
    requires Crossed(env, v, w) && Hashed(env, v) && Hashed(env, w)
    ensures IsRun(env, ss, CrossedLabels(v, w)) && |ss| == 9
    ensures ss[8].threads == map[
      0 := Thread(v, Finished(Stored("0", v.flags + UnauthorizedFlags(env, v)
                                          + env.merge(env.inspectors[0]([w.seen], v.seen))))),
      1 := Thread(w, Finished(Stored("1", w.flags + (UnauthorizedFlags(env, w) + [MISMATCH_FLAG])
                                          + env.merge(env.inspectors[0]([], w.seen)))))]
  {
    var s1, s2, s3, s4 := CrossedHalf(env, v, w);
    var s5, s6, s7, s8 := CrossedRest(env, v, w, s4);
    ss := EightSteps(env, CrossedLabels(v, w), s1, s2, s3, s4, s5, s6, s7, s8);
  }

  lemma CrossedHalf(env: Env, v: Write, w: Write) returns (s1: System, s2: System, s3: System, s4: System)
    requires Crossed(env, v, w) && Hashed(env, v) && Hashed(env, w)
    ensures IsStep(env, EMPTY, Start(0, v), s1) && IsStep(env, s1, Start(1, w), s2)
    ensures IsStep(env, s2, Check(0), s3) && IsStep(env, s3, Check(1), s4)
    ensures s4 == Both(State(map[], map[v.key := v.contentHash], map[]),
                       v, Accepted(v.flags + UnauthorizedFlags(env, v), [], 0),
                       w, Accepted(w.flags + (UnauthorizedFlags(env, w) + [MISMATCH_FLAG]), [], 0), map[])
  {
    CrossedChecks(env, v, w);
    s1, s2 := CrossedStart(env, v, w);
    s3, s4 := CrossedCheck(env, v, w, s2);
  }

  lemma CrossedRest(env: Env, v: Write, w: Write, s4: System)
    returns (s5: System, s6: System, s7: System, s8: System)
    requires Crossed(env, v, w)
    requires s4 == Both(State(map[], map[v.key := v.contentHash], map[]),
                        v, Accepted(v.flags + UnauthorizedFlags(env, v), [], 0),
                        w, Accepted(w.flags + (UnauthorizedFlags(env, w) + [MISMATCH_FLAG]), [], 0), map[])
    ensures IsStep(env, s4, Inspect(1), s5) && IsStep(env, s5, Inspect(0), s6)
    ensures IsStep(env, s6, Put(0, "0"), s7) && IsStep(env, s7, Put(1, "1"), s8)
    ensures s8.threads == map[
      0 := Thread(v, Finished(Stored("0", v.flags + UnauthorizedFlags(env, v)
                                          + env.merge(env.inspectors[0]([w.seen], v.seen))))),
      1 := Thread(w, Finished(Stored("1", w.flags + (UnauthorizedFlags(env, w) + [MISMATCH_FLAG])
                                          + env.merge(env.inspectors[0]([], w.seen)))))]
  {
    var f, g := v.flags + UnauthorizedFlags(env, v), w.flags + (UnauthorizedFlags(env, w) + [MISMATCH_FLAG]);
    s5, s6 := CrossedInspect(env, v, w, map[v.key := v.contentHash], f, g, s4);
    s7, s8 := CrossedPut(env, v, w, f, env.inspectors[0]([w.seen], v.seen), g, env.inspectors[0]([], w.seen), s6);
  }

  lemma EightSteps(env: Env, ls: seq<Label>, s1: System, s2: System, s3: System, s4: System,
                   s5: System, s6: System, s7: System, s8: System) returns (ss: seq<System>)
    requires |ls| == 8
    requires IsStep(env, EMPTY, ls[0], s1) && IsStep(env, s1, ls[1], s2)
    requires IsStep(env, s2, ls[2], s3) && IsStep(env, s3, ls[3], s4)
    requires IsStep(env, s4, ls[4], s5) && IsStep(env, s5, ls[5], s6)
    requires IsStep(env, s6, ls[6], s7) && IsStep(env, s7, ls[7], s8)
    ensures IsRun(env, ss, ls) && |ss| == 9 && ss[8] == s8
  {
    ss := [EMPTY, s1, s2, s3, s4, s5, s6, s7, s8];
    forall i | 0 <= i < 8 ensures Enabled(env, ss[i], ls[i]) && ss[i + 1] == Step(env, ss[i], ls[i]) {
      assert IsStep(env, ss[i], ls[i], ss[i + 1]);
    }
  }

  lemma TwoOrders(ord: seq<nat>, f: System)
    requires Orders(ord, f) && f.threads.Keys == {0, 1}
    ensures ord == [0, 1] || ord == [1, 0]
  {
    assert 0 in ord && 1 in ord;
    var i, j, n := Place(ord, 0), Place(ord, 1), |ord|;
    assert ord[i] != ord[j] && n >= 2;
    assert ord[0] in ord && ord[1] in ord && ord[n - 1] in ord;
    PlaceOf(ord, 0);
    PlaceOf(ord, 1);
    PlaceOf(ord, n - 1);
  }

  /** Alone, a call is answered from no baseline and no log. */
  lemma FirstAnswer(env: Env, w: Write, flags: seq<string>, id: string)
    requires |env.inspectors| == 1 && CheckedPc(env, w, map[]) == Accepted(flags, [], 0)
    ensures ResultOf(env, EMPTY.state, w, id) == Stored(id, flags + env.merge(env.inspectors[0]([], w.seen)))
  {
    OneCall(env, EMPTY.state, w, id);
    var log: Log := map[];
    var answer := env.inspectors[0]([], w.seen);
    assert Answer(env, w, log, 0) == answer;
    assert Answers(env, w, log, 1) == [] + answer == answer;
  }

  /** With an inspector, some finished runs are explained by no order: each order has one of the two crossed calls
      first, and neither was answered as the first would be. */
  lemma NoOrderExplains(env: Env, v: Write, w: Write) returns (ss: seq<System>)
    requires Crossed(env, v, w) && Hashed(env, v) && Hashed(env, w)
    ensures IsRun(env, ss, CrossedLabels(v, w)) && Finishes(ss[8])
    ensures forall ord :: Orders(ord, ss[8]) ==> !Explains(env, ss[8], ord)
  {
    ss := CrossedRun(env, v, w);
    var f := ss[8];
    CrossedChecks(env, v, w);
    forall ord | Orders(ord, f) ensures !Explains(env, f, ord) {
      TwoOrders(ord, f);
      NeitherIsFirst(env, v, w, f, ord);
      assert 0 <= 0 < |ord|;
    }
  }

  lemma NeitherIsFirst(env: Env, v: Write, w: Write, f: System, ord: seq<nat>)
    requires Crossed(env, v, w) && (ord == [0, 1] || ord == [1, 0])
    requires f.threads == map[
      0 := Thread(v, Finished(Stored("0", v.flags + UnauthorizedFlags(env, v)
                                          + env.merge(env.inspectors[0]([w.seen], v.seen))))),
      1 := Thread(w, Finished(Stored("1", w.flags + (UnauthorizedFlags(env, w) + [MISMATCH_FLAG])
                                          + env.merge(env.inspectors[0]([], w.seen)))))]
    ensures !AnsweredInPlace(env, f, ord, 0)
  {
    CrossedChecks(env, v, w);
    assert ord[..0] == [];
    if ord == [0, 1] {
      var flags := v.flags + UnauthorizedFlags(env, v);
      FirstAnswer(env, v, flags, "0");
      SamePrefix(flags, env.merge(env.inspectors[0]([w.seen], v.seen)), env.merge(env.inspectors[0]([], v.seen)));
    } else {
      FirstAnswer(env, w, w.flags + UnauthorizedFlags(env, w), "1");
    }
  }

  lemma SamePrefix(a: seq<string>, x: seq<string>, y: seq<string>)
    requires x != y
    ensures a + x != a + y
  {
    assert (a + x)[|a|..] == x && (a + y)[|a|..] == y;
  }

  /** One configured key, and an inspector that flags whatever comes under a bound key it has seen. */
  function RecallEnv(): Env {
    Env(_ => [], _ => [], s => (s, []), (pattern, key) => pattern == key, Policy([], ["k"]), s => s,
        [(earlier, _) => if earlier == [] then [] else ["again"]], fs => fs, (_, _) => "")
  }

  function RecallWrite(text: string): Write {
    Prepared(RecallEnv(), Request(text, map[], "k", 0))
  }

  /** Any two contents will do. */
  lemma CrossingHappens(x: string, y: string)
    requires x != y
    ensures Crossed(RecallEnv(), RecallWrite(x), RecallWrite(y))
    ensures Hashed(RecallEnv(), RecallWrite(x)) && Hashed(RecallEnv(), RecallWrite(y))
  {
    var env := RecallEnv();
    assert env.glob(env.policy.immutable[0], "k");
    var tag := "immutable\0";
    assert (tag + x)[|tag|..] == x && (tag + y)[|tag|..] == y;
  }
}
