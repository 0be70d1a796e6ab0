/** Read non-interference: when what others write under their own keys never shows in a reader's answers. */
module ReadIsolation {
  import opened Text
  import opened Entries
  import opened Stores
  import opened Principals
  import opened KeyPolicy
  import opened Guard
  import opened GuardInterleaving

  /** Bound keys visible to a reader whose own key is `own`. */
  predicate Visible(own: string, key: string) {
    key == own || key == SHARED_KEY
  }

  /** Whether a step belongs to a visible write, or deletes something other than a hidden write's entry. */
  predicate Kept(own: string, s: System, l: Label) {
    match l
    case Start(_, w) => Visible(own, w.boundKey)
    case Delete(id) =>
      id in s.origin && s.origin[id] in s.threads ==> Visible(own, s.threads[s.origin[id]].write.boundKey)
    case _ => l.tid in s.threads ==> Visible(own, s.threads[l.tid].write.boundKey)
  }

  /** The run's first `n` labels without the hidden writes and their deletes. */
  function KeptLabels(own: string, ss: seq<System>, ls: seq<Label>, n: nat): seq<Label>
    requires n <= |ls| < |ss|
  {
    if n == 0 then []
    else KeptLabels(own, ss, ls, n - 1) + (if Kept(own, ss[n - 1], ls[n - 1]) then [ls[n - 1]] else [])
  }

  /** Every started write is among `ws`. */
  ghost predicate Over(ws: iset<Write>, ls: seq<Label>) {
    forall i :: 0 <= i < |ls| && ls[i].Start? ==> ls[i].write in ws
  }

  // ---------------------------------------------------------------- contention over baselines

  /** Whether a key's baseline matters: for what is stored only under a reserved key, for the exact flags under any. */
  predicate Matters(exact: bool, key: string) {
    exact || IsReserved(key)
  }

  /** The write gets as far as comparing its content with its key's baseline, and that matters. */
  predicate Compares(env: Env, exact: bool, w: Write) {
    && !Injected(w) && w.key != "" && IsImmutable(env.glob, env.policy, w.key)
    && (IsReserved(w.key) ==> w.attested) && Matters(exact, w.key)
  }

  /** A hidden and a visible write compare different contents with one baseline. */
  predicate Contend(env: Env, own: string, exact: bool, h: Write, v: Write) {
    && !Visible(own, h.boundKey) && Visible(own, v.boundKey)
    && Compares(env, exact, h) && Compares(env, exact, v)
    && h.key == v.key && h.contentHash != v.contentHash
  }

  ghost predicate Peaceful(env: Env, own: string, exact: bool, ws: iset<Write>) {
    forall h, v :: h in ws && v in ws ==> !Contend(env, own, exact, h, v)
  }

  predicate Separate(own: string, h: Write, v: Write) {
    !Visible(own, h.boundKey) && Visible(own, v.boundKey) ==> h.key == "" || h.key != v.key
  }

  /** Writes without a key, or under keys that hidden and visible writers do not share, never contend. */
  lemma SeparateKeysArePeaceful(env: Env, own: string, exact: bool, ws: iset<Write>)
    requires forall h, v :: h in ws && v in ws ==> Separate(own, h, v)
    ensures Peaceful(env, own, exact, ws)
  {
  }

  /** Configured keys, which only flag, never contend over what is stored. */
  lemma ConfiguredKeysArePeaceful(env: Env, own: string, ws: iset<Write>)
    requires forall w :: w in ws ==> !IsReserved(w.key)
    ensures Peaceful(env, own, false, ws)
  {
  }

  // ---------------------------------------------------------------- the two runs side by side

  /** The same flags; unless exactly so, all but the mismatch flag. */
  ghost predicate SameFlags(exact: bool, f: seq<string>, g: seq<string>) {
    if exact then f == g else forall x :: x != MISMATCH_FLAG ==> (x in f <==> x in g)
  }

  ghost predicate SameFate(exact: bool, p: Pc, q: Pc) {
    match p
    case Ready => q.Ready?
    case Accepted(f, answers, asked) =>
      q.Accepted? && SameFlags(exact, f, q.flags) && q.answers == answers && q.asked == asked
    case Finished(r) =>
      && q.Finished? && SameFlags(exact, r.flags, q.result.flags)
      && q.result == r.(flags := q.result.flags)
  }

  ghost predicate SameEntry(exact: bool, e: Entry, f: Entry) {
    SameFlags(exact, e.flags, f.flags) && f == e.(flags := f.flags)
  }

  ghost predicate SameThread(exact: bool, t: Thread, u: Thread) {
    t.write == u.write && SameFate(exact, t.pc, u.pc)
  }

  /** The visible calls, each with the same fate. */
  ghost predicate SameCalls(own: string, exact: bool, a: map<nat, Thread>, b: map<nat, Thread>) {
    && (forall tid :: tid in b <==> tid in a && Visible(own, a[tid].write.boundKey))
    && (forall tid :: tid in b ==> SameThread(exact, a[tid], b[tid]))
  }

  ghost predicate SameEntries(own: string, exact: bool, a: System, b: System) {
    && (forall id :: id in b.state.store <==> id in a.state.store && Visible(own, a.state.store[id].boundIdentity))
    && (forall id :: id in b.state.store ==> SameEntry(exact, a.state.store[id], b.state.store[id]))
    && (forall id :: id in b.origin ==> id in a.origin)
  }

  /** Nothing a visible writer is answered or a reader is shown tells the two apart. */
  ghost predicate Indistinct(own: string, exact: bool, a: System, b: System) {
    SameCalls(own, exact, a.threads, b.threads) && SameEntries(own, exact, a, b)
  }

  ghost predicate SameLogs(own: string, a: Log, b: Log) {
    forall i: nat, k :: Visible(own, k) ==> LogOf(b, i, k) == LogOf(a, i, k)
  }

  /** The baseline only the full run has is one that every visible write agrees with. */
  ghost predicate SameBaseline(env: Env, own: string, exact: bool, ws: iset<Write>, a: Baselines, b: Baselines,
                               k: string) {
    && (k in b ==> k in a && a[k] == b[k])
    && (k in a && k !in b ==>
          forall v :: v in ws && Visible(own, v.boundKey) && Compares(env, exact, v) && v.key == k
            ==> v.contentHash == a[k])
  }

  ghost predicate SameBaselines(env: Env, own: string, exact: bool, ws: iset<Write>, a: Baselines, b: Baselines) {
    forall k :: Matters(exact, k) ==> SameBaseline(env, own, exact, ws, a, b, k)
  }

  ghost predicate AllIn(ws: iset<Write>, threads: map<nat, Thread>) {
    forall tid :: tid in threads ==> threads[tid].write in ws
  }

  ghost predicate Alike(env: Env, own: string, exact: bool, ws: iset<Write>, a: System, b: System) {
    && SameCalls(own, exact, a.threads, b.threads) && SameEntries(own, exact, a, b)
    && SameLogs(own, a.state.log, b.state.log)
    && SameBaselines(env, own, exact, ws, a.state.baselines, b.state.baselines)
    && AllIn(ws, a.threads)
  }

  /** What the store invariant says about identities. */
  ghost predicate Bound(a: System) {
    forall id :: id in a.state.store ==>
      && id in a.origin && a.origin[id] in a.threads
      && a.state.store[id].boundIdentity == a.threads[a.origin[id]].write.boundKey
  }

  lemma InvBounds(env: Env, a: System)
    requires Inv(env, a)
    ensures Bound(a)
  {
    forall id | id in a.state.store
      ensures id in a.origin && a.origin[id] in a.threads
        && a.state.store[id].boundIdentity == a.threads[a.origin[id]].write.boundKey
    {
      assert Minted(a, id);
    }
  }

  /** A step that may be dropped or kept: enabled, of a write among `ws`. */
  ghost predicate Taken(env: Env, ws: iset<Write>, a: System, l: Label) {
    Enabled(env, a, l) && (l.Start? ==> l.write in ws)
  }

  // ---------------------------------------------------------------- what a check does to baselines and fates

  lemma HiddenCheck(env: Env, own: string, exact: bool, ws: iset<Write>, h: Write, a: Baselines, b: Baselines)
    requires Peaceful(env, own, exact, ws) && SameBaselines(env, own, exact, ws, a, b)
    requires h in ws && !Visible(own, h.boundKey)
    ensures SameBaselines(env, own, exact, ws, CheckedBaselines(env, h, a), b)
  {
    var a' := CheckedBaselines(env, h, a);
    forall k | Matters(exact, k) ensures SameBaseline(env, own, exact, ws, a', b, k) {
      assert SameBaseline(env, own, exact, ws, a, b, k);
      if k in a' && k !in a {
        assert k == h.key && Compares(env, exact, h) && a'[k] == h.contentHash;
        forall v | v in ws && Visible(own, v.boundKey) && Compares(env, exact, v) && v.key == k
          ensures v.contentHash == a'[k]
        {
          assert !Contend(env, own, exact, h, v);
        }
      }
    }
  }

  /** Where it matters, a visible write meets the same baseline in both, or one it agrees with. */
  ghost predicate MeetsSame(a: Baselines, b: Baselines, k: string, h: string) {
    (k in b ==> k in a && a[k] == b[k]) && (k in a && k !in b ==> a[k] == h)
  }

  lemma CheckAlike(env: Env, exact: bool, v: Write, a: Baselines, b: Baselines)
    requires Compares(env, exact, v) ==> MeetsSame(a, b, v.key, v.contentHash)
    ensures SameFate(exact, CheckedPc(env, v, a), CheckedPc(env, v, b))
  {
  }

  lemma VisibleBaseline(env: Env, own: string, exact: bool, ws: iset<Write>, v: Write, a: Baselines, b: Baselines,
                        k: string)
    requires SameBaseline(env, own, exact, ws, a, b, k) && v in ws && Visible(own, v.boundKey) && Matters(exact, k)
    ensures SameBaseline(env, own, exact, ws, CheckedBaselines(env, v, a), CheckedBaselines(env, v, b), k)
  {
  }

  lemma VisibleCheck(env: Env, own: string, exact: bool, ws: iset<Write>, v: Write, a: Baselines, b: Baselines)
    requires SameBaselines(env, own, exact, ws, a, b) && v in ws && Visible(own, v.boundKey)
    ensures SameBaselines(env, own, exact, ws, CheckedBaselines(env, v, a), CheckedBaselines(env, v, b))
    ensures SameFate(exact, CheckedPc(env, v, a), CheckedPc(env, v, b))
  {
    if Compares(env, exact, v) { assert SameBaseline(env, own, exact, ws, a, b, v.key); }
    CheckAlike(env, exact, v, a, b);
    forall k | Matters(exact, k)
      ensures SameBaseline(env, own, exact, ws, CheckedBaselines(env, v, a), CheckedBaselines(env, v, b), k)
    {
      VisibleBaseline(env, own, exact, ws, v, a, b, k);
    }
  }

  // ---------------------------------------------------------------- steps

  /** What a step makes of its own call. */
  function NextPc(env: Env, s: System, l: Label): Pc
    requires Enabled(env, s, l) && !l.Delete?
  {
    Step(env, s, l).threads[l.tid].pc
  }

  function NextThread(env: Env, s: System, l: Label): Thread
    requires Enabled(env, s, l) && !l.Delete?
  {
    Thread(if l.Start? then l.write else s.threads[l.tid].write, NextPc(env, s, l))
  }

  lemma ThreadUpdate(env: Env, s: System, l: Label)
    requires Enabled(env, s, l) && !l.Delete?
    ensures Step(env, s, l).threads == s.threads[l.tid := NextThread(env, s, l)]
  {
  }

  /** A hidden call may be set in the full run alone. */
  lemma SetHidden(own: string, exact: bool, a: map<nat, Thread>, b: map<nat, Thread>, tid: nat, t: Thread)
    requires SameCalls(own, exact, a, b) && !Visible(own, t.write.boundKey)
    requires tid in a ==> a[tid].write.boundKey == t.write.boundKey
    ensures SameCalls(own, exact, a[tid := t], b)
  {
  }

  lemma DroppedThreads(env: Env, own: string, exact: bool, ws: iset<Write>, a: System, b: System, l: Label)
    requires SameCalls(own, exact, a.threads, b.threads) && AllIn(ws, a.threads)
    requires Taken(env, ws, a, l) && !Kept(own, a, l)
    ensures SameCalls(own, exact, Step(env, a, l).threads, b.threads)
  {
    if !l.Delete? {
      ThreadUpdate(env, a, l);
      SetHidden(own, exact, a.threads, b.threads, l.tid, NextThread(env, a, l));
    }
  }

  lemma StepStaysIn(env: Env, ws: iset<Write>, a: System, l: Label)
    requires AllIn(ws, a.threads) && Taken(env, ws, a, l)
    ensures AllIn(ws, Step(env, a, l).threads)
  {
    if !l.Delete? { ThreadUpdate(env, a, l); }
  }

  lemma DroppedEntries(env: Env, own: string, exact: bool, ws: iset<Write>, a: System, b: System, l: Label)
    requires SameEntries(own, exact, a, b) && Bound(a) && Taken(env, ws, a, l) && !Kept(own, a, l)
    ensures SameEntries(own, exact, Step(env, a, l), b)
  {
    var a' := Step(env, a, l);
    match l
    case Put(tid, id) => assert id !in a.state.store && id !in b.state.store;
    case Delete(id) => assert id in a.state.store ==> !Visible(own, a.state.store[id].boundIdentity);
    case _ => assert a'.state.store == a.state.store && a'.origin == a.origin;
  }

  lemma DroppedLogs(env: Env, own: string, ws: iset<Write>, a: System, b: Log, l: Label)
    requires SameLogs(own, a.state.log, b) && Taken(env, ws, a, l) && !Kept(own, a, l)
    ensures SameLogs(own, Step(env, a, l).state.log, b)
  {
    if l.Inspect? { OtherLogs(a.threads[l.tid].write, a.state.log, a.threads[l.tid].pc.asked); }
  }

  lemma OtherLogs(w: Write, log: Log, n: nat)
    ensures forall i: nat, k :: (i, k) != (n, w.boundKey) ==> LogOf(Recorded(w, log, n), i, k) == LogOf(log, i, k)
  {
  }

  lemma DroppedBaselines(env: Env, own: string, exact: bool, ws: iset<Write>, a: System, b: Baselines, l: Label)
    requires Peaceful(env, own, exact, ws) && SameBaselines(env, own, exact, ws, a.state.baselines, b)
    requires AllIn(ws, a.threads) && Taken(env, ws, a, l) && !Kept(own, a, l)
    ensures SameBaselines(env, own, exact, ws, Step(env, a, l).state.baselines, b)
  {
    if l.Check? { HiddenCheck(env, own, exact, ws, a.threads[l.tid].write, a.state.baselines, b); }
  }

  /** A dropped step leaves the runs alike. */
  lemma DroppedStep(env: Env, own: string, exact: bool, ws: iset<Write>, a: System, b: System, l: Label)
    requires Peaceful(env, own, exact, ws) && Alike(env, own, exact, ws, a, b) && Bound(a)
    requires Taken(env, ws, a, l) && !Kept(own, a, l)
    ensures Alike(env, own, exact, ws, Step(env, a, l), b)
  {
    DroppedThreads(env, own, exact, ws, a, b, l);
    DroppedEntries(env, own, exact, ws, a, b, l);
    DroppedLogs(env, own, ws, a, b.state.log, l);
    DroppedBaselines(env, own, exact, ws, a, b.state.baselines, l);
    StepStaysIn(env, ws, a, l);
  }

  lemma KeptEnabled(env: Env, own: string, exact: bool, ws: iset<Write>, a: System, b: System, l: Label)
    requires SameCalls(own, exact, a.threads, b.threads) && SameEntries(own, exact, a, b)
    requires Taken(env, ws, a, l) && Kept(own, a, l)
    ensures Enabled(env, b, l)
    ensures !l.Start? && !l.Delete? ==> l.tid in b.threads && SameThread(exact, a.threads[l.tid], b.threads[l.tid])
  {
  }

  lemma KeptPc(env: Env, own: string, exact: bool, ws: iset<Write>, a: System, b: System, l: Label)
    requires Alike(env, own, exact, ws, a, b) && Taken(env, ws, a, l) && Kept(own, a, l) && !l.Delete?
    ensures Enabled(env, b, l) && SameThread(exact, NextThread(env, a, l), NextThread(env, b, l))
  {
    KeptEnabled(env, own, exact, ws, a, b, l);
    match l
    case Check(tid) =>
      VisibleCheck(env, own, exact, ws, a.threads[tid].write, a.state.baselines, b.state.baselines);
    case Inspect(tid) =>
      var w, n := a.threads[tid].write, a.threads[tid].pc.asked;
      assert Visible(own, w.boundKey);
      assert Answer(env, w, a.state.log, n) == Answer(env, w, b.state.log, n);
    case Put(tid, id) =>
      StoredAlike(exact, id, a.threads[tid].pc.flags, b.threads[tid].pc.flags, Merged(env, a.threads[tid].pc.answers));
    case Start(_, _) =>
  }

  lemma FlagsAppend(exact: bool, f: seq<string>, g: seq<string>, more: seq<string>)
    requires SameFlags(exact, f, g)
    ensures SameFlags(exact, f + more, g + more)
    ensures BORDERLINE_FLAG in f + more <==> BORDERLINE_FLAG in g + more
  {
    assert BORDERLINE_FLAG[0] != MISMATCH_FLAG[0];
  }

  lemma StoredAlike(exact: bool, id: string, f: seq<string>, g: seq<string>, more: seq<string>)
    requires SameFlags(exact, f, g)
    ensures SameFate(exact, Finished(Stored(id, f + more)), Finished(Stored(id, g + more)))
  {
    FlagsAppend(exact, f, g, more);
  }

  lemma EntriesAlike(exact: bool, w: Write, f: seq<string>, g: seq<string>, more: seq<string>)
    requires SameFlags(exact, f, g)
    ensures SameEntry(exact, EntryFor(w, f + more), EntryFor(w, g + more))
  {
    FlagsAppend(exact, f, g, more);
  }

  /** Setting one visible call alike in both keeps the calls alike. */
  lemma SetBoth(own: string, exact: bool, a: map<nat, Thread>, b: map<nat, Thread>, tid: nat, t: Thread, u: Thread)
    requires SameCalls(own, exact, a, b) && Visible(own, t.write.boundKey) && SameThread(exact, t, u)
    ensures SameCalls(own, exact, a[tid := t], b[tid := u])
  {
  }

  lemma KeptThreads(env: Env, own: string, exact: bool, ws: iset<Write>, a: System, b: System, l: Label)
    requires Alike(env, own, exact, ws, a, b) && Taken(env, ws, a, l) && Kept(own, a, l) && Enabled(env, b, l)
    ensures SameCalls(own, exact, Step(env, a, l).threads, Step(env, b, l).threads)
  {
    if !l.Delete? {
      KeptPc(env, own, exact, ws, a, b, l);
      ThreadUpdate(env, a, l);
      ThreadUpdate(env, b, l);
      SetBoth(own, exact, a.threads, b.threads, l.tid, NextThread(env, a, l), NextThread(env, b, l));
    }
  }

  lemma KeptEntries(env: Env, own: string, exact: bool, ws: iset<Write>, a: System, b: System, l: Label)
    requires SameCalls(own, exact, a.threads, b.threads) && SameEntries(own, exact, a, b) && Bound(a)
    requires Taken(env, ws, a, l) && Kept(own, a, l) && Enabled(env, b, l)
    ensures SameEntries(own, exact, Step(env, a, l), Step(env, b, l))
  {
    var a', b' := Step(env, a, l), Step(env, b, l);
    match l
    case Put(tid, id) =>
      var t, u := a.threads[tid], b.threads[tid];
      assert SameThread(exact, t, u);
      EntriesAlike(exact, t.write, t.pc.flags, u.pc.flags, Merged(env, t.pc.answers));
      assert SameEntry(exact, a'.state.store[id], b'.state.store[id]) && Visible(own, a'.state.store[id].boundIdentity);
    case Delete(id) =>
    case _ =>
      assert a'.state.store == a.state.store && a'.origin == a.origin;
      assert b'.state.store == b.state.store && b'.origin == b.origin;
  }

  lemma KeptLogs(env: Env, own: string, exact: bool, ws: iset<Write>, a: System, b: System, l: Label)
    requires SameCalls(own, exact, a.threads, b.threads) && SameLogs(own, a.state.log, b.state.log)
    requires Taken(env, ws, a, l) && Kept(own, a, l) && Enabled(env, b, l)
    ensures SameLogs(own, Step(env, a, l).state.log, Step(env, b, l).state.log)
  {
    if l.Inspect? {
      var w, n := a.threads[l.tid].write, a.threads[l.tid].pc.asked;
      assert SameThread(exact, a.threads[l.tid], b.threads[l.tid]);
      OtherLogs(w, a.state.log, n);
      OtherLogs(w, b.state.log, n);
      assert Visible(own, w.boundKey);
    }
  }

  lemma KeptBaselines(env: Env, own: string, exact: bool, ws: iset<Write>, a: System, b: System, l: Label)
    requires Alike(env, own, exact, ws, a, b) && Taken(env, ws, a, l) && Kept(own, a, l) && Enabled(env, b, l)
    ensures SameBaselines(env, own, exact, ws, Step(env, a, l).state.baselines, Step(env, b, l).state.baselines)
  {
    if l.Check? {
      assert SameThread(exact, a.threads[l.tid], b.threads[l.tid]);
      VisibleCheck(env, own, exact, ws, a.threads[l.tid].write, a.state.baselines, b.state.baselines);
    }
  }

  /** A kept step can be taken in both runs, and leaves them alike. */
  lemma KeptStep(env: Env, own: string, exact: bool, ws: iset<Write>, a: System, b: System, l: Label)
    requires Alike(env, own, exact, ws, a, b) && Bound(a) && Taken(env, ws, a, l) && Kept(own, a, l)
    ensures Enabled(env, b, l)
    ensures Alike(env, own, exact, ws, Step(env, a, l), Step(env, b, l))
  {
    KeptEnabled(env, own, exact, ws, a, b, l);
    KeptThreads(env, own, exact, ws, a, b, l);
    KeptEntries(env, own, exact, ws, a, b, l);
    KeptLogs(env, own, exact, ws, a, b, l);
    KeptBaselines(env, own, exact, ws, a, b, l);
    StepStaysIn(env, ws, a, l);
  }

  // ---------------------------------------------------------------- runs

  lemma ExtendRun(env: Env, ss: seq<System>, ls: seq<Label>, l: Label)
    requires IsRun(env, ss, ls) && Enabled(env, ss[|ss| - 1], l)
    ensures IsRun(env, ss + [Step(env, ss[|ss| - 1], l)], ls + [l])
  {
  }

  /** One more label of the full run: its step is taken in the other run, or dropped. */
  lemma OneMore(env: Env, own: string, exact: bool, ws: iset<Write>, a: System, l: Label,
                ss': seq<System>, ls': seq<Label>) returns (ss'': seq<System>)
    requires Peaceful(env, own, exact, ws) && IsRun(env, ss', ls')
    requires Alike(env, own, exact, ws, a, ss'[|ss'| - 1]) && Bound(a) && Taken(env, ws, a, l)
    ensures IsRun(env, ss'', ls' + (if Kept(own, a, l) then [l] else []))
    ensures Alike(env, own, exact, ws, Step(env, a, l), ss''[|ss''| - 1])
  {
    var b := ss'[|ss'| - 1];
    if Kept(own, a, l) {
      KeptStep(env, own, exact, ws, a, b, l);
      ExtendRun(env, ss', ls', l);
      ss'' := ss' + [Step(env, b, l)];
    } else {
      DroppedStep(env, own, exact, ws, a, b, l);
      assert ls' + [] == ls';
      ss'' := ss';
    }
  }

  /** Without contention the kept labels make a run of their own, alike throughout. */
  lemma {:induction false} KeptRun(env: Env, own: string, exact: bool, ws: iset<Write>,
                                   ss: seq<System>, ls: seq<Label>, n: nat) returns (ss': seq<System>)
    requires IsRun(env, ss, ls) && Over(ws, ls) && Peaceful(env, own, exact, ws) && n <= |ls|
    ensures IsRun(env, ss', KeptLabels(own, ss, ls, n))
    ensures Alike(env, own, exact, ws, ss[n], ss'[|ss'| - 1])
    decreases n
  {
    if n == 0 {
      ss' := [EMPTY];
    } else {
      ss' := KeptRun(env, own, exact, ws, ss, ls, n - 1);
      RunKeepsInv(env, ss, ls, n - 1);
      InvBounds(env, ss[n - 1]);
      ss' := OneMore(env, own, exact, ws, ss[n - 1], ls[n - 1], ss', KeptLabels(own, ss, ls, n - 1));
    }
  }

  // ---------------------------------------------------------------- contention shows

  /** The run goes on without its hidden writes, and nobody visible can tell. */
  ghost predicate Undisturbed(env: Env, own: string, exact: bool, ss: seq<System>, ls: seq<Label>)
    requires IsRun(env, ss, ls)
  {
    exists ss' :: IsRun(env, ss', KeptLabels(own, ss, ls, |ls|)) && Indistinct(own, exact, ss[|ls|], ss'[|ss'| - 1])
  }

  lemma TwoCalls(env: Env, h: Write, v: Write) returns (ss: seq<System>, ls: seq<Label>)
    requires Hashed(env, h) && Hashed(env, v)
    ensures ls == [Start(0, h), Check(0), Start(1, v), Check(1)] && IsRun(env, ss, ls)
    ensures 1 in ss[4].threads && ss[4].threads[1].pc == CheckedPc(env, v, CheckedBaselines(env, h, map[]))
    ensures forall i :: 1 <= i < 4 ==> 0 in ss[i].threads && ss[i].threads[0].write == h
    ensures 1 in ss[3].threads && ss[3].threads[1].write == v
  {
    ls := [Start(0, h), Check(0), Start(1, v), Check(1)];
    var s1 := Step(env, EMPTY, ls[0]);
    var s2 := Step(env, s1, ls[1]);
    var s3 := Step(env, s2, ls[2]);
    ss := [EMPTY, s1, s2, s3, Step(env, s3, ls[3])];
  }

  /** Alone, the visible write finds no baseline. */
  lemma OneCall(env: Env, v: Write, ss: seq<System>)
    requires Hashed(env, v) && IsRun(env, ss, [Start(1, v), Check(1)])
    ensures |ss| == 3 && 1 in ss[2].threads && ss[2].threads[1].pc == CheckedPc(env, v, map[])
  {
    var ls := [Start(1, v), Check(1)];
    assert ss[1] == Step(env, ss[0], ls[0]) && ss[2] == Step(env, ss[1], ls[1]);
  }

  lemma FourKept(env: Env, own: string, h: Write, v: Write, ss: seq<System>, ls: seq<Label>)
    requires ls == [Start(0, h), Check(0), Start(1, v), Check(1)] && |ss| == 5
    requires !Visible(own, h.boundKey) && Visible(own, v.boundKey)
    requires 0 in ss[1].threads && ss[1].threads[0].write == h && 1 in ss[3].threads && ss[3].threads[1].write == v
    ensures KeptLabels(own, ss, ls, 4) == [Start(1, v), Check(1)]
  {
    assert KeptLabels(own, ss, ls, 2) == KeptLabels(own, ss, ls, 1) == [];
    assert KeptLabels(own, ss, ls, 3) == [Start(1, v)];
  }

  /** Of two contending writes, the visible one fares differently after the hidden one. */
  lemma ContentionTells(env: Env, own: string, exact: bool, h: Write, v: Write)
    requires Contend(env, own, exact, h, v)
    ensures !SameFate(exact, CheckedPc(env, v, CheckedBaselines(env, h, map[])), CheckedPc(env, v, map[]))
  {
    assert CheckedBaselines(env, h, map[]) == map[h.key := h.contentHash];
  }

  lemma ContentionDisturbs(env: Env, own: string, exact: bool, h: Write, v: Write)
    returns (ss: seq<System>, ls: seq<Label>)
    requires Contend(env, own, exact, h, v) && Hashed(env, h) && Hashed(env, v)
    ensures IsRun(env, ss, ls) && Over(iset{h, v}, ls) && !Undisturbed(env, own, exact, ss, ls)
  {
    ss, ls := TwoCalls(env, h, v);
    FourKept(env, own, h, v, ss, ls);
    ContentionTells(env, own, exact, h, v);
    forall ss': seq<System> | IsRun(env, ss', [Start(1, v), Check(1)])
      ensures !Indistinct(own, exact, ss[4], ss'[|ss'| - 1]) {
      OneCall(env, v, ss');
    }
  }

  ghost predicate AllUndisturbed(env: Env, own: string, exact: bool, ws: iset<Write>) {
    forall ss, ls :: IsRun(env, ss, ls) && Over(ws, ls) ==> Undisturbed(env, own, exact, ss, ls)
  }

  lemma PeaceIsolates(env: Env, own: string, exact: bool, ws: iset<Write>)
    requires Peaceful(env, own, exact, ws)
    ensures AllUndisturbed(env, own, exact, ws)
  {
    forall ss, ls | IsRun(env, ss, ls) && Over(ws, ls) ensures Undisturbed(env, own, exact, ss, ls) {
      var ss' := KeptRun(env, own, exact, ws, ss, ls, |ls|);
    }
  }

  /** Every run over a set of writes goes undisturbed by its hidden ones exactly when no hidden write of the set
      contends with a visible one. */
  lemma IsolationIff(env: Env, own: string, exact: bool, ws: iset<Write>)
    requires forall w :: w in ws ==> Hashed(env, w)
    ensures AllUndisturbed(env, own, exact, ws) <==> Peaceful(env, own, exact, ws)
  {
    if Peaceful(env, own, exact, ws) {
      PeaceIsolates(env, own, exact, ws);
    } else {
      var h, v :| h in ws && v in ws && Contend(env, own, exact, h, v);
      var ss, ls := ContentionDisturbs(env, own, exact, h, v);
      assert Over(ws, ls);
    }
  }

  /** The stored side of it: after the hidden write the visible one is blocked, and its entry, which alone every
      matching reader is offered (or review finds), is nowhere. */
  lemma HiddenWriteHides(env: Env, own: string, h: Write, v: Write, s: State, i: string, j: string)
    requires Contend(env, own, false, h, v) && h.key !in s.baselines && i != j && j !in s.store
    ensures var alone, after := AfterWrite(env, s, v, j), AfterWrite(env, AfterWrite(env, s, h, i), v, j);
      && j in alone.store && alone.store[j].content == v.content && Visible(own, alone.store[j].boundIdentity)
      && j !in after.store
      && ResultOf(env, AfterWrite(env, s, h, i), v, j).state == Block
      && ResultOf(env, s, v, j).state != Block
  {
  }

  // ---------------------------------------------------------------- contention happens

  /** No detectors, no inspectors, contents as they are, and their own hashes. */
  function PlainEnv(): Env {
    Env(_ => [], _ => [], s => (s, []), (_, _) => false, Policy([], []), s => s, [], fs => fs, (_, _) => "")
  }

  function RequestOf(subject: string, text: string, key: string): Request {
    Request(text, map["spiffe_id" := Str(subject), "trust_tier" := Str(ATTESTED)], key, 0)
  }

  lemma PlainPrincipal(subject: string, text: string, key: string)
    requires TrimSpace(subject) == subject
    ensures PrincipalFromMap(RequestOf(subject, text, key).identity) == Principal(subject, ATTESTED, "")
  {
    TrimClean(ATTESTED);
  }

  lemma PlainWrite(subject: string, text: string, key: string)
    requires TrimSpace(subject) == subject && subject !in {UNBOUND, SHARED_KEY}
    ensures var w := Prepared(PlainEnv(), RequestOf(subject, text, key));
      w.flags == [] && w.attested && w.boundKey == subject && w.key == key && w.contentHash == "immutable\0" + text
  {
    PlainPrincipal(subject, text, key);
  }

  /** Any two attested writers with subjects of their own contend under any reserved key over any two contents. */
  lemma ContentionHappens(a: string, x: string, b: string, y: string, key: string)
    requires TrimSpace(a) == a && a !in {UNBOUND, SHARED_KEY} && TrimSpace(b) == b && b !in {UNBOUND, SHARED_KEY}
    requires a != b && x != y && IsReserved(key)
    ensures var env := PlainEnv();
      Contend(env, b, false, Prepared(env, RequestOf(a, x, key)), Prepared(env, RequestOf(b, y, key)))
  {
    PlainWrite(a, x, key);
    PlainWrite(b, y, key);
    var tag := "immutable\0";
    assert (tag + x)[|tag|..] == x && (tag + y)[|tag|..] == y;
  }

  // ---------------------------------------------------------------- what readers are shown

  function Unflagged(t: Table): Table {
    map id | id in t :: t[id].(flags := [])
  }

  lemma SameEntriesOffered(own: string, exact: bool, a: System, b: System, query: string)
    requires SameEntries(own, exact, a, b)
    ensures var keys := [own, SHARED_KEY];
      && Unflagged(Offered(a.state.store, query, keys)) == Unflagged(Offered(b.state.store, query, keys))
      && (exact ==> Offered(a.state.store, query, keys) == Offered(b.state.store, query, keys))
  {
    assert forall k :: k in [own, SHARED_KEY] <==> Visible(own, k);
    forall id | id in b.state.store ensures SameEntry(exact, a.state.store[id], b.state.store[id]) {}
  }

  function Without(es: seq<Entry>, i: nat): seq<Entry>
    requires i < |es|
  {
    es[..i] + es[i + 1..]
  }

  lemma TakeOut(es: seq<Entry>, i: nat)
    requires i < |es|
    ensures multiset(es) == multiset(Without(es, i)) + multiset{es[i]}
    ensures multiset(Contents(es)) == multiset(Contents(Without(es, i))) + multiset{es[i].content}
  {
    assert es == es[..i] + [es[i]] + es[i + 1..];
    assert Contents(es) == Contents(es[..i]) + [es[i].content] + Contents(es[i + 1..]);
    assert Contents(Without(es, i)) == Contents(es[..i]) + Contents(es[i + 1..]);
  }

  lemma TakeEntry(t: Table, id: string, es: seq<Entry>) returns (rest: seq<Entry>)
    requires id in t && multiset(es) == Bag(t)
    ensures multiset(rest) == Bag(t - {id})
    ensures multiset(Contents(es)) == multiset(Contents(rest)) + multiset{t[id].content}
  {
    BagTake(t, id);
    assert t[id] in multiset(es);
    var i :| 0 <= i < |es| && es[i] == t[id];
    TakeOut(es, i);
    rest := Without(es, i);
    CancelOne(multiset(rest), Bag(t - {id}), t[id]);
  }

  lemma CancelOne(x: multiset<Entry>, y: multiset<Entry>, e: Entry)
    requires x + multiset{e} == multiset{e} + y
    ensures x == y
  {
    assert x == (x + multiset{e}) - multiset{e};
    assert y == (multiset{e} + y) - multiset{e};
  }

  lemma UnflaggedTake(t: Table, u: Table, id: string)
    requires Unflagged(t) == Unflagged(u) && id in t
    ensures id in u && t[id].content == u[id].content && Unflagged(t - {id}) == Unflagged(u - {id})
  {
    assert id in Unflagged(t) && id in Unflagged(u);
    assert Unflagged(t)[id] == Unflagged(u)[id];
    assert Unflagged(t - {id}) == Unflagged(t) - {id} && Unflagged(u - {id}) == Unflagged(u) - {id};
  }

  lemma UnflaggedEmpty(u: Table)
    requires Unflagged(u) == map[]
    ensures u == map[]
  {
    assert u.Keys == Unflagged(u).Keys;
  }

  /** Tables alike but for flags hand the same contents to the redactor, whatever order their entries come in. */
  lemma {:induction false} SameContents(t: Table, u: Table, es: seq<Entry>, fs: seq<Entry>)
    requires Unflagged(t) == Unflagged(u) && multiset(es) == Bag(t) && multiset(fs) == Bag(u)
    ensures multiset(Contents(es)) == multiset(Contents(fs))
    decreases |t|
  {
    if t == map[] {
      UnflaggedEmpty(u);
      assert es == [] && fs == [];
    } else {
      var id :| id in t;
      UnflaggedTake(t, u, id);
      var es' := TakeEntry(t, id, es);
      var fs' := TakeEntry(u, id, fs);
      RemoveOne(t, id);
      SameContents(t - {id}, u - {id}, es', fs');
    }
  }

  ghost function Started(ls: seq<Label>): iset<Write> {
    iset i | 0 <= i < |ls| && ls[i].Start? :: ls[i].write
  }

  /** Over any interleaving of writes and deletes, taking out every write whose entry a reader may not see (and the
      deletes of its entry) changes nothing that reader is shown, unless a reserved key is contended. */
  lemma ReadNonInterference(env: Env, reader: Option<Principal>, exact: bool, ss: seq<System>, ls: seq<Label>,
                            query: string) returns (ss': seq<System>)
    requires IsRun(env, ss, ls) && Peaceful(env, ReaderVisibilityKey(reader).0, exact, Started(ls))
    ensures IsRun(env, ss', KeptLabels(ReaderVisibilityKey(reader).0, ss, ls, |ls|))
    ensures Indistinct(ReaderVisibilityKey(reader).0, exact, ss[|ls|], ss'[|ss'| - 1])
    ensures var full := Offered(ss[|ls|].state.store, query, VisibleKeys(reader));
      var kept := Offered(ss'[|ss'| - 1].state.store, query, VisibleKeys(reader));
      && Unflagged(full) == Unflagged(kept) && (exact ==> full == kept)
      && forall es, fs :: multiset(es) == Bag(full) && multiset(fs) == Bag(kept)
           ==> multiset(Contents(es)) == multiset(Contents(fs))
  {
    var own := ReaderVisibilityKey(reader).0;
    assert Over(Started(ls), ls);
    ss' := KeptRun(env, own, exact, Started(ls), ss, ls, |ls|);
    SameEntriesOffered(own, exact, ss[|ls|], ss'[|ss'| - 1], query);
    assert VisibleKeys(reader) == [own, SHARED_KEY];
    var full := Offered(ss[|ls|].state.store, query, VisibleKeys(reader));
    var kept := Offered(ss'[|ss'| - 1].state.store, query, VisibleKeys(reader));
    forall es, fs | multiset(es) == Bag(full) && multiset(fs) == Bag(kept)
      ensures multiset(Contents(es)) == multiset(Contents(fs))
    {
      SameContents(full, kept, es, fs);
    }
  }
}
