/** The guard: write, read, review and delete over the default store. */
module Guard {
  import opened Text
  import opened Entries
  import opened Stores
  import opened Principals
  import opened KeyPolicy
  import N = Normalize
  import RS = ResidueScan

  const INJECTION_FLAG := "injection_suspected"
  const BORDERLINE_FLAG := "borderline_suspected"

  /** What an inspector sees of a write. */
  datatype Seen = Seen(text: string, hint: string, now: int)

  /** An inspector answers from the key's earlier accepted writes and this one. */
  type Inspector = (seq<Seen>, Seen) -> seq<string>

  /** The detectors, the policy, the hash and the inspectors behind their seams. `merge` makes one list of what the
      inspectors answered: the ordered union when they are combined, their flags as they come when there is one. */
  datatype Env = Env(injection: string -> seq<string>, borderline: string -> seq<string>,
                     redact: string -> (string, seq<string>), glob: Glob, policy: Policy, hash: string -> string,
                     inspectors: seq<Inspector>, merge: seq<string> -> seq<string>, fx: N.FloatExpand)

  /** A write request; an empty key is no key. */
  datatype Request = Request(text: string, identity: Identity, key: string, now: int)

  /** What each inspector, by its place, was shown under each key. */
  type Log = map<(nat, string), seq<Seen>>

  // ---------------------------------------------------------------- what a write computes on its own

  /** A request once detected, redacted and decoded: all of it before any shared state is touched. */
  datatype Write = Write(flags: seq<string>, content: string, contentHash: string, key: string, attested: bool,
                         boundKey: string, sourceClass: string, seen: Seen)

  function Writer(req: Request): Option<Principal> {
    Some(PrincipalFromMap(req.identity))
  }

  function BaselineHash(env: Env, content: string): string {
    env.hash("immutable\0" + content)
  }

  function DeletionHash(env: Env, id: string, content: string): string {
    env.hash("delete\0" + id + "\0" + content)
  }

  /** Injection, then PII, then borderline flags. */
  function Prepared(env: Env, req: Request): Write {
    var (content, pii) := env.redact(req.text);
    Write(env.injection(req.text) + pii + env.borderline(req.text), content, BaselineHash(env, content), req.key,
          PrincipalFromMap(req.identity).Attested(), BoundKeyFor(Writer(req)), SourceClassFromMap(req.identity),
          Seen(req.text, WriteProvenanceHint(req.identity), req.now))
  }

  predicate Injected(w: Write) {
    INJECTION_FLAG in w.flags
  }

  // ---------------------------------------------------------------- what it does to shared state

  function KeyOutcome(env: Env, w: Write, b: Baselines): Outcome {
    if w.key == "" then Outcome([], false, b)
    else Evaluate(env.glob, env.policy, b, w.key, w.contentHash, w.attested)
  }

  function LogOf(log: Log, i: nat, key: string): seq<Seen> {
    if (i, key) in log then log[(i, key)] else []
  }

  function Answer(env: Env, w: Write, log: Log, i: nat): seq<string>
    requires i < |env.inspectors|
  {
    env.inspectors[i](LogOf(log, i, w.boundKey), w.seen)
  }

  function Recorded(w: Write, log: Log, i: nat): Log {
    log[(i, w.boundKey) := LogOf(log, i, w.boundKey) + [w.seen]]
  }

  /** What the first `n` inspectors answer. */
  function Answers(env: Env, w: Write, log: Log, n: nat): seq<string>
    requires n <= |env.inspectors|
  {
    if n == 0 then [] else Answers(env, w, log, n - 1) + Answer(env, w, log, n - 1)
  }

  /** The log once the first `n` inspectors have seen the write. */
  function Asked(w: Write, log: Log, n: nat): Log {
    if n == 0 then log else Recorded(w, Asked(w, log, n - 1), n - 1)
  }

  /** Each of the `n` inspectors has seen the write exactly once, under its writer's key alone. */
  lemma {:induction false} AskedOnce(w: Write, log: Log, n: nat, i: nat, key: string)
    ensures LogOf(Asked(w, log, n), i, key)
         == if i < n && key == w.boundKey then LogOf(log, i, key) + [w.seen] else LogOf(log, i, key)
  {
    if n > 0 { AskedOnce(w, log, n - 1, i, key); }
  }

  function Merged(env: Env, answers: seq<string>): seq<string> {
    if env.inspectors == [] then [] else env.merge(answers)
  }

  function InspectorFlags(env: Env, w: Write, log: Log): seq<string> {
    Merged(env, Answers(env, w, log, |env.inspectors|))
  }

  function LogAfter(env: Env, w: Write, log: Log): Log {
    Asked(w, log, |env.inspectors|)
  }

  function EntryFor(w: Write, flags: seq<string>): Entry {
    Entry(w.content, w.boundKey, w.sourceClass, flags, BORDERLINE_FLAG in flags)
  }

  datatype Verdict = Allow | Quarantine | Block

  datatype WriteResult = WriteResult(allow: bool, id: Option<string>, state: Verdict, flags: seq<string>)

  function Stored(id: string, flags: seq<string>): WriteResult {
    WriteResult(true, Some(id), if BORDERLINE_FLAG in flags then Quarantine else Allow, flags)
  }

  function Blocked(flags: seq<string>): WriteResult {
    WriteResult(false, None, Block, flags)
  }

  // ---------------------------------------------------------------- a write as one call

  datatype State = State(store: Table, baselines: Baselines, log: Log)

  predicate IsBlocked(env: Env, s: State, w: Write) {
    Injected(w) || KeyOutcome(env, w, s.baselines).reject
  }

  function WriteFlags(env: Env, s: State, w: Write): seq<string> {
    if Injected(w) then w.flags
    else
      var o := KeyOutcome(env, w, s.baselines);
      w.flags + o.flags + (if o.reject then [] else InspectorFlags(env, w, s.log))
  }

  function AfterWrite(env: Env, s: State, w: Write, id: string): State {
    if IsBlocked(env, s, w) then s
    else State(s.store[id := EntryFor(w, WriteFlags(env, s, w))],
               KeyOutcome(env, w, s.baselines).baselines, LogAfter(env, w, s.log))
  }

  function ResultOf(env: Env, s: State, w: Write, id: string): WriteResult {
    if IsBlocked(env, s, w) then Blocked(WriteFlags(env, s, w)) else Stored(id, WriteFlags(env, s, w))
  }

  function AfterDelete(s: State, id: string): State {
    s.(store := s.store - {id})
  }

  // ---------------------------------------------------------------- a write, spelled out from its request

  /** What the detectors say of the text: injection, then PII, then borderline flags. */
  function OwnFlags(env: Env, req: Request): seq<string> {
    env.injection(req.text) + env.redact(req.text).1 + env.borderline(req.text)
  }

  /** The hash that stands for the request among the baselines: of its redacted text. */
  function RequestHash(env: Env, req: Request): string {
    env.hash("immutable\0" + env.redact(req.text).0)
  }

  /** The key policy on a request; a request without a key is none of its business. */
  ghost predicate PolicySays(env: Env, b: Baselines, req: Request, flags: seq<string>, reject: bool) {
    if req.key == "" then flags == [] && !reject
    else IsPolicyAnswer(env.glob, env.policy, b, req.key, RequestHash(env, req),
                        Given(req.identity, "trust_tier") == "attested", flags, reject)
  }

  /** What inspectors are shown of a request: the raw text, its writer's own word for its source, the time. */
  function Shown(req: Request): Seen {
    Seen(req.text, Given(req.identity, "source_class"), req.now)
  }

  /** Each inspector in its turn answers the request from what it was shown under the same writer before. */
  ghost predicate AnswersOf(env: Env, log: Log, req: Request, boundKey: string, answers: seq<seq<string>>) {
    && |answers| == |env.inspectors|
    && forall i :: 0 <= i < |answers| ==>
         answers[i] == env.inspectors[i](if (i, boundKey) in log then log[(i, boundKey)] else [], Shown(req))
  }

  ghost predicate InspectorsSay(env: Env, log: Log, req: Request, boundKey: string, flags: seq<string>) {
    exists answers ::
      AnswersOf(env, log, req, boundKey, answers)
      && flags == if |answers| == 0 then [] else env.merge(Flatten(answers))
  }

  /** Every inspector has been shown the request, under its writer's key alone. */
  ghost predicate IsShown(env: Env, log: Log, req: Request, boundKey: string, log': Log) {
    forall i: nat, key :: LogOf(log', i, key)
      == LogOf(log, i, key) + if i < |env.inspectors| && key == boundKey then [Shown(req)] else []
  }

  /** Whether a request is stored, and with which flags: its own, the policy's, the inspectors', as far as it got. */
  ghost predicate IsDecided(env: Env, s: State, req: Request, allow: bool, flags: seq<string>) {
    var own := OwnFlags(env, req);
    if "injection_suspected" in own then !allow && flags == own
    else exists policy ::
      && PolicySays(env, s.baselines, req, policy, !allow)
      && if !allow then flags == own + policy
         else exists key, said ::
           BoundTo(req.identity, key) && InspectorsSay(env, s.log, req, key, said) && flags == own + policy + said
  }

  /** What a stored request is kept as: redacted, bound to its writer, quarantined iff borderline. */
  ghost predicate IsKept(env: Env, req: Request, e: Entry) {
    && e.content == env.redact(req.text).0
    && BoundTo(req.identity, e.boundIdentity) && ClassedAs(req.identity, e.sourceClass)
    && OwnFlags(env, req) <= e.flags
    && (e.quarantined <==> "borderline_suspected" in e.flags)
  }

  /** A stored request under a key leaves its hash behind if the policy asks for it and none is there. */
  ghost predicate IsPinned(env: Env, b: Baselines, req: Request, b': Baselines) {
    if req.key == "" then b' == b
    else IsPolicyEffect(env.glob, env.policy, b, req.key, RequestHash(env, req), false, b')
  }

  /** What a request does to the guard: nothing if it is blocked, else one entry, at most one baseline, and one more
      record with every inspector. */
  ghost predicate IsEffect(env: Env, s: State, req: Request, id: string, r: WriteResult, s': State) {
    && IsDecided(env, s, req, r.allow, r.flags)
    && (!r.allow ==> s' == s && r.state == Block && r.id == None)
    && (r.allow ==>
          && id in s'.store && IsKept(env, req, s'.store[id]) && s'.store[id].flags == r.flags
          && s'.store == s.store[id := s'.store[id]]
          && r.state == (if s'.store[id].quarantined then Quarantine else Allow) && r.id == Some(id)
          && IsPinned(env, s.baselines, req, s'.baselines)
          && IsShown(env, s.log, req, s'.store[id].boundIdentity, s'.log))
  }

  lemma {:induction false} AnswersFlatten(env: Env, w: Write, log: Log, n: nat) returns (answers: seq<seq<string>>)
    requires n <= |env.inspectors|
    ensures |answers| == n && forall i :: 0 <= i < n ==> answers[i] == Answer(env, w, log, i)
    ensures Answers(env, w, log, n) == Flatten(answers)
  {
    answers := [];
    if n > 0 {
      answers := AnswersFlatten(env, w, log, n - 1);
      FlattenSnoc(answers, Answer(env, w, log, n - 1));
      answers := answers + [Answer(env, w, log, n - 1)];
    }
  }

  lemma InspectedAsSaid(env: Env, log: Log, req: Request)
    ensures var w := Prepared(env, req);
      InspectorsSay(env, log, req, w.boundKey, InspectorFlags(env, w, log))
  {
    var w := Prepared(env, req);
    ClassIsRead(req.identity);
    var answers := AnswersFlatten(env, w, log, |env.inspectors|);
    assert AnswersOf(env, log, req, w.boundKey, answers);
  }

  lemma PolicyAsSaid(env: Env, b: Baselines, req: Request)
    ensures var o := KeyOutcome(env, Prepared(env, req), b);
      PolicySays(env, b, req, o.flags, o.reject)
  {
    var w := Prepared(env, req);
    if req.key != "" { EvaluateAnswers(env.glob, env.policy, b, w.key, w.contentHash, w.attested); }
  }

  lemma DecidedAsSaid(env: Env, s: State, req: Request)
    ensures var w := Prepared(env, req);
      IsDecided(env, s, req, !IsBlocked(env, s, w), WriteFlags(env, s, w))
  {
    var w := Prepared(env, req);
    var o := KeyOutcome(env, w, s.baselines);
    if !Injected(w) {
      PolicyAsSaid(env, s.baselines, req);
      if o.reject {
        NothingAfter(w.flags + o.flags, []);
      } else {
        BoundByItsKeys(req.identity);
        InspectedAsSaid(env, s.log, req);
      }
    }
  }

  /** A request does exactly what its own fields, the detectors, the policy and the inspectors say. */
  lemma WriteAsSaid(env: Env, s: State, req: Request, id: string)
    ensures var w := Prepared(env, req);
      IsEffect(env, s, req, id, ResultOf(env, s, w, id), AfterWrite(env, s, w, id))
  {
    var w := Prepared(env, req);
    DecidedAsSaid(env, s, req);
    if !IsBlocked(env, s, w) {
      KeptAsSaid(env, s, req);
      if req.key != "" { EvaluateSets(env.glob, env.policy, s.baselines, w.key, w.contentHash, w.attested); }
      LoggedAsSaid(env, s.log, req);
    }
  }

  lemma KeptAsSaid(env: Env, s: State, req: Request)
    requires !IsBlocked(env, s, Prepared(env, req))
    ensures var w := Prepared(env, req);
      IsKept(env, req, EntryFor(w, WriteFlags(env, s, w)))
  {
    BoundByItsKeys(req.identity);
    ClassIsRead(req.identity);
  }

  lemma LoggedAsSaid(env: Env, log: Log, req: Request)
    ensures var w := Prepared(env, req);
      IsShown(env, log, req, w.boundKey, LogAfter(env, w, log))
  {
    var w := Prepared(env, req);
    ClassIsRead(req.identity);
    forall i: nat, key ensures LogOf(LogAfter(env, w, log), i, key)
      == LogOf(log, i, key) + if i < |env.inspectors| && key == w.boundKey then [Shown(req)] else []
    {
      AskedOnce(w, log, |env.inspectors|, i, key);
    }
  }

  // ---------------------------------------------------------------- reading

  /** The entries a read hands to the redactor: scoped, and not quarantined. */
  function Offered(store: Table, query: string, keys: seq<string>): Table {
    map id | id in store && Selects(store[id], query, Some(keys)) && !store[id].quarantined :: store[id]
  }

  datatype Review = Review(found: bool, content: string, flags: seq<string>)

  /** Unknown ids and ids of ordinary entries answer alike. */
  function ReviewOf(env: Env, store: Table, id: string): Review {
    if id !in store || !store[id].quarantined then Review(false, "", [])
    else Review(true, env.redact(store[id].content).0, store[id].flags)
  }

  function Contents(es: seq<Entry>): (cs: seq<string>)
    ensures |cs| == |es| && forall i :: 0 <= i < |es| ==> cs[i] == es[i].content
  {
    seq(|es|, i requires 0 <= i < |es| => es[i].content)
  }

  /** Whether a read by this identity shows the entry: to all if shared, to its own attested writer, or, unbound, to
      readers that are not attested or have no id. */
  predicate IsShownTo(identity: Identity, query: string, e: Entry) {
    && !e.quarantined && Contains(e.content, query)
    && (e.boundIdentity == "shared://"
        || e.boundIdentity == if Given(identity, "trust_tier") == "attested" then Given(identity, "spiffe_id") else "")
  }

  /** The text is the contents of exactly the entries a read shows, each once, in some order, one to a line. */
  ghost predicate IsReading(store: Table, query: string, identity: Identity, text: string) {
    exists ids, es :: Distinct(ids) && AreUnder(store, ids, es) && IsLines(text, Contents(es))
      && forall id :: id in store ==> (id in ids <==> IsShownTo(identity, query, store[id]))
  }

  lemma OfferedIsShown(store: Table, query: string, identity: Identity, es: seq<Entry>)
    requires multiset(es) == Bag(Offered(store, query, VisibleKeys(Some(PrincipalFromMap(identity)))))
    ensures IsReading(store, query, identity, JoinLines(Contents(es)))
  {
    var offered := Offered(store, query, VisibleKeys(Some(PrincipalFromMap(identity))));
    var ids := BagIsListing(es, offered);
    assert AreUnder(store, ids, es);
    JoinLinesIsLines(Contents(es));
    forall id | id in store ensures id in ids <==> IsShownTo(identity, query, store[id]) {
      VisibleIff(identity, store[id].boundIdentity);
      assert id in ids <==> id in offered;
    }
  }

  // ---------------------------------------------------------------- the quarantine filter

  function Ordinary(t: Table): Table {
    map id | id in t && !t[id].quarantined :: t[id]
  }

  function Readable(es: seq<Entry>): seq<Entry> {
    if es == [] then []
    else Readable(es[..|es| - 1]) + (if es[|es| - 1].quarantined then [] else [es[|es| - 1]])
  }

  lemma LastCounts(es: seq<Entry>, e: Entry)
    requires es != []
    ensures multiset(es)[e] == multiset(es[..|es| - 1])[e] + (if es[|es| - 1] == e then 1 else 0)
  {
    assert es == es[..|es| - 1] + [es[|es| - 1]];
  }

  lemma {:induction false} ReadableCounts(es: seq<Entry>, e: Entry)
    ensures multiset(Readable(es))[e] == if e.quarantined then 0 else multiset(es)[e]
    decreases |es|
  {
    if es != [] {
      var init := es[..|es| - 1];
      ReadableCounts(init, e);
      LastCounts(es, e);
    }
  }

  lemma OrdinaryTake(t: Table, id: string)
    requires id in t
    ensures Bag(Ordinary(t)) == Bag(Ordinary(t - {id})) + (if t[id].quarantined then multiset{} else multiset{t[id]})
  {
    if t[id].quarantined {
      assert Ordinary(t) == Ordinary(t - {id});
    } else {
      assert Ordinary(t) - {id} == Ordinary(t - {id});
      BagTake(Ordinary(t), id);
    }
  }

  lemma {:induction false} OrdinaryCounts(t: Table, e: Entry)
    ensures Bag(Ordinary(t))[e] == if e.quarantined then 0 else Bag(t)[e]
    decreases |t|
  {
    if t != map[] {
      var id := BagFirst(t);
      RemoveOne(t, id);
      OrdinaryCounts(t - {id}, e);
      OrdinaryTake(t, id);
    }
  }

  /** Filtering what a scan returned is scanning what is not quarantined. */
  lemma ReadableIsOrdinary(es: seq<Entry>, t: Table)
    requires multiset(es) == Bag(t)
    ensures multiset(Readable(es)) == Bag(Ordinary(t))
  {
    forall e ensures multiset(Readable(es))[e] == Bag(Ordinary(t))[e] {
      ReadableCounts(es, e);
      OrdinaryCounts(t, e);
    }
  }

  // ---------------------------------------------------------------- what is left of a deleted entry

  /** Residue is reported exactly if some entry that is left matches the deleted content by one of the tiers, and then
      it is the first such entry by content. */
  ghost predicate FindsResidue(env: Env, left: Table, deleted: string, residue: Option<RS.Summary>) {
    var d := TrimSpace(deleted);
    && (residue.Some? <==> d != "" && exists id :: id in left && RS.IsResidue(d, left[id].content, env.fx))
    && (residue.Some? ==>
          var survivor := residue.value.survivor;
          && residue.value.index == "primary" && (exists id :: id in left && left[id].content == survivor)
          && RS.IsMatchOf(d, survivor, env.fx, residue.value.found)
          && forall id :: id in left && RS.IsResidue(d, left[id].content, env.fx) ==>
               IsBefore(survivor, left[id].content))
  }

  lemma ScanFindsResidue(env: Env, left: Table, deleted: string, indexes: RS.Indexes, residue: Option<RS.Summary>)
    requires IsSingle(indexes, left) && RS.IsAnswer(deleted, env.fx, indexes, residue)
    ensures FindsResidue(env, left, deleted, residue)
  {
    var d := TrimSpace(deleted);
    forall id | id in left ensures RS.Holds(indexes, PRIMARY, left[id].content) {
      SingleHolds(indexes, left, PRIMARY, left[id].content);
    }
    if residue.Some? {
      SingleHolds(indexes, left, residue.value.index, residue.value.survivor);
      RS.MatchIsResidue(d, residue.value.survivor, env.fx, residue.value.found);
    }
  }

  // ---------------------------------------------------------------- the guard object

  class MemoryGuard {
    const env: Env
    const store: InMemoryStore
    var baselines: Baselines
    var log: Log
    /** Every id ever given out. */
    ghost var minted: set<string>

    constructor (env: Env)
      ensures this.env == env && fresh(store)
      ensures Current() == State(map[], map[], map[]) && minted == {}
    {
      this.env := env;
      store := new InMemoryStore();
      baselines, log, minted := map[], map[], {};
    }

    ghost function Current(): State
      reads this, store
    {
      State(store.entries, baselines, log)
    }

    /** One write. `id` is what the random source would give; it is used only if the write is stored. */
    method ValidateWrite(req: Request, id: string) returns (r: WriteResult)
      requires id !in minted
      modifies this, store
      ensures Current() == AfterWrite(env, old(Current()), Prepared(env, req), id)
      ensures r == ResultOf(env, old(Current()), Prepared(env, req), id)
      ensures minted == old(minted) + (if r.allow then {id} else {})
      ensures IsEffect(env, old(Current()), req, id, r, Current())
      ensures r.allow ==>
        && id in store.entries && store.entries[id].content == env.redact(req.text).0
        && BoundTo(req.identity, store.entries[id].boundIdentity)
        && (store.entries[id].quarantined <==> BORDERLINE_FLAG in store.entries[id].flags)
    {
      WriteAsSaid(env, Current(), req, id);
      var flags := env.injection(req.text);
      var borderline := env.borderline(req.text);
      var (redacted, pii) := env.redact(req.text);
      flags := flags + pii;
      flags := flags + borderline;
      var p := PrincipalFromMap(req.identity);
      var w := Write(flags, redacted, BaselineHash(env, redacted), req.key, p.Attested(), BoundKeyFor(Some(p)),
                     SourceClassFromMap(req.identity), Seen(req.text, WriteProvenanceHint(req.identity), req.now));
      r := StoreWrite(w, id);
    }

    /** The write from the injection gate on. */
    method StoreWrite(w: Write, id: string) returns (r: WriteResult)
      requires id !in minted
      modifies this, store
      ensures Current() == AfterWrite(env, old(Current()), w, id)
      ensures r == ResultOf(env, old(Current()), w, id)
      ensures minted == old(minted) + (if r.allow then {id} else {})
    {
      var flags := w.flags;
      if INJECTION_FLAG in flags { return Blocked(flags); }
      if w.key != "" {
        var policyFlags, reject := EvaluateKeyPolicy(w.key, w.contentHash, w.attested);
        flags := flags + policyFlags;
        if reject {
          assert flags + [] == flags;
          return Blocked(flags);
        }
      } else {
        assert flags + [] == flags;
      }
      var answers := Inspect(w);
      flags := flags + answers;
      var quarantined := BORDERLINE_FLAG in flags;
      store.Put(id, Entry(w.content, w.boundKey, w.sourceClass, flags, quarantined));
      minted := minted + {id};
      return WriteResult(true, Some(id), if quarantined then Quarantine else Allow, flags);
    }

    /** Every inspector in turn. */
    method Inspect(w: Write) returns (flags: seq<string>)
      modifies this`log
      ensures flags == InspectorFlags(env, w, old(log)) && log == LogAfter(env, w, old(log))
    {
      var answers: seq<string> := [];
      for i := 0 to |env.inspectors|
        invariant answers == Answers(env, w, old(log), i) && log == Asked(w, old(log), i)
      {
        AskedOnce(w, old(log), i, i, w.boundKey);
        var earlier := LogOf(log, i, w.boundKey);
        answers := answers + env.inspectors[i](earlier, w.seen);
        log := log[(i, w.boundKey) := earlier + [w.seen]];
      }
      flags := if env.inspectors == [] then [] else env.merge(answers);
    }

    method EvaluateKeyPolicy(key: string, h: string, attested: bool) returns (flags: seq<string>, reject: bool)
      modifies this`baselines
      ensures Outcome(flags, reject, baselines)
           == Evaluate(env.glob, env.policy, old(baselines), key, h, attested)
    {
      flags := [];
      var reserved := IsReserved(key);
      var protectedMatch, immutableMatch := reserved, reserved;
      if !reserved {
        protectedMatch := MatchesAnyPattern(env.glob, env.policy.protected, key);
        immutableMatch := MatchesAnyPattern(env.glob, env.policy.immutable, key);
      }
      if protectedMatch && !attested {
        if reserved { return [PROTECTED_FLAG], true; }
        flags := flags + [PROTECTED_FLAG];
      }
      if immutableMatch {
        if key !in baselines {
          baselines := baselines[key := h];
        } else if h != baselines[key] {
          if reserved { return [MISMATCH_FLAG], true; }
          flags := flags + [MISMATCH_FLAG];
        }
      }
      return flags, false;
    }

    /** What reaches the redactor is exactly the offered entries' contents, in some order, one to a line. */
    method ValidateRead(query: string, identity: Identity) returns (content: string, flags: seq<string>)
      ensures exists text :: IsReading(store.entries, query, identity, text) && (content, flags) == env.redact(text)
      ensures exists shown ::
        && multiset(shown) == Bag(Offered(store.entries, query, VisibleKeys(Some(PrincipalFromMap(identity)))))
        && exists text :: IsLines(text, Contents(shown)) && (content, flags) == env.redact(text)
    {
      var hits := Hits(query, VisibleKeys(Some(PrincipalFromMap(identity))));
      ghost var shown :| hits == Contents(shown)
        && multiset(shown) == Bag(Offered(store.entries, query, VisibleKeys(Some(PrincipalFromMap(identity)))));
      OfferedIsShown(store.entries, query, identity, shown);
      JoinLinesIsLines(hits);
      var redacted := env.redact(JoinLines(hits));
      content, flags := redacted.0, redacted.1;
    }

    method Hits(query: string, keys: seq<string>) returns (hits: seq<string>)
      ensures exists shown :: multiset(shown) == Bag(Offered(store.entries, query, keys)) && hits == Contents(shown)
    {
      var scoped := store.ScanScoped(query, keys);
      hits := Unquarantined(scoped);
      ReadableIsOrdinary(scoped, Selected(store.entries, query, Some(keys)));
      assert Ordinary(Selected(store.entries, query, Some(keys))) == Offered(store.entries, query, keys);
      ghost var shown := Readable(scoped);
      assert multiset(shown) == Bag(Offered(store.entries, query, keys)) && hits == Contents(shown);
    }

    /** The loop over what the store returned. */
    method Unquarantined(scoped: seq<Entry>) returns (hits: seq<string>)
      ensures hits == Contents(Readable(scoped))
    {
      hits := [];
      for i := 0 to |scoped|
        invariant hits == Contents(Readable(scoped[..i]))
      {
        assert scoped[..i + 1][..i] == scoped[..i];
        if !scoped[i].quarantined { hits := hits + [scoped[i].content]; }
      }
      assert scoped[..|scoped|] == scoped;
    }

    method ReviewQuarantine(id: string) returns (r: Review)
      ensures r == ReviewOf(env, store.entries, id)
      ensures if id in store.entries && store.entries[id].quarantined
        then r == Review(true, env.redact(store.entries[id].content).0, store.entries[id].flags)
        else r == Review(false, "", [])
    {
      var e := store.Get(id);
      if e.None? || !e.value.quarantined { return Review(false, "", []); }
      var (content, pii) := env.redact(e.value.content);
      return Review(true, content, e.value.flags);
    }

    /** Delete, prove absence with a fresh read, and scan what is left for residue. */
    method VerifyDelete(id: string) returns (confirmed: bool, residue: Option<RS.Summary>, hash: string,
                                             ghost indexes: RS.Indexes)
      modifies store
      ensures Current() == AfterDelete(old(Current()), id) && minted == old(minted)
      ensures store.entries.Keys == old(store.entries).Keys - {id}
      ensures forall k :: k in store.entries ==> store.entries[k] == old(store.entries)[k]
      ensures baselines == old(baselines) && log == old(log) && confirmed
      ensures var content := if id in old(store.entries) then old(store.entries)[id].content else "";
        hash == env.hash("delete\0" + id + "\0" + content)
      ensures IsSingle(indexes, store.entries)
      ensures id !in old(store.entries) ==> residue == None
      ensures id in old(store.entries) ==> RS.IsScan(old(store.entries)[id].content, env.fx, indexes, residue)
      ensures id in old(store.entries) ==> FindsResidue(env, store.entries, old(store.entries)[id].content, residue)
    {
      var deleted := store.Get(id);
      store.Delete(id);
      var still := store.Get(id);
      confirmed := still.None?;
      hash := DeletionHash(env, id, if deleted.Some? then deleted.value.content else "");
      var byIndex := store.AllByIndex();
      indexes := byIndex;
      residue := None;
      if deleted.Some? {
        residue := RS.ResidueScanIndexes(deleted.value.content, byIndex, env.fx);
        ScanFindsResidue(env, store.entries, deleted.value.content, byIndex, residue);
      }
    }
  }

  // ---------------------------------------------------------------- the two kinds of digest

  ghost predicate Injective(hash: string -> string) {
    forall a, b :: hash(a) == hash(b) ==> a == b
  }

  lemma BaselineHashInjective(env: Env, a: string, b: string)
    requires Injective(env.hash) && BaselineHash(env, a) == BaselineHash(env, b)
    ensures a == b
  {
    var tag := "immutable\0";
    assert (tag + a)[|tag|..] == a && (tag + b)[|tag|..] == b;
  }

  /** What is hashed of a deletion, after its tag. */
  function Deleted(id: string, content: string): string {
    id + "\0" + content
  }

  lemma DeletedInjective(id: string, content: string, id': string, content': string)
    requires '\0' !in id && '\0' !in id' && Deleted(id, content) == Deleted(id', content')
    ensures id == id' && content == content'
  {
    var s, s' := Deleted(id, content), Deleted(id', content');
    assert s[|id|] == '\0' && s'[|id'|] == '\0';
    assert forall i :: 0 <= i < |id| ==> s[i] == id[i] && s[i] != '\0';
    assert forall i :: 0 <= i < |id'| ==> s'[i] == id'[i] && s'[i] != '\0';
    assert id == s[..|id|] && id' == s'[..|id'|];
    assert content == s[|id| + 1..] && content' == s'[|id'| + 1..];
  }

  /** With an injective hash different deletions have different digests, as long as no id holds a NUL. */
  lemma DeletionHashInjective(env: Env, id: string, content: string, id': string, content': string)
    requires Injective(env.hash) && '\0' !in id && '\0' !in id'
    ensures DeletionHash(env, id, content) == DeletionHash(env, id', content') <==> id == id' && content == content'
  {
    if DeletionHash(env, id, content) == DeletionHash(env, id', content') {
      DeletionTagged(id, content);
      DeletionTagged(id', content');
      DeletedInjective(id, content, id', content');
    }
  }

  lemma DeletionTagged(id: string, content: string)
    ensures ("delete\0" + id + "\0" + content)[|"delete\0"|..] == Deleted(id, content)
  {
    assert "delete\0" + id + "\0" + content == "delete\0" + Deleted(id, content);
  }

  /** Whatever the ids, different contents deleted under one id have different digests. */
  lemma DeletionHashTellsContents(env: Env, id: string, content: string, content': string)
    requires Injective(env.hash)
    ensures DeletionHash(env, id, content) == DeletionHash(env, id, content') <==> content == content'
  {
    var head := "delete\0" + id + "\0";
    assert (head + content)[|head|..] == content && (head + content')[|head|..] == content';
  }

  /** With a NUL in an id two different deletions share a digest, whatever the hash. */
  lemma DeletionHashCollides(env: Env)
    ensures DeletionHash(env, "a\0b", "c") == DeletionHash(env, "a", "b\0c")
  {
    assert "delete\0" + "a\0b" + "\0" + "c" == "delete\0" + "a" + "\0" + "b\0c";
  }

  /** A deletion's digest is never a baseline's. */
  lemma DigestsAreDisjoint(env: Env, id: string, content: string, content': string)
    requires Injective(env.hash)
    ensures DeletionHash(env, id, content) != BaselineHash(env, content')
  {
    assert ("delete\0" + id + "\0" + content)[0] != ("immutable\0" + content')[0];
  }

  // ---------------------------------------------------------------- what a write does, and does not

  /** allow, a minted id, one new entry and a state other than block go together; a blocked write changes nothing. */
  lemma WriteOutcome(env: Env, s: State, w: Write, id: string)
    requires id !in s.store
    ensures var s', r := AfterWrite(env, s, w, id), ResultOf(env, s, w, id);
      && (r.allow <==> r.state != Block)
      && (r.allow <==> r.id.Some?)
      && (r.allow <==> s'.store.Keys == s.store.Keys + {id})
      && (!r.allow ==> s' == s)
      && (forall k :: k in s.store ==> k in s'.store && s'.store[k] == s.store[k])
  {
    assert id !in s.store.Keys && id in s.store.Keys + {id};
  }

  /** A write is blocked exactly for a suspected injection, an unattested writer of a reserved key, or content that
      differs from a reserved key's baseline. */
  lemma BlockedIff(env: Env, s: State, w: Write)
    ensures IsBlocked(env, s, w) <==>
      || Injected(w)
      || (IsReserved(w.key) && (!w.attested || (w.key in s.baselines && s.baselines[w.key] != w.contentHash)))
  {
    if IsReserved(w.key) {
      ReservedPassesIff(env.glob, env.policy, s.baselines, w.key, w.contentHash, w.attested);
    } else if w.key != "" {
      ConfiguredNeverRejects(env.glob, env.policy, s.baselines, w.key, w.contentHash, w.attested);
    }
  }
}
