/** The behavioural inspectors combined behind one seam. */
module Inspectors {
  import Rep = SelfReinforcement
  import Size = SizeAnomaly
  import G = Guard
  import opened Text

  /** The first place of `f` in `all`. */
  function FirstAt(all: seq<string>, f: string): (i: nat)
    requires f in all
    ensures i < |all| && all[i] == f && f !in all[..i]
  {
    if all[0] == f then 0
    else
      var i := 1 + FirstAt(all[1..], f);
      assert all[..i] == [all[0]] + all[1..][..i - 1];
      i
  }

  /** Every flag once, in the order of first appearance. */
  ghost predicate IsUnion(u: seq<string>, all: seq<string>) {
    && (forall f :: f in u <==> f in all)
    && (forall i, j :: 0 <= i < j < |u| ==> FirstAt(all, u[i]) < FirstAt(all, u[j]))
  }

  lemma FirstAtPrefix(a: seq<string>, b: seq<string>, f: string)
    requires f in a
    ensures FirstAt(a + b, f) == FirstAt(a, f)
  {
    var i := FirstAt(a, f);
    assert (a + b)[..i] == a[..i] && (a + b)[i] == f;
    FirstAtUnique(a + b, f, i);
  }

  lemma FirstAtUnique(all: seq<string>, f: string, i: nat)
    requires i < |all| && all[i] == f && f !in all[..i]
    ensures FirstAt(all, f) == i
  {
    var j := FirstAt(all, f);
    assert forall k :: 0 <= k < i ==> all[k] in all[..i];
    assert forall k :: 0 <= k < j ==> all[k] in all[..j];
  }

  function WithFlag(u: seq<string>, f: string): seq<string> {
    if f in u then u else u + [f]
  }

  lemma UnionGrows(u: seq<string>, all: seq<string>, f: string)
    requires IsUnion(u, all)
    ensures IsUnion(WithFlag(u, f), all + [f])
  {
    var u' := WithFlag(u, f);
    forall g ensures g in u' <==> g in all + [f] {
      assert g in u <==> g in all;
    }
    forall i, j | 0 <= i < j < |u'| ensures FirstAt(all + [f], u'[i]) < FirstAt(all + [f], u'[j]) {
      assert u'[i] == u[i] && u[i] in u;
      FirstAtPrefix(all, [f], u[i]);
      if j < |u| {
        assert u[j] in u;
        FirstAtPrefix(all, [f], u[j]);
      } else {
        assert (all + [f])[..|all|] == all;
        FirstAtUnique(all + [f], f, |all|);
      }
    }
  }

  function Union(all: seq<string>): seq<string> {
    if all == [] then [] else WithFlag(Union(all[..|all| - 1]), all[|all| - 1])
  }

  /** The union holds each flag once, in the order of first appearance. */
  lemma {:induction false} UnionIsUnion(all: seq<string>)
    ensures IsUnion(Union(all), all)
    decreases |all|
  {
    if all != [] {
      var init := all[..|all| - 1];
      UnionIsUnion(init);
      UnionGrows(Union(init), init, all[|all| - 1]);
      assert all == init + [all[|all| - 1]];
    }
  }

  /** The union loop over what the inspectors answered. */
  method UnionFlags(answers: seq<string>) returns (union: seq<string>)
    ensures union == Union(answers) && IsUnion(union, answers)
  {
    union := [];
    var seen: set<string> := {};
    for i := 0 to |answers|
      invariant union == Union(answers[..i])
      invariant seen == set f | f in union
    {
      assert answers[..i + 1][..i] == answers[..i];
      if answers[i] !in seen {
        seen := seen + {answers[i]};
        union := union + [answers[i]];
      }
    }
    assert answers[..|answers|] == answers;
    UnionIsUnion(answers);
  }

  // ---------------------------------------------------------------- the detectors as the guard sees them

  /** What the repetition detector looks at among the writes it was shown. */
  function Scrutinized(shown: seq<G.Seen>): seq<Rep.Write> {
    if shown == [] then []
    else
      var last := shown[|shown| - 1];
      Scrutinized(shown[..|shown| - 1])
      + (if TrimSpace(last.hint) == Rep.HUMAN_AUTHORED then [] else [Rep.Write(Rep.TokenSet(last.text), last.now)])
  }

  function Sizes(shown: seq<G.Seen>): seq<int> {
    if shown == [] then [] else Sizes(shown[..|shown| - 1]) + [|shown[|shown| - 1].text|]
  }

  lemma ShownSnoc(shown: seq<G.Seen>, s: G.Seen)
    ensures Scrutinized(shown + [s]) == Scrutinized(shown)
      + (if TrimSpace(s.hint) == Rep.HUMAN_AUTHORED then [] else [Rep.Write(Rep.TokenSet(s.text), s.now)])
    ensures Sizes(shown + [s]) == Sizes(shown) + [|s.text|]
  {
    assert (shown + [s])[..|shown|] == shown;
  }

  function RepetitionInspector(c: Rep.Config): G.Inspector
    requires c.maxHistory > 0
  {
    (earlier, seen: G.Seen) =>
      if TrimSpace(seen.hint) == Rep.HUMAN_AUTHORED then []
      else Rep.Verdict(Scrutinized(earlier), Rep.TokenSet(seen.text), seen.now, c)
  }

  function SizeInspector(c: Size.Config): G.Inspector
    requires c.windowSize >= 0
  {
    (earlier, seen: G.Seen) => Size.Verdict(LastOf(Sizes(earlier), c.windowSize), |seen.text|, c)
  }

  lemma AnswersOf(env: G.Env, w: G.Write, log: G.Log)
    ensures |env.inspectors| == 1 ==> G.Answers(env, w, log, 1) == G.Answer(env, w, log, 0)
    ensures |env.inspectors| == 2 ==> G.Answers(env, w, log, 2) == G.Answer(env, w, log, 0) + G.Answer(env, w, log, 1)
  {
    if |env.inspectors| > 0 { assert G.Answers(env, w, log, 1) == [] + G.Answer(env, w, log, 0); }
  }

  /** The repetition log holds what inspector `i` was shown and looked at. */
  ghost predicate TracksRepetition(m: map<string, seq<Rep.Write>>, log: G.Log, i: nat) {
    forall k :: Rep.RecordsOf(m, k) == Scrutinized(G.LogOf(log, i, k))
  }

  ghost predicate TracksSize(m: map<string, seq<int>>, log: G.Log, i: nat) {
    forall k :: Size.SizesOf(m, k) == Sizes(G.LogOf(log, i, k))
  }

  lemma RepetitionStep(m: map<string, seq<Rep.Write>>, m': map<string, seq<Rep.Write>>,
                       w: G.Write, log: G.Log, n: nat, i: nat)
    requires TracksRepetition(m, log, i) && i < n
    requires m' == if TrimSpace(w.seen.hint) == Rep.HUMAN_AUTHORED then m
      else m[w.boundKey := Rep.RecordsOf(m, w.boundKey) + [Rep.Write(Rep.TokenSet(w.seen.text), w.seen.now)]]
    ensures TracksRepetition(m', G.Asked(w, log, n), i)
  {
    forall k ensures Rep.RecordsOf(m', k) == Scrutinized(G.LogOf(G.Asked(w, log, n), i, k)) {
      assert Rep.RecordsOf(m, k) == Scrutinized(G.LogOf(log, i, k));
      G.AskedOnce(w, log, n, i, k);
      ShownSnoc(G.LogOf(log, i, k), w.seen);
    }
  }

  lemma SizeStep(m: map<string, seq<int>>, m': map<string, seq<int>>, w: G.Write, log: G.Log, n: nat, i: nat)
    requires TracksSize(m, log, i) && i < n
    requires m' == m[w.boundKey := Size.SizesOf(m, w.boundKey) + [|w.seen.text|]]
    ensures TracksSize(m', G.Asked(w, log, n), i)
  {
    forall k ensures Size.SizesOf(m', k) == Sizes(G.LogOf(G.Asked(w, log, n), i, k)) {
      assert Size.SizesOf(m, k) == Sizes(G.LogOf(log, i, k));
      G.AskedOnce(w, log, n, i, k);
      ShownSnoc(G.LogOf(log, i, k), w.seen);
    }
  }

  /** Repetition first, then size; a missing detector is skipped. */
  class CombinedInspector {
    const repetition: Rep.SelfReinforcementDetector?
    const size: Size.SizeAnomalyDetector?

    constructor (repetition: Rep.SelfReinforcementDetector?, size: Size.SizeAnomalyDetector?)
      ensures this.repetition == repetition && this.size == size
    {
      this.repetition, this.size := repetition, size;
    }

    ghost predicate Valid()
      reads repetition, size
    {
      (repetition != null ==> repetition.Valid()) && (size != null ==> size.Valid())
    }

    /** Each detector sees the write once and answers as alone; the flags are the union of their answers. */
    method Inspect(content: string, key: string, sourceClass: string, now: int) returns (flags: seq<string>)
      requires Valid()
      requires repetition != null ==> Rep.NotBefore(Rep.RecordsOf(repetition.log, key), now)
      modifies repetition, size
      ensures Valid()
      ensures flags == Union(old(RepetitionAnswer(content, key, sourceClass, now)) + old(SizeAnswer(content, key)))
      ensures size != null ==> size.log == old(size.log)[key := old(Size.SizesOf(size.log, key)) + [|content|]]
      ensures repetition != null && TrimSpace(sourceClass) == Rep.HUMAN_AUTHORED ==>
        repetition.log == old(repetition.log)
      ensures repetition != null && TrimSpace(sourceClass) != Rep.HUMAN_AUTHORED ==>
        var w := Rep.Write(Rep.TokenSet(content), now);
        repetition.log == old(repetition.log)[key := old(Rep.RecordsOf(repetition.log, key)) + [w]]
    {
      var first: seq<string>, second: seq<string> := [], [];
      if repetition != null { first := repetition.Inspect(content, key, sourceClass, now); }
      if size != null { second := size.Inspect(content, key); }
      flags := UnionFlags(first + second);
    }

    /** The guard's inspectors that this object stands for, in order. */
    ghost function Members(): seq<G.Inspector>
      requires Valid()
      reads repetition, size
    {
      (if repetition == null then [] else [RepetitionInspector(repetition.config)])
      + (if size == null then [] else [SizeInspector(size.config)])
    }

    /** The size detector's place among them. */
    function SizePlace(): nat {
      if repetition == null then 0 else 1
    }

    /** Each detector's log holds what the guard's log says its inspector was shown. */
    ghost predicate Tracks(log: G.Log)
      reads repetition, size
    {
      && (repetition != null ==> TracksRepetition(repetition.log, log, 0))
      && (size != null ==> TracksSize(size.log, log, SizePlace()))
    }

    lemma MembersAnswer(env: G.Env, w: G.Write, log: G.Log)
      requires Valid() && Tracks(log) && env.inspectors == Members()
      ensures G.Answers(env, w, log, |env.inspectors|)
           == RepetitionAnswer(w.seen.text, w.boundKey, w.seen.hint, w.seen.now) + SizeAnswer(w.seen.text, w.boundKey)
    {
      var first := RepetitionAnswer(w.seen.text, w.boundKey, w.seen.hint, w.seen.now);
      var second := SizeAnswer(w.seen.text, w.boundKey);
      AnswersOf(env, w, log);
      if repetition != null {
        assert Rep.RecordsOf(repetition.log, w.boundKey) == Scrutinized(G.LogOf(log, 0, w.boundKey));
        assert G.Answer(env, w, log, 0) == first;
      }
      if size != null {
        assert Size.SizesOf(size.log, w.boundKey) == Sizes(G.LogOf(log, SizePlace(), w.boundKey));
        assert G.Answer(env, w, log, SizePlace()) == second;
      }
    }

    /** The guard's call: the answer is the one its inspectors give from their logs, which the detectors track. */
    method InspectFor(env: G.Env, w: G.Write, ghost log: G.Log) returns (flags: seq<string>)
      requires Valid() && Tracks(log) && env.inspectors == Members()
      requires forall answers :: env.merge(answers) == Union(answers)
      requires repetition != null ==> Rep.NotBefore(Scrutinized(G.LogOf(log, 0, w.boundKey)), w.seen.now)
      modifies repetition, size
      ensures flags == G.InspectorFlags(env, w, log)
      ensures Valid() && Tracks(G.LogAfter(env, w, log)) && env.inspectors == Members()
    {
      MembersAnswer(env, w, log);
      if repetition != null {
        assert Rep.RecordsOf(repetition.log, w.boundKey) == Scrutinized(G.LogOf(log, 0, w.boundKey));
      }
      flags := Inspect(w.seen.text, w.boundKey, w.seen.hint, w.seen.now);
      if repetition != null { RepetitionStep(old(repetition.log), repetition.log, w, log, |env.inspectors|, 0); }
      if size != null { SizeStep(old(size.log), size.log, w, log, |env.inspectors|, SizePlace()); }
    }

    /** What the full log of this key's scrutinized writes says. */
    ghost function RepetitionAnswer(content: string, key: string, sourceClass: string, now: int): seq<string>
      requires Valid()
      reads repetition, size
    {
      if repetition == null || TrimSpace(sourceClass) == Rep.HUMAN_AUTHORED then []
      else Rep.Verdict(Rep.RecordsOf(repetition.log, key), Rep.TokenSet(content), now, repetition.config)
    }

    /** What the last sizes of this key's log say. */
    ghost function SizeAnswer(content: string, key: string): seq<string>
      requires Valid()
      reads repetition, size
    {
      if size == null then []
      else Size.Verdict(LastOf(Size.SizesOf(size.log, key), size.config.windowSize), |content|, size.config)
    }
  }
}
