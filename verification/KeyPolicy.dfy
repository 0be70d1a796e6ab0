/** The named-key write policy: reserved keys fail closed, configured keys only flag. */
module KeyPolicy {
  const RESERVED_PREFIX := "memguard:"
  const PROTECTED_FLAG := "protected_key_violation"
  const MISMATCH_FLAG := "immutable_mismatch"

  /** A glob matcher: pattern, then key. */
  type Glob = (string, string) -> bool

  datatype Policy = Policy(protected: seq<string>, immutable: seq<string>)

  type Baselines = map<string, string>

  predicate IsReserved(key: string) {
    RESERVED_PREFIX <= key
  }

  predicate MatchesAny(glob: Glob, patterns: seq<string>, key: string) {
    exists i :: 0 <= i < |patterns| && glob(patterns[i], key)
  }

  method MatchesAnyPattern(glob: Glob, patterns: seq<string>, key: string) returns (found: bool)
    ensures found == MatchesAny(glob, patterns, key)
  {
    for i := 0 to |patterns|
      invariant forall j :: 0 <= j < i ==> !glob(patterns[j], key)
    {
      if glob(patterns[i], key) { return true; }
    }
    return false;
  }

  predicate IsProtected(glob: Glob, p: Policy, key: string) {
    IsReserved(key) || MatchesAny(glob, p.protected, key)
  }

  predicate IsImmutable(glob: Glob, p: Policy, key: string) {
    IsReserved(key) || MatchesAny(glob, p.immutable, key)
  }

  datatype Outcome = Outcome(flags: seq<string>, reject: bool, baselines: Baselines)

  /** The policy's answer for a keyed write of content hashing to `h`. */
  function Evaluate(glob: Glob, p: Policy, b: Baselines, key: string, h: string, attested: bool): Outcome {
    var unauthorized := IsProtected(glob, p, key) && !attested;
    var checked := IsImmutable(glob, p, key);
    var drifted := checked && key in b && b[key] != h;
    if IsReserved(key) && unauthorized then Outcome([PROTECTED_FLAG], true, b)
    else if IsReserved(key) && drifted then Outcome([MISMATCH_FLAG], true, b)
    else
      Outcome((if unauthorized then [PROTECTED_FLAG] else []) + (if drifted then [MISMATCH_FLAG] else []), false,
              if checked && key !in b then b[key := h] else b)
  }

  /** Baselines are established once and never change. */
  ghost predicate Pins(b: Baselines, b': Baselines) {
    forall k :: k in b ==> k in b' && b'[k] == b[k]
  }

  lemma EvaluatePins(glob: Glob, p: Policy, b: Baselines, key: string, h: string, attested: bool)
    ensures Pins(b, Evaluate(glob, p, b, key, h, attested).baselines)
  {
  }

  /** A reserved write passes exactly when its writer is attested and its content is the baseline's, which it sets if
      it is first. */
  lemma ReservedPassesIff(glob: Glob, p: Policy, b: Baselines, key: string, h: string, attested: bool)
    requires IsReserved(key)
    ensures var o := Evaluate(glob, p, b, key, h, attested);
      && (!o.reject <==> attested && (key in b ==> b[key] == h))
      && (o.reject ==> o.baselines == b)
      && (!o.reject ==> key in o.baselines && o.baselines[key] == h)
  {
  }

  predicate Drifts(b: Baselines, key: string, h: string) {
    key in b && b[key] != h
  }

  /** Which flags an answer carries, in their order: a reserved key rejected for its writer says nothing else. */
  ghost predicate IsPolicyAnswer(glob: Glob, p: Policy, b: Baselines, key: string, h: string, attested: bool,
                                 flags: seq<string>, reject: bool) {
    var reserved := "memguard:" <= key;
    var unauthorized := !attested && (reserved || exists i :: 0 <= i < |p.protected| && glob(p.protected[i], key));
    var drifted := Drifts(b, key, h) && (reserved || exists i :: 0 <= i < |p.immutable| && glob(p.immutable[i], key));
    && (reject <==> reserved && (unauthorized || drifted))
    && (reserved && unauthorized ==> flags == ["protected_key_violation"])
    && (reserved && !unauthorized && drifted ==> flags == ["immutable_mismatch"])
    && (!reject && unauthorized && drifted ==> flags == ["protected_key_violation", "immutable_mismatch"])
    && (!reject && unauthorized && !drifted ==> flags == ["protected_key_violation"])
    && (!reject && !unauthorized && drifted ==> flags == ["immutable_mismatch"])
    && (!unauthorized && !drifted ==> flags == [])
  }

  lemma EvaluateAnswers(glob: Glob, p: Policy, b: Baselines, key: string, h: string, attested: bool)
    ensures var o := Evaluate(glob, p, b, key, h, attested);
      IsPolicyAnswer(glob, p, b, key, h, attested, o.flags, o.reject)
  {
  }

  /** The first write that passes under a reserved or immutable key sets its baseline; nothing else touches one. */
  ghost predicate IsPolicyEffect(glob: Glob, p: Policy, b: Baselines, key: string, h: string, reject: bool,
                                 b': Baselines) {
    var checked := "memguard:" <= key || exists i :: 0 <= i < |p.immutable| && glob(p.immutable[i], key);
    && (!reject && checked && key !in b ==> b' == b[key := h])
    && (reject || !checked || key in b ==> b' == b)
  }

  lemma EvaluateSets(glob: Glob, p: Policy, b: Baselines, key: string, h: string, attested: bool)
    ensures var o := Evaluate(glob, p, b, key, h, attested);
      IsPolicyEffect(glob, p, b, key, h, o.reject, o.baselines)
  {
  }

  /** Outside the reserved tier nothing is rejected. */
  lemma ConfiguredNeverRejects(glob: Glob, p: Policy, b: Baselines, key: string, h: string, attested: bool)
    requires !IsReserved(key)
    ensures !Evaluate(glob, p, b, key, h, attested).reject
  {
  }
}
