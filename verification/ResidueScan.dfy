/** The residue scan over every backing index. */
module ResidueScan {
  import opened Text
  import opened Normalize
  import opened Entries
  import opened Residue
  import S = Spellings

  // ---------------------------------------------------------------- one survivor

  datatype Class = Verbatim | NormalizedCopy | Phrase | TokenOverlap(hits: nat, total: nat)

  datatype Match = NoMatch | Match(cls: Class, fragment: string)

  /** What the tiers say about one survivor, in their order. */
  function Matched(deleted: string, survivor: string, fx: FloatExpand): Match {
    var nd, norm := Normalized(deleted, fx), Normalized(survivor, fx);
    var exact, near := ExactFragment(deleted, survivor), NormalizedFragment(nd, norm);
    var phrase := BestPhrase(Fields(nd), norm);
    if exact != "" then Match(Verbatim, exact)
    else if near != "" then Match(NormalizedCopy, near)
    else if phrase != "" then Match(Phrase, phrase)
    else if Overlaps(TokensOf(deleted), survivor, fx) then
      Match(TokenOverlap(OverlapHits(TokensOf(deleted), survivor, fx), |TokensOf(deleted)|), survivor)
    else NoMatch
  }

  /** What the tiers look for, and which of them answers: the first that holds. `hits` deleted tokens reappear. */
  ghost predicate IsMatch(d: string, nd: string, survivor: string, norm: string, hits: nat, m: Match) {
    if IsCopied(d, survivor) then m.Match? && m.cls == Verbatim && IsCopiedAs(d, survivor, m.fragment)
    else if IsNear(nd, norm) then m.Match? && m.cls == NormalizedCopy && IsNearAs(nd, norm, m.fragment)
    else if HasPhrase(Fields(nd), norm) then
      m.Match? && m.cls == Phrase && IsLongestPhrase(Fields(nd), norm, m.fragment)
    else if IsOverlap(d, hits) then m == Match(TokenOverlap(hits, |TokensOf(d)|), survivor)
    else m == NoMatch
  }

  /** How many distinctive tokens of the deleted text reappear in the survivor, normalized. */
  ghost function SharedTokens(d: string, survivor: string, fx: FloatExpand): nat {
    |Reappearing(TokensOf(d), TokensOf(survivor), NormalizedBy(fx))|
  }

  /** Some tier holds. */
  ghost predicate IsResidue(d: string, survivor: string, fx: FloatExpand) {
    var form := NormalizedBy(fx);
    var nd, norm := form(d), form(survivor);
    || IsCopied(d, survivor) || IsNear(nd, norm)
    || HasPhrase(Fields(nd), norm) || IsOverlap(d, SharedTokens(d, survivor, fx))
  }

  ghost predicate IsMatchOf(d: string, survivor: string, fx: FloatExpand, m: Match) {
    var form := NormalizedBy(fx);
    IsMatch(d, form(d), survivor, form(survivor), SharedTokens(d, survivor, fx), m)
  }

  lemma MatchedIsMatch(d: string, survivor: string, fx: FloatExpand)
    requires d != ""
    ensures IsMatchOf(d, survivor, fx, Matched(d, survivor, fx))
  {
    var form := NormalizedBy(fx);
    assert form(d) == Normalized(d, fx) && form(survivor) == Normalized(survivor, fx);
    ExactFragmentIs(d, survivor);
    NormalizedFragmentIs(form(d), form(survivor));
    BestPhraseIs(Fields(form(d)), form(survivor));
    OverlapCounts(TokensOf(d), survivor, fx);
  }

  lemma MatchIsResidue(d: string, survivor: string, fx: FloatExpand, m: Match)
    requires IsMatchOf(d, survivor, fx, m)
    ensures m.Match? <==> IsResidue(d, survivor, fx)
  {
  }

  /** What a scan finds in each content. */
  type Verdict = string -> Match

  function VerdictOn(d: string, fx: FloatExpand): Verdict {
    var matched := Matched; // a function value keeps the tiers folded in proofs about scans
    c => matched(d, c, fx)
  }

  /** The deleted text with what is computed from it once per scan. */
  datatype Query = Query(text: string, normalized: string, tokens: seq<string>)

  ghost predicate Prepared(q: Query, fx: FloatExpand) {
    q.normalized == Normalized(q.text, fx) && q.tokens == TokensOf(q.text)
  }

  method MatchSurvivor(q: Query, survivor: string, fx: FloatExpand) returns (m: Match)
    requires Prepared(q, fx)
    ensures m == Matched(q.text, survivor, fx)
    ensures q.text != "" ==> IsMatchOf(q.text, survivor, fx, m)
  {
    if q.text != "" { MatchedIsMatch(q.text, survivor, fx); }
    var frag := ExactFragmentMatch(q.text, survivor);
    if frag != "" { return Match(Verbatim, frag); }
    frag := NormalizedFragmentMatch(q.normalized, survivor, fx);
    if frag != "" { return Match(NormalizedCopy, frag); }
    frag := PhraseMatch(q.normalized, survivor, fx);
    if frag != "" { return Match(Phrase, frag); }
    var hits, ok := TokenOverlapMatch(q.tokens, survivor, fx);
    if ok { return Match(TokenOverlap(hits, |q.tokens|), survivor); }
    return NoMatch;
  }

  /** `q` is prepared from its text, and `v` is what the tiers say about it. */
  ghost predicate Judges(v: Verdict, q: Query, fx: FloatExpand) {
    Prepared(q, fx) && forall c {:trigger Matched(q.text, c, fx)} :: v(c) == Matched(q.text, c, fx)
  }

  method JudgeSurvivor(q: Query, survivor: string, fx: FloatExpand, ghost v: Verdict) returns (m: Match)
    requires Judges(v, q, fx)
    ensures m == v(survivor)
  {
    m := MatchSurvivor(q, survivor, fx);
  }

  // ---------------------------------------------------------------- orders

  /** The order of index names ("primary" first) or of contents. */
  predicate Leq(names: bool, a: string, b: string) {
    if names && a == PRIMARY then true
    else if names && b == PRIMARY then false
    else StrLeq(a, b)
  }

  lemma LeqTotal(names: bool, a: string, b: string)
    ensures Leq(names, a, b) || Leq(names, b, a)
    ensures Leq(names, a, b) && Leq(names, b, a) ==> a == b
  {
    StrLeqTotal(a, b);
  }

  lemma LeqTransitive(names: bool, a: string, b: string, c: string)
    requires Leq(names, a, b) && Leq(names, b, c)
    ensures Leq(names, a, c)
  {
    if !(names && (a == PRIMARY || b == PRIMARY || c == PRIMARY)) { StrLeqTransitive(a, b, c); }
  }

  ghost predicate Sorted(names: bool, xs: seq<string>) {
    forall i, j :: 0 <= i < j < |xs| ==> Leq(names, xs[i], xs[j])
  }

  method InsertSorted(names: bool, xs: seq<string>, x: string) returns (ys: seq<string>)
    requires Sorted(names, xs)
    ensures Sorted(names, ys) && forall y :: y in ys <==> y in xs || y == x
  {
    var i := 0;
    while i < |xs| && Leq(names, xs[i], x)
      invariant 0 <= i <= |xs|
      invariant forall j :: 0 <= j < i ==> Leq(names, xs[j], x)
    {
      i := i + 1;
    }
    forall j | i <= j < |xs| ensures Leq(names, x, xs[j]) {
      LeqTotal(names, xs[i], x);
      if i < j { LeqTransitive(names, x, xs[i], xs[j]); }
    }
    ys := xs[..i] + [x] + xs[i..];
    assert forall y :: y in xs <==> y in xs[..i] || y in xs[i..];
  }

  method Sort(names: bool, xs: seq<string>) returns (ys: seq<string>)
    ensures Sorted(names, ys) && forall y :: y in ys <==> y in xs
  {
    ys := [];
    for i := 0 to |xs|
      invariant Sorted(names, ys) && forall y :: y in ys <==> y in xs[..i]
    {
      ys := InsertSorted(names, ys, xs[i]);
      assert xs[..i + 1] == xs[..i] + [xs[i]];
    }
    assert xs[..|xs|] == xs;
  }

  // ---------------------------------------------------------------- all indexes

  type Indexes = map<string, seq<Entry>>

  datatype Summary = Summary(index: string, survivor: string, found: Match)

  /** Some entry has this content. */
  ghost predicate HasContent(entries: seq<Entry>, content: string) {
    exists i :: 0 <= i < |entries| && entries[i].content == content
  }

  ghost predicate Holds(byIndex: Indexes, name: string, content: string) {
    name in byIndex && HasContent(byIndex[name], content)
  }

  ghost predicate Hit(v: Verdict, byIndex: Indexes, name: string, content: string) {
    Holds(byIndex, name, content) && v(content).Match?
  }

  /** The hit the scan reports: least index name, "primary" first, then least content. */
  ghost predicate FirstHit(v: Verdict, byIndex: Indexes, name: string, content: string) {
    && Hit(v, byIndex, name, content)
    && forall n, c :: Hit(v, byIndex, n, c) ==> Leq(true, name, n) && (n == name ==> Leq(false, content, c))
  }

  /** The outcome of a scan, with no mention of any order of iteration. */
  ghost predicate IsOutcome(v: Verdict, byIndex: Indexes, r: Option<Summary>) {
    match r
    case None => forall n, c :: !Hit(v, byIndex, n, c)
    case Some(s) => FirstHit(v, byIndex, s.index, s.survivor) && s.found == v(s.survivor)
  }

  ghost predicate IsScan(deleted: string, fx: FloatExpand, byIndex: Indexes, r: Option<Summary>) {
    var d := TrimSpace(deleted);
    if d == "" then r == None else IsOutcome(VerdictOn(d, fx), byIndex, r)
  }

  method SortedContents(entries: seq<Entry>) returns (contents: seq<string>)
    ensures Sorted(false, contents)
    ensures forall c :: c in contents <==> HasContent(entries, c)
  {
    contents := [];
    for i := 0 to |entries|
      invariant |contents| == i && forall j :: 0 <= j < i ==> contents[j] == entries[j].content
    {
      contents := contents + [entries[i].content];
    }
    ghost var unsorted := contents;
    contents := Sort(false, contents);
    forall c ensures c in contents <==> HasContent(entries, c) {
      assert c in unsorted <==> HasContent(entries, c);
    }
  }

  /** The scan of one index: its contents in sorted order, up to the first match. */
  method ScanIndex(q: Query, entries: seq<Entry>, fx: FloatExpand, ghost v: Verdict)
    returns (hit: Option<(string, Match)>)
    requires Judges(v, q, fx)
    ensures hit.None? ==> forall c :: HasContent(entries, c) ==> v(c).NoMatch?
    ensures hit.Some? ==>
      && HasContent(entries, hit.value.0) && hit.value.1 == v(hit.value.0) && hit.value.1.Match?
      && forall c :: HasContent(entries, c) && v(c).Match? ==> Leq(false, hit.value.0, c)
  {
    var contents := SortedContents(entries);
    for i := 0 to |contents|
      invariant forall j :: 0 <= j < i ==> v(contents[j]).NoMatch?
    {
      var m := JudgeSurvivor(q, contents[i], fx, v);
      if m.Match? {
        assert contents[i] in contents;
        FirstInOrder(contents, i, entries, v);
        return Some((contents[i], m));
      }
    }
    return None;
  }

  lemma FirstInOrder(contents: seq<string>, i: nat, entries: seq<Entry>, v: Verdict)
    requires Sorted(false, contents) && i < |contents|
    requires forall c :: c in contents <==> HasContent(entries, c)
    requires forall j :: 0 <= j < i ==> v(contents[j]).NoMatch?
    ensures forall c :: HasContent(entries, c) && v(c).Match? ==> Leq(false, contents[i], c)
  {
    forall c | HasContent(entries, c) && v(c).Match? ensures Leq(false, contents[i], c) {
      assert c in contents;
      var k :| 0 <= k < |contents| && contents[k] == c;
      LeqTotal(false, c, c);
    }
  }

  /** The index names, in whatever order the map gives them. */
  method IndexNames(byIndex: Indexes) returns (names: seq<string>)
    ensures forall n :: n in names <==> n in byIndex
  {
    names := [];
    var rest := byIndex.Keys;
    while rest != {}
      invariant rest <= byIndex.Keys
      invariant forall n :: n in byIndex <==> n in rest || n in names
    {
      var n :| n in rest;
      names, rest := names + [n], rest - {n};
    }
  }

  /** `names` lists the indexes, each once or more. */
  ghost predicate Lists(names: seq<string>, byIndex: Indexes) {
    && (forall i :: 0 <= i < |names| ==> names[i] in byIndex)
    && (forall n :: n in byIndex ==> n in names)
  }

  method ScanNames(q: Query, names: seq<string>, byIndex: Indexes, fx: FloatExpand, ghost v: Verdict)
    returns (r: Option<Summary>)
    requires Sorted(true, names) && Lists(names, byIndex) && Judges(v, q, fx)
    ensures IsOutcome(v, byIndex, r)
  {
    for i := 0 to |names|
      invariant forall j :: 0 <= j < i ==> NoHitIn(v, byIndex, names[j])
    {
      var hit := ScanIndex(q, byIndex[names[i]], fx, v);
      if hit.Some? {
        ReportedFirst(v, byIndex, names, i, hit.value.0);
        return Some(Summary(names[i], hit.value.0, hit.value.1));
      }
      assert NoHitIn(v, byIndex, names[i]);
    }
    NoHits(v, byIndex, names);
    return None;
  }

  lemma NoHits(v: Verdict, byIndex: Indexes, names: seq<string>)
    requires Lists(names, byIndex) && forall j :: 0 <= j < |names| ==> NoHitIn(v, byIndex, names[j])
    ensures forall n, c :: !Hit(v, byIndex, n, c)
  {
    forall n, c ensures !Hit(v, byIndex, n, c) {
      if n in byIndex { assert n in names; }
    }
  }

  ghost predicate NoHitIn(v: Verdict, byIndex: Indexes, name: string) {
    forall c :: Holds(byIndex, name, c) ==> v(c).NoMatch?
  }

  lemma ReportedFirst(v: Verdict, byIndex: Indexes, names: seq<string>, i: nat, content: string)
    requires i < |names| && Sorted(true, names) && Lists(names, byIndex)
    requires forall j :: 0 <= j < i ==> NoHitIn(v, byIndex, names[j])
    requires Hit(v, byIndex, names[i], content)
    requires forall c :: Hit(v, byIndex, names[i], c) ==> Leq(false, content, c)
    ensures FirstHit(v, byIndex, names[i], content)
  {
    forall n, c | Hit(v, byIndex, n, c)
      ensures Leq(true, names[i], n) && (n == names[i] ==> Leq(false, content, c))
    {
      var k :| 0 <= k < |names| && names[k] == n;
      assert k >= i;
      LeqTotal(true, n, n);
    }
  }

  /** The order of index names: "primary" first, then byte by byte. */
  ghost predicate NameBefore(a: string, b: string) {
    a == "primary" || (b != "primary" && IsBefore(a, b))
  }

  /** What a scan answers, by the tiers: the first residue by index name and then by content, or that there is none. */
  ghost predicate IsAnswer(deleted: string, fx: FloatExpand, byIndex: Indexes, r: Option<Summary>) {
    var d := TrimSpace(deleted);
    match r
    case None => d != "" ==> forall n, c :: Holds(byIndex, n, c) ==> !IsResidue(d, c, fx)
    case Some(s) =>
      && d != "" && Holds(byIndex, s.index, s.survivor) && s.found.Match? && IsMatchOf(d, s.survivor, fx, s.found)
      && forall n, c :: Holds(byIndex, n, c) && IsResidue(d, c, fx) ==>
           NameBefore(s.index, n) && (n == s.index ==> IsBefore(s.survivor, c))
  }

  lemma LeqIff(a: string, b: string)
    ensures Leq(true, a, b) <==> NameBefore(a, b)
    ensures Leq(false, a, b) <==> IsBefore(a, b)
  {
    StrLeqIff(a, b);
  }

  lemma VerdictIsMatch(d: string, c: string, fx: FloatExpand)
    requires d != ""
    ensures IsMatchOf(d, c, fx, VerdictOn(d, fx)(c))
    ensures VerdictOn(d, fx)(c).Match? <==> IsResidue(d, c, fx)
  {
    MatchedIsMatch(d, c, fx);
    assert VerdictOn(d, fx)(c) == Matched(d, c, fx);
    MatchIsResidue(d, c, fx, Matched(d, c, fx));
  }

  lemma ScanAnswers(deleted: string, fx: FloatExpand, byIndex: Indexes, r: Option<Summary>)
    requires IsScan(deleted, fx, byIndex, r)
    ensures IsAnswer(deleted, fx, byIndex, r)
  {
    var d := TrimSpace(deleted);
    if d != "" {
      var v := VerdictOn(d, fx);
      forall n, c ensures Hit(v, byIndex, n, c) <==> Holds(byIndex, n, c) && IsResidue(d, c, fx) {
        VerdictIsMatch(d, c, fx);
      }
      if r.Some? {
        VerdictIsMatch(d, r.value.survivor, fx);
        forall n, c | Holds(byIndex, n, c) && IsResidue(d, c, fx)
          ensures NameBefore(r.value.index, n) && (n == r.value.index ==> IsBefore(r.value.survivor, c))
        {
          assert Hit(v, byIndex, n, c);
          LeqIff(r.value.index, n);
          LeqIff(r.value.survivor, c);
        }
      }
    }
  }

  method ResidueScanIndexes(deleted: string, byIndex: Indexes, fx: FloatExpand) returns (r: Option<Summary>)
    ensures IsScan(deleted, fx, byIndex, r)
    ensures IsAnswer(deleted, fx, byIndex, r)
  {
    var d := TrimSpace(deleted);
    if d == "" {
      ScanAnswers(deleted, fx, byIndex, None);
      return None;
    }
    var tokens := DistinctiveTokens(d);
    var names := IndexNames(byIndex);
    names := Sort(true, names);
    assert Lists(names, byIndex);
    r := ScanNames(Query(d, Normalized(d, fx), tokens), names, byIndex, fx, VerdictOn(d, fx));
    ScanAnswers(deleted, fx, byIndex, r);
  }

  /** The single-index scan. */
  method ScanOne(deleted: string, survivors: seq<Entry>, fx: FloatExpand) returns (r: Option<Summary>)
    ensures IsScan(deleted, fx, map[PRIMARY := survivors], r)
  {
    r := ResidueScanIndexes(deleted, map[PRIMARY := survivors], fx);
  }

  // ---------------------------------------------------------------- order independence

  /** The two hold the same contents in the same indexes, in any order and multiplicity. */
  ghost predicate SameContents(a: Indexes, b: Indexes) {
    forall n, c :: Holds(a, n, c) <==> Holds(b, n, c)
  }

  lemma OutcomeUnique(v: Verdict, a: Indexes, b: Indexes, r: Option<Summary>, r': Option<Summary>)
    requires SameContents(a, b) && IsOutcome(v, a, r) && IsOutcome(v, b, r')
    ensures r == r'
  {
    if r.Some? { assert Hit(v, b, r.value.index, r.value.survivor); }
    if r'.Some? { assert Hit(v, a, r'.value.index, r'.value.survivor); }
    if r.Some? && r'.Some? {
      LeqTotal(true, r.value.index, r'.value.index);
      LeqTotal(false, r.value.survivor, r'.value.survivor);
    }
  }

  /** The answer depends on nothing but which contents each index holds. */
  lemma ScanIsOrderIndependent(deleted: string, fx: FloatExpand, a: Indexes, b: Indexes,
                               r: Option<Summary>, r': Option<Summary>)
    requires SameContents(a, b)
    requires IsScan(deleted, fx, a, r) && IsScan(deleted, fx, b, r')
    ensures r == r'
  {
    if TrimSpace(deleted) != "" { OutcomeUnique(VerdictOn(TrimSpace(deleted), fx), a, b, r, r'); }
  }

  /** Two indexes, the second holding what "primary" holds, beside one. */
  ghost predicate Mirrors(one: Indexes, two: Indexes, mirror: string) {
    && one.Keys == {PRIMARY} && two.Keys == {PRIMARY, mirror}
    && (forall c :: Holds(one, PRIMARY, c) <==> Holds(two, PRIMARY, c))
    && (forall c :: Holds(one, PRIMARY, c) <==> Holds(two, mirror, c))
  }

  lemma MirrorHits(v: Verdict, one: Indexes, two: Indexes, mirror: string, n: string, c: string)
    requires Mirrors(one, two, mirror) && (Hit(v, one, n, c) || Hit(v, two, n, c))
    ensures Hit(v, one, PRIMARY, c) && Hit(v, two, PRIMARY, c)
  {
    assert n == PRIMARY || n == mirror;
  }

  lemma MirrorOutcome(v: Verdict, one: Indexes, two: Indexes, mirror: string, r: Option<Summary>, r': Option<Summary>)
    requires Mirrors(one, two, mirror) && IsOutcome(v, one, r) && IsOutcome(v, two, r')
    ensures r == r'
    ensures r.Some? ==> r.value.index == PRIMARY
  {
    if r.Some? {
      MirrorHits(v, one, two, mirror, r.value.index, r.value.survivor);
      LeqTotal(true, r.value.index, PRIMARY);
    }
    if r'.Some? {
      MirrorHits(v, one, two, mirror, r'.value.index, r'.value.survivor);
      LeqTotal(true, r'.value.index, PRIMARY);
    }
    if r.Some? && r'.Some? { LeqTotal(false, r.value.survivor, r'.value.survivor); }
  }

  /** A second index that holds what "primary" holds changes nothing, and "primary" is named. */
  lemma MirrorIndexChangesNothing(deleted: string, fx: FloatExpand, one: Indexes, two: Indexes, mirror: string,
                                  r: Option<Summary>, r': Option<Summary>)
    requires Mirrors(one, two, mirror)
    requires IsScan(deleted, fx, one, r) && IsScan(deleted, fx, two, r')
    ensures r == r'
    ensures r.Some? ==> r.value.index == PRIMARY
  {
    if TrimSpace(deleted) != "" { MirrorOutcome(VerdictOn(TrimSpace(deleted), fx), one, two, mirror, r, r'); }
  }

  // ---------------------------------------------------------------- completeness

  /** Detection: some survivor in some index is residue by one of the tiers. */
  lemma DetectedIff(deleted: string, fx: FloatExpand, byIndex: Indexes, r: Option<Summary>)
    requires IsScan(deleted, fx, byIndex, r)
    ensures r.Some? <==>
      TrimSpace(deleted) != "" && exists n, c :: Holds(byIndex, n, c) && IsResidue(TrimSpace(deleted), c, fx)
  {
    ScanAnswers(deleted, fx, byIndex, r);
    if r.Some? { MatchIsResidue(TrimSpace(deleted), r.value.survivor, fx, r.value.found); }
  }

  /** A verbatim copy anywhere is detected. */
  lemma VerbatimCopyIsDetected(deleted: string, fx: FloatExpand, byIndex: Indexes, r: Option<Summary>,
                               name: string, content: string)
    requires IsScan(deleted, fx, byIndex, r)
    requires TrimSpace(deleted) != "" && Holds(byIndex, name, content) && Contains(content, TrimSpace(deleted))
    ensures r.Some?
  {
    assert IsResidue(TrimSpace(deleted), content, fx);
    DetectedIff(deleted, fx, byIndex, r);
  }

  /** More survivors or more indexes never turn a detection off. */
  lemma DetectionIsMonotone(deleted: string, fx: FloatExpand, a: Indexes, b: Indexes,
                            r: Option<Summary>, r': Option<Summary>)
    requires forall n, c :: Holds(a, n, c) ==> Holds(b, n, c)
    requires IsScan(deleted, fx, a, r) && IsScan(deleted, fx, b, r')
    ensures r.Some? ==> r'.Some?
  {
    if r.Some? { assert Hit(VerdictOn(TrimSpace(deleted), fx), b, r.value.index, r.value.survivor); }
  }

  // ---------------------------------------------------------------- spellings of a number meet

  lemma {:induction false} ListedDigits(l: WordList, w: string)
    requires w != "" && IsDigit(w[0]) && Lettered(l)
    ensures !Listed(l, w)
    decreases l
  {
    if l.Cons? { ListedDigits(l.rest, w); }
  }

  predicate Lettered(l: WordList) {
    l.Cons? ==> l.word != "" && !IsDigit(l.word[0]) && Lettered(l.rest)
  }

  lemma StopWordsAreLettered()
    ensures Lettered(StopWords())
  {
    var l := StopWords();
    var l12 := l.rest.rest.rest.rest.rest.rest.rest.rest.rest.rest.rest.rest;
    assert Lettered(l12);
  }

  lemma DigitsAreDistinctive(w: string)
    requires w != "" && AllDigits(w)
    ensures IsDistinctive(w) && IsStrong(w)
  {
    StopWordsAreLettered();
    ListedDigits(StopWords(), w);
    assert HasDigit(w);
  }

  lemma {:induction false} CutRight(d: string, q: string)
    requires S.AllCut(q) && d != "" && d[0] !in TOKEN_CUT && d[|d| - 1] !in TOKEN_CUT
    ensures TrimSet(d + q, TOKEN_CUT) == d
    decreases |q|
  {
    if q == "" {
      NothingAfter(d, q);
    } else {
      assert (d + q)[..|d + q| - 1] == d + q[..|q| - 1];
      CutRight(d, q[..|q| - 1]);
    }
  }

  lemma {:induction false} CutBoth(p: string, d: string, q: string)
    requires S.AllCut(p) && S.AllCut(q) && d != "" && d[0] !in TOKEN_CUT && d[|d| - 1] !in TOKEN_CUT
    ensures TrimSet(p + d + q, TOKEN_CUT) == d
    decreases |p|
  {
    if p == "" {
      NothingBefore(p, d);
      CutRight(d, q);
    } else {
      assert (p + d + q)[1..] == p[1..] + d + q;
      CutBoth(p[1..], d, q);
    }
  }

  /** A word that shows a number is it, once trimmed. */
  lemma ShownTrims(w: string, n: nat)
    requires S.Shows(w, n)
    ensures TrimSet(w, TOKEN_CUT) == Dec(n) && Contains(w, Dec(n))
    ensures AllKept(Punctuation, w) && Lower(w) == w
  {
    var p, q :| w == p + Dec(n) + q && S.AllCut(p) && S.AllCut(q);
    CutBoth(p, Dec(n), q);
    ContainsMiddle(p, Dec(n), q);
    ShownChars(p, Dec(n), q);
  }

  lemma ShownChars(p: string, d: string, q: string)
    requires S.AllCut(p) && AllDigits(d) && S.AllCut(q)
    ensures AllKept(Punctuation, p + d + q) && Lower(p + d + q) == p + d + q
  {
    LowerKeeps(p + d + q);
  }

  lemma LowerKeeps(w: string)
    requires forall i :: 0 <= i < |w| ==> LowerChar(w[i]) == w[i]
    ensures Lower(w) == w
  {
  }

  /** A word of a text is one of its distinctive tokens once trimmed, if it survives the punctuation fold. */
  lemma FieldIsToken(text: string, w: string)
    requires w in Fields(text) && AllKept(Punctuation, w) && Lower(w) == w && IsDistinctive(TrimSet(w, TOKEN_CUT))
    ensures TrimSet(w, TOKEN_CUT) in TokensOf(text)
  {
    var a, b := FieldPlace(text, w);
    FoldRunsAround(Punctuation, a, w, b);
    var a', b' := FoldRuns(Punctuation, a), FoldRuns(Punctuation, b);
    FoldRunsEndsClear(Punctuation, a);
    FoldRunsStartsClear(Punctuation, b);
    S.FieldsAround(a', w, b');
    FieldsWord(w);
    var raw := Fields(Lower(FoldRuns(Punctuation, text)));
    assert raw[|Fields(Lower(a'))|] == w;
    KeepDistinctiveIff(raw, TrimSet(w, TOKEN_CUT));
  }

  lemma StrongTokenIsFound(normDeleted: string, norm: string, tok: string)
    requires tok in TokensOf(normDeleted) && tok != "" && IsStrong(tok) && Contains(norm, tok)
    ensures NormalizedFragment(normDeleted, norm) != ""
  {
    var frags := TokensOf(normDeleted);
    var i :| 0 <= i < |frags| && frags[i] == tok;
    FirstStrongFinds(frags, norm);
    assert StrongHit(frags, norm, i);
  }

  lemma NearIsResidue(d: string, survivor: string, fx: FloatExpand)
    requires NormalizedFragment(Normalized(d, fx), Normalized(survivor, fx)) != ""
    ensures IsResidue(d, survivor, fx)
  {
    var form := NormalizedBy(fx);
    assert form(d) == Normalized(d, fx) && form(survivor) == Normalized(survivor, fx);
    NormalizedFragmentIs(form(d), form(survivor));
  }

  /** Two normalized texts that share a number are flagged, whatever else they say. */
  lemma SharedNumberIsFlagged(normDeleted: string, norm: string, w: string, v: string, n: nat)
    requires w in Fields(normDeleted) && S.Shows(w, n) && v in Fields(norm) && S.Shows(v, n)
    ensures NormalizedFragment(normDeleted, norm) != ""
  {
    ShownTrims(w, n);
    ShownTrims(v, n);
    DigitsAreDistinctive(Dec(n));
    FieldIsToken(normDeleted, w);
    FieldIsContained(norm, v);
    ContainsTransitive(norm, v, Dec(n));
    StrongTokenIsFound(normDeleted, norm, Dec(n));
  }

  /** `text` names `n` in some form, between any marks, and no word beside it runs into the number. */
  ghost predicate Names(text: string, n: nat, f: S.Form) {
    exists a, t, b, open, close ::
      text == a + t + b && S.LeftContext(a) && S.RightContext(b) && S.Spelled(t, open, f, n, close)
  }

  lemma NamedIsField(text: string, n: nat, f: S.Form, fx: FloatExpand) returns (w: string)
    requires Names(text, n, f)
    ensures w in Fields(Normalized(text, fx)) && S.Shows(w, n)
    ensures w in Fields(Normalized(TrimSpace(text), fx)) && TrimSpace(text) != ""
  {
    var a, t, b, open, close :|
      text == a + t + b && S.LeftContext(a) && S.RightContext(b) && S.Spelled(t, open, f, n, close);
    w := S.SpellingIsField(a, t, b, open, f, n, close, fx);
    S.NormalizedTrimSpace(text, fx);
    NormalizedEmpty(fx);
  }

  lemma NormalizedEmpty(fx: FloatExpand)
    ensures Fields(Normalized("", fx)) == []
  {
  }

  lemma SpellingsMatch(deleted: string, f: S.Form, survivor: string, g: S.Form, n: nat, fx: FloatExpand)
    requires Names(deleted, n, f) && Names(survivor, n, g)
    ensures TrimSpace(deleted) != "" && IsResidue(TrimSpace(deleted), survivor, fx)
  {
    var d := TrimSpace(deleted);
    var w := NamedIsField(deleted, n, f, fx);
    var v := NamedIsField(survivor, n, g, fx);
    SharedNumberIsFlagged(Normalized(d, fx), Normalized(survivor, fx), w, v, n);
    NearIsResidue(d, survivor, fx);
  }

  /** A deletion that names `n` in one form and a survivor that names it in another: always detected. */
  lemma SpellingsMeet(deleted: string, f: S.Form, survivor: string, g: S.Form, n: nat,
                      fx: FloatExpand, byIndex: Indexes, name: string, r: Option<Summary>)
    requires Names(deleted, n, f) && Names(survivor, n, g)
    requires Holds(byIndex, name, survivor) && IsScan(deleted, fx, byIndex, r)
    ensures r.Some?
  {
    SpellingsMatch(deleted, f, survivor, g, n, fx);
    DetectedIff(deleted, fx, byIndex, r);
  }
}
