/** The tiered match of deleted content against one surviving entry. */
module Residue {
  import opened Text
  import opened Normalize

  // ---------------------------------------------------------------- distinctive tokens

  const MIN_DISTINCTIVE_TOKENS := 3
  const PHRASE_MIN_TOKENS := 3
  const STRONG_TOKEN_MIN_LEN := 8

  const TOKEN_CUT: set<char> := {'.', '$', '%'}

  datatype WordList = Nil | Cons(word: string, rest: WordList)

  function StopWords(): WordList {
    Cons("the", Cons("and", Cons("for", Cons("with", Cons("that", Cons("this",
    Cons("are", Cons("was", Cons("has", Cons("have", Cons("from", Cons("you",
    Cons("your", Cons("his", Cons("her", Cons("our", Cons("their", Cons("but",
    Cons("not", Cons("all", Cons("any", Cons("can", Cons("may", Cons("will", Nil))))))))))))))))))))))))
  }

  predicate Listed(l: WordList, w: string) {
    l.Cons? && (l.word == w || Listed(l.rest, w))
  }

  predicate IsStopWord(w: string) {
    Listed(StopWords(), w)
  }

  lemma ListedSix(a: string, b: string, c: string, d: string, e: string, f: string, rest: WordList, w: string)
    ensures Listed(Cons(a, Cons(b, Cons(c, Cons(d, Cons(e, Cons(f, rest)))))), w)
       <==> w == a || w == b || w == c || w == d || w == e || w == f || Listed(rest, w)
  {
    var three := Cons(d, Cons(e, Cons(f, rest)));
    assert Listed(Cons(f, rest), w) <==> w == f || Listed(rest, w);
    assert Listed(three, w) <==> w == d || w == e || Listed(Cons(f, rest), w);
    assert Listed(Cons(c, three), w) <==> w == c || Listed(three, w);
  }

  /** The words that carry no residue on their own. */
  lemma StopWordsAre(w: string)
    ensures IsStopWord(w) <==>
      || w == "the" || w == "and" || w == "for" || w == "with" || w == "that" || w == "this"
      || w == "are" || w == "was" || w == "has" || w == "have" || w == "from" || w == "you"
      || w == "your" || w == "his" || w == "her" || w == "our" || w == "their" || w == "but"
      || w == "not" || w == "all" || w == "any" || w == "can" || w == "may" || w == "will"
  {
    var last := Cons("not", Cons("all", Cons("any", Cons("can", Cons("may", Cons("will", Nil))))));
    var third := Cons("your", Cons("his", Cons("her", Cons("our", Cons("their", Cons("but", last))))));
    var second := Cons("are", Cons("was", Cons("has", Cons("have", Cons("from", Cons("you", third))))));
    ListedSix("not", "all", "any", "can", "may", "will", Nil, w);
    ListedSix("your", "his", "her", "our", "their", "but", last, w);
    ListedSix("are", "was", "has", "have", "from", "you", third, w);
    ListedSix("the", "and", "for", "with", "that", "this", second, w);
  }

  /** strconv.Atoi accepts `w`, for a `w` too short to overflow. */
  predicate IsInteger(w: string) {
    w != "" && ((AllDigits(w)) || ((w[0] == '-' || w[0] == '+') && |w| > 1 && AllDigits(w[1..])))
  }

  /** Digits, after a sign or not. */
  lemma IsIntegerIff(w: string)
    ensures IsInteger(w) <==>
      exists sign, digits :: w == sign + digits && sign in {"", "-", "+"} && digits != "" && AllDigits(digits)
  {
    if w != "" {
      assert w == [w[0]] + w[1..];
      NothingBefore("", w);
    }
    if sign, digits :| w == sign + digits && sign in {"", "-", "+"} && digits != "" && AllDigits(digits) {
      if sign == "" {
        NothingBefore(sign, digits);
      } else {
        SignDrops(sign, digits);
      }
    }
  }

  lemma SignDrops(sign: string, digits: string)
    requires |sign| == 1
    ensures (sign + digits)[0] == sign[0] && (sign + digits)[1..] == digits
  {
  }

  /** A trimmed token that identifies content: not short (unless numeric) and not a stop word. */
  predicate IsDistinctive(w: string) {
    (|w| >= 3 || IsInteger(w)) && !IsStopWord(w)
  }

  function KeepDistinctive(raw: seq<string>): seq<string> {
    if raw == [] then []
    else
      var t := TrimSet(raw[|raw| - 1], TOKEN_CUT);
      KeepDistinctive(raw[..|raw| - 1]) + (if IsDistinctive(t) then [t] else [])
  }

  function TokensOf(text: string): seq<string> {
    KeepDistinctive(Fields(Lower(FoldRuns(Punctuation, text))))
  }

  /** The tokens of a text do not depend on the case of its letters. */
  lemma TokensIgnoreCase(text: string)
    ensures TokensOf(Lower(text)) == TokensOf(text)
  {
    LowerFolds(text);
    LowerTwice(FoldRuns(Punctuation, text));
  }

  method DistinctiveTokens(text: string) returns (out: seq<string>)
    ensures out == TokensOf(text)
  {
    var raw := Fields(Lower(FoldRuns(Punctuation, text)));
    out := [];
    for i := 0 to |raw|
      invariant out == KeepDistinctive(raw[..i])
    {
      assert raw[..i + 1][..i] == raw[..i];
      var t := TrimSet(raw[i], TOKEN_CUT);
      if |t| < 3 && !IsInteger(t) { continue; }
      if IsStopWord(t) { continue; }
      out := out + [t];
    }
    assert raw[..|raw|] == raw;
  }

  /** Some word is this token once trimmed. */
  ghost predicate TrimsTo(raw: seq<string>, t: string) {
    exists i :: 0 <= i < |raw| && TrimSet(raw[i], TOKEN_CUT) == t
  }

  lemma TrimsToInit(raw: seq<string>, t: string)
    requires raw != []
    ensures TrimsTo(raw, t) <==> TrimsTo(raw[..|raw| - 1], t) || TrimSet(raw[|raw| - 1], TOKEN_CUT) == t
  {
    var init := raw[..|raw| - 1];
    assert forall i :: 0 <= i < |init| ==> init[i] == raw[i];
  }

  lemma {:induction false} KeepDistinctiveIff(raw: seq<string>, t: string)
    ensures t in KeepDistinctive(raw) <==> IsDistinctive(t) && TrimsTo(raw, t)
    decreases |raw|
  {
    if raw != [] {
      KeepDistinctiveIff(raw[..|raw| - 1], t);
      TrimsToInit(raw, t);
    }
  }

  /** A word is kept trimmed, once, unless it is short and no number, or a stop word. */
  lemma KeepDistinctiveOne(w: string)
    ensures var t := TrimSet(w, {'.', '$', '%'});
      KeepDistinctive([w]) == if (|t| >= 3 || IsInteger(t)) && !IsStopWord(t) then [t] else []
  {
    assert [w][..0] == [];
  }

  /** Tokens are kept word by word, in their order. */
  lemma {:induction false} KeepDistinctiveAppend(a: seq<string>, b: seq<string>)
    ensures KeepDistinctive(a + b) == KeepDistinctive(a) + KeepDistinctive(b)
    decreases |b|
  {
    if b == [] {
      NothingAfter(a, b);
      NothingAfter(KeepDistinctive(a), KeepDistinctive(b));
    } else {
      var init := b[..|b| - 1];
      KeepDistinctiveAppend(a, init);
      assert (a + b)[..|a + b| - 1] == a + init;
      ConcatAssoc(KeepDistinctive(a), KeepDistinctive(init), KeepDistinctive(b)[|KeepDistinctive(init)|..]);
    }
  }

  predicate HasDigit(tok: string) {
    exists i :: 0 <= i < |tok| && IsDigit(tok[i])
  }

  predicate IsStrong(tok: string) {
    |tok| >= STRONG_TOKEN_MIN_LEN || HasDigit(tok)
  }

  // ---------------------------------------------------------------- tier 1

  /** The longest strong token among `tokens` that `survivor` contains, the first among equals. */
  function BestToken(tokens: seq<string>, survivor: string): string {
    if tokens == [] then ""
    else
      var best := BestToken(tokens[..|tokens| - 1], survivor);
      var tok := tokens[|tokens| - 1];
      if IsStrong(tok) && Contains(survivor, tok) && |tok| > |best| then tok else best
  }

  function ExactFragment(deleted: string, survivor: string): string {
    if Contains(survivor, deleted) then deleted else BestToken(TokensOf(deleted), survivor)
  }

  method ExactFragmentMatch(deleted: string, survivor: string) returns (frag: string)
    ensures frag == ExactFragment(deleted, survivor)
  {
    if Contains(survivor, deleted) { return deleted; }
    var tokens := DistinctiveTokens(deleted);
    frag := "";
    for i := 0 to |tokens|
      invariant frag == BestToken(tokens[..i], survivor)
    {
      assert tokens[..i + 1][..i] == tokens[..i];
      var tok := tokens[i];
      if IsStrong(tok) && Contains(survivor, tok) && |tok| > |frag| { frag := tok; }
    }
    assert tokens[..|tokens|] == tokens;
  }

  /** A token that identifies content all by itself: long, or with a digit in it. */
  predicate StandsOut(t: string) {
    |t| >= 8 || exists k :: 0 <= k < |t| && '0' <= t[k] <= '9'
  }

  lemma StrongStandsOut(t: string)
    ensures IsStrong(t) <==> StandsOut(t)
    ensures StandsOut(t) ==> t != ""
  {
    if HasDigit(t) { var k :| 0 <= k < |t| && IsDigit(t[k]); }
    if exists k :: 0 <= k < |t| && '0' <= t[k] <= '9' {
      var k :| 0 <= k < |t| && '0' <= t[k] <= '9';
      assert IsDigit(t[k]);
    }
  }

  predicate StrongHit(tokens: seq<string>, survivor: string, i: int) {
    0 <= i < |tokens| && StandsOut(tokens[i]) && Contains(survivor, tokens[i])
  }

  /** Token `i` is a strong token of the survivor, no such token is longer, and none before it as long. */
  ghost predicate IsLongestHit(tokens: seq<string>, survivor: string, i: int) {
    && StrongHit(tokens, survivor, i)
    && forall j :: StrongHit(tokens, survivor, j)
         ==> |tokens[j]| < |tokens[i]| || (|tokens[j]| == |tokens[i]| && i <= j)
  }

  lemma {:induction false} BestTokenIsBest(tokens: seq<string>, survivor: string)
    ensures var best := BestToken(tokens, survivor);
      if best == "" then forall i :: !StrongHit(tokens, survivor, i)
      else exists i :: IsLongestHit(tokens, survivor, i) && tokens[i] == best
    decreases |tokens|
  {
    if tokens != [] {
      var n := |tokens| - 1;
      var init := tokens[..n];
      BestTokenIsBest(init, survivor);
      StrongStandsOut(tokens[n]);
      forall j | StrongHit(tokens, survivor, j) ensures j == n || StrongHit(init, survivor, j) {}
      var best := BestToken(init, survivor);
      var i := n;
      if best != "" {
        i :| IsLongestHit(init, survivor, i) && init[i] == best;
        assert StrongHit(tokens, survivor, i);
      }
      if BestToken(tokens, survivor) == best {
        if best != "" { assert IsLongestHit(tokens, survivor, i); }
      } else {
        assert IsLongestHit(tokens, survivor, n);
      }
    }
  }

  // ---------------------------------------------------------------- tier 2

  function FirstStrong(frags: seq<string>, norm: string): string {
    if frags == [] then ""
    else if IsStrong(frags[0]) && Contains(norm, frags[0]) then frags[0]
    else FirstStrong(frags[1..], norm)
  }

  function NormalizedFragment(normDeleted: string, norm: string): string {
    if normDeleted != "" && Contains(norm, normDeleted) then normDeleted
    else FirstStrong(TokensOf(normDeleted), norm)
  }

  method NormalizedFragmentMatch(normDeleted: string, survivor: string, fx: FloatExpand) returns (frag: string)
    ensures frag == NormalizedFragment(normDeleted, Normalized(survivor, fx))
  {
    var norm := Normalized(survivor, fx);
    if normDeleted != "" && Contains(norm, normDeleted) { return normDeleted; }
    var frags := DistinctiveTokens(normDeleted);
    frag := FindStrong(frags, norm);
  }

  method FindStrong(frags: seq<string>, norm: string) returns (frag: string)
    ensures frag == FirstStrong(frags, norm)
  {
    assert frags[0..] == frags;
    for i := 0 to |frags|
      invariant FirstStrong(frags, norm) == FirstStrong(frags[i..], norm)
    {
      assert frags[i..][1..] == frags[i + 1..];
      if IsStrong(frags[i]) && Contains(norm, frags[i]) { return frags[i]; }
    }
    return "";
  }

  /** Token `i` is the first strong token of the text. */
  ghost predicate IsFirstHit(tokens: seq<string>, text: string, i: int) {
    StrongHit(tokens, text, i) && forall j :: 0 <= j < i ==> !StrongHit(tokens, text, j)
  }

  lemma {:induction false} FirstStrongFinds(frags: seq<string>, norm: string)
    ensures var first := FirstStrong(frags, norm);
      if first == "" then forall i :: !StrongHit(frags, norm, i)
      else exists i :: IsFirstHit(frags, norm, i) && frags[i] == first
    decreases |frags|
  {
    if frags != [] {
      var rest := frags[1..];
      FirstStrongFinds(rest, norm);
      StrongStandsOut(frags[0]);
      forall i | i > 0 ensures StrongHit(frags, norm, i) <==> StrongHit(rest, norm, i - 1) {}
      if StrongHit(frags, norm, 0) {
        assert IsFirstHit(frags, norm, 0);
      } else if FirstStrong(rest, norm) != "" {
        var i :| IsFirstHit(rest, norm, i) && rest[i] == FirstStrong(rest, norm);
        assert IsFirstHit(frags, norm, i + 1);
      }
    }
  }

  // ---------------------------------------------------------------- tier 2b

  function CountOf(window: seq<string>): nat {
    if window == [] then 0
    else CountOf(window[..|window| - 1]) + (if IsDistinctive(TrimSet(window[|window| - 1], TOKEN_CUT)) then 1 else 0)
  }

  /** It counts what would be kept as tokens. */
  lemma {:induction false} CountsDistinctive(window: seq<string>)
    ensures CountOf(window) == |KeepDistinctive(window)|
    decreases |window|
  {
    if window != [] { CountsDistinctive(window[..|window| - 1]); }
  }

  method CountDistinctive(window: seq<string>) returns (n: nat)
    ensures n == CountOf(window)
  {
    n := 0;
    for i := 0 to |window|
      invariant n == CountOf(window[..i])
    {
      assert window[..i + 1][..i] == window[..i];
      var w := TrimSet(window[i], TOKEN_CUT);
      if IsStopWord(w) { continue; }
      if |w| < 3 && !IsInteger(w) { continue; }
      n := n + 1;
    }
    assert window[..|window|] == window;
  }

  /** The window of `size` words at `start` is residue in the normalized survivor. */
  predicate Qualifies(words: seq<string>, norm: string, size: int, start: int) {
    && PHRASE_MIN_TOKENS <= size && 0 <= start && start + size <= |words|
    && CountOf(words[start..start + size]) >= PHRASE_MIN_TOKENS
    && Contains(norm, Join(words[start..start + size]))
  }

  /** A choice of windows, by size and start. */
  type Choice = (int, int) -> bool

  function Qualifying(words: seq<string>, norm: string): Choice {
    var qualifies := Qualifies;
    (size, start) => qualifies(words, norm, size, start)
  }

  function Window(words: seq<string>, size: int, start: int): seq<string> {
    if 0 <= start && 0 <= size && start + size <= |words| then words[start..start + size] else []
  }

  /** The chosen window with the most words, leftmost among equals. */
  ghost predicate IsBestWindow(q: Choice, size: int, start: int) {
    q(size, start) && forall z, s :: q(z, s) ==> z < size || (z == size && start <= s)
  }

  /** The phrase is the best window's words, or "" if no window is chosen. */
  ghost predicate IsBestOf(words: seq<string>, q: Choice, phrase: string) {
    if phrase == "" then forall z, s :: !q(z, s)
    else exists z, s :: IsBestWindow(q, z, s) && phrase == Join(Window(words, z, s))
  }

  ghost predicate IsBestPhrase(words: seq<string>, norm: string, phrase: string) {
    IsBestOf(words, Qualifying(words, norm), phrase)
  }

  /** The windows from `size` words at `start` on: shorter ones later, and from left to right. */
  function BestFrom(words: seq<string>, q: Choice, size: nat, start: nat): string
    decreases size, |words| - start
  {
    if size < PHRASE_MIN_TOKENS then ""
    else if start + size > |words| then BestFrom(words, q, size - 1, 0)
    else if q(size, start) then Join(Window(words, size, start))
    else BestFrom(words, q, size, start + 1)
  }

  function BestPhrase(words: seq<string>, norm: string): string {
    BestFrom(words, Qualifying(words, norm), |words|, 0)
  }

  method PhraseMatch(normDeleted: string, survivor: string, fx: FloatExpand) returns (phrase: string)
    ensures phrase == BestPhrase(Fields(normDeleted), Normalized(survivor, fx))
    ensures IsBestPhrase(Fields(normDeleted), Normalized(survivor, fx), phrase)
  {
    var words := Fields(normDeleted);
    var norm := Normalized(survivor, fx);
    phrase := LongestPhrase(words, norm);
    BestPhraseIsBest(words, norm);
  }

  method TryWindow(words: seq<string>, norm: string, size: nat, start: nat) returns (ok: bool, phrase: string)
    requires PHRASE_MIN_TOKENS <= size && start + size <= |words|
    ensures ok == Qualifying(words, norm)(size, start)
    ensures phrase == Join(Window(words, size, start))
  {
    var window := words[start..start + size];
    var count := CountDistinctive(window);
    phrase := Join(window);
    ok := count >= PHRASE_MIN_TOKENS && Contains(norm, phrase);
    assert ok == Qualifies(words, norm, size, start);
  }

  method LongestPhrase(words: seq<string>, norm: string) returns (phrase: string)
    ensures phrase == BestPhrase(words, norm)
  {
    if |words| < PHRASE_MIN_TOKENS { return ""; }
    ghost var q := Qualifying(words, norm);
    var size: nat := |words|;
    while size >= PHRASE_MIN_TOKENS
      invariant BestPhrase(words, norm) == BestFrom(words, q, size, 0)
      decreases size
    {
      var start: nat := 0;
      while start + size <= |words|
        invariant BestPhrase(words, norm) == BestFrom(words, q, size, start)
        decreases |words| - start
      {
        var ok, candidate := TryWindow(words, norm, size, start);
        if ok { return candidate; }
        start := start + 1;
      }
      size := size - 1;
    }
    return "";
  }

  /** Every chosen window is still to come. */
  ghost predicate AllAhead(q: Choice, size: int, start: int) {
    forall z, s :: q(z, s) ==> z < size || (z == size && start <= s)
  }

  /** Every chosen window is a long enough window. */
  ghost predicate Fits(words: seq<string>, q: Choice) {
    forall z, s :: q(z, s) ==> PHRASE_MIN_TOKENS <= z && 0 <= s && s + z <= |words|
  }

  lemma JoinNonEmpty(words: seq<string>, size: int, start: int)
    requires AllWords(words) && 0 < size && 0 <= start && start + size <= |words|
    ensures Join(Window(words, size, start)) != ""
  {
    assert Window(words, size, start)[0] == words[start];
  }

  /** The first chosen window to come is the best. */
  lemma {:induction false} BestFromIsBest(words: seq<string>, q: Choice, size: nat, start: nat)
    requires AllWords(words) && Fits(words, q) && AllAhead(q, size, start)
    ensures IsBestOf(words, q, BestFrom(words, q, size, start))
    decreases size, |words| - start
  {
    if size < PHRASE_MIN_TOKENS {
    } else if start + size > |words| {
      BestFromIsBest(words, q, size - 1, 0);
    } else if q(size, start) {
      assert IsBestWindow(q, size, start);
      JoinNonEmpty(words, size, start);
    } else {
      BestFromIsBest(words, q, size, start + 1);
    }
  }

  lemma BestPhraseIsBest(words: seq<string>, norm: string)
    requires AllWords(words)
    ensures IsBestPhrase(words, norm, BestPhrase(words, norm))
  {
    QualifyingFits(words, norm);
    BestFromIsBest(words, Qualifying(words, norm), |words|, 0);
  }

  lemma QualifyingFits(words: seq<string>, norm: string)
    ensures Fits(words, Qualifying(words, norm))
  {
    forall z, s | Qualifying(words, norm)(z, s) ensures PHRASE_MIN_TOKENS <= z && 0 <= s && s + z <= |words| {
      assert Qualifies(words, norm, z, s);
    }
  }

  lemma BestOfUnique(words: seq<string>, q: Choice, p: string, r: string)
    requires IsBestOf(words, q, p) && IsBestOf(words, q, r)
    ensures p == r
  {
    if p != "" && r != "" {
      var z, s :| IsBestWindow(q, z, s) && p == Join(Window(words, z, s));
      var y, t :| IsBestWindow(q, y, t) && r == Join(Window(words, y, t));
      assert z == y && s == t;
    }
  }

  /** There is exactly one best phrase, and it is the one found. */
  lemma BestPhraseUnique(words: seq<string>, norm: string, p: string)
    requires AllWords(words)
    ensures IsBestPhrase(words, norm, p) <==> p == BestPhrase(words, norm)
  {
    BestPhraseIsBest(words, norm);
    if IsBestPhrase(words, norm, p) { BestOfUnique(words, Qualifying(words, norm), p, BestPhrase(words, norm)); }
  }

  // ---------------------------------------------------------------- tier 3

  /** Normalization as a function of the text alone. */
  function NormalizedBy(fx: FloatExpand): string -> string {
    var normalized := Normalized; // a function value keeps the passes folded in proofs about overlap
    s => normalized(s, fx)
  }

  function NormalizedAll(tokens: seq<string>, fx: FloatExpand): (out: seq<string>)
    ensures |out| == |tokens| && forall i :: 0 <= i < |tokens| ==> out[i] == NormalizedBy(fx)(tokens[i])
  {
    if tokens == [] then []
    else NormalizedAll(tokens[..|tokens| - 1], fx) + [NormalizedBy(fx)(tokens[|tokens| - 1])]
  }

  /** How many members of `ts` are among `known`, with repetitions. */
  function Hits(ts: seq<string>, known: set<string>): nat {
    if ts == [] then 0
    else Hits(ts[..|ts| - 1], known) + (if ts[|ts| - 1] in known then 1 else 0)
  }

  function OverlapHits(delTokens: seq<string>, survivor: string, fx: FloatExpand): nat {
    Hits(NormalizedAll(delTokens, fx), set t | t in NormalizedAll(TokensOf(survivor), fx))
  }

  /** At least three tokens, seven tenths of which reappear. */
  predicate Overlaps(delTokens: seq<string>, survivor: string, fx: FloatExpand) {
    |delTokens| >= MIN_DISTINCTIVE_TOKENS && 10 * OverlapHits(delTokens, survivor, fx) >= 7 * |delTokens|
  }

  /** The places of the words that are among the known ones. */
  ghost function Known(ts: seq<string>, known: set<string>): set<int> {
    set i | 0 <= i < |ts| && ts[i] in known
  }

  lemma {:induction false} HitsAreCounted(ts: seq<string>, known: set<string>)
    ensures Hits(ts, known) == |Known(ts, known)|
    decreases |ts|
  {
    if ts != [] {
      var n := |ts| - 1;
      HitsAreCounted(ts[..n], known);
      assert Known(ts, known) == Known(ts[..n], known) + if ts[n] in known then {n} else {};
    }
  }

  /** Word `i` of the first text reads, by `g`, as some word of the second. */
  ghost predicate Reappears(ts: seq<string>, us: seq<string>, g: string -> string, i: int) {
    0 <= i < |ts| && exists u :: u in us && g(u) == g(ts[i])
  }

  ghost function Reappearing(ts: seq<string>, us: seq<string>, g: string -> string): set<int> {
    set i | 0 <= i < |ts| && Reappears(ts, us, g, i)
  }

  lemma KnownReappears(ts: seq<string>, us: seq<string>, g: string -> string, own: seq<string>, theirs: seq<string>)
    requires |own| == |ts| && forall i :: 0 <= i < |ts| ==> own[i] == g(ts[i])
    requires |theirs| == |us| && forall j :: 0 <= j < |us| ==> theirs[j] == g(us[j])
    ensures Known(own, set t | t in theirs) == Reappearing(ts, us, g)
  {
    forall i | 0 <= i < |ts| ensures own[i] in theirs <==> Reappears(ts, us, g, i) {
      if own[i] in theirs {
        var j :| 0 <= j < |theirs| && theirs[j] == own[i];
        assert us[j] in us;
      }
      if Reappears(ts, us, g, i) {
        var u :| u in us && g(u) == g(ts[i]);
        var j :| 0 <= j < |us| && us[j] == u;
        assert theirs[j] in theirs;
      }
    }
  }

  /** Every deleted token that reappears is counted once for each place it has. */
  lemma OverlapCounts(delTokens: seq<string>, survivor: string, fx: FloatExpand)
    ensures OverlapHits(delTokens, survivor, fx) == |Reappearing(delTokens, TokensOf(survivor), NormalizedBy(fx))|
  {
    var own, theirs := NormalizedAll(delTokens, fx), NormalizedAll(TokensOf(survivor), fx);
    HitsAreCounted(own, set t | t in theirs);
    KnownReappears(delTokens, TokensOf(survivor), NormalizedBy(fx), own, theirs);
  }

  lemma NormalizedAllSnoc(tokens: seq<string>, i: nat, fx: FloatExpand)
    requires i < |tokens|
    ensures NormalizedAll(tokens[..i + 1], fx) == NormalizedAll(tokens[..i], fx) + [Normalized(tokens[i], fx)]
  {
    assert tokens[..i + 1][..i] == tokens[..i];
  }

  method NormalizeAll(tokens: seq<string>, fx: FloatExpand) returns (out: seq<string>)
    ensures out == NormalizedAll(tokens, fx)
  {
    out := [];
    for i := 0 to |tokens|
      invariant out == NormalizedAll(tokens[..i], fx)
    {
      NormalizedAllSnoc(tokens, i, fx);
      out := out + [Normalized(tokens[i], fx)];
    }
    assert tokens[..|tokens|] == tokens;
  }

  method CountHits(ts: seq<string>, others: seq<string>) returns (hits: nat)
    ensures hits == Hits(ts, set t | t in others)
  {
    var known: set<string> := {};
    for i := 0 to |others|
      invariant known == set t | t in others[..i]
    {
      known := known + {others[i]};
    }
    assert others[..|others|] == others;
    hits := 0;
    for i := 0 to |ts|
      invariant hits == Hits(ts[..i], known)
    {
      assert ts[..i + 1][..i] == ts[..i];
      if ts[i] in known { hits := hits + 1; }
    }
    assert ts[..|ts|] == ts;
  }

  method TokenOverlapMatch(delTokens: seq<string>, survivor: string, fx: FloatExpand) returns (hits: nat, ok: bool)
    ensures ok == Overlaps(delTokens, survivor, fx)
    ensures hits == if |delTokens| < MIN_DISTINCTIVE_TOKENS then 0 else OverlapHits(delTokens, survivor, fx)
  {
    if |delTokens| < MIN_DISTINCTIVE_TOKENS { return 0, false; }
    var tokens := DistinctiveTokens(survivor);
    var others := NormalizeAll(tokens, fx);
    var own := NormalizeAll(delTokens, fx);
    hits := CountHits(own, others);
    ok := 10 * hits >= 7 * |delTokens|;
  }

  // ---------------------------------------------------------------- the tiers, by what they look for

  /** Tier 1: the survivor holds the whole text or a strong token of it. */
  ghost predicate IsCopied(d: string, survivor: string) {
    Contains(survivor, d) || exists i :: StrongHit(TokensOf(d), survivor, i)
  }

  /** The fragment is the text itself if it is there, else the longest such token, the first among equals. */
  ghost predicate IsCopiedAs(d: string, survivor: string, frag: string) {
    if Contains(survivor, d) then frag == d
    else exists i :: IsLongestHit(TokensOf(d), survivor, i) && TokensOf(d)[i] == frag
  }

  lemma ExactFragmentIs(d: string, survivor: string)
    requires d != ""
    ensures ExactFragment(d, survivor) != "" <==> IsCopied(d, survivor)
    ensures IsCopied(d, survivor) ==> IsCopiedAs(d, survivor, ExactFragment(d, survivor))
  {
    BestTokenIsBest(TokensOf(d), survivor);
  }

  /** Tier 2: the normalized survivor holds the normalized text, if there is one, or a strong token of that. */
  ghost predicate IsNear(nd: string, norm: string) {
    (nd != "" && Contains(norm, nd)) || exists i :: StrongHit(TokensOf(nd), norm, i)
  }

  ghost predicate IsNearAs(nd: string, norm: string, frag: string) {
    if nd != "" && Contains(norm, nd) then frag == nd
    else exists i :: IsFirstHit(TokensOf(nd), norm, i) && TokensOf(nd)[i] == frag
  }

  lemma NormalizedFragmentIs(nd: string, norm: string)
    ensures NormalizedFragment(nd, norm) != "" <==> IsNear(nd, norm)
    ensures IsNear(nd, norm) ==> IsNearAs(nd, norm, NormalizedFragment(nd, norm))
  {
    FirstStrongFinds(TokensOf(nd), norm);
  }

  /** Tier 2b: the text holds a window of at least three words, three of them distinctive. */
  ghost predicate IsPhrase(words: seq<string>, norm: string, size: int, start: int) {
    && 3 <= size && 0 <= start && start + size <= |words|
    && |KeepDistinctive(words[start..start + size])| >= 3
    && Contains(norm, Join(words[start..start + size]))
  }

  ghost predicate HasPhrase(words: seq<string>, norm: string) {
    exists size, start :: IsPhrase(words, norm, size, start)
  }

  /** The phrase has the most words of all, and is the leftmost of those. */
  ghost predicate IsLongestPhrase(words: seq<string>, norm: string, phrase: string) {
    exists z, s :: IsPhrase(words, norm, z, s) && phrase == Join(words[s..s + z])
      && forall y, t :: IsPhrase(words, norm, y, t) ==> y < z || (y == z && s <= t)
  }

  lemma PhraseQualifies(words: seq<string>, norm: string, size: int, start: int)
    ensures Qualifying(words, norm)(size, start) <==> IsPhrase(words, norm, size, start)
  {
    assert Qualifying(words, norm)(size, start) == Qualifies(words, norm, size, start);
    if 0 <= size && 0 <= start && start + size <= |words| { CountsDistinctive(words[start..start + size]); }
  }

  lemma BestPhraseIs(words: seq<string>, norm: string)
    requires AllWords(words)
    ensures BestPhrase(words, norm) != "" <==> HasPhrase(words, norm)
    ensures HasPhrase(words, norm) ==> IsLongestPhrase(words, norm, BestPhrase(words, norm))
  {
    var q, phrase := Qualifying(words, norm), BestPhrase(words, norm);
    BestPhraseIsBest(words, norm);
    forall z, s ensures q(z, s) <==> IsPhrase(words, norm, z, s) { PhraseQualifies(words, norm, z, s); }
    if phrase != "" {
      var z, s :| IsBestWindow(q, z, s) && phrase == Join(Window(words, z, s));
      assert IsPhrase(words, norm, z, s);
      assert Window(words, z, s) == words[s..s + z];
    }
  }

  /** Tier 3: of at least three distinctive tokens seven in ten reappear. */
  ghost predicate IsOverlap(d: string, hits: nat) {
    |TokensOf(d)| >= 3 && 10 * hits >= 7 * |TokensOf(d)|
  }
}
