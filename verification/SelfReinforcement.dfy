/** The repetition detector: a bounded, pruned per-key history that answers as the full log would. */
module SelfReinforcement {
  import opened Text

  const REPETITION_FLAG := "self_reinforcement_suspected"
  const HUMAN_AUTHORED := "human_authored"
  const DEFAULT_MAX_HISTORY := 256

  /** One remembered write: its token set and its instant. */
  datatype Write = Write(tokens: set<string>, at: int)

  datatype Config = Config(threshold: real, cooldown: int, maxSelfWrites: int, maxHistory: int)

  // ---------------------------------------------------------------- similarity

  predicate IsAlnum(c: char) {
    'a' <= c <= 'z' || IsDigit(c)
  }

  function AlnumRun(s: string): (n: nat)
    ensures n <= |s|
  {
    if s == "" || !IsAlnum(s[0]) then 0 else 1 + AlnumRun(s[1..])
  }

  /** The maximal runs of `[a-z0-9]`. */
  function AlnumRuns(s: string): set<string>
    decreases |s|
  {
    if s == "" then {}
    else if AlnumRun(s) == 0 then AlnumRuns(s[1..])
    else {s[..AlnumRun(s)]} + AlnumRuns(s[AlnumRun(s)..])
  }

  function TokenSet(content: string): set<string> {
    AlnumRuns(Lower(content))
  }

  predicate IsLetterOrDigit(c: char) {
    'a' <= c <= 'z' || '0' <= c <= '9'
  }

  /** `s[i..j]` is a run of letters and digits that cannot be longer. */
  predicate IsRunAt(s: string, i: int, j: int) {
    && 0 <= i < j <= |s| && (forall k :: i <= k < j ==> IsLetterOrDigit(s[k]))
    && (i > 0 ==> !IsLetterOrDigit(s[i - 1])) && (j < |s| ==> !IsLetterOrDigit(s[j]))
  }

  lemma {:induction false} AlnumRunEnds(s: string)
    ensures forall k :: 0 <= k < AlnumRun(s) ==> IsLetterOrDigit(s[k])
    ensures AlnumRun(s) < |s| ==> !IsLetterOrDigit(s[AlnumRun(s)])
  {
    if s != "" && IsAlnum(s[0]) { AlnumRunEnds(s[1..]); }
  }

  lemma DropSlice(s: string, n: nat, i: nat, j: nat)
    requires n <= i <= j <= |s|
    ensures s[n..][i - n..j - n] == s[i..j]
  {
  }

  /** A run that begins at or after a break is a run of what comes after the break. */
  lemma RunShifts(s: string, n: nat, i: nat, j: nat)
    requires n <= i < j <= |s| && (n == 0 || !IsLetterOrDigit(s[n - 1]) || i > n)
    ensures IsRunAt(s, i, j) <==> IsRunAt(s[n..], i - n, j - n)
  {
    var r := s[n..];
    forall k | i <= k < j ensures r[k - n] == s[k] {}
    if IsRunAt(r, i - n, j - n) {
      forall k | i <= k < j ensures IsLetterOrDigit(s[k]) { assert IsLetterOrDigit(r[k - n]); }
      assert i > n ==> r[i - n - 1] == s[i - 1];
    }
  }

  /** How far one turn of the search goes: over one character that is in no run, or over the first run. */
  function RunsTurn(s: string): (n: nat)
    requires s != ""
    ensures 0 < n <= |s|
  {
    if AlnumRun(s) == 0 then 1 else AlnumRun(s)
  }

  lemma FirstRun(s: string)
    requires s != "" && AlnumRun(s) > 0
    ensures IsRunAt(s, 0, RunsTurn(s)) && s[0..RunsTurn(s)] == s[..RunsTurn(s)]
  {
    AlnumRunEnds(s);
  }

  lemma TokenTurn(s: string, t: string)
    requires t in AlnumRuns(s)
    ensures s != "" && ((AlnumRun(s) > 0 && t == s[..RunsTurn(s)]) || t in AlnumRuns(s[RunsTurn(s)..]))
  {
  }

  /** A run begins at the front or after the first turn, and then not right after the first run. */
  lemma WhereRunsBegin(s: string, i: nat, j: nat)
    requires IsRunAt(s, i, j)
    ensures i < RunsTurn(s) ==> AlnumRun(s) > 0 && i == 0 && j == AlnumRun(s)
    ensures i >= RunsTurn(s) ==> AlnumRun(s) == 0 || i > RunsTurn(s)
    ensures AlnumRun(s) == 0 ==> !IsLetterOrDigit(s[0])
  {
    AlnumRunEnds(s);
    assert IsLetterOrDigit(s[i]);
  }

  lemma {:induction false} RunIsToken(s: string, i: nat, j: nat)
    requires IsRunAt(s, i, j)
    ensures s[i..j] in AlnumRuns(s)
    decreases |s|
  {
    WhereRunsBegin(s, i, j);
    var n := RunsTurn(s);
    if i >= n {
      RunShifts(s, n, i, j);
      RunIsToken(s[n..], i - n, j - n);
      DropSlice(s, n, i, j);
    } else {
      assert s[0..j] == s[..j];
    }
  }

  lemma BreakBefore(s: string, i: nat, j: nat)
    requires s != "" && IsRunAt(s[RunsTurn(s)..], i, j)
    ensures !IsLetterOrDigit(s[RunsTurn(s) - 1]) || i > 0
  {
    var n := RunsTurn(s);
    AlnumRunEnds(s);
    assert IsLetterOrDigit(s[n..][i]);
    if n < |s| { assert s[n..][0] == s[n]; }
  }

  ghost predicate HasRun(s: string, t: string) {
    exists i, j :: IsRunAt(s, i, j) && s[i..j] == t
  }

  lemma RunOfRest(s: string, t: string)
    requires s != "" && HasRun(s[RunsTurn(s)..], t)
    ensures HasRun(s, t)
  {
    var n := RunsTurn(s);
    var i, j :| IsRunAt(s[n..], i, j) && s[n..][i..j] == t;
    var k, l := i + n, j + n;
    BreakBefore(s, i, j);
    assert i == k - n && j == l - n;
    DropSlice(s, n, k, l);
    RunShifts(s, n, k, l);
    assert IsRunAt(s, k, l) && s[k..l] == t;
  }

  lemma {:induction false} TokenIsRun(s: string, t: string)
    requires t in AlnumRuns(s)
    ensures HasRun(s, t)
    decreases |s|
  {
    TokenTurn(s, t);
    if AlnumRun(s) > 0 && t == s[..RunsTurn(s)] {
      FirstRun(s);
    } else {
      TokenIsRun(s[RunsTurn(s)..], t);
      RunOfRest(s, t);
    }
  }

  /** The tokens of a text are the longest runs of letters and digits of its lower-case form: case does not matter. */
  lemma TokenSetIff(content: string, t: string)
    ensures t in TokenSet(content) <==> HasRun(Lower(content), t)
    ensures TokenSet(Lower(content)) == TokenSet(content)
  {
    if t in TokenSet(content) { TokenIsRun(Lower(content), t); }
    if HasRun(Lower(content), t) {
      var i, j :| IsRunAt(Lower(content), i, j) && Lower(content)[i..j] == t;
      RunIsToken(Lower(content), i, j);
    }
    LowerTwice(content);
  }

  /** |A intersect B| / min(|A|, |B|), and 0 if either is empty. */
  function Overlap(a: set<string>, b: set<string>): real {
    if a == {} || b == {} then 0.0
    else |a * b| as real / (if |b| < |a| then |b| else |a|) as real
  }

  lemma TakeCommon(rest: set<string>, large: set<string>, t: string)
    requires t in rest
    ensures |rest * large| == |(rest - {t}) * large| + (if t in large then 1 else 0)
  {
    if t in large {
      assert rest * large == (rest - {t}) * large + {t};
    } else {
      assert rest * large == (rest - {t}) * large;
    }
  }

  method CountCommon(small: set<string>, large: set<string>) returns (inter: nat)
    ensures inter == |small * large|
  {
    inter := 0;
    var rest := small;
    while rest != {}
      invariant inter + |rest * large| == |small * large|
      decreases rest
    {
      var t :| t in rest;
      TakeCommon(rest, large, t);
      if t in large { inter := inter + 1; }
      rest := rest - {t};
    }
  }

  method OverlapCoefficient(a: set<string>, b: set<string>) returns (r: real)
    ensures r == Overlap(a, b)
  {
    if |a| == 0 || |b| == 0 { return 0.0; }
    var small, large := a, b;
    if |large| < |small| { small, large := large, small; }
    var inter := CountCommon(small, large);
    assert small * large == a * b;
    r := inter as real / |small| as real;
  }

  lemma OverlapBounds(a: set<string>, b: set<string>)
    ensures 0.0 <= Overlap(a, b) <= 1.0
    ensures Overlap(a, b) == Overlap(b, a)
    ensures a != {} && b != {} ==> (Overlap(a, b) == 1.0 <==> a <= b || b <= a)
  {
    assert a * b == b * a;
    if a != {} && b != {} {
      var small, large := if |b| < |a| then b else a, if |b| < |a| then a else b;
      assert small * large == a * b;
      CommonIsPart(small, large);
      Ratio(|a * b|, |small|);
      if a <= b || b <= a { Nested(a, b); }
    }
  }

  /** The two share at least this part of the smaller one; empty sets share nothing. */
  predicate NearDuplicate(a: set<string>, b: set<string>, threshold: real) {
    if a == {} || b == {} then threshold <= 0.0
    else |a * b| as real >= threshold * (if |a| < |b| then |a| else |b|) as real
  }

  lemma OverlapReaches(a: set<string>, b: set<string>, threshold: real)
    ensures Overlap(a, b) >= threshold <==> NearDuplicate(a, b, threshold)
  {
    if a != {} && b != {} { AtLeast(|a * b| as real, (if |b| < |a| then |b| else |a|) as real, threshold); }
  }

  lemma AtLeast(x: real, y: real, t: real)
    requires y > 0.0
    ensures x / y >= t <==> x >= t * y
  {
    assert x == x / y * y;
  }

  lemma CommonIsPart(small: set<string>, large: set<string>)
    ensures |small * large| <= |small|
    ensures |small * large| == |small| <==> small <= large
  {
    assert small == small * large + (small - large);
    if small <= large { assert small * large == small; }
  }

  lemma Nested(a: set<string>, b: set<string>)
    requires a <= b || b <= a
    ensures |a * b| == if |b| < |a| then |b| else |a|
  {
    if a <= b { assert a * b == a && |b| == |a| + |b - a| by { assert b == a + (b - a); } }
    if b <= a { assert a * b == b && |a| == |b| + |a - b| by { assert a == b + (a - b); } }
  }

  lemma Ratio(x: nat, y: nat)
    requires x <= y && y > 0
    ensures 0.0 <= x as real / y as real <= 1.0
    ensures x as real / y as real == 1.0 <==> x == y
  {
  }

  // ---------------------------------------------------------------- histories

  predicate InWindow(w: Write, now: int, cooldown: int) {
    now - w.at < cooldown
  }

  predicate InOrder(log: seq<Write>) {
    forall i, j :: 0 <= i <= j < |log| ==> log[i].at <= log[j].at
  }

  /** The records still in the window, in order. */
  function Prune(h: seq<Write>, now: int, cooldown: int): seq<Write> {
    if h == [] then []
    else Prune(h[..|h| - 1], now, cooldown)
         + (if InWindow(h[|h| - 1], now, cooldown) then [h[|h| - 1]] else [])
  }

  /** How many in-window records are near-duplicates of `tokens`. */
  function Similar(h: seq<Write>, tokens: set<string>, now: int, c: Config): nat {
    if h == [] then 0
    else Similar(h[..|h| - 1], tokens, now, c)
         + (if InWindow(h[|h| - 1], now, c.cooldown) && Overlap(tokens, h[|h| - 1].tokens) >= c.threshold then 1 else 0)
  }

  /** The places of the log's last `maxHistory` writes that are in the window and near-duplicates. */
  ghost function Repeats(log: seq<Write>, tokens: set<string>, now: int, c: Config): set<int> {
    set j | 0 <= j < |log| && |log| - j <= c.maxHistory && now - log[j].at < c.cooldown
      && NearDuplicate(tokens, log[j].tokens, c.threshold)
  }

  ghost function RepeatsIn(log: seq<Write>, first: nat, end: nat, tokens: set<string>, now: int, c: Config): set<int> {
    set j | 0 <= j < |log| && first <= j < end && now - log[j].at < c.cooldown
      && NearDuplicate(tokens, log[j].tokens, c.threshold)
  }

  lemma RepeatsSnoc(log: seq<Write>, first: nat, m: nat, tokens: set<string>, now: int, c: Config)
    requires first <= m < |log|
    ensures var repeats := InWindow(log[m], now, c.cooldown) && Overlap(tokens, log[m].tokens) >= c.threshold;
      && RepeatsIn(log, first, m + 1, tokens, now, c)
         == RepeatsIn(log, first, m, tokens, now, c) + (if repeats then {m} else {})
      && m !in RepeatsIn(log, first, m, tokens, now, c)
  {
    OverlapReaches(tokens, log[m].tokens, c.threshold);
  }

  lemma SliceSnoc(log: seq<Write>, first: nat, m: nat)
    requires first <= m < |log|
    ensures var s := log[first..m + 1]; s[..|s| - 1] == log[first..m] && s[|s| - 1] == log[m] && s != []
  {
  }

  lemma SimilarSnoc(h: seq<Write>, tokens: set<string>, now: int, c: Config)
    requires h != []
    ensures var last := h[|h| - 1];
      var repeats := InWindow(last, now, c.cooldown) && Overlap(tokens, last.tokens) >= c.threshold;
      Similar(h, tokens, now, c) == Similar(h[..|h| - 1], tokens, now, c) + (if repeats then 1 else 0)
  {
  }

  lemma NoRepeats(log: seq<Write>, i: nat, tokens: set<string>, now: int, c: Config)
    requires i <= |log|
    ensures Similar(log[i..i], tokens, now, c) == 0 && RepeatsIn(log, i, i, tokens, now, c) == {}
  {
  }

  lemma SimilarCountsOne(log: seq<Write>, first: nat, m: nat, tokens: set<string>, now: int, c: Config)
    requires first <= m < |log|
    requires Similar(log[first..m], tokens, now, c) == |RepeatsIn(log, first, m, tokens, now, c)|
    ensures Similar(log[first..m + 1], tokens, now, c) == |RepeatsIn(log, first, m + 1, tokens, now, c)|
  {
    SliceSnoc(log, first, m);
    SimilarSnoc(log[first..m + 1], tokens, now, c);
    RepeatsSnoc(log, first, m, tokens, now, c);
  }

  lemma {:induction false} SimilarCounts(log: seq<Write>, first: nat, end: nat, tokens: set<string>, now: int,
                                         c: Config)
    requires first <= end <= |log|
    ensures Similar(log[first..end], tokens, now, c) == |RepeatsIn(log, first, end, tokens, now, c)|
    decreases end
  {
    if first == end {
      NoRepeats(log, first, tokens, now, c);
    } else {
      SimilarCounts(log, first, end - 1, tokens, now, c);
      SimilarCountsOne(log, first, end - 1, tokens, now, c);
    }
  }

  /** The answer is a flag exactly if enough of the last writes repeat this one. */
  lemma VerdictCounts(log: seq<Write>, tokens: set<string>, now: int, c: Config)
    requires c.maxHistory > 0
    ensures Verdict(log, tokens, now, c)
         == if |Repeats(log, tokens, now, c)| >= c.maxSelfWrites then ["self_reinforcement_suspected"] else []
  {
    var first := |log| - |LastOf(log, c.maxHistory)|;
    SimilarCounts(log, first, |log|, tokens, now, c);
    assert log[first..|log|] == LastOf(log, c.maxHistory);
    assert Repeats(log, tokens, now, c) == RepeatsIn(log, first, |log|, tokens, now, c);
  }

  /** From record `i` on the log is at most `maxHistory` long and, before its last record, all inside the window that
      ends there. */
  predicate Fits(log: seq<Write>, i: int, c: Config) {
    && 0 <= i <= |log| && |log| - i <= c.maxHistory
    && forall j :: i <= j < |log| - 1 ==> InWindow(log[j], log[|log| - 1].at, c.cooldown)
  }

  /** `h` is the longest suffix of the log that fits. */
  ghost predicate IsHistory(h: seq<Write>, log: seq<Write>, c: Config) {
    exists i :: IsHistoryFrom(h, log, c, i)
  }

  ghost predicate IsHistoryFrom(h: seq<Write>, log: seq<Write>, c: Config, i: int) {
    Fits(log, i, c) && h == log[i..] && forall k :: k < i ==> !Fits(log, k, c)
  }

  /** With a positive cooldown the whole history is inside the window. */
  lemma HistoryInWindow(h: seq<Write>, log: seq<Write>, c: Config)
    requires IsHistory(h, log, c) && c.cooldown > 0
    ensures forall j :: 0 <= j < |h| ==> InWindow(h[j], log[|log| - 1].at, c.cooldown)
  {
  }

  // ---------------------------------------------------------------- pruning an ordered history

  /** Among the first `m` records: those before `k` are out, those from there on are in. */
  predicate Splits(h: seq<Write>, now: int, cooldown: int, k: nat, m: nat) {
    && k <= m <= |h|
    && (forall j :: 0 <= j < k ==> !InWindow(h[j], now, cooldown))
    && (forall j :: k <= j < m ==> InWindow(h[j], now, cooldown))
  }

  lemma {:induction false} WindowStart(h: seq<Write>, now: int, cooldown: int, m: nat) returns (k: nat)
    requires InOrder(h) && m <= |h|
    ensures Splits(h, now, cooldown, k, m)
  {
    if m == 0 {
      k := 0;
    } else {
      k := WindowStart(h, now, cooldown, m - 1);
      if !InWindow(h[m - 1], now, cooldown) { k := m; }
    }
  }

  lemma {:induction false} PruneSplit(h: seq<Write>, now: int, cooldown: int, k: nat, m: nat)
    requires Splits(h, now, cooldown, k, m)
    ensures Prune(h[..m], now, cooldown) == h[k..m]
  {
    if m > 0 {
      assert h[..m][..m - 1] == h[..m - 1];
      if k < m {
        PruneSplit(h, now, cooldown, k, m - 1);
        assert h[k..m] == h[k..m - 1] + [h[m - 1]];
      } else {
        PruneSplit(h, now, cooldown, k - 1, m - 1);
      }
    }
  }

  /** Where the window begins: all before is out, all from there on is in, and pruning leaves just that. */
  lemma PruneIsSuffix(h: seq<Write>, now: int, cooldown: int) returns (k: nat)
    requires InOrder(h)
    ensures Splits(h, now, cooldown, k, |h|)
    ensures Prune(h, now, cooldown) == h[k..]
  {
    k := WindowStart(h, now, cooldown, |h|);
    PruneSplit(h, now, cooldown, k, |h|);
    assert h[..|h|] == h && h[k..|h|] == h[k..];
  }

  lemma {:induction false} SimilarPruned(h: seq<Write>, tokens: set<string>, now: int, c: Config)
    ensures Similar(Prune(h, now, c.cooldown), tokens, now, c) == Similar(h, tokens, now, c)
    decreases |h|
  {
    if h != [] {
      var init := h[..|h| - 1];
      SimilarPruned(init, tokens, now, c);
      var p := Prune(h, now, c.cooldown);
      if InWindow(h[|h| - 1], now, c.cooldown) {
        assert p[..|p| - 1] == Prune(init, now, c.cooldown);
      } else {
        assert p == Prune(init, now, c.cooldown);
      }
    }
  }

  lemma {:induction false} SimilarAppend(a: seq<Write>, b: seq<Write>, tokens: set<string>, now: int, c: Config)
    ensures Similar(a + b, tokens, now, c) == Similar(a, tokens, now, c) + Similar(b, tokens, now, c)
    decreases |b|
  {
    if b == [] {
      NothingAfter(a, b);
    } else {
      assert (a + b)[..|a + b| - 1] == a + b[..|b| - 1];
      SimilarAppend(a, b[..|b| - 1], tokens, now, c);
    }
  }

  lemma {:induction false} SimilarOutside(h: seq<Write>, tokens: set<string>, now: int, c: Config)
    requires forall j :: 0 <= j < |h| ==> !InWindow(h[j], now, c.cooldown)
    ensures Similar(h, tokens, now, c) == 0
    decreases |h|
  {
    if h != [] { SimilarOutside(h[..|h| - 1], tokens, now, c); }
  }

  // ---------------------------------------------------------------- the history stands for the log

  /** What the history has dropped is out of the window now, or beyond the last `maxHistory` records. */
  lemma DroppedIsOutside(h: seq<Write>, log: seq<Write>, c: Config, i: int, now: int)
    requires c.maxHistory > 0 && log != [] && InOrder(log) && log[|log| - 1].at <= now
    requires IsHistoryFrom(h, log, c, i)
    ensures i < |log|
    ensures forall j :: 0 <= j < i && |log| - j <= c.maxHistory ==> !InWindow(log[j], now, c.cooldown)
  {
    assert Fits(log, |log| - 1, c);
    forall j | 0 <= j < i && |log| - j <= c.maxHistory ensures !InWindow(log[j], now, c.cooldown) {
      assert !Fits(log, i - 1, c);
      assert !InWindow(log[i - 1], log[|log| - 1].at, c.cooldown);
    }
  }

  /** Counting over the pruned history is counting over the last `maxHistory` records of the log. */
  lemma CountsAgree(h: seq<Write>, log: seq<Write>, c: Config, tokens: set<string>, now: int)
    requires c.maxHistory > 0 && InOrder(log) && (log != [] ==> log[|log| - 1].at <= now)
    requires IsHistory(h, log, c)
    ensures Similar(Prune(h, now, c.cooldown), tokens, now, c) == Similar(LastOf(log, c.maxHistory), tokens, now, c)
  {
    SimilarPruned(h, tokens, now, c);
    if log != [] {
      var i :| IsHistoryFrom(h, log, c, i);
      DroppedIsOutside(h, log, c, i, now);
      CountsFrom(log, |log| - |LastOf(log, c.maxHistory)|, i, tokens, now, c);
    }
  }

  /** Records out of the window do not count. */
  lemma CountsFrom(log: seq<Write>, a: nat, i: nat, tokens: set<string>, now: int, c: Config)
    requires a <= i <= |log| && forall j :: a <= j < i ==> !InWindow(log[j], now, c.cooldown)
    ensures Similar(log[a..], tokens, now, c) == Similar(log[i..], tokens, now, c)
  {
    assert log[a..] == log[a..i] + log[i..];
    SimilarAppend(log[a..i], log[i..], tokens, now, c);
    SimilarOutside(log[a..i], tokens, now, c);
  }

  /** Pruning, appending and capping keeps the history the longest suffix that fits. */
  lemma SuffixInOrder(log: seq<Write>, i: nat)
    requires InOrder(log) && i <= |log|
    ensures InOrder(log[i..]) && InOrder(log[..i])
  {
  }

  lemma PushKeepsHistory(h: seq<Write>, log: seq<Write>, c: Config, w: Write)
    requires c.maxHistory > 0 && InOrder(log + [w]) && IsHistory(h, log, c)
    ensures IsHistory(LastOf(Prune(h, w.at, c.cooldown) + [w], c.maxHistory), log + [w], c)
  {
    var i :| IsHistoryFrom(h, log, c, i);
    var from := PruneOfSuffix(log, c, w, i);
    forall m | 0 <= m < from && |log| + 1 - m <= c.maxHistory ensures !Fits(log + [w], m, c) {
      EarlierDoesNotFit(log, c, w, i, from, m);
    }
    KeepFrom(log, c, w, from);
  }

  /** Pruning a suffix of an ordered log leaves a suffix of it: what is in the window. */
  lemma PruneOfSuffix(log: seq<Write>, c: Config, w: Write, i: int) returns (from: int)
    requires 0 <= i <= |log| && InOrder(log + [w])
    ensures i <= from <= |log| && Prune(log[i..], w.at, c.cooldown) == log[from..]
    ensures forall j :: i <= j < from ==> !InWindow(log[j], w.at, c.cooldown)
    ensures forall j :: from <= j < |log| ==> InWindow(log[j], w.at, c.cooldown)
  {
    SuffixInOrder(log + [w], |log|);
    assert (log + [w])[..|log|] == log;
    SuffixInOrder(log, i);
    var k := PruneIsSuffix(log[i..], w.at, c.cooldown);
    from := i + k;
    forall j | i <= j < |log| ensures log[j] == log[i..][j - i] {}
  }

  /** Recording and capping what is in the window leave the longest suffix that fits. */
  lemma KeepFrom(log: seq<Write>, c: Config, w: Write, from: int)
    requires c.maxHistory > 0 && 0 <= from <= |log|
    requires forall j :: from <= j < |log| ==> InWindow(log[j], w.at, c.cooldown)
    requires forall m :: 0 <= m < from && |log| + 1 - m <= c.maxHistory ==> !Fits(log + [w], m, c)
    ensures IsHistory(LastOf(log[from..] + [w], c.maxHistory), log + [w], c)
  {
    var log' := log + [w];
    assert log[from..] + [w] == log'[from..];
    LastOfSuffix(log', from, c.maxHistory);
    var start := if |log'| - from > c.maxHistory then |log'| - c.maxHistory else from;
    assert Fits(log', start, c);
    assert IsHistoryFrom(log'[start..], log', c, start);
  }

  lemma LastOfSuffix(s: seq<Write>, m: nat, n: nat)
    requires m <= |s|
    ensures LastOf(s[m..], n) == s[if |s| - m > n then |s| - n else m..]
  {
  }

  lemma EarlierDoesNotFit(log: seq<Write>, c: Config, w: Write, i: int, from: int, m: int)
    requires c.maxHistory > 0 && InOrder(log + [w]) && 0 <= i <= |log| && IsHistoryFrom(log[i..], log, c, i)
    requires i <= from <= |log| && forall j :: i <= j < from ==> !InWindow(log[j], w.at, c.cooldown)
    requires 0 <= m < from && |log| + 1 - m <= c.maxHistory
    ensures !Fits(log + [w], m, c)
  {
    var log' := log + [w];
    if from > i {
      assert log'[from - 1] == log[from - 1];
      assert !InWindow(log'[from - 1], w.at, c.cooldown);
    } else {
      assert !Fits(log, m, c);
      var j :| m <= j < |log| - 1 && !InWindow(log[j], log[|log| - 1].at, c.cooldown);
      assert log'[j] == log[j] && log'[|log| - 1].at <= log'[|log|].at;
      assert !InWindow(log'[j], w.at, c.cooldown);
    }
  }

  // ---------------------------------------------------------------- the detector

  /** Compaction in place: kept records move to the front, in order. */
  method CompactInPlace(a: array<Write>, now: int, cooldown: int) returns (n: nat)
    modifies a
    ensures n <= a.Length && a[..n] == Prune(old(a[..]), now, cooldown)
  {
    n := 0;
    ghost var was := a[..];
    for i := 0 to a.Length
      invariant n <= i
      invariant a[..n] == Prune(was[..i], now, cooldown)
      invariant a[i..] == was[i..]
    {
      var r := a[i];
      assert r == was[i] by { assert a[i..][0] == was[i..][0]; }
      assert was[..i + 1][..i] == was[..i];
      if InWindow(r, now, cooldown) {
        ghost var front := a[..n];
        a[n] := r;
        n := n + 1;
        assert a[..n] == front + [r];
      }
      assert a[i + 1..] == was[i..][1..];
    }
    assert was[..a.Length] == was;
  }

  /** The counting loop over records that are all in the window. */
  method CountSimilar(recent: seq<Write>, tokens: set<string>, now: int, c: Config) returns (similar: nat)
    requires forall j :: 0 <= j < |recent| ==> InWindow(recent[j], now, c.cooldown)
    ensures similar == Similar(recent, tokens, now, c)
  {
    similar := 0;
    for i := 0 to |recent|
      invariant similar == Similar(recent[..i], tokens, now, c)
    {
      assert recent[..i + 1][..i] == recent[..i];
      var o := OverlapCoefficient(tokens, recent[i].tokens);
      if o >= c.threshold { similar := similar + 1; }
    }
    assert recent[..|recent|] == recent;
  }

  class SelfReinforcementDetector {
    const config: Config
    var history: map<string, seq<Write>>
    /** Every scrutinized write ever, by key. */
    ghost var log: map<string, seq<Write>>

    constructor (config: Config)
      ensures Valid() && log == map[]
      ensures this.config
           == config.(maxHistory := if config.maxHistory < 1 then 256 else config.maxHistory)
    {
      this.config := config.(maxHistory := if config.maxHistory < 1 then DEFAULT_MAX_HISTORY else config.maxHistory);
      history, log := map[], map[];
      new;
      EmptyHistory(this.config);
    }

    ghost predicate Valid()
      reads this
    {
      config.maxHistory > 0 && AllHistories(history, log, config)
    }

    method PruneLocked(key: string, now: int) returns (kept: seq<Write>)
      modifies this`history
      ensures kept == Prune(RecordsOf(old(history), key), now, config.cooldown)
      ensures history == old(history) || history == old(history)[key := kept]
    {
      var recs := RecordsOf(history, key);
      if |recs| == 0 { return recs; }
      var a := new Write[|recs|](i requires 0 <= i < |recs| => recs[i]);
      assert a[..] == recs;
      var n := CompactInPlace(a, now, config.cooldown);
      kept := a[..n];
      history := history[key := kept];
    }

    /** Flags iff enough of the key's last `maxHistory` scrutinized writes are in the window and near-duplicate;
        the write itself is recorded afterwards. Human-authored writes are not looked at. */
    method Inspect(content: string, key: string, sourceClass: string, now: int) returns (flags: seq<string>)
      requires Valid() && NotBefore(RecordsOf(log, key), now)
      modifies this
      ensures Valid()
      ensures TrimSpace(sourceClass) == "human_authored" ==> flags == [] && log == old(log) && history == old(history)
      ensures TrimSpace(sourceClass) != "human_authored" ==>
        && log == old(log)[key := RecordsOf(old(log), key) + [Write(TokenSet(content), now)]]
        && flags == Verdict(RecordsOf(old(log), key), TokenSet(content), now, config)
        && flags == if |Repeats(RecordsOf(old(log), key), TokenSet(content), now, config)| >= config.maxSelfWrites
             then ["self_reinforcement_suspected"] else []
    {
      if TrimSpace(sourceClass) == HUMAN_AUTHORED { return []; }
      var w := Write(TokenSet(content), now);
      VerdictCounts(RecordsOf(log, key), w.tokens, now, config);
      var recent, similar := CountRecent(key, w);
      RecordKeepsHistories(old(history), log, config, key, w);
      ghost var kept := LastOf(recent + [w], config.maxHistory);
      UpdateTwice(old(history), key, recent, kept);
      Remember(key, recent, w);
      assert history == old(history)[key := kept];
      assert AllHistories(history, log, config);
      flags := if similar >= config.maxSelfWrites then [REPETITION_FLAG] else [];
    }

    method CountRecent(key: string, w: Write) returns (recent: seq<Write>, similar: nat)
      requires Valid() && NotBefore(RecordsOf(log, key), w.at)
      modifies this`history
      ensures recent == Prune(RecordsOf(old(history), key), w.at, config.cooldown)
      ensures history == old(history) || history == old(history)[key := recent]
      ensures similar == Similar(LastOf(RecordsOf(log, key), config.maxHistory), w.tokens, w.at, config)
      ensures AllHistories(old(history), log, config)
    {
      recent := PruneLocked(key, w.at);
      PruneInWindow(RecordsOf(old(history), key), w.at, config.cooldown);
      similar := CountSimilar(recent, w.tokens, w.at, config);
      CountsAgreeFor(old(history), log, config, key, w.tokens, w.at);
    }

    method Remember(key: string, recent: seq<Write>, w: Write)
      requires config.maxHistory > 0
      modifies this
      ensures history == old(history)[key := LastOf(recent + [w], config.maxHistory)]
      ensures log == old(log)[key := RecordsOf(old(log), key) + [w]]
    {
      var kept := recent + [w];
      if |kept| > config.maxHistory { kept := kept[|kept| - config.maxHistory..]; }
      history := history[key := kept];
      log := log[key := RecordsOf(log, key) + [w]];
    }
  }

  lemma UpdateTwice(m: map<string, seq<Write>>, key: string, a: seq<Write>, b: seq<Write>)
    ensures m[key := a][key := b] == m[key := b]
  {
  }

  function RecordsOf(m: map<string, seq<Write>>, key: string): seq<Write> {
    if key in m then m[key] else []
  }

  predicate NotBefore(log: seq<Write>, now: int) {
    log != [] ==> log[|log| - 1].at <= now
  }

  /** The answer the full log gives. */
  function Verdict(log: seq<Write>, tokens: set<string>, now: int, c: Config): seq<string>
    requires c.maxHistory > 0
  {
    if Similar(LastOf(log, c.maxHistory), tokens, now, c) >= c.maxSelfWrites then [REPETITION_FLAG] else []
  }

  /** Every key's history stands for that key's log. */
  ghost predicate AllHistories(history: map<string, seq<Write>>, log: map<string, seq<Write>>, c: Config) {
    forall k {:trigger IsHistory(RecordsOf(history, k), RecordsOf(log, k), c)} ::
      InOrder(RecordsOf(log, k)) && IsHistory(RecordsOf(history, k), RecordsOf(log, k), c)
  }

  lemma CountsAgreeFor(history: map<string, seq<Write>>, log: map<string, seq<Write>>, c: Config,
                       key: string, tokens: set<string>, now: int)
    requires c.maxHistory > 0 && AllHistories(history, log, c) && NotBefore(RecordsOf(log, key), now)
    ensures Similar(Prune(RecordsOf(history, key), now, c.cooldown), tokens, now, c)
         == Similar(LastOf(RecordsOf(log, key), c.maxHistory), tokens, now, c)
  {
    assert IsHistory(RecordsOf(history, key), RecordsOf(log, key), c);
    CountsAgree(RecordsOf(history, key), RecordsOf(log, key), c, tokens, now);
  }

  /** Pruning, recording and capping under one key keeps every key's history. */
  lemma RecordKeepsHistories(history: map<string, seq<Write>>, log: map<string, seq<Write>>, c: Config,
                             key: string, w: Write)
    requires c.maxHistory > 0 && AllHistories(history, log, c) && NotBefore(RecordsOf(log, key), w.at)
    ensures AllHistories(
      history[key := LastOf(Prune(RecordsOf(history, key), w.at, c.cooldown) + [w], c.maxHistory)],
      log[key := RecordsOf(log, key) + [w]], c)
  {
    assert IsHistory(RecordsOf(history, key), RecordsOf(log, key), c);
    PushKeepsOrder(RecordsOf(log, key), w);
    PushKeepsHistory(RecordsOf(history, key), RecordsOf(log, key), c, w);
    var history' := history[key := LastOf(Prune(RecordsOf(history, key), w.at, c.cooldown) + [w], c.maxHistory)];
    var log' := log[key := RecordsOf(log, key) + [w]];
    forall k ensures InOrder(RecordsOf(log', k)) && IsHistory(RecordsOf(history', k), RecordsOf(log', k), c) {
      assert IsHistory(RecordsOf(history, k), RecordsOf(log, k), c);
      if k != key { assert RecordsOf(log', k) == RecordsOf(log, k) && RecordsOf(history', k) == RecordsOf(history, k); }
    }
  }

  lemma EmptyHistory(c: Config)
    requires c.maxHistory > 0
    ensures AllHistories(map[], map[], c)
  {
    var none: map<string, seq<Write>> := map[];
    forall k ensures InOrder(RecordsOf(none, k)) && IsHistory(RecordsOf(none, k), RecordsOf(none, k), c) {
      assert RecordsOf(none, k) == [] && IsHistoryFrom([], [], c, 0);
    }
  }

  lemma PushKeepsOrder(log: seq<Write>, w: Write)
    requires InOrder(log) && (log != [] ==> log[|log| - 1].at <= w.at)
    ensures InOrder(log + [w])
  {
  }

  lemma {:induction false} PruneInWindow(h: seq<Write>, now: int, cooldown: int)
    ensures forall j :: 0 <= j < |Prune(h, now, cooldown)| ==> InWindow(Prune(h, now, cooldown)[j], now, cooldown)
    decreases |h|
  {
    if h != [] { PruneInWindow(h[..|h| - 1], now, cooldown); }
  }
}
