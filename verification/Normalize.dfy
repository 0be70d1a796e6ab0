/** Residue normalization: lower case, number words, thousands separators, k/m/b magnitudes,
    punctuation and white space, in that order. */
module Normalize {
  import opened Text
  import NW = NumberWords

  // ---------------------------------------------------------------- thousands separators

  /** Leading digits of `s`, at most `limit` of them. */
  function LeadingDigits(s: string, limit: nat): (n: nat)
    ensures n <= |s| && n <= limit
    ensures n > 0 ==> IsDigit(s[0])
  {
    if limit == 0 || s == "" || !IsDigit(s[0]) then 0 else 1 + LeadingDigits(s[1..], limit - 1)
  }

  /** It is a run of digits that cannot be longer. */
  lemma {:induction false} LeadingDigitsMaximal(s: string, limit: nat)
    ensures forall i :: 0 <= i < LeadingDigits(s, limit) ==> IsDigit(s[i])
    ensures LeadingDigits(s, limit) < |s| && LeadingDigits(s, limit) < limit ==> !IsDigit(s[LeadingDigits(s, limit)])
    decreases limit
  {
    if limit > 0 && s != "" && IsDigit(s[0]) {
      LeadingDigitsMaximal(s[1..], limit - 1);
      assert forall i :: 0 < i < |s| ==> s[i] == s[1..][i - 1];
    }
  }

  predicate IsGroup(s: string) {
    |s| >= 4 && s[0] == ',' && IsDigit(s[1]) && IsDigit(s[2]) && IsDigit(s[3])
  }

  /** The length of the longest run of `,ddd` groups at the head of `s`. */
  function GroupsLength(s: string): (n: nat)
    ensures n <= |s|
  {
    if IsGroup(s) then 4 + GroupsLength(s[4..]) else 0
  }

  /** The length of the match of `\d{1,3}(?:,\d{3})+` at the head of `s`, or 0. */
  function CommaMatch(s: string): (n: nat)
    ensures n <= |s|
    ensures n > 0 ==> IsDigit(s[0])
  {
    var d := LeadingDigits(s, 3);
    if d == 0 || GroupsLength(s[d..]) == 0 then 0 else d + GroupsLength(s[d..])
  }

  function DropCommas(s: string): string {
    if s == "" then "" else (if s[0] == ',' then "" else [s[0]]) + DropCommas(s[1..])
  }

  /** How much of `s` one turn of the scan takes, and what it emits for it. */
  function StripLength(s: string): (n: nat)
    requires s != ""
    ensures 0 < n <= |s|
  {
    if CommaMatch(s) > 0 then CommaMatch(s) else 1
  }

  function StripHead(s: string): string
    requires s != ""
  {
    if CommaMatch(s) > 0 then DropCommas(s[..CommaMatch(s)]) else [s[0]]
  }

  function StripCommas(s: string): string
    decreases |s|
  {
    if s == "" then ""
    else if CommaMatch(s) > 0 then DropCommas(s[..CommaMatch(s)]) + StripCommas(s[CommaMatch(s)..])
    else [s[0]] + StripCommas(s[1..])
  }

  // ---------------------------------------------------------------- k/m/b magnitudes

  /** How the program prints a magnitude that is not a whole number below 2^53: it goes through
      floating point, so it is left abstract. */
  type FloatExpand = (string, char) -> string

  predicate IsRegexSpace(c: char) {
    IsSpace(c) && c as int != 11
  }

  predicate IsMagnitude(c: char) {
    c == 'k' || c == 'm' || c == 'b'
  }

  function Factor(c: char): nat {
    if c == 'k' then 1_000 else if c == 'm' then 1_000_000 else 1_000_000_000
  }

  const EXACT_LIMIT := 0x20_0000_0000_0000

  function Expand(number: string, suffix: char, fx: FloatExpand): string {
    if AllDigits(number) && DigitsValue(number) * Factor(suffix) < EXACT_LIMIT
    then Dec(DigitsValue(number) * Factor(suffix))
    else fx(number, suffix)
  }

  function SpaceRun(s: string): (n: nat)
    ensures n <= |s|
    ensures n < |s| ==> !IsRegexSpace(s[n])
  {
    if s == "" || !IsRegexSpace(s[0]) then 0 else 1 + SpaceRun(s[1..])
  }

  /** `s` begins with `[kmb]\b`. */
  predicate SuffixHere(s: string) {
    s != "" && IsMagnitude(s[0]) && (|s| == 1 || !IsWordChar(s[1]))
  }

  /** `s` begins with `\s*[kmb]\b`: a magnitude suffix for a number right before it. */
  predicate SuffixAhead(s: string) {
    SuffixHere(s[SpaceRun(s)..])
  }

  function FractionLength(s: string): (n: nat)
    ensures n <= |s|
  {
    if s != "" && s[0] == '.' && LeadingDigits(s[1..], |s|) > 0 then 1 + LeadingDigits(s[1..], |s|) else 0
  }

  /** The length of `\d+(?:\.\d+)?` at the head of `s`, or 0. */
  function NumberLength(s: string): (n: nat)
    ensures n <= |s|
  {
    var d := LeadingDigits(s, |s|);
    if d == 0 then 0 else d + FractionLength(s[d..])
  }

  function Dollar(s: string): nat {
    if s != "" && s[0] == '$' then 1 else 0
  }

  /** The length of the match of `(\d+(?:\.\d+)?)\s*([kmb])\b` at the head of `s`, or 0. */
  function BareMatch(s: string): (n: nat)
    ensures n <= |s|
    ensures n > 0 ==> 0 < NumberLength(s) < n
  {
    var number := NumberLength(s);
    if number > 0 && SuffixAhead(s[number..]) then number + SpaceRun(s[number..]) + 1 else 0
  }

  /** The same with an optional `$` before it. */
  function MagnitudeMatch(s: string): (n: nat)
    ensures n <= |s|
    ensures n > 0 ==> n == Dollar(s) + BareMatch(s[Dollar(s)..]) && BareMatch(s[Dollar(s)..]) > 0
  {
    var n := BareMatch(s[Dollar(s)..]);
    if n > 0 then Dollar(s) + n else 0
  }

  /** What a bare match is rewritten to. */
  function Rewritten(s: string, fx: FloatExpand): string
    requires BareMatch(s) > 0
  {
    Expand(s[..NumberLength(s)], s[BareMatch(s) - 1], fx)
  }

  /** How much of `s` one turn of the scan takes, and what it emits for it. */
  function ExpandLength(s: string): (n: nat)
    requires s != ""
    ensures 0 < n <= |s|
  {
    if MagnitudeMatch(s) > 0 then MagnitudeMatch(s) else 1
  }

  function ExpandHead(s: string, fx: FloatExpand): string
    requires s != ""
  {
    if MagnitudeMatch(s) > 0 then s[..Dollar(s)] + Rewritten(s[Dollar(s)..], fx) else [s[0]]
  }

  function ExpandMagnitudes(s: string, fx: FloatExpand): string
    decreases |s|
  {
    if s == "" then "" else ExpandHead(s, fx) + ExpandMagnitudes(s[ExpandLength(s)..], fx)
  }

  // ---------------------------------------------------------------- folding runs

  datatype Folding = Punctuation | WhiteSpace

  predicate Kept(f: Folding, c: char) {
    match f
    case Punctuation => IsWordChar(c) || c == '$' || c == '%' || c == '.'
    case WhiteSpace => !IsRegexSpace(c)
  }

  function DroppedRun(f: Folding, s: string): (n: nat)
    ensures n <= |s|
    ensures forall i :: 0 <= i < n ==> !Kept(f, s[i])
    ensures n < |s| ==> Kept(f, s[n])
  {
    if s == "" || Kept(f, s[0]) then 0 else 1 + DroppedRun(f, s[1..])
  }

  /** Every maximal run of characters that are not kept becomes one space. */
  function FoldRuns(f: Folding, s: string): string
    decreases |s|
  {
    if s == "" then ""
    else if Kept(f, s[0]) then [s[0]] + FoldRuns(f, s[1..])
    else " " + FoldRuns(f, s[DroppedRun(f, s)..])
  }

  function Normalized(s: string, fx: FloatExpand): string {
    var folded := NW.FoldText(Lower(s));
    var expanded := ExpandMagnitudes(StripCommas(folded), fx);
    TrimSpace(FoldRuns(WhiteSpace, FoldRuns(Punctuation, expanded)))
  }

  // ---------------------------------------------------------------- marks beside a number

  /** Punctuation that may stand beside a number: no part of a word, no dollar sign, no white space. */
  predicate IsMark(c: char) {
    !IsWordChar(c) && !IsSpace(c) && c != '$'
  }

  predicate AllMarks(s: string) {
    forall i :: 0 <= i < |s| ==> IsMark(s[i])
  }

  /** Only marks, if anything, come before white space or the end. */
  predicate Breaks(b: string) {
    b == "" || IsSpace(b[0]) || (IsMark(b[0]) && Breaks(b[1..]))
  }

  /** Only marks, if anything, come after white space or the beginning. */
  predicate Opens(a: string) {
    a == "" || IsSpace(a[|a| - 1]) || (IsMark(a[|a| - 1]) && Opens(a[..|a| - 1]))
  }

  /** The same, and there is white space. */
  predicate Spaced(a: string) {
    a != "" && (IsSpace(a[|a| - 1]) || (IsMark(a[|a| - 1]) && Spaced(a[..|a| - 1])))
  }

  lemma TailOfInit(a: string, n: nat)
    requires n < |a|
    ensures a[n..][..|a| - 1 - n] == a[..|a| - 1][n..] && a[n..][|a| - 1 - n] == a[|a| - 1]
  {
  }

  lemma {:induction false} OpensTail(a: string, n: nat)
    requires Opens(a) && n <= |a|
    ensures Opens(a[n..])
    decreases |a|
  {
    if n < |a| {
      TailOfInit(a, n);
      if !IsSpace(a[|a| - 1]) { OpensTail(a[..|a| - 1], n); }
    }
  }

  /** After a digit there must be white space. */
  lemma {:induction false} SpacedAfterDigit(a: string, n: nat)
    requires Opens(a) && 0 < n <= |a| && IsDigit(a[n - 1])
    ensures Spaced(a[n..])
    decreases |a|
  {
    if n < |a| {
      TailOfInit(a, n);
      if !IsSpace(a[|a| - 1]) { SpacedAfterDigit(a[..|a| - 1], n); }
    }
  }

  lemma {:induction false} SpacedTail(a: string, n: nat)
    requires Spaced(a) && n <= |a| && forall i :: 0 <= i < n ==> !IsSpace(a[i])
    ensures Spaced(a[n..])
    decreases |a|
  {
    if n < |a| {
      TailOfInit(a, n);
      if !IsSpace(a[|a| - 1]) { SpacedTail(a[..|a| - 1], n); }
    } else if !IsSpace(a[|a| - 1]) {
      SpacedTail(a[..|a| - 1], n - 1);
    }
  }

  lemma {:induction false} SpacedOpens(a: string)
    requires Spaced(a)
    ensures Opens(a)
    decreases |a|
  {
    if !IsSpace(a[|a| - 1]) { SpacedOpens(a[..|a| - 1]); }
  }

  lemma {:induction false} SpacedSpace(a: string) returns (i: nat)
    requires Spaced(a)
    ensures i < |a| && IsSpace(a[i])
    decreases |a|
  {
    if IsSpace(a[|a| - 1]) { i := |a| - 1; } else { i := SpacedSpace(a[..|a| - 1]); }
  }

  // ---------------------------------------------------------------- seams of the comma pass

  lemma {:induction false} LeadingDigitsSeam(a: string, b: string, limit: nat)
    requires a != "" && (Opens(a) || Breaks(b))
    ensures LeadingDigits(a + b, limit) == LeadingDigits(a, limit)
    decreases |a|
  {
    if limit > 0 && IsDigit(a[0]) {
      DropConcat(a, b, 1);
      if |a| > 1 {
        if Opens(a) { OpensTail(a, 1); }
        LeadingDigitsSeam(a[1..], b, limit - 1);
      } else {
        NothingBefore(a[1..], b);
      }
    }
  }

  /** No group lies across the seam. */
  lemma NoGroupAcross(a: string, b: string)
    requires |a| < 4 && (Spaced(a) || Breaks(b))
    ensures !IsGroup(a + b)
  {
    var s := a + b;
    if Spaced(a) {
      var i := SpacedSpace(a);
      assert s[i] == a[i];
    } else if |s| >= 4 {
      assert s[|a|] == b[0];
      if a == "" && !IsSpace(b[0]) { assert s[1] == b[1..][0]; }
    }
  }

  lemma {:induction false} GroupsLengthSeam(a: string, b: string)
    requires Spaced(a) || Breaks(b)
    ensures GroupsLength(a + b) == GroupsLength(a)
    decreases |a|
  {
    if |a| < 4 {
      NoGroupAcross(a, b);
    } else if IsGroup(a) {
      DropConcat(a, b, 4);
      if Spaced(a) { SpacedTail(a, 4); }
      GroupsLengthSeam(a[4..], b);
    }
  }

  lemma CommaMatchSeam(a: string, b: string)
    requires a != "" && (Opens(a) || Breaks(b))
    ensures CommaMatch(a + b) == CommaMatch(a)
  {
    LeadingDigitsSeam(a, b, 3);
    var d := LeadingDigits(a, 3);
    if d > 0 {
      LeadingDigitsMaximal(a, 3);
      DropConcat(a, b, d);
      if Opens(a) { SpacedAfterDigit(a, d); }
      GroupsLengthSeam(a[d..], b);
    }
  }

  lemma {:induction false} StripCommasSeam(a: string, b: string)
    requires Opens(a) || Breaks(b)
    ensures StripCommas(a + b) == StripCommas(a) + StripCommas(b)
    decreases |a|
  {
    if a == "" {
      NothingBefore(a, b);
      NothingBefore(StripCommas(a), StripCommas(b));
    } else {
      if Opens(a) { OpensTail(a, StripLength(a)); }
      StripCommasSeam(a[StripLength(a)..], b);
      StripCommasSeamTurn(a, b);
      Regroup(StripCommas(a + b), StripCommas(a), StripHead(a), StripCommas(a[StripLength(a)..]), StripCommas(b));
    }
  }

  /** The first turn over a seam is the first turn before it. */
  lemma StripCommasSeamTurn(a: string, b: string)
    requires a != "" && (Opens(a) || Breaks(b))
    ensures StripCommas(a + b) == StripHead(a) + StripCommas(a[StripLength(a)..] + b)
  {
    CommaMatchSeam(a, b);
    DropConcat(a, b, StripLength(a));
  }

  lemma {:induction false} StripCommasHead(s: string)
    ensures (StripCommas(s) == "") <==> (s == "")
    ensures s != "" ==> StripCommas(s)[0] == s[0]
  {
  }

  lemma StripCommasKeepsSuffix(s: string)
    ensures SuffixHere(StripCommas(s)) == SuffixHere(s)
  {
    StripCommasHead(s);
    if s != "" && IsMagnitude(s[0]) { StripCommasHead(s[1..]); }
  }

  lemma {:induction false} StripCommasIdentity(s: string)
    requires ',' !in s
    ensures StripCommas(s) == s
    decreases |s|
  {
    if s != "" {
      NoCommaNoMatch(s);
      StripCommasIdentity(s[1..]);
      HeadAndTail(s);
    }
  }

  lemma NoCommaNoMatch(s: string)
    requires s != "" && ',' !in s
    ensures StripHead(s) == [s[0]] && StripLength(s) == 1
  {
    var d := LeadingDigits(s, 3);
    if d < |s| { assert s[d..][0] == s[d]; }
  }

  // ---------------------------------------------------------------- seams of the magnitude pass

  lemma {:induction false} SpaceRunSeam(a: string, b: string)
    requires SpaceRun(a) < |a|
    ensures SpaceRun(a + b) == SpaceRun(a)
    decreases |a|
  {
    if a != "" && IsRegexSpace(a[0]) {
      assert (a + b)[1..] == a[1..] + b;
      SpaceRunSeam(a[1..], b);
    }
  }

  lemma {:induction false} SpaceRunAll(a: string, b: string)
    requires SpaceRun(a) == |a|
    ensures SpaceRun(a + b) == |a| + SpaceRun(b)
    decreases |a|
  {
    if a == "" {
      NothingBefore(a, b);
    } else {
      assert (a + b)[1..] == a[1..] + b;
      SpaceRunAll(a[1..], b);
    }
  }

  /** What may follow a text without completing a magnitude begun inside it. */
  predicate NoSuffixFor(a: string, b: string) {
    (Breaks(b) && !SuffixAhead(b)) || (Opens(a) && (b == "" || IsDigit(b[0]) || b[0] == '$'))
  }

  lemma SuffixAheadSeam(a: string, b: string)
    requires (a != "" && NoSuffixFor(a, b)) || (Breaks(b) && !SuffixAhead(b))
    ensures SuffixAhead(a + b) == SuffixAhead(a)
  {
    var r := SpaceRun(a);
    if r < |a| {
      SpaceRunSeam(a, b);
      assert (a + b)[r] == a[r];
      assert r + 1 < |a| ==> (a + b)[r + 1] == a[r + 1];
      assert r + 1 == |a| && b != "" ==> (a + b)[r + 1] == b[0];
    } else {
      SpaceRunAll(a, b);
      assert (a + b)[r + SpaceRun(b)..] == b[SpaceRun(b)..];
    }
  }

  lemma FractionSeam(a: string, b: string)
    requires Spaced(a) || Breaks(b)
    ensures FractionLength(a + b) == FractionLength(a)
  {
    if a == "" {
      NothingBefore(a, b);
      if b != "" && b[0] == '.' { assert b[1..] == "" || !IsDigit(b[1..][0]); }
    } else if a[0] == '.' {
      DropConcat(a, b, 1);
      if |a| > 1 {
        if Spaced(a) {
          SpacedOpens(a);
          OpensTail(a, 1);
        }
        LeadingDigitsSeam(a[1..], b, |a|);
        LeadingDigitsSeam(a[1..], b, |a + b|);
        LeadingDigitsEnough(a[1..], |a|, |a + b|);
      } else {
        NothingBefore(a[1..], b);
      }
    }
  }

  lemma {:induction false} LeadingDigitsEnough(s: string, m: nat, n: nat)
    requires |s| <= m && |s| <= n
    ensures LeadingDigits(s, m) == LeadingDigits(s, n)
    decreases |s|
  {
    if s != "" && IsDigit(s[0]) { LeadingDigitsEnough(s[1..], m - 1, n - 1); }
  }

  lemma NoNumberHere(b: string)
    requires b == "" || !IsDigit(b[0])
    ensures NumberLength(b) == 0
  {
  }

  lemma NumberLengthSeam(a: string, b: string)
    requires (a != "" && Opens(a)) || Breaks(b)
    ensures NumberLength(a + b) == NumberLength(a)
  {
    if a != "" {
      LeadingDigitsSeam(a, b, |a + b|);
      LeadingDigitsEnough(a, |a|, |a + b|);
      var d := LeadingDigits(a, |a|);
      if d > 0 {
        LeadingDigitsMaximal(a, |a|);
        DropConcat(a, b, d);
        if Opens(a) { SpacedAfterDigit(a, d); }
        FractionSeam(a[d..], b);
      }
    } else {
      NothingBefore(a, b);
      NoNumberHere(b);
    }
  }

  /** A number never reaches over the white space in the text after it. */
  lemma NumberEndsBeforeSpace(a: string)
    requires a != "" && Opens(a)
    ensures NumberLength(a) < |a|
  {
    var d := LeadingDigits(a, |a|);
    LeadingDigitsMaximal(a, |a|);
    if d > 0 {
      SpacedAfterDigit(a, d);
      FractionEndsBeforeSpace(a[d..]);
    }
  }

  lemma FractionEndsBeforeSpace(a: string)
    requires Spaced(a)
    ensures FractionLength(a) < |a|
  {
    var i := SpacedSpace(a);
    if FractionLength(a) > 0 {
      LeadingDigitsMaximal(a[1..], |a|);
      assert a[i] == a[1..][i - 1];
    }
  }

  lemma SuffixSeam(a: string, b: string)
    requires a != "" && NoSuffixFor(a, b)
    ensures SuffixAhead(a + b) == SuffixAhead(a)
    ensures SuffixAhead(a) ==> SpaceRun(a + b) == SpaceRun(a) < |a|
  {
    SuffixAheadSeam(a, b);
    if SuffixAhead(a) { SpaceRunSeam(a, b); }
  }

  lemma NumberSeam(a: string, b: string)
    requires a != "" && NoSuffixFor(a, b)
    ensures NumberLength(a + b) == NumberLength(a)
    ensures NumberLength(a) > 0 && a[NumberLength(a)..] == "" ==> Breaks(b)
  {
    NumberLengthSeam(a, b);
    if !Breaks(b) { NumberEndsBeforeSpace(a); }
  }

  lemma AfterNumberSeam(a: string, b: string, n: nat)
    requires a != "" && NoSuffixFor(a, b) && n <= |a| && (a[n..] == "" ==> Breaks(b))
    ensures SuffixAhead(a[n..] + b) == SuffixAhead(a[n..])
    ensures SuffixAhead(a[n..]) ==> SpaceRun(a[n..] + b) == SpaceRun(a[n..]) < |a[n..]|
  {
    if a[n..] == "" {
      assert a[n..] + b == b && !SuffixAhead(a[n..]) && !SuffixAhead(b);
    } else {
      if Opens(a) { OpensTail(a, n); }
      SuffixSeam(a[n..], b);
    }
  }

  lemma BareMatchSeam(a: string, b: string, fx: FloatExpand)
    requires a != "" && NoSuffixFor(a, b)
    ensures BareMatch(a + b) == BareMatch(a)
    ensures BareMatch(a) > 0 ==> Rewritten(a + b, fx) == Rewritten(a, fx)
  {
    var n := NumberLength(a);
    NumberSeam(a, b);
    DropConcat(a, b, n);
    if n > 0 { AfterNumberSeam(a, b, n); }
    if BareMatch(a) > 0 { RewrittenSeam(a, b, fx); }
  }

  lemma RewrittenSeam(a: string, b: string, fx: FloatExpand)
    requires BareMatch(a + b) == BareMatch(a) > 0 && NumberLength(a + b) == NumberLength(a)
    ensures Rewritten(a + b, fx) == Rewritten(a, fx)
  {
    DropConcat(a, b, NumberLength(a));
  }

  lemma MagnitudeMatchSeam(a: string, b: string, fx: FloatExpand)
    requires a != "" && NoSuffixFor(a, b)
    ensures Dollar(a + b) == Dollar(a) && MagnitudeMatch(a + b) == MagnitudeMatch(a)
    ensures MagnitudeMatch(a) > 0 ==> Rewritten((a + b)[Dollar(a)..], fx) == Rewritten(a[Dollar(a)..], fx)
  {
    var d := Dollar(a);
    DropConcat(a, b, d);
    if d < |a| {
      NoSuffixForTail(a, b, d);
      BareMatchSeam(a[d..], b, fx);
    } else {
      NothingBefore(a[d..], b);
      NoNumberHere(b);
      NoNumberHere(a[d..]);
    }
  }

  lemma ExpandHeadSeam(a: string, b: string, fx: FloatExpand)
    requires a != "" && NoSuffixFor(a, b)
    ensures ExpandLength(a + b) == ExpandLength(a)
    ensures ExpandHead(a + b, fx) == ExpandHead(a, fx)
  {
    MagnitudeMatchSeam(a, b, fx);
    DropConcat(a, b, Dollar(a));
  }

  lemma ExpandTurn(s: string, fx: FloatExpand)
    requires s != ""
    ensures ExpandMagnitudes(s, fx) == ExpandHead(s, fx) + ExpandMagnitudes(s[ExpandLength(s)..], fx)
  {
  }

  lemma {:induction false} ExpandSeam(a: string, b: string, fx: FloatExpand)
    requires a == "" || NoSuffixFor(a, b)
    ensures ExpandMagnitudes(a + b, fx) == ExpandMagnitudes(a, fx) + ExpandMagnitudes(b, fx)
    decreases |a|
  {
    if a == "" {
      NothingBefore(a, b);
      NothingBefore(ExpandMagnitudes(a, fx), ExpandMagnitudes(b, fx));
    } else {
      var n := ExpandLength(a);
      NoSuffixForTail(a, b, n);
      ExpandSeam(a[n..], b, fx);
      ExpandTurn(a, fx);
      ExpandSeamTurn(a, b, fx);
      Regroup(ExpandMagnitudes(a + b, fx), ExpandMagnitudes(a, fx), ExpandHead(a, fx),
              ExpandMagnitudes(a[n..], fx), ExpandMagnitudes(b, fx));
    }
  }

  lemma NoSuffixForTail(a: string, b: string, n: nat)
    requires a != "" && NoSuffixFor(a, b) && n <= |a|
    ensures a[n..] == "" || NoSuffixFor(a[n..], b)
  {
    if Opens(a) { OpensTail(a, n); }
  }

  /** The first turn over a seam is the first turn before it. */
  lemma ExpandSeamTurn(a: string, b: string, fx: FloatExpand)
    requires a != "" && NoSuffixFor(a, b)
    ensures ExpandMagnitudes(a + b, fx) == ExpandHead(a, fx) + ExpandMagnitudes(a[ExpandLength(a)..] + b, fx)
  {
    ExpandHeadSeam(a, b, fx);
    DropConcat(a, b, ExpandLength(a));
    ExpandTurn(a + b, fx);
  }

  // ---------------------------------------------------------------- seams of the folding passes

  predicate AllKept(f: Folding, s: string) {
    forall i :: 0 <= i < |s| ==> Kept(f, s[i])
  }

  lemma {:induction false} DroppedRunSeam(f: Folding, a: string, b: string)
    requires b == "" || Kept(f, b[0])
    ensures DroppedRun(f, a + b) == DroppedRun(f, a)
    decreases |a|
  {
    if a == "" {
      NothingBefore(a, b);
    } else if !Kept(f, a[0]) {
      DropConcat(a, b, 1);
      DroppedRunSeam(f, a[1..], b);
    }
  }

  /** How much of `s` one turn of the fold takes, and what it leaves of it. */
  function FoldLength(f: Folding, s: string): (n: nat)
    requires s != ""
    ensures 0 < n <= |s|
  {
    if Kept(f, s[0]) then 1 else DroppedRun(f, s)
  }

  lemma FoldTurn(f: Folding, s: string)
    requires s != ""
    ensures FoldRuns(f, s) == [if Kept(f, s[0]) then s[0] else ' '] + FoldRuns(f, s[FoldLength(f, s)..])
  {
  }

  lemma {:induction false} FoldRunsBefore(f: Folding, a: string, b: string)
    requires b == "" || Kept(f, b[0])
    ensures FoldRuns(f, a + b) == FoldRuns(f, a) + FoldRuns(f, b)
    decreases |a|
  {
    if a == "" {
      NothingBefore(a, b);
    } else {
      var n := FoldLength(f, a);
      DroppedRunSeam(f, a, b);
      DropConcat(a, b, n);
      FoldTurn(f, a);
      FoldTurn(f, a + b);
      FoldRunsBefore(f, a[n..], b);
      Regroup(FoldRuns(f, a + b), FoldRuns(f, a), [if Kept(f, a[0]) then a[0] else ' '],
              FoldRuns(f, a[n..]), FoldRuns(f, b));
    }
  }

  lemma {:induction false} FoldRunsAfter(f: Folding, d: string, b: string)
    requires AllKept(f, d)
    ensures FoldRuns(f, d + b) == d + FoldRuns(f, b)
    decreases |d|
  {
    if d == "" {
      NothingBefore(d, b);
    } else {
      DropConcat(d, b, 1);
      FoldRunsAfter(f, d[1..], b);
      assert d == [d[0]] + d[1..];
    }
  }

  /** Kept text stands where it stood, and each side folds on its own. */
  lemma FoldRunsAround(f: Folding, a: string, d: string, b: string)
    requires d != "" && AllKept(f, d)
    ensures FoldRuns(f, a + d + b) == FoldRuns(f, a) + d + FoldRuns(f, b)
  {
    ConcatAssoc(a, d, b);
    FoldRunsBefore(f, a, d + b);
    FoldRunsAfter(f, d, b);
    ConcatAssoc(FoldRuns(f, a), d, FoldRuns(f, b));
  }

  lemma {:induction false} FoldRunsEndsClear(f: Folding, a: string)
    requires EndsClear(a) || !Kept(f, a[|a| - 1])
    ensures EndsClear(FoldRuns(f, a))
    decreases |a|
  {
    if a != "" {
      var n := if Kept(f, a[0]) then 1 else DroppedRun(f, a);
      FoldRunsEndsClear(f, a[n..]);
    }
  }

  lemma FoldRunsStartsClear(f: Folding, b: string)
    requires StartsClear(b) || !Kept(f, b[0])
    ensures StartsClear(FoldRuns(f, b))
  {
  }

  // ---------------------------------------------------------------- marks pass

  /** Neither digit pass touches a mark. */
  lemma MarkPasses(s: string, fx: FloatExpand)
    requires s != "" && IsMark(s[0])
    ensures StripCommas(s) == [s[0]] + StripCommas(s[1..])
    ensures ExpandMagnitudes(s, fx) == [s[0]] + ExpandMagnitudes(s[1..], fx)
  {
    NoNumberHere(s);
    DropNone(s, s);
    ExpandTurn(s, fx);
  }

  lemma {:induction false} MarksPass(k: string, y: string, fx: FloatExpand)
    requires AllMarks(k)
    ensures StripCommas(k + y) == k + StripCommas(y)
    ensures ExpandMagnitudes(k + y, fx) == k + ExpandMagnitudes(y, fx)
    decreases |k|
  {
    if k == "" {
      NothingBefore(k, y);
      NothingBefore(k, StripCommas(y));
      NothingBefore(k, ExpandMagnitudes(y, fx));
    } else {
      MarkPasses(k + y, fx);
      DropConcat(k, y, 1);
      MarksPass(k[1..], y, fx);
      Regroup(StripCommas(k + y), k, [k[0]], k[1..], StripCommas(y));
      Regroup(ExpandMagnitudes(k + y, fx), k, [k[0]], k[1..], ExpandMagnitudes(y, fx));
    }
  }

  lemma {:induction false} OpensAppend(a: string, k: string)
    requires Opens(a) && AllMarks(k)
    ensures Opens(a + k)
    decreases |k|
  {
    if k == "" {
      NothingAfter(a, k);
    } else {
      var n := |k| - 1;
      assert (a + k)[..|a + k| - 1] == a + k[..n] && (a + k)[|a + k| - 1] == k[n];
      OpensAppend(a, k[..n]);
    }
  }

  lemma {:induction false} BreaksAppend(k: string, b: string)
    requires AllMarks(k) && Breaks(b)
    ensures Breaks(k + b)
    decreases |k|
  {
    if k == "" {
      NothingBefore(k, b);
    } else {
      DropConcat(k, b, 1);
      BreaksAppend(k[1..], b);
    }
  }

  lemma {:induction false} OpensSplit(a: string) returns (x: string, k: string)
    requires Opens(a)
    ensures a == x + k && EndsClear(x) && AllMarks(k)
    decreases |a|
  {
    if a == "" || IsSpace(a[|a| - 1]) {
      x, k := a, "";
    } else {
      x, k := OpensSplit(a[..|a| - 1]);
      k := k + [a[|a| - 1]];
    }
  }

  lemma {:induction false} BreaksSplit(b: string) returns (k: string, y: string)
    requires Breaks(b)
    ensures b == k + y && StartsClear(y) && AllMarks(k)
    decreases |b|
  {
    if b == "" || IsSpace(b[0]) {
      k, y := "", b;
    } else {
      k, y := BreaksSplit(b[1..]);
      k := [b[0]] + k;
    }
  }

  /** The marks that the punctuation pass keeps, between what it makes a space of and the number. */
  lemma {:induction false} OpensKept(a: string) returns (x: string, k: string)
    requires Opens(a)
    ensures a == x + k && AllMarks(k) && AllKept(Punctuation, k)
    ensures x == "" || !Kept(Punctuation, x[|x| - 1])
    decreases |a|
  {
    if a == "" || !Kept(Punctuation, a[|a| - 1]) {
      x, k := a, "";
    } else {
      x, k := OpensKept(a[..|a| - 1]);
      k := k + [a[|a| - 1]];
    }
  }

  lemma {:induction false} BreaksKept(b: string) returns (k: string, y: string)
    requires Breaks(b)
    ensures b == k + y && AllMarks(k) && AllKept(Punctuation, k)
    ensures y == "" || !Kept(Punctuation, y[0])
    decreases |b|
  {
    if b == "" || !Kept(Punctuation, b[0]) {
      k, y := "", b;
    } else {
      k, y := BreaksKept(b[1..]);
      k := [b[0]] + k;
    }
  }

  // ---------------------------------------------------------------- the spellings of a number

  /** `n` with thousands separators. */
  function Grouped(n: nat): string {
    if n < 1000 then Dec(n) else Grouped(n / 1000) + "," + Pad3(n % 1000)
  }

  predicate AllGroups(s: string) {
    s == "" || (IsGroup(s) && AllGroups(s[4..]))
  }

  lemma {:induction false} AllGroupsLength(s: string)
    requires AllGroups(s)
    ensures GroupsLength(s) == |s|
    decreases |s|
  {
    if s != "" { AllGroupsLength(s[4..]); }
  }

  lemma {:induction false} AllGroupsAppend(s: string, g: string)
    requires AllGroups(s) && IsGroup(g) && |g| == 4
    ensures AllGroups(s + g)
    decreases |s|
  {
    if s == "" {
      assert s + g == g && g[4..] == "";
    } else {
      DropConcat(s, g, 4);
      AllGroupsAppend(s[4..], g);
    }
  }

  lemma {:induction false} DropCommasAppend(a: string, b: string)
    ensures DropCommas(a + b) == DropCommas(a) + DropCommas(b)
    decreases |a|
  {
    if a == "" {
      NothingBefore(a, b);
    } else {
      DropConcat(a, b, 1);
      DropCommasAppend(a[1..], b);
    }
  }

  lemma {:induction false} DropCommasDigits(s: string)
    requires AllDigits(s)
    ensures DropCommas(s) == s
    decreases |s|
  {
    if s != "" {
      DropCommasDigits(s[1..]);
      assert s == [s[0]] + s[1..];
    }
  }

  lemma ShortDec(n: nat)
    requires n < 1000
    ensures 1 <= |Dec(n)| <= 3
  {
    if n >= 10 {
      assert Dec(n) == Dec(n / 10) + [DigitChar(n % 10)];
      if n >= 100 { assert Dec(n / 10) == Dec(n / 10 / 10) + [DigitChar(n / 10 % 10)]; }
    }
  }

  /** A grouped number is one to three digits followed by groups, and is its digits without commas. */
  lemma {:induction false} GroupedShape(n: nat) returns (h: string, t: string)
    ensures Grouped(n) == h + t && 1 <= |h| <= 3 && AllDigits(h) && AllGroups(t)
    ensures n >= 1000 ==> t != ""
    ensures DropCommas(Grouped(n)) == Dec(n)
    decreases n
  {
    if n < 1000 {
      ShortDec(n);
      DropCommasDigits(Dec(n));
      h, t := Dec(n), "";
    } else {
      var t';
      h, t' := GroupedShape(n / 1000);
      var g := "," + Pad3(n % 1000);
      t := t' + g;
      AllGroupsAppend(t', g);
      ConcatAssoc(h, t', g);
      ConcatAssoc(Grouped(n / 1000), ",", Pad3(n % 1000));
      DropCommasAppend(Grouped(n / 1000), g);
      DropCommasAppend(",", Pad3(n % 1000));
      DropCommasDigits(Pad3(n % 1000));
      DecByThousands(n);
    }
  }

  lemma {:induction false} LeadingDigitsAll(d: string, limit: nat)
    requires AllDigits(d) && |d| <= limit
    ensures LeadingDigits(d, limit) == |d|
    decreases |d|
  {
    if d != "" { LeadingDigitsAll(d[1..], limit - 1); }
  }

  lemma {:induction false} LeadingDigitsExact(d: string, b: string, limit: nat)
    requires AllDigits(d) && |d| <= limit && (b == "" || !IsDigit(b[0]))
    ensures LeadingDigits(d + b, limit) == |d|
    decreases |d|
  {
    if d == "" {
      NothingBefore(d, b);
    } else {
      DropConcat(d, b, 1);
      LeadingDigitsExact(d[1..], b, limit - 1);
    }
  }

  lemma GroupedStrips(n: nat)
    ensures StripCommas(Grouped(n)) == Dec(n)
  {
    var g := Grouped(n);
    var h, t := GroupedShape(n);
    if t == "" {
      assert forall c :: c in Dec(n) ==> IsDigit(c);
      StripCommasIdentity(Dec(n));
    } else {
      GroupsMatch(h, t);
      StripWhole(g);
    }
  }

  lemma GroupsMatch(h: string, t: string)
    requires 1 <= |h| <= 3 && AllDigits(h) && AllGroups(t) && t != ""
    ensures CommaMatch(h + t) == |h + t|
  {
    LeadingDigitsExact(h, t, 3);
    DropConcat(h, t, |h|);
    NothingBefore(h[|h|..], t);
    AllGroupsLength(t);
  }

  lemma StripWhole(g: string)
    requires g != "" && CommaMatch(g) == |g|
    ensures StripCommas(g) == DropCommas(g)
  {
    assert g[..|g|] == g && g[|g|..] == "";
    NothingAfter(DropCommas(g), StripCommas(g[|g|..]));
  }

  /** A suffix right after its number, or one space away. */
  function Suffix(spaced: bool, c: char): string {
    if spaced then " " + [c] else [c]
  }

  lemma SuffixIsAhead(spaced: bool, c: char)
    requires IsMagnitude(c)
    ensures SpaceRun(Suffix(spaced, c)) == |Suffix(spaced, c)| - 1 && SuffixAhead(Suffix(spaced, c))
  {
    var s := Suffix(spaced, c);
    if spaced { assert s[1..] == [c]; }
    assert s[|s| - 1..] == [c];
  }

  lemma MagnitudeRewrites(m: nat, spaced: bool, c: char, fx: FloatExpand)
    requires IsMagnitude(c) && m * Factor(c) < EXACT_LIMIT
    ensures var s := Dec(m) + Suffix(spaced, c); BareMatch(s) == |s| && Rewritten(s, fx) == Dec(m * Factor(c))
  {
    var x := Suffix(spaced, c);
    var s := Dec(m) + x;
    var d := |Dec(m)|;
    LeadingDigitsExact(Dec(m), x, |s|);
    assert s[..d] == Dec(m) && s[d..] == x && s[|s| - 1] == c;
    SuffixIsAhead(spaced, c);
    assert NumberLength(s) == d;
    DigitsValueDec(m);
  }

  /** A text that is one match expands in one turn. */
  lemma ExpandOneTurn(s: string, fx: FloatExpand)
    requires s != "" && ExpandLength(s) == |s|
    ensures ExpandMagnitudes(s, fx) == ExpandHead(s, fx)
  {
    ExpandTurn(s, fx);
    assert s[|s|..] == "";
    assert ExpandHead(s, fx) + "" == ExpandHead(s, fx);
  }

  lemma ExpandWhole(s: string, fx: FloatExpand)
    requires s != "" && BareMatch(s) == |s| && Dollar(s) == 0
    ensures ExpandMagnitudes(s, fx) == Rewritten(s, fx)
  {
    DropNone(s, Rewritten(s, fx));
    ExpandOneTurn(s, fx);
  }

  lemma ExpandWholeDollar(s: string, fx: FloatExpand)
    requires s != "" && BareMatch(s) == |s|
    ensures ExpandMagnitudes("$" + s, fx) == "$" + Rewritten(s, fx)
  {
    DropDollar(s);
    assert MagnitudeMatch("$" + s) == 1 + |s|;
    ExpandOneTurn("$" + s, fx);
  }

  lemma DropNone(s: string, r: string)
    ensures s[0..] == s && s[..0] + r == r
  {
  }

  lemma DropDollar(s: string)
    ensures ("$" + s)[1..] == s && ("$" + s)[..1] == "$"
  {
  }

  lemma MagnitudeExpands(m: nat, spaced: bool, c: char, fx: FloatExpand)
    requires IsMagnitude(c) && m * Factor(c) < 0x20_0000_0000_0000
    ensures ExpandMagnitudes(Dec(m) + Suffix(spaced, c), fx) == Dec(m * Factor(c))
    ensures ExpandMagnitudes("$" + (Dec(m) + Suffix(spaced, c)), fx) == "$" + Dec(m * Factor(c))
    ensures Factor(c) == if c == 'k' then 1_000 else if c == 'm' then 1_000_000 else 1_000_000_000
  {
    MagnitudeRewrites(m, spaced, c, fx);
    ExpandWhole(Dec(m) + Suffix(spaced, c), fx);
    ExpandWholeDollar(Dec(m) + Suffix(spaced, c), fx);
  }

  lemma DigitsDoNotMatch(d: string)
    requires AllDigits(d)
    ensures BareMatch(d) == 0
  {
    LeadingDigitsAll(d, |d|);
    assert d[|d|..] == "";
  }

  lemma FirstDigitStays(d: string, fx: FloatExpand)
    requires d != "" && AllDigits(d)
    ensures ExpandMagnitudes(d, fx) == [d[0]] + ExpandMagnitudes(d[1..], fx)
  {
    DigitsDoNotMatch(d);
    DropNone(d, d);
    assert ExpandHead(d, fx) == [d[0]] && ExpandLength(d) == 1;
    ExpandTurn(d, fx);
  }

  lemma {:induction false} DigitsDoNotExpand(d: string, fx: FloatExpand)
    requires AllDigits(d)
    ensures ExpandMagnitudes(d, fx) == d
    decreases |d|
  {
    if d != "" {
      FirstDigitStays(d, fx);
      DigitsDoNotExpand(d[1..], fx);
    }
  }

  lemma DollarDigitsDoNotExpand(d: string, fx: FloatExpand)
    requires AllDigits(d)
    ensures ExpandMagnitudes("$" + d, fx) == "$" + d
  {
    var s := "$" + d;
    assert s[1..] == d;
    DigitsDoNotMatch(d);
    ExpandTurn(s, fx);
    DigitsDoNotExpand(d, fx);
  }

  // ---------------------------------------------------------------- the folding passes, by what they keep

  predicate IsBlank(c: char) {
    c == ' ' || c == '\t' || c == '\n' || c == '\r' || c as int == 12
  }

  /** Letters, digits, underscore, dollar, percent and point survive the first fold; all but blanks the second. */
  lemma KeptIff(c: char)
    ensures Kept(Punctuation, c) <==> 'a' <= c <= 'z' || 'A' <= c <= 'Z' || '0' <= c <= '9' || c in {'_', '$', '%', '.'}
    ensures Kept(WhiteSpace, c) <==> !IsBlank(c)
  {
  }

  /** A run of what is not kept, between what is, becomes one space. */
  lemma GapFolds(f: Folding, a: string, gap: string, b: string)
    requires gap != "" && forall i :: 0 <= i < |gap| ==> !Kept(f, gap[i])
    requires (a == "" || Kept(f, a[|a| - 1])) && (b == "" || Kept(f, b[0]))
    ensures FoldRuns(f, a + gap + b) == FoldRuns(f, a) + " " + FoldRuns(f, b)
  {
    FoldRunsBefore(f, a + gap, b);
    GapAtEnd(f, a, gap);
  }

  lemma {:induction false} DroppedAll(f: Folding, gap: string)
    requires forall i :: 0 <= i < |gap| ==> !Kept(f, gap[i])
    ensures DroppedRun(f, gap) == |gap|
  {
  }

  lemma {:induction false} GapAtEnd(f: Folding, a: string, gap: string)
    requires gap != "" && forall i :: 0 <= i < |gap| ==> !Kept(f, gap[i])
    requires a == "" || Kept(f, a[|a| - 1])
    ensures FoldRuns(f, a + gap) == FoldRuns(f, a) + " "
    decreases |a|
  {
    if a == "" {
      NothingBefore(a, gap);
      DroppedAll(f, gap);
      assert gap[|gap|..] == "";
    } else {
      var n := FoldLength(f, a);
      FirstGapEnds(f, a, gap);
      DropConcat(a, gap, n);
      FoldTurn(f, a);
      FoldTurn(f, a + gap);
      GapAtEnd(f, a[n..], gap);
      Regroup(FoldRuns(f, a + gap), FoldRuns(f, a), [if Kept(f, a[0]) then a[0] else ' '], FoldRuns(f, a[n..]), " ");
    }
  }

  lemma FirstGapEnds(f: Folding, a: string, gap: string)
    requires a != "" && Kept(f, a[|a| - 1])
    ensures FoldLength(f, a + gap) == FoldLength(f, a)
  {
    var n := DroppedRun(f, a);
    if !Kept(f, a[0]) { DroppedRunUnique(f, a + gap, n); }
  }

  lemma {:induction false} DroppedRunUnique(f: Folding, s: string, n: nat)
    requires n < |s| && Kept(f, s[n]) && forall i :: 0 <= i < n ==> !Kept(f, s[i])
    ensures DroppedRun(f, s) == n
  {
  }

  lemma {:induction false} LowerFolds(s: string)
    ensures Lower(FoldRuns(Punctuation, s)) == FoldRuns(Punctuation, Lower(s))
    decreases |s|
  {
    if s != "" {
      var n := FoldLength(Punctuation, s);
      LowerTurn(s);
      LowerTail(s, n);
      LowerFolds(s[n..]);
      FoldTurn(Punctuation, s);
      FoldTurn(Punctuation, Lower(s));
      LowerAppend([if Kept(Punctuation, s[0]) then s[0] else ' '], FoldRuns(Punctuation, s[n..]));
    }
  }

  lemma LowerTail(s: string, n: nat)
    requires n <= |s|
    ensures Lower(s)[n..] == Lower(s[n..])
  {
  }

  lemma LowerTurn(s: string)
    requires s != ""
    ensures FoldLength(Punctuation, Lower(s)) == FoldLength(Punctuation, s)
    ensures Kept(Punctuation, Lower(s)[0]) <==> Kept(Punctuation, s[0])
  {
    var n := DroppedRun(Punctuation, s);
    if n < |s| { DroppedRunUnique(Punctuation, Lower(s), n); } else { DroppedAll(Punctuation, Lower(s)); }
  }
}
