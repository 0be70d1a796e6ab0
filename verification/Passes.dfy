/** The separator and magnitude passes, by what they drop and rewrite. */
module Passes {
  import opened Text
  import opened Normalize

  // ---------------------------------------------------------------- the separator pass, by what it drops

  /** `s` begins with a comma and three digits. */
  predicate CommaAndDigits(s: string) {
    |s| >= 4 && s[0] == ',' && '0' <= s[1] <= '9' && '0' <= s[2] <= '9' && '0' <= s[3] <= '9'
  }

  /** The text without the commas that have a digit before them and three digits after. */
  function WithoutSeparators(digitBefore: bool, s: string): string
    decreases |s|
  {
    if s == "" then ""
    else (if digitBefore && CommaAndDigits(s) then "" else [s[0]]) + WithoutSeparators(IsDigit(s[0]), s[1..])
  }

  lemma {:induction false} DigitsPass(digitBefore: bool, s: string, n: nat)
    requires 0 < n <= |s| && forall i :: 0 <= i < n ==> IsDigit(s[i])
    ensures WithoutSeparators(digitBefore, s) == s[..n] + WithoutSeparators(true, s[n..])
    decreases n
  {
    HeadAndTail(s[..n]);
    assert s[..n][1..] == s[1..][..n - 1];
    if n > 1 {
      DigitsPass(true, s[1..], n - 1);
      assert s[1..][n - 1..] == s[n..];
      ConcatAssoc([s[0]], s[1..][..n - 1], WithoutSeparators(true, s[n..]));
    }
  }

  lemma GroupPasses(s: string)
    requires IsGroup(s)
    ensures WithoutSeparators(true, s) == DropCommas(s[..4]) + WithoutSeparators(true, s[4..])
  {
    var digits := s[1..4];
    DigitsPass(false, s[1..], 3);
    assert s[1..][..3] == digits && s[1..][3..] == s[4..];
    assert s[..4] == "," + digits;
    DropCommasAppend(",", digits);
    DropCommasDigits(digits);
    NothingBefore("", digits);
    NothingBefore("", WithoutSeparators(false, s[1..]));
  }

  lemma DropCommasSplit(s: string, n: nat)
    requires 4 <= n <= |s|
    ensures DropCommas(s[..n]) == DropCommas(s[..4]) + DropCommas(s[4..][..n - 4])
  {
    assert s[..n] == s[..4] + s[4..][..n - 4];
    DropCommasAppend(s[..4], s[4..][..n - 4]);
  }

  lemma {:induction false} GroupsPass(s: string)
    ensures var g := GroupsLength(s);
      && WithoutSeparators(true, s) == DropCommas(s[..g]) + WithoutSeparators(true, s[g..])
      && !IsGroup(s[g..])
    decreases |s|
  {
    if IsGroup(s) {
      var g := GroupsLength(s);
      GroupPasses(s);
      GroupsPass(s[4..]);
      DropCommasSplit(s, g);
      assert s[4..][g - 4..] == s[g..];
      ConcatAssoc(DropCommas(s[..4]), DropCommas(s[4..][..g - 4]), WithoutSeparators(true, s[g..]));
    } else {
      DropNone(s, WithoutSeparators(true, s));
      NothingBefore(DropCommas(s[..0]), WithoutSeparators(true, s));
    }
  }

  lemma SliceInTwo(s: string, d: nat, n: nat)
    requires d <= n <= |s|
    ensures s[..n] == s[..d] + s[d..][..n - d] && s[d..][n - d..] == s[n..]
  {
  }

  lemma MatchPasses(digitBefore: bool, s: string)
    requires CommaMatch(s) > 0
    ensures var n := CommaMatch(s);
      && WithoutSeparators(digitBefore, s) == DropCommas(s[..n]) + WithoutSeparators(true, s[n..])
      && !IsGroup(s[n..])
  {
    var n, d := CommaMatch(s), LeadingDigits(s, 3);
    var head, groups := s[..d], s[d..][..n - d];
    LeadingDigitsMaximal(s, 3);
    DigitsPass(digitBefore, s, d);
    GroupsPass(s[d..]);
    SliceInTwo(s, d, n);
    DropCommasAppend(head, groups);
    DropCommasDigits(head);
    ConcatAssoc(head, DropCommas(groups), WithoutSeparators(true, s[n..]));
  }

  lemma GroupAfterMatches(s: string)
    requires s != "" && IsDigit(s[0]) && IsGroup(s[1..])
    ensures CommaMatch(s) > 0
  {
    assert s[1] == s[1..][0];
    LeadingDigitsExact(s[..1], s[1..], 3);
    HeadAndTail(s);
    assert s[..1] == [s[0]];
  }

  /** The pass drops exactly the commas with a digit before them and three digits after. */
  lemma {:induction false} StripsSeparators(digitBefore: bool, s: string)
    requires !(digitBefore && IsGroup(s))
    ensures StripCommas(s) == WithoutSeparators(digitBefore, s)
    decreases |s|
  {
    if s != "" {
      var n := StripLength(s);
      if CommaMatch(s) > 0 {
        MatchPasses(digitBefore, s);
        StripsSeparators(true, s[n..]);
      } else {
        if IsDigit(s[0]) && IsGroup(s[1..]) { GroupAfterMatches(s); }
        StripsSeparators(IsDigit(s[0]), s[1..]);
      }
    }
  }

  // ---------------------------------------------------------------- the magnitude pass, by what it rewrites

  /** Digits, or digits, a point and digits. */
  ghost predicate IsNumeral(t: string) {
    (t != "" && AllDigits(t)) || exists a, b :: t == a + "." + b && a != "" && b != "" && AllDigits(a) && AllDigits(b)
  }

  predicate AllBlank(s: string) {
    forall i :: 0 <= i < |s| ==> IsBlank(s[i])
  }

  /** A number, blanks or none, one of k, m and b, and no letter, digit or underscore right after. */
  ghost predicate IsMagnitudeForm(number: string, blanks: string, c: char, rest: string) {
    && IsNumeral(number) && AllBlank(blanks) && c in {'k', 'm', 'b'}
    && (rest == "" || !('0' <= rest[0] <= '9' || 'a' <= rest[0] <= 'z' || 'A' <= rest[0] <= 'Z' || rest[0] == '_'))
  }

  lemma FractionExact(b: string, rest: string)
    requires b != "" && AllDigits(b) && (rest == "" || !IsDigit(rest[0]))
    ensures FractionLength("." + (b + rest)) == 1 + |b|
  {
    var s := "." + (b + rest);
    assert s[1..] == b + rest;
    LeadingDigitsExact(b, rest, |s|);
  }

  lemma NumberExact(number: string, rest: string)
    requires IsNumeral(number) && (rest == "" || !(IsDigit(rest[0]) || rest[0] == '.'))
    ensures NumberLength(number + rest) == |number|
  {
    var s := number + rest;
    if AllDigits(number) {
      LeadingDigitsExact(number, rest, |s|);
      DropConcat(number, rest, |number|);
      NothingBefore(number[|number|..], rest);
    } else {
      var a, b :| number == a + "." + b && a != "" && b != "" && AllDigits(a) && AllDigits(b);
      var tail := "." + (b + rest);
      assert s == a + tail;
      LeadingDigitsExact(a, tail, |s|);
      assert s[|a|..] == tail;
      FractionExact(b, rest);
    }
  }

  lemma BlanksExact(blanks: string, c: char, rest: string)
    requires AllBlank(blanks) && c in {'k', 'm', 'b'}
    ensures var s := blanks + ([c] + rest); SpaceRun(s) == |blanks| && s[|blanks|..] == [c] + rest
  {
    BlanksRun(blanks);
    SpaceRunAll(blanks, [c] + rest);
  }

  lemma {:induction false} BlanksRun(blanks: string)
    requires AllBlank(blanks)
    ensures SpaceRun(blanks) == |blanks|
    decreases |blanks|
  {
    if blanks != "" {
      assert IsBlank(blanks[0]);
      BlanksRun(blanks[1..]);
    }
  }

  lemma SliceAfter(number: string, tail: string, n: nat)
    requires n < |tail|
    ensures (number + tail)[..|number|] == number && (number + tail)[|number|..] == tail
    ensures (number + tail)[|number| + n] == tail[n]
  {
  }

  lemma SuffixIsHere(c: char, rest: string)
    requires IsMagnitudeForm("0", "", c, rest)
    ensures SuffixHere([c] + rest)
  {
  }

  lemma TailHead(blanks: string, c: char, rest: string)
    requires AllBlank(blanks) && c in {'k', 'm', 'b'}
    ensures var tail := blanks + ([c] + rest); tail[|blanks|] == c && !IsDigit(tail[0]) && tail[0] != '.'
  {
    if blanks != "" { assert IsBlank(blanks[0]); }
  }

  /** Every such form is a match, of the whole form and nothing more, and is rewritten by its number and its suffix. */
  lemma FormMatches(number: string, blanks: string, c: char, rest: string, fx: FloatExpand)
    requires IsMagnitudeForm(number, blanks, c, rest)
    ensures var s := number + (blanks + ([c] + rest));
      BareMatch(s) == |number| + |blanks| + 1 && Rewritten(s, fx) == Expand(number, c, fx)
  {
    var tail := blanks + ([c] + rest);
    TailHead(blanks, c, rest);
    NumberExact(number, tail);
    BlanksExact(blanks, c, rest);
    SliceAfter(number, tail, |blanks|);
    SuffixIsHere(c, rest);
  }

  lemma {:induction false} SpaceRunIsBlank(s: string)
    ensures AllBlank(s[..SpaceRun(s)])
    decreases |s|
  {
    if s != "" && IsRegexSpace(s[0]) {
      SpaceRunIsBlank(s[1..]);
      var n := SpaceRun(s);
      forall i | 0 <= i < n ensures IsBlank(s[..n][i]) {
        if i > 0 { assert s[..n][i] == s[1..][..n - 1][i - 1]; }
      }
    }
  }

  lemma NumberIsNumeral(s: string)
    requires NumberLength(s) > 0
    ensures IsNumeral(s[..NumberLength(s)])
  {
    var d, n := LeadingDigits(s, |s|), NumberLength(s);
    LeadingDigitsMaximal(s, |s|);
    if n > d {
      var f := s[d..];
      LeadingDigitsMaximal(f[1..], |f|);
      var a, b := s[..d], f[1..][..n - d - 1];
      assert s[..n] == a + "." + b;
      assert AllDigits(a) && AllDigits(b);
    }
  }

  lemma SplitSuffix(s: string, r: nat)
    requires r < |s|
    ensures s == s[..r] + ([s[r]] + s[r + 1..])
  {
  }

  /** And every match is of such a form. */
  lemma MatchIsForm(s: string) returns (number: string, blanks: string, c: char, rest: string)
    requires BareMatch(s) > 0
    ensures IsMagnitudeForm(number, blanks, c, rest) && s == number + (blanks + ([c] + rest))
  {
    var n := NumberLength(s);
    var tail := s[n..];
    var r := SpaceRun(tail);
    NumberIsNumeral(s);
    SpaceRunIsBlank(tail);
    number, blanks, c, rest := s[..n], tail[..r], tail[r], tail[r + 1..];
    assert tail[r..][0] == c && (rest != "" ==> tail[r..][1] == rest[0]);
    SplitSuffix(tail, r);
    assert s == number + tail;
  }

  lemma DropForm(number: string, blanks: string, c: char, rest: string)
    ensures (number + (blanks + ([c] + rest)))[|number| + |blanks| + 1..] == rest
  {
    var tail := blanks + ([c] + rest);
    assert number + tail == (number + blanks + [c]) + rest;
  }

  lemma DropAfterDollar(s: string, n: nat)
    requires n <= |s|
    ensures ("$" + s)[1 + n..] == s[n..]
  {
  }

  lemma PlainTurn(s: string, rest: string, fx: FloatExpand)
    requires BareMatch(s) > 0 && s[BareMatch(s)..] == rest
    ensures ExpandHead(s, fx) == Rewritten(s, fx) && s[ExpandLength(s)..] == rest
  {
    assert Dollar(s) == 0;
    DropNone(s, Rewritten(s, fx));
  }

  lemma DollarMatch(s: string)
    requires BareMatch(s) > 0
    ensures Dollar("$" + s) == 1 && ("$" + s)[1..] == s && MagnitudeMatch("$" + s) == 1 + BareMatch(s)
  {
    DropDollar(s);
  }

  lemma DollarTurn(s: string, rest: string, fx: FloatExpand)
    requires BareMatch(s) > 0 && s[BareMatch(s)..] == rest
    ensures ExpandHead("$" + s, fx) == "$" + Rewritten(s, fx) && ("$" + s)[ExpandLength("$" + s)..] == rest
  {
    DollarMatch(s);
    DropDollar(s);
    DropAfterDollar(s, BareMatch(s));
  }

  lemma TurnAs(t: string, head: string, rest: string, fx: FloatExpand)
    requires t != "" && ExpandHead(t, fx) == head && t[ExpandLength(t)..] == rest
    ensures ExpandMagnitudes(t, fx) == head + ExpandMagnitudes(rest, fx)
  {
    ExpandTurn(t, fx);
  }

  /** The pass rewrites a form at the front of a text, after a dollar sign or not, and goes on behind it. */
  lemma ExpandsForm(dollar: string, number: string, blanks: string, c: char, rest: string, fx: FloatExpand)
    requires IsMagnitudeForm(number, blanks, c, rest) && dollar in {"", "$"}
    ensures ExpandMagnitudes(dollar + (number + (blanks + ([c] + rest))), fx)
         == dollar + Expand(number, c, fx) + ExpandMagnitudes(rest, fx)
  {
    var s := number + (blanks + ([c] + rest));
    FormMatches(number, blanks, c, rest, fx);
    DropForm(number, blanks, c, rest);
    PlainTurn(s, rest, fx);
    DollarTurn(s, rest, fx);
    NothingBefore("", s);
    NothingBefore("", Expand(number, c, fx));
    TurnAs(dollar + s, dollar + Expand(number, c, fx), rest, fx);
  }

  /** A form begins here, after a dollar sign or not. */
  ghost predicate FormHere(s: string) {
    exists number, blanks, c, rest :: IsMagnitudeForm(number, blanks, c, rest)
      && (s == number + (blanks + ([c] + rest)) || s == "$" + (number + (blanks + ([c] + rest))))
  }

  lemma MatchIsFormHere(s: string)
    requires MagnitudeMatch(s) > 0
    ensures FormHere(s)
  {
    var number, blanks, c, rest := MatchIsForm(s[Dollar(s)..]);
    assert s == s[..Dollar(s)] + s[Dollar(s)..];
    if Dollar(s) == 1 { assert s[..1] == "$"; } else { DropNone(s, s); }
  }

  /** Where no form begins, it keeps the character and goes on with the next. */
  lemma PassesOver(s: string, fx: FloatExpand)
    requires s != "" && !FormHere(s)
    ensures ExpandMagnitudes(s, fx) == [s[0]] + ExpandMagnitudes(s[1..], fx)
  {
    if MagnitudeMatch(s) > 0 { MatchIsFormHere(s); }
    ExpandTurn(s, fx);
  }
}
