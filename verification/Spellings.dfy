/** Every spelling of a number normalizes to the same digits, alone and inside a text. */
module Spellings {
  import opened Text
  import opened Normalize
  import NW = NumberWords

  // ---------------------------------------------------------------- spellings and contexts

  /** The ways to write a number: in words, in digits, with thousands separators, as k/m/b (with or without white space
      before the suffix). The last three may carry a dollar sign. */
  datatype Form =
    | Words(text: string)
    | Digits(dollar: bool)
    | Separated(dollar: bool)
    | Magnitude(dollar: bool, mantissa: nat, spaced: bool, suffix: char)

  ghost predicate Writes(f: Form, n: nat) {
    match f
    case Words(text) => NW.Spells(NW.Kinds(Fields(text)), n)
    case Digits(_) => true
    case Separated(_) => true
    case Magnitude(_, m, _, c) => IsMagnitude(c) && m * Factor(c) == n < EXACT_LIMIT
  }

  function Prefix(dollar: bool): string {
    if dollar then "$" else ""
  }

  function Core(f: Form, n: nat): string
    requires !f.Words?
  {
    match f
    case Digits(_) => Dec(n)
    case Separated(_) => Grouped(n)
    case Magnitude(_, m, spaced, c) => Dec(m) + Suffix(spaced, c)
  }

  function FormText(f: Form, n: nat): string {
    if f.Words? then f.text else Prefix(f.dollar) + Core(f, n)
  }

  function Canonical(f: Form, n: nat): (r: string)
    ensures IsWord(r)
  {
    if f.Words? then Dec(n) else Prefix(f.dollar) + Dec(n)
  }

  predicate IsSpaced(f: Form) {
    f.Magnitude? && f.spaced
  }

  /** The words of a form with marks around it. Words take none: the marks they may have are trimmed off each of them,
      and any other hides them (`MarkHidesWord`). */
  function FormWords(open: string, f: Form, n: nat, close: string): seq<string> {
    if f.Words? then Fields(f.text)
    else if IsSpaced(f) then [open + (Prefix(f.dollar) + Dec(f.mantissa)), [f.suffix] + close]
    else [open + FormText(f, n) + close]
  }

  /** `t` spells `n` in form `f`, between these marks. */
  ghost predicate Spelled(t: string, open: string, f: Form, n: nat, close: string) {
    && Writes(f, n) && AllMarks(open) && AllMarks(close) && (f.Words? ==> open == "" && close == "")
    && Fields(Lower(t)) == FormWords(open, f, n, close)
  }

  /** The words before a number neither end in a number word nor in "and". */
  predicate LeftContext(a: string) {
    EndsClear(a) && NW.LeftOpen(NW.Kinds(Fields(Lower(a))))
  }

  /** The words after it neither begin with a number word, nor with "and", nor with a bare k, m or b. */
  predicate RightContext(b: string) {
    && StartsClear(b)
    && var ws := Fields(Lower(b));
       ws == [] || (NW.Stops(NW.TokenKind(ws[0])) && !SuffixHere(ws[0]))
  }

  // ---------------------------------------------------------------- digits are not number words

  predicate IsLetter(c: char) {
    'a' <= c <= 'z'
  }

  predicate IsLongWord(w: string) {
    |w| > 2 && forall i :: 0 <= i < |w| ==> IsLetter(w[i])
  }

  predicate Alphabetic(t: NW.Table) {
    t.Row? ==> IsLongWord(t.word) && Alphabetic(t.rest)
  }

  /** Too short, or with something other than letters in it. */
  predicate IsNoWord(w: string) {
    |w| <= 2 || exists i :: 0 <= i < |w| && !IsLetter(w[i])
  }

  lemma {:induction false} LookupNoWord(t: NW.Table, w: string)
    requires Alphabetic(t) && IsNoWord(w)
    ensures NW.Lookup(t, w) == -1
    decreases t
  {
    if t.Row? { LookupNoWord(t.rest, w); }
  }

  lemma TablesAreAlphabetic()
    ensures Alphabetic(NW.UnitTable()) && Alphabetic(NW.ScaleTable())
  {
    TensAreAlphabetic();
    TeensAreAlphabetic();
    UnitsAreAlphabetic();
  }

  lemma TensAreAlphabetic()
    ensures Alphabetic(NW.TensTable()) && Alphabetic(NW.ScaleTable())
  {
    var t := NW.TensTable();
    assert Alphabetic(t.rest.rest.rest.rest);
    assert Alphabetic(t);
  }

  lemma TeensAreAlphabetic()
    requires Alphabetic(NW.TensTable())
    ensures Alphabetic(NW.TeenTable())
  {
    var t := NW.TeenTable();
    assert Alphabetic(t.rest.rest.rest.rest.rest);
  }

  lemma UnitsAreAlphabetic()
    requires Alphabetic(NW.TeenTable())
    ensures Alphabetic(NW.UnitTable())
  {
    var t := NW.UnitTable();
    assert Alphabetic(t.rest.rest.rest.rest.rest);
  }

  lemma NoWordIsOther(w: string)
    requires IsNoWord(w)
    ensures NW.KindOf(w).Other?
  {
    TablesAreAlphabetic();
    LookupNoWord(NW.UnitTable(), w);
    LookupNoWord(NW.ScaleTable(), w);
    AndHasLetters();
  }

  lemma AndHasLetters()
    ensures !IsNoWord("and")
  {
  }

  /** Trimming leaves what is not cut. */
  lemma {:induction false} TrimSetKeeps(s: string, cut: set<char>, i: nat) returns (j: nat)
    requires i < |s| && s[i] !in cut
    ensures j < |TrimSet(s, cut)| && TrimSet(s, cut)[j] == s[i]
    decreases |s|
  {
    if s[0] in cut {
      j := TrimSetKeeps(s[1..], cut, i - 1);
    } else if s[|s| - 1] in cut {
      j := TrimSetKeeps(s[..|s| - 1], cut, i);
    } else {
      j := i;
    }
  }

  lemma DigitTokenIsOther(w: string, i: nat)
    requires i < |w| && IsDigit(w[i])
    ensures NW.TokenKind(w).Other?
  {
    var j := TrimSetKeeps(w, NW.NUMBER_CUT, i);
    NoWordIsOther(TrimSet(w, NW.NUMBER_CUT));
  }

  /** A mark that is not trimmed off hides a number word, which then stays as it is. */
  lemma MarkHidesWord(c: char, w: string)
    requires IsMark(c) && c !in NW.NUMBER_CUT
    ensures NW.TokenKind([c] + w).Other? && NW.TokenKind(w + [c]).Other?
  {
    var i := TrimSetKeeps([c] + w, NW.NUMBER_CUT, 0);
    var j := TrimSetKeeps(w + [c], NW.NUMBER_CUT, |w|);
    NoWordIsOther(TrimSet([c] + w, NW.NUMBER_CUT));
    NoWordIsOther(TrimSet(w + [c], NW.NUMBER_CUT));
  }

  /** A suffix on its own, with marks after it, is no number word. */
  lemma SuffixTokenIsOther(c: char, close: string)
    requires IsMagnitude(c) && AllMarks(close)
    ensures NW.TokenKind([c] + close).Other?
  {
    var w := [c] + close;
    var t := TrimSet(w, NW.NUMBER_CUT);
    TrimSetLast(w, NW.NUMBER_CUT);
    NoWordIsOther(t);
  }

  /** Trimmed of more than one character, a suffix with marks after it still ends in a mark. */
  lemma {:induction false} TrimSetLast(w: string, cut: set<char>)
    requires w != "" && w[0] !in cut && AllMarks(w[1..])
    ensures var t := TrimSet(w, cut); |t| <= 1 || !IsLetter(t[|t| - 1])
    decreases |w|
  {
    if |w| > 1 {
      assert w[|w| - 1] == w[1..][|w| - 2];
      if w[|w| - 1] in cut {
        assert w[..|w| - 1][1..] == w[1..][..|w| - 2];
        TrimSetLast(w[..|w| - 1], cut);
      }
    }
  }

  lemma GroupedHead(n: nat)
    ensures Grouped(n) != "" && IsDigit(Grouped(n)[0]) && NoSpace(Grouped(n))
  {
    if n >= 1000 { GroupedHead(n / 1000); }
  }

  lemma CoreShape(f: Form, n: nat)
    requires !f.Words? && Writes(f, n)
    ensures Core(f, n) != "" && IsDigit(Core(f, n)[0]) && (!IsSpaced(f) ==> NoSpace(Core(f, n)))
  {
    GroupedHead(n);
  }

  lemma MarkedIsWord(open: string, w: string, close: string)
    requires AllMarks(open) && IsWord(w) && AllMarks(close)
    ensures IsWord(open + w + close)
  {
  }

  /** A plain form between marks is a word, and no number word. */
  lemma PlainFormIsOther(open: string, f: Form, n: nat, close: string)
    requires !f.Words? && !IsSpaced(f) && Writes(f, n) && AllMarks(open) && AllMarks(close)
    ensures var w := open + FormText(f, n) + close; IsWord(w) && NW.TokenKind(w).Other?
  {
    CoreShape(f, n);
    MarkedIsWord(open, FormText(f, n), close);
    var i := |open| + |Prefix(f.dollar)|;
    assert (open + FormText(f, n) + close)[i] == Core(f, n)[0];
    DigitTokenIsOther(open + FormText(f, n) + close, i);
  }

  /** So are the two words of a spaced one. */
  lemma SpacedFormIsOther(open: string, f: Form, n: nat, close: string)
    requires IsSpaced(f) && Writes(f, n) && AllMarks(open) && AllMarks(close)
    ensures var w := open + (Prefix(f.dollar) + Dec(f.mantissa)); IsWord(w) && NW.TokenKind(w).Other?
    ensures var w := [f.suffix] + close; IsWord(w) && NW.TokenKind(w).Other?
  {
    var d := Prefix(f.dollar) + Dec(f.mantissa);
    MarkedIsWord(open, d, "");
    NothingAfter(open + d, "");
    var i := |open| + |Prefix(f.dollar)|;
    assert (open + d)[i] == Dec(f.mantissa)[0];
    DigitTokenIsOther(open + d, i);
    SuffixTokenIsOther(f.suffix, close);
  }

  // ---------------------------------------------------------------- the number-word pass

  /** What the number-word pass leaves of a form. */
  function Folded(f: Form, n: nat): string {
    if f.Words? then Dec(n) else FormText(f, n)
  }

  lemma FieldsAround(a: string, t: string, b: string)
    requires EndsClear(a) && StartsClear(b)
    ensures Fields(Lower(a + t + b)) == Fields(Lower(a)) + Fields(Lower(t)) + Fields(Lower(b))
    ensures EndsClear(Lower(a)) && StartsClear(Lower(b))
  {
    LowerAppend(a + t, b);
    LowerAppend(a, t);
    LowerClear(a, b);
    FieldsOfThree(Lower(a), Lower(t), Lower(b));
  }

  lemma LowerClear(a: string, b: string)
    requires EndsClear(a) && StartsClear(b)
    ensures EndsClear(Lower(a)) && StartsClear(Lower(b))
  {
  }

  lemma FieldsOfThree(x: string, y: string, z: string)
    requires EndsClear(x) && StartsClear(z)
    ensures Fields(x + y + z) == Fields(x) + Fields(y) + Fields(z)
  {
    FieldsAppend(x + y, z);
    FieldsAppend(x, y);
  }

  /** What the number-word pass leaves of the words of a form. */
  function FoldedWords(open: string, f: Form, n: nat, close: string): seq<string> {
    if f.Words? then [Dec(n)] else FormWords(open, f, n, close)
  }

  lemma FoldWordsAround(u: seq<string>, w: seq<string>, open: string, f: Form, n: nat, close: string)
    requires Writes(f, n) && NW.LeftOpen(NW.Kinds(u)) && NW.RightOpen(NW.Kinds(w))
    requires AllMarks(open) && AllMarks(close)
    ensures var all := u + FormWords(open, f, n, close) + w;
      NW.FoldTokens(all, NW.Kinds(all))
      == NW.FoldTokens(u, NW.Kinds(u)) + FoldedWords(open, f, n, close) + NW.FoldTokens(w, NW.Kinds(w))
  {
    if f.Words? {
      NW.SpelledNumberFolds(u, Fields(f.text), w, n);
    } else if IsSpaced(f) {
      SpacedFormIsOther(open, f, n, close);
      TwoTokensPass(u, open + (Prefix(f.dollar) + Dec(f.mantissa)), [f.suffix] + close, w);
    } else {
      PlainFormIsOther(open, f, n, close);
      NW.PlainTokenPasses(u, open + FormText(f, n) + close, w);
    }
  }

  lemma TwoTokensPass(u: seq<string>, x: string, y: string, w: seq<string>)
    requires NW.TokenKind(x).Other? && NW.TokenKind(y).Other?
    ensures var all := u + [x, y] + w;
      NW.FoldTokens(all, NW.Kinds(all)) == NW.FoldTokens(u, NW.Kinds(u)) + [x, y] + NW.FoldTokens(w, NW.Kinds(w))
  {
    NW.PlainTokenPasses(u, x, [y] + w);
    NW.PlainTokenPasses([], y, w);
    TwoInPlace(u, x, y, w);
    TwoInPlace(NW.FoldTokens(u, NW.Kinds(u)), x, y, NW.FoldTokens(w, NW.Kinds(w)));
  }

  lemma TwoInPlace(u: seq<string>, x: string, y: string, w: seq<string>)
    ensures [] + [y] + w == [y] + w && u + [x] + ([y] + w) == u + [x, y] + w
  {
  }

  lemma FoldAround(a: string, t: string, b: string, open: string, f: Form, n: nat, close: string)
    returns (xs: seq<string>, ys: seq<string>)
    requires Spelled(t, open, f, n, close) && LeftContext(a) && RightContext(b)
    ensures NW.FoldText(Lower(a + t + b)) == Join(xs + FoldedWords(open, f, n, close) + ys)
    ensures AllWords(ys)
    ensures Fields(Lower(a)) == [] ==> xs == []
    ensures var ws := Fields(Lower(b)); if ws == [] then ys == [] else ys != [] && ys[0] == ws[0]
  {
    var u, w := Fields(Lower(a)), Fields(Lower(b));
    xs, ys := NW.FoldTokens(u, NW.Kinds(u)), NW.FoldTokens(w, NW.Kinds(w));
    FieldsAround(a, t, b);
    FoldWordsAround(u, w, open, f, n, close);
    NW.FoldTokensWords(w, NW.Kinds(w));
    FoldTokensHead(w);
  }

  /** The folded words, joined, are the form's text between its marks. */
  lemma JoinFolded(xs: seq<string>, open: string, f: Form, n: nat, close: string, ys: seq<string>)
    returns (a: string, b: string)
    requires Writes(f, n) && (f.Words? ==> open == "" && close == "")
    ensures Join(xs + FoldedWords(open, f, n, close) + ys) == (a + open) + Folded(f, n) + (close + b)
    ensures EndsClear(a) && StartsClear(b)
    ensures xs == [] ==> a == ""
    ensures b == (if ys == [] then "" else " " + Join(ys))
  {
    if IsSpaced(f) {
      var d := Prefix(f.dollar) + Dec(f.mantissa);
      a, b := JoinTwo(xs, open + d, [f.suffix] + close, ys);
      SpacedText(a, open, f, n, close, b);
    } else {
      a, b := JoinAround(xs, open + Folded(f, n) + close, ys);
      if f.Words? {
        NothingBefore(open, Dec(n));
        NothingAfter(Dec(n), close);
      }
      MoveMarks(a, open, Folded(f, n), close, b);
    }
  }

  lemma MoveMarks(a: string, open: string, t: string, close: string, b: string)
    ensures a + (open + t + close) + b == (a + open) + t + (close + b)
  {
  }

  lemma JoinTwo(xs: seq<string>, x: string, y: string, ys: seq<string>) returns (a: string, b: string)
    ensures Join(xs + [x, y] + ys) == a + x + (" " + (y + b))
    ensures EndsClear(a) && StartsClear(b)
    ensures xs == [] ==> a == ""
    ensures b == (if ys == [] then "" else " " + Join(ys))
  {
    var c;
    a, c := JoinAround(xs, x, [y] + ys);
    assert xs + [x] + ([y] + ys) == xs + [x, y] + ys;
    var a';
    a', b := JoinAround([], y, ys);
    assert [] + [y] + ys == [y] + ys;
    NothingBefore(a', y);
  }

  lemma SpacedText(a: string, open: string, f: Form, n: nat, close: string, b: string)
    requires IsSpaced(f)
    ensures a + (open + (Prefix(f.dollar) + Dec(f.mantissa))) + (" " + ([f.suffix] + close + b))
         == (a + open) + FormText(f, n) + (close + b)
  {
    var p, d, c := Prefix(f.dollar), Dec(f.mantissa), [f.suffix];
    assert FormText(f, n) == p + (d + (" " + c));
  }

  lemma FoldTokensHead(w: seq<string>)
    requires w == [] || NW.Stops(NW.TokenKind(w[0]))
    ensures var ys := NW.FoldTokens(w, NW.Kinds(w)); if w == [] then ys == [] else ys != [] && ys[0] == w[0]
  {
  }

  lemma SuffixHereOfWord(w: string, b: string)
    requires w != "" && StartsClear(b)
    ensures SuffixHere(w + b) == SuffixHere(w)
  {
  }

  lemma SuffixAfterSpace(s: string)
    requires s != "" && !IsSpace(s[0])
    ensures SuffixAhead(" " + s) == SuffixHere(s)
  {
    var t := " " + s;
    assert t[1..] == s;
    assert SpaceRun(t) == 1;
  }

  lemma StripAfterSpace(j: string)
    requires j != "" && !IsSpace(j[0])
    ensures StripCommas(" " + j) == " " + StripCommas(j)
    ensures StripCommas(j) != "" && !IsSpace(StripCommas(j)[0])
  {
    StripCommasSeam(" ", j);
    StripCommasIdentity(" ");
    StripCommasHead(j);
  }

  lemma JoinHead(ys: seq<string>) returns (rest: string)
    requires AllWords(ys) && ys != []
    ensures Join(ys) == ys[0] + rest && StartsClear(rest) && IsWord(ys[0])
  {
    rest := if |ys| == 1 then "" else " " + Join(ys[1..]);
    if |ys| == 1 { NothingAfter(ys[0], rest); } else { ConcatAssoc(ys[0], " ", Join(ys[1..])); }
  }

  lemma NoSuffixAfter(ys: seq<string>)
    requires AllWords(ys) && (ys == [] || !SuffixHere(ys[0]))
    ensures !SuffixAhead(StripCommas(if ys == [] then "" else " " + Join(ys)))
  {
    if ys != [] {
      var rest := JoinHead(ys);
      SuffixHereOfWord(ys[0], rest);
      StripAfterSpace(Join(ys));
      StripCommasKeepsSuffix(Join(ys));
      SuffixAfterSpace(StripCommas(Join(ys)));
    }
  }

  // ---------------------------------------------------------------- the digit passes

  lemma CoreStrips(f: Form, n: nat)
    requires !f.Words? && Writes(f, n)
    ensures StripCommas(Core(f, n)) == if f.Magnitude? then Core(f, n) else Dec(n)
  {
    if f.Separated? { GroupedStrips(n); } else { StripCommasIdentity(Core(f, n)); }
  }

  /** What the separator pass leaves of a folded form. */
  function Stripped(f: Form, n: nat): string {
    match f
    case Words(_) => Dec(n)
    case Magnitude(d, _, _, _) => Prefix(d) + Core(f, n)
    case _ => Prefix(f.dollar) + Dec(n)
  }

  lemma EndsWithSpace(x: string, c: string)
    requires |c| == 1 && IsSpace(c[0])
    ensures EndsClear(x + c)
  {
    assert (x + c)[|x|] == c[0];
  }

  lemma StripDollar(c: string)
    ensures StripCommas("$" + c) == "$" + StripCommas(c)
  {
    assert ("$" + c)[1..] == c;
  }

  lemma StripPrefix(dollar: bool, c: string)
    ensures StripCommas(Prefix(dollar) + c) == Prefix(dollar) + StripCommas(c)
  {
    if dollar {
      StripDollar(c);
    } else {
      NothingBefore("", c);
      NothingBefore("", StripCommas(c));
    }
  }

  lemma FormStrips(f: Form, n: nat)
    requires Writes(f, n)
    ensures StripCommas(Folded(f, n)) == Stripped(f, n)
  {
    if f.Words? {
      StripCommasIdentity(Dec(n));
    } else {
      CoreStrips(f, n);
      StripPrefix(f.dollar, Core(f, n));
    }
  }

  lemma FormExpands(f: Form, n: nat, fx: FloatExpand)
    requires Writes(f, n)
    ensures ExpandMagnitudes(Stripped(f, n), fx) == Canonical(f, n)
  {
    assert "" + Dec(n) == Dec(n);
    if f.Magnitude? {
      MagnitudeExpands(f.mantissa, f.spaced, f.suffix, fx);
      assert "" + Core(f, n) == Core(f, n);
    } else if f.Words? || !f.dollar {
      DigitsDoNotExpand(Dec(n), fx);
    } else {
      DollarDigitsDoNotExpand(Dec(n), fx);
    }
  }

  lemma StripKeepsClear(a: string)
    requires EndsClear(a)
    ensures EndsClear(StripCommas(a))
  {
    if a != "" {
      var x, c := a[..|a| - 1], a[|a| - 1..];
      assert a == x + c;
      StripCommasSeam(x, c);
      StripCommasIdentity(c);
      EndsWithSpace(StripCommas(x), c);
    }
  }

  lemma SpaceDoesNotExpand(c: string, fx: FloatExpand)
    requires |c| == 1 && IsSpace(c[0])
    ensures ExpandMagnitudes(c, fx) == c
    ensures !SuffixAhead(c)
  {
    assert c[1..] == "" && c[0..] == c;
  }

  lemma ExpandKeepsClear(a: string, fx: FloatExpand)
    requires EndsClear(a)
    ensures EndsClear(ExpandMagnitudes(a, fx))
  {
    if a != "" {
      var x, c := a[..|a| - 1], a[|a| - 1..];
      assert a == x + c;
      SpaceDoesNotExpand(c, fx);
      ExpandSeam(x, c, fx);
      EndsWithSpace(ExpandMagnitudes(x, fx), c);
    }
  }

  lemma ExpandKeepsStartsClear(b: string, fx: FloatExpand)
    requires StartsClear(b)
    ensures StartsClear(ExpandMagnitudes(b, fx))
  {
    if b != "" { ExpandTurn(b, fx); }
  }

  /** The digit passes leave the marks before a number as they are, after white space. */
  lemma PassesKeepOpens(a: string, fx: FloatExpand)
    requires Opens(a)
    ensures Opens(StripCommas(a)) && Opens(ExpandMagnitudes(a, fx))
  {
    var x, k := OpensSplit(a);
    MarksStop(k);
    MarksPass(k, "", fx);
    NothingAfter(k, "");
    StripCommasSeam(x, k);
    ExpandSeam(x, k, fx);
    StripKeepsClear(x);
    ExpandKeepsClear(x, fx);
    OpensAppend(StripCommas(x), k);
    OpensAppend(ExpandMagnitudes(x, fx), k);
  }

  /** Marks end a number, and hold no suffix. */
  lemma MarksStop(k: string)
    requires AllMarks(k)
    ensures Breaks(k) && !SuffixAhead(k)
  {
    BreaksAppend(k, "");
    NothingAfter(k, "");
  }

  lemma PassesKeepBreaks(b: string, fx: FloatExpand)
    requires Breaks(b)
    ensures Breaks(StripCommas(b)) && Breaks(ExpandMagnitudes(b, fx))
  {
    var k, y := BreaksSplit(b);
    MarksPass(k, y, fx);
    StripCommasHead(y);
    ExpandKeepsStartsClear(y, fx);
    BreaksAppend(k, StripCommas(y));
    BreaksAppend(k, ExpandMagnitudes(y, fx));
  }

  lemma StripAround(a: string, f: Form, n: nat, b: string)
    requires Writes(f, n) && Opens(a) && Breaks(b)
    ensures StripCommas(a + Folded(f, n) + b) == StripCommas(a) + Stripped(f, n) + StripCommas(b)
    ensures var t := Stripped(f, n); t != "" && (IsDigit(t[0]) || t[0] == '$')
  {
    var t := Folded(f, n);
    StripCommasSeam(a + t, b);
    StripCommasSeam(a, t);
    FormStrips(f, n);
  }

  /** The digit passes rewrite the form in place and each side on its own. */
  lemma ExpandAround(a: string, f: Form, n: nat, b: string, fx: FloatExpand) returns (l: string, r: string)
    requires Writes(f, n) && Opens(a) && Breaks(b) && !SuffixAhead(StripCommas(b))
    ensures ExpandMagnitudes(StripCommas(a + Folded(f, n) + b), fx) == l + Canonical(f, n) + r
    ensures Opens(l) && Breaks(r)
    ensures (a == "" ==> l == "") && (b == "" ==> r == "")
  {
    var a', t', b' := StripCommas(a), Stripped(f, n), StripCommas(b);
    PassesKeepOpens(a, fx);
    PassesKeepBreaks(b, fx);
    StripAround(a, f, n, b);
    ExpandSeam(a' + t', b', fx);
    ExpandSeam(a', t', fx);
    FormExpands(f, n, fx);
    PassesKeepOpens(a', fx);
    PassesKeepBreaks(b', fx);
    l, r := ExpandMagnitudes(a', fx), ExpandMagnitudes(b', fx);
  }

  // ---------------------------------------------------------------- all passes

  lemma FoldPassesAround(a: string, d: string, b: string) returns (l: string, r: string)
    requires IsWord(d) && AllKept(Punctuation, d)
    requires (a == "" || !Kept(Punctuation, a[|a| - 1])) && (b == "" || !Kept(Punctuation, b[0]))
    ensures FoldRuns(WhiteSpace, FoldRuns(Punctuation, a + d + b)) == l + d + r
    ensures EndsClear(l) && StartsClear(r)
    ensures (a == "" ==> l == "") && (b == "" ==> r == "")
  {
    var a', b' := FoldRuns(Punctuation, a), FoldRuns(Punctuation, b);
    FoldRunsAround(Punctuation, a, d, b);
    FoldRunsEndsClear(Punctuation, a);
    FoldRunsStartsClear(Punctuation, b);
    FoldRunsAround(WhiteSpace, a', d, b');
    FoldRunsEndsClear(WhiteSpace, a');
    FoldRunsStartsClear(WhiteSpace, b');
    l, r := FoldRuns(WhiteSpace, a'), FoldRuns(WhiteSpace, b');
  }

  lemma CanonicalIsKept(f: Form, n: nat)
    ensures AllKept(Punctuation, Canonical(f, n))
  {
  }

  /** Marks that the punctuation pass keeps stay beside the number, the others make white space. */
  lemma FoldMarksAround(a: string, d: string, b: string) returns (l: string, k: string, k': string, r: string)
    requires IsWord(d) && AllKept(Punctuation, d) && Opens(a) && Breaks(b)
    ensures FoldRuns(WhiteSpace, FoldRuns(Punctuation, a + d + b)) == l + (k + d + k') + r
    ensures EndsClear(l) && StartsClear(r) && KeptMarks(k) && KeptMarks(k')
    ensures (a == "" ==> l == "" && k == "") && (b == "" ==> r == "" && k' == "")
  {
    var x, y;
    x, k := OpensKept(a);
    k', y := BreaksKept(b);
    MoveMarks(x, k, d, k', y);
    MarkedIsWord(k, d, k');
    l, r := FoldPassesAround(x, k + d + k', y);
  }

  predicate KeptMarks(k: string) {
    AllMarks(k) && AllKept(Punctuation, k)
  }

  /** What is left of the passes once number words are folded. */
  lemma DigitPassesAround(a: string, f: Form, n: nat, b: string, fx: FloatExpand)
    returns (l: string, k: string, k': string, r: string)
    requires Writes(f, n) && Opens(a) && Breaks(b) && !SuffixAhead(StripCommas(b))
    ensures FoldRuns(WhiteSpace, FoldRuns(Punctuation, ExpandMagnitudes(StripCommas(a + Folded(f, n) + b), fx)))
         == l + (k + Canonical(f, n) + k') + r
    ensures EndsClear(l) && StartsClear(r) && KeptMarks(k) && KeptMarks(k')
    ensures (a == "" ==> l == "" && k == "") && (b == "" ==> r == "" && k' == "")
  {
    var a', b' := ExpandAround(a, f, n, b, fx);
    CanonicalIsKept(f, n);
    l, k, k', r := FoldMarksAround(a', Canonical(f, n), b');
  }

  /** After a number come its marks, and then no suffix for it. */
  lemma NoSuffixAfterMarks(close: string, b: string, ys: seq<string>, fx: FloatExpand)
    requires AllMarks(close) && AllWords(ys) && (ys == [] || !SuffixHere(ys[0]))
    requires b == (if ys == [] then "" else " " + Join(ys))
    ensures Breaks(close + b) && !SuffixAhead(StripCommas(close + b))
  {
    BreaksAppend(close, b);
    MarksPass(close, b, fx);
    if close == "" {
      NothingBefore(close, b);
      NoSuffixAfter(ys);
    }
  }

  /** A number in any form, between any marks, inside any text that does not run into it, normalizes to its digits. */
  lemma NormalizedAround(a: string, t: string, b: string, open: string, f: Form, n: nat, close: string, fx: FloatExpand)
    returns (l: string, k: string, k': string, r: string)
    requires Spelled(t, open, f, n, close) && LeftContext(a) && RightContext(b)
    ensures Normalized(a + t + b, fx) == TrimSpace(l + (k + Canonical(f, n) + k') + r)
    ensures EndsClear(l) && StartsClear(r) && KeptMarks(k) && KeptMarks(k')
    ensures Fields(Lower(a)) == [] && open == "" ==> l == "" && k == ""
    ensures Fields(Lower(b)) == [] && close == "" ==> r == "" && k' == ""
  {
    var xs, ys := FoldAround(a, t, b, open, f, n, close);
    var a1, b1 := JoinFolded(xs, open, f, n, close, ys);
    NoSuffixAfterMarks(close, b1, ys, fx);
    OpensAppend(a1, open);
    l, k, k', r := DigitPassesAround(a1 + open, f, n, close + b1, fx);
  }

  lemma TrimSpaceOfWord(w: string)
    requires IsWord(w)
    ensures TrimSpace(w) == w
  {
  }

  lemma EmptyAround(s: string)
    ensures "" + s + "" == s
  {
  }

  /** On its own, every spelling of `n` normalizes to the digits of `n` (after a kept dollar sign). */
  lemma SpellingsNormalizeAlike(t: string, f: Form, n: nat, fx: FloatExpand)
    requires Spelled(t, "", f, n, "")
    ensures Normalized(t, fx) == Canonical(f, n)
  {
    var l, k, k', r := NormalizedAround("", t, "", "", f, n, "", fx);
    EmptyAround(t);
    EmptyAround(Canonical(f, n));
    TrimSpaceOfWord(Canonical(f, n));
  }

  /** The word shows `n`: its digits, and beside them nothing but what is trimmed off a token. */
  ghost predicate Shows(w: string, n: nat) {
    exists p, q :: w == p + Dec(n) + q && AllCut(p) && AllCut(q)
  }

  predicate AllCut(s: string) {
    forall i :: 0 <= i < |s| ==> s[i] == '.' || s[i] == '$' || s[i] == '%'
  }

  lemma CanonicalShows(k: string, f: Form, n: nat, k': string)
    requires KeptMarks(k) && KeptMarks(k')
    ensures IsWord(k + Canonical(f, n) + k') && Shows(k + Canonical(f, n) + k', n)
  {
    MarkedIsWord(k, Canonical(f, n), k');
    var x := if f.Words? then "" else Prefix(f.dollar);
    NothingBefore("", Dec(n));
    assert Canonical(f, n) == x + Dec(n);
    ConcatAssoc(k, x, Dec(n));
    var p := k + x;
    assert AllCut(p) && AllCut(k');
    assert k + Canonical(f, n) + k' == p + Dec(n) + k';
  }

  /** Inside a text, a word of the normalized text shows `n`. */
  lemma SpellingIsField(a: string, t: string, b: string, open: string, f: Form, n: nat, close: string, fx: FloatExpand)
    returns (w: string)
    requires Spelled(t, open, f, n, close) && LeftContext(a) && RightContext(b)
    ensures w in Fields(Normalized(a + t + b, fx)) && Shows(w, n)
  {
    var l, k, k', r := NormalizedAround(a, t, b, open, f, n, close, fx);
    w := k + Canonical(f, n) + k';
    CanonicalShows(k, f, n, k');
    FieldsTrimSpace(l + w + r);
    FieldsAppend(l + w, r);
    FieldsAppend(l, w);
    FieldsWord(w);
  }

  lemma FieldsInSpace(a: string, t: string, b: string)
    requires AllSpace(a) && AllSpace(b)
    ensures Fields(Lower(a + t + b)) == Fields(Lower(t))
  {
    LowerSpace(a);
    LowerSpace(b);
    FieldsAround(a, t, b);
    NothingAround(Fields(Lower(t)));
  }

  lemma LowerSpace(a: string)
    requires AllSpace(a)
    ensures Fields(Lower(a)) == [] && EndsClear(a) && StartsClear(a)
  {
    FieldsOfSpace(Lower(a));
  }

  lemma NothingAround(ws: seq<string>)
    ensures [] + ws + [] == ws
  {
  }

  lemma LowerFieldsTrimSpace(s: string)
    ensures Fields(Lower(TrimSpace(s))) == Fields(Lower(s))
  {
    var a, b := TrimSpaceParts(s);
    ConcatAssoc(a, TrimSpace(s), b);
    FieldsInSpace(a, TrimSpace(s), b);
  }

  /** Surrounding white space does not change the normalized text. */
  lemma NormalizedTrimSpace(s: string, fx: FloatExpand)
    ensures Normalized(TrimSpace(s), fx) == Normalized(s, fx)
  {
    LowerFieldsTrimSpace(s);
  }
}
