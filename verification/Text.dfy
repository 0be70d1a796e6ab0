/** The string operations the guard uses, on strings whose characters stand for bytes.
    Case folding and white space are those of ASCII. */
module Text {

  // ---------------------------------------------------------------- characters

  predicate IsSpace(c: char) {
    c == ' ' || 9 <= c as int <= 13
  }

  predicate IsDigit(c: char) {
    '0' <= c <= '9'
  }

  predicate IsWordChar(c: char) {
    IsDigit(c) || 'a' <= c <= 'z' || 'A' <= c <= 'Z' || c == '_'
  }

  predicate AllDigits(s: string) {
    forall i :: 0 <= i < |s| ==> IsDigit(s[i])
  }

  predicate NoSpace(s: string) {
    forall i :: 0 <= i < |s| ==> !IsSpace(s[i])
  }

  predicate IsWord(s: string) {
    s != "" && NoSpace(s)
  }

  predicate AllWords(ws: seq<string>) {
    forall i :: 0 <= i < |ws| ==> IsWord(ws[i])
  }

  /** `s` can stand to the left of a word without touching it. */
  predicate EndsClear(s: string) {
    s == "" || IsSpace(s[|s| - 1])
  }

  /** `s` can stand to the right of a word without touching it. */
  predicate StartsClear(s: string) {
    s == "" || IsSpace(s[0])
  }

  function LowerChar(c: char): char {
    if 'A' <= c <= 'Z' then (c as int + 32) as char else c
  }

  function Lower(s: string): (r: string)
    ensures |r| == |s|
    ensures forall i :: 0 <= i < |s| ==> r[i] == LowerChar(s[i])
  {
    if s == "" then "" else [LowerChar(s[0])] + Lower(s[1..])
  }

  lemma {:induction false} LowerAppend(a: string, b: string)
    ensures Lower(a + b) == Lower(a) + Lower(b)
  {
    var x, y := Lower(a + b), Lower(a) + Lower(b);
    assert forall i :: 0 <= i < |x| ==> x[i] == y[i];
  }

  lemma LowerTwice(s: string)
    ensures Lower(Lower(s)) == Lower(s)
  {
  }

  /** The last `n` elements, or all if there are fewer. */
  function LastOf<T>(xs: seq<T>, n: nat): (last: seq<T>)
    ensures |last| == if |xs| > n then n else |xs|
  {
    if |xs| > n then xs[|xs| - n..] else xs
  }

  lemma ConcatAssoc<T>(a: seq<T>, b: seq<T>, c: seq<T>)
    ensures (a + b) + c == a + (b + c)
  {
  }

  lemma NothingBefore<T>(none: seq<T>, xs: seq<T>)
    requires none == []
    ensures none + xs == xs
  {
  }

  lemma NothingAfter<T>(xs: seq<T>, none: seq<T>)
    requires none == []
    ensures xs + none == xs
  {
  }

  lemma HeadAndTail<T>(xs: seq<T>)
    requires xs != []
    ensures xs == [xs[0]] + xs[1..]
  {
  }

  lemma InitAndLast<T>(xs: seq<T>)
    requires xs != []
    ensures xs == xs[..|xs| - 1] + [xs[|xs| - 1]]
  {
  }

  lemma ConcatFour<T>(a: seq<T>, b: seq<T>, c: seq<T>, d: seq<T>)
    ensures a + (b + c + d) == (a + b) + c + d
  {
  }

  /** Splitting off the same head on both sides of an equation. */
  lemma Regroup<T>(whole: seq<T>, left: seq<T>, head: seq<T>, mid: seq<T>, right: seq<T>)
    requires left == head + mid && whole == head + (mid + right)
    ensures whole == left + right
  {
  }

  lemma DropConcat<T>(a: seq<T>, b: seq<T>, i: nat)
    requires i <= |a|
    ensures (a + b)[i..] == a[i..] + b
    ensures (a + b)[..i] == a[..i]
  {
  }

  function Flatten<T>(xss: seq<seq<T>>): seq<T> {
    if xss == [] then [] else Flatten(xss[..|xss| - 1]) + xss[|xss| - 1]
  }

  lemma FlattenSnoc<T>(xss: seq<seq<T>>, xs: seq<T>)
    ensures Flatten(xss + [xs]) == Flatten(xss) + xs
  {
    assert (xss + [xs])[..|xss|] == xss;
  }

  lemma {:induction false} FlattenCons<T>(xs: seq<T>, xss: seq<seq<T>>)
    ensures Flatten([xs] + xss) == xs + Flatten(xss)
    decreases |xss|
  {
    if xss == [] {
      assert ([xs] + xss)[..0] == [] && ([xs] + xss)[0] == xs;
      NothingBefore(Flatten<T>([]), xs);
      NothingAfter(xs, Flatten(xss));
    } else {
      var init, last := xss[..|xss| - 1], xss[|xss| - 1];
      assert ([xs] + xss)[..|xss|] == [xs] + init;
      FlattenCons(xs, init);
      ConcatAssoc(xs, Flatten(init), last);
    }
  }

  // ---------------------------------------------------------------- substrings

  predicate At(s: string, i: int, sub: string) {
    0 <= i && i + |sub| <= |s| && s[i..i + |sub|] == sub
  }

  predicate Contains(s: string, sub: string) {
    exists i :: 0 <= i <= |s| && At(s, i, sub)
  }

  lemma ContainsMiddle(a: string, m: string, b: string)
    ensures Contains(a + m + b, m)
  {
    assert At(a + m + b, |a|, m);
  }

  lemma {:induction false} ContainsTransitive(s: string, t: string, u: string)
    requires Contains(s, t) && Contains(t, u)
    ensures Contains(s, u)
  {
    var i :| 0 <= i <= |s| && At(s, i, t);
    var j :| 0 <= j <= |t| && At(t, j, u);
    forall k | 0 <= k < |u| ensures s[i + j + k] == u[k] {
      assert u[k] == t[j..j + |u|][k] && t[j + k] == s[i..i + |t|][j + k];
    }
    assert At(s, i + j, u);
  }

  // ---------------------------------------------------------------- trimming

  function TrimLeft(s: string): (r: string)
    ensures |r| <= |s| && (r == "" || !IsSpace(r[0]))
  {
    if s != "" && IsSpace(s[0]) then TrimLeft(s[1..]) else s
  }

  function TrimRight(s: string): (r: string)
    ensures |r| <= |s| && (r == "" || !IsSpace(r[|r| - 1]))
  {
    if s != "" && IsSpace(s[|s| - 1]) then TrimRight(s[..|s| - 1]) else s
  }

  function TrimSpace(s: string): string {
    TrimRight(TrimLeft(s))
  }

  predicate AllSpace(s: string) {
    forall i :: 0 <= i < |s| ==> IsSpace(s[i])
  }

  lemma {:induction false} TrimLeftParts(s: string) returns (a: string)
    ensures s == a + TrimLeft(s) && AllSpace(a)
  {
    if s != "" && IsSpace(s[0]) {
      a := TrimLeftParts(s[1..]);
      a := [s[0]] + a;
    } else {
      a := "";
    }
  }

  lemma {:induction false} TrimRightParts(s: string) returns (b: string)
    ensures s == TrimRight(s) + b && AllSpace(b)
  {
    if s != "" && IsSpace(s[|s| - 1]) {
      b := TrimRightParts(s[..|s| - 1]);
      b := b + [s[|s| - 1]];
    } else {
      b := "";
    }
  }

  lemma TrimSpaceParts(s: string) returns (a: string, b: string)
    ensures s == a + (TrimSpace(s) + b)
    ensures AllSpace(a) && AllSpace(b)
  {
    a := TrimLeftParts(s);
    b := TrimRightParts(TrimLeft(s));
  }

  lemma TrimClean(s: string)
    requires s != "" && !IsSpace(s[0]) && !IsSpace(s[|s| - 1])
    ensures TrimSpace(s) == s
  {
  }

  lemma {:induction false} TrimRightHead(s: string)
    requires TrimRight(s) != ""
    ensures TrimRight(s)[0] == s[0]
  {
    if IsSpace(s[|s| - 1]) { TrimRightHead(s[..|s| - 1]); }
  }

  lemma TrimTwice(s: string)
    ensures TrimSpace(TrimSpace(s)) == TrimSpace(s)
  {
    var t := TrimSpace(s);
    if t != "" {
      TrimRightHead(TrimLeft(s));
      TrimClean(t);
    }
  }

  /** Trimming a fixed set of characters off both ends. */
  function TrimSet(s: string, cut: set<char>): (r: string)
    ensures |r| <= |s|
    ensures r == "" || (r[0] !in cut && r[|r| - 1] !in cut)
  {
    if s == "" then ""
    else if s[0] in cut then TrimSet(s[1..], cut)
    else if s[|s| - 1] in cut then TrimSet(s[..|s| - 1], cut)
    else s
  }

  lemma {:induction false} TrimSetSnoc(s: string, c: char, cut: set<char>)
    requires c in cut
    ensures TrimSet(s + [c], cut) == TrimSet(s, cut)
    decreases |s|
  {
    if s == "" {
      assert ([c] + "")[1..] == "" && s + [c] == [c] + "";
    } else if s[0] in cut {
      assert (s + [c])[1..] == s[1..] + [c];
      TrimSetSnoc(s[1..], c, cut);
    } else {
      assert (s + [c])[..|s + [c]| - 1] == s;
    }
  }

  // ---------------------------------------------------------------- words

  function WordLen(s: string): (n: nat)
    ensures n <= |s|
    ensures forall i :: 0 <= i < n ==> !IsSpace(s[i])
    ensures n < |s| ==> IsSpace(s[n])
  {
    if s == "" || IsSpace(s[0]) then 0 else 1 + WordLen(s[1..])
  }

  function Fields(s: string): (ws: seq<string>)
    ensures AllWords(ws)
    decreases |s|
  {
    if s == "" then []
    else if IsSpace(s[0]) then Fields(s[1..])
    else
      var n := WordLen(s);
      [s[..n]] + Fields(s[n..])
  }

  lemma WordLenUnique(s: string, n: nat)
    requires n <= |s| && (forall i :: 0 <= i < n ==> !IsSpace(s[i])) && (n < |s| ==> IsSpace(s[n]))
    ensures WordLen(s) == n
  {
  }

  lemma {:induction false} FieldsWord(w: string)
    requires IsWord(w)
    ensures Fields(w) == [w]
  {
    assert w[..|w|] == w;
    WordLenUnique(w, |w|);
    assert w[|w|..] == "";
  }

  lemma FieldsStep(s: string)
    requires s != "" && !IsSpace(s[0])
    ensures Fields(s) == [s[..WordLen(s)]] + Fields(s[WordLen(s)..])
  {
  }

  /** Splitting commutes with concatenation when the seam is white space. */
  lemma {:induction false} FieldsAppend(a: string, b: string)
    requires EndsClear(a) || StartsClear(b)
    ensures Fields(a + b) == Fields(a) + Fields(b)
    decreases |a|
  {
    if a == "" {
      NothingBefore(a, b);
      NothingBefore(Fields(a), Fields(b));
    } else if IsSpace(a[0]) {
      DropConcat(a, b, 1);
      FieldsAppend(a[1..], b);
    } else {
      var n := WordLen(a);
      FieldsAppend(a[n..], b);
      FieldsStep(a);
      FirstWordBefore(a, b);
      Regroup(Fields(a + b), Fields(a), [a[..n]], Fields(a[n..]), Fields(b));
    }
  }

  lemma FirstWordBefore(a: string, b: string)
    requires a != "" && !IsSpace(a[0]) && (EndsClear(a) || StartsClear(b))
    ensures Fields(a + b) == [a[..WordLen(a)]] + Fields(a[WordLen(a)..] + b)
  {
    WordLenAppend(a, b);
    DropConcat(a, b, WordLen(a));
    FieldsStep(a + b);
  }

  lemma WordLenAppend(a: string, b: string)
    requires a != "" && (EndsClear(a) || StartsClear(b))
    ensures WordLen(a + b) == WordLen(a)
  {
    var n := WordLen(a);
    if n == |a| { assert !IsSpace(a[|a| - 1]); }
    assert forall i :: 0 <= i < n ==> (a + b)[i] == a[i];
    WordLenUnique(a + b, n);
  }

  lemma {:induction false} FieldsOfSpace(s: string)
    requires AllSpace(s)
    ensures Fields(s) == []
    decreases |s|
  {
    if s != "" { FieldsOfSpace(s[1..]); }
  }

  lemma FieldsTrimSpace(s: string)
    ensures Fields(TrimSpace(s)) == Fields(s)
  {
    var a, b := TrimSpaceParts(s);
    var t := TrimSpace(s);
    assert EndsClear(a) && StartsClear(b);
    FieldsAppend(a, t + b);
    FieldsAppend(t, b);
    FieldsOfSpace(a);
    FieldsOfSpace(b);
  }

  /** Where a word of a text stands. */
  lemma {:induction false} FieldPlace(s: string, w: string) returns (a: string, b: string)
    requires w in Fields(s)
    ensures s == a + w + b && EndsClear(a) && StartsClear(b)
    decreases |s|
  {
    var n := if IsSpace(s[0]) then 1 else WordLen(s);
    if n == WordLen(s) && s[..n] == w {
      a, b := "", s[n..];
    } else {
      if !IsSpace(s[0]) { FieldsStep(s); }
      var a';
      a', b := FieldPlace(s[n..], w);
      a := s[..n] + a';
      FieldPlaceStep(s, n, a', w, b);
    }
  }

  lemma FieldPlaceStep(s: string, n: nat, a: string, w: string, b: string)
    requires 0 < n <= |s| && s[n..] == a + w + b && EndsClear(a) && IsWord(w)
    requires if IsSpace(s[0]) then n == 1 else n == WordLen(s)
    ensures s == (s[..n] + a) + w + b && EndsClear(s[..n] + a)
  {
    assert s == s[..n] + s[n..];
    ConcatFour(s[..n], a, w, b);
    if a == "" { assert s[n..][0] == w[0] && s[..n] + a == s[..n]; }
  }

  lemma FieldIsContained(s: string, w: string)
    requires w in Fields(s)
    ensures Contains(s, w)
  {
    var a, b := FieldPlace(s, w);
    ContainsMiddle(a, w, b);
  }

  function Join(ws: seq<string>): string {
    if |ws| == 0 then ""
    else if |ws| == 1 then ws[0]
    else ws[0] + " " + Join(ws[1..])
  }

  /** Splitting undoes joining. */
  lemma {:induction false} FieldsJoin(ws: seq<string>)
    requires AllWords(ws)
    ensures Fields(Join(ws)) == ws
    decreases |ws|
  {
    if |ws| == 1 {
      FieldsWord(ws[0]);
    } else if |ws| > 1 {
      FieldsJoin(ws[1..]);
      FieldsFirst(ws[0], Join(ws[1..]));
    }
  }

  lemma FieldsFirst(w: string, rest: string)
    requires IsWord(w)
    ensures Fields(w + " " + rest) == [w] + Fields(rest)
  {
    FieldsWord(w);
    FieldsOfSpace(" ");
    FieldsAppend(w, " ");
    FieldsAppend(w + " ", rest);
    NothingAfter([w], Fields(" "));
  }

  lemma JoinCons(w: string, ws: seq<string>)
    ensures Join([w] + ws) == w + (if ws == [] then "" else " " + Join(ws))
  {
    assert ([w] + ws)[1..] == ws;
  }

  /** Joined text around one of its words: what is to the left, the word, and what is to the right. */
  lemma {:induction false} JoinAround(xs: seq<string>, w: string, ys: seq<string>) returns (a: string, b: string)
    ensures Join(xs + [w] + ys) == a + w + b
    ensures EndsClear(a) && StartsClear(b)
    ensures xs == [] ==> a == ""
    ensures b == (if ys == [] then "" else " " + Join(ys))
    decreases |xs|
  {
    if xs == [] {
      a, b := "", if ys == [] then "" else " " + Join(ys);
      assert xs + [w] + ys == [w] + ys;
      JoinCons(w, ys);
    } else {
      var a', b' := JoinAround(xs[1..], w, ys);
      assert xs + [w] + ys == [xs[0]] + (xs[1..] + [w] + ys);
      JoinCons(xs[0], xs[1..] + [w] + ys);
      a, b := xs[0] + " " + a', b';
      ConcatAssoc(xs[0] + " ", a', w);
      ConcatAssoc(xs[0] + " ", a' + w, b);
    }
  }

  // ---------------------------------------------------------------- lines

  function JoinLines(ls: seq<string>): string {
    if |ls| == 0 then ""
    else if |ls| == 1 then ls[0]
    else JoinLines(ls[..|ls| - 1]) + "\n" + ls[|ls| - 1]
  }

  /** Joining is splicing with one newline in between. */
  lemma {:induction false} JoinLinesAppend(a: seq<string>, b: seq<string>)
    requires a != [] && b != []
    ensures JoinLines(a + b) == JoinLines(a) + ("\n" + JoinLines(b))
    decreases |b|
  {
    var init, last := b[..|b| - 1], b[|b| - 1];
    assert (a + b)[..|a + b| - 1] == a + init;
    if init == [] {
      NothingAfter(a, init);
      ConcatAssoc(JoinLines(a), "\n", last);
    } else {
      JoinLinesAppend(a, init);
      MoveTail(JoinLines(a), JoinLines(init), last);
    }
  }

  lemma MoveTail(a: string, b: string, l: string)
    ensures a + ("\n" + b) + "\n" + l == a + ("\n" + (b + "\n" + l))
  {
  }

  /** Line `i` stands at `starts[i]`, one newline and nothing else after the line before it. */
  predicate LineAt(text: string, ls: seq<string>, starts: seq<nat>, i: nat)
    requires i < |starts| == |ls|
  {
    && At(text, starts[i], ls[i])
    && if i == 0 then starts[i] == 0
       else starts[i] == starts[i - 1] + |ls[i - 1]| + 1 && At(text, starts[i] - 1, "\n")
  }

  ghost predicate LinesAt(text: string, ls: seq<string>, starts: seq<nat>) {
    && |starts| == |ls| && ls != []
    && (forall i :: 0 <= i < |ls| ==> LineAt(text, ls, starts, i))
    && starts[|ls| - 1] + |ls[|ls| - 1]| == |text|
  }

  /** `text` is these lines, one after another. */
  ghost predicate IsLines(text: string, ls: seq<string>) {
    if ls == [] then text == "" else exists starts :: LinesAt(text, ls, starts)
  }

  lemma AtBefore(a: string, b: string, i: int, m: string)
    requires At(a, i, m)
    ensures At(a + b, i, m)
  {
    assert (a + b)[i..i + |m|] == a[i..i + |m|];
  }

  lemma LineStays(text: string, ls: seq<string>, starts: seq<nat>, more: string, l: string, start: nat, i: nat)
    requires i < |starts| == |ls| && LineAt(text, ls, starts, i)
    ensures LineAt(text + more, ls + [l], starts + [start], i)
  {
    AtBefore(text, more, starts[i], ls[i]);
    if i > 0 { AtBefore(text, more, starts[i] - 1, "\n"); }
  }

  lemma LastLine(text: string, l: string)
    ensures At(text + ("\n" + l), |text| + 1, l) && At(text + ("\n" + l), |text|, "\n")
  {
    var whole := text + ("\n" + l);
    assert whole[|text| + 1..|text| + 1 + |l|] == l;
    assert whole[|text|..|text| + 1] == "\n";
  }

  lemma LinesSnoc(text: string, ls: seq<string>, starts: seq<nat>, l: string)
    requires LinesAt(text, ls, starts)
    ensures LinesAt(text + ("\n" + l), ls + [l], starts + [|text| + 1])
  {
    var whole, ls', starts' := text + ("\n" + l), ls + [l], starts + [|text| + 1];
    LastLine(text, l);
    forall i | 0 <= i < |ls'| ensures LineAt(whole, ls', starts', i) {
      if i < |ls| { LineStays(text, ls, starts, "\n" + l, l, |text| + 1, i); }
    }
  }

  lemma {:induction false} JoinLinesAt(ls: seq<string>) returns (starts: seq<nat>)
    requires ls != []
    ensures LinesAt(JoinLines(ls), ls, starts)
    decreases |ls|
  {
    starts := [0];
    if |ls| > 1 {
      var init := ls[..|ls| - 1];
      starts := JoinLinesAt(init);
      LinesSnoc(JoinLines(init), init, starts, ls[|ls| - 1]);
      ConcatAssoc(JoinLines(init), "\n", ls[|ls| - 1]);
      InitAndLast(ls);
      starts := starts + [|JoinLines(init)| + 1];
    }
  }

  lemma JoinLinesIsLines(ls: seq<string>)
    ensures IsLines(JoinLines(ls), ls)
  {
    if ls != [] { var starts := JoinLinesAt(ls); }
  }

  predicate NoNewline(ls: seq<string>) {
    forall i :: 0 <= i < |ls| ==> '\n' !in ls[i]
  }

  /** A line without newlines ends at the first newline after its start, or where the text does. */
  lemma LineEnds(text: string, ls: seq<string>, starts: seq<nat>, i: nat)
    requires LinesAt(text, ls, starts) && i < |ls| && '\n' !in ls[i]
    ensures var end := starts[i] + |ls[i]|;
      && end <= |text| && ls[i] == text[starts[i]..end]
      && (forall k :: starts[i] <= k < end ==> text[k] != '\n')
      && (i + 1 < |ls| ==> end < |text| && text[end] == '\n' && starts[i + 1] == end + 1)
      && (i + 1 == |ls| ==> end == |text|)
  {
    assert LineAt(text, ls, starts, i);
    assert forall k :: starts[i] <= k < starts[i] + |ls[i]| ==> text[k] == ls[i][k - starts[i]];
    if i + 1 < |ls| {
      assert LineAt(text, ls, starts, i + 1);
      assert text[starts[i + 1] - 1] == text[starts[i + 1] - 1..starts[i + 1]][0];
    }
  }

  lemma SameLine(text: string, a: seq<string>, s: seq<nat>, b: seq<string>, t: seq<nat>, i: nat)
    requires LinesAt(text, a, s) && LinesAt(text, b, t) && NoNewline(a) && NoNewline(b)
    requires i < |a| && i < |b| && s[i] == t[i]
    ensures a[i] == b[i] && (i + 1 < |a| <==> i + 1 < |b|) && (i + 1 < |a| ==> s[i + 1] == t[i + 1])
  {
    LineEnds(text, a, s, i);
    LineEnds(text, b, t, i);
  }

  lemma {:induction false} SameStarts(text: string, a: seq<string>, s: seq<nat>, b: seq<string>, t: seq<nat>, i: nat)
    requires LinesAt(text, a, s) && LinesAt(text, b, t) && NoNewline(a) && NoNewline(b) && i < |a|
    ensures i < |b| && s[i] == t[i] && a[i] == b[i] && (i + 1 == |a| ==> |a| == |b|)
  {
    assert LineAt(text, a, s, 0) && LineAt(text, b, t, 0);
    if i > 0 {
      SameStarts(text, a, s, b, t, i - 1);
      SameLine(text, a, s, b, t, i - 1);
    }
    SameLine(text, a, s, b, t, i);
  }

  /** Lines that hold no newline are the only ones that make up the text. */
  lemma LinesUnique(text: string, a: seq<string>, b: seq<string>)
    requires IsLines(text, a) && IsLines(text, b) && NoNewline(a) && NoNewline(b) && a != [] && b != []
    ensures a == b
  {
    var s :| LinesAt(text, a, s);
    var t :| LinesAt(text, b, t);
    forall i | 0 <= i < |a| ensures i < |b| && a[i] == b[i] {
      SameStarts(text, a, s, b, t, i);
    }
    SameStarts(text, a, s, b, t, |a| - 1);
  }

  // ---------------------------------------------------------------- decimals

  function DigitChar(d: int): (c: char)
    requires 0 <= d <= 9
    ensures IsDigit(c)
  {
    ('0' as int + d) as char
  }

  /** The decimal digits of `n`, as strconv.FormatInt prints them. */
  function Dec(n: nat): (r: string)
    ensures r != "" && AllDigits(r)
  {
    if n < 10 then [DigitChar(n)] else Dec(n / 10) + [DigitChar(n % 10)]
  }

  function DecInt(i: int): (r: string)
    ensures IsWord(r)
  {
    if i < 0 then "-" + Dec(-i) else Dec(i)
  }

  function DigitsValue(s: string): (v: nat)
    requires AllDigits(s)
  {
    if s == "" then 0
    else DigitsValue(s[..|s| - 1]) * 10 + (s[|s| - 1] as int - '0' as int)
  }

  function Pad3(n: nat): (r: string)
    requires n < 1000
    ensures |r| == 3 && AllDigits(r)
  {
    [DigitChar(n / 100), DigitChar(n / 10 % 10), DigitChar(n % 10)]
  }

  lemma DecSnoc(q: nat, d: nat)
    requires q > 0 && d < 10
    ensures Dec(q * 10 + d) == Dec(q) + [DigitChar(d)]
  {
    assert (q * 10 + d) / 10 == q && (q * 10 + d) % 10 == d;
  }

  lemma Pad3Digits(d2: nat, d1: nat, d0: nat)
    requires d2 < 10 && d1 < 10 && d0 < 10
    ensures Pad3(d2 * 100 + d1 * 10 + d0) == [DigitChar(d2), DigitChar(d1), DigitChar(d0)]
  {
    var n := d2 * 100 + d1 * 10 + d0;
    assert n / 10 == d2 * 10 + d1 && n % 10 == d0 && n / 100 == d2;
  }

  lemma DecFourParts(h: nat, d2: nat, d1: nat, d0: nat)
    requires h > 0 && d2 < 10 && d1 < 10 && d0 < 10
    ensures Dec(((h * 10 + d2) * 10 + d1) * 10 + d0) == Dec(h) + Pad3(d2 * 100 + d1 * 10 + d0)
  {
    var d := [DigitChar(d2)] + [DigitChar(d1)] + [DigitChar(d0)];
    DecSnoc(h, d2);
    DecSnoc(h * 10 + d2, d1);
    DecSnoc((h * 10 + d2) * 10 + d1, d0);
    Pad3Digits(d2, d1, d0);
    ConcatAssoc(Dec(h), [DigitChar(d2)], [DigitChar(d1)]);
    ConcatAssoc(Dec(h), [DigitChar(d2)] + [DigitChar(d1)], [DigitChar(d0)]);
  }

  lemma FourParts(n: nat) returns (h: nat, d2: nat, d1: nat, d0: nat)
    requires n >= 1000
    ensures h == n / 1000 && h > 0 && d2 < 10 && d1 < 10 && d0 < 10
    ensures n % 1000 == d2 * 100 + d1 * 10 + d0
    ensures n == ((h * 10 + d2) * 10 + d1) * 10 + d0
  {
    h := n / 1000;
    var r := n % 1000;
    assert n == h * 1000 + r;
    d2, d1, d0 := ThreeParts(r);
  }

  lemma ThreeParts(r: nat) returns (d2: nat, d1: nat, d0: nat)
    requires r < 1000
    ensures d2 < 10 && d1 < 10 && d0 < 10 && r == d2 * 100 + d1 * 10 + d0
  {
    d2, d1, d0 := r / 100, r % 100 / 10, r % 10;
    assert r % 100 % 10 == r % 10;
  }

  lemma DecByThousands(n: nat)
    requires n >= 1000
    ensures Dec(n) == Dec(n / 1000) + Pad3(n % 1000)
  {
    var h, d2, d1, d0 := FourParts(n);
    DecFourParts(h, d2, d1, d0);
  }

  lemma {:induction false} DigitsValueDec(n: nat)
    ensures DigitsValue(Dec(n)) == n
  {
    var d := Dec(n);
    if n < 10 {
      assert d[..0] == "";
    } else {
      DigitsValueDec(n / 10);
      assert d[..|d| - 1] == Dec(n / 10);
    }
  }

  // ---------------------------------------------------------------- the byte-wise order

  predicate StrLeq(a: string, b: string) {
    if a == "" then true
    else if b == "" then false
    else a[0] < b[0] || (a[0] == b[0] && StrLeq(a[1..], b[1..]))
  }

  lemma {:induction false} StrLeqTotal(a: string, b: string)
    ensures StrLeq(a, b) || StrLeq(b, a)
    ensures StrLeq(a, b) && StrLeq(b, a) ==> a == b
    decreases |a|
  {
    if a != "" && b != "" {
      StrLeqTotal(a[1..], b[1..]);
      assert a == [a[0]] + a[1..] && b == [b[0]] + b[1..];
    }
  }

  lemma {:induction false} StrLeqTransitive(a: string, b: string, c: string)
    requires StrLeq(a, b) && StrLeq(b, c)
    ensures StrLeq(a, c)
    decreases |a|
  {
    if a != "" && a[0] == b[0] && b[0] == c[0] {
      StrLeqTransitive(a[1..], b[1..], c[1..]);
    }
  }

  /** `a` has the smaller byte at `i`, where the two differ first. */
  predicate SmallerAt(a: string, b: string, i: int) {
    0 <= i < |a| && i < |b| && a[i] < b[i] && forall k :: 0 <= k < i ==> a[k] == b[k]
  }

  /** Byte by byte: a prefix comes first, else the smaller byte at the first difference. */
  ghost predicate IsBefore(a: string, b: string) {
    a <= b || exists i :: SmallerAt(a, b, i)
  }

  lemma {:induction false} StrLeqIff(a: string, b: string)
    ensures StrLeq(a, b) <==> IsBefore(a, b)
    decreases |a|
  {
    if a != "" && b != "" {
      if a[0] == b[0] {
        StrLeqIff(a[1..], b[1..]);
        BeforeTail(a, b);
      } else {
        FirstDiffers(a, b);
      }
    }
  }

  lemma FirstDiffers(a: string, b: string)
    requires a != "" && b != "" && a[0] != b[0]
    ensures IsBefore(a, b) <==> a[0] < b[0]
  {
    if a[0] < b[0] { assert SmallerAt(a, b, 0); }
  }

  lemma SmallerAtTail(a: string, b: string, i: int)
    requires a != "" && b != "" && a[0] == b[0]
    ensures SmallerAt(a, b, i) <==> SmallerAt(a[1..], b[1..], i - 1)
  {
    forall k | 0 < k < |a| && k < |b| ensures a[1..][k - 1] == a[k] && b[1..][k - 1] == b[k] {}
    if SmallerAt(a[1..], b[1..], i - 1) {
      forall k | 0 <= k < i ensures a[k] == b[k] {
        if k > 0 { assert a[1..][k - 1] == b[1..][k - 1]; }
      }
    }
  }

  lemma PrefixTail(a: string, b: string)
    requires a != "" && b != "" && a[0] == b[0]
    ensures a <= b <==> a[1..] <= b[1..]
  {
    HeadAndTail(a);
    HeadAndTail(b);
  }

  lemma BeforeTail(a: string, b: string)
    requires a != "" && b != "" && a[0] == b[0]
    ensures IsBefore(a, b) <==> IsBefore(a[1..], b[1..])
  {
    PrefixTail(a, b);
    if i :| SmallerAt(a, b, i) { SmallerAtTail(a, b, i); }
    if i :| SmallerAt(a[1..], b[1..], i) { SmallerAtTail(a, b, i + 1); }
  }
}
