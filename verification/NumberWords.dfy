/** The number-word folder: runs of spelled-out cardinals become plain digits. */
module NumberWords {
  import opened Text

  // ---------------------------------------------------------------- classification

  datatype Kind = Unit(value: int) | Scale(factor: int) | And | Other {
    predicate IsNumber() { Unit? || Scale? }
  }

  const NUMBER_CUT: set<char> := {'.', ',', '$', '%'}

  datatype Table = End | Row(word: string, value: int, rest: Table)

  function UnitTable(): Table {
    Row("zero", 0, Row("one", 1, Row("two", 2, Row("three", 3, Row("four", 4,
    Row("five", 5, Row("six", 6, Row("seven", 7, Row("eight", 8, Row("nine", 9, TeenTable()))))))))))
  }

  function TeenTable(): Table {
    Row("ten", 10, Row("eleven", 11, Row("twelve", 12, Row("thirteen", 13, Row("fourteen", 14,
    Row("fifteen", 15, Row("sixteen", 16, Row("seventeen", 17, Row("eighteen", 18,
    Row("nineteen", 19, TensTable()))))))))))
  }

  function TensTable(): Table {
    Row("twenty", 20, Row("thirty", 30, Row("forty", 40, Row("fifty", 50, Row("sixty", 60,
    Row("seventy", 70, Row("eighty", 80, Row("ninety", 90, End))))))))
  }

  function ScaleTable(): Table {
    Row("hundred", 100, Row("thousand", 1_000, Row("million", 1_000_000, Row("billion", 1_000_000_000, End))))
  }

  /** The value a table gives a word, or -1. */
  function Lookup(table: Table, w: string): int {
    match table
    case End => -1
    case Row(word, value, rest) => if word == w then value else Lookup(rest, w)
  }

  function UnitValue(w: string): int {
    Lookup(UnitTable(), w)
  }

  function ScaleFactor(w: string): int {
    Lookup(ScaleTable(), w)
  }

  function KindOf(w: string): Kind {
    if UnitValue(w) >= 0 then Unit(UnitValue(w))
    else if ScaleFactor(w) >= 0 then Scale(ScaleFactor(w))
    else if w == "and" then And
    else Other
  }

  function TokenKind(token: string): Kind {
    KindOf(TrimSet(token, NUMBER_CUT))
  }

  function Kinds(tokens: seq<string>): (ks: seq<Kind>)
    ensures |ks| == |tokens|
    ensures forall i :: 0 <= i < |ks| ==> ks[i] == TokenKind(tokens[i])
  {
    seq(|tokens|, i requires 0 <= i < |tokens| => TokenKind(tokens[i]))
  }

  // ---------------------------------------------------------------- int64 arithmetic

  const INT64_LIMIT := 0x8000_0000_0000_0000

  predicate FitsInt64(x: int) {
    -INT64_LIMIT <= x < INT64_LIMIT
  }

  /** Two's-complement wrap-around. */
  function Wrap(x: int): (r: int)
    ensures FitsInt64(r) && (r - x) % 0x1_0000_0000_0000_0000 == 0
  {
    if FitsInt64(x) then x else (x + INT64_LIMIT) % (2 * INT64_LIMIT) - INT64_LIMIT
  }

  // ---------------------------------------------------------------- the accumulators

  datatype Acc = Acc(current: int, total: int)

  function Step(acc: Acc, k: Kind): Acc {
    match k
    case Unit(v) => acc.(current := Wrap(acc.current + v))
    case Scale(f) =>
      var c := if acc.current == 0 then 1 else acc.current;
      if f == 100 then acc.(current := Wrap(c * 100))
      else Acc(0, Wrap(acc.total + Wrap(c * f)))
    case _ => acc
  }

  /** No operation of this step leaves the int64 range. */
  predicate StepFits(acc: Acc, k: Kind) {
    match k
    case Unit(v) => FitsInt64(acc.current + v)
    case Scale(f) =>
      var c := if acc.current == 0 then 1 else acc.current;
      FitsInt64(c * f) && (f == 100 || FitsInt64(acc.total + c * f))
    case _ => true
  }

  function Fold(acc: Acc, ks: seq<Kind>): Acc {
    if ks == [] then acc else Step(Fold(acc, ks[..|ks| - 1]), ks[|ks| - 1])
  }

  predicate FoldFits(acc: Acc, ks: seq<Kind>) {
    ks == [] ||
    (FoldFits(acc, ks[..|ks| - 1]) && StepFits(Fold(acc, ks[..|ks| - 1]), ks[|ks| - 1]))
  }

  function RunTotal(ks: seq<Kind>): (total: int)
    ensures FitsInt64(total)
  {
    var acc := Fold(Acc(0, 0), ks);
    Wrap(acc.total + acc.current)
  }

  /** Whatever the words, the accumulators stay in the int64 range. */
  lemma {:induction false} AccumulatorsStayInt64(ks: seq<Kind>)
    ensures var acc := Fold(Acc(0, 0), ks); FitsInt64(acc.current) && FitsInt64(acc.total)
    decreases |ks|
  {
    if ks != [] { AccumulatorsStayInt64(ks[..|ks| - 1]); }
  }

  lemma {:induction false} FoldAppend(acc: Acc, a: seq<Kind>, b: seq<Kind>)
    ensures Fold(acc, a + b) == Fold(Fold(acc, a), b)
    ensures FoldFits(acc, a + b) <==> FoldFits(acc, a) && FoldFits(Fold(acc, a), b)
    decreases |b|
  {
    if b == [] {
      NothingAfter(a, b);
    } else {
      var b' := b[..|b| - 1];
      assert (a + b)[..|a + b| - 1] == a + b';
      FoldAppend(acc, a, b');
    }
  }

  // ---------------------------------------------------------------- runs and the whole text

  /** How many leading tokens belong to the run of number words and later "and"s. */
  function RunLength(ks: seq<Kind>): (n: nat)
    ensures n <= |ks|
    ensures forall i :: 0 <= i < n ==> ks[i].IsNumber() || ks[i].And?
    ensures n < |ks| ==> !ks[n].IsNumber() && !ks[n].And?
    ensures ks != [] && ks[0].IsNumber() ==> n > 0
  {
    if ks != [] && (ks[0].IsNumber() || ks[0].And?) then 1 + RunLength(ks[1..]) else 0
  }

  /** The number of leading tokens the outer loop takes in one turn, and what it makes of them. */
  function HeadLength(ks: seq<Kind>): (n: nat)
    requires ks != []
    ensures 0 < n <= |ks|
  {
    if ks[0].IsNumber() then RunLength(ks) else 1
  }

  function HeadText(token: string, head: seq<Kind>): string {
    if head != [] && head[0].IsNumber() then DecInt(RunTotal(head)) else token
  }

  function FoldTokens(tokens: seq<string>, ks: seq<Kind>): seq<string>
    requires |tokens| == |ks|
    decreases |tokens|
  {
    if tokens == [] then []
    else
      var n := HeadLength(ks);
      [HeadText(tokens[0], ks[..n])] + FoldTokens(tokens[n..], ks[n..])
  }

  function FoldText(s: string): string {
    Join(FoldTokens(Fields(s), Kinds(Fields(s))))
  }

  lemma {:induction false} FoldTokensWords(tokens: seq<string>, ks: seq<Kind>)
    requires |tokens| == |ks| && AllWords(tokens)
    ensures AllWords(FoldTokens(tokens, ks))
    decreases |tokens|
  {
    if tokens != [] {
      var n := HeadLength(ks);
      FoldTokensWords(tokens[n..], ks[n..]);
    }
  }

  lemma RunLengthUnique(ks: seq<Kind>, n: nat)
    requires n <= |ks| && forall i :: 0 <= i < n ==> ks[i].IsNumber() || ks[i].And?
    requires n < |ks| ==> !ks[n].IsNumber() && !ks[n].And?
    ensures RunLength(ks) == n
  {
  }

  /** The inner loop: consume the run that starts at token `i`. */
  method ConsumeRun(ks: seq<Kind>, i: nat) returns (consumed: nat, total: int)
    requires i < |ks| && ks[i].IsNumber()
    ensures consumed == RunLength(ks[i..])
    ensures total == RunTotal(ks[i..][..consumed]) && FitsInt64(total)
  {
    ghost var rest := ks[i..];
    var acc, seen := Acc(0, 0), 0;
    consumed := 0;
    while i + consumed < |ks|
      invariant consumed <= |rest|
      invariant seen == 0 <==> consumed == 0
      invariant acc == Fold(Acc(0, 0), rest[..consumed])
      invariant forall j :: 0 <= j < consumed ==> rest[j].IsNumber() || rest[j].And?
    {
      var k := ks[i + consumed];
      assert rest[..consumed + 1][..consumed] == rest[..consumed];
      if k.IsNumber() {
        acc := Step(acc, k);
        consumed, seen := consumed + 1, seen + 1;
      } else if k.And? && seen > 0 {
        consumed := consumed + 1;
      } else {
        break;
      }
    }
    RunLengthUnique(rest, consumed);
    total := Wrap(acc.total + acc.current);
  }

  /** What is folded of the first `i` tokens, and what the rest folds to. */
  ghost predicate FoldedTo(tokens: seq<string>, ks: seq<Kind>, i: int, out: seq<string>)
    requires |tokens| == |ks|
  {
    0 <= i <= |tokens| && out + FoldTokens(tokens[i..], ks[i..]) == FoldTokens(tokens, ks)
  }

  lemma FoldTokensAt(tokens: seq<string>, ks: seq<Kind>, i: nat, n: nat)
    requires |tokens| == |ks| && i < |tokens| && n == HeadLength(ks[i..])
    ensures FoldTokens(tokens[i..], ks[i..])
         == [HeadText(tokens[i], ks[i..][..n])] + FoldTokens(tokens[i + n..], ks[i + n..])
  {
    assert tokens[i..][n..] == tokens[i + n..] && ks[i..][n..] == ks[i + n..];
  }

  lemma FoldTokensTurn(tokens: seq<string>, ks: seq<Kind>, i: nat, n: nat, out: seq<string>)
    requires |tokens| == |ks| && i < |tokens| && n == HeadLength(ks[i..]) && FoldedTo(tokens, ks, i, out)
    ensures FoldedTo(tokens, ks, i + n, out + [HeadText(tokens[i], ks[i..][..n])])
  {
    FoldTokensAt(tokens, ks, i, n);
    ConcatAssoc(out, [HeadText(tokens[i], ks[i..][..n])], FoldTokens(tokens[i + n..], ks[i + n..]));
  }

  lemma FoldTokensStart(tokens: seq<string>, ks: seq<Kind>)
    requires |tokens| == |ks|
    ensures FoldedTo(tokens, ks, 0, [])
  {
    assert tokens[0..] == tokens && ks[0..] == ks;
    NothingBefore([], FoldTokens(tokens, ks));
  }

  lemma FoldTokensEnd(tokens: seq<string>, ks: seq<Kind>, out: seq<string>)
    requires |tokens| == |ks| && FoldedTo(tokens, ks, |tokens|, out)
    ensures out == FoldTokens(tokens, ks)
  {
    assert tokens[|tokens|..] == [];
    NothingAfter(out, FoldTokens(tokens[|tokens|..], ks[|tokens|..]));
  }

  /** The outer loop: every turn consumes at least one token. */
  method CanonicalizeTokens(tokens: seq<string>, ks: seq<Kind>) returns (out: seq<string>)
    requires |tokens| == |ks|
    ensures out == FoldTokens(tokens, ks)
  {
    out := [];
    var i := 0;
    FoldTokensStart(tokens, ks);
    while i < |tokens|
      invariant FoldedTo(tokens, ks, i, out)
    {
      var text, n := tokens[i], 1;
      if ks[i].IsNumber() {
        var total;
        n, total := ConsumeRun(ks, i);
        text := DecInt(total);
      }
      FoldTokensTurn(tokens, ks, i, n, out);
      out := out + [text];
      i := i + n;
    }
    FoldTokensEnd(tokens, ks, out);
  }

  method CanonicalizeNumberWords(s: string) returns (r: string)
    ensures r == FoldText(s)
    ensures forall ks, n :: Spells(ks, n) && s == Join(Texts(ks)) ==> r == Dec(n)
  {
    forall ks, n | Spells(ks, n) && s == Join(Texts(ks)) ensures FoldText(s) == Dec(n) {
      NumberWordsRoundTrip(n, ks);
    }
    var tokens := Fields(s);
    var out := CanonicalizeTokens(tokens, Kinds(tokens));
    r := Join(out);
  }

  // ---------------------------------------------------------------- spelling numbers

  const SPELL_LIMIT := 1_000_000_000_000

  /** English cardinals below one hundred, one thousand, and 10^12. */
  function SpellTens(n: nat): seq<Kind>
    requires 0 < n < 100
  {
    if n <= 20 || n % 10 == 0 then [Unit(n)] else [Unit(n - n % 10), Unit(n % 10)]
  }

  function SpellHundreds(n: nat): seq<Kind>
    requires 0 < n < 1000
  {
    if n < 100 then SpellTens(n)
    else [Unit(n / 100), Scale(100)] + (if n % 100 == 0 then [] else SpellTens(n % 100))
  }

  function SpellGroup(g: nat, factor: int): seq<Kind>
    requires g < 1000
  {
    if g == 0 then [] else SpellHundreds(g) + [Scale(factor)]
  }

  function SpellGroups(g3: nat, g2: nat, g1: nat, g0: nat): seq<Kind>
    requires g3 < 1000 && g2 < 1000 && g1 < 1000 && g0 < 1000
  {
    SpellGroup(g3, 1_000_000_000) + SpellGroup(g2, 1_000_000) + SpellGroup(g1, 1000)
    + (if g0 == 0 then [] else SpellHundreds(g0))
  }

  function Spell(n: nat): seq<Kind>
    requires n < SPELL_LIMIT
  {
    if n == 0 then [Unit(0)]
    else SpellGroups(n / 1_000_000_000, n / 1_000_000 % 1000, n / 1000 % 1000, n % 1000)
  }

  lemma SpellTensFolds(c: int, t: int, n: nat)
    requires 0 < n < 100 && 0 <= c < 1000
    ensures Fold(Acc(c, t), SpellTens(n)) == Acc(c + n, t)
    ensures FoldFits(Acc(c, t), SpellTens(n))
  {
    if n < 20 || n % 10 == 0 {
      OneUnitFolds(Acc(c, t), n);
    } else {
      OneUnitFolds(Acc(c, t), n - n % 10);
      OneUnitFolds(Acc(c + n - n % 10, t), n % 10);
      FoldAppend(Acc(c, t), [Unit(n - n % 10)], [Unit(n % 10)]);
      assert SpellTens(n) == [Unit(n - n % 10)] + [Unit(n % 10)];
    }
  }

  lemma OneUnitFolds(acc: Acc, v: int)
    requires FitsInt64(acc.current + v)
    ensures Fold(acc, [Unit(v)]) == Acc(acc.current + v, acc.total)
    ensures FoldFits(acc, [Unit(v)])
  {
    assert [Unit(v)][..0] == [];
  }

  lemma HundredsHeadFolds(t: int, h: nat)
    requires 0 < h < 10
    ensures Fold(Acc(0, t), [Unit(h), Scale(100)]) == Acc(h * 100, t)
    ensures FoldFits(Acc(0, t), [Unit(h), Scale(100)])
  {
    var head := [Unit(h), Scale(100)];
    assert head[..1] == [Unit(h)] && head[..1][..0] == [];
    assert Fold(Acc(0, t), head[..1]) == Acc(h, t) && FoldFits(Acc(0, t), head[..1]);
  }

  lemma SpellHundredsFolds(t: int, n: nat)
    requires 0 < n < 1000
    ensures Fold(Acc(0, t), SpellHundreds(n)) == Acc(n, t)
    ensures FoldFits(Acc(0, t), SpellHundreds(n))
  {
    if n < 100 {
      SpellTensFolds(0, t, n);
    } else {
      var head := [Unit(n / 100), Scale(100)];
      HundredsHeadFolds(t, n / 100);
      if n % 100 != 0 {
        FoldAppend(Acc(0, t), head, SpellTens(n % 100));
        SpellTensFolds(n / 100 * 100, t, n % 100);
      } else {
        assert head + [] == head;
      }
    }
  }

  lemma SpellGroupFolds(t: int, g: nat, factor: int)
    requires g < 1000 && 0 <= t && factor in {1000, 1_000_000, 1_000_000_000} && t + g * factor < SPELL_LIMIT
    ensures Fold(Acc(0, t), SpellGroup(g, factor)) == Acc(0, t + g * factor)
    ensures FoldFits(Acc(0, t), SpellGroup(g, factor))
  {
    if g > 0 {
      SpellHundredsFolds(t, g);
      var ks := SpellGroup(g, factor);
      assert ks[..|ks| - 1] == SpellHundreds(g);
    }
  }

  lemma ThenGroup(ks: seq<Kind>, t: int, g: nat, factor: int)
    requires g < 1000 && 0 <= t && factor in {1000, 1_000_000, 1_000_000_000} && t + g * factor < SPELL_LIMIT
    requires Fold(Acc(0, 0), ks) == Acc(0, t) && FoldFits(Acc(0, 0), ks)
    ensures Fold(Acc(0, 0), ks + SpellGroup(g, factor)) == Acc(0, t + g * factor)
    ensures FoldFits(Acc(0, 0), ks + SpellGroup(g, factor))
  {
    SpellGroupFolds(t, g, factor);
    FoldAppend(Acc(0, 0), ks, SpellGroup(g, factor));
  }

  lemma UpperGroupsFold(g3: nat, g2: nat, g1: nat)
    requires g3 < 1000 && g2 < 1000 && g1 < 1000
    ensures var ks := SpellGroup(g3, 1_000_000_000) + SpellGroup(g2, 1_000_000) + SpellGroup(g1, 1000);
      && Fold(Acc(0, 0), ks) == Acc(0, g3 * 1_000_000_000 + g2 * 1_000_000 + g1 * 1000)
      && FoldFits(Acc(0, 0), ks)
  {
    var s3, s2 := SpellGroup(g3, 1_000_000_000), SpellGroup(g2, 1_000_000);
    assert [] + s3 == s3;
    ThenGroup([], 0, g3, 1_000_000_000);
    ThenGroup(s3, g3 * 1_000_000_000, g2, 1_000_000);
    ThenGroup(s3 + s2, g3 * 1_000_000_000 + g2 * 1_000_000, g1, 1000);
  }

  lemma ThenHundreds(ks: seq<Kind>, t: int, g: nat)
    requires g < 1000 && 0 <= t < SPELL_LIMIT
    requires Fold(Acc(0, 0), ks) == Acc(0, t) && FoldFits(Acc(0, 0), ks)
    ensures var tail := if g == 0 then [] else SpellHundreds(g);
      Fold(Acc(0, 0), ks + tail) == Acc(g, t) && FoldFits(Acc(0, 0), ks + tail)
  {
    if g == 0 {
      assert ks + [] == ks;
    } else {
      FoldAppend(Acc(0, 0), ks, SpellHundreds(g));
      SpellHundredsFolds(t, g);
    }
  }

  lemma NumberOfGroups(n: nat)
    requires n < SPELL_LIMIT
    ensures n / 1_000_000_000 < 1000
    ensures n / 1_000_000_000 * 1_000_000_000 + n / 1_000_000 % 1000 * 1_000_000
            + n / 1000 % 1000 * 1000 + n % 1000 == n
  {
  }

  lemma GroupsFold(g3: nat, g2: nat, g1: nat, g0: nat)
    requires g3 < 1000 && g2 < 1000 && g1 < 1000 && g0 < 1000
    ensures var n := g3 * 1_000_000_000 + g2 * 1_000_000 + g1 * 1000 + g0;
      && Fold(Acc(0, 0), SpellGroups(g3, g2, g1, g0)) == Acc(g0, n - g0)
      && FoldFits(Acc(0, 0), SpellGroups(g3, g2, g1, g0))
  {
    UpperGroupsFold(g3, g2, g1);
    ThenHundreds(SpellGroup(g3, 1_000_000_000) + SpellGroup(g2, 1_000_000) + SpellGroup(g1, 1000),
                 g3 * 1_000_000_000 + g2 * 1_000_000 + g1 * 1000, g0);
  }

  /** Folding a spelled number gives the number, and no accumulator operation overflows. */
  lemma SpellFolds(n: nat)
    requires n < SPELL_LIMIT
    ensures RunTotal(Spell(n)) == n
    ensures FoldFits(Acc(0, 0), Spell(n))
  {
    if n == 0 {
      assert Spell(0)[..0] == [];
    } else {
      NumberOfGroups(n);
      GroupsFold(n / 1_000_000_000, n / 1_000_000 % 1000, n / 1000 % 1000, n % 1000);
    }
  }

  predicate Printable(k: Kind) {
    match k
    case Unit(v) => 0 <= v <= 20 || (20 < v < 100 && v % 10 == 0)
    case Scale(f) => f in {100, 1_000, 1_000_000, 1_000_000_000}
    case And => true
    case Other => false
  }

  predicate AllNumbers(ks: seq<Kind>) {
    forall k :: k in ks ==> k.IsNumber() && Printable(k)
  }

  lemma SpellHundredsIsNumbers(n: nat)
    requires 0 < n < 1000
    ensures AllNumbers(SpellHundreds(n))
  {
  }

  lemma SpellGroupIsNumbers(g: nat, factor: int)
    requires g < 1000 && factor in {1000, 1_000_000, 1_000_000_000}
    ensures AllNumbers(SpellGroup(g, factor))
  {
    if g > 0 { SpellHundredsIsNumbers(g); }
  }

  lemma AllNumbersAppend(a: seq<Kind>, b: seq<Kind>)
    requires AllNumbers(a) && AllNumbers(b)
    ensures AllNumbers(a + b)
  {
  }

  lemma SpellGroupsIsNumbers(g3: nat, g2: nat, g1: nat, g0: nat)
    requires g3 < 1000 && g2 < 1000 && g1 < 1000 && g0 < 1000
    ensures AllNumbers(SpellGroups(g3, g2, g1, g0))
  {
    var s3, s2, s1 := SpellGroup(g3, 1_000_000_000), SpellGroup(g2, 1_000_000), SpellGroup(g1, 1000);
    SpellGroupIsNumbers(g3, 1_000_000_000);
    SpellGroupIsNumbers(g2, 1_000_000);
    SpellGroupIsNumbers(g1, 1000);
    if g0 > 0 { SpellHundredsIsNumbers(g0); }
    AllNumbersAppend(s3, s2);
    AllNumbersAppend(s3 + s2, s1);
    AllNumbersAppend(s3 + s2 + s1, if g0 == 0 then [] else SpellHundreds(g0));
  }

  lemma SpellIsNumbers(n: nat)
    requires n < SPELL_LIMIT
    ensures AllNumbers(Spell(n))
  {
    if n > 0 {
      SpellGroupsIsNumbers(n / 1_000_000_000, n / 1_000_000 % 1000, n / 1000 % 1000, n % 1000);
    }
  }

  // ---------------------------------------------------------------- connectives

  function DropAnds(ks: seq<Kind>): seq<Kind> {
    if ks == [] then []
    else DropAnds(ks[..|ks| - 1]) + (if ks[|ks| - 1].And? then [] else [ks[|ks| - 1]])
  }

  lemma {:induction false} DropAndsFolds(acc: Acc, ks: seq<Kind>)
    ensures Fold(acc, DropAnds(ks)) == Fold(acc, ks)
    ensures FoldFits(acc, DropAnds(ks)) <==> FoldFits(acc, ks)
    decreases |ks|
  {
    if ks != [] {
      DropAndsFolds(acc, ks[..|ks| - 1]);
      var d := DropAnds(ks);
      if ks[|ks| - 1].And? {
        assert d == DropAnds(ks[..|ks| - 1]);
      } else {
        assert d[..|d| - 1] == DropAnds(ks[..|ks| - 1]);
      }
    }
  }

  lemma {:induction false} DropAndsKeeps(ks: seq<Kind>, i: nat)
    requires i < |ks| && !ks[i].And?
    ensures ks[i] in DropAnds(ks)
    decreases |ks|
  {
    if i < |ks| - 1 { DropAndsKeeps(ks[..|ks| - 1], i); }
  }

  // ---------------------------------------------------------------- omitted ones

  /** Nothing stands for a factor here: the beginning, or right after "thousand", "million" or "billion". */
  predicate NoFactor(ks: seq<Kind>) {
    ks == [] || (ks[|ks| - 1].Scale? && ks[|ks| - 1].factor != 100)
  }

  /** The same words with "one" before every scale word that nothing stands before: "a thousand" is one thousand. */
  function WithOnes(ks: seq<Kind>): seq<Kind> {
    if ks == [] then []
    else
      var init, last := ks[..|ks| - 1], ks[|ks| - 1];
      WithOnes(init) + (if last.Scale? && NoFactor(init) then [Unit(1), last] else [last])
  }

  lemma TwoStepsFold(acc: Acc, j: Kind, k: Kind)
    ensures Fold(acc, [j, k]) == Step(Step(acc, j), k)
    ensures FoldFits(acc, [j, k]) <==> StepFits(acc, j) && StepFits(Step(acc, j), k)
  {
    assert [j, k][..1] == [j] && [j][..0] == [];
    assert Fold(acc, [j]) == Step(acc, j) && (FoldFits(acc, [j]) <==> StepFits(acc, j));
  }

  lemma OneStepFolds(acc: Acc, k: Kind)
    ensures Fold(acc, [k]) == Step(acc, k)
    ensures FoldFits(acc, [k]) <==> StepFits(acc, k)
  {
    assert [k][..0] == [];
  }

  /** A bare scale word counts as if "one" stood before it. */
  lemma {:induction false} OnesAreImplied(t: int, ks: seq<Kind>)
    ensures Fold(Acc(0, t), WithOnes(ks)) == Fold(Acc(0, t), ks)
    ensures FoldFits(Acc(0, t), WithOnes(ks)) <==> FoldFits(Acc(0, t), ks)
    decreases |ks|
  {
    if ks != [] {
      var init, last := ks[..|ks| - 1], ks[|ks| - 1];
      var acc := Fold(Acc(0, t), init);
      OnesAreImplied(t, init);
      if last.Scale? && NoFactor(init) {
        assert acc.current == 0;
        FoldAppend(Acc(0, t), WithOnes(init), [Unit(1), last]);
        TwoStepsFold(acc, Unit(1), last);
      } else {
        FoldAppend(Acc(0, t), WithOnes(init), [last]);
        OneStepFolds(acc, last);
      }
    }
  }

  lemma {:induction false} WithOnesKeeps(ks: seq<Kind>, k: Kind)
    requires k in ks
    ensures k in WithOnes(ks)
    decreases |ks|
  {
    if k != ks[|ks| - 1] { WithOnesKeeps(ks[..|ks| - 1], k); }
  }

  /** The words spell `n`: a number word first, "and" anywhere after it, "one" left out wherever nothing else stands
      before a scale word, or not. */
  ghost predicate Spells(ks: seq<Kind>, n: nat) {
    n < SPELL_LIMIT && ks != [] && !ks[0].And? && WithOnes(DropAnds(ks)) == Spell(n)
  }

  /** Something stands for a factor before every scale word. */
  predicate Full(ks: seq<Kind>) {
    forall i :: 0 <= i < |ks| && ks[i].Scale? ==> i > 0 && !(ks[i - 1].Scale? && ks[i - 1].factor != 100)
  }

  lemma FullAppend(a: seq<Kind>, b: seq<Kind>)
    requires Full(a) && Full(b)
    ensures Full(a + b)
  {
    var ks := a + b;
    forall i | 0 <= i < |ks| && ks[i].Scale? ensures i > 0 && !(ks[i - 1].Scale? && ks[i - 1].factor != 100) {
      if i >= |a| { assert b[i - |a|] == ks[i] && b[i - |a| - 1] == ks[i - 1]; }
    }
  }

  lemma SpellHundredsIsFull(n: nat)
    requires 0 < n < 1000
    ensures Full(SpellHundreds(n)) && !NoFactor(SpellHundreds(n))
  {
    if n >= 100 {
      var head := [Unit(n / 100), Scale(100)];
      if n % 100 == 0 { NothingAfter(head, []); } else { FullAppend(head, SpellTens(n % 100)); }
    }
  }

  lemma SpellGroupIsFull(g: nat, factor: int)
    requires g < 1000
    ensures Full(SpellGroup(g, factor))
  {
    if g > 0 {
      SpellHundredsIsFull(g);
      var ks := SpellGroup(g, factor);
      assert ks[..|ks| - 1] == SpellHundreds(g);
    }
  }

  /** A number spelled as the English printer spells it leaves nothing out. */
  lemma SpellIsFull(n: nat)
    requires n < SPELL_LIMIT
    ensures Full(Spell(n))
  {
    var g3, g2, g1, g0 := n / 1_000_000_000, n / 1_000_000 % 1000, n / 1000 % 1000, n % 1000;
    var s3, s2, s1 := SpellGroup(g3, 1_000_000_000), SpellGroup(g2, 1_000_000), SpellGroup(g1, 1000);
    SpellGroupIsFull(g3, 1_000_000_000);
    SpellGroupIsFull(g2, 1_000_000);
    SpellGroupIsFull(g1, 1000);
    if g0 > 0 { SpellHundredsIsFull(g0); }
    FullAppend(s3, s2);
    FullAppend(s3 + s2, s1);
    FullAppend(s3 + s2 + s1, if g0 == 0 then [] else SpellHundreds(g0));
  }

  lemma FullPrefix(ks: seq<Kind>, n: nat)
    requires Full(ks) && n <= |ks|
    ensures Full(ks[..n])
  {
  }

  lemma FullLast(ks: seq<Kind>)
    requires Full(ks) && ks != []
    ensures ks[|ks| - 1].Scale? ==> !NoFactor(ks[..|ks| - 1])
  {
  }

  /** Where nothing is left out, nothing is put in. */
  lemma {:induction false} NothingPutIn(ks: seq<Kind>)
    requires Full(ks)
    ensures WithOnes(ks) == ks
    decreases |ks|
  {
    if ks != [] {
      FullPrefix(ks, |ks| - 1);
      FullLast(ks);
      NothingPutIn(ks[..|ks| - 1]);
      InitAndLast(ks);
    }
  }

  lemma OneThenInit(ks: seq<Kind>)
    requires ks != []
    ensures ([Unit(1)] + ks)[..|ks|] == [Unit(1)] + ks[..|ks| - 1]
    ensures ([Unit(1)] + ks)[|ks|] == ks[|ks| - 1]
    ensures [Unit(1)] + ks == [Unit(1)] + ks[..|ks| - 1] + [ks[|ks| - 1]]
  {
  }

  /** Where "one" is left out in front, it is put in there and nowhere else. */
  lemma {:induction false} OnePutInFront(ks: seq<Kind>)
    requires Full([Unit(1)] + ks) && ks != [] && ks[0].Scale?
    ensures WithOnes(ks) == [Unit(1)] + ks
    decreases |ks|
  {
    var init, last := ks[..|ks| - 1], ks[|ks| - 1];
    OneThenInit(ks);
    if init != [] {
      FullPrefix([Unit(1)] + ks, |ks|);
      FullLast([Unit(1)] + ks);
      assert ([Unit(1)] + init)[|init|] == init[|init| - 1];
      OnePutInFront(init);
    }
  }

  lemma {:induction false} DropNoAnds(ks: seq<Kind>)
    requires forall k :: k in ks ==> !k.And?
    ensures DropAnds(ks) == ks
    decreases |ks|
  {
    if ks != [] {
      DropNoAnds(ks[..|ks| - 1]);
      InitAndLast(ks);
    }
  }

  /** The printer's words spell the number, and still do without a leading "one" before a scale word. */
  lemma SpelledWithOrWithoutOne(n: nat)
    requires n < SPELL_LIMIT
    ensures Spells(Spell(n), n)
    ensures |Spell(n)| > 1 && Spell(n)[0] == Unit(1) && Spell(n)[1].Scale? ==> Spells(Spell(n)[1..], n)
  {
    var ks := Spell(n);
    SpellIsFull(n);
    SpellIsNumbers(n);
    DropNoAnds(ks);
    NothingPutIn(ks);
    if |ks| > 1 && ks[0] == Unit(1) && ks[1].Scale? {
      HeadAndTail(ks);
      DropNoAnds(ks[1..]);
      OnePutInFront(ks[1..]);
    }
  }

  lemma SpellsIsRun(ks: seq<Kind>, n: nat)
    requires Spells(ks, n)
    ensures forall i :: 0 <= i < |ks| ==> (ks[i].IsNumber() || ks[i].And?) && Printable(ks[i])
    ensures ks[0].IsNumber()
    ensures RunTotal(ks) == n
    ensures FoldFits(Acc(0, 0), ks)
  {
    SpellIsNumbers(n);
    forall i | 0 <= i < |ks| ensures (ks[i].IsNumber() || ks[i].And?) && Printable(ks[i]) {
      if !ks[i].And? {
        DropAndsKeeps(ks, i);
        WithOnesKeeps(DropAnds(ks), ks[i]);
      }
    }
    DropAndsFolds(Acc(0, 0), ks);
    OnesAreImplied(0, DropAnds(ks));
    SpellFolds(n);
  }

  // ---------------------------------------------------------------- folding inside a text

  predicate Stops(k: Kind) {
    !k.IsNumber() && !k.And?
  }

  /** The context to the left does not run into a number that follows it. */
  predicate LeftOpen(ks: seq<Kind>) {
    ks == [] || Stops(ks[|ks| - 1])
  }

  /** The context to the right does not continue a number before it. */
  predicate RightOpen(ks: seq<Kind>) {
    ks == [] || Stops(ks[0])
  }

  lemma HeadLengthAppend(kx: seq<Kind>, ky: seq<Kind>)
    requires kx != [] && (LeftOpen(kx) || RightOpen(ky))
    ensures HeadLength(kx + ky) == HeadLength(kx)
  {
    var ks := kx + ky;
    assert ks[0] == kx[0];
    if kx[0].IsNumber() {
      var n := RunLength(kx);
      assert forall i :: 0 <= i < n ==> ks[i] == kx[i];
      assert n < |ks| ==> ks[n] == if n < |kx| then kx[n] else ky[0];
      RunLengthUnique(ks, n);
    }
  }

  lemma FoldTokensSplit(tokens: seq<string>, ks: seq<Kind>)
    requires |tokens| == |ks| && tokens != []
    ensures var n := HeadLength(ks);
      FoldTokens(tokens, ks) == [HeadText(tokens[0], ks[..n])] + FoldTokens(tokens[n..], ks[n..])
  {
  }

  /** The first turn over a seam is the first turn before it. */
  lemma FoldTokensSeamTurn(xs: seq<string>, kx: seq<Kind>, ys: seq<string>, ky: seq<Kind>)
    requires |xs| == |kx| && |ys| == |ky| && xs != []
    requires LeftOpen(kx) || RightOpen(ky)
    ensures var n := HeadLength(kx);
      FoldTokens(xs + ys, kx + ky) == [HeadText(xs[0], kx[..n])] + FoldTokens(xs[n..] + ys, kx[n..] + ky)
  {
    var n := HeadLength(kx);
    HeadLengthAppend(kx, ky);
    DropConcat(xs, ys, n);
    DropConcat(kx, ky, n);
    FoldTokensSplit(xs + ys, kx + ky);
  }

  /** Where no run crosses the seam, both sides fold on their own. */
  lemma {:induction false} FoldTokensAppend(xs: seq<string>, kx: seq<Kind>, ys: seq<string>, ky: seq<Kind>)
    requires |xs| == |kx| && |ys| == |ky|
    requires LeftOpen(kx) || RightOpen(ky)
    ensures FoldTokens(xs + ys, kx + ky) == FoldTokens(xs, kx) + FoldTokens(ys, ky)
    decreases |xs|
  {
    if xs == [] {
      NothingBefore(xs, ys);
      NothingBefore(kx, ky);
      NothingBefore(FoldTokens(xs, kx), FoldTokens(ys, ky));
    } else {
      var n := HeadLength(kx);
      FoldTokensSeamTurn(xs, kx, ys, ky);
      FoldTokensSplit(xs, kx);
      FoldTokensAppend(xs[n..], kx[n..], ys, ky);
      Regroup(FoldTokens(xs + ys, kx + ky), FoldTokens(xs, kx), [HeadText(xs[0], kx[..n])],
              FoldTokens(xs[n..], kx[n..]), FoldTokens(ys, ky));
    }
  }

  lemma FoldTokensRun(tokens: seq<string>, ks: seq<Kind>, n: nat)
    requires |tokens| == |ks| && Spells(ks, n)
    ensures FoldTokens(tokens, ks) == [Dec(n)]
  {
    SpellsIsRun(ks, n);
    RunLengthUnique(ks, |ks|);
    assert ks[..|ks|] == ks && tokens[|ks|..] == [];
  }

  lemma KindsAppend(a: seq<string>, b: seq<string>)
    ensures Kinds(a + b) == Kinds(a) + Kinds(b)
  {
  }

  /** A spelled number folds to its decimal digits, wherever it stands. */
  lemma SpelledNumberFolds(xs: seq<string>, tokens: seq<string>, ys: seq<string>, n: nat)
    requires Spells(Kinds(tokens), n) && LeftOpen(Kinds(xs)) && RightOpen(Kinds(ys))
    ensures FoldTokens(xs + tokens + ys, Kinds(xs + tokens + ys))
         == FoldTokens(xs, Kinds(xs)) + [Dec(n)] + FoldTokens(ys, Kinds(ys))
  {
    KindsAppend(xs, tokens);
    KindsAppend(xs + tokens, ys);
    FoldTokensAppend(xs + tokens, Kinds(xs) + Kinds(tokens), ys, Kinds(ys));
    FoldTokensAppend(xs, Kinds(xs), tokens, Kinds(tokens));
    FoldTokensRun(tokens, Kinds(tokens), n);
  }

  /** A token that is neither a number word nor "and" passes through, wherever it stands. */
  lemma PlainTokenPasses(xs: seq<string>, token: string, ys: seq<string>)
    requires Stops(TokenKind(token))
    ensures FoldTokens(xs + [token] + ys, Kinds(xs + [token] + ys))
         == FoldTokens(xs, Kinds(xs)) + [token] + FoldTokens(ys, Kinds(ys))
  {
    var ks := Kinds([token]);
    KindsAppend(xs, [token] + ys);
    KindsAppend([token], ys);
    assert xs + [token] + ys == xs + ([token] + ys);
    FoldTokensAppend(xs, Kinds(xs), [token] + ys, ks + Kinds(ys));
    FoldTokensAppend([token], ks, ys, Kinds(ys));
    assert [token][1..] == [] && ks[1..] == [];
  }

  /** A full stop, comma, dollar or percent sign beside a word is trimmed off before the word is looked up. */
  lemma TrimmedMarks(c: char, w: string)
    requires c in {'.', ',', '$', '%'}
    ensures TokenKind([c] + w) == TokenKind(w) == TokenKind(w + [c])
  {
    assert ([c] + w)[1..] == w;
    TrimSetSnoc(w, c, NUMBER_CUT);
  }

  // ---------------------------------------------------------------- words as text

  function UnitText(v: int): string {
    match v
    case 0 => "zero" case 1 => "one" case 2 => "two" case 3 => "three"
    case 4 => "four" case 5 => "five" case 6 => "six" case 7 => "seven"
    case 8 => "eight" case 9 => "nine" case 10 => "ten" case 11 => "eleven"
    case 12 => "twelve" case 13 => "thirteen" case 14 => "fourteen" case 15 => "fifteen"
    case 16 => "sixteen" case 17 => "seventeen" case 18 => "eighteen" case 19 => "nineteen"
    case 20 => "twenty" case 30 => "thirty" case 40 => "forty" case 50 => "fifty"
    case 60 => "sixty" case 70 => "seventy" case 80 => "eighty" case _ => "ninety"
  }

  function ScaleText(f: int): string {
    match f
    case 100 => "hundred" case 1_000 => "thousand" case 1_000_000 => "million" case _ => "billion"
  }

  function TextOf(k: Kind): string {
    match k
    case Unit(v) => UnitText(v)
    case Scale(f) => ScaleText(f)
    case _ => "and"
  }

  lemma LowOnesReadBack(v: int)
    requires 0 <= v < 5
    ensures UnitValue(UnitText(v)) == v
  {
    assert UnitValue("zero") == 0;
    assert UnitValue("one") == 1;
    assert UnitValue("two") == 2;
    assert UnitValue("three") == 3;
    assert UnitValue("four") == 4;
  }

  lemma HighOnesReadBack(v: int)
    requires 5 <= v < 10
    ensures UnitValue(UnitText(v)) == v
  {
    assert UnitValue("five") == 5;
    assert UnitValue("six") == 6;
    assert UnitValue("seven") == 7;
    assert UnitValue("eight") == 8;
    assert UnitValue("nine") == 9;
  }

  lemma LowTeensReadBack(v: int)
    requires 10 <= v < 15
    ensures UnitValue(UnitText(v)) == v
  {
    if v == 10 { assert Lookup(TeenTable(), "ten") == UnitValue("ten") == 10; }
    if v == 11 { assert Lookup(TeenTable(), "eleven") == UnitValue("eleven") == 11; }
    if v == 12 { assert Lookup(TeenTable(), "twelve") == UnitValue("twelve") == 12; }
    if v == 13 { assert Lookup(TeenTable(), "thirteen") == UnitValue("thirteen") == 13; }
    if v == 14 { assert Lookup(TeenTable(), "fourteen") == UnitValue("fourteen") == 14; }
  }

  lemma HighTeensReadBack(v: int)
    requires 15 <= v < 18
    ensures UnitValue(UnitText(v)) == v
  {
    if v == 15 { assert Lookup(TeenTable(), "fifteen") == UnitValue("fifteen") == 15; }
    if v == 16 { assert Lookup(TeenTable(), "sixteen") == UnitValue("sixteen") == 16; }
    if v == 17 { assert Lookup(TeenTable(), "seventeen") == UnitValue("seventeen") == 17; }
  }

  lemma LastTeensReadBack(v: int)
    requires 18 <= v < 20
    ensures UnitValue(UnitText(v)) == v
  {
    if v == 18 { assert Lookup(TeenTable(), "eighteen") == UnitValue("eighteen") == 18; }
    if v == 19 { assert Lookup(TeenTable(), "nineteen") == UnitValue("nineteen") == 19; }
  }

  lemma TwentiesReadBack(v: int)
    requires v in {20, 30}
    ensures UnitValue(UnitText(v)) == v
  {
    if v == 20 {
      assert Lookup(TensTable(), "twenty") == 20;
      assert Lookup(TeenTable(), "twenty") == 20;
    }
    if v == 30 {
      assert Lookup(TensTable(), "thirty") == 30;
      assert Lookup(TeenTable(), "thirty") == 30;
    }
  }

  lemma FortiesReadBack(v: int)
    requires v in {40, 50}
    ensures UnitValue(UnitText(v)) == v
  {
    if v == 40 {
      assert Lookup(TensTable(), "forty") == 40;
      assert Lookup(TeenTable(), "forty") == 40;
    }
    if v == 50 {
      assert Lookup(TensTable(), "fifty") == 50;
      assert Lookup(TeenTable(), "fifty") == 50;
    }
  }

  lemma SixtiesReadBack(v: int)
    requires v in {60, 70}
    ensures UnitValue(UnitText(v)) == v
  {
    if v == 60 {
      assert Lookup(TensTable(), "sixty") == 60;
      assert Lookup(TeenTable(), "sixty") == 60;
    }
    if v == 70 {
      assert Lookup(TensTable(), "seventy") == 70;
      assert Lookup(TeenTable(), "seventy") == 70;
    }
  }

  lemma EightyReadsBack()
    ensures UnitValue("eighty") == 80
  {
    assert Lookup(TensTable(), "eighty") == 80;
    assert Lookup(TeenTable(), "eighty") == 80;
  }

  lemma NinetyReadsBack()
    ensures UnitValue("ninety") == 90
  {
    assert Lookup(TensTable(), "ninety") == 90;
    assert Lookup(TeenTable(), "ninety") == 90;
  }

  lemma UnitReadsBack(v: int)
    requires Printable(Unit(v))
    ensures UnitValue(UnitText(v)) == v
  {
    if v < 5 { LowOnesReadBack(v); }
    else if v < 10 { HighOnesReadBack(v); }
    else if v < 15 { LowTeensReadBack(v); }
    else if v < 18 { HighTeensReadBack(v); }
    else if v < 20 { LastTeensReadBack(v); }
    else if v <= 30 { TwentiesReadBack(v); }
    else if v <= 50 { FortiesReadBack(v); }
    else if v <= 70 { SixtiesReadBack(v); }
    else if v == 80 { EightyReadsBack(); }
    else { NinetyReadsBack(); }
  }

  lemma OtherWordsReadBack()
    ensures KindOf("hundred") == Scale(100) && KindOf("thousand") == Scale(1_000)
    ensures KindOf("million") == Scale(1_000_000) && KindOf("billion") == Scale(1_000_000_000)
    ensures KindOf("and") == And
  {
    assert Lookup(TensTable(), "hundred") == Lookup(TeenTable(), "hundred") == UnitValue("hundred") == -1;
    assert Lookup(TensTable(), "thousand") == Lookup(TeenTable(), "thousand") == UnitValue("thousand") == -1;
    assert Lookup(TensTable(), "million") == Lookup(TeenTable(), "million") == UnitValue("million") == -1;
    assert Lookup(TensTable(), "billion") == Lookup(TeenTable(), "billion") == UnitValue("billion") == -1;
    assert Lookup(TensTable(), "and") == Lookup(TeenTable(), "and") == UnitValue("and") == -1;
  }

  predicate Clean(w: string) {
    IsWord(w) && TrimSet(w, NUMBER_CUT) == w
  }

  lemma UnitTextIsClean(v: int)
    requires Printable(Unit(v))
    ensures Clean(UnitText(v))
  {
    var w := UnitText(v);
    assert w[0] !in NUMBER_CUT && w[|w| - 1] !in NUMBER_CUT;
  }

  lemma OtherTextIsClean(k: Kind)
    requires Printable(k) && !k.Unit?
    ensures Clean(TextOf(k))
  {
    var w := TextOf(k);
    assert w[0] !in NUMBER_CUT && w[|w| - 1] !in NUMBER_CUT;
  }

  /** Printing a word and classifying it again gives the same word. */
  lemma WordReadsBack(k: Kind)
    requires Printable(k)
    ensures IsWord(TextOf(k)) && TokenKind(TextOf(k)) == k
  {
    OtherWordsReadBack();
    if k.Unit? {
      UnitTextIsClean(k.value);
      UnitReadsBack(k.value);
    } else {
      OtherTextIsClean(k);
    }
  }

  function Texts(ks: seq<Kind>): (ws: seq<string>)
    ensures |ws| == |ks| && forall i :: 0 <= i < |ks| ==> ws[i] == TextOf(ks[i])
  {
    seq(|ks|, i requires 0 <= i < |ks| => TextOf(ks[i]))
  }

  /** The round trip on text: `ks` spells `n`, with any "and"s after its first word. */
  lemma NumberWordsRoundTrip(n: nat, ks: seq<Kind>)
    requires Spells(ks, n)
    ensures FoldText(Join(Texts(ks))) == Dec(n)
    ensures FoldFits(Acc(0, 0), ks)
  {
    var ws := Texts(ks);
    SpellsIsRun(ks, n);
    forall i | 0 <= i < |ks| ensures IsWord(ws[i]) && TokenKind(ws[i]) == ks[i] {
      WordReadsBack(ks[i]);
    }
    assert Kinds(ws) == ks;
    FieldsJoin(ws);
    FoldTokensRun(ws, ks, n);
  }

  lemma HeadThenRest(k: Kind, rest: seq<Kind>)
    ensures ([k] + rest)[0] == k && ([k] + rest)[1..] == rest
    ensures rest != [] ==> ([k] + rest)[1] == rest[0]
  {
  }

  lemma TextsCons(k: Kind, rest: seq<Kind>)
    ensures Texts([k] + rest) == [TextOf(k)] + Texts(rest)
  {
  }

  lemma OneInFront(rest: seq<Kind>)
    requires rest != []
    ensures Join(Texts([Unit(1)] + rest)) == "one " + Join(Texts(rest))
  {
    var one := TextOf(Unit(1));
    TextsCons(Unit(1), rest);
    JoinCons(one, Texts(rest));
    ConcatAssoc(one, " ", Join(Texts(rest)));
  }

  /** "thousand five hundred" folds as "one thousand five hundred" does: to 1500. */
  lemma LeadingOneMayGo(n: nat, rest: seq<Kind>)
    requires n < SPELL_LIMIT && Spell(n) == [Unit(1)] + rest && rest != [] && rest[0].Scale?
    ensures FoldText(Join(Texts(rest))) == Dec(n)
    ensures FoldText("one " + Join(Texts(rest))) == Dec(n)
  {
    HeadThenRest(Unit(1), rest);
    OneInFront(rest);
    SpelledWithOrWithoutOne(n);
    NumberWordsRoundTrip(n, rest);
    NumberWordsRoundTrip(n, Spell(n));
  }
}
