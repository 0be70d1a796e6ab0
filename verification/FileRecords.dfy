/** The snapshot file: its line format, its parser, and the record list every mutation edits. */
module FileRecords {
  import opened Text
  import opened Entries
  import opened Stores

  datatype Record = Record(id: string, content: string, boundIdentity: string, sourceClass: string,
                           flags: seq<string>, quarantined: bool)

  function ToEntry(r: Record): Entry {
    Entry(r.content, r.boundIdentity, r.sourceClass, r.flags, r.quarantined)
  }

  function RecordFrom(id: string, e: Entry): Record {
    Record(id, e.content, e.boundIdentity, e.sourceClass, e.flags, e.quarantined)
  }

  // ---------------------------------------------------------------- lines

  /** The JSON line codec: one record to a line and back. */
  datatype Codec = Codec(encode: Record -> string, decode: string -> Option<Record>)

  /** A JSON object is one line between braces, whatever it holds. */
  ghost predicate OneLine(line: string) {
    line != "" && !IsSpace(line[0]) && !IsSpace(line[|line| - 1]) && '\n' !in line
  }

  ghost predicate Frames(c: Codec) {
    forall r :: OneLine(c.encode(r))
  }

  /** The scanner's buffer must hold a whole line with its end. */
  const LINE_LIMIT := 16 * 1024 * 1024

  /** What a load makes of the line that save writes for a record. */
  function ReadBack(c: Codec, r: Record): Option<Record> {
    if |c.encode(r)| >= LINE_LIMIT then None
    else
      var decoded := c.decode(c.encode(r));
      if decoded.Some? && decoded.value.id == "" then None else decoded
  }

  predicate Readable(c: Codec, r: Record) {
    ReadBack(c, r).Some?
  }

  /** The record has an id, fits a line, and is what its line decodes to. */
  predicate Storable(c: Codec, r: Record) {
    r.id != "" && |c.encode(r)| < LINE_LIMIT && c.decode(c.encode(r)) == Some(r)
  }

  predicate AllReadable(c: Codec, rs: seq<Record>) {
    forall i :: 0 <= i < |rs| ==> Readable(c, rs[i])
  }

  predicate AllStorable(c: Codec, rs: seq<Record>) {
    forall i :: 0 <= i < |rs| ==> Storable(c, rs[i])
  }

  function Serialize(c: Codec, rs: seq<Record>): string {
    if rs == [] then "" else c.encode(rs[0]) + "\n" + Serialize(c, rs[1..])
  }

  method EncodeAll(c: Codec, rs: seq<Record>) returns (buf: string)
    ensures buf == Serialize(c, rs)
  {
    buf := "";
    assert rs[0..] == rs;
    for i := 0 to |rs|
      invariant buf + Serialize(c, rs[i..]) == Serialize(c, rs)
    {
      assert rs[i..][1..] == rs[i + 1..];
      ConcatAssoc(buf, c.encode(rs[i]) + "\n", Serialize(c, rs[i + 1..]));
      buf := buf + (c.encode(rs[i]) + "\n");
    }
  }

  // ---------------------------------------------------------------- parsing

  datatype ErrorKind = LineTooLong | BadLine | MissingId

  datatype Parsed = Parsed(records: seq<Record>) | ParseError(kind: ErrorKind, line: nat)

  function LineEnd(s: string): (n: nat)
    ensures n <= |s| && '\n' !in s[..n]
    ensures n < |s| ==> s[n] == '\n'
  {
    if s == "" || s[0] == '\n' then 0
    else
      assert forall n :: 0 < n <= |s| ==> s[..n] == [s[0]] + s[1..][..n - 1];
      1 + LineEnd(s[1..])
  }

  function AfterLine(s: string): (rest: string)
    requires s != ""
    ensures |rest| < |s|
  {
    if LineEnd(s) < |s| then s[LineEnd(s) + 1..] else ""
  }

  function Prepend(rs: seq<Record>, p: Parsed): Parsed {
    if p.Parsed? then Parsed(rs + p.records) else p
  }

  /** Line by line: blank lines are skipped, the first bad one stops the parse. */
  function ParseLines(c: Codec, s: string, line: nat): Parsed
    decreases |s|
  {
    if s == "" then Parsed([])
    else if LineEnd(s) >= LINE_LIMIT then ParseError(LineTooLong, line)
    else
      var text := TrimSpace(s[..LineEnd(s)]);
      if text == "" then ParseLines(c, AfterLine(s), line + 1)
      else match c.decode(text)
        case None => ParseError(BadLine, line + 1)
        case Some(r) =>
          if r.id == "" then ParseError(MissingId, line + 1)
          else Prepend([r], ParseLines(c, AfterLine(s), line + 1))
  }

  /** A missing file is an empty store. */
  function ParseFile(c: Codec, file: Option<string>): Parsed {
    if file.None? then Parsed([]) else ParseLines(c, file.value, 0)
  }

  // ---------------------------------------------------------------- a parse, by the lines of the file

  /** A line that stops no load: it fits, and is blank or decodes to a record with an id. */
  predicate Loads(c: Codec, l: string) {
    && |l| < 16 * 1024 * 1024
    && var text := TrimSpace(l);
       text == "" || (c.decode(text).Some? && c.decode(text).value.id != "")
  }

  /** What such a line adds to the records. */
  function RecordsOn(c: Codec, l: string): seq<Record> {
    var text := TrimSpace(l);
    if text == "" || c.decode(text).None? then [] else [c.decode(text).value]
  }

  /** Why a line stops a load, and how it is numbered: a line that is too long counts the lines before it. */
  predicate IsErrorOf(c: Codec, l: string, before: nat, kind: ErrorKind, line: nat) {
    if |l| >= 16 * 1024 * 1024 then kind == LineTooLong && line == before
    else
      var text := TrimSpace(l);
      && text != "" && line == before + 1
      && if c.decode(text).None? then kind == BadLine else c.decode(text).value.id == "" && kind == MissingId
  }

  /** The records of all lines in their order, or the error of the first line that stops the load. */
  ghost predicate IsParseOf(c: Codec, ls: seq<string>, before: nat, p: Parsed) {
    match p
    case Parsed(records) =>
      && (forall i :: 0 <= i < |ls| ==> Loads(c, ls[i]))
      && records == Flatten(seq(|ls|, i requires 0 <= i < |ls| => RecordsOn(c, ls[i])))
    case ParseError(kind, line) =>
      exists i: nat :: i < |ls| && (forall j :: 0 <= j < i ==> Loads(c, ls[j]))
        && IsErrorOf(c, ls[i], before + i, kind, line)
  }

  /** The parse of a file, by the lines between its newlines. */
  ghost predicate IsParse(c: Codec, text: string, p: Parsed) {
    exists ls :: IsLines(text, ls) && NoNewline(ls) && IsParseOf(c, ls, 0, p)
  }

  lemma LoadsCons(c: Codec, first: string, ls: seq<string>, n: nat)
    requires Loads(c, first) && n <= |ls| && forall i :: 0 <= i < n ==> Loads(c, ls[i])
    ensures forall i :: 0 <= i < n + 1 ==> Loads(c, ([first] + ls)[i])
  {
    forall i | 0 <= i < n + 1 ensures Loads(c, ([first] + ls)[i]) {
      if i > 0 { assert ([first] + ls)[i] == ls[i - 1]; }
    }
  }

  lemma RecordsCons(c: Codec, first: string, ls: seq<string>)
    ensures var all := [first] + ls;
      Flatten(seq(|all|, i requires 0 <= i < |all| => RecordsOn(c, all[i])))
      == RecordsOn(c, first) + Flatten(seq(|ls|, i requires 0 <= i < |ls| => RecordsOn(c, ls[i])))
  {
    var all := [first] + ls;
    var each := seq(|ls|, i requires 0 <= i < |ls| => RecordsOn(c, ls[i]));
    assert seq(|all|, i requires 0 <= i < |all| => RecordsOn(c, all[i])) == [RecordsOn(c, first)] + each;
    FlattenCons(RecordsOn(c, first), each);
  }

  lemma ParsedCons(c: Codec, first: string, ls: seq<string>, before: nat, tail: Parsed)
    requires Loads(c, first) && IsParseOf(c, ls, before + 1, tail)
    ensures IsParseOf(c, [first] + ls, before, Prepend(RecordsOn(c, first), tail))
  {
    match tail {
      case Parsed(_) =>
        LoadsCons(c, first, ls, |ls|);
        RecordsCons(c, first, ls);
      case ParseError(kind, line) =>
        var i: nat :| i < |ls| && (forall j :: 0 <= j < i ==> Loads(c, ls[j]))
          && IsErrorOf(c, ls[i], before + 1 + i, kind, line);
        LoadsCons(c, first, ls, i);
        assert ([first] + ls)[i + 1] == ls[i];
    }
  }

  lemma OnlyLine(s: string)
    requires s != "" && LineEnd(s) == |s|
    ensures s[..LineEnd(s)] == s && AfterLine(s) == ""
  {
  }

  lemma SplitAt(s: string, n: nat)
    requires n < |s| && s[n] == '\n'
    ensures s == s[..n] + ("\n" + s[n + 1..])
  {
  }

  /** The first line and the lines after it make up the text. */
  lemma LinesTurn(s: string, rest: seq<string>)
    requires s != "" && NoNewline(rest)
    requires if LineEnd(s) < |s| then rest != [] && AfterLine(s) == JoinLines(rest) else rest == []
    ensures var ls := [s[..LineEnd(s)]] + rest; s == JoinLines(ls) && NoNewline(ls)
  {
    if rest != [] {
      SplitAt(s, LineEnd(s));
      JoinLinesAppend([s[..LineEnd(s)]], rest);
    } else {
      OnlyLine(s);
      NothingAfter([s[..LineEnd(s)]], rest);
    }
  }

  lemma PrependNothing(p: Parsed)
    ensures Prepend([], p) == p
  {
  }

  /** One turn of the parse, by its line. */
  lemma ParseTurn(c: Codec, s: string, line: nat)
    requires s != ""
    ensures var l, p := s[..LineEnd(s)], ParseLines(c, s, line);
      if Loads(c, l) then p == Prepend(RecordsOn(c, l), ParseLines(c, AfterLine(s), line + 1))
      else p.ParseError? && IsErrorOf(c, l, line, p.kind, p.line)
  {
    PrependNothing(ParseLines(c, AfterLine(s), line + 1));
  }

  lemma StopsHere(c: Codec, first: string, ls: seq<string>, before: nat, p: Parsed)
    requires p.ParseError? && IsErrorOf(c, first, before, p.kind, p.line)
    ensures IsParseOf(c, [first] + ls, before, p)
  {
    assert ([first] + ls)[0] == first;
  }

  lemma ParsedTurn(c: Codec, s: string, line: nat, rest: seq<string>)
    requires s != "" && IsParseOf(c, rest, line + 1, ParseLines(c, AfterLine(s), line + 1))
    ensures IsParseOf(c, [s[..LineEnd(s)]] + rest, line, ParseLines(c, s, line))
  {
    ParseTurn(c, s, line);
    if Loads(c, s[..LineEnd(s)]) {
      ParsedCons(c, s[..LineEnd(s)], rest, line, ParseLines(c, AfterLine(s), line + 1));
    } else {
      StopsHere(c, s[..LineEnd(s)], rest, line, ParseLines(c, s, line));
    }
  }

  lemma {:induction false} ParsedByLines(c: Codec, s: string, line: nat) returns (ls: seq<string>)
    ensures ls != [] && s == JoinLines(ls) && NoNewline(ls)
    ensures IsParseOf(c, ls, line, ParseLines(c, s, line))
    decreases |s|
  {
    if s == "" {
      ls := [""];
      EmptyParses(c, line);
    } else {
      var rest := [];
      if LineEnd(s) < |s| {
        rest := ParsedByLines(c, AfterLine(s), line + 1);
      } else {
        NoLinesParse(c, line + 1);
        OnlyLine(s);
      }
      LinesTurn(s, rest);
      ParsedTurn(c, s, line, rest);
      ls := [s[..LineEnd(s)]] + rest;
    }
  }

  lemma NoLinesParse(c: Codec, line: nat)
    ensures IsParseOf(c, [], line, ParseLines(c, "", line))
  {
  }

  lemma EmptyParses(c: Codec, line: nat)
    ensures IsParseOf(c, [""], line, ParseLines(c, "", line)) && NoNewline([""])
  {
    assert TrimSpace("") == "";
    var none := seq(1, i requires 0 <= i < 1 => RecordsOn(c, [""][i]));
    assert none == [] + [[]];
    FlattenSnoc<Record>([], []);
  }

  lemma ParseIsByLines(c: Codec, text: string)
    ensures IsParse(c, text, ParseFile(c, Some(text)))
  {
    var ls := ParsedByLines(c, text, 0);
    JoinLinesIsLines(ls);
  }

  /** A missing file and an empty one hold no records; any other is parsed line by line. */
  method ParseStoreFile(c: Codec, file: Option<string>) returns (p: Parsed)
    ensures p == ParseFile(c, file)
    ensures file == None || file == Some("") ==> p == Parsed([])
    ensures file.Some? ==> IsParse(c, file.value, p)
  {
    if file.Some? { ParseIsByLines(c, file.value); }
    if file.None? { return Parsed([]); }
    var records: seq<Record> := [];
    var rest, line := file.value, 0;
    while rest != ""
      invariant Prepend(records, ParseLines(c, rest, line)) == ParseFile(c, file)
      decreases |rest|
    {
      if LineEnd(rest) >= LINE_LIMIT { return ParseError(LineTooLong, line); }
      var text := TrimSpace(rest[..LineEnd(rest)]);
      ghost var tail := ParseLines(c, AfterLine(rest), line + 1);
      line := line + 1;
      if text != "" {
        var decoded := c.decode(text);
        if decoded.None? { return ParseError(BadLine, line); }
        if decoded.value.id == "" { return ParseError(MissingId, line); }
        PrependTwice(records, decoded.value, tail);
        records := records + [decoded.value];
      }
      rest := AfterLine(rest);
    }
    return Parsed(records);
  }

  lemma PrependTwice(rs: seq<Record>, r: Record, p: Parsed)
    ensures Prepend(rs, Prepend([r], p)) == Prepend(rs + [r], p)
  {
    if p.Parsed? { ConcatAssoc(rs, [r], p.records); }
  }

  lemma {:induction false} LineEndAt(a: string, b: string)
    requires '\n' !in a
    ensures LineEnd(a + "\n" + b) == |a|
    decreases |a|
  {
    var s := a + "\n" + b;
    if a != "" {
      assert s[1..] == a[1..] + "\n" + b;
      LineEndAt(a[1..], b);
    }
  }

  /** Why a line that save wrote does not load; `line` counts the lines before it. */
  function ErrorAt(c: Codec, r: Record, line: nat): Parsed {
    if |c.encode(r)| >= LINE_LIMIT then ParseError(LineTooLong, line)
    else if c.decode(c.encode(r)).None? then ParseError(BadLine, line + 1)
    else ParseError(MissingId, line + 1)
  }

  lemma ParseFirstLine(c: Codec, r: Record, rest: string, line: nat)
    requires OneLine(c.encode(r))
    ensures ParseLines(c, c.encode(r) + "\n" + rest, line) ==
      if Readable(c, r) then Prepend([ReadBack(c, r).value], ParseLines(c, rest, line + 1)) else ErrorAt(c, r, line)
  {
    var text := c.encode(r);
    var s := text + "\n" + rest;
    LineEndAt(text, rest);
    assert s[..|text|] == text && s[|text| + 1..] == rest;
    TrimClean(text);
  }

  function AllReadBack(c: Codec, rs: seq<Record>): seq<Record>
    requires AllReadable(c, rs)
  {
    seq(|rs|, i requires 0 <= i < |rs| => ReadBack(c, rs[i]).value)
  }

  lemma ReadableCons(c: Codec, rs: seq<Record>)
    requires rs != []
    ensures AllReadable(c, rs) <==> Readable(c, rs[0]) && AllReadable(c, rs[1..])
    ensures AllReadable(c, rs) ==> AllReadBack(c, rs) == [ReadBack(c, rs[0]).value] + AllReadBack(c, rs[1..])
  {
    assert forall i :: 0 < i < |rs| ==> rs[i] == rs[1..][i - 1];
  }

  /** Record `i` is the first that does not read back. */
  ghost predicate FirstUnreadable(c: Codec, rs: seq<Record>, i: int) {
    0 <= i < |rs| && !Readable(c, rs[i]) && AllReadable(c, rs[..i])
  }

  lemma FirstUnreadableLater(c: Codec, rs: seq<Record>, i: nat)
    requires rs != [] && Readable(c, rs[0]) && FirstUnreadable(c, rs[1..], i)
    ensures FirstUnreadable(c, rs, i + 1)
  {
    var first := rs[..i + 1];
    forall k | 0 <= k < |first| ensures Readable(c, first[k]) {
      if k > 0 { assert first[k] == rs[1..][..i][k - 1]; }
    }
  }

  /** `p` is what the records read back as, or the error of the first that does not. */
  ghost predicate IsReadBack(c: Codec, rs: seq<Record>, line: nat, p: Parsed) {
    if AllReadable(c, rs) then p == Parsed(AllReadBack(c, rs))
    else exists i: nat :: FirstUnreadable(c, rs, i) && p == ErrorAt(c, rs[i], line + i)
  }

  lemma ReadBackCons(c: Codec, rs: seq<Record>, line: nat, tail: Parsed)
    requires rs != [] && Readable(c, rs[0]) && IsReadBack(c, rs[1..], line + 1, tail)
    ensures IsReadBack(c, rs, line, Prepend([ReadBack(c, rs[0]).value], tail))
  {
    ReadableCons(c, rs);
    if !AllReadable(c, rs) {
      var i: nat :| FirstUnreadable(c, rs[1..], i) && tail == ErrorAt(c, rs[1..][i], line + 1 + i);
      FirstUnreadableLater(c, rs, i);
      assert rs[1..][i] == rs[i + 1];
      assert tail == ErrorAt(c, rs[i + 1], line + (i + 1));
    }
  }

  /** What a load makes of what save wrote. */
  lemma {:induction false} SnapshotReadsBack(c: Codec, rs: seq<Record>, line: nat)
    requires Frames(c)
    ensures IsReadBack(c, rs, line, ParseLines(c, Serialize(c, rs), line))
    decreases |rs|
  {
    if rs != [] {
      ParseFirstLine(c, rs[0], Serialize(c, rs[1..]), line);
      if Readable(c, rs[0]) {
        SnapshotReadsBack(c, rs[1..], line + 1);
        ReadBackCons(c, rs, line, ParseLines(c, Serialize(c, rs[1..]), line + 1));
      } else {
        assert FirstUnreadable(c, rs, 0);
      }
    }
  }

  /** It is the same records exactly when every one is storable. */
  lemma SnapshotRoundTrip(c: Codec, rs: seq<Record>, line: nat)
    requires Frames(c)
    ensures ParseLines(c, Serialize(c, rs), line) == Parsed(rs) <==> AllStorable(c, rs)
  {
    SnapshotReadsBack(c, rs, line);
    if AllReadable(c, rs) {
      ReadBackIsSame(c, rs);
    } else if AllStorable(c, rs) {
      StorableIsReadable(c, rs);
    }
  }

  lemma ReadBackIsSame(c: Codec, rs: seq<Record>)
    requires AllReadable(c, rs)
    ensures AllReadBack(c, rs) == rs <==> AllStorable(c, rs)
  {
    var back := AllReadBack(c, rs);
    forall i | 0 <= i < |rs| ensures back[i] == rs[i] <==> Storable(c, rs[i]) {
      assert Readable(c, rs[i]);
    }
  }

  lemma StorableIsReadable(c: Codec, rs: seq<Record>)
    requires AllStorable(c, rs)
    ensures AllReadable(c, rs)
  {
    forall i | 0 <= i < |rs| ensures Readable(c, rs[i]) { assert Storable(c, rs[i]); }
  }

  // ---------------------------------------------------------------- editing the record list

  /** Replace the first record with this id, or append. */
  function PutRecord(rs: seq<Record>, id: string, e: Entry): seq<Record> {
    if rs == [] then [RecordFrom(id, e)]
    else if rs[0].id == id then [RecordFrom(id, e)] + rs[1..]
    else [rs[0]] + PutRecord(rs[1..], id, e)
  }

  /** Drop every record with this id. */
  function DeleteRecord(rs: seq<Record>, id: string): seq<Record> {
    if rs == [] then []
    else (if rs[0].id == id then [] else [rs[0]]) + DeleteRecord(rs[1..], id)
  }

  /** The first record with this id. */
  function FindRecord(rs: seq<Record>, id: string): Option<Entry> {
    if rs == [] then None
    else if rs[0].id == id then Some(ToEntry(rs[0]))
    else FindRecord(rs[1..], id)
  }

  /** The entries a query selects, in file order. */
  function SelectRecords(rs: seq<Record>, query: string, keys: Option<seq<string>>): seq<Entry> {
    if rs == [] then []
    else (if Selects(ToEntry(rs[0]), query, keys) then [ToEntry(rs[0])] else []) + SelectRecords(rs[1..], query, keys)
  }

  /** Record `i` is replaced, or passed over. */
  lemma PutAt(rs: seq<Record>, i: nat, id: string, e: Entry)
    requires i < |rs|
    ensures rs[..i] + PutRecord(rs[i..], id, e)
         == if rs[i].id == id then rs[i := RecordFrom(id, e)] else rs[..i + 1] + PutRecord(rs[i + 1..], id, e)
  {
    assert rs[i..][1..] == rs[i + 1..];
    if rs[i].id == id {
      assert rs[i := RecordFrom(id, e)] == rs[..i] + ([RecordFrom(id, e)] + rs[i + 1..]);
    } else {
      assert rs[..i + 1] == rs[..i] + [rs[i]];
      ConcatAssoc(rs[..i], [rs[i]], PutRecord(rs[i + 1..], id, e));
    }
  }

  /** The first record with the id is replaced where it stands; without one the new record comes last. */
  ghost predicate IsPut(rs: seq<Record>, id: string, e: Entry, out: seq<Record>) {
    var r := Record(id, e.content, e.boundIdentity, e.sourceClass, e.flags, e.quarantined);
    if exists i :: 0 <= i < |rs| && rs[i].id == id then
      exists i :: 0 <= i < |rs| && rs[i].id == id && (forall j :: 0 <= j < i ==> rs[j].id != id) && out == rs[i := r]
    else out == rs + [r]
  }

  lemma ReplacedIsPut(rs: seq<Record>, i: nat, id: string, e: Entry)
    requires i < |rs| && rs[i].id == id && forall j :: 0 <= j < i ==> rs[j].id != id
    ensures IsPut(rs, id, e, rs[i := RecordFrom(id, e)])
  {
  }

  lemma AppendedIsPut(rs: seq<Record>, id: string, e: Entry)
    requires forall j :: 0 <= j < |rs| ==> rs[j].id != id
    ensures IsPut(rs, id, e, rs + [RecordFrom(id, e)])
  {
  }

  lemma PutAtEnd(rs: seq<Record>, id: string, e: Entry)
    ensures rs[..|rs|] + PutRecord(rs[|rs|..], id, e) == rs + [RecordFrom(id, e)]
  {
    assert rs[..|rs|] == rs && rs[|rs|..] == [];
  }

  method PutInto(rs: seq<Record>, id: string, e: Entry) returns (out: seq<Record>)
    ensures out == PutRecord(rs, id, e)
    ensures IsPut(rs, id, e, out)
  {
    out := rs;
    var replaced := false;
    assert rs[0..] == rs && rs[..0] == [];
    for i := 0 to |rs|
      invariant out == rs && !replaced && forall j :: 0 <= j < i ==> rs[j].id != id
      invariant rs[..i] + PutRecord(rs[i..], id, e) == PutRecord(rs, id, e)
    {
      PutAt(rs, i, id, e);
      if out[i].id == id {
        ReplacedIsPut(rs, i, id, e);
        out := out[i := RecordFrom(id, e)];
        replaced := true;
        break;
      }
    }
    if !replaced {
      AppendedIsPut(rs, id, e);
      PutAtEnd(rs, id, e);
      out := out + [RecordFrom(id, e)];
    }
  }

  lemma {:induction false} PutReadable(c: Codec, rs: seq<Record>, id: string, e: Entry)
    requires AllReadable(c, rs)
    ensures AllReadable(c, PutRecord(rs, id, e)) <==> Readable(c, RecordFrom(id, e))
    decreases |rs|
  {
    var out := PutRecord(rs, id, e);
    ReadableCons(c, out);
    if rs != [] {
      ReadableCons(c, rs);
      PutStep(rs, id, e);
      if rs[0].id != id { PutReadable(c, rs[1..], id, e); }
    }
  }

  /** After a put into records that read back, the file loads exactly when the new record reads back. */
  lemma PutThenLoad(c: Codec, rs: seq<Record>, id: string, e: Entry)
    requires Frames(c) && AllReadable(c, rs)
    ensures ParseFile(c, Some(Serialize(c, PutRecord(rs, id, e)))).Parsed? <==> Readable(c, RecordFrom(id, e))
  {
    PutReadable(c, rs, id, e);
    SnapshotReadsBack(c, PutRecord(rs, id, e), 0);
  }

  lemma DeleteStep(rs: seq<Record>, id: string)
    requires rs != []
    ensures DeleteRecord(rs, id) == (if rs[0].id == id then [] else [rs[0]]) + DeleteRecord(rs[1..], id)
    ensures rs[0].id == id ==> DeleteRecord(rs, id) == DeleteRecord(rs[1..], id)
  {
  }

  /** What is kept keeps its order: deleting goes record by record. */
  lemma {:induction false} DeleteAppend(a: seq<Record>, b: seq<Record>, id: string)
    ensures DeleteRecord(a + b, id) == DeleteRecord(a, id) + DeleteRecord(b, id)
    decreases |a|
  {
    if a == [] {
      NothingBefore(a, b);
      NothingBefore(DeleteRecord(a, id), DeleteRecord(b, id));
    } else {
      DropConcat(a, b, 1);
      DeleteAppend(a[1..], b, id);
      DeleteStep(a, id);
      DeleteStep(a + b, id);
      Regroup(DeleteRecord(a + b, id), DeleteRecord(a, id), if a[0].id == id then [] else [a[0]],
              DeleteRecord(a[1..], id), DeleteRecord(b, id));
    }
  }

  method DeleteFrom(rs: seq<Record>, id: string) returns (kept: seq<Record>, found: bool)
    ensures kept == DeleteRecord(rs, id)
    ensures found <==> exists i :: 0 <= i < |rs| && rs[i].id == id
  {
    kept, found := [], false;
    assert rs[0..] == rs;
    for i := 0 to |rs|
      invariant kept + DeleteRecord(rs[i..], id) == DeleteRecord(rs, id)
      invariant found <==> exists j :: 0 <= j < i && rs[j].id == id
    {
      assert rs[i..][1..] == rs[i + 1..];
      DeleteStep(rs[i..], id);
      if rs[i].id == id {
        found := true;
      } else {
        ConcatAssoc(kept, [rs[i]], DeleteRecord(rs[i + 1..], id));
        kept := kept + [rs[i]];
      }
    }
  }

  method GetFrom(rs: seq<Record>, id: string) returns (r: Option<Entry>)
    ensures r == FindRecord(rs, id)
  {
    assert rs[0..] == rs;
    for i := 0 to |rs|
      invariant FindRecord(rs[i..], id) == FindRecord(rs, id)
    {
      assert rs[i..][1..] == rs[i + 1..];
      if rs[i].id == id { return Some(ToEntry(rs[i])); }
    }
    return None;
  }

  lemma SelectAt(rs: seq<Record>, i: nat, query: string, keys: Option<seq<string>>)
    requires i < |rs|
    ensures SelectRecords(rs[i..], query, keys)
         == (if Selects(ToEntry(rs[i]), query, keys) then [ToEntry(rs[i])] else [])
            + SelectRecords(rs[i + 1..], query, keys)
  {
    assert rs[i..][1..] == rs[i + 1..];
  }

  method SelectFrom(rs: seq<Record>, query: string, keys: Option<seq<string>>) returns (hits: seq<Entry>)
    ensures hits == SelectRecords(rs, query, keys)
  {
    hits := [];
    assert rs[0..] == rs;
    for i := 0 to |rs|
      invariant hits + SelectRecords(rs[i..], query, keys) == SelectRecords(rs, query, keys)
    {
      var e := ToEntry(rs[i]);
      var visible := Visible(e, query, keys);
      SelectAt(rs, i, query, keys);
      ConcatAssoc(hits, [e], SelectRecords(rs[i + 1..], query, keys));
      if visible { hits := hits + [e]; }
    }
  }

  // ---------------------------------------------------------------- the list as a table

  function TableOf(rs: seq<Record>): Table {
    if rs == [] then map[] else TableOf(rs[1..])[rs[0].id := ToEntry(rs[0])]
  }

  predicate UniqueIds(rs: seq<Record>) {
    forall i, j :: 0 <= i < j < |rs| ==> rs[i].id != rs[j].id
  }

  lemma {:induction false} TableHas(rs: seq<Record>, id: string)
    ensures id in TableOf(rs) <==> exists i :: 0 <= i < |rs| && rs[i].id == id
    decreases |rs|
  {
    if rs != [] {
      TableHas(rs[1..], id);
      assert forall i :: 0 < i < |rs| ==> rs[i] == rs[1..][i - 1];
      if id in TableOf(rs[1..]) {
        var i :| 0 <= i < |rs[1..]| && rs[1..][i].id == id;
        assert rs[i + 1].id == id;
      }
    }
  }

  lemma UniqueHead(rs: seq<Record>)
    requires rs != []
    ensures UniqueIds(rs) <==> UniqueIds(rs[1..]) && rs[0].id !in TableOf(rs[1..])
  {
    TableHas(rs[1..], rs[0].id);
    assert forall i :: 0 < i < |rs| ==> rs[i] == rs[1..][i - 1];
    if UniqueIds(rs[1..]) && rs[0].id !in TableOf(rs[1..]) {
      forall i, j | 0 <= i < j < |rs| ensures rs[i].id != rs[j].id {
        assert rs[j] == rs[1..][j - 1];
        if i > 0 { assert rs[i] == rs[1..][i - 1]; }
      }
    }
  }

  lemma PutStep(rs: seq<Record>, id: string, e: Entry)
    requires rs != []
    ensures var out := PutRecord(rs, id, e);
      && out != [] && out[0] == (if rs[0].id == id then RecordFrom(id, e) else rs[0])
      && out[1..] == (if rs[0].id == id then rs[1..] else PutRecord(rs[1..], id, e))
  {
  }

  /** Replacing the first or appending is updating the table. */
  lemma {:induction false} PutIsUpdate(rs: seq<Record>, id: string, e: Entry)
    ensures TableOf(PutRecord(rs, id, e)) == TableOf(rs)[id := e]
    decreases |rs|
  {
    if rs != [] {
      PutStep(rs, id, e);
      PutIsUpdate(rs[1..], id, e);
    }
  }

  lemma {:induction false} PutKeepsUnique(rs: seq<Record>, id: string, e: Entry)
    requires UniqueIds(rs)
    ensures UniqueIds(PutRecord(rs, id, e))
    decreases |rs|
  {
    if rs != [] {
      PutStep(rs, id, e);
      UniqueHead(rs);
      PutKeepsUnique(rs[1..], id, e);
      PutIsUpdate(rs[1..], id, e);
      UniqueHead(PutRecord(rs, id, e));
    }
  }

  lemma TableStep(r: Record, rs: seq<Record>)
    ensures TableOf([r] + rs) == TableOf(rs)[r.id := ToEntry(r)]
    ensures UniqueIds([r] + rs) <==> UniqueIds(rs) && r.id !in TableOf(rs)
  {
    assert ([r] + rs)[1..] == rs;
    UniqueHead([r] + rs);
  }

  lemma RemoveUpdated(t: Table, k: string, v: Entry, id: string)
    ensures t[k := v] - {id} == if k == id then t - {id} else (t - {id})[k := v]
  {
  }

  /** Dropping every record with an id is removing it from the table. */
  lemma {:induction false} DeleteIsRemoval(rs: seq<Record>, id: string)
    ensures TableOf(DeleteRecord(rs, id)) == TableOf(rs) - {id}
    decreases |rs|
  {
    if rs != [] {
      DeleteStep(rs, id);
      DeleteIsRemoval(rs[1..], id);
      RemoveUpdated(TableOf(rs[1..]), rs[0].id, ToEntry(rs[0]), id);
      if rs[0].id == id {
        assert DeleteRecord(rs, id) == DeleteRecord(rs[1..], id);
      } else {
        TableStep(rs[0], DeleteRecord(rs[1..], id));
      }
    }
  }

  lemma {:induction false} DeleteKeepsUnique(rs: seq<Record>, id: string)
    requires UniqueIds(rs)
    ensures UniqueIds(DeleteRecord(rs, id))
    decreases |rs|
  {
    if rs != [] {
      DeleteStep(rs, id);
      UniqueHead(rs);
      DeleteKeepsUnique(rs[1..], id);
      DeleteIsRemoval(rs[1..], id);
      if rs[0].id == id {
        assert DeleteRecord(rs, id) == DeleteRecord(rs[1..], id);
      } else {
        TableStep(rs[0], DeleteRecord(rs[1..], id));
      }
    }
  }

  lemma {:induction false} FindIsLookup(rs: seq<Record>, id: string)
    ensures FindRecord(rs, id) == Find(TableOf(rs), id)
    decreases |rs|
  {
    if rs != [] { FindIsLookup(rs[1..], id); }
  }

  /** With unique ids the list answers every query as its table does. */
  lemma {:induction false} SelectIsBag(rs: seq<Record>, query: string, keys: Option<seq<string>>)
    requires UniqueIds(rs)
    ensures multiset(SelectRecords(rs, query, keys)) == Bag(Selected(TableOf(rs), query, keys))
    decreases |rs|
  {
    if rs != [] {
      UniqueHead(rs);
      SelectIsBag(rs[1..], query, keys);
      var t := TableOf(rs);
      assert t - {rs[0].id} == TableOf(rs[1..]);
      SelectTake(t, rs[0].id, query, keys);
    }
  }
}
