/** `splitCsvLine`: a left-to-right scan of one line with a single
    "inside quotes" flag and an accumulator. A `;` outside quotes ends a field,
    `"` toggles the flag except that `""` inside quotes stands for one literal
    `"`, every other char is kept, and each emitted field is trimmed. */
module Csv {
  import opened Text

  /** `Main.SEP`. */
  const Sep: char := ';'

  /** The fields the scan still emits from the rest `s` of the line, given the
      current quote flag and accumulator. The recursive reference for the
      loop of `SplitCsvLine`. */
  function ScanFields(s: string, inQuotes: bool, cur: string): (r: seq<string>)
    ensures |r| >= 1
    ensures forall i :: 0 <= i < |r| ==> IsTrimmed(r[i])
    decreases |s|
  {
    if s == [] then [Trim(cur)]
    else if s[0] == '"' then
      if inQuotes && |s| > 1 && s[1] == '"' then ScanFields(s[2..], inQuotes, cur + ['"'])
      else ScanFields(s[1..], !inQuotes, cur)
    else if s[0] == Sep && !inQuotes then [Trim(cur)] + ScanFields(s[1..], inQuotes, [])
    else ScanFields(s[1..], inQuotes, cur + [s[0]])
  }

  /** The fields of a whole line. */
  function Split(line: string): seq<string> {
    ScanFields(line, false, [])
  }

  /** How many separators the scan meets while outside quotes. */
  function UnquotedSeps(s: string, inQuotes: bool): nat
    decreases |s|
  {
    if s == [] then 0
    else if s[0] == '"' then
      if inQuotes && |s| > 1 && s[1] == '"' then UnquotedSeps(s[2..], inQuotes)
      else UnquotedSeps(s[1..], !inQuotes)
    else if s[0] == Sep && !inQuotes then 1 + UnquotedSeps(s[1..], inQuotes)
    else UnquotedSeps(s[1..], inQuotes)
  }

  /** How many `""` pairs the scan meets while inside quotes. */
  function EscapedQuotes(s: string, inQuotes: bool): nat
    decreases |s|
  {
    if s == [] then 0
    else if s[0] == '"' then
      if inQuotes && |s| > 1 && s[1] == '"' then 1 + EscapedQuotes(s[2..], inQuotes)
      else EscapedQuotes(s[1..], !inQuotes)
    else EscapedQuotes(s[1..], inQuotes)
  }

  /** `splitCsvLine(line, SEP)`, written as the Java loop. */
  method SplitCsvLine(line: string) returns (out: seq<string>)
    ensures out == Split(line)
    ensures |out| == 1 + UnquotedSeps(line, false)
    ensures forall i :: 0 <= i < |out| ==> Trim(out[i]) == out[i]
  {
    out := [];
    var cur: string := [];
    var inQuotes := false;
    var i := 0;
    while i < |line|
      invariant 0 <= i <= |line|
      invariant out + ScanFields(line[i..], inQuotes, cur) == Split(line)
      decreases |line| - i
    {
      var c := line[i];
      assert line[i..][0] == c && line[i..][1..] == line[i + 1..];
      if c == '"' {
        if inQuotes && i + 1 < |line| && line[i + 1] == '"' {
          assert line[i..][2..] == line[i + 2..];
          cur := cur + ['"'];
          i := i + 1;
        } else {
          inQuotes := !inQuotes;
        }
      } else if c == Sep && !inQuotes {
        out := out + [Trim(cur)];
        cur := [];
      } else {
        cur := cur + [c];
      }
      i := i + 1;
    }
    out := out + [Trim(cur)];
    SplitCount(line);
  }

  /** The empty line gives exactly one, empty, field. */
  lemma SplitEmpty()
    ensures Split("") == [""]
  {
  }

  lemma {:induction false} ScanFieldsCount(s: string, inQuotes: bool, cur: string)
    ensures |ScanFields(s, inQuotes, cur)| == 1 + UnquotedSeps(s, inQuotes)
    decreases |s|
  {
    if s == [] {
    } else if s[0] == '"' {
      if inQuotes && |s| > 1 && s[1] == '"' {
        ScanFieldsCount(s[2..], inQuotes, cur + ['"']);
      } else {
        ScanFieldsCount(s[1..], !inQuotes, cur);
      }
    } else if s[0] == Sep && !inQuotes {
      ScanFieldsCount(s[1..], inQuotes, []);
    } else {
      ScanFieldsCount(s[1..], inQuotes, cur + [s[0]]);
    }
  }

  /** A line splits into one field more than it has separators outside quotes. */
  lemma SplitCount(line: string)
    ensures |Split(line)| == 1 + UnquotedSeps(line, false)
  {
    ScanFieldsCount(line, false, []);
  }

  /** The number of `"` chars in a string. */
  function QuoteCount(s: string): nat {
    multiset(s)['"']
  }

  /** The number of `"` chars in all fields together. */
  function FieldsQuoteCount(fields: seq<string>): nat {
    if fields == [] then 0 else QuoteCount(fields[0]) + FieldsQuoteCount(fields[1..])
  }

  lemma QuoteCountConcat(a: string, b: string)
    ensures QuoteCount(a + b) == QuoteCount(a) + QuoteCount(b)
  {
    assert multiset(a + b) == multiset(a) + multiset(b);
  }

  lemma QuoteCountBlank(a: string)
    requires IsBlank(a)
    ensures QuoteCount(a) == 0
  {
    assert '"' !in a;
  }

  lemma QuoteCountTrimStart(s: string)
    ensures QuoteCount(TrimStart(s)) == QuoteCount(s)
  {
    TrimStartStripsBlanks(s);
    var m := TrimStart(s);
    var k := |s| - |m|;
    assert s == s[..k] + m;
    QuoteCountConcat(s[..k], m);
    QuoteCountBlank(s[..k]);
  }

  lemma QuoteCountTrimEnd(s: string)
    ensures QuoteCount(TrimEnd(s)) == QuoteCount(s)
  {
    TrimEndStripsBlanks(s);
    var r := TrimEnd(s);
    assert s == r + s[|r|..];
    QuoteCountConcat(r, s[|r|..]);
    QuoteCountBlank(s[|r|..]);
  }

  /** Trimming never removes a quote char. */
  lemma QuoteCountTrim(s: string)
    ensures QuoteCount(Trim(s)) == QuoteCount(s)
  {
    QuoteCountTrimStart(s);
    QuoteCountTrimEnd(TrimStart(s));
  }

  lemma QuoteCountAppend(s: string, c: char)
    ensures QuoteCount(s + [c]) == QuoteCount(s) + (if c == '"' then 1 else 0)
  {
    assert multiset(s + [c]) == multiset(s) + multiset{c};
  }

  lemma {:induction false} ScanFieldsQuotes(s: string, inQuotes: bool, cur: string)
    ensures FieldsQuoteCount(ScanFields(s, inQuotes, cur)) == QuoteCount(cur) + EscapedQuotes(s, inQuotes)
    decreases |s|
  {
    if s == [] {
      QuoteCountTrim(cur);
    } else if s[0] == '"' {
      if inQuotes && |s| > 1 && s[1] == '"' {
        QuoteCountAppend(cur, '"');
        ScanFieldsQuotes(s[2..], inQuotes, cur + ['"']);
      } else {
        ScanFieldsQuotes(s[1..], !inQuotes, cur);
      }
    } else if s[0] == Sep && !inQuotes {
      var rest := ScanFields(s[1..], inQuotes, []);
      assert ([Trim(cur)] + rest)[1..] == rest;
      QuoteCountTrim(cur);
      ScanFieldsQuotes(s[1..], inQuotes, []);
    } else {
      QuoteCountAppend(cur, s[0]);
      ScanFieldsQuotes(s[1..], inQuotes, cur + [s[0]]);
    }
  }

  /** A `"` reaches a field only as the stand-in for a doubled `""` met inside
      quotes: every other quote char only flips the flag. */
  lemma SplitQuotes(line: string)
    ensures FieldsQuoteCount(Split(line)) == EscapedQuotes(line, false)
  {
    ScanFieldsQuotes(line, false, []);
  }

  /** How a writer puts one field on a line: verbatim, or quoted with its
      quote chars doubled. */
  datatype Cell = Plain(text: string) | Quoted(text: string)

  /** A verbatim field must not hold a separator or a quote char. */
  predicate WellFormedCell(c: Cell) {
    c.Plain? ==> forall i :: 0 <= i < |c.text| ==> c.text[i] != Sep && c.text[i] != '"'
  }

  /** Doubles every quote char. */
  function Escape(s: string): string {
    if s == [] then []
    else (if s[0] == '"' then ['"', '"'] else [s[0]]) + Escape(s[1..])
  }

  function EncodeCell(c: Cell): string {
    match c
    case Plain(t) => t
    case Quoted(t) => ['"'] + Escape(t) + ['"']
  }

  /** The encoded cells joined by separators. */
  function JoinCells(cells: seq<Cell>): string
    requires |cells| >= 1
  {
    if |cells| == 1 then EncodeCell(cells[0])
    else EncodeCell(cells[0]) + [Sep] + JoinCells(cells[1..])
  }

  lemma {:induction false} ScanPlain(t: string, tail: string, cur: string)
    requires WellFormedCell(Plain(t))
    ensures ScanFields(t + tail, false, cur) == ScanFields(tail, false, cur + t)
    decreases |t|
  {
    if t == [] {
      assert t + tail == tail && cur + t == cur;
    } else {
      assert (t + tail)[0] == t[0] && (t + tail)[1..] == t[1..] + tail;
      assert cur + [t[0]] + t[1..] == cur + t;
      ScanPlain(t[1..], tail, cur + [t[0]]);
    }
  }

  lemma {:induction false} ScanEscaped(t: string, tail: string, cur: string)
    requires tail != [] && tail[0] == '"' && (|tail| == 1 || tail[1] != '"')
    ensures ScanFields(Escape(t) + tail, true, cur) == ScanFields(tail[1..], false, cur + t)
    decreases |t|
  {
    var s := Escape(t) + tail;
    if t == [] {
      assert s == tail;
      assert cur + t == cur;
      assert ScanFields(s, true, cur) == ScanFields(s[1..], false, cur);
    } else if t[0] == '"' {
      assert s == ['"', '"'] + (Escape(t[1..]) + tail);
      assert s[2..] == Escape(t[1..]) + tail;
      assert ScanFields(s, true, cur) == ScanFields(s[2..], true, cur + ['"']);
      assert cur + ['"'] + t[1..] == cur + t;
      ScanEscaped(t[1..], tail, cur + ['"']);
    } else {
      assert s == [t[0]] + (Escape(t[1..]) + tail);
      assert s[1..] == Escape(t[1..]) + tail;
      assert ScanFields(s, true, cur) == ScanFields(s[1..], true, cur + [t[0]]);
      assert cur + [t[0]] + t[1..] == cur + t;
      ScanEscaped(t[1..], tail, cur + [t[0]]);
    }
  }

  /** After one encoded cell the scan is outside quotes again, holding the
      cell's text, provided the cell is followed by a separator or the end. */
  lemma ScanQuoted(t: string, tail: string)
    requires tail == [] || tail[0] == Sep
    ensures ScanFields(EncodeCell(Quoted(t)) + tail, false, []) == ScanFields(tail, false, t)
  {
    var s := EncodeCell(Quoted(t)) + tail;
    var rest := ['"'] + tail;
    QuotedShape(t, tail);
    assert ScanFields(s, false, []) == ScanFields(Escape(t) + rest, true, []);
    ScanEscaped(t, rest, []);
    assert rest[1..] == tail;
    assert [] + t == t;
  }

  /** An encoded quoted cell followed by `tail` opens with a quote char, and
      after it come the escaped text, the closing quote char and `tail`. */
  lemma QuotedShape(t: string, tail: string)
    ensures (EncodeCell(Quoted(t)) + tail)[0] == '"'
    ensures (EncodeCell(Quoted(t)) + tail)[1..] == Escape(t) + (['"'] + tail)
  {
    var s := EncodeCell(Quoted(t)) + tail;
    assert s == ['"'] + (Escape(t) + (['"'] + tail));
  }

  lemma ScanCell(c: Cell, tail: string)
    requires WellFormedCell(c)
    requires tail == [] || tail[0] == Sep
    ensures ScanFields(EncodeCell(c) + tail, false, []) == ScanFields(tail, false, c.text)
  {
    match c
    case Plain(t) =>
      ScanPlain(t, tail, []);
      assert [] + t == t;
    case Quoted(t) =>
      ScanQuoted(t, tail);
  }

  /** The texts of the cells, each trimmed. */
  function TrimmedTexts(cells: seq<Cell>): (r: seq<string>)
    ensures |r| == |cells|
    ensures forall i :: 0 <= i < |cells| ==> r[i] == Trim(cells[i].text)
  {
    if cells == [] then [] else [Trim(cells[0].text)] + TrimmedTexts(cells[1..])
  }

  /** Round trip: splitting a line written from well-formed cells gives back
      the cells' texts, trimmed. A separator survives inside quotes, and a
      doubled quote comes back single. */
  lemma {:induction false} SplitJoinCells(cells: seq<Cell>)
    requires |cells| >= 1
    requires forall i :: 0 <= i < |cells| ==> WellFormedCell(cells[i])
    ensures Split(JoinCells(cells)) == TrimmedTexts(cells)
    decreases |cells|
  {
    var c := cells[0];
    if |cells| == 1 {
      ScanCell(c, []);
      assert EncodeCell(c) + [] == EncodeCell(c);
      assert TrimmedTexts(cells) == [Trim(c.text)] + TrimmedTexts([]);
    } else {
      var rest := cells[1..];
      var tail := [Sep] + JoinCells(rest);
      assert JoinCells(cells) == EncodeCell(c) + tail;
      ScanCell(c, tail);
      SepStartsField(c.text, JoinCells(rest));
      SplitJoinCells(rest);
    }
  }

  /** A separator outside quotes emits the accumulated field. */
  lemma SepStartsField(cur: string, s: string)
    ensures ScanFields([Sep] + s, false, cur) == [Trim(cur)] + Split(s)
  {
    assert ([Sep] + s)[1..] == s;
  }

  /** A separator inside quotes stays in its field and a doubled quote
      inside quotes comes back single. */
  lemma SplitExample()
    ensures Split("a;\"b;\"\"c\"") == ["a", "b;\"c"]
  {
    var cells := [Plain("a"), Quoted("b;\"c")];
    JoinExample();
    SplitJoinCells(cells);
    TrimFixesTrimmed("a");
    TrimFixesTrimmed("b;\"c");
    assert TrimmedTexts(cells) == ["a", "b;\"c"];
  }

  lemma JoinExample()
    ensures JoinCells([Plain("a"), Quoted("b;\"c")]) == "a;\"b;\"\"c\""
  {
    assert Escape("b;\"c") == "b;\"\"c" by {
      assert Escape("c") == "c";
      assert Escape("\"c") == "\"\"c";
      assert Escape(";\"c") == ";\"\"c";
    }
  }

  /** A quote that is never closed is no error: once inside quotes, a rest of
      the line with no further `"` is added whole, separators included, to the
      current field, and that field is the last one. */
  lemma {:induction false} UnclosedQuote(s: string, cur: string)
    requires forall i :: 0 <= i < |s| ==> s[i] != '"'
    ensures ScanFields(s, true, cur) == [Trim(cur + s)]
    decreases |s|
  {
    if s == [] {
      assert cur + s == cur;
    } else {
      UnclosedQuote(s[1..], cur + [s[0]]);
      assert cur + [s[0]] + s[1..] == cur + s;
    }
  }

  /** A one-char field, then a field opened by a quote that is never closed:
      the second field runs to the end of the line. */
  lemma {:induction false} UnclosedSecondField(c: char, field: string)
    requires c != '"' && c != Sep
    requires forall i :: 0 <= i < |field| ==> field[i] != '"'
    ensures Split([c, Sep, '"'] + field) == [Trim([c]), Trim(field)]
  {
    var rest := ['"'] + field;
    assert rest[1..] == field && [] + field == field;
    UnclosedQuote(field, []);
    assert Split(rest) == [Trim(field)];
    SepStartsField([c], rest);
    PlainCharJoinsField(c, [Sep] + rest, []);
    assert [] + [c] == [c];
    assert [c, Sep, '"'] + field == [c] + ([Sep] + rest);
  }

  /** An example: the separator after the unclosed quote stays in the field. */
  lemma UnterminatedQuoteExample()
    ensures Split("x;\"a;b") == ["x", "a;b"]
  {
    UnclosedSecondField('x', "a;b");
    TrimFixesTrimmed("a;b");
    TrimFixesTrimmed("x");
    assert "x;\"a;b" == ['x', Sep, '"'] + "a;b";
  }

  /** A char other than `"` and `;` outside quotes joins the current field. */
  lemma PlainCharJoinsField(c: char, s: string, cur: string)
    requires c != '"' && c != Sep
    ensures ScanFields([c] + s, false, cur) == ScanFields(s, false, cur + [c])
  {
    assert ([c] + s)[1..] == s;
  }
}
