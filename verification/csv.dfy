/** Comma-separated text as section 2 of RFC 4180 describes it, with LF as the
    line break: the quoting the exporter applies to a field, joining fields
    and lines, and a reader for the format that serves as the writer's
    partner in the round-trip lemmas. */
module Csv {
  import opened Wrappers

  /** The field's text with every `"` doubled: `s.replace(/"/g, '""')`. */
  function DoubleQuotes(s: string): (r: string)
    ensures |r| >= |s|
    ensures forall i :: 0 <= i < |r| && r[i] != '"' ==> r[i] in s
  {
    if |s| == 0 then []
    else (if s[0] == '"' then "\"\"" else [s[0]]) + DoubleQuotes(s[1..])
  }

  /** A quoted field: `"${s.replace(/"/g, '""')}"` (rules 6 and 7 of section 2
      of RFC 4180). */
  function Escape(s: string): (r: string)
    ensures |r| >= |s| + 2
    ensures r[0] == '"' && r[|r| - 1] == '"'
  {
    "\"" + DoubleQuotes(s) + "\""
  }

  /** The summed length of `parts`. */
  function TotalLength(parts: seq<string>): nat
  {
    if |parts| == 0 then 0 else |parts[0]| + TotalLength(parts[1..])
  }

  /** `parts.join(sep)`. */
  function Join(parts: seq<string>, sep: char): string
  {
    if |parts| == 0 then ""
    else if |parts| == 1 then parts[0]
    else parts[0] + [sep] + Join(parts[1..], sep)
  }

  /** The joined text holds the parts in order with exactly one separator
      between each two neighbours and none at either end: it starts with the
      first part, a separator follows it when more parts come, and its length
      is the parts' total plus one per gap. */
  lemma {:induction false} JoinShape(parts: seq<string>, sep: char)
    ensures |parts| == 0 ==> Join(parts, sep) == ""
    ensures |parts| > 0 ==> |Join(parts, sep)| == TotalLength(parts) + |parts| - 1
    ensures |parts| > 0 ==> Join(parts, sep)[..|parts[0]|] == parts[0]
    ensures |parts| > 1 ==> Join(parts, sep)[|parts[0]|] == sep
    decreases |parts|
  {
    if |parts| > 1 {
      JoinShape(parts[1..], sep);
      var r := Join(parts, sep);
      assert r == parts[0] + [sep] + Join(parts[1..], sep);
      assert r[..|parts[0]|] == parts[0];
    }
  }

  /** Reads the body of a quoted field, starting just after its opening quote:
      `""` stands for one quote, a lone `"` closes the field. Yields the
      field's value and the text after the closing quote. */
  function ReadQuoted(s: string): (r: Option<(string, string)>)
    ensures r.Some? ==> |r.value.1| < |s|
  {
    if |s| == 0 then None
    else if s[0] == '"' then
      if |s| >= 2 && s[1] == '"' then
        match ReadQuoted(s[2..])
        case None => None
        case Some((v, rest)) => Some(("\"" + v, rest))
      else Some(([], s[1..]))
    else
      match ReadQuoted(s[1..])
      case None => None
      case Some((v, rest)) => Some(([s[0]] + v, rest))
  }

  /** What may follow a field: the end of the text, a comma or a line break. */
  predicate AtFieldEnd(rest: string) {
    |rest| == 0 || rest[0] == ',' || rest[0] == '\n'
  }

  /** Length of the leading text of `s` before the first comma or line break. */
  function PlainRun(s: string): (n: nat)
    ensures n <= |s|
    ensures forall i :: 0 <= i < n ==> s[i] != ',' && s[i] != '\n'
    ensures n < |s| ==> s[n] == ',' || s[n] == '\n'
  {
    if |s| == 0 || s[0] == ',' || s[0] == '\n' then 0 else 1 + PlainRun(s[1..])
  }

  /** Reads one field: a quoted one when the text starts with a quote, else the
      text up to the next comma or line break. Yields the value and what
      follows it, which always starts a new field, a new line or nothing. */
  function ReadField(s: string): (r: Option<(string, string)>)
    ensures r.Some? ==> |r.value.1| <= |s| && AtFieldEnd(r.value.1)
    ensures r.Some? && |s| > 0 && s[0] == '"' ==> |r.value.1| < |s|
  {
    if |s| > 0 && s[0] == '"' then
      match ReadQuoted(s[1..])
      case None => None
      case Some((v, rest)) => if AtFieldEnd(rest) then Some((v, rest)) else None
    else
      var n := PlainRun(s);
      Some((s[..n], s[n..]))
  }

  /** Reads one record: fields separated by commas, up to and including the
      line break that ends it. Yields at least one field, and consumes at least
      one character of non-empty text. */
  function ReadRecord(s: string): (r: Option<(seq<string>, string)>)
    ensures r.Some? ==> |r.value.0| >= 1 && |r.value.1| <= |s|
    ensures r.Some? && |s| > 0 ==> |r.value.1| < |s|
    decreases |s|
  {
    match ReadField(s)
    case None => None
    case Some((v, rest)) =>
      if |rest| > 0 && rest[0] == ',' then
        match ReadRecord(rest[1..])
        case None => None
        case Some((vs, after)) => Some(([v] + vs, after))
      else if |rest| > 0 then Some(([v], rest[1..]))
      else Some(([v], []))
  }

  /** Reads a whole text into its records. */
  function ReadDocument(s: string): Option<seq<seq<string>>>
    decreases |s|
  {
    if |s| == 0 then Some([])
    else
      match ReadRecord(s)
      case None => None
      case Some((record, rest)) =>
        match ReadDocument(rest)
        case None => None
        case Some(records) => Some([record] + records)
  }

  /** The quoted field reads back as the original text: reading the doubled
      text stops at the closing quote `t[0]`, whatever follows it. */
  lemma {:induction false} ReadQuotedDoubled(v: string, t: string)
    requires |t| > 0 && t[0] == '"'
    requires |t| == 1 || t[1] != '"'
    ensures ReadQuoted(DoubleQuotes(v) + t) == Some((v, t[1..]))
    decreases |v|
  {
    if |v| == 0 {
      assert DoubleQuotes(v) + t == t;
    } else {
      var tail := DoubleQuotes(v[1..]) + t;
      ReadQuotedDoubled(v[1..], t);
      if v[0] == '"' {
        DoubleQuotesQuote(v);
        AppendAssociates("\"\"", DoubleQuotes(v[1..]), t);
        ReadQuotedPair(tail, v[1..], t[1..]);
      } else {
        DoubleQuotesOther(v);
        AppendAssociates([v[0]], DoubleQuotes(v[1..]), t);
        ReadQuotedChar(v[0], tail, v[1..], t[1..]);
      }
      assert [v[0]] + v[1..] == v;
    }
  }

  lemma DoubleQuotesQuote(v: string)
    requires |v| > 0 && v[0] == '"'
    ensures DoubleQuotes(v) == "\"\"" + DoubleQuotes(v[1..])
  {
  }

  lemma DoubleQuotesOther(v: string)
    requires |v| > 0 && v[0] != '"'
    ensures DoubleQuotes(v) == [v[0]] + DoubleQuotes(v[1..])
  {
  }

  lemma AppendAssociates(h: string, x: string, y: string)
    ensures h + x + y == h + (x + y)
  {
  }

  /** A doubled quote inside a quoted field reads as one quote. */
  lemma ReadQuotedPair(t: string, v: string, rest: string)
    requires ReadQuoted(t) == Some((v, rest))
    ensures ReadQuoted("\"\"" + t) == Some(("\"" + v, rest))
  {
    assert ("\"\"" + t)[2..] == t;
  }

  /** Any other character inside a quoted field reads as itself. */
  lemma ReadQuotedChar(c: char, t: string, v: string, rest: string)
    requires c != '"'
    requires ReadQuoted(t) == Some((v, rest))
    ensures ReadQuoted([c] + t) == Some(([c] + v, rest))
  {
    assert ([c] + t)[1..] == t;
  }

  /** Un-quoting a quoted field: the inverse of `Escape`. */
  function Unescape(t: string): (r: Option<string>)
  {
    match ReadField(t)
    case Some((v, rest)) => if |rest| == 0 && |t| > 0 && t[0] == '"' then Some(v) else None
    case None => None
  }

  /** Quoting loses nothing: every text, quotes, commas and line breaks
      included, is recovered exactly from its quoted form, even when more
      fields or lines follow. */
  lemma EscapeReadsBack(v: string, rest: string)
    requires AtFieldEnd(rest)
    ensures ReadField(Escape(v) + rest) == Some((v, rest))
    ensures Unescape(Escape(v)) == Some(v)
  {
    var t := "\"" + rest;
    assert t[1..] == rest;
    assert (Escape(v) + rest)[1..] == DoubleQuotes(v) + t;
    ReadQuotedDoubled(v, t);
    ReadQuotedDoubled(v, "\"");
    assert Escape(v)[1..] == DoubleQuotes(v) + "\"";
    assert Escape(v) + "" == Escape(v);
  }

  /** Different texts have different quoted forms. */
  lemma EscapeInjective(a: string, b: string)
    requires Escape(a) == Escape(b)
    ensures a == b
  {
    EscapeReadsBack(a, "");
    EscapeReadsBack(b, "");
  }

  /** A field that needs no quotes: no comma, no line break, no leading quote. */
  predicate Plain(c: string) {
    && (|c| == 0 || c[0] != '"')
    && forall i :: 0 <= i < |c| ==> c[i] != ',' && c[i] != '\n'
  }

  lemma PlainReadsBack(c: string, rest: string)
    requires Plain(c) && AtFieldEnd(rest)
    ensures ReadField(c + rest) == Some((c, rest))
  {
    var s := c + rest;
    assert forall i :: 0 <= i < |c| ==> s[i] == c[i];
    var n := PlainRun(s);
    assert s[..|c|] == c;
    assert s[|c|..] == rest;
  }

  /** A written field `cell` stands for `value`: quoted, or plain and verbatim. */
  predicate Encodes(cell: string, value: string) {
    cell == Escape(value) || (Plain(cell) && cell == value)
  }

  lemma EncodedReadsBack(cell: string, value: string, rest: string)
    requires Encodes(cell, value) && AtFieldEnd(rest)
    ensures ReadField(cell + rest) == Some((value, rest))
  {
    if cell == Escape(value) {
      EscapeReadsBack(value, rest);
    } else {
      PlainReadsBack(cell, rest);
    }
  }

  predicate EncodesAll(cells: seq<string>, values: seq<string>) {
    |cells| == |values| && forall i :: 0 <= i < |cells| ==> Encodes(cells[i], values[i])
  }

  /** What is left after reading a record that is followed by `rest`. */
  function AfterLine(rest: string): string
  {
    if |rest| == 0 then [] else rest[1..]
  }

  lemma JoinFirst(cells: seq<string>, sep: char, rest: string)
    requires |cells| >= 2
    ensures Join(cells, sep) + rest == cells[0] + ([sep] + (Join(cells[1..], sep) + rest))
  {
  }

  lemma EncodesAllTail(cells: seq<string>, values: seq<string>)
    requires |cells| >= 1 && EncodesAll(cells, values)
    ensures EncodesAll(cells[1..], values[1..])
  {
    forall i | 0 <= i < |cells[1..]|
      ensures Encodes(cells[1..][i], values[1..][i])
    {
      assert Encodes(cells[i + 1], values[i + 1]);
    }
  }

  /** A line of encoded fields reads back as the field values, and the reader
      stops just after the line break that ends it. */
  lemma {:induction false} RecordReadsBack(cells: seq<string>, values: seq<string>, rest: string)
    requires |cells| >= 1 && EncodesAll(cells, values)
    requires |rest| == 0 || rest[0] == '\n'
    ensures ReadRecord(Join(cells, ',') + rest) == Some((values, AfterLine(rest)))
    decreases |cells|
  {
    if |cells| == 1 {
      assert Join(cells, ',') == cells[0];
      EncodedReadsBack(cells[0], values[0], rest);
      assert values == [values[0]];
    } else {
      var tail := Join(cells[1..], ',') + rest;
      JoinFirst(cells, ',', rest);
      EncodedReadsBack(cells[0], values[0], "," + tail);
      assert ("," + tail)[1..] == tail;
      EncodesAllTail(cells, values);
      RecordReadsBack(cells[1..], values[1..], rest);
      assert [values[0]] + values[1..] == values;
    }
  }

  /** Lines of fields joined by commas, the lines joined by line breaks. */
  function Render(rows: seq<seq<string>>): string
  {
    Join(Lines(rows), '\n')
  }

  function Lines(rows: seq<seq<string>>): (lines: seq<string>)
    ensures |lines| == |rows|
    ensures forall i :: 0 <= i < |rows| ==> lines[i] == Join(rows[i], ',')
  {
    if |rows| == 0 then [] else [Join(rows[0], ',')] + Lines(rows[1..])
  }

  /** Every row encodes its values and has at least two fields (so that no line is empty). */
  predicate EncodesTable(rows: seq<seq<string>>, values: seq<seq<string>>) {
    && |rows| == |values|
    && forall i :: 0 <= i < |rows| ==> |rows[i]| >= 2 && EncodesAll(rows[i], values[i])
  }

  lemma JoinNonEmpty(cells: seq<string>, sep: char)
    requires |cells| >= 2
    ensures |Join(cells, sep)| > 0
  {
  }

  lemma RenderFirstLine(rows: seq<seq<string>>)
    requires |rows| >= 1
    ensures |rows| == 1 ==> Render(rows) == Join(rows[0], ',')
    ensures |rows| >= 2 ==> Render(rows) == Join(rows[0], ',') + ("\n" + Render(rows[1..]))
  {
    var lines := Lines(rows);
    assert Lines(rows[1..]) == lines[1..];
  }

  lemma EncodesTableTail(rows: seq<seq<string>>, values: seq<seq<string>>)
    requires |rows| >= 1 && EncodesTable(rows, values)
    ensures EncodesTable(rows[1..], values[1..])
  {
    forall i | 0 <= i < |rows[1..]|
      ensures |rows[1..][i]| >= 2 && EncodesAll(rows[1..][i], values[1..][i])
    {
      assert |rows[i + 1]| >= 2 && EncodesAll(rows[i + 1], values[i + 1]);
    }
  }

  /** A rendered table reads back as its values, row by row in order. */
  lemma {:induction false} RenderReadsBack(rows: seq<seq<string>>, values: seq<seq<string>>)
    requires EncodesTable(rows, values)
    ensures ReadDocument(Render(rows)) == Some(values)
    decreases |rows|
  {
    if |rows| == 0 {
    } else {
      var first := Join(rows[0], ',');
      JoinNonEmpty(rows[0], ',');
      RenderFirstLine(rows);
      EncodesTableTail(rows, values);
      RenderReadsBack(rows[1..], values[1..]);
      var rest := if |rows| == 1 then "" else "\n" + Render(rows[1..]);
      assert Render(rows) == first + rest;
      RecordReadsBack(rows[0], values[0], rest);
      assert AfterLine(rest) == Render(rows[1..]);
      assert [values[0]] + values[1..] == values;
    }
  }

  /** A separator inside a field is indistinguishable from one between fields:
      joining with a field `a + sep + b` writes the same text as joining with
      the two fields `a` and `b`. */
  lemma {:induction false} JoinSplits(pre: seq<string>, a: string, b: string, post: seq<string>, sep: char)
    ensures Join(pre + [a + [sep] + b] + post, sep) == Join(pre + [a, b] + post, sep)
    decreases |pre|
  {
    if |pre| == 0 {
      assert pre + [a + [sep] + b] + post == [a + [sep] + b] + post;
      assert pre + [a, b] + post == [a] + ([b] + post);
      assert ([a] + ([b] + post))[1..] == [b] + post;
      if |post| == 0 {
        assert Join([b] + post, sep) == b;
      } else {
        assert ([b] + post)[1..] == post;
        assert ([a + [sep] + b] + post)[1..] == post;
      }
    } else {
      assert (pre + [a + [sep] + b] + post)[1..] == pre[1..] + [a + [sep] + b] + post;
      assert (pre + [a, b] + post)[1..] == pre[1..] + [a, b] + post;
      JoinSplits(pre[1..], a, b, post, sep);
    }
  }
}
