/** scripts/convert-to-letterboxd.js: turns a CSV export with the title, the year, the site rating
    and (in the fifth column) the converted rating into the Letterboxd import format
    `Title,Year,Rating,Rating10`. Reading and writing the files is left to the caller: the model
    goes from the file's text to the output text. */
module ConvertScript {
  import opened Types
  import opened JsText
  import opened Csv

  /** The per-character loop of the script: a quote toggles `inQuotes` and stays in the field, a
      comma outside quotes ends the field, anything else is appended. */
  method SplitLine(line: string) returns (parts: seq<string>)
    ensures parts == Split(line)
    ensures Join(parts) == line
    ensures |parts| == 1 + |TopCommas(line)|
  {
    parts := [];
    var current := "";
    var inQuotes := false;
    for i := 0 to |line|
      invariant parts + [current] == Split(line[..i])
      invariant inQuotes == InQuotes(line[..i])
    {
      var c := line[i];
      assert line[..i + 1] == line[..i] + [c];
      assert (line[..i] + [c])[..i] == line[..i];
      SplitSnoc(line[..i], c);
      if c == '"' {
        inQuotes := !inQuotes;
        current := current + [c];
      } else if c == ',' && !inQuotes {
        parts := parts + [current];
        current := "";
      } else {
        current := current + [c];
      }
    }
    parts := parts + [current];
    assert line[..|line|] == line;
    JoinSplit(line);
    SplitCount(line);
  }

  /** `f.replace(/^"|"$/g, "")`: a leading and a trailing quote character removed where present.
      Doubled quotes inside are left doubled. */
  function StripQuotes(f: string): string
  {
    var a := if f != [] && f[0] == '"' then f[1..] else f;
    if a != [] && a[|a| - 1] == '"' then a[..|a| - 1] else a
  }

  /** The row the script emits for a title, a year field, the converted rating and the source rating. */
  function Row(title: string, year: string, converted: JsNumber, source: int): string
  {
    Join([Quote(title), year, NumberToString(converted), IntToString(source)])
  }

  /** The output row for one input line, or None when the script skips it: a blank line, fewer
      than five fields, or a source rating (parseInt of field 2) or converted rating (parseFloat
      of field 4) that is not > 0. */
  function ConvertLine(raw: string): Option<string>
  {
    var line := Trim(raw);
    if line == [] then None
    else
      var parts := Split(line);
      if |parts| < 5 then None
      else
        var source := ParseInt(parts[2]);
        var converted := ParseFloat(parts[4]);
        if source.Some? && source.value > 0 && converted.IsPositive() then
          Some(Row(StripQuotes(parts[0]), parts[1], converted, source.value))
        else None
  }

  /** Number of lines that are not blank once trimmed. */
  function NonBlank(ls: seq<string>): nat
  {
    if ls == [] then 0 else NonBlank(ls[..|ls| - 1]) + (if Trim(ls[|ls| - 1]) == [] then 0 else 1)
  }

  function Rows(row: Option<string>): seq<string>
  {
    match row
    case Some(r) => [r]
    case None => []
  }

  /** The rows produced for a sequence of data lines, in line order. */
  function ConvertedRows(ls: seq<string>): (rows: seq<string>)
    ensures |rows| <= |ls|
  {
    if ls == [] then []
    else
      ConvertedRows(ls[..|ls| - 1]) + Rows(ConvertLine(ls[|ls| - 1]))
  }

  lemma ConvertedRowsSnoc(ls: seq<string>, l: string)
    ensures ConvertedRows(ls + [l]) == ConvertedRows(ls) + Rows(ConvertLine(l))
  {
    assert (ls + [l])[..|ls|] == ls;
  }

  /** The lines after the header line. */
  function DataLines(lines: seq<string>): seq<string>
  {
    if lines == [] then [] else lines[1..]
  }

  /** The body of the script's loop for one line: trim, skip a blank line, split, filter and
      build the row. */
  method ConvertOne(raw: string) returns (row: Option<string>)
    ensures row == ConvertLine(raw)
  {
    row := None;
    var line := Trim(raw);
    if line != [] {
      var parts := SplitLine(line);
      if |parts| >= 5 {
        var title := StripQuotes(parts[0]);
        var year := parts[1];
        var source := ParseInt(parts[2]);
        var converted := ParseFloat(parts[4]);
        if source.Some? && source.value > 0 && converted.IsPositive() {
          row := Some(Row(title, year, converted, source.value));
        }
      }
    }
  }

  /** The rows a per-line conversion gives for a sequence of lines, in line order. */
  function RowsOf(convert: string -> Option<string>, ls: seq<string>): seq<string>
  {
    if ls == [] then [] else RowsOf(convert, ls[..|ls| - 1]) + Rows(convert(ls[|ls| - 1]))
  }

  lemma {:induction false} RowsOfConvertLine(ls: seq<string>)
    ensures RowsOf(ConvertLine, ls) == ConvertedRows(ls)
  {
    if ls != [] {
      RowsOfConvertLine(ls[..|ls| - 1]);
    }
  }

  /** The script's loop over the lines, with the conversion of one line given as `convert`: the
      header, then the row of each line after the first, if it has one. */
  method ConvertLinesWith(convert: string -> Option<string>, lines: seq<string>) returns (rows: seq<string>)
    ensures rows == [LetterboxdHeader] + RowsOf(convert, DataLines(lines))
  {
    rows := [LetterboxdHeader];
    if lines == [] {
      return;
    }
    for i := 1 to |lines|
      invariant rows == [LetterboxdHeader] + RowsOf(convert, lines[1..i])
    {
      var row := Rows(convert(lines[i]));
      RowsOfStep(convert, lines, i);
      rows := rows + row;
    }
    assert lines[1..|lines|] == lines[1..];
  }

  /** One turn of the loop: line i adds its row after those of lines 1 to i - 1. */
  lemma RowsOfStep(convert: string -> Option<string>, lines: seq<string>, i: int)
    requires 1 <= i < |lines|
    ensures RowsOf(convert, lines[1..i + 1]) == RowsOf(convert, lines[1..i]) + Rows(convert(lines[i]))
  {
    var ls := lines[1..i];
    assert lines[1..i + 1] == ls + [lines[i]];
    assert (ls + [lines[i]])[..|ls|] == ls;
  }

  /** The script's loop over the lines, each converted as ConvertOne does: the header, then one
      row per qualifying line after the first. */
  method ConvertLines(lines: seq<string>) returns (rows: seq<string>)
    ensures rows == [LetterboxdHeader] + ConvertedRows(DataLines(lines))
  {
    rows := ConvertLinesWith(ConvertLine, lines);
    RowsOfConvertLine(DataLines(lines));
  }

  /** The whole script from input text to output text: trim, split into lines, convert, join
      with newlines. */
  method ConvertContent(content: string) returns (output: string)
    ensures output == JoinWith([LetterboxdHeader] + ConvertedRows(SplitOn(Trim(content), '\n')[1..]), '\n')
    ensures |output| >= |LetterboxdHeader| && output[..|LetterboxdHeader|] == LetterboxdHeader
  {
    var lines := SplitOn(Trim(content), '\n');
    var rows := ConvertLines(lines);
    output := JoinWith(rows, '\n');
    JoinWithFirst(rows, '\n');
  }

  /** At most one row per data line that is not blank: blank lines never produce a row. */
  lemma {:induction false} ConvertedRowsAtMostNonBlank(ls: seq<string>)
    ensures |ConvertedRows(ls)| <= NonBlank(ls) <= |ls|
  {
    if ls != [] {
      ConvertedRowsAtMostNonBlank(ls[..|ls| - 1]);
    }
  }

  /** Rows come out in the order of their lines: converting two runs of lines one after the other
      gives the rows of the first run followed by those of the second. */
  lemma {:induction false} ConvertedRowsAppend(a: seq<string>, b: seq<string>)
    ensures ConvertedRows(a + b) == ConvertedRows(a) + ConvertedRows(b)
  {
    if b == [] {
      assert a + b == a;
    } else {
      var b' := b[..|b| - 1];
      var l := b[|b| - 1];
      assert a + b == (a + b') + [l];
      assert b == b' + [l];
      ConvertedRowsAppend(a, b');
      ConvertedRowsSnoc(a + b', l);
      ConvertedRowsSnoc(b', l);
    }
  }

  /** Every emitted row splits into exactly four fields: the quoted title, the year field as
      read, the converted rating and the source rating, both of them read as numbers > 0. */
  lemma ConvertLineFields(raw: string)
    requires ConvertLine(raw).Some?
    ensures var parts := Split(Trim(raw));
            |parts| >= 5 &&
            Split(ConvertLine(raw).value) ==
              [Quote(StripQuotes(parts[0])), parts[1], NumberToString(ParseFloat(parts[4])), IntToString(ParseInt(parts[2]).value)]
    ensures var parts := Split(Trim(raw));
            |parts| >= 5 && ParseInt(parts[2]).Some? && ParseInt(parts[2]).value > 0 && ParseFloat(parts[4]).IsPositive()
  {
    var parts := Split(Trim(raw));
    assert |parts| >= 5;
    assert ConvertLine(raw).value == Row(StripQuotes(parts[0]), parts[1], ParseFloat(parts[4]), ParseInt(parts[2]).value);
    SplitFieldsClean(Trim(raw));
    assert Clean(parts[1]);
    ParseFloatDigits(parts[4]);
    RowFields(StripQuotes(parts[0]), parts[1], ParseFloat(parts[4]), ParseInt(parts[2]).value);
  }

  /** A row built from a field the splitter keeps whole splits back into its four fields. */
  lemma RowFields(title: string, year: string, converted: JsNumber, source: int)
    requires Clean(year)
    requires converted.Finite? ==> AllDigits(converted.whole) && AllDigits(converted.frac)
    ensures Split(Row(title, year, converted, source)) == [Quote(title), year, NumberToString(converted), IntToString(source)]
  {
    QuotedIsClean(title);
    NumberToStringPlain(converted);
    PlainIsClean(NumberToString(converted));
    IntToStringPlain(source);
    PlainIsClean(IntToString(source));
    SplitJoinClean([Quote(title), year, NumberToString(converted), IntToString(source)]);
  }

  /** All output rows have exactly four top-level fields. */
  lemma {:induction false} ConvertedRowsFourFields(ls: seq<string>)
    ensures forall k :: 0 <= k < |ConvertedRows(ls)| ==> |Split(ConvertedRows(ls)[k])| == 4
  {
    if ls != [] {
      ConvertedRowsFourFields(ls[..|ls| - 1]);
      if ConvertLine(ls[|ls| - 1]).Some? {
        ConvertLineFields(ls[|ls| - 1]);
      }
    }
  }

  /** A line made of four clean fields, which is the shape of every row the script (and the
      extractor's export) writes, is skipped: the script wants at least five. */
  lemma FourFieldLineSkipped(fields: seq<string>)
    requires |fields| == 4 && forall k :: 0 <= k < 4 ==> Clean(fields[k])
    requires Trim(Join(fields)) == Join(fields)
    ensures ConvertLine(Join(fields)) == None
  {
    SplitJoinClean(fields);
  }

  /** Stripping the quotes of a quoted title leaves the escaped title, so a title with quotes
      comes out with its quotes doubled once more; without quotes it comes back unchanged. */
  lemma StripQuotesOfQuote(t: string)
    ensures StripQuotes(Quote(t)) == Escape(t)
    ensures Escape(t) == t <==> '"' !in t
  {
    var q := Quote(t);
    var a := q[1..];
    assert a == Escape(t) + "\"";
    assert a[..|a| - 1] == Escape(t);
    EscapeIsIdentity(t);
  }

  /** Escaping changes exactly the titles that hold a quote character. */
  lemma EscapeIsIdentity(t: string)
    ensures Escape(t) == t <==> '"' !in t
  {
    EscapeLength(t);
    if '"' !in t {
      EscapeNoQuote(t);
    } else {
      QuotesPositive(t);
    }
  }

  lemma {:induction false} EscapeLength(t: string)
    ensures |Escape(t)| == |t| + Quotes(t)
  {
    if t != [] {
      EscapeLength(t[1..]);
      assert t == [t[0]] + t[1..];
      QuotesAppend([t[0]], t[1..]);
    }
  }

  lemma {:induction false} EscapeNoQuote(t: string)
    requires '"' !in t
    ensures Escape(t) == t
  {
    if t != [] {
      assert '"' !in t[1..];
      EscapeNoQuote(t[1..]);
    }
  }

  lemma {:induction false} QuotesPositive(t: string)
    requires '"' in t
    ensures Quotes(t) > 0
  {
    var p := t[..|t| - 1];
    if t[|t| - 1] != '"' {
      assert t == p + [t[|t| - 1]];
      QuotesPositive(p);
    }
  }
}
