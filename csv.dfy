/** The CSV conventions shared by the conversion script and the extractor's export: the
    quote-aware field splitter of scripts/convert-to-letterboxd.js, as a specification function of
    the line, and the quoting of a title by doubling its quote characters (section 2, rule 7 of
    RFC 4180). */
module Csv {
  import opened Types
  import opened JsText

  /** Number of '"' characters in s. */
  function Quotes(s: string): nat
  {
    if s == [] then 0 else Quotes(s[..|s| - 1]) + (if s[|s| - 1] == '"' then 1 else 0)
  }

  lemma {:induction false} QuotesAppend(a: string, b: string)
    ensures Quotes(a + b) == Quotes(a) + Quotes(b)
  {
    if b == [] {
      assert a + b == a;
    } else {
      assert (a + b)[..|a + b| - 1] == a + b[..|b| - 1];
      QuotesAppend(a, b[..|b| - 1]);
    }
  }

  /** Whether a scan that toggles a flag on every '"' ends inside quotes after reading s. */
  predicate InQuotes(s: string)
  {
    if s == [] then false else InQuotes(s[..|s| - 1]) != (s[|s| - 1] == '"')
  }

  lemma {:induction false} InQuotesAppend(a: string, b: string)
    ensures InQuotes(a + b) == (InQuotes(a) != InQuotes(b))
  {
    if b == [] {
      assert a + b == a;
    } else {
      assert (a + b)[..|a + b| - 1] == a + b[..|b| - 1];
      InQuotesAppend(a, b[..|b| - 1]);
    }
  }

  /** The quote flag is the parity of the number of quote characters read. */
  lemma {:induction false} InQuotesIsParity(s: string)
    ensures InQuotes(s) == (Quotes(s) % 2 == 1)
  {
    if s != [] {
      InQuotesIsParity(s[..|s| - 1]);
    }
  }

  /** Position i of s holds a comma that is not inside quotes. */
  predicate IsTopComma(s: string, i: int)
    requires 0 <= i < |s|
  {
    s[i] == ',' && !InQuotes(s[..i])
  }

  /** The positions of s that hold a comma outside quotes. */
  function TopCommas(s: string): set<nat>
  {
    set i: nat | i < |s| && IsTopComma(s, i)
  }

  /** The fields the script's per-character loop produces for a line, defined by prefix: the
      fields of s + [c] are those of s, with c starting a new field when it is a comma outside
      quotes and appended to the last field otherwise. Quote characters stay in the fields. */
  function Split(s: string): (r: seq<string>)
    ensures |r| >= 1
  {
    if s == [] then [""]
    else
      var p := s[..|s| - 1];
      var c := s[|s| - 1];
      var ps := Split(p);
      if c == ',' && !InQuotes(p) then ps + [""] else ps[..|ps| - 1] + [ps[|ps| - 1] + [c]]
  }

  /** Array.prototype.join(",") on fields. */
  function Join(fields: seq<string>): string
  {
    JoinWith(fields, ',')
  }

  /** Joining the fields of a line with commas reproduces the line exactly. */
  lemma {:induction false} JoinSplit(s: string)
    ensures Join(Split(s)) == s
  {
    if s != [] {
      var p := s[..|s| - 1];
      var c := s[|s| - 1];
      var ps := Split(p);
      JoinSplit(p);
      assert s == p + [c];
      if c == ',' && !InQuotes(p) {
        assert Split(s) == ps + [""];
        JoinWithSnoc(ps, "", ',');
      } else {
        assert Split(s) == ps[..|ps| - 1] + [ps[|ps| - 1] + [c]];
        JoinWithExtendLast(ps, c, ',');
      }
    }
  }

  lemma TopCommasSnoc(p: string, c: char)
    ensures TopCommas(p + [c]) == TopCommas(p) + (if c == ',' && !InQuotes(p) then {|p|} else {})
  {
    var s := p + [c];
    var r := TopCommas(p) + (if c == ',' && !InQuotes(p) then {|p|} else {});
    forall i: nat
      ensures i in TopCommas(s) <==> i in r
    {
      if i < |p| {
        assert s[..i] == p[..i];
        assert IsTopComma(s, i) == IsTopComma(p, i);
      } else if i == |p| {
        assert s[..|p|] == p;
        assert IsTopComma(s, i) == (c == ',' && !InQuotes(p));
      }
    }
  }

  /** A line splits into one field more than it has commas outside quotes: commas inside quotes
      never split. */
  lemma {:induction false} SplitCount(s: string)
    ensures |Split(s)| == 1 + |TopCommas(s)|
  {
    if s == [] {
      assert TopCommas(s) == {};
    } else {
      var p := s[..|s| - 1];
      var c := s[|s| - 1];
      assert s == p + [c];
      SplitCount(p);
      TopCommasSnoc(p, c);
      assert |p| !in TopCommas(p);
    }
  }

  /** A string the splitter keeps as a single field. */
  predicate SingleField(f: string)
  {
    Split(f) == [f]
  }

  /** A field that is kept whole and leaves the scan outside quotes, so that whatever follows a
      comma after it is split as if on its own. */
  predicate Clean(f: string)
  {
    SingleField(f) && !InQuotes(f)
  }

  /** Every field but the last is Clean. */
  predicate CleanInit(fields: seq<string>)
  {
    forall k :: 0 <= k < |fields| - 1 ==> Clean(fields[k])
  }

  lemma CleanInitSnoc(fields: seq<string>, f: string)
    requires |fields| >= 1 && CleanInit(fields) && Clean(fields[|fields| - 1])
    ensures CleanInit(fields + [f])
  {
    forall k | 0 <= k < |fields|
      ensures Clean((fields + [f])[k])
    {
      assert (fields + [f])[k] == fields[k];
    }
  }

  lemma CleanInitExtend(fields: seq<string>, c: char)
    requires |fields| >= 1 && CleanInit(fields)
    ensures CleanInit(Extend(fields, c))
  {
    var e := Extend(fields, c);
    forall k | 0 <= k < |e| - 1
      ensures Clean(e[k])
    {
      assert e[k] == fields[k];
    }
  }

  /** Every field of s but the last is Clean; the last is kept whole and carries the quote state
      of s. */
  predicate FieldsClean(s: string)
  {
    var r := Split(s);
    CleanInit(r) && SingleField(r[|r| - 1]) && InQuotes(r[|r| - 1]) == InQuotes(s)
  }

  /** A comma outside quotes closes a field that is then Clean and opens an empty one. */
  lemma FieldsCleanComma(p: string)
    requires FieldsClean(p) && !InQuotes(p)
    ensures FieldsClean(p + [','])
  {
    var ps := Split(p);
    SplitSnoc(p, ',');
    InQuotesSnoc(p, ',');
    assert Split("") == [""];
    CleanInitSnoc(ps, "");
  }

  /** A character other than a comma outside quotes keeps a whole field whole. */
  lemma FieldStaysWhole(f: string, c: char)
    requires SingleField(f) && !(c == ',' && !InQuotes(f))
    ensures SingleField(f + [c])
  {
    calc {
      Split(f + [c]);
    == { SplitSnoc(f, c); }
      Extend(Split(f), c);
    == 
      Extend([f], c);
    == { assert [f][..0] == []; }
      [f + [c]];
    }
  }

  /** The same holds for the last field of a line, which shares the line's quote state. */
  lemma LastFieldSnoc(last: string, p: string, c: char)
    requires SingleField(last) && InQuotes(last) == InQuotes(p) && !(c == ',' && !InQuotes(p))
    ensures SingleField(last + [c]) && InQuotes(last + [c]) == InQuotes(p + [c])
  {
    FieldStaysWhole(last, c);
    InQuotesSnoc(last, c);
    InQuotesSnoc(p, c);
  }

  /** Any other character joins the last field, which stays whole. */
  lemma FieldsCleanExtend(p: string, c: char)
    requires FieldsClean(p) && !(c == ',' && !InQuotes(p))
    ensures FieldsClean(p + [c])
  {
    var ps := Split(p);
    var last := ps[|ps| - 1];
    var r := Split(p + [c]);
    assert r == Extend(ps, c) by {
      SplitSnoc(p, c);
    }
    assert r[|r| - 1] == last + [c];
    LastFieldSnoc(last, p, c);
    CleanInitExtend(ps, c);
  }

  /** Every field but the last is Clean; the last is kept whole and carries the quote state of the
      whole line. */
  lemma {:induction false} SplitFieldsClean(s: string)
    ensures CleanInit(Split(s))
    ensures SingleField(Split(s)[|Split(s)| - 1])
    ensures InQuotes(Split(s)[|Split(s)| - 1]) == InQuotes(s)
  {
    if s == [] {
      assert Split(s) == [""];
    } else {
      var p := s[..|s| - 1];
      var c := s[|s| - 1];
      assert s == p + [c];
      SplitFieldsClean(p);
      if c == ',' && !InQuotes(p) {
        FieldsCleanComma(p);
      } else {
        FieldsCleanExtend(p, c);
      }
    }
  }

  lemma InQuotesSnoc(p: string, c: char)
    ensures InQuotes(p + [c]) == (InQuotes(p) != (c == '"'))
  {
    assert (p + [c])[..|p|] == p;
  }

  /** Appending one character to the extended last field. */
  function Extend(ps: seq<string>, c: char): seq<string>
    requires |ps| >= 1
  {
    ps[..|ps| - 1] + [ps[|ps| - 1] + [c]]
  }

  lemma SplitSnoc(p: string, c: char)
    ensures Split(p + [c]) == if c == ',' && !InQuotes(p) then Split(p) + [""] else Extend(Split(p), c)
  {
    assert (p + [c])[..|p|] == p;
  }

  lemma ExtendAppend(xs: seq<string>, ys: seq<string>, c: char)
    requires |ys| >= 1
    ensures Extend(xs + ys, c) == xs + Extend(ys, c)
  {
    assert (xs + ys)[..|xs + ys| - 1] == xs + ys[..|ys| - 1];
  }

  /** A comma outside quotes cuts the line into two independently split halves. */
  lemma {:induction false} SplitAppend(a: string, b: string)
    requires !InQuotes(a)
    ensures Split(a + [','] + b) == Split(a) + Split(b)
  {
    if b == [] {
      assert a + [','] + b == a + [','];
      SplitSnoc(a, ',');
      assert Split(b) == [""];
    } else {
      var b' := b[..|b| - 1];
      var c := b[|b| - 1];
      var p := a + [','] + b';
      assert a + [','] + b == p + [c];
      assert b == b' + [c];
      SplitAppend(a, b');
      assert InQuotes(p) == InQuotes(b') by {
        InQuotesSnoc(a, ',');
        InQuotesAppend(a + [','], b');
      }
      if c == ',' && !InQuotes(b') {
        assert Split(p + [c]) == Split(p) + [""] by {
          SplitSnoc(p, c);
        }
        assert Split(b' + [c]) == Split(b') + [""] by {
          SplitSnoc(b', c);
        }
      } else {
        assert Split(p + [c]) == Extend(Split(p), c) by {
          SplitSnoc(p, c);
        }
        assert Split(b' + [c]) == Extend(Split(b'), c) by {
          SplitSnoc(b', c);
        }
        ExtendAppend(Split(a), Split(b'), c);
      }
    }
  }

  /** Clean fields joined with commas split back into exactly those fields. */
  lemma {:induction false} SplitJoinClean(fields: seq<string>)
    requires |fields| >= 1
    requires forall k :: 0 <= k < |fields| ==> Clean(fields[k])
    ensures Split(Join(fields)) == fields
    ensures !InQuotes(Join(fields))
  {
    if |fields| == 1 {
      assert Clean(fields[0]);
    } else {
      var init := fields[..|fields| - 1];
      var f := fields[|fields| - 1];
      assert forall k :: 0 <= k < |init| ==> init[k] == fields[k];
      SplitJoinClean(init);
      var j := Join(init);
      assert fields == init + [f];
      assert Join(fields) == j + [','] + f by {
        JoinWithSnoc(init, f, ',');
      }
      assert Clean(f);
      assert Split(j + [','] + f) == init + [f] by {
        SplitAppend(j, f);
      }
      assert !InQuotes(j + [','] + f) by {
        InQuotesSnoc(j, ',');
        InQuotesAppend(j + [','], f);
      }
    }
  }

  /** A string with no top-level comma is one field. */
  lemma SingleFieldWithoutTopComma(s: string)
    requires TopCommas(s) == {}
    ensures SingleField(s)
  {
    SplitCount(s);
    JoinSplit(s);
  }

  /** A string without quote characters and commas is a clean field. */
  lemma PlainIsClean(f: string)
    requires '"' !in f && ',' !in f
    ensures Clean(f)
  {
    assert TopCommas(f) == {};
    SingleFieldWithoutTopComma(f);
    NoQuoteNotInQuotes(f);
  }

  lemma {:induction false} NoQuoteNotInQuotes(f: string)
    requires '"' !in f
    ensures !InQuotes(f)
  {
    if f != [] {
      assert '"' !in f[..|f| - 1];
      NoQuoteNotInQuotes(f[..|f| - 1]);
    }
  }

  /** A character as `replace(/"/g, '""')` writes it. */
  function EscapeChar(c: char): string
  {
    if c == '"' then "\"\"" else [c]
  }

  /** `t.replace(/"/g, '""')`: every quote character doubled. */
  function Escape(t: string): string
  {
    if t == [] then [] else EscapeChar(t[0]) + Escape(t[1..])
  }

  /** A title as the CSV writers emit it: enclosed in quotes, internal quotes doubled. */
  function Quote(t: string): string
  {
    "\"" + Escape(t) + "\""
  }

  /** An escaped character never leaves the scan inside quotes, and a comma is only ever itself. */
  lemma EscapeCharClean(c: char)
    ensures !InQuotes(EscapeChar(c))
    ensures Quotes(EscapeChar(c)) == if c == '"' then 2 else 0
    ensures forall j :: 0 <= j < |EscapeChar(c)| && EscapeChar(c)[j] == ',' ==> j == 0 && EscapeChar(c) == [',']
  {
    var h := EscapeChar(c);
    if c == '"' {
      var one: string := ['"'];
      assert one[..0] == [];
      assert InQuotes(one) && Quotes(one) == 1;
      assert h == one + one;
      InQuotesAppend(one, one);
      QuotesAppend(one, one);
    } else {
      assert h[..0] == [];
    }
  }

  /** Escaping doubles the number of quote characters. */
  lemma {:induction false} EscapeQuoteCount(t: string)
    ensures Quotes(Escape(t)) == 2 * Quotes(t)
  {
    if t != [] {
      EscapeQuoteCount(t[1..]);
      EscapeCharClean(t[0]);
      QuotesAppend(EscapeChar(t[0]), Escape(t[1..]));
      assert t == [t[0]] + t[1..];
      QuotesAppend([t[0]], t[1..]);
    }
  }

  /** An escaped string ends outside quotes, and each of its commas is preceded by an even number
      of quotes. */
  lemma {:induction false} EscapeQuotes(t: string)
    ensures !InQuotes(Escape(t))
    ensures forall j :: 0 <= j < |Escape(t)| && Escape(t)[j] == ',' ==> !InQuotes(Escape(t)[..j])
  {
    if t != [] {
      var h := EscapeChar(t[0]);
      var e := Escape(t[1..]);
      EscapeQuotes(t[1..]);
      EscapeCharClean(t[0]);
      InQuotesAppend(h, e);
      forall j | 0 <= j < |h + e| && (h + e)[j] == ','
        ensures !InQuotes((h + e)[..j])
      {
        if j >= |h| {
          assert (h + e)[..j] == h + e[..j - |h|];
          InQuotesAppend(h, e[..j - |h|]);
        } else {
          assert (h + e)[..j] == [];
        }
      }
    }
  }

  /** A quoted title is a clean field, whatever commas or quotes it contains. */
  lemma QuotedIsClean(t: string)
    ensures Clean(Quote(t))
  {
    var e := Escape(t);
    var q := Quote(t);
    EscapeQuotes(t);
    forall i: nat | i < |q| && q[i] == ','
      ensures InQuotes(q[..i])
    {
      assert 1 <= i <= |e|;
      assert q[..i] == "\"" + e[..i - 1];
      InQuotesAppend("\"", e[..i - 1]);
    }
    assert TopCommas(q) == {};
    SingleFieldWithoutTopComma(q);
    InQuotesAppend("\"" + e, "\"");
    InQuotesAppend("\"", e);
  }

  /** A quoted title followed by a comma stays one field, and the rest of the line splits as if on
      its own. */
  lemma QuotedFieldStaysWhole(t: string, rest: string)
    ensures Split(Quote(t) + [','] + rest) == [Quote(t)] + Split(rest)
  {
    QuotedIsClean(t);
    SplitAppend(Quote(t), rest);
  }

  /** The inverse of Escape: collapses each '""' to '"'; a lone quote has no decoding. */
  function Unescape(e: string): Option<string>
  {
    if e == [] then Some([])
    else if e[0] != '"' then
      match Unescape(e[1..])
      case Some(t) => Some([e[0]] + t)
      case None => None
    else if |e| >= 2 && e[1] == '"' then
      match Unescape(e[2..])
      case Some(t) => Some("\"" + t)
      case None => None
    else None
  }

  /** The decoding RFC 4180 gives a quoted field. */
  function UnquoteField(f: string): Option<string>
  {
    if |f| >= 2 && f[0] == '"' && f[|f| - 1] == '"' then Unescape(f[1..|f| - 1]) else None
  }

  /** Quoting a title and decoding the field gives the title back, commas and quotes included. */
  lemma {:induction false} UnescapeEscape(t: string)
    ensures Unescape(Escape(t)) == Some(t)
  {
    if t != [] {
      UnescapeEscape(t[1..]);
      var e := Escape(t);
      assert e == (if t[0] == '"' then "\"\"" else [t[0]]) + Escape(t[1..]);
      if t[0] == '"' {
        assert e[2..] == Escape(t[1..]);
      } else {
        assert e[1..] == Escape(t[1..]);
      }
      assert t == [t[0]] + t[1..];
    }
  }

  lemma QuoteRoundTrip(t: string)
    ensures UnquoteField(Quote(t)) == Some(t)
  {
    var q := Quote(t);
    assert q[1..|q| - 1] == Escape(t);
    UnescapeEscape(t);
  }
}
