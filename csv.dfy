/**
 * The CSV dialect `DataFrame.to_csv` writes through Python's `csv` module
 * with its defaults: fields joined by `,`, each record ended by the line
 * terminator `\n`, and QUOTE_MINIMAL quoting: a field is wrapped in `"`
 * when it contains `,`, `"`, `\n` or `\r`, and every `"` inside a wrapped
 * field is doubled.
 *
 * Beside the writer, a reader for the same dialect, so that what was written
 * can be shown to split back into exactly the fields it was made from.
 */
module Csv {
  import opened Wrappers

  predicate IsSpecial(c: char) {
    c == ',' || c == '"' || c == '\n' || c == '\r'
  }

  predicate NeedsQuotes(f: string) {
    f != [] && (IsSpecial(f[0]) || NeedsQuotes(f[1..]))
  }

  /** A field is quoted exactly when one of its characters is special. */
  lemma {:induction false} NeedsQuotesIff(f: string)
    ensures NeedsQuotes(f) <==> exists i :: 0 <= i < |f| && IsSpecial(f[i])
  {
    if f != [] {
      NeedsQuotesIff(f[1..]);
      if NeedsQuotes(f[1..]) {
        var k :| 0 <= k < |f[1..]| && IsSpecial(f[1..][k]);
        assert IsSpecial(f[k + 1]);
      }
      if exists i :: 0 <= i < |f| && IsSpecial(f[i]) {
        var k :| 0 <= k < |f| && IsSpecial(f[k]);
        if k > 0 {
          assert IsSpecial(f[1..][k - 1]);
        }
      }
    }
  }

  /** A field with no special character, written without quotes. */
  predicate Plain(f: string) {
    forall i :: 0 <= i < |f| ==> !IsSpecial(f[i])
  }

  /** A plain field is written as it is and holds no `\n`. */
  lemma PlainField(f: string)
    requires Plain(f)
    ensures QuoteField(f) == f && '\n' !in f
  {
    NeedsQuotesIff(f);
  }

  /** Doubles every quote character. */
  function Escape(f: string): string {
    if f == [] then [] else (if f[0] == '"' then "\"\"" else [f[0]]) + Escape(f[1..])
  }

  function QuoteField(f: string): string {
    if NeedsQuotes(f) then "\"" + Escape(f) + "\"" else f
  }

  /** The fields of one record, each quoted as needed, separated by commas. */
  function JoinFields(fields: seq<string>): string
    requires |fields| > 0
  {
    if |fields| == 1 then QuoteField(fields[0])
    else QuoteField(fields[0]) + "," + JoinFields(fields[1..])
  }

  function FormatRecord(fields: seq<string>): string
    requires |fields| > 0
  {
    JoinFields(fields) + "\n"
  }

  predicate AllNonEmpty(records: seq<seq<string>>) {
    forall i :: 0 <= i < |records| ==> |records[i]| > 0
  }

  function FormatDocument(records: seq<seq<string>>): string
    requires AllNonEmpty(records)
  {
    if records == [] then "" else FormatRecord(records[0]) + FormatDocument(records[1..])
  }

  // The reader.

  /** An unquoted field runs up to the next `,` or line end. */
  function ParseBare(s: string): (r: (string, string))
    ensures r.0 + r.1 == s
  {
    if s == [] || s[0] == ',' || s[0] == '\n' then ("", s)
    else
      var (f, rest) := ParseBare(s[1..]);
      ([s[0]] + f, rest)
  }

  /** The inside of a quoted field, after its opening quote: `""` stands for `"`, a lone `"` closes it. */
  function ParseQuoted(s: string): (r: Option<(string, string)>)
    ensures r.Some? ==> |r.value.1| < |s|
  {
    if s == [] then None
    else if s[0] == '"' then
      if |s| > 1 && s[1] == '"' then
        match ParseQuoted(s[2..])
        case Some((f, rest)) => Some(("\"" + f, rest))
        case None => None
      else Some(("", s[1..]))
    else
      match ParseQuoted(s[1..])
      case Some((f, rest)) => Some(([s[0]] + f, rest))
      case None => None
  }

  function ParseField(s: string): (r: Option<(string, string)>)
    ensures r.Some? ==> |r.value.1| <= |s|
  {
    if s != [] && s[0] == '"' then ParseQuoted(s[1..]) else Some(ParseBare(s))
  }

  /** Fields separated by `,` up to and including the `\n` that ends the record. */
  function ParseRecord(s: string): (r: Option<(seq<string>, string)>)
    ensures r.Some? ==> |r.value.0| > 0 && |r.value.1| < |s|
    decreases |s|
  {
    match ParseField(s)
    case None => None
    case Some((f, rest)) =>
      if rest != [] && rest[0] == '\n' then Some(([f], rest[1..]))
      else if rest != [] && rest[0] == ',' then
        match ParseRecord(rest[1..])
        case Some((fs, tail)) => Some(([f] + fs, tail))
        case None => None
      else None
  }

  function ParseDocument(s: string): (r: Option<seq<seq<string>>>)
    ensures r.Some? ==> AllNonEmpty(r.value)
    decreases |s|
  {
    if s == [] then Some([])
    else
      match ParseRecord(s)
      case None => None
      case Some((fields, rest)) =>
        match ParseDocument(rest)
        case Some(records) => Some([fields] + records)
        case None => None
  }

  // Writing then reading gives back what was written.

  /** What may follow a field in a record: a separator, a line end, or nothing. */
  predicate FieldBoundary(rest: string) {
    rest == [] || rest[0] == ',' || rest[0] == '\n'
  }

  lemma {:induction false} BareRoundTrip(f: string, rest: string)
    requires !NeedsQuotes(f) && FieldBoundary(rest)
    ensures ParseBare(f + rest) == (f, rest)
  {
    if f == [] {
      assert f + rest == rest;
    } else {
      assert !IsSpecial(f[0]) && !NeedsQuotes(f[1..]);
      assert (f + rest)[0] == f[0];
      assert (f + rest)[1..] == f[1..] + rest;
      BareRoundTrip(f[1..], rest);
      assert [f[0]] + f[1..] == f;
    }
  }

  lemma {:induction false} QuotedRoundTrip(f: string, rest: string)
    requires rest == [] || rest[0] != '"'
    ensures ParseQuoted(Escape(f) + "\"" + rest) == Some((f, rest))
  {
    if f == [] {
      assert Escape(f) + "\"" + rest == "\"" + rest;
    } else {
      var head := if f[0] == '"' then "\"\"" else [f[0]];
      assert Escape(f) + "\"" + rest == head + (Escape(f[1..]) + "\"" + rest);
      QuotedRoundTrip(f[1..], rest);
      if f[0] == '"' {
        assert (head + (Escape(f[1..]) + "\"" + rest))[2..] == Escape(f[1..]) + "\"" + rest;
      } else {
        assert (head + (Escape(f[1..]) + "\"" + rest))[1..] == Escape(f[1..]) + "\"" + rest;
      }
      assert [f[0]] + f[1..] == f;
    }
  }

  lemma UnquotedStart(f: string)
    requires f != [] && !NeedsQuotes(f)
    ensures f[0] != '"'
  {
  }

  lemma FieldRoundTrip(f: string, rest: string)
    requires FieldBoundary(rest)
    ensures ParseField(QuoteField(f) + rest) == Some((f, rest))
  {
    if NeedsQuotes(f) {
      var s := "\"" + Escape(f) + "\"" + rest;
      assert s[1..] == Escape(f) + "\"" + rest;
      QuotedRoundTrip(f, rest);
    } else {
      BareRoundTrip(f, rest);
      if f != [] {
        UnquotedStart(f);
      }
    }
  }

  lemma {:induction false} RecordRoundTrip(fields: seq<string>, rest: string)
    requires |fields| > 0
    ensures ParseRecord(FormatRecord(fields) + rest) == Some((fields, rest))
  {
    if |fields| == 1 {
      LastFieldRoundTrip(fields, rest);
    } else {
      RecordRoundTrip(fields[1..], rest);
      RecordStep(fields, rest);
    }
  }

  lemma LastFieldRoundTrip(fields: seq<string>, rest: string)
    requires |fields| == 1
    ensures ParseRecord(FormatRecord(fields) + rest) == Some((fields, rest))
  {
    assert FormatRecord(fields) + rest == QuoteField(fields[0]) + ("\n" + rest);
    FieldRoundTrip(fields[0], "\n" + rest);
    assert ("\n" + rest)[1..] == rest;
    assert [fields[0]] == fields;
  }

  lemma RecordStep(fields: seq<string>, rest: string)
    requires |fields| > 1
    requires ParseRecord(FormatRecord(fields[1..]) + rest) == Some((fields[1..], rest))
    ensures ParseRecord(FormatRecord(fields) + rest) == Some((fields, rest))
  {
    var q, j := QuoteField(fields[0]), JoinFields(fields[1..]);
    var tail := FormatRecord(fields[1..]) + rest;
    assert FormatRecord(fields) == q + "," + j + "\n";
    SplitJoined(q, j, rest);
    FieldRoundTrip(fields[0], "," + tail);
    assert ("," + tail)[1..] == tail;
    assert [fields[0]] + fields[1..] == fields;
  }

  lemma SplitJoined(q: string, j: string, rest: string)
    ensures q + "," + j + "\n" + rest == q + ("," + (j + "\n" + rest))
  {
  }

  lemma {:induction false} DocumentRoundTrip(records: seq<seq<string>>)
    requires AllNonEmpty(records)
    ensures ParseDocument(FormatDocument(records)) == Some(records)
  {
    if records != [] {
      DocumentRoundTrip(records[1..]);
      DocumentStep(records);
    }
  }

  lemma DocumentStep(records: seq<seq<string>>)
    requires AllNonEmpty(records) && records != []
    requires ParseDocument(FormatDocument(records[1..])) == Some(records[1..])
    ensures ParseDocument(FormatDocument(records)) == Some(records)
  {
    var rest := FormatDocument(records[1..]);
    RecordRoundTrip(records[0], rest);
    assert FormatDocument(records) == FormatRecord(records[0]) + rest;
    assert [records[0]] + records[1..] == records;
  }

  // Physical lines.

  /** Position of the first line end, or the length when there is none. */
  function LineEnd(s: string): (i: nat)
    ensures i <= |s| && (i < |s| ==> s[i] == '\n')
    ensures forall j :: 0 <= j < i ==> s[j] != '\n'
  {
    if s == [] || s[0] == '\n' then 0 else 1 + LineEnd(s[1..])
  }

  /**
   * The text split at each `\n`, without the `\n`s. Only `\n` ends a line
   * here; a lone `\r` does not (text-mode `readlines` would split there too).
   */
  function SplitLines(s: string): seq<string>
    decreases |s|
  {
    if s == [] then []
    else
      var i := LineEnd(s);
      if i == |s| then [s] else [s[..i]] + SplitLines(s[i + 1..])
  }

  /** The record texts of a document, one per record, without their line ends. */
  function RecordTexts(records: seq<seq<string>>): (lines: seq<string>)
    requires AllNonEmpty(records)
    ensures |lines| == |records|
  {
    if records == [] then [] else [JoinFields(records[0])] + RecordTexts(records[1..])
  }

  /** No field of any record holds `\n`. */
  predicate NoLineBreaks(records: seq<seq<string>>) {
    forall i, j :: 0 <= i < |records| && 0 <= j < |records[i]| ==> '\n' !in records[i][j]
  }

  lemma NoLineBreaksAppend(a: seq<seq<string>>, b: seq<seq<string>>)
    requires NoLineBreaks(a) && NoLineBreaks(b)
    ensures NoLineBreaks(a + b)
  {
    forall i, j | 0 <= i < |a + b| && 0 <= j < |(a + b)[i]| ensures '\n' !in (a + b)[i][j] {
      if i < |a| {
        assert (a + b)[i] == a[i];
      } else {
        assert (a + b)[i] == b[i - |a|];
      }
    }
  }

  lemma {:induction false} EscapeKeepsLines(f: string)
    requires '\n' !in f
    ensures '\n' !in Escape(f)
  {
    if f != [] {
      assert f[0] != '\n' && f == [f[0]] + f[1..];
      EscapeKeepsLines(f[1..]);
    }
  }

  lemma {:induction false} JoinFieldsKeepsLines(fields: seq<string>)
    requires |fields| > 0
    requires forall j :: 0 <= j < |fields| ==> '\n' !in fields[j]
    ensures '\n' !in JoinFields(fields)
  {
    EscapeKeepsLines(fields[0]);
    if |fields| > 1 {
      JoinFieldsKeepsLines(fields[1..]);
    }
  }

  lemma {:induction false} LineEndOf(line: string, rest: string)
    requires '\n' !in line
    ensures LineEnd(line + "\n" + rest) == |line|
  {
    if line != [] {
      assert (line + "\n" + rest)[1..] == line[1..] + "\n" + rest;
      LineEndOf(line[1..], rest);
    }
  }

  /** A line without `\n`, followed by `\n`, is the first line of the text. */
  lemma FirstLine(line: string, rest: string)
    requires '\n' !in line
    ensures |SplitLines(line + "\n" + rest)| >= 1 && SplitLines(line + "\n" + rest)[0] == line
  {
    LineEndOf(line, rest);
    assert (line + "\n" + rest)[..|line|] == line;
  }

  /**
   * When no field holds `\n`, the document split at `\n` has one line per
   * record, in order, each the record's fields joined by commas.
   */
  lemma {:induction false} DocumentLines(records: seq<seq<string>>)
    requires AllNonEmpty(records) && NoLineBreaks(records)
    ensures SplitLines(FormatDocument(records)) == RecordTexts(records)
  {
    if records != [] {
      var line, rest := JoinFields(records[0]), FormatDocument(records[1..]);
      var s := line + "\n" + rest;
      assert FormatDocument(records) == s;
      JoinFieldsKeepsLines(records[0]);
      LineEndOf(line, rest);
      assert s[..|line|] == line && s[|line| + 1..] == rest;
      assert NoLineBreaks(records[1..]) by {
        forall i, j | 0 <= i < |records[1..]| && 0 <= j < |records[1..][i]|
          ensures '\n' !in records[1..][i][j]
        {
          assert records[1..][i] == records[i + 1];
        }
      }
      DocumentLines(records[1..]);
    }
  }
}
