/**
 * The Good Budget serialiser, `write_csv`: the transaction table becomes a
 * CSV text with the header `Date,Name,Amount`, then one record per
 * transaction in table order, without an index column; dates as
 * `%d/%m/%Y`, amounts as `.2f`, names as they are (quoted when needed).
 *
 * The table is a value here, so formatting cannot change the caller's
 * table; the source gets the same effect by formatting a copy.
 */
module GoodBudget {
  import opened Wrappers
  import opened Digits
  import opened Calendar
  import opened Amounts
  import opened Csv

  /** One row of the transaction table: posting date, description, amount. */
  datatype Transaction = Transaction(date: CalendarDate, name: string, amount: Decimal)

  const HeaderFields: seq<string> := ["Date", "Name", "Amount"]

  /** The three formatted columns of a row, in header order. */
  function RowFields(t: Transaction): (fields: seq<string>)
    ensures |fields| == |HeaderFields|
  {
    [FormatDate(t.date), t.name, FormatAmount(t.amount)]
  }

  function Records(rows: seq<Transaction>): (records: seq<seq<string>>)
    ensures |records| == |rows| && AllNonEmpty(records)
    ensures forall i :: 0 <= i < |rows| ==> records[i] == RowFields(rows[i])
  {
    if rows == [] then [] else [RowFields(rows[0])] + Records(rows[1..])
  }

  /** The whole file `write_csv` writes for a table. */
  function Serialize(rows: seq<Transaction>): string {
    FormatDocument([HeaderFields] + Records(rows))
  }

  /** What a reader recovers from one data record: the date, the name, the amount in hundredths. */
  datatype Entry = Entry(date: CalendarDate, name: string, cents: int)

  function DecodeRecord(fields: seq<string>): Option<Entry> {
    if |fields| != 3 then None
    else match (ParseDate(fields[0]), ParseAmount(fields[2]))
      case (Some(d), Some(c)) => Some(Entry(d, fields[1], c))
      case _ => None
  }

  function DecodeRecords(records: seq<seq<string>>): (r: Option<seq<Entry>>)
    ensures r.Some? ==> |r.value| == |records|
  {
    if records == [] then Some([])
    else match (DecodeRecord(records[0]), DecodeRecords(records[1..]))
      case (Some(e), Some(es)) => Some([e] + es)
      case _ => None
  }

  /** Reads a Good Budget CSV text: the fixed header, then one entry per record. */
  function ReadBack(csv: string): Option<seq<Entry>> {
    match ParseDocument(csv)
    case Some(records) =>
      if |records| > 0 && records[0] == HeaderFields then DecodeRecords(records[1..]) else None
    case None => None
  }

  /** What a row should read back as: its date, its name, its amount rounded to hundredths. */
  function Expected(t: Transaction): Entry {
    Entry(t.date, t.name, SignedCents(t.amount))
  }

  function ExpectedAll(rows: seq<Transaction>): (es: seq<Entry>)
    ensures |es| == |rows|
    ensures forall i :: 0 <= i < |rows| ==> es[i] == Expected(rows[i])
  {
    if rows == [] then [] else [Expected(rows[0])] + ExpectedAll(rows[1..])
  }

  lemma RowRoundTrip(t: Transaction)
    ensures DecodeRecord(RowFields(t)) == Some(Expected(t))
  {
    DateRoundTrip(t.date);
    AmountRoundTrip(t.amount);
  }

  lemma {:induction false} RecordsRoundTrip(rows: seq<Transaction>)
    ensures DecodeRecords(Records(rows)) == Some(ExpectedAll(rows))
  {
    if rows != [] {
      RowRoundTrip(rows[0]);
      RecordsRoundTrip(rows[1..]);
      assert Records(rows)[1..] == Records(rows[1..]);
    }
  }

  /**
   * Reading the written file back gives the header and then, in table order,
   * one entry per row holding that row's date, name and rounded amount.
   */
  lemma SerializeReadBack(rows: seq<Transaction>)
    ensures ReadBack(Serialize(rows)) == Some(ExpectedAll(rows))
  {
    var records := [HeaderFields] + Records(rows);
    ParseSerialized(rows);
    assert records[0] == HeaderFields && records[1..] == Records(rows);
    RecordsRoundTrip(rows);
  }

  lemma ParseSerialized(rows: seq<Transaction>)
    ensures ParseDocument(Serialize(rows)) == Some([HeaderFields] + Records(rows))
  {
    DocumentRoundTrip([HeaderFields] + Records(rows));
  }

  // Physical lines of the written file.

  const HeaderLine: string := "Date,Name,Amount"

  /** The line a row becomes: date, name and amount joined by commas. */
  function RowLine(t: Transaction): string {
    JoinFields(RowFields(t))
  }

  /** No name holds `\n`; a `\r` is allowed, since `SplitLines` only splits at `\n`. */
  predicate SingleLineNames(rows: seq<Transaction>) {
    forall i :: 0 <= i < |rows| ==> '\n' !in rows[i].name
  }

  /** The header record is written as exactly `Date,Name,Amount`. */
  lemma HeaderText()
    ensures JoinFields(HeaderFields) == HeaderLine
  {
    HeaderSplit();
    HeaderTailText();
    HeaderConcat();
  }

  // Worked steps for `HeaderText`, one literal fact each: proved together,
  // these facts make the solver's cost vary widely from seed to seed.

  lemma HeaderConcat()
    ensures "Date," + "Name,Amount" == HeaderLine
  {
  }

  lemma HeaderSplit()
    ensures JoinFields(HeaderFields) == "Date," + JoinFields(["Name", "Amount"])
  {
    assert QuoteField("Date") == "Date";
    assert HeaderFields[1..] == ["Name", "Amount"];
  }

  lemma HeaderTailText()
    ensures JoinFields(["Name", "Amount"]) == "Name,Amount"
  {
    HeaderTailSplit();
    HeaderLastText();
    HeaderTailConcat();
  }

  lemma HeaderTailConcat()
    ensures "Name," + "Amount" == "Name,Amount"
  {
  }

  lemma HeaderTailSplit()
    ensures JoinFields(["Name", "Amount"]) == "Name," + JoinFields(["Amount"])
  {
    assert QuoteField("Name") == "Name";
    assert ["Name", "Amount"][1..] == ["Amount"];
  }

  lemma HeaderLastText()
    ensures JoinFields(["Amount"]) == "Amount"
  {
    assert QuoteField("Amount") == "Amount";
  }

  /** Three fields that need no quotes are joined by commas and nothing else. */
  lemma JoinPlainFields(a: string, b: string, c: string)
    requires QuoteField(a) == a && QuoteField(b) == b && QuoteField(c) == c
    ensures JoinFields([a, b, c]) == a + "," + b + "," + c
  {
    assert [a, b, c][1..] == [b, c];
    assert [b, c][1..] == [c];
    assert JoinFields([b, c]) == b + "," + c;
  }

  /** A formatted date holds only digits and `/`, so it is never quoted. */
  lemma DatePlain(d: CalendarDate)
    ensures Plain(FormatDate(d))
  {
    var s := FormatDate(d);
    forall i | 0 <= i < |s| ensures s[i] == '/' || IsDigit(s[i]) {
      if i < 2 {
        assert s[..2][i] == s[i];
      } else if 2 < i < 5 {
        assert s[3..5][i - 3] == s[i];
      } else if i > 5 {
        assert s[6..][i - 6] == s[i];
      }
    }
  }

  /** A formatted amount holds only digits, `.` and a leading `-`, so it is never quoted. */
  lemma AmountPlain(x: Decimal)
    ensures Plain(FormatAmount(x))
  {
    var m := Cents(x);
    var whole, frac := Minimal(m / 100), Padded(m % 100, 2);
    var b := UnsignedText(m);
    assert b == whole + "." + frac;
    forall i | 0 <= i < |b| ensures b[i] == '.' || IsDigit(b[i]) {
      if i < |whole| {
        assert b[i] == whole[i];
      } else if i > |whole| {
        assert b[i] == frac[i - |whole| - 1];
      }
    }
    if x.negative {
      var s := "-" + b;
      forall i | 0 < i < |s| ensures s[i] == b[i - 1] {
      }
    }
  }

  /** A row whose name needs no quotes is its date, name and amount joined by commas. */
  lemma RowLinePlain(t: Transaction)
    requires Plain(t.name)
    ensures RowLine(t) == FormatDate(t.date) + "," + t.name + "," + FormatAmount(t.amount)
  {
    DatePlain(t.date);
    AmountPlain(t.amount);
    PlainField(FormatDate(t.date));
    PlainField(t.name);
    PlainField(FormatAmount(t.amount));
    JoinPlainFields(FormatDate(t.date), t.name, FormatAmount(t.amount));
  }

  /**
   * With no `\n` inside a name, the file split at `\n` has one line more
   * than the table has rows: the header first, then each row's line in
   * table order.
   */
  lemma SerializeLines(rows: seq<Transaction>)
    requires SingleLineNames(rows)
    ensures var lines := SplitLines(Serialize(rows));
            |lines| == |rows| + 1 && lines[0] == HeaderLine &&
            forall i :: 0 <= i < |rows| ==> lines[i + 1] == RowLine(rows[i])
  {
    var records := [HeaderFields] + Records(rows);
    SerializedHasNoBreaks(rows);
    DocumentLines(records);
    RecordTextsAt(records);
    HeaderText();
  }

  /**
   * For every table, whatever its names hold, the file opens with the header
   * line and its `\n`, and the records follow.
   */
  lemma HeaderFirst(rows: seq<Transaction>)
    ensures Serialize(rows) == HeaderLine + "\n" + FormatDocument(Records(rows))
  {
    HeaderText();
    assert ([HeaderFields] + Records(rows))[1..] == Records(rows);
  }

  /** For every table, the first line of the file is exactly `Date,Name,Amount`. */
  lemma HeaderFirstLine(rows: seq<Transaction>)
    ensures |SplitLines(Serialize(rows))| >= 1 && SplitLines(Serialize(rows))[0] == HeaderLine
  {
    HeaderFirst(rows);
    HeaderHasNoNewline();
    FirstLine(HeaderLine, FormatDocument(Records(rows)));
  }

  lemma HeaderHasNoNewline()
    ensures '\n' !in HeaderLine
  {
  }

  lemma SerializedHasNoBreaks(rows: seq<Transaction>)
    requires SingleLineNames(rows)
    ensures NoLineBreaks([HeaderFields] + Records(rows))
  {
    HeaderHasNoBreaks();
    RecordsHaveNoBreaks(rows);
    NoLineBreaksAppend([HeaderFields], Records(rows));
  }

  lemma HeaderHasNoBreaks()
    ensures NoLineBreaks([HeaderFields])
  {
    forall i, j | 0 <= i < 1 && 0 <= j < |[HeaderFields][i]| ensures '\n' !in [HeaderFields][i][j] {
      HeaderHasNoBreak(j);
    }
  }

  lemma HeaderHasNoBreak(j: int)
    requires 0 <= j < |HeaderFields|
    ensures '\n' !in HeaderFields[j]
  {
  }

  lemma RecordsHaveNoBreaks(rows: seq<Transaction>)
    requires SingleLineNames(rows)
    ensures NoLineBreaks(Records(rows))
  {
    var records := Records(rows);
    forall i, j | 0 <= i < |records| && 0 <= j < |records[i]| ensures '\n' !in records[i][j] {
      RowHasNoBreak(rows[i], j);
    }
  }

  lemma RowHasNoBreak(t: Transaction, j: int)
    requires 0 <= j < 3 && '\n' !in t.name
    ensures '\n' !in RowFields(t)[j]
  {
    if j == 0 {
      DatePlain(t.date);
      PlainField(FormatDate(t.date));
    } else if j == 2 {
      AmountPlain(t.amount);
      PlainField(FormatAmount(t.amount));
    }
  }

  lemma {:induction false} RecordTextsAt(records: seq<seq<string>>)
    requires AllNonEmpty(records)
    ensures forall i :: 0 <= i < |records| ==> RecordTexts(records)[i] == JoinFields(records[i])
  {
    if records != [] {
      RecordTextsAt(records[1..]);
    }
  }

  // The test fixture: three transactions from October 2023.

  const FixtureRows: seq<Transaction> := [
    Transaction(Date(2023, 10, 6), "Transaction 1", Decimal(true, 9999, 0)),
    Transaction(Date(2023, 10, 3), "Transaction 2", Decimal(true, 2, 0)),
    Transaction(Date(2023, 10, 3), "Transaction 3", Decimal(false, 10001, 0))
  ]

  /**
   * The records written for the fixture: the header, then each transaction's
   * date (day first), name and amount text, in table order.
   */
  lemma FixtureRecords(rows: seq<Transaction>)
    requires rows == FixtureRows
    ensures [HeaderFields] + Records(rows) == [
      ["Date", "Name", "Amount"],
      ["06/10/2023", "Transaction 1", "-9999.00"],
      ["03/10/2023", "Transaction 2", "-2.00"],
      ["03/10/2023", "Transaction 3", "10001.00"]
    ]
  {
    RecordsOfThree(rows);
    PrependToThree(HeaderFields, RowFields(rows[0]), RowFields(rows[1]), RowFields(rows[2]));
    FixtureFirstRow();
    FixtureSecondRow();
    FixtureThirdRow();
  }

  lemma RecordsOfThree(rows: seq<Transaction>)
    requires |rows| == 3
    ensures Records(rows) == [RowFields(rows[0]), RowFields(rows[1]), RowFields(rows[2])]
  {
  }

  lemma PrependToThree<T>(h: T, a: T, b: T, c: T)
    ensures [h] + [a, b, c] == [h, a, b, c]
  {
  }

  lemma FixtureFirstRow()
    ensures RowFields(FixtureRows[0]) == ["06/10/2023", "Transaction 1", "-9999.00"]
  {
    FormatDateExample();
    FormatDebitExample();
  }

  lemma FixtureSecondRow()
    ensures RowFields(FixtureRows[1]) == ["03/10/2023", "Transaction 2", "-2.00"]
  {
    FormatOtherDateExample();
    FormatSmallDebitExample();
  }

  lemma FixtureThirdRow()
    ensures RowFields(FixtureRows[2]) == ["03/10/2023", "Transaction 3", "10001.00"]
  {
    FormatOtherDateExample();
    FormatCreditExample();
  }
}
