# seb_to_goodbudget in Dafny

A model of the converter that turns an SEB bank export into a CSV file for
Good Budget, with proofs about it. The model covers:

- the serialiser `write_csv`:
  - dates written as `%d/%m/%Y`;
  - amounts written as `.2f`;
  - the header `Date,Name,Amount`;
  - one record per transaction in table order, with no index column;
  - the file created with `mode="x"`;
- the output-path rule of `main`: the `-o` path as given, or the input path
  with its suffix replaced by `.csv` as `pathlib.PurePath.with_suffix` does it;
- how every way `main` can end maps to its return value, 0 or 1.

Modules, one file each:

| file | module | what it holds |
|---|---|---|
| `wrappers.dfy` | `Wrappers` | `Option` and `Result` |
| `digits.dfy` | `Digits` | decimal digit strings: zero-padded and minimal renderings, and their values |
| `calendar.dfy` | `Calendar` | calendar dates with years 1000..9999 (a range that contains the pandas timestamp range), and `FormatDate` (`%d/%m/%Y`) with its reader |
| `amounts.dfy` | `Amounts` | a Python `Decimal` as sign bit, coefficient and exponent; `FormatAmount` (`.2f`: rescale to two places with ROUND_HALF_EVEN, keep the sign); its reader |
| `csv.dfy` | `Csv` | the CSV dialect `to_csv` writes (comma separator, minimal quoting, `\n` line ends), a reader for it, and the split into physical lines |
| `goodbudget.dfy` | `GoodBudget` | the transaction table and `Serialize`, the whole text `write_csv` writes |
| `paths.dfy` | `Paths` | `PurePath.name`, `suffix`, `stem`, `with_suffix`, and the output-path choice of `main` |
| `cli.dfy` | `Cli` | the `FileSystem` class (a map from path to contents) with exclusive create, `WriteCsv` and `Convert` (the model of `main`), and `Run`, the function that specifies `Convert` |

How a few things are modelled:

- **Decimals.** A `Decimal` is `(negative, coefficient, exponent)`. It is
  not a float. `Cents` gives the magnitude in hundredths, after
  half-even rounding when the exponent is below -2. Rounding does occur in
  practice: `read_excel` builds each amount with `Decimal(float)`, so a
  value like 12.34 carries a long binary fraction.
- **Sign.** The sign bit is kept, so `Decimal('-0.001')` formats as `-0.00`.
- **Quoting.** Names are written as `to_csv`'s default `QUOTE_MINIMAL` does.
  A field containing `,`, `"`, `\n` or `\r` is quoted, and its quotes are
  doubled. `DocumentRoundTrip` shows that this keeps every record's fields
  recoverable.
- **The file system.** `FileSystem.files` maps path to contents.
  `CreateExclusive` is `open(path, "x")` followed by a write. `Convert` first
  checks for an existing output, then reads, then writes. Its contract is
  that `(outcome, files)` equals `Run` applied to the old file map.
- **Reading the spreadsheet.** `read_excel` is not modelled. `Convert` takes
  `extract`, a function from the input file's contents to the table or to
  the kind of exception raised (`ValueError`, or anything else such as the
  `KeyError` of a missing column).
- **The table is not changed.** `write_csv` formats a copy of the table it
  is given (main.py:52). In the model the table is an immutable `seq`, so
  `WriteCsv` cannot change it.

Where the code and its tests disagree: `tests/test_main.py:62-67` expects
month-first dates (`10/06/2023` for 6 October 2023). `main.py:53` formats
with `%d/%m/%Y`, which gives `06/10/2023`. The model follows the code
(`Calendar.FormatDateExample`, `GoodBudget.FixtureRecords`).

## Model

Source paths below are relative to the repository root.

| member | source | states |
|---|---|---|
| Calendar.FormatDate | src/seb_to_goodbudget/main.py:53 | The date text is two digits, `/`, two digits, `/`, four digits, and those parts read back as the day, the month and the year, in that order. |
| Calendar.DateRoundTrip | src/seb_to_goodbudget/main.py:53 | Reading a formatted date back gives the same (year, month, day). |
| Calendar.DateTextUnique | src/seb_to_goodbudget/main.py:53 | Any text that reads back as a date is exactly that date's formatting, so each date has one text. |
| Calendar.FormatDateExample | src/seb_to_goodbudget/main.py:53 | 6 October 2023 is written `06/10/2023`, day first. |
| Calendar.FormatOtherDateExample | tests/test_main.py:27 | 3 October 2023 is written `03/10/2023`. |
| Amounts.RoundHalfEvenError | src/seb_to_goodbudget/main.py:54 | The rounded quotient lies within half a unit of the exact quotient, and is exact when the division is. |
| Amounts.TiesToEven | src/seb_to_goodbudget/main.py:54 | On an exact tie, the rounding picks the even neighbour. |
| Amounts.FormatAmountShape | src/seb_to_goodbudget/main.py:54 | An amount text is an optional `-` (present exactly when the sign bit is set), then digits without separators or leading zeros, one `.`, and exactly two digits. |
| Amounts.DebitSign | src/seb_to_goodbudget/main.py:54 | For a non-zero coefficient, the text starts with `-` exactly when the value is negative. |
| Amounts.AmountRoundTrip | src/seb_to_goodbudget/main.py:54 | Reading an amount text back gives the value rounded to hundredths, with its sign. |
| Amounts.AmountTextUnique | src/seb_to_goodbudget/main.py:54 | Any text in the `.2f` layout reads back. Formatting the value it reads back as, with the same sign bit, gives that text again. |
| Amounts.UnsignedTextUnique | src/seb_to_goodbudget/main.py:54 | Any unsigned text in the `.2f` layout is the formatting of the hundredths it reads back as. |
| Amounts.ExactCents | src/seb_to_goodbudget/main.py:54 | An amount with at most two fractional digits is written without loss: the text denotes exactly its value. |
| Amounts.TwoPlacesWhenExact | src/seb_to_goodbudget/main.py:54 | Conversely, if the written hundredths denote the value exactly, the amount has at most two fractional digits. |
| Amounts.RoundingError | src/seb_to_goodbudget/main.py:54 | With more fractional digits, the written hundredths are within half a hundredth of the value. |
| Amounts.FormatDebitExample | tests/test_main.py:24 | `Decimal(-9999.00)` is written `-9999.00`. |
| Amounts.FormatSmallDebitExample | tests/test_main.py:29 | `Decimal(-2.00)` is written `-2.00`. |
| Amounts.FormatCreditExample | tests/test_main.py:34 | `Decimal(10001.00)` is written `10001.00`. |
| Amounts.RoundDownExample | src/seb_to_goodbudget/main.py:54 | 12.345 is written `12.34`: the tie goes to the even neighbour. |
| Amounts.RoundUpExample | src/seb_to_goodbudget/main.py:54 | 12.355 is written `12.36`: the tie goes to the even neighbour. |
| Amounts.NegativeZeroExample | src/seb_to_goodbudget/main.py:54 | -0.001 is written `-0.00`, because the sign survives rounding to zero. |
| Csv.NeedsQuotesIff | src/seb_to_goodbudget/main.py:55 | A field is quoted exactly when it contains `,`, `"`, `\n` or `\r`. |
| Csv.PlainField | src/seb_to_goodbudget/main.py:55 | A field without those characters is written unchanged and holds no `\n`. |
| Csv.FieldRoundTrip | src/seb_to_goodbudget/main.py:55 | A written field, followed by a separator or the end, reads back as itself. |
| Csv.RecordRoundTrip | src/seb_to_goodbudget/main.py:55 | A written record reads back as the same list of fields. |
| Csv.DocumentRoundTrip | src/seb_to_goodbudget/main.py:55 | A written document reads back as the same records, in the same order. |
| Csv.DocumentLines | src/seb_to_goodbudget/main.py:55 | When no field holds `\n`, the text split at each `\n` has exactly one line per record: the fields joined by commas. |
| GoodBudget.Records | src/seb_to_goodbudget/main.py:53-55 | There is one record per row, in table order, and record i holds row i's formatted date, name and amount, with no index column. |
| GoodBudget.SerializeReadBack | src/seb_to_goodbudget/main.py:52-55 | Reading the written file gives the header and then, in table order, each row's date, name and amount in hundredths. |
| GoodBudget.HeaderText | src/seb_to_goodbudget/main.py:55 | The header record is written as exactly `Date,Name,Amount`. |
| GoodBudget.HeaderFirst | src/seb_to_goodbudget/main.py:52-55 | For every table, whatever its names hold, the file is `Date,Name,Amount`, `\n`, then the records. |
| GoodBudget.HeaderFirstLine | src/seb_to_goodbudget/main.py:52-55 | For every table, the first line of the file is exactly `Date,Name,Amount`. |
| GoodBudget.SerializeLines | src/seb_to_goodbudget/main.py:55 | When no name holds `\n`, the file split at each `\n` has rows+1 lines: `Date,Name,Amount` first, then row i's line at position i+1. |
| GoodBudget.RowLinePlain | src/seb_to_goodbudget/main.py:53-55 | A row whose name needs no quotes is written as date, `,`, name, `,`, amount. |
| GoodBudget.DatePlain | src/seb_to_goodbudget/main.py:53 | A formatted date never needs quoting. |
| GoodBudget.AmountPlain | src/seb_to_goodbudget/main.py:54 | A formatted amount never needs quoting. |
| GoodBudget.FixtureRecords | tests/test_main.py:62-67 | For the test fixture, the header is followed by `06/10/2023,Transaction 1,-9999.00`, `03/10/2023,Transaction 2,-2.00` and `03/10/2023,Transaction 3,10001.00`, field by field. |
| Paths.OutputPath | src/seb_to_goodbudget/main.py:78-79 | With `-o`, that path is the output, unchanged. |
| Paths.WithCsvSuffixShape | src/seb_to_goodbudget/main.py:77 | Without `-o`, for an input with a non-empty name, the output keeps the input's directory and stem, and its suffix is `.csv`. |
| Paths.WithSuffixShape | src/seb_to_goodbudget/main.py:77 | For an input with a non-empty name, `with_suffix` with a one-dot suffix keeps the directory and stem and leaves exactly that suffix. |
| Paths.WithCsvSuffixFails | src/seb_to_goodbudget/main.py:77 | Deriving the default output raises ValueError exactly when the input has an empty name (`.` or `/`). |
| Paths.NoSuffixAppends | src/seb_to_goodbudget/main.py:77 | An input with a non-empty name and no suffix gets `.csv` appended. |
| Paths.CsvPathIsOwnOutput | src/seb_to_goodbudget/main.py:77 | An input with a non-empty name whose suffix is `.csv` is its own default output. |
| Paths.HiddenCsvName | src/seb_to_goodbudget/main.py:77 | A name that is exactly `.csv` has no suffix, so its default output is the input with a second `.csv` appended (`d/.csv` gives `d/.csv.csv`). |
| Paths.OutputPathIdempotent | src/seb_to_goodbudget/main.py:77 | Deriving the default output twice gives the same path as deriving it once. |
| Paths.DefaultOutputIn | src/seb_to_goodbudget/main.py:77 | `dir/stem.ext`, with a one-dot extension, gets the default output `dir/stem.csv`. |
| Paths.OutputPathExample | src/seb_to_goodbudget/main.py:77 | The fixture's input name `tests/fixtures/test_input.xlsx` gets the default output `tests/fixtures/test_input.csv`. |
| Paths.LastIndexOfIsLast | src/seb_to_goodbudget/main.py:77 | The separator or dot that splits a name or suffix is the last one in the text. |
| Cli.ExitCode | src/seb_to_goodbudget/main.py:62-65 | The return value of `main` is 0 for a saved file and 1 for every failure. |
| Cli.Run | src/seb_to_goodbudget/main.py:74-98 | A run never changes or removes an existing file. A saved run adds exactly its output, which did not exist before. Every other run leaves the file map as it was. |
| Cli.FileSystem.CreateExclusive | src/seb_to_goodbudget/main.py:55 | Mode `"x"`: on an existing path nothing changes and it reports failure; otherwise exactly that one path is added, with the given text. |
| Cli.FileSystem.WriteCsv | src/seb_to_goodbudget/main.py:39-56 | The file is created only if the path was free. It then holds `Serialize` of the table, and no other file changes. |
| Cli.FileSystem.Convert | src/seb_to_goodbudget/main.py:59-98 | The outcome and the new file map are `Run` of the old map, and the returned code is that outcome's code. |
| Cli.OutputExistsRefused | src/seb_to_goodbudget/main.py:81-83 | "Already exists" is reported exactly when the output path is in the file map; nothing changes and `main` returns 1. |
| Cli.SavedOnlyAfterWrite | src/seb_to_goodbudget/main.py:85-88 | `main` returns 0 exactly when the output was free, the input existed and was read. The file map then gains exactly the output, holding the serialised table. |
| Cli.InputMissing | src/seb_to_goodbudget/main.py:90-92 | With no input file, nothing changes. "Input not found" is reported exactly when the output path was valid and free. |
| Cli.SecondRunRefused | src/seb_to_goodbudget/main.py:81-83 | A second run with the same arguments, after a saved one, is refused with "already exists" and changes nothing. |
| Cli.CsvInputKept | src/seb_to_goodbudget/main.py:76-83 | Without `-o`, an input with a non-empty name whose suffix is `.csv` is never overwritten. If it exists, the run reports "already exists". |
| Cli.EmptyNameRejected | src/seb_to_goodbudget/main.py:93-95 | An input with an empty name and no `-o` ends with the ValueError branch and changes nothing. |

## Left out

- `read_excel` (pandas and Excel parsing, sheet and row offsets, the float
  `Belopp` column) is not modelled. `Convert` receives its result through the
  `extract` parameter. The missing-input case is taken from the file map.
- Argument parsing and the printed messages are not modelled. The outcome
  datatype has one constructor per message, and the return codes are modelled.
- The time between the existence check (main.py:81) and the exclusive
  create (main.py:55) is not modelled, because the model has no concurrency.
  The `Unexpected` branch that a losing race would take in `Convert` can
  therefore not occur in the model.
- Directories are not modelled; the file map holds files only.
  - In the source an existing directory at the output path also counts as
    existing.
  - A missing parent directory or a permission error makes the write fail.
    The source then reports the error through its generic handlers.
- Path normalisation by `Path(...)` is not modelled: paths are taken to be
  in pathlib's normal form already. `with_suffix` follows CPython 3.12's
  `pathlib`. Other versions differ on a few unusual names, such as names
  ending in `.`, and never on the `.csv` suffix `main` passes.
- Decimal NaN and Infinity are not modelled; `.2f` of those is text without
  a `.`.
- Names holding NaN (empty cells) are not modelled; `to_csv` writes those as
  empty fields.
- `to_csv` quotes a record made of one empty field. Every record here has
  three fields, so this case never arises and the rule is left out.
- `SplitLines` splits only at `\n`. Text-mode `readlines`, as used to read
  the output back, also ends a line at a lone `\r`, which `to_csv` may leave
  inside a quoted name. The line-count lemmas therefore describe the file
  split at `\n`, not what `readlines` returns for names holding `\r`.
- `main` returns 0 or 1, but main.py:101-102 calls `main()` and discards
  the result, so running the file as a script exits with status 0 even after
  a failure. The 0/1 becomes the process exit status only where a caller
  such as an entry-point wrapper passes it to `sys.exit`. The model covers
  the return value.
- `to_csv` ends lines with `os.linesep`. The model uses `\n`, the POSIX
  value; the Windows `\r\n` is left out.
- `write_csv` writes through an open file, so a failure part-way through
  could leave a partial file. The model treats the write as one step.
- `tests/fixtures/test_main.py` holds only placeholders and is not modelled.
