/**
 * The command line `main`: choose the output path, refuse an output that
 * already exists, read the spreadsheet, write the Good Budget file with an
 * exclusive create, and map every way this can end to the code `main` returns.
 *
 * The file system is a map from path to contents held by a `FileSystem`
 * object; `main` and `write_csv` are methods on it. Reading the
 * spreadsheet is not modelled: `main` receives it as a function from the
 * input file's contents to the table or to the kind of error raised.
 */
module Cli {
  import opened Wrappers
  import opened Paths
  import opened GoodBudget

  /** What `read_excel` gives for a file's contents: the table, a ValueError, or any other exception. */
  datatype Extraction = Extracted(rows: seq<Transaction>) | ExtractValueError | ExtractOtherError

  /** How a run of `main` ends; each failure prints its own message. */
  datatype Outcome =
    | Saved(path: Path)         // "File saved to ..."
    | OutputExists(path: Path)  // "The output file ... already exists."
    | InputNotFound             // FileNotFoundError: "Input file not found: ..."
    | InvalidValue              // ValueError: "Error reading Excel file: ..."
    | Unexpected                // any other exception: "An unexpected error occurred: ..."

  /** The value `main` returns: 0 for a saved file, 1 for every failure. */
  function ExitCode(o: Outcome): (code: int)
    ensures code == 0 || code == 1
    ensures code == 0 <==> o.Saved?
  {
    if o.Saved? then 0 else 1
  }

  /**
   * What one run of `main` does to the file map `files`, given the input
   * path, the `-o` argument and the spreadsheet reader: the outcome and the
   * new file map.
   */
  function Run(files: map<Path, string>, excel: Path, csvFile: Option<Path>, extract: string -> Extraction)
    : (r: (Outcome, map<Path, string>))
    ensures forall p :: p in files ==> p in r.1 && r.1[p] == files[p]
    ensures r.0.Saved? ==> r.0.path !in files && r.1.Keys == files.Keys + {r.0.path}
    ensures !r.0.Saved? ==> r.1 == files
  {
    match OutputPath(excel, csvFile)
    case Err(_) => (InvalidValue, files)
    case Ok(out) =>
      if out in files then (OutputExists(out), files)
      else if excel !in files then (InputNotFound, files)
      else match extract(files[excel])
        case Extracted(rows) => (Saved(out), files[out := Serialize(rows)])
        case ExtractValueError => (InvalidValue, files)
        case ExtractOtherError => (Unexpected, files)
  }

  class FileSystem {
    var files: map<Path, string>

    constructor(initial: map<Path, string>)
      ensures files == initial
    {
      files := initial;
    }

    /**
     * Opening `p` in mode "x" and writing `text`: fails, changing nothing,
     * when `p` exists; otherwise adds exactly that one file.
     */
    method CreateExclusive(p: Path, text: string) returns (created: bool)
      modifies this
      ensures created <==> p !in old(files)
      ensures files == if created then old(files)[p := text] else old(files)
    {
      if p in files {
        created := false;
      } else {
        files := files[p := text];
        created := true;
      }
    }

    /** `write_csv`: the serialised table, created exclusively at `p`. */
    method WriteCsv(rows: seq<Transaction>, p: Path) returns (created: bool)
      modifies this
      ensures created <==> p !in old(files)
      ensures files == if created then old(files)[p := Serialize(rows)] else old(files)
    {
      var text := Serialize(rows);
      created := CreateExclusive(p, text);
    }

    /** `main`: one run of the converter, with its outcome and the code it returns. */
    method Convert(excel: Path, csvFile: Option<Path>, extract: string -> Extraction)
      returns (outcome: Outcome, code: int)
      modifies this
      ensures (outcome, files) == Run(old(files), excel, csvFile, extract)
      ensures code == ExitCode(outcome)
    {
      var target := OutputPath(excel, csvFile);
      if target.Err? {
        outcome := InvalidValue;
      } else if target.value in files {
        outcome := OutputExists(target.value);
      } else if excel !in files {
        outcome := InputNotFound;
      } else {
        match extract(files[excel]) {
          case Extracted(rows) =>
            var created := WriteCsv(rows, target.value);
            outcome := if created then Saved(target.value) else Unexpected;
          case ExtractValueError =>
            outcome := InvalidValue;
          case ExtractOtherError =>
            outcome := Unexpected;
        }
      }
      code := ExitCode(outcome);
    }
  }

  // Lemmas

  /** An output that already exists is refused before anything is read or written. */
  lemma OutputExistsRefused(files: map<Path, string>, excel: Path, csvFile: Option<Path>, extract: string -> Extraction)
    ensures var r := Run(files, excel, csvFile, extract);
            r.0.OutputExists? <==> OutputPath(excel, csvFile).Ok? && OutputPath(excel, csvFile).value in files
    ensures var r := Run(files, excel, csvFile, extract);
            r.0.OutputExists? ==> r.1 == files && ExitCode(r.0) == 1
  {
  }

  /**
   * A return value of 0 comes only from a run that read the table from an existing
   * input and wrote its serialisation to a path that did not exist before.
   */
  lemma SavedOnlyAfterWrite(files: map<Path, string>, excel: Path, csvFile: Option<Path>, extract: string -> Extraction)
    ensures var r := Run(files, excel, csvFile, extract);
            ExitCode(r.0) == 0 <==>
              OutputPath(excel, csvFile).Ok? && OutputPath(excel, csvFile).value !in files &&
              excel in files && extract(files[excel]).Extracted?
    ensures var r := Run(files, excel, csvFile, extract);
            ExitCode(r.0) == 0 ==>
              r.0 == Saved(OutputPath(excel, csvFile).value) &&
              r.1 == files[r.0.path := Serialize(extract(files[excel]).rows)]
  {
  }

  /** A missing input is reported only once the output path is known to be free. */
  lemma InputMissing(files: map<Path, string>, excel: Path, csvFile: Option<Path>, extract: string -> Extraction)
    requires excel !in files
    ensures var r := Run(files, excel, csvFile, extract);
            !r.0.Saved? && r.1 == files &&
            (r.0 == InputNotFound <==> OutputPath(excel, csvFile).Ok? && OutputPath(excel, csvFile).value !in files)
  {
  }

  /**
   * Running the converter a second time with the same arguments is refused
   * with "already exists" and leaves the file the first run wrote as it is.
   */
  lemma SecondRunRefused(files: map<Path, string>, excel: Path, csvFile: Option<Path>,
                         extract: string -> Extraction, extract': string -> Extraction)
    requires Run(files, excel, csvFile, extract).0.Saved?
    ensures var first := Run(files, excel, csvFile, extract);
            Run(first.1, excel, csvFile, extract') == (OutputExists(first.0.path), first.1)
  {
    var first := Run(files, excel, csvFile, extract);
    SavedOnlyAfterWrite(files, excel, csvFile, extract);
    assert first.0.path in first.1;
  }

  /** Without `-o`, an input that already ends in `.csv` is never overwritten: the run changes nothing. */
  lemma CsvInputKept(files: map<Path, string>, excel: Path, extract: string -> Extraction)
    requires Name(excel) != "" && Suffix(excel) == CsvSuffix
    ensures var r := Run(files, excel, None, extract);
            !r.0.Saved? && r.1 == files
    ensures excel in files ==> Run(files, excel, None, extract).0 == OutputExists(excel)
  {
    CsvPathIsOwnOutput(excel);
  }

  /** A run on a path with an empty name and no `-o` ends with the ValueError of `with_suffix`. */
  lemma EmptyNameRejected(files: map<Path, string>, excel: Path, extract: string -> Extraction)
    requires Name(excel) == ""
    ensures Run(files, excel, None, extract) == (InvalidValue, files)
  {
    WithCsvSuffixFails(excel);
  }
}
