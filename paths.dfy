/**
 * The output-path rule of `main`: with `-o` the given path is used as it
 * is, otherwise the input path with its suffix replaced by `.csv`, as
 * `pathlib.PurePath.with_suffix` computes it.
 *
 * A path is its text in pathlib's normal form: components separated by
 * single `/`, no `.` components, no trailing separator, and "." for the
 * empty path. Its name is the text after the last separator ("" for "."
 * and "/"); its suffix is the name's text from its last `.`, provided that
 * dot is neither the first nor the last character of the name.
 */
module Paths {
  import opened Wrappers

  type Path = string

  /** The two ValueErrors `with_suffix` raises. */
  datatype PathError = InvalidSuffix(suffix: string) | EmptyName(path: Path)

  /** The last position of `c` in `s`, or -1 when there is none. */
  function LastIndexOf(s: string, c: char): (r: int)
    ensures -1 <= r < |s|
    ensures r >= 0 ==> s[r] == c
  {
    LastIndexBefore(s, c, |s|)
  }

  /** The last position of `c` among the first `n` characters of `s`, or -1. */
  function LastIndexBefore(s: string, c: char, n: nat): (r: int)
    requires n <= |s|
    ensures -1 <= r < n
    ensures r >= 0 ==> s[r] == c
  {
    if n == 0 then -1
    else if s[n - 1] == c then n - 1
    else LastIndexBefore(s, c, n - 1)
  }

  /** No occurrence of `c` follows the position `LastIndexBefore` finds. */
  lemma {:induction false} LastIndexBeforeIsLast(s: string, c: char, n: nat)
    requires n <= |s|
    ensures forall i :: LastIndexBefore(s, c, n) < i < n ==> s[i] != c
  {
    if n > 0 && s[n - 1] != c {
      LastIndexBeforeIsLast(s, c, n - 1);
    }
  }

  /** `LastIndexOf` finds the last occurrence: none follows it. */
  lemma LastIndexOfIsLast(s: string, c: char)
    ensures forall i :: LastIndexOf(s, c) < i < |s| ==> s[i] != c
  {
    LastIndexBeforeIsLast(s, c, |s|);
  }

  /** The directory part of a path, with its trailing separator; "" when there is none. */
  function Head(p: Path): string {
    p[..LastIndexOf(p, '/') + 1]
  }

  /** The final component, `PurePath.name`. */
  function Name(p: Path): string {
    if p == "." then "" else p[LastIndexOf(p, '/') + 1..]
  }

  /** The suffix of a name: from its last dot, unless that dot starts or ends the name. */
  function SuffixOf(name: string): string {
    var i := LastIndexOf(name, '.');
    if 0 < i < |name| - 1 then name[i..] else ""
  }

  /** A name without its suffix. */
  function StemOf(name: string): string {
    name[..|name| - |SuffixOf(name)|]
  }

  /** `PurePath.suffix` */
  function Suffix(p: Path): string {
    SuffixOf(Name(p))
  }

  /** `PurePath.stem` */
  function Stem(p: Path): string {
    StemOf(Name(p))
  }

  /** The suffixes `with_suffix` accepts: no separator, and either empty or a dot followed by something. */
  predicate ValidSuffix(suffix: string) {
    '/' !in suffix && (suffix == "" || (suffix[0] == '.' && suffix != "."))
  }

  /** `PurePath.with_suffix`: same directory, the stem followed by the new suffix. */
  function WithSuffix(p: Path, suffix: string): Result<Path, PathError> {
    if !ValidSuffix(suffix) then Err(InvalidSuffix(suffix))
    else if Name(p) == "" then Err(EmptyName(p))
    else Ok(Head(p) + (Stem(p) + suffix))
  }

  const CsvSuffix: string := ".csv"

  /** The output file `main` writes: the `-o` path as given, or the input with the suffix `.csv`. */
  function OutputPath(excel: Path, csvFile: Option<Path>): (r: Result<Path, PathError>)
    ensures csvFile.Some? ==> r == Ok(csvFile.value)
  {
    match csvFile
    case Some(out) => Ok(out)
    case None => WithSuffix(excel, CsvSuffix)
  }

  // Lemmas

  /** A path is its directory part followed by its name. */
  lemma HeadName(p: Path)
    requires p != "."
    ensures Head(p) + Name(p) == p
  {
  }

  /** A name holds no separator. */
  lemma NameHasNoSeparator(p: Path)
    ensures '/' !in Name(p)
  {
    LastIndexOfIsLast(p, '/');
    if p != "." {
      var k := LastIndexOf(p, '/') + 1;
      assert forall i :: 0 <= i < |p[k..]| ==> p[k..][i] == p[k + i];
    }
  }

  /** The directory part is empty or ends with a separator. */
  lemma HeadEnds(p: Path)
    ensures Head(p) == [] || Head(p)[|Head(p)| - 1] == '/'
  {
  }

  /** Appending text without `c` leaves the last position of `c` where it was. */
  lemma LastIndexOfAppend(s: string, t: string, c: char)
    requires c !in t
    ensures LastIndexOf(s + t, c) == LastIndexOf(s, c)
  {
    var r0, r1 := LastIndexOf(s, c), LastIndexOf(s + t, c);
    LastIndexOfIsLast(s, c);
    LastIndexOfIsLast(s + t, c);
    forall i | |s| <= i < |s + t| ensures (s + t)[i] != c {
      assert (s + t)[i] == t[i - |s|];
    }
    if r0 >= 0 {
      assert (s + t)[r0] == c;
    }
    if r1 >= 0 {
      assert s[r1] == (s + t)[r1];
    }
  }

  /** A directory part followed by a name without separators splits back into the two. */
  lemma {:induction false} SplitAppended(dir: string, name: string)
    requires dir == [] || dir[|dir| - 1] == '/'
    requires '/' !in name && name != [] && name != "."
    ensures Head(dir + name) == dir
    ensures Name(dir + name) == name
  {
    LastIndexOfAppend(dir, name, '/');
    assert dir + name != "." by {
      if dir != [] {
        assert |dir + name| >= 2;
      } else {
        assert dir + name == name;
      }
    }
    if dir != [] {
      assert dir[..|dir| - 1] + [dir[|dir| - 1]] == dir;
      assert LastIndexOf(dir, '/') == |dir| - 1;
    }
    assert (dir + name)[..|dir|] == dir;
    assert (dir + name)[|dir|..] == name;
  }

  /** A non-empty name has a non-empty stem: a suffix never starts at the name's first character. */
  lemma StemNonEmpty(name: string)
    requires name != ""
    ensures StemOf(name) != "" && StemOf(name) + SuffixOf(name) == name
  {
    var i := LastIndexOf(name, '.');
    if 0 < i < |name| - 1 {
      assert name[..i] + name[i..] == name;
    }
  }

  /** A non-empty stem followed by a one-dot suffix such as `.csv` splits back into the two. */
  lemma SplitSuffix(stem: string, suffix: string)
    requires stem != "" && |suffix| >= 2 && suffix[0] == '.' && '.' !in suffix[1..]
    ensures SuffixOf(stem + suffix) == suffix && StemOf(stem + suffix) == stem
  {
    var name := stem + suffix;
    var dotted := stem + [suffix[0]];
    LastIndexOfAppend(dotted, suffix[1..], '.');
    assert dotted + suffix[1..] == name;
    assert LastIndexOf(dotted, '.') == |stem|;
    assert name[|stem|..] == suffix;
    assert name[..|stem|] == stem;
  }

  /**
   * With a one-dot suffix such as `.csv`, `with_suffix` keeps the directory,
   * keeps the stem, and leaves exactly that suffix.
   */
  lemma WithSuffixShape(p: Path, suffix: string)
    requires ValidSuffix(suffix) && suffix != "" && '.' !in suffix[1..]
    requires Name(p) != ""
    ensures var r := WithSuffix(p, suffix);
            r.Ok? && Head(r.value) == Head(p) && Name(r.value) == Stem(p) + suffix &&
            Stem(r.value) == Stem(p) && Suffix(r.value) == suffix
  {
    WithSuffixValue(p, suffix);
    HeadEnds(p);
    StemNonEmpty(Name(p));
    SplitPath(Head(p), Stem(p), suffix);
  }

  /** A directory part, a stem and a one-dot suffix are recovered from the path they make up. */
  lemma SplitPath(dir: string, stem: string, suffix: string)
    requires dir == [] || dir[|dir| - 1] == '/'
    requires stem != "" && '/' !in stem + suffix
    requires |suffix| >= 2 && suffix[0] == '.' && '.' !in suffix[1..]
    ensures var p := dir + (stem + suffix);
            Head(p) == dir && Name(p) == stem + suffix && Stem(p) == stem && Suffix(p) == suffix
  {
    assert |stem + suffix| >= 3;
    SplitAppended(dir, stem + suffix);
    SplitSuffix(stem, suffix);
  }

  lemma WithSuffixValue(p: Path, suffix: string)
    requires ValidSuffix(suffix) && Name(p) != ""
    ensures WithSuffix(p, suffix) == Ok(Head(p) + (Stem(p) + suffix))
    ensures '/' !in Stem(p) + suffix
  {
    var name := Name(p);
    var stem := Stem(p);
    NameHasNoSeparator(p);
    assert stem == name[..|stem|];
    assert forall i :: 0 <= i < |stem| ==> stem[i] == name[i];
  }

  /** The default output path: same directory and stem, suffix `.csv`. */
  lemma WithCsvSuffixShape(p: Path)
    requires Name(p) != ""
    ensures var r := WithSuffix(p, CsvSuffix);
            r.Ok? && Head(r.value) == Head(p) && Name(r.value) == Stem(p) + CsvSuffix &&
            Stem(r.value) == Stem(p) && Suffix(r.value) == CsvSuffix
  {
    CsvSuffixValid();
    WithSuffixShape(p, CsvSuffix);
  }

  /** `with_suffix(".csv")` fails exactly on a path with an empty name ("." or "/"). */
  lemma WithCsvSuffixFails(p: Path)
    ensures WithSuffix(p, CsvSuffix).Err? <==> Name(p) == ""
    ensures WithSuffix(p, CsvSuffix).Err? ==> WithSuffix(p, CsvSuffix) == Err(EmptyName(p))
  {
    CsvSuffixValid();
  }

  /** A path without a suffix gets `.csv` appended. */
  lemma NoSuffixAppends(p: Path)
    requires Name(p) != "" && Suffix(p) == ""
    ensures WithSuffix(p, CsvSuffix) == Ok(p + CsvSuffix)
  {
    CsvSuffixValid();
    WithSuffixValue(p, CsvSuffix);
    HeadName(p);
    assert Stem(p) == Name(p);
    assert Head(p) + (Name(p) + CsvSuffix) == Head(p) + Name(p) + CsvSuffix;
  }

  /** A path that already ends in `.csv` is its own default output path. */
  lemma CsvPathIsOwnOutput(p: Path)
    requires Name(p) != "" && Suffix(p) == CsvSuffix
    ensures OutputPath(p, None) == Ok(p)
  {
    CsvSuffixValid();
    WithSuffixValue(p, CsvSuffix);
    StemNonEmpty(Name(p));
    HeadName(p);
  }

  /** Deriving the default output path twice gives the same path as once. */
  lemma OutputPathIdempotent(p: Path)
    requires OutputPath(p, None).Ok?
    ensures OutputPath(OutputPath(p, None).value, None) == OutputPath(p, None)
  {
    WithCsvSuffixFails(p);
    var r := OutputPath(p, None).value;
    WithCsvSuffixShape(p);
    CsvPathIsOwnOutput(r);
  }

  /** A file `dir/stem.ext` with a one-dot extension gets the default output `dir/stem.csv`. */
  lemma DefaultOutputIn(dir: string, stem: string, ext: string)
    requires dir == [] || dir[|dir| - 1] == '/'
    requires stem != "" && '/' !in stem + ext
    requires |ext| >= 2 && ext[0] == '.' && '.' !in ext[1..]
    ensures OutputPath(dir + (stem + ext), None) == Ok(dir + (stem + CsvSuffix))
  {
    var p := dir + (stem + ext);
    SplitPath(dir, stem, ext);
    CsvSuffixValid();
    WithSuffixValue(p, CsvSuffix);
  }

  /**
   * A name that is exactly `.csv` starts with its only dot, so it has no
   * suffix: its default output appends a second `.csv`.
   */
  lemma HiddenCsvName(dir: string)
    requires dir == [] || dir[|dir| - 1] == '/'
    ensures Suffix(dir + CsvSuffix) == ""
    ensures OutputPath(dir + CsvSuffix, None) == Ok(dir + CsvSuffix + CsvSuffix)
  {
    var p := dir + CsvSuffix;
    CsvSuffixValid();
    SplitAppended(dir, CsvSuffix);
    LastIndexOfAppend([CsvSuffix[0]], CsvSuffix[1..], '.');
    assert [CsvSuffix[0]] + CsvSuffix[1..] == CsvSuffix;
    assert LastIndexOf([CsvSuffix[0]], '.') == 0;
    NoSuffixAppends(p);
  }

  /** `.csv` is a suffix `with_suffix` accepts, with a single dot. */
  lemma CsvSuffixValid()
    ensures ValidSuffix(CsvSuffix) && |CsvSuffix| >= 2 && CsvSuffix[0] == '.' && '.' !in CsvSuffix[1..]
  {
    assert CsvSuffix[1..] == "csv";
  }

  /** The default output for the test fixture's input file, `tests/fixtures/test_input.xlsx`. */
  lemma OutputPathExample()
    ensures OutputPath("tests/fixtures/" + ("test_input" + ".xlsx"), None)
         == Ok("tests/fixtures/" + ("test_input" + CsvSuffix))
  {
    var dir, stem, ext := "tests/fixtures/", "test_input", ".xlsx";
    assert dir[|dir| - 1] == '/';
    assert '/' !in stem + ext by {
      assert stem + ext == "test_input.xlsx";
    }
    assert ext[1..] == "xlsx";
    DefaultOutputIn(dir, stem, ext);
  }
}
