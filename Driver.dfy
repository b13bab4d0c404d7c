/**
 * `main` of the updater: validates the storage account name taken from the command
 * line, processes the notebook files in sorted order and counts those updated.
 * The directory lookup and `glob` are inputs here: whether the notebooks directory
 * exists, and the files found in it.
 */
module Driver {
  import opened Options
  import opened StringOps
  import opened NotebookUpdate

  /** Exit status of a run that completes, including the "no notebooks found" case. */
  const ExitOk: nat := 0
  /** Exit status for a missing or invalid name, or a missing notebooks directory. */
  const ExitFailure: nat := 1

  /** The name check of `main`: not empty and not the placeholder itself. */
  predicate IsValidName(name: string) {
    name != "" && name != Placeholder
  }

  /** The storage account name from `argv` (whose element 0 is the script), if usable. */
  function StorageAccountArgument(argv: seq<string>): (r: Option<string>)
    ensures r.Some? <==> |argv| >= 2 && argv[1] != [] && argv[1] != Placeholder
    ensures r.Some? ==> r.value == argv[1] && IsValidName(r.value)
  {
    if |argv| < 2 || !IsValidName(argv[1]) then None else Some(argv[1])
  }

  /**
   * A name that passes the check actually changes every line it rewrites, so a file
   * reported as updated has really changed.
   */
  lemma ValidNameChangesLine(line: string, name: string)
    requires IsValidName(name)
    requires Contains(line, Placeholder)
    ensures RewriteLine(line, name) != line
  {
    ReplaceAllChanges(line, Placeholder, name);
  }

  /** The name the check rejects would leave every line as it was. */
  lemma PlaceholderNameChangesNothing(line: string)
    ensures RewriteLine(line, Placeholder) == line
  {
    ReplaceAllWithItself(line, Placeholder);
  }

  /**
   * With a valid name, a document that reports an update differs from the original,
   * and one that reports none keeps every source line.
   */
  lemma {:induction false} ValidNameUpdatedIffLinesChange(cells: seq<Cell>, name: string)
    requires IsValidName(name)
    ensures AnyPlaceholder(cells) ==> RewriteCells(cells, name) != cells
    ensures !AnyPlaceholder(cells) ==>
              forall i :: 0 <= i < |cells| ==> SourceLines(RewriteCells(cells, name)[i]) == SourceLines(cells[i])
  {
    var out := RewriteCells(cells, name);
    if AnyPlaceholder(cells) {
      var i :| 0 <= i < |cells| && CellsHavePlaceholder(cells, i);
      var lines := SourceLines(cells[i]);
      var k :| 0 <= k < |lines| && LineHasPlaceholder(lines, k);
      ValidNameChangesLine(lines[k], name);
      assert SourceLines(out[i])[k] != lines[k];
    } else {
      forall i | 0 <= i < |cells| ensures SourceLines(out[i]) == SourceLines(cells[i]) {
        assert !CellsHavePlaceholder(cells, i);
        if IsCode(cells[i]) {
          var lines := SourceLines(cells[i]);
          forall k | 0 <= k < |lines| ensures RewriteLine(lines[k], name) == lines[k] {
            assert !LineHasPlaceholder(lines, k);
          }
        }
      }
    }
  }

  /**
   * The name check does not make the update idempotent: a valid name that contains
   * the placeholder leaves the placeholder in the rewritten line, so a second run
   * would update the file again.
   */
  lemma ValidNameNotIdempotent()
    ensures var name := Placeholder + "x";
            var cells := [Cell(CodeCellType, Some([Placeholder]), map[])];
            IsValidName(name) && AnyPlaceholder(RewriteCells(cells, name))
  {
    var name := Placeholder + "x";
    var cells := [Cell(CodeCellType, Some([Placeholder]), map[])];
    assert OccursAt(Placeholder, Placeholder, 0);
    ReplaceAllAtFirstOccurrence(Placeholder, Placeholder, name, 0);
    assert Placeholder[|Placeholder|..] == [];
    assert RewriteLine(Placeholder, name) == name;
    assert Placeholder <= name;
    var out := RewriteCells(cells, name);
    assert LineHasPlaceholder(SourceLines(out[0]), 0);
    assert CellsHavePlaceholder(out, 0);
  }

  /**
   * An accepted name that itself contains the placeholder leaves the placeholder in
   * every line it rewrites, so a second run would update such a line again.
   */
  lemma NameWithPlaceholderSurvives(line: string, name: string)
    requires IsValidName(name) && Contains(name, Placeholder)
    requires Contains(line, Placeholder)
    ensures Contains(RewriteLine(line, name), Placeholder)
  {
    ReplaceAllKeepsPatternInReplacement(line, Placeholder, name);
  }

  /** A string shorter than the placeholder cannot contain it. */
  lemma ShorterThanPlaceholder(s: string)
    requires |s| < |Placeholder|
    ensures !Contains(s, Placeholder)
  {
    ContainsIff(s, Placeholder);
  }

  /** The placeholder opens with `<` and has no other `<`. */
  lemma PlaceholderOpensOnce()
    ensures Placeholder[0] == '<'
    ensures forall k :: 0 < k < |Placeholder| ==> Placeholder[k] != '<'
  {
  }

  /**
   * A line made of a prefix without `<`, the placeholder, and a suffix without the
   * placeholder has the name put exactly where the placeholder was.
   */
  lemma RewriteSingleOccurrence(prefix: string, suffix: string, name: string)
    requires forall k :: 0 <= k < |prefix| ==> prefix[k] != '<'
    requires !Contains(suffix, Placeholder)
    ensures RewriteLine(prefix + Placeholder + suffix, name) == prefix + name + suffix
  {
    var line := prefix + Placeholder + suffix;
    forall j | 0 <= j < |prefix| ensures !OccursAt(line, Placeholder, j) {
      assert line[j] == prefix[j];
      NoOccurrenceAtMismatch(line, Placeholder, j, 0);
    }
    ReplaceAllSingle(prefix, Placeholder, suffix, name);
  }

  /**
   * Like `RewriteSingleOccurrence` for a prefix that opens with `<` but is too short
   * to hold the placeholder before the one that follows it.
   */
  lemma RewriteAfterOpenBracket(prefix: string, suffix: string, name: string)
    requires 0 < |prefix| < |Placeholder| && prefix[0] == '<'
    requires forall k :: 0 < k < |prefix| ==> prefix[k] != '<'
    requires !Contains(suffix, Placeholder)
    ensures RewriteLine(prefix + Placeholder + suffix, name) == prefix + name + suffix
  {
    var line := prefix + Placeholder + suffix;
    PlaceholderOpensOnce();
    forall j | 0 <= j < |prefix| ensures !OccursAt(line, Placeholder, j) {
      if j == 0 {
        assert line[|prefix|] == '<';
        NoOccurrenceAtMismatch(line, Placeholder, 0, |prefix|);
      } else {
        assert line[j] == prefix[j];
        NoOccurrenceAtMismatch(line, Placeholder, j, 0);
      }
    }
    ReplaceAllSingle(prefix, Placeholder, suffix, name);
  }

  /**
   * An ordinary accepted name can complete a new occurrence across the edges of the
   * one it replaces: `<storage-<storage-account-name>-name>` with `account` becomes
   * the placeholder itself.
   */
  lemma BoundaryOccurrence()
    ensures IsValidName("account") && !Contains("account", Placeholder)
    ensures RewriteLine("<storage-" + Placeholder + "-name>", "account") == Placeholder
  {
    ShorterThanPlaceholder("-name>");
    ShorterThanPlaceholder("account");
    RewriteAfterOpenBracket("<storage-", "-name>", "account");
    assert "<storage-" + "account" + "-name>" == Placeholder;
  }

  /** The example line `path = '<storage-account-name>/data'` with the name `acct123`. */
  lemma ExampleLineRewrite()
    ensures RewriteLine("path = '" + Placeholder + "/data'", "acct123") == "path = 'acct123/data'"
  {
    var suffix := "/data'";
    ShorterThanPlaceholder(suffix);
    RewriteSingleOccurrence("path = '", suffix, "acct123");
  }

  /** Python's `<=` on strings: lexicographic by character code, a prefix first. */
  predicate NameLessEq(a: string, b: string)
    decreases |a|
  {
    a == [] || (b != [] && (a[0] < b[0] || (a[0] == b[0] && NameLessEq(a[1..], b[1..]))))
  }

  lemma {:induction false} NameLessEqTotal(a: string, b: string)
    ensures NameLessEq(a, b) || NameLessEq(b, a)
    decreases |a|
  {
    if a != [] && b != [] && a[0] == b[0] {
      NameLessEqTotal(a[1..], b[1..]);
    }
  }

  lemma {:induction false} NameLessEqAntisymmetric(a: string, b: string)
    requires NameLessEq(a, b) && NameLessEq(b, a)
    ensures a == b
    decreases |a|
  {
    if a != [] {
      NameLessEqAntisymmetric(a[1..], b[1..]);
      assert a == [a[0]] + a[1..] && b == [b[0]] + b[1..];
    }
  }

  lemma {:induction false} NameLessEqTransitive(a: string, b: string, c: string)
    requires NameLessEq(a, b) && NameLessEq(b, c)
    ensures NameLessEq(a, c)
    decreases |a|
  {
    if a != [] && a[0] == b[0] && b[0] == c[0] {
      NameLessEqTransitive(a[1..], b[1..], c[1..]);
    }
  }

  predicate SortedByName(files: seq<NotebookFile>) {
    forall i :: 0 < i < |files| ==> NameLessEq(files[i - 1].name, files[i].name)
  }

  /** Insert `f` into a list sorted by name, keeping it sorted. */
  function InsertByName(f: NotebookFile, files: seq<NotebookFile>): (r: seq<NotebookFile>)
    requires SortedByName(files)
    ensures SortedByName(r)
    ensures multiset(r) == multiset(files) + multiset{f}
    ensures |r| == |files| + 1
    ensures r != [] && (r[0] == f || (files != [] && r[0] == files[0]))
  {
    if files == [] || NameLessEq(f.name, files[0].name) then [f] + files
    else
      NameLessEqTotal(f.name, files[0].name);
      var rest := InsertByName(f, files[1..]);
      assert files == [files[0]] + files[1..];
      [files[0]] + rest
  }

  /** `sorted(notebook_files)`: the files in order of their names. */
  function SortByName(files: seq<NotebookFile>): (r: seq<NotebookFile>)
    ensures SortedByName(r)
    ensures multiset(r) == multiset(files)
    ensures |r| == |files|
  {
    if files == [] then []
    else
      assert files == [files[0]] + files[1..];
      InsertByName(files[0], SortByName(files[1..]))
  }

  /** The number of reports whose update returned True. */
  function CountUpdated(reports: seq<Report>): (n: nat)
    ensures n <= |reports|
    ensures n == 0 <==> forall i :: 0 <= i < |reports| ==> reports[i].outcome != Updated
    ensures n == |reports| <==> forall i :: 0 <= i < |reports| ==> reports[i].outcome == Updated
  {
    if reports == [] then 0
    else
      var init := reports[..|reports| - 1];
      assert forall i :: 0 <= i < |init| ==> init[i] == reports[i];
      CountUpdated(init) + if reports[|reports| - 1].outcome == Updated then 1 else 0
  }

  /**
   * `main`: returns the exit status, one report per processed file in processing
   * order, and `updated_count`.
   */
  method Run(argv: seq<string>, dirExists: bool, found: seq<NotebookFile>)
    returns (status: nat, reports: seq<Report>, updatedCount: nat)
    ensures status == ExitFailure <==> StorageAccountArgument(argv).None? || !dirExists
    ensures status == ExitOk || status == ExitFailure
    ensures status == ExitFailure || found == [] ==> reports == [] && updatedCount == 0
    ensures status == ExitOk && found != [] ==>
              var sorted := SortByName(found);
              && |reports| == |found|
              && forall i :: 0 <= i < |reports| ==> Describes(reports[i], sorted[i], argv[1])
    ensures updatedCount == CountUpdated(reports) && updatedCount <= |found|
  {
    reports := [];
    updatedCount := 0;
    if |argv| < 2 {
      return ExitFailure, reports, updatedCount;
    }
    var name := argv[1];
    if name == [] || name == Placeholder {
      return ExitFailure, reports, updatedCount;
    }
    if !dirExists {
      return ExitFailure, reports, updatedCount;
    }
    if found == [] {
      return ExitOk, reports, updatedCount;
    }
    var sorted := SortByName(found);
    for i := 0 to |sorted|
      invariant |reports| == i
      invariant forall j :: 0 <= j < i ==> Describes(reports[j], sorted[j], name)
      invariant updatedCount == CountUpdated(reports)
    {
      var report := UpdateNotebookStorageAccount(sorted[i], name);
      if report.outcome == Updated {
        updatedCount := updatedCount + 1;
      }
      assert (reports + [report])[..i] == reports;
      reports := reports + [report];
    }
    status := ExitOk;
  }

  /**
   * Two notebooks: `a.ipynb` with the example line in its one code cell and
   * `b.ipynb` without the placeholder; one of the two is updated.
   */
  method ExampleRun() returns (status: nat, updatedCount: nat)
    ensures status == ExitOk && updatedCount == 1
  {
    var line := "path = '" + Placeholder + "/data'";
    var a := NotebookFile("a.ipynb", Some([Cell(CodeCellType, Some([line]), map[])]), true);
    var b := NotebookFile("b.ipynb", Some([Cell("markdown", Some([Placeholder]), map[])]), true);
    assert CellsHavePlaceholder(a.parsed.value, 0) by {
      assert OccursAt(line, Placeholder, 8) by {
        assert line[8..8 + |Placeholder|] == Placeholder;
      }
      ContainsIff(line, Placeholder);
      assert LineHasPlaceholder([line], 0);
    }
    assert !AnyPlaceholder(b.parsed.value);
    assert NameLessEq(a.name, b.name);
    assert SortByName([b, a]) == [a, b];
    var reports;
    status, reports, updatedCount := Run(["update_notebook_config.py", "acct123"], true, [b, a]);
    assert reports[0].outcome == Updated && reports[1].outcome == Skipped;
    assert reports[..1] == [reports[0]];
  }
}
