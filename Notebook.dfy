/**
 * One notebook document and the placeholder rewrite of `update_notebook_storage_account`:
 * every source line of every code cell that contains the placeholder has all its
 * occurrences replaced by the storage account name, and the document is written back
 * only when some line was rewritten.
 */
module NotebookUpdate {
  import opened Options
  import opened StringOps

  /** The literal token the notebooks carry in place of the storage account name. */
  const Placeholder: string := "<storage-account-name>"

  /** The `cell_type` value of the cells that are rewritten. */
  const CodeCellType: string := "code"

  /**
   * A cell of the notebook's `cells` list. `source` is `None` when the cell has no
   * `source` key; `otherFields` stands for every other key of the cell object
   * (metadata, outputs, execution count), which the update never reads or writes.
   */
  datatype Cell = Cell(cellType: string, source: Option<seq<string>>, otherFields: map<string, string>)

  predicate IsCode(c: Cell) {
    c.cellType == CodeCellType
  }

  /** The lines of a cell as `cell.get('source', [])` reads them. */
  function SourceLines(c: Cell): seq<string> {
    c.source.GetOr([])
  }

  /** The new value of one source line. */
  function RewriteLine(line: string, name: string): string {
    if Contains(line, Placeholder) then ReplaceAll(line, Placeholder, name) else line
  }

  /** The new `source` list of a code cell: one rewritten line per input line, in order. */
  function RewriteSource(lines: seq<string>, name: string): seq<string> {
    seq(|lines|, k requires 0 <= k < |lines| => RewriteLine(lines[k], name))
  }

  /** A cell after the update: code cells get their rewritten `source`, others are untouched. */
  function RewriteCell(c: Cell, name: string): Cell {
    if IsCode(c) then c.(source := Some(RewriteSource(SourceLines(c), name))) else c
  }

  /** The `cells` list after the update. */
  function RewriteCells(cells: seq<Cell>, name: string): seq<Cell> {
    seq(|cells|, i requires 0 <= i < |cells| => RewriteCell(cells[i], name))
  }

  predicate LineHasPlaceholder(lines: seq<string>, k: int) {
    0 <= k < |lines| && Contains(lines[k], Placeholder)
  }

  predicate SourceHasPlaceholder(lines: seq<string>) {
    exists k :: 0 <= k < |lines| && LineHasPlaceholder(lines, k)
  }

  predicate CellHasPlaceholder(c: Cell) {
    IsCode(c) && SourceHasPlaceholder(SourceLines(c))
  }

  predicate CellsHavePlaceholder(cells: seq<Cell>, i: int) {
    0 <= i < |cells| && CellHasPlaceholder(cells[i])
  }

  /** Some line of some code cell contains the placeholder. */
  predicate AnyPlaceholder(cells: seq<Cell>) {
    exists i :: 0 <= i < |cells| && CellsHavePlaceholder(cells, i)
  }

  /**
   * The inner loop of the update: builds the new source list by appending one line
   * per input line and reports whether any line contained the placeholder.
   */
  method RewriteLines(source: seq<string>, name: string) returns (newSource: seq<string>, changed: bool)
    ensures |newSource| == |source|
    ensures forall k :: 0 <= k < |source| && !Contains(source[k], Placeholder) ==> newSource[k] == source[k]
    ensures forall k :: 0 <= k < |source| && Contains(source[k], Placeholder) ==>
              newSource[k] == ReplaceAll(source[k], Placeholder, name)
    ensures changed <==> SourceHasPlaceholder(source)
  {
    newSource := [];
    changed := false;
    for k := 0 to |source|
      invariant |newSource| == k
      invariant forall m :: 0 <= m < k ==> newSource[m] == RewriteLine(source[m], name)
      invariant changed <==> exists m :: 0 <= m < k && LineHasPlaceholder(source, m)
    {
      var line := source[k];
      assert LineHasPlaceholder(source, k) <==> Contains(line, Placeholder);
      if Contains(line, Placeholder) {
        line := ReplaceAll(line, Placeholder, name);
        changed := true;
      }
      newSource := newSource + [line];
    }
  }

  /** The parsed notebook document, whose cells the update rewrites in place. */
  class NotebookDocument {
    var cells: seq<Cell>

    constructor (cells: seq<Cell>)
      ensures this.cells == cells
    {
      this.cells := cells;
    }

    /**
     * The loop over `cells`: rewrites every code cell's `source` and reports
     * whether any line contained the placeholder.
     */
    method ReplacePlaceholder(name: string) returns (updated: bool)
      modifies this
      ensures cells == RewriteCells(old(cells), name)
      ensures updated <==> AnyPlaceholder(old(cells))
    {
      updated := false;
      var i := 0;
      while i < |cells|
        invariant 0 <= i <= |cells| == |old(cells)|
        invariant forall j :: 0 <= j < i ==> cells[j] == RewriteCell(old(cells)[j], name)
        invariant forall j :: i <= j < |cells| ==> cells[j] == old(cells)[j]
        invariant updated <==> exists j :: 0 <= j < i && CellsHavePlaceholder(old(cells), j)
      {
        var cell := cells[i];
        assert cell == old(cells)[i];
        assert CellsHavePlaceholder(old(cells), i) <==> IsCode(cell) && SourceHasPlaceholder(SourceLines(cell));
        if cell.cellType == CodeCellType {
          var newSource, changed := RewriteLines(SourceLines(cell), name);
          if changed {
            updated := true;
          }
          assert newSource == RewriteSource(SourceLines(cell), name);
          cells := cells[i := cell.(source := Some(newSource))];
        }
        i := i + 1;
      }
      assert cells == RewriteCells(old(cells), name);
    }
  }

  /** Lines without the placeholder are copied; lines with it become their replace-all. */
  lemma RewriteLineIsReplaceAll(line: string, name: string)
    ensures RewriteLine(line, name) == ReplaceAll(line, Placeholder, name)
    ensures !Contains(line, Placeholder) ==> RewriteLine(line, name) == line
  {
    if !Contains(line, Placeholder) {
      ReplaceAllNoOccurrence(line, Placeholder, name);
    }
  }

  /**
   * The rewrite keeps the cells list's length and order, leaves non-code cells
   * untouched, changes nothing but `source` in a code cell, and gives each code cell
   * exactly one new line per old line, in order.
   */
  lemma RewriteCellsShape(cells: seq<Cell>, name: string)
    ensures |RewriteCells(cells, name)| == |cells|
    ensures forall i :: 0 <= i < |cells| && !IsCode(cells[i]) ==> RewriteCells(cells, name)[i] == cells[i]
    ensures forall i :: 0 <= i < |cells| && IsCode(cells[i]) ==>
              && RewriteCells(cells, name)[i].cellType == cells[i].cellType
              && RewriteCells(cells, name)[i].otherFields == cells[i].otherFields
              && RewriteCells(cells, name)[i].source.Some?
              && |SourceLines(RewriteCells(cells, name)[i])| == |SourceLines(cells[i])|
              && forall k :: 0 <= k < |SourceLines(cells[i])| ==>
                   SourceLines(RewriteCells(cells, name)[i])[k] == RewriteLine(SourceLines(cells[i])[k], name)
  {
  }

  /**
   * When no line of the rewritten document contains the placeholder, a second
   * rewrite finds nothing to do and reproduces the same document.
   */
  lemma {:induction false} RewriteIdempotent(cells: seq<Cell>, name: string)
    requires !AnyPlaceholder(RewriteCells(cells, name))
    ensures RewriteCells(RewriteCells(cells, name), name) == RewriteCells(cells, name)
  {
    var once := RewriteCells(cells, name);
    forall i | 0 <= i < |once| ensures RewriteCell(once[i], name) == once[i] {
      if IsCode(once[i]) {
        assert !CellsHavePlaceholder(once, i);
        var lines := SourceLines(once[i]);
        forall k | 0 <= k < |lines| ensures RewriteLine(lines[k], name) == lines[k] {
          assert !LineHasPlaceholder(lines, k);
        }
        assert RewriteSource(lines, name) == lines;
        assert once[i].source == Some(lines);
      }
    }
  }

  /** What happened to one notebook file. */
  datatype FileOutcome = Updated | Skipped | Error

  /**
   * A notebook file as the update sees it: `parsed` is `None` when reading or parsing
   * the JSON fails (or the document is not shaped like a notebook), otherwise the
   * cells list (an absent `cells` key reads as the empty list); `writable` says
   * whether writing the document back would succeed.
   */
  datatype NotebookFile = NotebookFile(name: string, parsed: Option<seq<Cell>>, writable: bool)

  /** The progress record of one file: its outcome and the document written back, if any. */
  datatype Report = Report(file: string, outcome: FileOutcome, written: Option<seq<Cell>>)

  /**
   * `r` is what updating `file` with `name` reports: Error when the file cannot be
   * read or parsed, Skipped (nothing written) when no code line contains the
   * placeholder, otherwise Updated with the rewritten document written back, or Error
   * when that write fails.
   */
  predicate Describes(r: Report, file: NotebookFile, name: string) {
    && r.file == file.name
    && (r.outcome == Updated <==> file.parsed.Some? && AnyPlaceholder(file.parsed.value) && file.writable)
    && (r.outcome == Skipped <==> file.parsed.Some? && !AnyPlaceholder(file.parsed.value))
    && (r.outcome == Error <==> file.parsed.None? || (AnyPlaceholder(file.parsed.value) && !file.writable))
    && (r.written.Some? <==> r.outcome == Updated)
    && (r.outcome == Updated ==> r.written == Some(RewriteCells(file.parsed.value, name)))
  }

  /** A file has exactly one report: the outcome and the written document are determined. */
  lemma DescribesUnique(r1: Report, r2: Report, file: NotebookFile, name: string)
    requires Describes(r1, file, name) && Describes(r2, file, name)
    ensures r1 == r2
  {
  }

  /**
   * `update_notebook_storage_account`: load, rewrite in place, write back only when
   * something changed. The function's boolean result is `outcome == Updated`.
   */
  method UpdateNotebookStorageAccount(file: NotebookFile, name: string) returns (report: Report)
    ensures Describes(report, file, name)
  {
    if file.parsed.None? {
      return Report(file.name, Error, None);
    }
    var document := new NotebookDocument(file.parsed.value);
    var updated := document.ReplacePlaceholder(name);
    if updated {
      if !file.writable {
        return Report(file.name, Error, None);
      }
      return Report(file.name, Updated, Some(document.cells));
    }
    return Report(file.name, Skipped, None);
  }
}
