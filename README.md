# Notebook storage-account placeholder updater, modelled in Dafny

The script `scripts/update_notebook_config.py` puts a real Azure storage account
name into the Synapse notebooks of the repository. Every source line of every code
cell that contains the literal token `<storage-account-name>` gets all of its
occurrences replaced by the name. A notebook is written back only when some line
contained the token. `main` checks the name given on the command line, processes
the `*.ipynb` files in sorted order and counts how many were updated.

The model has four modules:

- `Options` (`Options.dfy`): the `Option` datatype, with `GetOr` for Python's
  `dict.get(key, default)`.
- `StringOps` (`StringOps.dfy`): Python's `pat in s` (`Contains`) and
  `s.replace(pat, rep)` (`ReplaceAll`) as pure recursive functions. The lemmas
  characterise them independently of their bodies: an occurrence index exists, the
  first occurrence is replaced and the scan resumes after it, nothing changes when
  there is no occurrence, and the effect on length.
- `NotebookUpdate` (`Notebook.dfy`): cells, the in-place rewrite and
  `update_notebook_storage_account`. The document is a class `NotebookDocument`
  whose `cells` field the method `ReplacePlaceholder` rewrites in place. That method
  calls `RewriteLines`, the loop that builds `new_source` by appending. Both are
  proved against the specification functions `RewriteCells` and `RewriteLine`. The
  per-file result is a `Report` carrying the outcome `Updated | Skipped | Error`
  and the document written back, if any.
- `Driver` (`Driver.dfy`): the name check of `main`, sorting by file name, the
  counting loop (`Run`), the lemmas that connect the name check to what the
  rewrite does, and two worked examples.

File reads, writes and directory listing are parameters of the model:

- a `NotebookFile` has a `parsed` field. It is `None` when reading or parsing
  fails, and otherwise holds the cells list.
- a `NotebookFile` also has a `writable` flag: can the document be written back?
- `Run` takes `dirExists` and the list of files found.

Where the code and the description of the tool differ, the model follows the code:

- The docstring (lines 2-5) says the script replaces the placeholder in all
  notebooks. It does not say that no placeholder remains afterwards, and the code
  does not guarantee it. The name check rejects only a name equal to the placeholder
  (line 66). An accepted name that contains the placeholder leaves it in every line
  it rewrites (`NameWithPlaceholderSurvives`). An ordinary name can also complete a
  new occurrence across the edges of the one it replaces (`BoundaryOccurrence`).
  A natural question about the model is whether running the update twice changes
  nothing the second time. The model proves this only under the precondition that
  no rewritten line contains the placeholder (`RewriteIdempotent`).
- A line is rewritten when it contains the placeholder. The flag is set on that
  test alone, not on whether the line actually changed. With a name that passes
  the check, the two coincide (`ValidNameChangesLine`).
- Every code cell gets its `source` rebuilt, whether or not anything changed. A
  code cell without a `source` key therefore gains `source: []` in the
  in-memory document (lines 32 and 39). That document is written only when
  something was updated.

## Model

| member | source | states |
|---|---|---|
| StringOps.Contains | scripts/update_notebook_config.py:35 | Python's `placeholder in line`; characterised by `ContainsIff` |
| StringOps.ReplaceAll | scripts/update_notebook_config.py:36 | Python's `line.replace(placeholder, name)`; characterised by `ReplaceAllAtFirstOccurrence` and `ReplaceAllNoOccurrence`, with `ReplaceAllLength`, `ReplaceAllWithItself` and `ReplaceAllChanges` |
| NotebookUpdate.RewriteLine | scripts/update_notebook_config.py:35-38 | the value appended for one line; `RewriteLineIsReplaceAll` shows it is the plain replace-all |
| NotebookUpdate.RewriteCell | scripts/update_notebook_config.py:31-39 | one cell after the loop body; described by `RewriteCellsShape` |
| NotebookUpdate.RewriteCells | scripts/update_notebook_config.py:30-39 | the cells list after the loop; described by `RewriteCellsShape` and `RewriteIdempotent`, and reached by `ReplacePlaceholder` |
| NotebookUpdate.Describes | scripts/update_notebook_config.py:25-52 | the report of one file: Error on a read or parse failure, Skipped with nothing written when no code line has the placeholder, Updated with the rewritten document or Error when the write fails; `DescribesUnique` shows it fixes the report |
| NotebookUpdate.DescribesUnique | scripts/update_notebook_config.py:25-52 | two reports that both describe the same file are equal: outcome and written document are determined |
| Driver.IsValidName | scripts/update_notebook_config.py:66 | the name check; its consequences are `ValidNameChangesLine` and `PlaceholderNameChangesNothing` |
| Driver.NameLessEq | scripts/update_notebook_config.py:90 | Python's string order used by `sorted`; a total order by `NameLessEqTotal`, `NameLessEqAntisymmetric` and `NameLessEqTransitive` |
| Driver.NameLessEqTotal | scripts/update_notebook_config.py:90 | any two names are ordered one way or the other |
| Driver.NameLessEqAntisymmetric | scripts/update_notebook_config.py:90 | two names each at most the other are equal |
| Driver.NameLessEqTransitive | scripts/update_notebook_config.py:90 | the name order is transitive |
| StringOps.ContainsIff | scripts/update_notebook_config.py:35 | the containment test holds exactly when the placeholder occurs at some index of the line |
| StringOps.ReplaceAllNoOccurrence | scripts/update_notebook_config.py:35-36 | replace-all leaves a string without an occurrence unchanged |
| StringOps.ReplaceAllAtFirstOccurrence | scripts/update_notebook_config.py:36 | replace-all copies the characters before the first occurrence, puts the name in its place and resumes after the whole occurrence (left to right, non-overlapping, nothing else changes) |
| StringOps.ReplaceAllWithItself | scripts/update_notebook_config.py:36 | replacing the placeholder by itself is the identity |
| StringOps.ReplaceAllLength | scripts/update_notebook_config.py:36 | a replacement at least as long as the placeholder never shortens the line; one at most as long never lengthens it |
| StringOps.ReplaceAllChanges | scripts/update_notebook_config.py:35-36 | replacing by anything other than the placeholder changes every line that contains it |
| NotebookUpdate.RewriteLineIsReplaceAll | scripts/update_notebook_config.py:35-38 | the guarded rewrite of a line equals the plain replace-all; a line without the placeholder is copied unchanged |
| NotebookUpdate.RewriteLines | scripts/update_notebook_config.py:32-39 | the new source has one entry per input line in input order; lines without the placeholder are copied, lines with it become their replace-all; the flag is true iff some line contained the placeholder |
| NotebookUpdate.NotebookDocument.constructor | scripts/update_notebook_config.py:26-27 | the loaded document holds the parsed cells list |
| NotebookUpdate.NotebookDocument.ReplacePlaceholder | scripts/update_notebook_config.py:29-39 | the cells become their rewrite in place (same length and order, code cells rewritten) and `updated` is true iff some line of some code cell contained the placeholder |
| NotebookUpdate.RewriteCellsShape | scripts/update_notebook_config.py:30-39 | the cells list keeps its length and order; non-code cells are untouched; a code cell changes only its `source`, which keeps one line per old line |
| NotebookUpdate.RewriteIdempotent | scripts/update_notebook_config.py:29-39 | if no rewritten line contains the placeholder, a second rewrite reproduces the same document (and reports no update) |
| NotebookUpdate.UpdateNotebookStorageAccount | scripts/update_notebook_config.py:14-52 | Error when the file cannot be read or parsed; Skipped with nothing written when no code line contains the placeholder; otherwise the rewritten document is written and the outcome is Updated, or Error when the write fails |
| Driver.StorageAccountArgument | scripts/update_notebook_config.py:57-68 | the name is rejected when the argument is missing, empty or exactly the placeholder; any other string is accepted as given |
| Driver.ValidNameChangesLine | scripts/update_notebook_config.py:66 | with an accepted name, every line that contains the placeholder is really changed |
| Driver.PlaceholderNameChangesNothing | scripts/update_notebook_config.py:66 | the rejected name (the placeholder itself) would leave every line as it was |
| Driver.ValidNameUpdatedIffLinesChange | scripts/update_notebook_config.py:29-41 | with an accepted name, a document reported updated differs from the original, and one not reported keeps every source line |
| Driver.ValidNameNotIdempotent | scripts/update_notebook_config.py:66 | one instance: the accepted name `<storage-account-name>x` on a code cell whose one line is the placeholder leaves the placeholder in the rewritten document |
| Driver.NameWithPlaceholderSurvives | scripts/update_notebook_config.py:35-36 | for every accepted name that contains the placeholder and every line that contains it, the rewritten line still contains the placeholder |
| Driver.BoundaryOccurrence | scripts/update_notebook_config.py:35-36 | the accepted name `account` does not contain the placeholder, yet `<storage-<storage-account-name>-name>` rewritten with it is exactly the placeholder |
| Driver.RewriteAfterOpenBracket | scripts/update_notebook_config.py:35-36 | a line made of a short prefix opening with its only `<`, the placeholder, and a suffix without it becomes prefix, name, suffix |
| Driver.RewriteSingleOccurrence | scripts/update_notebook_config.py:35-36 | a line of the form prefix, placeholder, suffix (no `<` in the prefix, no placeholder in the suffix) becomes prefix, name, suffix: the name appears exactly where the placeholder was |
| Driver.ExampleLineRewrite | scripts/update_notebook_config.py:35-36 | `path = '<storage-account-name>/data'` with `acct123` becomes `path = 'acct123/data'` |
| Driver.InsertByName | scripts/update_notebook_config.py:90 | inserting a file into a name-sorted list keeps it sorted and adds exactly that file |
| Driver.SortByName | scripts/update_notebook_config.py:90 | the files are put in name order, as a permutation of the files found |
| Driver.CountUpdated | scripts/update_notebook_config.py:89-92 | the count of updated files lies between 0 and the number of files; it is 0 iff none was updated and the total iff all were |
| Driver.Run | scripts/update_notebook_config.py:55-96 | exit status 1 iff the name is missing or invalid or the directory is missing; nothing is processed then or when no files are found (status 0); otherwise each file is processed once in sorted order as `UpdateNotebookStorageAccount` describes, and the count is the number of Updated reports, at most the number of files |
| Driver.ExampleRun | scripts/update_notebook_config.py:89-95 | with one notebook holding the placeholder in a code cell and one holding it only in a markdown cell, the run exits 0 with one file updated |

## Left out

- File I/O: `open`, `json.load` and `json.dump` (indentation, `ensure_ascii=False`, UTF-8) at lines 26-27 and 42-43. A read, parse or write failure is the `Error` outcome. The field order and whitespace of the written JSON are not modelled.
- A write that fails part-way may leave a truncated file, since the file is opened with mode `w`. The model reports such a file as Error with nothing written, and does not model the partial content.
- JSON shapes other than a list of string lines:
  - A `source` given as a single string: Python would then iterate its characters.
  - A cell that is not an object: `cell.get` raises at line 31.
  - A source line that is a number, boolean or null: the `in` test raises TypeError at line 35.
  - A source line that is a JSON array or object: the `in` test at line 35 is a list-membership or key test and does not raise. The line is appended unchanged at line 38 unless the placeholder is an element or key; only then does `.replace` raise AttributeError at line 36.
  - The model has only string lines. It reports every one of these documents as a parse failure, hence Error. Python reports a document whose odd lines are arrays or objects without the placeholder as Skipped or Updated.
  - A missing `cells` key is the empty cells list, and a missing `cell_type` is any value other than `code`.
- Process plumbing: `sys.argv` is the `argv` parameter, and `sys.exit` is the returned status. `print` messages are left out. `Path(__file__)` and the `glob('*.ipynb')` lookup become the `dirExists` and `found` parameters.
- `print` progress and summary lines. Their content is the `Report` sequence and `updatedCount`.
- StringOps.ReplaceAll: requires a non-empty pattern. Python's `replace` with an empty pattern inserts the replacement between characters, but the script only ever passes the fixed placeholder.
- Driver.SortByName: orders by file name, comparing characters by code point, as POSIX path comparison does for files in one directory. It is not stable for equal names, which cannot occur in one directory. The case-insensitive ordering of Windows paths is not modelled.
- Exceptions as control flow: the broad `except Exception` at lines 50-52 is the `Error` outcome, which never counts as updated.
