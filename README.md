# TestUI: the state of a Tk test-runner window

`main.py` is a small Tk application that shows a table of 1047 test rows and a
log pane. It has four buttons:

- **Load** fills the table with rows `Test Name 0` … `Test Name 1046`, tagged
  `even` or `odd` by parity.
- **Test** walks the rows in order. It picks ten random rows to fail, retags
  every row as passed or failed and appends one fixed log block per row. It
  then sets the "Test Failed Items" label to the names of all recorded
  failures, with a tab after each name, except a newline after every third.
- **Clear** empties the log.
- **Check** shows the failure record under a cursor: it prints the record's
  name and scrolls the table to its index. It then advances the cursor, back
  to 0 after the last record. The model returns the record that `check`
  shows.

Selecting a row searches the log for that row's name.

The Dafny project models this state and proves properties about it:

- `text.dfy` (module `Text`): Python's `str` of a non-negative integer,
  the log's forward substring search, and a character count.
- `test_model.dfy` (module `TestModel`): the value-level specification. It
  covers rows and tags, the loaded table, retagging, the failure records, the
  log template and log, the failed-items label, and the check cursor, with
  lemmas about each.
- `test_ui.dfy` (module `TestUi`): the class `TestUI`. Its fields hold the
  table rows and the failure list (sequences), the cursor (a natural number),
  the log text and the label text (strings), and the log template (a
  constant). Each button handler is a method that updates those fields in
  place, proved against the functions of `TestModel`. `Valid()` is the class
  invariant:
  - the log template is `test_str`;
  - row `k` has id `k` and name `Test Name k`;
  - every failure record names the row at its index;
  - the cursor is 0 or inside the failure list.

Python errors are modelled as results, not as preconditions:

- `test` on an empty table raises ZeroDivisionError from `1 / item_count`.
  On fewer than ten rows it raises ValueError from `random.sample`. Both
  happen before anything changes.
- `check` on an empty failure list raises IndexError before anything changes.

## Model

| member | source | states |
|---|---|---|
| TestUi.TestUI.constructor | main.py:45-85 | The window starts with an empty table, an empty failure list, cursor 0, an empty log, the label `Test Failed Items: ` and the log template; the class invariant holds |
| TestUi.TestUI.Check | main.py:87-94 | On an empty failure list there is no result and the cursor is unchanged (the IndexError path). Otherwise it returns the record under the cursor and the cursor moves one step, back to 0 after the last record; the cursor stays inside the list |
| TestUi.TestUI.Clear | main.py:95-99 | The log becomes empty, so no row name can be found in it |
| TestUi.TestUI.Test | main.py:101-140 | An empty table gives ZeroDivisionError and 1–9 rows give the sample error, both with nothing changed. Otherwise the rows are retagged, exactly ten records are appended to the failure list (which is never reset), one log block per row is appended in row order, the label is the summary of the whole failure list, and the class invariant is kept |
| TestUi.TestUI.WalkRows | main.py:115-133 | The row loop: every row is retagged by its sampled status, a record is appended for each sampled row in row order, and the log grows by the blocks of all rows in order. `Test` re-establishes the class invariant from these equations through `WalkKeepsNames` |
| TestUi.TestUI.TestRow | main.py:116-131 | One iteration changes only the tag of row `idx` (even branch only for a row tagged exactly `even`), appends a record with that row's name and index when it is sampled, and appends the row's filled-in template to the log |
| TestUi.TestUI.LoadData | main.py:142-164 | Whatever the table held before, afterwards it is exactly the 1047 loaded rows; the failure list and cursor are untouched, and the invariant holds |
| TestUi.TestUI.OnSelect | main.py:211-222 | With nothing selected, no position. Otherwise the position is the earliest offset in the log where the first selected row's name occurs, or none exactly when the name occurs nowhere |
| TestModel.LoadedRow | main.py:150-164 | Row `i` as `load_data` inserts it: id `i`, name `Test Name i`, values `Value i+1` and `Value i+2`, tag `even` or `odd` by parity |
| TestModel.LoadedRows | main.py:150-164 | The first `n` rows `load_data` inserts, in insertion order; there are exactly `n` of them |
| TestModel.LoadedRowsNamed | main.py:150-164 | The loaded table names every row after its index, with id equal to its position |
| TestModel.LoadedRowsAt | main.py:150-164 | Row `k` of the loaded table is the row inserted on iteration `k` |
| TestModel.LoadedRowsShape | main.py:150-164 | Every loaded row `k` has id `k`, name `Test Name k`, values `Value k+1` and `Value k+2`, and tag `even` for even `k` and `odd` for odd `k` |
| TestModel.RowName | main.py:156 | The name of row `i`: `'Test Name ' + str(i)`, never empty; the same text `test` fills into the log at line 131 |
| TestModel.RowNameHasNoSeparator | main.py:156 | A row name contains no tab and no newline |
| TestModel.RowNameInjective | main.py:156 | Distinct rows have distinct names |
| Text.NatToString | main.py:156 | `str(n)` is a non-empty run of decimal digits without a leading zero |
| Text.DecimalRoundTrip | main.py:156 | Reading back the decimal rendering gives the number |
| Text.NatToStringInjective | main.py:156 | Distinct numbers render differently |
| TestModel.NextTag | main.py:116-128 | The new tag is always a result tag. It is a fail tag exactly when the row is sampled, and an even tag exactly when the old tag was `even` |
| TestModel.Retagged | main.py:116-128 | Retagging keeps a row's id, name and values and changes only its tag |
| TestModel.RetagFirst | main.py:115-128 | The table after the loop has walked the first `n` rows, each retagged by whether its position is sampled; the table keeps its length |
| TestModel.RetagFirstAt | main.py:115-128 | After `n` iterations the first `n` rows are retagged by their sampled status and the rest are untouched |
| TestModel.SecondRunIsOdd | main.py:116-128 | A row that has been tested once goes down the odd branch on every later run |
| TestModel.FailuresOf | main.py:115-128 | The records the loop appends while walking the first `n` rows: one per sampled row, in row order, at most `n` of them |
| TestModel.FailuresOfRecords | main.py:115-128 | Every appended record is for a sampled row below the current position and carries that row's name; records are in strictly increasing row order |
| TestModel.WalkKeepsNames | main.py:115-128 | A full walk keeps rows named by their index and keeps every record naming its row |
| TestModel.FailuresOfCount | main.py:115-128 | The walk appends as many records as there are sampled positions walked |
| TestModel.FailuresOfIndices | main.py:115-128 | The appended records' indices are exactly the sampled positions walked |
| TestModel.FailuresOfSample | main.py:112-128 | A full walk with a sample of ten rows appends exactly ten records |
| TestModel.TestStr | main.py:21-36 | The log template `test_str`, character for character: a leading newline, a rule of 50 asterisks, `Test Name:` and the name, the fixed limits, result and seven output lines, a rule and a blank line |
| TestModel.LogTemplate.Format | main.py:131 | `str.format` on a template with one `{0}`: the text before it, the name, the text after it |
| TestModel.LogBlocks | main.py:131 | The text the loop appends to the log over the first `n` rows: one filled-in template per row, in row order |
| TestModel.FormatHoldsName | main.py:21-36 | The filled-in template holds the test name right after the template's head |
| TestModel.LogBlocksAppend | main.py:131 | Appending row `n`'s block to the log of rows below `n` gives the log of rows below `n+1` |
| TestModel.LogBlocksSplit | main.py:131 | The log of `n` rows is the log of the first `m` rows followed by the blocks of rows `m` to `n-1` |
| TestModel.TestedRowIsFound | main.py:131 | After a run, searching any earlier log extended by the run finds each walked row's name, no later than inside that row's own block |
| TestModel.EveryTestedRowIsFound | main.py:131 | After a run, every walked row's name can be found in the log |
| Text.FindFrom | main.py:220 | Forward search returns the earliest occurrence at or after the start offset, or none exactly when no occurrence exists there |
| Text.FirstIndexOf | main.py:220 | Search of the whole log returns the earliest occurrence, or none exactly when the pattern occurs nowhere |
| Text.FoundNoLaterThan | main.py:220 | If the pattern occurs at some offset, the search succeeds at or before that offset |
| TestModel.Separator | main.py:136-138 | The separator after the `k`-th name: a newline exactly when `k+1` is a multiple of 3, a tab otherwise |
| TestModel.FailedItemsText | main.py:135-139 | The first `n` failed names, each followed by its separator |
| TestModel.Summary | main.py:134-140 | The label text: `Test Failed Items: ` followed by every failed name and its separator |
| TestModel.FailedItemsLabel | main.py:134-140 | The loop builds the label: the prefix followed by each failed name with its separator, in list order |
| TestModel.FailedItemsTextShape | main.py:135-139 | For `n` names without separators, the text holds `n/3` newlines and `n - n/3` tabs, and a non-empty text ends with the separator of its last name |
| TestModel.SummaryShape | main.py:134-140 | The label starts with `Test Failed Items: `, and its newline and tab counts are as above for the whole list |
| TestModel.SummaryOfRowRecords | main.py:134-140 | For `n` records of table rows, the label has `n/3` newlines and `n - n/3` tabs, and a non-empty list's label ends with the last name's separator |
| TestModel.CheckWalk | main.py:87-94 | The records that `steps` consecutive `check` calls show, starting at the cursor |
| TestModel.CursorAfter | main.py:87-94 | The cursor after `steps` consecutive `check` calls; it stays inside the list |
| TestModel.NextCursor | main.py:91-94 | The cursor stays inside the list and is 0 exactly after the last record |
| TestModel.CheckWalkInOrder | main.py:87-94 | Until the end of the list, consecutive checks return the records in list order, and the cursor wraps to 0 exactly at the end |
| TestModel.CheckWalkSplit | main.py:87-94 | `a + b` checks are `a` checks followed by `b` checks that start where the first `a` left the cursor |
| TestModel.CheckCycle | main.py:87-94 | From cursor 0, one check per record returns the whole list once in order and leaves the cursor at 0; later checks repeat the cycle |

## Left out

- Widgets, layout, colours and column headings are left out. Only the state the handlers read and write is modelled.
- Scrolling is left out: `yview_moveto` in `test`, `check` and `load_data`, and `see` in `test` and `_on_select`. These only move the view. The model keeps the offset that `_on_select` would scroll to.
- `print` output in `test` and `check` is left out.
- `self._root.update()` inside the `test` loop is left out. So are the event handlers it could run re-entrantly in the middle of a run; the model treats `test` as atomic.
- `random.seed(int(time.time()))` and `random.sample` are left out. The drawn sample is a parameter `sampled`. When the table has at least ten rows, it holds ten distinct row positions. The source tests membership with `str(idx) in ret`. Row ids are their positions, so the model tests membership by position.
- Tk text positions (`'1.0'`, `'line.col'`) are modelled as integer offsets into the log string.
- The per-insert text tag `'Test Log' + str(idx)` is left out. It does not change the log's characters.
- `mainloop` and the `__main__` block are left out.
- Status: the table's tag strings become the six tags `Even`, `Odd`, `EvenPass`, `EvenFail`, `OddPass`, `OddFail`. The code appends to the failure list and never clears it; the model follows the code.
- Row text: each row's `text='Row 1'` is not modelled. It sits in the tree column `#0`, which the table hides with width 0.
- Selection: the selection is given as row positions that are in the table. How Tk produces a selection is not modelled.
