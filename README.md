# scansort page reconciliation, in Dafny

scansort reassembles a double-sided document that was scanned in two batches.
One directory holds the odd-numbered pages and another the even-numbered pages,
and some pages were deliberately not scanned. The program works out which file
of which batch becomes which page of the document. It does three things:

1. It counts the pages of each parity, scanned or missing, and the whole
   document (`all_n`).
2. It rejects the input when these counts cannot describe one document numbered
   1..all_n.
3. It builds the odd and the even page lists with `map_fidx2page`: the pages of
   the parity minus the missing ones, numbered 0, 1, 2, ... in order. It then
   emits one `src -> dst` line per file: file `fidx` of the directory chosen by
   the page's parity goes to page `page`.

The project has two modules:

- `pages.dfy`, module `PageRanges`: `range(start, stop, 2)` (`StepRange`,
  `OddRange`, `EvenRange`), the filter (`Keep`), `enumerate` (`Enumerate`) and
  `map_fidx2page` (`MapFidx2Page`), with their properties. These cover the two
  parity ranges partitioning 1..n, order preservation, the length of the
  filtered list, and indices 0..k-1.
- `scansort.dfy`, module `ScanSort`: the counts, the validity check
  (`Consistent`), the page lists of `main` (`EvenPages`, `OddPages`), the
  emitted transfers (`Assignment`) and `main` itself up to its output
  (`Reconcile`).

`Reconcile` returns `Err(PagesDoNotCorrespond)` where the source raises
`ValueError`. It returns `Err(EvenCountMismatch)` and `Err(OddCountMismatch)`
where the asserts at lines 25 and 28 would fail. Otherwise it returns the list of
transfers, even pages first, in the order the source prints them.

Modelling decisions:

- The batch sizes, hard-coded as 100 and 98 at scansort/__main__.py:14-15, are
  parameters `oddN` and `evenN`.
- The two directories are the tags `OddSide` and `EvenSide`.
- A file name `fname_format % n` is represented by the number `n`. This assumes
  the formatter is injective.
- For the divisor 2, Python's `%` and Dafny's give the same result, negative
  operands included. So `sum(map(lambda x: x % 2, missing))` is the number of
  odd members of `missing`.
- `missing` is a `set<int>`: one set shared by both parities, as at
  scansort/__main__.py:16-19. Each missing page counts towards the parity it
  has.
- The result is the list of `(directory, index) -> page` transfers in the
  order the loop at scansort/__main__.py:30-36 prints them, not a map from
  files to pages.
- The length asserts at lines 25 and 28 are results of their own, not
  consequences of the validity check: the check compares only counts. See
  "## Findings".

## Model

| member | source | states |
|---|---|---|
| PageRanges.StepRange | scansort/__main__.py:24 | `range(start, stop, 2)` has (stop - start + 1) / 2 elements when start < stop (none otherwise), and element i is start + 2i |
| PageRanges.StepRangeMembers | scansort/__main__.py:24 | x is in `range(start, stop, 2)` iff start <= x < stop and x has the parity of start |
| PageRanges.ParityRangesPartition | scansort/__main__.py:24-27 | `range(1, n+1, 2)` holds exactly the odd pages of 1..n and `range(2, n+1, 2)` exactly the even ones; together they cover 1..n without overlap; their lengths are (n+1)/2 and n/2 |
| PageRanges.Keep | scansort/__main__.py:9 | the filter keeps a page iff it is in the input and not missing, and is never longer than its input |
| PageRanges.KeepSingle | scansort/__main__.py:9 | filtering a one-page list keeps the page iff it is not missing |
| PageRanges.KeepConcat | scansort/__main__.py:9 | filtering a concatenation is the concatenation of the filtered parts, so the filter keeps the input's order and, with KeepSingle, is fixed on every input |
| PageRanges.KeepIncreasing | scansort/__main__.py:9 | filtering preserves the order: an ascending input gives an ascending result |
| PageRanges.KeepLength | scansort/__main__.py:9 | on a list without repeats, the filter drops exactly one entry per missing page that occurs in the list |
| PageRanges.Enumerate | scansort/__main__.py:9 | `enumerate` keeps the length and pairs element i with index start + i |
| PageRanges.MapFidx2Page | scansort/__main__.py:8-9 | entry i has file index i, so the indices are exactly 0..k-1 in ascending order with no gaps or repeats; every page returned is in the range and not missing |
| PageRanges.MapFidx2PageComplete | scansort/__main__.py:9 | every page of the range that is not missing is assigned some file index |
| PageRanges.MapFidx2PageDetermined | scansort/__main__.py:8-9 | on an ascending range, the pages returned are the only ascending sequence holding exactly the range pages that are not missing |
| PageRanges.MapFidx2PageAscending | scansort/__main__.py:9 | on an ascending range, a larger file index gets a larger page |
| PageRanges.MapFidx2PageLength | scansort/__main__.py:9 | on a range without repeats, the result has as many entries as the range has pages that are not missing |
| ScanSort.CountsAddUp | scansort/__main__.py:16-19 | each missing page counts towards exactly one parity, so odd_all_n + even_all_n == all_n |
| ScanSort.ConsistentCounts | scansort/__main__.py:16-21 | the check passes iff odd_all_n == (all_n + 1) / 2 and even_all_n == all_n / 2 |
| ScanSort.Reconcile | scansort/__main__.py:12-33 | the result is `PagesDoNotCorrespond` iff odd_all_n - even_all_n != all_n % 2, and then nothing is transferred; a success transfers odd_n + even_n files |
| ScanSort.MissingInRanges | scansort/__main__.py:18-27 | when all missing pages lie in 1..n, the missing pages inside each parity range are exactly the missing pages of that parity |
| ScanSort.ParityListLengths | scansort/__main__.py:21-28 | when the check passes and every missing page lies in 1..all_n, the even list has even_n entries and the odd list odd_n, so neither assert fires |
| ScanSort.ReconcileSucceeds | scansort/__main__.py:21-33 | a consistent input whose missing pages lie in 1..all_n is never rejected and never trips an assert |
| ScanSort.ListLengthsForceInRange | scansort/__main__.py:24-28 | if the even list has even_n entries and the odd list odd_n, every missing page lies in 1..all_n |
| ScanSort.ReconcileOkInRange | scansort/__main__.py:21-33 | whenever `main` gets past both asserts, every missing page lies in 1..all_n |
| ScanSort.ReconcileSucceedsIff | scansort/__main__.py:21-33 | `main` succeeds iff the check at line 21 passes and every missing page lies in 1..all_n |
| ScanSort.OutOfRangeTripsAssert | scansort/__main__.py:21-28 | every input that passes the check at line 21 but declares a missing page outside 1..all_n fails the assert at line 25 or the one at line 28 |
| ScanSort.EvenPagesAreEven | scansort/__main__.py:24 | every entry of the even list is an even page in 1..all_n that is not missing |
| ScanSort.OddPagesAreOdd | scansort/__main__.py:27 | every entry of the odd list is an odd page in 1..all_n that is not missing |
| ScanSort.TransfersOfParityLists | scansort/__main__.py:30-32 | for an even list and an odd list indexed by position, `dirs[page % 2]` sends each even entry to the even directory and each odd entry to the odd directory, keeping its index and page |
| ScanSort.AssignmentSources | scansort/__main__.py:24-32 | the first k transfers take files 0..k-1 of the even directory and the rest take files 0, 1, ... of the odd directory; each page has the parity of its directory, and each file index is the page's position among the non-missing pages of that parity |
| ScanSort.AssignmentAscending | scansort/__main__.py:24-32 | within each directory, files are assigned to pages in ascending order |
| ScanSort.AssignmentDistinctPages | scansort/__main__.py:31-33 | no two transfers have the same destination page |
| ScanSort.AssignmentCoversDocument | scansort/__main__.py:24-33 | every page in 1..all_n that is not missing is written by some transfer |
| ScanSort.AssignmentWithinDocument | scansort/__main__.py:24-33 | every page written is in 1..all_n and not missing |
| ScanSort.AssignmentPages | scansort/__main__.py:24-33 | the set of pages written is exactly {1..all_n} minus the missing pages |
| ScanSort.ReconcileCorrect | scansort/__main__.py:14-33 | a consistent input whose missing pages lie in 1..all_n succeeds with odd_n + even_n transfers; it writes each page of {1..all_n} minus the missing pages exactly once; the even directory supplies files 0..even_n-1 to even pages and the odd directory files 0..odd_n-1 to odd pages |
| ScanSort.ScriptConfigurationSucceeds | scansort/__main__.py:14-22 | the script's own input (100 odd and 98 even scans, pages 10 and 12 missing) passes the check and succeeds |
| ScanSort.SixPageExample | scansort/__main__.py:12-33 | 3 odd and 2 even scans with page 4 missing give odd files 0, 1, 2 -> pages 1, 3, 5 and even files 0, 1 -> pages 2, 6, even pages first |
| ScanSort.MoreEvenThanOddRejected | scansort/__main__.py:21-22 | 2 odd and 3 even scans with nothing missing raise the error |
| ScanSort.OutOfRangeMissingTripsAssert | scansort/__main__.py:21-25 | with odd_n = even_n + 2 and page 0 declared missing, the check passes although page 0 is outside 1..all_n, and the assert at line 25 fails |
| ScanSort.ScriptSizesTripAssert | scansort/__main__.py:14-25 | the same happens with the script's own batch sizes 100 and 98 |
| ScanSort.ReconcileChecked | scansort/__main__.py:21-28 | with the range check added, a failure is always `PagesDoNotCorrespond` and never an assert; it succeeds iff the counts agree and every missing page lies in 1..all_n, which is exactly when `main` succeeds, and then returns what `main` returns; where it differs from `main`, `main` has failed one of its asserts |

## Findings

| source | as written | input that shows it | evidently intended | confidence | as-written member | corrected member |
|---|---|---|---|---|---|---|
| scansort/__main__.py:21-25 | the check at line 21 compares only counts, so missing pages outside 1..all_n get through it, and every such input then fails an assert (OutOfRangeTripsAssert) | odd_n = 100, even_n = 98, missing = {0}: all_n = 199, odd_all_n = 100, even_all_n = 99, the check passes; `range(2, 200, 2)` has 99 pages and none is missing, so the assert at line 25 fails | reject such input with the same `ValueError`, so that the asserts only guard against internal errors | medium, not executed | ScanSort.OutOfRangeMissingTripsAssert | ScanSort.ReconcileChecked |

## Left out

- Printing the `src -> dst` lines and the commented-out `shutil.copy`
  (scansort/__main__.py:35-36) are output and filesystem effects. The model
  returns the transfers as a list instead.
- `os.path.join` and `fname_format % n` (scansort/__main__.py:32-33) are not
  modelled. A source is a directory tag and a file index, and a destination is
  a page number. This assumes the formatter is injective and that every file
  goes to the one output directory.
- The `__main__` block (scansort/__main__.py:39-48) is configuration: input
  and output paths, the file name format and the missing pages {10, 12}. Of
  these, only the missing set appears in the model, in
  ScriptConfigurationSucceeds. The batch sizes 100 and 98 come from `main`
  itself (lines 14-15) and appear in ScriptConfigurationSucceeds and
  ScriptSizesTripAssert.
- Python drops `assert` statements under `-O`. The model always checks them.
- `missing` is a set. A Python list with repeated pages would be counted twice
  by `len` and by the sums; this is not modelled.
- Command-line parsing, directory enumeration, the interactive review of the
  mapping and the copy/move executor are not part of this model. They are not
  in scansort/__main__.py.
