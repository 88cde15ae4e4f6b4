# wgdi `base.py` core in Dafny

This project models the parsing and projection helpers of the wgdi
whole-genome-duplication toolkit (`wgdi/base.py`) and proves properties of
the model:

- **`read_colinearscan`**: a two-mode scanner (seeking and collecting) over a
  ColinearScan dump. A `the` line opens a block. The lines that follow become
  its rows, each split on single whitespace characters. A `>LOCALE` line
  closes the block, and its `:`-field 1 becomes the block's metadata.
  `MAXIMUM GAP` lines are always skipped. Module `ColinearScan`.
- **`read_mcscanx`**: a scanner over an MCScanX collinearity file. Every
  `## Alignment` header starts a block made of the header line followed by one
  gene pair per data row. Every block is returned, the last one included.
  Module `McScanX`.
- **`gene_location`**: exclusive prefix-sum offsets over a chromosome length
  table, in table order. Each annotated gene on a known chromosome is projected
  to `(offset + value) * step`. Module `GeneLocation`.
- **`get_median`**: sorts the list in place and averages the elements at
  `n // 2` and `~(n // 2)`. Module `Median`.
- **`tendem`**: two genes on one chromosome that are less than 200 apart.
  Module `Tandem`.

Both parsers follow the same pattern:

- a `Classify` function reproduces the loop body's `strip()` and prefix tests;
- a `Transition` function takes the state and a classified line and returns
  the next state or an error;
- the generic left fold `LineScan.Scan` runs the transition over the lines;
- a function (`Blocks`, `Alignments`) defines the result from the fold;
- a method with a `for` loop mirrors the source statement by statement,
  `continue`s included, and is proved equal to that function.

Python's string primitives are modelled in module `Text`:

- `str.strip()`;
- `re.match` with a literal pattern, which is a prefix test;
- `re.split` on a pattern that matches one character (`:` or `\s`), which
  yields one field per delimiter plus one;
- `re.split(r"\s+")`, which splits on maximal whitespace runs. A leading or
  trailing run still yields an empty field.

Whitespace is exactly the set of characters `str.isspace()` accepts.

An index past the end of a split result raises IndexError in the source. Here
it becomes `Err(IndexError(k))`, where `k` is the 0-based line number.

Four details of the code are easy to misread, and the model follows the code
in each:

- The metadata of a ColinearScan block is field 1 of the `>LOCALE` line split
  on every `:`. That is the text between the first and the second colon, not
  everything after the first colon.
- An MCScanX data row is split on every `:`, not just the first one. Field 1
  is the text between the first and the second colon.
- Any MCScanX line after the first header that does not start with `#` is read
  as a data row, whatever its shape. A blank line is one too, and it raises.
- The two parsers treat the end of input differently:
  - ColinearScan drops rows that no `>LOCALE` line closes
    (`TrailingLinesAddNothing`);
  - MCScanX always returns its last block (`BlockCount`, `NextAlignment`).

## Model

| member | source | states |
|---|---|---|
| Text.Strip | build/lib/wgdi/base.py:26 | definition: `line.strip()`, the line without its leading and trailing whitespace |
| Text.StripRemovesOuterSpace | build/lib/wgdi/base.py:26 | `strip()` result: a slice of the line with only whitespace before and after it; it is empty exactly when the line is all whitespace, and otherwise starts and ends with non-whitespace |
| Text.StartsWith | build/lib/wgdi/base.py:27-35 | definition: `re.match` with a literal pattern (`MAXIMUM GAP`, `the`, `>LOCALE`, `## Alignment`, `#`; also at :53 and :64) succeeds exactly when the pattern is a prefix of the line |
| Text.Split | build/lib/wgdi/base.py:39 | a one-character `re.split` gives one field per delimiter plus one |
| Text.SplitFieldsFree | build/lib/wgdi/base.py:42 | no field of a one-character split contains the delimiter, so no row token contains whitespace |
| Text.JoinSplit | build/lib/wgdi/base.py:39 | splitting on `:` loses nothing: joining the fields back with `:` rebuilds the line |
| Text.SplitRebuilds | build/lib/wgdi/base.py:39-42 | a one-character split (`:` at :39, `\s` at :42) loses nothing: the line is its fields interleaved with one matched character between each two, so the row tokens are exactly the text of the line |
| Text.SecondField | build/lib/wgdi/base.py:39-40 | field 1 of a `:` split is the text between the first and the second `:` |
| Text.SplitRuns | build/lib/wgdi/base.py:67 | `re.split(r"\s+")` fields contain no whitespace, interior fields are non-empty, and the first field is empty exactly when the text is empty or starts with whitespace |
| Text.SplitRunsRebuilds | build/lib/wgdi/base.py:67 | a `\s+` split loses nothing: the text is its fields interleaved with non-empty whitespace runs, so `c[1]` and `c[2]` are fields 1 and 2 of the run split: the first and second words when the text starts with whitespace, as every MCScanX row does after its `:`, and the second and third words otherwise |
| Text.SplitRunsAgreesWithSplit | build/lib/wgdi/base.py:42 | splitting on `\s+` and on `\s` gives the same first field and the same non-empty fields in order |
| LineScan.Scan | build/lib/wgdi/base.py:25 | definition: the `for` loop over the lines (also at :51), threading the state through the per-line step; the first IndexError ends the loop and is its outcome |
| LineScan.ScanAppend | build/lib/wgdi/base.py:25 | the line loop over a concatenation runs over the first part, then over the second from the state the first part left |
| LineScan.ScanErrorSticks | build/lib/wgdi/base.py:25 | once a line raises, that error is the result of the whole loop |
| LineScan.Lex | build/lib/wgdi/base.py:25-26 | definition: each line of the file classified on its own, in file order, one classified line per raw line |
| ColinearScan.Classify | build/lib/wgdi/base.py:26-42 | definition: the stripped line, tested for `MAXIMUM GAP`, `the` and `>LOCALE` in that order, with its `:` split and its `\s` split |
| ColinearScan.Transition | build/lib/wgdi/base.py:27-43 | definition: one turn of the loop body on the state `(data, b, flag)`; while collecting (flag 1), a `>LOCALE` line reached with a non-empty `b` and without a `:` field 1 raises IndexError at that line |
| ColinearScan.Blocks | build/lib/wgdi/base.py:22-44 | definition: what `read_colinearscan` returns, the finished blocks `data` after the loop, or the first IndexError; rows still in `b` at the end are not returned |
| ColinearScan.ReadColinearScan | build/lib/wgdi/base.py:22-44 | the loop, `continue`s included, returns exactly `Blocks(lines)`: the blocks or the IndexError |
| ColinearScan.ClassifyMeans | build/lib/wgdi/base.py:26-35 | each line is handled as the first of `MAXIMUM GAP`, `the`, `>LOCALE`, data that its stripped text starts with; the three marker kinds exclude each other |
| ColinearScan.SeekingIgnores | build/lib/wgdi/base.py:33-34 | while seeking, any run of lines without a `the` line leaves the state unchanged |
| ColinearScan.NoTheNoBlocks | build/lib/wgdi/base.py:29-34 | a file without a `the` line yields no blocks and never raises |
| ColinearScan.CollectBody | build/lib/wgdi/base.py:42-43 | while collecting, non-marker lines append their single-whitespace splits to `b`, in order, skipping `MAXIMUM GAP` lines |
| ColinearScan.BlockOfCycle | build/lib/wgdi/base.py:29-43 | a `the`/body/`>LOCALE` cycle, from any state: no rows emits nothing; rows and fewer than two `:` fields raise IndexError at the `>LOCALE` line; otherwise the block `(rows, p[1])` is emitted and the scanner seeks |
| ColinearScan.OneCycle | build/lib/wgdi/base.py:26-43 | a file with one complete cycle after lines without `the`, whose body has at least one line that is not a `MAXIMUM GAP` line, yields exactly one block: the body's rows and the text between the first two `:` of the `>LOCALE` line |
| ColinearScan.UnclosedRowsDropped | build/lib/wgdi/base.py:44 | lines without a `>LOCALE` line emit no block and never raise |
| ColinearScan.TrailingLinesAddNothing | build/lib/wgdi/base.py:44 | after a prefix that parses, a tail without `>LOCALE` lines leaves the result unchanged: rows that are never closed are never returned |
| ColinearScan.AtMostOneBlockPerThe | build/lib/wgdi/base.py:29-41 | a file yields at most as many blocks as it has `the` lines |
| ColinearScan.BlocksOwedToTheLines | build/lib/wgdi/base.py:29-41 | emitted blocks plus the block being collected never exceed the starting count plus the `the` lines read |
| ColinearScan.WhereErrorsArise | build/lib/wgdi/base.py:35-40 | an error comes only from a `>LOCALE` line with fewer than two `:` fields, reached while collecting a non-empty `b` |
| ColinearScan.ErrorIsColonlessLocale | build/lib/wgdi/base.py:35-40 | the line reported by an error is a `>LOCALE` line without any `:`, reached with rows collected |
| ColinearScan.LocaleFieldsMissing | build/lib/wgdi/base.py:39-40 | a `>LOCALE` line has fewer than two `:` fields exactly when it contains no `:` |
| ColinearScan.FallThroughInvisible | build/lib/wgdi/base.py:36-43 | with a `continue` after the emission, so the `>LOCALE` tokens never enter the fresh `b`, the parser returns the same blocks and the same errors |
| ColinearScan.ContinueMakesNoDifference | build/lib/wgdi/base.py:36-43 | from any state, the scans with and without that `continue` agree on the blocks, the mode and, while collecting, on `b` |
| McScanX.ParseRow | build/lib/wgdi/base.py:66-67 | definition: field 1 of the `:` split, split on `\s+`, gives the pair `(c[1], c[2])`, or is malformed when `a[1]`, `c[1]` or `c[2]` is missing |
| McScanX.Classify | build/lib/wgdi/base.py:52-67 | definition: the stripped line, tested for `## Alignment`, then `#`, then parsed as a data row |
| McScanX.Transition | build/lib/wgdi/base.py:53-68 | definition: one turn of the loop body on the state `(data, b, flag)`; a malformed row after the first header raises IndexError at that line; before the first header such a row is ignored |
| McScanX.Alignments | build/lib/wgdi/base.py:47-70 | definition: what `read_mcscanx` returns, the finished blocks followed by the last `b`, whatever it holds, or the first IndexError |
| McScanX.ReadMcScanX | build/lib/wgdi/base.py:47-70 | the loop, `continue`s included, returns exactly `Alignments(lines)`: the blocks or the IndexError |
| McScanX.ClassifyMeans | build/lib/wgdi/base.py:52-67 | a header is kept stripped; a comment is a `#` line that is not a header; a data row is malformed exactly when it has no `:` or fewer than three whitespace-run fields in the text between the first and the second `:` |
| McScanX.ScanKeepsShape | build/lib/wgdi/base.py:53-68 | every reachable state is shaped: `b` is non-empty exactly when a header was seen; one block per header so far; every block is a header followed by pairs |
| McScanX.BlockCount | build/lib/wgdi/base.py:53-69 | k >= 1 header lines yield exactly k blocks, each a header followed by gene pairs; no header yields exactly `[[]]` |
| McScanX.IgnoredUntilHeader | build/lib/wgdi/base.py:62-63 | before the first header every line is ignored, malformed or not |
| McScanX.NoHeaderOneEmptyBlock | build/lib/wgdi/base.py:62-69 | a file without a header returns `[[]]` and never raises |
| McScanX.PrefixIgnored | build/lib/wgdi/base.py:62-63 | lines before the first header do not change the result; only an error's line number moves by their count |
| McScanX.FillBlock | build/lib/wgdi/base.py:64-68 | after a header, comments and well-formed rows append one `[c[1], c[2]]` pair per data row and change nothing else |
| McScanX.PairsCount | build/lib/wgdi/base.py:64-68 | readable lines contribute exactly one pair per non-`#` line |
| McScanX.SegmentStep | build/lib/wgdi/base.py:53-68 | a header flushes a non-empty `b` and opens `[header]`, which the following readable lines extend with their pairs |
| McScanX.NextAlignment | build/lib/wgdi/base.py:53-69 | adding a header and readable lines to a file that parses adds exactly one block: the stripped header, then one pair per data row, of length 1 plus the non-`#` line count; a file without a header loses its placeholder `[]` |
| McScanX.TwoAlignments | build/lib/wgdi/base.py:53-69 | a file with two headers yields exactly two blocks, each its header followed by its rows' pairs |
| McScanX.FirstRaise | build/lib/wgdi/base.py:66-68 | a failing scan reports the first malformed data row read after a header |
| McScanX.FailsIffRaises | build/lib/wgdi/base.py:66-68 | the scan fails exactly when some malformed data row follows a header |
| McScanX.ErrorsAreMalformedRows | build/lib/wgdi/base.py:62-68 | on raw lines: the parse fails exactly when some non-`#` line after a header lacks a `:` or has fewer than three whitespace-run fields in the text between the first and the second `:`; the error names the first such line |
| GeneLocation.Project | build/lib/wgdi/base.py:134-144 | definition: what `gene_location` returns, `loc_gene` built from the offsets `dict_chr` of the length table |
| GeneLocation.ComputeGeneLocation | build/lib/wgdi/base.py:134-144 | the two loops return exactly `Project(gff, lens, step, position)`: prefix-sum offsets, then one coordinate per row on a known chromosome |
| GeneLocation.Offsets | build/lib/wgdi/base.py:135-138 | definition: `dict_chr`, each chromosome id of the length table mapped to the running total `n` before it |
| GeneLocation.Locations | build/lib/wgdi/base.py:139-143 | definition: `loc_gene`, rows on a chromosome without an offset skipped, each other row's id mapped to `(offset + value) * step`, later rows overwriting earlier ones |
| GeneLocation.OffsetsKeys | build/lib/wgdi/base.py:136-138 | `dict_chr` has exactly the chromosome ids of the length table |
| GeneLocation.OffsetIsPrefixSum | build/lib/wgdi/base.py:136-138 | with distinct ids, chromosome i's offset is the sum of the lengths of the chromosomes before it in table order |
| GeneLocation.FirstOffsetZero | build/lib/wgdi/base.py:135-137 | the first chromosome's offset is 0 |
| GeneLocation.NextChromosomeAbuts | build/lib/wgdi/base.py:136-138 | each chromosome's offset is the previous chromosome's offset plus its length |
| GeneLocation.OffsetsNonDecreasing | build/lib/wgdi/base.py:136-138 | with non-negative lengths, offsets never decrease along the table |
| GeneLocation.LocationsKeys | build/lib/wgdi/base.py:139-143 | `loc_gene` keys are exactly the ids of rows whose chromosome has an offset |
| GeneLocation.ProjectKeys | build/lib/wgdi/base.py:134-144 | the result's keys are exactly the annotation ids whose chromosome is in the length table |
| GeneLocation.LastRowWins | build/lib/wgdi/base.py:139-143 | each placed gene sits at `(offset[chr] + value) * step` of its last row on a known chromosome; a repeated id takes that row's value |
| GeneLocation.ProjectionExample | build/lib/wgdi/base.py:134-144 | lengths 1→10 and 2→5 with step 1: a gene on chromosome 2 at value 3 lands at 13, and a gene on chromosome 3 adds nothing, even when it repeats that gene's id |
| Median.GetMedian | build/lib/wgdi/base.py:81-86 | returns `Median` of the input list (None exactly when it is empty) and leaves the array a sorted permutation of its old contents |
| Median.Sort | build/lib/wgdi/base.py:84 | the in-place sort leaves the array sorted and a permutation of its old contents |
| Median.Median | build/lib/wgdi/base.py:82-83 | the result is None exactly when the list is empty |
| Median.MedianOfSorted | build/lib/wgdi/base.py:85-86 | on a sorted list: the middle element for odd n, the mean of the two middle elements for even n |
| Median.SortedUnique | build/lib/wgdi/base.py:84 | two sorted arrangements of the same elements are equal, so the result does not depend on the sort algorithm |
| Median.MedianIgnoresOrder | build/lib/wgdi/base.py:81-86 | the median depends only on the list's elements, not on their order |
| Median.MedianOfSortedList | build/lib/wgdi/base.py:84-86 | for an already sorted list the median is read off it directly |
| Median.MedianBetweenExtremes | build/lib/wgdi/base.py:85-86 | the median lies between the least and the greatest element |
| Median.SortSeq | build/lib/wgdi/base.py:84 | the reference sort returns a sorted permutation of its input |
| Tandem.IsTandem | build/lib/wgdi/base.py:97-100 | true exactly when the chromosomes are equal and `loc1` lies strictly within 200 of `loc2` |
| Tandem.IsTandemSymmetric | build/lib/wgdi/base.py:97-100 | swapping the two genes does not change the answer |

## Left out

- `config` and `load_conf` (`base.py:10-19`): they read configparser files, which is file I/O.
- `read_ks`, `newblast`, `newgff` and `newlens` (`base.py:73-131`): they are pandas CSV loading and DataFrame filtering. `gene_location` takes their output as already-typed inputs:
  - a `seq<Gene>` for the annotation table;
  - a `seq<(string, int)>` for the length table.
- `newgff` at `base.py:119` assigns the `end` column to `start`. That loader is not part of this model, so a `Gene`'s `start` is taken as given.
- `cds_to_pep` (`base.py:89-94`): Biopython translation and FASTA I/O.
- `dotplot_frame` (`base.py:146-164`): matplotlib plotting.
- Opening and reading the files in both parsers (`base.py:24-25, 48-51`): the parsers take the file's lines as a `seq<string>`. The model applies `strip()` to each line itself.
- Median.GetMedian: works on lists of integers and returns an exact `real`. The source accepts any numbers and its `/ 2` is an IEEE double division.
- Tandem.IsTandem: takes the two locations as exact `real`s. The source converts them with `float()`, which may also parse strings, and compares IEEE doubles.
- GeneLocation.ComputeGeneLocation: computes coordinates as exact `real`s, not IEEE doubles.
- Python's hybrid sort (`list.sort`) is modelled by an insertion sort. `Median.SortedUnique` shows that any sort leaves the same list, so the median and the final contents are the same.
- GeneLocation.ComputeGeneLocation: duplicate chromosome ids are not modelled as pandas has them. With duplicate index labels `lens[i]` is a Series, not a number. The model accumulates each entry as a scalar, and a later duplicate overwrites the earlier offset. The prefix-sum lemmas assume distinct ids.
- Python's `re` engine itself is not modelled. Only the literal prefix patterns and the three split patterns the functions use are, over `str` text with Python's `isspace` whitespace set.
