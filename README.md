# pwordcount core in Dafny

`pwordcount.py` counts words in text files, optionally with several worker
processes. This project models the deterministic part of it:

- **Token cleaning** (`special_cleaner`, module `Cleaner`, `cleaner.dfy`).
  A comprehension drops whitespace-only tokens, deletes every special
  character from the others and lower-cases them. A removal loop then
  deletes `''` and `'-'` from the list *while iterating over it*. The
  model keeps that loop exactly as written. After each removal the list
  shifts down by one, so the cursor skips the token that followed it; and
  `list.remove` deletes the *first* equal token, which can be an earlier,
  already skipped duplicate rather than the token under the cursor
  (`RemoveTakesEarlierDuplicate`). `SpecialCleaner` is the loop itself, and
  `Sweep` is the function it is proved against.
- **Slicing** (`file_divider`, module `Partition`, `partition.dfy`). A
  worker that owns part `k` of `n` of a file gets the cleaned tokens
  between `int((k-1)*T/n)` and `int(k*T/n)`. The same bounds applied to the
  line count give the line range named in the report.
- **Blocks of files** (the index arithmetic of `diveconquer`, also in
  `Partition`). There are `P = min(parallel, F)` blocks. Block `i` starts
  at `i*(F//P)`. Every block but the last ends at `(i+1)*(F//P)`; the last
  one ends at `F`.
- **Analyses** (`word_counter`, `unique_word_counter`, `occurence_counter`,
  module `Analysis`, `analysis.dfy`). These are the total, the distinct
  count and the occurrence dictionary of one slice. `CountOccurrences` is
  the counting loop, proved against the `Histogram` function.
- **Dispatch and work division** (`process_file` and `diveconquer`,
  module `WordCount`, `wordcount.dfy`).
  - `ProcessFile` returns one report per file for modes `t`, `u` and `o`,
    and nothing for any other mode.
  - `Plan` is the list of work units that `diveconquer` hands to its
    children.
  - `Diveconquer` is the parent's loop, one branch per strategy, proved
    to produce exactly `Plan`.
  - `PlanCovers` proves that the children's tokens, unit after unit, are
    all the input's cleaned tokens, file after file. No token is missed,
    repeated or reordered.

An input file is given as its whitespace-split tokens plus its line count.
Each child's printed report becomes a returned `Report` value: a line
range and an `Outcome`. Where the source prints and returns `None`,
`ProcessFile` returns `Some(reports)` for the three known modes and `None`
otherwise.

Blocks are not balanced to within one file. Every block gets `F // P`
files and the whole remainder goes to the last one, so five files over
three workers give blocks of 1, 1 and 3 (`UnevenBlocks`).

## Model

| member | source | states |
|---|---|---|
| Partition.Slice | SO-TI-07/pwordcount.py:33 | Part `k` of `n` is a piece of the list: no longer than it, and drawn from its elements (multiset inclusion). Part 1 is a prefix. |
| Partition.SliceBound | SO-TI-07/pwordcount.py:33 | A slice bound `int(k*T/n)` lies in `0..T`, is 0 for `k = 0` and is `T` for `k = n`. |
| Partition.SliceBoundMonotone | SO-TI-07/pwordcount.py:33 | Slice bounds never decrease as the part number grows. |
| Partition.SliceLength | SO-TI-07/pwordcount.py:33 | Every slice holds `floor(T/n)` or `ceil(T/n)` tokens. |
| Partition.SlicesAdjacent | SO-TI-07/pwordcount.py:33 | Slice `k` ends exactly where slice `k+1` begins, with both bounds in `0..T`. |
| Partition.SlicesTile | SO-TI-07/pwordcount.py:33 | Slices `1..n`, concatenated in order, give back the token list exactly. |
| Partition.SliceWhole | SO-TI-07/pwordcount.py:33 | With `n = 1`, the single slice is the whole token list. |
| Partition.BlockStart | SO-TI-07/pwordcount.py:88 | `start_idx = i*(F//P)`: block 0 starts at 0, and no block `i <= P` starts past the end of the list. |
| Partition.BlockEnd | SO-TI-07/pwordcount.py:89 | `end_idx` never passes the end of the list, and the last block ends exactly at `F`. |
| Partition.BlockCount | SO-TI-07/pwordcount.py:86 | The number of blocks is `min(parallel, F)`: no more than either, and equal to one of them. |
| Partition.BlocksTile | SO-TI-07/pwordcount.py:86-89 | Block 0 starts at 0 and the last block ends at `F`. Each block starts where the previous one ends, and none is empty. |
| Partition.BlockBounds | SO-TI-07/pwordcount.py:88-89 | Each block is a non-empty index range inside the file list. |
| Partition.BlockSizes | SO-TI-07/pwordcount.py:88-89 | A block other than the last holds `F // P` files. The last holds `F // P + F % P`. |
| Partition.BlockCutsSpec | SO-TI-07/pwordcount.py:88-89 | The block boundaries form a non-decreasing sequence of cut points from 0 to `F`. |
| Partition.UnevenBlocks | SO-TI-07/pwordcount.py:88-89 | Five files over three workers give blocks of 1, 1 and 3 files. |
| Analysis.Distinct | SO-TI-07/pwordcount.py:44 | `set(words)` holds every word of the slice and only words that occur in it. |
| Analysis.Histogram | SO-TI-07/pwordcount.py:50-56 | The dictionary after the counting loop: every key has a count of at least 1. Its keys and exact counts are given by `HistogramCounts`. |
| Analysis.DistinctAtMostTotal | SO-TI-07/pwordcount.py:44 | `len(set(words)) <= len(words)`. |
| Analysis.HistogramCounts | SO-TI-07/pwordcount.py:50-56 | The dictionary's keys are exactly `set(words)`. Each word maps to its number of occurrences, which is at least 1. |
| Analysis.HistogramTotal | SO-TI-07/pwordcount.py:50-56 | The counts of the dictionary add up to `len(words)`. |
| Analysis.DistinctIsHistogramSize | SO-TI-07/pwordcount.py:44-56 | The distinct count equals the number of keys in the dictionary, and is at most the total. |
| Analysis.CountOccurrences | SO-TI-07/pwordcount.py:50-56 | The counting loop builds the histogram. Its keys are the distinct words, each count is the multiset count, and the counts sum to the number of words. |
| Cleaner.Normalize | SO-TI-07/pwordcount.py:15-16 | A token after `translate` and `lower`: no special character, no upper-case letter, never longer than the input. |
| Cleaner.Prepare | SO-TI-07/pwordcount.py:16-17 | The comprehension: never more tokens than the input, and every output token is free of special characters and upper-case letters. |
| Cleaner.StripSpecial | SO-TI-07/pwordcount.py:15-16 | Deleting special characters keeps exactly the characters that are not special and never lengthens the token. |
| Cleaner.StripSpecialConcat | SO-TI-07/pwordcount.py:15-16 | Deleting special characters works character by character: stripping a concatenation strips each half. |
| Cleaner.StripSpecialChar | SO-TI-07/pwordcount.py:15-16 | A single special character is deleted; any other character is kept unchanged. |
| Cleaner.NormalizeConcat | SO-TI-07/pwordcount.py:15-16 | `translate` followed by `lower` works character by character: cleaning a concatenation cleans each half. |
| Cleaner.NormalizeChar | SO-TI-07/pwordcount.py:15-16 | A single special character becomes nothing; any other character becomes its lower-case form. |
| Cleaner.NormalizeSpec | SO-TI-07/pwordcount.py:15-16 | A cleaned token holds no special character and no upper-case letter. It is no longer than the original, and cleaning it again changes nothing. |
| Cleaner.PrepareConcat | SO-TI-07/pwordcount.py:16-17 | The comprehension works token by token: it distributes over concatenation. |
| Cleaner.PrepareMaps | SO-TI-07/pwordcount.py:16-17 | With no whitespace-only tokens, output `i` is input `i` cleaned, and the length is kept. |
| Cleaner.PrepareOrigins | SO-TI-07/pwordcount.py:16-17 | Every output token is the cleaned form of some input token that is not whitespace-only. |
| Cleaner.Sweep | SO-TI-07/pwordcount.py:18-20 | The removal pass from a cursor position only ever deletes: the result is no longer than the list and its multiset is included in the list's. |
| Cleaner.Cleaned | SO-TI-07/pwordcount.py:14-21 | `special_cleaner`'s result: no more tokens than the input, drawn from the prepared tokens, with every non-`''`/`'-'` prepared token kept in order. |
| Cleaner.RemoveFirst | SO-TI-07/pwordcount.py:20 | `list.remove(x)` removes exactly one occurrence of `x`: length minus one, multiset minus `{x}`. |
| Cleaner.SpecialCleaner | SO-TI-07/pwordcount.py:14-21 | The cleaning loop as written returns the prepared tokens minus some `''`/`'-'` tokens. All other tokens survive in order, and nothing is added. |
| Cleaner.SweepKeeps | SO-TI-07/pwordcount.py:18-20 | From any cursor position, the removal pass keeps the non-junk tokens in order and only ever deletes. |
| Cleaner.RemoveTakesEarlierDuplicate | SO-TI-07/pwordcount.py:18-20 | On `["", "", "x", ""]` the loop leaves `["x", ""]`: the second `remove("")` deletes the skipped `""` at index 0, not the one under the cursor. |
| Cleaner.RemoveAtCursor | SO-TI-07/pwordcount.py:19-20 | When no junk precedes the cursor, `remove` deletes exactly the token under the cursor. |
| Cleaner.SweepCleansSeparatedJunk | SO-TI-07/pwordcount.py:18-20 | If no two junk tokens are adjacent from the cursor on, and none precede it, the pass leaves no `''`/`'-'`. |
| Cleaner.CleanedJunkFree | SO-TI-07/pwordcount.py:14-21 | `special_cleaner` output is free of `''`/`'-'` whenever the prepared tokens hold no two adjacent ones. |
| Cleaner.AdjacentJunkSurvives | SO-TI-07/pwordcount.py:18-20 | Removing during iteration skips a token: the input `["!", "?"]` cleans to `[""]`, not `[]`. |
| WordCount.FileDivider | SO-TI-07/pwordcount.py:30-33 | The worker's part of a file is drawn from the file's cleaned tokens (multiset inclusion) and is no longer than them. |
| WordCount.WholeFileSlice | SO-TI-07/pwordcount.py:30-33 | `file_divider` with `n = 1` yields the whole cleaned file. |
| WordCount.FileReport | SO-TI-07/pwordcount.py:38-57 | Part `k` of `n` reports lines `int((k-1)*L/n)` to `int(k*L/n)` of a file of `L` lines; the range is ordered and lies within the file. |
| WordCount.ReportsAdjacent | SO-TI-07/pwordcount.py:38-57 | Part 1 reports from line 0, part `n` up to the last line, and each part's range ends where the next part's begins. |
| WordCount.ProcessFile | SO-TI-07/pwordcount.py:113-119 | There is a result exactly for modes `t`, `u` and `o`, with one report per file, in range. The outcome kind is total, unique or occurrences exactly when the mode is `t`, `u` or `o`. |
| WordCount.ModesAgree | SO-TI-07/pwordcount.py:35-57 | On the same slice `w`, mode `t` reports `len(w)` and mode `u` reports `len(set(w))`. In mode `o`, the dictionary's keys are `set(w)`, each count is the word's number of occurrences in `w`, and the counts sum to the total. |
| WordCount.Plan | SO-TI-07/pwordcount.py:74-93 | Every work unit names a non-empty range of existing files and a part number in `1..n`. |
| WordCount.PlanShape | SO-TI-07/pwordcount.py:74-93 | With `parallel > 1` and one file, there are `parallel` units over that file, with `n = parallel` and parts `1..parallel`. Otherwise there are `min(parallel, F)` units over whole files. No unit at all exactly when `parallel <= 0` or there are no files. |
| WordCount.Worker | SO-TI-07/pwordcount.py:66-72 | The nested `worker` calls `process_file` on `input_files[start:end]`. It has a result exactly for modes `t`, `u` and `o`, with one report per file of its range, each within that file's line count. |
| WordCount.BlockUnit | SO-TI-07/pwordcount.py:88-93 | The unit of block `i` is a valid unit: a non-empty range of existing files, with `n = 1` and part 1. |
| WordCount.Diveconquer | SO-TI-07/pwordcount.py:62-96 | The parent's loops fork exactly the units of `Plan`, in order. Child `i`'s result is `process_file` over its files and part. |
| WordCount.ForkPerPart | SO-TI-07/pwordcount.py:74-83 | The single-file loop forks `parallel` children, child `i` taking part `i` of `parallel`, matching `Plan`. |
| WordCount.ForkPerBlock | SO-TI-07/pwordcount.py:85-96 | The file-list loop computes `start_idx`/`end_idx` for each child, and the resulting units are exactly the blocks of `Plan`. |
| WordCount.SplitBranchCovers | SO-TI-07/pwordcount.py:74-80 | In the single-file branch, the children's slices concatenate to the file's cleaned tokens. |
| WordCount.BlockBranchCovers | SO-TI-07/pwordcount.py:86-93 | In the file-list branch, the blocks' tokens concatenate to every file's cleaned tokens. |
| WordCount.PlanCovers | SO-TI-07/pwordcount.py:62-96 | For `parallel >= 1`, the tokens seen by the children, unit after unit, are exactly all cleaned tokens of all files, in order, with no gap or overlap. |

## Left out

- Process machinery is not modelled. This covers `os.fork`, `os.wait`, `os._exit`, the signal handlers and `init_worker`. Because the parent waits for each child before forking the next, the children run one after another, and `Diveconquer` runs each child's work in sequence.
- File I/O is not modelled: `open`, `read`, `split` and `count_lines`. A file is given as its list of tokens and its line count (`InputFile`).
- Console output is not modelled: all `print` calls and message formatting, including the worker's "Process … is working on …" line. Each report is returned as a `Report` value instead.
- `parse_arguments` and `main` are not modelled. `-m` and `-p` become the `mode` and `parallel` parameters, and `-i` and `-l` are never used by the source.
- Full Unicode semantics are not modelled. `Lower` lower-cases only ASCII `A`–`Z`. `str.strip`'s whitespace set is written out, but `split` is taken as given.
- SliceBound: Python computes `int(k*T/n)` in floating point. The model uses exact floor division on non-negative integers, so it does not capture rounding for counts large enough to lose float precision.
- There is no result aggregation, progress reporting, periodic interval or cancellation: the program has no code for them.
- PlanCovers: stated for `parallel >= 1`. For `parallel <= 0` the plan is empty and no token is counted (`PlanShape`).
