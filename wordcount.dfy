/** The deterministic core of pwordcount: file_divider hands a worker its
    slice of a file's cleaned tokens, process_file dispatches on the mode,
    and diveconquer chooses between splitting one file by token position and
    splitting the file list into blocks, one work unit per child process. */
module WordCount {
  import opened Partition
  import opened Cleaner
  import opened Analysis

  /** An input file as the core sees it: the tokens file.read().split()
      yields, and the line count count_lines reports. */
  datatype InputFile = InputFile(tokens: seq<string>, lineCount: nat)

  /** The arguments one child process passes to process_file: the files
      input_files[start:end], split into n parts of which it takes part
      nNow. */
  datatype WorkUnit = WorkUnit(start: nat, end: nat, n: nat, nNow: nat)

  /** The mode-dependent result for one file's slice. */
  datatype Outcome =
    | Total(count: nat)
    | Unique(count: nat)
    | Occurrences(histogram: map<string, nat>)

  /** One report line: the line range named in the message and the result. */
  datatype Report = Report(fromLine: nat, toLine: nat, outcome: Outcome)

  datatype Option<T> = None | Some(value: T)

  /** A unit a child can run: a non-empty range of files and a part number
      within 1..n. */
  predicate ValidUnit(u: WorkUnit, numFiles: nat)
  {
    u.start < u.end <= numFiles && 1 <= u.nNow <= u.n
  }

  /** file_divider: part nNow of n of the file's cleaned tokens. */
  function FileDivider(file: InputFile, n: nat, nNow: nat): (r: seq<string>)
    requires 1 <= nNow <= n
    ensures |r| <= |Cleaned(file.tokens)|
    ensures multiset(r) <= multiset(Cleaned(file.tokens))
  {
    Slice(Cleaned(file.tokens), n, nNow)
  }

  /** With n = 1 a worker sees the whole cleaned file. */
  lemma WholeFileSlice(file: InputFile)
    ensures FileDivider(file, 1, 1) == Cleaned(file.tokens)
  {
    SliceWhole(Cleaned(file.tokens));
  }

  /** The report one file yields in mode "t", "u" or "o". */
  function FileReport(file: InputFile, mode: string, n: nat, nNow: nat): (r: Report)
    requires 1 <= nNow <= n
    ensures r.fromLine == SliceBound(file.lineCount, n, nNow - 1)
    ensures r.toLine == SliceBound(file.lineCount, n, nNow)
    ensures r.fromLine <= r.toLine <= file.lineCount
  {
    SliceBoundMonotone(file.lineCount, n, nNow - 1, nNow);
    var words := FileDivider(file, n, nNow);
    var outcome :=
      if mode == "t" then Total(|words|)
      else if mode == "u" then Unique(|Distinct(words)|)
      else Occurrences(Histogram(words));
    Report(SliceBound(file.lineCount, n, nNow - 1), SliceBound(file.lineCount, n, nNow), outcome)
  }

  /** The parts of one file report adjacent line ranges: part 1 starts at
      line 0, part k + 1 starts where part k ends, and part n ends at the
      line count. */
  lemma ReportsAdjacent(file: InputFile, mode: string, n: nat, k: nat)
    requires 1 <= k <= n
    ensures k == 1 ==> FileReport(file, mode, n, k).fromLine == 0
    ensures k == n ==> FileReport(file, mode, n, k).toLine == file.lineCount
    ensures k < n ==> FileReport(file, mode, n, k).toLine == FileReport(file, mode, n, k + 1).fromLine
  {
  }

  /** process_file: mode "t" runs word_counter, "u" unique_word_counter and
      "o" occurence_counter, each over every file given; any other mode does
      nothing. */
  function ProcessFile(files: seq<InputFile>, mode: string, n: nat, nNow: nat): (r: Option<seq<Report>>)
    requires 1 <= nNow <= n
    ensures r.Some? <==> mode == "t" || mode == "u" || mode == "o"
    ensures r.Some? ==> |r.value| == |files|
    ensures r.Some? ==> forall i :: 0 <= i < |files| ==>
      r.value[i].fromLine <= r.value[i].toLine <= files[i].lineCount &&
      (r.value[i].outcome.Total? <==> mode == "t") &&
      (r.value[i].outcome.Unique? <==> mode == "u") &&
      (r.value[i].outcome.Occurrences? <==> mode == "o")
  {
    if mode == "t" || mode == "u" || mode == "o" then
      Some(seq(|files|, i requires 0 <= i < |files| => FileReport(files[i], mode, n, nNow)))
    else
      None
  }

  /** The three modes agree on one slice: the occurrence counts add up to
      the total, the histogram has as many keys as the distinct count, and
      the distinct count is at most the total. */
  lemma ModesAgree(files: seq<InputFile>, n: nat, nNow: nat, i: nat)
    requires 1 <= nNow <= n && i < |files|
    ensures var w := FileDivider(files[i], n, nNow);
            var t := ProcessFile(files, "t", n, nNow).value[i].outcome.count;
            var u := ProcessFile(files, "u", n, nNow).value[i].outcome.count;
            var h := ProcessFile(files, "o", n, nNow).value[i].outcome.histogram;
            t == |w| && u == |Distinct(w)| &&
            h.Keys == Distinct(w) && (forall x :: x in h ==> h[x] == multiset(w)[x]) &&
            SumCounts(h) == t && |h.Keys| == u && u <= t
  {
    var words := FileDivider(files[i], n, nNow);
    HistogramCounts(words);
    HistogramTotal(words);
    DistinctIsHistogramSize(words);
  }

  // ---------------------------------------------------------------------
  // diveconquer
  // ---------------------------------------------------------------------

  /** The work units diveconquer hands to its children, in order. */
  function Plan(numFiles: nat, parallel: int): (units: seq<WorkUnit>)
    ensures forall u :: u in units ==> ValidUnit(u, numFiles)
  {
    if parallel > 1 && numFiles == 1 then
      seq(parallel, i requires 0 <= i < parallel => WorkUnit(0, 1, parallel, i + 1))
    else
      var p := BlockCount(numFiles, parallel);
      if p <= 0 then []
      else seq(p, i requires 0 <= i < p => BlockUnit(numFiles, p, i))
  }

  /** The unit of block i of p: whole files, from BlockStart to BlockEnd. */
  function BlockUnit(numFiles: nat, p: nat, i: nat): (u: WorkUnit)
    requires 1 <= p <= numFiles && i < p
    ensures ValidUnit(u, numFiles)
  {
    BlockBounds(numFiles, p, i);
    WorkUnit(BlockStart(numFiles, p, i), BlockEnd(numFiles, p, i), 1, 1)
  }

  /** The branch choice: with several processes and a single file, one unit
      per process, each over that file with n = parallel and part numbers
      1..parallel; otherwise min(parallel, F) units, each over whole files
      (n = 1, part 1). In particular parallel <= 0, the default 0 included,
      or an empty file list yields no unit at all. */
  lemma PlanShape(numFiles: nat, parallel: int)
    ensures var units := Plan(numFiles, parallel);
      (parallel > 1 && numFiles == 1 ==>
        |units| == parallel &&
        forall i :: 0 <= i < |units| ==>
          units[i].start == 0 && units[i].end == 1 && units[i].n == parallel && units[i].nNow == i + 1) &&
      (!(parallel > 1 && numFiles == 1) ==>
        |units| == (if BlockCount(numFiles, parallel) <= 0 then 0 else BlockCount(numFiles, parallel)) &&
        forall u :: u in units ==> u.n == 1 && u.nNow == 1) &&
      (units == [] <==> parallel <= 0 || numFiles == 0)
  {
  }

  lemma PlanLength(numFiles: nat, parallel: int)
    ensures parallel > 1 && numFiles == 1 ==> |Plan(numFiles, parallel)| == parallel
    ensures !(parallel > 1 && numFiles == 1) ==>
      |Plan(numFiles, parallel)| == if BlockCount(numFiles, parallel) <= 0 then 0 else BlockCount(numFiles, parallel)
  {
  }

  lemma PlanSplitAt(numFiles: nat, parallel: int, i: nat)
    requires parallel > 1 && numFiles == 1 && i < parallel
    ensures |Plan(numFiles, parallel)| == parallel
    ensures Plan(numFiles, parallel)[i] == WorkUnit(0, 1, parallel, i + 1)
  {
  }

  lemma PlanBlockAt(numFiles: nat, parallel: int, i: nat)
    requires !(parallel > 1 && numFiles == 1) && i < BlockCount(numFiles, parallel)
    ensures var p := BlockCount(numFiles, parallel);
            p >= 1 && |Plan(numFiles, parallel)| == p &&
            Plan(numFiles, parallel)[i] == WorkUnit(i * (numFiles / p), if i < p - 1 then (i + 1) * (numFiles / p) else numFiles, 1, 1)
  {
  }

  /** The child that runs unit u: process_file over input_files[start:end]. */
  function Worker(files: seq<InputFile>, mode: string, u: WorkUnit): (r: Option<seq<Report>>)
    requires ValidUnit(u, |files|)
    ensures r.Some? <==> mode == "t" || mode == "u" || mode == "o"
    ensures r.Some? ==> |r.value| == u.end - u.start
    ensures r.Some? ==> forall j :: 0 <= j < |r.value| ==> r.value[j].toLine <= files[u.start + j].lineCount
  {
    ProcessFile(files[u.start..u.end], mode, u.n, u.nNow)
  }

  /** diveconquer, with the fork-and-wait of each child replaced by running
      the child's work in place: the parent waits for every child before
      forking the next, so the children run one after another. */
  method Diveconquer(inputFiles: seq<InputFile>, mode: string, parallel: int)
    returns (units: seq<WorkUnit>, results: seq<Option<seq<Report>>>)
    ensures units == Plan(|inputFiles|, parallel)
    ensures |results| == |units|
    ensures forall i :: 0 <= i < |units| ==> results[i] == Worker(inputFiles, mode, units[i])
  {
    var numFiles := |inputFiles|;
    if parallel > 1 && numFiles == 1 {
      units, results := ForkPerPart(inputFiles, mode, parallel);
    } else {
      units, results := ForkPerBlock(inputFiles, mode, parallel);
    }
  }

  /** The single-file branch of diveconquer: child i of parallel runs
      process_file on the one file with n = parallel and part i. */
  method ForkPerPart(inputFiles: seq<InputFile>, mode: string, parallel: int)
    returns (units: seq<WorkUnit>, results: seq<Option<seq<Report>>>)
    requires parallel > 1 && |inputFiles| == 1
    ensures units == Plan(|inputFiles|, parallel)
    ensures |results| == |units|
    ensures forall i :: 0 <= i < |units| ==> results[i] == Worker(inputFiles, mode, units[i])
  {
    var numFiles := |inputFiles|;
    var numProcesses := parallel;
    ghost var plan := Plan(numFiles, parallel);
    PlanLength(numFiles, parallel);
    units, results := [], [];
    var i := 1;
    while i < numProcesses + 1
      invariant 1 <= i <= numProcesses + 1 == |plan| + 1
      invariant units == plan[..i - 1]
      invariant |results| == |units|
      invariant forall j :: 0 <= j < |units| ==> ValidUnit(units[j], numFiles)
      invariant forall j :: 0 <= j < |units| ==> results[j] == Worker(inputFiles, mode, units[j])
    {
      var unit := WorkUnit(0, 1, numProcesses, i);
      PlanSplitAt(numFiles, parallel, i - 1);
      units := units + [unit];
      results := results + [Worker(inputFiles, mode, unit)];
      i := i + 1;
    }
    assert plan[..numProcesses] == plan;
  }

  /** The file-list branch of diveconquer: min(parallel, F) children, child
      i running process_file on block i of the files with n = 1, part 1. */
  method ForkPerBlock(inputFiles: seq<InputFile>, mode: string, parallel: int)
    returns (units: seq<WorkUnit>, results: seq<Option<seq<Report>>>)
    requires !(parallel > 1 && |inputFiles| == 1)
    ensures units == Plan(|inputFiles|, parallel)
    ensures |results| == |units|
    ensures forall i :: 0 <= i < |units| ==> results[i] == Worker(inputFiles, mode, units[i])
  {
    var numFiles := |inputFiles|;
    var numProcesses := BlockCount(numFiles, parallel);
    ghost var plan := Plan(numFiles, parallel);
    PlanLength(numFiles, parallel);
    units, results := [], [];
    var i := 0;
    while i < numProcesses
      invariant 0 <= i <= |plan|
      invariant numProcesses >= 1 ==> |plan| == numProcesses
      invariant numProcesses < 1 ==> plan == []
      invariant units == plan[..i]
      invariant |results| == |units|
      invariant forall j :: 0 <= j < |units| ==> ValidUnit(units[j], numFiles)
      invariant forall j :: 0 <= j < |units| ==> results[j] == Worker(inputFiles, mode, units[j])
    {
      var startIdx := i * (numFiles / numProcesses);
      var endIdx := if i < numProcesses - 1 then (i + 1) * (numFiles / numProcesses) else numFiles;
      var unit := WorkUnit(startIdx, endIdx, 1, 1);
      PlanBlockAt(numFiles, parallel, i);
      assert unit == plan[i];
      assert plan[i] in plan;
      units := units + [unit];
      results := results + [Worker(inputFiles, mode, unit)];
      i := i + 1;
    }
    assert plan[..i] == plan;
  }

  // ---------------------------------------------------------------------
  // Coverage: the units together see every cleaned token exactly once
  // ---------------------------------------------------------------------

  /** The cleaned tokens of every input file, file after file. */
  function AllWords(files: seq<InputFile>): seq<string>
  {
    Flatten(CleanedFiles(files))
  }

  function CleanedFiles(files: seq<InputFile>): (r: seq<seq<string>>)
    ensures |r| == |files|
    ensures forall i {:trigger Cleaned(files[i].tokens)} :: 0 <= i < |files| ==> r[i] == Cleaned(files[i].tokens)
  {
    seq(|files|, i requires 0 <= i < |files| => Cleaned(files[i].tokens))
  }

  /** What one unit's child reads, file by file. */
  function UnitParts(files: seq<InputFile>, u: WorkUnit): (r: seq<seq<string>>)
    requires ValidUnit(u, |files|)
    ensures |r| == u.end - u.start
    ensures forall j {:trigger r[j]} :: 0 <= j < |r| ==> r[j] == FileDivider(files[u.start + j], u.n, u.nNow)
  {
    seq(u.end - u.start, j requires 0 <= j < u.end - u.start => FileDivider(files[u.start + j], u.n, u.nNow))
  }

  /** The tokens one unit's child counts, file after file. */
  function UnitWords(files: seq<InputFile>, u: WorkUnit): seq<string>
    requires ValidUnit(u, |files|)
  {
    Flatten(UnitParts(files, u))
  }

  /** What the children count, unit by unit. */
  function PlanParts(files: seq<InputFile>, units: seq<WorkUnit>): (r: seq<seq<string>>)
    requires forall u :: u in units ==> ValidUnit(u, |files|)
    ensures |r| == |units|
    ensures forall i :: 0 <= i < |units| ==> r[i] == UnitWords(files, units[i])
  {
    seq(|units|, i requires 0 <= i < |units| => UnitWords(files, units[i]))
  }

  /** The tokens all units' children count, unit after unit. */
  function PlanWords(files: seq<InputFile>, units: seq<WorkUnit>): seq<string>
    requires forall u :: u in units ==> ValidUnit(u, |files|)
  {
    Flatten(PlanParts(files, units))
  }

  /** A unit over one file and part k of n counts exactly that slice. */
  lemma SingleFileUnit(files: seq<InputFile>, u: WorkUnit)
    requires ValidUnit(u, |files|) && u.start == 0 && u.end == 1
    ensures UnitWords(files, u) == Slice(Cleaned(files[0].tokens), u.n, u.nNow)
  {
    var part := FileDivider(files[0], u.n, u.nNow);
    assert UnitParts(files, u) == [part];
    FlattenSingle(part);
  }

  /** In the single-file branch the children's slices, in order, give back
      the file's cleaned tokens. */
  lemma SplitBranchCovers(files: seq<InputFile>, parallel: int)
    requires parallel > 1 && |files| == 1
    ensures PlanWords(files, Plan(|files|, parallel)) == AllWords(files)
  {
    var words := Cleaned(files[0].tokens);
    SplitParts(files, parallel);
    SlicesTile(words, parallel);
    assert CleanedFiles(files) == [words];
    FlattenSingle(words);
  }

  /** In the single-file branch, child k counts slice k. */
  lemma SplitParts(files: seq<InputFile>, parallel: int)
    requires parallel > 1 && |files| == 1
    ensures PlanParts(files, Plan(|files|, parallel)) == Slices(Cleaned(files[0].tokens), parallel, parallel)
  {
    var units := Plan(|files|, parallel);
    var words := Cleaned(files[0].tokens);
    var parts := PlanParts(files, units);
    var slices := Slices(words, parallel, parallel);
    PlanSplitAt(|files|, parallel, 0);
    forall i | 0 <= i < |units|
      ensures parts[i] == slices[i]
    {
      PlanSplitAt(|files|, parallel, i);
      SingleFileUnit(files, units[i]);
    }
  }

  /** A unit over whole files counts exactly the cleaned tokens of those
      files. */
  lemma WholeFilesUnit(files: seq<InputFile>, u: WorkUnit)
    requires ValidUnit(u, |files|) && u.n == 1 && u.nNow == 1
    ensures UnitWords(files, u) == Flatten(CleanedFiles(files)[u.start..u.end])
  {
    WholeFilesParts(files, u);
  }

  /** With n = 1, a unit's per-file token lists are the cleaned files of
      its range. */
  lemma WholeFilesParts(files: seq<InputFile>, u: WorkUnit)
    requires ValidUnit(u, |files|) && u.n == 1 && u.nNow == 1
    ensures UnitParts(files, u) == CleanedFiles(files)[u.start..u.end]
  {
    WholeFilesAgree(files, u);
    SameElements(UnitParts(files, u), CleanedFiles(files)[u.start..u.end]);
  }

  /** The same, file by file. */
  lemma WholeFilesAgree(files: seq<InputFile>, u: WorkUnit)
    requires ValidUnit(u, |files|) && u.n == 1 && u.nNow == 1
    ensures |UnitParts(files, u)| == |CleanedFiles(files)[u.start..u.end]|
    ensures forall j :: 0 <= j < |UnitParts(files, u)| ==>
      UnitParts(files, u)[j] == CleanedFiles(files)[u.start..u.end][j]
  {
    forall j | 0 <= j < |UnitParts(files, u)|
      ensures UnitParts(files, u)[j] == CleanedFiles(files)[u.start..u.end][j]
    {
      WholeFileInWindow(files, u, j);
    }
  }

  /** Two lists that agree element by element are equal. */
  lemma SameElements<T>(a: seq<T>, b: seq<T>)
    requires |a| == |b|
    requires forall j :: 0 <= j < |a| ==> a[j] == b[j]
    ensures a == b
  {
  }

  /** File j of a whole-file unit, against the window of cleaned files. */
  lemma WholeFileInWindow(files: seq<InputFile>, u: WorkUnit, j: nat)
    requires ValidUnit(u, |files|) && u.n == 1 && u.nNow == 1 && j < u.end - u.start
    ensures UnitParts(files, u)[j] == CleanedFiles(files)[u.start..u.end][j]
  {
    WholeFileAt(files, u, j);
    WindowIndex(CleanedFiles(files), u.start, u.end, j);
  }

  /** Element j of a window is element lo + j of the list. */
  lemma WindowIndex<T>(s: seq<T>, lo: nat, hi: nat, j: nat)
    requires lo <= hi <= |s| && j < hi - lo
    ensures s[lo..hi][j] == s[lo + j]
  {
  }

  /** File j of a whole-file unit yields that file's cleaned tokens. */
  lemma WholeFileAt(files: seq<InputFile>, u: WorkUnit, j: nat)
    requires ValidUnit(u, |files|) && u.n == 1 && u.nNow == 1 && j < u.end - u.start
    ensures UnitParts(files, u)[j] == CleanedFiles(files)[u.start + j]
  {
    var file := files[u.start + j];
    UnitPartAt(files, u, j);
    CleanedFileAt(files, u.start + j);
    WholeFileSlice(file);
  }

  /** What a whole-file unit reads from its j-th file. */
  lemma UnitPartAt(files: seq<InputFile>, u: WorkUnit, j: nat)
    requires ValidUnit(u, |files|) && u.n == 1 && u.nNow == 1 && j < u.end - u.start
    ensures UnitParts(files, u)[j] == FileDivider(files[u.start + j], 1, 1)
  {
  }

  /** Entry i of the cleaned files. */
  lemma CleanedFileAt(files: seq<InputFile>, i: nat)
    requires i < |files|
    ensures CleanedFiles(files)[i] == Cleaned(files[i].tokens)
  {
  }

  /** Block i of the file-list branch counts exactly the cleaned tokens of
      the files in that block. */
  lemma BlockUnitWords(files: seq<InputFile>, p: nat, i: nat)
    requires 1 <= p <= |files| && i < p
    ensures var f := |files|;
            BlockStart(f, p, i) < BlockEnd(f, p, i) <= f &&
            |Plan(f, p)| == p &&
            UnitWords(files, Plan(f, p)[i]) == Flatten(CleanedFiles(files)[BlockStart(f, p, i)..BlockEnd(f, p, i)])
  {
    var f := |files|;
    BlockBounds(f, p, i);
    assert BlockCount(f, p) == p;
    assert !(p > 1 && f == 1);
    PlanBlockAt(f, p, i);
    WholeFilesUnit(files, Plan(f, p)[i]);
  }

  /** In the file-list branch the blocks, in order, give back every file's
      cleaned tokens. */
  lemma BlockBranchCovers(files: seq<InputFile>, parallel: int)
    requires parallel >= 1 && !(parallel > 1 && |files| == 1)
    ensures PlanWords(files, Plan(|files|, parallel)) == AllWords(files)
  {
    var f := |files|;
    if f == 0 {
      assert Plan(f, parallel) == [];
      assert CleanedFiles(files) == [];
    } else {
      var p := BlockCount(f, parallel);
      assert Plan(f, parallel) == Plan(f, p);
      BlocksCover(files, p);
    }
  }

  /** With p blocks, the blocks' tokens, in order, are all the files'
      cleaned tokens. */
  lemma BlocksCover(files: seq<InputFile>, p: nat)
    requires 1 <= p <= |files|
    ensures PlanWords(files, Plan(|files|, p)) == AllWords(files)
  {
    BlockCutsSpec(|files|, p);
    BlockParts(files, p);
    FlattenCuts(CleanedFiles(files), PlanParts(files, Plan(|files|, p)), BlockCuts(|files|, p));
  }

  /** Block i's tokens are the cleaned files between cut points i and
      i + 1. */
  lemma BlockParts(files: seq<InputFile>, p: nat)
    requires 1 <= p <= |files|
    ensures var parts := PlanParts(files, Plan(|files|, p));
            var cuts := BlockCuts(|files|, p);
            |parts| == p &&
            forall i :: 0 <= i < p ==> parts[i] == Flatten(CleanedFiles(files)[cuts[i]..cuts[i + 1]])
  {
    var f := |files|;
    var parts := PlanParts(files, Plan(f, p));
    var cuts := BlockCuts(f, p);
    BlockCutsSpec(f, p);
    BlockUnitWords(files, p, 0);
    forall i | 0 <= i < p
      ensures parts[i] == Flatten(CleanedFiles(files)[cuts[i]..cuts[i + 1]])
    {
      BlockUnitWords(files, p, i);
    }
  }

  /** Every cleaned token of every input file is counted by exactly one
      child, and the children's tokens, unit after unit, are the input's
      tokens file after file: no gap, no overlap, no reordering. */
  lemma PlanCovers(files: seq<InputFile>, parallel: int)
    requires parallel >= 1
    ensures PlanWords(files, Plan(|files|, parallel)) == AllWords(files)
  {
    if parallel > 1 && |files| == 1 {
      SplitBranchCovers(files, parallel);
    } else {
      BlockBranchCovers(files, parallel);
    }
  }
}
