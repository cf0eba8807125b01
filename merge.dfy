/**
 * The file-merge step: the files of an input folder, in listing order, are cut
 * into groups of `merge_count` and each group is copied into one output file
 * named by its index. Only which input files go into which output, and in what
 * order, is modelled; the bytes are not.
 */
module Merge {
  import opened Wrappers
  import opened PyStr

  /** One merged output: its file name and the input files copied into it, in order. */
  datatype Output = Output(name: string, inputs: seq<string>)

  datatype Merged = Merged(outputs: seq<Output>, processed: nat)

  /** All input files copied, output by output. */
  function Copied(outputs: seq<Output>): seq<string>
  {
    if outputs == [] then [] else Copied(outputs[..|outputs| - 1]) + outputs[|outputs| - 1].inputs
  }

  /** int(math.ceil(total_files / merge_count)), with Python's ZeroDivisionError for 0. */
  function TotalMerges(totalFiles: nat, mergeCount: int): (r: Result<int>)
    ensures r.Err? <==> mergeCount == 0
    ensures mergeCount < 0 ==> r.Ok? && r.value <= 0
    ensures mergeCount > 0 ==> r.Ok? && r.value >= 0 && (r.value - 1) * mergeCount < totalFiles <= r.value * mergeCount
  {
    if mergeCount == 0 then Err(ZeroDivision)
    else if mergeCount > 0 then
      CeilDiv(totalFiles, mergeCount);
      Ok((totalFiles + mergeCount - 1) / mergeCount)
    else Ok(-(totalFiles / -mergeCount))
  }

  lemma CeilDiv(n: nat, m: nat)
    requires m > 0
    ensures var t := (n + m - 1) / m; t >= 0 && (t - 1) * m < n <= t * m
  {
    var t := (n + m - 1) / m;
    var r := (n + m - 1) % m;
    assert t * m + r == n + m - 1;
    assert (t - 1) * m == t * m - m;
  }

  /** Python's xs[lo:hi] for 0 <= lo: the bounds are clamped to the list. */
  function Slice<T>(xs: seq<T>, lo: nat, hi: int): (r: seq<T>)
    ensures |r| <= |xs|
  {
    var h := if hi < |xs| then hi else |xs|;
    if lo < h then xs[lo..h] else []
  }

  /** onlyfiles[i * m : (i + 1) * m]: the files output `i` receives. */
  function Group<T>(xs: seq<T>, m: nat, i: nat): seq<T> {
    Slice(xs, i * m, (i + 1) * m)
  }

  /** The first `k` outputs: output `i` is named str(i) and receives group `i`. */
  function Plan(files: seq<string>, m: nat, k: nat): seq<Output>
  {
    seq(k, i requires 0 <= i < k => Output(NatToString(i), Group(files, m, i)))
  }

  /** Every output of the script, for a positive merge count. */
  function MergePlan(files: seq<string>, m: nat): seq<Output>
    requires m > 0
  {
    Plan(files, m, (|files| + m - 1) / m)
  }

  /**
   * The merging loop: output `merge_idx` receives
   * onlyfiles[merge_idx * merge_count : (merge_idx + 1) * merge_count], and each
   * copied file adds one to the processed count.
   */
  method MergeFiles(onlyfiles: seq<string>, mergeCount: int) returns (r: Result<Merged>)
    ensures r.Err? <==> mergeCount == 0
    ensures mergeCount < 0 ==> r == Ok(Merged([], 0))
    ensures mergeCount > 0 ==> r == Ok(Merged(MergePlan(onlyfiles, mergeCount), |onlyfiles|))
  {
    var totalFilesProcessed: nat := 0;
    var totalFiles := |onlyfiles|;
    var totalMerges :- TotalMerges(totalFiles, mergeCount);
    var outputs: seq<Output> := [];
    var mergeIdx := 0;
    var start := 0;
    while mergeIdx < totalMerges
      invariant mergeCount > 0 || mergeIdx == 0
      invariant 0 <= mergeIdx && start == mergeIdx * mergeCount
      invariant mergeCount > 0 ==> mergeIdx <= totalMerges && outputs == Plan(onlyfiles, mergeCount, mergeIdx)
      invariant mergeCount < 0 ==> outputs == []
      invariant mergeIdx < totalMerges ==> start < totalFiles
      invariant totalFilesProcessed == if start < totalFiles then start else totalFiles
    {
      var stop := if start + mergeCount < totalFiles then start + mergeCount else totalFiles;
      var filesToBeMerged := onlyfiles[start..stop];
      var merged;
      merged, totalFilesProcessed := CopyGroup(filesToBeMerged, totalFilesProcessed);
      AdvancePlan(onlyfiles, mergeCount, mergeIdx, totalMerges, start);
      outputs := outputs + [Output(NatToString(mergeIdx), merged)];
      mergeIdx := mergeIdx + 1;
      start := start + mergeCount;
    }
    if mergeCount > 0 {
      FinishPlan(onlyfiles, mergeCount, mergeIdx, start);
    }
    r := Ok(Merged(outputs, totalFilesProcessed));
  }

  /** The inner loop: each file of the group is copied, in order, and counted. */
  method CopyGroup(group: seq<string>, processed: nat) returns (merged: seq<string>, count: nat)
    ensures merged == group && count == processed + |group|
  {
    merged, count := [], processed;
    for k := 0 to |group|
      invariant merged == group[..k]
      invariant count == processed + k
    {
      merged := merged + [group[k]];
      count := count + 1;
    }
  }

  /** One round of the merging loop keeps its account of outputs and position. */
  lemma AdvancePlan(files: seq<string>, m: int, idx: nat, total: int, start: nat)
    requires m > 0 && idx < total && TotalMerges(|files|, m) == Ok(total)
    requires start == idx * m
    ensures start < |files|
    ensures Plan(files, m, idx + 1) ==
      Plan(files, m, idx) + [Output(NatToString(idx), files[start..if start + m < |files| then start + m else |files|])]
    ensures start + m == (idx + 1) * m
    ensures idx + 1 < total ==> start + m < |files|
  {
    MoreMerges(|files|, m, idx, total);
    PlanStep(files, m, idx, start);
    NextStart(idx, m);
    if idx + 1 < total {
      MoreMerges(|files|, m, idx + 1, total);
    }
  }

  /** The next output of the plan is the next slice of at most m files. */
  lemma PlanStep(files: seq<string>, m: int, k: nat, start: nat)
    requires 0 < m && start == k * m && start < |files|
    ensures Plan(files, m, k + 1) ==
      Plan(files, m, k) + [Output(NatToString(k), files[start..if start + m < |files| then start + m else |files|])]
  {
    NextStart(k, m);
    PlanSnoc(files, m, k);
  }

  lemma PlanSnoc(files: seq<string>, m: nat, k: nat)
    ensures Plan(files, m, k + 1) == Plan(files, m, k) + [Output(NatToString(k), Group(files, m, k))]
  {
    assert Plan(files, m, k + 1)[..k] == Plan(files, m, k);
  }

  lemma NextStart(idx: int, m: int)
    ensures (idx + 1) * m == idx * m + m
  {
  }

  /** Before the last merge, the next group starts inside the file list. */
  lemma MoreMerges(n: nat, m: int, idx: int, total: int)
    requires m > 0 && 0 <= idx < total && TotalMerges(n, m) == Ok(total)
    ensures idx * m < n
  {
    assert (total - 1) * m < n;
    assert idx * m <= (total - 1) * m;
  }

  /** After the last merge every file has been reached, and the plan is complete. */
  lemma FinishPlan(files: seq<string>, m: int, idx: int, start: int)
    requires m > 0 && TotalMerges(|files|, m) == Ok(idx) && start == idx * m
    ensures start >= |files| && Plan(files, m, idx) == MergePlan(files, m)
  {
  }

  // ---------------------------------------------------------------------------
  // What the merge plan promises

  /**
   * ceil(n / m) outputs named "0", "1", ...; each gets between 1 and m files, all
   * but the last exactly m; put together in index order they are the input
   * files, each exactly once.
   */
  lemma MergePlanLaws(files: seq<string>, m: nat)
    requires m > 0
    ensures var outputs := MergePlan(files, m);
      && |outputs| == (|files| + m - 1) / m
      && Copied(outputs) == files
      && (forall i :: 0 <= i < |outputs| ==> outputs[i].name == NatToString(i))
      && (forall i :: 0 <= i < |outputs| ==> 0 < |outputs[i].inputs| <= m)
      && (forall i :: 0 <= i < |outputs| - 1 ==> |outputs[i].inputs| == m)
      && (forall i, j :: 0 <= i < j < |outputs| ==> outputs[i].name != outputs[j].name)
  {
    var total := (|files| + m - 1) / m;
    CeilDiv(|files|, m);
    var outputs := MergePlan(files, m);
    PlanCopied(files, m, total);
    forall i | 0 <= i < total
      ensures 0 < |outputs[i].inputs| <= m
      ensures i < total - 1 ==> |outputs[i].inputs| == m
    {
      GroupSize(files, m, i, total);
    }
    forall i, j | 0 <= i < j < total
      ensures outputs[i].name != outputs[j].name
    {
      NatToStringInjective(i, j);
    }
  }

  /** The first k outputs hold the files up to k * m (or all of them). */
  lemma {:induction false} PlanCopied(files: seq<string>, m: nat, k: nat)
    requires m > 0 && (k == 0 || (k - 1) * m < |files|)
    ensures Copied(Plan(files, m, k)) == files[..if k * m < |files| then k * m else |files|]
  {
    if k > 0 {
      var start, end := (k - 1) * m, k * m;
      NextStart(k - 1, m);
      if k > 1 {
        NextStart(k - 2, m);
      }
      PlanCopied(files, m, k - 1);
      PlanStep(files, m, k - 1, start);
      var stop := if end < |files| then end else |files|;
      CopiedSnoc(files, Plan(files, m, k - 1), NatToString(k - 1), start, stop);
    }
  }

  /** Appending the slice [start:stop] to outputs holding the files before `start`. */
  lemma CopiedSnoc(files: seq<string>, prev: seq<Output>, name: string, start: nat, stop: nat)
    requires start <= stop <= |files| && Copied(prev) == files[..start]
    ensures Copied(prev + [Output(name, files[start..stop])]) == files[..stop]
  {
    assert (prev + [Output(name, files[start..stop])])[..|prev|] == prev;
    assert files[..start] + files[start..stop] == files[..stop];
  }

  /** Group i of a plan of `total` outputs has 1 to m files, exactly m unless it is the last. */
  lemma GroupSize(files: seq<string>, m: nat, i: nat, total: nat)
    requires m > 0 && i < total && (total - 1) * m < |files| <= total * m
    ensures 0 < |Group(files, m, i)| <= m
    ensures i < total - 1 ==> |Group(files, m, i)| == m
  {
    var lo, last := i * m, (total - 1) * m;
    NextStart(i, m);
    MulMono(i, total - 1, m);
    if i < total - 1 {
      MulMono(i + 1, total - 1, m);
    }
    SliceSize(files, lo, lo + m);
  }

  lemma MulMono(a: int, b: int, m: nat)
    requires a <= b
    ensures a * m <= b * m
  {
  }

  lemma SliceSize<T>(xs: seq<T>, lo: nat, hi: int)
    requires lo < |xs| && lo <= hi
    ensures |Slice(xs, lo, hi)| == (if hi < |xs| then hi else |xs|) - lo
  {
  }
}
