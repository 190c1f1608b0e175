/**
 SortOperator.mergePass and SortOperator.sort: run generation over windows
 of `numBuffers - 1` data pages, then merge passes of fan-in
 `numBuffers - 1` until one run is left.

 The operator's own behaviour is kept, including its three failure modes:
 a final group shorter than the fan-in makes `subList` throw, a fan-in of one
 repeats the same run list forever, and a table without data pages makes
 `get(0)` throw. `MergePassFixed` and `SortFixed` are the evidently intended
 versions.
 */
module ExternalSort {
  import opened Common
  import opened SortRuns
  import opened Merge

  /** What a call of `sort()` does: return the final run, throw, or loop forever. */
  datatype SortOutcome = Returned(run: Run) | Threw(error: Error) | Diverges

  /* ---------------------------------------------------------------------- */
  /* Arithmetic helpers                                                     */
  /* ---------------------------------------------------------------------- */

  lemma MulSucc(g: int, s: int)
    ensures (g + 1) * s == g * s + s
  {
  }

  lemma MulGe(d: int, s: int)
    requires d >= 1 && s > 0
    ensures d * s >= s
  {
  }

  lemma MulDiff(a: int, b: int, s: int)
    ensures a * s - b * s == (a - b) * s
  {
  }

  /** Quotient and remainder are unique. */
  lemma DivUnique(a: int, s: int, q: int, r: int)
    requires s > 0 && 0 <= r < s && a == q * s + r
    ensures a / s == q && a % s == r
  {
    var q' := a / s;
    var r' := a % s;
    assert a == q' * s + r';
    MulDiff(q', q, s);
    MulDiff(q, q', s);
    if q' > q {
      MulGe(q' - q, s);
    } else if q' < q {
      MulGe(q - q', s);
    }
  }

  /** Division by repeated subtraction: Quot and Rem are `/` and `%` on
      naturals (QuotIsDiv), written so that they unfold without nonlinear
      arithmetic. */
  function Quot(x: nat, s: nat): (q: nat)
    requires s > 0
    ensures s >= 2 && x > 0 ==> q < x
    decreases x
  {
    if x < s then 0 else 1 + Quot(x - s, s)
  }

  function Rem(x: nat, s: nat): (r: nat)
    requires s > 0
    ensures r < s
    decreases x
  {
    if x < s then x else Rem(x - s, s)
  }

  lemma {:induction false} QuotRem(x: nat, s: nat)
    requires s > 0
    ensures x == Quot(x, s) * s + Rem(x, s) && Rem(x, s) < s
    decreases x
  {
    if x >= s {
      QuotRem(x - s, s);
      MulSucc(Quot(x - s, s), s);
    }
  }

  lemma QuotIsDiv(x: nat, s: nat)
    requires s > 0
    ensures Quot(x, s) == x / s && Rem(x, s) == x % s
  {
    QuotRem(x, s);
    DivUnique(x, s, Quot(x, s), Rem(x, s));
  }

  /** Removing `s` from `n` removes one from the quotient and keeps the remainder. */
  lemma DivShift(n: nat, s: nat)
    requires 0 < s <= n
    ensures n / s == (n - s) / s + 1 && n % s == (n - s) % s
  {
    QuotIsDiv(n, s);
    QuotIsDiv(n - s, s);
  }

  lemma DivSmall(x: nat, s: nat)
    requires x < s
    ensures x / s == 0 && x % s == x
  {
    QuotIsDiv(x, s);
  }

  /** A slice of a suffix is a slice of the whole. */
  lemma SliceOfSuffix<T>(s: seq<T>, k: nat, i: nat, j: nat)
    requires k <= |s| && i <= j <= |s| - k
    ensures s[k..][i..j] == s[k + i .. k + j]
  {
  }

  /** `g * s`, as repeated addition so that offsets stay linear. */
  function Times(g: nat, s: nat): nat
  {
    if g == 0 then 0 else Times(g - 1, s) + s
  }

  /** Taking one window of up to `s` items off `x > 0` items removes one window
      from the count of windows. */
  lemma CeilStep(x: nat, s: nat)
    requires x > 0 && s > 0
    ensures (x + s - 1) / s == 1 + (x - Min(s, x) + s - 1) / s
  {
    if x < s {
      DivShift(x + s - 1, s);
      DivSmall(x - 1, s);
      DivSmall(s - 1, s);
    } else {
      DivShift(x + s - 1, s);
    }
  }

  /** The number of windows of up to `s` items that cover `x` items. */
  function Windows(x: nat, s: nat): nat
    requires s > 0
    decreases x
  {
    if x == 0 then 0 else 1 + Windows(x - Min(s, x), s)
  }

  lemma {:induction false} WindowsIsCeil(x: nat, s: nat)
    requires s > 0
    ensures Windows(x, s) == (x + s - 1) / s
    decreases x
  {
    if x == 0 {
      DivSmall(s - 1, s);
    } else {
      WindowsIsCeil(x - Min(s, x), s);
      CeilStep(x, s);
    }
  }

  /* ---------------------------------------------------------------------- */
  /* mergePass                                                              */
  /* ---------------------------------------------------------------------- */

  /** SortOperator.mergePass: merges consecutive groups of `step` runs with
      `runs.subList(i, i + step)`; the call throws IndexOutOfBounds when the
      last group would reach past the end of the list. */
  function MergePass(runs: seq<Run>, step: nat, col: nat): (r: Result<seq<Run>>)
    requires step >= 1
    ensures r.Fail? ==> r.error == IndexOutOfBounds
    ensures r.Ok? ==> |r.value| <= |runs| && (runs != [] ==> |r.value| >= 1)
    ensures r.Ok? && runs != [] && step >= 2 ==> |r.value| < |runs|
    decreases |runs|
  {
    if runs == [] then Ok([])
    else if |runs| < step then Fail(IndexOutOfBounds)
    else
      match MergePass(runs[step..], step, col)
      case Ok(rest) => Ok([MergeSortedRuns(runs[..step], col)] + rest)
      case Fail(e) => Fail(e)
  }

  /** A successful pass loses and duplicates no record, and turns sorted runs
      into sorted runs. */
  lemma {:induction false} MergePassConserves(runs: seq<Run>, step: nat, col: nat)
    requires step >= 1 && MergePass(runs, step, col).Ok?
    ensures multiset(Flatten(MergePass(runs, step, col).value)) == multiset(Flatten(runs))
    ensures AllSorted(runs, col) ==> AllSorted(MergePass(runs, step, col).value, col)
    decreases |runs|
  {
    if runs != [] {
      var rest := MergePass(runs[step..], step, col).value;
      MergePassConserves(runs[step..], step, col);
      MergePassJoin(runs, step, col, MergeSortedRuns(runs[..step], col), rest);
    }
  }

  /** Prepending the merge of the first `n` runs to the merge of the others
      keeps every record and sortedness. */
  lemma MergePassJoin(runs: seq<Run>, n: nat, col: nat, first: Run, rest: seq<Run>)
    requires 1 <= n <= |runs|
    requires multiset(first) == multiset(Flatten(runs[..n]))
    requires AllSorted(runs[..n], col) ==> Sorted(first, col)
    requires multiset(Flatten(rest)) == multiset(Flatten(runs[n..]))
    requires AllSorted(runs[n..], col) ==> AllSorted(rest, col)
    ensures multiset(Flatten([first] + rest)) == multiset(Flatten(runs))
    ensures AllSorted(runs, col) ==> AllSorted([first] + rest, col)
  {
    assert runs == runs[..n] + runs[n..];
    FlattenAppend(runs[..n], runs[n..]);
    assert ([first] + rest)[1..] == rest;
    if AllSorted(runs, col) {
      assert AllSorted(runs[..n], col) && AllSorted(runs[n..], col);
    }
  }

  /** mergePass throws exactly when the number of runs is not a multiple of
      the fan-in, and otherwise returns one run per group. */
  lemma MergePassCount(runs: seq<Run>, step: nat, col: nat)
    requires step >= 1
    ensures MergePass(runs, step, col).Fail? <==> Rem(|runs|, step) != 0
    ensures MergePass(runs, step, col).Ok? ==> |MergePass(runs, step, col).value| == Quot(|runs|, step)
  {
    MergePassIsPassWith(runs, step, col);
    PassWithCount(runs, step, rs => MergeSortedRuns(rs, col));
  }

  /** The loop of mergePass with the merge of one group as a parameter. */
  function PassWith(runs: seq<Run>, step: nat, merge: seq<Run> -> Run): Result<seq<Run>>
    requires step >= 1
    decreases |runs|
  {
    if runs == [] then Ok([])
    else if |runs| < step then Fail(IndexOutOfBounds)
    else
      match PassWith(runs[step..], step, merge)
      case Ok(rest) => Ok([merge(runs[..step])] + rest)
      case Fail(e) => Fail(e)
  }

  /** The pass fails exactly when the last group is partial, and otherwise
      returns one run per group. */
  lemma {:induction false} PassWithCount(runs: seq<Run>, step: nat, merge: seq<Run> -> Run)
    requires step >= 1
    ensures PassWith(runs, step, merge).Fail? <==> Rem(|runs|, step) != 0
    ensures PassWith(runs, step, merge).Ok? ==> |PassWith(runs, step, merge).value| == Quot(|runs|, step)
    decreases |runs|
  {
    if |runs| >= step && runs != [] {
      PassWithCount(runs[step..], step, merge);
    }
  }

  lemma {:induction false} PassWithGroups(runs: seq<Run>, step: nat, merge: seq<Run> -> Run, g: nat)
    requires step >= 1 && PassWith(runs, step, merge).Ok?
    requires g < |PassWith(runs, step, merge).value|
    ensures Times(g, step) + step <= |runs|
    ensures PassWith(runs, step, merge).value[g] == merge(runs[Times(g, step) .. Times(g, step) + step])
    decreases g
  {
    var tail := runs[step..];
    assert PassWith(runs, step, merge).value == [merge(runs[..step])] + PassWith(tail, step, merge).value;
    if g == 0 {
      assert runs[Times(g, step) .. Times(g, step) + step] == runs[..step];
    } else {
      PassWithGroups(tail, step, merge, g - 1);
      var i := Times(g - 1, step);
      assert tail[i .. i + step] == runs[Times(g, step) .. Times(g, step) + step];
    }
  }

  lemma {:induction false} MergePassIsPassWith(runs: seq<Run>, step: nat, col: nat)
    requires step >= 1
    ensures MergePass(runs, step, col) == PassWith(runs, step, rs => MergeSortedRuns(rs, col))
    decreases |runs|
  {
    if runs != [] && |runs| >= step {
      MergePassIsPassWith(runs[step..], step, col);
    }
  }

  /** Group `g` of the result is the merge of the `step` runs starting at run
      `g * step`. */
  lemma MergePassGroups(runs: seq<Run>, step: nat, col: nat, g: nat)
    requires step >= 1 && MergePass(runs, step, col).Ok?
    requires g < |MergePass(runs, step, col).value|
    ensures Times(g, step) + step <= |runs|
    ensures MergePass(runs, step, col).value[g]
            == MergeSortedRuns(runs[Times(g, step) .. Times(g, step) + step], col)
  {
    MergePassIsPassWith(runs, step, col);
    PassWithGroups(runs, step, rs => MergeSortedRuns(rs, col), g);
  }

  /** With fan-in one, mergePass returns a list equal to its input: every
      group is a single run, and merging one run returns it unchanged. */
  lemma {:induction false} FanInOneIsIdentity(runs: seq<Run>, col: nat)
    ensures MergePass(runs, 1, col) == Ok(runs)
    decreases |runs|
  {
    if runs != [] {
      var tail := runs[1..];
      assert MergePass(tail, 1, col) == Ok(tail) by {
        FanInOneIsIdentity(tail, col);
      }
      assert MergeSortedRuns(runs[..1], col) == runs[0] by {
        assert runs[..1] == [runs[0]];
        MergeSingle(runs[0], col);
      }
      assert [runs[0]] + tail == runs;
    }
  }

  /* ---------------------------------------------------------------------- */
  /* Run generation                                                         */
  /* ---------------------------------------------------------------------- */

  /** The first phase of `sort()`: each window of up to `step` consecutive
      data pages becomes one run, sorted by sortRun. */
  function GenerateRuns(data: seq<Page>, step: nat, col: nat): (runs: seq<Run>)
    requires step >= 1
    ensures AllSorted(runs, col)
    ensures multiset(Flatten(runs)) == multiset(Flatten(data))
    ensures |runs| == 0 <==> |data| == 0
    decreases |data|
  {
    if data == [] then []
    else
      var n := Min(step, |data|);
      var rest := GenerateRuns(data[n..], step, col);
      var run := SortRun(Flatten(data[..n]), col);
      GenerateRunsJoin(data, n, col, run, rest);
      [run] + rest
  }

  lemma GenerateRunsJoin(data: seq<Page>, n: nat, col: nat, run: Run, rest: seq<Run>)
    requires 1 <= n <= |data|
    requires Sorted(run, col) && multiset(run) == multiset(Flatten(data[..n]))
    requires AllSorted(rest, col) && multiset(Flatten(rest)) == multiset(Flatten(data[n..]))
    ensures AllSorted([run] + rest, col)
    ensures multiset(Flatten([run] + rest)) == multiset(Flatten(data))
  {
    assert data == data[..n] + data[n..];
    FlattenAppend(data[..n], data[n..]);
    assert ([run] + rest)[1..] == rest;
  }

  /** The run generation loop with the treatment of one window as a parameter. */
  function WindowsWith(data: seq<Page>, step: nat, f: seq<Page> -> Run): seq<Run>
    requires step >= 1
    decreases |data|
  {
    if data == [] then []
    else
      var n := Min(step, |data|);
      [f(data[..n])] + WindowsWith(data[n..], step, f)
  }

  lemma {:induction false} WindowsWithAt(data: seq<Page>, step: nat, f: seq<Page> -> Run, g: nat)
    requires step >= 1 && g < |WindowsWith(data, step, f)|
    ensures Times(g, step) < |data|
    ensures WindowsWith(data, step, f)[g] == f(data[Times(g, step) .. Min(Times(g, step) + step, |data|)])
    decreases g
  {
    var n := Min(step, |data|);
    var rest := WindowsWith(data[n..], step, f);
    assert WindowsWith(data, step, f) == [f(data[..n])] + rest;
    if g == 0 {
      assert Times(g, step) == 0;
      assert data[0 .. n] == data[..n];
    } else {
      var i := Times(g - 1, step);
      var j := Min(i + step, |data| - n);
      assert i < |data| - n && rest[g - 1] == f(data[n..][i..j]) by {
        WindowsWithAt(data[n..], step, f, g - 1);
      }
      SliceOfSuffix(data, n, i, j);
      assert Times(g, step) == n + i && Min(Times(g, step) + step, |data|) == n + j;
      assert WindowsWith(data, step, f)[g] == rest[g - 1];
    }
  }

  lemma {:induction false} GenerateRunsIsWindowsWith(data: seq<Page>, step: nat, col: nat)
    requires step >= 1
    ensures GenerateRuns(data, step, col) == WindowsWith(data, step, ps => SortRun(Flatten(ps), col))
    decreases |data|
  {
    if data != [] {
      GenerateRunsIsWindowsWith(data[Min(step, |data|)..], step, col);
    }
  }

  lemma {:induction false} WindowsWithCount(data: seq<Page>, step: nat, f: seq<Page> -> Run)
    requires step >= 1
    ensures |WindowsWith(data, step, f)| == Windows(|data|, step)
    decreases |data|
  {
    if data != [] {
      WindowsWithCount(data[Min(step, |data|)..], step, f);
    }
  }

  /** One run per window: the number of runs is the number of data pages
      divided by `step`, rounded up (WindowsIsCeil). */
  lemma GenerateRunsCount(data: seq<Page>, step: nat, col: nat)
    requires step >= 1
    ensures |GenerateRuns(data, step, col)| == Windows(|data|, step)
  {
    GenerateRunsIsWindowsWith(data, step, col);
    WindowsWithCount(data, step, ps => SortRun(Flatten(ps), col));
  }

  /** Run `g` is the sorted contents of the data pages from `g * step` up to
      the next `step` pages, or up to the last page. */
  lemma GenerateRunsWindows(data: seq<Page>, step: nat, col: nat, g: nat)
    requires step >= 1 && g < |GenerateRuns(data, step, col)|
    ensures Times(g, step) < |data|
    ensures GenerateRuns(data, step, col)[g]
            == SortRun(Flatten(data[Times(g, step) .. Min(Times(g, step) + step, |data|)]), col)
  {
    GenerateRunsIsWindowsWith(data, step, col);
    WindowsWithAt(data, step, ps => SortRun(Flatten(ps), col), g);
  }

  /* ---------------------------------------------------------------------- */
  /* sort                                                                   */
  /* ---------------------------------------------------------------------- */

  /** `n` is a power of `b`. */
  predicate IsPowerOf(n: nat, b: nat)
    requires b >= 2
    decreases n
  {
    n == 1 || (n > 0 && Rem(n, b) == 0 && IsPowerOf(Quot(n, b), b))
  }

  /** The merge loop of `sort()`: `while (sortedRuns.size() > 1) sortedRuns =
      mergePass(sortedRuns)`, then `sortedRuns.get(0)`. */
  function MergeLoop(runs: seq<Run>, step: nat, col: nat): SortOutcome
    requires step >= 1
    decreases |runs|
  {
    if |runs| == 0 then Threw(IndexOutOfBounds)
    else if |runs| == 1 then Returned(runs[0])
    else if step == 1 then
      // mergePass returns an equal list (FanInOneIsIdentity): the loop never ends
      Diverges
    else
      match MergePass(runs, step, col)
      case Fail(e) => Threw(e)
      case Ok(next) => MergeLoop(next, step, col)
  }

  /** The merge loop returns exactly when the run count is a power of the
      fan-in, and what it returns is a sorted permutation of the runs. */
  lemma {:induction false} MergeLoopSpec(runs: seq<Run>, step: nat, col: nat)
    requires step >= 1
    requires AllSorted(runs, col)
    ensures |runs| == 0 ==> MergeLoop(runs, step, col) == Threw(IndexOutOfBounds)
    ensures step == 1 && |runs| > 1 ==> MergeLoop(runs, step, col) == Diverges
    ensures step >= 2 ==> !MergeLoop(runs, step, col).Diverges?
    ensures step >= 2 && |runs| > 0 ==>
              (MergeLoop(runs, step, col).Returned? <==> IsPowerOf(|runs|, step))
    ensures MergeLoop(runs, step, col).Returned? ==>
              var r := MergeLoop(runs, step, col).run;
              Sorted(r, col) && multiset(r) == multiset(Flatten(runs))
    ensures MergeLoop(runs, step, col).Threw? ==> MergeLoop(runs, step, col).error == IndexOutOfBounds
    decreases |runs|
  {
    if |runs| == 1 {
      assert Flatten(runs) == runs[0] + Flatten(runs[1..]);
      assert Flatten(runs[1..]) == [];
    } else if |runs| > 1 && step >= 2 {
      MergePassCount(runs, step, col);
      if MergePass(runs, step, col).Ok? {
        var next := MergePass(runs, step, col).value;
        MergePassConserves(runs, step, col);
        MergeLoopSpec(next, step, col);
        assert IsPowerOf(|runs|, step) <==> IsPowerOf(|next|, step);
      }
    }
  }

  /** What the merge loop returns for the runs generated from `data` is a
      sorted permutation of the records; what it throws is
      IndexOutOfBounds. */
  lemma LoopResult(data: seq<Page>, step: nat, col: nat)
    requires step >= 1
    ensures var o := MergeLoop(GenerateRuns(data, step, col), step, col);
            && (o.Returned? ==> Sorted(o.run, col) && multiset(o.run) == multiset(Flatten(data)))
            && (o.Threw? ==> o.error == IndexOutOfBounds)
  {
    MergeLoopSpec(GenerateRuns(data, step, col), step, col);
  }

  /** Whether the merge loop over the runs generated from `data` ends: with
      a fan-in of two or more it never diverges and, given some data, returns
      exactly when the number of windows is a power of the fan-in; without
      data it throws; with fan-in one and two or more pages it never ends. */
  lemma LoopTermination(data: seq<Page>, step: nat, col: nat)
    requires step >= 1
    ensures var o := MergeLoop(GenerateRuns(data, step, col), step, col);
            && (|data| >= 1 && step >= 2 ==> (o.Returned? <==> IsPowerOf(Windows(|data|, step), step)))
            && (step >= 2 ==> !o.Diverges?)
            && (|data| == 0 ==> o == Threw(IndexOutOfBounds))
            && (step == 1 && |data| >= 2 ==> o == Diverges)
  {
    var runs := GenerateRuns(data, step, col);
    GenerateRunsCount(data, step, col);
    if step == 1 {
      WindowsOfOne(|data|);
    }
    MergeLoopSpec(runs, step, col);
  }

  lemma {:induction false} WindowsOfOne(x: nat)
    ensures Windows(x, 1) == x
    decreases x
  {
    if x > 0 {
      WindowsOfOne(x - 1);
    }
  }

  /** SortOperator.sort: skips the header page, generates runs over windows
      of `numBuffers - 1` data pages and merges them with fan-in
      `numBuffers - 1`. What it returns is a sorted permutation of the data
      records. */
  function Sort(t: Table, numBuffers: nat, col: nat): (o: SortOutcome)
    requires numBuffers >= 2
    ensures o.Returned? ==> Sorted(o.run, col) && multiset(o.run) == multiset(DataRecords(t))
    ensures o.Threw? ==> o.error == IndexOutOfBounds
  {
    var step := numBuffers - 1;
    LoopResult(t.pages, step, col);
    MergeLoop(GenerateRuns(t.pages, step, col), step, col)
  }

  lemma SortUnfold(t: Table, numBuffers: nat, col: nat)
    requires numBuffers >= 2
    ensures Sort(t, numBuffers, col)
            == MergeLoop(GenerateRuns(t.pages, numBuffers - 1, col), numBuffers - 1, col)
  {
  }

  /** With three or more buffers and some data, `sort()` never loops, and it
      returns exactly when the number of initial runs (data pages divided by
      `numBuffers - 1`, rounded up) is a power of the fan-in
      `numBuffers - 1`. */
  lemma SortReturnsIff(t: Table, numBuffers: nat, col: nat)
    requires |t.pages| >= 1 && numBuffers >= 3
    ensures Sort(t, numBuffers, col).Returned? <==> IsPowerOf(Windows(|t.pages|, numBuffers - 1), numBuffers - 1)
    ensures !Sort(t, numBuffers, col).Diverges?
  {
    var o := MergeLoop(GenerateRuns(t.pages, numBuffers - 1, col), numBuffers - 1, col);
    assert Sort(t, numBuffers, col) == o by {
      SortUnfold(t, numBuffers, col);
    }
    assert (o.Returned? <==> IsPowerOf(Windows(|t.pages|, numBuffers - 1), numBuffers - 1)) && !o.Diverges? by {
      LoopTermination(t.pages, numBuffers - 1, col);
    }
  }

  /** A table with no data pages makes `sortedRuns.get(0)` throw. */
  lemma SortNoData(t: Table, numBuffers: nat, col: nat)
    requires |t.pages| == 0 && numBuffers >= 2
    ensures Sort(t, numBuffers, col) == Threw(IndexOutOfBounds)
  {
    SortUnfold(t, numBuffers, col);
    LoopTermination(t.pages, numBuffers - 1, col);
  }

  /** With two buffers (fan-in one) and at least two data pages, `sort()`
      never returns. */
  lemma SortTwoBuffers(t: Table, col: nat)
    requires |t.pages| >= 2
    ensures Sort(t, 2, col) == Diverges
  {
    SortUnfold(t, 2, col);
    LoopTermination(t.pages, 1, col);
  }

  /* ---------------------------------------------------------------------- */
  /* The intended behaviour                                                 */
  /* ---------------------------------------------------------------------- */

  /** mergePass with the last group cut at the end of the list
      (`subList(i, min(i + step, runs.size()))`). */
  function MergePassFixed(runs: seq<Run>, step: nat, col: nat): (out: seq<Run>)
    requires step >= 1
    ensures |out| == Windows(|runs|, step)
    ensures runs != [] ==> 1 <= |out| <= |runs|
    ensures |runs| >= 2 && step >= 2 ==> |out| < |runs|
    decreases |runs|
  {
    if runs == [] then []
    else
      var n := Min(step, |runs|);
      var rest := MergePassFixed(runs[n..], step, col);
      WindowCount(|runs|, step, |rest|);
      [MergeSortedRuns(runs[..n], col)] + rest
  }

  /** The count of windows after taking the first window off `x > 0` items. */
  lemma WindowCount(x: nat, s: nat, k: nat)
    requires x > 0 && s >= 1 && k == Windows(x - Min(s, x), s)
    requires x - Min(s, x) > 0 ==> 1 <= k <= x - Min(s, x)
    requires x - Min(s, x) >= 2 && s >= 2 ==> k < x - Min(s, x)
    ensures 1 + k == Windows(x, s) && 1 + k <= x
    ensures x >= 2 && s >= 2 ==> 1 + k < x
  {
  }

  /** The corrected pass loses and duplicates no record, and turns sorted
      runs into sorted runs. */
  lemma {:induction false} MergePassFixedConserves(runs: seq<Run>, step: nat, col: nat)
    requires step >= 1
    ensures multiset(Flatten(MergePassFixed(runs, step, col))) == multiset(Flatten(runs))
    ensures AllSorted(runs, col) ==> AllSorted(MergePassFixed(runs, step, col), col)
    decreases |runs|
  {
    if runs != [] {
      var n := Min(step, |runs|);
      var rest := MergePassFixed(runs[n..], step, col);
      MergePassFixedConserves(runs[n..], step, col);
      MergePassJoin(runs, n, col, MergeSortedRuns(runs[..n], col), rest);
    }
  }

  /** The corrected merge loop. */
  function MergeLoopFixed(runs: seq<Run>, step: nat, col: nat): (r: Run)
    requires step >= 2
    requires AllSorted(runs, col)
    ensures Sorted(r, col) && multiset(r) == multiset(Flatten(runs))
    decreases |runs|
  {
    if |runs| == 0 then []
    else if |runs| == 1 then
      assert Flatten(runs) == runs[0] + Flatten(runs[1..]);
      runs[0]
    else
      MergePassFixedConserves(runs, step, col);
      MergeLoopFixed(MergePassFixed(runs, step, col), step, col)
  }

  /** External merge sort as intended: always one sorted run holding exactly
      the table's data records, empty for a table without data pages. */
  function SortFixed(t: Table, numBuffers: nat, col: nat): (r: Run)
    requires numBuffers >= 3
    ensures Sorted(r, col)
    ensures multiset(r) == multiset(DataRecords(t))
  {
    var step := numBuffers - 1;
    MergeLoopFixed(GenerateRuns(t.pages, step, col), step, col)
  }

  /* ---------------------------------------------------------------------- */
  /* The discrepancies, on concrete inputs                                  */
  /* ---------------------------------------------------------------------- */

  /** Three runs and fan-in two: the second group would be runs 2..3 of a
      list of three, so mergePass throws; the corrected pass merges them into
      two runs. */
  lemma PartialGroupThrows(col: nat)
    ensures MergePass([[[1]], [[2]], [[3]]], 2, col) == Fail(IndexOutOfBounds)
    ensures |MergePassFixed([[[1]], [[2]], [[3]]], 2, col)| == 2
  {
    MergePassCount([[[1]], [[2]], [[3]]], 2, col);
  }

  /** A table with only its header page: sort() throws, the corrected sort
      returns an empty run. */
  lemma EmptyTableThrows(col: nat, numBuffers: nat)
    requires numBuffers >= 3
    ensures Sort(Table([], []), numBuffers, col) == Threw(IndexOutOfBounds)
    ensures SortFixed(Table([], []), numBuffers, col) == []
  {
    SortNoData(Table([], []), numBuffers, col);
  }

  /** Four one-record data pages with two buffers: one run per page, and the
      merge loop with fan-in one never ends. */
  lemma TwoBuffersDiverge(col: nat)
    ensures Sort(Table([], [[[5]], [[3]], [[3]], [[1]]]), 2, col) == Diverges
  {
    SortTwoBuffers(Table([], [[[5]], [[3]], [[3]], [[1]]]), col);
  }
}
