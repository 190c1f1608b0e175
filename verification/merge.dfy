/**
 SortOperator.mergeSortedRuns: the priming of the run iterators, the
 invariants of the merge loop, and the resulting contract (no record lost or
 duplicated; sorted output from sorted runs; at most one queued record per
 run).
 */
module Merge {
  import opened Common
  import opened SortRuns

  /* ---------------------------------------------------------------------- */
  /* Shape of the state after priming                                       */
  /* ---------------------------------------------------------------------- */

  /** The non-empty runs, in order. */
  function NonEmpty(runs: seq<Run>): (ne: seq<Run>)
    ensures |ne| <= |runs|
    ensures forall k :: 0 <= k < |ne| ==> ne[k] != []
  {
    if runs == [] then []
    else if runs[0] == [] then NonEmpty(runs[1..])
    else [runs[0]] + NonEmpty(runs[1..])
  }

  /** Dropping the empty runs keeps every record, in order. */
  lemma {:induction false} NonEmptyFlatten(runs: seq<Run>)
    ensures Flatten(NonEmpty(runs)) == Flatten(runs)
    decreases |runs|
  {
    if runs != [] {
      NonEmptyFlatten(runs[1..]);
      if runs[0] != [] {
        assert ([runs[0]] + NonEmpty(runs[1..]))[1..] == NonEmpty(runs[1..]);
      }
    }
  }

  /** Dropping the empty runs keeps the others sorted. */
  lemma {:induction false} NonEmptySorted(runs: seq<Run>, col: nat)
    requires forall k :: 0 <= k < |runs| ==> Sorted(runs[k], col)
    ensures forall k :: 0 <= k < |NonEmpty(runs)| ==> Sorted(NonEmpty(runs)[k], col)
    decreases |runs|
  {
    if runs != [] {
      NonEmptySorted(runs[1..], col);
      assert forall k :: 0 <= k < |runs[1..]| ==> runs[1..][k] == runs[k + 1];
    }
  }

  function Drop1(s: Run): Run
  {
    if s == [] then [] else s[1..]
  }

  /** What each primed iterator still holds: the run minus its first record. */
  function Tails(a: seq<Run>): seq<Run>
  {
    seq(|a|, k requires 0 <= k < |a| => Drop1(a[k]))
  }

  /** The primed queue: the first record of the k-th non-empty run, tagged k. */
  function Heads(a: seq<Run>): seq<Entry>
    requires forall k :: 0 <= k < |a| ==> a[k] != []
  {
    seq(|a|, k requires 0 <= k < |a| => Entry(a[k][0], k))
  }

  function Empties(m: nat): seq<Run>
  {
    seq(m, k => [])
  }

  lemma TailsSnoc(a: seq<Run>, r: Run)
    ensures Tails(a + [r]) == Tails(a) + [Drop1(r)]
  {
  }

  lemma HeadsSnoc(a: seq<Run>, r: Run)
    requires forall k :: 0 <= k < |a| ==> a[k] != []
    requires r != []
    ensures Heads(a + [r]) == Heads(a) + [Entry(r[0], |a|)]
  {
  }

  lemma EmptiesCons(m: nat)
    ensures [[]] + Empties(m) == Empties(m + 1)
  {
  }

  /** One priming iteration on a state of the closed form. */
  lemma PrimeOnce(r: Run, a: seq<Run>, m: nat)
    requires forall k :: 0 <= k < |a| ==> a[k] != []
    ensures var li := Tails(a) + Empties(m);
            var li1 := li[..|a|] + [r] + li[|a|..];
            && (r != [] ==> li1[|a| := r[1..]] == Tails(a + [r]) + Empties(m)
                            && Heads(a) + [Entry(r[0], |a|)] == Heads(a + [r]))
            && (r == [] ==> li1 == Tails(a) + Empties(m + 1))
  {
    var li := Tails(a) + Empties(m);
    assert li[..|a|] == Tails(a);
    assert li[|a|..] == Empties(m);
    TailsSnoc(a, r);
    EmptiesCons(m);
    if r != [] {
      HeadsSnoc(a, r);
    }
  }

  /** The closed form of the priming result. */
  ghost predicate PrimedAs(runs: seq<Run>, a: seq<Run>, m: nat)
    requires forall k :: 0 <= k < |a| ==> a[k] != []
  {
    var ne := a + NonEmpty(runs);
    Prime(runs, Tails(a) + Empties(m), Heads(a), |a|)
    == (Tails(ne) + Empties(m + |runs| - |NonEmpty(runs)|), Heads(ne))
  }

  /** Priming leaves, at iterator index k, the k-th non-empty run without its
      first record, with the iterators of empty runs pushed behind them; the
      queue holds the first record of the k-th non-empty run tagged with k. */
  lemma {:induction false} PrimeShape(runs: seq<Run>, a: seq<Run>, m: nat)
    requires forall k :: 0 <= k < |a| ==> a[k] != []
    ensures PrimedAs(runs, a, m)
    decreases |runs|, 1
  {
    if runs == [] {
      assert a + NonEmpty(runs) == a;
    } else if runs[0] != [] {
      PrimeShapeNonEmpty(runs, a, m);
    } else {
      PrimeShapeEmpty(runs, a, m);
    }
  }

  /** One priming iteration for a non-empty run, on the closed form. */
  lemma PrimeUnfoldNonEmpty(runs: seq<Run>, a: seq<Run>, m: nat)
    requires forall k :: 0 <= k < |a| ==> a[k] != []
    requires runs != [] && runs[0] != []
    ensures Prime(runs, Tails(a) + Empties(m), Heads(a), |a|)
         == Prime(runs[1..], Tails(a + [runs[0]]) + Empties(m), Heads(a + [runs[0]]), |a| + 1)
  {
    var r := runs[0];
    var li := Tails(a) + Empties(m);
    var li1 := li[..|a|] + [r] + li[|a|..];
    PrimeOnce(r, a, m);
    assert Prime(runs, li, Heads(a), |a|)
        == Prime(runs[1..], li1[|a| := r[1..]], Heads(a) + [Entry(r[0], |a|)], |a| + 1);
  }

  /** One priming iteration for an empty run, on the closed form. */
  lemma PrimeUnfoldEmpty(runs: seq<Run>, a: seq<Run>, m: nat)
    requires forall k :: 0 <= k < |a| ==> a[k] != []
    requires runs != [] && runs[0] == []
    ensures Prime(runs, Tails(a) + Empties(m), Heads(a), |a|)
         == Prime(runs[1..], Tails(a) + Empties(m + 1), Heads(a), |a|)
  {
    var li := Tails(a) + Empties(m);
    PrimeOnce(runs[0], a, m);
    assert Prime(runs, li, Heads(a), |a|)
        == Prime(runs[1..], li[..|a|] + [runs[0]] + li[|a|..], Heads(a), |a|);
  }

  lemma {:induction false} PrimeShapeNonEmpty(runs: seq<Run>, a: seq<Run>, m: nat)
    requires forall k :: 0 <= k < |a| ==> a[k] != []
    requires runs != [] && runs[0] != []
    ensures PrimedAs(runs, a, m)
    decreases |runs|, 0
  {
    var a' := a + [runs[0]];
    var rest := NonEmpty(runs[1..]);
    assert Prime(runs, Tails(a) + Empties(m), Heads(a), |a|)
        == Prime(runs[1..], Tails(a') + Empties(m), Heads(a'), |a'|) by {
      PrimeUnfoldNonEmpty(runs, a, m);
    }
    assert Prime(runs[1..], Tails(a') + Empties(m), Heads(a'), |a'|)
        == (Tails(a' + rest) + Empties(m + |runs[1..]| - |rest|), Heads(a' + rest)) by {
      PrimeShape(runs[1..], a', m);
    }
    assert a + NonEmpty(runs) == a' + rest by {
      assert NonEmpty(runs) == [runs[0]] + rest;
    }
  }

  lemma {:induction false} PrimeShapeEmpty(runs: seq<Run>, a: seq<Run>, m: nat)
    requires forall k :: 0 <= k < |a| ==> a[k] != []
    requires runs != [] && runs[0] == []
    ensures PrimedAs(runs, a, m)
    decreases |runs|, 0
  {
    PrimeUnfoldEmpty(runs, a, m);
    PrimeShape(runs[1..], a, m + 1);
    assert NonEmpty(runs) == NonEmpty(runs[1..]);
  }

  /** The state `Start(runs)` in closed form. */
  lemma StartShape(runs: seq<Run>)
    ensures var ne := NonEmpty(runs);
            Start(runs) == MergeState(Tails(ne) + Empties(|runs| - |ne|), Heads(ne), [])
  {
    PrimeShape(runs, [], 0);
    assert Tails([]) + Empties(0) == [];
    assert Heads([]) == [];
    assert [] + NonEmpty(runs) == NonEmpty(runs);
    assert Prime(runs, [], [], 0)
        == (Tails(NonEmpty(runs)) + Empties(|runs| - |NonEmpty(runs)|), Heads(NonEmpty(runs)));
  }

  /* ---------------------------------------------------------------------- */
  /* Invariants of the merge loop                                           */
  /* ---------------------------------------------------------------------- */

  ghost predicate HasEntry(pq: seq<Entry>, k: nat)
  {
    exists a :: 0 <= a < |pq| && pq[a].run == k
  }

  /** Bookkeeping and conservation: one iterator per input run, at most one
      queue entry per iterator, an iterator with records left has its entry
      queued, and every input record is in exactly one of output, queue or
      iterators. */
  ghost predicate Inv(st: MergeState, runs: seq<Run>)
  {
    && |st.li| == |runs|
    && Indexed(st)
    && Distinct(st.pq)
    && (forall k :: 0 <= k < |st.li| && st.li[k] != [] ==> HasEntry(st.pq, k))
    && multiset(st.out) + multiset(Recs(st.pq)) + multiset(Flatten(st.li)) == multiset(Flatten(runs))
  }

  /** The queue entry of iterator k is the record of the k-th non-empty run
      just before what the iterator still holds; iterators past the
      non-empty runs are empty and have no entry. */
  ghost predicate Tracks(st: MergeState, ne: seq<Run>)
  {
    && |ne| <= |st.li|
    && (forall k :: 0 <= k < |ne| ==>
          |st.li[k]| < |ne[k]| && st.li[k] == ne[k][|ne[k]| - |st.li[k]|..])
    && (forall k :: |ne| <= k < |st.li| ==> st.li[k] == [])
    && (forall a :: 0 <= a < |st.pq| ==>
          var k := st.pq[a].run;
          k < |ne| && st.pq[a].rec == ne[k][|ne[k]| - |st.li[k]| - 1])
  }

  /** Order: iterators are sorted, a queued record is no larger than what its
      iterator still holds, and the output is sorted and no larger than any
      queued record. */
  ghost predicate Ordered(st: MergeState, col: nat)
  {
    && (forall k :: 0 <= k < |st.li| ==> Sorted(st.li[k], col))
    && (forall a, j :: 0 <= a < |st.pq| && st.pq[a].run < |st.li| && 0 <= j < |st.li[st.pq[a].run]| ==>
          Key(st.pq[a].rec, col) <= Key(st.li[st.pq[a].run][j], col))
    && Sorted(st.out, col)
    && (forall i, a :: 0 <= i < |st.out| && 0 <= a < |st.pq| ==> Key(st.out[i], col) <= Key(st.pq[a].rec, col))
  }

  ghost predicate AllSorted(runs: seq<Run>, col: nat)
  {
    forall k :: 0 <= k < |runs| ==> Sorted(runs[k], col)
  }

  /* ---------------------------------------------------------------------- */
  /* Initial state                                                          */
  /* ---------------------------------------------------------------------- */

  lemma {:induction false} HeadsTails(a: seq<Run>)
    requires forall k :: 0 <= k < |a| ==> a[k] != []
    ensures multiset(Recs(Heads(a))) + multiset(Flatten(Tails(a))) == multiset(Flatten(a))
    decreases |a|
  {
    if a != [] {
      var a' := a[1..];
      HeadsTails(a');
      assert Recs(Heads(a)) == [a[0][0]] + Recs(Heads(a'));
      assert Tails(a)[1..] == Tails(a');
      assert a[0] == [a[0][0]] + a[0][1..];
    }
  }

  lemma {:induction false} FlattenEmpties(m: nat)
    ensures Flatten(Empties(m)) == []
    decreases m
  {
    if m > 0 {
      assert Empties(m)[1..] == Empties(m - 1);
      FlattenEmpties(m - 1);
    }
  }

  /** Priming moves every record into the queue or an iterator. */
  lemma StartConserves(runs: seq<Run>)
    ensures multiset(Recs(Start(runs).pq)) + multiset(Flatten(Start(runs).li)) == multiset(Flatten(runs))
  {
    var ne := NonEmpty(runs);
    StartShape(runs);
    var st := Start(runs);
    HeadsTails(ne);
    NonEmptyFlatten(runs);
    FlattenAppend(Tails(ne), Empties(|runs| - |ne|));
    FlattenEmpties(|runs| - |ne|);
  }

  /** After priming, every iterator with records left has its entry queued. */
  lemma StartHasEntries(runs: seq<Run>)
    ensures forall k :: 0 <= k < |Start(runs).li| && Start(runs).li[k] != [] ==> HasEntry(Start(runs).pq, k)
  {
    var ne := NonEmpty(runs);
    StartShape(runs);
    var st := Start(runs);
    forall k | 0 <= k < |st.li| && st.li[k] != []
      ensures HasEntry(st.pq, k)
    {
      assert k < |ne|;
      assert st.pq[k].run == k;
    }
  }

  lemma StartInv(runs: seq<Run>)
    ensures Inv(Start(runs), runs)
  {
    StartShape(runs);
    StartConserves(runs);
    StartHasEntries(runs);
  }

  lemma StartTracks(runs: seq<Run>)
    ensures Tracks(Start(runs), NonEmpty(runs))
  {
    var ne := NonEmpty(runs);
    StartShape(runs);
    var st := Start(runs);
    forall k | 0 <= k < |ne|
      ensures |st.li[k]| < |ne[k]| && st.li[k] == ne[k][|ne[k]| - |st.li[k]|..]
    {
      assert st.li[k] == ne[k][1..];
    }
  }

  lemma StartOrdered(runs: seq<Run>, col: nat)
    requires AllSorted(runs, col)
    ensures Ordered(Start(runs), col)
  {
    var ne := NonEmpty(runs);
    StartShape(runs);
    NonEmptySorted(runs, col);
    var st := Start(runs);
    forall k | 0 <= k < |st.li|
      ensures Sorted(st.li[k], col)
    {
      if k < |ne| {
        assert st.li[k] == ne[k][1..];
        SortedDrop(ne[k], 1, col);
      }
    }
    forall a, j | 0 <= a < |st.pq| && st.pq[a].run < |st.li| && 0 <= j < |st.li[st.pq[a].run]|
      ensures Key(st.pq[a].rec, col) <= Key(st.li[st.pq[a].run][j], col)
    {
      assert st.li[a] == ne[a][1..];
      assert st.li[a][j] == ne[a][j + 1];
      assert KeyAt(ne[a], 0, col) <= KeyAt(ne[a], j + 1, col);
    }
  }

  /* ---------------------------------------------------------------------- */
  /* Preservation by one step                                               */
  /* ---------------------------------------------------------------------- */

  ghost predicate Distinct(pq: seq<Entry>)
  {
    forall a, b :: 0 <= a < b < |pq| ==> pq[a].run != pq[b].run
  }

  lemma RecsRemove(pq: seq<Entry>, m: nat)
    requires m < |pq|
    ensures multiset(Recs(Remove(pq, m))) + multiset{pq[m].rec} == multiset(Recs(pq))
  {
    var s := Recs(pq);
    assert Recs(Remove(pq, m)) == s[..m] + s[m + 1..];
    assert s == s[..m] + [s[m]] + s[m + 1..];
  }

  /** Removing entry `m` keeps the other entries, none of which shares its run. */
  lemma RemoveDistinct(pq: seq<Entry>, m: nat)
    requires m < |pq| && Distinct(pq)
    ensures Distinct(Remove(pq, m))
    ensures forall a :: 0 <= a < |Remove(pq, m)| ==> Remove(pq, m)[a].run != pq[m].run
  {
    var rest := Remove(pq, m);
    forall a, b | 0 <= a < b < |rest|
      ensures rest[a].run != rest[b].run
    {
      var a0 := if a < m then a else a + 1;
      var b0 := if b < m then b else b + 1;
      assert rest[a] == pq[a0] && rest[b] == pq[b0];
    }
    forall a | 0 <= a < |rest|
      ensures rest[a].run != pq[m].run
    {
      var a0 := if a < m then a else a + 1;
      assert rest[a] == pq[a0];
    }
  }

  lemma RemoveHasEntry(pq: seq<Entry>, m: nat, k: nat)
    requires m < |pq| && HasEntry(pq, k) && pq[m].run != k
    ensures HasEntry(Remove(pq, m), k)
  {
    var a :| 0 <= a < |pq| && pq[a].run == k;
    var rest := Remove(pq, m);
    if a < m {
      assert rest[a] == pq[a];
    } else {
      assert rest[a - 1] == pq[a];
    }
  }

  /** Appending an entry for a run the queue does not mention keeps it distinct. */
  lemma AppendDistinct(pq: seq<Entry>, e: Entry)
    requires Distinct(pq)
    requires forall a :: 0 <= a < |pq| ==> pq[a].run != e.run
    ensures Distinct(pq + [e])
  {
  }

  lemma PopDistinct(st: MergeState, m: nat)
    requires Indexed(st) && m < |st.pq| && Distinct(st.pq)
    ensures Distinct(Pop(st, m).pq)
  {
    var e := st.pq[m];
    var it := st.li[e.run];
    RemoveDistinct(st.pq, m);
    if it != [] {
      AppendDistinct(Remove(st.pq, m), Entry(it[0], e.run));
    }
  }

  lemma PopHasEntry(st: MergeState, m: nat)
    requires Indexed(st) && m < |st.pq|
    requires forall k :: 0 <= k < |st.li| && st.li[k] != [] ==> HasEntry(st.pq, k)
    ensures var st' := Pop(st, m);
            forall k :: 0 <= k < |st'.li| && st'.li[k] != [] ==> HasEntry(st'.pq, k)
  {
    var e := st.pq[m];
    var it := st.li[e.run];
    var rest := Remove(st.pq, m);
    var st' := Pop(st, m);
    forall k | 0 <= k < |st'.li| && st'.li[k] != []
      ensures HasEntry(st'.pq, k)
    {
      if k == e.run {
        assert it != [];
        assert st'.pq[|rest|].run == k;
      } else {
        assert st'.li[k] == st.li[k];
        RemoveHasEntry(st.pq, m, k);
        var a :| 0 <= a < |rest| && rest[a].run == k;
        assert st'.pq[a] == rest[a];
      }
    }
  }

  lemma PopConserves(st: MergeState, m: nat)
    requires Indexed(st) && m < |st.pq|
    ensures var st' := Pop(st, m);
            multiset(st'.out) + multiset(Recs(st'.pq)) + multiset(Flatten(st'.li))
            == multiset(st.out) + multiset(Recs(st.pq)) + multiset(Flatten(st.li))
  {
    var e := st.pq[m];
    var it := st.li[e.run];
    var rest := Remove(st.pq, m);
    RecsRemove(st.pq, m);
    if it != [] {
      FlattenUpdate(st.li, e.run, it[1..]);
      assert it == [it[0]] + it[1..];
      assert Recs(rest + [Entry(it[0], e.run)]) == Recs(rest) + [it[0]];
    }
  }

  lemma StepInv(st: MergeState, runs: seq<Run>, col: nat)
    requires Inv(st, runs) && |st.pq| > 0
    ensures Inv(Step(st, col), runs)
  {
    var m := MinIndex(st.pq, col);
    PopDistinct(st, m);
    PopHasEntry(st, m);
    PopConserves(st, m);
  }

  lemma PopTracksIterators(st: MergeState, m: nat, ne: seq<Run>)
    requires Indexed(st) && m < |st.pq| && Tracks(st, ne)
    ensures var st' := Pop(st, m);
            && |ne| <= |st'.li|
            && (forall k :: 0 <= k < |ne| ==>
                  |st'.li[k]| < |ne[k]| && st'.li[k] == ne[k][|ne[k]| - |st'.li[k]|..])
            && (forall k :: |ne| <= k < |st'.li| ==> st'.li[k] == [])
  {
    var k0 := st.pq[m].run;
    var it := st.li[k0];
    var st' := Pop(st, m);
    if it != [] {
      assert k0 < |ne|;
      assert st'.li == st.li[k0 := it[1..]];
      forall k | 0 <= k < |ne|
        ensures |st'.li[k]| < |ne[k]| && st'.li[k] == ne[k][|ne[k]| - |st'.li[k]|..]
      {
        if k == k0 {
          var n := |ne[k]|;
          assert it == ne[k][n - |it|..];
          assert it[1..] == ne[k][n - |it| + 1..];
        }
      }
    } else {
      assert st'.li == st.li;
    }
  }

  /** The entries left after removing entry `m` still track their runs and
      belong to other iterators. */
  lemma RestTracks(st: MergeState, m: nat, ne: seq<Run>)
    requires Indexed(st) && m < |st.pq| && Tracks(st, ne) && Distinct(st.pq)
    ensures var rest := Remove(st.pq, m);
            forall a :: 0 <= a < |rest| ==>
              var j := rest[a].run;
              && j != st.pq[m].run && j < |ne| && j < |st.li|
              && rest[a].rec == ne[j][|ne[j]| - |st.li[j]| - 1]
  {
    var rest := Remove(st.pq, m);
    RemoveDistinct(st.pq, m);
    forall a | 0 <= a < |rest|
      ensures var j := rest[a].run;
              && j != st.pq[m].run && j < |ne| && j < |st.li|
              && rest[a].rec == ne[j][|ne[j]| - |st.li[j]| - 1]
    {
      if a < m { assert rest[a] == st.pq[a]; } else { assert rest[a] == st.pq[a + 1]; }
    }
  }

  lemma PopTracksQueue(st: MergeState, m: nat, ne: seq<Run>)
    requires Indexed(st) && m < |st.pq| && Tracks(st, ne) && Distinct(st.pq)
    ensures var st' := Pop(st, m);
            forall a :: 0 <= a < |st'.pq| ==>
              var j := st'.pq[a].run;
              j < |ne| && j < |st'.li| && st'.pq[a].rec == ne[j][|ne[j]| - |st'.li[j]| - 1]
  {
    if st.li[st.pq[m].run] != [] {
      RefillTracksQueue(st, m, ne);
    } else {
      RestTracks(st, m, ne);
      assert Pop(st, m).li == st.li && Pop(st, m).pq == Remove(st.pq, m);
    }
  }

  /** The entry queued from the iterator of the popped entry is the next
      record of its run. */
  lemma RefillTracksQueue(st: MergeState, m: nat, ne: seq<Run>)
    requires Indexed(st) && m < |st.pq| && Tracks(st, ne) && Distinct(st.pq)
    requires st.li[st.pq[m].run] != []
    ensures var st' := Pop(st, m);
            forall a :: 0 <= a < |st'.pq| ==>
              var j := st'.pq[a].run;
              j < |ne| && j < |st'.li| && st'.pq[a].rec == ne[j][|ne[j]| - |st'.li[j]| - 1]
  {
    var k := st.pq[m].run;
    var it := st.li[k];
    var rest := Remove(st.pq, m);
    var st' := Pop(st, m);
    RestTracks(st, m, ne);
    var n := |ne[k]|;
    assert st'.li == st.li[k := it[1..]];
    assert st'.pq == rest + [Entry(it[0], k)];
    assert it == ne[k][n - |it|..];
    assert it[0] == ne[k][n - |it[1..]| - 1];
    forall a | 0 <= a < |st'.pq|
      ensures var j := st'.pq[a].run;
              j < |ne| && j < |st'.li| && st'.pq[a].rec == ne[j][|ne[j]| - |st'.li[j]| - 1]
    {
      if a < |rest| {
        assert st'.pq[a] == rest[a];
      }
    }
  }

  lemma StepTracks(st: MergeState, runs: seq<Run>, ne: seq<Run>, col: nat)
    requires Inv(st, runs) && Tracks(st, ne) && |st.pq| > 0
    ensures Tracks(Step(st, col), ne)
  {
    var m := MinIndex(st.pq, col);
    assert Step(st, col) == Pop(st, m);
    PopTracks(st, m, ne);
  }

  lemma PopTracks(st: MergeState, m: nat, ne: seq<Run>)
    requires Indexed(st) && m < |st.pq| && Tracks(st, ne) && Distinct(st.pq)
    ensures Tracks(Pop(st, m), ne)
  {
    PopTracksIterators(st, m, ne);
    PopTracksQueue(st, m, ne);
  }

  /** Facts about the entries left after popping entry `m`. */
  lemma RestFacts(st: MergeState, m: nat, col: nat)
    requires Indexed(st) && m < |st.pq| && Distinct(st.pq) && Ordered(st, col)
    requires forall b :: 0 <= b < |st.pq| ==> Key(st.pq[m].rec, col) <= Key(st.pq[b].rec, col)
    ensures var rest := Remove(st.pq, m);
            forall a :: 0 <= a < |rest| ==>
              && rest[a].run != st.pq[m].run
              && rest[a].run < |st.li|
              && Key(st.pq[m].rec, col) <= Key(rest[a].rec, col)
              && (forall j :: 0 <= j < |st.li[rest[a].run]| ==> Key(rest[a].rec, col) <= Key(st.li[rest[a].run][j], col))
              && (forall i :: 0 <= i < |st.out| ==> Key(st.out[i], col) <= Key(rest[a].rec, col))
  {
    RemoveDistinct(st.pq, m);
    var rest := Remove(st.pq, m);
    forall a | 0 <= a < |rest|
      ensures rest[a].run < |st.li|
      ensures Key(st.pq[m].rec, col) <= Key(rest[a].rec, col)
      ensures forall j :: 0 <= j < |st.li[rest[a].run]| ==> Key(rest[a].rec, col) <= Key(st.li[rest[a].run][j], col)
      ensures forall i :: 0 <= i < |st.out| ==> Key(st.out[i], col) <= Key(rest[a].rec, col)
    {
      var a0 := if a < m then a else a + 1;
      assert rest[a] == st.pq[a0];
    }
  }

  lemma PopOrderedOut(st: MergeState, m: nat, col: nat)
    requires Indexed(st) && m < |st.pq| && Ordered(st, col)
    ensures Sorted(Pop(st, m).out, col)
  {
    var st' := Pop(st, m);
    forall i, j | 0 <= i < j < |st'.out|
      ensures KeyAt(st'.out, i, col) <= KeyAt(st'.out, j, col)
    {
      if j == |st.out| {
        assert st'.out[j] == st.pq[m].rec;
      } else {
        assert KeyAt(st.out, i, col) <= KeyAt(st.out, j, col);
      }
    }
  }

  lemma PopOrdered(st: MergeState, m: nat, col: nat)
    requires Indexed(st) && m < |st.pq| && Distinct(st.pq) && Ordered(st, col)
    requires forall b :: 0 <= b < |st.pq| ==> Key(st.pq[m].rec, col) <= Key(st.pq[b].rec, col)
    ensures Ordered(Pop(st, m), col)
  {
    var e := st.pq[m];
    var rest := Remove(st.pq, m);
    var st' := Pop(st, m);
    var k := e.run;
    var it := st.li[k];
    RestFacts(st, m, col);
    PopOrderedOut(st, m, col);
    if it != [] {
      SortedDrop(it, 1, col);
      forall a, j | 0 <= a < |st'.pq| && st'.pq[a].run < |st'.li| && 0 <= j < |st'.li[st'.pq[a].run]|
        ensures Key(st'.pq[a].rec, col) <= Key(st'.li[st'.pq[a].run][j], col)
      {
        if a < |rest| {
          assert st'.pq[a] == rest[a];
        } else {
          assert st'.li[k][j] == it[j + 1];
          assert KeyAt(it, 0, col) <= KeyAt(it, j + 1, col);
        }
      }
      forall i, a | 0 <= i < |st'.out| && 0 <= a < |st'.pq|
        ensures Key(st'.out[i], col) <= Key(st'.pq[a].rec, col)
      {
        if a < |rest| {
          assert st'.pq[a] == rest[a];
        } else {
          assert Key(e.rec, col) <= Key(it[0], col);
        }
      }
    } else {
      forall i, a | 0 <= i < |st'.out| && 0 <= a < |st'.pq|
        ensures Key(st'.out[i], col) <= Key(st'.pq[a].rec, col)
      {
        assert st'.pq[a] == rest[a];
      }
    }
  }

  lemma StepOrdered(st: MergeState, runs: seq<Run>, col: nat)
    requires Inv(st, runs) && Ordered(st, col) && |st.pq| > 0
    ensures Ordered(Step(st, col), col)
  {
    PopOrdered(st, MinIndex(st.pq, col), col);
  }

  /* ---------------------------------------------------------------------- */
  /* The whole loop                                                         */
  /* ---------------------------------------------------------------------- */

  lemma {:induction false} FlattenAllEmpty(li: seq<Run>)
    requires forall k :: 0 <= k < |li| ==> li[k] == []
    ensures Flatten(li) == []
    decreases |li|
  {
    if li != [] {
      FlattenAllEmpty(li[1..]);
    }
  }

  lemma {:induction false} DrainInv(st: MergeState, runs: seq<Run>, col: nat)
    requires Inv(st, runs)
    ensures multiset(Drain(st, col)) == multiset(Flatten(runs))
    ensures Ordered(st, col) ==> Sorted(Drain(st, col), col)
    decreases Pending(st)
  {
    if |st.pq| == 0 {
      forall k | 0 <= k < |st.li|
        ensures st.li[k] == []
      {
        assert !HasEntry(st.pq, k);
      }
      FlattenAllEmpty(st.li);
    } else {
      StepInv(st, runs, col);
      if Ordered(st, col) {
        StepOrdered(st, runs, col);
      }
      DrainInv(Step(st, col), runs, col);
    }
  }

  /** Distinct naturals below `n` are at most `n` many. */
  lemma {:induction false} Pigeonhole(s: seq<nat>, n: nat)
    requires forall a :: 0 <= a < |s| ==> s[a] < n
    requires forall a, b :: 0 <= a < b < |s| ==> s[a] != s[b]
    ensures |s| <= n
    decreases n, 1
  {
    if |s| == 0 {
    } else {
      assert s[0] < n;
      PigeonholeStep(s, n);
    }
  }

  lemma {:induction false} PigeonholeStep(s: seq<nat>, n: nat)
    requires n > 0
    requires forall a :: 0 <= a < |s| ==> s[a] < n
    requires forall a, b :: 0 <= a < b < |s| ==> s[a] != s[b]
    ensures |s| <= n
    decreases n, 0
  {
    if a :| 0 <= a < |s| && s[a] == n - 1 {
      var s' := s[..a] + s[a + 1..];
      forall i | 0 <= i < |s'|
        ensures s'[i] < n - 1
      {
        if i < a { assert s'[i] == s[i]; } else { assert s'[i] == s[i + 1]; }
      }
      forall i, j | 0 <= i < j < |s'|
        ensures s'[i] != s'[j]
      {
        var i0 := if i < a then i else i + 1;
        var j0 := if j < a then j else j + 1;
        assert s'[i] == s[i0] && s'[j] == s[j0];
      }
      Pigeonhole(s', n - 1);
    } else {
      Pigeonhole(s, n - 1);
    }
  }

  /** The queue never holds more entries than there are input runs. */
  lemma QueueBound(st: MergeState, runs: seq<Run>)
    requires Inv(st, runs)
    ensures |st.pq| <= |runs|
  {
    var ids := RunIds(st.pq);
    Pigeonhole(ids, |runs|);
  }

  lemma DrainStart(runs: seq<Run>, col: nat)
    ensures Indexed(Start(runs))
    ensures multiset(Drain(Start(runs), col)) == multiset(Flatten(runs))
    ensures AllSorted(runs, col) ==> Sorted(Drain(Start(runs), col), col)
  {
    StartInv(runs);
    if AllSorted(runs, col) {
      StartOrdered(runs, col);
    }
    DrainInv(Start(runs), runs, col);
  }

  /** SortOperator.mergeSortedRuns: merges sorted runs into one run. */
  function MergeSortedRuns(runs: seq<Run>, col: nat): (r: Run)
    ensures multiset(r) == multiset(Flatten(runs))
    ensures AllSorted(runs, col) ==> Sorted(r, col)
  {
    DrainStart(runs, col);
    Drain(Start(runs), col)
  }

  lemma {:induction false} DrainSingle(s: Run, x: Record, out: Run, col: nat)
    ensures Indexed(MergeState([s], [Entry(x, 0)], out))
    ensures Drain(MergeState([s], [Entry(x, 0)], out), col) == out + [x] + s
    decreases |s|
  {
    var st := MergeState([s], [Entry(x, 0)], out);
    assert MinIndex(st.pq, col) == 0;
    if s == [] {
      assert Step(st, col) == MergeState([s], [], out + [x]);
    } else {
      var st1 := MergeState([s[1..]], [Entry(s[0], 0)], out + [x]);
      assert [s][0 := s[1..]] == [s[1..]];
      assert Step(st, col) == st1;
      assert Drain(st1, col) == out + [x] + [s[0]] + s[1..] by {
        DrainSingle(s[1..], s[0], out + [x], col);
      }
      assert out + [x] + [s[0]] + s[1..] == out + [x] + s;
    }
  }

  /** Merging a single run returns that run unchanged, in the same order,
      whether or not it is sorted. */
  lemma MergeSingle(r: Run, col: nat)
    ensures MergeSortedRuns([r], col) == r
  {
    StartShape([r]);
    if r == [] {
      assert Start([r]) == MergeState([[]], [], []);
    } else {
      assert Start([r]) == MergeState([r[1..]], [Entry(r[0], 0)], []);
      DrainSingle(r[1..], r[0], [], col);
      assert [] + [r[0]] + r[1..] == r;
    }
  }
}
