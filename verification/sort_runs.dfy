/**
 The in-memory part of the external merge sort (SortOperator.sortRun and
 SortOperator.mergeSortedRuns), with runs as record sequences and records
 ordered by one column.

 The k-way merge is an explicit state machine: `li` holds what each run
 iterator has not yet returned, `pq` the priority queue of (record, run index)
 pairs, and `out` the output run written so far.
 */
module SortRuns {
  import opened Common

  /* ---------------------------------------------------------------------- */
  /* sortRun                                                                */
  /* ---------------------------------------------------------------------- */

  /** Inserts `x` into a sorted run after every record whose key is not larger. */
  function Insert(x: Record, rs: Run, col: nat): (r: Run)
    requires Sorted(rs, col)
    ensures Sorted(r, col)
    ensures multiset(r) == multiset(rs) + multiset{x}
  {
    if rs == [] then
      SortedCons(x, [], col);
      [x]
    else if Key(x, col) < Key(rs[0], col) then
      SortedFirst(rs, col);
      SortedCons(x, rs, col);
      [x] + rs
    else
      SortedDrop(rs, 1, col);
      var tail := Insert(x, rs[1..], col);
      InsertBehind(x, rs, col, tail);
      [rs[0]] + tail
  }

  /** The first record of a sorted run stays in front of the insertion of a
      record that is not smaller into the rest of the run. */
  lemma InsertBehind(x: Record, rs: Run, col: nat, tail: Run)
    requires rs != [] && Sorted(rs, col) && Key(rs[0], col) <= Key(x, col)
    requires Sorted(tail, col) && multiset(tail) == multiset(rs[1..]) + multiset{x}
    ensures Sorted([rs[0]] + tail, col)
    ensures multiset([rs[0]] + tail) == multiset(rs) + multiset{x}
  {
    SortedFirst(rs, col);
    forall j | 0 <= j < |tail|
      ensures Key(rs[0], col) <= Key(tail[j], col)
    {
      var y := tail[j];
      assert y in multiset(tail);
      if y != x {
        assert y in multiset(rs[1..]);
        var k :| 0 <= k < |rs[1..]| && rs[1..][k] == y;
        assert rs[k + 1] == y;
      }
    }
    SortedCons(rs[0], tail, col);
    assert rs == [rs[0]] + rs[1..];
  }

  /** The records of `run` ordered by column `col` (an insertion sort, which
      like Java's List.sort keeps records with equal keys in input order). */
  function SortRun(run: Run, col: nat): (r: Run)
    ensures Sorted(r, col)
    ensures multiset(r) == multiset(run)
    decreases |run|
  {
    if run == [] then []
    else
      var init := run[..|run| - 1];
      assert run == init + [run[|run| - 1]];
      Insert(run[|run| - 1], SortRun(init, col), col)
  }

  /* ---------------------------------------------------------------------- */
  /* The priority queue                                                     */
  /* ---------------------------------------------------------------------- */

  /** A queue entry: a record and the index of the run iterator it came from. */
  datatype Entry = Entry(rec: Record, run: nat)

  /** Index of the first queue entry with the smallest key: the entry
      PriorityQueue.remove() returns (its choice among equal keys is
      unspecified; the first one is taken here). */
  function MinIndex(pq: seq<Entry>, col: nat): (m: nat)
    requires |pq| > 0
    ensures m < |pq|
    ensures forall a :: 0 <= a < |pq| ==> Key(pq[m].rec, col) <= Key(pq[a].rec, col)
    decreases |pq|
  {
    if |pq| == 1 then 0
    else
      var m' := MinIndex(pq[1..], col);
      if Key(pq[0].rec, col) <= Key(pq[m' + 1].rec, col) then 0 else m' + 1
  }

  /** `s` without its element at index `m`. */
  function Remove<T>(s: seq<T>, m: nat): (r: seq<T>)
    requires m < |s|
    ensures |r| == |s| - 1
    ensures forall a :: 0 <= a < m ==> r[a] == s[a]
    ensures forall a :: m <= a < |r| ==> r[a] == s[a + 1]
  {
    s[..m] + s[m + 1..]
  }

  /** The records held by the queue. */
  function Recs(pq: seq<Entry>): seq<Record>
  {
    seq(|pq|, a requires 0 <= a < |pq| => pq[a].rec)
  }

  /** The run indices held by the queue. */
  function RunIds(pq: seq<Entry>): seq<nat>
  {
    seq(|pq|, a requires 0 <= a < |pq| => pq[a].run)
  }

  /* ---------------------------------------------------------------------- */
  /* The merge state machine                                                */
  /* ---------------------------------------------------------------------- */

  datatype MergeState = MergeState(li: seq<Run>, pq: seq<Entry>, out: Run)

  /** Every queue entry names an existing run iterator. */
  ghost predicate Indexed(st: MergeState)
  {
    forall a :: 0 <= a < |st.pq| ==> st.pq[a].run < |st.li|
  }

  /** Records not yet written to the output run. */
  function Pending(st: MergeState): nat
  {
    |st.pq| + |Flatten(st.li)|
  }

  /** `Flatten(li)` seen around its element `k`. */
  lemma {:induction false} FlattenSplit(li: seq<Run>, k: nat)
    requires k < |li|
    ensures Flatten(li) == Flatten(li[..k]) + li[k] + Flatten(li[k + 1..])
  {
    assert li == li[..k] + ([li[k]] + li[k + 1..]);
    FlattenAppend(li[..k], [li[k]] + li[k + 1..]);
    assert ([li[k]] + li[k + 1..])[1..] == li[k + 1..];
  }

  /** Replacing the remaining contents of one iterator. */
  lemma FlattenUpdate(li: seq<Run>, k: nat, s: Run)
    requires k < |li|
    ensures Flatten(li[k := s]) == Flatten(li[..k]) + s + Flatten(li[k + 1..])
    ensures Flatten(li) == Flatten(li[..k]) + li[k] + Flatten(li[k + 1..])
  {
    FlattenSplit(li, k);
    FlattenSplit(li[k := s], k);
    assert li[k := s][..k] == li[..k];
    assert li[k := s][k + 1..] == li[k + 1..];
  }

  /** One iteration of the merge loop for queue entry `m`: remove it, append
      its record to the output, and refill the queue from the run it came
      from if that run has more records. */
  function Pop(st: MergeState, m: nat): (st': MergeState)
    requires Indexed(st) && m < |st.pq|
    ensures Indexed(st') && |st'.li| == |st.li|
    ensures Pending(st') == Pending(st) - 1
    ensures st'.out == st.out + [st.pq[m].rec]
  {
    var e := st.pq[m];
    var rest := Remove(st.pq, m);
    var it := st.li[e.run];
    if it != [] then
      FlattenUpdate(st.li, e.run, it[1..]);
      assert it == [it[0]] + it[1..];
      MergeState(st.li[e.run := it[1..]], rest + [Entry(it[0], e.run)], st.out + [e.rec])
    else
      MergeState(st.li, rest, st.out + [e.rec])
  }

  /** One iteration of the merge loop: PriorityQueue.remove() yields an entry
      with the smallest key, which is popped. */
  function Step(st: MergeState, col: nat): (st': MergeState)
    requires Indexed(st) && |st.pq| > 0
    ensures Indexed(st') && |st'.li| == |st.li|
    ensures Pending(st') == Pending(st) - 1
    ensures exists a :: 0 <= a < |st.pq| && st'.out == st.out + [st.pq[a].rec]
                        && forall b :: 0 <= b < |st.pq| ==> Key(st.pq[a].rec, col) <= Key(st.pq[b].rec, col)
  {
    Pop(st, MinIndex(st.pq, col))
  }

  /** Runs the merge loop until the queue is empty; returns the output run. */
  function Drain(st: MergeState, col: nat): Run
    requires Indexed(st)
    decreases Pending(st)
  {
    if |st.pq| == 0 then st.out else Drain(Step(st, col), col)
  }

  /** The priming loop: for each run, `li.add(i, iterator)`; if the iterator
      has a record, queue it as (record, i) and increment `i`. An empty run's
      iterator is inserted at `i` without incrementing, so the next run's
      iterator is inserted in front of it. */
  function Prime(runs: seq<Run>, li: seq<Run>, pq: seq<Entry>, i: nat): (res: (seq<Run>, seq<Entry>))
    requires i <= |li|
    decreases |runs|
  {
    if runs == [] then (li, pq)
    else
      var r := runs[0];
      var li1 := li[..i] + [r] + li[i..];
      if r != [] then Prime(runs[1..], li1[i := r[1..]], pq + [Entry(r[0], i)], i + 1)
      else Prime(runs[1..], li1, pq, i)
  }

  /** The merge state right after priming. */
  function Start(runs: seq<Run>): MergeState
  {
    var (li, pq) := Prime(runs, [], [], 0);
    MergeState(li, pq, [])
  }
}
