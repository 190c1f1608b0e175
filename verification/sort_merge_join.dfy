/**
 The sort-merge join (SortMergeOperator): both tables are sorted on their own
 join column by the external sort, and the two sorted record sequences are
 then merged by an iterator that replays the right side through a mark.

 For sorted inputs the merge emits, left record by left record, every right
 record with an equal join value, in right order: the record-level nested
 loop `RecordJoin` itself, not just its multiset.
 */
module SortMergeJoin {
  import opened Common
  import opened Cursor
  import opened JoinSpec
  import ExternalSort

  /** The iterator's `rightRecord` field: -1 before the right cursor was ever
      marked, 0 when the mark is due at the start of the next hasNext, 1 when
      the mark is in place. */
  datatype MarkFlag = Unstarted | MarkDue | Marked

  /** The merge iterator: the cursors over the sorted left and right records,
      the held left record, the buffered output record and the mark flag. */
  datatype MergeState = MergeState(
    leftIter: Cursor<Record>,
    rightIter: Cursor<Record>,
    leftRecord: Option<Record>,
    nextRecord: Option<Record>,
    flag: MarkFlag)

  /** The comparator: the sign of comparing the left record's join value with
      the right record's. */
  function Compare(l: Record, r: Record, lc: nat, rc: nat): (c: int)
    ensures c == 0 <==> Key(l, lc) == Key(r, rc)
    ensures c < 0 <==> Key(l, lc) < Key(r, rc)
  {
    if Key(l, lc) < Key(r, rc) then -1 else if Key(l, lc) == Key(r, rc) then 0 else 1
  }

  /** What the iterator's own steps keep without any assumption on the data:
      the cursors are in range, a mark is in place once the flag has left its
      initial value, and a due mark has an element to land on. */
  ghost predicate WF(st: MergeState)
  {
    && st.leftIter.Valid() && st.rightIter.Valid()
    && (!st.flag.Unstarted? ==> st.rightIter.mark.Some?)
    && (st.flag.MarkDue? ==> st.rightIter.pos >= 1)
  }

  /** The constructor, given the two sorted record sequences. */
  function Start(ls: seq<Record>, rs: seq<Record>): (st: MergeState)
    ensures WF(st) && st.leftIter.items == ls && st.rightIter.items == rs
  {
    MergeState(Open(ls), Open(rs), None, None, Unstarted)
  }

  /* ---------------------------------------------------------------------- */
  /* The steps of hasNext                                                   */
  /* ---------------------------------------------------------------------- */

  /** A mark left due by the previous call lands on the right record returned
      last. */
  function PlaceDueMark(st: MergeState): (st': MergeState)
    requires WF(st)
    ensures WF(st') && !st'.flag.MarkDue? && st'.nextRecord == st.nextRecord
    ensures st.flag.MarkDue? ==> && st'.rightIter.mark == Some(st.rightIter.pos - 1)
                                 && st'.rightIter.pos == st.rightIter.pos && st'.flag.Marked?
    ensures !st.flag.MarkDue? ==> st' == st
    ensures st'.leftIter == st.leftIter && st'.leftRecord == st.leftRecord
  {
    if st.flag.MarkDue? then st.(rightIter := Mark(st.rightIter), flag := Marked) else st
  }

  /** The left record to compare: the held one, or else the next one from the
      left cursor, which is not yet held. */
  function TakeLeft(st: MergeState): (r: (Record, MergeState))
    requires WF(st) && (st.leftRecord.Some? || st.leftIter.HasNext())
    ensures WF(r.1) && r.1.rightIter == st.rightIter && r.1.flag == st.flag
    ensures r.1.leftRecord == st.leftRecord && r.1.nextRecord == st.nextRecord
    ensures st.leftRecord.Some? ==> r.0 == st.leftRecord.value && r.1.leftIter == st.leftIter
    ensures st.leftRecord.None? ==> r.0 == st.leftIter.items[st.leftIter.pos] && r.1.leftIter.pos == st.leftIter.pos + 1
  {
    if st.leftRecord.Some? then (st.leftRecord.value, st)
    else
      var (l, li) := Next(st.leftIter).value;
      (l, st.(leftIter := li))
  }

  /** The right cursor ran out: the next left record is held and the right
      cursor rewinds to its mark. */
  function Rewind(st: MergeState): (st': MergeState)
    requires WF(st) && st.leftIter.HasNext() && !st.flag.MarkDue?
    ensures WF(st') && st'.nextRecord == st.nextRecord
    ensures st'.leftIter.Remaining() < st.leftIter.Remaining()
  {
    var (l, li) := Next(st.leftIter).value;
    st.(leftIter := li, leftRecord := Some(l), rightIter := Reset(st.rightIter))
  }

  /** The first right record of this call, with the mark placed on it on the
      very first call, and `left` held. */
  function FirstRight(st: MergeState, left: Record): (r: (Record, MergeState))
    requires WF(st) && st.rightIter.HasNext() && !st.flag.MarkDue?
    ensures WF(r.1) && r.1.flag.Marked? && r.1.leftRecord.Some? && r.1.nextRecord == st.nextRecord
    ensures r.0 == st.rightIter.items[st.rightIter.pos] && r.1.rightIter.pos == st.rightIter.pos + 1
    ensures r.1.rightIter.mark == if st.flag.Unstarted? then Some(st.rightIter.pos) else st.rightIter.mark
    ensures r.1.leftIter == st.leftIter && (st.leftRecord.Some? ==> r.1.leftRecord == st.leftRecord)
  {
    var (right, ri) := Next(st.rightIter).value;
    var st1 := st.(rightIter := ri);
    var st2 := if st1.flag.Unstarted? then st1.(flag := Marked, rightIter := Mark(st1.rightIter)) else st1;
    (right, if st2.leftRecord.None? then st2.(leftRecord := Some(left)) else st2)
  }

  /** The inner while loop: while the join values differ, a smaller left
      value moves the left cursor on and rewinds the right cursor to its mark,
      and a smaller right value moves the right cursor on and makes the mark
      due; a side that runs out ends the call with false. Equal values buffer
      the joined record. */
  function Seek(st: MergeState, left: Record, right: Record, lc: nat, rc: nat): (r: (bool, MergeState))
    requires WF(st) && !st.flag.Unstarted? && st.nextRecord.None?
    ensures WF(r.1) && (r.0 <==> r.1.nextRecord.Some?)
    decreases st.leftIter.Remaining(), st.rightIter.Remaining()
  {
    var c := Compare(left, right, lc, rc);
    if c == 0 then (true, st.(nextRecord := Some(left + right)))
    else if c < 0 then
      if !st.leftIter.HasNext() then (false, st)
      else
        var (l, li) := Next(st.leftIter).value;
        var (rgt, ri) := Next(Reset(st.rightIter)).value;
        Seek(st.(leftIter := li, leftRecord := Some(l), rightIter := ri), l, rgt, lc, rc)
    else
      if !st.rightIter.HasNext() then (false, st)
      else
        var (rgt, ri) := Next(st.rightIter).value;
        Seek(st.(rightIter := ri, flag := MarkDue), left, rgt, lc, rc)
  }

  /** hasNext. */
  function HasNext(st: MergeState, lc: nat, rc: nat): (r: (bool, MergeState))
    requires WF(st)
    ensures WF(r.1) && (r.0 <==> r.1.nextRecord.Some?)
    ensures st.nextRecord.Some? ==> r == (true, st)
    decreases st.leftIter.Remaining()
  {
    if st.nextRecord.Some? then (true, st)
    else if !(st.leftIter.HasNext() || st.leftRecord.Some?) then (false, st)
    else
      var (left, st2) := TakeLeft(PlaceDueMark(st));
      if !st2.rightIter.HasNext() then
        if st2.leftIter.HasNext() then HasNext(Rewind(st2), lc, rc)
        else (false, st2)
      else
        var (right, st3) := FirstRight(st2, left);
        Seek(st3, left, right, lc, rc)
  }

  /** next(): returns the buffered record and clears the buffer, or throws
      NoSuchElementException when nothing is buffered. */
  function Yield(st: MergeState): (r: Result<(Record, MergeState)>)
    ensures r.Fail? <==> st.nextRecord.None?
    ensures r.Fail? ==> r.error == NoSuchElement
    ensures r.Ok? ==> r.value.0 == st.nextRecord.value && r.value.1 == st.(nextRecord := None)
  {
    if st.nextRecord.Some? then Ok((st.nextRecord.value, st.(nextRecord := None))) else Fail(NoSuchElement)
  }

  /** One round of a client's iteration: hasNext, then next if it said true. */
  function Step(st: MergeState, lc: nat, rc: nat): (r: Option<(Record, MergeState)>)
    requires WF(st)
    ensures r.Some? ==> WF(r.value.1) && r.value.1.nextRecord.None?
  {
    var (more, st1) := HasNext(st, lc, rc);
    if more then Some(Yield(st1).value) else None
  }

  /** The records a client obtains by calling hasNext and next until hasNext
      returns false. */
  function Drain(st: MergeState, lc: nat, rc: nat): seq<Record>
    requires WF(st)
    decreases st.leftIter.Remaining(), st.rightIter.Remaining(), if st.nextRecord.Some? then 1 else 0
  {
    match Step(st, lc, rc)
    case None => []
    case Some((x, st')) =>
      StepProgress(st, lc, rc);
      [x] + Drain(st', lc, rc)
  }

  /* ---------------------------------------------------------------------- */
  /* Progress                                                               */
  /* ---------------------------------------------------------------------- */

  /** `st'` has read more than `st`: more left records, or as many left
      records and more right records. */
  ghost predicate Ahead(st: MergeState, st': MergeState)
  {
    || st'.leftIter.Remaining() < st.leftIter.Remaining()
    || (st'.leftIter.Remaining() == st.leftIter.Remaining() && st'.rightIter.Remaining() < st.rightIter.Remaining())
  }

  /** `st'` is `st` or ahead of it. */
  ghost predicate AheadOrSame(st: MergeState, st': MergeState)
  {
    || st'.leftIter.Remaining() < st.leftIter.Remaining()
    || (st'.leftIter.Remaining() == st.leftIter.Remaining() && st'.rightIter.Remaining() <= st.rightIter.Remaining())
  }

  /** The inner loop never moves back. */
  lemma {:induction false} SeekProgress(st: MergeState, left: Record, right: Record, lc: nat, rc: nat)
    requires WF(st) && !st.flag.Unstarted? && st.nextRecord.None?
    ensures AheadOrSame(st, Seek(st, left, right, lc, rc).1)
    decreases st.leftIter.Remaining(), st.rightIter.Remaining()
  {
    var c := Compare(left, right, lc, rc);
    if c < 0 && st.leftIter.HasNext() {
      var (l, li) := Next(st.leftIter).value;
      var (rgt, ri) := Next(Reset(st.rightIter)).value;
      SeekProgress(st.(leftIter := li, leftRecord := Some(l), rightIter := ri), l, rgt, lc, rc);
    } else if c > 0 && st.rightIter.HasNext() {
      var (rgt, ri) := Next(st.rightIter).value;
      SeekProgress(st.(rightIter := ri, flag := MarkDue), left, rgt, lc, rc);
    }
  }

  /** A hasNext that finds a record has read at least one more record. */
  lemma {:induction false} HasNextProgress(st: MergeState, lc: nat, rc: nat)
    requires WF(st) && st.nextRecord.None?
    ensures HasNext(st, lc, rc).0 ==> Ahead(st, HasNext(st, lc, rc).1)
    decreases st.leftIter.Remaining()
  {
    if st.leftIter.HasNext() || st.leftRecord.Some? {
      var (left, st2) := TakeLeft(PlaceDueMark(st));
      if !st2.rightIter.HasNext() {
        if st2.leftIter.HasNext() {
          HasNextProgress(Rewind(st2), lc, rc);
        }
      } else {
        var (right, st3) := FirstRight(st2, left);
        SeekProgress(st3, left, right, lc, rc);
      }
    }
  }

  /** Every round that yields a record moves the iterator forward. */
  lemma StepProgress(st: MergeState, lc: nat, rc: nat)
    requires WF(st)
    ensures Step(st, lc, rc).Some? ==>
              var st' := Step(st, lc, rc).value.1;
              || Ahead(st, st')
              || (st'.leftIter.Remaining() == st.leftIter.Remaining()
                  && st'.rightIter.Remaining() == st.rightIter.Remaining() && st.nextRecord.Some?)
  {
    if st.nextRecord.None? {
      HasNextProgress(st, lc, rc);
    }
  }

  /* ---------------------------------------------------------------------- */
  /* What remains to be emitted                                             */
  /* ---------------------------------------------------------------------- */

  /** Every one of the first `n` records of `rs` has a join value below `k`. */
  ghost predicate KeysBelow(rs: seq<Record>, n: nat, rc: nat, k: Value)
  {
    forall i :: 0 <= i < n && i < |rs| ==> KeyAt(rs, i, rc) < k
  }

  /** What the merge keeps for sorted inputs. The held left record is the
      left record read last. A mark, placed or due, never lies past the first
      right record with the held record's join value: every right record
      before it has a smaller value. Before the first mark nothing has been
      read from the right side. */
  ghost predicate Inv(st: MergeState, lc: nat, rc: nat)
  {
    && WF(st)
    && Sorted(st.leftIter.items, lc) && Sorted(st.rightIter.items, rc)
    && (st.leftRecord.None? ==> st.flag.Unstarted?)
    && (st.flag.Unstarted? ==> st.rightIter.pos == 0 && st.rightIter.mark.None?)
    && (st.leftRecord.Some? ==>
          && st.leftIter.pos >= 1 && st.leftRecord.value == st.leftIter.items[st.leftIter.pos - 1]
          && (st.rightIter.mark.Some? ==>
                KeysBelow(st.rightIter.items, st.rightIter.mark.value, rc, Key(st.leftRecord.value, lc)))
          && (st.flag.MarkDue? ==>
                KeysBelow(st.rightIter.items, st.rightIter.pos - 1, rc, Key(st.leftRecord.value, lc))))
  }

  /** Everything the iterator still emits from `st`: the buffered record,
      the held left record's matches among the right records not yet read,
      then every later left record against all right records. */
  function Rest(st: MergeState, lc: nat, rc: nat): seq<Record>
    requires WF(st)
  {
    (if st.nextRecord.Some? then [st.nextRecord.value] else [])
    + ((if st.leftRecord.Some? then Matches(st.leftRecord.value, st.rightIter.items[st.rightIter.pos..], lc, rc) else [])
       + RecordJoin(st.leftIter.items[st.leftIter.pos..], st.rightIter.items, lc, rc))
  }

  /** Inside the inner loop: `left` held, `right` the right record read last. */
  ghost predicate SeekInv(st: MergeState, left: Record, right: Record, lc: nat, rc: nat)
  {
    && Inv(st, lc, rc) && st.nextRecord.None? && !st.flag.Unstarted?
    && st.leftRecord == Some(left) && st.rightIter.pos >= 1
    && right == st.rightIter.items[st.rightIter.pos - 1]
  }

  /** What remains inside the inner loop: `left` against `right` and the
      right records after it, then every later left record. */
  function SeekRest(st: MergeState, left: Record, lc: nat, rc: nat): seq<Record>
    requires WF(st) && st.rightIter.pos >= 1
  {
    Matches(left, st.rightIter.items[st.rightIter.pos - 1..], lc, rc)
    + RecordJoin(st.leftIter.items[st.leftIter.pos..], st.rightIter.items, lc, rc)
  }

  /* ---------------------------------------------------------------------- */
  /* Facts about matches in sorted sequences                                */
  /* ---------------------------------------------------------------------- */

  /** A record matches nothing among records whose join values all differ
      from its own. */
  lemma {:induction false} MatchesNone(l: Record, rs: seq<Record>, lc: nat, rc: nat)
    requires forall i :: 0 <= i < |rs| ==> KeyAt(rs, i, rc) != Key(l, lc)
    ensures Matches(l, rs, lc, rc) == []
    decreases |rs|
  {
    if rs != [] {
      assert KeyAt(rs, 0, rc) != Key(l, lc);
      forall i | 0 <= i < |rs[1..]|
        ensures KeyAt(rs[1..], i, rc) != Key(l, lc)
      {
        assert KeyAt(rs[1..], i, rc) == KeyAt(rs, i + 1, rc);
      }
      MatchesNone(l, rs[1..], lc, rc);
    }
  }

  /** Right records below a record's join value can be skipped. */
  lemma MatchesFrom(l: Record, rs: seq<Record>, m: nat, lc: nat, rc: nat)
    requires m <= |rs| && KeysBelow(rs, m, rc, Key(l, lc))
    ensures Matches(l, rs, lc, rc) == Matches(l, rs[m..], lc, rc)
  {
    assert rs == rs[..m] + rs[m..];
    MatchesAppend(l, rs[..m], rs[m..], lc, rc);
    forall i | 0 <= i < |rs[..m]|
      ensures KeyAt(rs[..m], i, rc) != Key(l, lc)
    {
      assert KeyAt(rs[..m], i, rc) == KeyAt(rs, i, rc);
    }
    MatchesNone(l, rs[..m], lc, rc);
  }

  /** In a sorted sequence, nothing from a record with a larger join value on
      matches. */
  lemma MatchesAbove(l: Record, rs: seq<Record>, p: nat, lc: nat, rc: nat)
    requires Sorted(rs, rc) && p < |rs| && Key(l, lc) < KeyAt(rs, p, rc)
    ensures Matches(l, rs[p..], lc, rc) == []
  {
    forall i | 0 <= i < |rs[p..]|
      ensures KeyAt(rs[p..], i, rc) != Key(l, lc)
    {
      assert KeyAt(rs[p..], i, rc) == KeyAt(rs, p + i, rc);
    }
    MatchesNone(l, rs[p..], lc, rc);
  }

  /** Left records whose join values lie above every right value join with
      nothing. */
  lemma {:induction false} RecordJoinAbove(ls: seq<Record>, rs: seq<Record>, k: Value, lc: nat, rc: nat)
    requires forall i :: 0 <= i < |ls| ==> k < KeyAt(ls, i, lc)
    requires forall j :: 0 <= j < |rs| ==> KeyAt(rs, j, rc) <= k
    ensures RecordJoin(ls, rs, lc, rc) == []
    decreases |ls|
  {
    if ls != [] {
      assert k < KeyAt(ls, 0, lc);
      MatchesNone(ls[0], rs, lc, rc);
      forall i | 0 <= i < |ls[1..]|
        ensures k < KeyAt(ls[1..], i, lc)
      {
        assert KeyAt(ls[1..], i, lc) == KeyAt(ls, i + 1, lc);
      }
      RecordJoinAbove(ls[1..], rs, k, lc, rc);
    }
  }

  /* ---------------------------------------------------------------------- */
  /* The inner loop emits exactly the remaining join                        */
  /* ---------------------------------------------------------------------- */

  /** The left value is smaller: the next left record is held, and the right
      cursor rewinds to the mark, which lies at or before the first right
      record with that record's value. */
  lemma SeekLeftStep(st: MergeState, left: Record, right: Record, lc: nat, rc: nat)
    requires SeekInv(st, left, right, lc, rc) && Key(left, lc) < Key(right, rc)
    requires st.leftIter.HasNext()
    ensures Next(Reset(st.rightIter)).Ok?
    ensures
      var (l, li) := Next(st.leftIter).value;
      var (rgt, ri) := Next(Reset(st.rightIter)).value;
      var st' := st.(leftIter := li, leftRecord := Some(l), rightIter := ri);
      SeekInv(st', l, rgt, lc, rc) && SeekRest(st', l, lc, rc) == SeekRest(st, left, lc, rc)
  {
    var ls, rs := st.leftIter.items, st.rightIter.items;
    var p, m := st.leftIter.pos, st.rightIter.mark.value;
    var (l, li) := Next(st.leftIter).value;
    var (rgt, ri) := Next(Reset(st.rightIter)).value;
    var st' := st.(leftIter := li, leftRecord := Some(l), rightIter := ri);
    assert KeyAt(ls, p - 1, lc) <= KeyAt(ls, p, lc);
    assert ri.pos == m + 1;
    forall i | 0 <= i < m + 1 - 1 && i < |rs|
      ensures KeyAt(rs, i, rc) < Key(l, lc)
    {
      assert KeyAt(rs, i, rc) < Key(left, lc);
    }
    assert SeekInv(st', l, rgt, lc, rc);
    MatchesAbove(left, rs, st.rightIter.pos - 1, lc, rc);
    RecordJoinAt(ls, p, rs, lc, rc);
    MatchesFrom(l, rs, m, lc, rc);
  }

  /** The right value is smaller: the next right record is compared and the
      mark becomes due; every right record up to the one just passed lies
      below the held left value. */
  lemma SeekRightStep(st: MergeState, left: Record, right: Record, lc: nat, rc: nat)
    requires SeekInv(st, left, right, lc, rc) && Key(right, rc) < Key(left, lc)
    requires st.rightIter.HasNext()
    ensures
      var (rgt, ri) := Next(st.rightIter).value;
      var st' := st.(rightIter := ri, flag := MarkDue);
      SeekInv(st', left, rgt, lc, rc) && SeekRest(st', left, lc, rc) == SeekRest(st, left, lc, rc)
  {
    var rs, q := st.rightIter.items, st.rightIter.pos;
    var (rgt, ri) := Next(st.rightIter).value;
    var st' := st.(rightIter := ri, flag := MarkDue);
    forall i | 0 <= i < q && i < |rs|
      ensures KeyAt(rs, i, rc) < Key(left, lc)
    {
      assert KeyAt(rs, i, rc) <= KeyAt(rs, q - 1, rc);
    }
    assert SeekInv(st', left, rgt, lc, rc);
    MatchesAt(left, rs, q - 1, lc, rc);
  }

  /** A side ran out while the values differ: nothing of the join remains. */
  lemma SeekStops(st: MergeState, left: Record, right: Record, lc: nat, rc: nat)
    requires SeekInv(st, left, right, lc, rc) && Key(left, lc) != Key(right, rc)
    requires Key(left, lc) < Key(right, rc) ==> !st.leftIter.HasNext()
    requires Key(right, rc) < Key(left, lc) ==> !st.rightIter.HasNext()
    ensures Rest(st, lc, rc) == [] && SeekRest(st, left, lc, rc) == []
  {
    var ls, rs := st.leftIter.items, st.rightIter.items;
    var p, q := st.leftIter.pos, st.rightIter.pos;
    if Key(left, lc) < Key(right, rc) {
      MatchesAbove(left, rs, q - 1, lc, rc);
      MatchesAt(left, rs, q - 1, lc, rc);
      assert ls[p..] == [];
    } else {
      assert rs[q..] == [];
      MatchesAt(left, rs, q - 1, lc, rc);
      forall i | 0 <= i < |ls[p..]|
        ensures Key(right, rc) < KeyAt(ls[p..], i, lc)
      {
        assert KeyAt(ls[p..], i, lc) == KeyAt(ls, p + i, lc);
        assert KeyAt(ls, p - 1, lc) <= KeyAt(ls, p + i, lc);
      }
      forall j | 0 <= j < |rs|
        ensures KeyAt(rs, j, rc) <= Key(right, rc)
      {
        if j < q - 1 { assert KeyAt(rs, j, rc) <= KeyAt(rs, q - 1, rc); }
      }
      RecordJoinAbove(ls[p..], rs, Key(right, rc), lc, rc);
    }
  }

  /** The inner loop keeps the invariant and emits what remained: the held
      record against the right records from the one under comparison on,
      then every later left record. */
  lemma {:induction false} SeekKeepsRest(st: MergeState, left: Record, right: Record, lc: nat, rc: nat)
    requires SeekInv(st, left, right, lc, rc)
    ensures Inv(Seek(st, left, right, lc, rc).1, lc, rc)
    ensures Rest(Seek(st, left, right, lc, rc).1, lc, rc) == SeekRest(st, left, lc, rc)
    ensures !Seek(st, left, right, lc, rc).0 ==> SeekRest(st, left, lc, rc) == []
    decreases st.leftIter.Remaining(), st.rightIter.Remaining()
  {
    var c := Compare(left, right, lc, rc);
    if c == 0 {
      MatchesAt(left, st.rightIter.items, st.rightIter.pos - 1, lc, rc);
      var q := st.rightIter.pos;
      AppendAssoc([left + right], Matches(left, st.rightIter.items[q..], lc, rc),
                  RecordJoin(st.leftIter.items[st.leftIter.pos..], st.rightIter.items, lc, rc));
    } else if c < 0 {
      if !st.leftIter.HasNext() {
        SeekStops(st, left, right, lc, rc);
      } else {
        SeekLeftStep(st, left, right, lc, rc);
        var (l, li) := Next(st.leftIter).value;
        var (rgt, ri) := Next(Reset(st.rightIter)).value;
        SeekKeepsRest(st.(leftIter := li, leftRecord := Some(l), rightIter := ri), l, rgt, lc, rc);
      }
    } else {
      if !st.rightIter.HasNext() {
        SeekStops(st, left, right, lc, rc);
      } else {
        SeekRightStep(st, left, right, lc, rc);
        var (rgt, ri) := Next(st.rightIter).value;
        SeekKeepsRest(st.(rightIter := ri, flag := MarkDue), left, rgt, lc, rc);
      }
    }
  }

  /* ---------------------------------------------------------------------- */
  /* hasNext emits exactly the remaining join                               */
  /* ---------------------------------------------------------------------- */

  /** Placing a due mark keeps the invariant and what remains. */
  lemma PlaceDueMarkKeepsRest(st: MergeState, lc: nat, rc: nat)
    requires Inv(st, lc, rc)
    ensures Inv(PlaceDueMark(st), lc, rc) && Rest(PlaceDueMark(st), lc, rc) == Rest(st, lc, rc)
  {
  }

  /** The first comparison of a call starts the inner loop in its invariant,
      owing exactly what remained before the call. */
  lemma FirstRightStartsSeek(st: MergeState, lc: nat, rc: nat)
    requires Inv(st, lc, rc) && !st.flag.MarkDue? && st.nextRecord.None?
    requires st.leftRecord.Some? || st.leftIter.HasNext()
    requires TakeLeft(st).1.rightIter.HasNext()
    ensures
      var (left, st2) := TakeLeft(st);
      var (right, st3) := FirstRight(st2, left);
      SeekInv(st3, left, right, lc, rc) && SeekRest(st3, left, lc, rc) == Rest(st, lc, rc)
  {
    var (left, st2) := TakeLeft(st);
    var (right, st3) := FirstRight(st2, left);
    var ls, rs := st.leftIter.items, st.rightIter.items;
    if st.leftRecord.None? {
      assert st.rightIter.pos == 0 && rs[0..] == rs;
      RecordJoinAt(ls, st.leftIter.pos, rs, lc, rc);
      assert SeekInv(st3, left, right, lc, rc);
    } else {
      assert SeekInv(st3, left, right, lc, rc);
    }
  }

  /** The right cursor ran out: holding the next left record and rewinding
      to the mark keeps the invariant and what remains. */
  lemma RewindKeepsRest(st: MergeState, lc: nat, rc: nat)
    requires Inv(st, lc, rc) && !st.flag.MarkDue? && st.nextRecord.None?
    requires st.leftRecord.Some? || st.leftIter.HasNext()
    requires !TakeLeft(st).1.rightIter.HasNext() && TakeLeft(st).1.leftIter.HasNext()
    ensures Inv(Rewind(TakeLeft(st).1), lc, rc) && Rest(Rewind(TakeLeft(st).1), lc, rc) == Rest(st, lc, rc)
  {
    var st2 := TakeLeft(st).1;
    var st4 := Rewind(st2);
    var ls, rs := st.leftIter.items, st.rightIter.items;
    var p := st2.leftIter.pos;
    var l' := ls[p];
    if st.rightIter.mark.Some? {
      var m := st.rightIter.mark.value;
      var l := st.leftRecord.value;
      assert KeyAt(ls, p - 1, lc) <= KeyAt(ls, p, lc);
      forall i | 0 <= i < m && i < |rs|
        ensures KeyAt(rs, i, rc) < Key(l', lc)
      {
        assert KeyAt(rs, i, rc) < Key(l, lc);
      }
      assert Inv(st4, lc, rc);
      MatchesFrom(l', rs, m, lc, rc);
      RecordJoinAt(ls, p, rs, lc, rc);
      assert rs[st.rightIter.pos..] == [];
    } else {
      assert rs == [];
      RecordJoinEmptyRight(ls[p..], lc, rc);
      RecordJoinEmptyRight(ls[st.leftIter.pos..], lc, rc);
      assert Inv(st4, lc, rc);
    }
  }

  /** A call that returns false without the inner loop leaves nothing. */
  lemma ExhaustedLeavesNothing(st: MergeState, lc: nat, rc: nat)
    requires Inv(st, lc, rc) && !st.flag.MarkDue? && st.nextRecord.None?
    requires st.leftRecord.Some? || st.leftIter.HasNext()
    requires !TakeLeft(st).1.rightIter.HasNext() && !TakeLeft(st).1.leftIter.HasNext()
    ensures Inv(TakeLeft(st).1, lc, rc) && Rest(TakeLeft(st).1, lc, rc) == Rest(st, lc, rc) == []
  {
    var st2 := TakeLeft(st).1;
    var ls, rs := st.leftIter.items, st.rightIter.items;
    assert ls[st2.leftIter.pos..] == [] && rs[st.rightIter.pos..] == [];
    if st.leftRecord.None? {
      assert rs == [];
      RecordJoinEmptyRight(ls[st.leftIter.pos..], lc, rc);
    }
  }

  /** hasNext keeps the invariant, and what it buffers followed by what
      remains after it is what remained before it. */
  lemma {:induction false} HasNextKeepsRest(st: MergeState, lc: nat, rc: nat)
    requires Inv(st, lc, rc)
    ensures Inv(HasNext(st, lc, rc).1, lc, rc)
    ensures Rest(HasNext(st, lc, rc).1, lc, rc) == Rest(st, lc, rc)
    ensures !HasNext(st, lc, rc).0 ==> Rest(st, lc, rc) == []
    decreases st.leftIter.Remaining()
  {
    if st.nextRecord.None? && (st.leftIter.HasNext() || st.leftRecord.Some?) {
      PlaceDueMarkKeepsRest(st, lc, rc);
      var st1 := PlaceDueMark(st);
      var (left, st2) := TakeLeft(st1);
      if !st2.rightIter.HasNext() {
        if st2.leftIter.HasNext() {
          RewindKeepsRest(st1, lc, rc);
          HasNextKeepsRest(Rewind(st2), lc, rc);
        } else {
          ExhaustedLeavesNothing(st1, lc, rc);
        }
      } else {
        FirstRightStartsSeek(st1, lc, rc);
        var (right, st3) := FirstRight(st2, left);
        SeekKeepsRest(st3, left, right, lc, rc);
      }
    } else if st.nextRecord.None? {
      assert st.leftIter.items[st.leftIter.pos..] == [];
    }
  }

  /** Iterating to the end yields exactly what remains. */
  lemma {:induction false} DrainIsRest(st: MergeState, lc: nat, rc: nat)
    requires Inv(st, lc, rc)
    ensures Drain(st, lc, rc) == Rest(st, lc, rc)
    decreases st.leftIter.Remaining(), st.rightIter.Remaining(), if st.nextRecord.Some? then 1 else 0
  {
    HasNextKeepsRest(st, lc, rc);
    StepProgress(st, lc, rc);
    var (more, st1) := HasNext(st, lc, rc);
    if more {
      var st' := st1.(nextRecord := None);
      assert Rest(st1, lc, rc) == [st1.nextRecord.value] + Rest(st', lc, rc);
      DrainIsRest(st', lc, rc);
    }
  }

  /** On inputs sorted on their join columns the merge emits the nested-loop
      join, in the same order: every left record, in order, against its
      matches among the right records, in order. */
  lemma MergeIsJoin(ls: seq<Record>, rs: seq<Record>, lc: nat, rc: nat)
    requires Sorted(ls, lc) && Sorted(rs, rc)
    ensures Drain(Start(ls, rs), lc, rc) == RecordJoin(ls, rs, lc, rc)
  {
    assert ls[0..] == ls;
    DrainIsRest(Start(ls, rs), lc, rc);
  }

  /* ---------------------------------------------------------------------- */
  /* The operator                                                           */
  /* ---------------------------------------------------------------------- */

  /** What building the iterator and draining it comes to: the joined
      records, the exception one of the two sorts throws, or no answer when a
      sort does not finish. */
  datatype JoinOutcome = Joined(records: seq<Record>) | Threw(error: Error) | Diverges

  /** The operator: sort the left table on its join column, then the right
      table on its, both with `numBuffers` buffers, and merge the two runs. */
  function Output(j: JoinArgs, numBuffers: nat): (o: JoinOutcome)
    requires numBuffers >= 2
    ensures o.Threw? ==> o.error == IndexOutOfBounds
  {
    match ExternalSort.Sort(j.left, numBuffers, j.leftCol)
    case Threw(e) => Threw(e)
    case Diverges => Diverges
    case Returned(ls) =>
      match ExternalSort.Sort(j.right, numBuffers, j.rightCol)
      case Threw(e) => Threw(e)
      case Diverges => Diverges
      case Returned(rs) => Joined(Drain(Start(ls, rs), j.leftCol, j.rightCol))
  }

  /** The operator answers exactly when both sorts return, and then it emits
      the join of the two tables: the same records with the same
      multiplicities as the nested-loop join, and a record exactly when it
      joins a left and a right record with equal join values. */
  lemma OutputIsJoin(j: JoinArgs, numBuffers: nat)
    requires numBuffers >= 2
    ensures Output(j, numBuffers).Joined? <==>
              ExternalSort.Sort(j.left, numBuffers, j.leftCol).Returned?
              && ExternalSort.Sort(j.right, numBuffers, j.rightCol).Returned?
    ensures Output(j, numBuffers).Joined? ==>
              multiset(Output(j, numBuffers).records) == multiset(TableJoin(j))
    ensures Output(j, numBuffers).Joined? ==>
              forall x :: x in Output(j, numBuffers).records <==>
                exists l, r :: l in DataRecords(j.left) && r in DataRecords(j.right)
                               && Key(l, j.leftCol) == Key(r, j.rightCol) && x == l + r
  {
    var o := Output(j, numBuffers);
    if o.Joined? {
      var ls := ExternalSort.Sort(j.left, numBuffers, j.leftCol).run;
      var rs := ExternalSort.Sort(j.right, numBuffers, j.rightCol).run;
      MergeIsJoin(ls, rs, j.leftCol, j.rightCol);
      JoinOfPermutations(j, ls, rs);
      forall x
        ensures x in o.records <==>
                exists l, r :: l in DataRecords(j.left) && r in DataRecords(j.right)
                               && Key(l, j.leftCol) == Key(r, j.rightCol) && x == l + r
      {
        assert x in o.records <==> x in multiset(TableJoin(j));
        RecordJoinMember(DataRecords(j.left), DataRecords(j.right), j.leftCol, j.rightCol, x);
      }
    }
  }

  /** With at least three buffers and non-empty tables the operator never
      runs forever; it answers exactly when each table's page count needs a
      whole number of merge passes. */
  lemma OutputAnswers(j: JoinArgs, numBuffers: nat)
    requires numBuffers >= 3 && j.left.pages != [] && j.right.pages != []
    ensures !Output(j, numBuffers).Diverges?
    ensures Output(j, numBuffers).Joined? <==>
              ExternalSort.IsPowerOf(ExternalSort.Windows(|j.left.pages|, numBuffers - 1), numBuffers - 1)
              && ExternalSort.IsPowerOf(ExternalSort.Windows(|j.right.pages|, numBuffers - 1), numBuffers - 1)
  {
    ExternalSort.SortReturnsIff(j.left, numBuffers, j.leftCol);
    ExternalSort.SortReturnsIff(j.right, numBuffers, j.rightCol);
  }

  /** An empty table makes the operator throw IndexOutOfBoundsException while
      sorting. */
  lemma EmptyTableThrows(j: JoinArgs, numBuffers: nat)
    requires numBuffers >= 2 && (j.left.pages == [] || j.right.pages == [])
    ensures Output(j, numBuffers).Threw? || Output(j, numBuffers).Diverges?
    ensures j.left.pages == [] ==> Output(j, numBuffers) == Threw(IndexOutOfBounds)
  {
    if j.left.pages == [] {
      ExternalSort.SortNoData(j.left, numBuffers, j.leftCol);
    } else {
      ExternalSort.SortNoData(j.right, numBuffers, j.rightCol);
    }
  }

  /** The operator over the corrected sort, which merges a short final
      group and returns an empty run for a table without data: it always
      answers, with the join of the two tables. */
  function OutputFixed(j: JoinArgs, numBuffers: nat): (r: seq<Record>)
    requires numBuffers >= 3
    ensures multiset(r) == multiset(TableJoin(j))
  {
    var ls := ExternalSort.SortFixed(j.left, numBuffers, j.leftCol);
    var rs := ExternalSort.SortFixed(j.right, numBuffers, j.rightCol);
    MergeIsJoin(ls, rs, j.leftCol, j.rightCol);
    JoinOfPermutations(j, ls, rs);
    Drain(Start(ls, rs), j.leftCol, j.rightCol)
  }

  /** Wherever the operator as written answers, the corrected one gives the
      same records with the same multiplicities. */
  lemma OutputFixedAgrees(j: JoinArgs, numBuffers: nat)
    requires numBuffers >= 3 && Output(j, numBuffers).Joined?
    ensures multiset(Output(j, numBuffers).records) == multiset(OutputFixed(j, numBuffers))
  {
    OutputIsJoin(j, numBuffers);
  }
}
