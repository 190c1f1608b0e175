/**
 The page nested-loop join iterator (PNLJIterator): for each left data page,
 for each right data page, for each record of the left page, for each record
 of the right page, emit the concatenation of the two records when their join
 values agree.

 Its block is always the one current left page, so what remains is measured
 with blocks of one page, and the whole output is the nested comprehension
 `BlocksJoin` of the left pages against the right pages.
 */
module PageNestedLoopJoin {
  import opened Common
  import opened Cursor
  import opened JoinSpec
  import opened NestedLoop

  /** The constructor: both header pages are consumed, then the first data
      page of each table becomes current. Either `next()` throws
      NoSuchElementException when its table has no data page. */
  function Init(j: JoinArgs): (r: Result<LoopState>)
    ensures r.Fail? <==> j.left.pages == [] || j.right.pages == []
    ensures r.Fail? ==> r.error == NoSuchElement
    ensures r.Ok? ==> Inv(r.value, j) && r.value.leftRecord.None? && r.value.nextRecord.None?
                      && r.value.block == [j.left.pages[0]]
  {
    var rp := Next(PageIter(j.right)).value.1;
    var lp := Next(PageIter(j.left)).value.1;
    match Next(lp)
    case Fail(e) => Fail(e)
    case Ok((lpage, lp')) =>
      match Next(rp)
      case Fail(e) => Fail(e)
      case Ok((rpage, rp')) =>
        FlattenOne(lpage);
        Ok(LoopState(lp', rp', [lpage], rpage, Open(lpage), Open([]), None, None))
  }

  /** The `leftRecord == null` branch of hasNext: take the next record of the
      current left page; or restart the page against the next right page; or
      load the next left page and restart the right pages; or report the end.
      `LBIter.next()` on an empty left page throws NoSuchElementException. */
  function Advance(st: LoopState, j: JoinArgs): (r: Result<Taken>)
    requires Inv(st, j) && st.leftRecord.None? && st.nextRecord.None?
    ensures r.Ok? && r.value.Took? ==>
              var st' := r.value.st;
              && Inv(st', j) && st'.leftRecord.Some? && st'.nextRecord.None? && OuterLater(st, st')
              && Flatten(st'.block) != [] && (EmptyAhead(st') ==> EmptyAhead(st))
              && Rest(st', j, 1) == Rest(st, j, 1)
    ensures r.Ok? && r.value.Exhausted? ==> r.value.st == st && Rest(st, j, 1) == []
    ensures r.Fail? ==> r.error == NoSuchElement && (Stuck(st) || EmptyAhead(st))
  {
    if st.leftRecords.HasNext() then
      TakeFromBlockKeepsRest(st, j, 1);
      Ok(Took(TakeFromBlock(st)))
    else if !st.rightPages.HasNext() then
      if st.leftPages.HasNext() then
        var (page, lp) := Next(st.leftPages).value;
        FlattenOne(page);
        if page == [] then
          assert st.leftPages.items[st.leftPages.pos..][0] == page;
          Fail(NoSuchElement)
        else
          assert Min(1, st.leftPages.Remaining()) == 1;
          assert st.leftPages.items[st.leftPages.pos .. st.leftPages.pos + 1] == [page];
          LoadBlockKeepsRest(st, j, 1, 1);
          EmptyAheadShrinks(st.leftPages, 1);
          Ok(Took(LoadBlock(lp, [page], j.right)))
      else
        DoneMeansEmpty(st, j, 1);
        Ok(Exhausted(st))
    else if Flatten(st.block) == [] then
      Fail(NoSuchElement)
    else
      NextRightPageKeepsRest(st, j, 1);
      Ok(Took(NextRightPage(st)))
  }

  /** The `while (true)` loop of hasNext, entered with nothing buffered. */
  function Loop(st: LoopState, j: JoinArgs): (r: Result<(bool, LoopState)>)
    requires Inv(st, j) && st.nextRecord.None?
    ensures r.Ok? ==> Inv(r.value.1, j) && (r.value.0 <==> r.value.1.nextRecord.Some?)
    ensures r.Fail? ==> r.error == NoSuchElement
    decreases st.leftPages.Remaining(), st.rightPages.Remaining(), st.leftRecords.Remaining(),
              if st.leftRecord.Some? then 1 else 0
  {
    var taken: Result<Taken> := if st.leftRecord.Some? then Ok(Took(st)) else Advance(st, j);
    match taken
    case Fail(e) => Fail(e)
    case Ok(Exhausted(st1)) => Ok((false, st1))
    case Ok(Took(st1)) =>
      ScanKeepsRest(st1, j, 1);
      var (found, st2) := ScanState(st1, j.leftCol, j.rightCol);
      if found then Ok((true, st2)) else Loop(st2, j)
  }

  /** hasNext: true at once while a record is buffered. */
  function HasNext(st: LoopState, j: JoinArgs): (r: Result<(bool, LoopState)>)
    requires Inv(st, j)
    ensures st.nextRecord.Some? ==> r == Ok((true, st))
    ensures r.Ok? ==> Inv(r.value.1, j) && (r.value.0 <==> r.value.1.nextRecord.Some?)
    ensures r.Fail? ==> r.error == NoSuchElement
  {
    if st.nextRecord.Some? then Ok((true, st)) else Loop(st, j)
  }

  /** One round of a client's iteration: hasNext, then next if it said true. */
  function Step(st: LoopState, j: JoinArgs): (r: Result<Option<(Record, LoopState)>>)
    requires Inv(st, j)
    ensures r.Ok? && r.value.Some? ==> Inv(r.value.value.1, j) && r.value.value.1.nextRecord.None?
    ensures r.Fail? ==> r.error == NoSuchElement
  {
    match HasNext(st, j)
    case Fail(e) => Fail(e)
    case Ok((more, st1)) =>
      if more then
        YieldTakesHead(st1, j, 1);
        Ok(Some(Yield(st1).value))
      else Ok(None)
  }

  /** The records a client obtains by calling hasNext and next until hasNext
      returns false; an exception from hasNext ends the iteration with it. */
  function Drain(st: LoopState, j: JoinArgs): (r: Result<seq<Record>>)
    requires Inv(st, j)
    ensures r.Fail? ==> r.error == NoSuchElement
    decreases st.leftPages.Remaining(), st.rightPages.Remaining(), st.leftRecords.Remaining(),
              if st.leftRecord.Some? then 1 else 0, st.rightRecords.Remaining(),
              if st.nextRecord.Some? then 1 else 0
  {
    match Step(st, j)
    case Fail(e) => Fail(e)
    case Ok(None) => Ok([])
    case Ok(Some((x, st'))) =>
      StepProgress(st, j);
      match Drain(st', j)
      case Fail(e) => Fail(e)
      case Ok(xs) => Ok([x] + xs)
  }

  /** The whole join: construct the iterator and drain it. */
  function Output(j: JoinArgs): (r: Result<seq<Record>>)
    ensures j.left.pages == [] || j.right.pages == [] ==> r == Fail(NoSuchElement)
    ensures r.Fail? ==> r.error == NoSuchElement
  {
    match Init(j)
    case Fail(e) => Fail(e)
    case Ok(st) => Drain(st, j)
  }

  /* ---------------------------------------------------------------------- */
  /* Correctness                                                            */
  /* ---------------------------------------------------------------------- */

  /** The loop buffers the next record of what remains, or returns false only
      when nothing remains; it throws only when the current page or a left
      page ahead is empty. */
  lemma {:induction false} LoopKeepsRest(st: LoopState, j: JoinArgs)
    requires Inv(st, j) && st.nextRecord.None?
    ensures Loop(st, j).Ok? && Loop(st, j).value.0 ==> Rest(Loop(st, j).value.1, j, 1) == Rest(st, j, 1)
    ensures Loop(st, j).Ok? && !Loop(st, j).value.0 ==> Rest(st, j, 1) == []
    ensures Loop(st, j).Fail? ==> Loop(st, j).error == NoSuchElement && (Stuck(st) || EmptyAhead(st))
    ensures Loop(st, j).Ok? && Loop(st, j).value.0 ==>
              && (!Stuck(st) ==> !Stuck(Loop(st, j).value.1))
              && (EmptyAhead(Loop(st, j).value.1) ==> EmptyAhead(st))
    decreases st.leftPages.Remaining(), st.rightPages.Remaining(), st.leftRecords.Remaining(),
              if st.leftRecord.Some? then 1 else 0
  {
    var taken: Result<Taken> := if st.leftRecord.Some? then Ok(Took(st)) else Advance(st, j);
    if taken.Ok? && taken.value.Took? {
      var st1 := taken.value.st;
      ScanKeepsRest(st1, j, 1);
      var (found, st2) := ScanState(st1, j.leftCol, j.rightCol);
      if !found {
        assert Loop(st, j) == Loop(st2, j);
        LoopKeepsRest(st2, j);
      }
    }
  }

  /** A loop that buffers a record has moved the iterator forward. */
  lemma {:induction false} LoopProgress(st: LoopState, j: JoinArgs)
    requires Inv(st, j) && st.nextRecord.None?
    ensures Loop(st, j).Ok? && Loop(st, j).value.0 ==> Later(st, Loop(st, j).value.1)
    decreases st.leftPages.Remaining(), st.rightPages.Remaining(), st.leftRecords.Remaining(),
              if st.leftRecord.Some? then 1 else 0
  {
    var taken: Result<Taken> := if st.leftRecord.Some? then Ok(Took(st)) else Advance(st, j);
    if taken.Ok? && taken.value.Took? {
      var st1 := taken.value.st;
      ScanKeepsRest(st1, j, 1);
      var (found, st2) := ScanState(st1, j.leftCol, j.rightCol);
      assert OuterLater(st, st2) || (st1 == st && OuterSame(st, st2)) by {
        if st.leftRecord.None? {
          OuterLaterTrans(st, st1, st2);
        }
      }
      if !found {
        assert Loop(st, j) == Loop(st2, j);
        LoopProgress(st2, j);
        var r := Loop(st2, j);
        if r.Ok? && r.value.0 {
          OuterLaterTrans(st, st2, r.value.1);
        }
      }
    }
  }

  /** Every round that yields a record moves the iterator forward. */
  lemma StepProgress(st: LoopState, j: JoinArgs)
    requires Inv(st, j)
    ensures Step(st, j).Ok? && Step(st, j).value.Some? ==> Later(st, Step(st, j).value.value.1)
  {
    if st.nextRecord.None? {
      LoopProgress(st, j);
    }
  }

  /** Draining from any reachable state emits exactly what remains, provided
      no left page it still reads is empty and the current one has records
      unless no right page is left. */
  lemma {:induction false} DrainIsRest(st: LoopState, j: JoinArgs)
    requires Inv(st, j) && !Stuck(st) && !EmptyAhead(st)
    ensures Drain(st, j) == Ok(Rest(st, j, 1))
    decreases st.leftPages.Remaining(), st.rightPages.Remaining(), st.leftRecords.Remaining(),
              if st.leftRecord.Some? then 1 else 0, st.rightRecords.Remaining(),
              if st.nextRecord.Some? then 1 else 0
  {
    var st1 := st;
    if st.nextRecord.None? {
      LoopKeepsRest(st, j);
      if Loop(st, j).Ok? {
        st1 := Loop(st, j).value.1;
      }
    }
    if Step(st, j).Ok? && Step(st, j).value.Some? {
      YieldTakesHead(st1, j, 1);
      var (x, st2) := Step(st, j).value.value;
      StepProgress(st, j);
      DrainIsRest(st2, j);
    }
  }

  /** Right after construction, what remains is the whole comprehension of
      the left pages against the right pages. */
  lemma InitRest(j: JoinArgs)
    requires j.left.pages != [] && j.right.pages != []
    ensures Init(j).Ok? && Rest(Init(j).value, j, 1) == BlocksJoin(j.left.pages, j.right.pages, j.leftCol, j.rightCol)
  {
    var lc, rc := j.leftCol, j.rightCol;
    var st := Init(j).value;
    var lt, rt := j.left.pages, j.right.pages;
    FlattenOne(lt[0]);
    assert st.leftPages.items[st.leftPages.pos..] == lt[1..];
    assert st.rightPages.items[st.rightPages.pos..] == rt[1..];
    assert st.leftRecords.items[st.leftRecords.pos..] == lt[0];
    BlocksOfOne(lt[1..]);
    var tail := BlocksJoin(lt[1..], rt, lc, rc);
    assert Rest(st, j, 1) == RecordJoin(lt[0], rt[0], lc, rc) + (PagesJoin(lt[0], rt[1..], lc, rc) + tail);
    AppendAssoc(RecordJoin(lt[0], rt[0], lc, rc), PagesJoin(lt[0], rt[1..], lc, rc), tail);
    assert PagesJoin(lt[0], rt, lc, rc) == RecordJoin(lt[0], rt[0], lc, rc) + PagesJoin(lt[0], rt[1..], lc, rc);
    assert BlocksJoin(lt, rt, lc, rc) == PagesJoin(lt[0], rt, lc, rc) + tail;
  }

  /** With data pages on both sides, no empty left page after the first, and
      the first empty only when the right table has a single data page, the
      join emits the nested comprehension: left page, then right page, then
      left record, then right record. */
  lemma OutputIsComprehension(j: JoinArgs)
    requires j.left.pages != [] && j.right.pages != [] && FirstEmptyHarmless(j)
    ensures Output(j) == Ok(BlocksJoin(j.left.pages, j.right.pages, j.leftCol, j.rightCol))
  {
    var st := Init(j).value;
    FlattenOne(j.left.pages[0]);
    assert st.leftPages.items[st.leftPages.pos..] == j.left.pages[1..];
    assert st.rightPages.HasNext() <==> |j.right.pages| >= 2;
    InitRest(j);
    DrainIsRest(st, j);
  }

  /** The left pages the iterator can join: every data page after the first
      has records, and so does the first unless the right table has a single
      data page. */
  predicate FirstEmptyHarmless(j: JoinArgs)
  {
    && (forall i :: 1 <= i < |j.left.pages| ==> j.left.pages[i] != [])
    && (j.left.pages != [] && j.left.pages[0] == [] ==> |j.right.pages| == 1)
  }

  /** No empty left page at all is one such case. */
  lemma NoEmptyPageHarmless(j: JoinArgs)
    requires [] !in j.left.pages
    ensures FirstEmptyHarmless(j)
  {
    forall i | 0 <= i < |j.left.pages|
      ensures j.left.pages[i] != []
    {
      assert j.left.pages[i] in j.left.pages;
    }
  }

  /** An empty first left page against a single right data page is skipped:
      left pages [] and [1] against the right page [1] give the one pair. */
  lemma EmptyFirstPageSkipped()
    ensures Output(JoinArgs(Table([], [[], [[1]]]), Table([], [[[1]]]), 0, 0))
            == Ok([[1, 1]])
  {
    var j := JoinArgs(Table([], [[], [[1]]]), Table([], [[[1]]]), 0, 0);
    OutputIsComprehension(j);
    SkippedJoin();
  }

  /** Under the same conditions, the output holds every key-equal pair of a
      left and a right data record, concatenated, as often as the tables
      hold them, and nothing else. */
  lemma OutputIsJoin(j: JoinArgs)
    requires j.left.pages != [] && j.right.pages != [] && FirstEmptyHarmless(j)
    ensures Output(j).Ok? && multiset(Output(j).value) == multiset(TableJoin(j))
    ensures forall x :: x in Output(j).value <==>
              exists l, r :: l in DataRecords(j.left) && r in DataRecords(j.right)
                             && Key(l, j.leftCol) == Key(r, j.rightCol) && x == l + r
  {
    OutputIsComprehension(j);
    BlocksJoinIsRecordJoin(j.left.pages, j.right.pages, j.leftCol, j.rightCol);
    forall x
      ensures x in Output(j).value <==>
              exists l, r :: l in DataRecords(j.left) && r in DataRecords(j.right)
                             && Key(l, j.leftCol) == Key(r, j.rightCol) && x == l + r
    {
      assert x in Output(j).value <==> x in multiset(TableJoin(j));
      RecordJoinMember(DataRecords(j.left), DataRecords(j.right), j.leftCol, j.rightCol, x);
    }
  }

  /** An empty first left data page makes the first hasNext throw
      NoSuchElementException when the right table has a second data page:
      the left page is reread for that right page and the record iterator
      over it has nothing to return. */
  lemma EmptyFirstPageThrows(j: JoinArgs)
    requires j.left.pages != [] && j.left.pages[0] == [] && |j.right.pages| >= 2
    ensures Output(j) == Fail(NoSuchElement)
  {
    var st := Init(j).value;
    FlattenOne(j.left.pages[0]);
    assert Flatten(st.block) == [] && !st.leftRecords.HasNext();
    assert st.rightPages.HasNext();
  }
}
