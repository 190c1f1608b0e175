/**
 The block nested-loop join iterator (BNLJIterator): like the page
 nested-loop join, but its left block is up to `numBuffers` left data pages,
 read together; the right pages restart once per block.

 The block holds `numBuffers` pages, all of the memory budget. A block
 without records that hasNext reads as a refill ends the join, even when left
 pages remain after it; an empty page inside a block that has records does no
 harm. The constructor's first block is different: without records it makes
 the first hasNext throw when the right table has a second data page, and is
 skipped when it has only one.
 */
module BlockNestedLoopJoin {
  import opened Common
  import opened Cursor
  import opened JoinSpec
  import opened NestedLoop

  /** Read in turn, the blocks `bs` reach a block without records that is
      followed by blocks still owing joined records against `rps`: a refill
      that reads that block ends the join and loses those records. */
  predicate LosesRecords(bs: seq<seq<Record>>, rps: seq<Page>, lc: nat, rc: nat)
    decreases |bs|
  {
    && bs != []
    && (|| (bs[0] == [] && BlocksJoin(bs[1..], rps, lc, rc) != [])
        || LosesRecords(bs[1..], rps, lc, rc))
  }

  /** The blocks not yet read lose records in that way. */
  ghost predicate LossAhead(st: LoopState, j: JoinArgs, n: nat)
  {
    && st.leftPages.Valid()
    && LosesRecords(Blocks(st.leftPages.items[st.leftPages.pos..], n), j.right.pages, j.leftCol, j.rightCol)
  }

  /** The block fill: `count` attempts to read a page, each giving null once
      the cursor is exhausted, with the nulls then filtered out. */
  function ReadBlock(c: Cursor<Page>, count: nat): (r: (seq<Page>, Cursor<Page>))
    requires c.Valid()
    ensures r.1.Valid() && r.1.items == c.items && r.1.mark == c.mark
    ensures r.1.pos == c.pos + Min(count, c.Remaining())
    ensures r.0 == c.items[c.pos .. r.1.pos]
    decreases count
  {
    if count == 0 then ([], c)
    else
      var (slot, c1) := if c.HasNext() then (Some(c.items[c.pos]), Next(c).value.1) else (None, c);
      var (rest, c2) := ReadBlock(c1, count - 1);
      assert c.HasNext() ==> c.items[c.pos .. c2.pos] == [c.items[c.pos]] + c.items[c1.pos .. c2.pos];
      ((if slot.Some? then [slot.value] else []) + rest, c2)
  }

  /** The constructor: both header pages are consumed, the first block is
      read, and the first right data page becomes current; that last `next()`
      throws NoSuchElementException when the right table has no data page. */
  function Init(j: JoinArgs, numBuffers: nat): (r: Result<LoopState>)
    ensures r.Fail? <==> j.right.pages == []
    ensures r.Fail? ==> r.error == NoSuchElement
    ensures r.Ok? ==> Inv(r.value, j) && r.value.leftRecord.None? && r.value.nextRecord.None?
                      && r.value.block == j.left.pages[..Min(numBuffers, |j.left.pages|)]
  {
    var rp := Next(PageIter(j.right)).value.1;
    var lp := Next(PageIter(j.left)).value.1;
    var (block, lp') := ReadBlock(lp, numBuffers);
    assert block == j.left.pages[..Min(numBuffers, |j.left.pages|)];
    match Next(rp)
    case Fail(e) => Fail(e)
    case Ok((rpage, rp')) =>
      Ok(LoopState(lp', rp', block, rpage, Open(Flatten(block)), Open([]), None, None))
  }

  /** The `leftRecord == null` branch of hasNext: take the next record of the
      block; or restart the block against the next right page (its first
      `LBIter.next()` throws NoSuchElementException on a block without
      records); or read the next block and restart the right pages, returning
      false, with the new block already installed, when it has no records. */
  function Advance(st: LoopState, j: JoinArgs, numBuffers: nat): (r: Result<Taken>)
    requires Inv(st, j) && st.leftRecord.None? && st.nextRecord.None?
    ensures r.Ok? ==> Inv(r.value.st, j) && r.value.st.nextRecord.None?
    ensures r.Ok? && r.value.Took? ==>
              var st' := r.value.st;
              && st'.leftRecord.Some? && OuterLater(st, st') && Flatten(st'.block) != []
              && Rest(st', j, numBuffers) == Rest(st, j, numBuffers)
    ensures r.Ok? && r.value.Took? ==>
              || r.value.st.leftPages == st.leftPages
              || (&& numBuffers >= 1 && st.leftPages.HasNext()
                  && r.value.st.leftPages == st.leftPages.(pos := st.leftPages.pos + Min(numBuffers, st.leftPages.Remaining())))
    ensures r.Ok? && r.value.Exhausted? ==>
              && r.value.st.leftRecord.None?
              && (numBuffers >= 1 ==> LossAhead(st, j, numBuffers) || Rest(st, j, numBuffers) == [])
    ensures r.Fail? ==> r.error == NoSuchElement && Stuck(st)
  {
    if st.leftRecords.HasNext() then
      TakeFromBlockKeepsRest(st, j, numBuffers);
      Ok(Took(TakeFromBlock(st)))
    else if !st.rightPages.HasNext() then
      var (block, lp) := ReadBlock(st.leftPages, numBuffers);
      if Flatten(block) == [] then
        EmptyBlockEnds(st, j, numBuffers);
        Ok(Exhausted(st.(leftPages := lp, block := block, leftRecords := Open([]))))
      else
        var k := |block|;
        assert numBuffers >= 1 && k == Min(numBuffers, st.leftPages.Remaining());
        assert lp == st.leftPages.(pos := st.leftPages.pos + k);
        LoadBlockKeepsRest(st, j, numBuffers, k);
        Ok(Took(LoadBlock(lp, block, j.right)))
    else if Flatten(st.block) == [] then
      Fail(NoSuchElement)
    else
      NextRightPageKeepsRest(st, j, numBuffers);
      Ok(Took(NextRightPage(st)))
  }

  /** A refill that reads a block without records ends the join, and loses
      something only when the blocks after it still owe joined records;
      otherwise it read no pages, so the left pages were used up. */
  lemma EmptyBlockEnds(st: LoopState, j: JoinArgs, n: nat)
    requires Inv(st, j) && st.leftRecord.None? && st.nextRecord.None?
    requires !st.leftRecords.HasNext() && !st.rightPages.HasNext()
    requires Flatten(ReadBlock(st.leftPages, n).0) == []
    ensures n >= 1 ==> LossAhead(st, j, n) || Rest(st, j, n) == []
  {
    var block := ReadBlock(st.leftPages, n).0;
    if n == 0 {
    } else if block != [] {
      var ps := st.leftPages.items[st.leftPages.pos..];
      var bs := Blocks(ps, n);
      var lc, rc := j.leftCol, j.rightCol;
      assert ps[..Min(n, |ps|)] == block;
      assert bs[0] == Flatten(block) == [];
      if !LossAhead(st, j, n) {
        RestAfterBlock(st, j, n);
        assert st.rightPages.items[st.rightPages.pos..] == [];
        EmptyBlockJoin(j.right.pages, lc, rc);
        assert BlocksJoin(bs, j.right.pages, lc, rc) == PagesJoin([], j.right.pages, lc, rc) + BlocksJoin(bs[1..], j.right.pages, lc, rc);
      }
    } else {
      DoneMeansEmpty(st, j, n);
    }
  }

  /** Loading a block reads exactly the first of the blocks ahead, so the
      blocks left to read are the rest of them. */
  lemma BlocksAfterLoad(lp: Cursor<Page>, n: nat)
    requires lp.Valid() && n >= 1 && lp.HasNext()
    ensures var k := Min(n, lp.Remaining());
            Blocks(lp.items[lp.pos + k..], n) == Blocks(lp.items[lp.pos..], n)[1..]
  {
    var ps := lp.items[lp.pos..];
    BlocksTail(ps, n);
    assert ps[Min(n, |ps|)..] == lp.items[lp.pos + Min(n, lp.Remaining())..];
  }

  /** The blocks after the first are the blocks of the pages after it. */
  lemma BlocksTail(ps: seq<Page>, n: nat)
    requires n >= 1 && ps != []
    ensures Blocks(ps[Min(n, |ps|)..], n) == Blocks(ps, n)[1..]
  {
  }

  /** A refill step reads at most the next block, so it leaves no block
      without records ahead that was not ahead before. */
  lemma AdvanceBlocksAhead(st: LoopState, j: JoinArgs, n: nat)
    requires Inv(st, j) && st.leftRecord.None? && st.nextRecord.None?
    ensures Advance(st, j, n).Ok? && Advance(st, j, n).value.Took? ==>
              (LossAhead(Advance(st, j, n).value.st, j, n) ==> LossAhead(st, j, n))
  {
    var r := Advance(st, j, n);
    if r.Ok? && r.value.Took? && r.value.st.leftPages != st.leftPages {
      LossAfterLoad(st.leftPages, r.value.st.leftPages, j, n);
    }
  }

  /** After a refill that reads the next block, the blocks ahead lose records
      only if they did before it. */
  lemma LossAfterLoad(lp: Cursor<Page>, lp': Cursor<Page>, j: JoinArgs, n: nat)
    requires lp.Valid() && n >= 1 && lp.HasNext()
    requires lp' == lp.(pos := lp.pos + Min(n, lp.Remaining()))
    ensures LosesRecords(Blocks(lp'.items[lp'.pos..], n), j.right.pages, j.leftCol, j.rightCol)
            ==> LosesRecords(Blocks(lp.items[lp.pos..], n), j.right.pages, j.leftCol, j.rightCol)
  {
    BlocksAfterLoad(lp, n);
  }

  /** The `while (true)` loop of hasNext, entered with nothing buffered. */
  function Loop(st: LoopState, j: JoinArgs, numBuffers: nat): (r: Result<(bool, LoopState)>)
    requires Inv(st, j) && st.nextRecord.None?
    ensures r.Ok? ==> Inv(r.value.1, j) && (r.value.0 <==> r.value.1.nextRecord.Some?)
    ensures r.Fail? ==> r.error == NoSuchElement
    decreases st.leftPages.Remaining(), st.rightPages.Remaining(), st.leftRecords.Remaining(),
              if st.leftRecord.Some? then 1 else 0
  {
    var taken: Result<Taken> := if st.leftRecord.Some? then Ok(Took(st)) else Advance(st, j, numBuffers);
    match taken
    case Fail(e) => Fail(e)
    case Ok(Exhausted(st1)) => Ok((false, st1))
    case Ok(Took(st1)) =>
      ScanKeepsRest(st1, j, numBuffers);
      var (found, st2) := ScanState(st1, j.leftCol, j.rightCol);
      if found then Ok((true, st2)) else Loop(st2, j, numBuffers)
  }

  /** hasNext: true at once while a record is buffered. */
  function HasNext(st: LoopState, j: JoinArgs, numBuffers: nat): (r: Result<(bool, LoopState)>)
    requires Inv(st, j)
    ensures st.nextRecord.Some? ==> r == Ok((true, st))
    ensures r.Ok? ==> Inv(r.value.1, j) && (r.value.0 <==> r.value.1.nextRecord.Some?)
    ensures r.Fail? ==> r.error == NoSuchElement
  {
    if st.nextRecord.Some? then Ok((true, st)) else Loop(st, j, numBuffers)
  }

  /** One round of a client's iteration: hasNext, then next if it said true. */
  function Step(st: LoopState, j: JoinArgs, numBuffers: nat): (r: Result<Option<(Record, LoopState)>>)
    requires Inv(st, j)
    ensures r.Ok? && r.value.Some? ==> Inv(r.value.value.1, j) && r.value.value.1.nextRecord.None?
    ensures r.Fail? ==> r.error == NoSuchElement
  {
    match HasNext(st, j, numBuffers)
    case Fail(e) => Fail(e)
    case Ok((more, st1)) =>
      if more then
        YieldTakesHead(st1, j, numBuffers);
        Ok(Some(Yield(st1).value))
      else Ok(None)
  }

  /** The records a client obtains by calling hasNext and next until hasNext
      returns false; an exception from hasNext ends the iteration with it. */
  function Drain(st: LoopState, j: JoinArgs, numBuffers: nat): (r: Result<seq<Record>>)
    requires Inv(st, j)
    ensures r.Fail? ==> r.error == NoSuchElement
    decreases st.leftPages.Remaining(), st.rightPages.Remaining(), st.leftRecords.Remaining(),
              if st.leftRecord.Some? then 1 else 0, st.rightRecords.Remaining(),
              if st.nextRecord.Some? then 1 else 0
  {
    match Step(st, j, numBuffers)
    case Fail(e) => Fail(e)
    case Ok(None) => Ok([])
    case Ok(Some((x, st'))) =>
      StepProgress(st, j, numBuffers);
      match Drain(st', j, numBuffers)
      case Fail(e) => Fail(e)
      case Ok(xs) => Ok([x] + xs)
  }

  /** The whole join: construct the iterator and drain it. */
  function Output(j: JoinArgs, numBuffers: nat): (r: Result<seq<Record>>)
    ensures j.right.pages == [] ==> r == Fail(NoSuchElement)
    ensures r.Fail? ==> r.error == NoSuchElement
  {
    match Init(j, numBuffers)
    case Fail(e) => Fail(e)
    case Ok(st) => Drain(st, j, numBuffers)
  }

  /* ---------------------------------------------------------------------- */
  /* Correctness                                                            */
  /* ---------------------------------------------------------------------- */

  /** The loop buffers the next record of what remains, or returns false only
      when nothing remains or an empty left page lies ahead; it throws only
      when the block it starts with has no records. */
  lemma {:induction false} LoopKeepsRest(st: LoopState, j: JoinArgs, n: nat)
    requires Inv(st, j) && st.nextRecord.None? && n >= 1
    ensures Loop(st, j, n).Ok? && Loop(st, j, n).value.0 ==>
              Rest(Loop(st, j, n).value.1, j, n) == Rest(st, j, n)
    ensures Loop(st, j, n).Ok? && !Loop(st, j, n).value.0 ==> LossAhead(st, j, n) || Rest(st, j, n) == []
    decreases st.leftPages.Remaining(), st.rightPages.Remaining(), st.leftRecords.Remaining(),
              if st.leftRecord.Some? then 1 else 0
  {
    var taken: Result<Taken> := if st.leftRecord.Some? then Ok(Took(st)) else Advance(st, j, n);
    if taken.Ok? && taken.value.Took? {
      var st1 := taken.value.st;
      ScanKeepsRest(st1, j, n);
      var (found, st2) := ScanState(st1, j.leftCol, j.rightCol);
      if !found {
        assert Loop(st, j, n) == Loop(st2, j, n);
        LoopKeepsRest(st2, j, n);
        assert LossAhead(st2, j, n) ==> LossAhead(st, j, n) by {
          assert st2.leftPages == st1.leftPages;
          if st.leftRecord.None? {
            AdvanceBlocksAhead(st, j, n);
          }
        }
      }
    }
  }

  /** The loop throws only when the block it starts with has no records and
      right pages remain. */
  lemma {:induction false} LoopBlock(st: LoopState, j: JoinArgs, n: nat)
    requires Inv(st, j) && st.nextRecord.None?
    ensures Loop(st, j, n).Fail? ==> Loop(st, j, n).error == NoSuchElement && Stuck(st)
    decreases st.leftPages.Remaining(), st.rightPages.Remaining(), st.leftRecords.Remaining(),
              if st.leftRecord.Some? then 1 else 0
  {
    var taken: Result<Taken> := if st.leftRecord.Some? then Ok(Took(st)) else Advance(st, j, n);
    if taken.Ok? && taken.value.Took? {
      var st1 := taken.value.st;
      ScanKeepsRest(st1, j, n);
      var (found, st2) := ScanState(st1, j.leftCol, j.rightCol);
      if !found {
        assert Loop(st, j, n) == Loop(st2, j, n);
        LoopBlock(st2, j, n);
      }
    }
  }

  /** A buffered record comes from a block that has records, and a loop that
      buffers one from a state that is not stuck leaves one that is not stuck
      either. */
  lemma {:induction false} LoopUnstuck(st: LoopState, j: JoinArgs, n: nat)
    requires Inv(st, j) && st.nextRecord.None?
    ensures Loop(st, j, n).Ok? && Loop(st, j, n).value.0 && Flatten(st.block) != [] ==>
              Flatten(Loop(st, j, n).value.1.block) != []
    ensures Loop(st, j, n).Ok? && Loop(st, j, n).value.0 && !Stuck(st) ==> !Stuck(Loop(st, j, n).value.1)
    decreases st.leftPages.Remaining(), st.rightPages.Remaining(), st.leftRecords.Remaining(),
              if st.leftRecord.Some? then 1 else 0
  {
    var taken: Result<Taken> := if st.leftRecord.Some? then Ok(Took(st)) else Advance(st, j, n);
    if taken.Ok? && taken.value.Took? {
      var st1 := taken.value.st;
      ScanKeepsRest(st1, j, n);
      var (found, st2) := ScanState(st1, j.leftCol, j.rightCol);
      if !found {
        assert Loop(st, j, n) == Loop(st2, j, n);
        LoopUnstuck(st2, j, n);
      }
    }
  }

  /** A loop that buffers a record leaves no block without records ahead
      that was not ahead before. */
  lemma {:induction false} LoopBlocksAhead(st: LoopState, j: JoinArgs, n: nat)
    requires Inv(st, j) && st.nextRecord.None?
    ensures Loop(st, j, n).Ok? && Loop(st, j, n).value.0 && LossAhead(Loop(st, j, n).value.1, j, n) ==>
              LossAhead(st, j, n)
    decreases st.leftPages.Remaining(), st.rightPages.Remaining(), st.leftRecords.Remaining(),
              if st.leftRecord.Some? then 1 else 0
  {
    var taken: Result<Taken> := if st.leftRecord.Some? then Ok(Took(st)) else Advance(st, j, n);
    if st.leftRecord.None? {
      AdvanceBlocksAhead(st, j, n);
    }
    if taken.Ok? && taken.value.Took? {
      var st1 := taken.value.st;
      ScanKeepsRest(st1, j, n);
      var (found, st2) := ScanState(st1, j.leftCol, j.rightCol);
      assert st2.leftPages == st1.leftPages;
      if !found {
        assert Loop(st, j, n) == Loop(st2, j, n);
        LoopBlocksAhead(st2, j, n);
      }
    }
  }

  /** A loop that buffers a record has moved the iterator forward. */
  lemma {:induction false} LoopProgress(st: LoopState, j: JoinArgs, n: nat)
    requires Inv(st, j) && st.nextRecord.None?
    ensures Loop(st, j, n).Ok? && Loop(st, j, n).value.0 ==> Later(st, Loop(st, j, n).value.1)
    decreases st.leftPages.Remaining(), st.rightPages.Remaining(), st.leftRecords.Remaining(),
              if st.leftRecord.Some? then 1 else 0
  {
    var taken: Result<Taken> := if st.leftRecord.Some? then Ok(Took(st)) else Advance(st, j, n);
    if taken.Ok? && taken.value.Took? {
      var st1 := taken.value.st;
      ScanKeepsRest(st1, j, n);
      var (found, st2) := ScanState(st1, j.leftCol, j.rightCol);
      assert OuterLater(st, st2) || (st1 == st && OuterSame(st, st2)) by {
        if st.leftRecord.None? {
          OuterLaterTrans(st, st1, st2);
        }
      }
      if !found {
        assert Loop(st, j, n) == Loop(st2, j, n);
        LoopProgress(st2, j, n);
        var r := Loop(st2, j, n);
        if r.Ok? && r.value.0 {
          OuterLaterTrans(st, st2, r.value.1);
        }
      }
    }
  }

  /** Every round that yields a record moves the iterator forward. */
  lemma StepProgress(st: LoopState, j: JoinArgs, n: nat)
    requires Inv(st, j)
    ensures Step(st, j, n).Ok? && Step(st, j, n).value.Some? ==> Later(st, Step(st, j, n).value.value.1)
  {
    if st.nextRecord.None? {
      LoopProgress(st, j, n);
    }
  }

  /** Draining from any reachable state emits exactly what remains, provided
      every block still to be read has records, and the current one does too
      unless no right page is left. */
  lemma {:induction false} DrainIsRest(st: LoopState, j: JoinArgs, n: nat)
    requires Inv(st, j) && n >= 1 && !Stuck(st) && !LossAhead(st, j, n)
    ensures Drain(st, j, n) == Ok(Rest(st, j, n))
    decreases st.leftPages.Remaining(), st.rightPages.Remaining(), st.leftRecords.Remaining(),
              if st.leftRecord.Some? then 1 else 0, st.rightRecords.Remaining(),
              if st.nextRecord.Some? then 1 else 0
  {
    var st1 := st;
    if st.nextRecord.None? {
      LoopKeepsRest(st, j, n);
      LoopBlock(st, j, n);
      LoopUnstuck(st, j, n);
      LoopBlocksAhead(st, j, n);
      if Loop(st, j, n).Ok? {
        st1 := Loop(st, j, n).value.1;
      }
    }
    if Step(st, j, n).Ok? && Step(st, j, n).value.Some? {
      YieldTakesHead(st1, j, n);
      var (x, st2) := Step(st, j, n).value.value;
      StepProgress(st, j, n);
      DrainIsRest(st2, j, n);
    }
  }

  /** The records of leading pages, the first of which has records, are not
      empty. */
  lemma FirstPageNonEmpty(ps: seq<Page>)
    requires ps != [] && ps[0] != []
    ensures Flatten(ps) != []
  {
  }

  /** The constructed iterator: the first block is held as LBIter's records,
      the right pages are at the second data page, and the left pages after
      the block are still to be read. */
  lemma InitShape(j: JoinArgs, n: nat)
    requires j.right.pages != []
    ensures Init(j, n).Ok?
    ensures var st := Init(j, n).value;
            var k := Min(n, |j.left.pages|);
            && st.leftPages.items[st.leftPages.pos..] == j.left.pages[k..]
            && st.rightPages.items[st.rightPages.pos..] == j.right.pages[1..]
            && st.leftRecords.items[st.leftRecords.pos..] == Flatten(j.left.pages[..k])
            && st.rightPage == j.right.pages[0]
  {
    var st := Init(j, n).value;
    var k := Min(n, |j.left.pages|);
    assert st.leftPages.items == [j.left.header] + j.left.pages && st.leftPages.pos == k + 1;
  }

  /** Right after construction, what remains is every block of `n` left
      pages against all right pages. */
  lemma InitRest(j: JoinArgs, n: nat)
    requires n >= 1 && j.left.pages != [] && j.right.pages != []
    ensures Init(j, n).Ok?
    ensures Rest(Init(j, n).value, j, n) == BlocksJoin(Blocks(j.left.pages, n), j.right.pages, j.leftCol, j.rightCol)
  {
    var lc, rc := j.leftCol, j.rightCol;
    InitShape(j, n);
    var st := Init(j, n).value;
    var lt, rt := j.left.pages, j.right.pages;
    var k := Min(n, |lt|);
    var b := Flatten(lt[..k]);
    var tail := BlocksJoin(Blocks(lt[k..], n), rt, lc, rc);
    RestIdle(st, j, n);
    assert Pending(st, j, n) == RecordJoin(b, rt[0], lc, rc) + (PagesJoin(b, rt[1..], lc, rc) + tail);
    AppendAssoc(RecordJoin(b, rt[0], lc, rc), PagesJoin(b, rt[1..], lc, rc), tail);
    assert PagesJoin(b, rt, lc, rc) == RecordJoin(b, rt[0], lc, rc) + PagesJoin(b, rt[1..], lc, rc);
    BlocksJoinHead(lt, n, rt, lc, rc);
  }

  /** With at least one buffer, data pages on both sides and the blocks of
      `numBuffers` left pages the iterator can join, the join emits, block by
      block, then right page by right page, the nested comprehension of their
      records. Empty pages inside a block with records are harmless. */
  lemma OutputIsComprehension(j: JoinArgs, numBuffers: nat)
    requires numBuffers >= 1 && j.left.pages != [] && j.right.pages != []
    requires FirstBlockHarmless(j, numBuffers)
    ensures Output(j, numBuffers) == Ok(BlocksJoin(Blocks(j.left.pages, numBuffers), j.right.pages, j.leftCol, j.rightCol))
  {
    var lt := j.left.pages;
    var st := Init(j, numBuffers).value;
    var k := Min(numBuffers, |lt|);
    InitShape(j, numBuffers);
    assert Blocks(lt, numBuffers) == [Flatten(lt[..k])] + Blocks(lt[k..], numBuffers);
    assert Flatten(st.block) == Blocks(lt, numBuffers)[0];
    assert Blocks(lt[k..], numBuffers) == Blocks(lt, numBuffers)[1..];
    assert !LossAhead(st, j, numBuffers);
    assert st.rightPages.HasNext() <==> |j.right.pages| >= 2;
    InitRest(j, numBuffers);
    DrainIsRest(st, j, numBuffers);
  }

  /** The left pages the iterator joins completely in blocks of `n`: no
      block after the first without records is followed by blocks that still
      owe joined records, and the first block has records unless the right
      table has a single data page. */
  predicate FirstBlockHarmless(j: JoinArgs, n: nat)
  {
    var bs := Blocks(j.left.pages, n);
    && (bs != [] ==> !LosesRecords(bs[1..], j.right.pages, j.leftCol, j.rightCol))
    && (bs != [] && bs[0] == [] ==> |j.right.pages| == 1)
  }

  /** Blocks that all have records lose nothing. */
  lemma {:induction false} NoEmptyBlockNoLoss(bs: seq<seq<Record>>, rps: seq<Page>, lc: nat, rc: nat)
    requires [] !in bs
    ensures !LosesRecords(bs, rps, lc, rc)
    decreases |bs|
  {
    if bs != [] {
      assert bs[0] in bs;
      assert forall b :: b in bs[1..] ==> b in bs;
      NoEmptyBlockNoLoss(bs[1..], rps, lc, rc);
    }
  }

  /** No block without records at all is one such case. */
  lemma NoEmptyBlockHarmless(j: JoinArgs, n: nat)
    requires [] !in Blocks(j.left.pages, n)
    ensures FirstBlockHarmless(j, n)
  {
    var bs := Blocks(j.left.pages, n);
    if bs != [] {
      assert bs[0] in bs;
      assert forall b :: b in bs[1..] ==> b in bs;
      NoEmptyBlockNoLoss(bs[1..], j.right.pages, j.leftCol, j.rightCol);
    }
  }

  /** A trailing block without records ends the join with nothing lost: with
      one buffer, left pages [1] and [] against the right page [1] give the
      one pair. */
  lemma TrailingEmptyBlockJoinsFully()
    ensures Output(JoinArgs(Table([], [[[1]], []]), Table([], [[[1]]]), 0, 0), 1) == Ok([[1, 1]])
  {
    var j := JoinArgs(Table([], [[[1]], []]), Table([], [[[1]]]), 0, 0);
    TrailingBlocks();
    EmptyBlockJoin([[[1]]], 0, 0);
    OutputIsComprehension(j, 1);
    InsideBlockJoin();
    assert BlocksJoin([[[1]], []], [[[1]]], 0, 0) == BlocksJoin([[[1]]], [[[1]]], 0, 0) + PagesJoin([], [[[1]]], 0, 0);
  }

  /** The join also ends complete when the blocks after a block without
      records have no matches: with one buffer, left pages [1], [] and [2]
      against the right page [1] give the one pair. */
  lemma UnmatchedAfterEmptyBlock()
    ensures Output(JoinArgs(Table([], [[[1]], [], [[2]]]), Table([], [[[1]]]), 0, 0), 1) == Ok([[1, 1]])
  {
    var j := JoinArgs(Table([], [[[1]], [], [[2]]]), Table([], [[[1]]]), 0, 0);
    var bs: seq<Page> := [[[1]], [], [[2]]];
    BlocksOfOne(bs);
    UnmatchedJoin();
    assert bs[1..] == [[], [[2]]] && bs[1..][1..] == [[[2]]];
    OutputIsComprehension(j, 1);
  }

  /** The blocks after [1] owe nothing against the right page [1], so the
      whole join is the one pair. */
  lemma UnmatchedJoin()
    ensures BlocksJoin([[], [[2]]], [[[1]]], 0, 0) == []
    ensures BlocksJoin([[[2]]], [[[1]]], 0, 0) == []
    ensures BlocksJoin([[[1]], [], [[2]]], [[[1]]], 0, 0) == [[1, 1]]
  {
    var bs: seq<seq<Record>> := [[[1]], [], [[2]]];
    assert Matches([2], [[1]], 0, 0) == [];
    assert RecordJoin([[2]], [[1]], 0, 0) == [];
    assert PagesJoin([[2]], [[[1]]], 0, 0) == [];
    EmptyBlockJoin([[[1]]], 0, 0);
    assert bs[1..] == [[], [[2]]] && bs[1..][1..] == [[[2]]] && bs[1..][1..][1..] == [];
    InsideBlockJoin();
    assert BlocksJoin(bs, [[[1]]], 0, 0) == BlocksJoin([[[1]]], [[[1]]], 0, 0) + BlocksJoin(bs[1..], [[[1]]], 0, 0);
  }

  /** With one buffer the two pages [1] and [] form the blocks [1] and []. */
  lemma TrailingBlocks()
    ensures Blocks([[[1]], []], 1) == [[[1]], []]
  {
    var ps: seq<Page> := [[[1]], []];
    assert ps[..1] == [[[1]]] && ps[1..] == [[]];
    assert ps[1..][..1] == [[]] && ps[1..][1..] == [];
    FlattenOne([]);
    FlattenOne([[1]]);
  }

  /** An empty first block against a single right data page is skipped:
      left pages [] and [1] against the right page [1] with one buffer give
      the one pair. */
  lemma EmptyFirstBlockSkipped()
    ensures Output(JoinArgs(Table([], [[], [[1]]]), Table([], [[[1]]]), 0, 0), 1) == Ok([[1, 1]])
  {
    var j := JoinArgs(Table([], [[], [[1]]]), Table([], [[[1]]]), 0, 0);
    OneBufferBlocks();
    OutputIsComprehension(j, 1);
    SkippedJoin();
  }

  /** With one buffer the two pages [] and [1] form the blocks [] and [1]. */
  lemma OneBufferBlocks()
    ensures Blocks([[], [[1]]], 1) == [[], [[1]]]
  {
    var ps: seq<Page> := [[], [[1]]];
    assert ps[..1] == [[]] && ps[1..] == [[[1]]];
    assert ps[1..][..1] == [[[1]]] && ps[1..][1..] == [];
    FlattenOne([]);
    FlattenOne([[1]]);
  }

  /** No empty left page means no block without records, for any block size. */
  lemma {:induction false} NoEmptyPageNoEmptyBlock(ps: seq<Page>, n: nat)
    requires [] !in ps
    ensures [] !in Blocks(ps, n)
    decreases |ps|
  {
    if n >= 1 && ps != [] {
      var k := Min(n, |ps|);
      assert ps[..k][0] == ps[0] && ps[0] in ps;
      FirstPageNonEmpty(ps[..k]);
      assert forall p :: p in ps[k..] ==> p in ps;
      NoEmptyPageNoEmptyBlock(ps[k..], n);
    }
  }

  /** Left pages [1] and [] against the right page [1] with two buffers: the
      empty page shares its block with a page that has records, and the join
      is complete. */
  lemma EmptyPageInsideBlock()
    ensures Output(JoinArgs(Table([], [[[1]], []]), Table([], [[[1]]]), 0, 0), 2) == Ok([[1, 1]])
  {
    var j := JoinArgs(Table([], [[[1]], []]), Table([], [[[1]]]), 0, 0);
    InsideBlockBlocks();
    OutputIsComprehension(j, 2);
    InsideBlockJoin();
  }

  /** The two pages form one block holding the one record. */
  lemma InsideBlockBlocks()
    ensures Blocks([[[1]], []], 2) == [[[1]]]
  {
    var ps: seq<Page> := [[[1]], []];
    assert Min(2, |ps|) == 2 && ps[..2] == ps && ps[2..] == [];
    assert Flatten(ps) == [[1]] by {
      assert ps[1..] == [[]];
      FlattenOne([]);
    }
  }

  /** The one block against the right page [1] gives the one pair. */
  lemma InsideBlockJoin()
    ensures BlocksJoin([[[1]]], [[[1]]], 0, 0) == [[1, 1]]
  {
    assert [1] + [1] == [1, 1];
    assert Matches([1], [[1]], 0, 0) == [[1, 1]];
    assert RecordJoin([[1]], [[1]], 0, 0) == [[1, 1]];
    assert PagesJoin([[1]], [[[1]]], 0, 0) == [[1, 1]];
  }

  /** Under the same conditions, the output holds every key-equal pair of a
      left and a right data record, concatenated, as often as the tables
      hold them, and nothing else. */
  lemma OutputIsJoin(j: JoinArgs, numBuffers: nat)
    requires numBuffers >= 1 && j.left.pages != [] && j.right.pages != []
    requires FirstBlockHarmless(j, numBuffers)
    ensures Output(j, numBuffers).Ok? && multiset(Output(j, numBuffers).value) == multiset(TableJoin(j))
    ensures forall x :: x in Output(j, numBuffers).value <==>
              exists l, r :: l in DataRecords(j.left) && r in DataRecords(j.right)
                             && Key(l, j.leftCol) == Key(r, j.rightCol) && x == l + r
  {
    OutputIsComprehension(j, numBuffers);
    BlocksJoinIsRecordJoin(Blocks(j.left.pages, numBuffers), j.right.pages, j.leftCol, j.rightCol);
    forall x
      ensures x in Output(j, numBuffers).value <==>
              exists l, r :: l in DataRecords(j.left) && r in DataRecords(j.right)
                             && Key(l, j.leftCol) == Key(r, j.rightCol) && x == l + r
    {
      assert x in Output(j, numBuffers).value <==> x in multiset(TableJoin(j));
      RecordJoinMember(DataRecords(j.left), DataRecords(j.right), j.leftCol, j.rightCol, x);
    }
  }

  /** Without a block to read (no buffers, or no left data page), the first
      hasNext throws NoSuchElementException when the right table has a
      second data page, and returns false when it has only one. */
  lemma EmptyBlockOutput(j: JoinArgs, numBuffers: nat)
    requires numBuffers == 0 || j.left.pages == []
    requires j.right.pages != []
    ensures |j.right.pages| >= 2 ==> Output(j, numBuffers) == Fail(NoSuchElement)
    ensures |j.right.pages| == 1 ==> Output(j, numBuffers) == Ok([])
  {
    var st := Init(j, numBuffers).value;
    assert st.block == [] && st.leftRecords == Open([]);
    assert st.rightPages.HasNext() <==> |j.right.pages| >= 2;
    assert !st.rightPages.HasNext() ==> Flatten(ReadBlock(st.leftPages, numBuffers).0) == [];
  }

  /** Left pages [1], [] and [1] against the right page [1], joined on
      column 0. */
  const Example: JoinArgs := JoinArgs(Table([], [[[1]], [], [[1]]]), Table([], [[[1]]]), 0, 0)

  /** The example's iterator right after construction, with one buffer. */
  const ExampleStart: LoopState :=
    LoopState(Cursor([[], [[1]], [], [[1]]], 2, None), Cursor([[], [[1]]], 2, None), [[[1]]], [[1]],
              Open([[1]]), Open([]), None, None)

  /** The example's iterator after its first record has been returned. */
  const ExampleAfterFirst: LoopState :=
    ExampleStart.(leftRecords := Cursor([[1]], 1, None), leftRecord := Some([1]),
                  rightRecords := Cursor([[1]], 1, None))

  lemma ExampleInit()
    ensures Init(Example, 1) == Ok(ExampleStart)
  {
    var lpages: seq<Page> := [[], [[1]], [], [[1]]];
    var rpages: seq<Page> := [[], [[1]]];
    assert [Example.left.header] + Example.left.pages == lpages;
    assert [Example.right.header] + Example.right.pages == rpages;
    var (block, lp) := ReadBlock(Cursor(lpages, 1, None), 1);
    assert block == lpages[1..2] == [[[1]]];
    assert lp.items == lpages && lp.pos == 2 && lp.mark == None;
    FlattenOne([[1]]);
  }

  lemma ExampleFirstStep()
    ensures Step(ExampleStart, Example, 1) == Ok(Some(([1, 1], ExampleAfterFirst)))
  {
    var st1 := ExampleStart.(leftRecords := Cursor([[1]], 1, None), leftRecord := Some([1]), rightRecords := Open([[1]]));
    assert Advance(ExampleStart, Example, 1) == Ok(Took(st1));
    assert [1] + [1] == [1, 1];
    assert Scan([1], Open([[1]]), 0, 0) == (Some([1, 1]), Cursor([[1]], 1, None));
  }

  lemma ExampleSecondStep()
    ensures Step(ExampleAfterFirst, Example, 1) == Ok(None)
  {
    var st := ExampleAfterFirst.(leftRecord := None);
    assert ScanState(ExampleAfterFirst, 0, 0) == (false, st);
    assert ReadBlock(st.leftPages, 1).0 == [[]];
    FlattenOne([]);
    assert Advance(st, Example, 1).value.Exhausted?;
  }

  /** A left data page without records ends the join early: with one buffer,
      the left pages [1], [] and [1] against the right page [1] give one
      joined record where the tables hold two key-equal pairs. */
  lemma EmptyPageStopsJoin()
    ensures Output(Example, 1) == Ok([[1, 1]])
    ensures TableJoin(Example) == [[1, 1], [1, 1]]
  {
    ExampleInit();
    ExampleDrain();
    ExampleTableJoin();
  }

  lemma ExampleDrainTail()
    ensures Inv(ExampleAfterFirst, Example)
    ensures Drain(ExampleAfterFirst, Example, 1) == Ok([])
  {
    ExampleInit();
    ExampleFirstStep();
    ExampleSecondStep();
  }

  lemma ExampleDrain()
    ensures Inv(ExampleStart, Example)
    ensures Drain(ExampleStart, Example, 1) == Ok([[1, 1]])
  {
    ExampleInit();
    ExampleFirstStep();
    ExampleDrainTail();
    assert [[1, 1]] + [] == [[1, 1]];
  }

  lemma ExampleTableJoin()
    ensures TableJoin(Example) == [[1, 1], [1, 1]]
  {
    var ps: seq<Page> := [[[1]], [], [[1]]];
    assert ps[1..][1..] == [[[1]]];
    FlattenOne([[1]]);
    assert Flatten(ps[1..]) == [[1]];
    assert DataRecords(Example.left) == [[1], [1]];
    assert DataRecords(Example.right) == [[1]];
    var m := Matches([1], [[1]], 0, 0);
    assert [1] + [1] == [1, 1];
    assert m == [[1, 1]];
    assert RecordJoin([[1], [1]], [[1]], 0, 0) == m + RecordJoin([[1]], [[1]], 0, 0);
    assert RecordJoin([[1]], [[1]], 0, 0) == m;
  }
}
