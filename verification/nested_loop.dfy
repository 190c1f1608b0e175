/**
 The state shared by the page and block nested-loop join iterators
 (PNLJIterator and BNLJIterator), the inner scan of their hasNext loops, and
 `next()`.

 Both iterators walk four nested cursors: the left page cursor LPIter, the
 right page cursor RPIter, the record cursor LBIter over the current left
 block (one page for PNLJ, up to numBuffers pages for BNLJ) and the record
 cursor RBIter over the current right page. `Rest` is what the join still has
 to emit from a given state, written with the reference definitions: every
 step of hasNext that does not throw keeps it, and `next()` takes its head.
 */
module NestedLoop {
  import opened Common
  import opened Cursor
  import opened JoinSpec

  /** getPageIterator: the table's pages, header first. */
  function PageIter(t: Table): (c: Cursor<Page>)
    ensures c.Valid() && c.items == [t.header] + t.pages && c.pos == 0 && c.mark.None?
  {
    Open([t.header] + t.pages)
  }

  /** The fields of the iterator. `block` is currentLeftPage (as a one-page
      block) or currentLeftPages; `leftRecord` and `nextRecord` are null when
      None. */
  datatype LoopState = LoopState(
    leftPages: Cursor<Page>,
    rightPages: Cursor<Page>,
    block: seq<Page>,
    rightPage: Page,
    leftRecords: Cursor<Record>,
    rightRecords: Cursor<Record>,
    leftRecord: Option<Record>,
    nextRecord: Option<Record>)

  /** The page cursors run over the two tables, both headers have been
      consumed and the right page cursor has returned the current right page;
      LBIter runs over the current block; while a left record is held, RBIter
      runs over the current right page; a buffered record comes with a held
      left record. */
  ghost predicate Inv(st: LoopState, j: JoinArgs)
  {
    && CursorsValid(st)
    && st.leftPages.Valid() && st.leftPages.items == [j.left.header] + j.left.pages && st.leftPages.pos >= 1
    && st.rightPages.Valid() && st.rightPages.items == [j.right.header] + j.right.pages && st.rightPages.pos >= 2
    && st.rightPage == st.rightPages.items[st.rightPages.pos - 1]
    && st.leftRecords.Valid() && st.leftRecords.items == Flatten(st.block)
    && st.rightRecords.Valid()
    && (st.leftRecord.Some? ==> st.rightRecords.items == st.rightPage)
    && (st.nextRecord.Some? ==> st.leftRecord.Some?)
  }

  /** Every cursor is within its bounds. */
  ghost predicate CursorsValid(st: LoopState)
  {
    st.leftPages.Valid() && st.rightPages.Valid() && st.leftRecords.Valid() && st.rightRecords.Valid()
  }

  /** Strict progress of the three outer cursors, ordered as the loops nest:
      left pages, right pages, left records of the block. */
  ghost predicate OuterLater(st: LoopState, st': LoopState)
  {
    || st'.leftPages.Remaining() < st.leftPages.Remaining()
    || (st'.leftPages.Remaining() == st.leftPages.Remaining()
        && (|| st'.rightPages.Remaining() < st.rightPages.Remaining()
            || (st'.rightPages.Remaining() == st.rightPages.Remaining()
                && st'.leftRecords.Remaining() < st.leftRecords.Remaining())))
  }

  /** The three outer cursors are where they were. */
  ghost predicate OuterSame(st: LoopState, st': LoopState)
  {
    && st'.leftPages.Remaining() == st.leftPages.Remaining()
    && st'.rightPages.Remaining() == st.rightPages.Remaining()
    && st'.leftRecords.Remaining() == st.leftRecords.Remaining()
  }

  /** Strict progress of the whole iterator: the outer cursors, then the held
      left record (dropping it is progress), then the right records of the
      page, then the buffer (emptying it is progress). */
  ghost predicate Later(st: LoopState, st': LoopState)
  {
    || OuterLater(st, st')
    || (OuterSame(st, st')
        && (|| (st.leftRecord.Some? && st'.leftRecord.None?)
            || (&& st.leftRecord.Some? == st'.leftRecord.Some?
                && (|| st'.rightRecords.Remaining() < st.rightRecords.Remaining()
                    || (&& st'.rightRecords.Remaining() == st.rightRecords.Remaining()
                        && st.nextRecord.Some? && st'.nextRecord.None?)))))
  }

  /** Outer progress composes with itself and with standing still. */
  lemma OuterLaterTrans(a: LoopState, b: LoopState, c: LoopState)
    requires || (OuterLater(a, b) && (OuterLater(b, c) || OuterSame(b, c)))
             || (OuterSame(a, b) && OuterLater(b, c))
    ensures OuterLater(a, c)
  {
  }

  /** The inner loop of hasNext: reads right records until one has the join
      value of `l`, and returns their joined record. */
  function Scan(l: Record, rb: Cursor<Record>, lc: nat, rc: nat): (r: (Option<Record>, Cursor<Record>))
    requires rb.Valid()
    ensures r.1.Valid() && r.1.items == rb.items
    ensures r.0.None? ==> !r.1.HasNext() && Matches(l, rb.items[rb.pos..], lc, rc) == []
    ensures r.0.Some? ==> rb.pos < r.1.pos
                          && Matches(l, rb.items[rb.pos..], lc, rc) == [r.0.value] + Matches(l, r.1.items[r.1.pos..], lc, rc)
    decreases |rb.items| - rb.pos
  {
    if !rb.HasNext() then
      (None, rb)
    else
      MatchesAt(l, rb.items, rb.pos, lc, rc);
      var (r, rb') := Next(rb).value;
      if Key(l, lc) == Key(r, rc) then (Some(l + r), rb') else Scan(l, rb', lc, rc)
  }

  lemma PagesJoinAt(block: seq<Record>, ps: seq<Page>, i: nat, lc: nat, rc: nat)
    requires i < |ps|
    ensures PagesJoin(block, ps[i..], lc, rc) == RecordJoin(block, ps[i], lc, rc) + PagesJoin(block, ps[i + 1..], lc, rc)
  {
    assert ps[i..][1..] == ps[i + 1..];
  }

  /** `next()`: returns the buffered record and clears the buffer, or throws
      NoSuchElementException when nothing is buffered. */
  function Yield(st: LoopState): (r: Result<(Record, LoopState)>)
    ensures r.Fail? <==> st.nextRecord.None?
    ensures r.Fail? ==> r.error == NoSuchElement
    ensures r.Ok? ==> r.value.1.nextRecord.None? && r.value.1 == st.(nextRecord := None)
  {
    if st.nextRecord.Some? then Ok((st.nextRecord.value, st.(nextRecord := None))) else Fail(NoSuchElement)
  }

  /* ---------------------------------------------------------------------- */
  /* What remains to be emitted                                             */
  /* ---------------------------------------------------------------------- */

  /** The matches of the held left record among the right records not yet read. */
  function Current(st: LoopState, lc: nat, rc: nat): seq<Record>
    requires st.rightRecords.Valid()
  {
    if st.leftRecord.Some? then Matches(st.leftRecord.value, st.rightRecords.items[st.rightRecords.pos..], lc, rc) else []
  }

  /** The rest of the current block against the current right page, the whole
      block against the remaining right pages, then the remaining left pages
      in blocks of `n` against all right pages. */
  function Pending(st: LoopState, j: JoinArgs, n: nat): seq<Record>
    requires CursorsValid(st)
  {
    var lc, rc := j.leftCol, j.rightCol;
    RecordJoin(st.leftRecords.items[st.leftRecords.pos..], st.rightPage, lc, rc)
    + (PagesJoin(Flatten(st.block), st.rightPages.items[st.rightPages.pos..], lc, rc)
       + BlocksJoin(Blocks(st.leftPages.items[st.leftPages.pos..], n), j.right.pages, lc, rc))
  }

  /** Everything the iterator still emits from `st` if nothing throws: the
      buffered record, then the held left record's matches, then the rest. */
  function Rest(st: LoopState, j: JoinArgs, n: nat): seq<Record>
    requires CursorsValid(st)
  {
    (if st.nextRecord.Some? then [st.nextRecord.value] else [])
    + (Current(st, j.leftCol, j.rightCol) + Pending(st, j, n))
  }

  /** next() takes the head of what remains. */
  lemma YieldTakesHead(st: LoopState, j: JoinArgs, n: nat)
    requires Inv(st, j) && st.nextRecord.Some?
    ensures Inv(Yield(st).value.1, j)
    ensures Rest(st, j, n) == [Yield(st).value.0] + Rest(Yield(st).value.1, j, n)
  {
  }

  /** What a refill step of hasNext leads to: a held left record ready to
      scan, or the end of the join. */
  datatype Taken = Exhausted(st: LoopState) | Took(st: LoopState)

  /** The current block has no records while right pages remain: the first
      `LBIter.next()` after moving to the next right page throws. */
  ghost predicate Stuck(st: LoopState)
  {
    Flatten(st.block) == [] && st.rightPages.Valid() && st.rightPages.HasNext()
  }

  /** An empty data page lies among the left pages not yet read. */
  ghost predicate EmptyAhead(st: LoopState)
  {
    st.leftPages.Valid() && [] in st.leftPages.items[st.leftPages.pos..]
  }

  /** Reading left pages can only leave fewer empty pages ahead. */
  lemma EmptyAheadShrinks(c: Cursor<Page>, k: nat)
    requires c.Valid() && c.pos + k <= |c.items|
    ensures [] in c.items[c.pos + k..] ==> [] in c.items[c.pos..]
  {
    assert c.items[c.pos..] == c.items[c.pos .. c.pos + k] + c.items[c.pos + k..];
  }

  /* ---------------------------------------------------------------------- */
  /* The steps of hasNext                                                   */
  /* ---------------------------------------------------------------------- */

  /** The inner while loop run on the held left record: either a match is
      buffered, or the held record is dropped once RBIter is exhausted. */
  function ScanState(st: LoopState, lc: nat, rc: nat): (r: (bool, LoopState))
    requires st.rightRecords.Valid() && st.leftRecord.Some?
  {
    var (found, rb) := Scan(st.leftRecord.value, st.rightRecords, lc, rc);
    if found.Some? then (true, st.(rightRecords := rb, nextRecord := found))
    else (false, st.(rightRecords := rb, leftRecord := None))
  }

  /** The next record of the block becomes the held left record, and RBIter
      restarts on the current right page. */
  function TakeFromBlock(st: LoopState): LoopState
    requires st.leftRecords.Valid() && st.leftRecords.HasNext()
  {
    var (l, lb) := Next(st.leftRecords).value;
    st.(leftRecords := lb, leftRecord := Some(l), rightRecords := Open(st.rightPage))
  }

  /** LBIter restarts on the block, its first record held, and the next right
      page becomes current. */
  function NextRightPage(st: LoopState): LoopState
    requires st.rightPages.Valid() && st.rightPages.HasNext() && Flatten(st.block) != []
  {
    var (l, lb) := Next(Open(Flatten(st.block))).value;
    var (rpage, rp) := Next(st.rightPages).value;
    st.(rightPages := rp, rightPage := rpage, leftRecords := lb, leftRecord := Some(l), rightRecords := Open(rpage))
  }

  /** `block`, read through the left page cursor `lp`, becomes the block and
      LBIter returns its first record; RPIter restarts and returns the header
      page and then the first right data page, on which RBIter restarts. */
  function LoadBlock(lp: Cursor<Page>, block: seq<Page>, right: Table): LoopState
    requires Flatten(block) != [] && right.pages != []
  {
    var lb := Open(Flatten(block)).(pos := 1);
    var rp := PageIter(right).(pos := 2);
    LoopState(lp, rp, block, right.pages[0], lb, Open(right.pages[0]), Some(Flatten(block)[0]), None)
  }

  /** The scan leaves the block and the pages alone. */
  lemma ScanPending(st: LoopState, j: JoinArgs, n: nat)
    requires CursorsValid(st) && st.leftRecord.Some?
    ensures CursorsValid(ScanState(st, j.leftCol, j.rightCol).1)
    ensures Pending(ScanState(st, j.leftCol, j.rightCol).1, j, n) == Pending(st, j, n)
  {
    var st' := ScanState(st, j.leftCol, j.rightCol).1;
    assert st'.leftPages == st.leftPages && st'.rightPages == st.rightPages && st'.block == st.block;
    assert st'.rightPage == st.rightPage && st'.leftRecords == st.leftRecords;
  }

  /** The scan buffers the first of the held record's remaining matches, or
      finds there are none. */
  lemma ScanCurrent(st: LoopState, lc: nat, rc: nat)
    requires st.rightRecords.Valid() && st.leftRecord.Some? && st.nextRecord.None?
    ensures var st' := ScanState(st, lc, rc).1;
            && st'.rightRecords.Valid()
            && (if st'.nextRecord.Some? then [st'.nextRecord.value] else []) + Current(st', lc, rc) == Current(st, lc, rc)
  {
  }

  /** A scan that finds a match buffers the head of the held record's
      matches; one that does not drops the held record. Either way nothing is
      lost, and a buffered match comes with progress. */
  lemma ScanKeepsRest(st: LoopState, j: JoinArgs, n: nat)
    requires Inv(st, j) && st.leftRecord.Some? && st.nextRecord.None?
    ensures Inv(ScanState(st, j.leftCol, j.rightCol).1, j)
    ensures Rest(ScanState(st, j.leftCol, j.rightCol).1, j, n) == Rest(st, j, n)
    ensures ScanState(st, j.leftCol, j.rightCol).0 ==> Later(st, ScanState(st, j.leftCol, j.rightCol).1)
    ensures OuterSame(st, ScanState(st, j.leftCol, j.rightCol).1)
    ensures !ScanState(st, j.leftCol, j.rightCol).0 ==> ScanState(st, j.leftCol, j.rightCol).1.leftRecord.None?
  {
    var lc, rc := j.leftCol, j.rightCol;
    var st' := ScanState(st, lc, rc).1;
    assert Rest(st', j, n) == Rest(st, j, n) by {
      ScanPending(st, j, n);
      ScanCurrent(st, lc, rc);
      var buf := if st'.nextRecord.Some? then [st'.nextRecord.value] else [];
      AppendAssoc(buf, Current(st', lc, rc), Pending(st, j, n));
    }
  }

  /** Taking the next record of the block as the held left record, with
      RBIter restarted on the current right page. */
  lemma TakeFromBlockKeepsRest(st: LoopState, j: JoinArgs, n: nat)
    requires Inv(st, j) && st.leftRecord.None? && st.nextRecord.None? && st.leftRecords.HasNext()
    ensures Inv(TakeFromBlock(st), j) && OuterLater(st, TakeFromBlock(st))
    ensures Rest(TakeFromBlock(st), j, n) == Rest(st, j, n)
  {
    var lc, rc := j.leftCol, j.rightCol;
    var st' := TakeFromBlock(st);
    var s, i := st.leftRecords.items, st.leftRecords.pos;
    var rp := st.rightPage;
    var later := PagesJoin(Flatten(st.block), st.rightPages.items[st.rightPages.pos..], lc, rc)
                 + BlocksJoin(Blocks(st.leftPages.items[st.leftPages.pos..], n), j.right.pages, lc, rc);
    assert Rest(st, j, n) == RecordJoin(s[i..], rp, lc, rc) + later;
    assert Rest(st', j, n) == Matches(s[i], rp, lc, rc) + (RecordJoin(s[i + 1..], rp, lc, rc) + later) by {
      RestAfterTake(st', j, n);
    }
    RecordJoinAt(s, i, rp, lc, rc);
    AppendAssoc(Matches(s[i], rp, lc, rc), RecordJoin(s[i + 1..], rp, lc, rc), later);
  }

  /** What remains right after a left record has been taken and RBIter
      restarted on the current right page. */
  lemma RestAfterTake(st: LoopState, j: JoinArgs, n: nat)
    requires CursorsValid(st) && st.leftRecord.Some? && st.nextRecord.None? && st.rightRecords == Open(st.rightPage)
    ensures Rest(st, j, n)
            == Matches(st.leftRecord.value, st.rightPage, j.leftCol, j.rightCol)
               + (RecordJoin(st.leftRecords.items[st.leftRecords.pos..], st.rightPage, j.leftCol, j.rightCol)
                  + (PagesJoin(Flatten(st.block), st.rightPages.items[st.rightPages.pos..], j.leftCol, j.rightCol)
                     + BlocksJoin(Blocks(st.leftPages.items[st.leftPages.pos..], n), j.right.pages, j.leftCol, j.rightCol)))
  {
    assert st.rightPage[0..] == st.rightPage;
  }

  /** With no left record held and nothing buffered, what remains is what is
      pending. */
  lemma RestIdle(st: LoopState, j: JoinArgs, n: nat)
    requires CursorsValid(st) && st.leftRecord.None? && st.nextRecord.None?
    ensures Rest(st, j, n) == Pending(st, j, n)
  {
    assert [] + ([] + Pending(st, j, n)) == Pending(st, j, n);
  }

  /** What remains once the block is used up against the current right page. */
  lemma RestAfterBlock(st: LoopState, j: JoinArgs, n: nat)
    requires CursorsValid(st) && st.leftRecord.None? && st.nextRecord.None? && !st.leftRecords.HasNext()
    ensures Rest(st, j, n)
            == PagesJoin(Flatten(st.block), st.rightPages.items[st.rightPages.pos..], j.leftCol, j.rightCol)
               + BlocksJoin(Blocks(st.leftPages.items[st.leftPages.pos..], n), j.right.pages, j.leftCol, j.rightCol)
  {
    assert st.leftRecords.items[st.leftRecords.pos..] == [];
  }

  /** The block against a list of right pages, followed by `tail`, starts
      with the first block record against the first page. */
  lemma PagesJoinHead(b: seq<Record>, ps: seq<Page>, tail: seq<Record>, lc: nat, rc: nat)
    requires b != [] && ps != []
    ensures PagesJoin(b, ps, lc, rc) + tail
            == Matches(b[0], ps[0], lc, rc) + (RecordJoin(b[1..], ps[0], lc, rc) + (PagesJoin(b, ps[1..], lc, rc) + tail))
  {
    var m, r, p := Matches(b[0], ps[0], lc, rc), RecordJoin(b[1..], ps[0], lc, rc), PagesJoin(b, ps[1..], lc, rc);
    assert PagesJoin(b, ps, lc, rc) == (m + r) + p;
    AppendAssoc(m + r, p, tail);
    AppendAssoc(m, r, p + tail);
  }

  /** A block restarted on right pages `rps`, its first record held: what
      remains is unchanged. */
  lemma RestartKeepsRest(st: LoopState, st': LoopState, j: JoinArgs, n: nat, rps: seq<Page>, later: seq<Record>)
    requires CursorsValid(st) && CursorsValid(st')
    requires Flatten(st'.block) != [] && rps != []
    requires Rest(st, j, n) == PagesJoin(Flatten(st'.block), rps, j.leftCol, j.rightCol) + later
    requires st'.nextRecord.None? && st'.leftRecord == Some(Flatten(st'.block)[0])
    requires st'.rightPage == rps[0] && st'.rightRecords == Open(rps[0])
    requires st'.leftRecords.items[st'.leftRecords.pos..] == Flatten(st'.block)[1..]
    requires st'.rightPages.items[st'.rightPages.pos..] == rps[1..]
    requires BlocksJoin(Blocks(st'.leftPages.items[st'.leftPages.pos..], n), j.right.pages, j.leftCol, j.rightCol) == later
    ensures Rest(st', j, n) == Rest(st, j, n)
  {
    RestAfterTake(st', j, n);
    PagesJoinHead(Flatten(st'.block), rps, later, j.leftCol, j.rightCol);
  }

  lemma NextRightPageKeepsRest(st: LoopState, j: JoinArgs, n: nat)
    requires Inv(st, j) && st.leftRecord.None? && st.nextRecord.None?
    requires !st.leftRecords.HasNext() && st.rightPages.HasNext() && Flatten(st.block) != []
    ensures Inv(NextRightPage(st), j) && OuterLater(st, NextRightPage(st))
    ensures Rest(NextRightPage(st), j, n) == Rest(st, j, n)
  {
    var lc, rc := j.leftCol, j.rightCol;
    var b := Flatten(st.block);
    var ps := st.rightPages.items[st.rightPages.pos..];
    var st' := NextRightPage(st);
    var later := BlocksJoin(Blocks(st.leftPages.items[st.leftPages.pos..], n), j.right.pages, lc, rc);
    assert Inv(st', j) && OuterLater(st, st');
    assert Rest(st, j, n) == PagesJoin(b, ps, lc, rc) + later by {
      RestAfterBlock(st, j, n);
    }
    assert st'.leftRecords.items[st'.leftRecords.pos..] == b[1..];
    assert st'.rightPages.items[st'.rightPages.pos..] == ps[1..];
    RestartKeepsRest(st, st', j, n, ps, later);
  }

  /** A loaded block satisfies the invariant, with RPIter just past the first
      right data page. */
  lemma LoadBlockInv(lp: Cursor<Page>, block: seq<Page>, j: JoinArgs)
    requires lp.Valid() && lp.items == [j.left.header] + j.left.pages && lp.pos >= 1
    requires Flatten(block) != [] && j.right.pages != []
    ensures var st' := LoadBlock(lp, block, j.right);
            && Inv(st', j) && st'.leftPages == lp && st'.block == block
            && st'.rightPages.items[st'.rightPages.pos..] == j.right.pages[1..]
            && st'.leftRecords.items[st'.leftRecords.pos..] == Flatten(block)[1..]
  {
    var st' := LoadBlock(lp, block, j.right);
    assert st'.rightPages.items == [j.right.header] + j.right.pages && st'.rightPages.pos == 2;
  }

  /** With the block used up against every right page, what remains is the
      next `k` left pages against all right pages, then the pages after them
      in blocks. */
  lemma RestBeforeLoad(st: LoopState, j: JoinArgs, n: nat, k: nat)
    requires CursorsValid(st) && st.leftRecord.None? && st.nextRecord.None?
    requires !st.leftRecords.HasNext() && !st.rightPages.HasNext()
    requires n >= 1 && 1 <= k == Min(n, st.leftPages.Remaining())
    ensures Rest(st, j, n)
            == PagesJoin(Flatten(st.leftPages.items[st.leftPages.pos .. st.leftPages.pos + k]), j.right.pages, j.leftCol, j.rightCol)
               + BlocksJoin(Blocks(st.leftPages.items[st.leftPages.pos + k..], n), j.right.pages, j.leftCol, j.rightCol)
  {
    var ps := st.leftPages.items[st.leftPages.pos..];
    RestAfterBlock(st, j, n);
    assert st.rightPages.items[st.rightPages.pos..] == [];
    assert ps[..k] == st.leftPages.items[st.leftPages.pos .. st.leftPages.pos + k];
    assert ps[k..] == st.leftPages.items[st.leftPages.pos + k..];
    assert Blocks(ps, n) == [Flatten(ps[..k])] + Blocks(ps[k..], n);
  }

  /** With the block used up against every right page, the next `k` left
      pages become the block. */
  lemma LoadBlockKeepsRest(st: LoopState, j: JoinArgs, n: nat, k: nat)
    requires Inv(st, j) && st.leftRecord.None? && st.nextRecord.None?
    requires !st.leftRecords.HasNext() && !st.rightPages.HasNext()
    requires n >= 1 && k == Min(n, st.leftPages.Remaining())
    requires Flatten(st.leftPages.items[st.leftPages.pos .. st.leftPages.pos + k]) != []
    ensures j.right.pages != []
    ensures var st' := LoadBlock(st.leftPages.(pos := st.leftPages.pos + k),
                                 st.leftPages.items[st.leftPages.pos .. st.leftPages.pos + k], j.right);
            Inv(st', j) && OuterLater(st, st') && Rest(st', j, n) == Rest(st, j, n)
  {
    var block := st.leftPages.items[st.leftPages.pos .. st.leftPages.pos + k];
    var rts := j.right.pages;
    assert rts != [] by {
      assert |st.rightPages.items| >= 2;
    }
    var lp := st.leftPages.(pos := st.leftPages.pos + k);
    var st' := LoadBlock(lp, block, j.right);
    LoadBlockInv(lp, block, j);
    assert |block| == k;
    var later := BlocksJoin(Blocks(st.leftPages.items[st.leftPages.pos + k..], n), rts, j.leftCol, j.rightCol);
    assert Rest(st, j, n) == PagesJoin(Flatten(block), rts, j.leftCol, j.rightCol) + later by {
      RestBeforeLoad(st, j, n, k);
    }
    assert lp.items[lp.pos..] == st.leftPages.items[st.leftPages.pos + k..];
    RestartKeepsRest(st, st', j, n, rts, later);
  }

  /** Nothing remains once the block, the right pages and the left pages are
      all used up. */
  lemma DoneMeansEmpty(st: LoopState, j: JoinArgs, n: nat)
    requires Inv(st, j) && st.leftRecord.None? && st.nextRecord.None?
    requires !st.leftRecords.HasNext() && !st.rightPages.HasNext() && !st.leftPages.HasNext()
    ensures Rest(st, j, n) == []
  {
    assert st.leftRecords.items[st.leftRecords.pos..] == [];
    assert st.rightPages.items[st.rightPages.pos..] == [];
    assert st.leftPages.items[st.leftPages.pos..] == [];
  }

  /** The blocks [] and [1] against the right page [1]: the empty block
      contributes nothing and the other gives the one pair. */
  lemma SkippedJoin()
    ensures BlocksJoin([[], [[1]]], [[[1]]], 0, 0) == [[1, 1]]
  {
    var bs: seq<seq<Record>> := [[], [[1]]];
    assert bs[1..] == [[[1]]] && bs[1..][1..] == [];
    assert [1] + [1] == [1, 1];
    assert Matches([1], [[1]], 0, 0) == [[1, 1]];
    assert RecordJoin([[1]], [[1]], 0, 0) == [[1, 1]];
    assert PagesJoin([[1]], [[[1]]], 0, 0) == [[1, 1]];
    assert PagesJoin([], [[[1]]], 0, 0) == [];
  }
}
