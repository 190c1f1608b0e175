/**
 Reference definitions for the three join operators.

 All three joins emit, for a left record `l` and a right record `r` whose join
 values are equal, the record `l + r` (the left record's values followed by
 the right record's). They differ only in the order in which the pairs are
 visited:

   - `RecordJoin(ls, rs)`: for each left record, its matches in `rs`;
   - `PagesJoin(b, rps)`: a left block against the right pages one by one;
   - `BlocksJoin(bs, rps)`: each left block against all right pages.

 The lemmas show that all these orders yield the same multiset of records as
 the record-level nested loop over the tables' data records, and that this
 multiset does not change when either input is permuted.
 */
module JoinSpec {
  import opened Common

  /** The operands of a join: two tables and the join column of each. */
  datatype JoinArgs = JoinArgs(left: Table, right: Table, leftCol: nat, rightCol: nat)

  /** `l` joined with every record of `rs` that has its join value, in `rs` order. */
  function Matches(l: Record, rs: seq<Record>, lc: nat, rc: nat): seq<Record>
    decreases |rs|
  {
    if rs == [] then []
    else (if Key(l, lc) == Key(rs[0], rc) then [l + rs[0]] else []) + Matches(l, rs[1..], lc, rc)
  }

  /** The record-level nested loop: each left record against all of `rs`. */
  function RecordJoin(ls: seq<Record>, rs: seq<Record>, lc: nat, rc: nat): seq<Record>
    decreases |ls|
  {
    if ls == [] then [] else Matches(ls[0], rs, lc, rc) + RecordJoin(ls[1..], rs, lc, rc)
  }

  /** Matches from index `i` on: the match at `i`, then those after it. */
  lemma MatchesAt(l: Record, s: seq<Record>, i: nat, lc: nat, rc: nat)
    requires i < |s|
    ensures Matches(l, s[i..], lc, rc)
            == (if Key(l, lc) == Key(s[i], rc) then [l + s[i]] else []) + Matches(l, s[i + 1..], lc, rc)
  {
    assert s[i..][1..] == s[i + 1..];
  }

  /** The join from left index `i` on: the matches of the record at `i`,
      then the join of those after it. */
  lemma RecordJoinAt(s: seq<Record>, i: nat, rs: seq<Record>, lc: nat, rc: nat)
    requires i < |s|
    ensures RecordJoin(s[i..], rs, lc, rc) == Matches(s[i], rs, lc, rc) + RecordJoin(s[i + 1..], rs, lc, rc)
  {
    assert s[i..][1..] == s[i + 1..];
  }

  /** The records of a left block against the right pages, page by page. */
  function PagesJoin(block: seq<Record>, rps: seq<Page>, lc: nat, rc: nat): seq<Record>
    decreases |rps|
  {
    if rps == [] then [] else RecordJoin(block, rps[0], lc, rc) + PagesJoin(block, rps[1..], lc, rc)
  }

  /** Each left block against all the right pages. */
  function BlocksJoin(blocks: seq<seq<Record>>, rps: seq<Page>, lc: nat, rc: nat): seq<Record>
    decreases |blocks|
  {
    if blocks == [] then [] else PagesJoin(blocks[0], rps, lc, rc) + BlocksJoin(blocks[1..], rps, lc, rc)
  }

  /** The left pages read `n` at a time, each block the records of its pages
      in page order. Blocks of zero pages hold no records, so `n == 0` gives
      no blocks. */
  function Blocks(ps: seq<Page>, n: nat): (bs: seq<seq<Record>>)
    ensures n >= 1 ==> Flatten(bs) == Flatten(ps)
    decreases |ps|
  {
    if n == 0 || ps == [] then []
    else
      var k := Min(n, |ps|);
      BlocksStep(ps, k);
      [Flatten(ps[..k])] + Blocks(ps[k..], n)
  }

  lemma BlocksStep(ps: seq<Page>, k: nat)
    requires k <= |ps|
    ensures Flatten(ps) == Flatten(ps[..k]) + Flatten(ps[k..])
  {
    assert ps == ps[..k] + ps[k..];
    FlattenAppend(ps[..k], ps[k..]);
  }

  /** Joining blocks of `n` pages starts with the block of the first `n`
      pages against all right pages. */
  lemma BlocksJoinHead(ps: seq<Page>, n: nat, rps: seq<Page>, lc: nat, rc: nat)
    requires n >= 1 && ps != []
    ensures BlocksJoin(Blocks(ps, n), rps, lc, rc)
            == PagesJoin(Flatten(ps[..Min(n, |ps|)]), rps, lc, rc)
               + BlocksJoin(Blocks(ps[Min(n, |ps|)..], n), rps, lc, rc)
  {
    var k := Min(n, |ps|);
    var bs := Blocks(ps, n);
    assert bs == [Flatten(ps[..k])] + Blocks(ps[k..], n);
    assert bs[1..] == Blocks(ps[k..], n);
  }

  /** A block without records joins to nothing, whatever the right pages. */
  lemma {:induction false} EmptyBlockJoin(rps: seq<Page>, lc: nat, rc: nat)
    ensures PagesJoin([], rps, lc, rc) == []
    decreases |rps|
  {
    if rps != [] {
      EmptyBlockJoin(rps[1..], lc, rc);
    }
  }

  /** With one page per block, the blocks are the pages. */
  lemma {:induction false} BlocksOfOne(ps: seq<Page>)
    ensures Blocks(ps, 1) == ps
    decreases |ps|
  {
    if ps != [] {
      assert Min(1, |ps|) == 1;
      assert ps[..1] == [ps[0]];
      assert Flatten([ps[0]]) == ps[0] + Flatten([]) by {
        assert [ps[0]][1..] == [];
      }
      assert ps[0] + [] == ps[0];
      assert Blocks(ps, 1) == [ps[0]] + Blocks(ps[1..], 1);
      BlocksOfOne(ps[1..]);
      assert ps == [ps[0]] + ps[1..];
    }
  }


  /* ---------------------------------------------------------------------- */
  /* What the output records are                                            */
  /* ---------------------------------------------------------------------- */

  /** The records of `Matches(l, rs)` are exactly `l + r` for the `r` of `rs`
      that have `l`'s join value. */
  lemma {:induction false} MatchesMember(l: Record, rs: seq<Record>, lc: nat, rc: nat, x: Record)
    ensures x in Matches(l, rs, lc, rc) <==> exists r :: r in rs && Key(l, lc) == Key(r, rc) && x == l + r
    decreases |rs|
  {
    if rs != [] {
      MatchesMember(l, rs[1..], lc, rc, x);
      assert rs == [rs[0]] + rs[1..];
      if x !in Matches(l, rs, lc, rc) {
        forall r | r in rs && Key(l, lc) == Key(r, rc)
          ensures x != l + r
        {
          if r != rs[0] {
            assert r in rs[1..];
          }
        }
      }
    }
  }

  /** Every record the record-level join emits is `l + r` for a left record
      and a right record with equal join values, and every such pair is
      emitted. */
  lemma {:induction false} RecordJoinMember(ls: seq<Record>, rs: seq<Record>, lc: nat, rc: nat, x: Record)
    ensures x in RecordJoin(ls, rs, lc, rc)
            <==> exists l, r :: l in ls && r in rs && Key(l, lc) == Key(r, rc) && x == l + r
    decreases |ls|
  {
    if ls != [] {
      RecordJoinMember(ls[1..], rs, lc, rc, x);
      MatchesMember(ls[0], rs, lc, rc, x);
      assert ls == [ls[0]] + ls[1..];
      if x in RecordJoin(ls, rs, lc, rc) {
        if x in Matches(ls[0], rs, lc, rc) {
          var r :| r in rs && Key(ls[0], lc) == Key(r, rc) && x == ls[0] + r;
          assert ls[0] in ls;
        }
      } else {
        forall l, r | l in ls && r in rs && Key(l, lc) == Key(r, rc)
          ensures x != l + r
        {
          if l != ls[0] {
            assert l in ls[1..];
          }
        }
      }
    }
  }

  /* ---------------------------------------------------------------------- */
  /* Concatenation                                                          */
  /* ---------------------------------------------------------------------- */

  lemma {:induction false} MatchesAppend(l: Record, a: seq<Record>, b: seq<Record>, lc: nat, rc: nat)
    ensures Matches(l, a + b, lc, rc) == Matches(l, a, lc, rc) + Matches(l, b, lc, rc)
    decreases |a|
  {
    if a == [] {
      assert a + b == b;
    } else {
      assert (a + b)[1..] == a[1..] + b;
      MatchesAppend(l, a[1..], b, lc, rc);
    }
  }

  lemma {:induction false} RecordJoinAppend(a: seq<Record>, b: seq<Record>, rs: seq<Record>, lc: nat, rc: nat)
    ensures RecordJoin(a + b, rs, lc, rc) == RecordJoin(a, rs, lc, rc) + RecordJoin(b, rs, lc, rc)
    decreases |a|
  {
    if a == [] {
      assert a + b == b;
    } else {
      assert (a + b)[1..] == a[1..] + b;
      RecordJoinAppend(a[1..], b, rs, lc, rc);
    }
  }

  /** Splitting the right input splits the output, up to order. */
  lemma {:induction false} RecordJoinAppendRight(ls: seq<Record>, a: seq<Record>, b: seq<Record>, lc: nat, rc: nat)
    ensures multiset(RecordJoin(ls, a + b, lc, rc))
            == multiset(RecordJoin(ls, a, lc, rc)) + multiset(RecordJoin(ls, b, lc, rc))
    decreases |ls|
  {
    if ls != [] {
      MatchesAppend(ls[0], a, b, lc, rc);
      RecordJoinAppendRight(ls[1..], a, b, lc, rc);
    }
  }

  /* ---------------------------------------------------------------------- */
  /* Every visiting order gives the same multiset                           */
  /* ---------------------------------------------------------------------- */

  /** A block against the right pages page by page emits what it emits
      against all their records at once. */
  lemma {:induction false} PagesJoinIsRecordJoin(block: seq<Record>, rps: seq<Page>, lc: nat, rc: nat)
    ensures multiset(PagesJoin(block, rps, lc, rc)) == multiset(RecordJoin(block, Flatten(rps), lc, rc))
    decreases |rps|
  {
    if rps != [] {
      PagesJoinIsRecordJoin(block, rps[1..], lc, rc);
      RecordJoinAppendRight(block, rps[0], Flatten(rps[1..]), lc, rc);
    } else {
      assert RecordJoin(block, [], lc, rc) == [] by {
        RecordJoinEmptyRight(block, lc, rc);
      }
    }
  }

  lemma {:induction false} RecordJoinEmptyRight(ls: seq<Record>, lc: nat, rc: nat)
    ensures RecordJoin(ls, [], lc, rc) == []
    decreases |ls|
  {
    if ls != [] {
      RecordJoinEmptyRight(ls[1..], lc, rc);
    }
  }

  /** Block by block, page by page, the join emits the multiset the
      record-level nested loop over all left and all right records emits. */
  lemma {:induction false} BlocksJoinIsRecordJoin(blocks: seq<seq<Record>>, rps: seq<Page>, lc: nat, rc: nat)
    ensures multiset(BlocksJoin(blocks, rps, lc, rc)) == multiset(RecordJoin(Flatten(blocks), Flatten(rps), lc, rc))
    decreases |blocks|
  {
    if blocks != [] {
      BlocksJoinIsRecordJoin(blocks[1..], rps, lc, rc);
      PagesJoinIsRecordJoin(blocks[0], rps, lc, rc);
      RecordJoinAppend(blocks[0], Flatten(blocks[1..]), Flatten(rps), lc, rc);
    }
  }

  /** `s` without its element at index `k`, as the two slices around it. */
  lemma SplitAt<T>(s: seq<T>, k: nat)
    requires k < |s|
    ensures s == s[..k] + [s[k]] + s[k + 1..]
    ensures multiset(s[..k] + s[k + 1..]) == multiset(s) - multiset{s[k]}
  {
    assert s == s[..k] + [s[k]] + s[k + 1..];
  }

  /** Moving a middle piece to the front keeps the multiset. */
  lemma MultisetSplice<T>(pre: seq<T>, mid: seq<T>, post: seq<T>, tail: seq<T>)
    requires multiset(tail) == multiset(pre + post)
    ensures multiset(mid + tail) == multiset(pre + mid + post)
  {
  }

  /** Permuting the right input permutes the matches. */
  lemma {:induction false} MatchesPermutation(l: Record, a: seq<Record>, b: seq<Record>, lc: nat, rc: nat)
    requires multiset(a) == multiset(b)
    ensures multiset(Matches(l, a, lc, rc)) == multiset(Matches(l, b, lc, rc))
    decreases |a|
  {
    if a == [] {
      assert |b| == |multiset(b)|;
    } else {
      var x := a[0];
      assert x in multiset(b);
      var k :| 0 <= k < |b| && b[k] == x;
      var b' := b[..k] + b[k + 1..];
      assert multiset(a[1..]) == multiset(b') by {
        SplitAt(b, k);
        assert a == [x] + a[1..];
      }
      var pre, mid, post := Matches(l, b[..k], lc, rc), Matches(l, [x], lc, rc), Matches(l, b[k + 1..], lc, rc);
      assert Matches(l, b, lc, rc) == pre + mid + post by {
        SplitAt(b, k);
        MatchesAppend(l, b[..k] + [x], b[k + 1..], lc, rc);
        MatchesAppend(l, b[..k], [x], lc, rc);
      }
      assert Matches(l, a, lc, rc) == mid + Matches(l, a[1..], lc, rc) by {
        assert a == [x] + a[1..];
        MatchesAppend(l, [x], a[1..], lc, rc);
      }
      assert multiset(Matches(l, a[1..], lc, rc)) == multiset(pre + post) by {
        MatchesPermutation(l, a[1..], b', lc, rc);
        MatchesAppend(l, b[..k], b[k + 1..], lc, rc);
      }
      MultisetSplice(pre, mid, post, Matches(l, a[1..], lc, rc));
    }
  }

  /** Permuting the right input permutes the output. */
  lemma {:induction false} RecordJoinPermuteRight(ls: seq<Record>, a: seq<Record>, b: seq<Record>, lc: nat, rc: nat)
    requires multiset(a) == multiset(b)
    ensures multiset(RecordJoin(ls, a, lc, rc)) == multiset(RecordJoin(ls, b, lc, rc))
    decreases |ls|
  {
    if ls != [] {
      MatchesPermutation(ls[0], a, b, lc, rc);
      RecordJoinPermuteRight(ls[1..], a, b, lc, rc);
    }
  }

  /** Permuting the left input permutes the output. */
  lemma {:induction false} RecordJoinPermuteLeft(a: seq<Record>, b: seq<Record>, rs: seq<Record>, lc: nat, rc: nat)
    requires multiset(a) == multiset(b)
    ensures multiset(RecordJoin(a, rs, lc, rc)) == multiset(RecordJoin(b, rs, lc, rc))
    decreases |a|
  {
    if a == [] {
      assert |b| == |multiset(b)|;
    } else {
      var x := a[0];
      assert x in multiset(b);
      var k :| 0 <= k < |b| && b[k] == x;
      var b' := b[..k] + b[k + 1..];
      assert multiset(a[1..]) == multiset(b') by {
        SplitAt(b, k);
        assert a == [x] + a[1..];
      }
      var pre, mid, post := RecordJoin(b[..k], rs, lc, rc), RecordJoin([x], rs, lc, rc), RecordJoin(b[k + 1..], rs, lc, rc);
      assert RecordJoin(b, rs, lc, rc) == pre + mid + post by {
        SplitAt(b, k);
        RecordJoinAppend(b[..k] + [x], b[k + 1..], rs, lc, rc);
        RecordJoinAppend(b[..k], [x], rs, lc, rc);
      }
      assert RecordJoin(a, rs, lc, rc) == mid + RecordJoin(a[1..], rs, lc, rc) by {
        assert a == [x] + a[1..];
        RecordJoinAppend([x], a[1..], rs, lc, rc);
      }
      assert multiset(RecordJoin(a[1..], rs, lc, rc)) == multiset(pre + post) by {
        RecordJoinPermuteLeft(a[1..], b', rs, lc, rc);
        RecordJoinAppend(b[..k], b[k + 1..], rs, lc, rc);
      }
      MultisetSplice(pre, mid, post, RecordJoin(a[1..], rs, lc, rc));
    }
  }

  /** The join of two tables up to order: the record-level nested loop over
      their data records. */
  function TableJoin(j: JoinArgs): seq<Record>
  {
    RecordJoin(DataRecords(j.left), DataRecords(j.right), j.leftCol, j.rightCol)
  }

  /** Joining permutations of the tables' records gives the same multiset. */
  lemma JoinOfPermutations(j: JoinArgs, ls: seq<Record>, rs: seq<Record>)
    requires multiset(ls) == multiset(DataRecords(j.left))
    requires multiset(rs) == multiset(DataRecords(j.right))
    ensures multiset(RecordJoin(ls, rs, j.leftCol, j.rightCol)) == multiset(TableJoin(j))
  {
    RecordJoinPermuteLeft(ls, DataRecords(j.left), rs, j.leftCol, j.rightCol);
    RecordJoinPermuteRight(DataRecords(j.left), rs, DataRecords(j.right), j.leftCol, j.rightCol);
  }
}
