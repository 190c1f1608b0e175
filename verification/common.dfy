/**
 The data model shared by the query operators: values, records, pages and
 tables, plus the exceptions the operators can raise.

 A table is what its page iterator returns: first the header page, which
 carries metadata and no data, then the data pages.
 */
module Common {

  /** A column value. The engine's typed values compare under a total order;
      integers stand in for them. */
  type Value = int

  /** A record is the ordered list of its column values. */
  type Record = seq<Value>

  /** A page holds records in slot order. */
  type Page = seq<Record>

  /** The header page and the data pages that follow it. */
  datatype Table = Table(header: Page, pages: seq<Page>)

  /** A sorted run of the external sort (the contents of its temporary table). */
  type Run = seq<Record>

  datatype Option<+T> = None | Some(value: T)

  /** The Java exceptions the modelled code can raise. */
  datatype Error =
    | NoSuchElement        // Iterator.next() on an exhausted iterator
    | IndexOutOfBounds     // List.get / List.subList out of range
    | IllegalArgument      // IllegalArgumentException thrown by the lock manager

  datatype Result<+T> = Ok(value: T) | Fail(error: Error)

  function Min(a: nat, b: nat): nat
  {
    if a < b then a else b
  }

  /** The value of column `col` of `r`. The schema guarantees every record has
      that column; a shorter record reads as 0. */
  function Key(r: Record, col: nat): Value
  {
    if col < |r| then r[col] else 0
  }

  /** The key of the record at index `i`. */
  function KeyAt(rs: seq<Record>, i: nat, col: nat): Value
    requires i < |rs|
  {
    Key(rs[i], col)
  }

  /** Non-decreasing on column `col`. */
  ghost predicate Sorted(rs: seq<Record>, col: nat)
  {
    forall i, j :: 0 <= i < j < |rs| ==> KeyAt(rs, i, col) <= KeyAt(rs, j, col)
  }

  /** A suffix of a sorted sequence is sorted. */
  lemma SortedDrop(rs: seq<Record>, k: nat, col: nat)
    requires Sorted(rs, col) && k <= |rs|
    ensures Sorted(rs[k..], col)
  {
    var s := rs[k..];
    forall i, j | 0 <= i < j < |s|
      ensures KeyAt(s, i, col) <= KeyAt(s, j, col)
    {
      assert KeyAt(s, i, col) == KeyAt(rs, i + k, col);
      assert KeyAt(s, j, col) == KeyAt(rs, j + k, col);
    }
  }

  /** A record whose key is at most every key of a sorted sequence can be put
      in front of it. */
  lemma SortedCons(x: Record, rs: seq<Record>, col: nat)
    requires Sorted(rs, col)
    requires forall j :: 0 <= j < |rs| ==> Key(x, col) <= Key(rs[j], col)
    ensures Sorted([x] + rs, col)
  {
    var s := [x] + rs;
    forall i, j | 0 <= i < j < |s|
      ensures KeyAt(s, i, col) <= KeyAt(s, j, col)
    {
      assert KeyAt(s, j, col) == KeyAt(rs, j - 1, col);
      if i > 0 {
        assert KeyAt(s, i, col) == KeyAt(rs, i - 1, col);
      }
    }
  }

  /** In a sorted sequence, the first key is the smallest. */
  lemma SortedFirst(rs: seq<Record>, col: nat)
    requires Sorted(rs, col) && rs != []
    ensures forall j :: 0 <= j < |rs| ==> Key(rs[0], col) <= Key(rs[j], col)
  {
    forall j | 0 < j < |rs|
      ensures Key(rs[0], col) <= Key(rs[j], col)
    {
      assert KeyAt(rs, 0, col) <= KeyAt(rs, j, col);
    }
  }

  /** The records of a sequence of pages (or runs), in page order then slot order. */
  function Flatten(ps: seq<seq<Record>>): (rs: seq<Record>)
    ensures |ps| == 0 ==> rs == []
  {
    if ps == [] then [] else ps[0] + Flatten(ps[1..])
  }

  /** Flattening distributes over concatenation of page lists. */
  lemma {:induction false} FlattenAppend(a: seq<seq<Record>>, b: seq<seq<Record>>)
    ensures Flatten(a + b) == Flatten(a) + Flatten(b)
    decreases |a|
  {
    if a == [] {
      assert a + b == b;
    } else {
      assert (a + b)[1..] == a[1..] + b;
      FlattenAppend(a[1..], b);
    }
  }

  /** A single page flattens to its own records. */
  lemma FlattenOne(p: seq<Record>)
    ensures Flatten([p]) == p
  {
    assert [p][1..] == [];
  }

  /** Concatenation is associative. */
  lemma AppendAssoc<T>(a: seq<T>, b: seq<T>, c: seq<T>)
    ensures a + (b + c) == (a + b) + c
  {
  }

  /** The data records of a table, in scan order. */
  function DataRecords(t: Table): seq<Record>
  {
    Flatten(t.pages)
  }
}
