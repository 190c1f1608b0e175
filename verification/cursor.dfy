/**
 The replayable record cursor the sort-merge join reads its sorted inputs
 through: a forward cursor over a sequence with one mark slot.

 The iterator classes themselves are not part of this model; their use in the
 sort-merge join fixes the two operations relied on here: `Mark` remembers the
 element returned last (it does nothing while no element has been returned),
 and `Reset` makes the next `Next` return the marked element again (it does
 nothing while no mark is set).
 */
module Cursor {
  import opened Common

  datatype Cursor<T> = Cursor(items: seq<T>, pos: nat, mark: Option<nat>)
  {
    /** Position within bounds; a mark always names a returned element. */
    ghost predicate Valid()
    {
      && pos <= |items|
      && (mark.Some? ==> mark.value < |items|)
    }

    predicate HasNext()
    {
      pos < |items|
    }

    /** How many items are still to be returned. */
    function Remaining(): int
    {
      |items| - pos
    }
  }

  /** A fresh cursor at the start of `items`, with no mark. */
  function Open<T>(items: seq<T>): (c: Cursor<T>)
    ensures c.Valid() && c.items == items
    ensures c.HasNext() <==> |items| > 0
  {
    Cursor(items, 0, None)
  }

  /** Returns the element under the cursor and moves past it; fails with
      NoSuchElement once the cursor is exhausted. */
  function Next<T>(c: Cursor<T>): (r: Result<(T, Cursor<T>)>)
    requires c.Valid()
    ensures r.Fail? <==> !c.HasNext()
    ensures r.Fail? ==> r.error == NoSuchElement
    ensures r.Ok? ==> r.value.0 == c.items[c.pos] && r.value.1.Valid()
                      && r.value.1.items == c.items && r.value.1.pos == c.pos + 1
                      && r.value.1.mark == c.mark
  {
    if c.pos < |c.items| then Ok((c.items[c.pos], c.(pos := c.pos + 1)))
    else Fail(NoSuchElement)
  }

  /** Marks the element returned last. */
  function Mark<T>(c: Cursor<T>): (c': Cursor<T>)
    requires c.Valid()
    ensures c'.Valid() && c'.items == c.items && c'.pos == c.pos
    ensures c.pos > 0 ==> c'.mark == Some(c.pos - 1)
    ensures c.pos == 0 ==> c'.mark == c.mark
  {
    if c.pos > 0 then c.(mark := Some(c.pos - 1)) else c
  }

  /** Rewinds to the marked element, so that it is returned again. */
  function Reset<T>(c: Cursor<T>): (c': Cursor<T>)
    requires c.Valid()
    ensures c'.Valid() && c'.items == c.items && c'.mark == c.mark
    ensures c.mark.Some? ==> c'.pos == c.mark.value
    ensures c.mark.None? ==> c'.pos == c.pos
  {
    if c.mark.Some? then c.(pos := c.mark.value) else c
  }

  /** Calls `Next` `k` times and collects what it returns. */
  function Consume<T>(c: Cursor<T>, k: nat): (r: (seq<T>, Cursor<T>))
    requires c.Valid() && c.pos + k <= |c.items|
    ensures r.1.Valid() && r.1.items == c.items && r.1.mark == c.mark
    ensures r.1.pos == c.pos + k && |r.0| == k
    decreases k
  {
    if k == 0 then ([], c)
    else
      var (x, c1) := Next(c).value;
      var (xs, c2) := Consume(c1, k - 1);
      ([x] + xs, c2)
  }

  /** What `Consume` returns is the next `k` items of the underlying sequence. */
  lemma {:induction false} ConsumeReads<T>(c: Cursor<T>, k: nat)
    requires c.Valid() && c.pos + k <= |c.items|
    ensures Consume(c, k).0 == c.items[c.pos .. c.pos + k]
    decreases k
  {
    if k > 0 {
      var (x, c1) := Next(c).value;
      ConsumeReads(c1, k - 1);
    }
  }

  /** Replay: after `Mark`, reading `k` elements and `Reset`, the cursor
      returns the marked element followed by the same `k` elements in the same
      order. */
  lemma Replay<T>(c: Cursor<T>, k: nat)
    requires c.Valid() && c.pos > 0 && c.pos + k <= |c.items|
    ensures var (xs, c2) := Consume(Mark(c), k);
            var back := Reset(c2);
            back.pos + k + 1 <= |back.items|
            && Consume(back, k + 1).0 == [c.items[c.pos - 1]] + xs
  {
    var (xs, c2) := Consume(Mark(c), k);
    ConsumeReads(Mark(c), k);
    var back := Reset(c2);
    ConsumeReads(back, k + 1);
    assert back.pos == c.pos - 1;
    assert c.items[c.pos - 1 .. c.pos + k] == [c.items[c.pos - 1]] + c.items[c.pos .. c.pos + k];
  }
}
