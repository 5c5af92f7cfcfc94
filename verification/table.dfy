/** The two queries the indexer runs against the whole table: the cursor,
    `SELECT Max(block)` with its fallback to the start height, and the
    startup `DELETE … WHERE block = (SELECT Max(block) …)`. */
module Table {
  import opened Types

  /** `MAX(block)` over the table, NULL when the table is empty. */
  function MaxBlock(store: Store): (m: Option<int>)
    ensures m.None? <==> |store| == 0
    ensures m.Some? ==> exists k :: 0 <= k < |store| && store[k].block == m.value
    ensures m.Some? ==> forall k :: 0 <= k < |store| ==> store[k].block <= m.value
  {
    if |store| == 0 then None
    else
      match MaxBlock(store[1..])
      case None => Some(store[0].block)
      case Some(m) => Some(if store[0].block > m then store[0].block else m)
  }

  /** The highest indexed block, or the configured start height when nothing
      is indexed yet. */
  function Cursor(store: Store, startBlock: int): (c: int)
    ensures |store| == 0 ==> c == startBlock
    ensures |store| > 0 ==> exists k :: 0 <= k < |store| && store[k].block == c
    ensures forall k :: 0 <= k < |store| ==> store[k].block <= c
  {
    match MaxBlock(store)
    case None => startBlock
    case Some(m) => m
  }

  /** Appending rows never lowers the cursor of a non-empty table. */
  lemma AppendKeepsCursor(store: Store, rows: Store, startBlock: int)
    requires |store| > 0
    ensures Cursor(store + rows, startBlock) >= Cursor(store, startBlock)
  {
    var k :| 0 <= k < |store| && store[k].block == Cursor(store, startBlock);
    assert (store + rows)[k] == store[k];
  }

  /** The rows whose block is not `h`, in their order. */
  function WithoutBlock(store: Store, h: int): (r: Store)
    ensures |r| <= |store|
    ensures forall k :: 0 <= k < |r| ==> r[k].block != h
  {
    if |store| == 0 then []
    else (if store[0].block == h then [] else [store[0]]) + WithoutBlock(store[1..], h)
  }

  /** Removing block `h` keeps each other row as often as it occurred and
      drops every row of `h`. */
  lemma {:induction false} WithoutBlockCounts(store: Store, h: int)
    ensures forall x ::
      multiset(WithoutBlock(store, h))[x] == (if x.block == h then 0 else multiset(store)[x])
    decreases |store|
  {
    if |store| > 0 {
      WithoutBlockCounts(store[1..], h);
      assert store == [store[0]] + store[1..];
    }
  }

  /** Removing a block distributes over concatenation, so the rows kept stay
      in their original order. */
  lemma {:induction false} WithoutBlockAppend(a: Store, b: Store, h: int)
    ensures WithoutBlock(a + b, h) == WithoutBlock(a, h) + WithoutBlock(b, h)
    decreases |a|
  {
    if |a| == 0 {
      assert a + b == b;
    } else {
      assert (a + b)[1..] == a[1..] + b;
      WithoutBlockAppend(a[1..], b, h);
    }
  }

  lemma {:induction false} WithoutAbsentBlock(a: Store, h: int)
    requires forall k :: 0 <= k < |a| ==> a[k].block != h
    ensures WithoutBlock(a, h) == a
    decreases |a|
  {
    if |a| > 0 {
      WithoutAbsentBlock(a[1..], h);
      assert a == [a[0]] + a[1..];
    }
  }

  lemma {:induction false} WithoutOnlyBlock(a: Store, h: int)
    requires forall k :: 0 <= k < |a| ==> a[k].block == h
    ensures WithoutBlock(a, h) == []
    decreases |a|
  {
    if |a| > 0 {
      WithoutOnlyBlock(a[1..], h);
    }
  }

  /** The startup discard: every row of the highest block goes, every other
      row stays, as many times as it was there; an empty table stays empty. */
  function DiscardHighest(store: Store): (r: Store)
    ensures |store| == 0 ==> r == []
    ensures |store| > 0 ==>
      forall x :: multiset(r)[x] == (if x.block == MaxBlock(store).value then 0 else multiset(store)[x])
    ensures |store| > 0 ==> forall k :: 0 <= k < |r| ==> r[k].block < MaxBlock(store).value
  {
    match MaxBlock(store)
    case None => store
    case Some(m) =>
      WithoutBlockCounts(store, m);
      WithoutBlock(store, m)
  }

  /** On a table that ends with rows of its highest block, the discard
      removes exactly that trailing run and leaves the rows before it
      untouched, in order. */
  lemma DiscardDropsTopRun(lower: Store, top: Store)
    requires |top| > 0
    requires forall k :: 0 <= k < |top| ==> top[k].block == top[0].block
    requires forall k :: 0 <= k < |lower| ==> lower[k].block < top[0].block
    ensures MaxBlock(lower + top) == Some(top[0].block)
    ensures DiscardHighest(lower + top) == lower
  {
    var s := lower + top;
    var h := top[0].block;
    assert s[|lower|] == top[0];
    var w :| 0 <= w < |s| && s[w].block == MaxBlock(s).value;
    assert MaxBlock(s).value == h by {
      if w >= |lower| {
        assert s[w] == top[w - |lower|];
      }
    }
    WithoutBlockAppend(lower, top, h);
    WithoutAbsentBlock(lower, h);
    WithoutOnlyBlock(top, h);
    assert lower + [] == lower;
  }
}
