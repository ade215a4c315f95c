/**
 * Descending, predicate-filtered retrieval of items from the ledger
 * (`retrieveItems` and `retrieveAllItems` of js/marketSite.js).
 *
 * As written, the batching loop never decrements `count`, so the first batch
 * reads every id from `from` down to 1 and the result is every matching item,
 * not only the first `count` of them. `RetrieveItems` models that behaviour;
 * `RetrieveWindowed` is the evidently intended pager, proved to return the
 * first `count` matches and to agree with `RetrieveItems` whenever `count`
 * covers all matches (which is the case for `retrieveAllItems`).
 */
module Retrieval {
  import opened Wrappers
  import opened Ledgers

  /** A `getItem` call was rejected; the source routes it to its error handler. */
  datatype ReadError = ReadFailure

  /** The predicate used when `retrieveAllItems` is given none: `() => true`. */
  function AnyItem(item: Item): bool {
    true
  }

  /** The ids hi, hi-1, ..., lo+1, in that order. */
  function IdsRange(hi: int, lo: int): seq<int>
    decreases hi - lo
  {
    if hi <= lo then [] else [hi] + IdsRange(hi - 1, lo)
  }

  /** The pending reads `getItem(hi), ..., getItem(lo+1)`, in the order they are issued. */
  function ReadRange(ledger: Ledger, hi: int, lo: int): (r: seq<Option<Item>>)
    ensures |r| == (if hi <= lo then 0 else hi - lo)
    ensures forall k :: 0 <= k < |r| ==> r[k] == ledger.GetItem(hi - k)
    decreases hi - lo
  {
    if hi <= lo then [] else [ledger.GetItem(hi)] + ReadRange(ledger, hi - 1, lo)
  }

  /** The records with ids hi down to lo+1. */
  function ItemsRange(ledger: Ledger, hi: int, lo: int): seq<Item>
    requires 0 <= lo <= hi <= |ledger.items|
    decreases hi - lo
  {
    if hi == lo then [] else [ledger.items[hi - 1]] + ItemsRange(ledger, hi - 1, lo)
  }

  /** The records with ids `from` down to 1. */
  function ItemsDown(ledger: Ledger, from: int): seq<Item>
    requires 0 <= from <= |ledger.items|
  {
    ItemsRange(ledger, from, 0)
  }

  /**
   * `Promise.all` over reads: all values in order when every read succeeded,
   * otherwise a failure.
   */
  function AllResolved(calls: seq<Option<Item>>): (r: Option<seq<Item>>)
    ensures r.Some? <==> forall k :: 0 <= k < |calls| ==> calls[k].Some?
    ensures r.Some? ==> |r.value| == |calls| && forall k :: 0 <= k < |calls| ==> r.value[k] == calls[k].value
  {
    if calls == [] then Some([])
    else match (calls[0], AllResolved(calls[1..]))
      case (Some(x), Some(rest)) => Some([x] + rest)
      case _ => None
  }

  /** `Array.prototype.filter`: the elements satisfying `p`, in their original order. */
  function Filter(s: seq<Item>, p: Item -> bool): (r: seq<Item>)
    ensures |r| <= |s|
    ensures forall k :: 0 <= k < |r| ==> p(r[k])
  {
    if s == [] then []
    else (if p(s[0]) then [s[0]] else []) + Filter(s[1..], p)
  }

  /** The first `n` elements of `s` (all of `s` when it is shorter). */
  function Take(s: seq<Item>, n: int): (r: seq<Item>)
    ensures n <= 0 ==> r == []
    ensures 0 <= n <= |s| ==> r == s[..n]
    ensures n >= |s| ==> r == s
  {
    if n <= 0 then [] else if n >= |s| then s else s[..n]
  }

  /** Ids strictly decrease along `s`. */
  ghost predicate StrictlyDescending(s: seq<Item>) {
    forall i, j :: 0 <= i < j < |s| ==> s[i].itemId > s[j].itemId
  }

  // ---------------------------------------------------------------------------
  // The source's retrieval, as written
  // ---------------------------------------------------------------------------

  /**
   * `retrieveItems(from, count, accept)`. It returns the ids it asked the
   * ledger for, in request order, and the filtered records. The loop condition
   * tests `count` but only `from` is decremented.
   */
  method RetrieveItems(ledger: Ledger, from: int, count: int, accept: Item -> bool)
    returns (requested: seq<int>, r: Result<seq<Item>, ReadError>)
    ensures requested == (if count > 0 then IdsRange(from, 0) else [])
    ensures count <= 0 || from <= 0 ==> r == Success([])
    ensures count > 0 && from > ledger.ItemsCount() ==> r == Failure(ReadFailure)
    ensures count > 0 && 0 < from <= ledger.ItemsCount() ==> r == Success(Filter(ItemsDown(ledger, from), accept))
  {
    var results: seq<Option<Item>> := [];
    requested := [];
    var next := from;
    while count > 0 && next > 0
      invariant count > 0 ==> (0 <= next <= from || next == from)
      invariant count <= 0 ==> next == from && results == [] && requested == []
      invariant count > 0 ==> results + ReadRange(ledger, next, 0) == ReadRange(ledger, from, 0)
      invariant count > 0 ==> requested + IdsRange(next, 0) == IdsRange(from, 0)
      decreases next
    {
      results := results + [ledger.GetItem(next)];
      requested := requested + [next];
      next := next - 1;
    }
    assert count > 0 ==> results == ReadRange(ledger, from, 0);
    if count > 0 && 0 < from <= ledger.ItemsCount() {
      ReadRangeResolves(ledger, from, 0);
    } else if count > 0 && from > ledger.ItemsCount() {
      ReadRangeFails(ledger, from, 0);
    }
    match AllResolved(results)
    case None =>
      r := Failure(ReadFailure);
    case Some(v) =>
      var filtered := Filter(v, accept);
      r := Success(filtered);
      if next > 0 && count > |filtered| {
        // The source recurses here on (next - 1, count - |filtered|); the loop
        // above always leaves `next` at 0 when `count` is positive.
        assert false;
      }
  }

  /**
   * `retrieveAllItems(predicate)`: `retrieveItems(itemsCount, itemsCount, pred)`
   * with `pred` defaulting to a predicate that accepts everything.
   */
  method RetrieveAllItems(ledger: Ledger, accept: Option<Item -> bool>)
    returns (requested: seq<int>, r: Result<seq<Item>, ReadError>)
    ensures requested == IdsRange(ledger.ItemsCount(), 0)
    ensures r == Success(Filter(ItemsDown(ledger, ledger.ItemsCount()), OrAnyItem(accept)))
    ensures r == RetrieveWindowed(ledger, ledger.ItemsCount(), ledger.ItemsCount(), OrAnyItem(accept))
    ensures accept.None? ==> r == Success(ItemsDown(ledger, ledger.ItemsCount()))
    ensures ledger.ItemsCount() == 0 ==> r == Success([])
  {
    var pred := OrAnyItem(accept);
    var v := ledger.ItemsCount();
    requested, r := RetrieveItems(ledger, v, v, pred);
    ItemsRangeLength(ledger, v, 0);
    WindowedAgreesWhenCountCovers(ledger, v, v, pred);
    if accept.None? {
      FilterKeepsAll(ItemsDown(ledger, v), pred);
    }
  }

  /** The predicate `retrieveAllItems` filters with. */
  function OrAnyItem(accept: Option<Item -> bool>): Item -> bool {
    if accept.Some? then accept.value else AnyItem
  }

  // ---------------------------------------------------------------------------
  // The evidently intended, quota-bounded pager
  // ---------------------------------------------------------------------------

  /**
   * Read a window of `min(count, from)` ids below `from`, filter it, and if
   * fewer than `count` matched and ids remain, continue below the window for
   * the missing number of matches.
   */
  function RetrieveWindowed(ledger: Ledger, from: int, count: int, p: Item -> bool): (r: Result<seq<Item>, ReadError>)
    ensures count <= 0 || from <= 0 ==> r == Success([])
    ensures r.Success? ==> |r.value| <= count || count <= 0
    decreases from
  {
    if count <= 0 || from <= 0 then Success([])
    else
      var w := if count < from then count else from;
      match AllResolved(ReadRange(ledger, from, from - w))
      case None => Failure(ReadFailure)
      case Some(v) =>
        var filtered := Filter(v, p);
        if from - w > 0 && count > |filtered| then
          match RetrieveWindowed(ledger, from - w, count - |filtered|, p)
          case Failure(e) => Failure(e)
          case Success(rest) => Success(filtered + rest)
        else Success(filtered)
  }

  // ---------------------------------------------------------------------------
  // Lemmas
  // ---------------------------------------------------------------------------

  /** The requested ids are hi, hi-1, ..., lo+1: strictly descending, each once. */
  lemma {:induction false} IdsRangeDescending(hi: int, lo: int)
    ensures |IdsRange(hi, lo)| == (if hi <= lo then 0 else hi - lo)
    ensures forall k :: 0 <= k < |IdsRange(hi, lo)| ==> IdsRange(hi, lo)[k] == hi - k
    ensures forall id :: id in IdsRange(hi, lo) <==> lo < id <= hi
    ensures forall i, j :: 0 <= i < j < |IdsRange(hi, lo)| ==> IdsRange(hi, lo)[i] > IdsRange(hi, lo)[j]
    decreases hi - lo
  {
    if hi > lo {
      IdsRangeDescending(hi - 1, lo);
    }
  }

  /** Reads of ids inside the ledger all succeed and yield the matching records. */
  lemma {:induction false} ReadRangeResolves(ledger: Ledger, hi: int, lo: int)
    requires 0 <= lo <= hi <= ledger.ItemsCount()
    ensures AllResolved(ReadRange(ledger, hi, lo)) == Some(ItemsRange(ledger, hi, lo))
    decreases hi - lo
  {
    if hi > lo {
      ReadRangeResolves(ledger, hi - 1, lo);
      var rest := ReadRange(ledger, hi - 1, lo);
      assert ReadRange(ledger, hi, lo) == [ledger.GetItem(hi)] + rest;
      assert ([ledger.GetItem(hi)] + rest)[1..] == rest;
    }
  }

  /** A batch that starts above the last assigned id fails as a whole. */
  lemma ReadRangeFails(ledger: Ledger, hi: int, lo: int)
    requires lo < hi && hi > ledger.ItemsCount()
    ensures AllResolved(ReadRange(ledger, hi, lo)) == None
  {
    assert ReadRange(ledger, hi, lo)[0] == ledger.GetItem(hi);
  }

  /** The records with ids hi..lo+1 are those with ids hi..mid+1 followed by mid..lo+1. */
  lemma {:induction false} ItemsRangeSplit(ledger: Ledger, hi: int, mid: int, lo: int)
    requires 0 <= lo <= mid <= hi <= ledger.ItemsCount()
    ensures ItemsRange(ledger, hi, lo) == ItemsRange(ledger, hi, mid) + ItemsRange(ledger, mid, lo)
    decreases hi - mid
  {
    if hi > mid {
      ItemsRangeSplit(ledger, hi - 1, mid, lo);
    }
  }

  /** On a well-formed ledger the records hi..lo+1 carry exactly those ids, in that order. */
  lemma {:induction false} ItemsRangeIds(ledger: Ledger, hi: int, lo: int)
    requires 0 <= lo <= hi <= ledger.ItemsCount()
    requires ledger.WellFormed()
    ensures |ItemsRange(ledger, hi, lo)| == hi - lo
    ensures forall k :: 0 <= k < hi - lo ==> ItemsRange(ledger, hi, lo)[k] == ledger.items[hi - 1 - k]
    ensures forall k :: 0 <= k < hi - lo ==> ItemsRange(ledger, hi, lo)[k].itemId == hi - k
    decreases hi - lo
  {
    if hi > lo {
      ItemsRangeIds(ledger, hi - 1, lo);
    }
  }

  /** An element survives filtering exactly when it is in the input and satisfies `p`. */
  lemma {:induction false} FilterMembers(s: seq<Item>, p: Item -> bool)
    ensures forall x :: x in Filter(s, p) <==> x in s && p(x)
  {
    if s != [] {
      FilterMembers(s[1..], p);
      assert s == [s[0]] + s[1..];
    }
  }

  /** Filtering distributes over concatenation. */
  lemma {:induction false} FilterConcat(a: seq<Item>, b: seq<Item>, p: Item -> bool)
    ensures Filter(a + b, p) == Filter(a, p) + Filter(b, p)
  {
    if a == [] {
      assert a + b == b;
    } else {
      var head: seq<Item> := if p(a[0]) then [a[0]] else [];
      assert (a + b)[0] == a[0];
      assert (a + b)[1..] == a[1..] + b;
      assert Filter(a + b, p) == head + Filter(a[1..] + b, p);
      FilterConcat(a[1..], b, p);
      assert Filter(a, p) == head + Filter(a[1..], p);
    }
  }

  /** Filtering with a predicate every element satisfies changes nothing. */
  lemma {:induction false} FilterKeepsAll(s: seq<Item>, p: Item -> bool)
    requires forall x :: x in s ==> p(x)
    ensures Filter(s, p) == s
  {
    if s != [] {
      assert forall x :: x in s[1..] ==> x in s;
      FilterKeepsAll(s[1..], p);
    }
  }

  /** Filtering keeps a strictly descending order of ids. */
  lemma {:induction false} FilterKeepsDescending(s: seq<Item>, p: Item -> bool)
    requires StrictlyDescending(s)
    ensures StrictlyDescending(Filter(s, p))
  {
    if s != [] {
      FilterKeepsDescending(s[1..], p);
      var tail := Filter(s[1..], p);
      FilterMembers(s[1..], p);
      forall x | x in tail
        ensures x.itemId < s[0].itemId
      {
        var j :| 0 <= j < |s[1..]| && s[1..][j] == x;
        assert s[j + 1] == x;
      }
      var head: seq<Item> := if p(s[0]) then [s[0]] else [];
      assert Filter(s, p) == head + tail;
      forall i, j | 0 <= i < j < |head + tail|
        ensures (head + tail)[i].itemId > (head + tail)[j].itemId
      {
        if i < |head| {
          assert (head + tail)[j] in tail;
        }
      }
    }
  }

  /**
   * What `retrieveItems(from, count, p)` returns for `count > 0` on a
   * well-formed ledger: exactly the records with ids in [1, from] satisfying
   * `p`, strictly descending by id.
   */
  lemma RetrievedItems(ledger: Ledger, from: int, p: Item -> bool)
    requires 0 <= from <= ledger.ItemsCount()
    requires ledger.WellFormed()
    ensures forall x :: x in Filter(ItemsDown(ledger, from), p) ==>
      p(x) && 1 <= x.itemId <= from && x == ledger.items[x.itemId - 1]
    ensures forall k :: 0 <= k < from && p(ledger.items[k]) ==> ledger.items[k] in Filter(ItemsDown(ledger, from), p)
    ensures StrictlyDescending(Filter(ItemsDown(ledger, from), p))
  {
    ItemsRangeIds(ledger, from, 0);
    var s := ItemsDown(ledger, from);
    FilterMembers(s, p);
    forall x | x in s
      ensures 1 <= x.itemId <= from && x == ledger.items[x.itemId - 1]
    {
      var k :| 0 <= k < |s| && s[k] == x;
    }
    forall k | 0 <= k < from
      ensures ledger.items[k] in s
    {
      assert s[from - 1 - k] == ledger.items[k];
    }
    FilterKeepsDescending(s, p);
  }

  /** Counterexample to the documented quota: every match comes back, however small `count` is. */
  lemma AsWrittenIgnoresCount(ledger: Ledger, from: int, count: int)
    requires 0 < count < from <= ledger.ItemsCount()
    ensures |Filter(ItemsDown(ledger, from), AnyItem)| == from
    ensures |Filter(ItemsDown(ledger, from), AnyItem)| > count
  {
    FilterKeepsAll(ItemsDown(ledger, from), AnyItem);
    ItemsRangeLength(ledger, from, 0);
  }

  lemma {:induction false} ItemsRangeLength(ledger: Ledger, hi: int, lo: int)
    requires 0 <= lo <= hi <= ledger.ItemsCount()
    ensures |ItemsRange(ledger, hi, lo)| == hi - lo
    decreases hi - lo
  {
    if hi > lo {
      ItemsRangeLength(ledger, hi - 1, lo);
    }
  }

  /** Taking from a concatenation whose first part is shorter than the quota. */
  lemma TakeConcat(f: seq<Item>, m: seq<Item>, c: int)
    requires |f| < c
    ensures Take(f + m, c) == f + Take(m, c - |f|)
  {
    if c - |f| < |m| {
      assert (f + m)[..c] == f + m[..c - |f|];
    }
  }

  /** One round of the corrected pager once its window has been read. */
  lemma WindowedUnfold(ledger: Ledger, from: int, count: int, p: Item -> bool)
    requires 0 < from <= ledger.ItemsCount() && count > 0
    ensures var lo := from - (if count < from then count else from);
            var filtered := Filter(ItemsRange(ledger, from, lo), p);
            RetrieveWindowed(ledger, from, count, p) ==
              if lo > 0 && count > |filtered| then
                match RetrieveWindowed(ledger, lo, count - |filtered|, p)
                case Failure(e) => Failure(e)
                case Success(rest) => Success(filtered + rest)
              else Success(filtered)
  {
    var lo := from - (if count < from then count else from);
    ReadRangeResolves(ledger, from, lo);
  }

  /** The corrected pager returns the first `count` matches from `from` down. */
  lemma {:induction false} WindowedReturnsFirstMatches(ledger: Ledger, from: int, count: int, p: Item -> bool)
    requires 0 <= from <= ledger.ItemsCount()
    ensures RetrieveWindowed(ledger, from, count, p) == Success(Take(Filter(ItemsDown(ledger, from), p), count))
    decreases from
  {
    if count > 0 && from > 0 {
      var lo := from - (if count < from then count else from);
      WindowedUnfold(ledger, from, count, p);
      var window := ItemsRange(ledger, from, lo);
      ItemsRangeLength(ledger, from, lo);
      var filtered := Filter(window, p);
      ItemsRangeSplit(ledger, from, lo, 0);
      FilterConcat(window, ItemsDown(ledger, lo), p);
      var rest := Filter(ItemsDown(ledger, lo), p);
      assert Filter(ItemsDown(ledger, from), p) == filtered + rest;
      if lo > 0 && count > |filtered| {
        WindowedReturnsFirstMatches(ledger, lo, count - |filtered|, p);
        TakeConcat(filtered, rest, count);
      } else if lo == 0 {
        assert rest == [];
        assert filtered + rest == filtered;
      } else {
        assert (filtered + rest)[..count] == filtered;
      }
    }
  }

  /**
   * When `count` is at least the number of matches, the corrected pager and
   * the as-written retrieval return the same sequence.
   */
  lemma WindowedAgreesWhenCountCovers(ledger: Ledger, from: int, count: int, p: Item -> bool)
    requires 0 <= from <= ledger.ItemsCount()
    requires count >= |Filter(ItemsDown(ledger, from), p)|
    ensures RetrieveWindowed(ledger, from, count, p) == Success(Filter(ItemsDown(ledger, from), p))
  {
    WindowedReturnsFirstMatches(ledger, from, count, p);
    if count <= 0 {
      assert Filter(ItemsDown(ledger, from), p) == [];
    }
  }
}
