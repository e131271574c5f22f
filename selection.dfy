/**
 * What every discover-and-filter loop computes: walk the listed items in
 * page-then-item order, keep those the filter accepts, and emit one field of
 * each kept item.
 */
module Selection {

  function Identity<T>(x: T): T { x }

  /** The items of all pages, page after page, each page in its own order. */
  function Flatten<T>(pages: seq<seq<T>>): (items: seq<T>)
    decreases |pages|
  {
    if |pages| == 0 then []
    else Flatten(pages[..|pages| - 1]) + pages[|pages| - 1]
  }

  /** The positions of the items `keep` accepts: increasing, and every accepted position is there. */
  function MatchIndices<T>(items: seq<T>, keep: T -> bool): (ix: seq<nat>)
    ensures forall k :: 0 <= k < |ix| ==> ix[k] < |items| && keep(items[ix[k]])
    ensures forall k, l :: 0 <= k < l < |ix| ==> ix[k] < ix[l]
    ensures forall i :: 0 <= i < |items| && keep(items[i]) ==> i in ix
    decreases |items|
  {
    if |items| == 0 then []
    else
      var n := |items| - 1;
      MatchIndices(items[..n], keep) + (if keep(items[n]) then [n] else [])
  }

  /** The `emit` image of the items `keep` accepts, in their original order. */
  function Select<T, U>(items: seq<T>, keep: T -> bool, emit: T -> U): (r: seq<U>)
    decreases |items|
  {
    if |items| == 0 then []
    else
      var n := |items| - 1;
      Select(items[..n], keep, emit) + (if keep(items[n]) then [emit(items[n])] else [])
  }

  /**
   * Select is exactly the emitted field of the accepted items, taken at their
   * increasing positions: an order-preserving subsequence holding every match.
   */
  lemma {:induction false} SelectAtMatches<T, U>(items: seq<T>, keep: T -> bool, emit: T -> U)
    ensures |Select(items, keep, emit)| == |MatchIndices(items, keep)|
    ensures forall k :: 0 <= k < |MatchIndices(items, keep)| ==>
      Select(items, keep, emit)[k] == emit(items[MatchIndices(items, keep)[k]])
    decreases |items|
  {
    if |items| > 0 {
      var n := |items| - 1;
      SelectAtMatches(items[..n], keep, emit);
    }
  }

  /** A value is selected iff some accepted item emits it. */
  lemma SelectMembers<T, U>(items: seq<T>, keep: T -> bool, emit: T -> U, u: U)
    ensures u in Select(items, keep, emit) <==>
      exists i :: 0 <= i < |items| && keep(items[i]) && emit(items[i]) == u
  {
    SelectAtMatches(items, keep, emit);
    var r, ix := Select(items, keep, emit), MatchIndices(items, keep);
    if u in r {
      var k :| 0 <= k < |r| && r[k] == u;
      assert keep(items[ix[k]]) && emit(items[ix[k]]) == u;
    }
    if i :| 0 <= i < |items| && keep(items[i]) && emit(items[i]) == u {
      var k :| 0 <= k < |ix| && ix[k] == i;
      assert r[k] == u;
    }
  }

  /** Selecting from two consecutive stretches selects from each in turn. */
  lemma {:induction false} SelectConcat<T, U>(a: seq<T>, b: seq<T>, keep: T -> bool, emit: T -> U)
    ensures Select(a + b, keep, emit) == Select(a, keep, emit) + Select(b, keep, emit)
    decreases |b|
  {
    if |b| > 0 {
      var n := |b| - 1;
      SelectConcat(a, b[..n], keep, emit);
      assert (a + b)[..|a + b| - 1] == a + b[..n];
    } else {
      assert a + b == a;
    }
  }

  /** When the filter accepts nothing, nothing is selected. */
  lemma {:induction false} SelectNone<T, U>(items: seq<T>, keep: T -> bool, emit: T -> U)
    requires forall i :: 0 <= i < |items| ==> !keep(items[i])
    ensures Select(items, keep, emit) == []
    decreases |items|
  {
    if |items| > 0 {
      SelectNone(items[..|items| - 1], keep, emit);
    }
  }

  /** When the filter accepts everything, the identity selection returns the items themselves. */
  lemma {:induction false} SelectAll<T>(items: seq<T>, keep: T -> bool)
    requires forall i :: 0 <= i < |items| ==> keep(items[i])
    ensures Select(items, keep, Identity) == items
    decreases |items|
  {
    if |items| > 0 {
      var n := |items| - 1;
      SelectAll(items[..n], keep);
      assert items[..n] + [items[n]] == items;
    }
  }
}
