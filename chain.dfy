/**
 * The chain of pin selectors that `_generateFrontendElements` in pinmap/adapter.py links
 * with `previous`/`next` references, and the walk `updateFrontend` makes along it.
 * Selectors are numbered by mapping row; -1 stands for a missing link (`None`).
 */
module SelectorChain {

  const NoSelector: int := -1

  /** Links as the source leaves them: every selector but the last is linked both ways; the last is not linked at all. */
  function AsWrittenPrevious(n: nat): seq<int>
  {
    seq(n, k => if k < n - 1 then k - 1 else NoSelector)
  }

  /** `next` links, which the source sets correctly: the last selector has none. */
  function NextLinks(n: nat): seq<int>
  {
    seq(n, k => if k < n - 1 then k + 1 else NoSelector)
  }

  /** `previous` links of a doubly linked chain: each selector points at the one before it. */
  function PreviousLinks(n: nat): seq<int>
  {
    seq(n, k => k - 1)
  }

  /**
   * The three-cursor loop of `_generateFrontendElements`: when selector `j` is created, the
   * one before it gets its links. The loop ends before the last selector gets any.
   */
  method LinkSelectorsAsWritten(n: nat) returns (previous: seq<int>, next: seq<int>)
    ensures previous == AsWrittenPrevious(n) && next == NextLinks(n)
  {
    previous := seq(n, _ => NoSelector);
    next := seq(n, _ => NoSelector);
    var prev, curr, nxt := NoSelector, NoSelector, NoSelector;
    var j := 0;
    while j < n
      invariant 0 <= j <= n && |previous| == n && |next| == n
      invariant nxt == j - 1 && curr == (if j >= 1 then j - 2 else NoSelector)
      invariant forall k :: 0 <= k < j - 1 ==> previous[k] == k - 1 && next[k] == k + 1
      invariant forall k :: j - 1 <= k < n && 0 <= k ==> previous[k] == NoSelector && next[k] == NoSelector
    {
      prev := curr;
      curr := nxt;
      nxt := j;
      if curr != NoSelector {
        previous := previous[curr := prev];
        next := next[curr := nxt];
      }
      j := j + 1;
    }
  }

  /** The evidently intended linking: after the loop the last selector is linked back to the one before it. */
  method LinkSelectors(n: nat) returns (previous: seq<int>, next: seq<int>)
    ensures previous == PreviousLinks(n) && next == NextLinks(n)
  {
    previous, next := LinkSelectorsAsWritten(n);
    if n > 0 {
      previous := previous[n - 1 := n - 2];
    }
  }

  /** `previous` points backwards and `next` forwards (or nowhere), so both walks end. */
  predicate Ordered(previous: seq<int>, next: seq<int>)
  {
    && |previous| == |next|
    && (forall k :: 0 <= k < |previous| ==> -1 <= previous[k] < k)
    && (forall k :: 0 <= k < |next| ==> next[k] == NoSelector || k < next[k] < |next|)
  }

  /** Selectors visited by following `previous` from `k` (inclusive) until a missing link. */
  function Backward(previous: seq<int>, next: seq<int>, k: int): set<nat>
    requires Ordered(previous, next) && -1 <= k < |previous|
    decreases k + 1
  {
    if k < 0 then {} else {k as nat} + Backward(previous, next, previous[k])
  }

  /** Selectors visited by following `next` from `k` (inclusive) until a missing link. */
  function Forward(previous: seq<int>, next: seq<int>, k: int): set<nat>
    requires Ordered(previous, next) && -1 <= k < |next|
    decreases if k < 0 then 0 else |next| - k + 1
  {
    if k < 0 then {} else {k as nat} + Forward(previous, next, next[k])
  }

  /** The selectors `updateFrontend(start)` refreshes: the start, then both walks away from it. */
  function Refreshed(previous: seq<int>, next: seq<int>, start: nat): set<nat>
    requires Ordered(previous, next) && start < |previous|
  {
    {start} + Backward(previous, next, previous[start]) + Forward(previous, next, next[start])
  }

  lemma AsWrittenOrdered(n: nat)
    ensures Ordered(AsWrittenPrevious(n), NextLinks(n)) && Ordered(PreviousLinks(n), NextLinks(n))
  {
  }

  /** With at least two selectors, a change at the last one refreshes no other selector. */
  lemma AsWrittenLastRefreshesAlone(n: nat)
    requires n >= 2
    ensures Ordered(AsWrittenPrevious(n), NextLinks(n))
    ensures Refreshed(AsWrittenPrevious(n), NextLinks(n), n - 1) == {n - 1}
  {
    AsWrittenOrdered(n);
    assert AsWrittenPrevious(n)[n - 1] == NoSelector;
    assert NextLinks(n)[n - 1] == NoSelector;
  }

  /** Walking back from `j` over links that point one step back reaches every selector up to `j`. */
  lemma {:induction false} BackwardCovers(previous: seq<int>, next: seq<int>, j: int)
    requires Ordered(previous, next) && -1 <= j < |previous|
    requires forall k :: 0 <= k <= j ==> previous[k] == k - 1
    ensures forall k: nat :: k in Backward(previous, next, j) <==> k <= j
    decreases j + 1
  {
    if j >= 0 {
      BackwardCovers(previous, next, j - 1);
    }
  }

  /** Walking forward from `j` over `NextLinks` reaches every selector from `j` to the last. */
  lemma {:induction false} ForwardCovers(previous: seq<int>, next: seq<int>, j: int)
    requires Ordered(previous, next) && next == NextLinks(|next|) && -1 <= j < |next|
    ensures forall k: nat :: k in Forward(previous, next, j) <==> 0 <= j <= k < |next|
    decreases if j < 0 then 0 else |next| - j + 1
  {
    if j >= 0 {
      ForwardCovers(previous, next, next[j]);
    }
  }

  /** In the intended chain `updateFrontend` refreshes every selector, wherever it starts. */
  lemma ChainRefreshesAll(n: nat, start: nat)
    requires start < n
    ensures Ordered(PreviousLinks(n), NextLinks(n))
    ensures forall k: nat :: k in Refreshed(PreviousLinks(n), NextLinks(n), start) <==> k < n
  {
    AsWrittenOrdered(n);
    var previous, next := PreviousLinks(n), NextLinks(n);
    BackwardCovers(previous, next, start - 1);
    ForwardCovers(previous, next, next[start]);
  }

  /** As written, every start but the last still refreshes all selectors. */
  lemma AsWrittenRefreshesFromOthers(n: nat, start: nat)
    requires start < n - 1
    ensures Ordered(AsWrittenPrevious(n), NextLinks(n))
    ensures forall k: nat :: k in Refreshed(AsWrittenPrevious(n), NextLinks(n), start) <==> k < n
  {
    AsWrittenOrdered(n);
    var previous, next := AsWrittenPrevious(n), NextLinks(n);
    BackwardCovers(previous, next, start - 1);
    ForwardCovers(previous, next, next[start]);
  }
}
