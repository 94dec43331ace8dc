/** Array operations shared by the generator and the designer: numeric
    sort (`sort((a, b) => a - b)`), element removal (`filter`), swapping,
    and the sums, minima and membership counts the balance checks use. */
module Seqs {

  predicate Sorted(s: seq<int>) {
    forall i, j :: 0 <= i < j < |s| ==> s[i] <= s[j]
  }

  predicate StrictlySorted(s: seq<int>) {
    forall i, j :: 0 <= i < j < |s| ==> s[i] < s[j]
  }

  predicate Distinct<T(==)>(s: seq<T>) {
    forall i, j :: 0 <= i < j < |s| ==> s[i] != s[j]
  }

  /** The head of a sorted list is at most every later element. */
  lemma HeadBelow(xs: seq<int>)
    requires Sorted(xs) && |xs| > 0
    ensures Sorted(xs[1..])
    ensures forall y :: y in xs[1..] ==> xs[0] <= y
  {
    forall y | y in xs[1..] ensures xs[0] <= y {
      var k :| 0 <= k < |xs| - 1 && xs[1..][k] == y;
      assert xs[k + 1] == y;
    }
  }

  /** The head of a strictly sorted list is below every later element. */
  lemma HeadStrictlyBelow(xs: seq<int>)
    requires StrictlySorted(xs) && |xs| > 0
    ensures StrictlySorted(xs[1..])
    ensures forall y :: y in xs[1..] ==> xs[0] < y
  {
    forall y | y in xs[1..] ensures xs[0] < y {
      var k :| 0 <= k < |xs| - 1 && xs[1..][k] == y;
      assert xs[k + 1] == y;
    }
  }

  /** A sorted list stays sorted under a head no larger than its elements. */
  lemma SortedCons(h: int, t: seq<int>)
    requires Sorted(t)
    requires forall y :: y in t ==> h <= y
    ensures Sorted([h] + t)
  {
    forall i, j | 0 <= i < j < |t| + 1 ensures ([h] + t)[i] <= ([h] + t)[j] {
      assert t[j - 1] in t;
    }
  }

  /** A strictly sorted list stays so under a head below its elements. */
  lemma StrictCons(h: int, t: seq<int>)
    requires StrictlySorted(t)
    requires forall y :: y in t ==> h < y
    ensures StrictlySorted([h] + t)
  {
    forall i, j | 0 <= i < j < |t| + 1 ensures ([h] + t)[i] < ([h] + t)[j] {
      assert t[j - 1] in t;
    }
  }

  /** Places `d` into a sorted list: the step one numeric `sort` performs
      on a sorted list with `d` pushed at its end. Order is kept
      (`InsertKeepsSorted`, `InsertKeepsStrict`). */
  function Insert(xs: seq<int>, d: int): (r: seq<int>)
    ensures |r| == |xs| + 1
    ensures multiset(r) == multiset(xs) + multiset{d}
    ensures forall x :: x in r <==> x in xs || x == d
  {
    if |xs| == 0 then [d]
    else if d <= xs[0] then [d] + xs
    else
      assert xs == [xs[0]] + xs[1..];
      [xs[0]] + Insert(xs[1..], d)
  }

  lemma {:induction false} InsertKeepsSorted(xs: seq<int>, d: int)
    requires Sorted(xs)
    ensures Sorted(Insert(xs, d))
    decreases |xs|
  {
    if |xs| > 0 {
      if d <= xs[0] {
        SortedCons(d, xs);
      } else {
        HeadBelow(xs);
        InsertKeepsSorted(xs[1..], d);
        SortedCons(xs[0], Insert(xs[1..], d));
      }
    }
  }

  lemma {:induction false} InsertKeepsStrict(xs: seq<int>, d: int)
    requires StrictlySorted(xs) && d !in xs
    ensures StrictlySorted(Insert(xs, d))
    decreases |xs|
  {
    if |xs| > 0 {
      if d <= xs[0] {
        assert d != xs[0];
        StrictCons(d, xs);
      } else {
        HeadStrictlyBelow(xs);
        assert d !in xs[1..];
        InsertKeepsStrict(xs[1..], d);
        StrictCons(xs[0], Insert(xs[1..], d));
      }
    }
  }

  /** `xs.sort((a, b) => a - b)`, as an insertion sort. */
  function Sort(xs: seq<int>): (r: seq<int>)
    ensures |r| == |xs|
    ensures multiset(r) == multiset(xs)
    ensures forall x :: x in r <==> x in xs
    ensures Sorted(r)
  {
    if |xs| == 0 then []
    else
      var front := xs[..|xs| - 1];
      assert xs == front + [xs[|xs| - 1]];
      InsertKeepsSorted(Sort(front), xs[|xs| - 1]);
      Insert(Sort(front), xs[|xs| - 1])
  }

  /** Sorting a list that already holds `xs` with `d` pushed on its end is
      inserting `d` into the sorted `xs`. */
  lemma SortPushed(xs: seq<int>, d: int)
    requires Sorted(xs)
    ensures Sort(xs + [d]) == Insert(xs, d)
  {
    assert (xs + [d])[..|xs|] == xs;
    SortOfSorted(xs);
  }

  /** Sorting leaves a sorted list as it is. */
  lemma {:induction false} SortOfSorted(xs: seq<int>)
    requires Sorted(xs)
    ensures Sort(xs) == xs
    decreases |xs|
  {
    if |xs| > 0 {
      var front := xs[..|xs| - 1];
      var last := xs[|xs| - 1];
      assert Sorted(front);
      SortOfSorted(front);
      assert forall i :: 0 <= i < |front| ==> front[i] <= last;
      InsertGreatest(front, last);
      FrontAndLast(xs);
    }
  }

  lemma {:induction false} InsertGreatest(xs: seq<int>, d: int)
    requires Sorted(xs)
    requires forall i :: 0 <= i < |xs| ==> xs[i] <= d
    ensures Insert(xs, d) == xs + [d]
    decreases |xs|
  {
    if |xs| > 0 {
      if d <= xs[0] {
        assert xs == [xs[0]] + xs[1..];
        InsertEqualRun(xs, d);
      } else {
        InsertGreatest(xs[1..], d);
        assert xs == [xs[0]] + xs[1..];
      }
    }
  }

  lemma {:induction false} InsertEqualRun(xs: seq<int>, d: int)
    requires Sorted(xs) && |xs| > 0 && d <= xs[0]
    requires forall i :: 0 <= i < |xs| ==> xs[i] <= d
    ensures [d] + xs == xs + [d]
    decreases |xs|
  {
    assert forall i :: 0 <= i < |xs| ==> xs[i] == d;
    assert forall i :: 0 <= i < |xs| + 1 ==> ([d] + xs)[i] == d && (xs + [d])[i] == d;
  }

  /** `arr.filter(v => v != x)`. Order is kept (`RemoveKeepsSorted`,
      `RemoveKeepsStrict`). */
  function Remove(xs: seq<int>, x: int): (r: seq<int>)
    ensures x !in r
    ensures forall y :: y != x ==> (y in r <==> y in xs)
    ensures forall y :: y != x ==> multiset(r)[y] == multiset(xs)[y]
    ensures |r| <= |xs|
    ensures x !in xs ==> r == xs
  {
    if |xs| == 0 then []
    else
      assert xs == [xs[0]] + xs[1..];
      if xs[0] == x then Remove(xs[1..], x)
      else [xs[0]] + Remove(xs[1..], x)
  }

  lemma {:induction false} RemoveKeepsSorted(xs: seq<int>, x: int)
    requires Sorted(xs)
    ensures Sorted(Remove(xs, x))
    decreases |xs|
  {
    if |xs| > 0 {
      HeadBelow(xs);
      RemoveKeepsSorted(xs[1..], x);
      if xs[0] != x {
        SortedCons(xs[0], Remove(xs[1..], x));
      }
    }
  }

  /** A sorted list without repeats keeps both properties when an element
      is removed. */
  lemma {:induction false} RemoveKeepsStrict(xs: seq<int>, x: int)
    requires StrictlySorted(xs)
    ensures StrictlySorted(Remove(xs, x))
    decreases |xs|
  {
    if |xs| > 0 {
      var rest := Remove(xs[1..], x);
      RemoveKeepsStrict(xs[1..], x);
      if xs[0] != x {
        HeadStrictlyBelow(xs);
        StrictCons(xs[0], rest);
      }
    }
  }

  /** A list without repeats holds each element once. */
  lemma {:induction false} StrictNoRepeats(xs: seq<int>, y: int)
    requires StrictlySorted(xs)
    ensures multiset(xs)[y] == if y in xs then 1 else 0
    decreases |xs|
  {
    if |xs| > 0 {
      assert xs == [xs[0]] + xs[1..];
      StrictNoRepeats(xs[1..], y);
      assert xs[0] !in xs[1..];
    }
  }

  /** A copy of `s` with the elements at `i` and `j` exchanged. */
  function Swap<T>(s: seq<T>, i: int, j: int): (r: seq<T>)
    requires 0 <= i < |s| && 0 <= j < |s|
    ensures |r| == |s|
    ensures r[i] == s[j] && r[j] == s[i]
    ensures forall k :: 0 <= k < |s| && k != i && k != j ==> r[k] == s[k]
  {
    s[i := s[j]][j := s[i]]
  }

  /** Swapping keeps the same elements with the same multiplicities. */
  lemma SwapPermutes<T>(s: seq<T>, i: int, j: int)
    requires 0 <= i < |s| && 0 <= j < |s|
    ensures multiset(Swap(s, i, j)) == multiset(s)
  {
    var t := s[i := s[j]];
    assert multiset(t) == multiset(s) - multiset{s[i]} + multiset{s[j]};
  }

  /** Swapping twice restores the sequence. */
  lemma SwapInvolutive<T>(s: seq<T>, i: int, j: int)
    requires 0 <= i < |s| && 0 <= j < |s|
    ensures Swap(Swap(s, i, j), i, j) == s
  {
    var t := Swap(Swap(s, i, j), i, j);
    assert forall k :: 0 <= k < |s| ==> t[k] == s[k];
  }

  function Sum(s: seq<int>): int {
    if |s| == 0 then 0 else Sum(s[..|s| - 1]) + s[|s| - 1]
  }

  /** Adding one to one entry adds one to the sum. */
  lemma {:induction false} SumIncrement(s: seq<int>, d: int)
    requires 0 <= d < |s|
    ensures Sum(s[d := s[d] + 1]) == Sum(s) + 1
    decreases |s|
  {
    var t := s[d := s[d] + 1];
    if d == |s| - 1 {
      assert t[..|t| - 1] == s[..|s| - 1];
    } else {
      assert t[..|t| - 1] == s[..|s| - 1][d := s[d] + 1];
      SumIncrement(s[..|s| - 1], d);
    }
  }

  /** A sum of entries that all lie in `[lo, hi]` lies in `[|s|*lo, |s|*hi]`. */
  lemma {:induction false} SumBounds(s: seq<int>, lo: int, hi: int)
    requires forall i :: 0 <= i < |s| ==> lo <= s[i] <= hi
    ensures |s| * lo <= Sum(s) <= |s| * hi
    decreases |s|
  {
    if |s| > 0 {
      SumBounds(s[..|s| - 1], lo, hi);
      assert |s| * lo == (|s| - 1) * lo + lo;
      assert |s| * hi == (|s| - 1) * hi + hi;
    }
  }

  /** `Math.min(...s)` of a non-empty list. */
  function MinOf(s: seq<int>): (m: int)
    requires |s| > 0
    ensures m in s
    ensures forall i :: 0 <= i < |s| ==> m <= s[i]
  {
    if |s| == 1 then s[0]
    else
      var m := MinOf(s[1..]);
      assert forall i :: 1 <= i < |s| ==> s[i] == s[1..][i - 1];
      if s[0] <= m then s[0] else m
  }

  /** `Math.max(...s)` of a non-empty list. */
  function MaxOf(s: seq<int>): (m: int)
    requires |s| > 0
    ensures m in s
    ensures forall i :: 0 <= i < |s| ==> s[i] <= m
  {
    if |s| == 1 then s[0]
    else
      var m := MaxOf(s[1..]);
      assert forall i :: 1 <= i < |s| ==> s[i] == s[1..][i - 1];
      if s[0] >= m then s[0] else m
  }

  /** How many of the lists hold `d`. */
  function CountHolding(lists: seq<seq<int>>, d: int): (n: nat)
    ensures n <= |lists|
  {
    if |lists| == 0 then 0
    else CountHolding(lists[..|lists| - 1], d) + (if d in lists[|lists| - 1] then 1 else 0)
  }

  /** Replacing list `w` by one that gains `d` (and keeps every other
      element) raises the count of `d` by one when `w` lacked it, and leaves
      every other count alone. */
  lemma {:induction false} CountAfterAdding(lists: seq<seq<int>>, w: int, xs: seq<int>, d: int)
    requires 0 <= w < |lists|
    requires d !in lists[w] && d in xs
    requires forall y :: y != d ==> (y in xs <==> y in lists[w])
    ensures CountHolding(lists[w := xs], d) == CountHolding(lists, d) + 1
    ensures forall y :: y != d ==> CountHolding(lists[w := xs], y) == CountHolding(lists, y)
    decreases |lists|
  {
    var updated := lists[w := xs];
    if w == |lists| - 1 {
      assert updated[..|updated| - 1] == lists[..|lists| - 1];
    } else {
      assert updated[..|updated| - 1] == lists[..|lists| - 1][w := xs];
      CountAfterAdding(lists[..|lists| - 1], w, xs, d);
    }
  }

  /** The total number of elements across the lists. */
  function TotalLength(lists: seq<seq<int>>): nat {
    if |lists| == 0 then 0 else TotalLength(lists[..|lists| - 1]) + |lists[|lists| - 1]|
  }

  lemma {:induction false} TotalAfterAdding(lists: seq<seq<int>>, w: int, xs: seq<int>)
    requires 0 <= w < |lists| && |xs| == |lists[w]| + 1
    ensures TotalLength(lists[w := xs]) == TotalLength(lists) + 1
    decreases |lists|
  {
    var updated := lists[w := xs];
    if w == |lists| - 1 {
      assert updated[..|updated| - 1] == lists[..|lists| - 1];
    } else {
      assert updated[..|updated| - 1] == lists[..|lists| - 1][w := xs];
      TotalAfterAdding(lists[..|lists| - 1], w, xs);
    }
  }

  /** Lists of at most `k` elements hold at most `k` per list in all, and
      exactly that many only when each list is full. */
  lemma {:induction false} TotalBound(lists: seq<seq<int>>, k: nat)
    requires forall i :: 0 <= i < |lists| ==> |lists[i]| <= k
    ensures TotalLength(lists) <= |lists| * k
    ensures TotalLength(lists) == |lists| * k <==> forall i :: 0 <= i < |lists| ==> |lists[i]| == k
    decreases |lists|
  {
    if |lists| > 0 {
      var front := lists[..|lists| - 1];
      TotalBound(front, k);
      assert |lists| * k == |front| * k + k;
      assert forall i :: 0 <= i < |front| ==> front[i] == lists[i];
    }
  }

  /** A positive count names a list that holds the element. */
  lemma {:induction false} CountHoldingWitness(lists: seq<seq<int>>, d: int)
    requires CountHolding(lists, d) > 0
    ensures exists k :: 0 <= k < |lists| && d in lists[k]
    decreases |lists|
  {
    if d !in lists[|lists| - 1] {
      CountHoldingWitness(lists[..|lists| - 1], d);
      var k :| 0 <= k < |lists| - 1 && d in lists[..|lists| - 1][k];
      assert d in lists[k];
    }
  }

  /** Empty lists hold nothing. */
  lemma {:induction false} CountHoldingOfEmpty(lists: seq<seq<int>>, d: int)
    requires forall k :: 0 <= k < |lists| ==> lists[k] == []
    ensures CountHolding(lists, d) == 0
    ensures TotalLength(lists) == 0
    decreases |lists|
  {
    if |lists| > 0 {
      CountHoldingOfEmpty(lists[..|lists| - 1], d);
    }
  }

  lemma {:induction false} SumOfZeros(s: seq<int>)
    requires forall i :: 0 <= i < |s| ==> s[i] == 0
    ensures Sum(s) == 0
    decreases |s|
  {
    if |s| > 0 {
      SumOfZeros(s[..|s| - 1]);
    }
  }

  /** A non-empty sequence is its front followed by its last element. */
  lemma FrontAndLast<T>(s: seq<T>)
    requires |s| > 0
    ensures s[..|s| - 1] + [s[|s| - 1]] == s
  {
  }
}
