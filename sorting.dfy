/** The coordinate sort of the reservation routine: `swap` and `sortReserves`, a bubble
    sort that orders one array of coordinates and carries the other array along, and
    the facts that make two such passes a canonical (column, row) order. */
module Sorting {

  /** A coordinate pair as the sort sees it: (key from the compared array, the other value). */
  type Pair = (nat, nat)

  /** The pairs formed by matching positions of two equally long arrays. */
  function Zip(a: seq<nat>, b: seq<nat>): seq<Pair>
    requires |a| == |b|
  {
    seq(|a|, i requires 0 <= i < |a| => (a[i], b[i]))
  }

  /** `s` with the neighbours at positions j and j + 1 exchanged. */
  function Swapped<T>(s: seq<T>, j: nat): seq<T>
    requires j + 1 < |s|
  {
    s[j := s[j + 1]][j + 1 := s[j]]
  }

  predicate Sorted(s: seq<nat>) {
    forall i, j :: 0 <= i < j < |s| ==> s[i] <= s[j]
  }

  predicate SortedByFirst(s: seq<Pair>) {
    forall i, j :: 0 <= i < j < |s| ==> s[i].0 <= s[j].0
  }

  predicate SortedBySecond(s: seq<Pair>) {
    forall i, j :: 0 <= i < j < |s| ==> s[i].1 <= s[j].1
  }

  /** Lexicographic order on pairs: by the first component, then by the second. */
  predicate LexLe(p: Pair, q: Pair) {
    p.0 < q.0 || (p.0 == q.0 && p.1 <= q.1)
  }

  predicate LexSorted(s: seq<Pair>) {
    forall i, j :: 0 <= i < j < |s| ==> LexLe(s[i], s[j])
  }

  /** The pairs of `s` whose key is `k`, in their order in `s`. A sort is stable exactly
      when it leaves this subsequence unchanged for every key. */
  function Filter(s: seq<Pair>, k: nat): seq<Pair> {
    if s == [] then []
    else (if s[0].0 == k then [s[0]] else []) + Filter(s[1..], k)
  }

  // ---------------------------------------------------------------------------
  // The source's swap and sortReserves, in place.
  // ---------------------------------------------------------------------------

  /** Exchanges two cells of an array (the source passes both cells by address). */
  method Swap(a: array<nat>, i: nat, j: nat)
    requires i < a.Length && j < a.Length
    modifies a
    ensures a[..] == old(a[..])[i := old(a[j])][j := old(a[i])]
  {
    var temp := a[i];
    a[i] := a[j];
    a[j] := temp;
  }

  /** Bubble sort of the first n cells of `cmp`, applying every exchange to `other` as well.
      The result is n - 1 rounds of `PassFrom`. The keys end up non-decreasing; the pairs
      (cmp[k], other[k]) are a permutation of the original pairs, read in either orientation,
      and pairs with equal keys keep their relative order, because only strictly
      out-of-order neighbours are exchanged (`SamePairs`); cells from n on are untouched.
      The source computes n - 1 on an unsigned size, so n must be at least 1. */
  method SortReserves(cmp: array<nat>, other: array<nat>, n: nat)
    requires 1 <= n <= cmp.Length && n <= other.Length && cmp != other
    modifies cmp, other
    ensures (cmp[..], other[..]) == Rounds(old(cmp[..]), old(other[..]), n, n - 1)
    ensures Sorted(cmp[..n])
    ensures SamePairs(cmp[..n], other[..n], Zip(old(cmp[..n]), old(other[..n])), Zip(old(other[..n]), old(cmp[..n])))
    ensures cmp[n..] == old(cmp[n..]) && other[n..] == old(other[n..])
  {
    ghost var c0, o0 := cmp[..], other[..];
    var i := 0;
    while i < n - 1
      invariant 0 <= i <= n - 1
      invariant (cmp[..], other[..]) == Rounds(c0, o0, n, i)
    {
      BubblePass(cmp, other, n - i - 1);
      i := i + 1;
    }
    RoundsSort(c0, o0, n);
    RoundsKeepPairs(c0, o0, n, n - 1);
    assert c0[..n] == old(cmp[..n]) && o0[..n] == old(other[..n]);
  }

  /** The inner loop of `SortReserves`: one left-to-right pass over cmp[0..m] that exchanges
      every strictly out-of-order neighbour pair, and the same cells of `other`; on values
      this is `PassFrom`. */
  method BubblePass(cmp: array<nat>, other: array<nat>, m: nat)
    requires m < cmp.Length && m < other.Length && cmp != other
    modifies cmp, other
    ensures (cmp[..], other[..]) == PassFrom(old(cmp[..]), old(other[..]), 0, m)
  {
    ghost var c0, o0 := cmp[..], other[..];
    var j := 0;
    while j < m
      invariant 0 <= j <= m
      invariant PassFrom(cmp[..], other[..], j, m) == PassFrom(c0, o0, 0, m)
    {
      if cmp[j] > cmp[j + 1] {
        Swap(cmp, j, j + 1);
        Swap(other, j, j + 1);
      }
      j := j + 1;
    }
  }

  // ---------------------------------------------------------------------------
  // The sort on values.
  // ---------------------------------------------------------------------------

  /** Positions j .. m - 1 of a pass in turn: each neighbour pair with a strictly larger key
      on the left is exchanged, in both sequences. */
  ghost function PassFrom(c: seq<nat>, o: seq<nat>, j: nat, m: nat): (seq<nat>, seq<nat>)
    requires j <= m < |c| && m < |o|
    decreases m - j
  {
    if j == m then (c, o)
    else if c[j] > c[j + 1] then PassFrom(Swapped(c, j), Swapped(o, j), j + 1, m)
    else PassFrom(c, o, j + 1, m)
  }

  /** The first i rounds of the sort of n cells: round r is the pass up to n - r - 1. */
  ghost function Rounds(c: seq<nat>, o: seq<nat>, n: nat, i: nat): (r: (seq<nat>, seq<nat>))
    requires 1 <= n <= |c| && n <= |o| && i <= n - 1
    ensures |r.0| == |c| && |r.1| == |o|
  {
    if i == 0 then (c, o)
    else
      var r := Rounds(c, o, n, i - 1);
      PassLength(r.0, r.1, 0, n - i);
      PassFrom(r.0, r.1, 0, n - i)
  }

  lemma {:induction false} PassLength(c: seq<nat>, o: seq<nat>, j: nat, m: nat)
    requires j <= m < |c| && m < |o|
    ensures |PassFrom(c, o, j, m).0| == |c| && |PassFrom(c, o, j, m).1| == |o|
    decreases m - j
  {
    if j < m {
      if c[j] > c[j + 1] {
        PassLength(Swapped(c, j), Swapped(o, j), j + 1, m);
      } else {
        PassLength(c, o, j + 1, m);
      }
    }
  }

  /** A pass started at j, when c[j] is the largest key so far, leaves the largest key of
      c[0..m] at m, keeps every cell after m, and keeps every key up to m at most every key
      between m and n when that held before. */
  lemma {:induction false} PassMovesMax(c: seq<nat>, o: seq<nat>, j: nat, m: nat, n: nat)
    requires j <= m < n <= |c| && n <= |o|
    requires forall a :: 0 <= a <= j ==> c[a] <= c[j]
    ensures var r := PassFrom(c, o, j, m);
      |r.0| == |c| && |r.1| == |o| &&
      (forall a :: 0 <= a <= m ==> r.0[a] <= r.0[m]) &&
      r.0[m + 1..] == c[m + 1..] && r.1[m + 1..] == o[m + 1..] &&
      ((forall a, b :: 0 <= a <= m < b < n ==> c[a] <= c[b]) ==>
         forall a, b :: 0 <= a <= m < b < n ==> r.0[a] <= r.0[b])
    decreases m - j
  {
    PassLength(c, o, j, m);
    if j < m {
      if c[j] > c[j + 1] {
        var c', o' := Swapped(c, j), Swapped(o, j);
        assert forall a :: 0 <= a <= j + 1 ==> c'[a] <= c'[j + 1];
        assert (forall a, b :: 0 <= a <= m < b < n ==> c[a] <= c[b]) ==>
                 forall a, b :: 0 <= a <= m < b < n ==> c'[a] <= c'[b];
        PassMovesMax(c', o', j + 1, m, n);
        assert c'[m + 1..] == c[m + 1..] && o'[m + 1..] == o[m + 1..];
      } else {
        PassMovesMax(c, o, j + 1, m, n);
      }
    }
  }

  /** After i rounds the last i of the first n keys are in order, and no key before them
      exceeds any of them; cells from n on are untouched. */
  lemma {:induction false} RoundsOrder(c: seq<nat>, o: seq<nat>, n: nat, i: nat)
    requires 1 <= n <= |c| && n <= |o| && i <= n - 1
    ensures var r := Rounds(c, o, n, i);
      (forall a, b :: n - i <= a < b < n ==> r.0[a] <= r.0[b]) &&
      (forall a, b :: 0 <= a < n - i <= b < n ==> r.0[a] <= r.0[b]) &&
      r.0[n..] == c[n..] && r.1[n..] == o[n..]
  {
    if i > 0 {
      RoundsOrder(c, o, n, i - 1);
      var p := Rounds(c, o, n, i - 1);
      var m := n - i;
      PassMovesMax(p.0, p.1, 0, m, n);
      var r := Rounds(c, o, n, i);
      assert r == PassFrom(p.0, p.1, 0, m);
      assert forall a :: m + 1 <= a < n ==> r.0[a] == p.0[a] by {
        forall a | m + 1 <= a < n ensures r.0[a] == p.0[a] {
          assert r.0[m + 1..][a - (m + 1)] == p.0[m + 1..][a - (m + 1)];
        }
      }
      RoundStepOrder(p.0, r.0, m, n);
      assert r.0[n..] == p.0[n..] && r.1[n..] == p.1[n..] by {
        assert r.0[n..] == r.0[m + 1..][n - (m + 1)..];
        assert p.0[n..] == p.0[m + 1..][n - (m + 1)..];
        assert r.1[n..] == r.1[m + 1..][n - (m + 1)..];
        assert p.1[n..] == p.1[m + 1..][n - (m + 1)..];
      }
    }
  }

  /** The order a round adds: the key it brings to m joins the sorted suffix after m. */
  lemma RoundStepOrder(p: seq<nat>, r: seq<nat>, m: nat, n: nat)
    requires m < n <= |p| && |r| == |p|
    requires forall a, b :: m + 1 <= a < b < n ==> p[a] <= p[b]
    requires forall a :: m + 1 <= a < n ==> r[a] == p[a]
    requires forall a :: 0 <= a <= m ==> r[a] <= r[m]
    requires forall a, b :: 0 <= a <= m < b < n ==> r[a] <= r[b]
    ensures forall a, b :: m <= a < b < n ==> r[a] <= r[b]
    ensures forall a, b :: 0 <= a < m <= b < n ==> r[a] <= r[b]
  {
    forall a, b | m <= a < b < n
      ensures r[a] <= r[b]
    {
      if a > m {
        assert r[a] == p[a] && r[b] == p[b];
      }
    }
  }

  /** All n - 1 rounds leave the first n keys non-decreasing. */
  lemma RoundsSort(c: seq<nat>, o: seq<nat>, n: nat)
    requires 1 <= n <= |c| && n <= |o|
    ensures Sorted(Rounds(c, o, n, n - 1).0[..n])
    ensures Rounds(c, o, n, n - 1).0[n..] == c[n..] && Rounds(c, o, n, n - 1).1[n..] == o[n..]
  {
    RoundsOrder(c, o, n, n - 1);
  }

  /** Every round keeps the pairs of the first n cells in both orientations and their
      per-key order. */
  lemma {:induction false} RoundsKeepPairs(c: seq<nat>, o: seq<nat>, n: nat, i: nat)
    requires 1 <= n <= |c| && n <= |o| && i <= n - 1
    ensures var r := Rounds(c, o, n, i);
      SamePairs(r.0[..n], r.1[..n], Zip(c[..n], o[..n]), Zip(o[..n], c[..n]))
  {
    if i == 0 {
      SamePairsRefl(c[..n], o[..n]);
    } else {
      RoundsKeepPairs(c, o, n, i - 1);
      var r := Rounds(c, o, n, i - 1);
      PassKeepsPairs(r.0, r.1, 0, n - i, n);
      var r2 := Rounds(c, o, n, i);
      SamePairsTrans(r2.0[..n], r2.1[..n], r.0[..n], r.1[..n], c[..n], o[..n]);
    }
  }

  /** A pass only exchanges pairs with different keys, so it keeps the pair multisets and the
      per-key subsequences of the first n pairs, and a pass preserves the lengths. */
  lemma {:induction false} PassKeepsPairs(c: seq<nat>, o: seq<nat>, j: nat, m: nat, n: nat)
    requires j <= m < n <= |c| && n <= |o|
    ensures var r := PassFrom(c, o, j, m);
      |r.0| == |c| && |r.1| == |o| &&
      SamePairs(r.0[..n], r.1[..n], Zip(c[..n], o[..n]), Zip(o[..n], c[..n]))
    decreases m - j
  {
    if j == m {
      SamePairsRefl(c[..n], o[..n]);
    } else if c[j] > c[j + 1] {
      PassKeepsPairs(Swapped(c, j), Swapped(o, j), j + 1, m, n);
      SwappedPrefix(c, j, n);
      SwappedPrefix(o, j, n);
      SwapStep(c[..n], o[..n], j);
      SamePairsTrans(PassFrom(c, o, j, m).0[..n], PassFrom(c, o, j, m).1[..n],
                     Swapped(c[..n], j), Swapped(o[..n], j), c[..n], o[..n]);
    } else {
      PassKeepsPairs(c, o, j + 1, m, n);
    }
  }

  // ---------------------------------------------------------------------------
  // What one exchange preserves.
  // ---------------------------------------------------------------------------

  lemma SwappedPrefix<T>(s: seq<T>, j: nat, n: nat)
    requires j + 1 < n <= |s|
    ensures Swapped(s, j)[..n] == Swapped(s[..n], j)
  {
  }

  lemma ZipSwapped(a: seq<nat>, b: seq<nat>, j: nat)
    requires |a| == |b| && j + 1 < |a|
    ensures Zip(Swapped(a, j), Swapped(b, j)) == Swapped(Zip(a, b), j)
  {
  }

  lemma SwappedMultiset<T>(s: seq<T>, j: nat)
    requires j + 1 < |s|
    ensures multiset(Swapped(s, j)) == multiset(s)
  {
  }

  lemma {:induction false} FilterConcat(a: seq<Pair>, b: seq<Pair>, k: nat)
    ensures Filter(a + b, k) == Filter(a, k) + Filter(b, k)
  {
    if a == [] {
      assert a + b == b;
    } else {
      var h: seq<Pair> := if a[0].0 == k then [a[0]] else [];
      assert (a + b)[0] == a[0] && (a + b)[1..] == a[1..] + b;
      calc {
        Filter(a + b, k);
        h + Filter(a[1..] + b, k);
        { FilterConcat(a[1..], b, k); }
        h + (Filter(a[1..], k) + Filter(b, k));
        (h + Filter(a[1..], k)) + Filter(b, k);
      }
    }
  }

  /** Exchanging two neighbours with different keys leaves every key's subsequence alone. */
  lemma SwapKeepsFilters(s: seq<Pair>, j: nat)
    requires j + 1 < |s| && s[j].0 != s[j + 1].0
    ensures forall k :: Filter(Swapped(s, j), k) == Filter(s, k)
  {
    forall k
      ensures Filter(Swapped(s, j), k) == Filter(s, k)
    {
      SwapKeepsFilter(s, j, k);
    }
  }

  lemma SwapKeepsFilter(s: seq<Pair>, j: nat, k: nat)
    requires j + 1 < |s| && s[j].0 != s[j + 1].0
    ensures Filter(Swapped(s, j), k) == Filter(s, k)
  {
    var pre, post := s[..j], s[j + 2..];
    var ab, ba := [s[j], s[j + 1]], [s[j + 1], s[j]];
    assert s == pre + (ab + post);
    assert Swapped(s, j) == pre + (ba + post);
    FilterConcat(pre, ab + post, k);
    FilterConcat(ab, post, k);
    FilterConcat(pre, ba + post, k);
    FilterConcat(ba, post, k);
    assert Filter(ab, k) == Filter(ba, k) by {
      assert ab[1..] == [s[j + 1]] && ba[1..] == [s[j]];
      var e: seq<Pair> := [];
      assert [s[j + 1]][1..] == e && [s[j]][1..] == e;
    }
  }

  /** The pairs of (c, o) are, in both orientations, a permutation of the pairs p (and of q,
      the same pairs read the other way round), and every key's subsequence of (c, o) is that
      of p. */
  ghost predicate SamePairs(c: seq<nat>, o: seq<nat>, p: seq<Pair>, q: seq<Pair>)
    requires |c| == |o|
  {
    multiset(Zip(c, o)) == multiset(p) &&
    multiset(Zip(o, c)) == multiset(q) &&
    forall k :: Filter(Zip(c, o), k) == Filter(p, k)
  }

  lemma SamePairsRefl(c: seq<nat>, o: seq<nat>)
    requires |c| == |o|
    ensures SamePairs(c, o, Zip(c, o), Zip(o, c))
  {
  }

  lemma SamePairsTrans(c2: seq<nat>, o2: seq<nat>, c1: seq<nat>, o1: seq<nat>, c0: seq<nat>, o0: seq<nat>)
    requires |c2| == |o2| && |c1| == |o1| && |c0| == |o0|
    requires SamePairs(c2, o2, Zip(c1, o1), Zip(o1, c1))
    requires SamePairs(c1, o1, Zip(c0, o0), Zip(o0, c0))
    ensures SamePairs(c2, o2, Zip(c0, o0), Zip(o0, c0))
  {
  }

  /** One exchange of the sort keeps both pair multisets and every key's subsequence. */
  lemma SwapStep(c: seq<nat>, o: seq<nat>, j: nat)
    requires |c| == |o| && j + 1 < |c| && c[j] > c[j + 1]
    ensures SamePairs(Swapped(c, j), Swapped(o, j), Zip(c, o), Zip(o, c))
  {
    ZipSwapped(c, o, j);
    ZipSwapped(o, c, j);
    SwappedMultiset(Zip(c, o), j);
    SwappedMultiset(Zip(o, c), j);
    SwapKeepsFilters(Zip(c, o), j);
  }

  // ---------------------------------------------------------------------------
  // Two stable passes give lexicographic order, and that order is unique.
  // ---------------------------------------------------------------------------

  lemma {:induction false} FilterMembers(s: seq<Pair>, k: nat, x: Pair)
    ensures x in Filter(s, k) <==> x in s && x.0 == k
  {
    if s != [] {
      FilterMembers(s[1..], k, x);
      assert s == [s[0]] + s[1..];
    }
  }

  lemma {:induction false} FilterKeepsSortedBySecond(s: seq<Pair>, k: nat)
    requires SortedBySecond(s)
    ensures SortedBySecond(Filter(s, k))
  {
    if s != [] {
      FilterKeepsSortedBySecond(s[1..], k);
      if s[0].0 == k {
        var f := Filter(s[1..], k);
        forall x | x in f
          ensures s[0].1 <= x.1
        {
          FilterMembers(s[1..], k, x);
        }
        assert Filter(s, k) == [s[0]] + f;
      }
    }
  }

  lemma SortedBySecondTail(s: seq<Pair>)
    requires s != [] && SortedBySecond(s)
    ensures SortedBySecond(s[1..])
  {
    forall i, j | 0 <= i < j < |s| - 1
      ensures s[1..][i].1 <= s[1..][j].1
    {
      assert s[1..][i] == s[i + 1] && s[1..][j] == s[j + 1];
    }
  }

  /** A sequence ordered by its first components, in which each key's subsequence is ordered
      by the second components, is in lexicographic order. */
  lemma {:induction false} LexFromFilters(s: seq<Pair>)
    requires SortedByFirst(s)
    requires forall k :: SortedBySecond(Filter(s, k))
    ensures LexSorted(s)
  {
    if s != [] {
      var t := s[1..];
      forall k
        ensures SortedBySecond(Filter(t, k))
      {
        FilterTailSorted(s, k);
      }
      LexFromFilters(t);
      HeadLexLeast(s);
      LexCons(s);
    }
  }

  /** Dropping the head keeps each key's subsequence ordered by the second components. */
  lemma FilterTailSorted(s: seq<Pair>, k: nat)
    requires s != [] && SortedBySecond(Filter(s, k))
    ensures SortedBySecond(Filter(s[1..], k))
  {
    var t := s[1..];
    if k == s[0].0 {
      assert Filter(s, k) == [s[0]] + Filter(t, k);
      SortedBySecondTail(Filter(s, k));
      assert Filter(s, k)[1..] == Filter(t, k);
    } else {
      assert Filter(s, k) == Filter(t, k);
    }
  }

  /** The head of such a sequence comes lexicographically first. */
  lemma HeadLexLeast(s: seq<Pair>)
    requires s != [] && SortedByFirst(s) && SortedBySecond(Filter(s, s[0].0))
    ensures forall x | x in s[1..] :: LexLe(s[0], x)
  {
    var t := s[1..];
    forall x | x in t
      ensures LexLe(s[0], x)
    {
      if x.0 == s[0].0 {
        SameKeyAfterHead(s, x);
      } else {
        var jx :| 0 <= jx < |t| && t[jx] == x;
        assert s[jx + 1] == x;
      }
    }
  }

  /** A later pair with the head's key comes after the head in that key's subsequence. */
  lemma SameKeyAfterHead(s: seq<Pair>, x: Pair)
    requires s != [] && SortedBySecond(Filter(s, s[0].0))
    requires x in s[1..] && x.0 == s[0].0
    ensures s[0].1 <= x.1
  {
    var t, k := s[1..], s[0].0;
    FilterMembers(t, k, x);
    var f, ft := Filter(s, k), Filter(t, k);
    assert f == [s[0]] + ft;
    var m :| 0 <= m < |ft| && ft[m] == x;
    assert f[0] == s[0] && f[m + 1] == x;
  }

  /** A head that comes first, followed by a lexicographically sorted tail, is sorted. */
  lemma LexCons(s: seq<Pair>)
    requires s != [] && LexSorted(s[1..])
    requires forall x | x in s[1..] :: LexLe(s[0], x)
    ensures LexSorted(s)
  {
    var t := s[1..];
    forall i, j | 0 <= i < j < |s|
      ensures LexLe(s[i], s[j])
    {
      if i > 0 {
        assert s[i] == t[i - 1] && s[j] == t[j - 1];
      } else {
        assert s[j] == t[j - 1];
      }
    }
  }

  /** The two passes `SortReserves(xs, ys, n); SortReserves(ys, xs, n)`: the first orders the
      rows, the second orders the columns stably, so the pairs (column, row) come out in
      lexicographic order. */
  lemma TwoPassLex(xs1: seq<nat>, ys1: seq<nat>, ys2: seq<nat>, xs2: seq<nat>)
    requires |xs1| == |ys1| == |ys2| == |xs2|
    requires Sorted(xs1)
    requires Sorted(ys2)
    requires forall k :: Filter(Zip(ys2, xs2), k) == Filter(Zip(ys1, xs1), k)
    ensures LexSorted(Zip(ys2, xs2))
  {
    var mid := Zip(ys1, xs1);
    assert SortedBySecond(mid);
    forall k
      ensures SortedBySecond(Filter(Zip(ys2, xs2), k))
    {
      FilterKeepsSortedBySecond(mid, k);
    }
    LexFromFilters(Zip(ys2, xs2));
  }

  /** Two lexicographically sorted sequences holding the same pairs are equal: the visiting
      order depends only on the multiset of requested pairs. */
  lemma {:induction false} LexSortedUnique(s: seq<Pair>, t: seq<Pair>)
    requires LexSorted(s) && LexSorted(t)
    requires multiset(s) == multiset(t)
    ensures s == t
    decreases |s|
  {
    if s == [] || t == [] {
      assert |s| == |multiset(s)| == |multiset(t)| == |t|;
    } else {
      SameHead(s, t);
      MultisetTail(s);
      MultisetTail(t);
      assert multiset(s[1..]) == multiset(t[1..]);
      LexSortedTail(s);
      LexSortedTail(t);
      LexSortedUnique(s[1..], t[1..]);
      assert s == [s[0]] + s[1..] && t == [t[0]] + t[1..];
    }
  }

  /** Two lexicographically sorted arrangements of the same pairs start with the same pair. */
  lemma SameHead(s: seq<Pair>, t: seq<Pair>)
    requires s != [] && t != [] && LexSorted(s) && LexSorted(t)
    requires multiset(s) == multiset(t)
    ensures s[0] == t[0]
  {
    assert s[0] in multiset(t) && t[0] in multiset(s);
    HeadIsLeast(s, t[0]);
    HeadIsLeast(t, s[0]);
  }

  lemma HeadIsLeast(s: seq<Pair>, x: Pair)
    requires LexSorted(s) && x in s
    ensures LexLe(s[0], x)
  {
    var i :| 0 <= i < |s| && s[i] == x;
    if i > 0 {
      assert LexLe(s[0], s[i]);
    }
  }

  lemma MultisetTail(s: seq<Pair>)
    requires s != []
    ensures multiset(s[1..]) == multiset(s) - multiset{s[0]}
  {
    assert s == [s[0]] + s[1..];
  }

  lemma LexSortedTail(s: seq<Pair>)
    requires s != [] && LexSorted(s)
    ensures LexSorted(s[1..])
  {
    forall i, j | 0 <= i < j < |s| - 1
      ensures LexLe(s[1..][i], s[1..][j])
    {
      assert s[1..][i] == s[i + 1] && s[1..][j] == s[j + 1];
    }
  }

  // ---------------------------------------------------------------------------
  // Reading the pairs the other way round.
  // ---------------------------------------------------------------------------

  /** A pair occurs in Zip(b, a) as often as its mirror image occurs in Zip(a, b). */
  lemma {:induction false} ZipFlipCount(a: seq<nat>, b: seq<nat>, p: Pair)
    requires |a| == |b|
    ensures multiset(Zip(b, a))[p] == multiset(Zip(a, b))[(p.1, p.0)]
    decreases |a|
  {
    if |a| > 0 {
      var k := |a| - 1;
      assert Zip(a, b) == Zip(a[..k], b[..k]) + [(a[k], b[k])];
      assert Zip(b, a) == Zip(b[..k], a[..k]) + [(b[k], a[k])];
      ZipFlipCount(a[..k], b[..k], p);
    }
  }

  /** Two requests that hold the same (row, column) pairs hold the same (column, row)
      pairs. */
  lemma ZipFlipMultiset(a: seq<nat>, b: seq<nat>, c: seq<nat>, d: seq<nat>)
    requires |a| == |b| && |c| == |d|
    requires multiset(Zip(a, b)) == multiset(Zip(c, d))
    ensures multiset(Zip(b, a)) == multiset(Zip(d, c))
  {
    forall p: Pair
      ensures multiset(Zip(b, a))[p] == multiset(Zip(d, c))[p]
    {
      ZipFlipCount(a, b, p);
      ZipFlipCount(c, d, p);
    }
  }

  /** The sorted outcome depends on the requested pairs alone: two pairs of arrays that
      hold the same (row, column) pairs and are both in (column, row) lexicographic
      order are equal, so the seats are visited in the same order. */
  lemma SameRequestsSameOrder(xs1: seq<nat>, ys1: seq<nat>, xs2: seq<nat>, ys2: seq<nat>)
    requires |xs1| == |ys1| && |xs2| == |ys2|
    requires multiset(Zip(xs1, ys1)) == multiset(Zip(xs2, ys2))
    requires LexSorted(Zip(ys1, xs1)) && LexSorted(Zip(ys2, xs2))
    ensures xs1 == xs2 && ys1 == ys2
  {
    ZipFlipMultiset(xs1, ys1, xs2, ys2);
    LexSortedUnique(Zip(ys1, xs1), Zip(ys2, xs2));
    assert |xs1| == |Zip(ys1, xs1)| == |Zip(ys2, xs2)| == |xs2|;
    forall i | 0 <= i < |xs1|
      ensures xs1[i] == xs2[i] && ys1[i] == ys2[i]
    {
      assert Zip(ys1, xs1)[i] == Zip(ys2, xs2)[i];
    }
  }
}
