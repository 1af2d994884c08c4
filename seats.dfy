/** The seat-by-seat logic of a reservation, on values: which requests can be granted, and
    what the grid looks like after the walk over the sorted requests has written a
    reservation id into some of them. The grid is the row-major seat array of an event, a
    request a (row, column) pair counting from 1. */
module Seats {
  import opened Helpers
  import opened Sorting

  /** Every request names a seat of the grid. */
  predicate AllInBounds(rows: nat, cols: nat, s: seq<Pair>) {
    forall t :: 0 <= t < |s| ==> InBounds(rows, cols, s[t].0, s[t].1)
  }

  /** No seat is requested twice. */
  predicate Distinct(s: seq<Pair>) {
    forall t1, t2 :: 0 <= t1 < t2 < |s| ==> s[t1] != s[t2]
  }

  /** Seat p exists and holds no reservation. */
  predicate Free(rows: nat, cols: nat, g: seq<nat>, p: Pair)
    requires |g| == rows * cols
  {
    InBounds(rows, cols, p.0, p.1) && g[SeatIndex(rows, cols, p.0, p.1)] == 0
  }

  /** What the walk over the requests s checks, one request after the other, against the
      grid g as it was before the walk: every seat exists and was free, and, unless the new
      reservation id is 0 (the counter wrapped around), no seat comes twice, because the
      second visit finds the id the first one wrote. */
  predicate WalkOk(rows: nat, cols: nat, g: seq<nat>, s: seq<Pair>, rid: nat)
    requires |g| == rows * cols
  {
    (forall t :: 0 <= t < |s| ==> Free(rows, cols, g, s[t])) &&
    (rid != 0 ==> Distinct(s))
  }

  /** Whether a reservation of the requested seats m succeeds on the grid g. The requests
      are a multiset: their order does not matter. */
  predicate Reservable(rows: nat, cols: nat, g: seq<nat>, m: multiset<Pair>, rid: nat)
    requires |g| == rows * cols
  {
    (forall p | p in m :: Free(rows, cols, g, p)) &&
    (rid != 0 ==> forall p | p in m :: m[p] == 1)
  }

  /** The grid g after writing v into the seats of the requests s. */
  function Mark(g: seq<nat>, rows: nat, cols: nat, s: seq<Pair>, v: nat): (r: seq<nat>)
    requires |g| == rows * cols && AllInBounds(rows, cols, s)
    ensures |r| == |g|
  {
    if s == [] then g
    else
      var init, last := s[..|s| - 1], s[|s| - 1];
      assert AllInBounds(rows, cols, init) by {
        forall t | 0 <= t < |init| ensures InBounds(rows, cols, init[t].0, init[t].1) {
          assert init[t] == s[t];
        }
      }
      Mark(g, rows, cols, init, v)[SeatIndex(rows, cols, last.0, last.1) := v]
  }

  /** The grid g once every seat requested in m holds v: the outcome of a successful
      reservation, independent of the order of the requests. */
  function Granted(g: seq<nat>, rows: nat, cols: nat, m: multiset<Pair>, v: nat): (r: seq<nat>)
    requires |g| == rows * cols
    ensures |r| == |g|
  {
    if cols == 0 then g
    else seq(|g|, idx requires 0 <= idx < |g| => if (idx / cols + 1, idx % cols + 1) in m then v else g[idx])
  }

  // ---------------------------------------------------------------------------
  // Lemmas.
  // ---------------------------------------------------------------------------

  /** A seat holds v after the writes exactly when it was requested; every other seat
      keeps its value. */
  lemma {:induction false} MarkValue(g: seq<nat>, rows: nat, cols: nat, s: seq<Pair>, v: nat, r: int, c: int)
    requires |g| == rows * cols && AllInBounds(rows, cols, s) && InBounds(rows, cols, r, c)
    ensures Mark(g, rows, cols, s, v)[SeatIndex(rows, cols, r, c)] ==
            if (r, c) in s then v else g[SeatIndex(rows, cols, r, c)]
  {
    if s != [] {
      var init, last := s[..|s| - 1], s[|s| - 1];
      assert s == init + [last];
      assert AllInBounds(rows, cols, init) by {
        forall t | 0 <= t < |init| ensures InBounds(rows, cols, init[t].0, init[t].1) {
          assert init[t] == s[t];
        }
      }
      MarkValue(g, rows, cols, init, v, r, c);
      SeatIndexInjective(rows, cols, r, c, last.0, last.1);
    }
  }

  /** After a successful reservation, seat (r, c) holds v exactly when it was requested;
      every other seat keeps its value. */
  lemma GrantedValue(g: seq<nat>, rows: nat, cols: nat, m: multiset<Pair>, v: nat, r: int, c: int)
    requires |g| == rows * cols && InBounds(rows, cols, r, c)
    ensures Granted(g, rows, cols, m, v)[SeatIndex(rows, cols, r, c)] ==
            if (r, c) in m then v else g[SeatIndex(rows, cols, r, c)]
  {
  }

  /** Writing v into the requested seats one request after the other gives the grid
      `Granted` describes. */
  lemma MarkGranted(g: seq<nat>, rows: nat, cols: nat, s: seq<Pair>, v: nat)
    requires |g| == rows * cols && AllInBounds(rows, cols, s)
    ensures Mark(g, rows, cols, s, v) == Granted(g, rows, cols, multiset(s), v)
  {
    var a, b := Mark(g, rows, cols, s, v), Granted(g, rows, cols, multiset(s), v);
    forall idx | 0 <= idx < |g|
      ensures a[idx] == b[idx]
    {
      SeatIndexOnto(rows, cols, idx);
      MarkValue(g, rows, cols, s, v, idx / cols + 1, idx % cols + 1);
    }
  }

  /** Writing the seats back to 0 undoes the writes, when all of them were 0 to begin with. */
  lemma MarkUndo(g: seq<nat>, rows: nat, cols: nat, s: seq<Pair>, v: nat)
    requires |g| == rows * cols && AllInBounds(rows, cols, s)
    requires forall t :: 0 <= t < |s| ==> Free(rows, cols, g, s[t])
    ensures Mark(Mark(g, rows, cols, s, v), rows, cols, s, 0) == g
  {
    var g1 := Mark(g, rows, cols, s, v);
    var g2 := Mark(g1, rows, cols, s, 0);
    forall idx | 0 <= idx < |g|
      ensures g2[idx] == g[idx]
    {
      SeatIndexOnto(rows, cols, idx);
      var r, c := idx / cols + 1, idx % cols + 1;
      MarkValue(g, rows, cols, s, v, r, c);
      MarkValue(g1, rows, cols, s, 0, r, c);
      if (r, c) in s {
        var t :| 0 <= t < |s| && s[t] == (r, c);
        assert Free(rows, cols, g, s[t]);
      }
    }
  }

  /** The checks are prefix-closed: a walk that fails at some request fails on the whole. */
  lemma WalkOkPrefix(rows: nat, cols: nat, g: seq<nat>, s: seq<Pair>, rid: nat, k: nat)
    requires |g| == rows * cols && k <= |s| && WalkOk(rows, cols, g, s, rid)
    ensures WalkOk(rows, cols, g, s[..k], rid)
  {
    forall t | 0 <= t < k ensures Free(rows, cols, g, s[..k][t]) {
      assert s[..k][t] == s[t];
    }
  }

  /** One step of the walk: after the first i requests were checked and written, request i
      (in bounds) passes the check exactly when its seat is found at 0 in the current grid. */
  lemma WalkStep(rows: nat, cols: nat, g: seq<nat>, s: seq<Pair>, i: nat, rid: nat)
    requires |g| == rows * cols && i < |s|
    requires WalkOk(rows, cols, g, s[..i], rid)
    requires InBounds(rows, cols, s[i].0, s[i].1)
    ensures AllInBounds(rows, cols, s[..i])
    ensures WalkOk(rows, cols, g, s[..i + 1], rid) <==>
            Mark(g, rows, cols, s[..i], rid)[SeatIndex(rows, cols, s[i].0, s[i].1)] == 0
  {
    var pre, x := s[..i], s[i];
    assert s[..i + 1] == pre + [x];
    MarkValue(g, rows, cols, pre, rid, x.0, x.1);
    if x in pre {
      var t :| 0 <= t < i && pre[t] == x;
      assert Free(rows, cols, g, pre[t]);
      if rid != 0 {
        assert !Distinct(s[..i + 1]) by {
          assert s[..i + 1][t] == s[..i + 1][i];
        }
      }
    } else {
      var s1 := s[..i + 1];
      forall t1, t2 | 0 <= t1 < t2 < |s1| && rid != 0
        ensures s1[t1] != s1[t2]
      {
        if t2 < i {
          assert s1[t1] == pre[t1] && s1[t2] == pre[t2];
        } else {
          assert s1[t1] == pre[t1];
        }
      }
    }
  }

  /** The seat-by-seat checks hold exactly when the requests, taken as a multiset, are
      reservable: so whether a reservation succeeds depends neither on the order the
      requests were given in nor on the order the walk visits them in. */
  lemma WalkOkIffReservable(rows: nat, cols: nat, g: seq<nat>, s: seq<Pair>, rid: nat)
    requires |g| == rows * cols
    ensures WalkOk(rows, cols, g, s, rid) <==> Reservable(rows, cols, g, multiset(s), rid)
  {
    DistinctIffSingle(s);
    assert (forall t :: 0 <= t < |s| ==> Free(rows, cols, g, s[t])) <==>
           (forall p | p in multiset(s) :: Free(rows, cols, g, p)) by {
      forall p | p in multiset(s) && (forall t :: 0 <= t < |s| ==> Free(rows, cols, g, s[t]))
        ensures Free(rows, cols, g, p)
      {
        var t :| 0 <= t < |s| && s[t] == p;
      }
    }
  }

  /** A sequence has no repeated element exactly when every element occurs once in its
      multiset. */
  lemma {:induction false} DistinctIffSingle(s: seq<Pair>)
    ensures Distinct(s) <==> (forall p | p in multiset(s) :: multiset(s)[p] == 1)
  {
    if s != [] {
      var init, x := s[..|s| - 1], s[|s| - 1];
      assert s == init + [x];
      DistinctIffSingle(init);
      var m, m0 := multiset(s), multiset(init);
      assert m == m0 + multiset{x};
      assert Distinct(s) <==> Distinct(init) && x !in init by {
        if Distinct(s) {
          forall t1, t2 | 0 <= t1 < t2 < |init| ensures init[t1] != init[t2] {
            assert init[t1] == s[t1] && init[t2] == s[t2];
          }
        }
        if Distinct(init) && x !in init {
          forall t1, t2 | 0 <= t1 < t2 < |s| ensures s[t1] != s[t2] {
            if t2 < |init| {
              assert init[t1] == s[t1] && init[t2] == s[t2];
            } else {
              assert s[t1] == init[t1];
            }
          }
        }
      }
      if (forall p | p in m :: m[p] == 1) {
        forall p | p in m0 ensures m0[p] == 1 {
          assert m[p] == m0[p] + (if p == x then 1 else 0);
        }
        assert m[x] == m0[x] + 1;
      }
      if Distinct(init) && x !in init {
        forall p | p in m ensures m[p] == 1 {
          assert m[p] == m0[p] + (if p == x then 1 else 0);
        }
      }
    }
  }
}
