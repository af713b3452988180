/** Windowed one-to-one pairings of equal characters, and the greedy pass that
    builds one (the first loop of `jaroSimilarity`).

    The pass is not symmetric in its two strings, so nothing about its result is
    obviously symmetric. The way in is `Settled`: no compatible pair of positions
    is passed over by both of its ends for something later. Exactly one pairing is
    settled, the greedy pass builds it, and the definition does not change when the
    strings are exchanged. */
module Pairing {

  /** A set of (position in a, position in b). */
  type Pairs = set<(nat, nat)>

  /** Positions that may be paired: equal characters, at most `d` apart. */
  predicate Compatible(a: string, b: string, d: nat, i: nat, j: nat) {
    i < |a| && j < |b| && a[i] == b[j] && i <= j + d && j <= i + d
  }

  /** One-to-one, and only compatible positions. */
  ghost predicate IsPairing(a: string, b: string, d: nat, m: Pairs) {
    && (forall i: nat, j: nat | (i, j) in m :: Compatible(a, b, d, i, j))
    && (forall i: nat, j: nat, j': nat | (i, j) in m && (i, j') in m :: j == j')
    && (forall i: nat, i': nat, j: nat | (i, j) in m && (i', j) in m :: i == i')
  }

  /** Position `i` of the first string is paired with `j` or something earlier. */
  ghost predicate LeftServed(m: Pairs, i: nat, j: nat) {
    exists j': nat :: j' <= j && (i, j') in m
  }

  /** Position `j` of the second string is paired with `i` or something earlier. */
  ghost predicate RightServed(m: Pairs, i: nat, j: nat) {
    exists i': nat :: i' <= i && (i', j) in m
  }

  ghost predicate Settled(a: string, b: string, d: nat, m: Pairs) {
    forall i: nat, j: nat | Compatible(a, b, d, i, j) :: LeftServed(m, i, j) || RightServed(m, i, j)
  }

  function Lefts(m: Pairs): set<nat> {
    set p | p in m :: p.0
  }

  function Rights(m: Pairs): set<nat> {
    set p | p in m :: p.1
  }

  function Swapped(m: Pairs): (s: Pairs)
    ensures forall i: nat, j: nat :: (i, j) in s <==> (j, i) in m
  {
    set p | p in m :: (p.1, p.0)
  }

  // ----- the greedy pass ---------------------------------------------------

  /** One past the last position of `b` that position `i` of `a` looks at. */
  function WindowEnd(b: string, d: nat, i: nat): nat {
    if i + d + 1 < |b| then i + d + 1 else |b|
  }

  function WindowStart(d: nat, i: nat): nat {
    if i <= d then 0 else i - d
  }

  /** The first position in `[j, WindowEnd)` that holds `a[i]` and is not taken, or `|b|`. */
  function FirstFree(a: string, b: string, d: nat, i: nat, taken: set<nat>, j: nat): (r: nat)
    requires i < |a|
    ensures r == |b| || (j <= r < WindowEnd(b, d, i) && r !in taken && b[r] == a[i])
    ensures forall k | j <= k < WindowEnd(b, d, i) && k < r :: k in taken || b[k] != a[i]
    decreases |b| - j
  {
    if j >= WindowEnd(b, d, i) then |b|
    else if j !in taken && b[j] == a[i] then j
    else FirstFree(a, b, d, i, taken, j + 1)
  }

  /** The pairs made by the first `n` turns of the outer loop. */
  function Greedy(a: string, b: string, d: nat, n: nat): (m: Pairs)
    requires n <= |a|
  {
    if n == 0 then {}
    else
      var m := Greedy(a, b, d, n - 1);
      var j := FirstFree(a, b, d, n - 1, Rights(m), WindowStart(d, n - 1));
      if j < |b| then m + {(n - 1, j)} else m
  }

  lemma {:induction false} GreedyIsPairing(a: string, b: string, d: nat, n: nat)
    requires n <= |a|
    ensures IsPairing(a, b, d, Greedy(a, b, d, n))
    ensures forall i: nat, j: nat | (i, j) in Greedy(a, b, d, n) :: i < n
  {
    if n > 0 {
      GreedyIsPairing(a, b, d, n - 1);
    }
  }

  /** Serving a position never stops being true as pairs are added. */
  lemma ServedGrows(m: Pairs, m': Pairs, i: nat, j: nat)
    requires m <= m'
    requires LeftServed(m, i, j) || RightServed(m, i, j)
    ensures LeftServed(m', i, j) || RightServed(m', i, j)
  {
    if LeftServed(m, i, j) {
      var j': nat :| j' <= j && (i, j') in m;
      assert (i, j') in m';
    } else {
      var i': nat :| i' <= i && (i', j) in m;
      assert (i', j) in m';
    }
  }

  /** Turn `n` of the loop serves position `n` itself: it takes the first free position, and
      a compatible position that was not free had gone to an earlier one. */
  lemma TurnServes(a: string, b: string, d: nat, n: nat, j: nat)
    requires n < |a| && Compatible(a, b, d, n, j)
    ensures LeftServed(Greedy(a, b, d, n + 1), n, j) || RightServed(Greedy(a, b, d, n + 1), n, j)
  {
    var m := Greedy(a, b, d, n);
    GreedyIsPairing(a, b, d, n);
    var r := FirstFree(a, b, d, n, Rights(m), WindowStart(d, n));
    if r <= j {
      assert (n, r) in Greedy(a, b, d, n + 1);
    } else {
      assert j in Rights(m);
      var i: nat :| (i, j) in m;
      assert (i, j) in Greedy(a, b, d, n + 1);
    }
  }

  lemma {:induction false} GreedySettles(a: string, b: string, d: nat, n: nat, i: nat, j: nat)
    requires i < n <= |a| && Compatible(a, b, d, i, j)
    ensures LeftServed(Greedy(a, b, d, n), i, j) || RightServed(Greedy(a, b, d, n), i, j)
  {
    if i == n - 1 {
      TurnServes(a, b, d, i, j);
    } else {
      GreedySettles(a, b, d, n - 1, i, j);
      ServedGrows(Greedy(a, b, d, n - 1), Greedy(a, b, d, n), i, j);
    }
  }

  /** A settled pairing has one pairing of the first position, hence of the second, and so on. */
  lemma {:induction false} SettledAgree(a: string, b: string, d: nat, m: Pairs, m': Pairs, i: nat, j: nat)
    requires IsPairing(a, b, d, m) && Settled(a, b, d, m)
    requires IsPairing(a, b, d, m') && Settled(a, b, d, m')
    requires (i, j) in m
    ensures (i, j) in m'
    decreases i, j
  {
    // In m', position i is served at j or before: the alternative is an earlier i' paired with j
    // in m', which by induction is also paired with j in m.
    if !LeftServed(m', i, j) {
      assert RightServed(m', i, j);
      var i': nat :| i' <= i && (i', j) in m';
      if i' < i {
        SettledAgree(a, b, d, m', m, i', j);
      }
      assert false;
    }
    var j': nat :| j' <= j && (i, j') in m';
    if j' < j {
      SettledAgree(a, b, d, m', m, i, j');
      assert false;
    }
  }

  lemma SamePairs(m: Pairs, m': Pairs)
    requires forall i: nat, j: nat :: (i, j) in m <==> (i, j) in m'
    ensures m == m'
  {
    forall p: (nat, nat) ensures p in m <==> p in m' { assert p == (p.0, p.1); }
  }

  /** There is at most one settled pairing. */
  lemma SettledIsUnique(a: string, b: string, d: nat, m: Pairs, m': Pairs)
    requires IsPairing(a, b, d, m) && Settled(a, b, d, m)
    requires IsPairing(a, b, d, m') && Settled(a, b, d, m')
    ensures m == m'
  {
    forall i: nat, j: nat | (i, j) in m ensures (i, j) in m' { SettledAgree(a, b, d, m, m', i, j); }
    forall i: nat, j: nat | (i, j) in m' ensures (i, j) in m { SettledAgree(a, b, d, m', m, i, j); }
    SamePairs(m, m');
  }

  /** What the whole pass builds. */
  function Matched(a: string, b: string, d: nat): (m: Pairs) {
    Greedy(a, b, d, |a|)
  }

  lemma MatchedIsSettled(a: string, b: string, d: nat)
    ensures IsPairing(a, b, d, Matched(a, b, d))
    ensures Settled(a, b, d, Matched(a, b, d))
  {
    GreedyIsPairing(a, b, d, |a|);
    forall i: nat, j: nat | Compatible(a, b, d, i, j)
      ensures LeftServed(Matched(a, b, d), i, j) || RightServed(Matched(a, b, d), i, j)
    {
      GreedySettles(a, b, d, |a|, i, j);
    }
  }

  /** The pass with its strings exchanged makes the same pairs, the other way round. */
  lemma MatchedIsSymmetric(a: string, b: string, d: nat)
    ensures Matched(b, a, d) == Swapped(Matched(a, b, d))
  {
    var m := Matched(a, b, d);
    var s := Swapped(m);
    MatchedIsSettled(a, b, d);
    MatchedIsSettled(b, a, d);
    assert IsPairing(b, a, d, s);
    forall i: nat, j: nat | Compatible(b, a, d, i, j) ensures LeftServed(s, i, j) || RightServed(s, i, j) {
      assert Compatible(a, b, d, j, i);
      if LeftServed(m, j, i) {
        var x: nat :| x <= i && (j, x) in m;
        assert (x, j) in s;
      } else {
        var x: nat :| x <= j && (x, i) in m;
        assert (i, x) in s;
      }
    }
    SettledIsUnique(b, a, d, Matched(b, a, d), s);
  }

  /** Every position of a common prefix is paired with itself. */
  lemma {:induction false} CommonPrefixPairsWithItself(a: string, b: string, d: nat, n: nat)
    requires n <= |a| && n <= |b| && a[..n] == b[..n]
    ensures forall i: nat | i < n :: (i, i) in Matched(a, b, d)
  {
    if n > 0 {
      assert a[..n - 1] == a[..n][..n - 1] == b[..n - 1];
      CommonPrefixPairsWithItself(a, b, d, n - 1);
      MatchedIsSettled(a, b, d);
      var m := Matched(a, b, d);
      var i: nat := n - 1;
      assert a[i] == a[..n][i] == b[..n][i] == b[i];
      assert Compatible(a, b, d, i, i);
      // Whoever serves i, at i or before, is i itself: every earlier x is paired with x.
      forall x: nat | x < i ensures (x, i) !in m && (i, x) !in m { assert (x, x) in m; }
    }
  }

  // ----- maximality ----------------------------------------------------------

  /** `m` and `n` make the same pairs at positions of the first string before `i`. */
  ghost predicate AgreeBefore(m: Pairs, n: Pairs, i: nat) {
    forall k: nat, j: nat | k < i :: (k, j) in m <==> (k, j) in n
  }

  /** Neither end of (i, j) is in use. */
  ghost predicate Free(n: Pairs, i: nat, j: nat) {
    && (forall k: nat :: (i, k) !in n)
    && (forall k: nat :: (k, j) !in n)
  }

  lemma With(a: string, b: string, d: nat, n: Pairs, i: nat, j: nat) returns (n': Pairs)
    requires IsPairing(a, b, d, n) && Compatible(a, b, d, i, j) && Free(n, i, j)
    ensures IsPairing(a, b, d, n') && n' == n + {(i, j)} && |n'| == |n| + 1
  {
    n' := n + {(i, j)};
  }

  lemma Without(a: string, b: string, d: nat, n: Pairs, i: nat, j: nat) returns (n': Pairs)
    requires IsPairing(a, b, d, n) && (i, j) in n
    ensures IsPairing(a, b, d, n') && n' == n - {(i, j)} && |n'| == |n| - 1 && Free(n', i, j)
  {
    n' := n - {(i, j)};
  }

  /** Where a settled pairing and an agreeing one differ at `i`, the settled one pairs earlier. */
  lemma LaterThanSettled(a: string, b: string, d: nat, m: Pairs, n: Pairs, i: nat, j: nat, x: nat)
    requires IsPairing(a, b, d, m) && Settled(a, b, d, m) && IsPairing(a, b, d, n)
    requires AgreeBefore(m, n, i)
    requires (i, j) in m && (i, x) in n && (i, j) !in n
    ensures j < x
  {
    assert forall y: nat | y < i :: (y, x) !in m;
  }

  /** Crossing pairs can be uncrossed inside the window. */
  lemma Uncross(a: string, b: string, d: nat, n: Pairs, i: nat, x: nat, y: nat, j: nat) returns (n': Pairs)
    requires IsPairing(a, b, d, n)
    requires (i, x) in n && (y, j) in n && i < y && j < x
    requires Compatible(a, b, d, i, j)
    ensures IsPairing(a, b, d, n') && |n'| == |n|
    ensures (i, j) in n'
    ensures forall k: nat, z: nat | k != i && k != y :: (k, z) in n <==> (k, z) in n'
  {
    n' := Without(a, b, d, n, i, x);
    n' := Without(a, b, d, n', y, j);
    n' := With(a, b, d, n', i, j);
    n' := With(a, b, d, n', y, x);
  }

  /** Any pairing that agrees with a settled one before `i` can be changed, losing no pairs,
      to agree with it at `i` as well. */
  lemma AgreeAt(a: string, b: string, d: nat, m: Pairs, n: Pairs, i: nat, j: nat) returns (n': Pairs)
    requires IsPairing(a, b, d, m) && Settled(a, b, d, m)
    requires IsPairing(a, b, d, n) && AgreeBefore(m, n, i)
    requires (i, j) in m && (i, j) !in n
    ensures IsPairing(a, b, d, n') && |n'| >= |n|
    ensures (i, j) in n' && AgreeBefore(n, n', i)
  {
    if y: nat :| (y, j) in n {
      assert y < i ==> (y, j) in m;
      assert y > i;
      if x: nat :| (i, x) in n {
        LaterThanSettled(a, b, d, m, n, i, j, x);
        n' := Uncross(a, b, d, n, i, x, y, j);
      } else {
        n' := Without(a, b, d, n, y, j);
        n' := With(a, b, d, n', i, j);
      }
    } else {
      n' := n;
      if x: nat :| (i, x) in n {
        n' := Without(a, b, d, n, i, x);
      }
      n' := With(a, b, d, n', i, j);
    }
  }

  /** A pairing that agrees with a settled one before `i` pairs nothing at `i` if that one does not. */
  lemma UnpairedAt(a: string, b: string, d: nat, m: Pairs, n: Pairs, i: nat, x: nat)
    requires IsPairing(a, b, d, m) && Settled(a, b, d, m)
    requires IsPairing(a, b, d, n) && AgreeBefore(m, n, i)
    requires i !in Lefts(m)
    ensures (i, x) !in n
  {
    if (i, x) in n && RightServed(m, i, x) {
      assert false;
    }
  }

  lemma ExtendAgreement(a: string, b: string, d: nat, m: Pairs, n: Pairs, i: nat) returns (n': Pairs)
    requires IsPairing(a, b, d, m) && Settled(a, b, d, m)
    requires IsPairing(a, b, d, n) && AgreeBefore(m, n, i)
    ensures IsPairing(a, b, d, n') && AgreeBefore(m, n', i + 1) && |n'| >= |n|
  {
    n' := n;
    if j: nat :| (i, j) in m {
      if (i, j) !in n {
        n' := AgreeAt(a, b, d, m, n, i, j);
      }
    } else {
      forall x: nat ensures (i, x) !in n { UnpairedAt(a, b, d, m, n, i, x); }
    }
  }

  lemma {:induction false} SettledIsLargestFrom(a: string, b: string, d: nat, m: Pairs, n: Pairs, i: nat)
    requires IsPairing(a, b, d, m) && Settled(a, b, d, m)
    requires IsPairing(a, b, d, n) && AgreeBefore(m, n, i) && i <= |a|
    ensures |n| <= |m|
    decreases |a| - i
  {
    if i == |a| {
      SamePairs(n, m);
    } else {
      var n' := ExtendAgreement(a, b, d, m, n, i);
      SettledIsLargestFrom(a, b, d, m, n', i + 1);
    }
  }

  /** The greedy pass finds a largest pairing: no one-to-one pairing of equal characters
      within the window has more pairs. */
  lemma MatchedIsLargest(a: string, b: string, d: nat, n: Pairs)
    requires IsPairing(a, b, d, n)
    ensures |n| <= |Matched(a, b, d)|
  {
    MatchedIsSettled(a, b, d);
    SettledIsLargestFrom(a, b, d, Matched(a, b, d), n, 0);
  }
}
