/** Jaro and Jaro-Winkler similarity over exact rationals, as loops over mark arrays,
    proved against the settled pairing of module `Pairing`. */
module JaroWinkler {
  import opened Pairing

  function Min(x: nat, y: nat): nat { if x < y then x else y }

  function Max(x: nat, y: nat): nat { if x < y then y else x }

  function MatchDistance(a: string, b: string): nat {
    Max(Max(|a|, |b|) / 2, 1) - 1
  }

  /** The characters of `s[..n]` at marked positions, in order. */
  function Selected(s: string, marks: set<nat>, n: nat): (r: string)
    requires n <= |s|
    ensures |r| <= n
  {
    if n == 0 then []
    else if n - 1 in marks then Selected(s, marks, n - 1) + [s[n - 1]]
    else Selected(s, marks, n - 1)
  }

  /** How many positions of two equally long strings differ. */
  function Mismatches(x: string, y: string): (t: nat)
    requires |x| == |y|
    ensures t <= |x|
  {
    if |x| == 0 then 0
    else Mismatches(x[..|x| - 1], y[..|y| - 1]) + (if x[|x| - 1] != y[|y| - 1] then 1 else 0)
  }

  function MatchedInA(a: string, b: string): string {
    Selected(a, Lefts(Matched(a, b, MatchDistance(a, b))), |a|)
  }

  function MatchedInB(a: string, b: string): string {
    Selected(b, Rights(Matched(a, b, MatchDistance(a, b))), |b|)
  }

  function Matches(a: string, b: string): nat {
    |Matched(a, b, MatchDistance(a, b))|
  }

  ghost function Transpositions(a: string, b: string): (t: nat)
    ensures t <= Matches(a, b)
  {
    MatchedLengths(a, b);
    Mismatches(MatchedInA(a, b), MatchedInB(a, b))
  }

  function Formula(m: nat, t: nat, la: nat, lb: nat): real
    requires 0 < m && 0 < la && 0 < lb
  {
    (m as real / la as real + m as real / lb as real + (m as real - t as real / 2.0) / m as real) / 3.0
  }

  /** What the loops alone compute, for two nonempty strings. */
  ghost function LoopScore(a: string, b: string): real
    requires |a| > 0 && |b| > 0
  {
    if Matches(a, b) == 0 then 0.0
    else Formula(Matches(a, b), Transpositions(a, b), |a|, |b|)
  }

  /** The Jaro similarity, early returns included. */
  ghost function Jaro(a: string, b: string): real {
    if a == b then 1.0
    else if |a| == 0 || |b| == 0 then 0.0
    else LoopScore(a, b)
  }

  /** Length of the common prefix from position `i`, counting no position at or after `cap`. */
  function CommonPrefix(a: string, b: string, cap: nat, i: nat): (p: nat)
    requires i <= Min(cap, Min(|a|, |b|))
    requires a[..i] == b[..i]
    ensures i <= p <= Min(cap, Min(|a|, |b|))
    ensures a[..p] == b[..p]
    ensures p < Min(cap, Min(|a|, |b|)) ==> a[p] != b[p]
    decreases cap - i
  {
    if i == Min(cap, Min(|a|, |b|)) || a[i] != b[i] then i
    else
      assert a[..i + 1] == a[..i] + [a[i]] == b[..i + 1];
      CommonPrefix(a, b, cap, i + 1)
  }

  /** A score moved towards 1 by a tenth of the way per character of common prefix. */
  function Boosted(jaro: real, prefixLength: nat): real {
    jaro + prefixLength as real * 0.1 * (1.0 - jaro)
  }

  ghost function Winkler(a: string, b: string): real {
    Boosted(Jaro(a, b), CommonPrefix(a, b, 4, 0))
  }

  // ----- lengths and contents of the matched characters ----------------------

  lemma {:induction false} SwappedSize(m: Pairs)
    ensures |Swapped(m)| == |m|
    ensures Lefts(Swapped(m)) == Rights(m)
    ensures Rights(Swapped(m)) == Lefts(m)
  {
    if m != {} {
      var p :| p in m;
      assert p == (p.0, p.1);
      SwappedSize(m - {p});
      assert Swapped(m) == Swapped(m - {p}) + {(p.1, p.0)};
      assert Lefts(Swapped(m)) == Rights(m);
      assert Rights(Swapped(m)) == Lefts(m);
    }
  }

  /** Marking one more position inserts that one character. */
  lemma {:induction false} SelectedInsert(s: string, marks: set<nat>, k: nat, n: nat)
    requires n <= |s| && k < n && k !in marks
    ensures multiset(Selected(s, marks + {k}, n)) == multiset(Selected(s, marks, n)) + multiset{s[k]}
  {
    if n - 1 == k {
      SelectedLocal(s, marks, marks + {k}, k);
    } else {
      SelectedInsert(s, marks, k, n - 1);
    }
  }

  lemma {:induction false} SelectedLocal(s: string, marks: set<nat>, marks': set<nat>, n: nat)
    requires n <= |s|
    requires forall i: nat | i < n :: i in marks <==> i in marks'
    ensures Selected(s, marks, n) == Selected(s, marks', n)
  {
    if n > 0 { SelectedLocal(s, marks, marks', n - 1); }
  }

  /** The matched characters of the two strings are the same, up to order. */
  lemma {:induction false} SelectedBothSides(a: string, b: string, d: nat, m: Pairs)
    requires IsPairing(a, b, d, m)
    ensures multiset(Selected(a, Lefts(m), |a|)) == multiset(Selected(b, Rights(m), |b|))
    ensures |Selected(a, Lefts(m), |a|)| == |Selected(b, Rights(m), |b|)| == |m|
    decreases |m|
  {
    if m == {} {
      SelectedNone(a, |a|);
      SelectedNone(b, |b|);
      assert Lefts(m) == {} && Rights(m) == {};
    } else {
      var p :| p in m;
      var i: nat, j: nat := p.0, p.1;
      assert p == (i, j);
      var m' := m - {p};
      SelectedBothSides(a, b, d, m');
      assert Lefts(m) == Lefts(m') + {i} && Rights(m) == Rights(m') + {j};
      SelectedInsert(a, Lefts(m'), i, |a|);
      SelectedInsert(b, Rights(m'), j, |b|);
      assert |multiset(Selected(a, Lefts(m), |a|))| == |m|;
      assert |multiset(Selected(b, Rights(m), |b|))| == |m|;
    }
  }

  lemma {:induction false} SelectedNone(s: string, n: nat)
    requires n <= |s|
    ensures Selected(s, {}, n) == []
  {
    if n > 0 { SelectedNone(s, n - 1); }
  }

  lemma {:induction false} SelectedAll(s: string, marks: set<nat>, n: nat)
    requires n <= |s|
    requires |Selected(s, marks, n)| == n
    ensures Selected(s, marks, n) == s[..n]
  {
    if n > 0 { SelectedAll(s, marks, n - 1); }
  }

  lemma MatchedLengths(a: string, b: string)
    ensures |MatchedInA(a, b)| == |MatchedInB(a, b)| == Matches(a, b)
    ensures multiset(MatchedInA(a, b)) == multiset(MatchedInB(a, b))
  {
    var d := MatchDistance(a, b);
    MatchedIsSettled(a, b, d);
    SelectedBothSides(a, b, d, Matched(a, b, d));
  }

  // ----- mismatches -------------------------------------------------------------

  lemma {:induction false} MismatchesZero(x: string, y: string)
    requires |x| == |y|
    ensures Mismatches(x, y) == 0 <==> x == y
  {
    if |x| > 0 {
      var n := |x| - 1;
      MismatchesZero(x[..n], y[..n]);
      assert x == x[..n] + [x[n]] && y == y[..n] + [y[n]];
    }
  }

  lemma {:induction false} MismatchesSymmetric(x: string, y: string)
    requires |x| == |y|
    ensures Mismatches(x, y) == Mismatches(y, x)
  {
    if |x| > 0 { MismatchesSymmetric(x[..|x| - 1], y[..|y| - 1]); }
  }

  /** Rearrangements of each other never differ in exactly one place. */
  lemma {:induction false} MismatchesNotOne(x: string, y: string)
    requires |x| == |y| && multiset(x) == multiset(y)
    ensures Mismatches(x, y) != 1
  {
    if |x| > 0 {
      var n := |x| - 1;
      var u, v := x[..n], y[..n];
      assert x == u + [x[n]] && y == v + [y[n]];
      if x[n] == y[n] {
        SameLast(u, v, x[n]);
        MismatchesNotOne(u, v);
      } else {
        MismatchesZero(u, v);
        LastDiffers(u, v, x[n], y[n]);
      }
    }
  }

  lemma SameLast(u: string, v: string, c: char)
    requires multiset(u + [c]) == multiset(v + [c])
    ensures multiset(u) == multiset(v)
  {
    assert multiset(u) == multiset(u + [c]) - multiset{c};
    assert multiset(v) == multiset(v + [c]) - multiset{c};
  }

  lemma LastDiffers(u: string, v: string, c: char, d: char)
    requires c != d && multiset(u + [c]) == multiset(v + [d])
    ensures u != v
  {
    assert multiset(u + [c])[c] == multiset(u)[c] + 1;
    assert multiset(v + [d])[c] == multiset(v)[c];
  }

  lemma TranspositionsNeverOne(a: string, b: string)
    ensures Transpositions(a, b) != 1
  {
    MatchedLengths(a, b);
    MismatchesNotOne(MatchedInA(a, b), MatchedInB(a, b));
  }

  // ----- symmetry -----------------------------------------------------------------

  lemma MatchedSymmetric(a: string, b: string)
    ensures MatchedInA(b, a) == MatchedInB(a, b)
    ensures MatchedInB(b, a) == MatchedInA(a, b)
    ensures Matches(b, a) == Matches(a, b)
    ensures Transpositions(b, a) == Transpositions(a, b)
  {
    var d := MatchDistance(a, b);
    MatchedIsSymmetric(a, b, d);
    SwappedSize(Matched(a, b, d));
    MatchedLengths(a, b);
    MatchedLengths(b, a);
    MismatchesSymmetric(MatchedInA(a, b), MatchedInB(a, b));
  }

  lemma CommonPrefixSymmetric(a: string, b: string, cap: nat)
    ensures CommonPrefix(a, b, cap, 0) == CommonPrefix(b, a, cap, 0)
  {
    var p, q := CommonPrefix(a, b, cap, 0), CommonPrefix(b, a, cap, 0);
    assert forall i | 0 <= i < q :: a[i] == a[..q][i] == b[..q][i] == b[i];
    assert forall i | 0 <= i < p :: a[i] == a[..p][i] == b[..p][i] == b[i];
  }

  lemma JaroSymmetric(a: string, b: string)
    ensures Jaro(a, b) == Jaro(b, a)
  {
    MatchedSymmetric(a, b);
    if Matches(a, b) > 0 && |a| > 0 && |b| > 0 {
      var m, t := Matches(a, b), Transpositions(a, b);
      assert Formula(m, t, |a|, |b|) == Formula(m, t, |b|, |a|);
    }
  }

  /** Both similarities are symmetric. */
  lemma Symmetric(a: string, b: string)
    ensures Jaro(a, b) == Jaro(b, a)
    ensures Winkler(a, b) == Winkler(b, a)
  {
    JaroSymmetric(a, b);
    CommonPrefixSymmetric(a, b, 4);
  }

  // ----- range -------------------------------------------------------------------

  lemma Ratio(x: real, y: real)
    requires 0.0 <= x <= y && 0.0 < y
    ensures 0.0 <= x / y <= 1.0
    ensures x / y == 1.0 <==> x == y
    ensures x > 0.0 ==> x / y > 0.0
  {
    assert x == (x / y) * y;
  }

  lemma FormulaRange(m: nat, t: nat, la: nat, lb: nat)
    requires 0 < m <= la && m <= lb && t <= m
    ensures 0.0 < Formula(m, t, la, lb) <= 1.0
    ensures Formula(m, t, la, lb) == 1.0 <==> m == la == lb && t == 0
  {
    Ratio(m as real, la as real);
    Ratio(m as real, lb as real);
    Ratio(m as real - t as real / 2.0, m as real);
  }

  lemma FullMatch(a: string, b: string)
    requires Matches(a, b) == |a| == |b|
    ensures MatchedInA(a, b) == a && MatchedInB(a, b) == b
  {
    var m := Matched(a, b, MatchDistance(a, b));
    MatchedLengths(a, b);
    SelectedAll(a, Lefts(m), |a|);
    SelectedAll(b, Rights(m), |b|);
    assert a[..|a|] == a && b[..|b|] == b;
  }

  /** With the early return left out, two nonempty strings still score 1 exactly when equal. */
  lemma LoopScoreOne(a: string, b: string)
    requires |a| > 0 && |b| > 0
    ensures 0.0 <= LoopScore(a, b) <= 1.0
    ensures LoopScore(a, b) == 1.0 <==> a == b
    ensures LoopScore(a, b) == 0.0 <==> Matches(a, b) == 0
  {
    var x, y, m := MatchedInA(a, b), MatchedInB(a, b), Matches(a, b);
    MatchedLengths(a, b);
    if m > 0 {
      FormulaRange(m, Transpositions(a, b), |a|, |b|);
      MismatchesZero(x, y);
    }
    if m == |a| == |b| { FullMatch(a, b); }
    if a == b {
      EqualStringsMatchFully(a);
    }
  }

  lemma EqualStringsMatchFully(a: string)
    ensures Matches(a, a) == |a|
  {
    var d := MatchDistance(a, a);
    CommonPrefixPairsWithItself(a, a, d, |a|);
    MatchedIsSettled(a, a, d);
    MatchedLengths(a, a);
    Diagonal(Matched(a, a, d), |a|);
  }

  lemma {:induction false} Diagonal(m: Pairs, n: nat)
    requires forall i: nat | i < n :: (i, i) in m
    ensures |m| >= n
  {
    if n > 0 {
      var x: nat := n - 1;
      assert forall i: nat | i < x :: (i, i) in m - {(x, x)};
      Diagonal(m - {(x, x)}, x);
    }
  }

  lemma Product(x: real, y: real)
    requires 0.0 <= x && 0.0 <= y
    ensures 0.0 <= x * y
  {
  }

  lemma PrefixBoost(j: real, p: nat)
    requires 0.0 <= j <= 1.0 && p <= 4
    ensures j <= Boosted(j, p) <= 1.0
    ensures Boosted(j, p) == 1.0 <==> j == 1.0
    ensures 10.0 * (1.0 - Boosted(j, p)) == (10 - p) as real * (1.0 - j)
  {
    var s, u := p as real * 0.1, 1.0 - j;
    Product(s, u);
    Product(0.4 - s, u);
    assert (0.4 - s) * u == 0.4 * u - s * u;
  }

  lemma JaroRange(a: string, b: string)
    ensures 0.0 <= Jaro(a, b) <= 1.0
    ensures Jaro(a, b) == 1.0 <==> a == b
  {
    if |a| > 0 && |b| > 0 { LoopScoreOne(a, b); }
  }

  /** 0 <= jaro <= jaroWinkler <= 1, and either is 1 exactly on equal strings. */
  lemma Range(a: string, b: string)
    ensures 0.0 <= Jaro(a, b) <= Winkler(a, b) <= 1.0
    ensures Jaro(a, b) == 1.0 <==> a == b
    ensures Winkler(a, b) == 1.0 <==> a == b
  {
    JaroRange(a, b);
    PrefixBoost(Jaro(a, b), CommonPrefix(a, b, 4, 0));
  }

  /** `Matches` is the size of a largest one-to-one pairing of equal characters at distance
      at most `MatchDistance`. */
  lemma MatchesIsLargest(a: string, b: string)
    ensures IsPairing(a, b, MatchDistance(a, b), Matched(a, b, MatchDistance(a, b)))
    ensures forall n: Pairs | IsPairing(a, b, MatchDistance(a, b), n) :: |n| <= Matches(a, b)
  {
    var d := MatchDistance(a, b);
    MatchedIsSettled(a, b, d);
    forall n: Pairs | IsPairing(a, b, d, n) ensures |n| <= Matches(a, b) {
      MatchedIsLargest(a, b, d, n);
    }
  }

  // ----- the score in plain terms -------------------------------------------------------

  /** What one transposition costs. With none the score is the mean of the two matched shares and 1, and
      each mismatch lowers it by a sixth of a match. */
  lemma FormulaPrice(m: nat, t: nat, la: nat, lb: nat)
    requires 0 < m && 0 < la && 0 < lb
    ensures 3.0 * Formula(m, t, la, lb)
         == m as real / la as real + m as real / lb as real + 1.0 - t as real / (2.0 * m as real)
  {
    var x, h := m as real, t as real / 2.0;
    assert (x - h) / x == 1.0 - h / x by { Shares(x, h); }
    assert h / x == t as real / (2.0 * x) by { Halves(t as real, x); }
  }

  lemma Shares(x: real, h: real)
    requires x > 0.0
    ensures (x - h) / x == 1.0 - h / x
  {
    var q, g := (x - h) / x, h / x;
    Quotient(x - h, x);
    Quotient(h, x);
    assert (1.0 - g) * x == x - g * x;
    Cancel(q, 1.0 - g, x);
  }

  lemma Quotient(x: real, y: real)
    requires y > 0.0
    ensures (x / y) * y == x
  {
  }

  lemma Cancel(u: real, v: real, x: real)
    requires x > 0.0 && u * x == v * x
    ensures u == v
  {
    Quotient(u * x, x);
    assert u * x / x == u;
  }

  lemma Halves(t: real, x: real)
    requires x > 0.0
    ensures t / 2.0 / x == t / (2.0 * x)
  {
    var q := t / (2.0 * x);
    assert q * (2.0 * x) == t;
    assert q * x == t / 2.0;
  }

  lemma HeadIn(p: seq<nat>)
    requires |p| > 0
    ensures p[0] in p
  {
  }

  /** `p` is the marked positions before `n`, in order. */
  ghost predicate MarksInOrder(marks: set<nat>, n: nat, p: seq<nat>) {
    && Increasing(p)
    && (forall i | i in p :: i < n)
    && (forall i: nat | i < n :: i in marks <==> i in p)
  }

  lemma LastMark(marks: set<nat>, n: nat, p: seq<nat>)
    requires MarksInOrder(marks, n, p) && n > 0 && n - 1 in marks
    ensures |p| > 0 && p[|p| - 1] == n - 1 && MarksInOrder(marks, n - 1, p[..|p| - 1])
  {
    var last := |p| - 1;
    var k :| 0 <= k < |p| && p[k] == n - 1;
    assert p[last] in p;
    assert k == last;
    var q := p[..last];
    assert forall i | 0 <= i < last :: q[i] == p[i] < n - 1;
    forall i: nat | i < n - 1 && i in p ensures i in q {
      var j :| 0 <= j < |p| && p[j] == i;
      assert q[j] == i;
    }
  }

  lemma NoLastMark(marks: set<nat>, n: nat, p: seq<nat>)
    requires MarksInOrder(marks, n, p) && n > 0 && n - 1 !in marks
    ensures MarksInOrder(marks, n - 1, p)
  {
    assert n - 1 !in p;
  }

  /** `x` is the characters of `s` at the positions `p`. */
  ghost predicate CharactersAt(s: string, p: seq<nat>, x: string) {
    |x| == |p| && forall k | 0 <= k < |p| :: p[k] < |s| && x[k] == s[p[k]]
  }

  lemma OneMoreCharacter(s: string, p: seq<nat>, x: string)
    requires |p| > 0 && p[|p| - 1] < |s| && CharactersAt(s, p[..|p| - 1], x)
    ensures CharactersAt(s, p, x + [s[p[|p| - 1]]])
  {
  }

  /** The same, position by position from the last. */
  ghost predicate MarksFromLast(marks: set<nat>, n: nat, p: seq<nat>) {
    if n == 0 then p == []
    else if n - 1 in marks then |p| > 0 && p[|p| - 1] == n - 1 && MarksFromLast(marks, n - 1, p[..|p| - 1])
    else MarksFromLast(marks, n - 1, p)
  }

  lemma NoMarks(marks: set<nat>, p: seq<nat>)
    requires MarksInOrder(marks, 0, p)
    ensures p == []
  {
    if |p| > 0 { HeadIn(p); }
  }

  lemma {:induction false} InOrderFromLast(marks: set<nat>, n: nat, p: seq<nat>)
    requires MarksInOrder(marks, n, p)
    ensures MarksFromLast(marks, n, p)
  {
    if n == 0 {
      NoMarks(marks, p);
    } else if n - 1 in marks {
      LastMark(marks, n, p);
      InOrderFromLast(marks, n - 1, p[..|p| - 1]);
    } else {
      NoLastMark(marks, n, p);
      InOrderFromLast(marks, n - 1, p);
    }
  }

  /** The selected characters are those at the marked positions, in order. */
  lemma {:induction false} SelectedFromLast(s: string, marks: set<nat>, n: nat, p: seq<nat>)
    requires n <= |s| && MarksFromLast(marks, n, p)
    ensures CharactersAt(s, p, Selected(s, marks, n))
  {
    if n > 0 && n - 1 in marks {
      SelectedFromLast(s, marks, n - 1, p[..|p| - 1]);
      OneMoreCharacter(s, p, Selected(s, marks, n - 1));
    } else if n > 0 {
      SelectedFromLast(s, marks, n - 1, p);
    }
  }

  lemma SelectedInOrder(s: string, marks: set<nat>, n: nat, p: seq<nat>)
    requires n <= |s| && MarksInOrder(marks, n, p)
    ensures CharactersAt(s, p, Selected(s, marks, n))
  {
    InOrderFromLast(marks, n, p);
    SelectedFromLast(s, marks, n, p);
  }

  /** Mismatches are the positions at which two strings differ. */
  lemma {:induction false} MismatchesAre(x: string, y: string)
    requires |x| == |y|
    ensures Mismatches(x, y) == |set k | 0 <= k < |x| && x[k] != y[k]|
  {
    var all := set k | 0 <= k < |x| && x[k] != y[k];
    if |x| == 0 {
      assert all == {};
    } else {
      var n := |x| - 1;
      MismatchesAre(x[..n], y[..n]);
      var differ := set k | 0 <= k < n && x[..n][k] != y[..n][k];
      assert all == differ + (if x[n] != y[n] then {n} else {});
    }
  }

  /** The score from the number of matches and of transpositions. */
  lemma JaroPrice(a: string, b: string, m: nat, t: nat)
    requires a != b && |a| > 0 && |b| > 0 && m == Matches(a, b) > 0 && t == Transpositions(a, b)
    ensures 3.0 * Jaro(a, b)
         == m as real / |a| as real + m as real / |b| as real + 1.0 - t as real / (2.0 * m as real)
  {
    assert Jaro(a, b) == Formula(m, t, |a|, |b|);
    FormulaPrice(m, t, |a|, |b|);
  }

  /** Half the longer length, rounded down, less one, but not below 0. */
  ghost predicate IsWindow(a: string, b: string, d: nat) {
    var n := if |a| < |b| then |b| else |a|;
    if n < 4 then d == 0 else 2 * d + 2 <= n <= 2 * d + 3
  }

  /** Equal characters within the window, one to one, and no such pair passed over by both of its ends for
      something later. */
  ghost predicate IsMatching(a: string, b: string, d: nat, m: Pairs) {
    && (forall i: nat, j: nat | (i, j) in m :: i < |a| && j < |b| && a[i] == b[j] && i - d <= j <= i + d)
    && (forall i: nat, j: nat, j': nat | (i, j) in m && (i, j') in m :: j == j')
    && (forall i: nat, i': nat, j: nat | (i, j) in m && (i', j) in m :: i == i')
    && (forall i: nat, j: nat | i < |a| && j < |b| && a[i] == b[j] && i - d <= j <= i + d ::
          (exists j': nat :: j' <= j && (i, j') in m) || (exists i': nat :: i' <= i && (i', j) in m))
  }

  ghost predicate Increasing(p: seq<nat>) { forall i, j | 0 <= i < j < |p| :: p[i] < p[j] }

  /** The paired positions of either string, in order. */
  ghost predicate AreSides(m: Pairs, p: seq<nat>, q: seq<nat>) {
    && Increasing(p) && (forall i: nat :: i in p <==> exists j: nat :: (i, j) in m)
    && Increasing(q) && (forall j: nat :: j in q <==> exists i: nat :: (i, j) in m)
  }

  /** The score of two different, nonempty strings from their matching: three times the score is the share of
      either string that is matched, and 1, less half a match for each place at which the matched
      characters differ. */
  lemma ScoreOfMatching(a: string, b: string, d: nat, m: Pairs, p: seq<nat>, q: seq<nat>)
    requires a != b && |a| > 0 && |b| > 0
    requires IsWindow(a, b, d) && IsMatching(a, b, d, m) && AreSides(m, p, q)
    ensures |p| == |q| == |m| && (forall k | 0 <= k < |m| :: p[k] < |a| && q[k] < |b|)
    ensures m == {} ==> Jaro(a, b) == 0.0
    ensures m != {} ==>
              var t := |set k | 0 <= k < |m| && a[p[k]] != b[q[k]]|;
              3.0 * Jaro(a, b) == |m| as real / |a| as real + |m| as real / |b| as real + 1.0
                                  - t as real / (2.0 * |m| as real)
  {
    MatchingIsMatched(a, b, d, m);
    CountsOfMatching(a, b, d, m, p, q);
    if m != {} { JaroPrice(a, b, |m|, |set k | 0 <= k < |m| && a[p[k]] != b[q[k]]|); }
  }

  lemma MatchingIsMatched(a: string, b: string, d: nat, m: Pairs)
    requires IsWindow(a, b, d) && IsMatching(a, b, d, m)
    ensures d == MatchDistance(a, b) && m == Matched(a, b, d)
  {
    assert IsPairing(a, b, d, m);
    assert Settled(a, b, d, m);
    MatchedIsSettled(a, b, d);
    SettledIsUnique(a, b, d, m, Matched(a, b, d));
  }

  lemma CountsOfMatching(a: string, b: string, d: nat, m: Pairs, p: seq<nat>, q: seq<nat>)
    requires d == MatchDistance(a, b) && m == Matched(a, b, d) && AreSides(m, p, q)
    ensures |p| == |q| == |m| == Matches(a, b) && forall k | 0 <= k < |m| :: p[k] < |a| && q[k] < |b|
    ensures Transpositions(a, b) == |set k | 0 <= k < |m| && a[p[k]] != b[q[k]]|
  {
    MatchedIsSettled(a, b, d);
    InOrderSides(a, b, d, m, p, q);
    MatchedLengths(a, b);
    var x, y := MatchedInA(a, b), MatchedInB(a, b);
    MismatchesAre(x, y);
    assert (set k | 0 <= k < |m| && a[p[k]] != b[q[k]]) == set k | 0 <= k < |x| && x[k] != y[k];
  }

  lemma InOrderSides(a: string, b: string, d: nat, m: Pairs, p: seq<nat>, q: seq<nat>)
    requires IsPairing(a, b, d, m) && AreSides(m, p, q)
    ensures |p| == |q| == |m|
    ensures forall k | 0 <= k < |m| :: p[k] < |a| && q[k] < |b|
    ensures var x, y := Selected(a, Lefts(m), |a|), Selected(b, Rights(m), |b|);
            |x| == |y| == |m| && forall k | 0 <= k < |m| :: x[k] == a[p[k]] && y[k] == b[q[k]]
  {
    LeftsAre(m, p);
    RightsAre(m, q);
    forall i | i in p ensures i < |a| { var j: nat :| (i, j) in m; }
    forall j | j in q ensures j < |b| { var i: nat :| (i, j) in m; }
    SelectedInOrder(a, Lefts(m), |a|, p);
    SelectedInOrder(b, Rights(m), |b|, q);
    SelectedBothSides(a, b, d, m);
  }

  lemma LeftsAre(m: Pairs, p: seq<nat>)
    requires forall i: nat :: i in p <==> exists j: nat :: (i, j) in m
    ensures forall i: nat :: i in Lefts(m) <==> i in p
  {
    forall i: nat ensures i in Lefts(m) <==> i in p {
      if i in Lefts(m) {
        var x :| x in m && x.0 == i;
        assert (i, x.1) in m;
      }
      if i in p {
        var j: nat :| (i, j) in m;
        assert (i, j).0 == i;
      }
    }
  }

  lemma RightsAre(m: Pairs, q: seq<nat>)
    requires forall j: nat :: j in q <==> exists i: nat :: (i, j) in m
    ensures forall j: nat :: j in Rights(m) <==> j in q
  {
    forall j: nat ensures j in Rights(m) <==> j in q {
      if j in Rights(m) {
        var x :| x in m && x.1 == j;
        assert (x.0, j) in m;
      }
      if j in q {
        var i: nat :| (i, j) in m;
        assert (i, j).1 == j;
      }
    }
  }

  /** Of the gap from `j` to 1, all but `p` tenths are left at `w`. */
  ghost predicate ClosesTenths(j: real, w: real, p: nat) {
    10.0 * (1.0 - w) == (10.0 - p as real) * (1.0 - j)
  }

  /** The boosted score closes a tenth of the gap to 1 for each character of the common prefix, of which at
      most four count. */
  lemma ScoreOfPrefix(a: string, b: string, p: nat)
    requires p <= 4 && p <= |a| && p <= |b| && a[..p] == b[..p]
    requires p == 4 || p == |a| || p == |b| || a[p] != b[p]
    ensures ClosesTenths(Jaro(a, b), Winkler(a, b), p)
  {
    PrefixIs(a, b, p);
    BoostGap(Winkler(a, b), Jaro(a, b), p);
  }

  lemma PrefixIs(a: string, b: string, p: nat)
    requires p <= 4 && p <= |a| && p <= |b| && a[..p] == b[..p]
    requires p == 4 || p == |a| || p == |b| || a[p] != b[p]
    ensures CommonPrefix(a, b, 4, 0) == p
  {
    var c := CommonPrefix(a, b, 4, 0);
    assert forall i | 0 <= i < p :: a[i] == a[..p][i] == b[..p][i] == b[i];
    assert forall i | 0 <= i < c :: a[i] == a[..c][i] == b[..c][i] == b[i];
  }

  lemma BoostGap(w: real, j: real, p: nat)
    requires p <= 10 && w == Boosted(j, p)
    ensures ClosesTenths(j, w, p)
  {
    var x, u := p as real, 1.0 - j;
    assert x * 0.1 * u == 0.1 * (x * u);
    assert (10.0 - x) * u == 10.0 * u - x * u;
  }

  // ----- the loops -------------------------------------------------------------------

  /** The inner loop of the matching pass: the first unmarked position of the window that
      holds `a[i]`, or `|b|`. */
  method FindMatch(a: string, b: string, matchDistance: nat, i: nat, bMatches: array<bool>, ghost taken: set<nat>)
    returns (j: nat)
    requires i < |a| && bMatches.Length == |b|
    requires forall k | 0 <= k < |b| :: bMatches[k] <==> k in taken
    ensures j == FirstFree(a, b, matchDistance, i, taken, WindowStart(matchDistance, i))
  {
    j := WindowStart(matchDistance, i);
    while j < WindowEnd(b, matchDistance, i)
      invariant FirstFree(a, b, matchDistance, i, taken, j)
             == FirstFree(a, b, matchDistance, i, taken, WindowStart(matchDistance, i))
    {
      if !(bMatches[j] || a[i] != b[j]) { return j; }
      j := j + 1;
    }
    return |b|;
  }

  /** The matching pass: marks in `aMatches` and `bMatches` what `Matched` pairs. */
  method MarkMatches(a: string, b: string, matchDistance: nat, aMatches: array<bool>, bMatches: array<bool>)
    returns (matches: nat)
    requires aMatches.Length == |a| && bMatches.Length == |b| && aMatches != bMatches
    requires forall i | 0 <= i < |a| :: !aMatches[i]
    requires forall j | 0 <= j < |b| :: !bMatches[j]
    modifies aMatches, bMatches
    ensures matches == |Matched(a, b, matchDistance)|
    ensures forall i | 0 <= i < |a| :: aMatches[i] <==> i in Lefts(Matched(a, b, matchDistance))
    ensures forall j | 0 <= j < |b| :: bMatches[j] <==> j in Rights(Matched(a, b, matchDistance))
  {
    matches := 0;
    ghost var left: set<nat>, right: set<nat> := {}, {};
    for i := 0 to |a|
      invariant PassState(a, b, matchDistance, i, left, right, matches)
      invariant Marks(aMatches, left) && Marks(bMatches, right)
    {
      var j := FindMatch(a, b, matchDistance, i, bMatches, right);
      PassTurn(a, b, matchDistance, i, j, left, right, matches);
      if j < |b| {
        Mark(aMatches, i, left);
        Mark(bMatches, j, right);
        matches := matches + 1;
        left, right := left + {i}, right + {j};
      }
    }
  }

  ghost predicate Marks(marks: array<bool>, s: set<nat>)
    reads marks
  {
    forall k | 0 <= k < marks.Length :: marks[k] <==> k in s
  }

  method Mark(marks: array<bool>, k: nat, ghost s: set<nat>)
    requires k < marks.Length && Marks(marks, s)
    modifies marks
    ensures Marks(marks, s + {k})
  {
    marks[k] := true;
  }

  /** What the pass has marked and counted before turn `i`. */
  ghost predicate PassState(a: string, b: string, d: nat, i: nat, left: set<nat>, right: set<nat>, matches: nat)
    requires i <= |a|
  {
    var m := Greedy(a, b, d, i);
    left == Lefts(m) && right == Rights(m) && matches == |m|
  }

  lemma PassTurn(a: string, b: string, d: nat, i: nat, j: nat, left: set<nat>, right: set<nat>, matches: nat)
    requires i < |a| && PassState(a, b, d, i, left, right, matches)
    requires j == FirstFree(a, b, d, i, right, WindowStart(d, i))
    ensures if j < |b| then PassState(a, b, d, i + 1, left + {i}, right + {j}, matches + 1)
            else PassState(a, b, d, i + 1, left, right, matches)
  {
    if j < |b| { AddedPair(a, b, d, i, j); }
  }

  /** Turn `i` of the pass, when it finds `j`. */
  lemma AddedPair(a: string, b: string, d: nat, i: nat, j: nat)
    requires i < |a| && j < |b|
    requires j == FirstFree(a, b, d, i, Rights(Greedy(a, b, d, i)), WindowStart(d, i))
    ensures Lefts(Greedy(a, b, d, i + 1)) == Lefts(Greedy(a, b, d, i)) + {i}
    ensures Rights(Greedy(a, b, d, i + 1)) == Rights(Greedy(a, b, d, i)) + {j}
    ensures |Greedy(a, b, d, i + 1)| == |Greedy(a, b, d, i)| + 1
  {
    var m := Greedy(a, b, d, i);
    GreedyIsPairing(a, b, d, i);
    assert (i, j) !in m;
    assert Lefts(m + {(i, j)}) == Lefts(m) + {i};
    assert Rights(m + {(i, j)}) == Rights(m) + {j};
  }

  /** The inner loop: the next marked character, given that there is one. */
  method NextMark(b: string, bMatches: array<bool>, ghost right: set<nat>, from: nat) returns (k: nat)
    requires bMatches.Length == |b| && Marks(bMatches, right)
    requires from <= |b| && Selected(b, right, from) != Selected(b, right, |b|)
    ensures k < |b| && bMatches[k] && Selected(b, right, k) == Selected(b, right, from)
  {
    k := from;
    while !bMatches[k]
      invariant k < |b|
      invariant Selected(b, right, k) == Selected(b, right, from)
      decreases |b| - k
    {
      k := k + 1;
    }
  }

  /** The transposition scan. The inner loop always stops at a mark: `bMatches` has as many
      marks as `aMatches`, and one was seen for each mark of `aMatches` before `i`. */
  method CountTranspositions(a: string, b: string, aMatches: array<bool>, bMatches: array<bool>,
                             ghost left: set<nat>, ghost right: set<nat>)
    returns (transpositions: nat)
    requires aMatches.Length == |a| && bMatches.Length == |b|
    requires forall i | 0 <= i < |a| :: aMatches[i] <==> i in left
    requires forall j | 0 <= j < |b| :: bMatches[j] <==> j in right
    requires |Selected(a, left, |a|)| == |Selected(b, right, |b|)|
    ensures transpositions == Mismatches(Selected(a, left, |a|), Selected(b, right, |b|))
  {
    transpositions := 0;
    var k := 0;
    for i := 0 to |a|
      invariant ScanState(a, b, left, right, i, k, transpositions)
    {
      if !aMatches[i] { continue; }
      OneMoreMark(a, b, left, right, i, k, transpositions);
      ghost var from := k;
      k := NextMark(b, bMatches, right, k);
      ScanTurn(a, b, left, right, i, from, k, transpositions);
      if a[i] != b[k] {
        transpositions := transpositions + 1;
      }
      k := k + 1;
    }
    SelectedGrows(b, right, k, |b|);
    assert Selected(b, right, k) == Selected(b, right, |b|);
  }

  /** Before position `i` of `a` and `k` of `b`, the marks pair up, and so many pairs differ. */
  ghost predicate ScanState(a: string, b: string, left: set<nat>, right: set<nat>, i: nat, k: nat, t: nat) {
    && i <= |a| && k <= |b| && |Selected(a, left, i)| == |Selected(b, right, k)|
    && t == Mismatches(Selected(a, left, i), Selected(b, right, k))
  }

  lemma OneMoreMark(a: string, b: string, left: set<nat>, right: set<nat>, i: nat, k: nat, t: nat)
    requires ScanState(a, b, left, right, i, k, t) && i < |a| && i in left
    requires |Selected(a, left, |a|)| == |Selected(b, right, |b|)|
    ensures Selected(b, right, k) != Selected(b, right, |b|)
  {
    SelectedGrows(a, left, i + 1, |a|);
  }

  lemma ScanTurn(a: string, b: string, left: set<nat>, right: set<nat>, i: nat, k: nat, k': nat, t: nat)
    requires ScanState(a, b, left, right, i, k, t) && i < |a| && i in left
    requires k' < |b| && k' in right && Selected(b, right, k') == Selected(b, right, k)
    ensures ScanState(a, b, left, right, i + 1, k' + 1, if a[i] != b[k'] then t + 1 else t)
  {
    MismatchesSnoc(Selected(a, left, i), Selected(b, right, k), a[i], b[k']);
  }

  lemma MismatchesSnoc(x: string, y: string, c: char, d: char)
    requires |x| == |y|
    ensures Mismatches(x + [c], y + [d]) == Mismatches(x, y) + (if c != d then 1 else 0)
  {
    assert (x + [c])[..|x|] == x && (y + [d])[..|y|] == y;
  }

  lemma {:induction false} SelectedGrows(s: string, marks: set<nat>, n: nat, n': nat)
    requires n <= n' <= |s|
    ensures Selected(s, marks, n) <= Selected(s, marks, n')
    decreases n'
  {
    if n < n' { SelectedGrows(s, marks, n, n' - 1); }
  }

  /** `jaroSimilarity`. */
  method JaroSimilarity(a: string, b: string) returns (score: real)
    ensures score == Jaro(a, b)
    ensures a != b && Matches(a, b) == 0 ==> score == 0.0
    ensures a != b && |a| > 0 && |b| > 0 && Matches(a, b) > 0 ==>
              var m, t := Matches(a, b) as real, Transpositions(a, b) as real;
              3.0 * score == m / |a| as real + m / |b| as real + 1.0 - t / (2.0 * m)
  {
    if a != b && |a| > 0 && |b| > 0 && Matches(a, b) > 0 { JaroPrice(a, b, Matches(a, b), Transpositions(a, b)); }
    if a == b { return 1.0; }
    if |a| == 0 || |b| == 0 { return 0.0; }
    var matchDistance := MatchDistance(a, b);
    var aMatches := new bool[|a|](_ => false);
    var bMatches := new bool[|b|](_ => false);
    var matches := MarkMatches(a, b, matchDistance, aMatches, bMatches);
    if matches == 0 { return 0.0; }
    MatchedLengths(a, b);
    ghost var m := Matched(a, b, matchDistance);
    var transpositions := CountTranspositions(a, b, aMatches, bMatches, Lefts(m), Rights(m));
    return Formula(matches, transpositions, |a|, |b|);
  }

  /** `jaroWinklerSimilarity`. */
  method JaroWinklerSimilarity(a: string, b: string) returns (score: real)
    ensures score == Winkler(a, b)
  {
    var jaro := JaroSimilarity(a, b);
    var prefixLength := PrefixLength(a, b, 4);
    score := Boosted(jaro, prefixLength);
  }

  /** The prefix loop: stops at the first difference, or at `maxPrefix`. */
  method PrefixLength(a: string, b: string, maxPrefix: nat) returns (prefixLength: nat)
    ensures prefixLength == CommonPrefix(a, b, maxPrefix, 0)
  {
    prefixLength := 0;
    var i := 0;
    while i < Min(maxPrefix, Min(|a|, |b|))
      invariant prefixLength == i <= Min(maxPrefix, Min(|a|, |b|))
      invariant a[..i] == b[..i]
      invariant CommonPrefix(a, b, maxPrefix, i) == CommonPrefix(a, b, maxPrefix, 0)
    {
      if a[i] != b[i] { break; }
      assert a[..i + 1] == a[..i] + [a[i]] == b[..i + 1];
      prefixLength := prefixLength + 1;
      i := i + 1;
    }
  }
}
