/** Keyset pagination: pages of rows in key order, each starting after the last key of the page
    before. Rows may come, go and change eligibility between the queries of one sweep.

    A key is a pair in lexicographic order. A cursor that is passed back may be `Exact`, or it may
    have lost precision: then its first part is rounded up to a multiple of a thousand, so that the
    next page starts at or after the true cursor. */
module Keyset {
  import opened Options
  import opened Sets

  datatype Key = Key(major: int, minor: int)

  predicate Before(a: Key, b: Key) {
    a.major < b.major || (a.major == b.major && a.minor < b.minor)
  }

  datatype Cursor = Exact | Rounded

  /** The least multiple of a thousand that is at least `x`. */
  function RoundUp(x: int): (r: int)
    ensures x <= r < x + 1000 && r % 1000 == 0
    ensures x % 1000 == 0 ==> r == x
  {
    if x % 1000 == 0 then x else x + 1000 - x % 1000
  }

  /** Where the page after `c` starts. */
  function Resume(g: Cursor, c: Key): (r: Key)
    ensures r == c || Before(c, r)
  {
    if g.Exact? then c else Key(RoundUp(c.major), c.minor)
  }

  /** The cursor of this key loses nothing. */
  predicate Aligned(g: Cursor, c: Key) { g.Exact? || c.major % 1000 == 0 }

  // ----- sorting --------------------------------------------------------------------------

  ghost predicate IsAscending(s: seq<Key>) {
    forall i, j | 0 <= i < j < |s| :: Before(s[i], s[j])
  }

  function Elements(s: seq<Key>): set<Key> { set x | x in s }

  function Insert(s: seq<Key>, x: Key): seq<Key> {
    if s == [] then [x]
    else if Before(x, s[0]) then [x] + s
    else [s[0]] + Insert(s[1..], x)
  }

  lemma {:induction false} InsertAscending(s: seq<Key>, x: Key)
    requires IsAscending(s) && x !in s
    ensures IsAscending(Insert(s, x)) && Elements(Insert(s, x)) == Elements(s) + {x}
  {
    if s != [] && !Before(x, s[0]) {
      InsertAscending(s[1..], x);
      var r := Insert(s[1..], x);
      forall y | y in r ensures Before(s[0], y) {
        assert y in Elements(r);
        if y != x {
          assert y in s[1..];
          var i :| 0 <= i < |s[1..]| && s[1..][i] == y;
          assert s[i + 1] == y;
        }
      }
      assert Elements([s[0]] + r) == Elements(s) + {x};
    } else {
      assert Elements([x] + s) == Elements(s) + {x};
    }
  }

  /** ORDER BY the key. */
  function SortKeys(s: seq<Key>): seq<Key> {
    if s == [] then [] else Insert(SortKeys(s[1..]), s[0])
  }

  ghost predicate NoRepeats(s: seq<Key>) {
    forall i, j | 0 <= i < j < |s| :: s[i] != s[j]
  }

  lemma {:induction false} SortKeysAscending(s: seq<Key>)
    requires NoRepeats(s)
    ensures IsAscending(SortKeys(s)) && Elements(SortKeys(s)) == Elements(s)
  {
    if s != [] {
      SortKeysAscending(s[1..]);
      forall y | y in s[1..] ensures y != s[0] {
        var i :| 0 <= i < |s[1..]| && s[1..][i] == y;
        assert s[i + 1] == y;
      }
      assert s[0] !in Elements(SortKeys(s[1..]));
      InsertAscending(SortKeys(s[1..]), s[0]);
      assert Elements(s) == Elements(s[1..]) + {s[0]};
    }
  }

  /** The keys of a set, in order. */
  ghost function Ascending(e: set<Key>): (s: seq<Key>)
    ensures IsAscending(s) && Elements(s) == e
    decreases |e|
  {
    if e == {} then []
    else
      var x :| x in e;
      var s := Ascending(e - {x});
      assert x !in Elements(s);
      InsertAscending(s, x);
      Insert(s, x)
  }

  /** There is only one way to put keys in order. */
  lemma {:induction false} AscendingIsUnique(s: seq<Key>, t: seq<Key>)
    requires IsAscending(s) && IsAscending(t) && Elements(s) == Elements(t)
    ensures s == t
  {
    assert t != [] ==> t[0] in Elements(s);
    if s != [] {
      assert s[0] in Elements(t);
      assert t != [] && t[0] in Elements(s);
      SameHead(s, t);
      TailElements(s);
      TailElements(t);
      AscendingIsUnique(s[1..], t[1..]);
      assert s == [s[0]] + s[1..] && t == [t[0]] + t[1..];
    }
  }

  lemma SameHead(s: seq<Key>, t: seq<Key>)
    requires s != [] && t != [] && IsAscending(s) && IsAscending(t) && s[0] in t && t[0] in s
    ensures s[0] == t[0]
  {
    var i :| 0 <= i < |t| && t[i] == s[0];
    var j :| 0 <= j < |s| && s[j] == t[0];
  }

  lemma TailElements(s: seq<Key>)
    requires s != [] && IsAscending(s)
    ensures Elements(s[1..]) == Elements(s) - {s[0]}
  {
    assert s == [s[0]] + s[1..];
    forall y | y in s[1..] ensures y != s[0] {
      var i :| 0 <= i < |s[1..]| && s[1..][i] == y;
      assert s[i + 1] == y;
    }
  }

  // ----- one page -----------------------------------------------------------------------------

  /** An eligible key after the cursor `from`. */
  predicate Beyond(e: set<Key>, from: Option<Key>, x: Key) {
    x in e && (from.Some? ==> Before(from.value, x))
  }

  /** A page is in order, holds eligible rows beyond the cursor, and leaves out only rows beyond
      its last one, and only if it is full. */
  ghost predicate IsPage(e: set<Key>, from: Option<Key>, limit: nat, page: seq<Key>) {
    && IsAscending(page) && |page| <= limit
    && (forall x | x in page :: Beyond(e, from, x))
    && (forall x | Beyond(e, from, x) && x !in page :: |page| == limit && (limit > 0 ==> Before(page[limit - 1], x)))
  }

  function Take(s: seq<Key>, n: nat): seq<Key> {
    if |s| <= n then s else s[..n]
  }

  /** Sorting all that is beyond the cursor and taking the first `limit` gives a page. */
  lemma TakeIsPage(e: set<Key>, from: Option<Key>, limit: nat, s: seq<Key>)
    requires IsAscending(s) && forall x :: x in s <==> Beyond(e, from, x)
    ensures IsPage(e, from, limit, Take(s, limit))
  {
    var page := Take(s, limit);
    forall x | Beyond(e, from, x) && x !in page ensures |page| == limit && (limit > 0 ==> Before(page[limit - 1], x)) {
      var i :| 0 <= i < |s| && s[i] == x;
      assert forall k | 0 <= k < |page| :: page[k] == s[k] && s[k] != x;
    }
  }

  /** The page of a query. */
  ghost function Page(e: set<Key>, from: Option<Key>, limit: nat): (page: seq<Key>)
    ensures IsPage(e, from, limit, page)
  {
    PageExists(e, from, limit);
    var page :| IsPage(e, from, limit, page);
    page
  }

  lemma PageExists(e: set<Key>, from: Option<Key>, limit: nat)
    ensures exists page :: IsPage(e, from, limit, page)
  {
    var s := Ascending(set x | x in e && Beyond(e, from, x));
    forall x ensures x in s <==> Beyond(e, from, x) { assert x in s <==> x in Elements(s); }
    TakeIsPage(e, from, limit, s);
  }

  /** It is the only one. */
  lemma {:induction false} PageIsUnique(e: set<Key>, from: Option<Key>, limit: nat, p: seq<Key>, q: seq<Key>)
    requires IsPage(e, from, limit, p) && IsPage(e, from, limit, q)
    ensures p == q
  {
    PageWithin(e, from, limit, p, q);
    PageWithin(e, from, limit, q, p);
    assert Elements(p) == Elements(q);
    AscendingIsUnique(p, q);
  }

  lemma PageWithin(e: set<Key>, from: Option<Key>, limit: nat, p: seq<Key>, q: seq<Key>)
    requires IsPage(e, from, limit, p) && IsPage(e, from, limit, q)
    ensures Elements(p) <= Elements(q)
  {
    forall x | x in p ensures x in q {
      if x !in q {
        // q is full, all of it before x; so all of q is in p, and x besides: too many.
        forall y | y in q ensures y in p && Before(y, x) {
          var i :| 0 <= i < |q| && q[i] == y;
          assert i < limit - 1 ==> Before(y, q[limit - 1]);
          if y !in p { NotBoth(p, limit, x, y); }
        }
        Counted(q);
        Counted(p);
        assert Elements(q) + {x} <= Elements(p);
        SubsetSize(Elements(q) + {x}, Elements(p));
        assert false;
      }
    }
  }

  lemma NotBoth(p: seq<Key>, limit: nat, x: Key, y: Key)
    requires IsAscending(p) && |p| == limit > 0 && x in p && Before(y, x)
    ensures !Before(p[limit - 1], y)
  {
    var i :| 0 <= i < |p| && p[i] == x;
  }

  lemma {:induction false} Counted(s: seq<Key>)
    requires IsAscending(s)
    ensures |Elements(s)| == |s|
  {
    if s != [] {
      TailElements(s);
      assert s[0] in Elements(s);
      Counted(s[1..]);
    }
  }

  // ----- a sweep -------------------------------------------------------------------------------

  /** Whether the sweep goes on after this page. */
  predicate GoesOn(page: seq<Key>, limit: nat, stopShort: bool) {
    page != [] && (stopShort ==> |page| >= limit)
  }

  /** The keys visited by a sweep from cursor `from` on, and whether it came to an end. `tables[i]` is
      what is eligible at the time of query `i`. The sweep ends on an empty page, and on a short one if
      `stopShort`. */
  ghost function Sweep(tables: seq<set<Key>>, from: Option<Key>, g: Cursor, limit: nat, stopShort: bool)
    : (seq<Key>, bool)
    requires limit > 0
    decreases |tables|
  {
    if tables == [] then ([], false)
    else
      var page := Page(tables[0], from, limit);
      if !GoesOn(page, limit, stopShort) then (page, true)
      else
        var (rest, done) := Sweep(tables[1..], Some(Resume(g, page[|page| - 1])), g, limit, stopShort);
        (page + rest, done)
  }

  lemma SweepUnrolled(tables: seq<set<Key>>, from: Option<Key>, g: Cursor, limit: nat, stopShort: bool)
    requires limit > 0 && tables != [] && GoesOn(Page(tables[0], from, limit), limit, stopShort)
    ensures var page := Page(tables[0], from, limit);
            var rest := Sweep(tables[1..], Some(Resume(g, page[|page| - 1])), g, limit, stopShort);
            Sweep(tables, from, g, limit, stopShort) == (page + rest.0, rest.1)
  {
  }

  /** What one query contributes, `i` queries into the sweep. */
  lemma SweepTurn(tables: seq<set<Key>>, i: nat, from: Option<Key>, g: Cursor, limit: nat, stopShort: bool,
                  page: seq<Key>)
    requires limit > 0 && i < |tables| && page == Page(tables[i], from, limit)
    ensures GoesOn(page, limit, stopShort) ==>
              var rest := Sweep(tables[i + 1..], Some(Resume(g, page[|page| - 1])), g, limit, stopShort);
              Sweep(tables[i..], from, g, limit, stopShort) == (page + rest.0, rest.1)
    ensures !GoesOn(page, limit, stopShort) ==> Sweep(tables[i..], from, g, limit, stopShort) == (page, true)
  {
    assert tables[i..][0] == tables[i] && tables[i..][1..] == tables[i + 1..];
    if GoesOn(page, limit, stopShort) { SweepUnrolled(tables[i..], from, g, limit, stopShort); }
  }

  /** Whatever happens to the table, the sweep visits rows in order, so none twice. */
  lemma {:induction false} SweepInOrder(tables: seq<set<Key>>, from: Option<Key>, g: Cursor, limit: nat,
                                        stopShort: bool)
    requires limit > 0
    ensures IsAscending(Sweep(tables, from, g, limit, stopShort).0)
    ensures forall x | x in Sweep(tables, from, g, limit, stopShort).0 && from.Some? :: Before(from.value, x)
    decreases |tables|
  {
    if tables != [] {
      var page := Page(tables[0], from, limit);
      if GoesOn(page, limit, stopShort) {
        var next := Resume(g, page[|page| - 1]);
        assert page[|page| - 1] in page;
        SweepInOrder(tables[1..], Some(next), g, limit, stopShort);
        Concatenated(page, Sweep(tables[1..], Some(next), g, limit, stopShort).0, next);
      }
    }
  }

  lemma Concatenated(s: seq<Key>, t: seq<Key>, c: Key)
    requires IsAscending(s) && IsAscending(t) && s != []
    requires s[|s| - 1] == c || Before(s[|s| - 1], c)
    requires forall x | x in t :: Before(c, x)
    ensures IsAscending(s + t)
  {
    forall i, j | 0 <= i < j < |s + t| ensures Before((s + t)[i], (s + t)[j]) {
      if i < |s| <= j {
        assert t[j - |s|] in t;
        assert i < |s| - 1 ==> Before(s[i], s[|s| - 1]);
      }
    }
  }

  /** The rounded cursor does not skip `x`: it is beyond the cursor of every row before it. */
  ghost predicate NotSkipped(tables: seq<set<Key>>, g: Cursor, x: Key)
  {
    forall i, c | 0 <= i < |tables| && c in tables[i] && Before(c, x) :: Before(Resume(g, c), x)
  }

  /** A finished sweep has visited every row that was eligible throughout and is not skipped. */
  lemma {:induction false} SweepFinds(tables: seq<set<Key>>, from: Option<Key>, g: Cursor, limit: nat,
                                      stopShort: bool, x: Key)
    requires limit > 0 && NotSkipped(tables, g, x)
    requires Sweep(tables, from, g, limit, stopShort).1
    requires forall i | 0 <= i < |tables| :: x in tables[i]
    requires from.Some? ==> Before(from.value, x)
    ensures x in Sweep(tables, from, g, limit, stopShort).0
    decreases |tables|
  {
    var page := Page(tables[0], from, limit);
    assert Beyond(tables[0], from, x);
    if x !in page {
      var last := page[|page| - 1];
      assert last in page && last in tables[0];
      SweepFinds(tables[1..], Some(Resume(g, last)), g, limit, stopShort, x);
    }
  }

  /** With an exact cursor nothing is skipped, so that a finished sweep visits every row that was
      eligible throughout, once, and in order. */
  lemma ExactSweep(tables: seq<set<Key>>, limit: nat, stopShort: bool, g: Cursor)
    requires limit > 0 && Sweep(tables, None, g, limit, stopShort).1
    requires forall i, c | 0 <= i < |tables| && c in tables[i] :: Aligned(g, c)
    ensures var visited := Sweep(tables, None, g, limit, stopShort).0;
            && IsAscending(visited)
            && (forall x | (forall i | 0 <= i < |tables| :: x in tables[i]) :: x in visited)
  {
    SweepInOrder(tables, None, g, limit, stopShort);
    forall x | (forall i | 0 <= i < |tables| :: x in tables[i])
      ensures x in Sweep(tables, None, g, limit, stopShort).0
    {
      assert forall c | Aligned(g, c) :: Resume(g, c) == c;
      assert NotSkipped(tables, g, x);
      SweepFinds(tables, None, g, limit, stopShort, x);
    }
  }

  /** Every visited row was eligible at some query. */
  lemma {:induction false} VisitedWasEligible(tables: seq<set<Key>>, from: Option<Key>, g: Cursor, limit: nat,
                                              stopShort: bool, x: Key)
    requires limit > 0 && x in Sweep(tables, from, g, limit, stopShort).0
    ensures exists i :: 0 <= i < |tables| && x in tables[i]
    decreases |tables|
  {
    var page := Page(tables[0], from, limit);
    if x in page {
      assert x in tables[0];
    } else {
      VisitedWasEligible(tables[1..], Some(Resume(g, page[|page| - 1])), g, limit, stopShort, x);
      var i :| 0 <= i < |tables[1..]| && x in tables[1..][i];
      assert x in tables[i + 1];
    }
  }

  // ----- a table that does not change --------------------------------------------------------------

  function Still<T>(e: T, n: nat): (tables: seq<T>)
    ensures |tables| == n && forall i | 0 <= i < n :: tables[i] == e
  {
    seq(n, _ => e)
  }

  function Ahead(e: set<Key>, from: Option<Key>): set<Key> {
    set x | x in e && Beyond(e, from, x)
  }

  /** A sweep of such a table ends after at most one query more than it has rows. */
  lemma {:induction false} StillSweepEnds(e: set<Key>, from: Option<Key>, g: Cursor, limit: nat,
                                          stopShort: bool, n: nat)
    requires limit > 0 && |Ahead(e, from)| < n
    ensures Sweep(Still(e, n), from, g, limit, stopShort).1
    decreases n
  {
    var page := Page(e, from, limit);
    assert Still(e, n)[1..] == Still(e, n - 1);
    if GoesOn(page, limit, stopShort) {
      var last := page[|page| - 1];
      assert last in page && last in Ahead(e, from);
      Shrinks(e, from, last, Resume(g, last));
      StillSweepEnds(e, Some(Resume(g, last)), g, limit, stopShort, n - 1);
    }
  }

  lemma Shrinks(e: set<Key>, from: Option<Key>, last: Key, next: Key)
    requires last in Ahead(e, from) && (next == last || Before(last, next))
    ensures |Ahead(e, Some(next))| < |Ahead(e, from)|
  {
    var s, t := Ahead(e, from), Ahead(e, Some(next));
    assert t <= s - {last};
    assert s - {last} == t + (s - {last} - t);
  }

  /** With an exact cursor, the sweep of a table that does not change is its sorted contents. */
  lemma StillSweepIsSortedFilter(e: set<Key>, g: Cursor, limit: nat, stopShort: bool)
    requires limit > 0 && forall c | c in e :: Aligned(g, c)
    ensures Sweep(Still(e, |e| + 1), None, g, limit, stopShort) == (Ascending(e), true)
  {
    var tables := Still(e, |e| + 1);
    assert Ahead(e, None) == e;
    StillSweepEnds(e, None, g, limit, stopShort, |e| + 1);
    ExactSweep(tables, limit, stopShort, g);
    var visited := Sweep(tables, None, g, limit, stopShort).0;
    forall x | x in visited ensures x in e { VisitedWasEligible(tables, None, g, limit, stopShort, x); }
    forall x | x in e ensures x in visited { }
    assert Elements(visited) == e;
    AscendingIsUnique(visited, Ascending(e));
  }

  /** No two rows are so close that the rounded cursor of the first is not before the second. */
  ghost predicate WellSpaced(e: set<Key>, g: Cursor)
  {
    forall c, x | c in e && x in e && Before(c, x) :: Before(Resume(g, c), x)
  }

  /** Rows that a rounded cursor has skipped never turn up later. */
  lemma {:induction false} SkippedForGood(tables: seq<set<Key>>, c: Key, g: Cursor, limit: nat, stopShort: bool, x: Key)
    requires limit > 0 && !Before(c, x)
    ensures x !in Sweep(tables, Some(c), g, limit, stopShort).0
  {
    SweepInOrder(tables, Some(c), g, limit, stopShort);
  }

  /** With the page size that ends the first page at `c`, every row that `c`'s rounded cursor skips
      is lost. */
  lemma FirstPageEndingAt(e: set<Key>, c: Key, x: Key) returns (limit: nat)
    requires c in e && x in e && Before(c, x)
    ensures limit > 0
    ensures var page := Page(e, None, limit);
            |page| == limit && page[limit - 1] == c && x !in page
  {
    var s := Ascending(e);
    assert c in Elements(s);
    var i :| 0 <= i < |s| && s[i] == c;
    limit := i + 1;
    UpTo(s, i, x);
    forall y ensures y in s <==> Beyond(e, None, y) { assert y in s <==> y in Elements(s); }
    TakeIsPage(e, None, limit, s);
    PageIsUnique(e, None, limit, Page(e, None, limit), Take(s, limit));
  }

  lemma UpTo(s: seq<Key>, i: nat, x: Key)
    requires IsAscending(s) && i < |s| && Before(s[i], x)
    ensures Take(s, i + 1) == s[..i + 1] && x !in s[..i + 1]
  {
    assert forall k | 0 <= k < i :: Before(s[k], s[i]);
  }

  /** The sweep of an unchanging table visits all of it. */
  ghost predicate VisitsAll(e: set<Key>, g: Cursor, limit: nat, stopShort: bool)
    requires limit > 0
  {
    forall x | x in e :: x in Sweep(Still(e, |e| + 1), None, g, limit, stopShort).0
  }

  lemma WellSpacedVisitsAll(e: set<Key>, g: Cursor, limit: nat, stopShort: bool)
    requires limit > 0 && WellSpaced(e, g)
    ensures VisitsAll(e, g, limit, stopShort)
  {
    assert Ahead(e, None) == e;
    StillSweepEnds(e, None, g, limit, stopShort, |e| + 1);
    forall x | x in e ensures x in Sweep(Still(e, |e| + 1), None, g, limit, stopShort).0 {
      SweepFinds(Still(e, |e| + 1), None, g, limit, stopShort, x);
    }
  }

  lemma SkippedIsLost(e: set<Key>, g: Cursor, stopShort: bool, c: Key, x: Key) returns (limit: nat)
    requires c in e && x in e && Before(c, x) && !Before(Resume(g, c), x)
    ensures limit > 0 && !VisitsAll(e, g, limit, stopShort)
  {
    limit := FirstPageEndingAt(e, c, x);
    var tables := Still(e, |e| + 1);
    SkippedForGood(tables[1..], Resume(g, c), g, limit, stopShort, x);
    assert x !in Sweep(tables, None, g, limit, stopShort).0;
  }

  /** Every page size visits every row of an unchanging table if and only if it is well spaced. */
  lemma CompleteIff(e: set<Key>, g: Cursor, stopShort: bool)
    ensures (forall limit: nat | limit > 0 :: VisitsAll(e, g, limit, stopShort)) <==> WellSpaced(e, g)
  {
    if WellSpaced(e, g) {
      forall limit: nat | limit > 0 ensures VisitsAll(e, g, limit, stopShort) {
        WellSpacedVisitsAll(e, g, limit, stopShort);
      }
    } else {
      var c, x :| c in e && x in e && Before(c, x) && !Before(Resume(g, c), x);
      var limit := SkippedIsLost(e, g, stopShort, c, x);
    }
  }
}
