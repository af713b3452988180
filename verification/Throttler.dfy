/** `RedisThrottlerStorage`: a fixed-window hit counter per key. The first hit of a window sets
    the expiry, and a key lives while the clock is before it. */
module Throttler {
  import opened Options
  import opened Sets

  datatype Counter = Counter(count: nat, expiresAt: nat)

  datatype Record = Record(totalHits: nat, timeToExpire: nat, isBlocked: bool, timeToBlockExpire: nat)

  predicate Live(c: Option<Counter>, now: nat) {
    c.Some? && now < c.value.expiresAt
  }

  /** The script: INCR, and PEXPIRE on the first hit. */
  function Incremented(c: Option<Counter>, now: nat, ttl: nat): Counter {
    if Live(c, now) then Counter(c.value.count + 1, c.value.expiresAt) else Counter(1, now + ttl)
  }

  /** Milliseconds to whole seconds, rounded up. */
  function CeilSeconds(ms: nat): nat { (ms + 999) / 1000 }

  class RedisThrottlerStorage {
    var counters: map<string, Counter>

    function Get(key: string): Option<Counter>
      reads this
    {
      if key in counters then Some(counters[key]) else None
    }

    constructor ()
      ensures counters == map[]
    {
      counters := map[];
    }

    /** Other keys are untouched, and a blocked caller is told to wait until the window ends, to
        the second. */
    method Increment(now: nat, key: string, ttl: nat, limit: int) returns (r: Record)
      modifies this
      ensures counters == old(counters)[key := Incremented(old(Get(key)), now, ttl)]
      ensures counters.Keys == old(counters).Keys + {key}
      ensures if key in old(counters) && now < old(counters)[key].expiresAt
              then counters[key] == Counter(old(counters)[key].count + 1, old(counters)[key].expiresAt)
              else counters[key] == Counter(1, now + ttl)
      ensures r.totalHits == counters[key].count
      ensures r.isBlocked <==> r.totalHits > limit
      ensures now <= counters[key].expiresAt <= now + r.timeToExpire * 1000 < counters[key].expiresAt + 1000
      ensures r.timeToBlockExpire == if r.isBlocked then r.timeToExpire else 0
    {
      var totalHits, expiresAt := 1, now + ttl;
      if key in counters && now < counters[key].expiresAt {
        totalHits, expiresAt := counters[key].count + 1, counters[key].expiresAt;
      }
      counters := counters[key := Counter(totalHits, expiresAt)];
      var timeToExpire := CeilSeconds(expiresAt - now);
      var isBlocked := totalHits > limit;
      r := Record(totalHits, timeToExpire, isBlocked, if isBlocked then timeToExpire else 0);
    }
  }

  // ----- traces of one key ----------------------------------------------------------------

  /** A hit with the limit in force for it, which the degraded-PSP guard may have swapped. */
  datatype Hit = Hit(at: nat, limit: int)

  ghost predicate InOrder(hs: seq<Hit>) {
    forall i, j | 0 <= i < j < |hs| :: hs[i].at <= hs[j].at
  }

  /** The counter after the first `n` hits. */
  function After(hs: seq<Hit>, ttl: nat, n: nat): Option<Counter>
    requires n <= |hs|
  {
    if n == 0 then None else Some(Incremented(After(hs, ttl, n - 1), hs[n - 1].at, ttl))
  }

  /** Hit `i` is let through. */
  predicate Admitted(hs: seq<Hit>, ttl: nat, i: nat)
    requires i < |hs|
  {
    After(hs, ttl, i + 1).value.count <= hs[i].limit
  }

  /** The hit that opened the window of hit `i`: itself, unless the previous window is still open. */
  function Opener(hs: seq<Hit>, ttl: nat, i: nat): (o: nat)
    requires i < |hs|
    ensures o <= i
  {
    if i == 0 then 0
    else
      var o := Opener(hs, ttl, i - 1);
      if hs[i].at < hs[o].at + ttl then o else i
  }

  /** The window of a hit ends one `ttl` after its opener, however many hits follow, and the count
      is the hit's position in it. */
  lemma {:induction false} CounterOfWindow(hs: seq<Hit>, ttl: nat, i: nat)
    requires i < |hs|
    ensures var o := Opener(hs, ttl, i);
            After(hs, ttl, i + 1) == Some(Counter(i - o + 1, hs[o].at + ttl))
  {
    if i > 0 { CounterOfWindow(hs, ttl, i - 1); }
  }

  /** With one limit, the hits of a window that are let through are exactly its first `limit`. */
  lemma AdmittedIff(hs: seq<Hit>, ttl: nat, i: nat)
    requires i < |hs|
    ensures Admitted(hs, ttl, i) <==> i - Opener(hs, ttl, i) < hs[i].limit
  {
    CounterOfWindow(hs, ttl, i);
  }

  // ----- bounds -----------------------------------------------------------------------------

  ghost function AdmittedOf(hs: seq<Hit>, ttl: nat, o: nat): set<nat> {
    set i: nat | i < |hs| && Opener(hs, ttl, i) == o && Admitted(hs, ttl, i)
  }

  lemma {:induction false} SizeOfRange(s: set<nat>, lo: nat, n: nat)
    requires forall i | i in s :: lo <= i < lo + n
    ensures |s| <= n
  {
    if n == 0 {
      assert s == {};
    } else {
      var top: nat := lo + n - 1;
      SizeOfRange(s - {top}, lo, n - 1);
      assert |s| <= |s - {top}| + 1;
    }
  }

  /** A window lets through at most the largest limit used in it. */
  lemma WindowBound(hs: seq<Hit>, ttl: nat, o: nat, limit: nat)
    requires forall i: nat | i < |hs| && Opener(hs, ttl, i) == o :: hs[i].limit <= limit
    ensures |AdmittedOf(hs, ttl, o)| <= limit
  {
    forall i | i in AdmittedOf(hs, ttl, o) ensures o <= i < o + limit { AdmittedIff(hs, ttl, i); }
    SizeOfRange(AdmittedOf(hs, ttl, o), o, limit);
  }

  /** Windows do not overlap: a later hit is in the same window or in one opened after this hit. */
  lemma {:induction false} LaterOpener(hs: seq<Hit>, ttl: nat, i: nat, j: nat)
    requires InOrder(hs) && i < j < |hs|
    ensures var o, p := Opener(hs, ttl, i), Opener(hs, ttl, j);
            if hs[j].at < hs[o].at + ttl then p == o else p > i
    decreases j
  {
    if i < j - 1 { LaterOpener(hs, ttl, i, j - 1); }
  }

  /** The hits let through at times in [from, from + ttl). */
  ghost function AdmittedDuring(hs: seq<Hit>, ttl: nat, from: nat): set<nat> {
    set i: nat | i < |hs| && from <= hs[i].at < from + ttl && Admitted(hs, ttl, i)
  }

  /** Any stretch of one `ttl`, wherever it starts, lets through at most 2*limit - 1 hits: it meets
      at most two windows, and if it meets two then the first was opened before it. */
  lemma IntervalBound(hs: seq<Hit>, ttl: nat, from: nat, limit: nat)
    requires InOrder(hs) && limit > 0
    requires forall i | 0 <= i < |hs| :: hs[i].limit <= limit
    ensures |AdmittedDuring(hs, ttl, from)| <= 2 * limit - 1
  {
    var s := AdmittedDuring(hs, ttl, from);
    if f: nat :| f < |hs| && IsFirstSince(hs, from, f) {
      var o := Opener(hs, ttl, f);
      if o == f {
        forall i | i in s ensures i in AdmittedOf(hs, ttl, o) {
          if i != f { LaterOpener(hs, ttl, f, i); }
        }
        WindowBound(hs, ttl, o, limit);
        SubsetSize(s, AdmittedOf(hs, ttl, o));
      } else {
        TwoWindows(hs, ttl, from, limit, f);
      }
    } else {
      NoneSince(hs, from);
      assert s == {};
    }
  }

  /** `f` is the first hit at or after `from`. */
  ghost predicate IsFirstSince(hs: seq<Hit>, from: nat, f: nat) {
    f < |hs| && from <= hs[f].at && forall i | 0 <= i < f :: hs[i].at < from
  }

  lemma {:induction false} NoneSince(hs: seq<Hit>, from: nat)
    requires forall f: nat | f < |hs| :: !IsFirstSince(hs, from, f)
    ensures forall i | 0 <= i < |hs| :: hs[i].at < from
  {
    var n := 0;
    while n < |hs|
      invariant n <= |hs| && forall i | 0 <= i < n :: hs[i].at < from
    {
      assert !IsFirstSince(hs, from, n);
      n := n + 1;
    }
  }

  lemma {:induction false} Least(s: set<nat>) returns (g: nat)
    requires s != {}
    ensures g in s && forall i | i in s :: g <= i
  {
    var x :| x in s;
    var rest := s - {x};
    assert forall i | i in s :: i == x || i in rest;
    g := x;
    if rest != {} {
      g := Least(rest);
      if x < g { g := x; }
    }
  }

  /** Of a window opened before the stretch, at most limit - 1 hits are left for it. */
  lemma RestOfWindow(hs: seq<Hit>, ttl: nat, o: nat, limit: nat, s: set<nat>)
    requires limit > 0 && forall i | 0 <= i < |hs| :: hs[i].limit <= limit
    requires s <= AdmittedOf(hs, ttl, o) - {o}
    ensures |s| <= limit - 1
  {
    forall i | i in s ensures o + 1 <= i < o + 1 + (limit - 1) { AdmittedIff(hs, ttl, i); }
    SizeOfRange(s, o + 1, limit - 1);
  }

  /** Hits of the stretch that are all in windows opened within it are in one window. */
  lemma NextWindow(hs: seq<Hit>, ttl: nat, from: nat, limit: nat, s: set<nat>)
    requires InOrder(hs) && forall i | 0 <= i < |hs| :: hs[i].limit <= limit
    requires s <= AdmittedDuring(hs, ttl, from)
    requires forall i | i in s :: from <= hs[Opener(hs, ttl, i)].at
    ensures |s| <= limit
  {
    if s != {} {
      var g := Least(s);
      var p := Opener(hs, ttl, g);
      forall i | i in s ensures i in AdmittedOf(hs, ttl, p) {
        if i != g { LaterOpener(hs, ttl, g, i); }
      }
      WindowBound(hs, ttl, p, limit);
      SubsetSize(s, AdmittedOf(hs, ttl, p));
    }
  }

  /** A hit of the stretch in another window than its first one: that window was opened within it. */
  lemma OpenedInside(hs: seq<Hit>, ttl: nat, from: nat, f: nat, i: nat)
    requires InOrder(hs) && IsFirstSince(hs, from, f) && i < |hs| && from <= hs[i].at
    requires Opener(hs, ttl, i) != Opener(hs, ttl, f)
    ensures from <= hs[Opener(hs, ttl, i)].at
  {
    LaterOpener(hs, ttl, f, i);
  }

  lemma RestOpenedInside(hs: seq<Hit>, ttl: nat, from: nat, f: nat, rest: set<nat>)
    requires InOrder(hs) && IsFirstSince(hs, from, f)
    requires rest == AdmittedDuring(hs, ttl, from) - AdmittedOf(hs, ttl, Opener(hs, ttl, f))
    ensures forall i | i in rest :: i < |hs| && from <= hs[Opener(hs, ttl, i)].at
  {
    forall i | i in rest ensures i < |hs| && from <= hs[Opener(hs, ttl, i)].at {
      assert i in AdmittedDuring(hs, ttl, from);
      OpenedInside(hs, ttl, from, f, i);
    }
  }

  lemma SplitSize(s: set<nat>, t: set<nat>)
    ensures |s| == |s * t| + |s - t|
  {
    assert s == s * t + (s - t);
  }

  /** The stretch starts inside a window opened before it. */
  lemma TwoWindows(hs: seq<Hit>, ttl: nat, from: nat, limit: nat, f: nat)
    requires InOrder(hs) && limit > 0 && IsFirstSince(hs, from, f) && Opener(hs, ttl, f) < f
    requires forall i | 0 <= i < |hs| :: hs[i].limit <= limit
    ensures |AdmittedDuring(hs, ttl, from)| <= 2 * limit - 1
  {
    var o := Opener(hs, ttl, f);
    var s, window := AdmittedDuring(hs, ttl, from), AdmittedOf(hs, ttl, o);
    RestOpenedInside(hs, ttl, from, f, s - window);
    NextWindow(hs, ttl, from, limit, s - window);
    RestOfWindow(hs, ttl, o, limit, s * window);
    SplitSize(s, window);
  }

  /** The bound is reached, for every limit and every ttl of at least two milliseconds: one hit
      opens a window, the rest of its allowance comes at its end, and the next window fills at once. */
  lemma IntervalBoundIsReached(limit: nat, ttl: nat) returns (hs: seq<Hit>)
    requires limit > 0 && ttl >= 2
    ensures InOrder(hs) && forall i | 0 <= i < |hs| :: hs[i].limit == limit
    ensures |AdmittedDuring(hs, ttl, ttl - 1)| == 2 * limit - 1
  {
    hs := seq(2 * limit, i => Hit(if i == 0 then 0 else if i < limit then ttl - 1 else ttl, limit));
    forall i: nat | i < 2 * limit ensures Admitted(hs, ttl, i) { BurstAdmits(hs, limit, ttl, i); }
    var s := AdmittedDuring(hs, ttl, ttl - 1);
    assert forall i | i in s && i == 0 :: ttl - 1 <= hs[0].at;
    forall i: nat ensures i in s <==> 1 <= i < 2 * limit {
      if i < |hs| { assert Admitted(hs, ttl, i); }
    }
    RangeSize(s, 1, 2 * limit);
  }

  lemma {:induction false} RangeSize(s: set<nat>, lo: nat, hi: nat)
    requires lo <= hi
    requires forall i: nat :: i in s <==> lo <= i < hi
    ensures |s| == hi - lo
    decreases hi - lo
  {
    if lo == hi {
      assert s == {};
    } else {
      RangeSize(s - {lo}, lo + 1, hi);
    }
  }

  lemma {:induction false} BurstAdmits(hs: seq<Hit>, limit: nat, ttl: nat, i: nat)
    requires limit > 0 && ttl >= 2 && i < |hs| == 2 * limit
    requires forall k | 0 <= k < |hs| :: hs[k] == Hit(if k == 0 then 0 else if k < limit then ttl - 1 else ttl, limit)
    ensures Admitted(hs, ttl, i)
    ensures Opener(hs, ttl, i) == if i < limit then 0 else limit
  {
    if i > 0 { BurstAdmits(hs, limit, ttl, i - 1); }
    AdmittedIff(hs, ttl, i);
  }

  /** With one limit, a key that is blocked stays blocked for every later hit of the window, and
      the first hit at or after the end of the window is let through. */
  lemma UnblocksAtWindowEnd(hs: seq<Hit>, ttl: nat, i: nat, j: nat, limit: int)
    requires InOrder(hs) && i < j < |hs| && limit >= 1
    requires forall k | 0 <= k < |hs| :: hs[k].limit == limit
    requires !Admitted(hs, ttl, i)
    ensures var end := hs[Opener(hs, ttl, i)].at + ttl;
            && (hs[j].at < end ==> !Admitted(hs, ttl, j))
            && (hs[j].at >= end && hs[j - 1].at < end ==> Admitted(hs, ttl, j))
  {
    LaterOpener(hs, ttl, i, j);
    AdmittedIff(hs, ttl, i);
    AdmittedIff(hs, ttl, j);
    if i < j - 1 { LaterOpener(hs, ttl, i, j - 1); }
  }
}
