/** The batch finders of `MerchantService`, and the sweep loop around them. */
module MerchantBatches {
  import opened Keyset
  import opened Options

  /** A merchant row, as far as the finders look at it. The id is a UUID, in its own order. */
  datatype Merchant = Merchant(id: int, isActive: bool, riskTierAutoManaged: bool,
                               chargebackMonitoringAutoManaged: bool, sanctionsHit: bool, country: Option<string>)

  /** The five finders, by what they look for. */
  datatype Finder =
    | ActiveAutoManaged
    | ActiveChargebackMonitored
    | ActiveNotHit
    | Active
    | ActiveIn(country: string)

  predicate Wants(f: Finder, m: Merchant) {
    m.isActive &&
    match f
    case ActiveAutoManaged => m.riskTierAutoManaged
    case ActiveChargebackMonitored => m.chargebackMonitoringAutoManaged
    case ActiveNotHit => !m.sanctionsHit
    case Active => true
    case ActiveIn(country) => m.country == Some(country)
  }

  function KeyOf(m: Merchant): Key { Key(0, m.id) }

  ghost predicate UniqueIds(rows: seq<Merchant>) {
    forall i, j | 0 <= i < j < |rows| :: rows[i].id != rows[j].id
  }

  /** The keys of the eligible rows. */
  ghost function Eligible(rows: seq<Merchant>, f: Finder): set<Key> {
    set m | m in rows && Wants(f, m) :: KeyOf(m)
  }

  /** WHERE f AND id > afterId, in table order. */
  function Selected(rows: seq<Merchant>, f: Finder, afterId: Option<int>): seq<Key> {
    if rows == [] then []
    else if Wants(f, rows[0]) && (afterId.Some? ==> rows[0].id > afterId.value)
    then [KeyOf(rows[0])] + Selected(rows[1..], f, afterId)
    else Selected(rows[1..], f, afterId)
  }

  /** find*Batch: ... ORDER BY id LIMIT limit. */
  function FindBatch(rows: seq<Merchant>, f: Finder, afterId: Option<int>, limit: nat): seq<Key> {
    Take(SortKeys(Selected(rows, f, afterId)), limit)
  }

  function FromId(afterId: Option<int>): Option<Key> {
    if afterId.None? then None else Some(Key(0, afterId.value))
  }

  lemma {:induction false} SelectedIff(rows: seq<Merchant>, f: Finder, afterId: Option<int>, x: Key)
    ensures x in Selected(rows, f, afterId) <==> Beyond(Eligible(rows, f), FromId(afterId), x)
  {
    if rows != [] {
      SelectedIff(rows[1..], f, afterId, x);
      assert forall m :: m in rows <==> m == rows[0] || m in rows[1..];
      assert x in Eligible(rows, f) <==> (Wants(f, rows[0]) && KeyOf(rows[0]) == x) || x in Eligible(rows[1..], f);
    }
  }

  lemma {:induction false} SelectedNoRepeats(rows: seq<Merchant>, f: Finder, afterId: Option<int>)
    requires UniqueIds(rows)
    ensures NoRepeats(Selected(rows, f, afterId))
  {
    if rows != [] {
      SelectedNoRepeats(rows[1..], f, afterId);
      assert KeyOf(rows[0]) !in Selected(rows[1..], f, afterId) by {
        SelectedIff(rows[1..], f, afterId, KeyOf(rows[0]));
        assert forall m | m in rows[1..] :: m.id != rows[0].id;
      }
    }
  }

  /** A finder returns the page of the rows eligible when it runs. */
  lemma FindBatchIsPage(rows: seq<Merchant>, f: Finder, afterId: Option<int>, limit: nat)
    requires UniqueIds(rows)
    ensures FindBatch(rows, f, afterId, limit) == Page(Eligible(rows, f), FromId(afterId), limit)
  {
    var e, from, s := Eligible(rows, f), FromId(afterId), Selected(rows, f, afterId);
    SelectedNoRepeats(rows, f, afterId);
    SortKeysAscending(s);
    forall x ensures x in SortKeys(s) <==> Beyond(e, from, x) {
      SelectedIff(rows, f, afterId, x);
      assert x in SortKeys(s) <==> x in Elements(SortKeys(s));
      assert x in s <==> x in Elements(s);
    }
    TakeIsPage(e, from, limit, SortKeys(s));
    PageIsUnique(e, from, limit, FindBatch(rows, f, afterId, limit), Page(e, from, limit));
  }

  ghost function EligibleAt(tables: seq<seq<Merchant>>, f: Finder): (es: seq<set<Key>>)
    ensures |es| == |tables| && forall i | 0 <= i < |tables| :: es[i] == Eligible(tables[i], f)
  {
    seq(|tables|, i requires 0 <= i < |tables| => Eligible(tables[i], f))
  }

  /** The loop of a sweep over the table as it is at each query. It ends on an empty batch and on a
      short one; `done` is false if it was still going when the last table was read. */
  method RunSweep(tables: seq<seq<Merchant>>, f: Finder, limit: nat) returns (visited: seq<Key>, done: bool)
    requires limit > 0 && forall rows | rows in tables :: UniqueIds(rows)
    ensures (visited, done) == Sweep(EligibleAt(tables, f), None, Exact, limit, true)
  {
    visited, done := [], false;
    var afterId: Option<int> := None;
    var i := 0;
    ghost var es := EligibleAt(tables, f);
    ghost var all := Sweep(es, None, Exact, limit, true);
    ghost var rest := all;
    assert es[0..] == es && visited + rest.0 == rest.0;
    while i < |tables|
      invariant 0 <= i <= |tables| && !done
      invariant rest == Sweep(es[i..], FromId(afterId), Exact, limit, true)
      invariant all.0 == visited + rest.0 && all.1 == rest.1
    {
      var batch := Batch(tables[i], f, afterId, limit);
      SweepTurn(es, i, FromId(afterId), Exact, limit, true, batch);
      if |batch| == 0 {
        done := true;
        assert visited + rest.0 == visited;
        return;
      }
      ghost var before := visited;
      visited := visited + batch;
      afterId := Some(batch[|batch| - 1].minor);
      if |batch| < limit {
        done := true;
        return;
      }
      rest := Sweep(es[i + 1..], FromId(afterId), Exact, limit, true);
      assert before + (batch + rest.0) == visited + rest.0;
      i := i + 1;
    }
    assert rest.0 == [] && visited + rest.0 == visited;
  }

  /** The query of a turn. */
  method Batch(rows: seq<Merchant>, f: Finder, afterId: Option<int>, limit: nat) returns (batch: seq<Key>)
    requires UniqueIds(rows)
    ensures batch == Page(Eligible(rows, f), FromId(afterId), limit) && |batch| <= limit
    ensures batch != [] ==> FromId(Some(batch[|batch| - 1].minor)) == Some(batch[|batch| - 1])
  {
    FindBatchIsPage(rows, f, afterId, limit);
    BatchKeys(rows, f, afterId, limit);
    batch := FindBatch(rows, f, afterId, limit);
    assert batch != [] ==> batch[|batch| - 1] in batch;
  }

  /** Keys in a batch come from rows. */
  lemma BatchKeys(rows: seq<Merchant>, f: Finder, afterId: Option<int>, limit: nat)
    requires UniqueIds(rows)
    ensures forall x | x in FindBatch(rows, f, afterId, limit) :: x.major == 0
  {
    FindBatchIsPage(rows, f, afterId, limit);
    forall x | x in FindBatch(rows, f, afterId, limit) ensures x.major == 0 {
      assert Beyond(Eligible(rows, f), FromId(afterId), x);
    }
  }

  /** A finished sweep over a table with rows coming, going and changing between the batches visits
      no merchant twice, and everyone eligible throughout. */
  lemma SweepIsFair(tables: seq<seq<Merchant>>, f: Finder, limit: nat, m: Merchant)
    requires limit > 0 && Sweep(EligibleAt(tables, f), None, Exact, limit, true).1
    requires forall i | 0 <= i < |tables| :: KeyOf(m) in Eligible(tables[i], f)
    ensures IsAscending(Sweep(EligibleAt(tables, f), None, Exact, limit, true).0)
    ensures KeyOf(m) in Sweep(EligibleAt(tables, f), None, Exact, limit, true).0
  {
    ExactSweep(EligibleAt(tables, f), limit, true, Exact);
  }

  /** And nobody who was not wanted at any of its queries: no sweep visits an inactive merchant, nor the
      sanctions sweep a confirmed hit. */
  lemma SweepVisitsOnlyWanted(tables: seq<seq<Merchant>>, f: Finder, limit: nat, x: Key) returns (i: nat, m: Merchant)
    requires limit > 0 && x in Sweep(EligibleAt(tables, f), None, Exact, limit, true).0
    ensures i < |tables| && m in tables[i] && KeyOf(m) == x
    ensures m.isActive && (f.ActiveNotHit? ==> !m.sanctionsHit) && (f.ActiveIn? ==> m.country == Some(f.country))
  {
    VisitedWasEligible(EligibleAt(tables, f), None, Exact, limit, true, x);
    i :| 0 <= i < |tables| && x in EligibleAt(tables, f)[i];
    m :| m in tables[i] && Wants(f, m) && KeyOf(m) == x;
  }

  /** What each finder looks for, among active merchants only. */
  lemma WantsIff(m: Merchant, country: string)
    ensures Wants(ActiveAutoManaged, m) <==> m.isActive && m.riskTierAutoManaged
    ensures Wants(ActiveChargebackMonitored, m) <==> m.isActive && m.chargebackMonitoringAutoManaged
    ensures Wants(ActiveNotHit, m) <==> m.isActive && !m.sanctionsHit
    ensures Wants(Active, m) <==> m.isActive
    ensures Wants(ActiveIn(country), m) <==> m.isActive && m.country == Some(country)
  {
  }

  /** A batch has the wanted ids after the cursor, smallest first, and leaves one out only if it is full of
      smaller ones. */
  lemma BatchIs(rows: seq<Merchant>, f: Finder, afterId: Option<int>, limit: nat, m: Merchant)
    requires UniqueIds(rows) && m in rows
    ensures var ids := FindBatch(rows, f, afterId, limit);
            && |ids| <= limit && (forall i, j | 0 <= i < j < |ids| :: ids[i].minor < ids[j].minor)
            && (Key(0, m.id) in ids ==> exists r :: r in rows && r.id == m.id && Wants(f, r))
            && (Key(0, m.id) in ids && afterId.Some? ==> m.id > afterId.value)
            && (Wants(f, m) && (afterId.None? || m.id > afterId.value) && Key(0, m.id) !in ids ==>
                  |ids| == limit && forall x | x in ids :: x.minor < m.id)
  {
    var e, from, ids := Eligible(rows, f), FromId(afterId), FindBatch(rows, f, afterId, limit);
    FindBatchIsPage(rows, f, afterId, limit);
    BatchKeys(rows, f, afterId, limit);
    forall i, j | 0 <= i < j < |ids| ensures ids[i].minor < ids[j].minor {
      assert ids[i] in ids && ids[j] in ids;
      assert Before(ids[i], ids[j]);
    }
    if Key(0, m.id) in ids { assert Beyond(e, from, Key(0, m.id)); }
    if Wants(f, m) && (afterId.None? || m.id > afterId.value) && Key(0, m.id) !in ids {
      assert KeyOf(m) == Key(0, m.id) && Beyond(e, from, KeyOf(m));
      forall x | x in ids ensures x.minor < m.id {
        var i :| 0 <= i < |ids| && ids[i] == x;
        assert i < limit - 1 ==> Before(x, ids[limit - 1]);
        assert x.major == 0;
      }
    }
  }
}

/** `WebhookDeliveryLogService.findByMerchant`: newest deliveries first, in pages that are asked for
    by the id of the last delivery seen. */
module DeliveryLog {
  import opened Keyset
  import opened Options

  /** Times are microseconds, as the table stores them. */
  datatype Delivery = Delivery(id: int, createdAt: int, merchantId: string, eventType: string, success: bool)

  datatype Filters = Filters(merchantId: string, eventType: Option<string>, success: Option<bool>)

  /** An empty event type is no filter. */
  predicate Matches(q: Filters, d: Delivery) {
    && d.merchantId == q.merchantId
    && (q.eventType.Some? && q.eventType.value != "" ==> d.eventType == q.eventType.value)
    && (q.success.Some? ==> d.success == q.success.value)
  }

  /** Newest first, and for one time the largest id first. */
  function KeyOf(d: Delivery): Key { Key(-d.createdAt, -d.id) }

  function IdIn(x: Key): int { -x.minor }

  ghost predicate UniqueIds(log: seq<Delivery>) {
    forall i, j | 0 <= i < j < |log| :: log[i].id != log[j].id
  }

  ghost function Matching(log: seq<Delivery>, q: Filters): set<Key> {
    set d | d in log && Matches(q, d) :: KeyOf(d)
  }

  function FindById(log: seq<Delivery>, id: int): Option<Delivery> {
    if log == [] then None else if log[0].id == id then Some(log[0]) else FindById(log[1..], id)
  }

  /** The row of the cursor is looked up by its id, and its time comes back in milliseconds. An
      unknown id is no cursor. */
  function FromId(log: seq<Delivery>, afterId: Option<int>): Option<Key> {
    if afterId.None? then None
    else
      var cursor := FindById(log, afterId.value);
      if cursor.None? then None
      else Some(Key(-(cursor.value.createdAt / 1000 * 1000), -afterId.value))
  }

  function Selected(log: seq<Delivery>, q: Filters, from: Option<Key>): seq<Key> {
    if log == [] then []
    else if Matches(q, log[0]) && (from.Some? ==> Before(from.value, KeyOf(log[0])))
    then [KeyOf(log[0])] + Selected(log[1..], q, from)
    else Selected(log[1..], q, from)
  }

  function FindByMerchant(log: seq<Delivery>, q: Filters, afterId: Option<int>, limit: nat): seq<Key> {
    Take(SortKeys(Selected(log, q, FromId(log, afterId))), limit)
  }

  lemma {:induction false} SelectedIff(log: seq<Delivery>, q: Filters, from: Option<Key>, x: Key)
    ensures x in Selected(log, q, from) <==> Beyond(Matching(log, q), from, x)
  {
    if log != [] {
      SelectedIff(log[1..], q, from, x);
      assert forall d :: d in log <==> d == log[0] || d in log[1..];
      assert x in Matching(log, q) <==> (Matches(q, log[0]) && KeyOf(log[0]) == x) || x in Matching(log[1..], q);
    }
  }

  lemma {:induction false} SelectedNoRepeats(log: seq<Delivery>, q: Filters, from: Option<Key>)
    requires UniqueIds(log)
    ensures NoRepeats(Selected(log, q, from))
  {
    if log != [] {
      SelectedNoRepeats(log[1..], q, from);
      assert KeyOf(log[0]) !in Selected(log[1..], q, from) by {
        SelectedIff(log[1..], q, from, KeyOf(log[0]));
        assert forall d | d in log[1..] :: d.id != log[0].id;
      }
    }
  }

  lemma FindByMerchantIsPage(log: seq<Delivery>, q: Filters, afterId: Option<int>, limit: nat)
    requires UniqueIds(log)
    ensures FindByMerchant(log, q, afterId, limit) == Page(Matching(log, q), FromId(log, afterId), limit)
  {
    var e, from := Matching(log, q), FromId(log, afterId);
    var s := Selected(log, q, from);
    SelectedNoRepeats(log, q, from);
    SortKeysAscending(s);
    forall x ensures x in SortKeys(s) <==> Beyond(e, from, x) {
      SelectedIff(log, q, from, x);
      assert x in SortKeys(s) <==> x in Elements(SortKeys(s));
      assert x in s <==> x in Elements(s);
    }
    TakeIsPage(e, from, limit, SortKeys(s));
    PageIsUnique(e, from, limit, FindByMerchant(log, q, afterId, limit), Page(e, from, limit));
  }

  lemma {:induction false} FindByIdFinds(log: seq<Delivery>, d: Delivery)
    requires UniqueIds(log) && d in log
    ensures FindById(log, d.id) == Some(d)
  {
    if log[0].id != d.id { FindByIdFinds(log[1..], d); }
  }

  /** Passing back the id of a delivery that is in the log resumes at its rounded cursor. */
  lemma ResumesAt(log: seq<Delivery>, d: Delivery)
    requires UniqueIds(log) && d in log
    ensures FromId(log, Some(d.id)) == Some(Resume(Rounded, KeyOf(d)))
  {
    FindByIdFinds(log, d);
  }

  /** The log only grows. */
  ghost predicate AppendOnly(logs: seq<seq<Delivery>>) {
    && (forall i | 0 <= i < |logs| :: UniqueIds(logs[i]))
    && (forall i, j, d | 0 <= i < j < |logs| && d in logs[i] :: d in logs[j])
  }

  ghost function MatchingAt(logs: seq<seq<Delivery>>, q: Filters): (es: seq<set<Key>>)
    ensures |es| == |logs| && forall i | 0 <= i < |logs| :: es[i] == Matching(logs[i], q)
  {
    seq(|logs|, i requires 0 <= i < |logs| => Matching(logs[i], q))
  }

  /** Asking for page after page until one is empty, `logs[i]` being the log at request `i`. */
  function Follow(logs: seq<seq<Delivery>>, q: Filters, afterId: Option<int>, limit: nat): (seq<Key>, bool)
    decreases |logs|
  {
    if logs == [] then ([], false)
    else
      var page := FindByMerchant(logs[0], q, afterId, limit);
      if page == [] then ([], true)
      else
        var (rest, done) := Follow(logs[1..], q, Some(IdIn(page[|page| - 1])), limit);
        (page + rest, done)
  }

  function IdOf(d: Option<Delivery>): Option<int> { if d.None? then None else Some(d.value.id) }

  function CursorOf(d: Option<Delivery>): Option<Key> {
    if d.None? then None else Some(Resume(Rounded, KeyOf(d.value)))
  }

  /** One request: the page, and the delivery whose id is passed back for the next. */
  lemma FollowStep(log: seq<Delivery>, q: Filters, last: Option<Delivery>, limit: nat) returns (next: Option<Delivery>)
    requires UniqueIds(log) && (last.Some? ==> last.value in log)
    ensures var page := FindByMerchant(log, q, IdOf(last), limit);
            && page == Page(Matching(log, q), CursorOf(last), limit)
            && (page == [] <==> next.None?)
            && (next.Some? ==> next.value in log && KeyOf(next.value) == page[|page| - 1])
  {
    if last.Some? { ResumesAt(log, last.value); }
    FindByMerchantIsPage(log, q, IdOf(last), limit);
    var page := FindByMerchant(log, q, IdOf(last), limit);
    next := None;
    if page != [] {
      var x := page[|page| - 1];
      assert x in page && Beyond(Matching(log, q), CursorOf(last), x);
      var d :| d in log && Matches(q, d) && KeyOf(d) == x;
      next := Some(d);
    }
  }

  lemma AppendOnlyTail(logs: seq<seq<Delivery>>, q: Filters)
    requires AppendOnly(logs) && logs != []
    ensures AppendOnly(logs[1..]) && UniqueIds(logs[0])
    ensures forall d, i | d in logs[0] && 0 <= i < |logs| - 1 :: d in logs[1..][i]
    ensures MatchingAt(logs, q)[0] == Matching(logs[0], q) && MatchingAt(logs, q)[1..] == MatchingAt(logs[1..], q)
  {
    var tail := logs[1..];
    forall i, j, d | 0 <= i < j < |tail| && d in tail[i] ensures d in tail[j] {
      assert tail[i] == logs[i + 1] && tail[j] == logs[j + 1];
    }
  }

  /** Following the ids is a sweep with rounded cursors. */
  lemma {:induction false} FollowIsSweep(logs: seq<seq<Delivery>>, q: Filters, last: Option<Delivery>, limit: nat)
    requires AppendOnly(logs) && limit > 0
    requires last.Some? ==> forall i | 0 <= i < |logs| :: last.value in logs[i]
    ensures Follow(logs, q, IdOf(last), limit) == Sweep(MatchingAt(logs, q), CursorOf(last), Rounded, limit, false)
    decreases |logs|
  {
    if logs != [] {
      AppendOnlyTail(logs, q);
      var next := FollowStep(logs[0], q, last, limit);
      if next.Some? {
        FollowIsSweep(logs[1..], q, next, limit);
        FollowUnrolled(logs, q, last, next.value, limit);
        SweepUnrolled(MatchingAt(logs, q), CursorOf(last), Rounded, limit, false);
      }
    }
  }

  lemma FollowUnrolled(logs: seq<seq<Delivery>>, q: Filters, last: Option<Delivery>, next: Delivery, limit: nat)
    requires logs != []
    requires var page := FindByMerchant(logs[0], q, IdOf(last), limit);
             page != [] && page[|page| - 1] == KeyOf(next)
    ensures var rest := Follow(logs[1..], q, Some(next.id), limit);
            Follow(logs, q, IdOf(last), limit) == (FindByMerchant(logs[0], q, IdOf(last), limit) + rest.0, rest.1)
  {
  }

  lemma StaysMatching(logs: seq<seq<Delivery>>, q: Filters, d: Delivery, i: nat)
    requires AppendOnly(logs) && i < |logs| && d in logs[0] && Matches(q, d)
    ensures KeyOf(d) in Matching(logs[i], q)
  {
    assert d in logs[i];
  }

  /** The cursor of a newer delivery, cut to milliseconds, does not skip an older one. */
  predicate NotCutOff(c: Delivery, d: Delivery) {
    var cut := c.createdAt / 1000 * 1000;
    d.createdAt < cut || (d.createdAt == cut && d.id < c.id)
  }

  /** What the cut cursor of `c` still reaches. */
  lemma CutCursor(c: Delivery, d: Delivery)
    ensures Before(Resume(Rounded, KeyOf(c)), KeyOf(d)) <==> NotCutOff(c, d)
  {
  }

  /** No matching delivery, of any of the logs, cuts this one off. */
  ghost predicate Reachable(logs: seq<seq<Delivery>>, q: Filters, d: Delivery) {
    forall i, c | 0 <= i < |logs| && c in logs[i] && Matches(q, c) && Before(KeyOf(c), KeyOf(d)) :: NotCutOff(c, d)
  }

  /** Whatever is logged meanwhile, following the log to its end yields every matching delivery that
      was there at the first request, once, newest first, unless a newer one cuts it off. */
  lemma FollowsWholeLog(logs: seq<seq<Delivery>>, q: Filters, limit: nat, d: Delivery)
    requires AppendOnly(logs) && limit > 0 && Follow(logs, q, None, limit).1
    requires d in logs[0] && Matches(q, d) && Reachable(logs, q, d)
    ensures IsAscending(Follow(logs, q, None, limit).0) && KeyOf(d) in Follow(logs, q, None, limit).0
  {
    var es, x := MatchingAt(logs, q), KeyOf(d);
    FollowIsSweep(logs, q, None, limit);
    forall i, k | 0 <= i < |es| && k in es[i] && Before(k, x) ensures Before(Resume(Rounded, k), x) {
      var c :| c in logs[i] && Matches(q, c) && KeyOf(c) == k;
      CutCursor(c, d);
    }
    forall i | 0 <= i < |es| ensures x in es[i] { StaysMatching(logs, q, d, i); }
    SweepInOrder(es, None, Rounded, limit, false);
    SweepFinds(es, None, Rounded, limit, false, x);
  }

  /** With times in whole milliseconds nothing is ever cut off. */
  lemma WholeMillisAreReachable(logs: seq<seq<Delivery>>, q: Filters, d: Delivery)
    requires forall i, c | 0 <= i < |logs| && c in logs[i] :: c.createdAt % 1000 == 0
    ensures Reachable(logs, q, d)
  {
  }

  /** The times of two matching deliveries are never so close that the cursor of the newer one,
      cut to milliseconds, skips the older one. */
  ghost predicate Spaced(log: seq<Delivery>, q: Filters) {
    forall c, d | c in log && d in log && Matches(q, c) && Matches(q, d) && Before(KeyOf(c), KeyOf(d)) ::
      NotCutOff(c, d)
  }

  /** Whole pages of every size, of a log nobody writes to. */
  ghost predicate FollowsAll(log: seq<Delivery>, q: Filters, limit: nat) {
    forall d | d in log && Matches(q, d) :: KeyOf(d) in Follow(Still(log, |Matching(log, q)| + 1), q, None, limit).0
  }

  lemma FollowsAllIs(log: seq<Delivery>, q: Filters, limit: nat)
    requires UniqueIds(log) && limit > 0
    ensures FollowsAll(log, q, limit) <==> VisitsAll(Matching(log, q), Rounded, limit, false)
  {
    var e := Matching(log, q);
    var logs := Still(log, |e| + 1);
    FollowIsSweep(logs, q, None, limit);
    assert MatchingAt(logs, q) == Still(e, |e| + 1);
    if FollowsAll(log, q, limit) {
      forall x | x in e ensures x in Sweep(Still(e, |e| + 1), None, Rounded, limit, false).0 {
        var d :| d in log && Matches(q, d) && KeyOf(d) == x;
      }
    }
    forall d | d in log && Matches(q, d) ensures KeyOf(d) in e { }
  }

  lemma SpacedIs(log: seq<Delivery>, q: Filters)
    ensures Spaced(log, q) <==> WellSpaced(Matching(log, q), Rounded)
  {
    var e := Matching(log, q);
    if Spaced(log, q) {
      forall c, x | c in e && x in e && Before(c, x) ensures Before(Resume(Rounded, c), x) {
        var a :| a in log && Matches(q, a) && KeyOf(a) == c;
        var b :| b in log && Matches(q, b) && KeyOf(b) == x;
        CutCursor(a, b);
      }
    }
    if WellSpaced(e, Rounded) {
      forall c, d | c in log && d in log && Matches(q, c) && Matches(q, d) && Before(KeyOf(c), KeyOf(d))
        ensures NotCutOff(c, d)
      {
        assert KeyOf(c) in e && KeyOf(d) in e;
        CutCursor(c, d);
      }
    }
  }

  /** With times in microseconds, a client that follows a log nobody writes to sees all of it, for
      every page size, if and only if no two matching deliveries are that close. */
  lemma FollowsAllIff(log: seq<Delivery>, q: Filters)
    requires UniqueIds(log)
    ensures (forall limit: nat | limit > 0 :: FollowsAll(log, q, limit)) <==> Spaced(log, q)
  {
    var e := Matching(log, q);
    CompleteIff(e, Rounded, false);
    SpacedIs(log, q);
    forall limit: nat | limit > 0 ensures FollowsAll(log, q, limit) <==> VisitsAll(e, Rounded, limit, false) {
      FollowsAllIs(log, q, limit);
    }
  }

  /** It does happen: of two deliveries in one millisecond, a page that ends at the first one loses the
      other for good. */
  lemma LogCanLoseADelivery() returns (log: seq<Delivery>, q: Filters, limit: nat)
    ensures UniqueIds(log) && |log| == 2 && log[0].createdAt / 1000 == log[1].createdAt / 1000
    ensures Matches(q, log[0]) && Matches(q, log[1])
    ensures limit > 0 && !FollowsAll(log, q, limit)
  {
    q := Filters("m", None, None);
    var newer, older := Delivery(1, 1700, "m", "", true), Delivery(2, 1200, "m", "", true);
    log := [newer, older];
    assert newer in log && older in log && !NotCutOff(newer, older);
    FollowsAllIff(log, q);
    limit :| limit > 0 && !FollowsAll(log, q, limit);
  }

  /** A delivery matches exactly if it is the merchant's, of the type asked for, if one is, and of the outcome
      asked for, if one is. */
  lemma MatchesIff(merchantId: string, eventType: string, success: bool, d: Delivery)
    ensures Matches(Filters(merchantId, None, None), d) <==> d.merchantId == merchantId
    ensures Matches(Filters(merchantId, Some(""), None), d) <==> d.merchantId == merchantId
    ensures eventType != "" ==>
              (Matches(Filters(merchantId, Some(eventType), None), d)
               <==> d.merchantId == merchantId && d.eventType == eventType)
    ensures Matches(Filters(merchantId, None, Some(success)), d) <==> d.merchantId == merchantId && d.success == success
    ensures eventType != "" ==>
              (Matches(Filters(merchantId, Some(eventType), Some(success)), d)
               <==> d.merchantId == merchantId && d.eventType == eventType && d.success == success)
  {
  }

  /** A page has matching deliveries, newest first and for one time the larger id first, older than the
      cursor's time cut to milliseconds or, at that time, with a smaller id; it leaves one out only if it is
      full of newer ones. */
  lemma PageIs(log: seq<Delivery>, q: Filters, cursor: Delivery, limit: nat, d: Delivery)
    requires UniqueIds(log) && cursor in log && d in log
    ensures var page, cut := FindByMerchant(log, q, Some(cursor.id), limit), cursor.createdAt / 1000 * 1000;
            var x := Key(-d.createdAt, -d.id);
            && |page| <= limit
            && (forall i, j | 0 <= i < j < |page| ::
                  page[i].major < page[j].major || (page[i].major == page[j].major && page[i].minor < page[j].minor))
            && (x in page ==> Matches(q, d) && (d.createdAt < cut || (d.createdAt == cut && d.id < cursor.id)))
            && (Matches(q, d) && (d.createdAt < cut || (d.createdAt == cut && d.id < cursor.id)) && x !in page ==>
                  && |page| == limit
                  && forall y | y in page :: y.major < x.major || (y.major == x.major && y.minor < x.minor))
  {
    var page, x := FindByMerchant(log, q, Some(cursor.id), limit), KeyOf(d);
    FindByMerchantIsPage(log, q, Some(cursor.id), limit);
    ResumesAt(log, cursor);
    CutCursor(cursor, d);
    var from := Some(Resume(Rounded, KeyOf(cursor)));
    forall i, j | 0 <= i < j < |page| ensures Before(page[i], page[j]) { }
    if x in page {
      assert Beyond(Matching(log, q), from, x);
      var r :| r in log && Matches(q, r) && KeyOf(r) == x;
      SameIdSameRow(log, r, d);
    }
    if Matches(q, d) && NotCutOff(cursor, d) && x !in page {
      assert Beyond(Matching(log, q), from, x);
      forall y | y in page ensures Before(y, x) {
        var i :| 0 <= i < |page| && page[i] == y;
        assert i < limit - 1 ==> Before(y, page[limit - 1]);
      }
    }
  }

  lemma SameIdSameRow(log: seq<Delivery>, c: Delivery, d: Delivery)
    requires UniqueIds(log) && c in log && d in log && c.id == d.id
    ensures c == d
  {
    var i :| 0 <= i < |log| && log[i] == c;
    var j :| 0 <= j < |log| && log[j] == d;
    assert i == j;
  }
}
