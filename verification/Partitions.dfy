/** `create-partitions-job.ts`: monthly partitions of payments and ledger_outbox. Days are counted
    from 1970-01-01 and months from January 1970. */
module Partitions {
  import opened Decimal

  // ----- the calendar ---------------------------------------------------------------------

  function Year(k: nat): nat { 1970 + k / 12 }

  /** 1 to 12. */
  function MonthOfYear(k: nat): nat { k % 12 + 1 }

  predicate IsLeap(y: nat) { y % 4 == 0 && (y % 100 != 0 || y % 400 == 0) }

  function MonthLength(m: nat, leap: bool): nat {
    if m == 2 then (if leap then 29 else 28) else if m == 4 || m == 6 || m == 9 || m == 11 then 30 else 31
  }

  function DaysInMonth(k: nat): (d: nat)
    ensures 28 <= d <= 31
  {
    MonthLength(MonthOfYear(k), IsLeap(Year(k)))
  }

  function FirstDay(k: nat): nat {
    if k == 0 then 0 else FirstDay(k - 1) + DaysInMonth(k - 1)
  }

  lemma MonthNumber(j: nat, r: nat)
    requires r < 12
    ensures Year(12 * j + r) == 1970 + j && MonthOfYear(12 * j + r) == r + 1
  {
  }

  /** Days of a year before its month `r + 1`. */
  function DaysBefore(r: nat, leap: bool): nat {
    if r == 0 then 0 else DaysBefore(r - 1, leap) + MonthLength(r, leap)
  }

  lemma {:induction false} WithinYear(j: nat, r: nat)
    requires r <= 12
    ensures FirstDay(12 * j + r) == FirstDay(12 * j) + DaysBefore(r, IsLeap(1970 + j))
  {
    if r > 0 {
      WithinYear(j, r - 1);
      MonthNumber(j, r - 1);
    }
  }

  /** The days before each month, January to December, and the length of the year. */
  lemma YearLength(leap: bool)
    ensures var l := if leap then 1 else 0;
            && DaysBefore(0, leap) == 0 && DaysBefore(1, leap) == 31 && DaysBefore(2, leap) == 59 + l
            && DaysBefore(3, leap) == 90 + l && DaysBefore(4, leap) == 120 + l && DaysBefore(5, leap) == 151 + l
            && DaysBefore(6, leap) == 181 + l && DaysBefore(7, leap) == 212 + l && DaysBefore(8, leap) == 243 + l
            && DaysBefore(9, leap) == 273 + l && DaysBefore(10, leap) == 304 + l && DaysBefore(11, leap) == 334 + l
            && DaysBefore(12, leap) == 365 + l
  {
  }

  /** Leap days in the years before `y`. */
  function LeapDaysBefore(y: nat): int
    requires y > 0
  {
    (y - 1) / 4 - (y - 1) / 100 + (y - 1) / 400
  }

  lemma LeapDay(y: nat)
    requires y > 0
    ensures LeapDaysBefore(y + 1) == LeapDaysBefore(y) + (if IsLeap(y) then 1 else 0)
  {
    assert y / 4 == (y - 1) / 4 + (if y % 4 == 0 then 1 else 0);
    assert y / 100 == (y - 1) / 100 + (if y % 100 == 0 then 1 else 0);
    assert y / 400 == (y - 1) / 400 + (if y % 400 == 0 then 1 else 0);
    Divides(y);
  }

  lemma Divides(y: nat)
    ensures y % 400 == 0 ==> y % 100 == 0
    ensures y % 100 == 0 ==> y % 4 == 0
  {
    if y % 400 == 0 { Multiple(y, 100, 4 * (y / 400)); }
    if y % 100 == 0 { Multiple(y, 4, 25 * (y / 100)); }
  }

  lemma Multiple(y: nat, d: nat, q: nat)
    requires (d == 4 || d == 100) && y == d * q
    ensures y % d == 0
  {
  }

  lemma NextYear(j: nat)
    ensures FirstDay(12 * (j + 1)) == FirstDay(12 * j) + 365 + (if IsLeap(1970 + j) then 1 else 0)
  {
    WithinYear(j, 12);
    YearLength(IsLeap(1970 + j));
    assert 12 * j + 12 == 12 * (j + 1);
  }

  /** The years before 1970 + j, one after the other. */
  function YearsBefore(j: nat): nat {
    if j == 0 then 0 else YearsBefore(j - 1) + 365 + (if IsLeap(1969 + j) then 1 else 0)
  }

  lemma {:induction false} YearByYear(j: nat)
    ensures FirstDay(12 * j) == YearsBefore(j)
  {
    if j > 0 {
      YearByYear(j - 1);
      NextYear(j - 1);
    }
  }

  lemma {:induction false} LeapDays(j: nat)
    ensures YearsBefore(j) == 365 * j + LeapDaysBefore(1970 + j) - LeapDaysBefore(1970)
  {
    if j > 0 {
      LeapDays(j - 1);
      LeapDay(1969 + j);
    }
  }

  /** The first of January is where the Gregorian calendar puts it. */
  lemma NewYearsDay(j: nat)
    ensures FirstDay(12 * j) == 365 * j + LeapDaysBefore(1970 + j) - LeapDaysBefore(1970)
  {
    YearByYear(j);
    LeapDays(j);
  }

  lemma {:induction false} FirstDayGrows(k: nat, k': nat)
    requires k < k'
    ensures FirstDay(k) + 28 * (k' - k) <= FirstDay(k')
  {
    if k < k' - 1 { FirstDayGrows(k, k' - 1); }
  }

  lemma NotBefore(k: nat, k': nat)
    requires k <= k'
    ensures FirstDay(k) <= FirstDay(k')
  {
    if k < k' { FirstDayGrows(k, k'); }
  }

  /** The month of a day, searched from month `k` on. */
  function MonthFrom(day: nat, k: nat): (m: nat)
    requires FirstDay(k) <= day
    ensures FirstDay(m) <= day < FirstDay(m + 1)
    decreases day - FirstDay(k)
  {
    if day < FirstDay(k + 1) then k else MonthFrom(day, k + 1)
  }

  function MonthOf(day: nat): (m: nat)
    ensures FirstDay(m) <= day < FirstDay(m + 1)
  {
    MonthFrom(day, 0)
  }

  /** A day is in one month only. */
  lemma OneMonth(day: nat, k: nat)
    requires FirstDay(k) <= day < FirstDay(k + 1)
    ensures MonthOf(day) == k
  {
    var m := MonthOf(day);
    if m < k { NotBefore(m + 1, k); }
    if k < m { NotBefore(k + 1, m); }
  }

  // ----- Date.UTC ------------------------------------------------------------------------------

  /** The day number of the first of January (`DayFromYear` of ECMA-262). */
  function DayFromYear(y: nat): int {
    365 * (y - 1970) + (y - 1969) / 4 - (y - 1901) / 100 + (y - 1601) / 400
  }

  function DayFromMonth(y: nat, i: nat): int {
    DayFromYear(y) + DaysBefore(i, IsLeap(y))
  }

  /** `Date.UTC(year, month, 1)` as a day: January is month 0, and months from 12 on run over into the
      years that follow (`MakeDay` of ECMA-262). */
  function DateUtc(year: nat, month: nat): int {
    DayFromMonth(year + month / 12, month % 12)
  }

  lemma SameLeapDays(y: nat)
    requires y >= 1970
    ensures DayFromYear(y) == 365 * (y - 1970) + LeapDaysBefore(y) - LeapDaysBefore(1970)
  {
    assert (y - 1969) / 4 == (y - 1) / 4 - 492;
    assert (y - 1901) / 100 == (y - 1) / 100 - 19;
    assert (y - 1601) / 400 == (y - 1) / 400 - 4;
    assert LeapDaysBefore(1970) == 477;
  }

  /** The first of January is where `Date.UTC` puts it. */
  lemma YearStart(j: nat)
    ensures DayFromYear(1970 + j) == FirstDay(12 * j)
  {
    NewYearsDay(j);
    SameLeapDays(1970 + j);
  }

  lemma DayFromMonthIs(n: nat, i: nat, k: nat)
    requires i < 12 && k == 12 * n + i
    ensures DayFromMonth(1970 + n, i) == FirstDay(k)
  {
    YearStart(n);
    WithinYear(n, i);
  }

  lemma MonthsAhead(k: nat, offset: nat)
    ensures var month := k % 12 + offset;
            k + offset == 12 * (k / 12 + month / 12) + month % 12
  {
  }

  lemma DateUtcIs(k: nat, offset: nat)
    ensures DateUtc(Year(k), MonthOfYear(k) - 1 + offset) == FirstDay(k + offset)
  {
    var month := k % 12 + offset;
    MonthsAhead(k, offset);
    DayFromMonthIs(k / 12 + month / 12, month % 12, k + offset);
  }

  /** `monthStart`. */
  function MonthStart(offset: nat, day: nat): int {
    var k := MonthOf(day);
    DateUtc(Year(k), MonthOfYear(k) - 1 + offset)
  }

  /** It is the first day of the month that is `offset` after that of the given day, over any number of
      year ends. */
  lemma MonthStartIs(offset: nat, day: nat)
    ensures MonthStart(offset, day) == FirstDay(MonthOf(day) + offset)
  {
    DateUtcIs(MonthOf(day), offset);
  }

  // ----- names ---------------------------------------------------------------------------------

  /** `String(n).padStart(2, '0')`. */
  function Pad2(n: nat): (s: string)
    ensures forall c | c in s :: IsDigit(c)
  {
    if n < 10 then "0" + Print(n) else Print(n)
  }

  /** `toSuffix` of a date. */
  function Suffix(day: nat): string {
    Print(Year(MonthOf(day))) + "_" + Pad2(MonthOfYear(MonthOf(day)))
  }

  /** The name for a month, taken from its first day as `monthStart` gives it. */
  function Name(prefix: string, k: nat): string {
    prefix + Suffix(FirstDay(k))
  }

  /** A partition is named after the year and the month, in two digits, of its month: January 1970 is month 0. */
  lemma NameIs(prefix: string, year: nat, month: nat)
    requires year >= 1970 && 1 <= month <= 12
    ensures Name(prefix, 12 * (year - 1970) + (month - 1))
         == prefix + (Print(year) + "_" + (if month < 10 then "0" + Print(month) else Print(month)))
  {
    var k := 12 * (year - 1970) + (month - 1);
    MonthNumber(year - 1970, month - 1);
    FirstDayGrows(k, k + 1);
    OneMonth(FirstDay(k), k);
  }

  lemma Pad2Value(n: nat)
    requires n < 100
    ensures |Pad2(n)| == 2 && Value(Pad2(n)) == n
  {
    ValueOfPrint(n);
    if n < 10 {
      assert Pad2(n)[..1] == "0" && "0"[..0] == [];
      assert Value("0") == 0;
    } else {
      assert Print(n / 10) == [Digit(n / 10)];
    }
  }

  /** Year and month can be read off `YYYY_MM`. */
  lemma SuffixInjective(y: nat, m: nat, y': nat, m': nat)
    requires m < 100 && m' < 100
    requires Print(y) + "_" + Pad2(m) == Print(y') + "_" + Pad2(m')
    ensures y == y' && m == m'
  {
    Pad2Value(m);
    Pad2Value(m');
    var s, s' := Print(y) + "_" + Pad2(m), Print(y') + "_" + Pad2(m');
    assert Print(y) == s[..|s| - 3] == s'[..|s'| - 3] == Print(y');
    assert Pad2(m) == s[|s| - 2..] == s'[|s'| - 2..] == Pad2(m');
    PrintInjective(y, y');
  }

  /** Names are injective in the month. */
  lemma NamesInjective(prefix: string, k: nat, k': nat)
    ensures Name(prefix, k) == Name(prefix, k') ==> k == k'
  {
    if Name(prefix, k) == Name(prefix, k') {
      assert Suffix(FirstDay(k)) == Name(prefix, k)[|prefix|..] == Name(prefix, k')[|prefix|..] == Suffix(FirstDay(k'));
      FirstDayGrows(k, k + 1);
      FirstDayGrows(k', k' + 1);
      OneMonth(FirstDay(k), k);
      OneMonth(FirstDay(k'), k');
      SuffixInjective(Year(k), MonthOfYear(k), Year(k'), MonthOfYear(k'));
    }
  }

  // ----- the partitions of one parent table ----------------------------------------------------------

  /** FOR VALUES FROM (from) TO (to). */
  datatype Range = Range(from: nat, to: nat)

  function MonthRange(k: nat): Range { Range(FirstDay(k), FirstDay(k + 1)) }

  predicate Overlap(a: Range, b: Range) { a.from < b.to && b.from < a.to }

  /** Two months' ranges overlap only if they are the same month. */
  lemma RangesDisjoint(k: nat, k': nat)
    requires Overlap(MonthRange(k), MonthRange(k'))
    ensures k == k'
  {
    if k < k' { NotBefore(k + 1, k'); }
    if k' < k { NotBefore(k' + 1, k); }
  }

  /** How a family of monthly partitions is named and bounded, with what is needed of both. */
  datatype Family = Family(name: nat -> string, range: nat -> Range)

  ghost predicate Proper(f: Family) {
    && (forall k, k' | f.name(k) == f.name(k') :: k == k')
    && (forall k, k' | Overlap(f.range(k), f.range(k')) :: k == k')
  }

  /** Of the monthly partitions, those of the months `ks` are there, with their bounds. */
  ghost predicate Has(parts: map<string, Range>, f: Family, ks: set<nat>) {
    forall k: nat :: (f.name(k) in parts <==> k in ks) && (k in ks ==> parts[f.name(k)] == f.range(k))
  }

  /** There are no partitions but monthly ones. */
  ghost predicate OnlyMonths(parts: map<string, Range>, f: Family) {
    forall n | n in parts :: exists k: nat :: f.name(k) == n
  }

  /** No two partitions overlap. */
  lemma PartitionsAreDisjoint(parts: map<string, Range>, f: Family, ks: set<nat>, m: string, n: string)
    requires Proper(f) && Has(parts, f, ks) && OnlyMonths(parts, f)
    requires m in parts && n in parts && Overlap(parts[m], parts[n])
    ensures m == n
  {
    var k: nat :| f.name(k) == m;
    var k': nat :| f.name(k') == n;
  }

  ghost predicate Stored(parts: map<string, Range>, day: nat) {
    exists n :: n in parts && parts[n].from <= day < parts[n].to
  }

  /** CREATE TABLE IF NOT EXISTS ... PARTITION OF. */
  function Ensured(parts: map<string, Range>, f: Family, k: nat): map<string, Range> {
    if f.name(k) in parts then parts else parts[f.name(k) := f.range(k)]
  }

  /** Ensuring a month adds it to those that are there. */
  lemma OneMoreMonth(parts: map<string, Range>, f: Family, ks: set<nat>, k: nat)
    requires Proper(f) && Has(parts, f, ks)
    ensures Has(Ensured(parts, f, k), f, ks + {k})
  {
  }

  /** If it was missing, no partition overlapped its range, so that creating it is not refused. */
  lemma CreationIsNotRefused(parts: map<string, Range>, f: Family, ks: set<nat>, k: nat, n: string)
    requires Proper(f) && Has(parts, f, ks) && OnlyMonths(parts, f)
    requires k !in ks && n in parts
    ensures !Overlap(parts[n], f.range(k))
  {
    var k': nat :| f.name(k') == n;
    assert parts[n] == f.range(k');
  }

  // ----- the job ----------------------------------------------------------------------------------------

  const PAYMENTS := "payments_partitioned_"
  const OUTBOX := "ledger_outbox_partitioned_"

  function FamilyOf(prefix: string): Family {
    Family((k: nat) => Name(prefix, k), (k: nat) => MonthRange(k))
  }

  lemma FamilyIsProper(prefix: string)
    ensures Proper(FamilyOf(prefix))
  {
    var f := FamilyOf(prefix);
    forall k, k' | f.name(k) == f.name(k') ensures k == k' { NamesInjective(prefix, k, k'); }
    forall k, k' | Overlap(f.range(k), f.range(k')) ensures k == k' { RangesDisjoint(k, k'); }
  }

  /** A day is stored in a monthly partition, not in the default one, exactly if its month is there. */
  lemma StoredIff(parts: map<string, Range>, prefix: string, ks: set<nat>, day: nat)
    requires Has(parts, FamilyOf(prefix), ks) && OnlyMonths(parts, FamilyOf(prefix))
    ensures Stored(parts, day) <==> MonthOf(day) in ks
  {
    var f := FamilyOf(prefix);
    if Stored(parts, day) {
      var n :| n in parts && parts[n].from <= day < parts[n].to;
      var k: nat :| f.name(k) == n;
      assert parts[n] == f.range(k) == MonthRange(k);
      OneMonth(day, k);
    }
    if MonthOf(day) in ks {
      var k := MonthOf(day);
      assert parts[f.name(k)] == f.range(k) == MonthRange(k);
    }
  }

  /** The months from `m` on, `n` of them. */
  function Months(m: nat, n: nat): (ks: set<nat>)
    ensures forall k :: k in ks <==> m <= k < m + n
  {
    if n == 0 then {} else Months(m, n - 1) + {m + n - 1}
  }

  /** The months after those of `ks` and `n` more from `m` on. */
  lemma MonthsStep(ks: set<nat>, m: nat, n: nat)
    ensures ks + Months(m, 0) == ks
    ensures ks + Months(m, n) + {m + n} == ks + Months(m, n + 1)
    ensures m + n in ks + Months(m, n) <==> m + n in ks
  {
  }

  /** Ensuring `n` months from `m` on, one after the other. */
  function AfterTurns(parts: map<string, Range>, f: Family, m: nat, n: nat): map<string, Range> {
    if n == 0 then parts else Ensured(AfterTurns(parts, f, m, n - 1), f, m + n - 1)
  }

  /** It leaves the months that were to be ensured, and those that were there, and no others. */
  lemma {:induction false} TurnsEnsureMonths(parts: map<string, Range>, f: Family, ks: set<nat>, m: nat, n: nat)
    requires Proper(f) && Has(parts, f, ks)
    ensures Has(AfterTurns(parts, f, m, n), f, ks + Months(m, n))
  {
    if n == 0 {
      MonthsStep(ks, m, 0);
    } else {
      TurnsEnsureMonths(parts, f, ks, m, n - 1);
      MonthsStep(ks, m, n - 1);
      OneMoreMonth(AfterTurns(parts, f, m, n - 1), f, ks + Months(m, n - 1), m + n - 1);
    }
  }

  lemma {:induction false} TurnsAddOnlyMonths(parts: map<string, Range>, f: Family, m: nat, n: nat)
    requires OnlyMonths(parts, f)
    ensures OnlyMonths(AfterTurns(parts, f, m, n), f)
  {
    if n > 0 { TurnsAddOnlyMonths(parts, f, m, n - 1); }
  }

  /** The partitions of both parents. */
  datatype Catalog = Catalog(payments: map<string, Range>, outbox: map<string, Range>)

  /** The names created for month `k`, and for `n` months from `m` on. */
  function MissingNames(c: Catalog, p: Family, o: Family, k: nat): seq<string> {
    (if p.name(k) in c.payments then [] else [p.name(k)]) + (if o.name(k) in c.outbox then [] else [o.name(k)])
  }

  function CreatedNames(c: Catalog, p: Family, o: Family, m: nat, n: nat): seq<string> {
    if n == 0 then []
    else CreatedNames(c, p, o, m, n - 1)
         + MissingNames(Catalog(AfterTurns(c.payments, p, m, n - 1), AfterTurns(c.outbox, o, m, n - 1)),
                        p, o, m + n - 1)
  }

  method MonthStartOf(offset: nat, today: nat, ghost k: nat) returns (d: nat)
    requires k == MonthOf(today) + offset
    ensures d == FirstDay(k)
  {
    MonthStartIs(offset, today);
    d := MonthStart(offset, today);
  }

  /** What a turn computes from today's date: the suffix of the names and the bounds. */
  method Turn(today: nat, offset: nat, ghost k: nat) returns (suffix: string, range: Range)
    requires k == MonthOf(today) + offset
    ensures suffix == Suffix(FirstDay(k)) && range == MonthRange(k)
  {
    var from := MonthStartOf(offset, today, k);
    var to := MonthStartOf(offset + 1, today, k + 1);
    suffix, range := Suffix(from), Range(from, to);
  }

  predicate NamedAt(f: Family, prefix: string, k: nat) {
    f.name(k) == prefix + Suffix(FirstDay(k)) && f.range(k) == MonthRange(k)
  }

  /** The family has this prefix. */
  ghost predicate Named(f: Family, prefix: string) {
    forall k: nat {:trigger NamedAt(f, prefix, k)} :: NamedAt(f, prefix, k)
  }

  lemma FamilyIsNamed(prefix: string)
    ensures Named(FamilyOf(prefix), prefix)
  {
    forall k: nat ensures NamedAt(FamilyOf(prefix), prefix, k) { }
  }

  /** The names that a turn at this offset from today computes are those of month `m + offset`. */
  ghost predicate DatedAt(p: string, o: string, today: nat, pf: Family, of: Family, m: nat, offset: nat) {
    m == MonthOf(today) && NamedAt(pf, p, m + offset) && NamedAt(of, o, m + offset)
  }

  ghost predicate Dated(p: string, o: string, today: nat, pf: Family, of: Family, m: nat) {
    forall offset: nat {:trigger DatedAt(p, o, today, pf, of, m, offset)} :: DatedAt(p, o, today, pf, of, m, offset)
  }

  lemma NamedIsDated(p: string, o: string, today: nat, pf: Family, of: Family)
    requires Named(pf, p) && Named(of, o)
    ensures Dated(p, o, today, pf, of, MonthOf(today))
  {
    var m := MonthOf(today);
    forall offset: nat ensures DatedAt(p, o, today, pf, of, m, offset) {
      assert NamedAt(pf, p, m + offset) && NamedAt(of, o, m + offset);
    }
  }

  /** One table of a turn. */
  method EnsurePartition(parts: map<string, Range>, table: string, range: Range, ghost f: Family, ghost k: nat)
    returns (parts': map<string, Range>, names: seq<string>)
    requires f.name(k) == table && f.range(k) == range
    ensures parts' == Ensured(parts, f, k)
    ensures names == if f.name(k) in parts then [] else [f.name(k)]
  {
    parts', names := parts, [];
    var existedBefore := table in parts;
    if !existedBefore {
      parts' := parts'[table := range];
      names := [table];
    }
  }

  /** One turn of the loop. */
  method EnsureMonth(c: Catalog, p: string, o: string, today: nat, offset: nat,
                     ghost pf: Family, ghost of: Family, ghost m: nat)
    returns (c': Catalog, names: seq<string>)
    requires Dated(p, o, today, pf, of, m)
    ensures c' == Catalog(Ensured(c.payments, pf, m + offset), Ensured(c.outbox, of, m + offset))
    ensures names == MissingNames(c, pf, of, m + offset)
  {
    assert DatedAt(p, o, today, pf, of, m, offset);
    var suffix, range := Turn(today, offset, m + offset);
    var payments, paymentsCreated := EnsurePartition(c.payments, p + suffix, range, pf, m + offset);
    var outbox, outboxCreated := EnsurePartition(c.outbox, o + suffix, range, of, m + offset);
    c', names := Catalog(payments, outbox), paymentsCreated + outboxCreated;
  }

  /** The loop over the months ahead. */
  method EnsureMonths(c: Catalog, p: string, o: string, today: nat, monthsAhead: nat,
                      ghost pf: Family, ghost of: Family, ghost m: nat)
    returns (c': Catalog, checked: nat, created: seq<string>)
    requires Dated(p, o, today, pf, of, m)
    ensures c'.payments == AfterTurns(c.payments, pf, m, monthsAhead + 1)
    ensures c'.outbox == AfterTurns(c.outbox, of, m, monthsAhead + 1)
    ensures created == CreatedNames(c, pf, of, m, monthsAhead + 1)
    ensures checked == 2 * (monthsAhead + 1)
  {
    c', created, checked := c, [], 0;
    var offset := 0;
    while offset <= monthsAhead
      invariant offset <= monthsAhead + 1 && checked == 2 * offset
      invariant c' == Catalog(AfterTurns(c.payments, pf, m, offset), AfterTurns(c.outbox, of, m, offset))
      invariant created == CreatedNames(c, pf, of, m, offset)
    {
      checked := checked + 2;
      var names;
      c', names := EnsureMonth(c', p, o, today, offset, pf, of, m);
      created := created + names;
      offset := offset + 1;
    }
  }

  /** The two parents, with the families their partitions belong to. */
  class PartitionMaintenance {
    const paymentsPrefix: string
    const outboxPrefix: string
    ghost const payments: Family
    ghost const outbox: Family
    var catalog: Catalog

    ghost predicate Valid() {
      Named(payments, paymentsPrefix) && Named(outbox, outboxPrefix)
    }

    constructor (catalog: Catalog)
      ensures Valid() && paymentsPrefix == PAYMENTS && outboxPrefix == OUTBOX && this.catalog == catalog
      ensures paymentsPrefix == "payments_partitioned_" && outboxPrefix == "ledger_outbox_partitioned_"
      ensures payments == FamilyOf(PAYMENTS) && outbox == FamilyOf(OUTBOX)
    {
      FamilyIsNamed(PAYMENTS);
      FamilyIsNamed(OUTBOX);
      paymentsPrefix, outboxPrefix := PAYMENTS, OUTBOX;
      payments, outbox := FamilyOf(PAYMENTS), FamilyOf(OUTBOX);
      this.catalog := catalog;
    }

    /** `ensureUpcomingPartitions`. */
    method EnsureUpcomingPartitions(today: nat, monthsAhead: nat) returns (checked: nat, created: seq<string>)
      requires Valid()
      modifies this`catalog
      ensures catalog.payments == AfterTurns(old(catalog).payments, payments, MonthOf(today), monthsAhead + 1)
      ensures catalog.outbox == AfterTurns(old(catalog).outbox, outbox, MonthOf(today), monthsAhead + 1)
      ensures created == CreatedNames(old(catalog), payments, outbox, MonthOf(today), monthsAhead + 1)
      ensures checked == 2 * (monthsAhead + 1)
    {
      ghost var m := MonthOf(today);
      NamedIsDated(paymentsPrefix, outboxPrefix, today, payments, outbox);
      catalog, checked, created :=
        EnsureMonths(catalog, paymentsPrefix, outboxPrefix, today, monthsAhead, payments, outbox, m);
    }
  }

  lemma CreatedStep(c: Catalog, p: Family, o: Family, m: nat, n: nat)
    ensures CreatedNames(c, p, o, m, n + 1) == []
       <==> && CreatedNames(c, p, o, m, n) == []
            && p.name(m + n) in AfterTurns(c.payments, p, m, n)
            && o.name(m + n) in AfterTurns(c.outbox, o, m, n)
  {
  }

  lemma MonthsWithin(m: nat, n: nat, ks: set<nat>)
    ensures Months(m, 0) <= ks
    ensures Months(m, n + 1) <= ks <==> Months(m, n) <= ks && m + n in ks
  {
    assert Months(m, n + 1) == Months(m, n) + {m + n};
  }

  /** Turn `n` creates nothing exactly if it finds its month at both parents. */
  ghost predicate TurnNeeds(c: Catalog, p: Family, o: Family, ps: set<nat>, os: set<nat>, m: nat, n: nat) {
    CreatedNames(c, p, o, m, n + 1) == [] <==> CreatedNames(c, p, o, m, n) == [] && m + n in ps && m + n in os
  }

  lemma OneMoreTurn(c: Catalog, p: Family, o: Family, ps: set<nat>, os: set<nat>, m: nat, n: nat)
    requires Proper(p) && Proper(o) && Has(c.payments, p, ps) && Has(c.outbox, o, os)
    ensures TurnNeeds(c, p, o, ps, os, m, n)
  {
    CreatedStep(c, p, o, m, n);
    TurnFinds(c.payments, p, ps, m, n);
    TurnFinds(c.outbox, o, os, m, n);
  }

  lemma {:induction false} AllTurns(c: Catalog, p: Family, o: Family, ps: set<nat>, os: set<nat>, m: nat, n: nat)
    requires forall i: nat {:trigger TurnNeeds(c, p, o, ps, os, m, i)} :: TurnNeeds(c, p, o, ps, os, m, i)
    ensures CreatedNames(c, p, o, m, n) == [] <==> Months(m, n) <= ps && Months(m, n) <= os
  {
    if n == 0 {
      MonthsWithin(m, 0, ps);
      MonthsWithin(m, 0, os);
    } else {
      AllTurns(c, p, o, ps, os, m, n - 1);
      assert TurnNeeds(c, p, o, ps, os, m, n - 1);
      MonthsWithin(m, n - 1, ps);
      MonthsWithin(m, n - 1, os);
    }
  }

  /** A run creates nothing exactly if every month of its range was there, so a rerun in the same
      month creates nothing. */
  lemma NothingNewIff(c: Catalog, p: Family, o: Family, ps: set<nat>, os: set<nat>, m: nat, n: nat)
    requires Proper(p) && Proper(o) && Has(c.payments, p, ps) && Has(c.outbox, o, os)
    ensures CreatedNames(c, p, o, m, n) == [] <==> Months(m, n) <= ps && Months(m, n) <= os
  {
    forall i: nat ensures TurnNeeds(c, p, o, ps, os, m, i) { OneMoreTurn(c, p, o, ps, os, m, i); }
    AllTurns(c, p, o, ps, os, m, n);
  }

  /** Whether turn `n` finds its partition there. */
  lemma TurnFinds(parts: map<string, Range>, f: Family, ks: set<nat>, m: nat, n: nat)
    requires Proper(f) && Has(parts, f, ks)
    ensures f.name(m + n) in AfterTurns(parts, f, m, n) <==> m + n in ks
  {
    TurnsEnsureMonths(parts, f, ks, m, n);
    MonthsStep(ks, m, n);
  }

  // ----- sequences of runs --------------------------------------------------------------------------------

  /** The months covered after runs in the months `ms`, each `n` months ahead, if `ks` were before. */
  function CoveredFrom(ks: set<nat>, ms: seq<nat>, n: nat): set<nat> {
    if ms == [] then ks else CoveredFrom(ks, ms[..|ms| - 1], n) + Months(ms[|ms| - 1], n + 1)
  }

  ghost predicate InOrder(ms: seq<nat>) {
    forall i, j | 0 <= i < j < |ms| :: ms[i] <= ms[j]
  }

  /** Some run has the month in its range. */
  ghost predicate InRange(ms: seq<nat>, n: nat, k: nat) {
    exists i :: 0 <= i < |ms| && ms[i] <= k <= ms[i] + n
  }

  lemma {:induction false} CoveredIff(ks: set<nat>, ms: seq<nat>, n: nat, k: nat)
    ensures k in CoveredFrom(ks, ms, n) <==> k in ks || InRange(ms, n, k)
  {
    if ms != [] {
      var last := |ms| - 1;
      CoveredIff(ks, ms[..last], n, k);
      assert forall i | 0 <= i < last :: ms[..last][i] == ms[i];
      if InRange(ms[..last], n, k) {
        var i :| 0 <= i < last && ms[..last][i] <= k <= ms[..last][i] + n;
        assert ms[i] <= k <= ms[i] + n;
      }
    }
  }

  /** At the time of a run, before it does anything, the current month is covered exactly if it was
      there at the start or the run before reached as far. */
  lemma CoveredOnArrival(ks: set<nat>, ms: seq<nat>, n: nat)
    requires InOrder(ms) && |ms| >= 2
    ensures var last := |ms| - 1;
            ms[last] in CoveredFrom(ks, ms[..last], n) <==> ms[last] in ks || ms[last] <= ms[last - 1] + n
  {
    var last := |ms| - 1;
    CoveredIff(ks, ms[..last], n, ms[last]);
    if ms[last] <= ms[last - 1] + n { assert ms[..last][last - 1] <= ms[last]; }
  }

  /** Between the range of a run and the next run there are only months of `ks`. */
  ghost predicate GapsFilled(ks: set<nat>, ms: seq<nat>, n: nat) {
    forall i, k | 0 <= i < |ms| - 1 && ms[i] + n < k < ms[i + 1] :: k in ks
  }

  /** No month from the first run to the end of the last range is left out if and only if those that
      fall between the range of a run and the next run were there at the start. */
  lemma NoGapIff(ks: set<nat>, ms: seq<nat>, n: nat)
    requires InOrder(ms) && ms != []
    ensures (forall k | ms[0] <= k <= ms[|ms| - 1] + n :: k in CoveredFrom(ks, ms, n)) <==> GapsFilled(ks, ms, n)
  {
    if GapsFilled(ks, ms, n) {
      forall k | ms[0] <= k <= ms[|ms| - 1] + n ensures k in CoveredFrom(ks, ms, n) { NoGapAt(ks, ms, n, k); }
    } else {
      var i, k :| 0 <= i < |ms| - 1 && ms[i] + n < k < ms[i + 1] && k !in ks;
      CoveredIff(ks, ms, n, k);
      assert forall j | 0 <= j < |ms| :: j <= i || ms[i + 1] <= ms[j];
      assert forall j | 0 <= j <= i :: ms[j] <= ms[i];
      assert k !in CoveredFrom(ks, ms, n);
      assert ms[0] <= k <= ms[|ms| - 1] + n;
    }
  }

  lemma {:induction false} NoGapAt(ks: set<nat>, ms: seq<nat>, n: nat, k: nat)
    requires InOrder(ms) && ms != [] && ms[0] <= k <= ms[|ms| - 1] + n && GapsFilled(ks, ms, n)
    ensures k in CoveredFrom(ks, ms, n)
    decreases |ms|
  {
    var last := |ms| - 1;
    if k < ms[last] {
      if ms[last - 1] + n < k {
        assert ms[last - 1 + 1] == ms[last];
        CoveredIff(ks, ms, n, k);
      } else {
        assert GapsFilled(ks, ms[..last], n);
        NoGapAt(ks, ms[..last], n, k);
      }
    }
  }

  /** Without a start this means that no run comes more than a month after the range of the last. */
  lemma GapsFilledFromNothing(ms: seq<nat>, n: nat)
    ensures GapsFilled({}, ms, n) <==> forall i | 0 <= i < |ms| - 1 :: ms[i + 1] <= ms[i] + n + 1
  {
    if i :| 0 <= i < |ms| - 1 && ms[i + 1] > ms[i] + n + 1 {
      var none: set<nat>, k := {}, ms[i] + n + 1;
      assert ms[i] + n < k < ms[i + 1] && k !in none;
    }
  }

  /** The partitions after those runs. */
  function AfterRuns(parts: map<string, Range>, f: Family, ms: seq<nat>, n: nat): map<string, Range> {
    if ms == [] then parts else AfterTurns(AfterRuns(parts, f, ms[..|ms| - 1], n), f, ms[|ms| - 1], n + 1)
  }

  /** From no partitions, or from matching ones, the runs leave exactly the covered months. */
  lemma {:induction false} RunsEnsureMonths(parts: map<string, Range>, f: Family, ks: set<nat>, ms: seq<nat>, n: nat)
    requires Proper(f) && Has(parts, f, ks)
    ensures Has(AfterRuns(parts, f, ms, n), f, CoveredFrom(ks, ms, n))
  {
    if ms != [] {
      var init, m := ms[..|ms| - 1], ms[|ms| - 1];
      RunsEnsureMonths(parts, f, ks, init, n);
      TurnsEnsureMonths(AfterRuns(parts, f, init, n), f, CoveredFrom(ks, init, n), m, n + 1);
    }
  }

  lemma {:induction false} RunsAddOnlyMonths(parts: map<string, Range>, f: Family, ms: seq<nat>, n: nat)
    requires OnlyMonths(parts, f)
    ensures OnlyMonths(AfterRuns(parts, f, ms, n), f)
  {
    if ms != [] {
      RunsAddOnlyMonths(parts, f, ms[..|ms| - 1], n);
      TurnsAddOnlyMonths(AfterRuns(parts, f, ms[..|ms| - 1], n), f, ms[|ms| - 1], n + 1);
    }
  }

  /** From any monthly partitions, a day is stored after the runs, in whatever order they came, exactly
      if its month was there at the start or is in the range of a run. */
  lemma StoredAfterRunsIff(parts: map<string, Range>, prefix: string, ks: set<nat>, ms: seq<nat>, n: nat, day: nat)
    requires Has(parts, FamilyOf(prefix), ks) && OnlyMonths(parts, FamilyOf(prefix))
    ensures Stored(AfterRuns(parts, FamilyOf(prefix), ms, n), day)
       <==> MonthOf(day) in ks || InRange(ms, n, MonthOf(day))
  {
    var f := FamilyOf(prefix);
    FamilyIsProper(prefix);
    RunsEnsureMonths(parts, f, ks, ms, n);
    RunsAddOnlyMonths(parts, f, ms, n);
    StoredIff(AfterRuns(parts, f, ms, n), prefix, CoveredFrom(ks, ms, n), day);
    CoveredIff(ks, ms, n, MonthOf(day));
  }

  /** Every day from the month of the first run to the end of the last range is in a monthly partition
      if and only if the months between the range of a run and the next run were there at the start. */
  lemma EveryDayIsStoredIff(parts: map<string, Range>, prefix: string, ks: set<nat>, ms: seq<nat>, n: nat)
    requires Has(parts, FamilyOf(prefix), ks) && OnlyMonths(parts, FamilyOf(prefix))
    requires InOrder(ms) && ms != []
    ensures (forall day: nat | ms[0] <= MonthOf(day) <= ms[|ms| - 1] + n ::
               Stored(AfterRuns(parts, FamilyOf(prefix), ms, n), day))
       <==> GapsFilled(ks, ms, n)
  {
    NoGapIff(ks, ms, n);
    var end := AfterRuns(parts, FamilyOf(prefix), ms, n);
    if GapsFilled(ks, ms, n) {
      forall day: nat | ms[0] <= MonthOf(day) <= ms[|ms| - 1] + n ensures Stored(end, day) {
        CoveredIff(ks, ms, n, MonthOf(day));
        StoredAfterRunsIff(parts, prefix, ks, ms, n, day);
      }
    } else {
      var k: nat :| ms[0] <= k <= ms[|ms| - 1] + n && k !in CoveredFrom(ks, ms, n);
      FirstDayGrows(k, k + 1);
      OneMonth(FirstDay(k), k);
      CoveredIff(ks, ms, n, k);
      StoredAfterRunsIff(parts, prefix, ks, ms, n, FirstDay(k));
      assert !Stored(end, FirstDay(k));
    }
  }
}
