/** `OfacSdnSanctionsAdapter.screen`: the best score over the list, then a threshold. */
module Screening {
  import Names
  import JaroWinkler

  /** An entry of the active list. `SanctionsListStore` keeps the name normalized. */
  datatype Entry = Entry(normalizedName: string, displayName: string)

  datatype Result = Clear | PotentialMatch(matched: string, score: real) | Hit(matched: string, score: real)
  {
    function Severity(): nat {
      match this
      case Clear => 0
      case PotentialMatch(_, _) => 1
      case Hit(_, _) => 2
    }
  }

  function ListedNames(entries: seq<Entry>): set<string> {
    set e | e in entries :: e.normalizedName
  }

  /** Some listed name scores at least `threshold`. */
  ghost predicate Reaches(name: string, listed: set<string>, threshold: real) {
    exists n :: n in listed && JaroWinkler.Winkler(name, n) >= threshold
  }

  /** What the screening should say, from the names on the list alone. */
  ghost function ExpectedSeverity(name: string, listed: set<string>, threshold: real): nat {
    if name in listed && threshold <= 1.0 then 2
    else if Reaches(name, listed, threshold) then 1
    else 0
  }

  ghost function Score(name: string, e: Entry): real {
    JaroWinkler.Winkler(name, e.normalizedName)
  }

  ghost function Scores(name: string, entries: seq<Entry>): (scores: seq<real>)
    ensures |scores| == |entries|
  {
    if entries == [] then []
    else Scores(name, entries[..|entries| - 1]) + [Score(name, entries[|entries| - 1])]
  }

  lemma {:induction false} ScoresAt(name: string, entries: seq<Entry>, i: nat)
    requires i < |entries|
    ensures Scores(name, entries)[i] == Score(name, entries[i])
  {
    if i < |entries| - 1 { ScoresAt(name, entries[..|entries| - 1], i); }
  }

  ghost predicate IsScore(name: string, e: Entry, score: real) { score == Score(name, e) }

  ghost predicate AreScores(scores: seq<real>, name: string, entries: seq<Entry>) {
    && |scores| == |entries|
    && forall i {:trigger IsScore(name, entries[i], scores[i])} | 0 <= i < |entries| ::
         IsScore(name, entries[i], scores[i])
  }

  lemma ScoresAre(name: string, entries: seq<Entry>)
    ensures AreScores(Scores(name, entries), name, entries)
  {
    forall i | 0 <= i < |entries| ensures IsScore(name, entries[i], Scores(name, entries)[i]) {
      ScoresAt(name, entries, i);
    }
  }

  /** `k` is the first position of the largest score. */
  ghost predicate IsFirstBest(scores: seq<real>, k: nat) {
    && k < |scores|
    && (forall i | 0 <= i < |scores| :: scores[i] <= scores[k])
    && (forall i | 0 <= i < k :: scores[i] < scores[k])
  }

  /** The score of entry `i`: 1 if the names are equal, else their similarity. */
  method EntryScore(normalized: string, entries: seq<Entry>, i: nat, ghost scores: seq<real>) returns (score: real)
    requires AreScores(scores, normalized, entries) && i < |entries|
    ensures score == scores[i]
  {
    assert IsScore(normalized, entries[i], scores[i]);
    JaroWinkler.Range(normalized, entries[i].normalizedName);
    if entries[i].normalizedName == normalized {
      score := 1.0;
    } else {
      score := JaroWinkler.JaroWinklerSimilarity(normalized, entries[i].normalizedName);
    }
  }

  /** The loop over the list. The entry it keeps is the first with the largest score. */
  method BestEntry(normalized: string, entries: seq<Entry>, ghost scores: seq<real>) returns (best: nat, score: real)
    requires entries != [] && AreScores(scores, normalized, entries)
    ensures IsFirstBest(scores, best) && score == scores[best]
  {
    best := 0;
    score := 0.0;
    for i := 0 to |entries|
      invariant i > 0 ==> best < i && score == scores[best]
      invariant forall k | 0 <= k < i :: scores[k] <= score
      invariant i > 0 ==> forall k | 0 <= k < best :: scores[k] < score
    {
      var s := EntryScore(normalized, entries, i, scores);
      if i == 0 || s > score {
        best, score := i, s;
      }
    }
  }

  /** Status, entry and score of a screening, for any list and any threshold. */
  method Screen(upper: Names.CaseMap, name: string, entries: seq<Entry>, matchThreshold: real) returns (r: Result)
    ensures r.Severity() == ExpectedSeverity(Names.NormalizeName(upper, name), ListedNames(entries), matchThreshold)
    ensures r.Clear? <==> forall e | e in entries :: Below(Names.NormalizeName(upper, name), e, matchThreshold)
    ensures r.Hit? <==> matchThreshold <= 1.0
                        && exists e :: e in entries && e.normalizedName == Names.NormalizeName(upper, name)
    ensures !r.Clear? ==>
      var scores := Scores(Names.NormalizeName(upper, name), entries);
      exists k: nat :: IsFirstBest(scores, k) && r.matched == entries[k].displayName && r.score == scores[k]
  {
    var normalized := Names.NormalizeName(upper, name);
    SeverityIs(normalized, entries, matchThreshold);
    if entries == [] { return Clear; }
    ScoresAre(normalized, entries);
    var best, score := BestEntry(normalized, entries, Scores(normalized, entries));
    BestDecides(normalized, entries, best, matchThreshold);
    if score < matchThreshold { return Clear; }
    if score == 1.0 {
      r := Hit(entries[best].displayName, score);
    } else {
      r := PotentialMatch(entries[best].displayName, score);
    }
  }

  ghost predicate Below(name: string, e: Entry, threshold: real) {
    JaroWinkler.Winkler(name, e.normalizedName) < threshold
  }

  lemma SeverityIs(name: string, entries: seq<Entry>, threshold: real)
    ensures ExpectedSeverity(name, ListedNames(entries), threshold) == 0
       <==> forall e | e in entries :: Below(name, e, threshold)
    ensures ExpectedSeverity(name, ListedNames(entries), threshold) == 2
       <==> threshold <= 1.0 && exists e :: e in entries && e.normalizedName == name
  {
    var listed := ListedNames(entries);
    JaroWinkler.Range(name, name);
    if Reaches(name, listed, threshold) {
      var n :| n in listed && JaroWinkler.Winkler(name, n) >= threshold;
      var e :| e in entries && e.normalizedName == n;
      assert !Below(name, e, threshold);
    }
    if e :| e in entries && !Below(name, e, threshold) {
      assert e.normalizedName in listed;
      assert Reaches(name, listed, threshold);
    }
    if name in listed {
      var e :| e in entries && e.normalizedName == name;
      assert threshold <= 1.0 ==> !Below(name, e, threshold);
    }
  }

  /** The largest score alone decides: it is 1 exactly if the name is listed. */
  lemma BestDecides(name: string, entries: seq<Entry>, k: nat, threshold: real)
    requires IsFirstBest(Scores(name, entries), k)
    ensures Scores(name, entries)[k] == 1.0 <==> name in ListedNames(entries)
    ensures Scores(name, entries)[k] >= threshold <==> Reaches(name, ListedNames(entries), threshold)
    ensures Scores(name, entries)[k] <= 1.0
  {
    ScoresAt(name, entries, k);
    JaroWinkler.Range(name, entries[k].normalizedName);
    assert entries[k].normalizedName in ListedNames(entries);
    if name in ListedNames(entries) {
      var e :| e in entries && e.normalizedName == name;
      var i :| 0 <= i < |entries| && entries[i] == e;
      JaroWinkler.Range(name, name);
      ScoresAt(name, entries, i);
    }
    if Reaches(name, ListedNames(entries), threshold) {
      var n :| n in ListedNames(entries) && JaroWinkler.Winkler(name, n) >= threshold;
      var e :| e in entries && e.normalizedName == n;
      var i :| 0 <= i < |entries| && entries[i] == e;
      ScoresAt(name, entries, i);
    }
  }

  /** Reordering or repeating entries changes nothing, and adding entries never makes the
      outcome less severe. */
  lemma SeverityGrows(name: string, entries: seq<Entry>, entries': seq<Entry>, threshold: real)
    requires forall e | e in entries :: e in entries'
    ensures ExpectedSeverity(name, ListedNames(entries), threshold)
         <= ExpectedSeverity(name, ListedNames(entries'), threshold)
    ensures multiset(entries) == multiset(entries') ==> ListedNames(entries) == ListedNames(entries')
  {
    if Reaches(name, ListedNames(entries), threshold) {
      var n :| n in ListedNames(entries) && JaroWinkler.Winkler(name, n) >= threshold;
      assert n in ListedNames(entries');
    }
    if multiset(entries) == multiset(entries') {
      assert forall e :: e in entries <==> e in multiset(entries);
      assert forall e :: e in entries' <==> e in multiset(entries');
      assert ListedNames(entries) == ListedNames(entries');
    }
  }

  /** A lower threshold is never less severe. */
  lemma SeverityByThreshold(name: string, listed: set<string>, t: real, t': real)
    requires t <= t'
    ensures ExpectedSeverity(name, listed, t') <= ExpectedSeverity(name, listed, t)
  {
    if Reaches(name, listed, t') {
      var n :| n in listed && JaroWinkler.Winkler(name, n) >= t';
      assert Reaches(name, listed, t);
    }
  }

  /** Normalizing a name before it is screened changes nothing. */
  lemma PreNormalizing(upper: Names.CaseMap, name: string, listed: set<string>, threshold: real)
    requires Names.Fixes(upper)
    ensures ExpectedSeverity(Names.NormalizeName(upper, Names.NormalizeName(upper, name)), listed, threshold)
         == ExpectedSeverity(Names.NormalizeName(upper, name), listed, threshold)
  {
    Names.NormalizeIsIdempotent(upper, name);
  }

  /** Who is screened against whom does not matter: a name reaches a one-entry list exactly
      when that entry, screened, reaches a list of the name. */
  lemma ScreeningIsMutual(x: string, y: string, threshold: real)
    ensures ExpectedSeverity(x, {y}, threshold) == ExpectedSeverity(y, {x}, threshold)
  {
    JaroWinkler.Symmetric(x, y);
    assert Reaches(x, {y}, threshold) <==> JaroWinkler.Winkler(x, y) >= threshold;
    assert Reaches(y, {x}, threshold) <==> JaroWinkler.Winkler(y, x) >= threshold;
  }

  /** With a threshold of at most 1, a listed name is a hit whatever its spelling. */
  lemma ListedNameIsHit(upper: Names.CaseMap, name: string, listed: string, entries: seq<Entry>, threshold: real)
    requires threshold <= 1.0
    requires Entry(Names.NormalizeName(upper, listed), listed) in entries
    requires Names.Words(upper, name) == Names.Words(upper, listed)
    ensures ExpectedSeverity(Names.NormalizeName(upper, name), ListedNames(entries), threshold) == 2
  {
    Names.SameNormalForm(upper, name, listed);
    assert Entry(Names.NormalizeName(upper, listed), listed).normalizedName in ListedNames(entries);
  }

  /** A listed name in any mixture of case is a hit. */
  lemma ListedInAnyCase(upper: Names.CaseMap, name: string, listed: string, entries: seq<Entry>, threshold: real)
    requires threshold <= 1.0
    requires Entry(Names.NormalizeName(upper, listed), listed) in entries
    requires |name| == |listed| && forall i | 0 <= i < |name| :: upper(name[i]) == upper(listed[i])
    ensures ExpectedSeverity(Names.NormalizeName(upper, name), ListedNames(entries), threshold) == 2
  {
    Names.CaseDoesNotMatter(upper, name, listed);
    assert Entry(Names.NormalizeName(upper, listed), listed).normalizedName in ListedNames(entries);
  }
}
