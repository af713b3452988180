/** `normalizeName`: upper-casing, punctuation to spaces, runs of white space to one space, trim.

    Upper-casing is a parameter: a full, context-free case mapping of characters to strings, of
    which only what the result depends on is assumed (`Fixes`). */
module Names {

  type CaseMap = char -> string

  predicate IsAlnum(c: char) {
    'A' <= c <= 'Z' || '0' <= c <= '9'
  }

  /** The regular expression class \s. */
  predicate IsSpace(c: char) {
    || '\t' <= c <= '\r' || c == ' ' || c == '\U{A0}' || c == '\U{1680}' || '\U{2000}' <= c <= '\U{200A}'
    || c == '\U{2028}' || c == '\U{2029}' || c == '\U{202F}' || c == '\U{205F}' || c == '\U{3000}' || c == '\U{FEFF}'
  }

  /** Upper-casing leaves A-Z, 0-9 and white space alone. */
  ghost predicate Fixes(upper: CaseMap) {
    forall c | IsAlnum(c) || IsSpace(c) :: upper(c) == [c]
  }

  function ToUpper(upper: CaseMap, s: string): string {
    if s == [] then [] else upper(s[0]) + ToUpper(upper, s[1..])
  }

  function Blank(s: string): string {
    if s == [] then []
    else [if IsAlnum(s[0]) || IsSpace(s[0]) then s[0] else ' '] + Blank(s[1..])
  }

  /** Every maximal run of white space becomes one space. */
  function Collapse(s: string): string {
    if s == [] then []
    else if !IsSpace(s[0]) then [s[0]] + Collapse(s[1..])
    else if |s| > 1 && IsSpace(s[1]) then Collapse(s[1..])
    else [' '] + Collapse(s[1..])
  }

  function TrimStart(s: string): string {
    if s != [] && IsSpace(s[0]) then TrimStart(s[1..]) else s
  }

  function TrimEnd(s: string): string {
    if s != [] && IsSpace(s[|s| - 1]) then TrimEnd(s[..|s| - 1]) else s
  }

  function NormalizeName(upper: CaseMap, name: string): string {
    TrimEnd(TrimStart(Collapse(Blank(ToUpper(upper, name)))))
  }

  // ----- the words of a name ----------------------------------------------------

  /** The maximal alphanumeric runs of `t`, `cur` being the part of the first one already read. */
  function Split(t: string, cur: string): seq<string>
    decreases |t|
  {
    if t == [] then Word(cur)
    else if IsAlnum(t[0]) then Split(t[1..], cur + [t[0]])
    else Word(cur) + Split(t[1..], [])
  }

  function Word(cur: string): seq<string> { if cur == [] then [] else [cur] }

  function Words(upper: CaseMap, name: string): seq<string> {
    Split(ToUpper(upper, name), [])
  }

  function Join(words: seq<string>): string {
    if words == [] then []
    else if |words| == 1 then words[0]
    else words[0] + " " + Join(words[1..])
  }

  ghost predicate IsWord(w: string) {
    w != [] && forall c | c in w :: IsAlnum(c)
  }

  ghost predicate AllWords(words: seq<string>) {
    forall w | w in words :: IsWord(w)
  }

  lemma {:induction false} SplitGivesWords(t: string, cur: string)
    requires cur == [] || IsWord(cur)
    ensures AllWords(Split(t, cur))
    decreases |t|
  {
    if t != [] {
      if IsAlnum(t[0]) {
        SplitGivesWords(t[1..], cur + [t[0]]);
      } else {
        SplitGivesWords(t[1..], []);
      }
    }
  }

  lemma JoinEmpty(words: seq<string>)
    requires AllWords(words)
    ensures Join(words) == [] <==> words == []
  {
    if words != [] { assert IsWord(words[0]); }
  }

  // ----- NormalizeName joins the words ---------------------------------------------

  lemma {:induction false} TrimEndAppend(x: string, y: string)
    ensures TrimEnd(x + y) == if TrimEnd(y) == [] then TrimEnd(x) else x + TrimEnd(y)
    decreases |y|
  {
    if y == [] {
      assert x + y == x;
    } else {
      var n := |y| - 1;
      assert (x + y)[..|x + y| - 1] == x + y[..n];
      assert (x + y)[|x + y| - 1] == y[n];
      if IsSpace(y[n]) { TrimEndAppend(x, y[..n]); }
    }
  }

  lemma TrimEndWord(w: string)
    requires IsWord(w)
    ensures TrimEnd(w) == w && TrimEnd(w + " ") == w
  {
    assert w[|w| - 1] in w;
    assert (w + " ")[..|w|] == w;
  }

  /** A separator in front of `t` collapses, with any white space after it, into one space. */
  lemma {:induction false} CollapseSeparator(t: string)
    requires t != [] && IsSpace(t[0])
    ensures Collapse(t) == " " + TrimStart(Collapse(t[1..]))
  {
    if |t| > 1 && IsSpace(t[1]) {
      CollapseSeparator(t[1..]);
      TrimStartTwice(Collapse(t[1..][1..]));
      assert Collapse(t[1..])[1..] == TrimStart(Collapse(t[1..][1..]));
    } else if |t| > 1 {
      assert Collapse(t[1..])[0] == t[1];
    }
  }

  lemma {:induction false} TrimStartTwice(s: string)
    ensures TrimStart(TrimStart(s)) == TrimStart(s)
  {
    if s != [] && IsSpace(s[0]) { TrimStartTwice(s[1..]); }
  }

  lemma {:induction false} AfterWord(t: string, cur: string)
    requires IsWord(cur)
    ensures TrimEnd(cur + Collapse(Blank(t))) == Join(Split(t, cur))
    decreases |t|, 1
  {
    if t == [] {
      TrimEndWord(cur);
      assert cur + Collapse(Blank(t)) == cur;
    } else if IsAlnum(t[0]) {
      assert cur + Collapse(Blank(t)) == (cur + [t[0]]) + Collapse(Blank(t[1..]));
      AfterWord(t[1..], cur + [t[0]]);
    } else {
      BetweenWords(t[1..]);
      AfterSeparator(t, cur);
    }
  }

  lemma AfterSeparator(t: string, cur: string)
    requires t != [] && !IsAlnum(t[0]) && IsWord(cur)
    requires TrimEnd(TrimStart(Collapse(Blank(t[1..])))) == Join(Split(t[1..], []))
    ensures TrimEnd(cur + Collapse(Blank(t))) == Join(Split(t, cur))
  {
    SplitGivesWords(t[1..], []);
    SeparatorCollapses(t, cur);
    WordAndRest(cur, TrimStart(Collapse(Blank(t[1..]))), Split(t[1..], []));
  }

  lemma SeparatorCollapses(t: string, cur: string)
    requires t != [] && !IsAlnum(t[0])
    ensures cur + Collapse(Blank(t)) == (cur + " ") + TrimStart(Collapse(Blank(t[1..])))
  {
    BlankHead(t);
    CollapseSeparator(Blank(t));
    Regroup(cur, " ", TrimStart(Collapse(Blank(t[1..]))));
  }

  lemma BlankHead(t: string)
    requires t != [] && !IsAlnum(t[0])
    ensures Blank(t) != [] && IsSpace(Blank(t)[0]) && Blank(t)[1..] == Blank(t[1..])
  {
  }

  lemma Regroup(x: string, y: string, z: string)
    ensures x + (y + z) == (x + y) + z
  {
  }

  lemma WordAndRest(cur: string, rest: string, words: seq<string>)
    requires IsWord(cur) && AllWords(words) && TrimEnd(rest) == Join(words)
    ensures TrimEnd((cur + " ") + rest) == Join([cur] + words)
  {
    TrimEndAppend(cur + " ", rest);
    TrimEndWord(cur);
    JoinEmpty(words);
    assert ([cur] + words)[1..] == words;
  }

  lemma {:induction false} BetweenWords(t: string)
    ensures TrimEnd(TrimStart(Collapse(Blank(t)))) == Join(Split(t, []))
    decreases |t|, 0
  {
    if t != [] {
      if IsAlnum(t[0]) {
        AfterWord(t[1..], [t[0]]);
        assert [] + [t[0]] == [t[0]];
        assert Collapse(Blank(t)) == [t[0]] + Collapse(Blank(t[1..]));
      } else {
        CollapseSeparator(Blank(t));
        assert (" " + TrimStart(Collapse(Blank(t[1..]))))[1..] == TrimStart(Collapse(Blank(t[1..])));
        TrimStartTwice(Collapse(Blank(t[1..])));
        BetweenWords(t[1..]);
        assert Split(t, []) == [] + Split(t[1..], []) == Split(t[1..], []);
      }
    }
  }

  /** The normal form is the words of the upper-cased name, joined by single spaces. */
  lemma NormalizeJoinsWords(upper: CaseMap, name: string)
    ensures NormalizeName(upper, name) == Join(Words(upper, name))
    ensures AllWords(Words(upper, name))
  {
    BetweenWords(ToUpper(upper, name));
    SplitGivesWords(ToUpper(upper, name), []);
  }

  // ----- words can be read back -----------------------------------------------------

  lemma {:induction false} SplitWord(w: string, t: string, cur: string)
    requires forall c | c in w :: IsAlnum(c)
    ensures Split(w + t, cur) == Split(t, cur + w)
    decreases |w|
  {
    if w == [] {
      assert w + t == t && cur + w == cur;
    } else {
      assert (w + t)[1..] == w[1..] + t;
      assert w[0] in w;
      SplitWord(w[1..], t, cur + [w[0]]);
      assert cur + [w[0]] + w[1..] == cur + w;
    }
  }

  lemma {:induction false} SplitJoin(words: seq<string>)
    requires AllWords(words)
    ensures Split(Join(words), []) == words
  {
    if words != [] {
      var w := words[0];
      assert IsWord(w) && [] + w == w;
      if |words| == 1 {
        SplitWord(w, [], []);
        assert w + [] == w;
      } else {
        var rest := Join(words[1..]);
        SplitJoin(words[1..]);
        SplitWord(w, " " + rest, []);
        assert w + " " + rest == w + (" " + rest);
        assert (" " + rest)[1..] == rest;
        assert [w] + words[1..] == words;
      }
    }
  }

  /** Two names have one normal form exactly when they have the same words. */
  lemma SameNormalForm(upper: CaseMap, x: string, y: string)
    ensures NormalizeName(upper, x) == NormalizeName(upper, y) <==> Words(upper, x) == Words(upper, y)
  {
    NormalizeJoinsWords(upper, x);
    NormalizeJoinsWords(upper, y);
    SplitJoin(Words(upper, x));
    SplitJoin(Words(upper, y));
  }

  lemma {:induction false} ToUpperFixed(upper: CaseMap, s: string)
    requires Fixes(upper)
    requires forall c | c in s :: IsAlnum(c) || IsSpace(c)
    ensures ToUpper(upper, s) == s
  {
    if s != [] {
      assert s[0] in s;
      ToUpperFixed(upper, s[1..]);
      assert s == [s[0]] + s[1..];
    }
  }

  lemma {:induction false} JoinChars(words: seq<string>)
    requires AllWords(words)
    ensures forall c | c in Join(words) :: IsAlnum(c) || c == ' '
  {
    if words != [] {
      assert IsWord(words[0]);
      JoinChars(words[1..]);
    }
  }

  /** Normalizing a normal form changes nothing, and it has the words of the name. */
  lemma NormalizeIsIdempotent(upper: CaseMap, name: string)
    requires Fixes(upper)
    ensures NormalizeName(upper, NormalizeName(upper, name)) == NormalizeName(upper, name)
    ensures Words(upper, NormalizeName(upper, name)) == Words(upper, name)
  {
    var n := NormalizeName(upper, name);
    NormalizeJoinsWords(upper, name);
    JoinChars(Words(upper, name));
    ToUpperFixed(upper, n);
    SplitJoin(Words(upper, name));
    NormalizeJoinsWords(upper, n);
  }

  // ----- in plain terms ----------------------------------------------------------------------

  /** Upper-casing maps every character, in place. */
  lemma {:induction false} ToUpperMaps(upper: CaseMap, x: string, c: char, y: string)
    ensures ToUpper(upper, x + [c] + y) == ToUpper(upper, x) + upper(c) + ToUpper(upper, y)
    ensures ToUpper(upper, [c]) == upper(c) && ToUpper(upper, []) == []
  {
    if x == [] {
      assert ([] + [c] + y)[1..] == y;
      assert ToUpper(upper, x) + upper(c) == upper(c);
    } else {
      assert (x + [c] + y)[1..] == x[1..] + [c] + y;
      ToUpperMaps(upper, x[1..], c, y);
      assert upper(x[0]) + (ToUpper(upper, x[1..]) + upper(c) + ToUpper(upper, y))
          == upper(x[0]) + ToUpper(upper, x[1..]) + upper(c) + ToUpper(upper, y);
    }
  }

  lemma {:induction false} ToUpperAgrees(upper: CaseMap, x: string, y: string)
    requires |x| == |y| && forall i | 0 <= i < |x| :: upper(x[i]) == upper(y[i])
    ensures ToUpper(upper, x) == ToUpper(upper, y)
  {
    if x != [] { ToUpperAgrees(upper, x[1..], y[1..]); }
  }

  /** Names that differ in case only have one normal form. */
  lemma CaseDoesNotMatter(upper: CaseMap, x: string, y: string)
    requires |x| == |y| && forall i | 0 <= i < |x| :: upper(x[i]) == upper(y[i])
    ensures NormalizeName(upper, x) == NormalizeName(upper, y)
  {
    ToUpperAgrees(upper, x, y);
  }

  lemma {:induction false} SplitAppend(x: string, c: char, y: string, cur: string)
    requires !('A' <= c <= 'Z' || '0' <= c <= '9')
    ensures Split(x + [c] + y, cur) == Split(x, cur) + Split(y, [])
    decreases |x|
  {
    if x == [] {
      assert ([] + [c] + y)[0] == c && ([] + [c] + y)[1..] == y;
    } else {
      assert (x + [c] + y)[1..] == x[1..] + [c] + y;
      if IsAlnum(x[0]) {
        SplitAppend(x[1..], c, y, cur + [x[0]]);
      } else {
        SplitAppend(x[1..], c, y, []);
        assert Word(cur) + (Split(x[1..], []) + Split(y, [])) == Word(cur) + Split(x[1..], []) + Split(y, []);
      }
    }
  }

  /** A character that upper-casing leaves alone and that is not A-Z or 0-9 separates words, and is not part
      of any: any punctuation and any white space. */
  lemma SeparatorsSeparate(upper: CaseMap, x: string, c: char, y: string)
    requires upper(c) == [c] && !('A' <= c <= 'Z' || '0' <= c <= '9')
    ensures Words(upper, x + [c] + y) == Words(upper, x) + Words(upper, y)
  {
    ToUpperMaps(upper, x, c, y);
    SplitAppend(ToUpper(upper, x), c, ToUpper(upper, y), []);
  }

  /** A name whose upper-cased characters are A-Z and 0-9 is one word. */
  lemma OneWord(upper: CaseMap, w: string)
    requires ToUpper(upper, w) != [] && forall c | c in ToUpper(upper, w) :: 'A' <= c <= 'Z' || '0' <= c <= '9'
    ensures Words(upper, w) == [ToUpper(upper, w)] && NormalizeName(upper, w) == ToUpper(upper, w)
  {
    var u := ToUpper(upper, w);
    SplitWord(u, [], []);
    assert u + [] == u && [] + u == u;
    NormalizeJoinsWords(upper, w);
  }

  /** Words of A-Z and 0-9, one space apart. */
  ghost predicate IsPlain(words: seq<string>) {
    forall w | w in words :: w != "" && forall c | c in w :: 'A' <= c <= 'Z' || '0' <= c <= '9'
  }

  /** Such a name is its own normal form. */
  lemma PlainIsNormal(upper: CaseMap, words: seq<string>)
    requires IsPlain(words)
    requires forall c | 'A' <= c <= 'Z' || '0' <= c <= '9' || c == ' ' :: upper(c) == [c]
    ensures NormalizeName(upper, Join(words)) == Join(words)
  {
    assert AllWords(words) by { assert forall w | w in words :: IsWord(w); }
    JoinChars(words);
    ToUpperPlain(upper, Join(words));
    NormalizeJoinsWords(upper, Join(words));
    SplitJoin(words);
  }

  lemma {:induction false} ToUpperPlain(upper: CaseMap, s: string)
    requires forall c | c in s :: upper(c) == [c]
    ensures ToUpper(upper, s) == s
  {
    if s != [] {
      assert s[0] in s;
      ToUpperPlain(upper, s[1..]);
      assert s == [s[0]] + s[1..];
    }
  }

  /** `Join` puts one space between words. */
  lemma JoinIs(w: string, words: seq<string>)
    ensures Join([]) == "" && Join([w]) == w
    ensures words != [] ==> Join([w] + words) == w + " " + Join(words)
  {
    if words != [] { assert ([w] + words)[1..] == words; }
  }
}
