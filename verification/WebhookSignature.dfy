/** The header `t=<unix seconds>,v1=<hex HMAC>` of outbound webhooks: `signOmniSwitchPayload` prints
    it, `verifyWebhookSignature` parses and checks it. HMAC-SHA256 is a parameter. */
module WebhookSignature {
  import opened Options
  import opened Decimal
  import Names

  type Byte = b: int | 0 <= b < 256

  type Digest = d: seq<Byte> | |d| == 32 witness seq(32, _ => 0)

  /** (secret, message) to digest. */
  type Hmac = (string, string) -> Digest

  // ----- hexadecimal ------------------------------------------------------------------------

  function HexDigit(d: nat): char
    requires d < 16
  {
    if d < 10 then '0' + d as char else 'a' + (d - 10) as char
  }

  /** Both cases are read. */
  function HexValue(c: char): (r: Option<nat>)
    ensures r.Some? ==> r.value < 16
  {
    if '0' <= c <= '9' then Some((c - '0') as nat)
    else if 'a' <= c <= 'f' then Some((c - 'a') as nat + 10)
    else if 'A' <= c <= 'F' then Some((c - 'A') as nat + 10)
    else None
  }

  function HexEncode(bytes: seq<Byte>): string {
    if bytes == [] then [] else [HexDigit(bytes[0] / 16), HexDigit(bytes[0] % 16)] + HexEncode(bytes[1..])
  }

  /** `Buffer.from(s, 'hex')`: pairs of digits, up to the first that is not one. */
  function HexDecode(s: string): seq<Byte> {
    if |s| < 2 || HexValue(s[0]).None? || HexValue(s[1]).None? then []
    else [(HexValue(s[0]).value * 16 + HexValue(s[1]).value) as Byte] + HexDecode(s[2..])
  }

  predicate IsHexChar(c: char) { '0' <= c <= '9' || 'a' <= c <= 'f' }

  lemma {:induction false} HexRoundTrip(bytes: seq<Byte>)
    ensures HexDecode(HexEncode(bytes)) == bytes
    ensures forall c | c in HexEncode(bytes) :: IsHexChar(c)
    ensures |HexEncode(bytes)| == 2 * |bytes|
  {
    if bytes != [] {
      HexRoundTrip(bytes[1..]);
      assert HexEncode(bytes)[2..] == HexEncode(bytes[1..]);
      assert HexValue(HexDigit(bytes[0] / 16)) == Some(bytes[0] / 16);
      assert HexValue(HexDigit(bytes[0] % 16)) == Some(bytes[0] % 16);
    }
  }

  /** The digits, written and read: the lower-case ones are printed, and both cases are read. */
  lemma HexDigitsAre(d: nat, c: char)
    requires d < 16
    ensures HexDigit(d) == "0123456789abcdef"[d]
    ensures HexValue(c) == Some(d) <==> c == "0123456789abcdef"[d] || c == "0123456789ABCDEF"[d]
  {
    assert "0123456789abcdef"[..10] == "0123456789ABCDEF"[..10];
  }

  /** A byte is printed as its high digit and its low digit. */
  lemma HexEncodeIs(b: Byte, bytes: seq<Byte>)
    ensures HexEncode([]) == ""
    ensures HexEncode([b] + bytes) == ["0123456789abcdef"[b / 16], "0123456789abcdef"[b % 16]] + HexEncode(bytes)
  {
    HexDigitsAre(b / 16, 'a');
    HexDigitsAre(b % 16, 'a');
    assert ([b] + bytes)[1..] == bytes;
  }

  /** Two digits are read as one byte, and reading stops at anything else. */
  lemma HexDecodeIs(c: char, d: char, s: string)
    ensures HexDecode("") == [] && HexDecode([c]) == []
    ensures HexValue(c).Some? && HexValue(d).Some? ==>
              HexDecode([c, d] + s) == [(HexValue(c).value * 16 + HexValue(d).value) as Byte] + HexDecode(s)
    ensures HexValue(c).None? || HexValue(d).None? ==> HexDecode([c, d] + s) == []
  {
    assert ([c, d] + s)[2..] == s;
  }

  /** What is decoded comes from twice as many characters at the front, and what follows them is not read. */
  lemma {:induction false} HexDecodePrefix(s: string)
    ensures 2 * |HexDecode(s)| <= |s|
    ensures HexDecode(s[..2 * |HexDecode(s)|]) == HexDecode(s)
  {
    if HexDecode(s) != [] {
      var rest, n := s[2..], |HexDecode(s[2..])|;
      HexDecodePrefix(rest);
      assert s[..2 * n + 2][2..] == rest[..2 * n];
    }
  }

  // ----- splitting --------------------------------------------------------------------------

  function IndexOf(s: string, sep: char): (i: nat)
    ensures i <= |s| && (i < |s| ==> s[i] == sep) && sep !in s[..i]
  {
    if s == [] || s[0] == sep then 0
    else
      var i := 1 + IndexOf(s[1..], sep);
      assert s[..i] == [s[0]] + s[1..][..i - 1];
      i
  }

  function Split(s: string, sep: char): (parts: seq<string>)
    ensures parts != []
  {
    var i := IndexOf(s, sep);
    if i == |s| then [s] else [s[..i]] + Split(s[i + 1..], sep)
  }

  lemma {:induction false} IndexOfFirst(a: string, sep: char, b: string)
    requires sep !in a
    ensures IndexOf(a + [sep] + b, sep) == |a|
  {
    if a != [] {
      assert a[0] in a;
      assert (a + [sep] + b)[1..] == a[1..] + [sep] + b;
      IndexOfFirst(a[1..], sep, b);
    }
  }

  lemma SplitAt(a: string, sep: char, b: string)
    requires sep !in a
    ensures Split(a + [sep] + b, sep) == [a] + Split(b, sep)
  {
    IndexOfFirst(a, sep, b);
    assert (a + [sep] + b)[..|a|] == a && (a + [sep] + b)[|a| + 1..] == b;
  }

  lemma SplitWhole(a: string, sep: char)
    requires sep !in a
    ensures Split(a, sep) == [a]
  {
    assert forall k | 0 <= k < |a| :: a[k] != sep;
  }

  // ----- signing -----------------------------------------------------------------------------

  function Message(t: string, body: string): string { t + "." + body }

  function HeaderOf(t: string, hex: string): string { "t=" + t + ",v1=" + hex }

  /** `signOmniSwitchPayload`, at `now` milliseconds. */
  function Sign(hmac: Hmac, secret: string, body: string, now: nat): string {
    var t := Print(now / 1000);
    HeaderOf(t, HexEncode(hmac(secret, Message(t, body))))
  }

  // ----- verifying -----------------------------------------------------------------------------

  /** One turn of the fold: the first two pieces of `part`, if neither is missing or empty. */
  function Absorb(acc: map<string, string>, part: string): map<string, string> {
    var pieces := Split(part, '=');
    if |pieces| >= 2 && pieces[0] != "" && pieces[1] != "" then acc[pieces[0] := pieces[1]] else acc
  }

  function Absorbed(parts: seq<string>): map<string, string> {
    if parts == [] then map[] else Absorb(Absorbed(parts[..|parts| - 1]), parts[|parts| - 1])
  }

  function DigitsOf(s: string): (d: string)
    ensures forall c | c in d :: IsDigit(c)
  {
    if s == [] || !IsDigit(s[0]) then [] else [s[0]] + DigitsOf(s[1..])
  }

  /** `parseInt(s, 10)`: white space, a sign, then the digits there are; None for NaN. */
  function ParseInt(s: string): Option<int> {
    var u := Names.TrimStart(s);
    var minus := u != [] && u[0] == '-';
    var digits := DigitsOf(if u != [] && (u[0] == '-' || u[0] == '+') then u[1..] else u);
    if digits == [] then None else Some(if minus then 0 - Value(digits) else Value(digits))
  }

  lemma {:induction false} DigitsOfAll(s: string)
    requires forall c | c in s :: IsDigit(c)
    ensures DigitsOf(s) == s
  {
    if s != [] {
      assert s[0] in s;
      DigitsOfAll(s[1..]);
      assert s == [s[0]] + s[1..];
    }
  }

  lemma ParseIntOfPrint(n: nat)
    ensures ParseInt(Print(n)) == Some(n)
  {
    var s := Print(n);
    assert s[0] in s;
    DigitsOfAll(s);
    ValueOfPrint(n);
  }

  function Abs(x: int): nat { if x < 0 then -x else x }

  /** The fold over the parts of the header. */
  method ParseHeader(header: string) returns (acc: map<string, string>)
    ensures acc == Absorbed(Split(header, ','))
  {
    var parts := Split(header, ',');
    acc := map[];
    for i := 0 to |parts|
      invariant acc == Absorbed(parts[..i])
    {
      var pieces := Split(parts[i], '=');
      if |pieces| >= 2 && pieces[0] != "" && pieces[1] != "" {
        acc := acc[pieces[0] := pieces[1]];
      }
      assert parts[..i + 1][..i] == parts[..i];
    }
    assert parts[..|parts|] == parts;
  }

  /** The decision once the header is parsed. */
  predicate Accepts(hmac: Hmac, secret: string, body: string, parts: map<string, string>,
                    toleranceSeconds: int, now: int)
  {
    && "t" in parts && "v1" in parts
    && var time := ParseInt(parts["t"]);
       && time.Some?
       && Abs(now - time.value * 1000) <= toleranceSeconds * 1000
       && HexDecode(parts["v1"]) == hmac(secret, Message(parts["t"], body))
  }

  /** A key holds the value of the last part that gives it one. */
  lemma AbsorbedIs(parts: seq<string>, part: string, key: string)
    ensures Absorbed([]) == map[]
    ensures var acc, acc', pieces := Absorbed(parts), Absorbed(parts + [part]), Split(part, '=');
            if |pieces| >= 2 && pieces[0] == key && key != "" && pieces[1] != ""
            then key in acc' && acc'[key] == pieces[1]
            else (key in acc' <==> key in acc) && (key in acc ==> acc'[key] == acc[key])
  {
    assert (parts + [part])[..|parts|] == parts;
  }

  /** A time is read from the digits up to the first character that is not one. */
  lemma {:induction false} DigitsOfPrefix(digits: string, rest: string)
    requires forall i | 0 <= i < |digits| :: '0' <= digits[i] <= '9'
    requires rest != "" ==> !('0' <= rest[0] <= '9')
    ensures DigitsOf(digits + rest) == digits
  {
    if digits != "" {
      assert (digits + rest)[1..] == digits[1..] + rest;
      DigitsOfPrefix(digits[1..], rest);
      assert digits == [digits[0]] + digits[1..];
    } else {
      assert digits + rest == rest;
    }
  }

  /** So a printed number is read whatever follows it, with either sign in front. */
  lemma ParseIntIs(n: nat, rest: string)
    requires rest != "" ==> !('0' <= rest[0] <= '9')
    ensures ParseInt(Print(n) + rest) == Some(n)
    ensures ParseInt(['+'] + (Print(n) + rest)) == Some(n)
    ensures var r := ParseInt(['-'] + (Print(n) + rest)); r.Some? && r.value == 0 - n
  {
    PrintThenRest(n, rest);
    AfterNoSign(Print(n) + rest);
    AfterSign('+', Print(n) + rest);
    AfterSign('-', Print(n) + rest);
  }

  lemma PrintThenRest(n: nat, rest: string)
    requires rest != "" ==> !('0' <= rest[0] <= '9')
    ensures var s := Print(n) + rest; IsDigit(s[0]) && DigitsOf(s) == Print(n) && Value(DigitsOf(s)) == n
  {
    var s := Print(n);
    forall i | 0 <= i < |s| ensures '0' <= s[i] <= '9' { assert IsDigit(s[i]); }
    ValueOfPrint(n);
    DigitsOfPrefix(s, rest);
  }

  lemma AfterNoSign(s: string)
    requires s != "" && IsDigit(s[0])
    ensures ParseInt(s) == Some(Value(DigitsOf(s)))
  {
  }

  lemma AfterSign(sign: char, s: string)
    requires sign == '+' || sign == '-'
    requires DigitsOf(s) != []
    ensures var r := ParseInt([sign] + s);
            r.Some? && r.value == if sign == '-' then 0 - Value(DigitsOf(s)) else Value(DigitsOf(s))
  {
    assert ([sign] + s)[1..] == s;
  }

  /** White space in front is skipped, and no number is read from a word that starts otherwise. */
  lemma NoNumber(space: char, s: string)
    ensures Names.IsSpace(space) ==> ParseInt([space] + s) == ParseInt(s)
    ensures s == "" || !(Names.IsSpace(s[0]) || s[0] == '-' || s[0] == '+' || '0' <= s[0] <= '9') ==>
              ParseInt(s) == None
  {
    assert ([space] + s)[1..] == s;
  }

  /** `verifyWebhookSignature`, at `now` milliseconds. A header is accepted exactly if it has a time within the
      tolerance and a signature whose first 64 characters, and no more of it, are the digest of the message. */
  method VerifyWebhookSignature(hmac: Hmac, secret: string, rawBody: string, header: Option<string>,
                                toleranceSeconds: int, now: int)
    returns (ok: bool)
    ensures ok <==> && header.Some?
                    && Accepts(hmac, secret, rawBody, Absorbed(Split(header.value, ',')), toleranceSeconds, now)
    ensures ok <==> && header.Some?
                    && var parts := Absorbed(Split(header.value, ','));
                       && "t" in parts && "v1" in parts && ParseInt(parts["t"]).Some?
                       && var late := now - ParseInt(parts["t"]).value * 1000;
                          && -toleranceSeconds * 1000 <= late <= toleranceSeconds * 1000
                          && |parts["v1"]| >= 64 && |HexDecode(parts["v1"])| == 32
                          && HexDecode(parts["v1"][..64]) == hmac(secret, parts["t"] + "." + rawBody)
  {
    if header.None? || header.value == "" {
      assert header.Some? ==> Absorbed(Split(header.value, ',')) == map[] by { EmptyHeader(); }
      return false;
    }
    var parts := ParseHeader(header.value);
    if "t" !in parts || "v1" !in parts { return false; }
    var time := ParseInt(parts["t"]);
    if time.None? || Abs(now - time.value * 1000) > toleranceSeconds * 1000 { return false; }
    var expected := hmac(secret, Message(parts["t"], rawBody));
    var provided := HexDecode(parts["v1"]);
    HexDecodePrefix(parts["v1"]);
    return |expected| == |provided| && expected == provided;
  }

  lemma EmptyHeader()
    ensures Absorbed(Split("", ',')) == map[]
  {
    assert Split("", ',') == [""];
    assert [""][..0] == [];
    assert Split("", '=') == [""];
  }

  // ----- the two together -------------------------------------------------------------------------

  /** A part `key=value` is absorbed as that pair. */
  lemma AbsorbsPair(acc: map<string, string>, key: string, value: string)
    requires key != "" && value != "" && '=' !in key && '=' !in value
    ensures Absorb(acc, key + "=" + value) == acc[key := value]
  {
    assert key + "=" + value == key + ['='] + value;
    SplitAt(key, '=', value);
    SplitWhole(value, '=');
  }

  lemma TwoParts(a: string, b: string)
    requires ',' !in a && ',' !in b
    ensures Absorbed(Split(a + "," + b, ',')) == Absorb(Absorb(map[], a), b)
  {
    assert a + "," + b == a + [','] + b;
    SplitAt(a, ',', b);
    SplitWhole(b, ',');
    assert [a] + [b] == [a, b] && [a, b][..1] == [a] && [a][..0] == [];
    assert Absorbed([a]) == Absorb(map[], a);
  }

  /** The parser recovers the time and the digest that were printed. */
  lemma ParsesSigned(t: string, hex: string)
    requires t != "" && forall c | c in t :: IsDigit(c)
    requires hex != "" && forall c | c in hex :: IsHexChar(c)
    ensures Absorbed(Split(HeaderOf(t, hex), ',')) == map["t" := t, "v1" := hex]
  {
    var a, b := "t" + "=" + t, "v1" + "=" + hex;
    assert HeaderOf(t, hex) == a + "," + b;
    TwoParts(a, b);
    AbsorbsPair(map[], "t", t);
    AbsorbsPair(map["t" := t], "v1", hex);
  }

  /** The header that is printed. */
  lemma SignIs(hmac: Hmac, secret: string, body: string, now: nat)
    ensures Sign(hmac, secret, body, now)
         == "t=" + Print(now / 1000) + ",v1=" + HexEncode(hmac(secret, Print(now / 1000) + "." + body))
  {
  }

  /** What is signed at `signedAt` is accepted, for any secret and body, exactly while the clock is
      within tolerance of the whole second that was printed. */
  lemma SignThenVerify(hmac: Hmac, secret: string, body: string, signedAt: nat, toleranceSeconds: int, now: int)
    ensures Accepts(hmac, secret, body, Absorbed(Split(Sign(hmac, secret, body, signedAt), ',')), toleranceSeconds, now)
       <==> Abs(now - signedAt / 1000 * 1000) <= toleranceSeconds * 1000
  {
    var n := signedAt / 1000;
    var t := Print(n);
    var digest := hmac(secret, Message(t, body));
    HexRoundTrip(digest);
    ParsesSigned(t, HexEncode(digest));
    ParseIntOfPrint(n);
  }

  /** A signed header is accepted for another body, or under another secret, only if the HMACs of the
      two messages are the same. */
  lemma AcceptedMeansSameDigest(hmac: Hmac, secret: string, body: string, signedAt: nat,
                                secret': string, body': string, toleranceSeconds: int, now: int)
    requires var parts := Absorbed(Split(Sign(hmac, secret, body, signedAt), ','));
             Accepts(hmac, secret', body', parts, toleranceSeconds, now)
    ensures var t := Print(signedAt / 1000);
            hmac(secret', Message(t, body')) == hmac(secret, Message(t, body))
  {
    var t := Print(signedAt / 1000);
    var digest := hmac(secret, Message(t, body));
    HexRoundTrip(digest);
    ParsesSigned(t, HexEncode(digest));
  }

  /** For printed times, the signed message determines both the time and the body. */
  lemma MessageInjective(t: nat, body: string, t': nat, body': string)
    requires Message(Print(t), body) == Message(Print(t'), body')
    ensures t == t' && body == body'
  {
    var s, s' := Print(t), Print(t');
    assert s + "." + body == s + ['.'] + body && s' + "." + body' == s' + ['.'] + body';
    IndexOfFirst(s, '.', body);
    IndexOfFirst(s', '.', body');
    var m := s + ['.'] + body;
    assert s == m[..|s|] && s' == m[..|s'|];
    assert body == m[|s| + 1..] && body' == m[|s'| + 1..];
    PrintInjective(t, t');
  }

  /** So another body is accepted with a signed header only on a collision of the HMAC. */
  lemma OnlyTheSignedBody(hmac: Hmac, secret: string, body: string, signedAt: nat, body': string,
                          toleranceSeconds: int, now: int)
    requires var parts := Absorbed(Split(Sign(hmac, secret, body, signedAt), ','));
             Accepts(hmac, secret, body', parts, toleranceSeconds, now)
    requires body' != body
    ensures var t := Print(signedAt / 1000);
            Message(t, body') != Message(t, body) && hmac(secret, Message(t, body')) == hmac(secret, Message(t, body))
  {
    AcceptedMeansSameDigest(hmac, secret, body, signedAt, secret, body', toleranceSeconds, now);
    if Message(Print(signedAt / 1000), body') == Message(Print(signedAt / 1000), body) {
      MessageInjective(signedAt / 1000, body', signedAt / 1000, body);
    }
  }
}
