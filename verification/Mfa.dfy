/** `MfaService`: enrolment, confirmation, verification and disabling of a second factor, over
    the three MFA columns of a merchant row. TOTP and bcrypt are parameters. */
module Mfa {
  import opened Options

  const BACKUP_CODE_COUNT := 10

  datatype Crypto = Crypto(
    validTotp: (string, string, nat) -> bool,   // secret, code, time
    hash: (string, string) -> string,           // text, salt
    compare: (string, string) -> bool)          // text, hash

  /** A hash is matched by the text it was made from, and by no other. */
  ghost predicate HashLaw(c: Crypto) {
    forall x, y, salt :: c.compare(x, c.hash(y, salt)) <==> x == y
  }

  datatype Outcome = Done | Conflict | Unauthorized

  /** mfaEnabled, mfaSecretCiphertext (decrypted) and mfaBackupCodeHashes. */
  datatype State = State(enabled: bool, secret: Option<string>, hashes: seq<string>)

  /** Random codes and salts for one confirmation. */
  type Batch = s: seq<(string, string)> | |s| == BACKUP_CODE_COUNT witness seq(BACKUP_CODE_COUNT, _ => ("", ""))

  function Hashes(c: Crypto, batch: seq<(string, string)>): (hs: seq<string>)
    ensures |hs| == |batch|
  {
    if batch == [] then []
    else Hashes(c, batch[..|batch| - 1]) + [c.hash(batch[|batch| - 1].0, batch[|batch| - 1].1)]
  }

  /** Index of the first hash at or after `i` that `code` matches, or the length. */
  function FirstMatch(c: Crypto, code: string, hashes: seq<string>, i: nat): (r: nat)
    requires i <= |hashes|
    ensures i <= r <= |hashes|
    ensures r < |hashes| ==> c.compare(code, hashes[r])
    ensures forall k | i <= k < r :: !c.compare(code, hashes[k])
    decreases |hashes| - i
  {
    if i == |hashes| || c.compare(code, hashes[i]) then i else FirstMatch(c, code, hashes, i + 1)
  }

  function Without(hashes: seq<string>, i: nat): seq<string>
    requires i < |hashes|
  {
    hashes[..i] + hashes[i + 1..]
  }

  // ----- the operations on values ---------------------------------------------------

  function Enroll(s: State, secret: string): (Outcome, State) {
    if s.enabled then (Conflict, s) else (Done, s.(secret := Some(secret)))
  }

  function Confirm(c: Crypto, s: State, code: string, now: nat, batch: Batch): (Outcome, State) {
    if s.secret.None? then (Conflict, s)
    else if !c.validTotp(s.secret.value, code, now) then (Unauthorized, s)
    else (Done, s.(enabled := true, hashes := Hashes(c, batch)))
  }

  function Verify(c: Crypto, s: State, code: string, now: nat): (Outcome, State) {
    if !s.enabled || s.secret.None? then (Conflict, s)
    else if c.validTotp(s.secret.value, code, now) then (Done, s)
    else
      var i := FirstMatch(c, code, s.hashes, 0);
      if i < |s.hashes| then (Done, s.(hashes := Without(s.hashes, i))) else (Unauthorized, s)
  }

  function Disable(c: Crypto, s: State, code: string, now: nat): (Outcome, State) {
    var (outcome, s') := Verify(c, s, code, now);
    if outcome.Done? then (Done, State(false, None, [])) else (outcome, s')
  }

  /** A code is accepted exactly if MFA is enabled and the code is a valid TOTP code or matches a hash that is
      left. A TOTP code changes nothing, and a backup code uses up the first hash it matches. */
  lemma VerifyIff(c: Crypto, s: State, code: string, now: nat)
    ensures Verify(c, s, code, now).0.Done?
       <==> && s.enabled && s.secret.Some?
            && (c.validTotp(s.secret.value, code, now) || exists h :: h in s.hashes && c.compare(code, h))
    ensures Verify(c, s, code, now).0.Conflict? <==> !s.enabled || s.secret.None?
    ensures var s' := Verify(c, s, code, now).1;
            && s'.enabled == s.enabled && s'.secret == s.secret
            && (s'.hashes == s.hashes
                || exists i :: && 0 <= i < |s.hashes| && c.compare(code, s.hashes[i])
                               && (forall j | 0 <= j < i :: !c.compare(code, s.hashes[j]))
                               && s'.hashes == s.hashes[..i] + s.hashes[i + 1..])
    ensures s.secret.Some? && c.validTotp(s.secret.value, code, now) ==> Verify(c, s, code, now).1 == s
    ensures Verify(c, s, code, now).0.Done? && !c.validTotp(s.secret.value, code, now) ==>
              |Verify(c, s, code, now).1.hashes| == |s.hashes| - 1
  {
    var i := FirstMatch(c, code, s.hashes, 0);
    if i < |s.hashes| { assert s.hashes[i] in s.hashes; }
    if h :| h in s.hashes && c.compare(code, h) {
      var k :| 0 <= k < |s.hashes| && s.hashes[k] == h;
      assert i <= k;
    }
  }

  lemma {:induction false} HashesAt(c: Crypto, batch: seq<(string, string)>, i: nat)
    requires i < |batch|
    ensures Hashes(c, batch)[i] == c.hash(batch[i].0, batch[i].1)
  {
    if i < |batch| - 1 { HashesAt(c, batch[..|batch| - 1], i); }
  }

  /** MFA is enabled exactly by a valid TOTP code for the stored secret, with ten hashes of the batch. */
  lemma ConfirmIff(c: Crypto, s: State, code: string, now: nat, batch: Batch)
    ensures var (outcome, s') := Confirm(c, s, code, now, batch);
            && (outcome.Conflict? <==> s.secret.None?)
            && (outcome.Done? <==> s.secret.Some? && c.validTotp(s.secret.value, code, now))
            && (!outcome.Done? ==> s' == s)
            && (outcome.Done? ==> && s'.enabled && s'.secret == s.secret && |s'.hashes| == 10
                                  && forall i | 0 <= i < 10 :: s'.hashes[i] == c.hash(batch[i].0, batch[i].1))
  {
    forall i | 0 <= i < 10 ensures Hashes(c, batch)[i] == c.hash(batch[i].0, batch[i].1) { HashesAt(c, batch, i); }
  }

  /** MFA is disabled, and all three columns cleared, exactly by a code that would be accepted. */
  lemma DisableIff(c: Crypto, s: State, code: string, now: nat)
    ensures var (outcome, s') := Disable(c, s, code, now);
            && (outcome.Done? <==>
                  && s.enabled && s.secret.Some?
                  && (c.validTotp(s.secret.value, code, now) || exists h :: h in s.hashes && c.compare(code, h)))
            && s' == if outcome.Done? then State(false, None, []) else s
  {
    VerifyIff(c, s, code, now);
  }

  /** A secret is stored exactly while MFA is not enabled. */
  lemma EnrollIff(s: State, secret: string)
    ensures Enroll(s, secret) == if s.enabled then (Conflict, s) else (Done, State(false, Some(secret), s.hashes))
  {
  }

  // ----- runs ---------------------------------------------------------------------------

  datatype Request =
    | EnrollRequest(secret: string)
    | ConfirmRequest(code: string, now: nat, batch: Batch)
    | VerifyRequest(code: string, now: nat)
    | DisableRequest(code: string, now: nat)

  function Serve(c: Crypto, s: State, r: Request): (Outcome, State) {
    match r
    case EnrollRequest(secret) => Enroll(s, secret)
    case ConfirmRequest(code, now, batch) => Confirm(c, s, code, now, batch)
    case VerifyRequest(code, now) => Verify(c, s, code, now)
    case DisableRequest(code, now) => Disable(c, s, code, now)
  }

  function Run(c: Crypto, s: State, rs: seq<Request>): State
    decreases |rs|
  {
    if rs == [] then s else Run(c, Serve(c, s, rs[0]).1, rs[1..])
  }

  /** The request is answered by using up a backup code. */
  ghost predicate UsesBackupCode(c: Crypto, s: State, r: Request) {
    && (r.VerifyRequest? || r.DisableRequest?)
    && s.enabled && s.secret.Some?
    && !c.validTotp(s.secret.value, r.code, r.now)
    && FirstMatch(c, r.code, s.hashes, 0) < |s.hashes|
  }

  ghost predicate Confirms(c: Crypto, s: State, r: Request) {
    r.ConfirmRequest? && Serve(c, s, r).0.Done?
  }

  /** Backup codes used since the last confirmation, `used` of them before the run. */
  ghost function Used(c: Crypto, s: State, rs: seq<Request>, used: nat): nat
    decreases |rs|
  {
    if rs == [] then used
    else
      var used' := if Confirms(c, s, rs[0]) then 0
                   else if UsesBackupCode(c, s, rs[0]) then used + 1
                   else used;
      Used(c, Serve(c, s, rs[0]).1, rs[1..], used')
  }

  /** Enabled means a stored secret, not enabled means no backup hashes. */
  ghost predicate Consistent(s: State) {
    && (s.enabled ==> s.secret.Some?)
    && (!s.enabled ==> s.hashes == [])
  }

  /** In every reachable state the columns agree, and while MFA is enabled the codes used since
      the last confirmation and those left make up exactly one batch. */
  lemma {:induction false} BackupCodesConserved(c: Crypto, s: State, rs: seq<Request>, used: nat)
    requires Consistent(s) && (s.enabled ==> used + |s.hashes| == BACKUP_CODE_COUNT)
    ensures Consistent(Run(c, s, rs))
    ensures Run(c, s, rs).enabled ==> Used(c, s, rs, used) + |Run(c, s, rs).hashes| == BACKUP_CODE_COUNT
    decreases |rs|
  {
    if rs != [] {
      var s' := Serve(c, s, rs[0]).1;
      var used' := if Confirms(c, s, rs[0]) then 0 else if UsesBackupCode(c, s, rs[0]) then used + 1 else used;
      BackupCodesConserved(c, s', rs[1..], used');
    }
  }

  // ----- one code ---------------------------------------------------------------------

  /** How many of `hashes` the code matches. */
  function Matching(c: Crypto, code: string, hashes: seq<string>): nat {
    if hashes == [] then 0
    else Matching(c, code, hashes[..|hashes| - 1]) + (if c.compare(code, hashes[|hashes| - 1]) then 1 else 0)
  }

  lemma {:induction false} MatchingSplits(c: Crypto, code: string, xs: seq<string>, ys: seq<string>)
    ensures Matching(c, code, xs + ys) == Matching(c, code, xs) + Matching(c, code, ys)
    decreases |ys|
  {
    if ys == [] {
      assert xs + ys == xs;
    } else {
      assert (xs + ys)[..|xs + ys| - 1] == xs + ys[..|ys| - 1];
      MatchingSplits(c, code, xs, ys[..|ys| - 1]);
    }
  }

  lemma MatchingWithout(c: Crypto, code: string, hashes: seq<string>, i: nat)
    requires i < |hashes|
    ensures Matching(c, code, hashes)
         == Matching(c, code, Without(hashes, i)) + (if c.compare(code, hashes[i]) then 1 else 0)
  {
    assert hashes == hashes[..i] + [hashes[i]] + hashes[i + 1..];
    MatchingSplits(c, code, hashes[..i] + [hashes[i]], hashes[i + 1..]);
    MatchingSplits(c, code, hashes[..i], [hashes[i]]);
    MatchingSplits(c, code, hashes[..i], hashes[i + 1..]);
  }

  lemma {:induction false} MatchingAny(c: Crypto, code: string, hashes: seq<string>)
    ensures Matching(c, code, hashes) > 0 <==> FirstMatch(c, code, hashes, 0) < |hashes|
  {
    var i := FirstMatch(c, code, hashes, 0);
    if i < |hashes| {
      MatchingWithout(c, code, hashes, i);
    } else {
      MatchingNone(c, code, hashes);
    }
  }

  lemma {:induction false} MatchingNone(c: Crypto, code: string, hashes: seq<string>)
    requires forall h | h in hashes :: !c.compare(code, h)
    ensures Matching(c, code, hashes) == 0
  {
    if hashes != [] { MatchingNone(c, code, hashes[..|hashes| - 1]); }
  }

  /** How often the run uses `code` up as a backup code. */
  ghost function TimesUsed(c: Crypto, s: State, rs: seq<Request>, code: string): nat
    decreases |rs|
  {
    if rs == [] then 0
    else
      (if UsesBackupCode(c, s, rs[0]) && rs[0].code == code then 1 else 0)
      + TimesUsed(c, Serve(c, s, rs[0]).1, rs[1..], code)
  }

  ghost predicate NoConfirmation(rs: seq<Request>) {
    forall r | r in rs :: !r.ConfirmRequest?
  }

  /** One request never adds a match, and using a code up removes one. */
  lemma ServeMatching(c: Crypto, s: State, r: Request, code: string)
    requires !r.ConfirmRequest?
    ensures Matching(c, code, Serve(c, s, r).1.hashes)
         <= Matching(c, code, s.hashes) - (if UsesBackupCode(c, s, r) && r.code == code then 1 else 0)
  {
    if r.VerifyRequest? || r.DisableRequest? {
      var i := FirstMatch(c, r.code, s.hashes, 0);
      if i < |s.hashes| { MatchingWithout(c, code, s.hashes, i); }
    }
  }

  /** Between confirmations a code is accepted as a backup code at most as often as there are
      stored hashes that it matches: once, when the codes of the batch are distinct. */
  lemma {:induction false} UsedAtMostMatching(c: Crypto, s: State, rs: seq<Request>, code: string)
    requires NoConfirmation(rs)
    ensures TimesUsed(c, s, rs, code) + Matching(c, code, Run(c, s, rs).hashes) <= Matching(c, code, s.hashes)
    decreases |rs|
  {
    if rs != [] {
      assert rs[0] in rs;
      ServeMatching(c, s, rs[0], code);
      assert NoConfirmation(rs[1..]);
      UsedAtMostMatching(c, Serve(c, s, rs[0]).1, rs[1..], code);
    }
  }

  function Codes(batch: seq<(string, string)>): (codes: seq<string>)
    ensures |codes| == |batch|
  {
    if batch == [] then [] else Codes(batch[..|batch| - 1]) + [batch[|batch| - 1].0]
  }

  /** A fresh batch is matched by a code as often as the code was drawn. */
  lemma {:induction false} FreshBatchMatches(c: Crypto, batch: seq<(string, string)>, code: string)
    requires HashLaw(c)
    ensures Matching(c, code, Hashes(c, batch)) == multiset(Codes(batch))[code]
  {
    if batch != [] {
      var n := |batch| - 1;
      FreshBatchMatches(c, batch[..n], code);
      assert Hashes(c, batch)[..n] == Hashes(c, batch[..n]);
      assert Hashes(c, batch)[n] == c.hash(batch[n].0, batch[n].1);
    }
  }

  lemma {:induction false} HashesSeparate(c: Crypto, batch: seq<(string, string)>, h: string, x: string, y: string)
    requires HashLaw(c) && h in Hashes(c, batch)
    requires c.compare(x, h) && c.compare(y, h)
    ensures x == y
  {
    if h in Hashes(c, batch[..|batch| - 1]) { HashesSeparate(c, batch[..|batch| - 1], h, x, y); }
  }

  /** MFA is enabled before, during and after the run. */
  ghost predicate StaysEnabled(c: Crypto, s: State, rs: seq<Request>)
    decreases |rs|
  {
    s.enabled && (rs != [] ==> StaysEnabled(c, Serve(c, s, rs[0]).1, rs[1..]))
  }

  /** As long as MFA is neither disabled nor confirmed anew, an unused code stays good. */
  lemma {:induction false} UnusedStaysGood(c: Crypto, s: State, rs: seq<Request>, code: string)
    requires StaysEnabled(c, s, rs) && s.secret.Some? && NoConfirmation(rs)
    requires forall h, x | h in s.hashes && c.compare(code, h) && c.compare(x, h) :: x == code
    requires TimesUsed(c, s, rs, code) == 0
    ensures Matching(c, code, Run(c, s, rs).hashes) == Matching(c, code, s.hashes)
    ensures Run(c, s, rs).enabled && Run(c, s, rs).secret.Some?
    decreases |rs|
  {
    if rs != [] {
      var r := rs[0];
      assert r in rs;
      if UsesBackupCode(c, s, r) {
        var i := FirstMatch(c, r.code, s.hashes, 0);
        MatchingWithout(c, code, s.hashes, i);
        assert s.hashes[i] in s.hashes;
        assert !c.compare(code, s.hashes[i]);
      }
      UnusedStaysGood(c, Serve(c, s, r).1, rs[1..], code);
    }
  }

  /** From a confirmation until the next, a code that was drawn once is used up at most once, and
      until it is, it is accepted while MFA stays enabled, whatever was tried or used before it. */
  lemma DrawnOnceUsedOnce(c: Crypto, s: State, confirm: Request, rs: seq<Request>, code: string, now: nat)
    requires HashLaw(c)
    requires confirm.ConfirmRequest? && Confirms(c, s, confirm)
    requires multiset(Codes(confirm.batch))[code] == 1
    requires NoConfirmation(rs)
    ensures TimesUsed(c, Serve(c, s, confirm).1, rs, code) <= 1
    ensures TimesUsed(c, Serve(c, s, confirm).1, rs, code) == 0 && StaysEnabled(c, Serve(c, s, confirm).1, rs) ==>
              Verify(c, Run(c, Serve(c, s, confirm).1, rs), code, now).0.Done?
  {
    var s' := Serve(c, s, confirm).1;
    FreshBatchMatches(c, confirm.batch, code);
    UsedAtMostMatching(c, s', rs, code);
    if TimesUsed(c, s', rs, code) == 0 && StaysEnabled(c, s', rs) {
      forall h, x | h in s'.hashes && c.compare(code, h) && c.compare(x, h) ensures x == code {
        HashesSeparate(c, confirm.batch, h, x, code);
      }
      UnusedStaysGood(c, s', rs, code);
      MatchingAny(c, code, Run(c, s', rs).hashes);
    }
  }

  /** `verifyCode` compares with a row it read earlier. A second use of a code that one hash matches is
      refused, but as a TOTP code, if it reads the row after the first has saved it; if it reads it before,
      it is accepted too. */
  lemma SecondUseIsRefusedIff(c: Crypto, s: State, code: string, now: nat, later: nat, read: State)
    requires UsesBackupCode(c, s, VerifyRequest(code, now)) && Matching(c, code, s.hashes) == 1
    requires read == s || read == Verify(c, s, code, now).1
    ensures Verify(c, read, code, later).0.Done? <==> read == s || c.validTotp(s.secret.value, code, later)
  {
    var i := FirstMatch(c, code, s.hashes, 0);
    MatchingWithout(c, code, s.hashes, i);
    MatchingAny(c, code, read.hashes);
  }

  // ----- the service over a merchant row ---------------------------------------------------

  class MerchantRow {
    var mfaEnabled: bool
    var mfaSecret: Option<string>
    var mfaBackupCodeHashes: seq<string>

    function Columns(): State
      reads this
    {
      State(mfaEnabled, mfaSecret, mfaBackupCodeHashes)
    }

    constructor ()
      ensures Columns() == State(false, None, []) && Consistent(Columns())
    {
      mfaEnabled, mfaSecret, mfaBackupCodeHashes := false, None, [];
    }

    method GenerateEnrollment(secret: string) returns (outcome: Outcome)
      requires Consistent(Columns())
      modifies this
      ensures (outcome, Columns()) == Enroll(old(Columns()), secret) && Consistent(Columns())
    {
      if mfaEnabled { return Conflict; }
      mfaSecret := Some(secret);
      return Done;
    }

    method ConfirmEnrollment(c: Crypto, code: string, now: nat, batch: Batch) returns (outcome: Outcome)
      requires Consistent(Columns())
      modifies this
      ensures (outcome, Columns()) == Confirm(c, old(Columns()), code, now, batch) && Consistent(Columns())
      ensures outcome.Done? <==> old(mfaSecret).Some? && c.validTotp(old(mfaSecret).value, code, now)
    {
      if mfaSecret.None? { return Conflict; }
      if !c.validTotp(mfaSecret.value, code, now) { return Unauthorized; }
      var hashes := GenerateBackupCodes(c, batch);
      mfaEnabled := true;
      mfaBackupCodeHashes := hashes;
      return Done;
    }

    method VerifyCode(c: Crypto, code: string, now: nat) returns (outcome: Outcome)
      requires Consistent(Columns())
      modifies this
      ensures (outcome, Columns()) == Verify(c, old(Columns()), code, now) && Consistent(Columns())
      ensures outcome.Done?
         <==> && old(mfaEnabled) && old(mfaSecret).Some?
              && (|| c.validTotp(old(mfaSecret).value, code, now)
                  || exists h :: h in old(mfaBackupCodeHashes) && c.compare(code, h))
    {
      VerifyIff(c, Columns(), code, now);
      if !mfaEnabled || mfaSecret.None? { return Conflict; }
      if c.validTotp(mfaSecret.value, code, now) { return Done; }
      for i := 0 to |mfaBackupCodeHashes|
        invariant Columns() == old(Columns())
        invariant FirstMatch(c, code, mfaBackupCodeHashes, 0) == FirstMatch(c, code, mfaBackupCodeHashes, i)
      {
        if c.compare(code, mfaBackupCodeHashes[i]) {
          mfaBackupCodeHashes := Without(mfaBackupCodeHashes, i);
          return Done;
        }
      }
      return Unauthorized;
    }

    method DisableMfa(c: Crypto, code: string, now: nat) returns (outcome: Outcome)
      requires Consistent(Columns())
      modifies this
      ensures (outcome, Columns()) == Disable(c, old(Columns()), code, now) && Consistent(Columns())
      ensures outcome.Done?
         <==> && old(mfaEnabled) && old(mfaSecret).Some?
              && (|| c.validTotp(old(mfaSecret).value, code, now)
                  || exists h :: h in old(mfaBackupCodeHashes) && c.compare(code, h))
    {
      outcome := VerifyCode(c, code, now);
      if outcome.Done? {
        mfaEnabled, mfaSecret, mfaBackupCodeHashes := false, None, [];
      }
    }
  }

  method GenerateBackupCodes(c: Crypto, batch: Batch) returns (hashes: seq<string>)
    ensures hashes == Hashes(c, batch)
  {
    hashes := [];
    for i := 0 to BACKUP_CODE_COUNT
      invariant hashes == Hashes(c, batch[..i])
    {
      assert batch[..i + 1][..i] == batch[..i];
      hashes := hashes + [c.hash(batch[i].0, batch[i].1)];
    }
    assert batch[..BACKUP_CODE_COUNT] == batch;
  }
}
