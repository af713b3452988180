/** The KYC and KYB decision machines of `MerchantService`: applications that a provider decides at
    once or later, by webhooks that may be duplicated, reordered or stale. */
module Reviews {
  import opened Options

  datatype Status = NotStarted | PendingReview | Verified | Rejected

  /** kycStatus and kycApplicationId, or their KYB counterparts. */
  datatype Check = Check(status: Status, applicationId: Option<string>)

  datatype Kind = Kyc | Kyb

  datatype Row = Row(merchantId: string, kyc: Check, kyb: Check) {
    function Get(kind: Kind): Check { if kind.Kyc? then kyc else kyb }

    function Set(kind: Kind, check: Check): Row {
      if kind.Kyc? then this.(kyc := check) else this.(kyb := check)
    }
  }

  /** What the provider answers to a submission. */
  datatype Verdict = Pending | Approved | Declined

  datatype Outcome = OutcomeVerified | OutcomeRejected

  function StatusOf(o: Outcome): Status { if o.OutcomeVerified? then Verified else Rejected }

  datatype Event =
    | Submit(kind: Kind, merchantId: string, sanctionsHit: bool, verdict: Verdict, id: string)
    | Confirm(kind: Kind, id: string, outcome: Outcome)

  function Submitted(verdict: Verdict, id: string): Check {
    match verdict
    case Pending => Check(PendingReview, Some(id))
    case Approved => Check(Verified, None)
    case Declined => Check(Rejected, None)
  }

  /** The first row from `i` on that belongs to the merchant, or the number of rows. */
  function FindMerchant(rows: seq<Row>, merchantId: string, i: nat): (r: nat)
    requires i <= |rows|
    ensures i <= r <= |rows| && (r < |rows| ==> rows[r].merchantId == merchantId)
    ensures forall k | i <= k < r :: rows[k].merchantId != merchantId
    decreases |rows| - i
  {
    if i == |rows| || rows[i].merchantId == merchantId then i else FindMerchant(rows, merchantId, i + 1)
  }

  /** The first row from `i` on with this application, or the number of rows. */
  function FindApplication(rows: seq<Row>, kind: Kind, id: string, i: nat): (r: nat)
    requires i <= |rows|
    ensures i <= r <= |rows| && (r < |rows| ==> rows[r].Get(kind).applicationId == Some(id))
    ensures forall k | i <= k < r :: rows[k].Get(kind).applicationId != Some(id)
    decreases |rows| - i
  {
    if i == |rows| || rows[i].Get(kind).applicationId == Some(id) then i else FindApplication(rows, kind, id, i + 1)
  }

  function Step(rows: seq<Row>, e: Event): (rows': seq<Row>)
    ensures |rows'| == |rows|
  {
    match e
    case Submit(kind, merchantId, sanctionsHit, verdict, id) =>
      var i := FindMerchant(rows, merchantId, 0);
      if i == |rows| || sanctionsHit then rows
      else rows[i := rows[i].Set(kind, Submitted(verdict, id))]
    case Confirm(kind, id, outcome) =>
      var i := FindApplication(rows, kind, id, 0);
      if i == |rows| || rows[i].Get(kind).status != PendingReview then rows
      else rows[i := rows[i].Set(kind, rows[i].Get(kind).(status := StatusOf(outcome)))]
  }

  function Run(rows: seq<Row>, es: seq<Event>): (rows': seq<Row>)
    ensures |rows'| == |rows|
    decreases |es|
  {
    if es == [] then rows else Run(Step(rows, es[0]), es[1..])
  }

  /** A submission that is let through writes the provider's verdict into the one check of the merchant's
      first row, with the application's id exactly if it is pending, and touches nothing else. */
  lemma SubmitIs(rows: seq<Row>, kind: Kind, verdict: Verdict, id: string, i: nat)
    requires i < |rows| && forall j | 0 <= j < i :: rows[j].merchantId != rows[i].merchantId
    ensures var rows' := Step(rows, Submit(kind, rows[i].merchantId, false, verdict, id));
            && |rows'| == |rows| && (forall j | 0 <= j < |rows| && j != i :: rows'[j] == rows[j])
            && rows'[i].merchantId == rows[i].merchantId
            && (kind.Kyc? ==> rows'[i].kyb == rows[i].kyb) && (kind.Kyb? ==> rows'[i].kyc == rows[i].kyc)
            && var check := if kind.Kyc? then rows'[i].kyc else rows'[i].kyb;
               && (verdict.Pending? ==> check.status.PendingReview? && check.applicationId == Some(id))
               && (verdict.Approved? ==> check.status.Verified? && check.applicationId == None)
               && (verdict.Declined? ==> check.status.Rejected? && check.applicationId == None)
  {
    assert FindMerchant(rows, rows[i].merchantId, 0) == i;
  }

  /** A decision on the first row with that application makes it verified or rejected as it says, if it is
      pending, and touches nothing else. */
  lemma ConfirmIs(rows: seq<Row>, kind: Kind, id: string, outcome: Outcome, i: nat)
    requires i < |rows| && forall j | 0 <= j < i :: rows[j].Get(kind).applicationId != Some(id)
    requires (if kind.Kyc? then rows[i].kyc else rows[i].kyb).applicationId == Some(id)
    ensures var rows' := Step(rows, Confirm(kind, id, outcome));
            && |rows'| == |rows| && (forall j | 0 <= j < |rows| && j != i :: rows'[j] == rows[j])
            && rows'[i].merchantId == rows[i].merchantId
            && (kind.Kyc? ==> rows'[i].kyb == rows[i].kyb) && (kind.Kyb? ==> rows'[i].kyc == rows[i].kyc)
            && var was := if kind.Kyc? then rows[i].kyc else rows[i].kyb;
               var check := if kind.Kyc? then rows'[i].kyc else rows'[i].kyb;
               && check.applicationId == Some(id)
               && (!was.status.PendingReview? ==> check == was)
               && (was.status.PendingReview? && outcome.OutcomeVerified? ==> check.status.Verified?)
               && (was.status.PendingReview? && outcome.OutcomeRejected? ==> check.status.Rejected?)
  {
    assert FindApplication(rows, kind, id, 0) == i;
  }

  // ----- the service ------------------------------------------------------------------------

  class MerchantService {
    var rows: seq<Row>

    constructor (rows: seq<Row>)
      ensures this.rows == rows
    {
      this.rows := rows;
    }

    /** `submitKyc` and `submitKyb`. Returns false if the merchant is unknown or the name is a
        sanctions hit, and then nothing is saved. */
    method SubmitApplication(kind: Kind, merchantId: string, sanctionsHit: bool, verdict: Verdict, id: string)
      returns (ok: bool)
      modifies this
      ensures rows == Step(old(rows), Submit(kind, merchantId, sanctionsHit, verdict, id))
      ensures ok <==> !sanctionsHit && exists k :: 0 <= k < |old(rows)| && old(rows)[k].merchantId == merchantId
      ensures !ok ==> rows == old(rows)
    {
      var i := 0;
      while i < |rows| && rows[i].merchantId != merchantId
        invariant i <= |rows| && FindMerchant(rows, merchantId, 0) == FindMerchant(rows, merchantId, i)
        invariant rows == old(rows)
      {
        i := i + 1;
      }
      if i == |rows| || sanctionsHit { return false; }
      var check := rows[i].Get(kind);
      if verdict.Pending? {
        check := check.(status := PendingReview, applicationId := Some(id));
      } else {
        check := check.(status := if verdict.Approved? then Verified else Rejected, applicationId := None);
      }
      rows := rows[i := rows[i].Set(kind, check)];
      return true;
    }

    /** `confirmKyc` and `confirmKyb`: a decision for an unknown or decided application is ignored. */
    method ConfirmApplication(kind: Kind, id: string, outcome: Outcome)
      modifies this
      ensures rows == Step(old(rows), Confirm(kind, id, outcome))
    {
      var i := 0;
      while i < |rows| && rows[i].Get(kind).applicationId != Some(id)
        invariant i <= |rows| && FindApplication(rows, kind, id, 0) == FindApplication(rows, kind, id, i)
        invariant rows == old(rows)
      {
        i := i + 1;
      }
      if i == |rows| { return; }
      if rows[i].Get(kind).status != PendingReview { return; }
      rows := rows[i := rows[i].Set(kind, rows[i].Get(kind).(status := StatusOf(outcome)))];
    }
  }

  // ----- an application ends at its first decision -----------------------------------------------

  /** Row `i`, and no other, has this application. */
  ghost predicate Owns(rows: seq<Row>, kind: Kind, id: string, i: nat) {
    i < |rows| && forall j | 0 <= j < |rows| :: rows[j].Get(kind).applicationId == Some(id) <==> j == i
  }

  /** The id is not given out again, and the merchant does not submit again. */
  ghost predicate Undisturbed(es: seq<Event>, kind: Kind, id: string, merchantId: string) {
    forall e | e in es && e.Submit? && e.kind == kind :: e.id != id && e.merchantId != merchantId
  }

  /** The first decision on the application, if there is one. */
  function FirstOutcome(es: seq<Event>, kind: Kind, id: string): Option<Outcome> {
    if es == [] then None
    else if es[0].Confirm? && es[0].kind == kind && es[0].id == id then Some(es[0].outcome)
    else FirstOutcome(es[1..], kind, id)
  }

  function Settled(o: Option<Outcome>): Status { if o.None? then PendingReview else StatusOf(o.value) }

  lemma OwnsStep(rows: seq<Row>, e: Event, kind: Kind, id: string, i: nat)
    requires Owns(rows, kind, id, i)
    requires e.Submit? && e.kind == kind ==> e.id != id && e.merchantId != rows[i].merchantId
    ensures Owns(Step(rows, e), kind, id, i) && Step(rows, e)[i].merchantId == rows[i].merchantId
    ensures Step(rows, e)[i].Get(kind).status
         == if e.Confirm? && e.kind == kind && e.id == id && rows[i].Get(kind).status == PendingReview
            then StatusOf(e.outcome) else rows[i].Get(kind).status
  {
  }

  /** Once decided, an application keeps its decision, whatever is delivered. */
  lemma {:induction false} DecidedStays(rows: seq<Row>, es: seq<Event>, kind: Kind, id: string, i: nat)
    requires Owns(rows, kind, id, i) && rows[i].Get(kind).status != PendingReview
    requires Undisturbed(es, kind, id, rows[i].merchantId)
    ensures Run(rows, es)[i].Get(kind) == rows[i].Get(kind)
    decreases |es|
  {
    if es != [] {
      assert es[0] in es;
      OwnsStep(rows, es[0], kind, id, i);
      DecidedStays(Step(rows, es[0]), es[1..], kind, id, i);
    }
  }

  /** Under any deliveries, in any number and order, a pending application ends at its first decision. */
  lemma {:induction false} EndsAtFirstDecision(rows: seq<Row>, es: seq<Event>, kind: Kind, id: string, i: nat)
    requires Owns(rows, kind, id, i) && rows[i].Get(kind).status == PendingReview
    requires Undisturbed(es, kind, id, rows[i].merchantId)
    ensures Run(rows, es)[i].Get(kind) == Check(Settled(FirstOutcome(es, kind, id)), Some(id))
    decreases |es|
  {
    if es != [] {
      assert es[0] in es;
      OwnsStep(rows, es[0], kind, id, i);
      if es[0].Confirm? && es[0].kind == kind && es[0].id == id {
        DecidedStays(Step(rows, es[0]), es[1..], kind, id, i);
      } else {
        EndsAtFirstDecision(Step(rows, es[0]), es[1..], kind, id, i);
      }
    }
  }

  // ----- superseded applications ------------------------------------------------------------------

  ghost predicate Nobodys(rows: seq<Row>, kind: Kind, id: string) {
    forall j | 0 <= j < |rows| :: rows[j].Get(kind).applicationId != Some(id)
  }

  predicate IsDecisionOn(e: Event, kind: Kind, id: string) {
    e.Confirm? && e.kind == kind && e.id == id
  }

  function WithoutDecisionsOn(es: seq<Event>, kind: Kind, id: string): seq<Event> {
    if es == [] then []
    else if IsDecisionOn(es[0], kind, id) then WithoutDecisionsOn(es[1..], kind, id)
    else [es[0]] + WithoutDecisionsOn(es[1..], kind, id)
  }

  /** Decisions on an id that no merchant has any more, and none is given again, have no effect at
      all: the run ends as if they had never been delivered. */
  lemma {:induction false} SupersededIsInert(rows: seq<Row>, es: seq<Event>, kind: Kind, id: string)
    requires Nobodys(rows, kind, id)
    requires forall e | e in es && e.Submit? && e.kind == kind :: e.id != id
    ensures Run(rows, es) == Run(rows, WithoutDecisionsOn(es, kind, id))
    decreases |es|
  {
    if es != [] {
      assert es[0] in es;
      NobodysStep(rows, es[0], kind, id);
      SupersededIsInert(Step(rows, es[0]), es[1..], kind, id);
      if !IsDecisionOn(es[0], kind, id) {
        var rest := WithoutDecisionsOn(es[1..], kind, id);
        assert ([es[0]] + rest)[1..] == rest;
      }
    }
  }

  lemma NobodysStep(rows: seq<Row>, e: Event, kind: Kind, id: string)
    requires Nobodys(rows, kind, id)
    requires e.Submit? && e.kind == kind ==> e.id != id
    ensures Nobodys(Step(rows, e), kind, id)
    ensures IsDecisionOn(e, kind, id) ==> Step(rows, e) == rows
  {
  }

  /** A new submission supersedes the application before it. */
  lemma ResubmissionSupersedes(rows: seq<Row>, kind: Kind, i: nat, previous: string, verdict: Verdict, id: string)
    requires Owns(rows, kind, previous, i) && id != previous
    requires FindMerchant(rows, rows[i].merchantId, 0) == i
    ensures Nobodys(Step(rows, Submit(kind, rows[i].merchantId, false, verdict, id)), kind, previous)
  {
  }

  // ----- KYC and KYB ----------------------------------------------------------------------------------

  function Only(kind: Kind, es: seq<Event>): seq<Event> {
    if es == [] then [] else if es[0].kind == kind then [es[0]] + Only(kind, es[1..]) else Only(kind, es[1..])
  }

  /** The rows agree on one kind of check. */
  ghost predicate Agree(rows: seq<Row>, rows': seq<Row>, kind: Kind) {
    && |rows| == |rows'|
    && forall i | 0 <= i < |rows| ::
         rows[i].merchantId == rows'[i].merchantId && rows[i].Get(kind) == rows'[i].Get(kind)
  }

  lemma {:induction false} AgreeFindMerchant(rows: seq<Row>, rows': seq<Row>, kind: Kind, m: string, i: nat)
    requires Agree(rows, rows', kind) && i <= |rows|
    ensures FindMerchant(rows, m, i) == FindMerchant(rows', m, i)
    decreases |rows| - i
  {
    if i < |rows| { AgreeFindMerchant(rows, rows', kind, m, i + 1); }
  }

  lemma {:induction false} AgreeFindApplication(rows: seq<Row>, rows': seq<Row>, kind: Kind, id: string, i: nat)
    requires Agree(rows, rows', kind) && i <= |rows|
    ensures FindApplication(rows, kind, id, i) == FindApplication(rows', kind, id, i)
    decreases |rows| - i
  {
    if i < |rows| { AgreeFindApplication(rows, rows', kind, id, i + 1); }
  }

  lemma AgreeStep(rows: seq<Row>, rows': seq<Row>, e: Event)
    requires Agree(rows, rows', e.kind)
    ensures Agree(Step(rows, e), Step(rows', e), e.kind)
  {
    match e
    case Submit(kind, m, _, _, _) => AgreeFindMerchant(rows, rows', kind, m, 0);
    case Confirm(kind, id, _) => AgreeFindApplication(rows, rows', kind, id, 0);
  }

  lemma OtherKindStep(rows: seq<Row>, e: Event, kind: Kind)
    requires e.kind != kind
    ensures Agree(Step(rows, e), rows, kind)
  {
  }

  /** KYC ends as if no KYB request or decision had ever come, and the other way round. */
  lemma {:induction false} KindsDoNotInterfere(rows: seq<Row>, rows': seq<Row>, es: seq<Event>, kind: Kind)
    requires Agree(rows, rows', kind)
    ensures Agree(Run(rows, es), Run(rows', Only(kind, es)), kind)
    decreases |es|
  {
    if es != [] {
      if es[0].kind == kind {
        AgreeStep(rows, rows', es[0]);
        KindsDoNotInterfere(Step(rows, es[0]), Step(rows', es[0]), es[1..], kind);
        assert ([es[0]] + Only(kind, es[1..]))[1..] == Only(kind, es[1..]);
      } else {
        OtherKindStep(rows, es[0], kind);
        KindsDoNotInterfere(Step(rows, es[0]), rows', es[1..], kind);
      }
    }
  }

  // ----- a submission that is interrupted ---------------------------------------------------------------

  function Other(kind: Kind): Kind { if kind.Kyc? then Kyb else Kyc }

  /** A submission reads the row, waits for the provider, and then saves all of the row it has read. */
  function Saved(rows: seq<Row>, i: nat, read: Row, kind: Kind, verdict: Verdict, id: string): seq<Row>
    requires i < |rows|
  {
    rows[i := read.Set(kind, Submitted(verdict, id))]
  }

  ghost predicate SameMerchants(rows: seq<Row>, rows': seq<Row>) {
    |rows| == |rows'| && forall i | 0 <= i < |rows| :: rows[i].merchantId == rows'[i].merchantId
  }

  lemma {:induction false} RunKeepsMerchants(rows: seq<Row>, es: seq<Event>)
    ensures SameMerchants(rows, Run(rows, es))
    decreases |es|
  {
    if es != [] { RunKeepsMerchants(Step(rows, es[0]), es[1..]); }
  }

  lemma {:induction false} SameFindMerchant(rows: seq<Row>, rows': seq<Row>, m: string, i: nat)
    requires SameMerchants(rows, rows') && i <= |rows|
    ensures FindMerchant(rows, m, i) == FindMerchant(rows', m, i)
    decreases |rows| - i
  {
    if i < |rows| { SameFindMerchant(rows, rows', m, i + 1); }
  }

  /** With anything between the two, it does what a submission at the time of the save would do, if and
      only if the merchant's other check is then as it was read. */
  lemma SaveIsSubmitIff(rows: seq<Row>, between: seq<Event>, kind: Kind, i: nat, verdict: Verdict, id: string)
    requires i < |rows| && FindMerchant(rows, rows[i].merchantId, 0) == i
    ensures var v := Run(rows, between);
            Saved(v, i, rows[i], kind, verdict, id) == Step(v, Submit(kind, rows[i].merchantId, false, verdict, id))
            <==> v[i].Get(Other(kind)) == rows[i].Get(Other(kind))
  {
    var v, check := Run(rows, between), Submitted(verdict, id);
    RunKeepsMerchants(rows, between);
    SameFindMerchant(rows, v, rows[i].merchantId, 0);
    assert Step(v, Submit(kind, rows[i].merchantId, false, verdict, id)) == v[i := v[i].Set(kind, check)];
    assert v[i := rows[i].Set(kind, check)][i] == rows[i].Set(kind, check);
    assert v[i := v[i].Set(kind, check)][i] == v[i].Set(kind, check);
  }

  /** The merchant does not submit this check itself. */
  ghost predicate NoSubmission(es: seq<Event>, kind: Kind, merchantId: string) {
    forall e | e in es && e.Submit? && e.kind == kind :: e.merchantId != merchantId
  }

  lemma {:induction false} DecidedIsKept(rows: seq<Row>, es: seq<Event>, kind: Kind, i: nat)
    requires i < |rows| && rows[i].Get(kind).status != PendingReview && NoSubmission(es, kind, rows[i].merchantId)
    ensures Run(rows, es)[i].Get(kind) == rows[i].Get(kind)
    decreases |es|
  {
    if es != [] {
      assert es[0] in es;
      DecidedIsKept(Step(rows, es[0]), es[1..], kind, i);
    }
  }

  /** A decision on the other check that comes in between is overwritten: that check is pending again. */
  lemma DecisionIsOverwritten(rows: seq<Row>, kind: Kind, i: nat, verdict: Verdict, id: string, b: string, o: Outcome)
    requires Owns(rows, Other(kind), b, i) && rows[i].Get(Other(kind)).status == PendingReview
    ensures var v := Run(rows, [Confirm(Other(kind), b, o)]);
            && v[i].Get(Other(kind)).status == StatusOf(o)
            && Saved(v, i, rows[i], kind, verdict, id)[i].Get(Other(kind)).status == PendingReview
  {
    var e := Confirm(Other(kind), b, o);
    OwnsStep(rows, e, Other(kind), b, i);
    assert Run(rows, [e]) == Run(Step(rows, e), [e][1..]) == Step(rows, e);
  }

  /** What can be told before the submission: whatever comes in between, but a submission of the other
      check by the same merchant, nothing is overwritten, if and only if that check is not pending. */
  lemma SubmissionIsAtomicIff(rows: seq<Row>, kind: Kind, i: nat, verdict: Verdict, id: string)
    requires i < |rows| && FindMerchant(rows, rows[i].merchantId, 0) == i
    requires var other := rows[i].Get(Other(kind));
             other.status == PendingReview ==>
               other.applicationId.Some? && Owns(rows, Other(kind), other.applicationId.value, i)
    ensures (forall between | NoSubmission(between, Other(kind), rows[i].merchantId) ::
               Saved(Run(rows, between), i, rows[i], kind, verdict, id)
               == Step(Run(rows, between), Submit(kind, rows[i].merchantId, false, verdict, id)))
       <==> rows[i].Get(Other(kind)).status != PendingReview
  {
    var k := Other(kind);
    if rows[i].Get(k).status != PendingReview {
      forall between | NoSubmission(between, Other(kind), rows[i].merchantId)
        ensures Saved(Run(rows, between), i, rows[i], kind, verdict, id)
             == Step(Run(rows, between), Submit(kind, rows[i].merchantId, false, verdict, id))
      {
        DecidedIsKept(rows, between, k, i);
        SaveIsSubmitIff(rows, between, kind, i, verdict, id);
      }
    } else {
      var b := rows[i].Get(k).applicationId.value;
      var between := [Confirm(k, b, OutcomeVerified)];
      DecisionIsOverwritten(rows, kind, i, verdict, id, b, OutcomeVerified);
      SaveIsSubmitIff(rows, between, kind, i, verdict, id);
      assert NoSubmission(between, Other(kind), rows[i].merchantId);
    }
  }

  ghost predicate PendingHasId(rows: seq<Row>, kind: Kind) {
    forall i | 0 <= i < |rows| ::
      rows[i].Get(kind).status == PendingReview ==> rows[i].Get(kind).applicationId.Some?
  }

  /** Pending always means an application id to decide by. The converse is not kept: a decision
      leaves the id in place. */
  lemma {:induction false} PendingAlwaysHasId(rows: seq<Row>, es: seq<Event>, kind: Kind)
    requires PendingHasId(rows, kind)
    ensures PendingHasId(Run(rows, es), kind)
    decreases |es|
  {
    if es != [] { PendingAlwaysHasId(Step(rows, es[0]), es[1..], kind); }
  }
}
