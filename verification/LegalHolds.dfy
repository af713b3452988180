/** Legal holds and disputes against the archiving and deletion jobs. */
module LegalHolds {
  import opened Retention

  ghost predicate LiveAndHeld(p: Payments, id: Id) { id in p.live && p.live[id].held }

  /** Whatever follows, until its release, the payment is live and held. */
  ghost predicate HeldForSure(required: bool, t: Tables, id: Id) {
    forall es | ReleaseHold(id) !in es :: LiveAndHeld(Run(required, t, es).payments, id)
  }

  lemma HeldStep(required: bool, t: Tables, e: Event, id: Id)
    requires Sound(t) && LiveAndHeld(t.payments, id) && !InCopies(t.payments.copied, id) && e != ReleaseHold(id)
    ensures var p := PaymentStep(required, t, e);
            LiveAndHeld(p, id) && !InCopies(p.copied, id)
  {
    UncopiedStays(required, t, e, id);
    assert id in PaymentStep(required, t, e).live;
  }

  lemma {:induction false} HeldStaysLive(required: bool, t: Tables, es: seq<Event>, id: Id)
    requires Sound(t) && LiveAndHeld(t.payments, id) && !InCopies(t.payments.copied, id)
    requires ReleaseHold(id) !in es
    ensures LiveAndHeld(Run(required, t, es).payments, id)
    decreases |es|
  {
    if es != [] {
      StepSound(required, t, es[0]);
      HeldStep(required, t, es[0], id);
      HeldStaysLive(required, Step(required, t, es[0]), es[1..], id);
    }
  }

  /** The transaction that has copied the payment commits. */
  lemma CopiedIsTaken(required: bool, t: Tables, id: Id) returns (e: Event)
    requires Sound(t) && InCopies(t.payments.copied, id)
    ensures e.FinishPayments? && Run(required, t, [e]) == Step(required, t, e)
    ensures var p := Step(required, t, e).payments;
            id !in p.live && id in p.archive && !p.archive[id].held && p.openDisputes == t.payments.openDisputes
  {
    var k :| k in t.payments.copied && id in t.payments.copied[k];
    e := FinishPayments(k, false);
    assert [e] + [] == [e];
    RunOne(required, t, e, []);
  }

  /** A payment under hold stays live and held until its release, whatever archiving and deletion jobs do,
      even one that had selected it before the hold, if and only if no archiving transaction under way
      has copied it. */
  lemma HeldStaysLiveIff(required: bool, t: Tables, id: Id)
    requires Sound(t) && LiveAndHeld(t.payments, id)
    ensures HeldForSure(required, t, id) <==> !InCopies(t.payments.copied, id)
  {
    if InCopies(t.payments.copied, id) {
      var e := CopiedIsTaken(required, t, id);
      assert ReleaseHold(id) !in [e];
    } else {
      forall es | ReleaseHold(id) !in es ensures LiveAndHeld(Run(required, t, es).payments, id) {
        HeldStaysLive(required, t, es, id);
      }
    }
  }

  /** A hold that is placed without interruption, on a payment of either table, is in force from then until
      its release, if and only if no archiving transaction under way has copied the payment. */
  lemma HoldTakesEffectIff(required: bool, t: Tables, id: Id)
    requires Sound(t) && (id in t.payments.live || id in t.payments.archive)
    ensures HeldForSure(required, Step(required, t, PlaceHold(id, false)), id) <==> !InCopies(t.payments.copied, id)
  {
    StepSound(required, t, PlaceHold(id, false));
    HeldStaysLiveIff(required, Step(required, t, PlaceHold(id, false)), id);
  }

  // ----- a hold that is interrupted ------------------------------------------------------------------------

  /** The event is the commit of an archiving transaction that has copied the payment. */
  ghost predicate Takes(p: Payments, e: Event, id: Id) {
    e.FinishPayments? && !e.rollback && e.txn in p.copied && id in p.copied[e.txn]
  }

  ghost predicate TakenDuring(required: bool, t: Tables, es: seq<Event>, id: Id)
    decreases |es|
  {
    es != [] && (Takes(t.payments, es[0], id) || TakenDuring(required, Step(required, t, es[0]), es[1..], id))
  }

  lemma TakenStep(required: bool, t: Tables, e: Event, id: Id)
    requires Sound(t) && id in t.payments.known && e != PlaceHold(id, false)
    ensures var p := PaymentStep(required, t, e);
            id in p.known && (id in p.live <==> id in t.payments.live && !Takes(t.payments, e, id))
  {
    if id in t.payments.live && !e.CopyPayments? && !e.FinishPayments? { OtherStepsKeep(required, t, e, id); }
  }

  lemma {:induction false} GoneStaysGone(required: bool, t: Tables, es: seq<Event>, id: Id)
    requires Sound(t) && id in t.payments.known && PlaceHold(id, false) !in es && id !in t.payments.live
    ensures id !in Run(required, t, es).payments.live
    decreases |es|
  {
    if es != [] {
      StepSound(required, t, es[0]);
      TakenStep(required, t, es[0], id);
      GoneStaysGone(required, Step(required, t, es[0]), es[1..], id);
    }
  }

  /** A live payment that nobody restores meanwhile is still live after a run exactly if no archiving
      transaction that had copied it committed. */
  lemma {:induction false} LiveUnlessTaken(required: bool, t: Tables, es: seq<Event>, id: Id)
    requires Sound(t) && id in t.payments.live && PlaceHold(id, false) !in es
    ensures id in Run(required, t, es).payments.live <==> !TakenDuring(required, t, es, id)
    decreases |es|
  {
    if es != [] {
      StepSound(required, t, es[0]);
      TakenStep(required, t, es[0], id);
      if Takes(t.payments, es[0], id) {
        GoneStaysGone(required, Step(required, t, es[0]), es[1..], id);
      } else {
        LiveUnlessTaken(required, Step(required, t, es[0]), es[1..], id);
      }
    }
  }

  /** `placeHold` looks a payment up and marks it in two statements. With anything in between, the hold is
      in force from then until its release if and only if no archiving transaction that has copied the
      payment commits in between or is under way at the update. */
  lemma InterruptedHoldIff(required: bool, t: Tables, between: seq<Event>, id: Id)
    requires Sound(t) && id in t.payments.live && PlaceHold(id, false) !in between
    ensures var v := Run(required, t, between);
            HeldForSure(required, Step(required, v, MarkHeld(id)), id)
            <==> !TakenDuring(required, t, between, id) && !InCopies(v.payments.copied, id)
  {
    var v := Run(required, t, between);
    var t' := Step(required, v, MarkHeld(id));
    RunSound(required, t, between);
    StepSound(required, v, MarkHeld(id));
    LiveUnlessTaken(required, t, between, id);
    if id in v.payments.live {
      HeldStaysLiveIff(required, t', id);
    } else {
      assert ReleaseHold(id) !in [] && Run(required, t', []) == t';
    }
  }

  /** Between the statements nobody touches what shields the payment, and archiving transactions that start
      have a threshold of at most `bound`. */
  ghost predicate Calm(es: seq<Event>, id: Id, bound: int) {
    forall e | e in es ::
      && !(e.UpdatePayment? && e.id == id) && !(e.PlaceHold? && e.id == id)
      && e != ReleaseHold(id) && e != CloseDispute(id)
      && (e.CopyPayments? ==> e.before <= bound)
  }

  ghost predicate OutOfReach(p: Payments, id: Id, bound: int) {
    id in p.live && !InCopies(p.copied, id) && (p.live[id].createdAt >= bound || Shielded(p, id))
  }

  lemma OutOfReachStep(required: bool, t: Tables, e: Event, id: Id, bound: int)
    requires Sound(t) && OutOfReach(t.payments, id, bound) && Calm([e], id, bound)
    ensures OutOfReach(PaymentStep(required, t, e), id, bound)
  {
    assert e in [e];
    UncopiedStays(required, t, e, id);
  }

  lemma {:induction false} StaysOutOfReach(required: bool, t: Tables, es: seq<Event>, id: Id, bound: int)
    requires Sound(t) && OutOfReach(t.payments, id, bound) && Calm(es, id, bound)
    ensures OutOfReach(Run(required, t, es).payments, id, bound)
    decreases |es|
  {
    if es != [] {
      assert es[0] in es;
      StepSound(required, t, es[0]);
      OutOfReachStep(required, t, es[0], id, bound);
      StaysOutOfReach(required, Step(required, t, es[0]), es[1..], id, bound);
    }
  }

  lemma OutOfReachIsHeld(required: bool, t: Tables, between: seq<Event>, id: Id, bound: int)
    requires Sound(t) && OutOfReach(t.payments, id, bound) && Calm(between, id, bound)
    ensures HeldForSure(required, Step(required, Run(required, t, between), MarkHeld(id)), id)
  {
    var v := Run(required, t, between);
    StaysOutOfReach(required, t, between, id, bound);
    RunSound(required, t, between);
    StepSound(required, v, MarkHeld(id));
    HeldStaysLiveIff(required, Step(required, v, MarkHeld(id)), id);
  }

  /** A whole archiving transaction between the statements. */
  lemma WithinReachIsMissed(required: bool, t: Tables, id: Id, bound: int) returns (between: seq<Event>)
    requires Sound(t) && id in t.payments.live && !InCopies(t.payments.copied, id)
    requires t.payments.live[id].createdAt < bound && !Shielded(t.payments, id)
    ensures Calm(between, id, bound)
    ensures id !in Run(required, t, between).payments.live
  {
    var k := Unused(t.payments.copied.Keys);
    between := [CopyPayments(k, bound), FinishPayments(k, false)];
    ArchivingRun(required, t, k, bound);
    ArchivesExactly(t.payments, k, bound, id);
  }

  /** The hold is in force for sure after every calm run between the statements. */
  ghost predicate HoldIsCertain(required: bool, t: Tables, id: Id, bound: int) {
    forall between | Calm(between, id, bound) ::
      HeldForSure(required, Step(required, Run(required, t, between), MarkHeld(id)), id)
  }

  /** What can be told at the lookup: the hold is certain if and only if no archiving transaction under way
      has copied the payment, and it is too young for those that may start or something shields it. */
  lemma HoldIsCertainIff(required: bool, t: Tables, id: Id, bound: int)
    requires Sound(t) && id in t.payments.live
    ensures HoldIsCertain(required, t, id, bound)
       <==> && !InCopies(t.payments.copied, id)
            && (t.payments.live[id].createdAt >= bound || Shielded(t.payments, id))
  {
    if OutOfReach(t.payments, id, bound) {
      forall between | Calm(between, id, bound)
        ensures HeldForSure(required, Step(required, Run(required, t, between), MarkHeld(id)), id)
      {
        OutOfReachIsHeld(required, t, between, id, bound);
      }
    } else if InCopies(t.payments.copied, id) {
      InterruptedHoldIff(required, t, [], id);
      assert Calm([], id, bound);
    } else {
      var between := WithinReachIsMissed(required, t, id, bound);
      NotThereIsNotHeld(required, Run(required, t, between), id);
    }
  }

  lemma NotThereIsNotHeld(required: bool, v: Tables, id: Id)
    requires id !in v.payments.live
    ensures !HeldForSure(required, Step(required, v, MarkHeld(id)), id)
  {
    var t', none: seq<Event> := Step(required, v, MarkHeld(id)), [];
    assert ReleaseHold(id) !in none && Run(required, t', none) == t';
  }

  /** The payment is archived without a hold. */
  ghost predicate Missed(p: Payments, id: Id) { id !in p.live && id in p.archive && !p.archive[id].held }

  /** It does happen: a whole archiving transaction between the lookup and the update. */
  lemma HoldCanMiss(required: bool, id: Id)
    ensures Sound(OneOldPayment(id, ""))
    ensures var v := Run(required, OneOldPayment(id, ""), [CopyPayments(0, 1), FinishPayments(0, false)]);
            Missed(Step(required, v, MarkHeld(id)).payments, id)
  {
    var t := OneOldPayment(id, "");
    OneOldPaymentIsCopied(required, id, "");
    RunTwo(required, t, CopyPayments(0, 1), FinishPayments(0, false));
  }

  /** Or the whole hold between the two statements of an archiving transaction. */
  lemma WholeHoldCanMiss(required: bool, id: Id)
    ensures Sound(OneOldPayment(id, ""))
    ensures var t := Step(required, OneOldPayment(id, ""), CopyPayments(0, 1));
            && LiveAndHeld(Step(required, t, PlaceHold(id, false)).payments, id)
            && Missed(Run(required, t, [PlaceHold(id, false), FinishPayments(0, false)]).payments, id)
  {
    var t0 := OneOldPayment(id, "");
    OneOldPaymentIsCopied(required, id, "");
    RunTwo(required, Step(required, t0, CopyPayments(0, 1)), PlaceHold(id, false), FinishPayments(0, false));
  }

  // ----- shielded and disputed payments ----------------------------------------------------------------------

  /** The payment is shielded at every moment of the run at which it is live. */
  ghost predicate ShieldedThroughout(required: bool, t: Tables, es: seq<Event>, id: Id)
    decreases |es|
  {
    && (id in t.payments.live ==> Shielded(t.payments, id))
    && (es != [] ==> ShieldedThroughout(required, Step(required, t, es[0]), es[1..], id))
  }

  lemma {:induction false} ShieldedStaysLive(required: bool, t: Tables, es: seq<Event>, id: Id)
    requires Sound(t) && id in t.payments.live && !InCopies(t.payments.copied, id)
    requires ShieldedThroughout(required, t, es, id)
    ensures id in Run(required, t, es).payments.live
    decreases |es|
  {
    if es != [] {
      var p := PaymentStep(required, t, es[0]);
      StepSound(required, t, es[0]);
      UncopiedStays(required, t, es[0], id);
      assert id in p.live && !InCopies(p.copied, id);
      ShieldedStaysLive(required, Step(required, t, es[0]), es[1..], id);
    }
  }

  /** A shielded payment stays live as long as it is held, disputed, mismatched or not in a terminal state,
      if and only if no archiving transaction had copied it before. */
  lemma ShieldedStaysLiveIff(required: bool, t: Tables, id: Id)
    requires Sound(t) && id in t.payments.live && Shielded(t.payments, id)
    ensures (forall es | ShieldedThroughout(required, t, es, id) :: id in Run(required, t, es).payments.live)
       <==> !InCopies(t.payments.copied, id)
  {
    if InCopies(t.payments.copied, id) {
      var e := CopiedIsTaken(required, t, id);
      assert [e][1..] == [] && ShieldedThroughout(required, Step(required, t, e), [], id);
      assert ShieldedThroughout(required, t, [e], id);
    } else {
      forall es | ShieldedThroughout(required, t, es, id) ensures id in Run(required, t, es).payments.live {
        ShieldedStaysLive(required, t, es, id);
      }
    }
  }

  /** In one of the tables, created at this time, and not selected by a deletion job under way. */
  ghost predicate Kept(t: Tables, id: Id, createdAt: int) {
    InTables(t.payments, id, createdAt) && !Selected(t.jobs, id)
  }

  ghost predicate Selected(j: Jobs, id: Id) { exists k :: k in j.open && id in j.open[k].payments }

  ghost predicate InTables(p: Payments, id: Id, createdAt: int) {
    || (id in p.live && p.live[id].createdAt == createdAt)
    || (id !in p.live && id in p.archive && p.archive[id].createdAt == createdAt)
  }

  lemma KeptStep(required: bool, t: Tables, e: Event, id: Id, createdAt: int)
    requires Sound(t) && Kept(t, id, createdAt)
    requires e.Select? ==> id in t.payments.openDisputes || createdAt >= e.before
    ensures Kept(Step(required, t, e), id, createdAt)
  {
    if e.FinishPayments? {
      assert InTables(PaymentsFinished(t.payments, e.txn, e.rollback), id, createdAt);
    } else {
      assert InTables(PaymentStep(required, t, e), id, createdAt);
    }
    assert !Selected(JobStep(required, t, e), id);
  }

  /** A payment with an open dispute is never selected for deletion, nor therefore deleted, as long
      as the dispute stays open. */
  lemma {:induction false} DisputedIsNeverDeleted(required: bool, t: Tables, es: seq<Event>, id: Id, createdAt: int)
    requires Sound(t) && Kept(t, id, createdAt)
    requires id in t.payments.openDisputes && CloseDispute(id) !in es
    ensures Kept(Run(required, t, es), id, createdAt)
    decreases |es|
  {
    if es != [] {
      StepSound(required, t, es[0]);
      KeptStep(required, t, es[0], id, createdAt);
      assert id in PaymentStep(required, t, es[0]).openDisputes;
      DisputedIsNeverDeleted(required, Step(required, t, es[0]), es[1..], id, createdAt);
    }
  }

  lemma {:induction false} DisputedStaysLive(required: bool, t: Tables, es: seq<Event>, id: Id, createdAt: int)
    requires Sound(t) && id in t.payments.live && t.payments.live[id].createdAt == createdAt
    requires !InCopies(t.payments.copied, id) && id in t.payments.openDisputes && CloseDispute(id) !in es
    ensures InTables(Run(required, t, es).payments, id, createdAt)
    decreases |es|
  {
    if es != [] {
      var p := PaymentStep(required, t, es[0]);
      StepSound(required, t, es[0]);
      UncopiedStays(required, t, es[0], id);
      assert id in p.live && p.live[id].createdAt == createdAt && id in p.openDisputes && !InCopies(p.copied, id);
      DisputedStaysLive(required, Step(required, t, es[0]), es[1..], id, createdAt);
    }
  }

  /** A disputed payment that a job has selected can still be deleted, once it is in the archive. */
  lemma DisputedCanBeDeleted(required: bool, t: Tables, id: Id, createdAt: int) returns (es: seq<Event>)
    requires Sound(t) && InTables(t.payments, id, createdAt) && Selected(t.jobs, id)
    requires id !in t.payments.live || InCopies(t.payments.copied, id)
    ensures CloseDispute(id) !in es && !InTables(Run(required, t, es).payments, id, createdAt)
  {
    var j :| j in t.jobs.open && id in t.jobs.open[j].payments;
    es := [WriteBackup(j, true), Delete(j, false)];
    if id in t.payments.live {
      var e := CopiedIsTaken(required, t, id);
      RunOne(required, t, e, es);
      JobDeletes(required, Step(required, t, e), j, id);
      es := [e] + es;
    } else {
      JobDeletes(required, t, j, id);
    }
  }

  /** A payment is safe from deletion as long as its dispute stays open, if and only if no job under way
      had selected it before the dispute, or it is live and no archiving transaction has copied it. */
  lemma DisputedIsKeptIff(required: bool, t: Tables, id: Id, createdAt: int)
    requires Sound(t) && InTables(t.payments, id, createdAt) && id in t.payments.openDisputes
    ensures (forall es | CloseDispute(id) !in es :: InTables(Run(required, t, es).payments, id, createdAt))
       <==> !Selected(t.jobs, id) || (id in t.payments.live && !InCopies(t.payments.copied, id))
  {
    if !Selected(t.jobs, id) {
      forall es | CloseDispute(id) !in es ensures InTables(Run(required, t, es).payments, id, createdAt) {
        DisputedIsNeverDeleted(required, t, es, id, createdAt);
      }
    } else if id in t.payments.live && !InCopies(t.payments.copied, id) {
      forall es | CloseDispute(id) !in es ensures InTables(Run(required, t, es).payments, id, createdAt) {
        DisputedStaysLive(required, t, es, id, createdAt);
      }
    } else {
      var es := DisputedCanBeDeleted(required, t, id, createdAt);
    }
  }

  /** A payment that no deletion job finds old enough, counted from its original creation, is kept too. */
  lemma {:induction false} YoungIsNeverDeleted(required: bool, t: Tables, es: seq<Event>, id: Id, createdAt: int)
    requires Sound(t) && Kept(t, id, createdAt)
    requires forall e | e in es && e.Select? :: e.before <= createdAt
    ensures Kept(Run(required, t, es), id, createdAt)
    decreases |es|
  {
    if es != [] {
      assert es[0] in es;
      StepSound(required, t, es[0]);
      KeptStep(required, t, es[0], id, createdAt);
      YoungIsNeverDeleted(required, Step(required, t, es[0]), es[1..], id, createdAt);
    }
  }
}
