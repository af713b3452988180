/** What becomes of the columns of a payment that is updated while archiving or deletion jobs run. */
module LatestColumns {
  import opened Retention

  /** The payment's latest columns are in a table or in a backup. */
  ghost predicate LatestKept(t: Tables, id: Id) {
    var p := t.payments;
    && id in p.known
    && (|| (id in p.live && p.live[id].columns == p.known[id])
        || (id in p.archive && p.archive[id].columns == p.known[id])
        || BackupHas(t.jobs.backups, id, p.known[id]))
  }

  /** These are the latest columns, and every row of the payment in a table, in an archiving transaction or
      in a deletion job under way has them. */
  ghost predicate Current(t: Tables, id: Id, columns: string) {
    CurrentRows(t.payments, id, columns) && CurrentJobs(t.jobs, id, columns)
  }

  ghost predicate CurrentRows(p: Payments, id: Id, columns: string) {
    && id in p.known && p.known[id] == columns
    && (id in p.live ==> p.live[id].columns == columns)
    && (id in p.archive ==> p.archive[id].columns == columns)
    && (forall k | k in p.copied && id in p.copied[k] :: p.copied[k][id].columns == columns)
  }

  ghost predicate CurrentJobs(j: Jobs, id: Id, columns: string) {
    forall k | k in j.open && id in j.open[k].payments :: j.open[k].payments[id].columns == columns
  }

  /** An archiving transaction, or a deletion job, under way has the payment with other columns. */
  ghost predicate CopiedOtherwise(p: Payments, id: Id, columns: string) {
    exists k :: k in p.copied && id in p.copied[k] && p.copied[k][id].columns != columns
  }

  ghost predicate SelectedOtherwise(j: Jobs, id: Id, columns: string) {
    exists k :: k in j.open && id in j.open[k].payments && j.open[k].payments[id].columns != columns
  }

  lemma CurrentStep(required: bool, t: Tables, e: Event, id: Id, columns: string)
    requires Sound(t) && Current(t, id, columns)
    requires e.UpdatePayment? && e.id == id ==> e.columns == columns
    ensures Current(Step(required, t, e), id, columns)
  {
    CurrentRowsStep(required, t, e, id, columns);
    assert CurrentJobs(JobStep(required, t, e), id, columns);
  }

  lemma CurrentRowsStep(required: bool, t: Tables, e: Event, id: Id, columns: string)
    requires Sound(t) && CurrentRows(t.payments, id, columns)
    requires e.UpdatePayment? && e.id == id ==> e.columns == columns
    ensures CurrentRows(PaymentStep(required, t, e), id, columns)
  {
  }

  /** After an update that nobody's copy contradicts, every copy is current. */
  lemma UpdateIsCurrent(t: Tables, e: Event, id: Id)
    requires Sound(t) && e.UpdatePayment? && e.id == id && id in t.payments.live
    requires !CopiedOtherwise(t.payments, id, e.columns) && !SelectedOtherwise(t.jobs, id, e.columns)
    ensures Current(Step(true, t, e), id, e.columns)
  {
  }

  lemma LatestKeptStep(t: Tables, e: Event, id: Id, columns: string)
    requires Sound(t) && Conserved(t) && Current(t, id, columns) && LatestKept(t, id)
    requires e.UpdatePayment? && e.id == id ==> e.columns == columns
    ensures LatestKept(Step(true, t, e), id)
  {
    CurrentRowsStep(true, t, e, id, columns);
    if e.WriteBackup? && e.job in t.jobs.open {
      var j := t.jobs.open[e.job];
      BackupsGrow(t.jobs.backups, Backup(j.payments, j.outbox), id, columns);
    } else if e.Delete? && MayDelete(true, t, e.job) {
      assert JobBackedUp(t.jobs.open[e.job], t.jobs.backups);
    } else {
      assert JobStep(true, t, e).backups == t.jobs.backups;
      if !e.Delete? && (id in t.payments.live || id in t.payments.archive) { TablesKeepTheirOwn(t, e, id); }
    }
  }

  /** Only a deletion takes a payment out of both tables. */
  lemma TablesKeepTheirOwn(t: Tables, e: Event, id: Id)
    requires Sound(t) && !e.Delete? && (id in t.payments.live || id in t.payments.archive)
    ensures var p := PaymentStep(true, t, e);
            id in p.live || id in p.archive
  {
  }

  // ----- runs -----------------------------------------------------------------------------------------

  /** The event leaves a transaction or a job with columns of the payment that are not the latest. */
  ghost predicate Outdates(t: Tables, e: Event, id: Id) {
    && e.UpdatePayment? && e.id == id && id in t.payments.live
    && (CopiedOtherwise(t.payments, id, e.columns) || SelectedOtherwise(t.jobs, id, e.columns))
  }

  ghost predicate OutdatedDuring(t: Tables, es: seq<Event>, id: Id)
    decreases |es|
  {
    es != [] && (Outdates(t, es[0], id) || OutdatedDuring(Step(true, t, es[0]), es[1..], id))
  }

  /** With backups required, the latest columns of a payment survive every run in which it is not updated
      while a transaction or a job under way has it with other columns. */
  lemma {:induction false} LatestColumnsAreKept(t: Tables, es: seq<Event>, id: Id, columns: string)
    requires Sound(t) && Conserved(t) && Current(t, id, columns) && LatestKept(t, id)
    requires !OutdatedDuring(t, es, id)
    ensures LatestKept(Run(true, t, es), id)
    decreases |es|
  {
    if es != [] {
      var e, t' := es[0], Step(true, t, es[0]);
      StepSound(true, t, e);
      StepConserved(t, e);
      if e.UpdatePayment? && e.id == id && id in t.payments.live {
        UpdateIsCurrent(t, e, id);
        LatestColumnsAreKept(t', es[1..], id, e.columns);
      } else if e.UpdatePayment? && e.id == id {
        assert t' == t;
        LatestColumnsAreKept(t', es[1..], id, columns);
      } else {
        CurrentStep(true, t, e, id, columns);
        LatestKeptStep(t, e, id, columns);
        LatestColumnsAreKept(t', es[1..], id, columns);
      }
    }
  }

  /** Later updates, if any, do not change the columns again. */
  ghost predicate ColumnsFixed(es: seq<Event>, id: Id, columns: string) {
    forall e | e in es && e.UpdatePayment? && e.id == id :: e.columns == columns
  }

  lemma {:induction false} CurrentIsKept(t: Tables, es: seq<Event>, id: Id, columns: string)
    requires Sound(t) && Conserved(t) && Current(t, id, columns) && LatestKept(t, id) && ColumnsFixed(es, id, columns)
    ensures LatestKept(Run(true, t, es), id)
    decreases |es|
  {
    if es != [] {
      assert es[0] in es;
      StepSound(true, t, es[0]);
      StepConserved(t, es[0]);
      CurrentStep(true, t, es[0], id, columns);
      LatestKeptStep(t, es[0], id, columns);
      CurrentIsKept(Step(true, t, es[0]), es[1..], id, columns);
    }
  }

  lemma {:induction false} BackedUpIsKept(t: Tables, es: seq<Event>, id: Id, columns: string)
    requires id in t.payments.known && t.payments.known[id] == columns && ColumnsFixed(es, id, columns)
    requires BackupHas(t.jobs.backups, id, columns)
    ensures LatestKept(Run(true, t, es), id)
    decreases |es|
  {
    if es != [] {
      assert es[0] in es;
      if es[0].WriteBackup? && es[0].job in t.jobs.open {
        var j := t.jobs.open[es[0].job];
        BackupsGrow(t.jobs.backups, Backup(j.payments, j.outbox), id, columns);
      }
      assert PaymentStep(true, t, es[0]).known[id] == columns;
      BackedUpIsKept(Step(true, t, es[0]), es[1..], id, columns);
    }
  }

  /** The payment is live with these columns, and no archiving transaction has it or ever will. */
  ghost predicate Stuck(p: Payments, id: Id, columns: string) {
    && id in p.live && p.live[id].columns == columns && id in p.known && p.known[id] == columns
    && id in p.mismatched && !InCopies(p.copied, id)
  }

  lemma StuckColumns(t: Tables, e: Event, id: Id, columns: string)
    requires Sound(t) && Stuck(t.payments, id, columns)
    requires e.UpdatePayment? && e.id == id ==> e.columns == columns
    requires id in PaymentStep(true, t, e).live
    ensures var p := PaymentStep(true, t, e);
            && p.live[id].columns == columns && id in p.known && p.known[id] == columns && id in p.mismatched
  {
  }

  lemma {:induction false} StuckIsKept(t: Tables, es: seq<Event>, id: Id, columns: string)
    requires Sound(t) && Stuck(t.payments, id, columns) && ColumnsFixed(es, id, columns)
    ensures LatestKept(Run(true, t, es), id)
    decreases |es|
  {
    if es != [] {
      assert es[0] in es;
      StepSound(true, t, es[0]);
      UncopiedStays(true, t, es[0], id);
      StuckColumns(t, es[0], id, columns);
      StuckIsKept(Step(true, t, es[0]), es[1..], id, columns);
    }
  }

  // ----- the exact condition -----------------------------------------------------------------------------

  /** An update of a live payment to these columns can be lost: no backup has them already, and either an
      archiving transaction has copied the payment with other columns, or a deletion job has selected it
      with other columns and it can get to the archive again. */
  ghost predicate Exposed(t: Tables, id: Id, columns: string) {
    var p := t.payments;
    && !BackupHas(t.jobs.backups, id, columns)
    && (|| CopiedOtherwise(p, id, columns)
        || (SelectedOtherwise(t.jobs, id, columns) && (id !in p.mismatched || InCopies(p.copied, id))))
  }

  /** The latest columns are nowhere. */
  ghost predicate Lost(t: Tables, id: Id, columns: string) {
    var p := t.payments;
    && id in p.known && p.known[id] == columns && !BackupHas(t.jobs.backups, id, columns)
    && (id in p.live ==> p.live[id].columns != columns) && (id in p.archive ==> p.archive[id].columns != columns)
  }

  /** The transaction commits, and the archive has what it copied. */
  lemma CopyReplacesUpdate(t: Tables, id: Id, columns: string, txn: nat) returns (es: seq<Event>)
    requires Sound(t) && id in t.payments.known && t.payments.known[id] == columns
    requires !BackupHas(t.jobs.backups, id, columns)
    requires txn in t.payments.copied && id in t.payments.copied[txn]
    requires t.payments.copied[txn][id].columns != columns
    ensures ColumnsFixed(es, id, columns) && Lost(Run(true, t, es), id, columns)
  {
    var e := FinishPayments(txn, false);
    es := [e] + [];
    RunOne(true, t, e, []);
  }

  /** A live payment can get to the archive with the columns it has, if it is not mismatched. */
  lemma CanBeCopied(t: Tables, id: Id, columns: string) returns (t': Tables, es: seq<Event>)
    requires Sound(t) && id in t.payments.live && CurrentRows(t.payments, id, columns)
    requires id !in t.payments.mismatched && !InCopies(t.payments.copied, id)
    ensures ColumnsFixed(es, id, columns) && forall rest :: Run(true, t, es + rest) == Run(true, t', rest)
    ensures Sound(t') && t'.jobs == t.jobs && InCopies(t'.payments.copied, id)
    ensures id in t'.payments.known && t'.payments.known[id] == columns
  {
    var t3 := Unshielded(t, id, columns);
    var k := Unused(t.payments.copied.Keys);
    t' := CopiedNow(t3, k, id);
    var e4 := CopyPayments(k, t3.payments.live[id].createdAt + 1);
    es := [UpdatePayment(id, "REFUNDED", columns, ""), ReleaseHold(id), CloseDispute(id), e4];
    forall rest ensures Run(true, t, es + rest) == Run(true, t', rest) {
      RunFour(t, es[0], es[1], es[2], es[3], rest);
    }
  }

  lemma CopiedNow(t: Tables, k: nat, id: Id) returns (t': Tables)
    requires Sound(t) && id in t.payments.live && !Shielded(t.payments, id)
    requires k !in t.payments.copied && !InCopies(t.payments.copied, id)
    ensures t' == Step(true, t, CopyPayments(k, t.payments.live[id].createdAt + 1))
    ensures Sound(t') && t'.jobs == t.jobs && InCopies(t'.payments.copied, id) && t'.payments.known == t.payments.known
  {
    var e := CopyPayments(k, t.payments.live[id].createdAt + 1);
    t' := Step(true, t, e);
    StepSound(true, t, e);
    CopiesExactly(t.payments, k, e.before, id);
  }

  lemma RunFour(t: Tables, e1: Event, e2: Event, e3: Event, e4: Event, rest: seq<Event>)
    ensures Run(true, t, [e1, e2, e3, e4] + rest)
         == Run(true, Step(true, Step(true, Step(true, Step(true, t, e1), e2), e3), e4), rest)
  {
    var t1 := Step(true, t, e1);
    var t2 := Step(true, t1, e2);
    assert [e1, e2, e3, e4] + rest == [e1] + ([e2] + ([e3] + ([e4] + rest)));
    RunOne(true, t, e1, [e2] + ([e3] + ([e4] + rest)));
    RunOne(true, t1, e2, [e3] + ([e4] + rest));
    RunOne(true, t2, e3, [e4] + rest);
    RunOne(true, Step(true, t2, e3), e4, rest);
  }

  /** What the steps below leave as it was. */
  ghost predicate SameRow(t: Tables, t': Tables, id: Id) {
    var p, p' := t.payments, t'.payments;
    && Sound(t') && t'.jobs == t.jobs && p'.copied == p.copied && p'.mismatched == p.mismatched && p'.known == p.known
    && id in p'.live
  }

  lemma ToTerminal(t: Tables, id: Id, columns: string) returns (t': Tables)
    requires Sound(t) && id in t.payments.live && CurrentRows(t.payments, id, columns)
    ensures t' == Step(true, t, UpdatePayment(id, "REFUNDED", columns, ""))
    ensures SameRow(t, t', id) && t'.payments.live[id].status == "REFUNDED"
  {
    t' := Step(true, t, UpdatePayment(id, "REFUNDED", columns, ""));
    StepSound(true, t, UpdatePayment(id, "REFUNDED", columns, ""));
    assert t'.payments.known == t.payments.known;
  }

  lemma ToFree(t: Tables, id: Id) returns (t': Tables)
    requires Sound(t) && id in t.payments.live
    ensures t' == Step(true, t, ReleaseHold(id))
    ensures SameRow(t, t', id) && t'.payments.live[id] == t.payments.live[id].(held := false)
  {
    t' := Step(true, t, ReleaseHold(id));
    StepSound(true, t, ReleaseHold(id));
  }

  lemma ToUndisputed(t: Tables, id: Id) returns (t': Tables)
    requires Sound(t) && id in t.payments.live
    ensures t' == Step(true, t, CloseDispute(id))
    ensures SameRow(t, t', id) && t'.payments.live[id] == t.payments.live[id] && id !in t'.payments.openDisputes
  {
    t' := Step(true, t, CloseDispute(id));
    StepSound(true, t, CloseDispute(id));
  }

  /** An update of the status, a release and the end of the dispute leave nothing but a mismatch. */
  lemma Unshielded(t: Tables, id: Id, columns: string) returns (t3: Tables)
    requires Sound(t) && id in t.payments.live && CurrentRows(t.payments, id, columns)
    ensures t3 == Step(true, Step(true, Step(true, t, UpdatePayment(id, "REFUNDED", columns, "")), ReleaseHold(id)),
                       CloseDispute(id))
    ensures SameRow(t, t3, id) && (id !in t.payments.mismatched ==> !Shielded(t3.payments, id))
  {
    var t1 := ToTerminal(t, id, columns);
    var t2 := ToFree(t1, id);
    t3 := ToUndisputed(t2, id);
  }

  /** A transaction that has copied the payment commits, and the job backs up what it had selected and
      deletes it. */
  lemma JobDeletesUpdate(t: Tables, id: Id, columns: string, job: nat) returns (es: seq<Event>)
    requires Sound(t) && InCopies(t.payments.copied, id)
    requires id in t.payments.known && t.payments.known[id] == columns && !BackupHas(t.jobs.backups, id, columns)
    requires job in t.jobs.open && id in t.jobs.open[job].payments && t.jobs.open[job].payments[id].columns != columns
    ensures ColumnsFixed(es, id, columns) && Lost(Run(true, t, es), id, columns)
  {
    var txn :| txn in t.payments.copied && id in t.payments.copied[txn];
    var e, rest := FinishPayments(txn, false), [WriteBackup(job, true), Delete(job, false)];
    var t' := Step(true, t, e);
    es := [e] + rest;
    RunOne(true, t, e, rest);
    JobDeletes(true, t', job, id);
    assert !BackupHas(Run(true, t', rest).jobs.backups, id, columns);
  }

  lemma ExposedCanBeLost(t: Tables, id: Id, columns: string) returns (es: seq<Event>)
    requires Sound(t) && id in t.payments.live && Exposed(t, id, columns)
    requires id in t.payments.known && t.payments.known[id] == columns && t.payments.live[id].columns == columns
    ensures ColumnsFixed(es, id, columns) && Lost(Run(true, t, es), id, columns)
  {
    if CopiedOtherwise(t.payments, id, columns) {
      var k :| k in t.payments.copied && id in t.payments.copied[k] && t.payments.copied[k][id].columns != columns;
      es := CopyReplacesUpdate(t, id, columns, k);
    } else {
      var j :| j in t.jobs.open && id in t.jobs.open[j].payments && t.jobs.open[j].payments[id].columns != columns;
      if InCopies(t.payments.copied, id) {
        es := JobDeletesUpdate(t, id, columns, j);
      } else {
        var t', first := CanBeCopied(t, id, columns);
        var rest := JobDeletesUpdate(t', id, columns, j);
        es := first + rest;
      }
    }
  }

  /** The latest columns survive an update, whatever follows that does not change them again, if and
      only if the update is not exposed. */
  lemma UpdateIsKeptIff(t: Tables, id: Id, status: string, columns: string, extra: string)
    requires Sound(t) && Conserved(t) && id in t.payments.live
    ensures (forall es | ColumnsFixed(es, id, columns) ::
               LatestKept(Run(true, Step(true, t, UpdatePayment(id, status, columns, extra)), es), id))
       <==> !Exposed(t, id, columns)
  {
    var e := UpdatePayment(id, status, columns, extra);
    var t' := Step(true, t, e);
    StepSound(true, t, e);
    StepConserved(t, e);
    assert t'.jobs == t.jobs && t'.payments.copied == t.payments.copied;
    assert t'.payments.mismatched == t.payments.mismatched;
    if Exposed(t, id, columns) {
      var es := ExposedCanBeLost(t', id, columns);
      assert !LatestKept(Run(true, t', es), id);
    } else {
      forall es | ColumnsFixed(es, id, columns) ensures LatestKept(Run(true, t', es), id) {
        UnexposedIsKept(t, e, es, id);
      }
    }
  }

  lemma UnexposedIsKept(t: Tables, e: Event, es: seq<Event>, id: Id)
    requires Sound(t) && Conserved(t) && id in t.payments.live
    requires e.UpdatePayment? && e.id == id && !Exposed(t, id, e.columns) && ColumnsFixed(es, id, e.columns)
    ensures LatestKept(Run(true, Step(true, t, e), es), id)
  {
    var t' := Step(true, t, e);
    StepSound(true, t, e);
    StepConserved(t, e);
    if BackupHas(t.jobs.backups, id, e.columns) {
      BackedUpIsKept(t', es, id, e.columns);
    } else if SelectedOtherwise(t.jobs, id, e.columns) {
      StuckIsKept(t', es, id, e.columns);
    } else {
      UpdateIsCurrent(t, e, id);
      CurrentIsKept(t', es, id, e.columns);
    }
  }

  // ----- it does happen -------------------------------------------------------------------------------------

  /** A refund that lands between the INSERT and the DELETE of an archiving transaction: the archive has the
      columns from before, and no deletion job was ever there. */
  lemma ArchivingCanLoseAnUpdate() returns (es: seq<Event>)
    ensures es == [CopyPayments(0, 1), UpdatePayment("x", "REFUNDED", "new", ""), FinishPayments(0, false)]
    ensures Sound(OneOldPayment("x", "old")) && Conserved(OneOldPayment("x", "old"))
    ensures Lost(Run(true, OneOldPayment("x", "old"), es), "x", "new")
  {
    var t := OneOldPayment("x", "old");
    var e1, e2, e3 := CopyPayments(0, 1), UpdatePayment("x", "REFUNDED", "new", ""), FinishPayments(0, false);
    es := [e1, e2, e3];
    OneOldPaymentIsCopied(true, "x", "old");
    assert [e1] + [e2, e3] == es;
    RunOne(true, t, e1, [e2, e3]);
    RunTwo(true, Step(true, t, e1), e2, e3);
    CommitOverUpdate(Step(true, t, e1), "x", "new");
  }

  lemma CommitOverUpdate(t: Tables, id: Id, columns: string)
    requires Sound(t) && id in t.payments.live && !BackupHas(t.jobs.backups, id, columns)
    requires 0 in t.payments.copied && id in t.payments.copied[0] && t.payments.copied[0][id].columns != columns
    ensures var t' := Step(true, t, UpdatePayment(id, "REFUNDED", columns, ""));
            Lost(Step(true, t', FinishPayments(0, false)), id, columns)
  {
  }

  /** A job has selected and backed up an archived payment, and a hold has brought it back. It is updated
      and archived again, and the job deletes it. The backup has the old columns. */
  lemma DeletionCanLoseAnUpdate() returns (t: Tables, es: seq<Event>)
    ensures Sound(t) && Conserved(t) && Current(t, "x", "old") && LatestKept(t, "x") && t.payments.copied == map[]
    ensures Lost(Run(true, t, es), "x", "new")
  {
    var row := OldPayment("old");
    var job := Job(map["x" := row], map[], true);
    t := OneOldPayment("x", "old");
    t := t.(payments := t.payments.(live := map["x" := row.(held := true)]),
            jobs := Jobs(map[0 := job], [Backup(map["x" := row], map[])]));
    assert t.jobs.backups[0].payments["x"].columns == "old";
    assert JobBackedUp(job, t.jobs.backups);
    var e := UpdatePayment("x", "REFUNDED", "new", "");
    StepSound(true, t, e);
    assert SelectedOtherwise(t.jobs, "x", "new") by { assert 0 in t.jobs.open; }
    var rest := ExposedCanBeLost(Step(true, t, e), "x", "new");
    es := [e] + rest;
    RunOne(true, t, e, rest);
  }

  // ----- without updates ---------------------------------------------------------------------------------------

  ghost predicate BackupsAgree(backups: seq<Backup>, id: Id, columns: string) {
    forall b | b in backups && id in b.payments :: b.payments[id].columns == columns
  }

  /** As long as a payment is not updated, archiving, restoring, selecting and backing up never change its
      copied columns: whatever row or backup of it there is, has the ones it had. */
  lemma {:induction false} ColumnsAreKept(required: bool, t: Tables, es: seq<Event>, id: Id, columns: string)
    requires Sound(t) && Current(t, id, columns) && BackupsAgree(t.jobs.backups, id, columns)
    requires ColumnsFixed(es, id, columns)
    ensures Current(Run(required, t, es), id, columns) && BackupsAgree(Run(required, t, es).jobs.backups, id, columns)
    decreases |es|
  {
    if es != [] {
      assert es[0] in es;
      StepSound(required, t, es[0]);
      CurrentStep(required, t, es[0], id, columns);
      assert BackupsAgree(JobStep(required, t, es[0]).backups, id, columns);
      ColumnsAreKept(required, Step(required, t, es[0]), es[1..], id, columns);
    }
  }
}
