/** The data-retention lifecycle: the archiving job, the deletion job and legal holds over the
    live and archive tables, with rollbacks, failed backups and any interleaving.

    Neither job is one step. An archiving transaction copies eligible rows and later, on commit,
    deletes the live rows with the ids it copied; it holds no locks in between, so that other writers
    come between the two. Deletion selects rows, then writes a backup, then deletes the rows. Several
    jobs of both kinds may overlap. */
module Retention {
  import opened Options
  import opened Sets

  type Id = string

  /** `columns` stands for the columns the archive insert copies, status and dates apart; `extra`
      for the live columns it does not copy. */
  datatype Payment = Payment(createdAt: int, status: string, held: bool, columns: string, extra: string)

  /** A ledger_outbox entry. */
  datatype Entry = Entry(createdAt: int, status: string, columns: string)

  const TERMINAL_PAYMENT_STATUSES := {"SUCCEEDED", "FAILED", "CANCELLED", "REFUNDED", "PARTIALLY_REFUNDED"}

  /** The rows a deletion job selected, and whether their backup has been written. */
  datatype Job = Job(payments: map<Id, Payment>, outbox: map<Id, Entry>, written: bool)

  datatype Backup = Backup(payments: map<Id, Payment>, outbox: map<Id, Entry>)

  /** `copied` are the rows that archiving transactions under way have inserted, which nobody else sees
      before the commit. `known` records every payment ever live, with its latest columns. */
  datatype Payments = Payments(live: map<Id, Payment>, archive: map<Id, Payment>, copied: map<nat, map<Id, Payment>>,
                               known: map<Id, string>, openDisputes: set<Id>, mismatched: set<Id>)

  datatype Outbox = Outbox(live: map<Id, Entry>, archive: map<Id, Entry>, copied: map<nat, map<Id, Entry>>,
                           known: map<Id, string>)

  /** Deletion jobs under way, and the backups written so far. */
  datatype Jobs = Jobs(open: map<nat, Job>, backups: seq<Backup>)

  datatype Tables = Tables(payments: Payments, outbox: Outbox, jobs: Jobs)

  datatype Event =
    | NewPayment(id: Id, createdAt: int, status: string, columns: string, extra: string)
    | UpdatePayment(id: Id, status: string, columns: string, extra: string)
    | NewEntry(id: Id, entry: Entry)
    | UpdateEntry(id: Id, status: string)
    | OpenDispute(id: Id)
    | CloseDispute(id: Id)
    | Mismatch(id: Id)
    | PlaceHold(id: Id, rollback: bool)
    | MarkHeld(id: Id)
    | ReleaseHold(id: Id)
    | CopyPayments(txn: nat, before: int)           // the INSERT of an archiving transaction
    | FinishPayments(txn: nat, rollback: bool)      // its DELETE and COMMIT, or ROLLBACK
    | CopyOutbox(txn: nat, before: int)
    | FinishOutbox(txn: nat, rollback: bool)
    | Select(job: nat, before: int)
    | WriteBackup(job: nat, ok: bool)
    | Delete(job: nat, rollback: bool)

  // ----- archiving --------------------------------------------------------------------

  /** `now() - threshold` is `before`. */
  predicate Archivable(p: Payments, id: Id, before: int)
    requires id in p.live
  {
    && p.live[id].createdAt < before
    && p.live[id].status in TERMINAL_PAYMENT_STATUSES
    && !p.live[id].held
    && id !in p.openDisputes
    && id !in p.mismatched
  }

  function EligiblePayments(p: Payments, before: int): set<Id> {
    set id | id in p.live && Archivable(p, id, before)
  }

  function EligibleOutbox(o: Outbox, before: int): set<Id> {
    set id | id in o.live && o.live[id].createdAt < before && o.live[id].status == "PUBLISHED"
  }

  /** A transaction under way has inserted the id. Another insert of it waits, and then skips it if that
      transaction commits; if it is rolled back, it might never have been. */
  predicate InCopies<R>(copied: map<nat, map<Id, R>>, id: Id) {
    exists k :: k in copied && id in copied[k]
  }

  /** What the archive keeps of a row; legal_hold takes its default. */
  function Copied(p: Payment): Payment { p.(held := false, extra := "") }

  function PaymentCopies(live: map<Id, Payment>, ids: set<Id>): (copies: map<Id, Payment>)
    requires ids <= live.Keys
    ensures copies.Keys == ids
  {
    map id | id in ids :: Copied(live[id])
  }

  function EntryCopies(live: map<Id, Entry>, ids: set<Id>): (copies: map<Id, Entry>)
    requires ids <= live.Keys
    ensures copies.Keys == ids
  {
    map id | id in ids :: live[id]
  }

  /** INSERT ... ON CONFLICT DO NOTHING. */
  function InsertedPayments(p: Payments, before: int): set<Id> {
    set id | id in EligiblePayments(p, before) && id !in p.archive && !InCopies(p.copied, id)
  }

  function InsertedOutbox(o: Outbox, before: int): set<Id> {
    set id | id in EligibleOutbox(o, before) && id !in o.archive && !InCopies(o.copied, id)
  }

  function PaymentsCopied(p: Payments, txn: nat, before: int): Payments {
    if txn in p.copied then p
    else p.(copied := p.copied[txn := PaymentCopies(p.live, InsertedPayments(p, before))])
  }

  function OutboxCopied(o: Outbox, txn: nat, before: int): Outbox {
    if txn in o.copied then o
    else o.(copied := o.copied[txn := EntryCopies(o.live, InsertedOutbox(o, before))])
  }

  /** DELETE of the ids that were inserted, as they are now, and COMMIT. */
  function PaymentsFinished(p: Payments, txn: nat, rollback: bool): Payments {
    if txn !in p.copied then p
    else if rollback then p.(copied := p.copied - {txn})
    else p.(live := p.live - p.copied[txn].Keys, archive := p.archive + p.copied[txn], copied := p.copied - {txn})
  }

  function OutboxFinished(o: Outbox, txn: nat, rollback: bool): Outbox {
    if txn !in o.copied then o
    else if rollback then o.(copied := o.copied - {txn})
    else o.(live := o.live - o.copied[txn].Keys, archive := o.archive + o.copied[txn], copied := o.copied - {txn})
  }

  // ----- deletion -----------------------------------------------------------------------

  function SelectedPayments(p: Payments, before: int): map<Id, Payment> {
    map id | id in p.archive && p.archive[id].createdAt < before && !p.archive[id].held && id !in p.openDisputes
      :: p.archive[id]
  }

  function SelectedOutbox(o: Outbox, before: int): map<Id, Entry> {
    map id | id in o.archive && o.archive[id].createdAt < before :: o.archive[id]
  }

  /** The deletion transaction of a job may start: its backup, if required, has been written. */
  predicate MayDelete(required: bool, t: Tables, job: nat) {
    job in t.jobs.open && (required ==> t.jobs.open[job].written)
  }

  // ----- holds -----------------------------------------------------------------------------

  /** In place if live, else pulled back out of the archive. */
  function Held(p: Payments, id: Id): Payments {
    if id in p.live then p.(live := p.live[id := p.live[id].(held := true)])
    else if id in p.archive then p.(live := p.live[id := p.archive[id].(held := true)], archive := p.archive - {id})
    else p
  }

  /** The UPDATE with which `placeHold` marks a payment it found live: it may find it gone. */
  function Marked(p: Payments, id: Id): Payments {
    if id in p.live then p.(live := p.live[id := p.live[id].(held := true)]) else p
  }

  // ----- steps ------------------------------------------------------------------------------

  function PaymentStep(required: bool, t: Tables, e: Event): Payments {
    var p := t.payments;
    match e
    case NewPayment(id, createdAt, status, columns, extra) =>
      if id in p.known then p
      else p.(live := p.live[id := Payment(createdAt, status, false, columns, extra)], known := p.known[id := columns])
    case UpdatePayment(id, status, columns, extra) =>
      if id !in p.live then p
      else p.(live := p.live[id := p.live[id].(status := status, columns := columns, extra := extra)],
              known := p.known[id := columns])
    case OpenDispute(id) => p.(openDisputes := p.openDisputes + {id})
    case CloseDispute(id) => p.(openDisputes := p.openDisputes - {id})
    case Mismatch(id) => p.(mismatched := p.mismatched + {id})
    case PlaceHold(id, rollback) => if rollback then p else Held(p, id)
    case MarkHeld(id) => Marked(p, id)
    case ReleaseHold(id) =>
      if id !in p.live then p else p.(live := p.live[id := p.live[id].(held := false)])
    case CopyPayments(txn, before) => PaymentsCopied(p, txn, before)
    case FinishPayments(txn, rollback) => PaymentsFinished(p, txn, rollback)
    case Delete(job, rollback) =>
      if rollback || !MayDelete(required, t, job) then p
      else p.(archive := p.archive - t.jobs.open[job].payments.Keys)
    case _ => p
  }

  function OutboxStep(required: bool, t: Tables, e: Event): Outbox {
    var o := t.outbox;
    match e
    case NewEntry(id, entry) =>
      if id in o.known then o else o.(live := o.live[id := entry], known := o.known[id := entry.columns])
    case UpdateEntry(id, status) =>
      if id !in o.live then o else o.(live := o.live[id := o.live[id].(status := status)])
    case CopyOutbox(txn, before) => OutboxCopied(o, txn, before)
    case FinishOutbox(txn, rollback) => OutboxFinished(o, txn, rollback)
    case Delete(job, rollback) =>
      if rollback || !MayDelete(required, t, job) then o
      else o.(archive := o.archive - t.jobs.open[job].outbox.Keys)
    case _ => o
  }

  function JobStep(required: bool, t: Tables, e: Event): Jobs {
    var j := t.jobs;
    match e
    case Select(job, before) =>
      if job in j.open then j
      else j.(open := j.open[job := Job(SelectedPayments(t.payments, before), SelectedOutbox(t.outbox, before), false)])
    case WriteBackup(job, ok) =>
      if job !in j.open || j.open[job].written then j
      else if !ok then j.(open := j.open - {job})
      else Jobs(j.open[job := j.open[job].(written := true)],
                j.backups + [Backup(j.open[job].payments, j.open[job].outbox)])
    case Delete(job, rollback) =>
      if MayDelete(required, t, job) then j.(open := j.open - {job}) else j
    case _ => j
  }

  /** `required` is DELETION_BACKUP_REQUIRED. */
  function Step(required: bool, t: Tables, e: Event): Tables {
    Tables(PaymentStep(required, t, e), OutboxStep(required, t, e), JobStep(required, t, e))
  }

  function Run(required: bool, t: Tables, es: seq<Event>): Tables
    decreases |es|
  {
    if es == [] then t else Run(required, Step(required, t, es[0]), es[1..])
  }

  // ----- what every run keeps ----------------------------------------------------------------

  ghost predicate Sound(t: Tables) {
    SoundPayments(t.payments) && SoundOutbox(t.outbox)
  }

  /** Live and archive are disjoint and hold known rows only, no archived payment is held, and what
      transactions under way have copied is live, with its date, and copied by one of them only. */
  ghost predicate SoundPayments(p: Payments) {
    TablesFit(p) && CopiesFit(p) && CopiedOnce(p.copied)
  }

  ghost predicate TablesFit(p: Payments) {
    && (forall id | id in p.live :: id !in p.archive && id in p.known)
    && (forall id | id in p.archive :: id in p.known && !p.archive[id].held)
  }

  ghost predicate CopiesFit(p: Payments) {
    forall k, id | k in p.copied && id in p.copied[k] ::
      id in p.live && !p.copied[k][id].held && p.copied[k][id].createdAt == p.live[id].createdAt
  }

  ghost predicate CopiedOnce<R>(copied: map<nat, map<Id, R>>) {
    forall k, k', id | k in copied && k' in copied && id in copied[k] && id in copied[k'] :: k == k'
  }

  /** Likewise for the outbox, with the columns, which never change. */
  ghost predicate SoundOutbox(o: Outbox) {
    EntriesFit(o) && EntryCopiesFit(o) && CopiedOnce(o.copied)
  }

  ghost predicate EntriesFit(o: Outbox) {
    && (forall id | id in o.live :: id !in o.archive && id in o.known && o.live[id].columns == o.known[id])
    && (forall id | id in o.archive :: id in o.known && o.archive[id].columns == o.known[id])
  }

  ghost predicate EntryCopiesFit(o: Outbox) {
    forall k, id | k in o.copied && id in o.copied[k] :: id in o.live && o.copied[k][id].columns == o.live[id].columns
  }

  /** A backup has the payment, or has it with these columns. */
  ghost predicate InBackup(backups: seq<Backup>, id: Id) {
    exists k :: 0 <= k < |backups| && id in backups[k].payments
  }

  ghost predicate BackupHas(backups: seq<Backup>, id: Id, columns: string) {
    exists k :: 0 <= k < |backups| && id in backups[k].payments && backups[k].payments[id].columns == columns
  }

  ghost predicate EntryBackupHas(backups: seq<Backup>, id: Id, columns: string) {
    exists k :: 0 <= k < |backups| && id in backups[k].outbox && backups[k].outbox[id].columns == columns
  }

  /** A written job's rows are in a backup, and so is every row that is in neither table: an outbox
      entry with its columns. */
  ghost predicate Conserved(t: Tables) {
    && JobsBackedUp(t.jobs)
    && JobsKnow(t.jobs, t.outbox.known)
    && PaymentsConserved(t.payments, t.jobs.backups)
    && OutboxConserved(t.outbox, t.jobs.backups)
  }

  ghost predicate PaymentsConserved(p: Payments, backups: seq<Backup>) {
    forall id | id in p.known :: id in p.live || id in p.archive || InBackup(backups, id)
  }

  ghost predicate OutboxConserved(o: Outbox, backups: seq<Backup>) {
    forall id | id in o.known :: id in o.live || id in o.archive || EntryBackupHas(backups, id, o.known[id])
  }

  ghost predicate JobsBackedUp(j: Jobs) {
    forall k | k in j.open && j.open[k].written :: JobBackedUp(j.open[k], j.backups)
  }

  ghost predicate JobBackedUp(j: Job, backups: seq<Backup>) {
    && (forall id | id in j.payments :: BackupHas(backups, id, j.payments[id].columns))
    && (forall id | id in j.outbox :: EntryBackupHas(backups, id, j.outbox[id].columns))
  }

  /** The entries that jobs selected are as they were written: entries only change their status. */
  ghost predicate JobsKnow(j: Jobs, known: map<Id, string>) {
    forall k, id | k in j.open && id in j.open[k].outbox :: id in known && j.open[k].outbox[id].columns == known[id]
  }

  lemma PaymentsCopiedIsSound(p: Payments, txn: nat, before: int)
    requires SoundPayments(p)
    ensures SoundPayments(PaymentsCopied(p, txn, before))
  {
    if txn !in p.copied {
      CopiedOnceMore(p.copied, txn, PaymentCopies(p.live, InsertedPayments(p, before)));
      NewCopiesFit(p, txn, before);
    }
  }

  lemma NewCopiesFit(p: Payments, txn: nat, before: int)
    requires CopiesFit(p) && txn !in p.copied
    ensures CopiesFit(PaymentsCopied(p, txn, before))
  {
  }

  lemma OutboxCopiedIsSound(o: Outbox, txn: nat, before: int)
    requires SoundOutbox(o)
    ensures SoundOutbox(OutboxCopied(o, txn, before))
  {
    if txn !in o.copied {
      CopiedOnceMore(o.copied, txn, EntryCopies(o.live, InsertedOutbox(o, before)));
      NewEntryCopiesFit(o, txn, before);
    }
  }

  lemma NewEntryCopiesFit(o: Outbox, txn: nat, before: int)
    requires EntryCopiesFit(o) && txn !in o.copied
    ensures EntryCopiesFit(OutboxCopied(o, txn, before))
  {
  }

  lemma CopiedOnceMore<R>(copied: map<nat, map<Id, R>>, txn: nat, more: map<Id, R>)
    requires CopiedOnce(copied) && txn !in copied
    requires forall id | id in more :: !InCopies(copied, id)
    ensures CopiedOnce(copied[txn := more])
  {
  }

  lemma OneTransactionLess<R>(copied: map<nat, map<Id, R>>, txn: nat)
    requires CopiedOnce(copied)
    ensures CopiedOnce(copied - {txn})
  {
  }

  lemma FinishedTablesFit(p: Payments, txn: nat, rollback: bool)
    requires TablesFit(p) && CopiesFit(p)
    ensures TablesFit(PaymentsFinished(p, txn, rollback))
  {
  }

  lemma CopiedElsewhere<R>(copied: map<nat, map<Id, R>>, txn: nat, k: nat, id: Id)
    requires CopiedOnce(copied) && k in copied && txn in copied && k != txn && id in copied[k]
    ensures id !in copied[txn]
  {
  }

  lemma FinishedCopiesFit(p: Payments, txn: nat, rollback: bool)
    requires CopiesFit(p) && CopiedOnce(p.copied)
    ensures CopiesFit(PaymentsFinished(p, txn, rollback))
  {
    if txn in p.copied {
      forall k, id | k in p.copied && k != txn && id in p.copied[k] ensures id !in p.copied[txn] {
        CopiedElsewhere(p.copied, txn, k, id);
      }
    }
  }

  lemma PaymentsFinishedIsSound(p: Payments, txn: nat, rollback: bool)
    requires SoundPayments(p)
    ensures SoundPayments(PaymentsFinished(p, txn, rollback))
  {
    FinishedTablesFit(p, txn, rollback);
    FinishedCopiesFit(p, txn, rollback);
    OneTransactionLess(p.copied, txn);
  }

  lemma FinishedEntriesFit(o: Outbox, txn: nat, rollback: bool)
    requires EntriesFit(o) && EntryCopiesFit(o)
    ensures EntriesFit(OutboxFinished(o, txn, rollback))
  {
  }

  lemma FinishedEntryCopiesFit(o: Outbox, txn: nat, rollback: bool)
    requires EntryCopiesFit(o) && CopiedOnce(o.copied)
    ensures EntryCopiesFit(OutboxFinished(o, txn, rollback))
  {
    if txn in o.copied {
      forall k, id | k in o.copied && k != txn && id in o.copied[k] ensures id !in o.copied[txn] {
        CopiedElsewhere(o.copied, txn, k, id);
      }
    }
  }

  lemma OutboxFinishedIsSound(o: Outbox, txn: nat, rollback: bool)
    requires SoundOutbox(o)
    ensures SoundOutbox(OutboxFinished(o, txn, rollback))
  {
    FinishedEntriesFit(o, txn, rollback);
    FinishedEntryCopiesFit(o, txn, rollback);
    OneTransactionLess(o.copied, txn);
  }

  lemma HeldIsSound(p: Payments, id: Id)
    requires SoundPayments(p)
    ensures SoundPayments(Held(p, id))
  {
    assert TablesFit(Held(p, id));
    assert CopiesFit(Held(p, id));
  }

  lemma OtherPaymentStepIsSound(required: bool, t: Tables, e: Event)
    requires SoundPayments(t.payments) && !e.CopyPayments? && !e.FinishPayments?
    ensures SoundPayments(PaymentStep(required, t, e))
  {
    if e.PlaceHold? {
      HeldIsSound(t.payments, e.id);
    } else {
      var p := PaymentStep(required, t, e);
      assert p.copied == t.payments.copied;
      assert TablesFit(p);
      assert CopiesFit(p);
    }
  }

  lemma OtherOutboxStepIsSound(required: bool, t: Tables, e: Event)
    requires SoundOutbox(t.outbox) && !e.CopyOutbox? && !e.FinishOutbox?
    ensures SoundOutbox(OutboxStep(required, t, e))
  {
    var o := OutboxStep(required, t, e);
    assert o.copied == t.outbox.copied;
    assert EntriesFit(o);
    assert EntryCopiesFit(o);
  }

  lemma PaymentStepIsSound(required: bool, t: Tables, e: Event)
    requires SoundPayments(t.payments)
    ensures SoundPayments(PaymentStep(required, t, e))
  {
    match e
    case CopyPayments(txn, before) => PaymentsCopiedIsSound(t.payments, txn, before);
    case FinishPayments(txn, rollback) => PaymentsFinishedIsSound(t.payments, txn, rollback);
    case _ => OtherPaymentStepIsSound(required, t, e);
  }

  lemma OutboxStepIsSound(required: bool, t: Tables, e: Event)
    requires SoundOutbox(t.outbox)
    ensures SoundOutbox(OutboxStep(required, t, e))
  {
    match e
    case CopyOutbox(txn, before) => OutboxCopiedIsSound(t.outbox, txn, before);
    case FinishOutbox(txn, rollback) => OutboxFinishedIsSound(t.outbox, txn, rollback);
    case _ => OtherOutboxStepIsSound(required, t, e);
  }

  lemma StepSound(required: bool, t: Tables, e: Event)
    requires Sound(t)
    ensures Sound(Step(required, t, e))
  {
    PaymentStepIsSound(required, t, e);
    OutboxStepIsSound(required, t, e);
  }

  lemma {:induction false} RunSound(required: bool, t: Tables, es: seq<Event>)
    requires Sound(t)
    ensures Sound(Run(required, t, es))
    decreases |es|
  {
    if es != [] {
      StepSound(required, t, es[0]);
      RunSound(required, Step(required, t, es[0]), es[1..]);
    }
  }

  /** Backups are only ever added. */
  lemma BackupsGrow(backups: seq<Backup>, b: Backup, id: Id, columns: string)
    ensures InBackup(backups, id) || id in b.payments ==> InBackup(backups + [b], id)
    ensures BackupHas(backups, id, columns) || (id in b.payments && b.payments[id].columns == columns) ==>
              BackupHas(backups + [b], id, columns)
    ensures EntryBackupHas(backups, id, columns) || (id in b.outbox && b.outbox[id].columns == columns) ==>
              EntryBackupHas(backups + [b], id, columns)
  {
    var more := backups + [b];
    assert more[|backups|] == b;
    assert forall k | 0 <= k < |backups| :: more[k] == backups[k];
  }

  lemma WritingConserves(t: Tables, job: nat, ok: bool)
    requires Conserved(t)
    ensures Conserved(Step(true, t, WriteBackup(job, ok)))
  {
    if ok && job in t.jobs.open {
      var j := t.jobs.open[job];
      var b := Backup(j.payments, j.outbox);
      forall id, columns { BackupsGrow(t.jobs.backups, b, id, columns); }
      forall id | InBackup(t.jobs.backups, id) ensures InBackup(t.jobs.backups + [b], id) {
        BackupsGrow(t.jobs.backups, b, id, "");
      }
    }
  }

  lemma DeletingConserves(t: Tables, job: nat, rollback: bool)
    requires Conserved(t)
    ensures Conserved(Step(true, t, Delete(job, rollback)))
  {
    if MayDelete(true, t, job) {
      var j := t.jobs.open[job];
      assert JobBackedUp(j, t.jobs.backups);
      assert forall id | id in j.outbox :: id in t.outbox.known && j.outbox[id].columns == t.outbox.known[id];
      assert OutboxConserved(OutboxStep(true, t, Delete(job, rollback)), t.jobs.backups);
    }
  }

  lemma MovingConserves(t: Tables, e: Event)
    requires Conserved(t) && !e.WriteBackup? && !e.Delete?
    ensures PaymentsConserved(PaymentStep(true, t, e), t.jobs.backups)
    ensures OutboxConserved(OutboxStep(true, t, e), t.jobs.backups)
  {
  }

  lemma SelectingConserves(t: Tables, e: Event)
    requires SoundOutbox(t.outbox) && JobsBackedUp(t.jobs) && JobsKnow(t.jobs, t.outbox.known)
    requires !e.WriteBackup? && !e.Delete?
    ensures JobStep(true, t, e).backups == t.jobs.backups
    ensures JobsBackedUp(JobStep(true, t, e)) && JobsKnow(JobStep(true, t, e), OutboxStep(true, t, e).known)
  {
  }

  lemma StepConserved(t: Tables, e: Event)
    requires Sound(t) && Conserved(t)
    ensures Conserved(Step(true, t, e))
  {
    match e
    case WriteBackup(job, ok) => WritingConserves(t, job, ok);
    case Delete(job, rollback) => DeletingConserves(t, job, rollback);
    case _ =>
      MovingConserves(t, e);
      SelectingConserves(t, e);
  }

  /** Over any run with backups required, nothing that was ever live is lost: it is live, archived
      or in a written backup, never live and archived at once. */
  lemma {:induction false} NothingIsLost(t: Tables, es: seq<Event>)
    requires Sound(t) && Conserved(t)
    ensures Sound(Run(true, t, es)) && Conserved(Run(true, t, es))
    decreases |es|
  {
    if es != [] {
      StepSound(true, t, es[0]);
      StepConserved(t, es[0]);
      NothingIsLost(Step(true, t, es[0]), es[1..]);
    }
  }

  // ----- small runs -------------------------------------------------------------------------------

  lemma RunOne(required: bool, t: Tables, e: Event, es: seq<Event>)
    ensures Run(required, t, [e] + es) == Run(required, Step(required, t, e), es)
  {
    assert ([e] + es)[1..] == es;
  }

  lemma RunTwo(required: bool, t: Tables, e: Event, f: Event)
    ensures Run(required, t, [e, f]) == Step(required, Step(required, t, e), f)
  {
    RunOne(required, t, e, [f]);
    RunOne(required, Step(required, t, e), f, []);
    assert [e] + [f] == [e, f] && [f] + [] == [f];
  }

  /** A number that no transaction has. */
  lemma {:induction false} Unused(used: set<nat>) returns (k: nat)
    ensures forall j | j in used :: j < k
  {
    k := 0;
    if used != {} {
      var j :| j in used;
      var rest := Unused(used - {j});
      k := if j < rest then rest else j + 1;
      assert forall i | i in used :: i == j || i in used - {j};
    }
  }

  /** Something keeps the payment out of the archive, whatever its age. */
  predicate Shielded(p: Payments, id: Id)
    requires id in p.live
  {
    p.live[id].held || p.live[id].status !in TERMINAL_PAYMENT_STATUSES || id in p.openDisputes || id in p.mismatched
  }

  /** An archiving transaction that nothing interrupts. */
  function PaymentsArchived(p: Payments, txn: nat, before: int): Payments {
    PaymentsFinished(PaymentsCopied(p, txn, before), txn, false)
  }

  /** It moves a live payment exactly if it is old enough, in a final state, not held, disputed or
      mismatched, and no other transaction under way has copied it. The archive has its row, without a hold. */
  lemma ArchivesExactly(p: Payments, txn: nat, before: int, id: Id)
    requires SoundPayments(p) && id in p.live && txn !in p.copied
    ensures var p', row := PaymentsArchived(p, txn, before), p.live[id];
            && p'.copied == p.copied
            && if && row.createdAt < before && !row.held && id !in p.openDisputes && id !in p.mismatched
                  && (|| row.status == "SUCCEEDED" || row.status == "FAILED" || row.status == "CANCELLED"
                      || row.status == "REFUNDED" || row.status == "PARTIALLY_REFUNDED")
                  && !InCopies(p.copied, id)
               then && id !in p'.live && id in p'.archive
                    && p'.archive[id] == Payment(row.createdAt, row.status, false, row.columns, "")
               else id in p'.live && p'.live[id] == row && id !in p'.archive
  {
  }

  /** Likewise for an outbox entry: it must be old enough and published. */
  lemma ArchivesEntryExactly(o: Outbox, txn: nat, before: int, id: Id)
    requires SoundOutbox(o) && id in o.live && txn !in o.copied
    ensures var o', row := OutboxFinished(OutboxCopied(o, txn, before), txn, false), o.live[id];
            && o'.copied == o.copied
            && if row.createdAt < before && row.status == "PUBLISHED" && !InCopies(o.copied, id)
               then id !in o'.live && id in o'.archive && o'.archive[id] == row
               else id in o'.live && o'.live[id] == row && id !in o'.archive
  {
  }

  /** A payment is archived as it was last written: a new one, or a live one after an update, that no
      transaction has copied. */
  lemma ArchivedAsWritten(required: bool, t: Tables, e: Event, txn: nat, before: int)
    requires || (e.NewPayment? && e.id !in t.payments.known)
             || (e.UpdatePayment? && e.id in t.payments.live && !t.payments.live[e.id].held)
    requires SoundPayments(t.payments) && txn !in t.payments.copied && !InCopies(t.payments.copied, e.id)
    requires e.id !in t.payments.openDisputes && e.id !in t.payments.mismatched
    ensures var p, p' := t.payments, PaymentsArchived(PaymentStep(required, t, e), txn, before);
            var createdAt := if e.NewPayment? then e.createdAt else p.live[e.id].createdAt;
            if && createdAt < before
               && (|| e.status == "SUCCEEDED" || e.status == "FAILED" || e.status == "CANCELLED"
                   || e.status == "REFUNDED" || e.status == "PARTIALLY_REFUNDED")
            then && e.id !in p'.live && e.id in p'.archive
                 && p'.archive[e.id] == Payment(createdAt, e.status, false, e.columns, "")
            else && e.id !in p'.archive && e.id in p'.live
                 && p'.live[e.id] == Payment(createdAt, e.status, false, e.columns, e.extra)
  {
    OtherPaymentStepIsSound(required, t, e);
    ArchivesExactly(PaymentStep(required, t, e), txn, before, e.id);
  }

  /** A new entry is archived, as it was written, exactly if it is old enough and published. */
  lemma ArchivedAsEntered(required: bool, t: Tables, id: Id, entry: Entry, txn: nat, before: int)
    requires SoundOutbox(t.outbox) && id !in t.outbox.known && txn !in t.outbox.copied && !InCopies(t.outbox.copied, id)
    ensures var o := OutboxStep(required, t, NewEntry(id, entry));
            var o' := OutboxFinished(OutboxCopied(o, txn, before), txn, false);
            if entry.createdAt < before && entry.status == "PUBLISHED"
            then id !in o'.live && id in o'.archive && o'.archive[id] == entry
            else id in o'.live && o'.live[id] == entry && id !in o'.archive
  {
    OutboxStepIsSound(required, t, NewEntry(id, entry));
    ArchivesEntryExactly(OutboxStep(required, t, NewEntry(id, entry)), txn, before, id);
  }

  /** So an old entry that no transaction has copied is archived in just the state it is put into, exactly if
      that is the published one. */
  lemma ArchivedOncePublished(required: bool, t: Tables, id: Id, status: string, txn: nat, before: int)
    requires SoundOutbox(t.outbox) && id in t.outbox.live && txn !in t.outbox.copied
    requires t.outbox.live[id].createdAt < before && !InCopies(t.outbox.copied, id)
    ensures var row, o := t.outbox.live[id], OutboxStep(required, t, UpdateEntry(id, status));
            var o' := OutboxFinished(OutboxCopied(o, txn, before), txn, false);
            && (id in o'.archive <==> status == "PUBLISHED")
            && (id in o'.archive ==> o'.archive[id] == row.(status := "PUBLISHED"))
            && (id !in o'.archive ==> id in o'.live && o'.live[id] == row.(status := status))
  {
    OutboxStepIsSound(required, t, UpdateEntry(id, status));
    ArchivesEntryExactly(OutboxStep(required, t, UpdateEntry(id, status)), txn, before, id);
  }

  lemma EligibleEntriesAre(o: Outbox, before: int)
    ensures EligibleOutbox(o, before)
         == set id | id in o.live && o.live[id].createdAt < before && o.live[id].status == "PUBLISHED"
  {
  }

  /** Over any run, an entry that a transaction has copied was old enough and published when it did. */
  lemma {:induction false} OnlyPublishedIsCopied(required: bool, t: Tables, es: seq<Event>, id: Id) returns (k: nat)
    requires !InCopies(t.outbox.copied, id) && InCopies(Run(required, t, es).outbox.copied, id)
    ensures k < |es| && es[k].CopyOutbox?
    ensures var o := Run(required, t, es[..k]).outbox;
            id in o.live && o.live[id].status == "PUBLISHED" && o.live[id].createdAt < es[k].before
    decreases |es|
  {
    var t' := Step(required, t, es[0]);
    if InCopies(t'.outbox.copied, id) {
      k := 0;
      CopiedNowIsPublished(required, t, es[0], id);
      assert es[..0] == [];
    } else {
      k := OnlyPublishedIsCopied(required, t', es[1..], id);
      assert es[..k + 1][1..] == es[1..][..k];
      k := k + 1;
    }
  }

  lemma CopiedNowIsPublished(required: bool, t: Tables, e: Event, id: Id)
    requires !InCopies(t.outbox.copied, id) && InCopies(Step(required, t, e).outbox.copied, id)
    ensures e.CopyOutbox? && id in t.outbox.live
    ensures t.outbox.live[id].status == "PUBLISHED" && t.outbox.live[id].createdAt < e.before
  {
    var o, o' := t.outbox, OutboxStep(required, t, e);
    var k :| k in o'.copied && id in o'.copied[k];
    assert forall k | k in o.copied :: id !in o.copied[k];
    if e.CopyOutbox? && e.txn !in o.copied { assert id in InsertedOutbox(o, e.before); }
  }

  /** A deletion without a fault leaves in each archive what is not selected, as it was, changes no live table,
      and if backups are required the last one has every selected row. */
  lemma DeletesExactly(t: Tables, before: int, required: bool, id: Id)
    ensures var t' := AfterDeletion(t, before, required, false, false);
            var sp, so := SelectedPayments(t.payments, before), SelectedOutbox(t.outbox, before);
            && t'.payments == t.payments.(archive := t'.payments.archive)
            && t'.outbox == t.outbox.(archive := t'.outbox.archive) && t'.jobs.open == t.jobs.open
            && (id in t'.payments.archive <==> id in t.payments.archive && id !in sp)
            && (id in t'.payments.archive ==> t'.payments.archive[id] == t.payments.archive[id])
            && (id in t'.outbox.archive <==> id in t.outbox.archive && id !in so)
            && (id in t'.outbox.archive ==> t'.outbox.archive[id] == t.outbox.archive[id])
            && t'.jobs.backups == if required && (sp != map[] || so != map[])
                                  then t.jobs.backups + [Backup(sp, so)] else t.jobs.backups
  {
  }

  /** A deletion job selects an archived payment exactly if it is old enough, not held and not disputed, and an
      archived entry exactly if it is old enough, with their rows. */
  lemma SelectsExactly(p: Payments, o: Outbox, before: int, id: Id)
    ensures id in SelectedPayments(p, before)
       <==> id in p.archive && p.archive[id].createdAt < before && !p.archive[id].held && id !in p.openDisputes
    ensures id in SelectedPayments(p, before) ==> SelectedPayments(p, before)[id] == p.archive[id]
    ensures id in SelectedOutbox(o, before) <==> id in o.archive && o.archive[id].createdAt < before
    ensures id in SelectedOutbox(o, before) ==> SelectedOutbox(o, before)[id] == o.archive[id]
  {
  }

  lemma ArchivingRun(required: bool, t: Tables, txn: nat, before: int)
    ensures Run(required, t, [CopyPayments(txn, before), FinishPayments(txn, false)]).payments
         == PaymentsArchived(t.payments, txn, before)
  {
    RunTwo(required, t, CopyPayments(txn, before), FinishPayments(txn, false));
  }

  /** The INSERT copies it in just those cases. */
  lemma CopiesExactly(p: Payments, txn: nat, before: int, id: Id)
    requires id in p.live && id !in p.archive && txn !in p.copied && !InCopies(p.copied, id)
    ensures var p' := PaymentsCopied(p, txn, before);
            && txn in p'.copied && p' == p.(copied := p'.copied)
            && (id in p'.copied[txn] <==> InCopies(p'.copied, id))
            && (id in p'.copied[txn] <==> p.live[id].createdAt < before && !Shielded(p, id))
            && (id in p'.copied[txn] ==> p'.copied[txn][id] == Copied(p.live[id]))
  {
    var p' := PaymentsCopied(p, txn, before);
    assert id in EligiblePayments(p, before) <==> p.live[id].createdAt < before && !Shielded(p, id);
    assert id in InsertedPayments(p, before) <==> id in EligiblePayments(p, before);
    if InCopies(p'.copied, id) {
      var k :| k in p'.copied && id in p'.copied[k];
      assert k == txn;
    }
  }

  /** A live payment that no transaction has copied stays live in every step, with its date, and is copied
      only if it is old enough and nothing shields it. */
  lemma UncopiedStays(required: bool, t: Tables, e: Event, id: Id)
    requires Sound(t) && id in t.payments.live && !InCopies(t.payments.copied, id)
    ensures var p, p' := t.payments, PaymentStep(required, t, e);
            && id in p'.live && p'.live[id].createdAt == p.live[id].createdAt
            && (InCopies(p'.copied, id) ==>
                  e.CopyPayments? && p.live[id].createdAt < e.before && !Shielded(p, id))
  {
    var p := t.payments;
    match e
    case CopyPayments(txn, before) => if txn !in p.copied { CopiesExactly(p, txn, before, id); }
    case FinishPayments(txn, rollback) => UncopiedIsNotTaken(p, txn, rollback, id);
    case _ => OtherStepsKeep(required, t, e, id);
  }

  /** A live payment that is reported as mismatched before any transaction has copied it is never archived: it
      is live after every run. */
  lemma MismatchedStaysLive(required: bool, t: Tables, es: seq<Event>, id: Id)
    requires Sound(t) && id in t.payments.live && !InCopies(t.payments.copied, id)
    ensures id in Run(required, Step(required, t, Mismatch(id)), es).payments.live
  {
    StepSound(required, t, Mismatch(id));
    KnownMismatchStaysLive(required, Step(required, t, Mismatch(id)), es, id);
  }

  lemma {:induction false} KnownMismatchStaysLive(required: bool, t: Tables, es: seq<Event>, id: Id)
    requires Sound(t) && id in t.payments.live && !InCopies(t.payments.copied, id) && id in t.payments.mismatched
    ensures id in Run(required, t, es).payments.live
    decreases |es|
  {
    if es != [] {
      StepSound(required, t, es[0]);
      UncopiedStays(required, t, es[0], id);
      KnownMismatchStaysLive(required, Step(required, t, es[0]), es[1..], id);
    }
  }

  /** One that is disputed before any transaction has copied it is live as long as the dispute is not closed. */
  lemma DisputedStaysLive(required: bool, t: Tables, es: seq<Event>, id: Id)
    requires Sound(t) && id in t.payments.live && !InCopies(t.payments.copied, id)
    requires CloseDispute(id) !in es
    ensures id in Run(required, Step(required, t, OpenDispute(id)), es).payments.live
  {
    StepSound(required, t, OpenDispute(id));
    OpenDisputeStaysLive(required, Step(required, t, OpenDispute(id)), es, id);
  }

  lemma {:induction false} OpenDisputeStaysLive(required: bool, t: Tables, es: seq<Event>, id: Id)
    requires Sound(t) && id in t.payments.live && !InCopies(t.payments.copied, id) && id in t.payments.openDisputes
    requires CloseDispute(id) !in es
    ensures id in Run(required, t, es).payments.live
    decreases |es|
  {
    if es != [] {
      StepSound(required, t, es[0]);
      UncopiedStays(required, t, es[0], id);
      assert es[0] in es;
      OpenDisputeStaysLive(required, Step(required, t, es[0]), es[1..], id);
    }
  }

  lemma UncopiedIsNotTaken(p: Payments, txn: nat, rollback: bool, id: Id)
    requires id in p.live && !InCopies(p.copied, id)
    ensures var p' := PaymentsFinished(p, txn, rollback);
            id in p'.live && p'.live[id] == p.live[id] && !InCopies(p'.copied, id)
  {
  }

  /** Only a commit takes a payment out of the live table, and only archiving touches the copies. */
  lemma OtherStepsKeep(required: bool, t: Tables, e: Event, id: Id)
    requires id in t.payments.live && id in t.payments.known && !e.CopyPayments? && !e.FinishPayments?
    ensures var p, p' := t.payments, PaymentStep(required, t, e);
            p'.copied == p.copied && id in p'.live && p'.live[id].createdAt == p.live[id].createdAt
  {
  }

  /** One old live payment, and nothing else. */
  function OneOldPayment(id: Id, columns: string): Tables {
    Tables(Payments(map[id := OldPayment(columns)], map[], map[], map[id := columns], {}, {}),
           Outbox(map[], map[], map[], map[]), Jobs(map[], []))
  }

  function OldPayment(columns: string): Payment { Payment(0, "REFUNDED", false, columns, "") }

  lemma OneOldPaymentIsCopied(required: bool, id: Id, columns: string)
    ensures var t := OneOldPayment(id, columns);
            var t' := Step(required, t, CopyPayments(0, 1));
            && Sound(t) && Conserved(t) && Sound(t')
            && 0 in t'.payments.copied && id in t'.payments.copied[0]
            && t'.payments.copied[0][id] == OldPayment(columns) && InCopies(t'.payments.copied, id)
            && t' == t.(payments := t.payments.(copied := t'.payments.copied))
  {
    var t := OneOldPayment(id, columns);
    CopiesExactly(t.payments, 0, 1, id);
    StepSound(required, t, CopyPayments(0, 1));
  }

  /** The backup and the deletion of a job under way. It no longer looks at holds, disputes or rows. */
  lemma JobDeletes(required: bool, t: Tables, job: nat, id: Id)
    requires job in t.jobs.open && id in t.jobs.open[job].payments
    ensures var j := t.jobs.open[job];
            var end := Run(required, t, [WriteBackup(job, true), Delete(job, false)]);
            && id !in end.payments.archive && end.payments == t.payments.(archive := end.payments.archive)
            && end.jobs.backups == t.jobs.backups + (if j.written then [] else [Backup(j.payments, j.outbox)])
  {
    var es := [WriteBackup(job, true), Delete(job, false)];
    var t1 := Step(required, t, es[0]);
    var t2 := Step(required, t1, es[1]);
    assert es[1..][1..] == [] && es[1..][0] == es[1];
    assert Run(required, t, es) == Run(required, t1, es[1..]) == Run(required, t2, es[1..][1..]) == t2;
    assert t1.payments == t.payments;
    assert MayDelete(required, t1, job) && t1.jobs.open[job].payments == t.jobs.open[job].payments;
  }

  // ----- the jobs over the database ---------------------------------------------------------------

  lemma AddedCount<R>(rows: map<Id, R>, more: map<Id, R>)
    requires rows.Keys !! more.Keys
    ensures |rows + more| == |rows| + |more.Keys|
  {
    var all := rows + more;
    assert all.Keys == rows.Keys + more.Keys;
    assert |all.Keys| == |rows.Keys| + |more.Keys|;
  }

  lemma RemovedCount<R>(rows: map<Id, R>, ids: set<Id>)
    requires ids <= rows.Keys
    ensures |rows - ids| == |rows| - |ids|
  {
    var rest := rows - ids;
    assert rest.Keys == rows.Keys - ids;
    assert |rows.Keys - ids| == |rows.Keys| - |ids|;
  }

  /** How many rows a commit moves. */
  lemma MovedCount<R>(live: map<Id, R>, archive: map<Id, R>, copies: map<Id, R>)
    requires forall id | id in live :: id !in archive
    requires forall id | id in copies :: id in live
    ensures |archive + copies| == |archive| + |copies.Keys|
    ensures |live - copies.Keys| == |live| - |copies.Keys|
  {
    assert archive.Keys !! copies.Keys;
    AddedCount(archive, copies);
    assert copies.Keys <= live.Keys;
    RemovedCount(live, copies.Keys);
  }

  lemma PaymentsMoved(p: Payments, txn: nat)
    requires TablesFit(p) && CopiesFit(p) && txn in p.copied
    ensures |PaymentsFinished(p, txn, false).archive| == |p.archive| + |p.copied[txn].Keys|
    ensures |PaymentsFinished(p, txn, false).live| == |p.live| - |p.copied[txn].Keys|
  {
    MovedCount(p.live, p.archive, p.copied[txn]);
  }

  lemma OutboxMoved(o: Outbox, txn: nat)
    requires EntriesFit(o) && EntryCopiesFit(o) && txn in o.copied
    ensures |OutboxFinished(o, txn, false).archive| == |o.archive| + |o.copied[txn].Keys|
    ensures |OutboxFinished(o, txn, false).live| == |o.live| - |o.copied[txn].Keys|
  {
    MovedCount(o.live, o.archive, o.copied[txn]);
  }

  datatype ArchiveReport = ArchiveReport(eligible: nat, archived: nat)

  datatype DeletionReport = DeletionReport(paymentsEligible: nat, paymentsDeleted: nat,
                                           outboxEligible: nat, outboxDeleted: nat, backedUp: bool)

  /** What a deletion run that nothing interrupts leaves behind. */
  function AfterDeletion(t: Tables, before: int, required: bool, backupFails: bool, fault: bool): Tables {
    var sp, so := SelectedPayments(t.payments, before), SelectedOutbox(t.outbox, before);
    if (sp == map[] && so == map[]) || (required && backupFails) then t
    else
      var jobs := t.jobs.(backups := t.jobs.backups + if required then [Backup(sp, so)] else []);
      if fault then t.(jobs := jobs)
      else Tables(t.payments.(archive := t.payments.archive - sp.Keys),
                  t.outbox.(archive := t.outbox.archive - so.Keys), jobs)
  }

  /** Unless there is nothing to delete, such a run is the three steps of one job, in a row. */
  lemma DeletionIsThreeSteps(t: Tables, job: nat, before: int, required: bool, backupFails: bool, fault: bool)
    requires job !in t.jobs.open
    requires SelectedPayments(t.payments, before) != map[] || SelectedOutbox(t.outbox, before) != map[]
    ensures var s1 := Step(required, t, Select(job, before));
            var s2 := if required then Step(required, s1, WriteBackup(job, !backupFails)) else s1;
            Step(required, s2, Delete(job, fault)) == AfterDeletion(t, before, required, backupFails, fault)
  {
    var s1 := Step(required, t, Select(job, before));
    var s2 := if required then Step(required, s1, WriteBackup(job, !backupFails)) else s1;
    var end := Step(required, s2, Delete(job, fault));
    assert end.jobs.open == t.jobs.open;
  }

  /** What an insert takes of what a count of the same moment counts. */
  lemma PaymentsCounted(p: Payments, before: int)
    requires SoundPayments(p)
    ensures |InsertedPayments(p, before)| <= |EligiblePayments(p, before)|
    ensures |InsertedPayments(p, before)| == |EligiblePayments(p, before)|
       <==> forall id | id in EligiblePayments(p, before) :: !InCopies(p.copied, id)
  {
    SubsetSize(InsertedPayments(p, before), EligiblePayments(p, before));
    assert forall id | id in EligiblePayments(p, before) ::
             id in InsertedPayments(p, before) <==> !InCopies(p.copied, id);
    if id :| id in EligiblePayments(p, before) && InCopies(p.copied, id) {
      SubsetSize(InsertedPayments(p, before), EligiblePayments(p, before) - {id});
    } else {
      assert InsertedPayments(p, before) == EligiblePayments(p, before);
    }
  }

  lemma OutboxCounted(o: Outbox, before: int)
    requires SoundOutbox(o)
    ensures |InsertedOutbox(o, before)| <= |EligibleOutbox(o, before)|
    ensures |InsertedOutbox(o, before)| == |EligibleOutbox(o, before)|
       <==> forall id | id in EligibleOutbox(o, before) :: !InCopies(o.copied, id)
  {
    SubsetSize(InsertedOutbox(o, before), EligibleOutbox(o, before));
    assert forall id | id in EligibleOutbox(o, before) :: id in InsertedOutbox(o, before) <==> !InCopies(o.copied, id);
    if id :| id in EligibleOutbox(o, before) && InCopies(o.copied, id) {
      SubsetSize(InsertedOutbox(o, before), EligibleOutbox(o, before) - {id});
    } else {
      assert InsertedOutbox(o, before) == EligibleOutbox(o, before);
    }
  }

  /** A dispute that closes between the count and the insert makes a run archive more than it counted. */
  lemma ArchivedCanExceedEligible(required: bool) returns (t: Tables, between: seq<Event>)
    ensures Sound(t) && EligiblePayments(t.payments, 1) == {}
    ensures InsertedPayments(Run(required, t, between).payments, 1) == {"x"}
  {
    var row := Payment(0, "REFUNDED", false, "", "");
    t := Tables(Payments(map["x" := row], map[], map[], map["x" := ""], {"x"}, {}),
                Outbox(map[], map[], map[], map[]), Jobs(map[], []));
    between := [CloseDispute("x")];
    RunOne(required, t, between[0], []);
    assert [between[0]] + [] == between;
  }

  class Database {
    var payments: Payments
    var outbox: Outbox
    var jobs: Jobs

    function Contents(): Tables
      reads this
    {
      Tables(payments, outbox, jobs)
    }

    constructor (t: Tables)
      ensures Contents() == t
    {
      payments, outbox, jobs := t.payments, t.outbox, t.jobs;
    }

    /** The three statements of an archiving transaction. Other steps may come between them. */
    method CountPayments(before: int) returns (eligible: nat)
      ensures eligible == |EligiblePayments(payments, before)|
    {
      eligible := |EligiblePayments(payments, before)|;
    }

    method CopyPayments(txn: nat, before: int) returns (inserted: set<Id>)
      requires SoundPayments(payments) && txn !in payments.copied
      modifies this`payments
      ensures payments == PaymentsCopied(old(payments), txn, before) && SoundPayments(payments)
      ensures txn in payments.copied && inserted == payments.copied[txn].Keys
      ensures forall id :: id in inserted
                <==> && id in old(payments).live && Archivable(old(payments), id, before)
                     && !InCopies(old(payments).copied, id)
    {
      PaymentsCopiedIsSound(payments, txn, before);
      inserted := InsertedPayments(payments, before);
      payments := payments.(copied := payments.copied[txn := PaymentCopies(payments.live, inserted)]);
    }

    /** Rows move exactly if the transaction commits, and none is gained or lost. */
    method FinishPayments(txn: nat, inserted: set<Id>, fault: bool)
      requires SoundPayments(payments) && txn in payments.copied && inserted == payments.copied[txn].Keys
      modifies this`payments
      ensures payments == PaymentsFinished(old(payments), txn, fault) && SoundPayments(payments)
      ensures |payments.archive| == |old(payments).archive| + (if fault then 0 else |inserted|)
      ensures |payments.live| == |old(payments).live| - (if fault then 0 else |inserted|)
    {
      PaymentsFinishedIsSound(payments, txn, fault);
      PaymentsMoved(payments, txn);
      var copies := payments.copied[txn];
      payments := payments.(copied := payments.copied - {txn});
      if fault { return; }
      payments := payments.(archive := payments.archive + copies);
      if inserted != {} {
        payments := payments.(live := payments.live - inserted);
      }
      SameWithoutNothing(old(payments).live, inserted);
    }

    /** `archivePayments`, when nothing else runs meanwhile: it archives what it counted, unless another
        transaction under way has copied some of it. */
    method ArchivePayments(txn: nat, before: int, fault: bool) returns (r: Option<ArchiveReport>)
      requires SoundPayments(payments) && txn !in payments.copied
      modifies this`payments
      ensures SoundPayments(payments) && (r.None? <==> fault)
      ensures payments == if fault then PaymentsFinished(PaymentsCopied(old(payments), txn, before), txn, true)
                          else PaymentsArchived(old(payments), txn, before)
      ensures r.Some? ==>
                && r.value.eligible == |EligiblePayments(old(payments), before)|
                && r.value.archived == |payments.archive| - |old(payments).archive| <= r.value.eligible
                && (r.value.archived == r.value.eligible <==>
                      forall id | id in EligiblePayments(old(payments), before) :: !InCopies(old(payments).copied, id))
    {
      ghost var start := payments;
      var eligible := CountPayments(before);
      var inserted := CopyPayments(txn, before);
      FinishPayments(txn, inserted, fault);
      if fault { return None; }
      PaymentsCounted(start, before);
      return Some(ArchiveReport(eligible, |inserted|));
    }

    /** Likewise for `archiveLedgerOutbox`. */
    method CountOutbox(before: int) returns (eligible: nat)
      ensures eligible == |EligibleOutbox(outbox, before)|
    {
      eligible := |EligibleOutbox(outbox, before)|;
    }

    method CopyOutbox(txn: nat, before: int) returns (inserted: set<Id>)
      requires SoundOutbox(outbox) && txn !in outbox.copied
      modifies this`outbox
      ensures outbox == OutboxCopied(old(outbox), txn, before) && SoundOutbox(outbox)
      ensures txn in outbox.copied && inserted == outbox.copied[txn].Keys
      ensures forall id :: id in inserted
                <==> && id in old(outbox).live && old(outbox).live[id].status == "PUBLISHED"
                     && old(outbox).live[id].createdAt < before && !InCopies(old(outbox).copied, id)
      ensures forall id | id in inserted :: outbox.copied[txn][id] == old(outbox).live[id]
    {
      OutboxCopiedIsSound(outbox, txn, before);
      inserted := InsertedOutbox(outbox, before);
      outbox := outbox.(copied := outbox.copied[txn := EntryCopies(outbox.live, inserted)]);
    }

    method FinishOutbox(txn: nat, inserted: set<Id>, fault: bool)
      requires SoundOutbox(outbox) && txn in outbox.copied && inserted == outbox.copied[txn].Keys
      modifies this`outbox
      ensures outbox == OutboxFinished(old(outbox), txn, fault) && SoundOutbox(outbox)
      ensures |outbox.archive| == |old(outbox).archive| + (if fault then 0 else |inserted|)
      ensures |outbox.live| == |old(outbox).live| - (if fault then 0 else |inserted|)
    {
      OutboxFinishedIsSound(outbox, txn, fault);
      OutboxMoved(outbox, txn);
      var copies := outbox.copied[txn];
      outbox := outbox.(copied := outbox.copied - {txn});
      if fault { return; }
      outbox := outbox.(archive := outbox.archive + copies);
      if inserted != {} {
        outbox := outbox.(live := outbox.live - inserted);
      }
      SameWithoutNothing(old(outbox).live, inserted);
    }

    method ArchiveLedgerOutbox(txn: nat, before: int, fault: bool) returns (r: Option<ArchiveReport>)
      requires SoundOutbox(outbox) && txn !in outbox.copied
      modifies this`outbox
      ensures SoundOutbox(outbox) && (r.None? <==> fault)
      ensures outbox == OutboxFinished(OutboxCopied(old(outbox), txn, before), txn, fault)
      ensures r.Some? ==>
                && r.value.eligible == |set id | id in old(outbox).live && old(outbox).live[id].createdAt < before
                                              && old(outbox).live[id].status == "PUBLISHED"|
                && r.value.archived == |outbox.archive| - |old(outbox).archive| <= r.value.eligible
                && (r.value.archived == r.value.eligible <==>
                      forall id | id in EligibleOutbox(old(outbox), before) :: !InCopies(old(outbox).copied, id))
    {
      ghost var start := outbox;
      var eligible := CountOutbox(before);
      var inserted := CopyOutbox(txn, before);
      FinishOutbox(txn, inserted, fault);
      if fault { return None; }
      OutboxCounted(start, before);
      EligibleEntriesAre(start, before);
      return Some(ArchiveReport(eligible, |inserted|));
    }

    /** `runDeletion`, when nothing else runs meanwhile. A backup that cannot be written, or a
        transaction that fails, leaves both tables as they were. Otherwise every selected row, and
        no other, is gone, and if backups are required the last one holds exactly those rows. The
        reported counts of deleted rows are the eligible ones. */
    method RunDeletion(before: int, required: bool, backupFails: bool, fault: bool) returns (r: Option<DeletionReport>)
      modifies this
      ensures Contents() == AfterDeletion(old(Contents()), before, required, backupFails, fault)
      ensures var sp, so := SelectedPayments(old(payments), before), SelectedOutbox(old(outbox), before);
              var idle := sp == map[] && so == map[];
              && (r.None? <==> !idle && ((required && backupFails) || fault))
              && (r.None? ==> payments == old(payments) && outbox == old(outbox))
              && (r.Some? ==> r.value == DeletionReport(|sp|, |sp|, |so|, |so|, !idle && required))
    {
      var eligiblePayments := SelectedPayments(payments, before);
      var eligibleOutbox := SelectedOutbox(outbox, before);
      var backedUp, paymentsDeleted, outboxDeleted := false, 0, 0;
      if eligiblePayments != map[] || eligibleOutbox != map[] {
        if required {
          if backupFails { return None; }
          jobs := jobs.(backups := jobs.backups + [Backup(eligiblePayments, eligibleOutbox)]);
          backedUp := true;
        }
        var startPayments, startOutbox := payments, outbox;
        if eligiblePayments != map[] {
          payments := payments.(archive := payments.archive - eligiblePayments.Keys);
          paymentsDeleted := |eligiblePayments|;
        }
        if eligibleOutbox != map[] {
          outbox := outbox.(archive := outbox.archive - eligibleOutbox.Keys);
          outboxDeleted := |eligibleOutbox|;
        }
        if fault {
          payments, outbox := startPayments, startOutbox;
          return None;
        }
      }
      SameWithoutNothing(old(payments).archive, eligiblePayments.Keys);
      SameWithoutNothing(old(outbox).archive, eligibleOutbox.Keys);
      return Some(DeletionReport(|eligiblePayments|, paymentsDeleted, |eligibleOutbox|, outboxDeleted, backedUp));
    }
  }

  lemma SameWithoutNothing<R>(rows: map<Id, R>, ids: set<Id>)
    ensures ids == {} ==> rows - ids == rows
  {
  }
}
