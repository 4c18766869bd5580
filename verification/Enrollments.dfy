/**
 * Enrollment records and their audit logs, changed by creation, deactivation, reactivation,
 * deferral and retry against a remote (edX) that may fail at any call.
 */
module Enrollments {
  import opened Prelude
  import opened CourseCatalogue

  datatype ChangeStatus = Deferred | Transferred | Refunded

  /** An enrollment's own fields; `item` is a run or a program. */
  datatype Record = Record(
    user: nat,
    item: nat,
    order: Option<nat>,
    active: bool,
    changeStatus: Option<ChangeStatus>,
    edxEnrolled: bool)

  datatype Audit = Audit(before: Record, after: Record)

  /** A stored record with its audit rows, oldest first. */
  datatype Row = Row(record: Record, log: seq<Audit>)

  datatype Tables = Tables(runs: seq<Row>, programs: seq<Row>)

  // ----------------------------------------------------------------------------------------
  // Writing one record
  // ----------------------------------------------------------------------------------------

  function Logged(row: Row, record: Record): Row {
    Row(record, row.log + [Audit(row.record, record)])
  }

  /** save_and_log: store the record and append what was stored before and what is stored now. */
  function SaveAndLog(rows: seq<Row>, k: nat, record: Record): seq<Row>
    requires k < |rows|
  {
    rows[k := Logged(rows[k], record)]
  }

  function Deactivated(record: Record, status: ChangeStatus): Record {
    record.(active := false, changeStatus := Some(status))
  }

  function Reactivated(record: Record): Record {
    record.(active := true, changeStatus := None)
  }

  predicate HasKey(row: Row, user: nat, item: nat, order: Option<nat>) {
    row.record.user == user && row.record.item == item && row.record.order == order
  }

  function FindKey(rows: seq<Row>, user: nat, item: nat, order: Option<nat>): (k: Option<nat>)
    ensures k.Some? ==> k.value < |rows| && HasKey(rows[k.value], user, item, order)
    ensures k.None? ==> forall i :: 0 <= i < |rows| ==> !HasKey(rows[i], user, item, order)
  {
    if rows == [] then None
    else if HasKey(rows[|rows| - 1], user, item, order) then Some(|rows| - 1)
    else FindKey(rows[..|rows| - 1], user, item, order)
  }

  predicate IsFor(row: Row, user: nat, item: nat) {
    row.record.user == user && row.record.item == item
  }

  /** The latest record of the user for the item, on any order. */
  function LatestRow(rows: seq<Row>, user: nat, item: nat): (k: Option<nat>)
    ensures k.None? <==> forall i :: 0 <= i < |rows| ==> !IsFor(rows[i], user, item)
    ensures k.Some? ==>
              k.value < |rows| && IsFor(rows[k.value], user, item)
              && forall i :: k.value < i < |rows| ==> !IsFor(rows[i], user, item)
  {
    if rows == [] then None
    else if IsFor(rows[|rows| - 1], user, item) then Some(|rows| - 1)
    else LatestRow(rows[..|rows| - 1], user, item)
  }

  /** get_or_create, then reactivate an inactive record. */
  function EnrollOne(rows: seq<Row>, user: nat, item: nat, order: Option<nat>, edx: bool): (seq<Row>, nat) {
    match FindKey(rows, user, item, order)
    case None => (rows + [Row(Record(user, item, order, true, None, edx), [])], |rows|)
    case Some(k) =>
      if rows[k].record.active then (rows, k)
      else (SaveAndLog(rows, k, Reactivated(rows[k].record.(edxEnrolled := edx))), k)
  }

  // ----------------------------------------------------------------------------------------
  // Creating enrollments
  // ----------------------------------------------------------------------------------------

  /** The rows after the loop, the records created or updated, and whether the loop was cut short. */
  datatype Batch = Batch(rows: seq<Row>, ids: seq<nat>, crashed: bool)

  /**
   * The loop over items of create_run_enrollments and create_program_enrollments. The record of an
   * item in `lost` cannot be written: the failure is reported by mail and skipped, except that
   * without an order the report itself fails and ends the loop.
   */
  function EnrollAll(
      rows: seq<Row>, user: nat, items: seq<nat>, order: Option<nat>, edx: bool, lost: set<nat>): Batch
    decreases |items|
  {
    if items == [] then Batch(rows, [], false)
    else if items[0] in lost then
      if order.None? then Batch(rows, [], true) else EnrollAll(rows, user, items[1..], order, edx, lost)
    else
      var (next, k) := EnrollOne(rows, user, items[0], order, edx);
      var rest := EnrollAll(next, user, items[1..], order, edx, lost);
      rest.(ids := [k] + rest.ids)
  }

  /** What a batch gives after earlier items have given these ids. */
  function After(ids: seq<nat>, rest: Batch): Batch {
    rest.(ids := ids + rest.ids)
  }

  /** What is left to do before an item, in terms of what is left after it. */
  lemma EnrollAllStep(
      rows: seq<Row>, user: nat, items: seq<nat>, i: nat, ids: seq<nat>,
      order: Option<nat>, edx: bool, lost: set<nat>)
    requires i < |items|
    ensures var all := After(ids, EnrollAll(rows, user, items[i..], order, edx, lost));
            var (next, k) := EnrollOne(rows, user, items[i], order, edx);
            all == if items[i] !in lost then After(ids + [k], EnrollAll(next, user, items[i + 1..], order, edx, lost))
                   else if order.None? then Batch(rows, ids, true)
                   else After(ids, EnrollAll(rows, user, items[i + 1..], order, edx, lost))
  {
    assert items[i..][0] == items[i] && items[i..][1..] == items[i + 1..];
  }

  datatype Remote = Succeeds | FailsKnown | FailsUnexpectedly

  datatype EnrollError = EdxCreateError | Crashed | NotEnrolled | InactiveSource | UnknownRun | SameRun
    | OutsideEnrollment | DifferentCourse

  /** create_run_enrollments: tables after the call, and the enrollments or the exception. */
  function CreateRunEnrollments(
      t: Tables, user: nat, runs: seq<nat>, order: Option<nat>, keep: bool, remote: Remote, lost: set<nat>)
    : (Tables, Result<seq<nat>, EnrollError>)
  {
    if remote == FailsUnexpectedly then (t, Err(Crashed))
    else if remote == FailsKnown && !keep then (t, Err(EdxCreateError))
    else
      var batch := EnrollAll(t.runs, user, runs, order, remote == Succeeds, lost);
      (t.(runs := batch.rows), if batch.crashed then Err(Crashed) else Ok(batch.ids))
  }

  /** create_program_enrollments. */
  function CreateProgramEnrollments(
      t: Tables, user: nat, programs: seq<nat>, order: Option<nat>, lost: set<nat>)
    : (Tables, Result<seq<nat>, EnrollError>)
  {
    var batch := EnrollAll(t.programs, user, programs, order, false, lost);
    (t.(programs := batch.rows), if batch.crashed then Err(Crashed) else Ok(batch.ids))
  }

  // ----------------------------------------------------------------------------------------
  // Deactivating, deferring, retrying
  // ----------------------------------------------------------------------------------------

  /** The record deactivate_run_enrollment writes, or None if it leaves the enrollment alone. */
  function DeactivatedRun(record: Record, status: ChangeStatus, keep: bool, unenrolled: bool): Option<Record> {
    if !unenrolled && !keep then None
    else Some(Deactivated(if unenrolled then record.(edxEnrolled := false) else record, status))
  }

  function DeactivateRun(rows: seq<Row>, k: nat, status: ChangeStatus, keep: bool, unenrolled: bool): seq<Row>
    requires k < |rows|
  {
    match DeactivatedRun(rows[k].record, status, keep, unenrolled)
    case None => rows
    case Some(record) => SaveAndLog(rows, k, record)
  }

  /** What the remote and the database do during a deferral. */
  datatype DeferralLuck = DeferralLuck(enroll: Remote, lost: set<nat>, unenrolled: bool, saved: bool)

  datatype Deferral = Deferral(user: nat, from: nat, to: nat, keep: bool, force: bool, now: int, luck: DeferralLuck)

  /** The checks of defer_enrollment: the source enrollment, or the exception. */
  function CheckDeferral(cat: Catalogue, t: Tables, d: Deferral): Result<nat, EnrollError> {
    match LatestRow(t.runs, d.user, d.from)
    case None => Err(NotEnrolled)
    case Some(source) =>
      if !d.force && !t.runs[source].record.active then Err(InactiveSource)
      else if d.to >= |cat.runs| || d.from >= |cat.runs| then Err(UnknownRun)
      else if d.from == d.to then Err(SameRun)
      else if !d.force && !cat.runs[d.to].IsNotBeyondEnrollment(d.now) then Err(OutsideEnrollment)
      else if !d.force && cat.runs[d.from].course != cat.runs[d.to].course then Err(DifferentCourse)
      else Ok(source)
  }

  /** Enroll in the target on the source's order, then deactivate the source if that gave an enrollment. */
  function DeferFrom(t: Tables, source: nat, d: Deferral): (Tables, Result<(Option<nat>, Option<nat>), EnrollError>)
    requires source < |t.runs|
  {
    var (created, targets) := CreateRunEnrollments(
      t, d.user, [d.to], t.runs[source].record.order, d.keep, d.luck.enroll, d.luck.lost);
    if targets.Err? then (created, Err(targets.error))
    else if targets.value == [] || source >= |created.runs| then (created, Ok((Some(source), None)))
    else
      var target := Some(targets.value[0]);
      match DeactivatedRun(created.runs[source].record, Deferred, d.keep, d.luck.unenrolled)
      case None => (created, Ok((None, target)))
      case Some(record) =>
        if !d.luck.saved then (created, Err(Crashed))
        else (created.(runs := SaveAndLog(created.runs, source, record)), Ok((Some(source), target)))
  }

  /** defer_enrollment: tables after the call, and (source, target) or the exception. */
  function Defer(cat: Catalogue, t: Tables, d: Deferral): (Tables, Result<(Option<nat>, Option<nat>), EnrollError>) {
    match CheckDeferral(cat, t, d)
    case Err(e) => (t, Err(e))
    case Ok(source) => DeferFrom(t, source, d)
  }

  /** One retried enrollment: enrolled now, found enrolled already, failed again, or the lookup raised. */
  datatype Retry = NowEnrolled | AlreadyEnrolled | StillFailing | LookupRaises

  predicate IsRetriable(row: Row) {
    row.record.active && !row.record.edxEnrolled
  }

  /** retry_failed_edx_enrollments over the first n records; `due` are those old enough, live, with active users. */
  function RetryAll(rows: seq<Row>, n: nat, due: set<nat>, retry: nat -> Retry): Batch
    requires n <= |rows|
    ensures |RetryAll(rows, n, due, retry).rows| == |rows|
  {
    if n == 0 then Batch(rows, [], false)
    else
      var b := RetryAll(rows, n - 1, due, retry);
      var k := n - 1;
      if b.crashed || k !in due || !IsRetriable(rows[k]) || retry(k) == StillFailing then b
      else if retry(k) == LookupRaises then b.(crashed := true)
      else b.(rows := SaveAndLog(b.rows, k, b.rows[k].record.(edxEnrolled := true)), ids := b.ids + [k])
  }

  /** The active run enrollments of a program enrollment, limited to its order if it has one and is asked to. */
  predicate BelongsTo(cat: Catalogue, row: Row, program: Record, limit: bool) {
    && row.record.active
    && row.record.user == program.user
    && row.record.item < |cat.runs|
    && cat.runs[row.record.item].course < |cat.courses|
    && cat.courses[cat.runs[row.record.item].course].program == Some(program.item)
    && (limit && program.order.Some? ==> row.record.order == program.order)
  }

  /** The record that deactivate_program_enrollment writes over each run enrollment, if any. */
  function DropPlan(
      cat: Catalogue, rows: seq<Row>, program: Record, limit: bool,
      status: ChangeStatus, keep: bool, unenrolled: nat -> bool): nat -> Option<Record>
  {
    (k: nat) =>
      if k < |rows| && BelongsTo(cat, rows[k], program, limit)
      then DeactivatedRun(rows[k].record, status, keep, unenrolled(k)) else None
  }

  /** Write the planned records over the first n rows, in order. */
  function Rewrite(rows: seq<Row>, n: nat, plan: nat -> Option<Record>): (b: Batch)
    requires n <= |rows|
    ensures |b.rows| == |rows|
  {
    if n == 0 then Batch(rows, [], false)
    else
      var b := Rewrite(rows, n - 1, plan);
      match plan(n - 1)
      case None => b
      case Some(record) => b.(rows := SaveAndLog(b.rows, n - 1, record), ids := b.ids + [n - 1])
  }

  /** deactivate_program_enrollment: the program goes inactive only with at least one of its runs. */
  function DeactivateProgram(
      cat: Catalogue, t: Tables, k: nat, limit: bool, status: ChangeStatus, keep: bool, unenrolled: nat -> bool): Tables
    requires k < |t.programs|
  {
    var b := Rewrite(t.runs, |t.runs|, DropPlan(cat, t.runs, t.programs[k].record, limit, status, keep, unenrolled));
    if b.ids == [] then t.(runs := b.rows)
    else Tables(b.rows, SaveAndLog(t.programs, k, Deactivated(t.programs[k].record, status)))
  }

  // ----------------------------------------------------------------------------------------
  // The invariant
  // ----------------------------------------------------------------------------------------

  /** Each audit row starts where the previous one ended, and the last one ends at the stored record. */
  predicate IsUnbroken(row: Row) {
    && (forall i :: 0 < i < |row.log| ==> row.log[i].before == row.log[i - 1].after)
    && (row.log != [] ==> row.log[|row.log| - 1].after == row.record)
  }

  predicate RowFits(row: Row) {
    IsUnbroken(row) && (row.record.active <==> row.record.changeStatus.None?)
  }

  predicate KeysDistinct(rows: seq<Row>) {
    forall i, j :: 0 <= i < j < |rows| ==>
      !HasKey(rows[j], rows[i].record.user, rows[i].record.item, rows[i].record.order)
  }

  predicate RowsFit(rows: seq<Row>) {
    (forall k :: 0 <= k < |rows| ==> RowFits(rows[k])) && KeysDistinct(rows)
  }

  predicate TablesFit(t: Tables) {
    RowsFit(t.runs) && RowsFit(t.programs)
  }

  /**
   * A row's log only grows. What was added starts from the record as it was, and if nothing was added
   * the record is as it was: no change of the record goes unlogged.
   */
  predicate Continues(row: Row, next: Row) {
    && row.log <= next.log
    && if |next.log| == |row.log| then next.record == row.record else next.log[|row.log|].before == row.record
  }

  /** Rows are only appended, keep their keys, and every change to them is logged. */
  predicate Extends(rows: seq<Row>, next: seq<Row>) {
    && |rows| <= |next|
    && forall k :: 0 <= k < |rows| ==>
         && HasKey(next[k], rows[k].record.user, rows[k].record.item, rows[k].record.order)
         && Continues(rows[k], next[k])
  }

  lemma SaveAndLogFits(rows: seq<Row>, k: nat, record: Record)
    requires RowsFit(rows) && k < |rows|
    requires HasKey(Row(record, []), rows[k].record.user, rows[k].record.item, rows[k].record.order)
    requires record.active <==> record.changeStatus.None?
    ensures RowsFit(SaveAndLog(rows, k, record)) && Extends(rows, SaveAndLog(rows, k, record))
  {
    var next := SaveAndLog(rows, k, record);
    assert RowFits(rows[k]);
    forall j | 0 <= j < |next| ensures RowFits(next[j]) {
      if j != k {
        assert RowFits(rows[j]);
      }
    }
  }

  lemma EnrollOneFits(rows: seq<Row>, user: nat, item: nat, order: Option<nat>, edx: bool)
    requires RowsFit(rows)
    ensures var (next, k) := EnrollOne(rows, user, item, order, edx);
            && RowsFit(next) && Extends(rows, next)
            && k < |next| && HasKey(next[k], user, item, order) && next[k].record.active
            && (forall j :: 0 <= j < |rows| && j != k ==> next[j] == rows[j])
            && |next| <= |rows| + 1 && k <= |rows|
  {
    var found := FindKey(rows, user, item, order);
    if found.Some? && !rows[found.value].record.active {
      SaveAndLogFits(rows, found.value, Reactivated(rows[found.value].record.(edxEnrolled := edx)));
    } else if found.None? {
      var next := EnrollOne(rows, user, item, order, edx).0;
      forall j | 0 <= j < |next| ensures RowFits(next[j]) {
        if j < |rows| {
          assert RowFits(rows[j]);
        }
      }
    }
  }

  lemma ExtendsTransitive(a: seq<Row>, b: seq<Row>, c: seq<Row>)
    requires Extends(a, b) && Extends(b, c)
    ensures Extends(a, c)
  {
    forall k | 0 <= k < |a|
      ensures HasKey(c[k], a[k].record.user, a[k].record.item, a[k].record.order) && Continues(a[k], c[k])
    {
      assert HasKey(b[k], a[k].record.user, a[k].record.item, a[k].record.order) && Continues(a[k], b[k]);
      assert Continues(b[k], c[k]);
      assert HasKey(c[k], b[k].record.user, b[k].record.item, b[k].record.order);
    }
  }

  lemma {:induction false} EnrollAllFits(
      rows: seq<Row>, user: nat, items: seq<nat>, order: Option<nat>, edx: bool, lost: set<nat>)
    requires RowsFit(rows)
    ensures var b := EnrollAll(rows, user, items, order, edx, lost);
            && RowsFit(b.rows) && Extends(rows, b.rows)
            && (forall k :: k in b.ids ==> k < |b.rows|)
    decreases |items|
  {
    if items != [] {
      if items[0] in lost {
        if order.Some? {
          EnrollAllFits(rows, user, items[1..], order, edx, lost);
        }
      } else {
        EnrollOneFits(rows, user, items[0], order, edx);
        var (next, k) := EnrollOne(rows, user, items[0], order, edx);
        EnrollAllFits(next, user, items[1..], order, edx, lost);
        ExtendsTransitive(rows, next, EnrollAll(next, user, items[1..], order, edx, lost).rows);
      }
    }
  }

  lemma {:induction false} RetryAllRows(rows: seq<Row>, n: nat, due: set<nat>, retry: nat -> Retry)
    requires n <= |rows|
    ensures var b := RetryAll(rows, n, due, retry);
            && (forall k :: k in b.ids ==> k < n && IsRetriable(rows[k]))
            && (forall k :: 0 <= k < |rows| ==>
                  b.rows[k] == if k in b.ids then Logged(rows[k], rows[k].record.(edxEnrolled := true)) else rows[k])
  {
    if n > 0 {
      RetryAllRows(rows, n - 1, due, retry);
    }
  }

  lemma RetryAllFits(rows: seq<Row>, n: nat, due: set<nat>, retry: nat -> Retry)
    requires RowsFit(rows) && n <= |rows|
    ensures var b := RetryAll(rows, n, due, retry);
            && RowsFit(b.rows) && Extends(rows, b.rows)
            && (forall k :: k in b.ids ==> k < n)
            && (forall k :: 0 <= k < |rows| ==>
                  if k in b.ids
                  then b.rows[k].record == rows[k].record.(edxEnrolled := true) && IsRetriable(rows[k])
                  else b.rows[k] == rows[k])
  {
    RetryAllRows(rows, n, due, retry);
    var b := RetryAll(rows, n, due, retry);
    forall k | 0 <= k < |rows|
      ensures RowFits(b.rows[k]) && Continues(rows[k], b.rows[k])
      ensures HasKey(b.rows[k], rows[k].record.user, rows[k].record.item, rows[k].record.order)
    {
      assert RowFits(rows[k]);
      LoggedFits(rows[k], rows[k].record.(edxEnrolled := true));
    }
    SameKeysDistinct(rows, b.rows);
  }

  /** The planned record keeps the row's key and is active exactly without a change status. */
  predicate IsPlanSound(rows: seq<Row>, plan: nat -> Option<Record>) {
    forall k :: 0 <= k < |rows| && plan(k).Some? ==>
      && HasKey(Row(plan(k).value, []), rows[k].record.user, rows[k].record.item, rows[k].record.order)
      && (plan(k).value.active <==> plan(k).value.changeStatus.None?)
  }

  lemma {:induction false} RewriteRows(rows: seq<Row>, n: nat, plan: nat -> Option<Record>)
    requires n <= |rows|
    ensures var b := Rewrite(rows, n, plan);
            && (forall k: nat :: k in b.ids <==> k < n && plan(k).Some?)
            && (forall k :: 0 <= k < |rows| ==>
                  b.rows[k] == if k < n && plan(k).Some? then Logged(rows[k], plan(k).value) else rows[k])
  {
    if n > 0 {
      RewriteRows(rows, n - 1, plan);
    }
  }

  lemma SameKeysDistinct(rows: seq<Row>, next: seq<Row>)
    requires KeysDistinct(rows) && |next| == |rows| && Extends(rows, next)
    ensures KeysDistinct(next)
  {
    forall i, j | 0 <= i < j < |next|
      ensures !HasKey(next[j], next[i].record.user, next[i].record.item, next[i].record.order)
    {
      assert !HasKey(rows[j], rows[i].record.user, rows[i].record.item, rows[i].record.order);
      assert HasKey(next[j], rows[j].record.user, rows[j].record.item, rows[j].record.order);
    }
  }

  lemma LoggedFits(row: Row, record: Record)
    requires RowFits(row) && HasKey(Row(record, []), row.record.user, row.record.item, row.record.order)
    requires record.active <==> record.changeStatus.None?
    ensures RowFits(Logged(row, record)) && Continues(row, Logged(row, record))
    ensures HasKey(Logged(row, record), row.record.user, row.record.item, row.record.order)
  {
  }

  lemma RewriteFits(rows: seq<Row>, plan: nat -> Option<Record>)
    requires RowsFit(rows) && IsPlanSound(rows, plan)
    ensures RowsFit(Rewrite(rows, |rows|, plan).rows) && Extends(rows, Rewrite(rows, |rows|, plan).rows)
  {
    RewriteRows(rows, |rows|, plan);
    var next := Rewrite(rows, |rows|, plan).rows;
    forall k | 0 <= k < |rows|
      ensures RowFits(next[k])
      ensures HasKey(next[k], rows[k].record.user, rows[k].record.item, rows[k].record.order)
      ensures Continues(rows[k], next[k])
    {
      assert RowFits(rows[k]);
      if plan(k).Some? {
        LoggedFits(rows[k], plan(k).value);
      }
    }
    SameKeysDistinct(rows, next);
  }

  /** A run enrollment of the program that the loop can deactivate. */
  predicate IsDropped(cat: Catalogue, rows: seq<Row>, k: nat, program: Record, limit: bool, droppable: bool) {
    k < |rows| && droppable && BelongsTo(cat, rows[k], program, limit)
  }

  lemma DropPlanSpec(
      cat: Catalogue, rows: seq<Row>, program: Record, limit: bool,
      status: ChangeStatus, keep: bool, unenrolled: nat -> bool)
    ensures var plan := DropPlan(cat, rows, program, limit, status, keep, unenrolled);
            && IsPlanSound(rows, plan)
            && (forall j: nat :: plan(j).Some? <==> IsDropped(cat, rows, j, program, limit, keep || unenrolled(j)))
            && (forall j: nat :: plan(j).Some? ==> !plan(j).value.active)
  {
    var plan := DropPlan(cat, rows, program, limit, status, keep, unenrolled);
    forall j: nat
      ensures plan(j).Some? <==> IsDropped(cat, rows, j, program, limit, keep || unenrolled(j))
      ensures plan(j).Some? ==>
                plan(j) == DeactivatedRun(rows[j].record, status, keep, unenrolled(j))
                && !plan(j).value.active && plan(j).value.changeStatus.Some?
                && HasKey(Row(plan(j).value, []), rows[j].record.user, rows[j].record.item, rows[j].record.order)
    {
      assert plan(j) == if j < |rows| && BelongsTo(cat, rows[j], program, limit)
                        then DeactivatedRun(rows[j].record, status, keep, unenrolled(j)) else None;
    }
  }

  lemma DropPlanIds(
      cat: Catalogue, rows: seq<Row>, program: Record, limit: bool,
      status: ChangeStatus, keep: bool, unenrolled: nat -> bool)
    ensures Rewrite(rows, |rows|, DropPlan(cat, rows, program, limit, status, keep, unenrolled)).ids != [] <==>
              exists j :: 0 <= j < |rows| && IsDropped(cat, rows, j, program, limit, keep || unenrolled(j))
  {
    var plan := DropPlan(cat, rows, program, limit, status, keep, unenrolled);
    DropPlanSpec(cat, rows, program, limit, status, keep, unenrolled);
    RewriteRows(rows, |rows|, plan);
    var ids := Rewrite(rows, |rows|, plan).ids;
    if ids != [] {
      assert ids[0] in ids;
      assert IsDropped(cat, rows, ids[0], program, limit, keep || unenrolled(ids[0]));
    }
  }

  /** Exactly the run enrollments of the program that can be dropped go inactive. */
  lemma DropPlanRewrites(
      cat: Catalogue, rows: seq<Row>, program: Record, limit: bool,
      status: ChangeStatus, keep: bool, unenrolled: nat -> bool)
    requires RowsFit(rows)
    ensures var b := Rewrite(rows, |rows|, DropPlan(cat, rows, program, limit, status, keep, unenrolled));
            && RowsFit(b.rows) && Extends(rows, b.rows)
            && forall j :: 0 <= j < |rows| ==>
                 if IsDropped(cat, rows, j, program, limit, keep || unenrolled(j))
                 then !b.rows[j].record.active else b.rows[j] == rows[j]
  {
    var plan := DropPlan(cat, rows, program, limit, status, keep, unenrolled);
    DropPlanSpec(cat, rows, program, limit, status, keep, unenrolled);
    RewriteRows(rows, |rows|, plan);
    RewriteFits(rows, plan);
  }

  /** A program goes inactive exactly when some active run of it could be deactivated. */
  lemma DeactivateProgramExactly(
      cat: Catalogue, t: Tables, k: nat, limit: bool, status: ChangeStatus, keep: bool, unenrolled: nat -> bool)
    requires TablesFit(t) && k < |t.programs|
    ensures var u := DeactivateProgram(cat, t, k, limit, status, keep, unenrolled);
            var program := t.programs[k].record;
            && TablesFit(u) && Extends(t.runs, u.runs) && Extends(t.programs, u.programs)
            && (forall j :: 0 <= j < |t.runs| ==>
                  if IsDropped(cat, t.runs, j, program, limit, keep || unenrolled(j))
                  then !u.runs[j].record.active else u.runs[j] == t.runs[j])
            && if exists j :: 0 <= j < |t.runs| && IsDropped(cat, t.runs, j, program, limit, keep || unenrolled(j))
               then u.programs == SaveAndLog(t.programs, k, Deactivated(program, status))
               else u.programs == t.programs
  {
    var program := t.programs[k].record;
    DropPlanRewrites(cat, t.runs, program, limit, status, keep, unenrolled);
    DropPlanIds(cat, t.runs, program, limit, status, keep, unenrolled);
    SaveAndLogFits(t.programs, k, Deactivated(program, status));
    ExtendsReflexive(t.programs);
  }

  // ----------------------------------------------------------------------------------------
  // Deferral
  // ----------------------------------------------------------------------------------------

  /** An active enrollment of the user in the run, on the order. */
  predicate HoldsSeat(rows: seq<Row>, user: nat, run: nat, order: Option<nat>) {
    exists k :: 0 <= k < |rows| && HasKey(rows[k], user, run, order) && rows[k].record.active
  }

  /**
   * From one table to the next, the source leaves an active source or target on its order, changes
   * only once such a target exists, and no third record changes.
   */
  ghost predicate KeepsSeat(rows: seq<Row>, next: seq<Row>, source: nat, to: nat)
    requires source < |rows| <= |next|
  {
    var user, order := rows[source].record.user, rows[source].record.order;
    && (rows[source].record.active ==> next[source].record.active || HoldsSeat(next, user, to, order))
    && (next[source] != rows[source] ==>
          HoldsSeat(next, user, to, order) && next[source].record.changeStatus == Some(Deferred))
    && (forall k :: 0 <= k < |rows| && k != source && !HasKey(rows[k], user, to, order) ==> next[k] == rows[k])
  }

  lemma LeaveSource(rows: seq<Row>, source: nat, to: nat, edx: bool, record: Record)
    requires RowsFit(rows) && source < |rows| && rows[source].record.item != to
    requires record.user == rows[source].record.user && record.item == rows[source].record.item
    requires record.order == rows[source].record.order
    requires !record.active && record.changeStatus == Some(Deferred)
    ensures var (next, target) := EnrollOne(rows, record.user, to, record.order, edx);
            && source < |rows| <= |next| && next[source] == rows[source]
            && RowsFit(next) && Extends(rows, next) && KeepsSeat(rows, next, source, to)
            && var final := SaveAndLog(next, source, record);
            && RowsFit(final) && Extends(rows, final) && KeepsSeat(rows, final, source, to)
  {
    EnrollOneFits(rows, record.user, to, record.order, edx);
    var (next, target) := EnrollOne(rows, record.user, to, record.order, edx);
    assert target != source;
    SaveAndLogFits(next, source, record);
    var final := SaveAndLog(next, source, record);
    ExtendsTransitive(rows, next, final);
    assert final[target] == next[target];
    assert HoldsSeat(final, record.user, to, record.order);
  }

  lemma ExtendsReflexive(rows: seq<Row>)
    ensures Extends(rows, rows)
  {
  }

  lemma KeepsSeatReflexive(rows: seq<Row>, source: nat, to: nat)
    requires source < |rows|
    ensures Extends(rows, rows) && KeepsSeat(rows, rows, source, to)
  {
  }

  /** Enrolling in one run either changes nothing and gives no enrollment, or is EnrollOne. */
  lemma CreateSingle(t: Tables, user: nat, run: nat, order: Option<nat>, keep: bool, remote: Remote, lost: set<nat>)
    ensures var (created, targets) := CreateRunEnrollments(t, user, [run], order, keep, remote, lost);
            var (next, k) := EnrollOne(t.runs, user, run, order, remote == Succeeds);
            || (created == t && (targets.Err? || targets.value == []))
            || (created == t.(runs := next) && targets == Ok([k]))
  {
    EnrollSingle(t.runs, user, run, order, remote == Succeeds, lost);
  }

  lemma DeferFromKeepsSeat(t: Tables, source: nat, d: Deferral)
    requires TablesFit(t) && source < |t.runs|
    requires t.runs[source].record.user == d.user && t.runs[source].record.item != d.to
    ensures var u := DeferFrom(t, source, d).0;
            && u.programs == t.programs
            && RowsFit(u.runs) && Extends(t.runs, u.runs) && KeepsSeat(t.runs, u.runs, source, d.to)
  {
    var before := t.runs[source].record;
    KeepsSeatReflexive(t.runs, source, d.to);
    CreateSingle(t, d.user, d.to, before.order, d.keep, d.luck.enroll, d.luck.lost);
    LeaveSource(t.runs, source, d.to, d.luck.enroll == Succeeds,
                Deactivated(if d.luck.unenrolled then before.(edxEnrolled := false) else before, Deferred));
  }

  /**
   * However edX, the local writes and the final save turn out, exceptions included, a deferral keeps
   * the tables fit and never loses the learner's seat.
   */
  lemma DeferralKeepsSeat(cat: Catalogue, t: Tables, d: Deferral)
    requires TablesFit(t)
    ensures var u := Defer(cat, t, d).0;
            && TablesFit(u) && Extends(t.runs, u.runs) && u.programs == t.programs
            && match LatestRow(t.runs, d.user, d.from)
               case None => u == t
               case Some(source) => KeepsSeat(t.runs, u.runs, source, d.to)
  {
    ExtendsReflexive(t.runs);
    var checked := CheckDeferral(cat, t, d);
    if checked.Ok? {
      DeferFromKeepsSeat(t, checked.value, d);
    }
  }

  lemma EnrollSingle(rows: seq<Row>, user: nat, item: nat, order: Option<nat>, edx: bool, lost: set<nat>)
    ensures var (next, k) := EnrollOne(rows, user, item, order, edx);
            EnrollAll(rows, user, [item], order, edx, lost) ==
            (if item in lost then Batch(rows, [], order.None?) else Batch(next, [k], false))
  {
    assert [item][1..] == [];
  }

  // ----------------------------------------------------------------------------------------
  // Every run of enrollment changes
  // ----------------------------------------------------------------------------------------

  datatype Change =
    | CreateRuns(user: nat, runs: seq<nat>, order: Option<nat>, keep: bool, remote: Remote, lost: set<nat>)
    | CreatePrograms(user: nat, programs: seq<nat>, order: Option<nat>, lost: set<nat>)
    | DropRun(k: nat, status: ChangeStatus, keep: bool, unenrolled: bool)
    | DropProgram(k: nat, limit: bool, status: ChangeStatus, keep: bool, runsUnenrolled: nat -> bool)
    | DeferRun(deferral: Deferral)
    | RetryFailed(due: set<nat>, retry: nat -> Retry)

  function Apply(cat: Catalogue, t: Tables, c: Change): Tables {
    match c
    case CreateRuns(user, runs, order, keep, remote, lost) =>
      CreateRunEnrollments(t, user, runs, order, keep, remote, lost).0
    case CreatePrograms(user, programs, order, lost) => CreateProgramEnrollments(t, user, programs, order, lost).0
    case DropRun(k, status, keep, unenrolled) =>
      if k < |t.runs| then t.(runs := DeactivateRun(t.runs, k, status, keep, unenrolled)) else t
    case DropProgram(k, limit, status, keep, unenrolled) =>
      if k < |t.programs| then DeactivateProgram(cat, t, k, limit, status, keep, unenrolled) else t
    case DeferRun(deferral) => Defer(cat, t, deferral).0
    case RetryFailed(due, retry) => t.(runs := RetryAll(t.runs, |t.runs|, due, retry).rows)
  }

  function ApplyAll(cat: Catalogue, t: Tables, changes: seq<Change>): Tables
    decreases |changes|
  {
    if changes == [] then t else ApplyAll(cat, Apply(cat, t, changes[0]), changes[1..])
  }

  /** The tables fit still, and have only grown. */
  ghost predicate Grows(t: Tables, u: Tables) {
    TablesFit(u) && Extends(t.runs, u.runs) && Extends(t.programs, u.programs)
  }

  lemma DropRunFits(t: Tables, k: nat, status: ChangeStatus, keep: bool, unenrolled: bool)
    requires TablesFit(t) && k < |t.runs|
    ensures Grows(t, t.(runs := DeactivateRun(t.runs, k, status, keep, unenrolled)))
  {
    ExtendsReflexive(t.runs);
    ExtendsReflexive(t.programs);
    if keep || unenrolled {
      SaveAndLogFits(t.runs, k, DeactivatedRun(t.runs[k].record, status, keep, unenrolled).value);
    }
  }

  lemma CreateFits(t: Tables, c: Change)
    requires TablesFit(t)
    ensures c.CreateRuns? ==>
              Grows(t, CreateRunEnrollments(t, c.user, c.runs, c.order, c.keep, c.remote, c.lost).0)
    ensures c.CreatePrograms? ==> Grows(t, CreateProgramEnrollments(t, c.user, c.programs, c.order, c.lost).0)
  {
    ExtendsReflexive(t.runs);
    ExtendsReflexive(t.programs);
    if c.CreateRuns? {
      EnrollAllFits(t.runs, c.user, c.runs, c.order, c.remote == Succeeds, c.lost);
    } else if c.CreatePrograms? {
      EnrollAllFits(t.programs, c.user, c.programs, c.order, false, c.lost);
    }
  }

  lemma RetryFits(t: Tables, due: set<nat>, retry: nat -> Retry)
    requires TablesFit(t)
    ensures Grows(t, t.(runs := RetryAll(t.runs, |t.runs|, due, retry).rows))
  {
    RetryAllFits(t.runs, |t.runs|, due, retry);
    ExtendsReflexive(t.programs);
  }

  lemma DropProgramFits(
      cat: Catalogue, t: Tables, k: nat, limit: bool, status: ChangeStatus, keep: bool, unenrolled: nat -> bool)
    requires TablesFit(t) && k < |t.programs|
    ensures Grows(t, DeactivateProgram(cat, t, k, limit, status, keep, unenrolled))
  {
    DeactivateProgramExactly(cat, t, k, limit, status, keep, unenrolled);
  }

  lemma DeferFits(cat: Catalogue, t: Tables, d: Deferral)
    requires TablesFit(t)
    ensures Grows(t, Defer(cat, t, d).0)
  {
    DeferralKeepsSeat(cat, t, d);
    ExtendsReflexive(t.programs);
  }

  lemma ApplyFits(cat: Catalogue, t: Tables, c: Change)
    requires TablesFit(t)
    ensures TablesFit(Apply(cat, t, c))
    ensures Extends(t.runs, Apply(cat, t, c).runs) && Extends(t.programs, Apply(cat, t, c).programs)
  {
    ExtendsReflexive(t.runs);
    ExtendsReflexive(t.programs);
    match c
    case CreateRuns(_, _, _, _, _, _) => CreateFits(t, c);
    case CreatePrograms(_, _, _, _) => CreateFits(t, c);
    case DropRun(k, status, keep, unenrolled) =>
      if k < |t.runs| { DropRunFits(t, k, status, keep, unenrolled); }
    case DropProgram(k, limit, status, keep, unenrolled) =>
      if k < |t.programs| { DropProgramFits(cat, t, k, limit, status, keep, unenrolled); }
    case DeferRun(deferral) => DeferFits(cat, t, deferral);
    case RetryFailed(due, retry) => RetryFits(t, due, retry);
  }

  /**
   * Over every run of changes each enrollment is active exactly when it has no change status, its
   * audit log is an unbroken chain ending at the stored record, no two enrollments share user, item
   * and order, and no audit row is ever lost.
   */
  lemma {:induction false} ApplyAllFits(cat: Catalogue, t: Tables, changes: seq<Change>)
    requires TablesFit(t)
    ensures var u := ApplyAll(cat, t, changes);
            TablesFit(u) && Extends(t.runs, u.runs) && Extends(t.programs, u.programs)
    decreases |changes|
  {
    if changes != [] {
      ApplyFits(cat, t, changes[0]);
      var next := Apply(cat, t, changes[0]);
      ApplyAllFits(cat, next, changes[1..]);
      ExtendsTransitive(t.runs, next.runs, ApplyAll(cat, next, changes[1..]).runs);
      ExtendsTransitive(t.programs, next.programs, ApplyAll(cat, next, changes[1..]).programs);
    }
  }
}
