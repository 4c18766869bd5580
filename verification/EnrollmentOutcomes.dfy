/**
 * What each enrollment change writes: which records are created, reactivated, deactivated or retried,
 * with which fields, and how each call ends.
 */
module EnrollmentOutcomes {
  import opened Prelude
  import opened CourseCatalogue
  import opened Enrollments

  // ----------------------------------------------------------------------------------------
  // One record
  // ----------------------------------------------------------------------------------------

  /** save_and_log stores the record, logs the change from the old one to it, and touches no other row. */
  lemma SaveAndLogExactly(rows: seq<Row>, k: nat, record: Record)
    requires k < |rows|
    ensures var next := SaveAndLog(rows, k, record);
            && |next| == |rows| && next[k].record == record
            && next[k].log == rows[k].log + [Audit(rows[k].record, record)]
            && forall j :: 0 <= j < |rows| && j != k ==> next[j] == rows[j]
  {
  }

  /**
   * Enrolling in one run. An active record on the order stays as it is. An inactive one is reactivated,
   * and a missing one created, with the edX outcome of this call. No other record changes.
   */
  lemma EnrollOneExactly(rows: seq<Row>, user: nat, item: nat, order: Option<nat>, edx: bool)
    requires KeysDistinct(rows)
    ensures var (next, k) := EnrollOne(rows, user, item, order, edx);
            && k < |next| && k <= |rows| && HasKey(next[k], user, item, order)
            && (forall j :: 0 <= j < |rows| && j != k ==> next[j] == rows[j] && !HasKey(rows[j], user, item, order))
            && (k == |rows| ==> next == rows + [Row(Record(user, item, order, true, None, edx), [])])
            && (k < |rows| ==>
                  && |next| == |rows|
                  && if rows[k].record.active then next == rows
                     else next[k] == Logged(rows[k], rows[k].record.(
                            active := true, changeStatus := None, edxEnrolled := edx)))
  {
  }

  // ----------------------------------------------------------------------------------------
  // Creation
  // ----------------------------------------------------------------------------------------

  /** The items whose record can be written, in order. */
  function Writable(items: seq<nat>, lost: set<nat>): seq<nat> {
    if items == [] then []
    else if items[0] in lost then Writable(items[1..], lost)
    else [items[0]] + Writable(items[1..], lost)
  }

  /** The ids are those of active records for the items, one for each, in order. */
  ghost predicate AreRecordsFor(rows: seq<Row>, ids: seq<nat>, user: nat, items: seq<nat>, order: Option<nat>) {
    && |ids| == |items|
    && forall i :: 0 <= i < |ids| ==>
         ids[i] < |rows| && HasKey(rows[ids[i]], user, items[i], order) && rows[ids[i]].record.active
  }

  /** Creation changes no active record. */
  lemma {:induction false} ActiveStay(
      rows: seq<Row>, user: nat, items: seq<nat>, order: Option<nat>, edx: bool, lost: set<nat>)
    ensures var next := EnrollAll(rows, user, items, order, edx, lost).rows;
            && |rows| <= |next|
            && forall k :: 0 <= k < |rows| && rows[k].record.active ==> next[k] == rows[k]
    decreases |items|
  {
    if items != [] {
      if items[0] in lost {
        if order.Some? {
          ActiveStay(rows, user, items[1..], order, edx, lost);
        }
      } else {
        var next := EnrollOne(rows, user, items[0], order, edx).0;
        ActiveStay(next, user, items[1..], order, edx, lost);
      }
    }
  }

  lemma RecordAhead(
      rows: seq<Row>, k: nat, ids: seq<nat>, user: nat, item: nat, items: seq<nat>, order: Option<nat>)
    requires k < |rows| && HasKey(rows[k], user, item, order) && rows[k].record.active
    requires AreRecordsFor(rows, ids, user, items, order)
    ensures AreRecordsFor(rows, [k] + ids, user, [item] + items, order)
  {
  }

  /**
   * Creation returns the active record of each item that can be written, in order. It is cut short
   * exactly if there is no order to report an item that cannot be written on.
   */
  lemma {:induction false} CreationReturns(
      rows: seq<Row>, user: nat, items: seq<nat>, order: Option<nat>, edx: bool, lost: set<nat>)
    ensures var b := EnrollAll(rows, user, items, order, edx, lost);
            && (b.crashed <==> order.None? && exists item :: item in items && item in lost)
            && (!b.crashed ==> AreRecordsFor(b.rows, b.ids, user, Writable(items, lost), order))
    decreases |items|
  {
    if items != [] {
      assert items == [items[0]] + items[1..];
      if items[0] in lost {
        if order.Some? {
          CreationReturns(rows, user, items[1..], order, edx, lost);
        }
      } else {
        var (next, k) := EnrollOne(rows, user, items[0], order, edx);
        CreationReturns(next, user, items[1..], order, edx, lost);
        ActiveStay(next, user, items[1..], order, edx, lost);
        var rest := EnrollAll(next, user, items[1..], order, edx, lost);
        assert rest.rows[k] == next[k];
        if !rest.crashed {
          RecordAhead(rest.rows, k, rest.ids, user, items[0], Writable(items[1..], lost), order);
        }
      }
    }
  }

  /**
   * How run creation ends. An unexpected failure of edX, or a known one that is not kept, raises and
   * writes nothing. Otherwise the records are written, flagged with whether edX succeeded.
   */
  lemma CreateRunsExactly(
      t: Tables, user: nat, runs: seq<nat>, order: Option<nat>, keep: bool, remote: Remote, lost: set<nat>)
    ensures var (u, r) := CreateRunEnrollments(t, user, runs, order, keep, remote, lost);
            && u.programs == t.programs
            && (remote == FailsUnexpectedly ==> r == Err(Crashed) && u == t)
            && (remote == FailsKnown && !keep ==> r == Err(EdxCreateError) && u == t)
            && (remote == Succeeds || (remote == FailsKnown && keep) ==>
                  && u.runs == EnrollAll(t.runs, user, runs, order, remote == Succeeds, lost).rows
                  && (r.Err? <==> order.None? && exists run :: run in runs && run in lost)
                  && (r.Err? ==> r == Err(Crashed))
                  && (r.Ok? ==> AreRecordsFor(u.runs, r.value, user, Writable(runs, lost), order)))
  {
    CreationReturns(t.runs, user, runs, order, remote == Succeeds, lost);
  }

  /** Program creation returns the active records of the writable programs, and touches no run enrollment. */
  lemma CreateProgramsExactly(t: Tables, user: nat, programs: seq<nat>, order: Option<nat>, lost: set<nat>)
    ensures var (u, r) := CreateProgramEnrollments(t, user, programs, order, lost);
            && u.runs == t.runs
            && (r.Err? <==> order.None? && exists program :: program in programs && program in lost)
            && (r.Ok? ==> AreRecordsFor(u.programs, r.value, user, Writable(programs, lost), order))
  {
    CreationReturns(t.programs, user, programs, order, false, lost);
  }

  // ----------------------------------------------------------------------------------------
  // Deactivation
  // ----------------------------------------------------------------------------------------

  /** The record after deactivation: inactive with the status, and out of edX if that succeeded. */
  ghost predicate IsDeactivated(before: Record, after: Record, status: ChangeStatus, unenrolled: bool) {
    after == before.(active := false, changeStatus := Some(status),
                     edxEnrolled := if unenrolled then false else before.edxEnrolled)
  }

  /** A run enrollment is left alone exactly if edX failed and failures are not kept. */
  lemma DeactivateRunExactly(rows: seq<Row>, k: nat, status: ChangeStatus, keep: bool, unenrolled: bool)
    requires k < |rows|
    ensures var next := DeactivateRun(rows, k, status, keep, unenrolled);
            && |next| == |rows|
            && (forall j :: 0 <= j < |rows| && j != k ==> next[j] == rows[j])
            && if !unenrolled && !keep then next[k] == rows[k]
               else
                 && IsDeactivated(rows[k].record, next[k].record, status, unenrolled)
                 && next[k].log == rows[k].log + [Audit(rows[k].record, next[k].record)]
  {
  }

  /** Deactivating a program deactivates exactly its active run enrollments that edX lets go or that are kept. */
  lemma DeactivatedRunsOf(
      cat: Catalogue, t: Tables, k: nat, limit: bool, status: ChangeStatus, keep: bool, unenrolled: nat -> bool)
    requires TablesFit(t) && k < |t.programs|
    ensures var u := DeactivateProgram(cat, t, k, limit, status, keep, unenrolled);
            && |u.runs| == |t.runs|
            && forall j :: 0 <= j < |t.runs| ==>
                 if BelongsTo(cat, t.runs[j], t.programs[k].record, limit) && (keep || unenrolled(j))
                 then IsDeactivated(t.runs[j].record, u.runs[j].record, status, unenrolled(j))
                 else u.runs[j] == t.runs[j]
  {
    var program := t.programs[k].record;
    var plan := DropPlan(cat, t.runs, program, limit, status, keep, unenrolled);
    RewriteRows(t.runs, |t.runs|, plan);
    forall j | 0 <= j < |t.runs|
      ensures plan(j) == if BelongsTo(cat, t.runs[j], program, limit)
                         then DeactivatedRun(t.runs[j].record, status, keep, unenrolled(j)) else None
    {
    }
  }

  /**
   * What deactivating a program leaves alone: other users' enrollments, inactive ones, runs of other
   * programs, and, if it is limited to the program enrollment's order, enrollments on other orders.
   */
  lemma DeactivationLeavesAlone(
      cat: Catalogue, t: Tables, k: nat, limit: bool, status: ChangeStatus, keep: bool, unenrolled: nat -> bool, j: nat)
    requires cat.Valid() && TablesFit(t) && k < |t.programs| && j < |t.runs|
    ensures var program, record := t.programs[k].record, t.runs[j].record;
            var u := DeactivateProgram(cat, t, k, limit, status, keep, unenrolled);
            && |u.runs| == |t.runs|
            && (record.user != program.user || !record.active
                || (limit && program.order.Some? && record.order != program.order)
                || record.item >= |cat.runs| || cat.courses[cat.runs[record.item].course].program != Some(program.item)
                ==> u.runs[j] == t.runs[j])
            && (record.user == program.user && record.active && keep
                && (!limit || program.order.None? || record.order == program.order)
                && record.item < |cat.runs| && cat.courses[cat.runs[record.item].course].program == Some(program.item)
                ==> !u.runs[j].record.active)
  {
    DeactivatedRunsOf(cat, t, k, limit, status, keep, unenrolled);
  }

  // ----------------------------------------------------------------------------------------
  // Deferral
  // ----------------------------------------------------------------------------------------

  /** Exactly when a deferral passes its checks, and that it starts from the latest record for the source run. */
  lemma DeferralChecksExactly(cat: Catalogue, t: Tables, d: Deferral)
    ensures var r := CheckDeferral(cat, t, d);
            && (r.Ok? <==>
                  && d.from < |cat.runs| && d.to < |cat.runs| && d.from != d.to
                  && exists i :: 0 <= i < |t.runs| && IsFor(t.runs[i], d.user, d.from)
                       && (forall j :: i < j < |t.runs| ==> !IsFor(t.runs[j], d.user, d.from))
                       && (d.force || (t.runs[i].record.active
                                       && cat.runs[d.to].IsNotBeyondEnrollment(d.now)
                                       && cat.runs[d.from].course == cat.runs[d.to].course)))
            && (r.Ok? ==>
                  && r.value < |t.runs| && IsFor(t.runs[r.value], d.user, d.from)
                  && forall j :: r.value < j < |t.runs| ==> !IsFor(t.runs[j], d.user, d.from))
  {
  }

  /** The target can be enrolled: edX succeeds, or its known failure is kept, and the record can be written. */
  predicate TargetEnrolls(d: Deferral) {
    && (d.luck.enroll == Succeeds || (d.luck.enroll == FailsKnown && d.keep))
    && d.to !in d.luck.lost
  }

  /** Record j is the user's active enrollment in the target, on the source's order. */
  ghost predicate IsTarget(t: Tables, u: Tables, source: nat, j: nat, d: Deferral)
    requires source < |t.runs|
  {
    && j < |u.runs| && j != source
    && HasKey(u.runs[j], d.user, d.to, t.runs[source].record.order) && u.runs[j].record.active
  }

  /** How a deferral ends once it has passed its checks, for every combination of failures. */
  ghost predicate DeferralEnds(
      t: Tables, u: Tables, source: nat, d: Deferral, r: Result<(Option<nat>, Option<nat>), EnrollError>)
    requires source < |t.runs| <= |u.runs|
  {
    if !TargetEnrolls(d) then
      && u == t
      && r == (if d.luck.enroll == FailsUnexpectedly then Err(Crashed)
               else if d.luck.enroll == FailsKnown && !d.keep then Err(EdxCreateError)
               else if t.runs[source].record.order.None? then Err(Crashed)
               else Ok((Some(source), None)))
    else if !d.luck.unenrolled && !d.keep then
      && u.runs[source] == t.runs[source]
      && r.Ok? && r.value.0 == None && r.value.1.Some? && IsTarget(t, u, source, r.value.1.value, d)
    else if !d.luck.saved then
      && u.runs[source] == t.runs[source] && r == Err(Crashed)
      && exists j: nat :: IsTarget(t, u, source, j, d)
    else
      && IsDeactivated(t.runs[source].record, u.runs[source].record, Deferred, d.luck.unenrolled)
      && r.Ok? && r.value.0 == Some(source) && r.value.1.Some? && IsTarget(t, u, source, r.value.1.value, d)
  }

  lemma DeferFromEnds(t: Tables, source: nat, d: Deferral)
    requires source < |t.runs| && t.runs[source].record.user == d.user && t.runs[source].record.item != d.to
    ensures var (u, r) := DeferFrom(t, source, d);
            |t.runs| <= |u.runs| && DeferralEnds(t, u, source, d, r)
  {
    var order := t.runs[source].record.order;
    var edx := d.luck.enroll == Succeeds;
    var (next, j) := EnrollOne(t.runs, d.user, d.to, order, edx);
    EnrollSingle(t.runs, d.user, d.to, order, edx, d.luck.lost);
    assert j != source && next[source] == t.runs[source];
    assert HasKey(next[j], d.user, d.to, order) && next[j].record.active;
    var u := DeferFrom(t, source, d).0;
    if TargetEnrolls(d) {
      assert IsTarget(t, u, source, j, d);
    }
  }

  /**
   * How a deferral ends. If it is refused, nothing changes. If it returns both enrollments, the source
   * is inactive with status deferred and the target active on the source's order. If it returns only
   * the source, no target could be written; if only the target, edX did not let the source go.
   */
  lemma DeferralExactly(cat: Catalogue, t: Tables, d: Deferral)
    ensures var (u, r) := Defer(cat, t, d);
            match CheckDeferral(cat, t, d)
            case Err(reason) => u == t && r == Err(reason)
            case Ok(source) => source < |t.runs| <= |u.runs| && DeferralEnds(t, u, source, d, r)
  {
    if CheckDeferral(cat, t, d).Ok? {
      DeferFromEnds(t, CheckDeferral(cat, t, d).value, d);
    }
  }

  /** So a deferral that returns both enrollments has left the source for the target. */
  lemma CompletedDeferral(cat: Catalogue, t: Tables, d: Deferral)
    requires Defer(cat, t, d).1.Ok?
    requires Defer(cat, t, d).1.value.0.Some? && Defer(cat, t, d).1.value.1.Some?
    ensures var (u, r) := Defer(cat, t, d);
            var (i, j) := (r.value.0.value, r.value.1.value);
            && i < |t.runs| <= |u.runs| && j < |u.runs|
            && IsFor(t.runs[i], d.user, d.from)
            && !u.runs[i].record.active && u.runs[i].record.changeStatus == Some(Deferred)
            && u.runs[j].record.active && HasKey(u.runs[j], d.user, d.to, t.runs[i].record.order)
  {
    DeferralExactly(cat, t, d);
    DeferralChecksExactly(cat, t, d);
  }

  // ----------------------------------------------------------------------------------------
  // Retry
  // ----------------------------------------------------------------------------------------

  /** The record is due, active, not enrolled in edX before, and edX takes it or has it already. */
  predicate IsRetried(rows: seq<Row>, k: nat, due: set<nat>, retry: nat -> Retry) {
    && k < |rows| && k in due && rows[k].record.active && !rows[k].record.edxEnrolled
    && (retry(k).NowEnrolled? || retry(k).AlreadyEnrolled?)
  }

  /** The lookup that follows a failed enrollment raises and ends the loop. */
  predicate EndsRetry(rows: seq<Row>, k: nat, due: set<nat>, retry: nat -> Retry) {
    k < |rows| && k in due && rows[k].record.active && !rows[k].record.edxEnrolled && retry(k) == LookupRaises
  }

  /**
   * A retry reports, in order, exactly the due and retriable records that edX takes or has already,
   * before the first whose lookup raises; it is cut short exactly if there is such a record.
   */
  lemma {:induction false} RetryExactly(rows: seq<Row>, n: nat, due: set<nat>, retry: nat -> Retry)
    requires n <= |rows|
    ensures var b := RetryAll(rows, n, due, retry);
            && (b.crashed <==> exists k: nat :: k < n && EndsRetry(rows, k, due, retry))
            && (forall k: nat :: k in b.ids <==>
                  k < n && IsRetried(rows, k, due, retry)
                  && forall j: nat :: j < k ==> !EndsRetry(rows, j, due, retry))
            && (forall i, j :: 0 <= i < j < |b.ids| ==> b.ids[i] < b.ids[j])
  {
    if n > 0 {
      RetryExactly(rows, n - 1, due, retry);
      var b := RetryAll(rows, n - 1, due, retry);
      var next := RetryAll(rows, n, due, retry);
      forall i | 0 <= i < |b.ids| ensures b.ids[i] < n - 1 {
        assert b.ids[i] in b.ids;
      }
      assert next.ids == if !b.crashed && IsRetried(rows, n - 1, due, retry) then b.ids + [n - 1] else b.ids;
      assert next.crashed == (b.crashed || EndsRetry(rows, n - 1, due, retry));
    }
  }
}
