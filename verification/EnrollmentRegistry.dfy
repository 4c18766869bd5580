/** The enrollment tables and the calls that change them, record by record. */
module EnrollmentRegistry {
  import opened Prelude
  import opened CourseCatalogue
  import opened Enrollments

  class Registry {
    const cat: Catalogue

    var runs: seq<Row>
    var programs: seq<Row>

    function Now(): Tables
      reads this
    {
      Tables(runs, programs)
    }

    ghost predicate Valid()
      reads this
    {
      TablesFit(Now())
    }

    constructor (cat: Catalogue)
      ensures Valid() && this.cat == cat && Now() == Tables([], [])
    {
      this.cat, runs, programs := cat, [], [];
    }

    /** save_and_log for a run enrollment. */
    method SaveRun(k: nat, record: Record)
      requires k < |runs|
      modifies this`runs
      ensures runs == SaveAndLog(old(runs), k, record)
    {
      var before := runs[k];
      runs := runs[k := Row(record, before.log)];
      var audit := Audit(before.record, runs[k].record);
      runs := runs[k := Row(runs[k].record, runs[k].log + [audit])];
    }

    /** save_and_log for a program enrollment. */
    method SaveProgram(k: nat, record: Record)
      requires k < |programs|
      modifies this`programs
      ensures programs == SaveAndLog(old(programs), k, record)
    {
      var before := programs[k];
      programs := programs[k := Row(record, before.log)];
      var audit := Audit(before.record, programs[k].record);
      programs := programs[k := Row(programs[k].record, programs[k].log + [audit])];
    }

    /** get_or_create, then reactivate an inactive record. */
    method EnrollInRun(user: nat, item: nat, order: Option<nat>, edx: bool) returns (k: nat)
      modifies this`runs
      ensures (runs, k) == EnrollOne(old(runs), user, item, order, edx)
    {
      var found := FindKey(runs, user, item, order);
      if found.None? {
        runs := runs + [Row(Record(user, item, order, true, None, edx), [])];
        return |runs| - 1;
      }
      if !runs[found.value].record.active {
        SaveRun(found.value, Reactivated(runs[found.value].record.(edxEnrolled := edx)));
      }
      return found.value;
    }

    /** The loop of create_run_enrollments. */
    method EnrollInRuns(user: nat, items: seq<nat>, order: Option<nat>, edx: bool, lost: set<nat>)
      returns (ids: seq<nat>, crashed: bool)
      modifies this`runs
      ensures Batch(runs, ids, crashed) == EnrollAll(old(runs), user, items, order, edx, lost)
    {
      ids := [];
      ghost var whole := EnrollAll(runs, user, items, order, edx, lost);
      for i := 0 to |items|
        invariant whole == After(ids, EnrollAll(runs, user, items[i..], order, edx, lost))
      {
        EnrollAllStep(runs, user, items, i, ids, order, edx, lost);
        if items[i] !in lost {
          var k := EnrollInRun(user, items[i], order, edx);
          ids := ids + [k];
        } else if order.None? {
          return ids, true;
        }
      }
      return ids, false;
    }

    /** create_run_enrollments. */
    method CreateRuns(user: nat, items: seq<nat>, order: Option<nat>, keep: bool, remote: Remote, lost: set<nat>)
      returns (r: Result<seq<nat>, EnrollError>)
      requires Valid()
      modifies this`runs
      ensures Valid()
      ensures (Now(), r) == CreateRunEnrollments(old(Now()), user, items, order, keep, remote, lost)
      ensures Now() == Apply(cat, old(Now()), Change.CreateRuns(user, items, order, keep, remote, lost))
    {
      ApplyFits(cat, Now(), Change.CreateRuns(user, items, order, keep, remote, lost));
      if remote == FailsUnexpectedly {
        return Err(Crashed);
      }
      if remote == FailsKnown && !keep {
        return Err(EdxCreateError);
      }
      var ids, crashed := EnrollInRuns(user, items, order, remote == Succeeds, lost);
      return if crashed then Err(Crashed) else Ok(ids);
    }

    /** get_or_create of a program enrollment, then reactivate an inactive record. */
    method EnrollInProgram(user: nat, item: nat, order: Option<nat>) returns (k: nat)
      modifies this`programs
      ensures (programs, k) == EnrollOne(old(programs), user, item, order, false)
    {
      var found := FindKey(programs, user, item, order);
      if found.None? {
        programs := programs + [Row(Record(user, item, order, true, None, false), [])];
        return |programs| - 1;
      }
      if !programs[found.value].record.active {
        SaveProgram(found.value, Reactivated(programs[found.value].record.(edxEnrolled := false)));
      }
      return found.value;
    }

    /** create_program_enrollments. */
    method CreatePrograms(user: nat, items: seq<nat>, order: Option<nat>, lost: set<nat>)
      returns (r: Result<seq<nat>, EnrollError>)
      requires Valid()
      modifies this`programs
      ensures Valid()
      ensures (Now(), r) == CreateProgramEnrollments(old(Now()), user, items, order, lost)
      ensures Now() == Apply(cat, old(Now()), Change.CreatePrograms(user, items, order, lost))
    {
      ApplyFits(cat, Now(), Change.CreatePrograms(user, items, order, lost));
      var ids: seq<nat> := [];
      ghost var whole := EnrollAll(programs, user, items, order, false, lost);
      for i := 0 to |items|
        invariant whole == After(ids, EnrollAll(programs, user, items[i..], order, false, lost))
        invariant runs == old(runs)
      {
        EnrollAllStep(programs, user, items, i, ids, order, false, lost);
        if items[i] !in lost {
          var k := EnrollInProgram(user, items[i], order);
          ids := ids + [k];
        } else if order.None? {
          return Err(Crashed);
        }
      }
      assert whole == Batch(programs, ids, false);
      return Ok(ids);
    }

    /** deactivate_run_enrollment. */
    method DropRun(k: nat, status: ChangeStatus, keep: bool, unenrolled: bool) returns (dropped: bool)
      requires Valid() && k < |runs|
      modifies this`runs
      ensures Valid()
      ensures runs == DeactivateRun(old(runs), k, status, keep, unenrolled)
      ensures Now() == Apply(cat, old(Now()), Change.DropRun(k, status, keep, unenrolled))
      ensures dropped <==> keep || unenrolled
    {
      ApplyFits(cat, Now(), Change.DropRun(k, status, keep, unenrolled));
      if !unenrolled && !keep {
        return false;
      }
      var record := runs[k].record;
      if unenrolled {
        record := record.(edxEnrolled := false);
      }
      SaveRun(k, Deactivated(record, status));
      return true;
    }

    /** The loop of deactivate_program_enrollment: whether any run enrollment was deactivated. */
    method DropRunsOf(program: Record, limit: bool, status: ChangeStatus, keep: bool, unenrolled: nat -> bool)
      returns (dropped: bool)
      modifies this`runs
      ensures var plan := DropPlan(cat, old(runs), program, limit, status, keep, unenrolled);
              var b := Rewrite(old(runs), |old(runs)|, plan);
              runs == b.rows && (dropped <==> b.ids != [])
    {
      ghost var plan := DropPlan(cat, runs, program, limit, status, keep, unenrolled);
      var before := runs;
      dropped := false;
      for i := 0 to |before|
        invariant |runs| == |before| && runs == Rewrite(before, i, plan).rows
        invariant dropped <==> Rewrite(before, i, plan).ids != []
        invariant forall j :: i <= j < |before| ==> runs[j] == before[j]
      {
        assert plan(i) == if BelongsTo(cat, before[i], program, limit)
                          then DeactivatedRun(before[i].record, status, keep, unenrolled(i)) else None;
        if BelongsTo(cat, before[i], program, limit) {
          var record := DeactivatedRun(runs[i].record, status, keep, unenrolled(i));
          if record.Some? {
            SaveRun(i, record.value);
            dropped := true;
          }
        }
      }
    }

    /** deactivate_program_enrollment. */
    method DropProgram(k: nat, limit: bool, status: ChangeStatus, keep: bool, unenrolled: nat -> bool)
      requires Valid() && k < |programs|
      modifies this
      ensures Valid()
      ensures Now() == DeactivateProgram(cat, old(Now()), k, limit, status, keep, unenrolled)
      ensures Now() == Apply(cat, old(Now()), Change.DropProgram(k, limit, status, keep, unenrolled))
    {
      ApplyFits(cat, Now(), Change.DropProgram(k, limit, status, keep, unenrolled));
      var program := programs[k].record;
      var dropped := DropRunsOf(program, limit, status, keep, unenrolled);
      if dropped {
        SaveProgram(k, Deactivated(program, status));
      }
    }

    /** defer_enrollment. */
    method DeferEnrollment(d: Deferral) returns (r: Result<(Option<nat>, Option<nat>), EnrollError>)
      requires Valid()
      modifies this
      ensures Valid()
      ensures (Now(), r) == Defer(cat, old(Now()), d)
      ensures Now() == Apply(cat, old(Now()), Change.DeferRun(d))
    {
      DeferralKeepsSeat(cat, Now(), d);
      var checked := CheckDeferral(cat, Now(), d);
      if checked.Err? {
        return Err(checked.error);
      }
      var source := checked.value;
      var targets := CreateRuns(d.user, [d.to], runs[source].record.order, d.keep, d.luck.enroll, d.luck.lost);
      if targets.Err? {
        return Err(targets.error);
      }
      if targets.value == [] || source >= |runs| {
        return Ok((Some(source), None));
      }
      var record := DeactivatedRun(runs[source].record, Deferred, d.keep, d.luck.unenrolled);
      if record.None? {
        return Ok((None, Some(targets.value[0])));
      }
      if !d.luck.saved {
        return Err(Crashed);
      }
      SaveRun(source, record.value);
      return Ok((Some(source), Some(targets.value[0])));
    }

    /** retry_failed_edx_enrollments: the ids retried with success, and whether an exception ended the loop. */
    method RetryFailedEnrollments(due: set<nat>, retry: nat -> Retry) returns (succeeded: seq<nat>, crashed: bool)
      requires Valid()
      modifies this`runs
      ensures Valid()
      ensures Batch(runs, succeeded, crashed) == RetryAll(old(runs), |old(runs)|, due, retry)
      ensures Now() == Apply(cat, old(Now()), Change.RetryFailed(due, retry))
    {
      var before := runs;
      succeeded, crashed := [], false;
      for i := 0 to |before|
        invariant |runs| == |before|
        invariant Batch(runs, succeeded, crashed) == RetryAll(before, i, due, retry)
        invariant programs == old(programs)
      {
        if !crashed && i in due && IsRetriable(before[i]) {
          if retry(i) == LookupRaises {
            crashed := true;
          } else if retry(i) != StillFailing {
            SaveRun(i, runs[i].record.(edxEnrolled := true));
            succeeded := succeeded + [i];
          }
        }
      }
      ApplyFits(cat, old(Now()), Change.RetryFailed(due, retry));
    }
  }
}
