/**
 * Fulfilling an order, seen in the enrollment tables: the shop's set of enrolled (user, run) pairs
 * is the set of active run enrollments, before and after.
 */
module OrderEnrollments {
  import opened Prelude
  import opened Records
  import opened Orders
  import E = Enrollments

  /** The (user, run) pairs of the active enrollments. */
  function ActivePairs(rows: seq<E.Row>): set<(nat, nat)> {
    set k | 0 <= k < |rows| && rows[k].record.active :: (rows[k].record.user, rows[k].record.item)
  }

  ghost predicate KeepsActive(rows: seq<E.Row>, next: seq<E.Row>) {
    |rows| <= |next| && forall k :: 0 <= k < |rows| && rows[k].record.active ==> next[k] == rows[k]
  }

  lemma EnrollOneAddsPair(rows: seq<E.Row>, user: nat, item: nat, order: Option<nat>, edx: bool)
    ensures var next := E.EnrollOne(rows, user, item, order, edx).0;
            && ActivePairs(next) == ActivePairs(rows) + {(user, item)}
            && KeepsActive(rows, next) && E.HoldsSeat(next, user, item, order)
  {
    var (next, k) := E.EnrollOne(rows, user, item, order, edx);
    assert E.HasKey(next[k], user, item, order) && next[k].record.active;
    forall pair ensures pair in ActivePairs(next) <==> pair in ActivePairs(rows) + {(user, item)} {
      if pair in ActivePairs(rows) {
        var j :| 0 <= j < |rows| && rows[j].record.active && (rows[j].record.user, rows[j].record.item) == pair;
        assert next[j] == rows[j];
      }
      if pair == (user, item) {
        assert (next[k].record.user, next[k].record.item) == pair;
      }
    }
  }

  lemma SeatStays(rows: seq<E.Row>, next: seq<E.Row>, user: nat, item: nat, order: Option<nat>)
    requires KeepsActive(rows, next) && E.HoldsSeat(rows, user, item, order)
    ensures E.HoldsSeat(next, user, item, order)
  {
    var k :| 0 <= k < |rows| && E.HasKey(rows[k], user, item, order) && rows[k].record.active;
    assert next[k] == rows[k];
  }

  function Pairs(user: nat, items: seq<nat>, lost: set<nat>): set<(nat, nat)> {
    set item | item in items && item !in lost :: (user, item)
  }

  lemma {:induction false} EnrollAllAddsPairs(
      rows: seq<E.Row>, user: nat, items: seq<nat>, order: nat, edx: bool, lost: set<nat>)
    ensures var b := E.EnrollAll(rows, user, items, Some(order), edx, lost);
            && !b.crashed && ActivePairs(b.rows) == ActivePairs(rows) + Pairs(user, items, lost)
            && KeepsActive(rows, b.rows)
            && forall item :: item in items && item !in lost ==> E.HoldsSeat(b.rows, user, item, Some(order))
    decreases |items|
  {
    if items != [] {
      assert items == [items[0]] + items[1..];
      if items[0] in lost {
        EnrollAllAddsPairs(rows, user, items[1..], order, edx, lost);
        assert Pairs(user, items, lost) == Pairs(user, items[1..], lost);
      } else {
        EnrollOneAddsPair(rows, user, items[0], Some(order), edx);
        var next := E.EnrollOne(rows, user, items[0], Some(order), edx).0;
        EnrollAllAddsPairs(next, user, items[1..], order, edx, lost);
        assert Pairs(user, items, lost) == {(user, items[0])} + Pairs(user, items[1..], lost);
        SeatStays(
          next, E.EnrollAll(next, user, items[1..], Some(order), edx, lost).rows, user, items[0], Some(order));
      }
    }
  }

  /** How completion ends when run creation meets this outcome of edX. */
  function EndingFor(remote: E.Remote, lost: set<nat>): Ending {
    if remote.FailsUnexpectedly? then Stopped({}) else Completed(lost)
  }

  /**
   * Fulfilling an order and creating its run enrollments, failed ones kept, leave shop and tables in
   * agreement for every outcome of edX. Unless edX fails in an unexpected way, each selected run whose
   * record could be written has an active enrollment on this very order. If it does, creation raises,
   * nobody is enrolled and the basket stays, with the order fulfilled all the same.
   */
  lemma FulfilmentEnrolls(
      s: State, k: nat, lost: set<nat>, free: bool, t: E.Tables, runs: seq<nat>, remote: E.Remote)
    requires k < |s.orders| && |s.orders[k].lines| == 1
    requires forall r :: r in runs <==> r in s.orders[k].lines[0].runs
    requires s.enrolled == ActivePairs(t.runs)
    ensures var user := s.orders[k].purchaser;
            var (u, r) := E.CreateRunEnrollments(t, user, runs, Some(k), true, remote, lost);
            var after := Fulfil(s, k, EndingFor(remote, lost), free);
            && u.programs == t.programs
            && after.orders[k].status == Fulfilled
            && after.enrolled == ActivePairs(u.runs)
            && (r.Ok? <==> !remote.FailsUnexpectedly?)
            && (if r.Ok? then
                  && after.baskets == s.baskets - {user}
                  && forall run :: run in runs && run !in lost ==> E.HoldsSeat(u.runs, user, run, Some(k))
                else
                  r == Err(E.Crashed) && u == t && after.enrolled == s.enrolled && after.baskets == s.baskets)
  {
    if remote.FailsUnexpectedly? {
      assert NewEnrollments(s.orders[k], Stopped({})) == {};
    } else {
      EnrollAllAddsPairs(t.runs, s.orders[k].purchaser, runs, k, remote == E.Succeeds, lost);
      assert NewEnrollments(s.orders[k], Completed(lost)) == Pairs(s.orders[k].purchaser, runs, lost);
    }
  }
}
