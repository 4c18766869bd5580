/**
 * Courses, runs, programs and the products that sell them, with the run-selection rules that
 * depend on nothing else: which runs are available, which selection a product allows, and which
 * selection passes checkout. A row's id is its position in its table.
 */
module CourseCatalogue {
  import opened Prelude

  datatype Run = Run(
    course: nat,
    live: bool,
    start: Option<int>,
    end: Option<int>,
    enrollmentStart: Option<int>,
    enrollmentEnd: Option<int>)
  {
    predicate IsPast(now: int) {
      end.Some? && end.value < now
    }

    predicate IsNotBeyondEnrollment(now: int) {
      && (end.Some? ==> end.value > now)
      && (enrollmentEnd.Some? ==> enrollmentEnd.value > now)
      && (enrollmentStart.Some? ==> enrollmentStart.value <= now)
    }

    predicate IsUnexpired(now: int) {
      !IsPast(now) && IsNotBeyondEnrollment(now)
    }
  }

  datatype Course = Course(program: Option<nat>, live: bool, external: bool)

  datatype Program = Program(live: bool, external: bool)

  datatype Content = RunContent(run: nat) | ProgramContent(program: nat)

  datatype Product = Product(content: Content, active: bool)

  datatype Catalogue = Catalogue(
    runs: seq<Run>,
    courses: seq<Course>,
    programs: seq<Program>,
    products: seq<Product>)
  {
    predicate HasContent(content: Content) {
      match content
      case RunContent(r) => r < |runs|
      case ProgramContent(p) => p < |programs|
    }

    /** Every foreign key refers to a row. */
    predicate Valid() {
      && (forall r :: 0 <= r < |runs| ==> runs[r].course < |courses|)
      && (forall c :: 0 <= c < |courses| ==>
            courses[c].program.Some? ==> courses[c].program.value < |programs|)
      && (forall p :: 0 <= p < |products| ==> HasContent(products[p].content))
    }

    function StartOf(r: nat): int {
      if r < |runs| && runs[r].start.Some? then runs[r].start.value else 0
    }

    predicate IsListed(course: nat, r: nat) {
      r < |runs| && runs[r].course == course && runs[r].live && runs[r].start.Some?
    }

    predicate IsUnexpiredRun(now: int, r: nat) {
      r < |runs| && runs[r].IsUnexpired(now)
    }

    /** A run of the course that autoselection may pick for a user enrolled in the given runs. */
    predicate IsAvailable(course: nat, now: int, enrolled: set<nat>, r: nat) {
      IsListed(course, r) && IsUnexpiredRun(now, r) && r !in enrolled
    }

    /** Course.unexpired_runs: sort the listed runs by start date, then drop the expired ones. */
    function UnexpiredRuns(course: nat, now: int): seq<nat> {
      Filter(SortBy(Filter(RowIds(|runs|), r => IsListed(course, r)), r => StartOf(r)),
             r => IsUnexpiredRun(now, r))
    }

    /** Course.first_unexpired_run: select the eligible runs, then sort. */
    function FirstUnexpiredRun(course: nat, now: int): Option<nat> {
      FirstOrNone(SortBy(Filter(RowIds(|runs|), r => IsListed(course, r) && IsUnexpiredRun(now, r)),
                         r => StartOf(r)))
    }

    function FirstAvailableRun(course: nat, now: int, enrolled: set<nat>): Option<nat> {
      FirstOrNone(Filter(UnexpiredRuns(course, now), r => r !in enrolled))
    }

    function RunChooser(now: int, enrolled: set<nat>): nat -> Option<nat> {
      c => FirstAvailableRun(c, now, enrolled)
    }

    predicate IsLiveCourseOf(program: nat, c: nat) {
      c < |courses| && courses[c].program == Some(program) && courses[c].live
    }

    function LiveCourses(program: nat): seq<nat> {
      Filter(RowIds(|courses|), c => IsLiveCourseOf(program, c))
    }

    predicate IsLive(content: Content)
      requires HasContent(content)
    {
      match content
      case RunContent(r) => runs[r].live
      case ProgramContent(p) => programs[p].live
    }

    /** is_external of the run's course, or of the program. */
    predicate IsExternal(content: Content)
      requires Valid() && HasContent(content)
    {
      match content
      case RunContent(r) => courses[runs[r].course].external
      case ProgramContent(p) => programs[p].external
    }

    /** Product.run_queryset; for a program it also holds runs that are not live. */
    function ProductRuns(content: Content): set<nat>
      requires Valid()
    {
      match content
      case RunContent(run) => if run < |runs| then {run} else {}
      case ProgramContent(p) => set r | 0 <= r < |runs| && courses[runs[r].course].program == Some(p)
    }

    /** The course ids that a checkout must cover. */
    function CheckoutCourses(content: Content): set<nat>
      requires HasContent(content)
    {
      match content
      case RunContent(r) => {runs[r].course}
      case ProgramContent(p) => set c | c in LiveCourses(p)
    }

    function CoursesOf(selected: set<nat>): set<nat>
      requires forall r :: r in selected ==> r < |runs|
    {
      set r | r in selected :: runs[r].course
    }
  }

  function RunSet(runs: seq<nat>): set<nat> {
    set r | r in runs
  }

  function RowIds(n: nat): (ids: seq<nat>)
    ensures forall i: nat :: i in ids <==> i < n
  {
    if n == 0 then [] else RowIds(n - 1) + [n - 1]
  }

  // ----------------------------------------------------------------------------------------
  // Available runs
  // ----------------------------------------------------------------------------------------

  lemma {:induction false} FilterFilter<T(!new)>(xs: seq<T>, p: T -> bool, q: T -> bool, both: T -> bool)
    requires forall x :: both(x) <==> p(x) && q(x)
    ensures Filter(Filter(xs, p), q) == Filter(xs, both)
  {
    if xs != [] {
      FilterFilter(xs[1..], p, q, both);
      if p(xs[0]) {
        assert ([xs[0]] + Filter(xs[1..], p))[1..] == Filter(xs[1..], p);
      }
    }
  }

  /** A run is unexpired exactly while it has not ended and its enrollment period is on; being past adds nothing. */
  lemma UnexpiredExactly(run: Run, now: int)
    ensures run.IsUnexpired(now) <==>
              && (match run.end case None => true case Some(end) => now < end)
              && (match run.enrollmentStart case None => true case Some(from) => from <= now)
              && (match run.enrollmentEnd case None => true case Some(until) => now < until)
    ensures run.IsUnexpired(now) <==> run.IsNotBeyondEnrollment(now)
  {
  }

  /** The two ways the repository computes the next run of a course agree. */
  lemma FirstUnexpiredRunIsHead(cat: Catalogue, course: nat, now: int)
    ensures cat.FirstUnexpiredRun(course, now) == FirstOrNone(cat.UnexpiredRuns(course, now))
  {
    var listed := (r: nat) => cat.IsListed(course, r);
    var unexpired := (r: nat) => cat.IsUnexpiredRun(now, r);
    var both := (r: nat) => cat.IsListed(course, r) && cat.IsUnexpiredRun(now, r);
    var start := (r: nat) => cat.StartOf(r);
    var ids := RowIds(|cat.runs|);
    FilterFilter(ids, listed, unexpired, both);
    FilterSortCommute(Filter(ids, listed), unexpired, start);
  }

  ghost predicate NoneAvailable(cat: Catalogue, course: nat, now: int, enrolled: set<nat>) {
    forall r: nat :: !cat.IsAvailable(course, now, enrolled, r)
  }

  ghost predicate IsEarliestAvailable(cat: Catalogue, course: nat, now: int, enrolled: set<nat>, r: nat) {
    && cat.IsAvailable(course, now, enrolled, r)
    && forall q: nat :: cat.IsAvailable(course, now, enrolled, q) ==> cat.StartOf(r) <= cat.StartOf(q)
  }

  /** The first available run starts no later than any other, and is missing only if there is none. */
  lemma FirstAvailableRunSpec(cat: Catalogue, course: nat, now: int, enrolled: set<nat>)
    ensures cat.FirstAvailableRun(course, now, enrolled).None? <==> NoneAvailable(cat, course, now, enrolled)
    ensures cat.FirstAvailableRun(course, now, enrolled).Some? ==>
              IsEarliestAvailable(cat, course, now, enrolled, cat.FirstAvailableRun(course, now, enrolled).value)
  {
    var start := (r: nat) => cat.StartOf(r);
    var listed := Filter(RowIds(|cat.runs|), r => cat.IsListed(course, r));
    var sorted := SortBy(listed, start);
    var unexpired := cat.UnexpiredRuns(course, now);
    var open := Filter(unexpired, r => r !in enrolled);
    SortBySorted(listed, start);
    FilterSorted(sorted, r => cat.IsUnexpiredRun(now, r), start);
    FilterSorted(unexpired, r => r !in enrolled, start);
    assert forall r: nat :: r in open <==> cat.IsAvailable(course, now, enrolled, r);
    assert SortedBy(open, start);
    if open == [] {
      forall r: nat ensures !cat.IsAvailable(course, now, enrolled, r) {
        assert r !in open;
      }
    } else {
      assert open[0] in open;
      forall r: nat | cat.IsAvailable(course, now, enrolled, r)
        ensures cat.StartOf(open[0]) <= cat.StartOf(r)
      {
        assert r in open;
        var i :| 0 <= i < |open| && open[i] == r;
        assert start(open[0]) <= start(open[i]);
      }
    }
  }

  // ----------------------------------------------------------------------------------------
  // Automatic selection
  // ----------------------------------------------------------------------------------------

  /** Apply a choice to each element in order, giving up as soon as one has none. */
  function ChooseEach(courses: seq<nat>, choose: nat -> Option<nat>): Option<seq<nat>> {
    if courses == [] then Some([])
    else
      match choose(courses[0])
      case None => None
      case Some(run) =>
        match ChooseEach(courses[1..], choose)
        case None => None
        case Some(rest) => Some([run] + rest)
  }

  lemma {:induction false} ChooseEachSpec(courses: seq<nat>, choose: nat -> Option<nat>)
    ensures ChooseEach(courses, choose).None? <==> exists c :: c in courses && choose(c).None?
    ensures ChooseEach(courses, choose).Some? ==>
              (|ChooseEach(courses, choose).value| == |courses|
              && forall i :: 0 <= i < |courses| ==>
                   choose(courses[i]) == Some(ChooseEach(courses, choose).value[i]))
  {
    if courses != [] {
      ChooseEachSpec(courses[1..], choose);
    }
  }

  /** The loop of _autoselect_runs over a program's live courses: grow the list, or give up. */
  method CollectRuns(courses: seq<nat>, choose: nat -> Option<nat>) returns (runs: Option<seq<nat>>)
    ensures runs == ChooseEach(courses, choose)
  {
    var picked: seq<nat> := [];
    ChooseEachSpec(courses, choose);
    for i := 0 to |courses|
      invariant |picked| == i
      invariant forall j :: 0 <= j < i ==> choose(courses[j]) == Some(picked[j])
    {
      var run := choose(courses[i]);
      if run.None? {
        return None;
      }
      picked := picked + [run.value];
    }
    assert ChooseEach(courses, choose).value == picked;
    return Some(picked);
  }

  /** What _autoselect_runs adds to a basket with no selection. */
  function AutoselectedRuns(cat: Catalogue, content: Content, now: int, enrolled: set<nat>): set<nat> {
    match content
    case RunContent(r) => {r}
    case ProgramContent(p) =>
      match ChooseEach(cat.LiveCourses(p), cat.RunChooser(now, enrolled))
      case None => {}
      case Some(picked) => RunSet(picked)
  }

  // ----------------------------------------------------------------------------------------
  // Selections
  // ----------------------------------------------------------------------------------------

  /** The basket invariant: the selected runs belong to the product, at most one per course. */
  predicate SelectionFits(cat: Catalogue, content: Content, selected: set<nat>)
    requires cat.Valid()
  {
    && selected <= cat.ProductRuns(content)
    && forall r, q :: r in selected && q in selected && cat.runs[r].course == cat.runs[q].course ==> r == q
  }

  datatype SelectionError =
    | NoDateForEachCourse | InvalidCourses | NotAcceptingEnrollments | AlreadyEnrolled

  /** _validate_basket_run_selections, check by check. */
  function CheckSelection(cat: Catalogue, content: Content, selected: set<nat>, now: int, enrolled: set<nat>)
    : Result<set<nat>, SelectionError>
    requires cat.HasContent(content)
    requires forall r :: r in selected ==> r < |cat.runs|
  {
    var valid := cat.CheckoutCourses(content);
    if selected == {} || |selected| < |valid| then Err(NoDateForEachCourse)
    else if |selected| > |valid| || !(cat.CoursesOf(selected) <= valid) then Err(InvalidCourses)
    else if exists r :: r in selected && !cat.runs[r].IsUnexpired(now) then Err(NotAcceptingEnrollments)
    else if selected * enrolled != {} then Err(AlreadyEnrolled)
    else Ok(selected)
  }

  /** Exactly one selected run for each of the given courses, and no other run. */
  ghost predicate OneRunPerCourse(cat: Catalogue, selected: set<nat>, courses: set<nat>)
    requires forall r :: r in selected ==> r < |cat.runs|
  {
    && (forall r :: r in selected ==> cat.runs[r].course in courses)
    && (forall c :: c in courses ==> exists r :: r in selected && cat.runs[r].course == c)
    && (forall r, q :: r in selected && q in selected && cat.runs[r].course == cat.runs[q].course ==> r == q)
  }

  lemma {:induction false} InjectiveImage(cat: Catalogue, selected: set<nat>)
    requires forall r :: r in selected ==> r < |cat.runs|
    requires forall r, q :: r in selected && q in selected && cat.runs[r].course == cat.runs[q].course ==> r == q
    ensures |cat.CoursesOf(selected)| == |selected|
    decreases |selected|
  {
    if selected == {} {
      assert cat.CoursesOf(selected) == {};
    } else {
      var r :| r in selected;
      InjectiveImage(cat, selected - {r});
      assert cat.CoursesOf(selected) == cat.CoursesOf(selected - {r}) + {cat.runs[r].course};
    }
  }

  /** Pigeonhole: with at most one run per course, counting and inclusion mean one run for each. */
  lemma CountingMeansOnePerCourse(cat: Catalogue, selected: set<nat>, courses: set<nat>)
    requires forall r :: r in selected ==> r < |cat.runs|
    requires forall r, q :: r in selected && q in selected && cat.runs[r].course == cat.runs[q].course ==> r == q
    ensures OneRunPerCourse(cat, selected, courses) <==>
              (|selected| == |courses| && cat.CoursesOf(selected) <= courses)
  {
    InjectiveImage(cat, selected);
    if |selected| == |courses| && cat.CoursesOf(selected) <= courses {
      SubsetSameSize(cat.CoursesOf(selected), courses);
      forall c | c in courses ensures exists r :: r in selected && cat.runs[r].course == c {
        assert c in cat.CoursesOf(selected);
      }
    }
    if OneRunPerCourse(cat, selected, courses) {
      assert cat.CoursesOf(selected) == courses;
    }
  }

  /**
   * For a selection that fits its product, the counting checks of checkout accept exactly the
   * selections with one unexpired, unenrolled run for each course to cover.
   */
  lemma CheckSelectionExact(cat: Catalogue, content: Content, selected: set<nat>, now: int, enrolled: set<nat>)
    requires cat.Valid() && cat.HasContent(content)
    requires SelectionFits(cat, content, selected)
    ensures CheckSelection(cat, content, selected, now, enrolled) == Ok(selected) <==>
              (selected != {}
              && OneRunPerCourse(cat, selected, cat.CheckoutCourses(content))
              && (forall r :: r in selected ==> cat.runs[r].IsUnexpired(now) && r !in enrolled))
    ensures CheckSelection(cat, content, selected, now, enrolled).Ok? ==>
              CheckSelection(cat, content, selected, now, enrolled) == Ok(selected)
    ensures content.RunContent? && CheckSelection(cat, content, selected, now, enrolled).Ok? ==>
              selected == {content.run}
  {
    CountingMeansOnePerCourse(cat, selected, cat.CheckoutCourses(content));
    assert selected * enrolled == {} <==> forall r :: r in selected ==> r !in enrolled by {
      forall r | r in selected && r in enrolled ensures r in selected * enrolled {}
    }
    if content.RunContent? && selected != {} {
      assert selected == {content.run};
    }
  }

  /** A program of two live courses whose only runs are two runs of the first. */
  const TWO_RUNS_ONE_COURSE := Catalogue(
    [Run(0, true, Some(1), None, None, None), Run(0, true, Some(1), None, None, None)],
    [Course(Some(0), true, false), Course(Some(0), true, false)],
    [Program(true, false)],
    [Product(ProgramContent(0), true)])

  lemma TwoRunsFacts(cat: Catalogue)
    requires cat == TWO_RUNS_ONE_COURSE
    ensures cat.Valid()
    ensures {0, 1} <= cat.ProductRuns(ProgramContent(0))
    ensures cat.CheckoutCourses(ProgramContent(0)) == {0, 1}
    ensures cat.CoursesOf({0, 1}) == {0}
  {
    assert cat.IsLiveCourseOf(0, 0) && cat.IsLiveCourseOf(0, 1);
    assert forall c: nat :: cat.IsLiveCourseOf(0, c) <==> c < 2;
  }

  /** Two unexpired runs pass when two courses, theirs among them, are to be covered. */
  lemma TwoRunsCounted(cat: Catalogue, content: Content)
    requires cat.HasContent(content) && |cat.runs| == 2
    requires cat.CheckoutCourses(content) == {0, 1} && cat.CoursesOf({0, 1}) == {0}
    requires cat.runs[0].IsUnexpired(0) && cat.runs[1].IsUnexpired(0)
    ensures CheckSelection(cat, content, {0, 1}, 0, {}) == Ok({0, 1})
  {
    var both: set<nat> := {0, 1};
    assert 0 in both && |both| == 2;
  }

  /** Without the basket invariant the counting checks accept two runs of one course. */
  lemma CountingAloneIsNotEnough()
    ensures var cat := TWO_RUNS_ONE_COURSE;
            && cat.Valid()
            && {0, 1} <= cat.ProductRuns(ProgramContent(0))
            && CheckSelection(cat, ProgramContent(0), {0, 1}, 0, {}) == Ok({0, 1})
            && !OneRunPerCourse(cat, {0, 1}, cat.CheckoutCourses(ProgramContent(0)))
  {
    var cat := TWO_RUNS_ONE_COURSE;
    TwoRunsFacts(cat);
    TwoRunsCounted(cat, ProgramContent(0));
    var both: set<nat> := {0, 1};
    assert 0 in both && 1 in both && cat.runs[0].course == cat.runs[1].course;
  }

  /**
   * When automatic selection selects anything for a program, it fits the program, checkout's run
   * validation accepts it at the same instant, and each run is an earliest available one of its
   * course; it selects nothing exactly when there is no live course or one without available run.
   */
  lemma AutoselectionPassesCheckout(cat: Catalogue, program: nat, now: int, enrolled: set<nat>)
    requires cat.Valid() && cat.HasContent(ProgramContent(program))
    ensures var selected := AutoselectedRuns(cat, ProgramContent(program), now, enrolled);
            && SelectionFits(cat, ProgramContent(program), selected)
            && (selected == {} <==>
                  (cat.LiveCourses(program) == []
                  || exists c :: c in cat.LiveCourses(program) && NoneAvailable(cat, c, now, enrolled)))
            && (selected != {} ==>
                  CheckSelection(cat, ProgramContent(program), selected, now, enrolled) == Ok(selected))
            && (forall r :: r in selected ==>
                  IsEarliestAvailable(cat, cat.runs[r].course, now, enrolled, r))
  {
    var content := ProgramContent(program);
    var live := cat.LiveCourses(program);
    var choose := cat.RunChooser(now, enrolled);
    var selected := AutoselectedRuns(cat, content, now, enrolled);
    ChooserSpec(cat, now, enrolled);
    ChosenRunsFit(cat, program, now, enrolled, choose);
    if selected != {} {
      AvailableSelectionAccepted(cat, content, selected, now, enrolled);
    }
  }

  lemma AvailableSelectionAccepted(
      cat: Catalogue, content: Content, selected: set<nat>, now: int, enrolled: set<nat>)
    requires cat.Valid() && cat.HasContent(content) && SelectionFits(cat, content, selected)
    requires selected != {} && OneRunPerCourse(cat, selected, cat.CheckoutCourses(content))
    requires forall r :: r in selected ==> cat.IsAvailable(cat.runs[r].course, now, enrolled, r)
    ensures CheckSelection(cat, content, selected, now, enrolled) == Ok(selected)
  {
    CheckSelectionExact(cat, content, selected, now, enrolled);
  }

  lemma ChooserSpec(cat: Catalogue, now: int, enrolled: set<nat>)
    ensures forall c: nat :: cat.RunChooser(now, enrolled)(c).None? <==> NoneAvailable(cat, c, now, enrolled)
    ensures forall c: nat :: cat.RunChooser(now, enrolled)(c).Some? ==>
              IsEarliestAvailable(cat, c, now, enrolled, cat.RunChooser(now, enrolled)(c).value)
  {
    forall c: nat
      ensures cat.FirstAvailableRun(c, now, enrolled).None? <==> NoneAvailable(cat, c, now, enrolled)
      ensures cat.FirstAvailableRun(c, now, enrolled).Some? ==>
                IsEarliestAvailable(cat, c, now, enrolled, cat.FirstAvailableRun(c, now, enrolled).value)
    {
      FirstAvailableRunSpec(cat, c, now, enrolled);
    }
  }

  lemma ChosenRunsFit(cat: Catalogue, program: nat, now: int, enrolled: set<nat>, choose: nat -> Option<nat>)
    requires cat.Valid() && cat.HasContent(ProgramContent(program))
    requires forall c: nat :: choose(c).None? <==> NoneAvailable(cat, c, now, enrolled)
    requires forall c: nat :: choose(c).Some? ==> IsEarliestAvailable(cat, c, now, enrolled, choose(c).value)
    ensures var live := cat.LiveCourses(program);
            match ChooseEach(live, choose)
            case None => exists c :: c in live && NoneAvailable(cat, c, now, enrolled)
            case Some(picked) =>
              var selected := RunSet(picked);
              && (forall c :: c in live ==> !NoneAvailable(cat, c, now, enrolled))
              && (selected == {} <==> live == [])
              && SelectionFits(cat, ProgramContent(program), selected)
              && OneRunPerCourse(cat, selected, cat.CheckoutCourses(ProgramContent(program)))
              && forall r :: r in selected ==> IsEarliestAvailable(cat, cat.runs[r].course, now, enrolled, r)
  {
    var live := cat.LiveCourses(program);
    ChooseEachSpec(live, choose);
    if ChooseEach(live, choose).Some? {
      var picked := ChooseEach(live, choose).value;
      var selected := RunSet(picked);
      forall r | r in selected
        ensures r < |cat.runs| && cat.runs[r].course in live && choose(cat.runs[r].course) == Some(r)
      {
        var i :| 0 <= i < |picked| && picked[i] == r;
        assert choose(live[i]) == Some(r);
        assert live[i] in live;
      }
      forall c | c in live ensures exists r :: r in selected && cat.runs[r].course == c {
        var i :| 0 <= i < |live| && live[i] == c;
        assert picked[i] in selected;
      }
      if live != [] {
        assert picked[0] in selected;
      } else {
        assert picked == [];
        assert RunSet([]) == {};
      }
    }
  }
}
