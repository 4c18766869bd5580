/**
 * What a basket update accepts and what it leaves on the basket: item, runs and coupon; and what the
 * validation of a basket for checkout guarantees.
 */
module BasketUpdates {
  import opened Prelude
  import opened Money
  import opened CourseCatalogue
  import opened Records
  import opened Coupons
  import opened Baskets

  // ----------------------------------------------------------------------------------------
  // Runs
  // ----------------------------------------------------------------------------------------

  /** The run ids of a request. */
  function RunIds(runIds: set<Option<nat>>): set<nat> {
    set id | id in runIds && id.Some? :: id.value
  }

  /** No two of the runs are of one course. */
  ghost predicate CoursesDiffer(cat: Catalogue, runs: set<nat>)
    requires forall r :: r in runs ==> r < |cat.runs|
  {
    forall r, q :: r in runs && q in runs && cat.runs[r].course == cat.runs[q].course ==> r == q
  }

  /**
   * Requested runs are accepted exactly if all ids are given, the user is enrolled in none of the
   * runs, all belong to the product, and no two are of one course; and they are accepted as they are.
   */
  lemma CheckRunIdsExactly(cat: Catalogue, content: Content, runIds: set<Option<nat>>, enrolled: set<nat>)
    requires cat.Valid()
    ensures var ids := RunIds(runIds);
            && (CheckRunIds(cat, content, runIds, enrolled).Ok? <==>
                  None !in runIds && ids !! enrolled && ids <= cat.ProductRuns(content) && CoursesDiffer(cat, ids))
            && (CheckRunIds(cat, content, runIds, enrolled).Ok? ==>
                  CheckRunIds(cat, content, runIds, enrolled).value == ids)
  {
    var ids := RunIds(runIds);
    if None !in runIds {
      assert (set id | id in runIds :: id.value) == ids;
      KnownRunsExactly(cat, content, ids);
      DisjointExactly(ids, enrolled);
    }
  }

  lemma DisjointExactly(a: set<nat>, b: set<nat>)
    ensures a * b == {} <==> a !! b
  {
    if a * b == {} {
      forall x | x in a ensures x !in b {
        assert x !in a * b;
      }
    }
  }

  /** The counts tell exactly whether the runs belong to the product, and then whether their courses differ. */
  lemma KnownRunsExactly(cat: Catalogue, content: Content, ids: set<nat>)
    requires cat.Valid()
    ensures var known := ids * cat.ProductRuns(content);
            && (|known| >= |ids| <==> ids <= cat.ProductRuns(content))
            && (ids <= cat.ProductRuns(content) ==>
                  known == ids && (|cat.CoursesOf(known)| >= |ids| <==> CoursesDiffer(cat, ids)))
  {
    var known := ids * cat.ProductRuns(content);
    SubsetSameSize(known, ids);
    assert known == ids <==> ids <= cat.ProductRuns(content);
    if known == ids {
      FullImageIsInjective(cat, ids);
      if CoursesDiffer(cat, ids) {
        InjectiveImage(cat, ids);
      }
    }
  }

  /** What automatic selection leaves: the product's own run, or an earliest available run for each live course. */
  ghost predicate IsAutoselection(cat: Catalogue, content: Content, runs: set<nat>, now: int, enrolled: set<nat>)
    requires cat.Valid() && cat.HasContent(content)
  {
    match content
    case RunContent(run) => runs == {run}
    case ProgramContent(p) =>
      var live := cat.LiveCourses(p);
      if live == [] || exists c :: c in live && NoneAvailable(cat, c, now, enrolled) then runs == {}
      else
        && (forall r :: r in runs ==> r < |cat.runs|)
        && OneRunPerCourse(cat, runs, cat.CheckoutCourses(content))
        && forall r :: r in runs ==> IsEarliestAvailable(cat, cat.runs[r].course, now, enrolled, r)
  }

  lemma AutoselectionExactly(cat: Catalogue, content: Content, now: int, enrolled: set<nat>)
    requires cat.Valid() && cat.HasContent(content)
    ensures IsAutoselection(cat, content, AutoselectedRuns(cat, content, now, enrolled), now, enrolled)
  {
    if content.ProgramContent? {
      AutoselectionPassesCheckout(cat, content.program, now, enrolled);
      CheckSelectionExact(cat, content, AutoselectedRuns(cat, content, now, enrolled), now, enrolled);
    }
  }

  /** The runs that a request asks for, or else those on the basket. */
  function AskedRuns(b: Basket, req: Request): set<nat> {
    if req.items.Some? && req.items.value != [] then RunIds(req.items.value[0].runIds) else b.runs
  }

  /** The product that a request asks for, or else the one on the basket. */
  function AskedProduct(b: Basket, req: Request): Option<nat> {
    if req.items.Some? && req.items.value != [] then req.items.value[0].product else ExistingProduct(b)
  }

  /** A change of item and runs carries out what the request asks for. */
  ghost predicate CarriesOut(b: Basket, req: Request, change: Change)
    requires IsWellFormed(req) && req.items != Some([])
  {
    && (if change.runs.Some? then change.runs.value else b.runs) == AskedRuns(b, req)
    && (if change.product.Some? then change.product else ExistingProduct(b)) == AskedProduct(b, req)
    && (change.product.Some? ==> change.product != ExistingProduct(b))
    && (req.items.None? ==> !change.setProgramRun)
    && (req.items.Some? ==> change.programRun == req.items.value[0].programRun
                            && change.setProgramRun == (change.programRun != ExistingProgramRun(b)))
  }

  lemma AcceptedAsAsked(cat: Catalogue, product: nat, runIds: set<Option<nat>>, now: int, enrolled: set<nat>)
    requires cat.Valid()
    ensures FetchProduct(cat, product, now).Ok? ==>
              FetchProduct(cat, product, now) == Ok(product) && product < |cat.products|
    ensures product < |cat.products| ==>
              var checked := CheckRunIds(cat, cat.products[product].content, runIds, enrolled);
              checked.Ok? ==> checked.value == RunIds(runIds)
  {
    if product < |cat.products| {
      CheckRunIdsExactly(cat, cat.products[product].content, runIds, enrolled);
    }
  }

  lemma PlanItemIs(cat: Catalogue, s: State, user: nat, req: Request, m: Moment)
    requires cat.Valid() && IsWellFormed(req) && req.items.Some? && req.items != Some([])
    requires PlanItem(cat, s, user, req, m).Ok?
    ensures var b, item := s.BasketOf(user), req.items.value[0];
            PlanItem(cat, s, user, req, m).value == Change(
              if ExistingProduct(b) == item.product then None else item.product,
              if RunIds(item.runIds) == b.runs then None else Some(RunIds(item.runIds)),
              item.programRun, item.programRun != ExistingProgramRun(b), None)
  {
    var item := req.items.value[0];
    var product := item.product.value;
    AcceptedAsAsked(cat, product, item.runIds, m.now, s.EnrolledRuns(user));
    assert FetchProduct(cat, product, m.now) == Ok(product);
    assert CheckRunIds(cat, cat.products[product].content, item.runIds, s.EnrolledRuns(user))
        == Ok(RunIds(item.runIds));
  }

  lemma PlannedItem(cat: Catalogue, s: State, user: nat, req: Request, m: Moment)
    requires cat.Valid() && IsWellFormed(req) && req.items != Some([])
    requires PlanItem(cat, s, user, req, m).Ok?
    ensures CarriesOut(s.BasketOf(user), req, PlanItem(cat, s, user, req, m).value)
    ensures PlanItem(cat, s, user, req, m).value.coupon.None?
  {
    if req.items.Some? {
      PlanItemIs(cat, s, user, req, m);
      AskedIsCarriedOut(s.BasketOf(user), req, PlanItem(cat, s, user, req, m).value);
    }
  }

  lemma AskedIsCarriedOut(b: Basket, req: Request, change: Change)
    requires IsWellFormed(req) && req.items.Some? && req.items != Some([])
    requires var item := req.items.value[0];
             change == Change(
               if ExistingProduct(b) == item.product then None else item.product,
               if RunIds(item.runIds) == b.runs then None else Some(RunIds(item.runIds)),
               item.programRun, item.programRun != ExistingProgramRun(b), None)
    ensures CarriesOut(b, req, change)
  {
  }

  lemma PlannedChange(cat: Catalogue, s: State, user: nat, req: Request, m: Moment)
    requires cat.Valid() && IsWellFormed(req) && req.items != Some([])
    requires PlanChange(cat, s, user, req, m).Ok?
    ensures CarriesOut(s.BasketOf(user), req, PlanChange(cat, s, user, req, m).value)
  {
    PlannedItem(cat, s, user, req, m);
  }

  function ExistingProgramRun(b: Basket): Option<nat> {
    if b.items == [] then None else b.items[0].programRun
  }

  /**
   * An accepted update leaves the item asked for, at quantity one; without items in the request it
   * leaves the item alone.
   */
  lemma UpdateLeavesItem(cat: Catalogue, s: State, user: nat, req: Request, m: Moment)
    requires cat.Valid() && BasketFits(cat, s.BasketOf(user)) && req.items != Some([])
    requires NextBasket(cat, s, user, req, m).Ok?
    ensures var after := NextBasket(cat, s, user, req, m).value;
            after.items ==
              match req.items
              case None => s.BasketOf(user).items
              case Some(items) => [Item(items[0].product.value, 1, items[0].programRun)]
  {
    PlannedChange(cat, s, user, req, m);
    var b := s.BasketOf(user);
    if b.items != [] {
      assert b.items == [b.items[0]];
    }
  }

  /**
   * An accepted update leaves exactly the runs asked for if there are any, and without items in the
   * request a selection on the basket stays. Only a basket with an item and no selection is filled in.
   */
  lemma UpdateLeavesRuns(cat: Catalogue, s: State, user: nat, req: Request, m: Moment)
    requires cat.Valid() && BasketFits(cat, s.BasketOf(user)) && req.items != Some([])
    requires NextBasket(cat, s, user, req, m).Ok?
    ensures var after := NextBasket(cat, s, user, req, m).value;
            var asked := AskedRuns(s.BasketOf(user), req);
            && (asked != {} ==> after.runs == asked)
            && (after.items == [] ==> after.runs == {})
            && (asked == {} && after.items != [] ==>
                  && |after.items| == 1 && after.items[0].product < |cat.products|
                  && IsAutoselection(cat, cat.products[after.items[0].product].content, after.runs,
                                     m.now, s.EnrolledRuns(user)))
  {
    PlannedChange(cat, s, user, req, m);
    NextBasketFits(cat, s, user, req, m);
    var after := NextBasket(cat, s, user, req, m).value;
    if after.items != [] {
      AutoselectionExactly(cat, cat.products[after.items[0].product].content, m.now, s.EnrolledRuns(user));
    }
  }

  // ----------------------------------------------------------------------------------------
  // Coupons
  // ----------------------------------------------------------------------------------------

  function PriceWith(s: State, pv: nat, v: nat): int
    requires pv < |s.prices|
  {
    PriceWithCoupon(s.book, Some(v), s.prices[pv])
  }

  /**
   * The choice is none exactly if no version is valid; otherwise it is a valid version of least price,
   * and among those of least price one of greatest amount.
   */
  ghost predicate IsCheapestValid(
      s: State, q: Query, product: nat, user: nat, now: int, pv: nat, choice: Option<nat>)
    requires pv < |s.prices|
  {
    match choice
    case None => forall v: nat :: !IsValid(s, q, product, user, now, v)
    case Some(best) =>
      && IsValid(s, q, product, user, now, best)
      && forall v: nat :: IsValid(s, q, product, user, now, v) ==>
           PriceWith(s, pv, best) < PriceWith(s, pv, v)
           || (PriceWith(s, pv, best) == PriceWith(s, pv, v) && AmountOf(s.book, best) >= AmountOf(s.book, v))
  }

  /** Amounts pass validation and prices are not negative. */
  ghost predicate AmountsFit(s: State) {
    && (forall v :: 0 <= v < |s.book.versions| ==>
          ValidAmount(s.book.versions[v].terms.kind, s.book.versions[v].terms.amount))
    && (forall pv :: 0 <= pv < |s.prices| ==> s.prices[pv].price >= 0)
  }

  /** The coupon chosen for a product is a cheapest valid one at the product's latest price. */
  lemma BestForProductExactly(s: State, q: Query, product: nat, user: nat, m: Moment)
    requires AmountsFit(s) && IsRowOrder(s, m.rows) && LatestVersion(s.prices, product).Some?
    ensures IsCheapestValid(s, q, product, user, m.now, LatestVersion(s.prices, product).value,
                            BestForProduct(s, q, product, user, m))
  {
    var pv := LatestVersion(s.prices, product).value;
    var version := s.prices[pv];
    var vs := ValidVersions(s, q, product, user, m.now, m.rows);
    var price := VersionPrice(s.book, version);
    ValidVersionsSpec(s, q, product, user, m.now, m.rows);
    BestCouponIsFirstCheapest(s.book, vs, version);
    if vs == [] {
      forall v: nat ensures !IsValid(s, q, product, user, m.now, v) {
        assert v !in vs;
      }
    } else {
      var best := BestForProduct(s, q, product, user, m).value;
      var i: nat :| IsFirstMinimum(vs, price, i) && vs[i] == best;
      assert vs[i] in vs;
      forall v: nat | IsValid(s, q, product, user, m.now, v)
        ensures price(best) < price(v) || (price(best) == price(v) && AmountOf(s.book, best) >= AmountOf(s.book, v))
      {
        assert v in vs;
        var j :| 0 <= j < |vs| && vs[j] == v;
      }
    }
  }

  function CodeGiven(coupons: Option<seq<Option<string>>>): Option<string> {
    if coupons.Some? && coupons.value != [] then
      Some(if coupons.value[0].Some? then coupons.value[0].value else "")
    else None
  }

  /** The version of the coupon on the basket is valid still. */
  ghost predicate IsStillValid(s: State, b: Basket, product: nat, user: nat, now: int) {
    && b.coupons != []
    && var kept := LatestCouponVersion(s.book.versions, b.coupons[0]);
    && kept.Some? && IsValid(s, ANY_COUPON, product, user, now, kept.value)
  }

  /** With a code an update applies a cheapest version valid by it, and is refused exactly if there is none. */
  lemma GivenCouponExactly(
      s: State, b: Basket, product: nat, user: nat, coupons: Option<seq<Option<string>>>, m: Moment)
    requires AmountsFit(s) && IsRowOrder(s, m.rows) && LatestVersion(s.prices, product).Some?
    requires CodeGiven(coupons).Some?
    ensures var pv := LatestVersion(s.prices, product).value;
            var q := ByCode(CodeGiven(coupons).value);
            var r := ApplicableCoupon(s, b, product, user, coupons, m);
            && (r.Ok? <==> exists v: nat :: IsValid(s, q, product, user, m.now, v))
            && (r.Ok? ==> r.value.Some? && IsCheapestValid(s, q, product, user, m.now, pv, r.value))
  {
    BestForProductExactly(s, ByCode(CodeGiven(coupons).value), product, user, m);
  }

  /**
   * Without coupons in the request, an update keeps the latest version of the basket's coupon while
   * that is valid. Otherwise it applies a cheapest automatic one, or none if there is none.
   */
  lemma OwnCouponExactly(
      s: State, b: Basket, product: nat, user: nat, coupons: Option<seq<Option<string>>>, m: Moment)
    requires AmountsFit(s) && IsRowOrder(s, m.rows) && LatestVersion(s.prices, product).Some?
    requires CodeGiven(coupons).None?
    ensures var pv := LatestVersion(s.prices, product).value;
            var r := ApplicableCoupon(s, b, product, user, coupons, m);
            if coupons.None? && IsStillValid(s, b, product, user, m.now) then
              r == Ok(LatestCouponVersion(s.book.versions, b.coupons[0]))
            else
              r.Ok? && IsCheapestValid(s, AUTO_COUPON, product, user, m.now, pv, r.value)
  {
    ValidVersionsSpec(s, ANY_COUPON, product, user, m.now, m.rows);
    assert KeptVersion(s, b, product, user, m).Some? <==> IsStillValid(s, b, product, user, m.now);
    BestForProductExactly(s, AUTO_COUPON, product, user, m);
  }

  /** The coupon is that of the version that applies to the product, or none. */
  ghost predicate IsCouponApplied(
      s: State, b: Basket, product: nat, user: nat, req: Request, m: Moment, coupon: Option<nat>)
  {
    var version := ApplicableCoupon(s, b, product, user, req.coupons, m);
    && version.Ok?
    && match version.value
       case None => coupon == None
       case Some(v) => v < |s.book.versions| && coupon == Some(s.book.versions[v].coupon)
  }

  lemma PlannedCoupon(cat: Catalogue, s: State, user: nat, req: Request, m: Moment)
    requires cat.Valid() && IsWellFormed(req) && req.items != Some([])
    requires IsRowOrder(s, m.rows) && PlanChange(cat, s, user, req, m).Ok?
    ensures var b, coupon := s.BasketOf(user), PlanChange(cat, s, user, req, m).value.coupon;
            match AskedProduct(b, req)
            case None => coupon == None
            case Some(product) => IsCouponApplied(s, b, product, user, req, m, coupon)
  {
    var b := s.BasketOf(user);
    PlannedItem(cat, s, user, req, m);
    var asked := AskedProduct(b, req);
    if asked.Some? {
      var version := ApplicableCoupon(s, b, asked.value, user, req.coupons, m);
      if version.Ok? && version.value.Some? {
        ApplicableCouponStaysValid(s, b, asked.value, user, req.coupons, m);
      }
    }
  }

  /** An accepted update leaves the coupon of the version that applies to its item, or none. */
  lemma UpdateLeavesCoupon(cat: Catalogue, s: State, user: nat, req: Request, m: Moment)
    requires cat.Valid() && BasketFits(cat, s.BasketOf(user)) && req.items != Some([])
    requires IsRowOrder(s, m.rows) && NextBasket(cat, s, user, req, m).Ok?
    ensures var b, after := s.BasketOf(user), NextBasket(cat, s, user, req, m).value;
            && (after.items == [] ==> after.coupons == [])
            && (after.items != [] ==>
                  exists coupon: Option<nat> ::
                    IsCouponApplied(s, b, after.items[0].product, user, req, m, coupon)
                    && after.coupons == if coupon.Some? then [coupon.value] else [])
  {
    var b, after := s.BasketOf(user), NextBasket(cat, s, user, req, m).value;
    var change := PlanChange(cat, s, user, req, m).value;
    PlannedChange(cat, s, user, req, m);
    PlannedCoupon(cat, s, user, req, m);
    ChangedBasketHolds(cat, b, change, m.now, s.EnrolledRuns(user));
    if after.items != [] {
      assert IsCouponApplied(s, b, after.items[0].product, user, req, m, change.coupon);
    }
  }

  // ----------------------------------------------------------------------------------------
  // Which updates are accepted
  // ----------------------------------------------------------------------------------------

  /** The product may be put into a basket. */
  predicate IsOffered(cat: Catalogue, product: nat, now: int)
    requires cat.Valid()
  {
    && product < |cat.products| && cat.products[product].active
    && !cat.IsExternal(cat.products[product].content)
    && (cat.products[product].content.RunContent? ==> !cat.runs[cat.products[product].content.run].IsPast(now))
  }

  /** The items of a request name a product on offer, and runs that may be selected for it. */
  ghost predicate ItemsAccepted(cat: Catalogue, req: Request, now: int, enrolled: set<nat>)
    requires cat.Valid() && IsWellFormed(req)
  {
    req.items.Some? && req.items.value != [] ==>
      var item := req.items.value[0];
      && IsOffered(cat, item.product.value, now)
      && None !in item.runIds && RunIds(item.runIds) !! enrolled
      && RunIds(item.runIds) <= cat.ProductRuns(cat.products[item.product.value].content)
      && CoursesDiffer(cat, RunIds(item.runIds))
  }

  /** The product that will be on the basket has a price, and a given code finds a valid version for it. */
  ghost predicate CouponAccepted(s: State, b: Basket, user: nat, req: Request, now: int) {
    AskedProduct(b, req).Some? ==>
      var product := AskedProduct(b, req).value;
      && LatestVersion(s.prices, product).Some?
      && (CodeGiven(req.coupons).Some? ==>
            exists v: nat :: IsValid(s, ByCode(CodeGiven(req.coupons).value), product, user, now, v))
  }

  lemma ItemPlannedExactly(cat: Catalogue, s: State, user: nat, req: Request, m: Moment)
    requires cat.Valid() && IsWellFormed(req) && req.items != Some([])
    ensures PlanItem(cat, s, user, req, m).Ok? <==> ItemsAccepted(cat, req, m.now, s.EnrolledRuns(user))
    ensures PlanItem(cat, s, user, req, m).Ok? ==>
              var plan := PlanItem(cat, s, user, req, m).value;
              AskedProduct(s.BasketOf(user), req)
              == if plan.product.Some? then plan.product else ExistingProduct(s.BasketOf(user))
  {
    if req.items.Some? {
      var item := req.items.value[0];
      var product := item.product.value;
      assert FetchProduct(cat, product, m.now).Ok? <==> IsOffered(cat, product, m.now);
      if IsOffered(cat, product, m.now) {
        CheckRunIdsExactly(cat, cat.products[product].content, item.runIds, s.EnrolledRuns(user));
      }
    }
  }

  /** The request asks for something: at most one item, with a product, and at most one coupon, with a code. */
  ghost predicate AsksForOneThing(req: Request) {
    && (req.items.Some? || req.coupons.Some? || req.consents)
    && (req.items.Some? ==> |req.items.value| <= 1 && forall item :: item in req.items.value ==> item.product.Some?)
    && (req.coupons.Some? ==> |req.coupons.value| <= 1 && forall code :: code in req.coupons.value ==> code.Some?)
  }

  lemma WellFormedExactly(req: Request)
    ensures AsksForOneThing(req) <==> IsWellFormed(req)
  {
    if AsksForOneThing(req) {
      assert req.items.Some? && req.items.value != [] ==> req.items.value[0] in req.items.value;
      assert req.coupons.Some? && req.coupons.value != [] ==> req.coupons.value[0] in req.coupons.value;
    }
  }

  /** Exactly which updates are accepted. */
  lemma UpdateAcceptedExactly(cat: Catalogue, s: State, user: nat, req: Request, m: Moment)
    requires cat.Valid() && BasketFits(cat, s.BasketOf(user)) && AmountsFit(s) && IsRowOrder(s, m.rows)
    ensures AsksForOneThing(req) <==> IsWellFormed(req)
    ensures NextBasket(cat, s, user, req, m).Ok? <==>
              && AsksForOneThing(req)
              && (req.items != Some([]) ==>
                    ItemsAccepted(cat, req, m.now, s.EnrolledRuns(user))
                    && CouponAccepted(s, s.BasketOf(user), user, req, m.now))
    ensures req.items == Some([]) && AsksForOneThing(req) ==> NextBasket(cat, s, user, req, m) == Ok(EMPTY_BASKET)
  {
    var b := s.BasketOf(user);
    WellFormedExactly(req);
    if IsWellFormed(req) && req.items != Some([]) {
      ItemPlannedExactly(cat, s, user, req, m);
      var asked := AskedProduct(b, req);
      if asked.Some? && LatestVersion(s.prices, asked.value).Some? {
        if CodeGiven(req.coupons).Some? {
          GivenCouponExactly(s, b, asked.value, user, req.coupons, m);
        } else {
          OwnCouponExactly(s, b, asked.value, user, req.coupons, m);
        }
      }
      PlanIsAccepted(cat, s, user, req, m);
    }
  }

  /** A plan is made exactly if item and coupon are accepted, and it can always be carried out. */
  lemma PlanIsAccepted(cat: Catalogue, s: State, user: nat, req: Request, m: Moment)
    requires cat.Valid() && BasketFits(cat, s.BasketOf(user)) && IsWellFormed(req) && req.items != Some([])
    ensures var b := s.BasketOf(user);
            && (NextBasket(cat, s, user, req, m).Ok? <==> PlanChange(cat, s, user, req, m).Ok?)
            && (PlanItem(cat, s, user, req, m).Ok? ==>
                  var plan := PlanItem(cat, s, user, req, m).value;
                  var product := if plan.product.Some? then plan.product else ExistingProduct(b);
                  (PlanChange(cat, s, user, req, m).Ok? <==>
                     product.None? || ApplicableCoupon(s, b, product.value, user, req.coupons, m).Ok?))
            && (PlanItem(cat, s, user, req, m).Err? ==> PlanChange(cat, s, user, req, m).Err?)
  {
    if PlanChange(cat, s, user, req, m).Ok? {
      PlannedChange(cat, s, user, req, m);
    }
  }

  // ----------------------------------------------------------------------------------------
  // Validation for checkout
  // ----------------------------------------------------------------------------------------

  /**
   * Coupon validation: nothing is validated without a coupon; with one it fails exactly if no version
   * is valid by the coupon's code, and otherwise gives one of greatest amount, which applies.
   */
  lemma CheckCouponExactly(s: State, b: Basket, product: nat, user: nat, m: Moment)
    requires |b.coupons| <= 1 && IsRowOrder(s, m.rows)
    requires b.coupons != [] ==> b.coupons[0] < |s.book.coupons|
    ensures var r := CheckCoupon(s, b, product, user, m);
            if b.coupons == [] then r == Ok(None)
            else
              var q := ByCode(s.book.coupons[b.coupons[0]].code);
              && (r.Ok? <==> exists v: nat :: IsValid(s, q, product, user, m.now, v))
              && (r.Ok? ==>
                    && r.value.Some? && IsValid(s, q, product, user, m.now, r.value.value)
                    && Applies(s.book, r.value.value, product)
                    && forall v: nat :: IsValid(s, q, product, user, m.now, v) ==>
                         AmountOf(s.book, r.value.value) >= AmountOf(s.book, v))
  {
    if b.coupons != [] {
      var q := ByCode(s.book.coupons[b.coupons[0]].code);
      var vs := ValidVersions(s, q, product, user, m.now, m.rows);
      ValidVersionsSpec(s, q, product, user, m.now, m.rows);
      if vs == [] {
        forall v: nat ensures !IsValid(s, q, product, user, m.now, v) {
          assert v !in vs;
        }
      } else {
        assert vs[0] in vs;
        ValidVersionApplies(s, q, product, user, m.now, vs[0]);
        forall v: nat | IsValid(s, q, product, user, m.now, v)
          ensures AmountOf(s.book, vs[0]) >= AmountOf(s.book, v)
        {
          assert v in vs;
          var j :| 0 <= j < |vs| && vs[j] == v;
        }
      }
    }
  }

  /** The product of the basket's item can be sold. */
  predicate IsForSale(cat: Catalogue, product: nat)
    requires cat.Valid()
  {
    product < |cat.products| && cat.products[product].active && cat.IsLive(cat.products[product].content)
  }

  /** One unexpired run, not enrolled in, for each course to cover. */
  ghost predicate SelectionReady(cat: Catalogue, content: Content, runs: set<nat>, now: int, enrolled: set<nat>)
    requires cat.Valid() && cat.HasContent(content) && forall r :: r in runs ==> r < |cat.runs|
  {
    && runs != {} && OneRunPerCourse(cat, runs, cat.CheckoutCourses(content))
    && forall r :: r in runs ==> cat.runs[r].IsUnexpired(now) && r !in enrolled
  }

  lemma SelectionAcceptedExactly(cat: Catalogue, content: Content, runs: set<nat>, now: int, enrolled: set<nat>)
    requires cat.Valid() && cat.HasContent(content) && SelectionFits(cat, content, runs)
    ensures CheckSelection(cat, content, runs, now, enrolled).Ok? <==> SelectionReady(cat, content, runs, now, enrolled)
    ensures CheckSelection(cat, content, runs, now, enrolled).Ok? ==>
              CheckSelection(cat, content, runs, now, enrolled).value == runs
  {
    CheckSelectionExact(cat, content, runs, now, enrolled);
  }

  /** What else validation asks for: the coupon, a price, a required code, and the consents. */
  ghost predicate TermsReady(s: State, b: Basket, product: nat, user: nat, m: Moment) {
    var pv := LatestVersion(s.prices, product);
    && CheckCoupon(s, b, product, user, m).Ok? && pv.Some? && m.signed
    && (s.prices[pv.value].requiresCode ==> CheckCoupon(s, b, product, user, m).value.Some?)
  }

  lemma ValidateBasketChecks(cat: Catalogue, s: State, user: nat, m: Moment)
    requires cat.Valid() && |s.BasketOf(user).items| == 1 && s.BasketOf(user).items[0].product < |cat.products|
    requires forall r :: r in s.BasketOf(user).runs ==> r < |cat.runs|
    ensures var b := s.BasketOf(user);
            var product := b.items[0].product;
            var checked := CheckSelection(cat, cat.products[product].content, b.runs, m.now, s.EnrolledRuns(user));
            var r := ValidateBasket(cat, s, user, m);
            && (r.Ok? <==> IsForSale(cat, product) && checked.Ok? && TermsReady(s, b, product, user, m))
            && (r.Ok? ==>
                  r.value == ValidatedBasket(user, b.items[0], LatestVersion(s.prices, product).value,
                                             CheckCoupon(s, b, product, user, m).value, checked.value))
  {
  }

  /**
   * Exactly when a basket that fits is validated: it has an item whose product is active, live and
   * priced, its selection is ready, its coupon validates, a required code is there, and every consent
   * is signed. The validated basket then holds the item, the product's latest version, the coupon
   * version found, and the selection.
   */
  lemma ValidateBasketExactly(cat: Catalogue, s: State, user: nat, m: Moment)
    requires cat.Valid() && BasketFits(cat, s.BasketOf(user))
    ensures var b := s.BasketOf(user);
            var r := ValidateBasket(cat, s, user, m);
            && (r.Ok? <==>
                  && b.items != [] && IsForSale(cat, b.items[0].product)
                  && var product := b.items[0].product;
                  && SelectionReady(cat, cat.products[product].content, b.runs, m.now, s.EnrolledRuns(user))
                  && TermsReady(s, b, product, user, m))
            && (r.Ok? ==>
                  var product := b.items[0].product;
                  r.value == ValidatedBasket(user, b.items[0], LatestVersion(s.prices, product).value,
                                             CheckCoupon(s, b, product, user, m).value, b.runs))
  {
    var b := s.BasketOf(user);
    if b.items != [] {
      ValidateBasketChecks(cat, s, user, m);
      var content := cat.products[b.items[0].product].content;
      SelectionAcceptedExactly(cat, content, b.runs, m.now, s.EnrolledRuns(user));
    }
  }
}
