/**
 * Basket updates (BasketSerializer.update) and the validation of a basket for checkout
 * (validate_basket_for_checkout), with the basket invariant that connects them.
 */
module Baskets {
  import opened Prelude
  import opened CourseCatalogue
  import opened Records
  import opened Coupons

  /** What one request sees: the time, the row order of the version table, and whether every consent is signed. */
  datatype Moment = Moment(now: int, rows: seq<nat>, signed: bool)

  datatype ItemRequest = ItemRequest(product: Option<nat>, programRun: Option<nat>, runIds: set<Option<nat>>)

  /** A request body; a coupon without a code is None. */
  datatype Request = Request(
    items: Option<seq<ItemRequest>>,
    coupons: Option<seq<Option<string>>>,
    consents: bool)

  datatype Rejection =
    | InvalidRequest | InvalidProduct | ProductUnavailable | RunMissing | RunEnrolled | RunsInvalid
    | RunsShareCourse | CouponInvalid | NoVersion | CorruptBasket
    | NoItem | ManyItems | NotForSale | BadSelection(reason: SelectionError) | ManyCoupons
    | CodeRequired | ConsentMissing | UnknownOrder | CorruptOrder | CompletionStopped

  // ----------------------------------------------------------------------------------------
  // Checking the request
  // ----------------------------------------------------------------------------------------

  /** validate_items and _validate_coupons. */
  predicate IsWellFormed(req: Request) {
    && (req.items.Some? && req.items.value != [] ==> |req.items.value| == 1 && req.items.value[0].product.Some?)
    && (req.coupons.Some? && req.coupons.value != [] ==> |req.coupons.value| == 1 && req.coupons.value[0].Some?)
    && (req.items.Some? || req.coupons.Some? || req.consents)
  }

  /** _fetch_and_validate_product, from a numeric product id. */
  function FetchProduct(cat: Catalogue, product: nat, now: int): Result<nat, Rejection>
    requires cat.Valid()
  {
    if product >= |cat.products| || !cat.products[product].active then Err(InvalidProduct)
    else
      var content := cat.products[product].content;
      if cat.IsExternal(content) then Err(ProductUnavailable)
      else if content.RunContent? && cat.runs[content.run].IsPast(now) then Err(ProductUnavailable)
      else Ok(product)
  }

  /** _validate_runs: returns the ids when they may be selected for the product. */
  function CheckRunIds(cat: Catalogue, content: Content, runIds: set<Option<nat>>, enrolled: set<nat>)
    : Result<set<nat>, Rejection>
    requires cat.Valid()
  {
    if None in runIds then Err(RunMissing)
    else
      var ids := set id | id in runIds :: id.value;
      var known := ids * cat.ProductRuns(content);
      if ids * enrolled != {} then Err(RunEnrolled)
      else if |known| < |ids| then Err(RunsInvalid)
      else if |cat.CoursesOf(known)| < |ids| then Err(RunsShareCourse)
      else Ok(ids)
  }

  function BestForProduct(s: State, q: Query, product: nat, user: nat, m: Moment): Option<nat> {
    match LatestVersion(s.prices, product)
    case None => None
    case Some(pv) =>
      BestCoupon(ValidVersions(s, q, product, user, m.now, m.rows), s.prices[pv].price,
                 VersionPrice(s.book, s.prices[pv]))
  }

  /** The latest version of the coupon already on the basket, if it is still valid. */
  function KeptVersion(s: State, b: Basket, product: nat, user: nat, m: Moment): Option<nat> {
    var kept := if b.coupons == [] then None else LatestCouponVersion(s.book.versions, b.coupons[0]);
    if kept.Some? && kept.value in ValidVersions(s, ANY_COUPON, product, user, m.now, m.rows) then kept else None
  }

  /** _get_applicable_coupon_version: the version to put on the basket, if any. */
  function ApplicableCoupon(
      s: State, b: Basket, product: nat, user: nat, coupons: Option<seq<Option<string>>>, m: Moment)
    : Result<Option<nat>, Rejection>
  {
    if LatestVersion(s.prices, product).None? then Err(NoVersion)
    else match coupons
      case Some(codes) =>
        if codes == [] then Ok(BestForProduct(s, AUTO_COUPON, product, user, m))
        else
          var code := if codes[0].Some? then codes[0].value else "";
          var best := BestForProduct(s, ByCode(code), product, user, m);
          if best.None? then Err(CouponInvalid) else Ok(best)
      case None =>
        var kept := KeptVersion(s, b, product, user, m);
        Ok(if kept.Some? then kept else BestForProduct(s, AUTO_COUPON, product, user, m))
  }

  // ----------------------------------------------------------------------------------------
  // Writing the basket
  // ----------------------------------------------------------------------------------------

  /** The changes _update_basket_data makes: None leaves a part as it is, except that no coupon clears it. */
  datatype Change = Change(
    product: Option<nat>,
    runs: Option<set<nat>>,
    programRun: Option<nat>,
    setProgramRun: bool,
    coupon: Option<nat>)

  /** update_or_create of the basket's item: quantity is always reset to one. */
  function UpsertItem(items: seq<Item>, change: Change): Result<seq<Item>, Rejection> {
    if change.product.None? && !change.setProgramRun then Ok(items)
    else if |items| > 1 || (items == [] && change.product.None?) then Err(CorruptBasket)
    else
      var programRun :=
        if change.setProgramRun then change.programRun else if items == [] then None else items[0].programRun;
      var product := if change.product.Some? then change.product.value else items[0].product;
      Ok([Item(product, 1, programRun)])
  }

  /** The runs after a selection change: an empty selection is filled in automatically. */
  function FillRuns(cat: Catalogue, items: seq<Item>, selected: set<nat>, now: int, enrolled: set<nat>): set<nat> {
    if items != [] && selected == {} && items[0].product < |cat.products| then
      AutoselectedRuns(cat, cat.products[items[0].product].content, now, enrolled)
    else selected
  }

  function ChangedBasket(cat: Catalogue, b: Basket, change: Change, now: int, enrolled: set<nat>)
    : Result<Basket, Rejection>
  {
    var items :- UpsertItem(b.items, change);
    var selected := if change.runs.Some? then change.runs.value else b.runs;
    if change.coupon.Some? && |b.coupons| > 1 then Err(CorruptBasket)
    else
      Ok(Basket(items, FillRuns(cat, items, selected, now, enrolled),
                if change.coupon.Some? then [change.coupon.value] else []))
  }

  /** The change of item, runs and program run that a request asks for. */
  function PlanItem(cat: Catalogue, s: State, user: nat, req: Request, m: Moment): Result<Change, Rejection>
    requires cat.Valid() && IsWellFormed(req) && req.items != Some([])
  {
    var b := s.BasketOf(user);
    match req.items
    case None => Ok(Change(None, None, None, false, None))
    case Some(items) =>
      var product :- FetchProduct(cat, items[0].product.value, m.now);
      var ids :- CheckRunIds(cat, cat.products[product].content, items[0].runIds, s.EnrolledRuns(user));
      var oldProgramRun := if b.items == [] then None else b.items[0].programRun;
      Ok(Change(if ExistingProduct(b) == Some(product) then None else Some(product),
                if ids == b.runs then None else Some(ids),
                items[0].programRun, items[0].programRun != oldProgramRun, None))
  }

  function ExistingProduct(b: Basket): Option<nat> {
    if b.items == [] then None else Some(b.items[0].product)
  }

  /** The basket change a request asks for, with the coupon given as a coupon id. */
  function PlanChange(cat: Catalogue, s: State, user: nat, req: Request, m: Moment): Result<Change, Rejection>
    requires cat.Valid() && IsWellFormed(req) && req.items != Some([])
  {
    var b := s.BasketOf(user);
    var plan :- PlanItem(cat, s, user, req, m);
    var product := if plan.product.Some? then plan.product else ExistingProduct(b);
    if product.None? then Ok(plan)
    else
      var version :- ApplicableCoupon(s, b, product.value, user, req.coupons, m);
      Ok(plan.(coupon := if version.Some? && version.value < |s.book.versions|
                         then Some(s.book.versions[version.value].coupon) else None))
  }

  /** The basket after an update, or why the update is refused. */
  function NextBasket(cat: Catalogue, s: State, user: nat, req: Request, m: Moment): Result<Basket, Rejection>
    requires cat.Valid()
  {
    if !IsWellFormed(req) then Err(InvalidRequest)
    else if req.items == Some([]) then Ok(EMPTY_BASKET)
    else
      var change :- PlanChange(cat, s, user, req, m);
      ChangedBasket(cat, s.BasketOf(user), change, m.now, s.EnrolledRuns(user))
  }

  // ----------------------------------------------------------------------------------------
  // Validation for checkout
  // ----------------------------------------------------------------------------------------

  datatype ValidatedBasket = ValidatedBasket(
    user: nat,
    item: Item,
    version: nat,
    coupon: Option<nat>,
    runs: set<nat>)

  /** _validate_coupon_selection. */
  function CheckCoupon(s: State, b: Basket, product: nat, user: nat, m: Moment): Result<Option<nat>, Rejection> {
    if |b.coupons| > 1 then Err(ManyCoupons)
    else if b.coupons == [] then Ok(None)
    else if b.coupons[0] >= |s.book.coupons| then Err(CouponInvalid)
    else
      var code := s.book.coupons[b.coupons[0]].code;
      var first := FirstOrNone(ValidVersions(s, ByCode(code), product, user, m.now, m.rows));
      if first.None? then Err(CouponInvalid) else Ok(first)
  }

  function ValidateBasket(cat: Catalogue, s: State, user: nat, m: Moment): Result<ValidatedBasket, Rejection>
    requires cat.Valid()
  {
    var b := s.BasketOf(user);
    if b.items == [] then Err(NoItem)
    else if |b.items| > 1 || b.items[0].product >= |cat.products| then Err(ManyItems)
    else if exists r :: r in b.runs && r >= |cat.runs| then Err(CorruptBasket)
    else
      var item := b.items[0];
      var product := cat.products[item.product];
      if !product.active || !cat.IsLive(product.content) then Err(NotForSale)
      else
        match CheckSelection(cat, product.content, b.runs, m.now, s.EnrolledRuns(user))
        case Err(reason) => Err(BadSelection(reason))
        case Ok(runs) =>
          var coupon :- CheckCoupon(s, b, item.product, user, m);
          match LatestVersion(s.prices, item.product)
          case None => Err(NoVersion)
          case Some(version) =>
            if s.prices[version].requiresCode && coupon.None? then Err(CodeRequired)
            else if !m.signed then Err(ConsentMissing)
            else Ok(ValidatedBasket(user, item, version, coupon, runs))
  }

  // ----------------------------------------------------------------------------------------
  // The basket invariant
  // ----------------------------------------------------------------------------------------

  /** At most one item of quantity one; its selection fits the product; nothing without an item. */
  predicate BasketFits(cat: Catalogue, b: Basket)
    requires cat.Valid()
  {
    && |b.items| <= 1
    && |b.coupons| <= 1
    && (b.items == [] ==> b.runs == {} && b.coupons == [])
    && (b.items != [] ==>
          && b.items[0].product < |cat.products|
          && b.items[0].quantity == 1
          && SelectionFits(cat, cat.products[b.items[0].product].content, b.runs))
  }

  /** If there are as many courses as runs, no two runs share a course. */
  lemma {:induction false} FullImageIsInjective(cat: Catalogue, runs: set<nat>)
    requires forall r :: r in runs ==> r < |cat.runs|
    ensures |cat.CoursesOf(runs)| <= |runs|
    ensures |cat.CoursesOf(runs)| == |runs| ==>
              forall r, q :: r in runs && q in runs && cat.runs[r].course == cat.runs[q].course ==> r == q
    decreases |runs|
  {
    if runs == {} {
      assert cat.CoursesOf(runs) == {};
    } else {
      forall r | r in runs
        ensures |cat.CoursesOf(runs)| <= |runs|
        ensures |cat.CoursesOf(runs)| == |runs| ==>
                  forall q :: q in runs && cat.runs[r].course == cat.runs[q].course ==> r == q
      {
        FullImageIsInjective(cat, runs - {r});
        assert cat.CoursesOf(runs) == cat.CoursesOf(runs - {r}) + {cat.runs[r].course};
        if q :| q in runs && cat.runs[r].course == cat.runs[q].course && r != q {
          assert cat.runs[r].course in cat.CoursesOf(runs - {r});
          assert cat.CoursesOf(runs) == cat.CoursesOf(runs - {r});
        }
      }
      var r :| r in runs;
      assert |cat.CoursesOf(runs)| <= |runs|;
    }
  }

  lemma CheckedRunsFit(cat: Catalogue, content: Content, runIds: set<Option<nat>>, enrolled: set<nat>)
    requires cat.Valid() && CheckRunIds(cat, content, runIds, enrolled).Ok?
    ensures SelectionFits(cat, content, CheckRunIds(cat, content, runIds, enrolled).value)
  {
    var ids := set id | id in runIds :: id.value;
    var known := ids * cat.ProductRuns(content);
    SubsetSameSize(known, ids);
    FullImageIsInjective(cat, known);
  }

  lemma AutoselectedRunsFit(cat: Catalogue, content: Content, now: int, enrolled: set<nat>)
    requires cat.Valid() && cat.HasContent(content)
    ensures SelectionFits(cat, content, AutoselectedRuns(cat, content, now, enrolled))
  {
    if content.ProgramContent? {
      AutoselectionPassesCheckout(cat, content.program, now, enrolled);
    }
  }

  /** Every accepted update leaves a basket that fits. */
  lemma NextBasketFits(cat: Catalogue, s: State, user: nat, req: Request, m: Moment)
    requires cat.Valid() && BasketFits(cat, s.BasketOf(user))
    requires NextBasket(cat, s, user, req, m).Ok?
    ensures BasketFits(cat, NextBasket(cat, s, user, req, m).value)
  {
    if req.items != Some([]) {
      var b := s.BasketOf(user);
      var change := PlanChange(cat, s, user, req, m).value;
      var items := UpsertItem(b.items, change).value;
      var enrolled := s.EnrolledRuns(user);
      if req.items.Some? {
        var request := req.items.value[0];
        var product := FetchProduct(cat, request.product.value, m.now).value;
        CheckedRunsFit(cat, cat.products[product].content, request.runIds, enrolled);
      }
      if items != [] {
        AutoselectedRunsFit(cat, cat.products[items[0].product].content, m.now, enrolled);
      }
    }
  }

  /** What validation has checked of the item and the runs. */
  lemma ValidatedSelection(cat: Catalogue, s: State, user: nat, m: Moment)
    requires cat.Valid() && ValidateBasket(cat, s, user, m).Ok?
    ensures var vb := ValidateBasket(cat, s, user, m).value;
            var b := s.BasketOf(user);
            && b.items == [vb.item] && vb.item.product < |cat.products|
            && (forall r :: r in b.runs ==> r < |cat.runs|) && vb.runs == b.runs
            && CheckSelection(cat, cat.products[vb.item.product].content, b.runs, m.now, s.EnrolledRuns(user))
               == Ok(b.runs)
  {
    var b := s.BasketOf(user);
    assert b.items == [b.items[0]];
    var content := cat.products[b.items[0].product].content;
    assert CheckSelection(cat, content, b.runs, m.now, s.EnrolledRuns(user)).Ok?;
  }

  /**
   * A basket that fits and passes validation has exactly one run for each course to cover: each
   * live course of a program, or the one run that a course-run product sells.
   */
  lemma ValidatedRunsCoverCourses(cat: Catalogue, s: State, user: nat, m: Moment)
    requires cat.Valid() && BasketFits(cat, s.BasketOf(user))
    requires ValidateBasket(cat, s, user, m).Ok?
    ensures var vb := ValidateBasket(cat, s, user, m).value;
            && s.BasketOf(user).items == [vb.item]
            && vb.runs == s.BasketOf(user).runs
            && vb.item.product < |cat.products|
            && var content := cat.products[vb.item.product].content;
            && (forall r :: r in vb.runs ==> r < |cat.runs|)
            && (content.ProgramContent? ==>
                  OneRunPerCourse(cat, vb.runs, set c | c in cat.LiveCourses(content.program)))
            && (content.RunContent? ==> vb.runs == {content.run})
  {
    ValidatedSelection(cat, s, user, m);
    var b := s.BasketOf(user);
    CheckSelectionExact(cat, cat.products[b.items[0].product].content, b.runs, m.now, s.EnrolledRuns(user));
  }

  // ----------------------------------------------------------------------------------------
  // The coupon left by an update
  // ----------------------------------------------------------------------------------------

  lemma BestForProductIsValid(s: State, q: Query, product: nat, user: nat, m: Moment)
    requires IsRowOrder(s, m.rows) && BestForProduct(s, q, product, user, m).Some?
    ensures IsValid(s, q, product, user, m.now, BestForProduct(s, q, product, user, m).value)
  {
    ValidVersionsSpec(s, q, product, user, m.now, m.rows);
  }

  /** The request gave a code, or left the coupon that is on the basket alone and it is still valid. */
  predicate IsGivenOrKept(
      s: State, b: Basket, product: nat, user: nat, coupons: Option<seq<Option<string>>>, m: Moment)
  {
    match coupons
    case Some(codes) => codes != []
    case None => KeptVersion(s, b, product, user, m).Some?
  }

  /**
   * The version an update applies is valid under its own coupon's code: always if it was given by
   * code or kept, and if it was applied automatically, provided its coupon's versions agree on that.
   */
  lemma ApplicableCouponStaysValid(
      s: State, b: Basket, product: nat, user: nat, coupons: Option<seq<Option<string>>>, m: Moment)
    requires IsRowOrder(s, m.rows)
    requires ApplicableCoupon(s, b, product, user, coupons, m).Ok?
    requires ApplicableCoupon(s, b, product, user, coupons, m).value.Some?
    ensures var v := ApplicableCoupon(s, b, product, user, coupons, m).value.value;
            && v < |s.book.versions| && s.book.versions[v].coupon < |s.book.coupons|
            && (IsGivenOrKept(s, b, product, user, coupons, m) || AgreesOnAutomatic(s.book, s.book.versions[v].coupon)
                ==> IsValid(s, ByCode(CodeOf(s, v)), product, user, m.now, v))
  {
    var v := ApplicableCoupon(s, b, product, user, coupons, m).value.value;
    if coupons.Some? && coupons.value != [] {
      var code := if coupons.value[0].Some? then coupons.value[0].value else "";
      BestForProductIsValid(s, ByCode(code), product, user, m);
      ValidUnderOwnCode(s, Some(code), product, user, m.now, v);
    } else if coupons.None? && KeptVersion(s, b, product, user, m).Some? {
      ValidVersionsSpec(s, ANY_COUPON, product, user, m.now, m.rows);
      ValidUnderOwnCode(s, None, product, user, m.now, v);
    } else {
      BestForProductIsValid(s, AUTO_COUPON, product, user, m);
      if AgreesOnAutomatic(s.book, s.book.versions[v].coupon) {
        AutoValidUnderOwnCode(s, product, user, m.now, v);
      }
    }
  }

  /** A planned coupon comes from the applicable version for the product that will be on the basket. */
  lemma PlannedCouponIsApplicable(cat: Catalogue, s: State, user: nat, req: Request, m: Moment)
    requires cat.Valid() && IsWellFormed(req) && req.items != Some([])
    requires PlanChange(cat, s, user, req, m).Ok? && PlanChange(cat, s, user, req, m).value.coupon.Some?
    ensures var plan := PlanChange(cat, s, user, req, m).value;
            var product := if plan.product.Some? then plan.product else ExistingProduct(s.BasketOf(user));
            && product.Some?
            && var version := ApplicableCoupon(s, s.BasketOf(user), product.value, user, req.coupons, m);
            && version.Ok? && version.value.Some? && version.value.value < |s.book.versions|
            && plan.coupon == Some(s.book.versions[version.value.value].coupon)
  {
    var plan := PlanItem(cat, s, user, req, m).value;
    assert plan.coupon.None?;
  }

  /** The basket holds the product of the change, or else the one it held, and the change's coupon. */
  lemma ChangedBasketHolds(cat: Catalogue, b: Basket, change: Change, now: int, enrolled: set<nat>)
    requires |b.items| <= 1 && (b.items == [] ==> b.coupons == [])
    requires ChangedBasket(cat, b, change, now, enrolled).Ok?
    ensures var after := ChangedBasket(cat, b, change, now, enrolled).value;
            && after.coupons == (if change.coupon.Some? then [change.coupon.value] else [])
            && ExistingProduct(after) == (if change.product.Some? then change.product else ExistingProduct(b))
            && |after.items| <= 1
  {
  }

  /** The coupon on an updated basket comes from the applicable version for its product. */
  lemma UpdatedCouponIsApplicable(cat: Catalogue, s: State, user: nat, req: Request, m: Moment)
    requires cat.Valid() && BasketFits(cat, s.BasketOf(user))
    requires NextBasket(cat, s, user, req, m).Ok? && NextBasket(cat, s, user, req, m).value.coupons != []
    ensures var b := NextBasket(cat, s, user, req, m).value;
            && |b.items| == 1
            && var version := ApplicableCoupon(s, s.BasketOf(user), b.items[0].product, user, req.coupons, m);
            && version.Ok? && version.value.Some? && version.value.value < |s.book.versions|
            && b.coupons == [s.book.versions[version.value.value].coupon]
  {
    var change := PlanChange(cat, s, user, req, m).value;
    ChangedBasketHolds(cat, s.BasketOf(user), change, m.now, s.EnrolledRuns(user));
    PlannedCouponIsApplicable(cat, s, user, req, m);
  }

  /**
   * Right after an update that leaves a coupon on a product, coupon validation succeeds at the same
   * moment: always if the coupon was given by code or kept, and if it was applied automatically,
   * provided that coupon's versions agree on being automatic.
   */
  lemma UpdatedCouponPassesCheckout(cat: Catalogue, s: State, user: nat, req: Request, m: Moment)
    requires cat.Valid() && BasketFits(cat, s.BasketOf(user)) && IsRowOrder(s, m.rows)
    requires NextBasket(cat, s, user, req, m).Ok?
    ensures var b := NextBasket(cat, s, user, req, m).value;
            b.coupons != [] ==>
              (|b.items| == 1 && |b.coupons| == 1
              && (IsGivenOrKept(s, s.BasketOf(user), b.items[0].product, user, req.coupons, m)
                  || AgreesOnAutomatic(s.book, b.coupons[0]) ==>
                    CheckCoupon(s, b, b.items[0].product, user, m).Ok?
                    && CheckCoupon(s, b, b.items[0].product, user, m).value.Some?))
  {
    var b := NextBasket(cat, s, user, req, m).value;
    if b.coupons != [] {
      UpdatedCouponIsApplicable(cat, s, user, req, m);
      var product := b.items[0].product;
      ApplicableCouponStaysValid(s, s.BasketOf(user), product, user, req.coupons, m);
      var v := ApplicableCoupon(s, s.BasketOf(user), product, user, req.coupons, m).value.value;
      ValidVersionsSpec(s, ByCode(CodeOf(s, v)), product, user, m.now, m.rows);
    }
  }

  /** Validation reads nothing of the orders but the redemptions. */
  lemma SameRedemptionsSameValidation(cat: Catalogue, s: State, t: State, user: nat, m: Moment)
    requires cat.Valid()
    requires s.book == t.book && s.prices == t.prices && s.baskets == t.baskets && s.enrolled == t.enrolled
    requires forall v: nat :: Redeemers(s.orders, v) == Redeemers(t.orders, v)
    requires forall v: nat, u: nat :: UserRedeemers(s.orders, v, u) == UserRedeemers(t.orders, v, u)
    ensures ValidateBasket(cat, s, user, m) == ValidateBasket(cat, t, user, m)
    ensures forall b: Basket, product: nat :: CheckCoupon(s, b, product, user, m) == CheckCoupon(t, b, product, user, m)
  {
    forall b: Basket, product: nat ensures CheckCoupon(s, b, product, user, m) == CheckCoupon(t, b, product, user, m) {
      if |b.coupons| == 1 && b.coupons[0] < |s.book.coupons| {
        SameValidVersions(s, t, ByCode(s.book.coupons[b.coupons[0]].code), product, user, m.now, m.rows);
      }
    }
  }
}
