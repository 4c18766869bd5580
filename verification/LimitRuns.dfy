/**
 * Runs from an empty shop: one in which two paid orders of one user exceed both redemption limits of
 * the coupon version they hold, and one in which a payment is accepted and nobody is enrolled.
 */
module LimitRuns {
  import opened Prelude
  import opened Money
  import opened CourseCatalogue
  import opened Records
  import opened Coupons
  import opened Baskets
  import opened Orders
  import opened Seats
  import opened Machine

  const OPEN_RUN := CourseCatalogue.Run(0, true, None, None, None, None)

  /** Two courses with one run each, sold as products 0 and 1. */
  const TWO_RUNS := Catalogue(
    [OPEN_RUN, OPEN_RUN.(course := 1)],
    [Course(None, true, false), Course(None, true, false)],
    [],
    [Product(RunContent(0), true), Product(RunContent(1), true)])

  /** One cent off, once in all and once for each user. */
  const ONE_USE := Terms(DollarsOff, 1_000, Promo, false, None, 1, 1, None, None)

  const PRICES := [ProductVersion(0, 100, false), ProductVersion(1, 100, false)]

  const BOOK := CouponBook(
    [Coupon("C", 0, false, true)], [CouponVersion(0, ONE_USE)], {(0, 0), (0, 1)}, ["payment"])

  const NOON := Moment(0, [0], true)

  /** Completion with every enrollment written. */
  const DONE := Completed({})

  const NO_DRAWS := Draws((i: nat) => "", (i: nat) => "")

  /** Put a product with its run into the basket, with the code. */
  function Choose(p: nat): Request {
    Request(Some([ItemRequest(Some(p), None, {Some(p)})]), Some([Some("C")]), false)
  }

  function BasketWith(p: nat): Basket {
    Basket([Item(p, 1, None)], {p}, [0])
  }

  function BasketsWith(p: nat): map<nat, Basket> {
    map[0 := BasketWith(p)]
  }

  function OrderFor(p: nat, status: Status): Order {
    Order(0, status, 99, 0, [Line(p, p, 1, None, {p})], [0])
  }

  /** The shop once prices and coupon exist, with the given orders and baskets. */
  function ShopWith(orders: seq<Order>, baskets: map<nat, Basket>): State {
    State(baskets, orders, |orders|, {}, [], PRICES, BOOK, [], [])
  }

  /** None of the orders redeems the version, and none is an order for the product. */
  predicate IsBefore(p: nat, orders: seq<Order>, baskets: map<nat, Basket>) {
    && (p == 0 ==> orders == [] && baskets == map[])
    && (p == 1 ==> orders == [OrderFor(0, Created)] && baskets == BasketsWith(0))
    && p <= 1
  }

  /** The coupon version is valid for either product as long as no order redeems it. */
  lemma CodeFindsVersion(s: State, p: nat)
    requires s.book == BOOK && s.prices == PRICES && p <= 1
    requires Redeemers(s.orders, 0) == {}
    ensures ValidVersions(s, ByCode("C"), p, 0, 0, [0]) == [0]
  {
    var q := ByCode("C");
    assert UserRedeemers(s.orders, 0, 0) == {};
    assert IsProductCandidate(s, q, p, 0);
    assert IsListed(s, q, p, 0);
    assert IsValid(s, q, p, 0, 0, 0);
    var rows: seq<nat> := [0];
    var kept := Filter(rows, Validity(s, q, p, 0, 0));
    assert kept == rows;
    assert SortBy(kept, ByDecreasingAmount(s.book)) == rows;
  }

  lemma BestIsTheVersion(s: State, p: nat)
    requires s.book == BOOK && s.prices == PRICES && p <= 1
    requires Redeemers(s.orders, 0) == {}
    ensures BestForProduct(s, ByCode("C"), p, 0, NOON) == Some(0)
    ensures LatestVersion(s.prices, p) == Some(p)
  {
    CodeFindsVersion(s, p);
    assert PRICES[..1] == [ProductVersion(0, 100, false)];
    assert LatestVersion(s.prices, p) == Some(p);
  }

  lemma NothingRedeemed(orders: seq<Order>)
    requires forall k :: 0 <= k < |orders| ==> orders[k].status == Created
    ensures Redeemers(orders, 0) == {}
  {
  }

  /** A product that sells one run, when that run alone is asked for. */
  lemma OnlyRunAccepted(cat: Catalogue, run: nat)
    requires cat.Valid() && run < |cat.runs|
    ensures CheckRunIds(cat, RunContent(run), {Some(run)}, {}) == Ok({run})
  {
    var ids: set<Option<nat>> := {Some(run)};
    assert (set id | id in ids :: id.value) == {run};
    assert cat.ProductRuns(RunContent(run)) == {run};
    assert {run} * {run} == {run};
    assert cat.CoursesOf({run}) == {cat.runs[run].course};
  }

  lemma OnlyRunPassesCheckout(cat: Catalogue, run: nat, now: int)
    requires cat.Valid() && run < |cat.runs| && cat.runs[run].IsUnexpired(now)
    ensures CheckSelection(cat, RunContent(run), {run}, now, {}) == Ok({run})
  {
    assert run in {run};
    assert cat.CheckoutCourses(RunContent(run)) == cat.CoursesOf({run}) == {cat.runs[run].course};
  }

  predicate SellsRun(cat: Catalogue, p: nat, run: nat) {
    && cat.Valid() && p < |cat.products| && cat.products[p] == Product(RunContent(run), true)
    && cat.runs[run].live && cat.runs[run].IsUnexpired(0) && !cat.courses[cat.runs[run].course].external
  }

  lemma RunProductFetched(cat: Catalogue, p: nat, run: nat)
    requires SellsRun(cat, p, run)
    ensures FetchProduct(cat, p, 0) == Ok(p)
  {
  }

  /** A basket with one run passes validation if its coupon does. */
  lemma RunBasketValidates(cat: Catalogue, s: State, p: nat, run: nat, coupon: Option<nat>, v: nat)
    requires SellsRun(cat, p, run) && s.EnrolledRuns(0) == {}
    requires s.BasketOf(0).items == [Item(p, 1, None)] && s.BasketOf(0).runs == {run}
    requires CheckCoupon(s, s.BasketOf(0), p, 0, NOON) == Ok(coupon)
    requires LatestVersion(s.prices, p) == Some(v) && !s.prices[v].requiresCode
    ensures ValidateBasket(cat, s, 0, NOON) == Ok(ValidatedBasket(0, Item(p, 1, None), v, coupon, {run}))
  {
    OnlyRunPassesCheckout(cat, run, 0);
    ChecksPassed(cat, s, Item(p, 1, None), {run}, coupon, v);
  }

  /** Validation succeeds once each of its checks does. */
  lemma ChecksPassed(cat: Catalogue, s: State, item: Item, runs: set<nat>, coupon: Option<nat>, v: nat)
    requires cat.Valid() && item.product < |cat.products|
    requires s.BasketOf(0).items == [item] && s.BasketOf(0).runs == runs && forall r :: r in runs ==> r < |cat.runs|
    requires cat.products[item.product].active && cat.IsLive(cat.products[item.product].content)
    requires CheckSelection(cat, cat.products[item.product].content, runs, 0, s.EnrolledRuns(0)) == Ok(runs)
    requires CheckCoupon(s, s.BasketOf(0), item.product, 0, NOON) == Ok(coupon)
    requires LatestVersion(s.prices, item.product) == Some(v) && !s.prices[v].requiresCode
    ensures ValidateBasket(cat, s, 0, NOON) == Ok(ValidatedBasket(0, item, v, coupon, runs))
  {
  }

  /** Choosing another product than the one in the basket plans to replace item and runs. */
  lemma RunItemPlanned(cat: Catalogue, s: State, p: nat)
    requires SellsRun(cat, p, p) && s.EnrolledRuns(0) == {} && s.BasketOf(0).runs != {p}
    requires ExistingProduct(s.BasketOf(0)) != Some(p)
    requires s.BasketOf(0).items != [] ==> s.BasketOf(0).items[0].programRun.None?
    ensures PlanItem(cat, s, 0, Choose(p), NOON) == Ok(Change(Some(p), Some({p}), None, false, None))
  {
    OnlyRunAccepted(cat, p);
    RunProductFetched(cat, p, p);
  }

  lemma ItemPlanned(p: nat, orders: seq<Order>, baskets: map<nat, Basket>)
    requires IsBefore(p, orders, baskets)
    ensures PlanItem(TWO_RUNS, ShopWith(orders, baskets), 0, Choose(p), NOON)
         == Ok(Change(Some(p), Some({p}), None, false, None))
  {
    var s := ShopWith(orders, baskets);
    assert SellsRun(TWO_RUNS, p, p);
    assert s.EnrolledRuns(0) == {};
    assert p in {p} && p !in s.BasketOf(0).runs;
    RunItemPlanned(TWO_RUNS, s, p);
  }

  lemma ChangePlanned(p: nat, orders: seq<Order>, baskets: map<nat, Basket>)
    requires IsBefore(p, orders, baskets)
    ensures PlanChange(TWO_RUNS, ShopWith(orders, baskets), 0, Choose(p), NOON)
         == Ok(Change(Some(p), Some({p}), None, false, Some(0)))
  {
    var s := ShopWith(orders, baskets);
    NothingRedeemed(orders);
    BestIsTheVersion(s, p);
    ItemPlanned(p, orders, baskets);
    assert ApplicableCoupon(s, s.BasketOf(0), p, 0, Choose(p).coupons, NOON) == Ok(Some(0));
  }

  /** The request is accepted and gives the basket asked for. */
  lemma ChoiceAccepted(p: nat, orders: seq<Order>, baskets: map<nat, Basket>)
    requires IsBefore(p, orders, baskets)
    ensures NextBasket(TWO_RUNS, ShopWith(orders, baskets), 0, Choose(p), NOON) == Ok(BasketWith(p))
  {
    ChangePlanned(p, orders, baskets);
    assert p in {p};
  }

  /** That basket passes checkout with the coupon version. */
  lemma ChoiceValidates(p: nat, s: State)
    requires p <= 1 && s.BasketOf(0) == BasketWith(p) && s.enrolled == {}
    requires s.book == BOOK && s.prices == PRICES && Redeemers(s.orders, 0) == {}
    ensures ValidateBasket(TWO_RUNS, s, 0, NOON)
         == Ok(ValidatedBasket(0, Item(p, 1, None), p, Some(0), {p}))
  {
    CodeFindsVersion(s, p);
    BestIsTheVersion(s, p);
    assert s.EnrolledRuns(0) == {};
    assert CheckCoupon(s, BasketWith(p), p, 0, NOON) == Ok(Some(0));
    assert SellsRun(TWO_RUNS, p, p);
    RunBasketValidates(TWO_RUNS, s, p, p, Some(0), p);
  }

  lemma BasketMirrored(p: nat, orders: seq<Order>, baskets: map<nat, Basket>)
    requires IsBefore(p, orders, baskets)
    ensures SyncOrder(TWO_RUNS, ShopWith(orders, BasketsWith(p)), 0, NOON)
         == ShopWith(orders + [OrderFor(p, Created)], BasketsWith(p))
  {
    NothingRedeemed(orders);
    ChoiceValidates(p, ShopWith(orders, BasketsWith(p)));
    OrderMirrored(p, orders, baskets);
  }

  /** Updating the basket makes an open order with the coupon version on it. */
  lemma ChoiceMakesOrder(p: nat, orders: seq<Order>, baskets: map<nat, Basket>)
    requires IsBefore(p, orders, baskets)
    ensures Step(TWO_RUNS, ShopWith(orders, baskets), UpdateBasket(0, Choose(p), NOON))
         == ShopWith(orders + [OrderFor(p, Created)], BasketsWith(p))
  {
    var s := ShopWith(orders, baskets);
    assert s.baskets[0 := BasketWith(p)] == BasketsWith(p);
    assert SaveBasket(s, 0, BasketWith(p)) == ShopWith(orders, BasketsWith(p));
    ChoiceAccepted(p, orders, baskets);
    BasketMirrored(p, orders, baskets);
  }

  /** A checkout whose basket is already mirrored onto an order to be paid changes nothing. */
  lemma RepeatedCheckout(cat: Catalogue, s: State, m: Moment, vb: ValidatedBasket, k: nat)
    requires cat.Valid() && ValidateBasket(cat, s, 0, m) == Ok(vb) && vb.version < |s.prices|
    requires CreateOrUpdate(s, vb, 0) == Ok((s, k)) && k < |s.orders| && s.orders[k].total != 0
    ensures Step(cat, s, CheckOut(0, 0, m, DONE)) == s
  {
    assert Checkout(cat, s, 0, 0, m, DONE) == Ok(s);
    CheckoutStepIs(cat, s, 0, 0, m, DONE);
  }

  /** Checking it out leaves the order open, to be paid. */
  lemma CheckoutLeavesOrder(p: nat, orders: seq<Order>, baskets: map<nat, Basket>)
    requires IsBefore(p, orders, baskets)
    ensures var t := ShopWith(orders + [OrderFor(p, Created)], BasketsWith(p));
            Step(TWO_RUNS, t, CheckOut(0, 0, NOON, DONE)) == t
  {
    var t := ShopWith(orders + [OrderFor(p, Created)], BasketsWith(p));
    NothingRedeemed(t.orders);
    ChoiceValidates(p, t);
    OrderMirrored(p, orders, baskets);
    RepeatedCheckout(TWO_RUNS, t, NOON, ValidatedBasket(0, Item(p, 1, None), p, Some(0), {p}), p);
  }

  lemma OrderMirrored(p: nat, orders: seq<Order>, baskets: map<nat, Basket>)
    requires IsBefore(p, orders, baskets)
    ensures var saved := ShopWith(orders, BasketsWith(p));
            var vb := ValidatedBasket(0, Item(p, 1, None), p, Some(0), {p});
            var t := ShopWith(orders + [OrderFor(p, Created)], BasketsWith(p));
            && CreateOrUpdate(saved, vb, 0) == Ok((t, p))
            && CreateOrUpdate(t, vb, 0) == Ok((t, p))
  {
    var saved := ShopWith(orders, BasketsWith(p));
    var vb := ValidatedBasket(0, Item(p, 1, None), p, Some(0), {p});
    var t := ShopWith(orders + [OrderFor(p, Created)], BasketsWith(p));
    assert PriceWithCoupon(BOOK, Some(0), PRICES[p]) == 99;
    assert p == 1 ==> !Sells(PRICES, OrderFor(0, Created).lines[0], 1);
    assert OpenOrder(PRICES, orders, 0, p) == None;
    assert Sells(PRICES, OrderFor(p, Created).lines[0], p);
    assert OpenOrder(PRICES, t.orders, 0, p) == Some(p);
    assert t.orders[p := t.orders[p]] == t.orders;
  }

  const ISSUE := Issue("payment", [0, 1], ONE_USE, 1, "C", false)

  lemma CouponIssued(book: CouponBook)
    requires book == CouponBook([], [], {}, [])
    ensures CreateCoupons(book, ISSUE, NO_DRAWS) == Ok(BOOK)
  {
    assert DrawnCodes(1, "C", NO_DRAWS) == ["C"];
    assert CanInsert(book, ["C"]);
    assert NewCoupons(["C"], 0, false) == BOOK.coupons;
    assert NewVersions(0, 1, ONE_USE) == BOOK.versions;
    assert Range(0, 1) == {0};
    assert NewEligibilities(0, 1, [0, 1]) == BOOK.eligible;
    assert InsertedCodes(book, ISSUE, NO_DRAWS) == Ok(["C"]);
    assert !HasDuplicates(ISSUE.products);
    var after := CreateCoupons(book, ISSUE, NO_DRAWS).value;
    assert after.coupons == BOOK.coupons && after.versions == BOOK.versions;
    assert after.eligible == BOOK.eligible && after.payments == BOOK.payments;
  }

  // ----------------------------------------------------------------------------------------
  // The run
  // ----------------------------------------------------------------------------------------

  const PRICING: seq<Event> := [AppendPrice(PRICES[0]), AppendPrice(PRICES[1])]

  const SETUP: seq<Event> := PRICING + [Event.IssueCoupons(ISSUE, NO_DRAWS)]

  /** A basket update and a checkout for a product. */
  function Buy(p: nat): seq<Event> {
    [UpdateBasket(0, Choose(p), NOON), CheckOut(0, 0, NOON, DONE)]
  }

  const PAY: seq<Event> := [Decide(0, ACCEPT, DONE), Decide(1, ACCEPT, DONE)]

  lemma CouponStep(s: State)
    requires s.book == CouponBook([], [], {}, [])
    ensures Step(TWO_RUNS, s, Event.IssueCoupons(ISSUE, NO_DRAWS)) == s.(book := BOOK)
  {
    Machine.IssueStep(TWO_RUNS, s, ISSUE, NO_DRAWS);
    CouponIssued(s.book);
  }

  lemma PriceStep(s: State, price: ProductVersion)
    ensures Step(TWO_RUNS, s, AppendPrice(price)) == s.(prices := s.prices + [price])
  {
  }

  lemma RunPricing()
    ensures Machine.Run(TWO_RUNS, EmptyShop([]), PRICING) == EmptyShop([]).(prices := PRICES)
  {
    var s := EmptyShop([]);
    PriceStep(s, PRICES[0]);
    assert s.prices + [PRICES[0]] == [PRICES[0]] && [PRICES[0]] + [PRICES[1]] == PRICES;
    PriceStep(s.(prices := [PRICES[0]]), PRICES[1]);
    RunTwo(TWO_RUNS, s, s.(prices := [PRICES[0]]), s.(prices := PRICES), PRICING[0], PRICING[1]);
  }

  lemma RunSetup()
    ensures Machine.Run(TWO_RUNS, EmptyShop([]), SETUP) == ShopWith([], map[])
  {
    var priced := EmptyShop([]).(prices := PRICES);
    RunPricing();
    CouponStep(priced);
    RunStep(TWO_RUNS, priced, [Event.IssueCoupons(ISSUE, NO_DRAWS)]);
    RunChain(TWO_RUNS, EmptyShop([]), priced, ShopWith([], map[]), PRICING, [Event.IssueCoupons(ISSUE, NO_DRAWS)]);
  }

  lemma RunBuy(p: nat, orders: seq<Order>, baskets: map<nat, Basket>)
    requires IsBefore(p, orders, baskets)
    ensures Machine.Run(TWO_RUNS, ShopWith(orders, baskets), Buy(p))
         == ShopWith(orders + [OrderFor(p, Created)], BasketsWith(p))
  {
    var t := ShopWith(orders + [OrderFor(p, Created)], BasketsWith(p));
    ChoiceMakesOrder(p, orders, baskets);
    CheckoutLeavesOrder(p, orders, baskets);
    RunTwo(TWO_RUNS, ShopWith(orders, baskets), t, t, Buy(p)[0], Buy(p)[1]);
  }

  lemma RunPay()
    ensures var t := Machine.Run(TWO_RUNS, ShopWith([OrderFor(0, Created), OrderFor(1, Created)], BasketsWith(1)), PAY);
            t.orders == [OrderFor(0, Fulfilled), OrderFor(1, Fulfilled)] && t.book == BOOK
  {
    var s := ShopWith([OrderFor(0, Created), OrderFor(1, Created)], BasketsWith(1));
    var t := Fulfil(s, 0, DONE, false);
    assert t.orders == [OrderFor(0, Fulfilled), OrderFor(1, Created)];
    var u := Fulfil(t, 1, DONE, false);
    assert u.orders == [OrderFor(0, Fulfilled), OrderFor(1, Fulfilled)];
    RunTwo(TWO_RUNS, s, t, u, PAY[0], PAY[1]);
  }

  const ONE_OPEN := ShopWith([OrderFor(0, Created)], BasketsWith(0))
  const TWO_OPEN := ShopWith([OrderFor(0, Created), OrderFor(1, Created)], BasketsWith(1))

  lemma RunBuys()
    ensures Machine.Run(TWO_RUNS, ShopWith([], map[]), Buy(0)) == ONE_OPEN
    ensures Machine.Run(TWO_RUNS, ONE_OPEN, Buy(1)) == TWO_OPEN
  {
    RunBuy(0, [], map[]);
    RunBuy(1, [OrderFor(0, Created)], BasketsWith(0));
    assert [] + [OrderFor(0, Created)] == [OrderFor(0, Created)];
    assert [OrderFor(0, Created)] + [OrderFor(1, Created)] == [OrderFor(0, Created), OrderFor(1, Created)];
  }

  lemma BothRedeemed(orders: seq<Order>)
    requires orders == [OrderFor(0, Fulfilled), OrderFor(1, Fulfilled)]
    ensures |Redeemers(orders, 0)| == |UserRedeemers(orders, 0, 0)| == 2
  {
    assert Redeemers(orders, 0) == {0, 1} == UserRedeemers(orders, 0, 0);
  }

  function PaidTwice(): seq<Event> {
    SETUP + (Buy(0) + (Buy(1) + PAY))
  }

  /**
   * Over this run from an empty shop, one user pays for two products with a coupon that may be used
   * once in all and once by each user, and redeems it twice.
   */
  lemma PaidOrdersCanExceedLimits()
    ensures var t := Machine.Run(TWO_RUNS, EmptyShop([]), PaidTwice());
            && t.book.versions == [CouponVersion(0, ONE_USE)]
            && ONE_USE.maxRedemptions == ONE_USE.maxPerUser == 1
            && |Redeemers(t.orders, 0)| == |UserRedeemers(t.orders, 0, 0)| == 2
  {
    var paid := Machine.Run(TWO_RUNS, TWO_OPEN, PAY);
    RunSetup();
    RunBuys();
    RunPay();
    RunChain(TWO_RUNS, ONE_OPEN, TWO_OPEN, paid, Buy(1), PAY);
    RunChain(TWO_RUNS, ShopWith([], map[]), ONE_OPEN, paid, Buy(0), Buy(1) + PAY);
    RunChain(TWO_RUNS, EmptyShop([]), ShopWith([], map[]), paid, SETUP, Buy(0) + (Buy(1) + PAY));
    BothRedeemed(paid.orders);
  }

  // ----------------------------------------------------------------------------------------
  // A payment accepted without enrollment
  // ----------------------------------------------------------------------------------------

  /** One product bought and paid for, but an exception stops the completion at its start. */
  function PaidInVain(): seq<Event> {
    SETUP + (Buy(0) + [Decide(0, ACCEPT, Stopped({}))])
  }

  /** The shop with that order fulfilled. */
  const IN_VAIN := ONE_OPEN.(orders := [OrderFor(0, Fulfilled)], completions := [Completion(0, false)])

  lemma StoppedStep()
    ensures Step(TWO_RUNS, ONE_OPEN, Decide(0, ACCEPT, Stopped({}))) == IN_VAIN
  {
    assert NewEnrollments(OrderFor(0, Created), Stopped({})) == {};
    assert ONE_OPEN.orders[0 := OrderFor(0, Fulfilled)] == [OrderFor(0, Fulfilled)];
  }

  /**
   * Over this run from an empty shop the payment is accepted and the order fulfilled, but the user is
   * not enrolled, the basket is still there, and every further message about the order is refused.
   */
  lemma PaidOrderCanEnrollNobody(decision: string, ending: Ending)
    ensures var t := Machine.Run(TWO_RUNS, EmptyShop([]), PaidInVain());
            && t.orders == [OrderFor(0, Fulfilled)] && OrderFor(0, Fulfilled).lines[0].runs == {0}
            && t.enrolled == {} && t.BasketOf(0) == BasketWith(0)
            && HandleMessage(t, 0, decision, ending) == Err(UnknownOrder)
  {
    var paid: seq<Event> := [Decide(0, ACCEPT, Stopped({}))];
    StoppedStep();
    RunStep(TWO_RUNS, ONE_OPEN, paid);
    RunSetup();
    RunBuys();
    RunChain(TWO_RUNS, ShopWith([], map[]), ONE_OPEN, IN_VAIN, Buy(0), paid);
    RunChain(TWO_RUNS, EmptyShop([]), ShopWith([], map[]), IN_VAIN, SETUP, Buy(0) + paid);
  }
}
