/**
 * Bulk orders over every run of the shop: a settled order never changes, a paid order that is
 * fulfilled has its codes, and seats are conserved.
 */
module BulkRuns {
  import opened Prelude
  import opened CourseCatalogue
  import opened Records
  import opened Coupons
  import opened Baskets
  import opened Orders
  import opened Seats
  import opened BulkOrders
  import opened Machine

  // ----------------------------------------------------------------------------------------
  // What a step does to bulk orders
  // ----------------------------------------------------------------------------------------

  lemma SyncKeepsBulkOrders(cat: Catalogue, s: State, user: nat, m: Moment)
    requires cat.Valid()
    ensures var t := SyncOrder(cat, s, user, m);
            t.b2bOrders == s.b2bOrders && t.b2bCoupons == s.b2bCoupons && t.book == s.book && t.prices == s.prices
  {
  }

  lemma CheckoutStepKeepsBulkOrders(cat: Catalogue, s: State, e: Event)
    requires cat.Valid() && !IsOffCheckout(e)
    ensures var t := CheckoutStep(cat, s, e);
            t.b2bOrders == s.b2bOrders && t.b2bCoupons == s.b2bCoupons && t.book == s.book && t.prices == s.prices
  {
    if e.UpdateBasket? && Update(cat, s, e.user, e.req, e.m).Ok? {
      SyncKeepsBulkOrders(cat, SaveBasket(s, e.user, NextBasket(cat, s, e.user, e.req, e.m).value), e.user, e.m);
    }
  }

  lemma OtherStepsKeepBulkOrders(cat: Catalogue, s: State, e: Event)
    requires cat.Valid() && !IsBulk(e)
    ensures var t := Step(cat, s, e);
            && t.b2bOrders == s.b2bOrders && t.b2bCoupons == s.b2bCoupons && s.prices <= t.prices
            && (!WritesBookOnly(e) ==> t.book == s.book)
  {
    if WritesBookOnly(e) {
      BookStepFrame(s, e);
    } else if !IsQuiet(e) {
      CheckoutStepKeepsBulkOrders(cat, s, e);
    }
  }

  ghost predicate KeepsSettled(s: State, t: State) {
    && |s.b2bOrders| <= |t.b2bOrders|
    && forall k :: 0 <= k < |s.b2bOrders| && s.b2bOrders[k].status != Created ==> t.b2bOrders[k] == s.b2bOrders[k]
  }

  lemma BulkStepKeepsSettled(s: State, e: Event)
    requires IsBulk(e)
    ensures KeepsSettled(s, BulkStep(s, e))
  {
    if e.BulkCheckOut? && BulkCheckout(s, e.bulk, e.now, e.draws).Ok? {
      BulkCheckoutExactly(s, e.bulk, e.now, e.draws);
      var t := BulkCheckout(s, e.bulk, e.now, e.draws).value;
      assert forall k :: 0 <= k < |s.b2bOrders| ==> t.b2bOrders[..|s.b2bOrders|][k] == s.b2bOrders[k];
    }
  }

  lemma StepKeepsSettledBulkOrders(cat: Catalogue, s: State, e: Event)
    requires cat.Valid()
    ensures KeepsSettled(s, Step(cat, s, e))
  {
    if IsBulk(e) {
      BulkStepKeepsSettled(s, e);
    } else {
      OtherStepsKeepBulkOrders(cat, s, e);
    }
  }

  /** Over any run, a bulk order that has left the created status never changes again. */
  lemma {:induction false} RunKeepsSettledBulkOrder(cat: Catalogue, s: State, events: seq<Event>, k: nat)
    requires cat.Valid() && k < |s.b2bOrders| && s.b2bOrders[k].status != Created
    ensures var t := Machine.Run(cat, s, events);
            k < |t.b2bOrders| && t.b2bOrders[k] == s.b2bOrders[k]
    decreases |events|
  {
    if events != [] {
      StepKeepsSettledBulkOrders(cat, s, events[0]);
      RunKeepsSettledBulkOrder(cat, Step(cat, s, events[0]), events[1..], k);
    }
  }

  // ----------------------------------------------------------------------------------------
  // Fulfilled orders and their codes
  // ----------------------------------------------------------------------------------------

  /** A fulfilled order that was paid for has its codes, nothing else has, and a free order is fulfilled. */
  predicate HistoryFits(order: B2BOrder) {
    && order.status != Refunded
    && (order.payment.Some? ==> order.status == Fulfilled)
    && (order.status == Fulfilled && order.total != 0 ==> order.payment.Some?)
    && (order.total == 0 ==> order.status == Fulfilled)
  }

  ghost predicate HistoriesFit(s: State) {
    forall k :: 0 <= k < |s.b2bOrders| ==> HistoryFits(s.b2bOrders[k])
  }

  function IsFulfilled(): B2BOrder -> bool {
    (order: B2BOrder) => order.status == Fulfilled
  }

  function IsUncoded(): B2BOrder -> bool {
    (order: B2BOrder) => order.status == Fulfilled && order.payment.None?
  }

  function FulfilledSeats(s: State): nat {
    SeatsWhere(s.b2bOrders, |s.b2bOrders|, IsFulfilled())
  }

  /** Seats of fulfilled orders without codes; by the invariant these are free orders. */
  function UncodedSeats(s: State): nat {
    SeatsWhere(s.b2bOrders, |s.b2bOrders|, IsUncoded())
  }

  /** The seats of a free bulk checkout whose codes cannot be issued when it is made. */
  function DeniedSeats(s: State, e: Event): nat {
    if !e.BulkCheckOut? then 0
    else
      match BulkCheckout(s, e.bulk, e.now, e.draws)
      case Err(_) => 0
      case Ok(t) =>
        var k := |s.b2bOrders|;
        if k < |t.b2bOrders| && t.b2bOrders[k].total == 0 && !CanIssueSeats(s, k, t.b2bOrders[k], e.draws)
        then t.b2bOrders[k].seats else 0
  }

  function DeniedOver(cat: Catalogue, s: State, events: seq<Event>): nat
    requires cat.Valid()
    decreases |events|
  {
    if events == [] then 0 else DeniedSeats(s, events[0]) + DeniedOver(cat, Step(cat, s, events[0]), events[1..])
  }

  lemma {:induction false} SeatsSame(orders: seq<B2BOrder>, others: seq<B2BOrder>, n: nat, counts: B2BOrder -> bool)
    requires n <= |orders| && n <= |others|
    requires forall k :: 0 <= k < n ==>
               counts(orders[k]) == counts(others[k]) && orders[k].seats == others[k].seats
    ensures SeatsWhere(orders, n, counts) == SeatsWhere(others, n, counts)
  {
    if n > 0 {
      SeatsSame(orders, others, n - 1, counts);
    }
  }

  lemma {:induction false} SeatsSplit(orders: seq<B2BOrder>, n: nat)
    requires n <= |orders| && forall k :: 0 <= k < |orders| ==> HistoryFits(orders[k])
    ensures SeatsWhere(orders, n, IsFulfilled())
         == SeatsWhere(orders, n, HasCodes()) + SeatsWhere(orders, n, IsUncoded())
  {
    if n > 0 {
      SeatsSplit(orders, n - 1);
      assert HistoryFits(orders[n - 1]);
    }
  }

  lemma CheckOutKeepsHistory(s: State, e: Event)
    requires HistoriesFit(s) && e.BulkCheckOut? && BulkCheckout(s, e.bulk, e.now, e.draws).Ok?
    ensures var t := BulkCheckout(s, e.bulk, e.now, e.draws).value;
            HistoriesFit(t) && UncodedSeats(t) == UncodedSeats(s) + DeniedSeats(s, e)
  {
    var t := BulkCheckout(s, e.bulk, e.now, e.draws).value;
    BulkCheckoutExactly(s, e.bulk, e.now, e.draws);
    var n := |s.b2bOrders|;
    forall k | 0 <= k < n ensures t.b2bOrders[k] == s.b2bOrders[k] {
      assert t.b2bOrders[..n][k] == s.b2bOrders[k];
    }
    SeatsSame(s.b2bOrders, t.b2bOrders, n, IsUncoded());
  }

  lemma MessageKeepsHistory(s: State, k: nat, decision: string, draws: Draws)
    requires HistoriesFit(s) && HandleBulkMessage(s, k, decision, draws).Ok?
    ensures var t := HandleBulkMessage(s, k, decision, draws).value;
            HistoriesFit(t) && UncodedSeats(t) == UncodedSeats(s)
  {
    var t := HandleBulkMessage(s, k, decision, draws).value;
    if s.b2bOrders[k].status == Created {
      BulkMessageEffect(s, k, decision, draws);
      assert HistoryFits(s.b2bOrders[k]);
      SeatsSame(s.b2bOrders, t.b2bOrders, |s.b2bOrders|, IsUncoded());
    }
  }

  lemma BulkStepKeepsHistory(s: State, e: Event)
    requires HistoriesFit(s) && IsBulk(e)
    ensures var t := BulkStep(s, e);
            HistoriesFit(t) && UncodedSeats(t) == UncodedSeats(s) + DeniedSeats(s, e)
  {
    if e.BulkCheckOut? {
      if BulkCheckout(s, e.bulk, e.now, e.draws).Ok? { CheckOutKeepsHistory(s, e); }
    } else if HandleBulkMessage(s, e.order, e.decision, e.draws).Ok? {
      MessageKeepsHistory(s, e.order, e.decision, e.draws);
    }
  }

  lemma StepKeepsHistory(cat: Catalogue, s: State, e: Event)
    requires cat.Valid() && HistoriesFit(s)
    ensures var t := Step(cat, s, e);
            HistoriesFit(t) && UncodedSeats(t) == UncodedSeats(s) + DeniedSeats(s, e)
  {
    if IsBulk(e) {
      BulkStepKeepsHistory(s, e);
    } else {
      OtherStepsKeepBulkOrders(cat, s, e);
    }
  }

  lemma {:induction false} RunKeepsHistory(cat: Catalogue, s: State, events: seq<Event>)
    requires cat.Valid() && HistoriesFit(s)
    ensures var t := Machine.Run(cat, s, events);
            HistoriesFit(t) && UncodedSeats(t) == UncodedSeats(s) + DeniedOver(cat, s, events)
    decreases |events|
  {
    if events != [] {
      StepKeepsHistory(cat, s, events[0]);
      RunKeepsHistory(cat, Step(cat, s, events[0]), events[1..]);
    }
  }

  /**
   * Over every run from a shop without bulk orders: a fulfilled order that was paid for has its codes,
   * and the codes created for bulk orders, all distinct, number the seats of all fulfilled orders less
   * those of the free checkouts whose codes could not be issued.
   */
  lemma CodesMatchFulfilledSeats(cat: Catalogue, s: State, events: seq<Event>)
    requires cat.Valid() && StateFits(cat, s) && s.b2bOrders == []
    ensures var t := Machine.Run(cat, s, events);
            && CodesDistinct(t.book)
            && (forall k :: 0 <= k < |t.b2bOrders|
                            && t.b2bOrders[k].status == Fulfilled && t.b2bOrders[k].total != 0 ==>
                  t.b2bOrders[k].payment.Some?)
            && |SeatCodes(t, |t.b2bOrders|)| + DeniedOver(cat, s, events) == FulfilledSeats(t)
  {
    RunFits(cat, s, events);
    RunKeepsHistory(cat, s, events);
    var t := Machine.Run(cat, s, events);
    SeatCodesCount(t, |t.b2bOrders|);
    SeatsSplit(t.b2bOrders, |t.b2bOrders|);
    forall k | 0 <= k < |t.b2bOrders| && t.b2bOrders[k].status == Fulfilled && t.b2bOrders[k].total != 0
      ensures t.b2bOrders[k].payment.Some?
    {
      assert HistoryFits(t.b2bOrders[k]);
    }
  }

  /** An order that is fulfilled by a message to it has exactly as many codes of its own as seats. */
  lemma FulfilledOrderOwnsSeats(cat: Catalogue, s: State, events: seq<Event>, k: nat)
    requires cat.Valid() && StateFits(cat, s) && s.b2bOrders == []
    requires var t := Machine.Run(cat, s, events);
             k < |t.b2bOrders| && t.b2bOrders[k].status == Fulfilled && t.b2bOrders[k].total != 0
    ensures var t := Machine.Run(cat, s, events);
            && t.b2bOrders[k].payment.Some?
            && |CouponsOf(t.book, t.b2bOrders[k].payment.value)| == t.b2bOrders[k].seats
  {
    RunFits(cat, s, events);
    CodesMatchFulfilledSeats(cat, s, events);
    assert OwnsSeats(Machine.Run(cat, s, events), Machine.Run(cat, s, events).b2bOrders[k]);
  }

  // ----------------------------------------------------------------------------------------
  // A free order without codes
  // ----------------------------------------------------------------------------------------

  /** A promo coupon "Z" whose payment is named "X". */
  const PROMO_X := Issue("X", [0], SEAT_TERMS.(couponType := CouponType.Promo), 1, "Z", false)

  /** A product at 0.00 and that coupon. */
  function FreeSetup(draws: Draws): seq<Event> {
    [AppendPrice(ProductVersion(0, 0, false)), Event.IssueCoupons(PROMO_X, draws)]
  }

  /** Then a bulk order of one seat with contract number "X". */
  function FreeOrderEvents(draws: Draws): seq<Event> {
    FreeSetup(draws) + [BulkCheckOut(BulkRequest(1, 0, "", "X"), 0, draws)]
  }

  lemma PromoIssued(book: CouponBook, draws: Draws)
    requires book == CouponBook([], [], {}, [])
    ensures CreateCoupons(book, PROMO_X, draws).Ok?
    ensures var after := CreateCoupons(book, PROMO_X, draws).value;
            after.payments == ["X"] && |after.coupons| == 1
  {
    assert DrawnCodes(1, "Z", draws) == ["Z"] && CanInsert(book, ["Z"]);
    CreateCouponsExactly(book, PROMO_X, draws);
  }

  lemma FreeOrderSetup(cat: Catalogue, draws: Draws) returns (s: State)
    requires cat.Valid()
    ensures s == Machine.Run(cat, EmptyShop([]), FreeSetup(draws))
    ensures s.prices == [ProductVersion(0, 0, false)] && s.b2bOrders == [] && s.b2bCoupons == []
    ensures s.book.payments == ["X"] && |s.book.coupons| == 1
  {
    var e, f := AppendPrice(ProductVersion(0, 0, false)), Event.IssueCoupons(PROMO_X, draws);
    var priced := Step(cat, EmptyShop([]), e);
    assert priced.prices == [ProductVersion(0, 0, false)];
    PromoIssued(priced.book, draws);
    s := Step(cat, priced, f);
    RunTwo(cat, EmptyShop([]), priced, s, e, f);
  }

  lemma FreeCheckout(s: State, draws: Draws)
    requires s.prices == [ProductVersion(0, 0, false)] && s.b2bOrders == [] && s.book.payments == ["X"]
    ensures var r := BulkCheckout(s, BulkRequest(1, 0, "", "X"), 0, draws);
            && r.Ok? && r.value.book == s.book
            && r.value.b2bOrders == [B2BOrder(Fulfilled, 1, 0, 0, "X", None, None)]
  {
    assert BulkTotal(0, 1, None) == 0;
    var order := B2BOrder(Fulfilled, 1, 0, 0, "X", None, None);
    CompleteBulkExactly(s.(b2bOrders := [order]), 0, draws);
  }

  /** In such a run, whatever codes are drawn, the free order ends fulfilled and without codes. */
  lemma FreeOrderWithoutCodes(cat: Catalogue, draws: Draws)
    requires cat.Valid()
    ensures var t := Machine.Run(cat, EmptyShop([]), FreeOrderEvents(draws));
            && |t.b2bOrders| == 1 && t.b2bOrders[0].status == Fulfilled && t.b2bOrders[0].seats == 1
            && t.b2bOrders[0].payment.None? && |t.book.coupons| == 1
  {
    var e := BulkCheckOut(BulkRequest(1, 0, "", "X"), 0, draws);
    var s := FreeOrderSetup(cat, draws);
    FreeCheckout(s, draws);
    RunStep(cat, s, [e]);
    RunChain(cat, EmptyShop([]), s, Step(cat, s, e), FreeSetup(draws), [e]);
  }

  // ----------------------------------------------------------------------------------------
  // Two orders with one contract number
  // ----------------------------------------------------------------------------------------

  function Draw(code: string): Draws {
    Draws((i: nat) => code, (i: nat) => code)
  }

  /** Accepting an open order of one seat when its name is free and the code drawn is new. */
  lemma OneSeatPaid(cat: Catalogue, s: State, k: nat, code: string)
    requires cat.Valid() && k < |s.b2bOrders| && s.b2bOrders[k].status == Created && s.b2bOrders[k].seats == 1
    requires s.b2bOrders[k].version < |s.prices| && !CodeExists(s.book, code)
    requires PaymentName(k, s.b2bOrders[k].contract, CouponCodeOf(s, s.b2bOrders[k])) !in s.book.payments
    ensures var t := Step(cat, s, BulkDecide(k, ACCEPT, Draw(code)));
            var order, book := s.b2bOrders[k], s.book;
            && t == s.(book := t.book, b2bOrders := t.b2bOrders)
            && t.b2bOrders == s.b2bOrders[k := order.(status := Fulfilled, payment := Some(|book.payments|))]
            && t.book == CouponBook(
                 book.coupons + [Coupon(code, |book.payments|, false, true)],
                 book.versions + [CouponVersion(|book.coupons|, SEAT_TERMS)],
                 book.eligible + {(|book.coupons|, s.prices[order.version].product)},
                 book.payments + [PaymentName(k, order.contract, CouponCodeOf(s, order))])
  {
    var order, book := s.b2bOrders[k], s.book;
    OneCodeCreated(book, SeatIssue(s, k), code);
    BulkMessageEffect(s, k, ACCEPT, Draw(code));
  }

  lemma OneCodeCreated(book: CouponBook, issue: Issue, code: string)
    requires issue.count == 1 && issue.code == "" && |issue.products| == 1
    requires issue.name !in book.payments && !CodeExists(book, code)
    ensures CreateCoupons(book, issue, Draw(code)) == Ok(CouponBook(
              book.coupons + [Coupon(code, |book.payments|, issue.isGlobal, true)],
              book.versions + [CouponVersion(|book.coupons|, issue.terms)],
              book.eligible + {(|book.coupons|, issue.products[0])},
              book.payments + [issue.name]))
  {
    var first := |book.coupons|;
    assert DrawnCodes(1, "", Draw(code)) == [code];
    assert InsertedCodes(book, issue, Draw(code)) == Ok([code]);
    assert NewCoupons([code], |book.payments|, issue.isGlobal)
        == [Coupon(code, |book.payments|, issue.isGlobal, true)];
    assert NewVersions(first, 1, issue.terms) == [CouponVersion(first, issue.terms)];
    assert Range(first, 1) == {first};
    assert NewEligibilities(first, 1, issue.products) == {(first, issue.products[0])};
  }

  const ONE_DOLLAR: seq<Event> := [AppendPrice(ProductVersion(0, 100, false))]

  /** One seat at 1.00, without coupon. */
  function OneSeat(contract: string): Event {
    BulkCheckOut(BulkRequest(1, 0, "", contract), 0, Draw(""))
  }

  function OpenSeat(contract: string): B2BOrder {
    B2BOrder(Created, 1, 0, 100, contract, None, None)
  }

  function SeatShop(orders: seq<B2BOrder>): State {
    EmptyShop([]).(prices := [ProductVersion(0, 100, false)], b2bOrders := orders)
  }

  lemma DollarPriced(cat: Catalogue)
    requires cat.Valid()
    ensures Machine.Run(cat, EmptyShop([]), ONE_DOLLAR) == SeatShop([])
  {
    RunStep(cat, EmptyShop([]), ONE_DOLLAR);
  }

  lemma SeatOpened(cat: Catalogue, orders: seq<B2BOrder>, contract: string)
    requires cat.Valid() && forall k :: 0 <= k < |orders| ==> orders[k].status == Created
    ensures Step(cat, SeatShop(orders), OneSeat(contract)) == SeatShop(orders + [OpenSeat(contract)])
  {
    assert !ContractUsed(orders, contract);
    assert BulkTotal(100, 1, None) == 100;
  }

  const BOTH_SEATS: seq<Event> := [OneSeat("X"), OneSeat("X")]

  lemma BothSeatsOpened(cat: Catalogue)
    requires cat.Valid()
    ensures Machine.Run(cat, SeatShop([]), BOTH_SEATS) == SeatShop([OpenSeat("X"), OpenSeat("X")])
  {
    var one, two := [OpenSeat("X")], [OpenSeat("X"), OpenSeat("X")];
    SeatOpened(cat, [], "X");
    SeatOpened(cat, one, "X");
    assert [] + [OpenSeat("X")] == one && one + [OpenSeat("X")] == two;
    RunTwo(cat, SeatShop([]), SeatShop(one), SeatShop(two), OneSeat("X"), OneSeat("X"));
  }

  function BothSeatsPaid(): seq<Event> {
    [BulkDecide(0, ACCEPT, Draw("a")), BulkDecide(1, ACCEPT, Draw("b"))]
  }

  /** Whether accepted with these draws or later with others, the second order gets no codes and stays open. */
  lemma SecondSeatRefused(cat: Catalogue, later: Draws) returns (t: State)
    requires cat.Valid()
    ensures t == Machine.Run(cat, SeatShop([OpenSeat("X"), OpenSeat("X")]), BothSeatsPaid())
    ensures |t.b2bOrders| == 2 && t.b2bOrders[0].status == Fulfilled && t.b2bOrders[1] == OpenSeat("X")
    ensures HandleBulkMessage(t, 1, ACCEPT, later) == Err(CodesNotCreated(NameTaken))
  {
    var s := SeatShop([OpenSeat("X"), OpenSeat("X")]);
    OneSeatPaid(cat, s, 0, "a");
    t := Step(cat, s, BulkDecide(0, ACCEPT, Draw("a")));
    assert t.book.payments == ["X"];
    CompleteBulkExactly(t, 1, Draw("b"));
    CompleteBulkExactly(t, 1, later);
    assert Step(cat, t, BulkDecide(1, ACCEPT, Draw("b"))) == t;
    RunTwo(cat, s, t, t, BulkDecide(0, ACCEPT, Draw("a")), BulkDecide(1, ACCEPT, Draw("b")));
  }

  /** A price, two bulk orders with one contract number, and both payments. */
  function OneContractTwice(): seq<Event> {
    ONE_DOLLAR + (BOTH_SEATS + BothSeatsPaid())
  }

  /** Over this run from an empty shop two orders are paid, and the second stays open for good. */
  lemma PaidOrderCanStayOpen(cat: Catalogue, later: Draws)
    requires cat.Valid()
    ensures var t := Machine.Run(cat, EmptyShop([]), OneContractTwice());
            && |t.b2bOrders| == 2 && t.b2bOrders[0].status == Fulfilled && t.b2bOrders[1] == OpenSeat("X")
            && HandleBulkMessage(t, 1, ACCEPT, later) == Err(CodesNotCreated(NameTaken))
  {
    var open := SeatShop([OpenSeat("X"), OpenSeat("X")]);
    var t := SecondSeatRefused(cat, later);
    DollarPriced(cat);
    BothSeatsOpened(cat);
    RunChain(cat, SeatShop([]), open, t, BOTH_SEATS, BothSeatsPaid());
    RunChain(cat, EmptyShop([]), SeatShop([]), t, ONE_DOLLAR, BOTH_SEATS + BothSeatsPaid());
  }
}
