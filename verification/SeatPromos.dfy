/**
 * Codes of bulk orders and promo updates, which accept any coupon. Over every run a code that no
 * promo update has named is as it was issued, and any version of any code makes the bought product
 * free exactly if the coupon is still global or eligible for it.
 */
module SeatPromos {
  import opened Prelude
  import opened Money
  import opened CourseCatalogue
  import opened Records
  import opened Coupons
  import opened Orders
  import opened Seats
  import opened BulkOrders
  import opened Machine
  import opened BulkRuns
  import opened PromoTerms

  // ----------------------------------------------------------------------------------------
  // The invariant
  // ----------------------------------------------------------------------------------------

  /** The coupon is a code of bulk order k. */
  predicate IsCodeOf(s: State, k: nat, c: nat) {
    && k < |s.b2bOrders| && c < |s.book.coupons|
    && s.b2bOrders[k].payment == Some(s.book.coupons[c].payment)
  }

  function BoughtProduct(s: State, k: nat): nat
    requires k < |s.b2bOrders| && s.b2bOrders[k].version < |s.prices|
  {
    s.prices[s.b2bOrders[k].version].product
  }

  /** Each code that is not named has one version, on the terms of a seat, and one eligibility. */
  ghost predicate SeatsIssued(s: State, named: set<nat>)
    requires BulkFits(s)
  {
    forall k, c :: IsCodeOf(s, k, c) && c !in named ==>
      IsIssuedAs(s.book, c, false, SEAT_TERMS, [BoughtProduct(s, k)])
  }

  /** Every version of a code has the terms of a seat, dates aside. */
  ghost predicate SeatTermsFit(s: State) {
    forall k, v :: 0 <= v < |s.book.versions| && IsCodeOf(s, k, s.book.versions[v].coupon) ==>
      SameButDates(s.book.versions[v].terms, SEAT_TERMS)
  }

  /** The coupon that an accepted promo update names. */
  function NamedBy(s: State, e: Event): set<nat> {
    if e.UpdatePromo? && CanUpdatePromo(s, e.promo) then {e.promo.coupon} else {}
  }

  function NamedOver(cat: Catalogue, s: State, events: seq<Event>): set<nat>
    requires cat.Valid()
    decreases |events|
  {
    if events == [] then {} else NamedBy(s, events[0]) + NamedOver(cat, Step(cat, s, events[0]), events[1..])
  }

  predicate HasVersion(book: CouponBook, c: nat) {
    exists v :: 0 <= v < |book.versions| && book.versions[v].coupon == c
  }

  ghost predicate CodesFit(s: State, named: set<nat>) {
    && BulkFits(s) && SeatsIssued(s, named) && SeatTermsFit(s)
    && forall c :: c in named ==> HasVersion(s.book, c)
  }

  lemma VersionsStay(book: CouponBook, after: CouponBook, named: set<nat>)
    requires book.versions <= after.versions
    requires forall c :: c in named ==> HasVersion(book, c)
    ensures forall c :: c in named ==> HasVersion(after, c)
  {
    forall c | c in named ensures HasVersion(after, c) {
      var v :| 0 <= v < |book.versions| && book.versions[v].coupon == c;
      assert after.versions[v].coupon == c;
    }
  }

  // ----------------------------------------------------------------------------------------
  // Steps
  // ----------------------------------------------------------------------------------------

  /** Creating coupons, under a payment that no order has yet. */
  lemma IssueKeepsCodes(s: State, issue: Issue, draws: Draws, named: set<nat>)
    requires CodesFit(s, named) && CreateCoupons(s.book, issue, draws).Ok?
    ensures CodesFit(s.(book := CreateCoupons(s.book, issue, draws).value), named)
  {
    var t := s.(book := CreateCoupons(s.book, issue, draws).value);
    IssueFits(s, issue, draws);
    InsertedCodesSpec(s.book, issue, draws);
    VersionsStay(s.book, t.book, named);
    forall k: nat, c: nat | IsCodeOf(t, k, c) ensures IsCodeOf(s, k, c) {
      assert OwnsSeats(s, s.b2bOrders[k]);
    }
    forall k, c | IsCodeOf(t, k, c) && c !in named
      ensures IsIssuedAs(t.book, c, false, SEAT_TERMS, [BoughtProduct(t, k)])
    {
      OlderCouponStaysIssued(s.book, issue, draws, c, false, SEAT_TERMS, [BoughtProduct(s, k)]);
    }
    forall k, v | 0 <= v < |t.book.versions| && IsCodeOf(t, k, t.book.versions[v].coupon)
      ensures SameButDates(t.book.versions[v].terms, SEAT_TERMS)
    {
      OldCodeOldVersion(s.book, issue, draws, v);
    }
  }

  /** A version of an older coupon is an older version. */
  lemma OldCodeOldVersion(book: CouponBook, issue: Issue, draws: Draws, v: nat)
    requires BookFits(book) && CreateCoupons(book, issue, draws).Ok?
    requires v < |CreateCoupons(book, issue, draws).value.versions|
    ensures var after := CreateCoupons(book, issue, draws).value;
            if v < |book.versions| then after.versions[v] == book.versions[v]
            else after.versions[v].coupon >= |book.coupons| && after.versions[v].terms == issue.terms
  {
    InsertedCodesSpec(book, issue, draws);
  }

  /** A correctly issued coupon stays so when another one is updated. */
  lemma IssuedAfterPromo(
      book: CouponBook, promo: PromoChange, c: nat, isGlobal: bool, terms: Terms, products: seq<nat>)
    requires promo.coupon < |book.coupons| && PromoVersion(book, promo).Some?
    requires c != promo.coupon && IsIssuedAs(book, c, isGlobal, terms, products)
    ensures IsIssuedAs(PromoUpdated(book, promo), c, isGlobal, terms, products)
  {
    var after := PromoUpdated(book, promo);
    var v :| 0 <= v < |book.versions| && book.versions[v] == CouponVersion(c, terms);
    assert after.versions[v] == CouponVersion(c, terms);
    forall p ensures (c, p) in after.eligible <==> p in products {
      assert (c, p) in after.eligible <==> (c, p) in book.eligible;
    }
  }

  lemma PromoKeepsCodes(s: State, promo: PromoChange, named: set<nat>)
    requires CodesFit(s, named) && CanUpdatePromo(s, promo)
    ensures CodesFit(s.(book := PromoUpdated(s.book, promo)), named + {promo.coupon})
  {
    var t := s.(book := PromoUpdated(s.book, promo));
    UpdatePromoFits(s, promo);
    VersionsStay(s.book, t.book, named);
    assert t.book.versions[|s.book.versions|].coupon == promo.coupon;
    forall k: nat, c: nat | IsCodeOf(t, k, c) ensures IsCodeOf(s, k, c) {}
    forall k, c | IsCodeOf(t, k, c) && c !in named + {promo.coupon}
      ensures IsIssuedAs(t.book, c, false, SEAT_TERMS, [BoughtProduct(t, k)])
    {
      IssuedAfterPromo(s.book, promo, c, false, SEAT_TERMS, [BoughtProduct(s, k)]);
    }
    forall k, v | 0 <= v < |t.book.versions| && IsCodeOf(t, k, t.book.versions[v].coupon)
      ensures SameButDates(t.book.versions[v].terms, SEAT_TERMS)
    {
      if v == |s.book.versions| {
        PromoOfCodeIsSeat(s, promo, k);
      }
    }
  }

  /** The latest terms of a bulk order's payment are those of a seat, dates aside. */
  lemma PromoOfCodeIsSeat(s: State, promo: PromoChange, k: nat)
    requires BookFits(s.book) && SeatTermsFit(s) && CanUpdatePromo(s, promo) && IsCodeOf(s, k, promo.coupon)
    ensures SameButDates(PromoVersion(s.book, promo).value.terms, SEAT_TERMS)
  {
    var payment := s.book.coupons[promo.coupon].payment;
    var terms := LatestTerms(s.book, |s.book.versions|, payment).value;
    var u :| 0 <= u < |s.book.versions| && PaymentOf(s.book, u) == Some(payment)
             && s.book.versions[u].terms == terms;
    assert IsCodeOf(s, k, s.book.versions[u].coupon);
  }

  lemma DisableKeepsCodes(s: State, disabled: set<nat>, named: set<nat>)
    requires CodesFit(s, named)
    ensures CodesFit(s.(book := s.book.(coupons := Disable(s.book.coupons, disabled))), named)
  {
    var t := s.(book := s.book.(coupons := Disable(s.book.coupons, disabled)));
    DisableFits(s, disabled);
    forall k: nat, c: nat | IsCodeOf(t, k, c) ensures IsCodeOf(s, k, c) {}
    forall k, c | IsCodeOf(t, k, c) && c !in named
      ensures IsIssuedAs(t.book, c, false, SEAT_TERMS, [BoughtProduct(t, k)])
    {
      assert IsIssuedAs(s.book, c, false, SEAT_TERMS, [BoughtProduct(s, k)]);
    }
  }

  /** Orders may be added or change their status, as long as no payment appears. */
  lemma SamePaymentsKeepCodes(s: State, t: State, named: set<nat>)
    requires CodesFit(s, named) && BulkFits(t) && t.book == s.book && s.prices <= t.prices
    requires |s.b2bOrders| <= |t.b2bOrders|
    requires forall k :: 0 <= k < |t.b2bOrders| && t.b2bOrders[k].payment.Some? ==>
               k < |s.b2bOrders| && t.b2bOrders[k].payment == s.b2bOrders[k].payment
               && t.b2bOrders[k].version == s.b2bOrders[k].version
    ensures CodesFit(t, named)
  {
    forall k: nat, c: nat | IsCodeOf(t, k, c) ensures IsCodeOf(s, k, c) && BoughtProduct(t, k) == BoughtProduct(s, k) {}
  }

  lemma CompleteKeepsCodes(s: State, k: nat, draws: Draws, named: set<nat>)
    requires CodesFit(s, named) && k < |s.b2bOrders| && s.b2bOrders[k].payment.None?
    requires CompleteBulk(s, k, draws).Ok?
    ensures CodesFit(CompleteBulk(s, k, draws).value, named)
  {
    var t := CompleteBulk(s, k, draws).value;
    var issue := SeatIssue(s, k);
    CompleteBulkFits(s, k, draws);
    IssueKeepsCodes(s, issue, draws, named);
    var issued := s.(book := t.book);
    forall j, c | IsCodeOf(t, j, c) && j != k ensures IsCodeOf(issued, j, c) {}
    forall j, c | IsCodeOf(t, j, c) && c !in named
      ensures IsIssuedAs(t.book, c, false, SEAT_TERMS, [BoughtProduct(t, j)])
    {
      if j == k {
        assert c in CouponsOf(t.book, t.b2bOrders[k].payment.value);
      } else {
        assert IsCodeOf(issued, j, c);
      }
    }
    forall j, v | 0 <= v < |t.book.versions| && IsCodeOf(t, j, t.book.versions[v].coupon)
      ensures SameButDates(t.book.versions[v].terms, SEAT_TERMS)
    {
      if j == k {
        OldCodeOldVersion(s.book, issue, draws, v);
      } else {
        assert IsCodeOf(issued, j, t.book.versions[v].coupon);
      }
    }
  }

  lemma CheckOutKeepsCodes(s: State, req: BulkRequest, now: int, draws: Draws, named: set<nat>)
    requires CodesFit(s, named) && BulkCheckout(s, req, now, draws).Ok?
    ensures CodesFit(BulkCheckout(s, req, now, draws).value, named)
  {
    var k := |s.b2bOrders|;
    var t := BulkCheckout(s, req, now, draws).value;
    BulkCheckoutFits(s, req, now, draws);
    BulkCheckoutExactly(s, req, now, draws);
    var saved := s.(b2bOrders := s.b2bOrders + [t.b2bOrders[k].(payment := None)]);
    AppendKeepsCodes(s, t.b2bOrders[k].(payment := None), named);
    if t.b2bOrders[k].payment.Some? {
      assert CompleteBulk(saved, k, draws) == Ok(t);
      CompleteKeepsCodes(saved, k, draws, named);
    } else {
      assert t == saved;
    }
  }

  lemma AppendKeepsCodes(s: State, order: B2BOrder, named: set<nat>)
    requires CodesFit(s, named) && order.version < |s.prices| && order.payment.None?
    ensures CodesFit(s.(b2bOrders := s.b2bOrders + [order]), named)
  {
    AppendBulkOrderFits(s, order);
    SamePaymentsKeepCodes(s, s.(b2bOrders := s.b2bOrders + [order]), named);
  }

  lemma MessageKeepsCodes(s: State, k: nat, decision: string, draws: Draws, named: set<nat>)
    requires CodesFit(s, named) && HandleBulkMessage(s, k, decision, draws).Ok?
    ensures CodesFit(HandleBulkMessage(s, k, decision, draws).value, named)
  {
    var t := HandleBulkMessage(s, k, decision, draws).value;
    BulkMessageFits(s, k, decision, draws);
    if s.b2bOrders[k].status == Created {
      assert OwnsSeats(s, s.b2bOrders[k]);
      if decision == ACCEPT {
        CompleteKeepsCodes(s, k, draws, named);
      } else {
        SamePaymentsKeepCodes(s, t, named);
      }
    }
  }

  lemma OtherStepKeepsCodes(cat: Catalogue, s: State, e: Event, named: set<nat>)
    requires cat.Valid() && CodesFit(s, named) && BulkFits(Step(cat, s, e)) && !WritesBookOnly(e) && !IsBulk(e)
    ensures CodesFit(Step(cat, s, e), named)
  {
    OtherStepsKeepBulkOrders(cat, s, e);
    SamePaymentsKeepCodes(s, Step(cat, s, e), named);
  }

  lemma BookStepKeepsCodes(s: State, e: Event, named: set<nat>)
    requires CodesFit(s, named) && WritesBookOnly(e)
    ensures CodesFit(BookStep(s, e), named + NamedBy(s, e))
  {
    assert named + {} == named;
    match e
    case UpdatePromo(promo) => if CanUpdatePromo(s, promo) { PromoKeepsCodes(s, promo, named); }
    case IssueCoupons(issue, draws) =>
      var done := IssuedBookIsCreated(s.book, issue, draws);
      if CreateCoupons(s.book, done, draws).Ok? { IssueKeepsCodes(s, done, draws, named); }
    case DisableCoupons(disabled) => DisableKeepsCodes(s, disabled, named);
  }

  lemma BulkStepKeepsCodes(s: State, e: Event, named: set<nat>)
    requires CodesFit(s, named) && IsBulk(e)
    ensures CodesFit(BulkStep(s, e), named)
  {
    match e
    case BulkCheckOut(req, now, draws) =>
      if BulkCheckout(s, req, now, draws).Ok? { CheckOutKeepsCodes(s, req, now, draws, named); }
    case BulkDecide(k, decision, draws) =>
      if HandleBulkMessage(s, k, decision, draws).Ok? { MessageKeepsCodes(s, k, decision, draws, named); }
  }

  lemma StepKeepsCodes(cat: Catalogue, s: State, e: Event, named: set<nat>)
    requires cat.Valid() && StateFits(cat, s) && CodesFit(s, named)
    ensures CodesFit(Step(cat, s, e), named + NamedBy(s, e))
  {
    if WritesBookOnly(e) {
      BookStepKeepsCodes(s, e, named);
    } else {
      assert NamedBy(s, e) == {} && named + {} == named;
      if IsBulk(e) {
        BulkStepKeepsCodes(s, e, named);
      } else {
        StepFits(cat, s, e);
        OtherStepKeepsCodes(cat, s, e, named);
      }
    }
  }

  lemma {:induction false} RunKeepsCodes(cat: Catalogue, s: State, events: seq<Event>, named: set<nat>)
    requires cat.Valid() && StateFits(cat, s) && CodesFit(s, named)
    ensures CodesFit(Machine.Run(cat, s, events), named + NamedOver(cat, s, events))
    decreases |events|
  {
    if events == [] {
      assert named + {} == named;
    } else {
      StepKeepsCodes(cat, s, events[0], named);
      StepFits(cat, s, events[0]);
      var next := Step(cat, s, events[0]);
      RunKeepsCodes(cat, next, events[1..], named + NamedBy(s, events[0]));
      assert named + NamedOver(cat, s, events)
          == (named + NamedBy(s, events[0])) + NamedOver(cat, next, events[1..]);
    }
  }

  // ----------------------------------------------------------------------------------------
  // What the invariant says
  // ----------------------------------------------------------------------------------------

  lemma NoOrdersCodesFit(s: State)
    requires BulkFits(s) && s.b2bOrders == []
    ensures CodesFit(s, {})
  {
  }

  lemma IssuedCodeIsFree(s: State, named: set<nat>, k: nat, c: nat, version: ProductVersion)
    requires CodesFit(s, named) && IsCodeOf(s, k, c) && c !in named && version.product == BoughtProduct(s, k)
    ensures exists v: nat :: v < |s.book.versions| && s.book.versions[v].coupon == c
                             && PriceWithCoupon(s.book, Some(v), version) == 0
  {
    assert IsIssuedAs(s.book, c, false, SEAT_TERMS, [version.product]);
    var v :| 0 <= v < |s.book.versions| && s.book.versions[v] == CouponVersion(c, SEAT_TERMS);
    assert (c, version.product) in s.book.eligible;
    FullPercentIsFree(version.price);
    assert PriceWithCoupon(s.book, Some(v), version) == 0;
  }

  /**
   * After any run from a shop without bulk orders, a code that no promo update has named has exactly
   * one version, on the terms of a seat, exactly one eligibility, for the bought product, and makes
   * every version of that product cost nothing.
   */
  lemma UnnamedCodesAsIssued(
      cat: Catalogue, s: State, events: seq<Event>, k: nat, c: nat, version: ProductVersion)
    requires cat.Valid() && StateFits(cat, s) && s.b2bOrders == []
    requires IsCodeOf(Machine.Run(cat, s, events), k, c) && c !in NamedOver(cat, s, events)
    ensures var t := Machine.Run(cat, s, events);
            && t.b2bOrders[k].version < |t.prices|
            && IsIssuedAs(t.book, c, false, SEAT_TERMS, [BoughtProduct(t, k)])
            && (version.product == BoughtProduct(t, k) ==>
                  exists v: nat :: v < |t.book.versions| && t.book.versions[v].coupon == c
                                   && PriceWithCoupon(t.book, Some(v), version) == 0)
  {
    NoOrdersCodesFit(s);
    RunKeepsCodes(cat, s, events, {});
    assert {} + NamedOver(cat, s, events) == NamedOver(cat, s, events);
    var t := Machine.Run(cat, s, events);
    if version.product == BoughtProduct(t, k) {
      IssuedCodeIsFree(t, NamedOver(cat, s, events), k, c, version);
    }
  }

  /** A version of a code takes a product to zero if it applies, and otherwise leaves it at its price. */
  lemma CodePrice(s: State, k: nat, v: nat, version: ProductVersion)
    requires SeatTermsFit(s) && v < |s.book.versions| && IsCodeOf(s, k, s.book.versions[v].coupon)
    requires version.price >= 0
    ensures PriceWithCoupon(s.book, Some(v), version)
         == if Applies(s.book, v, version.product) then 0 else version.price
  {
    var terms := s.book.versions[v].terms;
    assert SameButDates(terms, SEAT_TERMS);
    FullPercentIsFree(version.price);
  }

  /**
   * After any run, promo updates included, any version of any code of a bulk order makes a product
   * with a positive price free exactly if the coupon is global or eligible for the product.
   */
  lemma ReachableCodePrice(
      cat: Catalogue, s: State, events: seq<Event>, k: nat, v: nat, version: ProductVersion)
    requires cat.Valid() && StateFits(cat, s) && s.b2bOrders == []
    requires var t := Machine.Run(cat, s, events);
             v < |t.book.versions| && IsCodeOf(t, k, t.book.versions[v].coupon)
    requires version.price > 0
    ensures var book := Machine.Run(cat, s, events).book;
            var c := book.versions[v].coupon;
            && PriceWithCoupon(book, Some(v), version) in {0, version.price}
            && (PriceWithCoupon(book, Some(v), version) == 0 <==>
                  book.coupons[c].isGlobal || (c, version.product) in book.eligible)
  {
    NoOrdersCodesFit(s);
    RunKeepsCodes(cat, s, events, {});
    CodePrice(Machine.Run(cat, s, events), k, v, version);
  }

  /** After any run, a code of a bulk order that is found valid has not been redeemed by anyone before. */
  lemma ValidCodeIsUnredeemed(
      cat: Catalogue, s: State, events: seq<Event>, k: nat, v: nat, q: Query, product: nat, user: nat, now: int)
    requires cat.Valid() && StateFits(cat, s) && s.b2bOrders == []
    requires var t := Machine.Run(cat, s, events);
             v < |t.book.versions| && IsCodeOf(t, k, t.book.versions[v].coupon) && IsValid(t, q, product, user, now, v)
    ensures Redeemers(Machine.Run(cat, s, events).orders, v) == {}
    ensures Machine.Run(cat, s, events).book.versions[v].terms.kind == PercentOff
    ensures Machine.Run(cat, s, events).book.versions[v].terms.couponType == SingleUse
  {
    NoOrdersCodesFit(s);
    RunKeepsCodes(cat, s, events, {});
    var t := Machine.Run(cat, s, events);
    assert SameButDates(t.book.versions[v].terms, SEAT_TERMS);
    assert |Redeemers(t.orders, v)| < 1;
  }

  lemma SecondVersion(book: CouponBook, promo: PromoChange, isGlobal: bool, terms: Terms, products: seq<nat>)
    requires promo.coupon < |book.coupons| && PromoVersion(book, promo).Some? && HasVersion(book, promo.coupon)
    ensures !IsIssuedAs(PromoUpdated(book, promo), promo.coupon, isGlobal, terms, products)
  {
    var after := PromoUpdated(book, promo);
    var v :| 0 <= v < |book.versions| && book.versions[v].coupon == promo.coupon;
    assert after.versions[v].coupon == promo.coupon && after.versions[|book.versions|].coupon == promo.coupon;
  }

  /**
   * A promo update of a code leaves it with more than the one version it was issued with, and from
   * then on it makes a product with a positive price free exactly if the update made it global or
   * lists that product. So the bought product stays free exactly on that condition.
   */
  lemma PromoUpdateOfCode(s: State, named: set<nat>, promo: PromoChange, k: nat, version: ProductVersion)
    requires CodesFit(s, named) && CanUpdatePromo(s, promo) && IsCodeOf(s, k, promo.coupon)
    requires version.price > 0
    ensures var book := PromoUpdated(s.book, promo);
            && HasVersion(book, promo.coupon)
            && (forall v: nat :: v < |book.versions| && book.versions[v].coupon == promo.coupon ==>
                  (PriceWithCoupon(book, Some(v), version) == 0 <==>
                     promo.isGlobal || version.product in promo.products))
            && forall isGlobal: bool, terms: Terms, products: seq<nat> ::
                 !IsIssuedAs(book, promo.coupon, isGlobal, terms, products)
  {
    var t := s.(book := PromoUpdated(s.book, promo));
    PromoKeepsCodes(s, promo, named);
    assert t.book.versions[|s.book.versions|].coupon == promo.coupon;
    assert IsCodeOf(t, k, promo.coupon);
    forall v: nat | v < |t.book.versions| && t.book.versions[v].coupon == promo.coupon
      ensures PriceWithCoupon(t.book, Some(v), version) == 0 <==> promo.isGlobal || version.product in promo.products
    {
      CodePrice(t, k, v, version);
    }
    CodeHasVersion(s, named, k, promo.coupon);
    forall isGlobal: bool, terms: Terms, products: seq<nat>
      ensures !IsIssuedAs(t.book, promo.coupon, isGlobal, terms, products)
    {
      SecondVersion(s.book, promo, isGlobal, terms, products);
    }
  }

  lemma CodeHasVersion(s: State, named: set<nat>, k: nat, c: nat)
    requires CodesFit(s, named) && IsCodeOf(s, k, c)
    ensures HasVersion(s.book, c)
  {
    if c !in named {
      assert IsIssuedAs(s.book, c, false, SEAT_TERMS, [BoughtProduct(s, k)]);
    }
  }

  // ----------------------------------------------------------------------------------------
  // A code that no longer buys its product
  // ----------------------------------------------------------------------------------------

  /** A promo update that moves code 0 to product 1. */
  const MOVED := PromoChange(0, false, None, None, {1})

  function PaidAndMoved(): seq<Event> {
    [BulkDecide(0, ACCEPT, Draw("a")), UpdatePromo(MOVED)]
  }

  /** A price for product 0, a paid bulk order of one seat, and the update of its code. */
  function MovedCode(): seq<Event> {
    ONE_DOLLAR + ([OneSeat("")] + PaidAndMoved())
  }

  lemma CodeMoved(book: CouponBook)
    requires |book.coupons| == 1 && book.versions == [CouponVersion(0, SEAT_TERMS)] && book.eligible == {(0, 0)}
    ensures PromoVersion(book, MOVED).Some?
    ensures var after := PromoUpdated(book, MOVED);
            && after.eligible == {(0, 1)} && !after.coupons[0].isGlobal && |after.coupons| == 1
            && after.coupons[0].payment == book.coupons[0].payment
            && |after.versions| == 2 && after.versions[0].coupon == after.versions[1].coupon == 0
  {
    assert LatestTerms(book, 1, book.coupons[0].payment) == Some(SEAT_TERMS);
  }

  /** Coupon 0 is a code bought for product 0, and no version of it takes anything off that product's price. */
  ghost predicate BuysNothing(t: State) {
    && IsCodeOf(t, 0, 0) && t.b2bOrders[0].version < |t.prices| && BoughtProduct(t, 0) == 0
    && |t.book.versions| == 2
    && forall v: nat :: v < 2 ==>
         t.book.versions[v].coupon == 0
         && PriceWithCoupon(t.book, Some(v), ProductVersion(0, 100, false)) == 100
  }

  lemma SeatPaidAndMoved(cat: Catalogue)
    requires cat.Valid()
    ensures BuysNothing(Machine.Run(cat, SeatShop([OpenSeat("")]), PaidAndMoved()))
  {
    var s := SeatShop([OpenSeat("")]);
    OneSeatPaid(cat, s, 0, "a");
    var paid := Step(cat, s, BulkDecide(0, ACCEPT, Draw("a")));
    assert paid.book.versions == [CouponVersion(0, SEAT_TERMS)] && paid.book.eligible == {(0, 0)};
    CodeMoved(paid.book);
    var t := Step(cat, paid, UpdatePromo(MOVED));
    RunTwo(cat, s, paid, t, BulkDecide(0, ACCEPT, Draw("a")), UpdatePromo(MOVED));
  }

  /** Over this run from an empty shop the code bought for product 0 ends up taking nothing off its price. */
  lemma UpdatedCodeCanStopBuying(cat: Catalogue)
    requires cat.Valid()
    ensures BuysNothing(Machine.Run(cat, EmptyShop([]), MovedCode()))
  {
    var paid := SeatShop([OpenSeat("")]);
    var t := Machine.Run(cat, paid, PaidAndMoved());
    SeatPaidAndMoved(cat);
    DollarPriced(cat);
    SeatOpened(cat, [], "");
    assert [] + [OpenSeat("")] == [OpenSeat("")];
    RunStep(cat, SeatShop([]), [OneSeat("")]);
    RunChain(cat, SeatShop([]), paid, t, [OneSeat("")], PaidAndMoved());
    RunChain(cat, EmptyShop([]), SeatShop([]), t, ONE_DOLLAR, [OneSeat("")] + PaidAndMoved());
  }
}
