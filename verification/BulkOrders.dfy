/** B2B orders: checkout, CyberSource messages, and the enrollment codes a fulfilled order owns. */
module BulkOrders {
  import opened Prelude
  import opened Money
  import opened Records
  import opened References
  import opened Baskets
  import opened Orders
  import opened Seats

  /** 100% off, redeemable once. */
  const SEAT_TERMS := Terms(PercentOff, AMOUNT_SCALE, SingleUse, false, None, 1, 1, None, None)

  // ----------------------------------------------------------------------------------------
  // Completing an order
  // ----------------------------------------------------------------------------------------

  /** The name complete_b2b_order gives to the coupon payment; payment names are unique. */
  function PaymentName(id: nat, contract: string, coupon: Option<string>): string {
    if coupon.Some? && contract != "" then "order_" + PrintNat(id) + " " + contract + " " + coupon.value
    else if contract != "" then contract
    else if coupon.Some? then "order_" + PrintNat(id) + " " + coupon.value
    else "CouponPayment for order #" + PrintNat(id)
  }

  function CouponCodeOf(s: State, order: B2BOrder): Option<string> {
    if order.coupon.Some? && order.coupon.value < |s.b2bCoupons|
    then Some(s.b2bCoupons[order.coupon.value].code) else None
  }

  /** The create_coupons call for an order: one code for each seat. */
  function SeatIssue(s: State, k: nat): Issue
    requires k < |s.b2bOrders| && s.b2bOrders[k].version < |s.prices|
  {
    var order := s.b2bOrders[k];
    Issue(PaymentName(k, order.contract, CouponCodeOf(s, order)), [s.prices[order.version].product],
          SEAT_TERMS, order.seats, "", false)
  }

  /** complete_b2b_order on an order whose status is being set to fulfilled. */
  function CompleteBulk(s: State, k: nat, draws: Draws): Result<State, IssueError>
    requires k < |s.b2bOrders| && s.b2bOrders[k].version < |s.prices|
  {
    var book :- CreateCoupons(s.book, SeatIssue(s, k), draws);
    Ok(s.(book := book,
          b2bOrders := s.b2bOrders[k := s.b2bOrders[k].(status := Fulfilled, payment := Some(|s.book.payments|))]))
  }

  datatype BulkError = Refused(reason: Rejection) | CodesNotCreated(cause: IssueError)

  /** fulfill_b2b_order: if the codes cannot be created, nothing is saved. */
  function HandleBulkMessage(s: State, k: nat, decision: string, draws: Draws): Result<State, BulkError> {
    if k >= |s.b2bOrders| || s.b2bOrders[k].version >= |s.prices| then Err(Refused(UnknownOrder))
    else
      match StatusChange(s.b2bOrders[k].status, decision)
      case Err(reason) => Err(Refused(reason))
      case Ok(None) => Ok(s)
      case Ok(Some(status)) =>
        if status == Fulfilled then
          match CompleteBulk(s, k, draws)
          case Err(cause) => Err(CodesNotCreated(cause))
          case Ok(t) => Ok(t)
        else Ok(s.(b2bOrders := s.b2bOrders[k := s.b2bOrders[k].(status := status)]))
  }

  // ----------------------------------------------------------------------------------------
  // Checkout
  // ----------------------------------------------------------------------------------------

  datatype BulkRequest = BulkRequest(seats: int, version: nat, code: string, contract: string)

  function Lower(text: string): string {
    seq(|text|, i requires 0 <= i < |text| =>
      if 'A' <= text[i] <= 'Z' then text[i] - 'A' + 'a' else text[i])
  }

  predicate ContractUsed(orders: seq<B2BOrder>, contract: string) {
    exists k :: 0 <= k < |orders| && orders[k].status == Fulfilled && Lower(orders[k].contract) == Lower(contract)
  }

  predicate IsUsableB2BCoupon(s: State, c: nat, code: string, product: nat, now: int)
    requires c < |s.b2bCoupons|
  {
    var coupon := s.b2bCoupons[c];
    && coupon.code == code
    && coupon.enabled
    && (coupon.product.None? || coupon.product == Some(product))
    && (coupon.activation.Some? ==> coupon.activation.value < now)
    && (coupon.expiration.Some? ==> coupon.expiration.value > now)
  }

  predicate IsB2BRedeemed(orders: seq<B2BOrder>, c: nat) {
    exists k :: 0 <= k < |orders| && orders[k].coupon == Some(c)
                && (orders[k].status == Fulfilled || orders[k].status == Refunded)
  }

  /** B2BCouponManager.get_unexpired_coupon, scanning the coupons below n. */
  function FindB2BCoupon(s: State, n: nat, code: string, product: nat, now: int): (c: Option<nat>)
    requires n <= |s.b2bCoupons|
    ensures c.Some? ==>
              c.value < |s.b2bCoupons| && IsUsableB2BCoupon(s, c.value, code, product, now)
              && (s.b2bCoupons[c.value].reusable || !IsB2BRedeemed(s.b2bOrders, c.value))
  {
    if n == 0 then None
    else if IsUsableB2BCoupon(s, n - 1, code, product, now) then
      if !s.b2bCoupons[n - 1].reusable && IsB2BRedeemed(s.b2bOrders, n - 1) then None else Some(n - 1)
    else FindB2BCoupon(s, n - 1, code, product, now)
  }

  /** The price of all seats less the discount, which round() takes half-even to cents. */
  function BulkTotal(price: int, seats: int, percent: Option<int>): int {
    var total := price * seats;
    if percent.None? then total else total - HalfEven(percent.value * total, AMOUNT_SCALE)
  }

  /** B2BCheckoutView.post; a free order is saved as fulfilled before its codes are created. */
  function BulkCheckout(s: State, req: BulkRequest, now: int, draws: Draws): Result<State, Rejection> {
    if req.contract != "" && ContractUsed(s.b2bOrders, req.contract) then Err(InvalidRequest)
    else if req.version >= |s.prices| then Err(NoVersion)
    else
      var version := s.prices[req.version];
      var coupon := if req.code == "" then None
                    else FindB2BCoupon(s, |s.b2bCoupons|, req.code, version.product, now);
      if req.code != "" && coupon.None? then Err(CouponInvalid)
      else if req.seats < 0 then Err(InvalidRequest)
      else
        var percent := if coupon.Some? then Some(s.b2bCoupons[coupon.value].percent) else None;
        var total := BulkTotal(version.price, req.seats, percent);
        var order := B2BOrder(if total == 0 then Fulfilled else Created,
                              req.seats, req.version, total, req.contract, coupon, None);
        var saved := s.(b2bOrders := s.b2bOrders + [order]);
        if total != 0 then Ok(saved)
        else
          match CompleteBulk(saved, |s.b2bOrders|, draws)
          case Err(_) => Ok(saved)
          case Ok(t) => Ok(t)
  }

  // ----------------------------------------------------------------------------------------
  // When an order gets its codes
  // ----------------------------------------------------------------------------------------

  /**
   * What it takes to give order k its codes: its payment name is not taken, and the codes drawn, or
   * those left after replacing the taken ones, are new and differ from each other.
   */
  predicate CanIssueSeats(s: State, k: nat, order: B2BOrder, draws: Draws) {
    var drawn := DrawnCodes(order.seats, "", draws);
    && PaymentName(k, order.contract, CouponCodeOf(s, order)) !in s.book.payments
    && (CanInsert(s.book, drawn) || CanInsert(s.book, ReplacedCodes(s.book, drawn, draws)))
  }

  lemma CompleteBulkExactly(s: State, k: nat, draws: Draws)
    requires k < |s.b2bOrders| && s.b2bOrders[k].version < |s.prices|
    ensures CompleteBulk(s, k, draws).Ok? <==> CanIssueSeats(s, k, s.b2bOrders[k], draws)
    ensures CompleteBulk(s, k, draws) == Err(NameTaken) <==>
              PaymentName(k, s.b2bOrders[k].contract, CouponCodeOf(s, s.b2bOrders[k])) in s.book.payments
  {
    var issue := SeatIssue(s, k);
    assert !HasDuplicates(issue.products);
    CreateCouponsExactly(s.book, issue, draws);
  }

  /**
   * An accepted bulk checkout appends one order. If it is not free it stays open and no code is
   * created. If it is free it is fulfilled, and it has its codes exactly when they could be issued.
   */
  lemma BulkCheckoutExactly(s: State, req: BulkRequest, now: int, draws: Draws)
    requires BulkCheckout(s, req, now, draws).Ok?
    ensures var t := BulkCheckout(s, req, now, draws).value;
            var k := |s.b2bOrders|;
            && |t.b2bOrders| == k + 1 && t.b2bOrders[..k] == s.b2bOrders
            && t == s.(book := t.book, b2bOrders := t.b2bOrders)
            && var order := t.b2bOrders[k];
            && order.seats == req.seats && order.contract == req.contract && order.version == req.version
            && (order.total != 0 ==> order.status == Created && order.payment.None? && t.book == s.book)
            && (order.total == 0 ==> order.status == Fulfilled)
            && (order.total == 0 ==> (order.payment.Some? <==> CanIssueSeats(s, k, order, draws)))
            && (order.payment.None? ==> t.book == s.book)
  {
    var t := BulkCheckout(s, req, now, draws).value;
    var k := |s.b2bOrders|;
    var saved := s.(b2bOrders := s.b2bOrders + [t.b2bOrders[k].(payment := None)]);
    if t.b2bOrders[k].total == 0 {
      CompleteBulkExactly(saved, k, draws);
      assert CouponCodeOf(saved, saved.b2bOrders[k]) == CouponCodeOf(s, t.b2bOrders[k]);
    }
  }

  /** The checkout is accepted, and its order is not free or its codes can be issued. */
  predicate CheckoutSucceeds(s: State, req: BulkRequest, now: int, draws: Draws) {
    var t := BulkCheckout(s, req, now, draws);
    var k := |s.b2bOrders|;
    && t.Ok? && k < |t.value.b2bOrders|
    && (t.value.b2bOrders[k].total != 0 || CanIssueSeats(s, k, t.value.b2bOrders[k], draws))
  }

  lemma CheckoutSucceedsExactly(s: State, req: BulkRequest, now: int, draws: Draws)
    ensures var t := BulkCheckout(s, req, now, draws);
            var k := |s.b2bOrders|;
            && (t.Ok? ==> |t.value.b2bOrders| == k + 1)
            && (CheckoutSucceeds(s, req, now, draws) <==>
                  t.Ok? && (t.value.b2bOrders[k].total != 0 || t.value.b2bOrders[k].payment.Some?))
  {
    if BulkCheckout(s, req, now, draws).Ok? {
      BulkCheckoutExactly(s, req, now, draws);
    }
  }

  lemma HalfEvenRange(n: int, d: int, k: int)
    requires d > 0 && 0 <= n <= d * k
    ensures 0 <= HalfEven(n, d) <= k
    ensures n == d * k ==> HalfEven(n, d) == k
  {
    HalfEvenSpec(n, d, HalfEven(n, d));
    DivBounds(n, d);
    if n == d * k {
      HalfEvenSpec(n, d, k);
    } else if n / d >= k {
      if n / d > k { MulOrder(d, k, n / d); }
    }
    if n / d < 0 {
      MulOrder(d, n / d, 0);
    }
  }

  /** A B2B coupon between 0 and 100% never makes the total negative or larger, and 100% makes it zero. */
  lemma BulkTotalBounds(price: int, seats: int, percent: int)
    requires price >= 0 && seats >= 0 && 0 <= percent <= AMOUNT_SCALE
    ensures 0 <= BulkTotal(price, seats, Some(percent)) <= price * seats == BulkTotal(price, seats, None)
    ensures percent == AMOUNT_SCALE ==> BulkTotal(price, seats, Some(percent)) == 0
  {
    assert price * seats >= 0;
    ScaleMonotone(percent, AMOUNT_SCALE, price * seats);
    HalfEvenRange(percent * (price * seats), AMOUNT_SCALE, price * seats);
  }

  // ----------------------------------------------------------------------------------------
  // The invariant of bulk orders and their codes
  // ----------------------------------------------------------------------------------------

  /** The order's payment, if any, owns one code for each seat. */
  ghost predicate OwnsSeats(s: State, order: B2BOrder) {
    order.payment.Some? ==>
      (order.payment.value < |s.book.payments|
      && (order.status == Fulfilled || order.status == Refunded)
      && |CouponsOf(s.book, order.payment.value)| == order.seats)
  }

  ghost predicate BulkFits(s: State) {
    && BookFits(s.book)
    && (forall k :: 0 <= k < |s.b2bOrders| ==> s.b2bOrders[k].version < |s.prices|)
    && (forall k :: 0 <= k < |s.b2bOrders| ==> OwnsSeats(s, s.b2bOrders[k]))
    && (forall j, k :: 0 <= j < k < |s.b2bOrders| && s.b2bOrders[j].payment.Some? ==>
          s.b2bOrders[j].payment != s.b2bOrders[k].payment)
  }

  /** A change of coupons that leaves every payment its coupons leaves every order its seats. */
  lemma SeatsKept(s: State, t: State)
    requires BulkFits(s) && BookFits(t.book)
    requires t.b2bOrders == s.b2bOrders && s.prices <= t.prices && |s.book.payments| <= |t.book.payments|
    requires forall p: nat :: p < |s.book.payments| ==> CouponsOf(t.book, p) == CouponsOf(s.book, p)
    ensures BulkFits(t)
  {
    forall k | 0 <= k < |t.b2bOrders| ensures OwnsSeats(t, t.b2bOrders[k]) {
      assert OwnsSeats(s, s.b2bOrders[k]);
    }
  }

  lemma IssueFits(s: State, issue: Issue, draws: Draws)
    requires BulkFits(s) && CreateCoupons(s.book, issue, draws).Ok?
    ensures BulkFits(s.(book := CreateCoupons(s.book, issue, draws).value))
  {
    CreatedBookFits(s.book, issue, draws);
    CreatedCoupons(s.book, issue, draws);
    SeatsKept(s, s.(book := CreateCoupons(s.book, issue, draws).value));
  }

  /**
   * Completing an order gives it exactly its seats, each code with the one version and the one
   * eligibility it should have, and takes nothing from the others.
   */
  lemma CompleteBulkFits(s: State, k: nat, draws: Draws)
    requires BulkFits(s) && k < |s.b2bOrders| && s.b2bOrders[k].payment.None?
    requires CompleteBulk(s, k, draws).Ok?
    ensures var t := CompleteBulk(s, k, draws).value;
            && BulkFits(t) && t.b2bOrders[k].payment.Some?
            && forall c :: c in CouponsOf(t.book, t.b2bOrders[k].payment.value) ==>
                 IsIssuedAs(t.book, c, false, SEAT_TERMS, [s.prices[s.b2bOrders[k].version].product])
  {
    var issue := SeatIssue(s, k);
    var t := CompleteBulk(s, k, draws).value;
    CreateCouponsSpec(s.book, issue, draws);
    forall j | 0 <= j < |t.b2bOrders| ensures OwnsSeats(t, t.b2bOrders[j]) {
      if j != k {
        assert OwnsSeats(s, s.b2bOrders[j]);
      }
    }
    forall j | 0 <= j < |t.b2bOrders| && j != k && t.b2bOrders[j].payment.Some?
      ensures t.b2bOrders[j].payment != t.b2bOrders[k].payment
    {
      assert OwnsSeats(s, s.b2bOrders[j]);
    }
  }

  /** Orders without a payment are not fulfilled by a message, so a message finds none to repeat. */
  lemma BulkMessageFits(s: State, k: nat, decision: string, draws: Draws)
    requires BulkFits(s) && HandleBulkMessage(s, k, decision, draws).Ok?
    ensures BulkFits(HandleBulkMessage(s, k, decision, draws).value)
  {
    assert OwnsSeats(s, s.b2bOrders[k]);
    var t := HandleBulkMessage(s, k, decision, draws).value;
    if s.b2bOrders[k].status == Created {
      if decision == ACCEPT {
        CompleteBulkFits(s, k, draws);
      } else {
        forall j | 0 <= j < |t.b2bOrders| ensures OwnsSeats(t, t.b2bOrders[j]) {
          assert OwnsSeats(s, s.b2bOrders[j]);
        }
      }
    }
  }

  lemma AppendBulkOrderFits(s: State, order: B2BOrder)
    requires BulkFits(s) && order.version < |s.prices| && order.payment.None?
    ensures BulkFits(s.(b2bOrders := s.b2bOrders + [order]))
  {
    var t := s.(b2bOrders := s.b2bOrders + [order]);
    forall k | 0 <= k < |t.b2bOrders| ensures OwnsSeats(t, t.b2bOrders[k]) {
      if k < |s.b2bOrders| {
        assert OwnsSeats(s, s.b2bOrders[k]);
      }
    }
  }

  lemma BulkCheckoutFits(s: State, req: BulkRequest, now: int, draws: Draws)
    requires BulkFits(s) && BulkCheckout(s, req, now, draws).Ok?
    ensures BulkFits(BulkCheckout(s, req, now, draws).value)
  {
    var k := |s.b2bOrders|;
    var t := BulkCheckout(s, req, now, draws).value;
    var order := t.b2bOrders[k].(payment := None);
    var saved := s.(b2bOrders := s.b2bOrders + [order]);
    AppendBulkOrderFits(s, order);
    if t.b2bOrders[k].payment.Some? {
      assert CompleteBulk(saved, k, draws) == Ok(t);
      CompleteBulkFits(saved, k, draws);
    } else {
      assert t == saved;
    }
  }

  // ----------------------------------------------------------------------------------------
  // What the invariant says about codes
  // ----------------------------------------------------------------------------------------

  /** The seats of those among the first n orders that count. */
  function SeatsWhere(orders: seq<B2BOrder>, n: nat, counts: B2BOrder -> bool): nat
    requires n <= |orders|
  {
    if n == 0 then 0
    else SeatsWhere(orders, n - 1, counts) + if counts(orders[n - 1]) then orders[n - 1].seats else 0
  }

  /** The order has been given its codes. */
  function HasCodes(): B2BOrder -> bool {
    (order: B2BOrder) => order.payment.Some?
  }

  /** The payment belongs to one of the first n orders. */
  predicate IsSeatPayment(orders: seq<B2BOrder>, n: nat, payment: nat)
    requires n <= |orders|
  {
    exists k :: 0 <= k < n && orders[k].payment == Some(payment)
  }

  /** The codes created for the first n orders. */
  function SeatCodes(s: State, n: nat): set<nat>
    requires n <= |s.b2bOrders|
  {
    set c | 0 <= c < |s.book.coupons| && IsSeatPayment(s.b2bOrders, n, s.book.coupons[c].payment)
  }

  lemma SeatCodesStep(s: State, n: nat)
    requires BulkFits(s) && 0 < n <= |s.b2bOrders|
    ensures var payment := s.b2bOrders[n - 1].payment;
            var own := if payment.Some? then CouponsOf(s.book, payment.value) else {};
            SeatCodes(s, n) == SeatCodes(s, n - 1) + own && SeatCodes(s, n - 1) !! own
  {
    var payment := s.b2bOrders[n - 1].payment;
    forall p: nat
      ensures IsSeatPayment(s.b2bOrders, n, p) <==> (IsSeatPayment(s.b2bOrders, n - 1, p) || payment == Some(p))
    {
      if payment == Some(p) {
        assert s.b2bOrders[n - 1].payment == Some(p);
      }
    }
  }

  /** Codes created for bulk orders number exactly the seats of the orders that have their codes. */
  lemma {:induction false} SeatCodesCount(s: State, n: nat)
    requires BulkFits(s) && n <= |s.b2bOrders|
    ensures |SeatCodes(s, n)| == SeatsWhere(s.b2bOrders, n, HasCodes())
  {
    if n == 0 {
      assert SeatCodes(s, 0) == {};
    } else {
      SeatCodesCount(s, n - 1);
      var order := s.b2bOrders[n - 1];
      assert OwnsSeats(s, order);
      SeatCodesStep(s, n);
    }
  }

  // ----------------------------------------------------------------------------------------
  // Sequences of messages about one bulk order
  // ----------------------------------------------------------------------------------------

  datatype BulkMessage = BulkMessage(decision: string, draws: Draws)

  function HandleBulkMessages(s: State, k: nat, messages: seq<BulkMessage>): State
    decreases |messages|
  {
    if messages == [] then s
    else
      match HandleBulkMessage(s, k, messages[0].decision, messages[0].draws)
      case Err(_) => HandleBulkMessages(s, k, messages[1..])
      case Ok(t) => HandleBulkMessages(t, k, messages[1..])
  }

  lemma {:induction false} SettledBulkOrderIgnoresMessages(s: State, k: nat, messages: seq<BulkMessage>)
    requires k < |s.b2bOrders| && s.b2bOrders[k].status != Created
    ensures HandleBulkMessages(s, k, messages) == s
  {
    if messages != [] {
      SettledBulkOrderIgnoresMessages(s, k, messages[1..]);
    }
  }

  /**
   * The first message to an open bulk order takes effect exactly if it declines or the order's codes
   * can be issued; then the status is as decided, and codes exist only if it accepts.
   */
  lemma BulkMessageEffect(s: State, k: nat, decision: string, draws: Draws)
    requires k < |s.b2bOrders| && s.b2bOrders[k].status == Created && s.b2bOrders[k].version < |s.prices|
    ensures HandleBulkMessage(s, k, decision, draws).Ok? <==>
              decision != ACCEPT || CanIssueSeats(s, k, s.b2bOrders[k], draws)
    ensures HandleBulkMessage(s, k, decision, draws).Ok? ==>
              var t := HandleBulkMessage(s, k, decision, draws).value;
              && t == s.(book := t.book, b2bOrders := t.b2bOrders)
              && t.b2bOrders == s.b2bOrders[k := s.b2bOrders[k].(
                   status := if decision == ACCEPT then Fulfilled else Failed,
                   payment := if decision == ACCEPT then Some(|s.book.payments|) else s.b2bOrders[k].payment)]
              && (decision != ACCEPT ==> t.book == s.book)
  {
    CompleteBulkExactly(s, k, draws);
  }

  /**
   * For any sequence of messages about an open bulk order, the first one that is handled decides
   * the whole state; messages whose codes could not be created before it leave the order open.
   */
  lemma {:induction false} FirstHandledBulkMessageDecides(s: State, k: nat, messages: seq<BulkMessage>, i: nat)
    requires k < |s.b2bOrders| && s.b2bOrders[k].status == Created && s.b2bOrders[k].version < |s.prices|
    requires i < |messages|
    requires forall j :: 0 <= j < i ==>
               HandleBulkMessage(s, k, messages[j].decision, messages[j].draws).Err?
    requires HandleBulkMessage(s, k, messages[i].decision, messages[i].draws).Ok?
    ensures HandleBulkMessages(s, k, messages)
         == HandleBulkMessage(s, k, messages[i].decision, messages[i].draws).value
  {
    if i == 0 {
      BulkMessageEffect(s, k, messages[0].decision, messages[0].draws);
      SettledBulkOrderIgnoresMessages(
        HandleBulkMessage(s, k, messages[0].decision, messages[0].draws).value, k, messages[1..]);
    } else {
      FirstHandledBulkMessageDecides(s, k, messages[1..], i - 1);
    }
  }

  /**
   * Two open orders with the same contract number and no coupon share a payment name, so once one
   * has its codes, accepting the other fails and leaves it open although it has been paid.
   */
  lemma SharedContractStaysOpen(s: State, j: nat, k: nat, draws: Draws, later: Draws)
    requires BulkFits(s) && j < |s.b2bOrders| && k < |s.b2bOrders| && j != k
    requires s.b2bOrders[j].status == Created && s.b2bOrders[k].status == Created
    requires s.b2bOrders[j].contract == s.b2bOrders[k].contract != ""
    requires s.b2bOrders[j].coupon.None? && s.b2bOrders[k].coupon.None?
    requires HandleBulkMessage(s, j, ACCEPT, draws).Ok?
    ensures HandleBulkMessage(HandleBulkMessage(s, j, ACCEPT, draws).value, k, ACCEPT, later)
         == Err(CodesNotCreated(NameTaken))
  {
    var t := HandleBulkMessage(s, j, ACCEPT, draws).value;
    var name := SeatIssue(s, j).name;
    assert t.book.payments == s.book.payments + [name];
    assert SeatIssue(t, k).name == name;
  }
}
