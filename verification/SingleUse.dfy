/**
 * B2B coupons that may be used once: what the check at checkout guarantees over every run, and
 * what a payment that arrives later can undo.
 */
module SingleUse {
  import opened Prelude
  import opened Money
  import opened CourseCatalogue
  import opened Records
  import opened References
  import opened Orders
  import opened Seats
  import opened BulkOrders
  import opened Machine
  import opened BulkRuns

  /** Bulk orders on which the B2B coupon counts as redeemed. */
  function B2BRedeemers(orders: seq<B2BOrder>, c: nat): set<nat> {
    set k | 0 <= k < |orders| && orders[k].coupon == Some(c)
            && (orders[k].status == Fulfilled || orders[k].status == Refunded)
  }

  predicate IsSingleUse(s: State, c: nat) {
    c < |s.b2bCoupons| && !s.b2bCoupons[c].reusable
  }

  /** Free bulk orders are fulfilled from the start, and no two of them share a single-use coupon. */
  ghost predicate SingleUseFits(s: State) {
    && (forall k :: 0 <= k < |s.b2bOrders| && s.b2bOrders[k].total == 0 ==> s.b2bOrders[k].status == Fulfilled)
    && (forall j, k :: 0 <= j < k < |s.b2bOrders| && s.b2bOrders[j].total == 0 && s.b2bOrders[k].total == 0
                       && s.b2bOrders[j].coupon == s.b2bOrders[k].coupon && s.b2bOrders[j].coupon.Some? ==>
                       !IsSingleUse(s, s.b2bOrders[j].coupon.value))
  }

  lemma CheckOutKeepsSingleUse(s: State, req: BulkRequest, now: int, draws: Draws)
    requires SingleUseFits(s) && BulkCheckout(s, req, now, draws).Ok?
    ensures SingleUseFits(BulkCheckout(s, req, now, draws).value)
  {
    var t := BulkCheckout(s, req, now, draws).value;
    var k := |s.b2bOrders|;
    assert |t.b2bOrders| == k + 1 && t.b2bOrders[..k] == s.b2bOrders;
    var coupon := t.b2bOrders[k].coupon;
    forall j | 0 <= j < k && t.b2bOrders[j].total == 0 && t.b2bOrders[j].coupon == coupon && coupon.Some?
      ensures !IsSingleUse(s, coupon.value)
    {
      assert t.b2bOrders[j] == s.b2bOrders[j];
      assert s.b2bOrders[j].status == Fulfilled;
      assert IsB2BRedeemed(s.b2bOrders, coupon.value);
    }
  }

  lemma MessageKeepsSingleUse(s: State, k: nat, decision: string, draws: Draws)
    requires SingleUseFits(s) && HandleBulkMessage(s, k, decision, draws).Ok?
    ensures SingleUseFits(HandleBulkMessage(s, k, decision, draws).value)
  {
    var t := HandleBulkMessage(s, k, decision, draws).value;
    assert |t.b2bOrders| == |s.b2bOrders| && t.b2bCoupons == s.b2bCoupons;
    forall j | 0 <= j < |t.b2bOrders|
      ensures t.b2bOrders[j].total == s.b2bOrders[j].total && t.b2bOrders[j].coupon == s.b2bOrders[j].coupon
      ensures s.b2bOrders[j].status != Created ==> t.b2bOrders[j] == s.b2bOrders[j]
    {
    }
  }

  lemma BulkStepKeepsSingleUse(s: State, e: Event)
    requires SingleUseFits(s) && IsBulk(e)
    ensures SingleUseFits(BulkStep(s, e)) && BulkStep(s, e).b2bCoupons == s.b2bCoupons
  {
    BulkStepFrame(s, e);
    if e.BulkCheckOut? {
      if BulkCheckout(s, e.bulk, e.now, e.draws).Ok? { CheckOutKeepsSingleUse(s, e.bulk, e.now, e.draws); }
    } else if HandleBulkMessage(s, e.order, e.decision, e.draws).Ok? {
      MessageKeepsSingleUse(s, e.order, e.decision, e.draws);
    }
  }

  lemma StepKeepsSingleUse(cat: Catalogue, s: State, e: Event)
    requires cat.Valid() && SingleUseFits(s)
    ensures SingleUseFits(Step(cat, s, e)) && Step(cat, s, e).b2bCoupons == s.b2bCoupons
  {
    if IsBulk(e) {
      BulkStepKeepsSingleUse(s, e);
    } else {
      OtherStepsKeepBulkOrders(cat, s, e);
    }
  }

  /** Over any run, at most one free bulk order is made with a single-use coupon. */
  lemma {:induction false} RunKeepsSingleUse(cat: Catalogue, s: State, events: seq<Event>)
    requires cat.Valid() && SingleUseFits(s)
    ensures SingleUseFits(Machine.Run(cat, s, events)) && Machine.Run(cat, s, events).b2bCoupons == s.b2bCoupons
    decreases |events|
  {
    if events != [] {
      StepKeepsSingleUse(cat, s, events[0]);
      RunKeepsSingleUse(cat, Step(cat, s, events[0]), events[1..]);
    }
  }

  /** So over any run a single-use coupon whose every redemption was free is redeemed at most once. */
  lemma FreeSingleUseRedeemedOnce(cat: Catalogue, s: State, events: seq<Event>, c: nat)
    requires cat.Valid() && s.b2bOrders == [] && IsSingleUse(s, c)
    requires var t := Machine.Run(cat, s, events);
             forall k :: k in B2BRedeemers(t.b2bOrders, c) ==> t.b2bOrders[k].total == 0
    ensures |B2BRedeemers(Machine.Run(cat, s, events).b2bOrders, c)| <= 1
  {
    RunKeepsSingleUse(cat, s, events);
    var t := Machine.Run(cat, s, events);
    var redeemers := B2BRedeemers(t.b2bOrders, c);
    if redeemers != {} {
      var k :| k in redeemers;
      forall j | j in redeemers ensures j == k {
        assert j < k || k < j || j == k;
      }
      assert redeemers == {k};
    }
  }

  lemma OneMoreRedeemer(orders: seq<B2BOrder>, k: nat, order: B2BOrder, c: nat)
    requires k < |orders| && orders[k].status == Created
    requires order.status == Fulfilled && order.coupon == Some(c)
    ensures var before := B2BRedeemers(orders, c);
            && B2BRedeemers(orders[k := order], c) == before + {k}
            && |before + {k}| == |before| + 1
            && (before == {} <==> !IsB2BRedeemed(orders, c))
  {
    var before := B2BRedeemers(orders, c);
    assert k !in before;
    if j :| j in before {
      assert orders[j].coupon == Some(c);
    }
    if IsB2BRedeemed(orders, c) {
      var j :| 0 <= j < |orders| && orders[j].coupon == Some(c)
               && (orders[j].status == Fulfilled || orders[j].status == Refunded);
      assert j in before;
    }
  }

  /** A paid order redeems its coupon whatever happened since its checkout: once only if it was unredeemed. */
  lemma AcceptKeepsSingleUseExactly(s: State, k: nat, draws: Draws, c: nat)
    requires k < |s.b2bOrders| && s.b2bOrders[k].status == Created && s.b2bOrders[k].coupon == Some(c)
    requires HandleBulkMessage(s, k, ACCEPT, draws).Ok?
    ensures var t := HandleBulkMessage(s, k, ACCEPT, draws).value;
            |B2BRedeemers(t.b2bOrders, c)| <= 1 <==> !IsB2BRedeemed(s.b2bOrders, c)
  {
    var order := s.b2bOrders[k].(status := Fulfilled, payment := Some(|s.book.payments|));
    assert HandleBulkMessage(s, k, ACCEPT, draws).value.b2bOrders == s.b2bOrders[k := order];
    OneMoreRedeemer(s.b2bOrders, k, order, c);
  }

  // ----------------------------------------------------------------------------------------
  // A single-use coupon redeemed twice
  // ----------------------------------------------------------------------------------------

  /** Half off, to be used once. */
  const HALF_OFF := B2BCoupon("S", 50_000, None, false, true, None, None)

  function OpenBulkOrder(): B2BOrder {
    B2BOrder(Created, 1, 0, 50, "", Some(0), None)
  }

  function BulkShop(orders: seq<B2BOrder>): State {
    EmptyShop([HALF_OFF]).(prices := [ProductVersion(0, 100, false)], b2bOrders := orders)
  }

  /** One seat at 1.00 with the coupon. */
  const ONE_SEAT := BulkCheckOut(BulkRequest(1, 0, "S", ""), 0, Draw(""))

  lemma BulkOrderOpened(cat: Catalogue, orders: seq<B2BOrder>)
    requires cat.Valid() && forall k :: 0 <= k < |orders| ==> orders[k].status == Created
    ensures Step(cat, BulkShop(orders), ONE_SEAT) == BulkShop(orders + [OpenBulkOrder()])
  {
    var s := BulkShop(orders);
    assert !IsB2BRedeemed(orders, 0);
    assert FindB2BCoupon(s, 1, "S", 0, 0) == Some(0);
    assert HalfEven(50_000 * 100, AMOUNT_SCALE) == 50;
    assert BulkTotal(100, 1, Some(50_000)) == 50;
  }

  lemma NamesDiffer()
    ensures PaymentName(0, "", Some("S")) != PaymentName(1, "", Some("S"))
  {
    assert PrintNat(0) == "0" && PrintNat(1) == "1";
    assert ("order_" + PrintNat(0) + " " + "S")[6] == '0' && ("order_" + PrintNat(1) + " " + "S")[6] == '1';
  }

  const PRICED: seq<Event> := [AppendPrice(ProductVersion(0, 100, false))]
  const CHECKED_OUT: seq<Event> := [ONE_SEAT, ONE_SEAT]

  function Paid(): seq<Event> {
    [BulkDecide(0, ACCEPT, Draw("a")), BulkDecide(1, ACCEPT, Draw("b"))]
  }

  /** A price, two bulk checkouts with the coupon, then two payments. */
  function UsedTwice(): seq<Event> {
    PRICED + (CHECKED_OUT + Paid())
  }

  lemma BothOpened(cat: Catalogue)
    requires cat.Valid()
    ensures Machine.Run(cat, BulkShop([]), CHECKED_OUT) == BulkShop([OpenBulkOrder(), OpenBulkOrder()])
  {
    var one, two := [OpenBulkOrder()], [OpenBulkOrder(), OpenBulkOrder()];
    BulkOrderOpened(cat, []);
    BulkOrderOpened(cat, one);
    assert [] + [OpenBulkOrder()] == one && one + [OpenBulkOrder()] == two;
    RunTwo(cat, BulkShop([]), BulkShop(one), BulkShop(two), ONE_SEAT, ONE_SEAT);
  }

  ghost predicate IsUsedTwice(t: State) {
    IsSingleUse(t, 0) && |B2BRedeemers(t.b2bOrders, 0)| == 2
  }

  lemma BothPaid(cat: Catalogue)
    requires cat.Valid()
    ensures IsUsedTwice(Machine.Run(cat, BulkShop([OpenBulkOrder(), OpenBulkOrder()]), Paid()))
  {
    var s := BulkShop([OpenBulkOrder(), OpenBulkOrder()]);
    OneSeatPaid(cat, s, 0, "a");
    var first := Step(cat, s, BulkDecide(0, ACCEPT, Draw("a")));
    NamesDiffer();
    OneSeatPaid(cat, first, 1, "b");
    var t := Step(cat, first, BulkDecide(1, ACCEPT, Draw("b")));
    assert B2BRedeemers(t.b2bOrders, 0) == {0, 1};
    RunTwo(cat, s, first, t, BulkDecide(0, ACCEPT, Draw("a")), BulkDecide(1, ACCEPT, Draw("b")));
  }

  lemma PriceMade(cat: Catalogue)
    requires cat.Valid()
    ensures Machine.Run(cat, EmptyShop([HALF_OFF]), PRICED) == BulkShop([])
  {
    RunStep(cat, EmptyShop([HALF_OFF]), PRICED);
  }

  /** Over this run two paid bulk orders redeem a coupon that may be used once. */
  lemma SingleUseRedeemedTwice(cat: Catalogue)
    requires cat.Valid()
    ensures IsUsedTwice(Machine.Run(cat, EmptyShop([HALF_OFF]), UsedTwice()))
  {
    var open := BulkShop([OpenBulkOrder(), OpenBulkOrder()]);
    var t := Machine.Run(cat, open, Paid());
    BothPaid(cat);
    BothOpened(cat);
    PriceMade(cat);
    RunChain(cat, BulkShop([]), open, t, CHECKED_OUT, Paid());
    RunChain(cat, EmptyShop([HALF_OFF]), BulkShop([]), t, PRICED, CHECKED_OUT + Paid());
  }
}
