/**
 * Which bulk checkouts are accepted, what they cost, and which orders can compete for the name of
 * their coupon payment.
 */
module BulkOutcomes {
  import opened Prelude
  import opened Money
  import opened Records
  import opened References
  import opened Seats
  import opened BulkOrders

  // ----------------------------------------------------------------------------------------
  // Price and coupon
  // ----------------------------------------------------------------------------------------

  /** Codes of B2B coupons are unique. */
  ghost predicate B2BCodesDistinct(s: State) {
    forall c, d :: 0 <= c < d < |s.b2bCoupons| ==> s.b2bCoupons[c].code != s.b2bCoupons[d].code
  }

  /** The coupon may be used for the product now, and if it is not reusable, it has not been redeemed. */
  predicate IsRedeemable(s: State, c: nat, code: string, product: nat, now: int) {
    && c < |s.b2bCoupons| && IsUsableB2BCoupon(s, c, code, product, now)
    && (s.b2bCoupons[c].reusable || !IsB2BRedeemed(s.b2bOrders, c))
  }

  /** What it takes to be redeemable: the code, enabled, for the product or for all, and strictly inside the dates. */
  lemma RedeemableMeans(s: State, c: nat, code: string, product: nat, now: int)
    requires c < |s.b2bCoupons|
    ensures var coupon := s.b2bCoupons[c];
            IsRedeemable(s, c, code, product, now) <==>
              && coupon.code == code && coupon.enabled && coupon.product in {None, Some(product)}
              && (match coupon.activation case None => true case Some(from) => from < now)
              && (match coupon.expiration case None => true case Some(until) => now < until)
              && (coupon.reusable || forall k :: 0 <= k < |s.b2bOrders| && s.b2bOrders[k].coupon == Some(c) ==>
                    s.b2bOrders[k].status == Created || s.b2bOrders[k].status == Failed)
  {
  }

  /** A coupon is found by its code exactly if there is a redeemable one. */
  lemma {:induction false} FindB2BCouponExactly(s: State, n: nat, code: string, product: nat, now: int)
    requires B2BCodesDistinct(s) && n <= |s.b2bCoupons|
    ensures FindB2BCoupon(s, n, code, product, now).Some? <==>
              exists c: nat :: c < n && IsRedeemable(s, c, code, product, now)
    ensures FindB2BCoupon(s, n, code, product, now).Some? ==>
              IsRedeemable(s, FindB2BCoupon(s, n, code, product, now).value, code, product, now)
  {
    if n > 0 {
      FindB2BCouponExactly(s, n - 1, code, product, now);
      if IsUsableB2BCoupon(s, n - 1, code, product, now) {
        assert forall c: nat :: c < n - 1 ==> s.b2bCoupons[c].code != s.b2bCoupons[n - 1].code;
        if s.b2bCoupons[n - 1].reusable || !IsB2BRedeemed(s.b2bOrders, n - 1) {
          assert IsRedeemable(s, n - 1, code, product, now);
        }
      }
    }
  }

  /**
   * Exactly which bulk checkouts are accepted: for a product version there is and no negative number
   * of seats, when the contract number, if any, is on no fulfilled order, and the code, if any, is
   * that of a redeemable coupon.
   */
  lemma BulkCheckoutAcceptedExactly(s: State, req: BulkRequest, now: int, draws: Draws)
    requires B2BCodesDistinct(s)
    ensures BulkCheckout(s, req, now, draws).Ok? <==>
              && req.version < |s.prices| && req.seats >= 0
              && (req.contract != "" ==> !ContractUsed(s.b2bOrders, req.contract))
              && (req.code != "" ==>
                    exists c: nat :: c < |s.b2bCoupons|
                                     && IsRedeemable(s, c, req.code, s.prices[req.version].product, now))
  {
    if req.version < |s.prices| {
      FindB2BCouponExactly(s, |s.b2bCoupons|, req.code, s.prices[req.version].product, now);
    }
  }

  /** The same letter, in whatever case, or the same character. */
  predicate SameLetter(a: char, b: char) {
    || a == b
    || ('A' <= a <= 'Z' && b as int == a as int + 32)
    || ('A' <= b <= 'Z' && a as int == b as int + 32)
  }

  /** A contract number of a fulfilled order is refused, in whatever letter case it is given. */
  lemma UsedContractRefused(s: State, k: nat, req: BulkRequest, now: int, draws: Draws)
    requires k < |s.b2bOrders| && s.b2bOrders[k].status == Fulfilled && req.contract != ""
    requires |req.contract| == |s.b2bOrders[k].contract|
    requires forall i :: 0 <= i < |req.contract| ==> SameLetter(req.contract[i], s.b2bOrders[k].contract[i])
    ensures BulkCheckout(s, req, now, draws).Err?
  {
    assert Lower(s.b2bOrders[k].contract) == Lower(req.contract);
  }

  /** The total for a list price with a coupon: the discount is the nearest number of cents, a tie going to even. */
  ghost predicate IsDiscounted(list: int, percent: int, total: int) {
    && IsNearest(percent * list, AMOUNT_SCALE, list - total)
    && (2 * Abs(percent * list - AMOUNT_SCALE * (list - total)) == AMOUNT_SCALE ==> (list - total) % 2 == 0)
  }

  lemma BulkTotalExactly(price: int, seats: int, percent: int, total: int)
    ensures total == BulkTotal(price, seats, Some(percent)) <==> IsDiscounted(price * seats, percent, total)
    ensures BulkTotal(price, seats, None) == price * seats
  {
    HalfEvenSpec(percent * (price * seats), AMOUNT_SCALE, price * seats - total);
  }

  /**
   * What an accepted bulk checkout charges. Without a code the order has no coupon and costs the price
   * of every seat. With one it has a redeemable coupon of that code, and the coupon's part of the
   * price of all seats is taken off, to the nearest cent.
   */
  lemma BulkCheckoutPrice(s: State, req: BulkRequest, now: int, draws: Draws)
    requires B2BCodesDistinct(s) && BulkCheckout(s, req, now, draws).Ok?
    ensures var t := BulkCheckout(s, req, now, draws).value;
            && |t.b2bOrders| == |s.b2bOrders| + 1
            && var order := t.b2bOrders[|s.b2bOrders|];
            && var list := s.prices[req.version].price * req.seats;
            && (req.code == "" ==> order.coupon == None && order.total == list)
            && (req.code != "" ==>
                  && order.coupon.Some?
                  && IsRedeemable(s, order.coupon.value, req.code, s.prices[req.version].product, now)
                  && IsDiscounted(list, s.b2bCoupons[order.coupon.value].percent, order.total))
  {
    var version := s.prices[req.version];
    if req.code != "" {
      FindB2BCouponExactly(s, |s.b2bCoupons|, req.code, version.product, now);
      var c := FindB2BCoupon(s, |s.b2bCoupons|, req.code, version.product, now).value;
      var percent := s.b2bCoupons[c].percent;
      BulkTotalExactly(version.price, req.seats, percent, BulkTotal(version.price, req.seats, Some(percent)));
    }
  }

  // ----------------------------------------------------------------------------------------
  // Payment names
  // ----------------------------------------------------------------------------------------

  /** Numbers printed before a space, or at the end, can be told apart. */
  lemma NumbersDiffer(j: nat, k: nat, a: string, b: string)
    requires j != k
    ensures PrintNat(j) + " " + a != PrintNat(k) + " " + b
    ensures PrintNat(j) != PrintNat(k)
  {
    ParseIntPrint(j);
    ParseIntPrint(k);
    var p, q := PrintNat(j), PrintNat(k);
    if |p| < |q| {
      assert (p + " " + a)[|p|] == ' ' && IsDigit((q + " " + b)[|p|]);
    } else if |q| < |p| {
      assert (q + " " + b)[|q|] == ' ' && IsDigit((p + " " + a)[|q|]);
    } else {
      assert (p + " " + a)[..|p|] == p && (q + " " + b)[..|q|] == q;
    }
  }

  /** A name with a coupon starts with the order's number. */
  lemma NameWithCoupon(id: nat, contract: string, coupon: string)
    ensures exists rest: string :: PaymentName(id, contract, Some(coupon)) == "order_" + (PrintNat(id) + " " + rest)
  {
    var rest := if contract != "" then contract + " " + coupon else coupon;
    assert PaymentName(id, contract, Some(coupon)) == "order_" + (PrintNat(id) + " " + rest);
  }

  /** The name tells the contract number, and with a coupon ends with the coupon's code. */
  lemma PaymentNameTells(id: nat, contract: string, coupon: Option<string>)
    ensures var name := PaymentName(id, contract, coupon);
            && (coupon.Some? ==> exists start: string :: name == start + coupon.value)
            && (contract != "" ==> exists start: string, end: string :: name == start + contract + end)
  {
    var name := PaymentName(id, contract, coupon);
    if coupon.Some? && contract != "" {
      var start := "order_" + PrintNat(id) + " ";
      assert name == start + contract + (" " + coupon.value);
      assert name == (start + contract + " ") + coupon.value;
    } else if contract != "" {
      assert name == "" + contract + "";
    } else if coupon.Some? {
      assert name == ("order_" + PrintNat(id) + " ") + coupon.value;
    }
  }

  lemma SamePrefix(prefix: string, a: string, b: string)
    ensures prefix + a == prefix + b <==> a == b
  {
    assert (prefix + a)[|prefix|..] == a && (prefix + b)[|prefix|..] == b;
  }

  /** Two orders can want one payment name only if one of them has a contract number and no coupon. */
  lemma PaymentNamesCompete(
      j: nat, k: nat, contract: string, other: string, coupon: Option<string>, second: Option<string>)
    requires j != k && PaymentName(j, contract, coupon) == PaymentName(k, other, second)
    ensures (contract != "" && coupon.None?) || (other != "" && second.None?)
  {
    var p, q := PaymentName(j, contract, coupon), PaymentName(k, other, second);
    if coupon.Some? {
      NameWithCoupon(j, contract, coupon.value);
      assert p[0] == 'o';
    }
    if second.Some? {
      NameWithCoupon(k, other, second.value);
      assert q[0] == 'o';
    }
    if coupon.Some? && second.Some? {
      var a: string :| p == "order_" + (PrintNat(j) + " " + a);
      var b: string :| q == "order_" + (PrintNat(k) + " " + b);
      NumbersDiffer(j, k, a, b);
      SamePrefix("order_", PrintNat(j) + " " + a, PrintNat(k) + " " + b);
    } else if coupon.None? && contract == "" && second.None? && other == "" {
      NumbersDiffer(j, k, "", "");
      SamePrefix("CouponPayment for order #", PrintNat(j), PrintNat(k));
    } else {
      assert coupon.None? && contract == "" ==> p[0] == 'C';
      assert second.None? && other == "" ==> q[0] == 'C';
    }
  }
}
