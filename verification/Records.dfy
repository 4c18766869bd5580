/**
 * The tables of the shop. A row's id is its position in its table, and rows are appended in
 * creation order, so the latest of several rows is the one with the greatest id.
 */
module Records {
  import opened Prelude
  import opened Money

  datatype ProductVersion = ProductVersion(product: nat, price: int, requiresCode: bool)

  datatype CouponType = Promo | SingleUse

  /** The discount terms of a CouponPaymentVersion. */
  datatype Terms = Terms(
    kind: DiscountType,
    amount: int,
    couponType: CouponType,
    automatic: bool,
    company: Option<nat>,
    maxRedemptions: nat,
    maxPerUser: nat,
    activation: Option<int>,
    expiration: Option<int>)

  datatype Coupon = Coupon(code: string, payment: nat, isGlobal: bool, enabled: bool)

  datatype CouponVersion = CouponVersion(coupon: nat, terms: Terms)

  /** Coupons, their versions, the (coupon, product) eligibilities, and the coupon payments' names. */
  datatype CouponBook = CouponBook(
    coupons: seq<Coupon>,
    versions: seq<CouponVersion>,
    eligible: set<(nat, nat)>,
    payments: seq<string>)

  datatype Item = Item(product: nat, quantity: nat, programRun: Option<nat>)

  /** A user's basket with the rows that refer to it. */
  datatype Basket = Basket(items: seq<Item>, runs: set<nat>, coupons: seq<nat>)

  const EMPTY_BASKET := Basket([], {}, [])

  datatype Status = Created | Fulfilled | Failed | Refunded

  /** An order line with its program run and run selections. */
  datatype Line = Line(id: nat, version: nat, quantity: nat, programRun: Option<nat>, runs: set<nat>)

  /** An order with its lines and the coupon versions redeemed on it. */
  datatype Order = Order(
    purchaser: nat,
    status: Status,
    total: int,
    taxRate: int,
    lines: seq<Line>,
    redemptions: seq<nat>)
  {
    predicate IsRedeemed() {
      status == Fulfilled || status == Refunded
    }
  }

  datatype B2BCoupon = B2BCoupon(
    code: string,
    percent: int,
    product: Option<nat>,
    reusable: bool,
    enabled: bool,
    activation: Option<int>,
    expiration: Option<int>)

  datatype B2BOrder = B2BOrder(
    status: Status,
    seats: nat,
    version: nat,
    total: int,
    contract: string,
    coupon: Option<nat>,
    payment: Option<nat>)

  /** A record that complete_order was called for an order, by the $0 checkout or for a CyberSource message. */
  datatype Completion = Completion(order: nat, free: bool)

  datatype State = State(
    baskets: map<nat, Basket>,
    orders: seq<Order>,
    lineCount: nat,
    enrolled: set<(nat, nat)>,       // (user, run) of every active run enrollment
    completions: seq<Completion>,    // history of complete_order calls
    prices: seq<ProductVersion>,
    book: CouponBook,
    b2bCoupons: seq<B2BCoupon>,
    b2bOrders: seq<B2BOrder>)
  {
    /** The user's basket; a basket that does not exist yet is an empty one. */
    function BasketOf(user: nat): Basket {
      if user in baskets then baskets[user] else EMPTY_BASKET
    }

    function EnrolledRuns(user: nat): set<nat> {
      set pair | pair in enrolled && pair.0 == user :: pair.1
    }
  }

  /** The latest version of a product. */
  function LatestVersion(prices: seq<ProductVersion>, product: nat): (v: Option<nat>)
    ensures v.None? <==> forall i :: 0 <= i < |prices| ==> prices[i].product != product
    ensures v.Some? ==>
              v.value < |prices| && prices[v.value].product == product
              && forall i :: v.value < i < |prices| ==> prices[i].product != product
  {
    if prices == [] then None
    else if prices[|prices| - 1].product == product then Some(|prices| - 1)
    else LatestVersion(prices[..|prices| - 1], product)
  }
}
