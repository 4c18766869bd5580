/**
 * The shop as a state machine: every request is one step. A request that is refused leaves the state
 * as it is; one that an exception stops leaves what it had saved. The theorems hold for every
 * sequence of steps.
 */
module Machine {
  import opened Prelude
  import opened CourseCatalogue
  import opened Records
  import opened Coupons
  import opened Baskets
  import opened Orders
  import opened Seats
  import opened BulkOrders

  datatype Event =
    | UpdateBasket(user: nat, req: Request, m: Moment)
    | CheckOut(user: nat, taxRate: int, m: Moment, ending: Ending)
    | Decide(order: nat, decision: string, ending: Ending)
    | RefundOrder(order: nat)
    | DropBaskets(users: set<nat>)
    | ChangeEnrollments(enrolled: set<(nat, nat)>)
    | AppendPrice(price: ProductVersion)
    | UpdatePromo(promo: PromoChange)
    | IssueCoupons(issue: Issue, draws: Draws)
    | DisableCoupons(coupons: set<nat>)
    | BulkCheckOut(bulk: BulkRequest, now: int, draws: Draws)
    | BulkDecide(order: nat, decision: string, draws: Draws)

  function Disable(coupons: seq<Coupon>, disabled: set<nat>): seq<Coupon> {
    seq(|coupons|, i requires 0 <= i < |coupons| =>
      if i in disabled then coupons[i].(enabled := false) else coupons[i])
  }

  /** A promo update: new dates, products and scope for one coupon. */
  datatype PromoChange = PromoChange(
    coupon: nat, isGlobal: bool, activation: Option<int>, expiration: Option<int>, products: set<nat>)

  /** The latest terms of a payment: those of the latest version of any of its coupons. */
  function LatestTerms(book: CouponBook, n: nat, payment: nat): (terms: Option<Terms>)
    requires n <= |book.versions|
    ensures terms.None? <==> forall v :: 0 <= v < n ==> PaymentOf(book, v) != Some(payment)
    ensures terms.Some? ==>
              exists v :: 0 <= v < n && PaymentOf(book, v) == Some(payment) && book.versions[v].terms == terms.value
                          && forall w :: v < w < n ==> PaymentOf(book, w) != Some(payment)
  {
    if n == 0 then None
    else if PaymentOf(book, n - 1) == Some(payment) then Some(book.versions[n - 1].terms)
    else LatestTerms(book, n - 1, payment)
  }

  /** The payment that the version's coupon was created for. */
  function PaymentOf(book: CouponBook, v: nat): Option<nat>
    requires v < |book.versions|
  {
    var c := book.versions[v].coupon;
    if c < |book.coupons| then Some(book.coupons[c].payment) else None
  }

  /** The version a promo update writes: the payment's latest terms with the new dates. */
  function PromoVersion(book: CouponBook, promo: PromoChange): Option<CouponVersion>
    requires promo.coupon < |book.coupons|
  {
    match LatestTerms(book, |book.versions|, book.coupons[promo.coupon].payment)
    case None => None
    case Some(terms) =>
      Some(CouponVersion(promo.coupon, terms.(activation := promo.activation, expiration := promo.expiration)))
  }

  /** Any coupon can be updated, a code of a bulk order too. */
  predicate CanUpdatePromo(s: State, promo: PromoChange) {
    promo.coupon < |s.book.coupons| && PromoVersion(s.book, promo).Some?
  }

  /** Give the coupon its new version, and replace its eligibilities and whether it is global. */
  function PromoUpdated(book: CouponBook, promo: PromoChange): CouponBook
    requires promo.coupon < |book.coupons| && PromoVersion(book, promo).Some?
  {
    var c := promo.coupon;
    CouponBook(
      book.coupons[c := book.coupons[c].(isGlobal := promo.isGlobal)],
      book.versions + [PromoVersion(book, promo).value],
      (set pair | pair in book.eligible && pair.0 != c) + (set p | p in promo.products :: (c, p)),
      book.payments)
  }

  /** The steps that write coupons and nothing else. */
  predicate WritesBookOnly(e: Event) {
    e.UpdatePromo? || e.IssueCoupons? || e.DisableCoupons?
  }

  function BookStep(s: State, e: Event): State
    requires WritesBookOnly(e)
  {
    match e
    case UpdatePromo(promo) => if CanUpdatePromo(s, promo) then s.(book := PromoUpdated(s.book, promo)) else s
    case IssueCoupons(issue, draws) => s.(book := IssuedBook(s.book, issue, draws))
    case DisableCoupons(disabled) => s.(book := s.book.(coupons := Disable(s.book.coupons, disabled)))
  }

  /** The steps that concern bulk orders. */
  predicate IsBulk(e: Event) {
    e.BulkCheckOut? || e.BulkDecide?
  }

  function BulkStep(s: State, e: Event): State
    requires IsBulk(e)
  {
    match e
    case BulkCheckOut(req, now, draws) => OrElse(BulkCheckout(s, req, now, draws), s)
    case BulkDecide(k, decision, draws) =>
      match HandleBulkMessage(s, k, decision, draws)
      case Err(_) => s
      case Ok(t) => t
  }

  /** The steps that write neither orders nor coupons. */
  predicate IsQuiet(e: Event) {
    e.DropBaskets? || e.ChangeEnrollments? || e.AppendPrice?
  }

  function QuietStep(s: State, e: Event): State
    requires IsQuiet(e)
  {
    match e
    case DropBaskets(users) => s.(baskets := s.baskets - users)
    case ChangeEnrollments(enrolled) => s.(enrolled := enrolled)
    case AppendPrice(price) => s.(prices := s.prices + [price])
  }

  /** The steps that touch no order of the shop. */
  predicate IsOffCheckout(e: Event) {
    WritesBookOnly(e) || IsBulk(e) || IsQuiet(e)
  }

  /** The steps that concern baskets and orders of the shop. */
  function CheckoutStep(cat: Catalogue, s: State, e: Event): State
    requires cat.Valid() && !IsOffCheckout(e)
  {
    match e
    case UpdateBasket(user, req, m) => OrElse(Update(cat, s, user, req, m), s)
    case CheckOut(user, taxRate, m, ending) => OrElse(Checkout(cat, s, user, taxRate, m, ending), s)
    case Decide(k, decision, ending) => OrElse(HandleMessage(s, k, decision, ending), s)
    case RefundOrder(k) =>
      if k < |s.orders| && s.orders[k].IsRedeemed()
      then s.(orders := s.orders[k := s.orders[k].(status := Refunded)]) else s
  }

  function Step(cat: Catalogue, s: State, e: Event): State
    requires cat.Valid()
  {
    if WritesBookOnly(e) then BookStep(s, e)
    else if IsBulk(e) then BulkStep(s, e)
    else if IsQuiet(e) then QuietStep(s, e)
    else CheckoutStep(cat, s, e)
  }

  /** A shop in which nothing has happened yet; B2B coupons are made by hand beforehand. */
  function EmptyShop(b2bCoupons: seq<B2BCoupon>): State {
    State(map[], [], 0, {}, [], [], CouponBook([], [], {}, []), b2bCoupons, [])
  }

  function OrElse(r: Result<State, Rejection>, s: State): State {
    match r
    case Ok(t) => t
    case Err(_) => s
  }

  function Run(cat: Catalogue, s: State, events: seq<Event>): State
    requires cat.Valid()
    decreases |events|
  {
    if events == [] then s else Run(cat, Step(cat, s, events[0]), events[1..])
  }

  /** A run takes its first step and goes on from there. */
  lemma RunStep(cat: Catalogue, s: State, events: seq<Event>)
    requires cat.Valid() && events != []
    ensures Run(cat, s, events) == Run(cat, Step(cat, s, events[0]), events[1..])
    ensures |events| == 1 ==> Run(cat, s, events) == Step(cat, s, events[0])
  {
  }

  lemma {:induction false} RunAppend(cat: Catalogue, s: State, events: seq<Event>, later: seq<Event>)
    requires cat.Valid()
    ensures Run(cat, s, events + later) == Run(cat, Run(cat, s, events), later)
    decreases |events|
  {
    if events == [] {
      assert events + later == later;
    } else {
      assert (events + later)[1..] == events[1..] + later;
      RunAppend(cat, Step(cat, s, events[0]), events[1..], later);
    }
  }

  lemma RunTwo(cat: Catalogue, s: State, t: State, u: State, e: Event, f: Event)
    requires cat.Valid() && Step(cat, s, e) == t && Step(cat, t, f) == u
    ensures Run(cat, s, [e, f]) == u
  {
    RunStep(cat, s, [e, f]);
    assert [e, f][1..] == [f];
    RunStep(cat, t, [f]);
  }

  lemma RunChain(cat: Catalogue, s: State, t: State, u: State, events: seq<Event>, later: seq<Event>)
    requires cat.Valid() && Run(cat, s, events) == t && Run(cat, t, later) == u
    ensures Run(cat, s, events + later) == u
  {
    RunAppend(cat, s, events, later);
  }

  // ----------------------------------------------------------------------------------------
  // The invariant
  // ----------------------------------------------------------------------------------------

  ghost predicate BasketsFit(cat: Catalogue, s: State)
    requires cat.Valid()
  {
    forall u :: u in s.baskets ==> BasketFits(cat, s.baskets[u])
  }

  ghost predicate IsFreelyCompleted(s: State, k: nat) {
    exists i :: 0 <= i < |s.completions| && s.completions[i] == Completion(k, true)
  }

  /** Orders holding the version that were fulfilled by the $0 checkout. */
  ghost function FreeRedeemers(s: State, v: nat): set<nat> {
    set k | 0 <= k < |s.orders| && v in s.orders[k].redemptions && IsFreelyCompleted(s, k)
  }

  ghost function FreeUserRedeemers(s: State, v: nat, user: nat): set<nat> {
    set k | k in FreeRedeemers(s, v) && s.orders[k].purchaser == user
  }

  ghost predicate LimitHolds(s: State, v: nat, user: nat)
    requires v < |s.book.versions|
  {
    && |FreeRedeemers(s, v)| <= s.book.versions[v].terms.maxRedemptions
    && |FreeUserRedeemers(s, v, user)| <= s.book.versions[v].terms.maxPerUser
  }

  /** $0 checkouts keep to both redemption limits of every coupon version. */
  ghost predicate LimitsHold(s: State) {
    forall v: nat, u: nat :: v < |s.book.versions| ==> LimitHolds(s, v, u)
  }

  ghost predicate StateFits(cat: Catalogue, s: State)
    requires cat.Valid()
  {
    BasketsFit(cat, s) && OrdersFit(s) && LimitsHold(s) && BulkFits(s)
  }

  lemma InitialStateFits(cat: Catalogue, s: State)
    requires cat.Valid() && BookFits(s.book)
    requires s.baskets == map[] && s.orders == [] && s.completions == [] && s.b2bOrders == []
    ensures StateFits(cat, s)
  {
    forall v: nat, u: nat | v < |s.book.versions| ensures LimitHolds(s, v, u) {
      assert FreeRedeemers(s, v) == {} && FreeUserRedeemers(s, v, u) == {};
    }
  }

  // ----------------------------------------------------------------------------------------
  // Steps that leave orders alone
  // ----------------------------------------------------------------------------------------

  lemma OrdersFitFrame(s: State, t: State)
    requires OrdersFit(s)
    requires t.orders == s.orders && t.lineCount == s.lineCount && t.completions == s.completions
    requires s.prices <= t.prices && |s.book.versions| <= |t.book.versions|
    ensures OrdersFit(t)
  {
    forall k | 0 <= k < |t.orders| ensures OrderFits(t, t.orders[k]) {
      assert OrderFits(s, s.orders[k]);
    }
    forall k | 0 <= k < |t.orders| && t.orders[k].IsRedeemed() ensures IsCompleted(t, k) {
      assert IsCompleted(s, k);
    }
  }

  lemma LimitsHoldFrame(s: State, t: State)
    requires OrdersFit(s) && LimitsHold(s)
    requires t.orders == s.orders && t.completions == s.completions
    requires s.book.versions <= t.book.versions
    ensures LimitsHold(t)
  {
    forall v: nat, u: nat | v < |t.book.versions| ensures LimitHolds(t, v, u) {
      assert forall k: nat :: IsFreelyCompleted(t, k) == IsFreelyCompleted(s, k);
      assert FreeRedeemers(t, v) == FreeRedeemers(s, v);
      assert FreeUserRedeemers(t, v, u) == FreeUserRedeemers(s, v, u);
      if v < |s.book.versions| {
        assert LimitHolds(s, v, u);
      } else {
        forall k | 0 <= k < |s.orders| ensures v !in s.orders[k].redemptions {
          assert OrderFits(s, s.orders[k]);
        }
        assert FreeRedeemers(s, v) == {} && FreeUserRedeemers(s, v, u) == {};
      }
    }
  }

  lemma BulkFitsFrame(s: State, t: State)
    requires BulkFits(s)
    requires t.book == s.book && t.b2bOrders == s.b2bOrders && s.prices <= t.prices
    ensures BulkFits(t)
  {
    SeatsKept(s, t);
  }

  lemma UpdatePromoFits(s: State, promo: PromoChange)
    requires BulkFits(s) && CanUpdatePromo(s, promo)
    ensures BulkFits(s.(book := PromoUpdated(s.book, promo)))
  {
    var t := s.(book := PromoUpdated(s.book, promo));
    forall p: nat ensures CouponsOf(t.book, p) == CouponsOf(s.book, p) {}
    SeatsKept(s, t);
  }

  lemma IssueStepFits(s: State, issue: Issue, draws: Draws)
    requires BulkFits(s)
    ensures BulkFits(s.(book := IssuedBook(s.book, issue, draws)))
  {
    var done := IssuedBookIsCreated(s.book, issue, draws);
    if CreateCoupons(s.book, done, draws).Ok? {
      IssueFits(s, done, draws);
    }
  }

  lemma IssueStep(cat: Catalogue, s: State, issue: Issue, draws: Draws)
    requires cat.Valid()
    ensures Step(cat, s, IssueCoupons(issue, draws)) == s.(book := IssuedBook(s.book, issue, draws))
  {
  }

  lemma DisableFits(s: State, disabled: set<nat>)
    requires BulkFits(s)
    ensures BulkFits(s.(book := s.book.(coupons := Disable(s.book.coupons, disabled))))
  {
    var t := s.(book := s.book.(coupons := Disable(s.book.coupons, disabled)));
    forall p: nat ensures CouponsOf(t.book, p) == CouponsOf(s.book, p) {}
    SeatsKept(s, t);
  }

  // ----------------------------------------------------------------------------------------
  // Steps that change orders
  // ----------------------------------------------------------------------------------------

  /** A validated basket can be mirrored, and its coupon version is below its limits. */
  lemma ValidatedBasketIsMirrorable(cat: Catalogue, s: State, user: nat, m: Moment)
    requires cat.Valid() && BasketFits(cat, s.BasketOf(user)) && ValidateBasket(cat, s, user, m).Ok?
    ensures var vb := ValidateBasket(cat, s, user, m).value;
            && vb.user == user && IsMirrorable(s, vb)
            && (vb.coupon.Some? ==> IsWithinLimits(s, user, m.now, vb.coupon.value))
  {
    var vb := ValidateBasket(cat, s, user, m).value;
    if vb.coupon.Some? {
      var product := s.BasketOf(user).items[0].product;
      var q := ByCode(s.book.coupons[s.BasketOf(user).coupons[0]].code);
      assert vb.coupon.value in ValidVersions(s, q, product, user, m.now, m.rows);
      assert IsValid(s, q, product, user, m.now, vb.coupon.value);
    }
  }

  /** Changing open orders, or adding some, changes no redemption. */
  lemma MirrorKeepsRedeemers(s: State, t: State, k: nat, v: nat)
    requires k < |t.orders| && t.orders[k].status == Created
    requires |s.orders| <= |t.orders| <= |s.orders| + 1 && k <= |s.orders|
    requires k < |s.orders| ==> s.orders[k].status == Created && |t.orders| == |s.orders|
    requires forall j :: 0 <= j < |s.orders| && j != k ==> t.orders[j] == s.orders[j]
    ensures Redeemers(t.orders, v) == Redeemers(s.orders, v)
    ensures forall u: nat :: UserRedeemers(t.orders, v, u) == UserRedeemers(s.orders, v, u)
  {
    forall u: nat ensures UserRedeemers(t.orders, v, u) == UserRedeemers(s.orders, v, u) {}
  }

  lemma MirrorKeepsLimits(s: State, t: State, k: nat)
    requires OrdersFit(s) && LimitsHold(s)
    requires t == s.(orders := t.orders, lineCount := t.lineCount)
    requires k < |t.orders| && |s.orders| <= |t.orders| <= |s.orders| + 1 && k <= |s.orders|
    requires k < |s.orders| ==> s.orders[k].status == Created && |t.orders| == |s.orders|
    requires forall j :: 0 <= j < |s.orders| && j != k ==> t.orders[j] == s.orders[j]
    ensures LimitsHold(t)
  {
    assert !IsCompleted(s, k);
    forall v: nat, u: nat | v < |t.book.versions| ensures LimitHolds(t, v, u) {
      assert forall j: nat :: IsFreelyCompleted(t, j) == IsFreelyCompleted(s, j);
      assert FreeRedeemers(t, v) == FreeRedeemers(s, v);
      assert FreeUserRedeemers(t, v, u) == FreeUserRedeemers(s, v, u);
      assert LimitHolds(s, v, u);
    }
  }

  /** Every order completed for free counts as a redemption. */
  lemma FreeRedeemersAreRedeemers(s: State, v: nat, u: nat)
    requires OrdersFit(s)
    ensures FreeRedeemers(s, v) <= Redeemers(s.orders, v)
    ensures FreeUserRedeemers(s, v, u) <= UserRedeemers(s.orders, v, u)
    ensures |FreeRedeemers(s, v)| <= |Redeemers(s.orders, v)|
    ensures |FreeUserRedeemers(s, v, u)| <= |UserRedeemers(s.orders, v, u)|
  {
    forall k | k in FreeRedeemers(s, v) ensures k in Redeemers(s.orders, v) {
      var i :| 0 <= i < |s.completions| && s.completions[i] == Completion(k, true);
      assert s.orders[s.completions[i].order].IsRedeemed();
    }
    SubsetSize(FreeRedeemers(s, v), Redeemers(s.orders, v));
    SubsetSize(FreeUserRedeemers(s, v, u), UserRedeemers(s.orders, v, u));
  }

  /** Fulfilling adds the order to its versions' free redeemers exactly when it is free. */
  lemma FulfilRedeemers(s: State, k: nat, ending: Ending, free: bool, v: nat)
    requires OrdersFit(s) && k < |s.orders| && s.orders[k].status == Created
    ensures var t := Fulfil(s, k, ending, free);
            var own := if v in s.orders[k].redemptions then {k} else {};
            && FreeRedeemers(t, v) == FreeRedeemers(s, v) + (if free then own else {})
            && Redeemers(t.orders, v) == Redeemers(s.orders, v) + own
            && k !in Redeemers(s.orders, v) && k !in FreeRedeemers(s, v)
  {
    var t := Fulfil(s, k, ending, free);
    assert !IsCompleted(s, k);
    forall j: nat ensures IsFreelyCompleted(t, j) <==> (IsFreelyCompleted(s, j) || (free && j == k)) {
      if free && j == k {
        assert t.completions[|s.completions|] == Completion(j, true);
      }
      if i :| 0 <= i < |s.completions| && s.completions[i] == Completion(j, true) {
        assert t.completions[i] == Completion(j, true);
      }
    }
  }

  ghost predicate IsBelowLimits(s: State, v: nat, user: nat)
    requires v < |s.book.versions|
  {
    && |Redeemers(s.orders, v)| < s.book.versions[v].terms.maxRedemptions
    && |UserRedeemers(s.orders, v, user)| < s.book.versions[v].terms.maxPerUser
  }

  lemma FulfilUserRedeemers(s: State, k: nat, ending: Ending, free: bool, v: nat, u: nat)
    requires OrdersFit(s) && k < |s.orders| && s.orders[k].status == Created
    ensures var t := Fulfil(s, k, ending, free);
            var own := if free && v in s.orders[k].redemptions && s.orders[k].purchaser == u then {k} else {};
            FreeUserRedeemers(t, v, u) == FreeUserRedeemers(s, v, u) + own
  {
    FulfilRedeemers(s, k, ending, free, v);
  }

  /** A fulfilment keeps the limits if it is paid, or if its versions were below them. */
  lemma FulfilKeepsLimits(s: State, k: nat, ending: Ending, free: bool)
    requires OrdersFit(s) && LimitsHold(s) && k < |s.orders| && s.orders[k].status == Created
    requires free ==> forall v :: v in s.orders[k].redemptions ==>
               v < |s.book.versions| && IsBelowLimits(s, v, s.orders[k].purchaser)
    ensures LimitsHold(Fulfil(s, k, ending, free))
  {
    var t := Fulfil(s, k, ending, free);
    assert t.book == s.book;
    forall v: nat, u: nat | v < |t.book.versions| ensures LimitHolds(t, v, u) {
      assert LimitHolds(s, v, u);
      FulfilRedeemers(s, k, ending, free, v);
      FulfilUserRedeemers(s, k, ending, free, v, u);
      FreeRedeemersAreRedeemers(s, v, u);
    }
  }

  lemma SyncFits(cat: Catalogue, s: State, user: nat, m: Moment)
    requires cat.Valid() && StateFits(cat, s)
    ensures StateFits(cat, SyncOrder(cat, s, user, m))
  {
    if ValidateBasket(cat, s, user, m).Ok? {
      var vb := ValidateBasket(cat, s, user, m).value;
      ValidatedBasketIsMirrorable(cat, s, user, m);
      CreateOrUpdateSpec(s, vb, 0);
      CreateOrUpdateFits(s, vb, 0);
      var (t, k) := CreateOrUpdate(s, vb, 0).value;
      MirrorKeepsLimits(s, t, k);
      BulkFitsFrame(s, t);
    }
  }

  /** The state between saving an accepted basket and mirroring it. */
  lemma SavedBasketFits(cat: Catalogue, s: State, user: nat, req: Request, m: Moment) returns (saved: State)
    requires cat.Valid() && BasketsFit(cat, s) && OrdersFit(s) && Update(cat, s, user, req, m).Ok?
    ensures NextBasket(cat, s, user, req, m).Ok?
    ensures saved == SaveBasket(s, user, NextBasket(cat, s, user, req, m).value)
    ensures Update(cat, s, user, req, m).value
         == if req.items == Some([]) then saved else SyncOrder(cat, saved, user, m)
    ensures BasketsFit(cat, saved) && BasketFits(cat, saved.BasketOf(user)) && OrdersFit(saved)
  {
    NextBasketFits(cat, s, user, req, m);
    saved := SaveBasket(s, user, NextBasket(cat, s, user, req, m).value);
    OrdersFitFrame(s, saved);
  }

  lemma UpdateFits(cat: Catalogue, s: State, user: nat, req: Request, m: Moment)
    requires cat.Valid() && StateFits(cat, s) && Update(cat, s, user, req, m).Ok?
    ensures StateFits(cat, Update(cat, s, user, req, m).value)
  {
    var saved := SavedBasketFits(cat, s, user, req, m);
    LimitsHoldFrame(s, saved);
    BulkFitsFrame(s, saved);
    SyncFits(cat, saved, user, m);
  }

  /** Mirroring a validated basket keeps the invariant, and what validation said of its coupon. */
  lemma MirrorFits(cat: Catalogue, s: State, user: nat, taxRate: int, m: Moment)
    requires cat.Valid() && StateFits(cat, s) && ValidateBasket(cat, s, user, m).Ok?
    ensures var vb := ValidateBasket(cat, s, user, m).value;
            && vb.version < |s.prices| && CreateOrUpdate(s, vb, taxRate).Ok?
            && var (t, k) := CreateOrUpdate(s, vb, taxRate).value;
            && StateFits(cat, t) && k < |t.orders| && t.orders[k].status == Created && t.orders[k].purchaser == user
            && (forall v :: v in t.orders[k].redemptions ==> v < |t.book.versions| && IsBelowLimits(t, v, user))
  {
    var vb := ValidateBasket(cat, s, user, m).value;
    ValidatedBasketIsMirrorable(cat, s, user, m);
    CreateOrUpdateSpec(s, vb, taxRate);
    CreateOrUpdateFits(s, vb, taxRate);
    var (t, k) := CreateOrUpdate(s, vb, taxRate).value;
    MirrorKeepsLimits(s, t, k);
    BulkFitsFrame(s, t);
    forall v | v in t.orders[k].redemptions
      ensures v < |t.book.versions| && IsBelowLimits(t, v, user)
    {
      MirrorKeepsRedeemers(s, t, k, v);
    }
  }

  lemma FreeFulfilFits(cat: Catalogue, s: State, k: nat, ending: Ending)
    requires cat.Valid() && StateFits(cat, s) && k < |s.orders| && s.orders[k].status == Created
    requires forall v :: v in s.orders[k].redemptions ==>
               v < |s.book.versions| && IsBelowLimits(s, v, s.orders[k].purchaser)
    ensures StateFits(cat, Fulfil(s, k, ending, true))
  {
    FulfilFits(s, k, ending, true);
    FulfilKeepsLimits(s, k, ending, true);
    BulkFitsFrame(s, Fulfil(s, k, ending, true));
  }

  lemma CheckoutFits(cat: Catalogue, s: State, user: nat, taxRate: int, m: Moment, ending: Ending)
    requires cat.Valid() && StateFits(cat, s) && Checkout(cat, s, user, taxRate, m, ending).Ok?
    ensures StateFits(cat, Checkout(cat, s, user, taxRate, m, ending).value)
  {
    MirrorFits(cat, s, user, taxRate, m);
    var (t, k) := CreateOrUpdate(s, ValidateBasket(cat, s, user, m).value, taxRate).value;
    if t.orders[k].total == 0 {
      FreeFulfilFits(cat, t, k, ending);
    }
  }

  lemma MessageFits(cat: Catalogue, s: State, k: nat, decision: string, ending: Ending)
    requires cat.Valid() && StateFits(cat, s) && HandleMessage(s, k, decision, ending).Ok?
    ensures StateFits(cat, HandleMessage(s, k, decision, ending).value)
  {
    var t := HandleMessage(s, k, decision, ending).value;
    if s.orders[k].status == Created {
      if decision == ACCEPT {
        FulfilFits(s, k, ending, false);
        FulfilKeepsLimits(s, k, ending, false);
      } else {
        StatusChangeFits(s, k, Failed);
        MirrorKeepsLimits(s, t, k);
      }
      BulkFitsFrame(s, t);
    }
  }

  lemma RefundFits(cat: Catalogue, s: State, k: nat)
    requires cat.Valid() && StateFits(cat, s) && k < |s.orders| && s.orders[k].IsRedeemed()
    ensures StateFits(cat, s.(orders := s.orders[k := s.orders[k].(status := Refunded)]))
  {
    var t := s.(orders := s.orders[k := s.orders[k].(status := Refunded)]);
    StatusChangeFits(s, k, Refunded);
    BulkFitsFrame(s, t);
    forall v: nat, u: nat | v < |t.book.versions| ensures LimitHolds(t, v, u) {
      assert forall j: nat :: IsFreelyCompleted(t, j) == IsFreelyCompleted(s, j);
      assert FreeRedeemers(t, v) == FreeRedeemers(s, v);
      assert FreeUserRedeemers(t, v, u) == FreeUserRedeemers(s, v, u);
      assert LimitHolds(s, v, u);
    }
  }

  /** Every step keeps the invariant. */
  lemma StepFits(cat: Catalogue, s: State, e: Event)
    requires cat.Valid() && StateFits(cat, s)
    ensures StateFits(cat, Step(cat, s, e))
  {
    if IsOffCheckout(e) {
      OffCheckoutStepFits(cat, s, e);
    } else {
      CheckoutStepFits(cat, s, e);
    }
  }

  lemma CheckoutStepFits(cat: Catalogue, s: State, e: Event)
    requires cat.Valid() && StateFits(cat, s) && !IsOffCheckout(e)
    ensures StateFits(cat, CheckoutStep(cat, s, e))
  {
    match e
    case UpdateBasket(user, req, m) =>
      if Update(cat, s, user, req, m).Ok? { UpdateFits(cat, s, user, req, m); }
    case CheckOut(user, taxRate, m, ending) =>
      if Checkout(cat, s, user, taxRate, m, ending).Ok? { CheckoutFits(cat, s, user, taxRate, m, ending); }
    case Decide(k, decision, ending) =>
      if HandleMessage(s, k, decision, ending).Ok? { MessageFits(cat, s, k, decision, ending); }
    case RefundOrder(k) =>
      if k < |s.orders| && s.orders[k].IsRedeemed() { RefundFits(cat, s, k); }
  }

  /** A step that touches no order of the shop keeps its baskets, or deletes them, and only adds prices and versions. */
  ghost predicate KeepsShop(s: State, t: State) {
    && (forall u :: u in t.baskets ==> u in s.baskets && t.baskets[u] == s.baskets[u])
    && t.orders == s.orders && t.lineCount == s.lineCount && t.completions == s.completions
    && s.prices <= t.prices && s.book.versions <= t.book.versions
  }

  lemma BookStepFrame(s: State, e: Event)
    requires WritesBookOnly(e)
    ensures KeepsShop(s, BookStep(s, e)) && BookStep(s, e) == s.(book := BookStep(s, e).book)
  {
  }

  lemma BulkStepFrame(s: State, e: Event)
    requires IsBulk(e)
    ensures var t := BulkStep(s, e);
            KeepsShop(s, t) && t == s.(book := t.book, b2bOrders := t.b2bOrders)
  {
  }

  lemma OffCheckoutFrame(cat: Catalogue, s: State, e: Event)
    requires cat.Valid() && IsOffCheckout(e)
    ensures KeepsShop(s, Step(cat, s, e))
  {
    if WritesBookOnly(e) {
      BookStepFrame(s, e);
    } else if IsBulk(e) {
      BulkStepFrame(s, e);
    }
  }

  lemma OffCheckoutStepFits(cat: Catalogue, s: State, e: Event)
    requires cat.Valid() && StateFits(cat, s) && IsOffCheckout(e)
    ensures StateFits(cat, Step(cat, s, e))
  {
    OffCheckoutFrame(cat, s, e);
    QuietStepFits(s, Step(cat, s, e));
    if WritesBookOnly(e) {
      BookStepFits(s, e);
    } else if IsBulk(e) {
      BulkStepFits(s, e);
    } else {
      BulkFitsFrame(s, QuietStep(s, e));
    }
  }

  lemma BookStepFits(s: State, e: Event)
    requires BulkFits(s) && WritesBookOnly(e)
    ensures BulkFits(BookStep(s, e))
  {
    match e
    case UpdatePromo(promo) => if CanUpdatePromo(s, promo) { UpdatePromoFits(s, promo); }
    case IssueCoupons(issue, draws) => IssueStepFits(s, issue, draws);
    case DisableCoupons(disabled) => DisableFits(s, disabled);
  }

  lemma BulkStepFits(s: State, e: Event)
    requires BulkFits(s) && IsBulk(e)
    ensures BulkFits(BulkStep(s, e))
  {
    match e
    case BulkCheckOut(req, now, draws) =>
      if BulkCheckout(s, req, now, draws).Ok? { BulkCheckoutFits(s, req, now, draws); }
    case BulkDecide(k, decision, draws) =>
      if HandleBulkMessage(s, k, decision, draws).Ok? { BulkMessageFits(s, k, decision, draws); }
  }

  lemma QuietStepFits(s: State, t: State)
    requires OrdersFit(s) && LimitsHold(s)
    requires t.orders == s.orders && t.lineCount == s.lineCount && t.completions == s.completions
    requires s.prices <= t.prices && s.book.versions <= t.book.versions
    ensures OrdersFit(t) && LimitsHold(t)
  {
    OrdersFitFrame(s, t);
    LimitsHoldFrame(s, t);
  }

  // ----------------------------------------------------------------------------------------
  // Theorems over every run
  // ----------------------------------------------------------------------------------------

  lemma {:induction false} RunFits(cat: Catalogue, s: State, events: seq<Event>)
    requires cat.Valid() && StateFits(cat, s)
    ensures StateFits(cat, Run(cat, s, events))
    decreases |events|
  {
    if events != [] {
      StepFits(cat, s, events[0]);
      RunFits(cat, Step(cat, s, events[0]), events[1..]);
    }
  }

  /**
   * Over every run from an empty shop: each order has one line and at most one redemption, a
   * purchaser has at most one open order for a product, an order is completed exactly when it is
   * fulfilled or refunded and never twice, and no version exceeds its limits by $0 checkouts.
   */
  lemma EveryRunFromEmptyShop(cat: Catalogue, s: State, events: seq<Event>)
    requires cat.Valid() && BookFits(s.book)
    requires s.baskets == map[] && s.orders == [] && s.completions == [] && s.b2bOrders == []
    ensures var t := Run(cat, s, events);
            && (forall u :: u in t.baskets ==> BasketFits(cat, t.baskets[u]))
            && (forall k :: 0 <= k < |t.orders| ==>
                  OrderFits(t, t.orders[k]) && |t.orders[k].lines| == 1 && |t.orders[k].redemptions| <= 1)
            && (forall j, k :: 0 <= j < k < |t.orders| && t.orders[j].status == Created
                               && t.orders[k].status == Created && t.orders[j].purchaser == t.orders[k].purchaser ==>
                               ProductOf(t, t.orders[j]) != ProductOf(t, t.orders[k]))
            && (forall k: nat :: IsCompleted(t, k) <==> k < |t.orders| && t.orders[k].IsRedeemed())
            && (forall i, j :: 0 <= i < j < |t.completions| ==> t.completions[i].order != t.completions[j].order)
            && (forall v: nat, u: nat :: v < |t.book.versions| ==> LimitHolds(t, v, u))
  {
    InitialStateFits(cat, s);
    RunFits(cat, s, events);
    var t := Run(cat, s, events);
    assert OrdersFit(t) && CompletionsMatch(t);
  }

  /** In every reachable state the version's $0 redemptions keep both limits, so if all are $0 the limits hold. */
  lemma FreeRedemptionsKeepLimits(cat: Catalogue, s: State, v: nat, user: nat)
    requires cat.Valid() && StateFits(cat, s) && v < |s.book.versions|
    requires forall k :: k in Redeemers(s.orders, v) ==> IsFreelyCompleted(s, k)
    ensures |Redeemers(s.orders, v)| <= s.book.versions[v].terms.maxRedemptions
    ensures |UserRedeemers(s.orders, v, user)| <= s.book.versions[v].terms.maxPerUser
  {
    assert LimitHolds(s, v, user);
    assert Redeemers(s.orders, v) <= FreeRedeemers(s, v);
    SubsetSize(Redeemers(s.orders, v), FreeRedeemers(s, v));
    SubsetSize(UserRedeemers(s.orders, v, user), FreeUserRedeemers(s, v, user));
  }

  /** Accepting a payment keeps either limit exactly if that limit had not been reached before. */
  lemma AcceptKeepsLimitExactly(s: State, k: nat, ending: Ending, v: nat)
    requires OrdersFit(s) && k < |s.orders| && s.orders[k].status == Created
    requires v in s.orders[k].redemptions && v < |s.book.versions|
    ensures HandleMessage(s, k, ACCEPT, ending).Ok?
    ensures var t := HandleMessage(s, k, ACCEPT, ending).value;
            var terms, user := s.book.versions[v].terms, s.orders[k].purchaser;
            && t.book == s.book
            && (|Redeemers(t.orders, v)| <= terms.maxRedemptions <==>
                  |Redeemers(s.orders, v)| < terms.maxRedemptions)
            && (|UserRedeemers(t.orders, v, user)| <= terms.maxPerUser <==>
                  |UserRedeemers(s.orders, v, user)| < terms.maxPerUser)
            && (forall u: nat :: u != user ==> UserRedeemers(t.orders, v, u) == UserRedeemers(s.orders, v, u))
  {
    FulfilRedeemers(s, k, ending, false, v);
    var t := Fulfil(s, k, ending, false);
    var user := s.orders[k].purchaser;
    assert UserRedeemers(t.orders, v, user) == UserRedeemers(s.orders, v, user) + {k};
    forall u: nat | u != user ensures UserRedeemers(t.orders, v, u) == UserRedeemers(s.orders, v, u) {}
  }

  lemma SyncKeepsSettledOrder(cat: Catalogue, s: State, user: nat, m: Moment, k: nat)
    requires cat.Valid() && BasketFits(cat, s.BasketOf(user)) && OrdersFit(s)
    requires k < |s.orders| && s.orders[k].status != Created
    ensures var t := SyncOrder(cat, s, user, m);
            k < |t.orders| && t.orders[k] == s.orders[k]
  {
    if ValidateBasket(cat, s, user, m).Ok? {
      ValidatedBasketIsMirrorable(cat, s, user, m);
      CreateOrUpdateSpec(s, ValidateBasket(cat, s, user, m).value, 0);
    }
  }

  lemma CheckoutKeepsSettledOrder(
      cat: Catalogue, s: State, user: nat, taxRate: int, m: Moment, ending: Ending, k: nat)
    requires cat.Valid() && BasketFits(cat, s.BasketOf(user)) && OrdersFit(s)
    requires k < |s.orders| && s.orders[k].status != Created
    requires Checkout(cat, s, user, taxRate, m, ending).Ok?
    ensures var t := Checkout(cat, s, user, taxRate, m, ending).value;
            k < |t.orders| && t.orders[k] == s.orders[k]
  {
    ValidatedBasketIsMirrorable(cat, s, user, m);
    CreateOrUpdateSpec(s, ValidateBasket(cat, s, user, m).value, taxRate);
  }

  lemma UpdateKeepsSettledOrder(cat: Catalogue, s: State, user: nat, req: Request, m: Moment, k: nat)
    requires cat.Valid() && BasketsFit(cat, s) && OrdersFit(s)
    requires k < |s.orders| && s.orders[k].status != Created && Update(cat, s, user, req, m).Ok?
    ensures var t := Update(cat, s, user, req, m).value;
            k < |t.orders| && t.orders[k] == s.orders[k]
  {
    var saved := SavedBasketFits(cat, s, user, req, m);
    SyncKeepsSettledOrder(cat, saved, user, m, k);
  }

  lemma MessageKeepsSettledOrder(s: State, j: nat, decision: string, ending: Ending, k: nat)
    requires k < |s.orders| && s.orders[k].status != Created && HandleMessage(s, j, decision, ending).Ok?
    ensures var t := HandleMessage(s, j, decision, ending).value;
            k < |t.orders| && t.orders[k] == s.orders[k]
  {
  }

  lemma CheckoutStepKeepsSettledOrder(cat: Catalogue, s: State, e: Event, k: nat)
    requires cat.Valid() && StateFits(cat, s) && !IsOffCheckout(e)
    requires k < |s.orders| && s.orders[k].status != Created
    ensures var t := CheckoutStep(cat, s, e);
            k < |t.orders|
            && t.orders[k] == if e == RefundOrder(k) && s.orders[k].IsRedeemed()
                              then s.orders[k].(status := Refunded) else s.orders[k]
  {
    match e
    case UpdateBasket(user, req, m) =>
      if Update(cat, s, user, req, m).Ok? { UpdateKeepsSettledOrder(cat, s, user, req, m, k); }
    case CheckOut(user, taxRate, m, ending) =>
      if Checkout(cat, s, user, taxRate, m, ending).Ok? {
        CheckoutKeepsSettledOrder(cat, s, user, taxRate, m, ending, k);
      }
    case Decide(j, decision, ending) =>
      if HandleMessage(s, j, decision, ending).Ok? { MessageKeepsSettledOrder(s, j, decision, ending, k); }
    case RefundOrder(_) =>
  }

  /** Nothing but a refund ever changes an order that has left the created status. */
  lemma StepKeepsSettledOrder(cat: Catalogue, s: State, e: Event, k: nat)
    requires cat.Valid() && StateFits(cat, s) && k < |s.orders| && s.orders[k].status != Created
    ensures var t := Step(cat, s, e);
            k < |t.orders|
            && t.orders[k] == if e == RefundOrder(k) && s.orders[k].IsRedeemed()
                              then s.orders[k].(status := Refunded) else s.orders[k]
  {
    if IsOffCheckout(e) {
      OffCheckoutFrame(cat, s, e);
    } else {
      CheckoutStepKeepsSettledOrder(cat, s, e, k);
    }
  }

  /** Over any run a settled order keeps its lines, coupon and price, and is at most refunded. */
  lemma {:induction false} RunKeepsSettledOrder(cat: Catalogue, s: State, events: seq<Event>, k: nat)
    requires cat.Valid() && StateFits(cat, s) && k < |s.orders| && s.orders[k].status != Created
    ensures var t := Run(cat, s, events);
            && k < |t.orders|
            && (t.orders[k] == s.orders[k]
               || (s.orders[k].IsRedeemed() && t.orders[k] == s.orders[k].(status := Refunded)))
            && (RefundOrder(k) !in events ==> t.orders[k] == s.orders[k])
    decreases |events|
  {
    if events != [] {
      StepKeepsSettledOrder(cat, s, events[0], k);
      StepFits(cat, s, events[0]);
      RunKeepsSettledOrder(cat, Step(cat, s, events[0]), events[1..], k);
    }
  }

  lemma CheckoutStepIs(cat: Catalogue, s: State, user: nat, taxRate: int, m: Moment, ending: Ending)
    requires cat.Valid()
    ensures Step(cat, s, CheckOut(user, taxRate, m, ending)) == OrElse(Checkout(cat, s, user, taxRate, m, ending), s)
  {
  }

  lemma MessageStepIs(cat: Catalogue, s: State, k: nat, decision: string, ending: Ending)
    requires cat.Valid()
    ensures Step(cat, s, Decide(k, decision, ending)) == OrElse(HandleMessage(s, k, decision, ending), s)
  {
  }

  /** After any run, a message about an order that was fulfilled before it is refused and changes nothing. */
  lemma RunRefusesLaterMessages(
      cat: Catalogue, s: State, events: seq<Event>, k: nat, decision: string, ending: Ending)
    requires cat.Valid() && StateFits(cat, s) && k < |s.orders| && s.orders[k].status == Fulfilled
    ensures var t := Run(cat, s, events);
            && HandleMessage(t, k, decision, ending) == Err(UnknownOrder)
            && Step(cat, t, Decide(k, decision, ending)) == t
  {
    RunKeepsSettledOrder(cat, s, events, k);
    MessageStepIs(cat, Run(cat, s, events), k, decision, ending);
  }

  // ----------------------------------------------------------------------------------------
  // From a basket update to the checkout that follows it
  // ----------------------------------------------------------------------------------------

  /** Mirroring the basket onto an order changes nothing that validation reads. */
  lemma SyncKeepsValidation(cat: Catalogue, s: State, user: nat, m: Moment)
    requires cat.Valid() && BasketFits(cat, s.BasketOf(user)) && OrdersFit(s)
    ensures var t := SyncOrder(cat, s, user, m);
            && t.baskets == s.baskets
            && ValidateBasket(cat, t, user, m) == ValidateBasket(cat, s, user, m)
            && forall b: Basket, product: nat ::
                 CheckCoupon(t, b, product, user, m) == CheckCoupon(s, b, product, user, m)
  {
    if ValidateBasket(cat, s, user, m).Ok? {
      var vb := ValidateBasket(cat, s, user, m).value;
      ValidatedBasketIsMirrorable(cat, s, user, m);
      CreateOrUpdateSpec(s, vb, 0);
      var (t, k) := CreateOrUpdate(s, vb, 0).value;
      forall v: nat
        ensures Redeemers(s.orders, v) == Redeemers(t.orders, v)
        ensures forall u: nat :: UserRedeemers(s.orders, v, u) == UserRedeemers(t.orders, v, u)
      {
        MirrorKeepsRedeemers(s, t, k, v);
      }
      SameRedemptionsSameValidation(cat, s, t, user, m);
    }
  }

  /**
   * After an accepted update that leaves a coupon, coupon validation at checkout succeeds at the same
   * moment: always if the coupon was given by code or kept, and if it was applied automatically,
   * provided that coupon's versions agree on being automatic.
   */
  lemma UpdateThenCouponValidates(cat: Catalogue, s: State, user: nat, req: Request, m: Moment)
    requires cat.Valid() && BasketsFit(cat, s) && OrdersFit(s) && IsRowOrder(s, m.rows)
    requires Update(cat, s, user, req, m).Ok?
    ensures var t := Update(cat, s, user, req, m).value;
            var b := t.BasketOf(user);
            b.coupons != [] ==>
              (|b.items| == 1 && |b.coupons| == 1
              && (IsGivenOrKept(s, s.BasketOf(user), b.items[0].product, user, req.coupons, m)
                  || AgreesOnAutomatic(s.book, b.coupons[0]) ==>
                    CouponValidates(t, b, user, m)))
  {
    var saved := SavedBasketFits(cat, s, user, req, m);
    UpdatedCouponPassesCheckout(cat, s, user, req, m);
    var b := saved.BasketOf(user);
    if b.coupons != [] {
      SyncKeepsValidation(cat, saved, user, m);
      SameCheckCoupon(s, saved, b, b.items[0].product, user, m);
    }
  }

  predicate CouponValidates(s: State, b: Basket, user: nat, m: Moment)
    requires |b.items| == 1
  {
    var checked := CheckCoupon(s, b, b.items[0].product, user, m);
    checked.Ok? && checked.value.Some?
  }

  /** Saving a basket changes nothing that coupon validation reads. */
  lemma SameCheckCoupon(s: State, t: State, b: Basket, product: nat, user: nat, m: Moment)
    requires t == s.(baskets := t.baskets)
    ensures CheckCoupon(s, b, product, user, m) == CheckCoupon(t, b, product, user, m)
  {
    if |b.coupons| == 1 && b.coupons[0] < |s.book.coupons| {
      SameValidVersions(s, t, ByCode(s.book.coupons[b.coupons[0]].code), product, user, m.now, m.rows);
    }
  }

  /** Order k mirrors the validated basket, without tax, and is the user's only open order for its product. */
  ghost predicate IsOnlyMirror(t: State, vb: ValidatedBasket, k: nat) {
    && vb.version < |t.prices| && k < |t.orders|
    && Mirrors(t, t.orders[k], vb, 0)
    && forall j :: 0 <= j < |t.orders| && j != k ==>
         !IsOpenFor(t.prices, t.orders[j], vb.user, t.prices[vb.version].product)
  }

  lemma MirrorIsOnly(s: State, vb: ValidatedBasket)
    requires OrdersFit(s) && IsMirrorable(s, vb)
    ensures CreateOrUpdate(s, vb, 0).Ok?
    ensures IsOnlyMirror(CreateOrUpdate(s, vb, 0).value.0, vb, CreateOrUpdate(s, vb, 0).value.1)
  {
    CreateOrUpdateSpec(s, vb, 0);
    CreateOrUpdateFits(s, vb, 0);
    var (t, k) := CreateOrUpdate(s, vb, 0).value;
    assert OrderFits(t, t.orders[k]);
    forall j | 0 <= j < |t.orders| && j != k
      ensures !IsOpenFor(t.prices, t.orders[j], vb.user, t.prices[vb.version].product)
    {
      assert OrderFits(t, t.orders[j]);
    }
  }

  lemma SyncMirrors(cat: Catalogue, s: State, user: nat, m: Moment)
    requires cat.Valid() && BasketFits(cat, s.BasketOf(user)) && OrdersFit(s)
    requires ValidateBasket(cat, s, user, m).Ok?
    ensures exists k: nat :: IsOnlyMirror(SyncOrder(cat, s, user, m), ValidateBasket(cat, s, user, m).value, k)
  {
    ValidatedBasketIsMirrorable(cat, s, user, m);
    var vb := ValidateBasket(cat, s, user, m).value;
    MirrorIsOnly(s, vb);
    var (t, k) := CreateOrUpdate(s, vb, 0).value;
    assert SyncOrder(cat, s, user, m) == t;
    assert IsOnlyMirror(t, vb, k);
  }

  lemma ValidatedForUser(cat: Catalogue, s: State, user: nat, m: Moment)
    requires cat.Valid() && ValidateBasket(cat, s, user, m).Ok?
    ensures ValidateBasket(cat, s, user, m).value.user == user
  {
  }

  /** The same, seen from the state after mirroring. */
  lemma SyncedBasketIsMirrored(cat: Catalogue, s: State, user: nat, m: Moment, t: State)
    requires cat.Valid() && BasketFits(cat, s.BasketOf(user)) && OrdersFit(s)
    requires t == SyncOrder(cat, s, user, m) && ValidateBasket(cat, t, user, m).Ok?
    ensures exists k: nat :: IsOnlyMirror(t, ValidateBasket(cat, t, user, m).value, k)
  {
    SyncKeepsValidation(cat, s, user, m);
    SyncMirrors(cat, s, user, m);
  }

  /**
   * After an accepted update whose basket is ready for checkout, the user has exactly one open order
   * for its product, and that order mirrors the basket field by field. Its tax rate is zero whatever
   * an earlier checkout had set, because the mirror is made without a request.
   */
  lemma UpdateMirrorsBasket(cat: Catalogue, s: State, user: nat, req: Request, m: Moment)
    requires cat.Valid() && BasketsFit(cat, s) && OrdersFit(s) && req.items != Some([])
    requires Update(cat, s, user, req, m).Ok?
    requires ValidateBasket(cat, Update(cat, s, user, req, m).value, user, m).Ok?
    ensures var t := Update(cat, s, user, req, m).value;
            var vb := ValidateBasket(cat, t, user, m).value;
            vb.user == user && exists k: nat :: IsOnlyMirror(t, vb, k)
  {
    var t := Update(cat, s, user, req, m).value;
    var saved := SavedBasketFits(cat, s, user, req, m);
    SyncedBasketIsMirrored(cat, saved, user, m, t);
    ValidatedForUser(cat, t, user, m);
    var k: nat :| IsOnlyMirror(t, ValidateBasket(cat, t, user, m).value, k);
  }

  /** u differs from t only in the tax rate and status of one open order of the user, and in what completing it does. */
  ghost predicate ReusesOpenOrder(t: State, u: State, user: nat, taxRate: int, k: nat) {
    && k < |t.orders| == |u.orders| && u.lineCount == t.lineCount
    && t.orders[k].purchaser == user && t.orders[k].status == Created
    && u.orders[k] == t.orders[k].(taxRate := taxRate, status := u.orders[k].status)
    && u.orders[k].status == (if t.orders[k].total == 0 then Fulfilled else Created)
    && forall j :: 0 <= j < |t.orders| && j != k ==> u.orders[j] == t.orders[j]
  }

  lemma SyncThenCheckout(cat: Catalogue, s: State, user: nat, m: Moment, taxRate: int, ending: Ending)
    requires cat.Valid() && BasketFits(cat, s.BasketOf(user)) && OrdersFit(s)
    requires ValidateBasket(cat, s, user, m).Ok?
    ensures var t := SyncOrder(cat, s, user, m);
            && Checkout(cat, t, user, taxRate, m, ending).Ok?
            && exists k: nat :: ReusesOpenOrder(t, Checkout(cat, t, user, taxRate, m, ending).value, user, taxRate, k)
  {
    SyncKeepsValidation(cat, s, user, m);
    var vb := ValidateBasket(cat, s, user, m).value;
    ValidatedBasketIsMirrorable(cat, s, user, m);
    CreateOrUpdateSpec(s, vb, 0);
    CreateOrUpdateIdempotent(s, vb, 0, taxRate);
    var (t, k) := CreateOrUpdate(s, vb, 0).value;
    assert SyncOrder(cat, s, user, m) == t;
    var u := Checkout(cat, t, user, taxRate, m, ending).value;
    assert ReusesOpenOrder(t, u, user, taxRate, k);
  }

  /**
   * A checkout right after an accepted update of a basket that validates reuses the order that the
   * update mirrored: it creates no order and no line, and changes at most that order's tax and status.
   */
  lemma UpdateThenCheckoutReusesOrder(
      cat: Catalogue, s: State, user: nat, req: Request, m: Moment, taxRate: int, ending: Ending)
    requires cat.Valid() && StateFits(cat, s) && req.items != Some([])
    requires Update(cat, s, user, req, m).Ok?
    requires ValidateBasket(cat, Update(cat, s, user, req, m).value, user, m).Ok?
    ensures var t := Update(cat, s, user, req, m).value;
            && Checkout(cat, t, user, taxRate, m, ending).Ok?
            && exists k: nat :: ReusesOpenOrder(t, Checkout(cat, t, user, taxRate, m, ending).value, user, taxRate, k)
  {
    var saved := SavedBasketFits(cat, s, user, req, m);
    SyncKeepsValidation(cat, saved, user, m);
    SyncThenCheckout(cat, saved, user, m, taxRate, ending);
  }

  /** In a reachable state, a basket that passes checkout has one run for each course to cover. */
  lemma ReachableCheckoutCoversCourses(cat: Catalogue, s: State, events: seq<Event>, user: nat, m: Moment)
    requires cat.Valid() && StateFits(cat, s)
    requires ValidateBasket(cat, Run(cat, s, events), user, m).Ok?
    ensures var vb := ValidateBasket(cat, Run(cat, s, events), user, m).value;
            && vb.item.product < |cat.products|
            && (forall r :: r in vb.runs ==> r < |cat.runs|)
            && var content := cat.products[vb.item.product].content;
            && (content.ProgramContent? ==>
                  OneRunPerCourse(cat, vb.runs, set c | c in cat.LiveCourses(content.program)))
            && (content.RunContent? ==> vb.runs == {content.run})
  {
    RunFits(cat, s, events);
    ValidatedRunsCoverCourses(cat, Run(cat, s, events), user, m);
  }
}
