/** Which coupon versions are valid for a user and a product, and which of them is best. */
module Coupons {
  import opened Prelude
  import opened Money
  import opened Records

  // ----------------------------------------------------------------------------------------
  // Redemptions
  // ----------------------------------------------------------------------------------------

  /** Orders that count as redemptions of a coupon version. */
  function Redeemers(orders: seq<Order>, version: nat): set<nat> {
    set k | 0 <= k < |orders| && orders[k].IsRedeemed() && version in orders[k].redemptions
  }

  function UserRedeemers(orders: seq<Order>, version: nat, user: nat): set<nat> {
    set k | k in Redeemers(orders, version) && orders[k].purchaser == user
  }

  // ----------------------------------------------------------------------------------------
  // get_valid_coupon_versions
  // ----------------------------------------------------------------------------------------

  /** The optional arguments of get_valid_coupon_versions. */
  datatype Query = Query(autoOnly: bool, code: Option<string>, fullDiscount: bool, company: Option<nat>)

  const ANY_COUPON := Query(false, None, false, None)
  const AUTO_COUPON := Query(true, None, false, None)

  function ByCode(code: string): Query {
    Query(false, Some(code), false, None)
  }

  /** An absent or empty code filters nothing. */
  predicate CodeMatches(wanted: Option<string>, code: string) {
    wanted == None || wanted == Some("") || wanted == Some(code)
  }

  function CurrentPrice(s: State, product: nat): Option<int> {
    match LatestVersion(s.prices, product)
    case None => None
    case Some(v) => Some(s.prices[v].price)
  }

  predicate RequiresCode(s: State, product: nat) {
    var v := LatestVersion(s.prices, product);
    v.Some? && s.prices[v.value].requiresCode
  }

  /** The filters applied before the latest version of each coupon is taken. */
  predicate PassesFilters(s: State, q: Query, product: nat, v: nat) {
    && v < |s.book.versions|
    && s.book.versions[v].coupon < |s.book.coupons|
    && var terms := s.book.versions[v].terms;
    && var coupon := s.book.coupons[s.book.versions[v].coupon];
    && coupon.enabled
    && CodeMatches(q.code, coupon.code)
    && (q.fullDiscount ==> PassesFullDiscount(terms.kind, terms.amount, CurrentPrice(s, product)))
    && (q.autoOnly ==> terms.automatic)
    && (q.company.Some? ==> terms.company == q.company)
  }

  predicate IsProductCandidate(s: State, q: Query, product: nat, v: nat) {
    PassesFilters(s, q, product, v) && (s.book.versions[v].coupon, product) in s.book.eligible
  }

  predicate IsGlobalCandidate(s: State, q: Query, product: nat, v: nat) {
    && PassesFilters(s, q, product, v)
    && s.book.coupons[s.book.versions[v].coupon].isGlobal
    && !(RequiresCode(s, product) && s.book.versions[v].terms.couponType == Promo)
  }

  /** The version is its coupon's latest among the product candidates or among the global ones. */
  predicate IsListed(s: State, q: Query, product: nat, v: nat) {
    || (IsProductCandidate(s, q, product, v)
        && forall w :: v < w < |s.book.versions| && s.book.versions[w].coupon == s.book.versions[v].coupon ==>
             !IsProductCandidate(s, q, product, w))
    || (IsGlobalCandidate(s, q, product, v)
        && forall w :: v < w < |s.book.versions| && s.book.versions[w].coupon == s.book.versions[v].coupon ==>
             !IsGlobalCandidate(s, q, product, w))
  }

  /** Inside its dates and below both redemption limits. */
  predicate IsWithinLimits(s: State, user: nat, now: int, v: nat)
    requires v < |s.book.versions|
  {
    var terms := s.book.versions[v].terms;
    && (terms.expiration.Some? ==> terms.expiration.value >= now)
    && (terms.activation.Some? ==> terms.activation.value <= now)
    && |UserRedeemers(s.orders, v, user)| < terms.maxPerUser
    && |Redeemers(s.orders, v)| < terms.maxRedemptions
  }

  predicate IsValid(s: State, q: Query, product: nat, user: nat, now: int, v: nat) {
    IsListed(s, q, product, v) && IsWithinLimits(s, user, now, v)
  }

  function Validity(s: State, q: Query, product: nat, user: nat, now: int): nat -> bool {
    (v: nat) => IsValid(s, q, product, user, now, v)
  }

  function AmountOf(book: CouponBook, v: nat): int {
    if v < |book.versions| then book.versions[v].terms.amount else 0
  }

  function ByDecreasingAmount(book: CouponBook): nat -> int {
    (v: nat) => -AmountOf(book, v)
  }

  /**
   * The valid versions by decreasing amount. The database is free to choose the order of equal
   * amounts; `rows` is the order in which it produces the version table.
   */
  function ValidVersions(s: State, q: Query, product: nat, user: nat, now: int, rows: seq<nat>): seq<nat> {
    SortBy(Filter(rows, Validity(s, q, product, user, now)), ByDecreasingAmount(s.book))
  }

  ghost predicate IsRowOrder(s: State, rows: seq<nat>) {
    forall v: nat :: v in rows <==> v < |s.book.versions|
  }

  lemma ValidVersionsSpec(s: State, q: Query, product: nat, user: nat, now: int, rows: seq<nat>)
    requires IsRowOrder(s, rows)
    ensures var vs := ValidVersions(s, q, product, user, now, rows);
            && (forall v: nat :: v in vs <==> IsValid(s, q, product, user, now, v))
            && (forall i, j :: 0 <= i < j < |vs| ==> AmountOf(s.book, vs[i]) >= AmountOf(s.book, vs[j]))
  {
    var key := ByDecreasingAmount(s.book);
    var kept := Filter(rows, Validity(s, q, product, user, now));
    SortBySorted(kept, key);
    var vs := ValidVersions(s, q, product, user, now, rows);
    assert vs == SortBy(kept, key);
    forall i, j | 0 <= i < j < |vs| ensures AmountOf(s.book, vs[i]) >= AmountOf(s.book, vs[j]) {
      assert key(vs[i]) <= key(vs[j]);
    }
  }

  lemma {:induction false} FilterSame(xs: seq<nat>, p: nat -> bool, q: nat -> bool)
    requires forall x: nat :: p(x) == q(x)
    ensures Filter(xs, p) == Filter(xs, q)
  {
    if xs != [] {
      FilterSame(xs[1..], p, q);
    }
  }

  /** Coupon validity depends on coupons, prices and redemptions only. */
  lemma SameValidVersions(s: State, t: State, q: Query, product: nat, user: nat, now: int, rows: seq<nat>)
    requires s.book == t.book && s.prices == t.prices
    requires forall v: nat :: Redeemers(s.orders, v) == Redeemers(t.orders, v)
    requires forall v: nat, u: nat :: UserRedeemers(s.orders, v, u) == UserRedeemers(t.orders, v, u)
    ensures ValidVersions(s, q, product, user, now, rows) == ValidVersions(t, q, product, user, now, rows)
  {
    forall v: nat ensures IsValid(s, q, product, user, now, v) == IsValid(t, q, product, user, now, v) {
      forall w: nat
        ensures IsProductCandidate(s, q, product, w) == IsProductCandidate(t, q, product, w)
        ensures IsGlobalCandidate(s, q, product, w) == IsGlobalCandidate(t, q, product, w)
      {
      }
      assert IsListed(s, q, product, v) == IsListed(t, q, product, v);
    }
    FilterSame(rows, Validity(s, q, product, user, now), Validity(t, q, product, user, now));
  }

  // ----------------------------------------------------------------------------------------
  // Prices and the best coupon
  // ----------------------------------------------------------------------------------------

  /** The coupon version applies to the product: its coupon is global or eligible for it. */
  predicate Applies(book: CouponBook, v: nat, product: nat) {
    && v < |book.versions|
    && book.versions[v].coupon < |book.coupons|
    && (book.coupons[book.versions[v].coupon].isGlobal || (book.versions[v].coupon, product) in book.eligible)
  }

  /** get_product_version_price_with_discount. */
  function PriceWithCoupon(book: CouponBook, coupon: Option<nat>, version: ProductVersion): int {
    if coupon.Some? && Applies(book, coupon.value, version.product) then
      var terms := book.versions[coupon.value].terms;
      DiscountedPrice(terms.kind, terms.amount, version.price)
    else
      PositiveOrZero(version.price)
  }

  /**
   * What it takes for a version to be found for a user and a product: its coupon is enabled, matches
   * the code asked for and is global or eligible for the product; a promo for everything is not enough
   * where a code is required; it is automatic if that is asked for; and it is in its dates and below
   * both limits.
   */
  lemma ValidVersionMeans(s: State, q: Query, product: nat, user: nat, now: int, v: nat)
    requires IsValid(s, q, product, user, now, v)
    ensures v < |s.book.versions| && s.book.versions[v].coupon < |s.book.coupons|
    ensures var c := s.book.versions[v].coupon;
            var (coupon, terms) := (s.book.coupons[c], s.book.versions[v].terms);
            && coupon.enabled
            && (q.code.Some? && q.code.value != "" ==> coupon.code == q.code.value)
            && ((c, product) in s.book.eligible
                || (coupon.isGlobal && (RequiresCode(s, product) ==> terms.couponType != Promo)))
            && (q.autoOnly ==> terms.automatic)
            && (q.company.Some? ==> terms.company == q.company)
            && (q.fullDiscount ==> PassesFullDiscount(terms.kind, terms.amount, CurrentPrice(s, product)))
            && (terms.activation.Some? ==> terms.activation.value <= now)
            && (terms.expiration.Some? ==> now <= terms.expiration.value)
            && |Redeemers(s.orders, v)| < terms.maxRedemptions
            && |UserRedeemers(s.orders, v, user)| < terms.maxPerUser
  {
  }

  /** A version found for a product applies to it. */
  lemma ValidVersionApplies(s: State, q: Query, product: nat, user: nat, now: int, v: nat)
    requires IsValid(s, q, product, user, now, v)
    ensures Applies(s.book, v, product)
  {
  }

  function Min(a: int, b: int): int {
    if a < b then a else b
  }

  /** The first element with the least key. */
  function FirstMinimum(xs: seq<nat>, key: nat -> int): (x: nat)
    requires xs != []
    ensures x in xs
  {
    if |xs| == 1 then xs[0]
    else
      var rest := FirstMinimum(xs[1..], key);
      if key(xs[0]) <= key(rest) then xs[0] else rest
  }

  ghost predicate IsFirstMinimum(xs: seq<nat>, key: nat -> int, i: nat) {
    && i < |xs|
    && (forall j :: 0 <= j < i ==> key(xs[i]) < key(xs[j]))
    && (forall j :: i < j < |xs| ==> key(xs[i]) <= key(xs[j]))
  }

  lemma {:induction false} FirstMinimumSpec(xs: seq<nat>, key: nat -> int) returns (i: nat)
    requires xs != []
    ensures IsFirstMinimum(xs, key, i) && xs[i] == FirstMinimum(xs, key)
  {
    if |xs| == 1 {
      i := 0;
    } else {
      var tail := xs[1..];
      var k := FirstMinimumSpec(tail, key);
      assert forall j :: 1 <= j < |xs| ==> xs[j] == tail[j - 1];
      i := if key(xs[0]) <= key(tail[k]) then 0 else k + 1;
      forall j | 0 <= j < i ensures key(xs[i]) < key(xs[j]) {}
      forall j | i < j < |xs| ensures key(xs[i]) <= key(xs[j]) {
        assert key(tail[k]) <= key(tail[j - 1]);
      }
    }
  }

  lemma {:induction false} FirstMinimumSnoc(xs: seq<nat>, x: nat, key: nat -> int)
    requires xs != []
    ensures FirstMinimum(xs + [x], key)
         == if key(x) < key(FirstMinimum(xs, key)) then x else FirstMinimum(xs, key)
  {
    assert (xs + [x])[1..] == xs[1..] + [x];
    if |xs| > 1 {
      FirstMinimumSnoc(xs[1..], x, key);
    }
  }

  function CappedPrice(listPrice: int, price: nat -> int): nat -> int {
    (v: nat) => Min(price(v), listPrice)
  }

  /** The version best_coupon_for_product picks: no version counts as worse than the list price. */
  function BestCoupon(versions: seq<nat>, listPrice: int, price: nat -> int): Option<nat> {
    if versions == [] then None else Some(FirstMinimum(versions, CappedPrice(listPrice, price)))
  }

  /** The loop of best_coupon_for_product. */
  method FindBestCoupon(versions: seq<nat>, listPrice: int, price: nat -> int) returns (best: Option<nat>)
    ensures best == BestCoupon(versions, listPrice, price)
  {
    if versions == [] {
      return None;
    }
    var key := CappedPrice(listPrice, price);
    var bestPrice, bestCoupon := listPrice, versions[0];
    for i := 0 to |versions|
      invariant i == 0 ==> bestPrice == listPrice && bestCoupon == versions[0]
      invariant i > 0 ==> bestCoupon == FirstMinimum(versions[..i], key) && bestPrice == key(bestCoupon)
    {
      if i > 0 {
        FirstMinimumSnoc(versions[..i], versions[i], key);
        assert versions[..i] + [versions[i]] == versions[..i + 1];
      } else {
        assert versions[..1] == [versions[0]];
      }
      if price(versions[i]) < bestPrice {
        bestPrice := price(versions[i]);
        bestCoupon := versions[i];
      }
    }
    assert versions[..|versions|] == versions;
    return Some(bestCoupon);
  }

  function VersionPrice(book: CouponBook, version: ProductVersion): nat -> int {
    (v: nat) => PriceWithCoupon(book, Some(v), version)
  }

  /**
   * With valid discount amounts, best_coupon_for_product returns the first version of any list
   * that minimises the discounted price, also when no coupon lowers it.
   */
  lemma BestCouponIsFirstCheapest(book: CouponBook, versions: seq<nat>, version: ProductVersion)
    requires version.price >= 0
    requires forall v :: v in versions && v < |book.versions| ==>
               ValidAmount(book.versions[v].terms.kind, book.versions[v].terms.amount)
    ensures var price := VersionPrice(book, version);
            match BestCoupon(versions, version.price, price)
            case None => versions == []
            case Some(best) => exists i: nat :: IsFirstMinimum(versions, price, i) && versions[i] == best
  {
    if versions != [] {
      var price := VersionPrice(book, version);
      var key := CappedPrice(version.price, price);
      forall v | v in versions ensures key(v) == price(v) {
        DiscountedAtMostListPrice(book, v, version);
      }
      var i := FirstMinimumSpec(versions, key);
      forall j | 0 <= j < i ensures price(versions[i]) < price(versions[j]) {
        assert key(versions[i]) < key(versions[j]);
      }
      forall j | i < j < |versions| ensures price(versions[i]) <= price(versions[j]) {
        assert key(versions[i]) <= key(versions[j]);
      }
      assert IsFirstMinimum(versions, price, i);
    }
  }

  lemma DiscountedAtMostListPrice(book: CouponBook, v: nat, version: ProductVersion)
    requires version.price >= 0
    requires v < |book.versions| ==> ValidAmount(book.versions[v].terms.kind, book.versions[v].terms.amount)
    ensures 0 <= PriceWithCoupon(book, Some(v), version) <= version.price
  {
    if Applies(book, v, version.product) {
      DiscountedPriceBounds(book.versions[v].terms.kind, book.versions[v].terms.amount, version.price);
    }
  }

  // ----------------------------------------------------------------------------------------
  // Validity carried from the basket update to checkout
  // ----------------------------------------------------------------------------------------

  function CodeOf(s: State, v: nat): string
    requires v < |s.book.versions| && s.book.versions[v].coupon < |s.book.coupons|
  {
    s.book.coupons[s.book.versions[v].coupon].code
  }

  /** A version found by a code, or by no code, is found again by its own coupon's code. */
  lemma ValidUnderOwnCode(s: State, code: Option<string>, product: nat, user: nat, now: int, v: nat)
    requires IsValid(s, Query(false, code, false, None), product, user, now, v)
    ensures IsValid(s, ByCode(CodeOf(s, v)), product, user, now, v)
  {
    var q := Query(false, code, false, None);
    var own := ByCode(CodeOf(s, v));
    forall w: nat | w < |s.book.versions| && s.book.versions[w].coupon == s.book.versions[v].coupon
      ensures IsProductCandidate(s, own, product, w) == IsProductCandidate(s, q, product, w)
      ensures IsGlobalCandidate(s, own, product, w) == IsGlobalCandidate(s, q, product, w)
    {
    }
  }

  /** The latest version of a coupon, whatever its terms. */
  function LatestCouponVersion(versions: seq<CouponVersion>, coupon: nat): (v: Option<nat>)
    ensures v.None? <==> forall i :: 0 <= i < |versions| ==> versions[i].coupon != coupon
    ensures v.Some? ==>
              v.value < |versions| && versions[v.value].coupon == coupon
              && forall i :: v.value < i < |versions| ==> versions[i].coupon != coupon
  {
    if versions == [] then None
    else if versions[|versions| - 1].coupon == coupon then Some(|versions| - 1)
    else LatestCouponVersion(versions[..|versions| - 1], coupon)
  }

  /** The versions of a coupon are all automatic or all manual. */
  ghost predicate AgreesOnAutomatic(book: CouponBook, coupon: nat) {
    forall v, w :: 0 <= v < |book.versions| && 0 <= w < |book.versions|
                   && book.versions[v].coupon == coupon && book.versions[w].coupon == coupon ==>
                   book.versions[v].terms.automatic == book.versions[w].terms.automatic
  }

  lemma AutoValidUnderOwnCode(s: State, product: nat, user: nat, now: int, v: nat)
    requires IsValid(s, AUTO_COUPON, product, user, now, v)
    requires AgreesOnAutomatic(s.book, s.book.versions[v].coupon)
    ensures IsValid(s, ByCode(CodeOf(s, v)), product, user, now, v)
  {
    var own := ByCode(CodeOf(s, v));
    forall w: nat | w < |s.book.versions| && s.book.versions[w].coupon == s.book.versions[v].coupon
      ensures IsProductCandidate(s, own, product, w) == IsProductCandidate(s, AUTO_COUPON, product, w)
      ensures IsGlobalCandidate(s, own, product, w) == IsGlobalCandidate(s, AUTO_COUPON, product, w)
    {
    }
  }

  ghost predicate CodesDistinct(book: CouponBook) {
    forall c, d :: 0 <= c < d < |book.coupons| ==> book.coupons[c].code != book.coupons[d].code
  }

  /**
   * In general an automatically applied coupon passes checkout exactly when one of the coupon's
   * latest versions, automatic or not, is within its limits.
   */
  lemma AutoAppliedExactly(s: State, product: nat, user: nat, now: int, coupon: nat)
    requires CodesDistinct(s.book) && coupon < |s.book.coupons| && s.book.coupons[coupon].code != ""
    ensures (exists w: nat :: IsValid(s, ByCode(s.book.coupons[coupon].code), product, user, now, w)) <==>
            (exists w: nat :: IsListed(s, ANY_COUPON, product, w) && s.book.versions[w].coupon == coupon
                              && IsWithinLimits(s, user, now, w))
  {
    var own := ByCode(s.book.coupons[coupon].code);
    forall w: nat
      ensures IsProductCandidate(s, own, product, w) <==>
                (IsProductCandidate(s, ANY_COUPON, product, w) && s.book.versions[w].coupon == coupon)
      ensures IsGlobalCandidate(s, own, product, w) <==>
                (IsGlobalCandidate(s, ANY_COUPON, product, w) && s.book.versions[w].coupon == coupon)
    {
    }
    forall w: nat
      ensures IsListed(s, own, product, w) <==>
                (IsListed(s, ANY_COUPON, product, w) && s.book.versions[w].coupon == coupon)
    {
    }
    if w: nat :| IsValid(s, own, product, user, now, w) {
      assert IsListed(s, ANY_COUPON, product, w) && IsWithinLimits(s, user, now, w);
    }
    if w: nat :| IsListed(s, ANY_COUPON, product, w) && s.book.versions[w].coupon == coupon
                 && IsWithinLimits(s, user, now, w) {
      assert IsValid(s, own, product, user, now, w);
    }
  }
}
