/**
 * The coupons of one payment keep the same terms, dates aside, over every run. So an automatically
 * applied coupon always passes validation in a shop whose rows only its own requests have written.
 */
module PromoTerms {
  import opened Prelude
  import opened Money
  import opened CourseCatalogue
  import opened Records
  import opened Coupons
  import opened Baskets
  import opened Orders
  import opened Seats
  import opened BulkOrders
  import opened Machine
  import opened BulkRuns

  predicate SameButDates(a: Terms, b: Terms) {
    a == b.(activation := a.activation, expiration := a.expiration)
  }

  /** Versions of coupons of one payment differ in their dates only. */
  ghost predicate TermsAgree(book: CouponBook) {
    forall v, w :: 0 <= v < |book.versions| && 0 <= w < |book.versions|
                   && PaymentOf(book, v).Some? && PaymentOf(book, v) == PaymentOf(book, w) ==>
                   SameButDates(book.versions[v].terms, book.versions[w].terms)
  }

  lemma AgreeingTermsAgreeOnAutomatic(book: CouponBook, coupon: nat)
    requires TermsAgree(book) && coupon < |book.coupons|
    ensures AgreesOnAutomatic(book, coupon)
  {
    forall v, w | 0 <= v < |book.versions| && 0 <= w < |book.versions|
                  && book.versions[v].coupon == coupon && book.versions[w].coupon == coupon
      ensures book.versions[v].terms.automatic == book.versions[w].terms.automatic
    {
      assert PaymentOf(book, v) == PaymentOf(book, w) == Some(book.coupons[coupon].payment);
    }
  }

  lemma IssueKeepsTerms(book: CouponBook, issue: Issue, draws: Draws)
    requires BookFits(book) && TermsAgree(book) && CreateCoupons(book, issue, draws).Ok?
    ensures TermsAgree(CreateCoupons(book, issue, draws).value)
  {
    var after := CreateCoupons(book, issue, draws).value;
    var n := |book.versions|;
    InsertedCodesSpec(book, issue, draws);
    forall v | 0 <= v < |after.versions|
      ensures v < n ==> after.versions[v] == book.versions[v] && PaymentOf(after, v) == PaymentOf(book, v)
                        && PaymentOf(book, v).Some? && PaymentOf(book, v).value < |book.payments|
      ensures v >= n ==> PaymentOf(after, v) == Some(|book.payments|) && after.versions[v].terms == issue.terms
    {
      if v < n {
        assert book.versions[v].coupon < |book.coupons|;
      } else {
        assert after.versions[v] == NewVersions(|book.coupons|, |after.versions| - n, issue.terms)[v - n];
      }
    }
  }

  lemma IssueStepKeepsTerms(book: CouponBook, issue: Issue, draws: Draws)
    requires BookFits(book) && TermsAgree(book)
    ensures TermsAgree(IssuedBook(book, issue, draws))
  {
    var done := IssuedBookIsCreated(book, issue, draws);
    if CreateCoupons(book, done, draws).Ok? {
      IssueKeepsTerms(book, done, draws);
    }
  }

  /** A promo update leaves the older versions and their payments as they are. */
  lemma PromoKeepsVersions(book: CouponBook, promo: PromoChange, v: nat)
    requires promo.coupon < |book.coupons| && PromoVersion(book, promo).Some? && v < |book.versions|
    ensures var after := PromoUpdated(book, promo);
            after.versions[v] == book.versions[v] && PaymentOf(after, v) == PaymentOf(book, v)
  {
  }

  /** The version it adds differs in its dates only from an older one of the same payment. */
  lemma PromoCopiesTerms(book: CouponBook, promo: PromoChange) returns (u: nat)
    requires promo.coupon < |book.coupons| && PromoVersion(book, promo).Some?
    ensures var after := PromoUpdated(book, promo);
            && u < |book.versions| && |after.versions| == |book.versions| + 1
            && PaymentOf(book, u).Some? && PaymentOf(after, |book.versions|) == PaymentOf(book, u)
            && SameButDates(after.versions[|book.versions|].terms, book.versions[u].terms)
  {
    var payment := book.coupons[promo.coupon].payment;
    u :| 0 <= u < |book.versions| && PaymentOf(book, u) == Some(payment)
         && book.versions[u].terms == LatestTerms(book, |book.versions|, payment).value;
  }

  lemma PromoKeepsTerms(book: CouponBook, promo: PromoChange)
    requires TermsAgree(book) && promo.coupon < |book.coupons| && PromoVersion(book, promo).Some?
    ensures TermsAgree(PromoUpdated(book, promo))
  {
    var n := |book.versions|;
    var u := PromoCopiesTerms(book, promo);
    forall v | 0 <= v < n
      ensures PromoUpdated(book, promo).versions[v] == book.versions[v]
      ensures PaymentOf(PromoUpdated(book, promo), v) == PaymentOf(book, v)
    {
      PromoKeepsVersions(book, promo, v);
    }
  }

  /**
   * What a promo update writes. The coupon's latest version has the given dates and otherwise the
   * latest terms of its payment; its scope and products are the given ones. Nothing else changes: not
   * its code, not the older versions, and not the other coupons or their products.
   */
  lemma PromoUpdateExactly(book: CouponBook, promo: PromoChange)
    requires promo.coupon < |book.coupons| && PromoVersion(book, promo).Some?
    ensures var after := PromoUpdated(book, promo);
            var c, n := promo.coupon, |book.versions|;
            && LatestCouponVersion(after.versions, c) == Some(n) && |after.versions| == n + 1
            && after.versions[n].terms.activation == promo.activation
            && after.versions[n].terms.expiration == promo.expiration
            && (exists u :: 0 <= u < n && PaymentOf(book, u) == Some(book.coupons[c].payment)
                  && SameButDates(after.versions[n].terms, book.versions[u].terms)
                  && forall w :: u < w < n ==> PaymentOf(book, w) != Some(book.coupons[c].payment))
            && book.versions <= after.versions && after.payments == book.payments
            && after.coupons == book.coupons[c := book.coupons[c].(isGlobal := promo.isGlobal)]
            && (forall d, p :: (d, p) in after.eligible <==>
                  if d == c then p in promo.products else (d, p) in book.eligible)
  {
    var after := PromoUpdated(book, promo);
    forall d, p ensures (d, p) in after.eligible <==> if d == promo.coupon then p in promo.products
                                                      else (d, p) in book.eligible {}
  }

  /** A disabled coupon is found by no query, and disabling changes nothing else of any coupon. */
  lemma DisabledIsRefused(s: State, disabled: set<nat>, q: Query, product: nat, user: nat, now: int, v: nat)
    requires v < |s.book.versions| && s.book.versions[v].coupon in disabled
    ensures var coupons := Disable(s.book.coupons, disabled);
            && !IsValid(s.(book := s.book.(coupons := coupons)), q, product, user, now, v)
            && |coupons| == |s.book.coupons|
            && forall c :: 0 <= c < |coupons| ==>
                 coupons[c] == s.book.coupons[c].(enabled := s.book.coupons[c].enabled && c !in disabled)
  {
  }

  lemma DisableKeepsTerms(book: CouponBook, disabled: set<nat>)
    requires TermsAgree(book)
    ensures TermsAgree(book.(coupons := Disable(book.coupons, disabled)))
  {
    var after := book.(coupons := Disable(book.coupons, disabled));
    forall v | 0 <= v < |after.versions| ensures PaymentOf(after, v) == PaymentOf(book, v) {}
  }

  lemma BulkStepKeepsTerms(s: State, e: Event)
    requires BookFits(s.book) && TermsAgree(s.book) && IsBulk(e)
    ensures TermsAgree(BulkStep(s, e).book)
  {
    var t := BulkStep(s, e);
    if t.book != s.book {
      if e.BulkCheckOut? {
        var k := |s.b2bOrders|;
        var saved := s.(b2bOrders := s.b2bOrders + [t.b2bOrders[k].(payment := None)]);
        assert CompleteBulk(saved, k, e.draws) == Ok(t);
        IssueKeepsTerms(s.book, SeatIssue(saved, k), e.draws);
      } else {
        IssueKeepsTerms(s.book, SeatIssue(s, e.order), e.draws);
      }
    }
  }

  lemma BookStepKeepsTerms(s: State, e: Event)
    requires BookFits(s.book) && TermsAgree(s.book) && WritesBookOnly(e)
    ensures TermsAgree(BookStep(s, e).book)
  {
    match e
    case UpdatePromo(promo) => if CanUpdatePromo(s, promo) { PromoKeepsTerms(s.book, promo); }
    case IssueCoupons(issue, draws) => IssueStepKeepsTerms(s.book, issue, draws);
    case DisableCoupons(disabled) => DisableKeepsTerms(s.book, disabled);
  }

  lemma StepKeepsTerms(cat: Catalogue, s: State, e: Event)
    requires cat.Valid() && BookFits(s.book) && TermsAgree(s.book)
    ensures TermsAgree(Step(cat, s, e).book)
  {
    if IsBulk(e) {
      BulkStepKeepsTerms(s, e);
    } else if WritesBookOnly(e) {
      BookStepKeepsTerms(s, e);
    } else {
      OtherStepsKeepBulkOrders(cat, s, e);
    }
  }

  lemma {:induction false} RunKeepsTerms(cat: Catalogue, s: State, events: seq<Event>)
    requires cat.Valid() && StateFits(cat, s) && TermsAgree(s.book)
    ensures TermsAgree(Machine.Run(cat, s, events).book)
    decreases |events|
  {
    if events != [] {
      StepKeepsTerms(cat, s, events[0]);
      StepFits(cat, s, events[0]);
      RunKeepsTerms(cat, Step(cat, s, events[0]), events[1..]);
    }
  }

  /**
   * After any run, an accepted update that leaves a coupon on a product leaves one that validates at
   * the same moment, whether it was given by code, kept, or applied automatically.
   */
  lemma ReachableCouponValidates(
      cat: Catalogue, s: State, events: seq<Event>, user: nat, req: Request, m: Moment)
    requires cat.Valid() && StateFits(cat, s) && TermsAgree(s.book)
    requires IsRowOrder(Machine.Run(cat, s, events), m.rows)
    requires Update(cat, Machine.Run(cat, s, events), user, req, m).Ok?
    ensures var t := Update(cat, Machine.Run(cat, s, events), user, req, m).value;
            var b := t.BasketOf(user);
            b.coupons != [] ==> |b.items| == 1 && |b.coupons| == 1 && CouponValidates(t, b, user, m)
  {
    RunFits(cat, s, events);
    RunKeepsTerms(cat, s, events);
    var reached := Machine.Run(cat, s, events);
    assert BasketsFit(cat, reached) && OrdersFit(reached) && BookFits(reached.book);
    FittingCouponValidates(cat, reached, user, req, m);
  }

  lemma FittingCouponValidates(cat: Catalogue, s: State, user: nat, req: Request, m: Moment)
    requires cat.Valid() && BasketsFit(cat, s) && OrdersFit(s) && BookFits(s.book) && TermsAgree(s.book)
    requires IsRowOrder(s, m.rows) && Update(cat, s, user, req, m).Ok?
    ensures var t := Update(cat, s, user, req, m).value;
            var b := t.BasketOf(user);
            b.coupons != [] ==> |b.items| == 1 && |b.coupons| == 1 && CouponValidates(t, b, user, m)
  {
    UpdateThenCouponValidates(cat, s, user, req, m);
    var b := Update(cat, s, user, req, m).value.BasketOf(user);
    if b.coupons != [] {
      UpdatedCouponExists(cat, s, user, req, m);
      AgreeingTermsAgreeOnAutomatic(s.book, b.coupons[0]);
    }
  }

  /** The coupon an update leaves is a row of the coupon table. */
  lemma UpdatedCouponExists(cat: Catalogue, s: State, user: nat, req: Request, m: Moment)
    requires cat.Valid() && BasketsFit(cat, s) && OrdersFit(s) && BookFits(s.book)
    requires IsRowOrder(s, m.rows) && Update(cat, s, user, req, m).Ok?
    ensures var b := Update(cat, s, user, req, m).value.BasketOf(user);
            b.coupons != [] ==> b.coupons[0] < |s.book.coupons|
  {
    var saved := SavedBasketFits(cat, s, user, req, m);
    SyncKeepsValidation(cat, saved, user, m);
    var b := saved.BasketOf(user);
    if b.coupons != [] {
      UpdatedCouponIsApplicable(cat, s, user, req, m);
      ApplicableCouponStaysValid(s, s.BasketOf(user), b.items[0].product, user, req.coupons, m);
    }
  }

  // ----------------------------------------------------------------------------------------
  // Rows that no request writes
  // ----------------------------------------------------------------------------------------

  const AUTOMATIC_TERMS := Terms(PercentOff, 50_000, CouponType.Promo, true, None, 10, 10, None, None)

  const ONE_RUN := Catalogue(
    [CourseCatalogue.Run(0, true, None, None, None, None)],
    [Course(None, true, false)],
    [],
    [Product(RunContent(0), true)])

  /**
   * A coupon whose older version is automatic and whose latest version is manual and expired, as an
   * edit of its rows by hand can leave it, and a basket with the product and no coupon.
   */
  const EDITED_BY_HAND := State(
    map[0 := Basket([Item(0, 1, None)], {0}, [])], [], 0, {}, [], [ProductVersion(0, 100, false)],
    CouponBook([Coupon("C", 0, false, true)],
               [CouponVersion(0, AUTOMATIC_TERMS),
                CouponVersion(0, AUTOMATIC_TERMS.(automatic := false, expiration := Some(5)))],
               {(0, 0)}, ["payment"]),
    [], [])

  const LATER := Moment(10, [0, 1], true)

  /** Clear the coupon, which applies one automatically. */
  const NO_CODE := Request(None, Some([]), false)

  lemma VersionsByQuery()
    ensures ValidVersions(EDITED_BY_HAND, AUTO_COUPON, 0, 0, 10, [0, 1]) == [0]
    ensures ValidVersions(EDITED_BY_HAND, ByCode("C"), 0, 0, 10, [0, 1]) == []
  {
    var s := EDITED_BY_HAND;
    assert Redeemers(s.orders, 0) == {} && UserRedeemers(s.orders, 0, 0) == {};
    assert !IsProductCandidate(s, AUTO_COUPON, 0, 1);
    assert IsProductCandidate(s, ByCode("C"), 0, 1);
    assert IsListed(s, AUTO_COUPON, 0, 0);
    var auto, own := Validity(s, AUTO_COUPON, 0, 0, 10), Validity(s, ByCode("C"), 0, 0, 10);
    assert auto(0) && !auto(1) && !own(0) && !own(1);
    var rows: seq<nat> := [0, 1];
    assert rows[1..] == [1] && rows[1..][1..] == [];
    assert Filter(rows, auto) == [0] && Filter(rows, own) == [];
    var one: seq<nat> := [0];
    assert SortBy(one, ByDecreasingAmount(s.book)) == one;
  }

  lemma CouponApplied()
    ensures NextBasket(ONE_RUN, EDITED_BY_HAND, 0, NO_CODE, LATER) == Ok(Basket([Item(0, 1, None)], {0}, [0]))
  {
    var s := EDITED_BY_HAND;
    VersionsByQuery();
    assert LatestVersion(s.prices, 0) == Some(0);
    assert BestForProduct(s, AUTO_COUPON, 0, 0, LATER) == Some(0);
    assert PlanChange(ONE_RUN, s, 0, NO_CODE, LATER) == Ok(Change(None, None, None, false, Some(0)));
    assert 0 in s.BasketOf(0).runs;
  }

  /** With such rows the update applies the coupon and validation refuses it at the same moment. */
  lemma AutoAppliedCanFail()
    ensures var next := NextBasket(ONE_RUN, EDITED_BY_HAND, 0, NO_CODE, LATER);
            && next.Ok? && next.value.coupons == [0]
            && CheckCoupon(EDITED_BY_HAND, next.value, 0, 0, LATER) == Err(CouponInvalid)
  {
    CouponApplied();
    VersionsByQuery();
  }
}
