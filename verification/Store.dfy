/**
 * The shop's tables and the requests that change them step by step. Each method is proved to be
 * the corresponding transition of the state machine, and to keep its invariant.
 */
module Store {
  import opened Prelude
  import opened CourseCatalogue
  import opened Records
  import opened Coupons
  import opened Baskets
  import opened Orders
  import opened Seats
  import opened BulkOrders
  import opened Machine

  class Shop {
    const cat: Catalogue
    const b2bCoupons: seq<B2BCoupon>

    var baskets: map<nat, Basket>
    var orders: seq<Order>
    var lineCount: nat
    var enrolled: set<(nat, nat)>
    var completions: seq<Completion>
    var prices: seq<ProductVersion>
    var book: CouponBook
    var b2bOrders: seq<B2BOrder>

    /** The tables as one value. */
    function Now(): State
      reads this
    {
      State(baskets, orders, lineCount, enrolled, completions, prices, book, b2bCoupons, b2bOrders)
    }

    ghost predicate Valid()
      reads this
    {
      cat.Valid() && StateFits(cat, Now())
    }

    constructor (cat: Catalogue, prices: seq<ProductVersion>, book: CouponBook, b2bCoupons: seq<B2BCoupon>)
      requires cat.Valid() && BookFits(book)
      ensures Valid() && this.cat == cat
      ensures Now() == State(map[], [], 0, {}, [], prices, book, b2bCoupons, [])
    {
      this.cat, this.b2bCoupons, this.prices, this.book := cat, b2bCoupons, prices, book;
      baskets, orders, lineCount, enrolled, completions, b2bOrders := map[], [], 0, {}, [], [];
      new;
      InitialStateFits(cat, Now());
    }

    // --------------------------------------------------------------------------------------
    // Baskets
    // --------------------------------------------------------------------------------------

    /** _autoselect_runs: the runs to add to a basket that holds the product and no selection. */
    method AutoselectRuns(product: nat, user: nat, now: int) returns (runs: set<nat>)
      requires product < |cat.products|
      ensures runs == AutoselectedRuns(cat, cat.products[product].content, now, Now().EnrolledRuns(user))
    {
      match cat.products[product].content
      case RunContent(r) =>
        runs := {r};
      case ProgramContent(p) =>
        var picked := CollectRuns(cat.LiveCourses(p), cat.RunChooser(now, Now().EnrolledRuns(user)));
        runs := if picked.Some? then RunSet(picked.value) else {};
    }

    /** _update_basket_data: delete, recreate and fill in the basket's rows, or roll back. */
    method UpdateBasketData(user: nat, change: Change, now: int) returns (error: Option<Rejection>)
      modifies this`baskets
      ensures match ChangedBasket(cat, old(Now()).BasketOf(user), change, now, old(Now()).EnrolledRuns(user))
              case Ok(b) => error.None? && baskets == old(baskets)[user := b]
              case Err(reason) => error == Some(reason) && baskets == old(baskets)
    {
      var basket := Now().BasketOf(user);
      var items, runs, coupons := basket.items, basket.runs, basket.coupons;
      if change.runs.Some? {
        runs := {};
      }
      if change.coupon.None? {
        coupons := [];
      }
      if change.product.Some? || change.setProgramRun {
        if |items| > 1 || (items == [] && change.product.None?) {
          return Some(CorruptBasket);
        }
        var item := if items == [] then Item(change.product.value, 1, None) else items[0].(quantity := 1);
        if change.product.Some? {
          item := item.(product := change.product.value);
        }
        if change.setProgramRun {
          item := item.(programRun := change.programRun);
        }
        items := [item];
      }
      if change.runs.Some? {
        runs := change.runs.value;
      }
      if items != [] && runs == {} && items[0].product < |cat.products| {
        runs := AutoselectRuns(items[0].product, user, now);
      }
      if change.coupon.Some? {
        if |coupons| > 1 {
          return Some(CorruptBasket);
        }
        coupons := [change.coupon.value];
      }
      baskets := baskets[user := Basket(items, runs, coupons)];
      return None;
    }

    /** BasketSerializer.update. */
    method UpdateBasket(user: nat, req: Request, m: Moment) returns (error: Option<Rejection>)
      requires Valid()
      modifies this
      ensures Valid()
      ensures Now() == Step(cat, old(Now()), Event.UpdateBasket(user, req, m))
      ensures error.None? <==> NextBasket(cat, old(Now()), user, req, m).Ok?
    {
      StepFits(cat, Now(), Event.UpdateBasket(user, req, m));
      if !IsWellFormed(req) {
        return Some(InvalidRequest);
      }
      if req.items == Some([]) {
        baskets := baskets[user := EMPTY_BASKET];
        return None;
      }
      var plan := PlanChange(cat, Now(), user, req, m);
      if plan.Err? {
        return Some(plan.error);
      }
      error := UpdateBasketData(user, plan.value, m.now);
      if error.None? {
        SyncUnfulfilledOrder(user, m);
      }
    }

    /** _sync_unfulfilled_order: mirror the basket onto the open order, if it is ready for checkout. */
    method SyncUnfulfilledOrder(user: nat, m: Moment)
      requires cat.Valid()
      modifies this`orders, this`lineCount
      ensures Now() == SyncOrder(cat, old(Now()), user, m)
    {
      var validated := ValidateBasket(cat, Now(), user, m);
      if validated.Ok? {
        var ignored := CreateOrUpdateUnfulfilledOrder(validated.value, 0);
      }
    }

    // --------------------------------------------------------------------------------------
    // Orders
    // --------------------------------------------------------------------------------------

    /** create_or_update_unfulfilled_order: write the order, its line and its redemption, or roll back. */
    method CreateOrUpdateUnfulfilledOrder(vb: ValidatedBasket, taxRate: int) returns (r: Result<nat, Rejection>)
      requires vb.version < |prices|
      modifies this`orders, this`lineCount
      ensures match CreateOrUpdate(old(Now()), vb, taxRate)
              case Ok((t, k)) => r == Ok(k) && Now() == t && k < |orders|
              case Err(reason) => r == Err(reason) && Now() == old(Now())
    {
      var version := prices[vb.version];
      var found := OpenOrder(prices, orders, vb.user, version.product);
      var order := if found.Some? then orders[found.value] else Order(vb.user, Created, 0, 0, [], []);
      order := order.(total := PriceWithCoupon(book, vb.coupon, version), taxRate := taxRate);

      var id := lineCount;
      if |order.lines| > 1 {
        return Err(CorruptOrder);
      } else if |order.lines| == 1 {
        id := order.lines[0].id;
      }
      var isNewLine := order.lines == [];
      var line := Line(id, vb.version, vb.item.quantity, None, {});
      if vb.item.programRun.Some? {
        line := line.(programRun := vb.item.programRun);
      }
      line := line.(runs := vb.runs);
      order := order.(lines := [line]);

      if vb.coupon.Some? {
        if |order.redemptions| > 1 {
          return Err(CorruptOrder);
        }
        order := order.(redemptions := [vb.coupon.value]);
      } else {
        order := order.(redemptions := []);
      }

      var k := |orders|;
      if found.Some? {
        k := found.value;
        orders := orders[k := order];
      } else {
        orders := orders + [order];
      }
      if isNewLine {
        lineCount := lineCount + 1;
      }
      return Ok(k);
    }

    /** The enrollment loop of complete_order: one record for each selected run that is reached and can be written. */
    method EnrollInOrderItems(order: Order, ending: Ending)
      modifies this`enrolled
      ensures enrolled == old(enrolled) + NewEnrollments(order, ending)
    {
      if order.lines != [] {
        var runs := order.lines[0].runs;
        var pending := runs;
        while pending != {}
          invariant pending <= runs
          invariant enrolled == old(enrolled) + Enrollments(order.purchaser, runs - pending, ending)
          decreases |pending|
        {
          var run :| run in pending;
          OneMoreEnrollment(order.purchaser, runs - pending, run, ending);
          assert runs - (pending - {run}) == (runs - pending) + {run};
          if ending.Enrolls(run) {
            enrolled := enrolled + {(order.purchaser, run)};
          }
          pending := pending - {run};
        }
        assert runs - {} == runs;
      }
    }

    /** Set the order fulfilled, save it, and call complete_order, which an exception may stop. */
    method CompleteOrder(k: nat, ending: Ending, free: bool)
      requires k < |orders|
      modifies this
      ensures Now() == Fulfil(old(Now()), k, ending, free)
    {
      orders := orders[k := orders[k].(status := Fulfilled)];
      completions := completions + [Completion(k, free)];
      EnrollInOrderItems(orders[k], ending);
      if ending.Completed? {
        baskets := baskets - {orders[k].purchaser};
      }
    }

    /** CheckoutView.post; the exception that stops a completion comes after the order is saved. */
    method CheckOut(user: nat, taxRate: int, m: Moment, ending: Ending) returns (r: Result<nat, Rejection>)
      requires Valid()
      modifies this
      ensures Valid()
      ensures Now() == Step(cat, old(Now()), Event.CheckOut(user, taxRate, m, ending))
      ensures match ValidateBasket(cat, old(Now()), user, m)
              case Err(reason) => r == Err(reason)
              case Ok(_) => if |completions| > |old(completions)| && ending.Stopped? then r == Err(CompletionStopped)
                            else r.Ok?
    {
      StepFits(cat, Now(), Event.CheckOut(user, taxRate, m, ending));
      var validated := ValidateBasket(cat, Now(), user, m);
      if validated.Err? {
        return Err(validated.error);
      }
      ValidatedBasketIsMirrorable(cat, Now(), user, m);
      CreateOrUpdateSpec(Now(), validated.value, taxRate);
      r := CreateOrUpdateUnfulfilledOrder(validated.value, taxRate);
      if orders[r.value].total == 0 {
        CompleteOrder(r.value, ending, true);
        if ending.Stopped? {
          return Err(CompletionStopped);
        }
      }
    }

    /** fulfill_order for the order that the reference number names. */
    method FulfillOrder(k: nat, decision: string, ending: Ending) returns (error: Option<Rejection>)
      requires Valid()
      modifies this
      ensures Valid()
      ensures Now() == Step(cat, old(Now()), Decide(k, decision, ending))
      ensures match HandleMessage(old(Now()), k, decision, ending)
              case Err(reason) => error == Some(reason)
              case Ok(_) =>
                error == if |completions| > |old(completions)| && ending.Stopped? then Some(CompletionStopped) else None
    {
      StepFits(cat, Now(), Decide(k, decision, ending));
      if k >= |orders| {
        return Some(UnknownOrder);
      }
      var change := StatusChange(orders[k].status, decision);
      if change.Err? {
        return Some(change.error);
      }
      if change.value == Some(Fulfilled) {
        CompleteOrder(k, ending, false);
        if ending.Stopped? {
          return Some(CompletionStopped);
        }
      } else if change.value.Some? {
        orders := orders[k := orders[k].(status := change.value.value)];
      }
      return None;
    }

    // --------------------------------------------------------------------------------------
    // Bulk orders
    // --------------------------------------------------------------------------------------

    /**
     * create_coupons: insert the payment, then the coupons and their versions, then the eligibilities.
     * An error leaves the rows inserted before it; rolling them back is up to the caller.
     */
    method IssueCoupons(issue: Issue, draws: Draws) returns (r: Result<nat, IssueError>)
      modifies this`book
      ensures match CreateCoupons(old(book), issue, draws)
              case Ok(after) => r == Ok(|old(book).payments|) && book == after
              case Err(cause) => r == Err(cause) && book == KeptRows(old(book), issue, draws, cause)
    {
      if issue.name in book.payments {
        return Err(NameTaken);
      }
      var payment, first := |book.payments|, |book.coupons|;
      var codes := DrawCodes(book, issue, draws);
      book := book.(payments := book.payments + [issue.name]);
      if codes.Err? {
        return Err(codes.error);
      }
      InsertCoupons(codes.value, payment, issue);
      if issue.count > 0 && HasDuplicates(issue.products) {
        return Err(DuplicateProduct);
      }
      book := book.(eligible := book.eligible + NewEligibilities(first, |codes.value|, issue.products));
      return Ok(payment);
    }

    /** Insert a coupon with its version for each code. */
    method InsertCoupons(codes: seq<string>, payment: nat, issue: Issue)
      modifies this`book
      ensures book == old(book).(
                        coupons := old(book).coupons + NewCoupons(codes, payment, issue.isGlobal),
                        versions := old(book).versions + NewVersions(|old(book).coupons|, |codes|, issue.terms))
    {
      var before := book;
      var first := |book.coupons|;
      for i := 0 to |codes|
        invariant book == before.(
                            coupons := before.coupons + NewCoupons(codes[..i], payment, issue.isGlobal),
                            versions := before.versions + NewVersions(first, i, issue.terms))
      {
        assert NewCoupons(codes[..i + 1], payment, issue.isGlobal)
            == NewCoupons(codes[..i], payment, issue.isGlobal) + [Coupon(codes[i], payment, issue.isGlobal, true)];
        assert NewVersions(first, i + 1, issue.terms)
            == NewVersions(first, i, issue.terms) + [CouponVersion(first + i, issue.terms)];
        book := book.(coupons := book.coupons + [Coupon(codes[i], payment, issue.isGlobal, true)],
                      versions := book.versions + [CouponVersion(first + i, issue.terms)]);
      }
      assert codes[..|codes|] == codes;
    }

    /** complete_b2b_order on an order that is being fulfilled, in a transaction. */
    method CompleteBulkOrder(k: nat, draws: Draws) returns (error: Option<IssueError>)
      requires k < |b2bOrders| && b2bOrders[k].version < |prices|
      modifies this`book, this`b2bOrders
      ensures match CompleteBulk(old(Now()), k, draws)
              case Ok(t) => error.None? && Now() == t
              case Err(cause) => error == Some(cause) && Now() == old(Now())
    {
      var savepoint := book;
      var payment := IssueCoupons(SeatIssue(Now(), k), draws);
      if payment.Err? {
        book := savepoint;
        return Some(payment.error);
      }
      b2bOrders := b2bOrders[k := b2bOrders[k].(status := Fulfilled, payment := Some(payment.value))];
      return None;
    }

    /** fulfill_b2b_order for the order that the reference number names. */
    method FulfillBulkOrder(k: nat, decision: string, draws: Draws) returns (error: Option<BulkError>)
      requires Valid()
      modifies this
      ensures Valid()
      ensures Now() == Step(cat, old(Now()), BulkDecide(k, decision, draws))
      ensures error.None? <==> HandleBulkMessage(old(Now()), k, decision, draws).Ok?
    {
      StepFits(cat, Now(), BulkDecide(k, decision, draws));
      if k >= |b2bOrders| {
        return Some(Refused(UnknownOrder));
      }
      assert b2bOrders[k].version < |prices|;
      var change := StatusChange(b2bOrders[k].status, decision);
      if change.Err? {
        return Some(Refused(change.error));
      }
      if change.value == Some(Fulfilled) {
        var failure := CompleteBulkOrder(k, draws);
        return if failure.Some? then Some(CodesNotCreated(failure.value)) else None;
      } else if change.value.Some? {
        b2bOrders := b2bOrders[k := b2bOrders[k].(status := change.value.value)];
      }
      return None;
    }

    /** CouponListView.post: create_coupons outside a transaction. */
    method CreateCouponPayment(issue: Issue, draws: Draws) returns (r: Result<nat, IssueError>)
      requires Valid()
      modifies this
      ensures Valid()
      ensures Now() == Step(cat, old(Now()), Event.IssueCoupons(issue, draws))
      ensures r.Ok? <==> CreateCoupons(old(book), issue, draws).Ok?
    {
      StepFits(cat, Now(), Event.IssueCoupons(issue, draws));
      IssueStep(cat, Now(), issue, draws);
      r := IssueCoupons(issue, draws);
    }

    /** Create an order of the bulk checkout; if it is free, set it fulfilled, save it, and complete it. */
    method PlaceBulkOrder(order: B2BOrder, draws: Draws) returns (error: Option<IssueError>)
      requires order.version < |prices| && order.status == Created
      modifies this`book, this`b2bOrders
      ensures var placed := order.(status := if order.total == 0 then Fulfilled else Created);
              var saved := old(Now()).(b2bOrders := old(b2bOrders) + [placed]);
              if order.total != 0 then error.None? && Now() == saved
              else match CompleteBulk(saved, |old(b2bOrders)|, draws)
                case Ok(t) => error.None? && Now() == t
                case Err(cause) => error == Some(cause) && Now() == saved
    {
      var k := |b2bOrders|;
      b2bOrders := b2bOrders + [order];
      if order.total != 0 {
        return None;
      }
      b2bOrders := b2bOrders[k := order.(status := Fulfilled)];
      assert b2bOrders == old(b2bOrders) + [order.(status := Fulfilled)];
      error := CompleteBulkOrder(k, draws);
    }

    /**
     * B2BCheckoutView.post. An accepted request succeeds exactly when its order is not free or its
     * codes can be issued; the error of a free order without codes comes after the order is saved.
     */
    method CheckOutBulk(req: BulkRequest, now: int, draws: Draws) returns (error: Option<BulkError>)
      requires Valid()
      modifies this
      ensures Valid()
      ensures Now() == Step(cat, old(Now()), BulkCheckOut(req, now, draws))
      ensures error.Some? && error.value.Refused? <==> BulkCheckout(old(Now()), req, now, draws).Err?
      ensures error.None? <==> CheckoutSucceeds(old(Now()), req, now, draws)
    {
      StepFits(cat, Now(), BulkCheckOut(req, now, draws));
      CheckoutSucceedsExactly(Now(), req, now, draws);
      if req.contract != "" && ContractUsed(b2bOrders, req.contract) {
        return Some(Refused(InvalidRequest));
      }
      if req.version >= |prices| {
        return Some(Refused(NoVersion));
      }
      var coupon := None;
      if req.code != "" {
        coupon := FindB2BCoupon(Now(), |b2bCoupons|, req.code, prices[req.version].product, now);
        if coupon.None? {
          return Some(Refused(CouponInvalid));
        }
      }
      if req.seats < 0 {
        return Some(Refused(InvalidRequest));
      }
      var percent := if coupon.Some? then Some(b2bCoupons[coupon.value].percent) else None;
      var total := BulkTotal(prices[req.version].price, req.seats, percent);
      var failure := PlaceBulkOrder(
        B2BOrder(Created, req.seats, req.version, total, req.contract, coupon, None), draws);
      return if failure.Some? then Some(CodesNotCreated(failure.value)) else None;
    }
  }
}
