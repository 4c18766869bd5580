/** What a checkout, a message and a basket update do to the whole shop, and when they are refused. */
module OrderOutcomes {
  import opened Prelude
  import opened CourseCatalogue
  import opened Records
  import opened Coupons
  import opened Baskets
  import opened Orders
  import opened Machine

  function PriceToPay(s: State, vb: ValidatedBasket): int
    requires vb.version < |s.prices|
  {
    PriceWithCoupon(s.book, vb.coupon, s.prices[vb.version])
  }

  /**
   * From s to t the validated basket has been mirrored onto order k. If it costs nothing, the order is
   * fulfilled, one free completion recorded, the user enrolled in the selected runs as far as the
   * completion got, and the basket deleted unless it was stopped. Otherwise nothing else has changed.
   */
  ghost predicate IsCheckedOut(s: State, t: State, vb: ValidatedBasket, taxRate: int, ending: Ending, k: nat)
    requires vb.version < |s.prices|
  {
    && k < |t.orders| && |s.orders| <= |t.orders| <= |s.orders| + 1 && k <= |s.orders|
    && t == s.(orders := t.orders, lineCount := t.lineCount, enrolled := t.enrolled,
               baskets := t.baskets, completions := t.completions)
    && (forall j :: 0 <= j < |s.orders| && j != k ==> t.orders[j] == s.orders[j])
    && (k < |s.orders| ==> |t.orders| == |s.orders| && s.orders[k].status == Created
                           && s.orders[k].purchaser == vb.user)
    && Mirrors(t, t.orders[k].(status := Created), vb, taxRate)
    && if PriceToPay(s, vb) != 0 then
         && t.orders[k].status == Created
         && t.enrolled == s.enrolled && t.baskets == s.baskets && t.completions == s.completions
       else
         && t.orders[k].status == Fulfilled
         && t.completions == s.completions + [Completion(k, true)]
         && (forall u, r :: (u, r) in t.enrolled <==>
               (u, r) in s.enrolled || (u == vb.user && r in vb.runs && ending.Enrolls(r)))
         && t.baskets == (if ending.Completed? then s.baskets - {vb.user} else s.baskets)
  }

  /** A checkout is accepted exactly if the basket validates, and then checks out just that basket. */
  lemma CheckoutExactly(cat: Catalogue, s: State, user: nat, taxRate: int, m: Moment, ending: Ending)
    requires cat.Valid() && BasketFits(cat, s.BasketOf(user)) && OrdersFit(s)
    ensures match ValidateBasket(cat, s, user, m)
            case Err(reason) => Checkout(cat, s, user, taxRate, m, ending) == Err(reason)
            case Ok(vb) =>
              && Checkout(cat, s, user, taxRate, m, ending).Ok?
              && vb.user == user && vb.version < |s.prices|
              && exists k: nat ::
                   IsCheckedOut(s, Checkout(cat, s, user, taxRate, m, ending).value, vb, taxRate, ending, k)
  {
    if ValidateBasket(cat, s, user, m).Ok? {
      ValidatedBasketIsMirrorable(cat, s, user, m);
      var vb := ValidateBasket(cat, s, user, m).value;
      CreateOrUpdateSpec(s, vb, taxRate);
      var k := CreateOrUpdate(s, vb, taxRate).value.1;
      MirrorIsCheckedOut(s, vb, taxRate, ending);
      assert IsCheckedOut(s, Checkout(cat, s, user, taxRate, m, ending).value, vb, taxRate, ending, k);
    }
  }

  lemma MirrorIsCheckedOut(s: State, vb: ValidatedBasket, taxRate: int, ending: Ending)
    requires OrdersFit(s) && IsMirrorable(s, vb)
    ensures CreateOrUpdate(s, vb, taxRate).Ok?
    ensures var (mirrored, k) := CreateOrUpdate(s, vb, taxRate).value;
            && k < |mirrored.orders|
            && IsCheckedOut(s, if mirrored.orders[k].total == 0 then Fulfil(mirrored, k, ending, true) else mirrored,
                            vb, taxRate, ending, k)
  {
    CreateOrUpdateSpec(s, vb, taxRate);
    var (mirrored, k) := CreateOrUpdate(s, vb, taxRate).value;
    if mirrored.orders[k].total == 0 {
      var t := Fulfil(mirrored, k, ending, true);
      assert t.orders[k].(status := Created) == mirrored.orders[k];
      forall u, r ensures (u, r) in t.enrolled <==>
                            (u, r) in s.enrolled || (u == vb.user && r in vb.runs && ending.Enrolls(r)) {}
    }
  }

  /** So a free checkout that runs to its end enrolls the user in every writable run and deletes the basket. */
  lemma FreeCheckoutEnrolls(cat: Catalogue, s: State, user: nat, taxRate: int, m: Moment, lost: set<nat>)
    requires cat.Valid() && BasketFits(cat, s.BasketOf(user)) && OrdersFit(s)
    requires ValidateBasket(cat, s, user, m).Ok? && ValidateBasket(cat, s, user, m).value.version < |s.prices|
    requires PriceToPay(s, ValidateBasket(cat, s, user, m).value) == 0
    ensures Checkout(cat, s, user, taxRate, m, Completed(lost)).Ok?
    ensures var t := Checkout(cat, s, user, taxRate, m, Completed(lost)).value;
            && (forall r :: r in s.BasketOf(user).runs && r !in lost ==> (user, r) in t.enrolled)
            && user !in t.baskets
            && |t.completions| == |s.completions| + 1 && t.completions[|s.completions|].free
  {
    CheckoutExactly(cat, s, user, taxRate, m, Completed(lost));
    ValidatedRunsCoverCourses(cat, s, user, m);
  }

  /**
   * Exactly which messages are refused: about an unknown order, or one that has left the created
   * status, except a cancellation of a failed one, which is ignored.
   */
  lemma MessageRefusedExactly(s: State, k: nat, decision: string, ending: Ending)
    ensures HandleMessage(s, k, decision, ending).Err? <==>
              k >= |s.orders|
              || (s.orders[k].status != Created && !(s.orders[k].status == Failed && decision == CANCEL))
    ensures k < |s.orders| && s.orders[k].status == Failed && decision == CANCEL ==>
              HandleMessage(s, k, decision, ending) == Ok(s)
    ensures k < |s.orders| && s.orders[k].status == Created ==>
              HandleMessage(s, k, decision, ending).Ok?
              && HandleMessage(s, k, decision, ending).value.orders[k].status
                 == if decision == ACCEPT then Fulfilled else Failed
  {
    if k < |s.orders| && s.orders[k].status == Created {
      FirstMessageDecides(s, k, [OrderMessage(decision, ending)]);
    }
  }

  /**
   * An update is accepted exactly if its basket is. It saves that basket and no other, enrolls nobody
   * and completes nothing. If it empties the basket, or the saved basket does not validate, it leaves
   * every order alone.
   */
  lemma UpdateExactly(cat: Catalogue, s: State, user: nat, req: Request, m: Moment)
    requires cat.Valid() && BasketsFit(cat, s) && OrdersFit(s)
    ensures Update(cat, s, user, req, m).Ok? <==> NextBasket(cat, s, user, req, m).Ok?
    ensures Update(cat, s, user, req, m).Ok? ==>
              var t := Update(cat, s, user, req, m).value;
              var saved := SaveBasket(s, user, NextBasket(cat, s, user, req, m).value);
              && t == s.(baskets := s.baskets[user := NextBasket(cat, s, user, req, m).value],
                         orders := t.orders, lineCount := t.lineCount)
              && (req.items == Some([]) || ValidateBasket(cat, saved, user, m).Err? ==>
                    t.orders == s.orders && t.lineCount == s.lineCount)
  {
    if Update(cat, s, user, req, m).Ok? {
      var saved := SavedBasketFits(cat, s, user, req, m);
      if ValidateBasket(cat, saved, user, m).Ok? {
        ValidatedBasketIsMirrorable(cat, saved, user, m);
        CreateOrUpdateSpec(saved, ValidateBasket(cat, saved, user, m).value, 0);
      }
    }
  }

  // ----------------------------------------------------------------------------------------
  // Steps of the machine
  // ----------------------------------------------------------------------------------------

  /** The checkout step changes nothing if the basket does not validate, and otherwise checks it out. */
  lemma CheckoutStepExactly(cat: Catalogue, s: State, user: nat, taxRate: int, m: Moment, ending: Ending)
    requires cat.Valid() && BasketFits(cat, s.BasketOf(user)) && OrdersFit(s)
    ensures var t := Step(cat, s, CheckOut(user, taxRate, m, ending));
            match ValidateBasket(cat, s, user, m)
            case Err(_) => t == s
            case Ok(vb) => vb.version < |s.prices| && exists k: nat :: IsCheckedOut(s, t, vb, taxRate, ending, k)
  {
    CheckoutExactly(cat, s, user, taxRate, m, ending);
    CheckoutStepIs(cat, s, user, taxRate, m, ending);
  }

  /** The message step changes an open order's status, and completes it if the message accepts; otherwise nothing. */
  lemma MessageStepExactly(cat: Catalogue, s: State, k: nat, decision: string, ending: Ending)
    requires cat.Valid()
    ensures var t := Step(cat, s, Decide(k, decision, ending));
            if k < |s.orders| && s.orders[k].status == Created then
              && t.orders == s.orders[k := s.orders[k].(status := if decision == ACCEPT then Fulfilled else Failed)]
              && t.completions == (if decision == ACCEPT then s.completions + [Completion(k, false)]
                                   else s.completions)
            else t == s
  {
    MessageRefusedExactly(s, k, decision, ending);
    MessageStepIs(cat, s, k, decision, ending);
    if k < |s.orders| && s.orders[k].status == Created {
      FirstMessageDecides(s, k, [OrderMessage(decision, ending)]);
      var t := HandleMessage(s, k, decision, ending).value;
      assert t.orders == s.orders[k := t.orders[k]];
    }
  }

  /** The update step changes nothing if the update is refused, and otherwise saves just the new basket. */
  lemma UpdateStepExactly(cat: Catalogue, s: State, user: nat, req: Request, m: Moment)
    requires cat.Valid() && BasketsFit(cat, s) && OrdersFit(s)
    ensures var t := Step(cat, s, UpdateBasket(user, req, m));
            match NextBasket(cat, s, user, req, m)
            case Err(_) => t == s
            case Ok(b) => t == s.(baskets := s.baskets[user := b], orders := t.orders, lineCount := t.lineCount)
  {
    UpdateExactly(cat, s, user, req, m);
  }
}
