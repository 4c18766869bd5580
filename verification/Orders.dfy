/**
 * Consumer orders: mirroring a validated basket onto the purchaser's open order
 * (create_or_update_unfulfilled_order), the status change a CyberSource decision causes, and the
 * completion of a fulfilled order.
 */
module Orders {
  import opened Prelude
  import opened CourseCatalogue
  import opened Records
  import opened Coupons
  import opened Baskets

  // ----------------------------------------------------------------------------------------
  // create_or_update_unfulfilled_order
  // ----------------------------------------------------------------------------------------

  /** The line sells some version of the product. */
  predicate Sells(prices: seq<ProductVersion>, line: Line, product: nat) {
    line.version < |prices| && prices[line.version].product == product
  }

  predicate IsOpenFor(prices: seq<ProductVersion>, order: Order, user: nat, product: nat) {
    && order.purchaser == user
    && order.status == Created
    && exists i :: 0 <= i < |order.lines| && Sells(prices, order.lines[i], product)
  }

  /** The latest open order of the user for the product. */
  function OpenOrder(prices: seq<ProductVersion>, orders: seq<Order>, user: nat, product: nat): (k: Option<nat>)
    ensures k.Some? ==> k.value < |orders| && IsOpenFor(prices, orders[k.value], user, product)
    ensures k.None? ==> forall i :: 0 <= i < |orders| ==> !IsOpenFor(prices, orders[i], user, product)
  {
    if orders == [] then None
    else if IsOpenFor(prices, orders[|orders| - 1], user, product) then Some(|orders| - 1)
    else OpenOrder(prices, orders[..|orders| - 1], user, product)
  }

  /** The order's only line, rewritten to mirror the basket; a first line takes the fresh id. */
  function MirrorLine(lines: seq<Line>, vb: ValidatedBasket, freshId: nat): Result<seq<Line>, Rejection> {
    if |lines| > 1 then Err(CorruptOrder)
    else
      var id := if lines == [] then freshId else lines[0].id;
      Ok([Line(id, vb.version, vb.item.quantity, vb.item.programRun, vb.runs)])
  }

  function MirrorRedemption(redemptions: seq<nat>, coupon: Option<nat>): Result<seq<nat>, Rejection> {
    match coupon
    case None => Ok([])
    case Some(v) => if |redemptions| > 1 then Err(CorruptOrder) else Ok([v])
  }

  function CreateOrUpdate(s: State, vb: ValidatedBasket, taxRate: int): Result<(State, nat), Rejection>
    requires vb.version < |s.prices|
  {
    var version := s.prices[vb.version];
    var open := OpenOrder(s.prices, s.orders, vb.user, version.product);
    var order := if open.Some? then s.orders[open.value] else Order(vb.user, Created, 0, 0, [], []);
    var lines :- MirrorLine(order.lines, vb, s.lineCount);
    var redemptions :- MirrorRedemption(order.redemptions, vb.coupon);
    var mirrored := order.(
      total := PriceWithCoupon(s.book, vb.coupon, version),
      taxRate := taxRate,
      lines := lines,
      redemptions := redemptions);
    var k := if open.Some? then open.value else |s.orders|;
    Ok((s.(orders := if open.Some? then s.orders[k := mirrored] else s.orders + [mirrored],
           lineCount := if order.lines == [] then s.lineCount + 1 else s.lineCount), k))
  }

  // ----------------------------------------------------------------------------------------
  // Status changes and completion
  // ----------------------------------------------------------------------------------------

  const ACCEPT := "ACCEPT"
  const CANCEL := "CANCEL"

  /** determine_order_status_change: None for a duplicate message, an error for an unexpected one. */
  function StatusChange(status: Status, decision: string): Result<Option<Status>, Rejection> {
    if status == Failed && decision == CANCEL then Ok(None)
    else if status != Created then Err(UnknownOrder)
    else if decision != ACCEPT then Ok(Some(Failed))
    else Ok(Some(Fulfilled))
  }

  /**
   * How complete_order ends. It runs to its end, with runs whose local record could not be written;
   * or an exception stops it before it deletes the basket, when some runs have been reached.
   */
  datatype Ending = Completed(lost: set<nat>) | Stopped(reached: set<nat>)
  {
    predicate Enrolls(run: nat) {
      match this
      case Completed(lost) => run !in lost
      case Stopped(reached) => run in reached
    }
  }

  /** (user, run) for each selected run of the order whose enrollment is written. */
  function NewEnrollments(order: Order, ending: Ending): set<(nat, nat)> {
    if order.lines == [] then {} else Enrollments(order.purchaser, order.lines[0].runs, ending)
  }

  function Enrollments(user: nat, runs: set<nat>, ending: Ending): set<(nat, nat)> {
    set r | r in runs && ending.Enrolls(r) :: (user, r)
  }

  lemma OneMoreEnrollment(user: nat, runs: set<nat>, run: nat, ending: Ending)
    ensures Enrollments(user, runs + {run}, ending)
         == Enrollments(user, runs, ending) + if ending.Enrolls(run) then {(user, run)} else {}
  {
  }

  /** Set the order fulfilled and save it, then complete_order: enroll the purchaser, delete the basket. */
  function Fulfil(s: State, k: nat, ending: Ending, free: bool): State
    requires k < |s.orders|
  {
    var order := s.orders[k];
    s.(orders := s.orders[k := order.(status := Fulfilled)],
       enrolled := s.enrolled + NewEnrollments(order, ending),
       baskets := if ending.Completed? then s.baskets - {order.purchaser} else s.baskets,
       completions := s.completions + [Completion(k, free)])
  }

  /** fulfill_order for an existing order; None if the message is rejected or ignored. */
  function HandleMessage(s: State, k: nat, decision: string, ending: Ending): Result<State, Rejection> {
    if k >= |s.orders| then Err(UnknownOrder)
    else
      var change :- StatusChange(s.orders[k].status, decision);
      match change
      case None => Ok(s)
      case Some(status) =>
        if status == Fulfilled then Ok(Fulfil(s, k, ending, false))
        else Ok(s.(orders := s.orders[k := s.orders[k].(status := status)]))
  }

  /** CheckoutView.post: validate, mirror onto the order, and fulfil it at once if it costs nothing. */
  function Checkout(cat: Catalogue, s: State, user: nat, taxRate: int, m: Moment, ending: Ending)
    : Result<State, Rejection>
    requires cat.Valid()
  {
    var vb :- ValidateBasket(cat, s, user, m);
    var (mirrored, k) :- CreateOrUpdate(s, vb, taxRate);
    if mirrored.orders[k].total == 0 then Ok(Fulfil(mirrored, k, ending, true)) else Ok(mirrored)
  }

  /** The best-effort mirror after a basket update; it is made without a request, so without tax. */
  function SyncOrder(cat: Catalogue, s: State, user: nat, m: Moment): State
    requires cat.Valid()
  {
    match ValidateBasket(cat, s, user, m)
    case Err(_) => s
    case Ok(vb) =>
      match CreateOrUpdate(s, vb, 0)
      case Err(_) => s
      case Ok((mirrored, _)) => mirrored
  }

  function SaveBasket(s: State, user: nat, basket: Basket): State {
    s.(baskets := s.baskets[user := basket])
  }

  function Update(cat: Catalogue, s: State, user: nat, req: Request, m: Moment): Result<State, Rejection>
    requires cat.Valid()
  {
    var basket :- NextBasket(cat, s, user, req, m);
    var saved := SaveBasket(s, user, basket);
    if req.items == Some([]) then Ok(saved) else Ok(SyncOrder(cat, saved, user, m))
  }

  // ----------------------------------------------------------------------------------------
  // The order invariant
  // ----------------------------------------------------------------------------------------

  /** One line of quantity one, at most one redemption, all foreign keys in range. */
  predicate OrderFits(s: State, order: Order) {
    && |order.lines| == 1
    && order.lines[0].version < |s.prices|
    && order.lines[0].id < s.lineCount
    && order.lines[0].quantity == 1
    && |order.redemptions| <= 1
    && (forall v :: v in order.redemptions ==> v < |s.book.versions|)
  }

  function ProductOf(s: State, order: Order): nat
    requires OrderFits(s, order)
  {
    s.prices[order.lines[0].version].product
  }

  function LineIdOf(s: State, order: Order): nat
    requires OrderFits(s, order)
  {
    order.lines[0].id
  }

  /** At most one open order per purchaser and product. */
  predicate OpenOrdersDistinct(s: State)
    requires forall k :: 0 <= k < |s.orders| ==> OrderFits(s, s.orders[k])
  {
    forall j, k :: 0 <= j < k < |s.orders|
                   && s.orders[j].status == Created && s.orders[k].status == Created
                   && s.orders[j].purchaser == s.orders[k].purchaser ==>
                   ProductOf(s, s.orders[j]) != ProductOf(s, s.orders[k])
  }

  predicate LinesDistinct(s: State)
    requires forall k :: 0 <= k < |s.orders| ==> OrderFits(s, s.orders[k])
  {
    forall j, k :: 0 <= j < k < |s.orders| ==> LineIdOf(s, s.orders[j]) != LineIdOf(s, s.orders[k])
  }

  /** complete_order ran at most once for each order, and exactly for those fulfilled or refunded. */
  predicate CompletionsMatch(s: State) {
    && (forall i :: 0 <= i < |s.completions| ==>
          s.completions[i].order < |s.orders| && s.orders[s.completions[i].order].IsRedeemed())
    && (forall i, j :: 0 <= i < j < |s.completions| ==> s.completions[i].order != s.completions[j].order)
    && (forall k :: 0 <= k < |s.orders| && s.orders[k].IsRedeemed() ==> IsCompleted(s, k))
  }

  predicate IsCompleted(s: State, k: nat) {
    exists i :: 0 <= i < |s.completions| && s.completions[i].order == k
  }

  predicate OrdersFit(s: State) {
    && (forall k :: 0 <= k < |s.orders| ==> OrderFits(s, s.orders[k]))
    && OpenOrdersDistinct(s)
    && LinesDistinct(s)
    && CompletionsMatch(s)
  }

  predicate IsMirrorable(s: State, vb: ValidatedBasket) {
    && vb.version < |s.prices|
    && vb.item.quantity == 1
    && (vb.coupon.Some? ==> vb.coupon.value < |s.book.versions|)
  }

  /** The mirrored order agrees with the basket in every field. */
  predicate Mirrors(s: State, order: Order, vb: ValidatedBasket, taxRate: int)
    requires vb.version < |s.prices|
  {
    && order.purchaser == vb.user
    && order.status == Created
    && order.total == PriceWithCoupon(s.book, vb.coupon, s.prices[vb.version])
    && order.taxRate == taxRate
    && |order.lines| == 1
    && order.lines[0] == Line(order.lines[0].id, vb.version, vb.item.quantity, vb.item.programRun, vb.runs)
    && order.redemptions == (if vb.coupon.Some? then [vb.coupon.value] else [])
  }

  /** In a fitting state the mirror never fails, and touches one open order or appends one. */
  lemma CreateOrUpdateSpec(s: State, vb: ValidatedBasket, taxRate: int)
    requires OrdersFit(s) && IsMirrorable(s, vb)
    ensures CreateOrUpdate(s, vb, taxRate).Ok?
    ensures var (t, k) := CreateOrUpdate(s, vb, taxRate).value;
            && t == s.(orders := t.orders, lineCount := t.lineCount)
            && k < |t.orders| && Mirrors(t, t.orders[k], vb, taxRate)
            && |s.orders| <= |t.orders| <= |s.orders| + 1
            && (forall j :: 0 <= j < |s.orders| && j != k ==> t.orders[j] == s.orders[j])
            && (k < |s.orders| ==> |t.orders| == |s.orders| && t.lineCount == s.lineCount
                                   && s.orders[k].status == Created && s.orders[k].purchaser == vb.user
                                   && ProductOf(s, s.orders[k]) == s.prices[vb.version].product
                                   && t.orders[k].lines[0].id == s.orders[k].lines[0].id)
            && (k == |s.orders| ==> |t.orders| == |s.orders| + 1 && t.lineCount == s.lineCount + 1
                                    && t.orders[k].lines[0].id == s.lineCount
                                    && forall j :: 0 <= j < |s.orders| ==>
                                         !IsOpenFor(s.prices, s.orders[j], vb.user, s.prices[vb.version].product))
  {
    var open := OpenOrder(s.prices, s.orders, vb.user, s.prices[vb.version].product);
    if open.Some? {
      assert OrderFits(s, s.orders[open.value]);
    }
  }

  /** The order that is mirrored differs from the purchaser's other open orders by its product. */
  lemma MirroredOrderIsAlone(s: State, vb: ValidatedBasket, taxRate: int)
    requires OrdersFit(s) && IsMirrorable(s, vb)
    ensures CreateOrUpdate(s, vb, taxRate).Ok?
    ensures var (t, k) := CreateOrUpdate(s, vb, taxRate).value;
            && k < |t.orders| && OrderFits(t, t.orders[k])
            && forall j :: 0 <= j < |s.orders| && j != k && s.orders[j].status == Created
                           && s.orders[j].purchaser == vb.user ==>
                           ProductOf(s, s.orders[j]) != ProductOf(t, t.orders[k])
  {
    CreateOrUpdateSpec(s, vb, taxRate);
    var (t, k) := CreateOrUpdate(s, vb, taxRate).value;
    forall j | 0 <= j < |s.orders| && j != k && s.orders[j].status == Created && s.orders[j].purchaser == vb.user
      ensures ProductOf(s, s.orders[j]) != ProductOf(t, t.orders[k])
    {
      if k == |s.orders| {
        assert Sells(s.prices, s.orders[j].lines[0], ProductOf(s, s.orders[j]));
      }
    }
  }

  /** The other orders, and completions, are as before. */
  lemma OthersStillFit(s: State, vb: ValidatedBasket, taxRate: int)
    requires OrdersFit(s) && IsMirrorable(s, vb)
    ensures CreateOrUpdate(s, vb, taxRate).Ok?
    ensures var (t, k) := CreateOrUpdate(s, vb, taxRate).value;
            && CompletionsMatch(t)
            && forall j :: 0 <= j < |s.orders| && j != k ==>
                 OrderFits(t, t.orders[j]) && ProductOf(t, t.orders[j]) == ProductOf(s, s.orders[j])
  {
    CreateOrUpdateSpec(s, vb, taxRate);
    var (t, k) := CreateOrUpdate(s, vb, taxRate).value;
    forall j | 0 <= j < |s.orders| && j != k ensures OrderFits(t, t.orders[j]) {
      assert OrderFits(s, s.orders[j]);
    }
    forall j | 0 <= j < |t.orders| && t.orders[j].IsRedeemed() ensures IsCompleted(t, j) {
      assert IsCompleted(s, j);
    }
  }

  lemma CreateOrUpdateFits(s: State, vb: ValidatedBasket, taxRate: int)
    requires OrdersFit(s) && IsMirrorable(s, vb)
    ensures CreateOrUpdate(s, vb, taxRate).Ok?
    ensures OrdersFit(CreateOrUpdate(s, vb, taxRate).value.0)
  {
    CreateOrUpdateSpec(s, vb, taxRate);
    MirroredOrderIsAlone(s, vb, taxRate);
    OthersStillFit(s, vb, taxRate);
  }

  /** Mirroring the same basket again finds the same order and changes nothing but the tax rate. */
  lemma CreateOrUpdateIdempotent(s: State, vb: ValidatedBasket, taxRate: int, later: int)
    requires OrdersFit(s) && IsMirrorable(s, vb)
    ensures CreateOrUpdate(s, vb, taxRate).Ok?
    ensures var (t, k) := CreateOrUpdate(s, vb, taxRate).value;
            && vb.version < |t.prices| && k < |t.orders|
            && CreateOrUpdate(t, vb, later)
            == Ok((t.(orders := t.orders[k := t.orders[k].(taxRate := later)]), k))
            && (later == taxRate ==> CreateOrUpdate(t, vb, later) == Ok((t, k)))
  {
    CreateOrUpdateSpec(s, vb, taxRate);
    CreateOrUpdateFits(s, vb, taxRate);
    var (t, k) := CreateOrUpdate(s, vb, taxRate).value;
    var product := s.prices[vb.version].product;
    assert Sells(t.prices, t.orders[k].lines[0], product);
    assert IsOpenFor(t.prices, t.orders[k], vb.user, product);
    var open := OpenOrder(t.prices, t.orders, vb.user, product);
    if open != Some(k) {
      assert IsOpenFor(t.prices, t.orders[open.value], vb.user, product);
      assert OrderFits(t, t.orders[open.value]);
    }
    assert t.orders[k := t.orders[k]] == t.orders;
  }

  lemma FulfilFits(s: State, k: nat, ending: Ending, free: bool)
    requires OrdersFit(s) && k < |s.orders| && s.orders[k].status == Created
    ensures OrdersFit(Fulfil(s, k, ending, free))
  {
    var t := Fulfil(s, k, ending, free);
    assert !IsCompleted(s, k);
    forall j | 0 <= j < |t.orders| ensures OrderFits(t, t.orders[j]) {
      assert OrderFits(s, s.orders[j]);
    }
    forall j | 0 <= j < |t.orders| && t.orders[j].IsRedeemed() ensures IsCompleted(t, j) {
      if j == k {
        assert t.completions[|s.completions|].order == k;
      } else {
        assert IsCompleted(s, j);
        var i :| 0 <= i < |s.completions| && s.completions[i].order == j;
        assert t.completions[i].order == j;
      }
    }
  }

  lemma StatusChangeFits(s: State, k: nat, status: Status)
    requires OrdersFit(s) && k < |s.orders| && status != Created
    requires s.orders[k].IsRedeemed() == s.orders[k].(status := status).IsRedeemed()
    ensures OrdersFit(s.(orders := s.orders[k := s.orders[k].(status := status)]))
  {
    var t := s.(orders := s.orders[k := s.orders[k].(status := status)]);
    forall j | 0 <= j < |t.orders| ensures OrderFits(t, t.orders[j]) {
      assert OrderFits(s, s.orders[j]);
    }
    forall j | 0 <= j < |t.orders| && t.orders[j].IsRedeemed() ensures IsCompleted(t, j) {
      assert IsCompleted(s, j);
    }
  }

  // ----------------------------------------------------------------------------------------
  // Sequences of messages about one order
  // ----------------------------------------------------------------------------------------

  datatype OrderMessage = OrderMessage(decision: string, ending: Ending)

  function HandleMessages(s: State, k: nat, messages: seq<OrderMessage>): State
    decreases |messages|
  {
    if messages == [] then s
    else
      match HandleMessage(s, k, messages[0].decision, messages[0].ending)
      case Err(_) => HandleMessages(s, k, messages[1..])
      case Ok(t) => HandleMessages(t, k, messages[1..])
  }

  lemma {:induction false} SettledOrderIgnoresMessages(s: State, k: nat, messages: seq<OrderMessage>)
    requires k < |s.orders| && s.orders[k].status != Created
    ensures HandleMessages(s, k, messages) == s
  {
    if messages != [] {
      SettledOrderIgnoresMessages(s, k, messages[1..]);
    }
  }

  /**
   * For any sequence of messages about an open order the first one decides the whole state. If it
   * accepts, the order is fulfilled and complete_order called once, however that ends; the purchaser
   * is enrolled as far as it got, and the basket goes exactly if it was not stopped.
   */
  lemma FirstMessageDecides(s: State, k: nat, messages: seq<OrderMessage>)
    requires k < |s.orders| && s.orders[k].status == Created && messages != []
    ensures HandleMessage(s, k, messages[0].decision, messages[0].ending)
         == Ok(HandleMessages(s, k, messages))
    ensures var t := HandleMessages(s, k, messages);
            var accepted, ending := messages[0].decision == ACCEPT, messages[0].ending;
            && |t.orders| == |s.orders|
            && t.orders[k] == s.orders[k].(status := if accepted then Fulfilled else Failed)
            && (forall j :: 0 <= j < |s.orders| && j != k ==> t.orders[j] == s.orders[j])
            && t.completions == (if accepted then s.completions + [Completion(k, false)] else s.completions)
            && t.enrolled == (if accepted then s.enrolled + NewEnrollments(s.orders[k], ending) else s.enrolled)
            && t.baskets == (if accepted && ending.Completed? then s.baskets - {s.orders[k].purchaser}
                             else s.baskets)
  {
    var t := HandleMessage(s, k, messages[0].decision, messages[0].ending).value;
    SettledOrderIgnoresMessages(t, k, messages[1..]);
  }

  /**
   * Every selected run is enrolled and the basket gone, exactly if the completion was not stopped
   * short: what a stopped one did not reach stays undone whatever messages follow.
   */
  lemma StoppedCompletionStays(s: State, k: nat, reached: set<nat>, messages: seq<OrderMessage>)
    requires k < |s.orders| && s.orders[k].status == Created && |s.orders[k].lines| == 1
    ensures var t := HandleMessages(s, k, [OrderMessage(ACCEPT, Stopped(reached))] + messages);
            && k < |t.orders| && t.orders[k].status == Fulfilled && t.baskets == s.baskets
            && (forall run :: run in s.orders[k].lines[0].runs && run !in reached
                              && (s.orders[k].purchaser, run) !in s.enrolled ==>
                              (s.orders[k].purchaser, run) !in t.enrolled)
    ensures forall m :: m in messages ==>
              HandleMessage(HandleMessages(s, k, [OrderMessage(ACCEPT, Stopped(reached))]), k, m.decision, m.ending)
              == Err(UnknownOrder)
  {
    FirstMessageDecides(s, k, [OrderMessage(ACCEPT, Stopped(reached))] + messages);
    FirstMessageDecides(s, k, [OrderMessage(ACCEPT, Stopped(reached))]);
  }
}
