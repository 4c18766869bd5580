/**
 * Creating coupon codes (create_coupons): the codes drawn and replaced, the rows written, and the
 * invariant of the coupon book.
 */
module Seats {
  import opened Prelude
  import opened Records
  import opened Coupons

  // ----------------------------------------------------------------------------------------
  // create_coupons
  // ----------------------------------------------------------------------------------------

  datatype IssueError = NameTaken | CodeCollision | DuplicateProduct

  /** The arguments of create_coupons that shape its rows. */
  datatype Issue = Issue(
    name: string,
    products: seq<nat>,
    terms: Terms,
    count: nat,
    code: string,          // empty to draw a random code for each coupon
    isGlobal: bool)

  /** The random codes a call may draw: one for each coupon, and one for each replacement. */
  datatype Draws = Draws(first: nat -> string, second: nat -> string)

  predicate CodeExists(book: CouponBook, code: string) {
    exists c :: 0 <= c < |book.coupons| && book.coupons[c].code == code
  }

  /** bulk_create succeeds: the codes are new and differ from each other. */
  predicate CanInsert(book: CouponBook, codes: seq<string>) {
    && (forall i :: 0 <= i < |codes| ==> !CodeExists(book, codes[i]))
    && (forall i, j :: 0 <= i < j < |codes| ==> codes[i] != codes[j])
  }

  /** The given code for every coupon, or without one a drawn code for each. */
  function DrawnCodes(count: nat, code: string, draws: Draws): seq<string> {
    seq(count, (i: nat) requires 0 <= i => if code != "" then code else draws.first(i))
  }

  function ReplacedCodes(book: CouponBook, codes: seq<string>, draws: Draws): seq<string> {
    seq(|codes|, i requires 0 <= i < |codes| => if CodeExists(book, codes[i]) then draws.second(i) else codes[i])
  }

  /** The codes that end up inserted: the drawn ones, or after a collision the partly replaced ones. */
  function InsertedCodes(book: CouponBook, issue: Issue, draws: Draws): Result<seq<string>, IssueError> {
    var drawn := DrawnCodes(issue.count, issue.code, draws);
    if CanInsert(book, drawn) then Ok(drawn)
    else
      var replaced := ReplacedCodes(book, drawn, draws);
      if CanInsert(book, replaced) then Ok(replaced) else Err(CodeCollision)
  }

  predicate HasDuplicates(products: seq<nat>) {
    exists i, j :: 0 <= i < j < |products| && products[i] == products[j]
  }

  function NewEligibilities(first: nat, count: nat, products: seq<nat>): set<(nat, nat)> {
    set c, p | c in Range(first, count) && p in products :: (c, p)
  }

  /** The ids of count rows starting at first. */
  function Range(first: nat, count: nat): (ids: set<nat>)
    ensures forall i :: i in ids <==> first <= i < first + count
    ensures |ids| == count
  {
    if count == 0 then {} else Range(first, count - 1) + {first + count - 1}
  }

  function NewCoupons(codes: seq<string>, payment: nat, isGlobal: bool): seq<Coupon> {
    seq(|codes|, i requires 0 <= i < |codes| => Coupon(codes[i], payment, isGlobal, true))
  }

  function NewVersions(first: nat, count: nat, terms: Terms): seq<CouponVersion> {
    seq(count, (i: nat) requires 0 <= i => CouponVersion(first + i, terms))
  }

  function CreateCoupons(book: CouponBook, issue: Issue, draws: Draws): Result<CouponBook, IssueError> {
    if issue.name in book.payments then Err(NameTaken)
    else
      var codes :- InsertedCodes(book, issue, draws);
      if issue.count > 0 && HasDuplicates(issue.products) then Err(DuplicateProduct)
      else
        var first, payment := |book.coupons|, |book.payments|;
        Ok(CouponBook(
             book.coupons + NewCoupons(codes, payment, issue.isGlobal),
             book.versions + NewVersions(first, |codes|, issue.terms),
             book.eligible + NewEligibilities(first, |codes|, issue.products),
             book.payments + [issue.name]))
  }

  /** The name is free, and the drawn codes, or those left after replacing the taken ones, are new and distinct. */
  predicate CodesAvailable(book: CouponBook, issue: Issue, draws: Draws) {
    var drawn := DrawnCodes(issue.count, issue.code, draws);
    && issue.name !in book.payments
    && (CanInsert(book, drawn) || CanInsert(book, ReplacedCodes(book, drawn, draws)))
  }

  /** create_coupons succeeds exactly when name and codes are available and no product is listed twice. */
  lemma CreateCouponsExactly(book: CouponBook, issue: Issue, draws: Draws)
    ensures CreateCoupons(book, issue, draws).Ok? <==>
              CodesAvailable(book, issue, draws) && (issue.count == 0 || !HasDuplicates(issue.products))
    ensures CreateCoupons(book, issue, draws) == Err(NameTaken) <==> issue.name in book.payments
  {
  }

  /**
   * What a call leaves behind outside a transaction when it fails: a collision of codes leaves the
   * payment, a product listed twice leaves payment, coupons and versions without any eligibility.
   */
  function KeptRows(book: CouponBook, issue: Issue, draws: Draws, cause: IssueError): CouponBook {
    match cause
    case NameTaken => book
    case CodeCollision => book.(payments := book.payments + [issue.name])
    case DuplicateProduct =>
      match InsertedCodes(book, issue, draws)
      case Err(_) => book
      case Ok(codes) =>
        CouponBook(
          book.coupons + NewCoupons(codes, |book.payments|, issue.isGlobal),
          book.versions + NewVersions(|book.coupons|, |codes|, issue.terms),
          book.eligible,
          book.payments + [issue.name])
  }

  /** The book after a call outside a transaction. */
  function IssuedBook(book: CouponBook, issue: Issue, draws: Draws): CouponBook {
    match CreateCoupons(book, issue, draws)
    case Ok(after) => after
    case Err(cause) => KeptRows(book, issue, draws, cause)
  }

  lemma CollisionKeepsPayment(book: CouponBook, issue: Issue, draws: Draws)
    requires issue.name !in book.payments
    ensures CreateCoupons(book, issue.(count := 0), draws) == Ok(KeptRows(book, issue, draws, CodeCollision))
  {
    var none := issue.(count := 0);
    assert DrawnCodes(0, issue.code, draws) == [];
    assert InsertedCodes(book, none, draws) == Ok([]);
    assert book.coupons + NewCoupons([], |book.payments|, issue.isGlobal) == book.coupons;
    assert book.versions + NewVersions(|book.coupons|, 0, issue.terms) == book.versions;
    assert book.eligible + NewEligibilities(|book.coupons|, 0, issue.products) == book.eligible;
  }

  lemma DuplicateKeepsCoupons(book: CouponBook, issue: Issue, draws: Draws)
    requires CreateCoupons(book, issue, draws) == Err(DuplicateProduct)
    ensures CreateCoupons(book, issue.(products := []), draws) == Ok(KeptRows(book, issue, draws, DuplicateProduct))
  {
    var codes := InsertedCodes(book, issue, draws).value;
    var done := issue.(products := []);
    assert InsertedCodes(book, done, draws) == Ok(codes);
    assert !HasDuplicates(done.products);
    assert book.eligible + NewEligibilities(|book.coupons|, |codes|, []) == book.eligible;
  }

  /** Whatever a call leaves behind is what a successful call for less would have written. */
  lemma IssuedBookIsCreated(book: CouponBook, issue: Issue, draws: Draws) returns (done: Issue)
    ensures done.name == issue.name && done.terms == issue.terms
    ensures IssuedBook(book, issue, draws)
         == if issue.name in book.payments then book else OrElse(CreateCoupons(book, done, draws), book)
    ensures issue.name !in book.payments ==> CreateCoupons(book, done, draws).Ok?
  {
    var created := CreateCoupons(book, issue, draws);
    done := issue;
    if created == Err(CodeCollision) {
      done := issue.(count := 0);
      CollisionKeepsPayment(book, issue, draws);
    } else if created == Err(DuplicateProduct) {
      done := issue.(products := []);
      DuplicateKeepsCoupons(book, issue, draws);
    }
  }

  function OrElse(r: Result<CouponBook, IssueError>, book: CouponBook): CouponBook {
    match r
    case Ok(after) => after
    case Err(_) => book
  }

  /** After a call outside a transaction its name is taken, whether it succeeded or not. */
  lemma IssuedNameIsTaken(book: CouponBook, issue: Issue, draws: Draws, again: Draws)
    ensures issue.name in IssuedBook(book, issue, draws).payments
    ensures CreateCoupons(IssuedBook(book, issue, draws), issue, again) == Err(NameTaken)
  {
    var done := IssuedBookIsCreated(book, issue, draws);
  }

  /** A new code given for several coupons fails after the payment is written, whatever is drawn. */
  lemma GivenCodeTwiceFails(book: CouponBook, issue: Issue, draws: Draws)
    requires issue.name !in book.payments && issue.count > 1
    requires issue.code != "" && !CodeExists(book, issue.code)
    ensures CreateCoupons(book, issue, draws) == Err(CodeCollision)
    ensures IssuedBook(book, issue, draws) == book.(payments := book.payments + [issue.name])
  {
    var drawn := DrawnCodes(issue.count, issue.code, draws);
    assert drawn[0] == drawn[1] == issue.code;
    assert ReplacedCodes(book, drawn, draws)[0] == ReplacedCodes(book, drawn, draws)[1] == issue.code;
  }

  // ----------------------------------------------------------------------------------------
  // The coupon book invariant
  // ----------------------------------------------------------------------------------------

  /** Codes and payment names are unique and foreign keys refer to rows. */
  ghost predicate BookFits(book: CouponBook) {
    && CodesDistinct(book)
    && (forall c :: 0 <= c < |book.coupons| ==> book.coupons[c].payment < |book.payments|)
    && (forall v :: 0 <= v < |book.versions| ==> book.versions[v].coupon < |book.coupons|)
    && (forall pair :: pair in book.eligible ==> pair.0 < |book.coupons|)
    && (forall p, q :: 0 <= p < q < |book.payments| ==> book.payments[p] != book.payments[q])
  }

  /** The coupons created for a payment. */
  function CouponsOf(book: CouponBook, payment: nat): set<nat> {
    set c | 0 <= c < |book.coupons| && book.coupons[c].payment == payment
  }

  /** The coupon has the given scope, exactly one version, with the given terms, and exactly the given products. */
  ghost predicate IsIssuedAs(book: CouponBook, c: nat, isGlobal: bool, terms: Terms, products: seq<nat>) {
    && c < |book.coupons| && book.coupons[c].isGlobal == isGlobal
    && (exists v :: 0 <= v < |book.versions| && book.versions[v] == CouponVersion(c, terms))
    && (forall v, w :: 0 <= v < w < |book.versions| ==>
          !(book.versions[v].coupon == c && book.versions[w].coupon == c))
    && (forall p :: (c, p) in book.eligible <==> p in products)
  }

  /**
   * The codes inserted are as many as asked for, distinct and new. They are the given or drawn ones;
   * only if those could not be inserted, and only where one was taken, another is drawn for it.
   */
  lemma InsertedCodesSpec(book: CouponBook, issue: Issue, draws: Draws)
    requires InsertedCodes(book, issue, draws).Ok?
    ensures var codes := InsertedCodes(book, issue, draws).value;
            && |codes| == issue.count && CanInsert(book, codes)
            && forall i :: 0 <= i < |codes| ==>
                 var drawn := if issue.code != "" then issue.code else draws.first(i);
                 codes[i] == if CodeExists(book, drawn) then draws.second(i) else drawn
  {
    var drawn := DrawnCodes(issue.count, issue.code, draws);
    assert CanInsert(book, drawn) ==> forall i :: 0 <= i < |drawn| ==> !CodeExists(book, drawn[i]);
  }

  lemma CreatedBookFits(book: CouponBook, issue: Issue, draws: Draws)
    requires BookFits(book) && CreateCoupons(book, issue, draws).Ok?
    ensures BookFits(CreateCoupons(book, issue, draws).value)
  {
    InsertedCodesSpec(book, issue, draws);
    var after := CreateCoupons(book, issue, draws).value;
    var codes := InsertedCodes(book, issue, draws).value;
    var first := |book.coupons|;
    forall c, d | 0 <= c < d < |after.coupons| ensures after.coupons[c].code != after.coupons[d].code {
      if c < first <= d {
        assert after.coupons[d].code == codes[d - first];
        assert !CodeExists(book, codes[d - first]);
      }
    }
  }

  lemma CreatedCoupons(book: CouponBook, issue: Issue, draws: Draws)
    requires BookFits(book) && CreateCoupons(book, issue, draws).Ok?
    ensures var after := CreateCoupons(book, issue, draws).value;
            && CouponsOf(after, |book.payments|) == Range(|book.coupons|, issue.count)
            && forall p: nat :: p < |book.payments| ==> CouponsOf(after, p) == CouponsOf(book, p)
  {
    InsertedCodesSpec(book, issue, draws);
    var after := CreateCoupons(book, issue, draws).value;
    forall p: nat | p < |book.payments| ensures CouponsOf(after, p) == CouponsOf(book, p) {
      forall c: nat ensures c in CouponsOf(after, p) <==> c in CouponsOf(book, p) {}
    }
  }

  /** Coupons issued earlier keep their one version and their eligibilities. */
  lemma OlderCouponStaysIssued(
      book: CouponBook, issue: Issue, draws: Draws, c: nat, isGlobal: bool, terms: Terms, products: seq<nat>)
    requires BookFits(book) && CreateCoupons(book, issue, draws).Ok?
    requires c < |book.coupons| && IsIssuedAs(book, c, isGlobal, terms, products)
    ensures IsIssuedAs(CreateCoupons(book, issue, draws).value, c, isGlobal, terms, products)
  {
    var after := CreateCoupons(book, issue, draws).value;
    var v :| 0 <= v < |book.versions| && book.versions[v] == CouponVersion(c, terms);
    assert after.versions[v] == CouponVersion(c, terms);
    forall p ensures (c, p) in after.eligible <==> p in products {
      assert (c, p) in after.eligible <==> (c, p) in book.eligible;
    }
  }

  lemma NewCouponIssued(book: CouponBook, issue: Issue, draws: Draws, c: nat)
    requires BookFits(book) && CreateCoupons(book, issue, draws).Ok?
    requires |book.coupons| <= c < |book.coupons| + issue.count
    ensures IsIssuedAs(CreateCoupons(book, issue, draws).value, c, issue.isGlobal, issue.terms, issue.products)
  {
    InsertedCodesSpec(book, issue, draws);
    var after := CreateCoupons(book, issue, draws).value;
    var v := |book.versions| + (c - |book.coupons|);
    assert after.versions[v] == CouponVersion(c, issue.terms);
    forall p ensures (c, p) in after.eligible <==> p in issue.products {
      assert (c, p) !in book.eligible;
      assert c in Range(|book.coupons|, issue.count);
    }
  }

  /**
   * When create_coupons returns normally it has created exactly the requested number of coupons
   * under a new payment, all codes in the book are still distinct even after a collision, each new
   * coupon has one version with the given terms and exactly the given eligibilities, and no older
   * payment has gained or lost a coupon.
   */
  lemma CreateCouponsSpec(book: CouponBook, issue: Issue, draws: Draws)
    requires BookFits(book) && CreateCoupons(book, issue, draws).Ok?
    ensures var after := CreateCoupons(book, issue, draws).value;
            && BookFits(after)
            && |CouponsOf(after, |book.payments|)| == issue.count
            && (forall c :: c in CouponsOf(after, |book.payments|) ==>
                  IsIssuedAs(after, c, issue.isGlobal, issue.terms, issue.products))
            && (forall p: nat :: p < |book.payments| ==> CouponsOf(after, p) == CouponsOf(book, p))
            && after.payments == book.payments + [issue.name]
            && book.coupons <= after.coupons && book.versions <= after.versions
            && (forall c :: |book.coupons| <= c < |after.coupons| ==>
                  after.coupons[c].enabled && after.coupons[c].payment == |book.payments|)
  {
    CreatedBookFits(book, issue, draws);
    CreatedCoupons(book, issue, draws);
    var after := CreateCoupons(book, issue, draws).value;
    forall c | c in CouponsOf(after, |book.payments|)
      ensures IsIssuedAs(after, c, issue.isGlobal, issue.terms, issue.products)
    {
      NewCouponIssued(book, issue, draws, c);
    }
  }

  /** The codes create_coupons inserts: drawn, and after a collision replaced one by one where taken. */
  method DrawCodes(book: CouponBook, issue: Issue, draws: Draws) returns (codes: Result<seq<string>, IssueError>)
    ensures codes == InsertedCodes(book, issue, draws)
    ensures codes.Ok? ==> |codes.value| == issue.count && CanInsert(book, codes.value)
  {
    var drawn := DrawnCodes(issue.count, issue.code, draws);
    if CanInsert(book, drawn) {
      return Ok(drawn);
    }
    var replaced := drawn;
    for i := 0 to |drawn|
      invariant |replaced| == |drawn|
      invariant forall j :: 0 <= j < i ==>
                  replaced[j] == if CodeExists(book, drawn[j]) then draws.second(j) else drawn[j]
      invariant forall j :: i <= j < |drawn| ==> replaced[j] == drawn[j]
    {
      if CodeExists(book, replaced[i]) {
        replaced := replaced[i := draws.second(i)];
      }
    }
    assert replaced == ReplacedCodes(book, drawn, draws);
    if CanInsert(book, replaced) {
      return Ok(replaced);
    }
    return Err(CodeCollision);
  }
}
