# The checkout and enrollment engine of MIT xPRO

MIT xPRO sells course runs and programs. A learner fills a basket, checks out, is sent to
CyberSource, and is enrolled when CyberSource accepts the payment. Companies buy enrollment codes in
bulk. This project models that engine as a state machine over small in-memory tables and proves what
holds over every run of it, together with the money arithmetic, the enrollment records and their
audit logs, the HubSpot batching and id map, and the signing and reference-number formats at the
edges.

`dafny verify dfyconfig.toml` checks the whole project.

## Layout

| file | content |
|---|---|
| `Prelude.dfy` | options, results, filtering, stable sorting |
| `Money.dfy` | both rounding modes, discounts, taxes, payload and receipt totals |
| `CourseCatalogue.dfy` | runs, courses, programs, products; available runs; run selections |
| `Records.dfy` | the tables of the shop |
| `Coupons.dfy` | valid coupon versions and the best one |
| `Baskets.dfy` | basket updates, validation for checkout, the basket invariant |
| `BasketUpdates.dfy` | which updates are accepted and what they leave; what validation guarantees |
| `Orders.dfy` | the order mirror, status changes, completion, the order invariant |
| `Seats.dfy` | creating coupon codes |
| `BulkOrders.dfy` | B2B orders and the codes they own |
| `Machine.dfy` | the state machine, its invariant, and the theorems over every run |
| `OrderOutcomes.dfy` | what checkouts, messages and updates do to the whole shop |
| `BulkOutcomes.dfy` | which bulk checkouts are accepted and what they cost; payment names |
| `BulkRuns.dfy` | bulk orders over every run: settled orders, conservation of seats |
| `PromoTerms.dfy` | the terms of one payment's coupons over every run; automatic coupons |
| `SeatPromos.dfy` | codes of bulk orders under promo updates, over every run |
| `LimitRuns.dfy` | runs in which paid orders exceed redemption limits, or enroll nobody |
| `SingleUse.dfy` | B2B coupons that are not reusable, over every run |
| `Store.dfy` | class `Shop`: the requests, changing the tables step by step |
| `References.dfy` | reference numbers |
| `Enrollments.dfy`, `EnrollmentRegistry.dfy` | enrollment changes against an unreliable edX; class `Registry` with their loops |
| `EnrollmentOutcomes.dfy` | what each enrollment change writes and how it ends |
| `OrderEnrollments.dfy` | fulfilment seen in the enrollment tables |
| `HubspotSync.dfy` | chunks, association batches, the id map |
| `Signing.dfy` | signing and verifying a payload |

The functions of `Orders`, `BulkOrders`, `Machine` and `Enrollments` say what a request does to the
tables as a whole. The methods of `Shop`, `Registry` and `IdTable` change the tables step by step, as
the program does, and are proved to have exactly that effect; the lemmas say what it is worth.

## How the model reads the program

- A table is a sequence and a row's id its position, so the latest of several rows is the one with
  the greatest id. A basket that does not exist is an empty one.
- Money is in cents, a discount amount times 10^5, a tax rate (a percentage) times 10^4; a tax is kept
  exact, in millionths of a cent.
- A request is one step that sees one time. A refused request leaves the state as it was.
- `Moment` holds what a request sees from outside: the time, the order in which the database yields
  coupon versions (rows with equal amounts may come in any order), and whether the user has signed the
  required consents. Random codes are arbitrary functions (`Draws`), so no freshness is assumed.
- Every outcome of edX and of a local write that can fail is an argument (`Remote`, `DeferralLuck`,
  `Retry`, `lost`), so the theorems hold for all of them. `Ending` says whether a completion ran to its
  end or an exception stopped it, and which enrollments it had written by then.
- Requests run outside a transaction except where the code opens one, so what was saved before an
  exception stays.
- The message digest (HMAC-SHA256, section 2 of RFC 2104, in Base64, section 4 of RFC 4648) is an
  arbitrary function.
- Besides requests, a run may contain these steps of the surroundings: new prices, promo updates,
  new coupons, disabled coupons, enrollment changes, deleted baskets, refunds.
- The versions of a coupon payment are part of the coupon versions that refer to them; a payment's
  latest terms are those of the latest version of any of its coupons.
- Prices are whole cents. Coupon amounts pass `validate_amount` where a theorem says so.

## What the proofs found

- Checkout's run checks only count. They are right because every basket the program can write holds
  at most one run for each course (`CheckSelectionExact`, `CountingAloneIsNotEnough`).
- Redemption limits, in total and for each user, hold for $0 checkouts. A payment is accepted without
  looking at them, so paid orders can exceed both (`FreeRedemptionsKeepLimits`,
  `AcceptKeepsLimitExactly`, `PaidOrdersCanExceedLimits`).
- The same holds of B2B coupons that are not reusable: free bulk orders use one at most once, a paid
  order uses it whatever happened since its checkout (`FreeSingleUseRedeemedOnce`,
  `AcceptKeepsSingleUseExactly`, `SingleUseRedeemedTwice`).
- The amount charged and the receipt can differ by one cent, and the exact condition is known
  (`PayloadMatchesReceipt`). Quantities other than one, which the program never stores, would be
  charged wrongly (`PayloadIgnoresQuantity`).
- The full-discount filter misses some free coupons, and without a known price admits some that are
  not free; exactly which is known (`FilterMissesExactly`, `UnknownPricePassesExactly`).
- The status of an order is saved before its completion, so an exception in between leaves it fulfilled
  with nobody enrolled, and no later message repairs it (`FirstMessageDecides`,
  `StoppedCompletionStays`, `PaidOrderCanEnrollNobody`).
- A coupon that an update leaves on a basket validates at the same moment, however it was chosen,
  because the coupons of one payment keep their terms over every run (`ReachableCouponValidates`).
  Only rows edited by hand in the admin can break this for an automatic coupon (`AutoAppliedExactly`,
  `AutoAppliedCanFail`).
- The order mirror made after a basket update resets the order's tax rate to zero, because it is made
  without a request; checkout sets it again (`UpdateMirrorsBasket`, `UpdateThenCheckoutReusesOrder`).
- Coupon payment names are unique, so of two paid bulk orders with the same contract number and no
  coupon the second stays open (`SharedContractStaysOpen`, `PaidOrderCanStayOpen`; `BulkMessageEffect`
  gives the condition).
- Promo updates accept the codes of bulk orders too. A code keeps its product free exactly if the
  update is global or lists the product (`PromoUpdateOfCode`, `UpdatedCodeCanStopBuying`); codes that
  no update names stay as issued (`UnnamedCodesAsIssued`).
- Creating coupons outside a transaction leaves rows behind when it fails, at least the payment, whose
  name is then taken (`IssuedNameIsTaken`, `GivenCodeTwiceFails`).
- A free bulk order is saved as fulfilled before its codes are created, so it can end fulfilled
  without codes (`FreeOrderWithoutCodes`; `BulkCheckoutExactly` says exactly when). Paid orders never
  do, and apart from such free orders codes and seats agree (`CodesMatchFulfilledSeats`).
- A payload that is signed when it already has a "signature" field passes verification only by a
  collision of the digest, unless the field already held the new signature (`VerifiesExactly`,
  `ResigningFails`).
- The comment on `_autoselect_runs` says that nothing is selected if the user is enrolled in a picked
  run; the code skips such runs and takes the next one. The model follows the code.

## Model

| member | source | states |
|---|---|---|
| `Money.HalfUpSpec` | ecommerce/api.py:602-613 | rounding half up gives r exactly when r is a nearest integer and a tie goes away from zero, for either sign |
| `Money.HalfEvenSpec` | ecommerce/api.py:283-287 | `quantize` without a mode gives r exactly when r is a nearest integer and a tie goes to the even one |
| `Money.DiscountedPriceBounds` | ecommerce/models.py:628-647 | for an amount that passes validation, the price after discount lies between 0 and the list price, and percent-off never needs the clamp at zero |
| `Money.DiscountedPriceExactly` | ecommerce/models.py:628-647 | what a valid discount takes off a positive price: for percent-off the nearest cents to that part of the price, for dollars-off the nearest cents to the amount as far as the price goes, a tie going up; nothing for another type |
| `Money.DiscountedPriceAntitone` | ecommerce/api.py:616-639 | the price after discount does not increase as the amount grows, for every discount type |
| `Money.FreeExactly` | ecommerce/utils.py:102-119 | a valid discount makes a product free if and only if the price is 0, or the percentage left over is at most half a cent, or the dollars reach the price less half a cent |
| `Money.FullDiscountIsFree` | ecommerce/api.py:444-466 | every version that passes the full-discount filter at a known price costs exactly 0 |
| `Money.FilterMissesExactly` | ecommerce/api.py:444-466 | which valid discounts are free at a known price and yet fail the filter: exactly a percentage below 100 that rounds to the price or meets a price of zero, dollars below the price that round up to it, and another type on a price of zero |
| `Money.UnknownPricePassesExactly` | ecommerce/api.py:444-453 | which valid discounts pass because the price is unknown and are not free at the price that comes out: exactly 1.00 off more than 1.00, or amount 1 of another type at a positive price |
| `Money.FullDiscountIncomplete` | ecommerce/api.py:444-466 | an instance of each: 99.999% off 1.00 is free and filtered out; 1.00 off passes without a price and leaves 2.00 at 1.00 |
| `Money.FullPercentIsFree` | ecommerce/models.py:628-647 | 100% off costs exactly 0 at any price |
| `Money.TaxIsProportional` | ecommerce/api.py:642-671 | tax adds up over prices, is proportional to the rate, and is the whole price at 100% |
| `Money.PayloadTotals` | ecommerce/api.py:268-328 | the loop over the lines yields an amount rounded once, from the sum of prices and taxes, and a tax rounded separately |
| `Money.ReceiptLines` | ecommerce/serializers.py:1173-1192 | each line's discount plus its total before tax is list price times quantity; tax is the tax on all units rounded once, half to even; total before tax is price times quantity, and total paid is the sum of the two |
| `Money.HalfEvenShift` | ecommerce/api.py:321-328 | adding k whole cents before half-even rounding adds k after it, except that odd k moves a tie by one |
| `Money.PayloadMatchesReceipt` | ecommerce/api.py:642-671 | for one line of quantity one, the amount charged equals the receipt's total paid if and only if the tax is not a half-cent tie on an odd price; otherwise they differ by exactly one cent |
| `Money.FreePayloadMatchesReceipt` | ecommerce/serializers.py:1181-1190 | a free line is charged and receipted at zero for every quantity and tax rate |
| `Money.PayloadOneCentOff` | ecommerce/serializers.py:1181-1190 | a concrete order that is charged 0.02 and receipted at 0.01 |
| `Money.PayloadIgnoresQuantity` | ecommerce/api.py:296-297 | for a positive price and any quantity, charge and receipt agree if and only if the quantity is one without a half-cent tie on an odd price; a larger quantity is charged less than receipted, an empty line more |
| `CourseCatalogue.FirstUnexpiredRunIsHead` | courses/models.py:531-571 | selecting then sorting and sorting then selecting give the same first unexpired run of a course |
| `CourseCatalogue.UnexpiredExactly` | courses/models.py:704-737 | a run is unexpired if and only if it has not ended and its enrollment period has begun and not ended; the separate test for a past run adds nothing |
| `CourseCatalogue.FirstAvailableRunSpec` | courses/models.py:554-571 | the first available run is live, unexpired, not already enrolled in, and starts no later than any other such run; none is found only if none exists |
| `CourseCatalogue.ChooseEachSpec` | ecommerce/serializers.py:537-553 | choosing a run for each course gives up exactly when some course has none, and else chooses one for each in order |
| `CourseCatalogue.CollectRuns` | ecommerce/serializers.py:537-553 | the loop that grows the run list is that choice |
| `CourseCatalogue.CountingMeansOnePerCourse` | ecommerce/api.py:1113-1131 | pigeonhole: when no two runs share a course, equal counts and included courses hold if and only if there is exactly one run for each course |
| `CourseCatalogue.CheckSelectionExact` | ecommerce/api.py:1101-1147 | for a selection that fits its product, checkout's run checks accept exactly the selections with one unexpired run, not enrolled in, for each course to cover; for a course-run product exactly its own run |
| `CourseCatalogue.CountingAloneIsNotEnough` | ecommerce/api.py:1113-1131 | without that invariant the same checks accept two runs of one course for a two-course program |
| `CourseCatalogue.AutoselectionPassesCheckout` | ecommerce/serializers.py:516-557 | what automatic selection picks for a program passes checkout's run checks at the same instant and holds an earliest available run of each live course; it picks nothing if and only if there is no live course or one without available run |
| `Coupons.ValidVersionsSpec` | ecommerce/api.py:381-543 | the list holds exactly the versions that pass the filters, are the latest of their coupon among those that pass, and are within dates and limits, by decreasing amount |
| `Coupons.ValidVersionMeans` | ecommerce/api.py:381-543 | a version found for a user and a product is of an enabled coupon that matches the code and is global or eligible, not a promo for everything where a code is required, automatic, of the company and a full discount where asked for, in its dates, and below both limits |
| `Coupons.ValidVersionApplies` | ecommerce/api.py:468-494 | a version found for a product takes its discount off that product |
| `Coupons.FindBestCoupon` | ecommerce/api.py:546-573 | the loop over best price and best coupon ends with the first version of least price, capped at the list price |
| `Coupons.FirstMinimumSpec` | ecommerce/api.py:561-573 | the first minimum is below everything before it and at most everything after it |
| `Coupons.BestCouponIsFirstCheapest` | ecommerce/api.py:546-573 | for valid amounts and any list, the result is the first version that minimises the discounted price, also when no coupon lowers it; there is none only for an empty list |
| `Coupons.DiscountedAtMostListPrice` | ecommerce/api.py:616-639 | with a coupon, whether it applies or not, the price is between 0 and the list price |
| `Coupons.ValidUnderOwnCode` | ecommerce/serializers.py:392-437 | a version valid under a given code, or without one, is valid under its own coupon's code |
| `Coupons.AutoValidUnderOwnCode` | ecommerce/serializers.py:404-412 | so is an automatic one, if its coupon's versions agree on being automatic |
| `Coupons.AutoAppliedExactly` | ecommerce/api.py:468-543 | in general a coupon's code validates if and only if one of the coupon's latest versions, automatic or not, is within its limits |
| `Baskets.CheckedRunsFit` | ecommerce/serializers.py:745-777 | runs accepted from a request belong to the product and no two share a course |
| `Baskets.FullImageIsInjective` | ecommerce/serializers.py:767-777 | if runs have as many courses as there are runs, no two share one |
| `Baskets.NextBasketFits` | ecommerce/serializers.py:440-557 | an accepted update keeps the basket invariant: at most one item, of quantity one; runs of its product, one for each course at most; at most one coupon; nothing without an item |
| `BasketUpdates.UpdateAcceptedExactly` | ecommerce/serializers.py:559-694 | an update is accepted if and only if it asks for something, with at most one item and one coupon; its product is on offer and its runs are given, not enrolled in, of the product and of different courses; and the product that will be on the basket has a price and a given code a valid version |
| `BasketUpdates.CheckRunIdsExactly` | ecommerce/serializers.py:745-777 | requested runs are accepted, as they are, if and only if all are given, none is enrolled in, all belong to the product, and no two are of one course |
| `BasketUpdates.UpdateLeavesItem` | ecommerce/serializers.py:481-500 | an accepted update leaves exactly the requested product, at quantity one, with the requested program run; without items it leaves the item alone |
| `BasketUpdates.UpdateLeavesRuns` | ecommerce/serializers.py:495-505 | an accepted update leaves exactly the runs asked for if there are any, and without items in the request the selection on the basket; only a basket with an item and no selection is filled in automatically |
| `BasketUpdates.AutoselectionExactly` | ecommerce/serializers.py:516-557 | what is filled in: a course-run product's own run; for a program an earliest available run of each live course, or nothing if there is no live course or one has none |
| `BasketUpdates.UpdateLeavesCoupon` | ecommerce/serializers.py:506-509 | an accepted update leaves the coupon of the version that applies to its item, or none |
| `BasketUpdates.GivenCouponExactly` | ecommerce/serializers.py:414-425 | with a code, a cheapest version valid by it is applied, and the update is refused if and only if there is none |
| `BasketUpdates.OwnCouponExactly` | ecommerce/serializers.py:404-437 | without coupons in the request, the latest version of the basket's coupon is kept while valid; otherwise a cheapest automatic one is applied, or none if there is none |
| `BasketUpdates.BestForProductExactly` | ecommerce/api.py:546-573 | the coupon chosen for a product is none if and only if no version is valid; otherwise it is valid, of least price at the product's latest price, and of greatest amount among those |
| `BasketUpdates.CheckCouponExactly` | ecommerce/api.py:1150-1184 | coupon validation fails if and only if no version is valid by the coupon's code; otherwise it gives one of greatest amount, which applies to the product |
| `BasketUpdates.ValidateBasketExactly` | ecommerce/api.py:1187-1228 | a basket that fits validates if and only if its product is active, live and priced, each course to cover has one unexpired run not enrolled in, its coupon validates, a required code is there and consents are signed; the result holds item, latest version, coupon version and runs |
| `Baskets.ValidatedRunsCoverCourses` | ecommerce/api.py:1101-1147 | a basket with the invariant that passes validation has exactly one run for each live course of its program, or exactly the product's own run |
| `Baskets.ApplicableCouponStaysValid` | ecommerce/serializers.py:392-437 | the version an update applies is valid under its own code at that moment: always if given by code or kept, and if automatic, provided that coupon's versions agree on being automatic |
| `Baskets.UpdatedCouponPassesCheckout` | ecommerce/api.py:1150-1184 | the basket that an update leaves has at most one coupon, and coupon validation succeeds on it under the same condition |
| `Baskets.SameRedemptionsSameValidation` | ecommerce/api.py:1187-1228 | validation reads nothing of the orders but the redemptions |
| `Orders.CreateOrUpdateSpec` | ecommerce/api.py:894-994 | in a state that fits, mirroring a basket never fails and rewrites one open order of the user for the product, or appends one if there is none; every other order is unchanged and a reused line keeps its id |
| `Orders.CreateOrUpdateFits` | ecommerce/api.py:894-994 | it keeps one line and at most one redemption on each order, line ids distinct, and at most one open order for each purchaser and product |
| `Orders.CreateOrUpdateIdempotent` | ecommerce/api.py:894-994 | mirroring the same basket again finds the same order, creates nothing, and changes nothing but the tax rate |
| `Orders.FulfilFits` | ecommerce/api.py:784-802 | completing an open order keeps that invariant, with exactly one completion for each redeemed order |
| `Orders.FirstMessageDecides` | ecommerce/api.py:1488-1521 | for any sequence of messages about an open order the first decides the whole state; if it accepts, the order is fulfilled however its completion ends, the purchaser is enrolled as far as that got, and the basket goes if and only if it was not stopped |
| `Orders.StoppedCompletionStays` | ecommerce/api.py:1459-1521 | what a completion stopped by an exception did not reach is enrolled by no later message, the basket stays, and every later message is refused |
| `Orders.SettledOrderIgnoresMessages` | ecommerce/api.py:1459-1485 | messages about an order that is no longer open change nothing |
| `OrderOutcomes.CheckoutExactly` | ecommerce/views.py:200-226 | a checkout is accepted if and only if the basket validates. It mirrors the basket onto one order; at price 0 the order is fulfilled, one free completion recorded, the user enrolled in the selected runs as far as completion got, and the basket deleted unless it was stopped; otherwise nothing else changes |
| `OrderOutcomes.FreeCheckoutEnrolls` | ecommerce/views.py:219-226 | a free checkout whose completion runs to its end enrolls the user in every selected run that can be written and deletes the basket |
| `OrderOutcomes.MessageRefusedExactly` | ecommerce/api.py:1459-1485 | a message is refused if and only if its order is unknown or has left the created status, except that a cancellation of a failed order is ignored |
| `OrderOutcomes.UpdateExactly` | ecommerce/serializers.py:638-717 | an update saves the new basket and no other, enrolls nobody, completes nothing, and leaves every order alone if it empties the basket or the saved basket does not validate |
| `OrderOutcomes.CheckoutStepExactly` | ecommerce/views.py:200-226 | the machine's checkout step does just that, or nothing if the basket does not validate |
| `OrderOutcomes.MessageStepExactly` | ecommerce/api.py:1488-1521 | the machine's message step changes the status of an open order as decided and completes it once if accepted, and otherwise changes nothing |
| `OrderOutcomes.UpdateStepExactly` | ecommerce/serializers.py:638-717 | the machine's update step saves just the new basket, or changes nothing if the update is refused |
| `Seats.InsertedCodesSpec` | ecommerce/api.py:1410-1436 | the codes inserted are as many as asked for, new and distinct; each is the given or drawn code, or another drawn in its place if and only if it was taken |
| `Seats.DrawCodes` | ecommerce/api.py:1410-1436 | the fallback loop that replaces colliding codes yields those codes, or the collision that remains |
| `Seats.CreateCouponsSpec` | ecommerce/api.py:1339-1456 | on success there are exactly the requested number of coupons under a new payment of the given name, each enabled, of the given scope, with one version and exactly the given eligibilities; all codes stay distinct, older coupons and versions are unchanged, and no older payment gains or loses a coupon |
| `Seats.IssuedBookIsCreated` | ecommerce/views.py:391-420 | what a call outside a transaction leaves behind is what a successful call for fewer rows would have written |
| `Seats.IssuedNameIsTaken` | ecommerce/api.py:1389-1408 | after a call outside a transaction, successful or not, its payment name is taken, so the same call fails from then on |
| `Seats.GivenCodeTwiceFails` | ecommerce/api.py:1410-1436 | one new code for several coupons always fails and leaves the payment without coupons |
| `Seats.CreateCouponsExactly` | ecommerce/api.py:1389-1456 | create_coupons succeeds if and only if the name is free, the drawn or the replaced codes are new and distinct, and no product is listed twice |
| `Seats.OlderCouponStaysIssued` | ecommerce/api.py:1438-1456 | an older coupon keeps its one version and its eligibilities |
| `BulkOrders.BulkTotalBounds` | b2b_ecommerce/api.py:154-183 | a B2B coupon between 0 and 100% leaves the total between 0 and price times seats, and 100% leaves 0 |
| `BulkOutcomes.BulkCheckoutAcceptedExactly` | b2b_ecommerce/views.py:45-108 | a bulk checkout is accepted if and only if its product version exists, its seats are not negative, its contract number is on no fulfilled order, and its code is that of a redeemable coupon |
| `BulkOutcomes.BulkCheckoutPrice` | b2b_ecommerce/api.py:154-183 | the order costs the price of every seat without a code; with one it has a redeemable coupon of that code, whose part of the price of all seats is taken off to the nearest cent, a tie going to even |
| `BulkOutcomes.BulkTotalExactly` | b2b_ecommerce/api.py:176-183 | the total is the list price of all seats less the nearest cents to the coupon's part of it, and nothing else is |
| `BulkOutcomes.FindB2BCouponExactly` | b2b_ecommerce/models.py:32-61 | a coupon is found by its code if and only if one is enabled, for the product, in its dates, and reusable or not redeemed |
| `BulkOutcomes.RedeemableMeans` | b2b_ecommerce/models.py:42-60 | a coupon is redeemable if and only if it has the code, is enabled, is for the product or for all, is strictly inside its dates, and is reusable or on no fulfilled or refunded order |
| `BulkOutcomes.UsedContractRefused` | b2b_ecommerce/views.py:74-82 | the contract number of a fulfilled order is refused in whatever letter case it is given |
| `BulkOutcomes.PaymentNamesCompete` | b2b_ecommerce/api.py:32-39 | two orders can want one payment name only if one of them has a contract number and no coupon |
| `BulkOutcomes.PaymentNameTells` | b2b_ecommerce/api.py:32-39 | a payment name holds the contract number, if any, and ends with the coupon's code, if any |
| `BulkOrders.CompleteBulkFits` | b2b_ecommerce/api.py:24-54 | completing an order gives it as many codes as it has seats, each with one version on the terms of a seat and one eligibility, for the bought product, and takes none from another order |
| `BulkOrders.BulkMessageFits` | b2b_ecommerce/api.py:123-151 | a message keeps the invariant that no two orders share a payment and every payment owns one code for each seat |
| `BulkOrders.BulkCheckoutFits` | b2b_ecommerce/views.py:45-138 | so does a bulk checkout, free or not, whether or not its codes can be created |
| `BulkOrders.CompleteBulkExactly` | b2b_ecommerce/api.py:24-54 | an order gets its codes if and only if its payment name is not taken and the drawn codes, or those left after replacing taken ones, are new and distinct |
| `BulkOrders.BulkCheckoutExactly` | b2b_ecommerce/views.py:90-138 | an accepted bulk checkout appends one order: open and without codes if it is not free; fulfilled if it is free, with codes if and only if they could be issued |
| `BulkOrders.CheckoutSucceedsExactly` | b2b_ecommerce/views.py:113-123 | a bulk checkout that is accepted succeeds if and only if its order is not free or has been given its codes |
| `BulkOrders.BulkMessageEffect` | b2b_ecommerce/api.py:123-151 | a message to an open order takes effect if and only if it declines, or the payment name is free and the drawn or replaced codes can be inserted; then status and payment are as decided and nothing else but new codes changes |
| `BulkOrders.FirstHandledBulkMessageDecides` | b2b_ecommerce/api.py:123-151 | for any sequence of messages, the first one handled decides the whole state, codes included |
| `BulkOrders.SettledBulkOrderIgnoresMessages` | ecommerce/api.py:1459-1485 | messages about a bulk order that is no longer open change nothing |
| `BulkOrders.SharedContractStaysOpen` | b2b_ecommerce/api.py:32-39 | of two open orders with one contract number and no coupon, once one has its codes, accepting the other fails and leaves it open |
| `Machine.InitialStateFits` | ecommerce/models.py:349-368 | the empty shop satisfies the invariant |
| `Machine.StepFits` | ecommerce/api.py:784-994 | every step keeps the invariant, stopped completions and promo updates of any coupon included: baskets, orders, limits of $0 redemptions, and one code for each seat of bulk orders |
| `Machine.RunFits` | ecommerce/api.py:784-994 | so does every run |
| `Machine.EveryRunFromEmptyShop` | ecommerce/api.py:784-994 | over every run from an empty shop, with completions stopped or not: one line and at most one redemption on each order, one open order at most for each purchaser and product, complete_order called exactly once for exactly the redeemed orders, and limits kept by $0 checkouts |
| `Machine.ValidatedBasketIsMirrorable` | ecommerce/api.py:1150-1184 | a validated basket has what mirroring needs, and its coupon version is below both redemption limits |
| `Machine.FreeRedemptionsKeepLimits` | ecommerce/api.py:496-541 | in every state with the invariant, a version redeemed only by $0 checkouts is within its total limit and its limit for each user, however many open orders hold it |
| `Machine.FulfilRedeemers` | ecommerce/views.py:219-226 | fulfilment adds the order, and nothing else, to its coupon version's redeemers |
| `Machine.AcceptKeepsLimitExactly` | ecommerce/api.py:1488-1521 | accepting a payment leaves the total limit kept if and only if it had not been reached before, the purchaser's limit likewise, and no other user's redemptions change |
| `LimitRuns.PaidOrdersCanExceedLimits` | ecommerce/api.py:1488-1521 | a run from an empty shop in which one user pays twice and redeems a version twice that allows one redemption in all and one for each user |
| `LimitRuns.PaidOrderCanEnrollNobody` | ecommerce/api.py:1510-1515 | a run from an empty shop in which an accepted payment leaves the order fulfilled, nobody enrolled and the basket in place, and every further message is refused |
| `Machine.StepKeepsSettledOrder` | ecommerce/api.py:894-960 | a step changes an order that has left the created status only by refunding it |
| `Machine.RunKeepsSettledOrder` | ecommerce/api.py:894-960 | over any run such an order keeps its line, runs, coupon, price and status, except for a refund |
| `Machine.RunRefusesLaterMessages` | ecommerce/api.py:1459-1485 | after any run, a message about an order fulfilled before it is refused and changes nothing |
| `Machine.UpdateThenCouponValidates` | ecommerce/serializers.py:638-717 | after the whole update, order mirror included, coupon validation succeeds on the basket it left, with no condition for a coupon given by code or kept, and for an automatic one that its own versions agree on being automatic |
| `Machine.UpdateMirrorsBasket` | ecommerce/serializers.py:699-717 | after an update whose basket validates, the user has exactly one open order for the product and it agrees with the basket in price, line, runs and coupon, with tax rate 0 |
| `Machine.UpdateThenCheckoutReusesOrder` | ecommerce/serializers.py:699-717 | the checkout that follows creates no order and no line, and changes at most that order's tax rate and status |
| `Machine.ReachableCheckoutCoversCourses` | ecommerce/api.py:1101-1147 | after any run of steps, a basket that passes checkout has exactly one run for each course to cover |
| `PromoTerms.IssueKeepsTerms` | ecommerce/api.py:1389-1456 | creating coupons keeps that versions of coupons of one payment have the same terms, dates aside |
| `PromoTerms.PromoKeepsTerms` | ecommerce/serializers.py:1065-1097 | so does a promo update, which copies the payment's latest terms and changes the dates |
| `PromoTerms.PromoUpdateExactly` | ecommerce/serializers.py:1065-1097 | a promo update gives the coupon a latest version with the given dates and otherwise the payment's latest terms, the given scope and exactly the given products, and changes nothing else |
| `PromoTerms.DisabledIsRefused` | ecommerce/utils.py:183-217 | a disabled coupon is found by no query, and disabling changes nothing else |
| `PromoTerms.RunKeepsTerms` | ecommerce/serializers.py:1065-1097 | so does every run of steps |
| `PromoTerms.ReachableCouponValidates` | ecommerce/serializers.py:392-437 | after any run, an accepted update that leaves a coupon leaves one that validates at the same moment, however it was chosen |
| `PromoTerms.AutoAppliedCanFail` | ecommerce/api.py:468-494 | with rows that no request writes, because filters come before the latest version is taken, an update applies a coupon automatically that validation refuses at the same moment |
| `BulkRuns.RunKeepsSettledBulkOrder` | ecommerce/api.py:1459-1485 | over any run a bulk order that has left the created status never changes |
| `BulkRuns.StepKeepsHistory` | b2b_ecommerce/api.py:123-151 | every step keeps that paid fulfilled orders have codes and only fulfilled orders do, and adds to the fulfilled seats without codes exactly those of a free checkout whose codes cannot be issued |
| `BulkRuns.CodesMatchFulfilledSeats` | b2b_ecommerce/api.py:24-54 | over every run, codes of bulk orders, all distinct, number the seats of all fulfilled orders less those of free checkouts whose codes could not be issued; every paid fulfilled order has its codes |
| `BulkRuns.FulfilledOrderOwnsSeats` | b2b_ecommerce/api.py:24-54 | over every run, a fulfilled order that was paid for owns exactly one code for each seat |
| `BulkRuns.FreeOrderWithoutCodes` | b2b_ecommerce/views.py:113-123 | a run from an empty shop in which, whatever codes are drawn, a free bulk order ends fulfilled and without codes |
| `BulkRuns.PaidOrderCanStayOpen` | b2b_ecommerce/api.py:32-39 | a run from an empty shop in which two bulk orders with one contract number are paid and the second stays open, whatever codes are drawn later |
| `SeatPromos.UnnamedCodesAsIssued` | b2b_ecommerce/api.py:24-54 | over every run, a code that no accepted promo update has named has exactly one version, on the terms of a seat, exactly one eligibility, for the bought product, and makes every version of that product cost 0 |
| `SeatPromos.ReachableCodePrice` | ecommerce/api.py:616-639 | over every run, promo updates included, any version of any code of a bulk order makes a product with a positive price free if and only if the coupon is global or eligible for it, and else leaves the price as it is |
| `SeatPromos.ValidCodeIsUnredeemed` | b2b_ecommerce/api.py:43-52 | over every run, a code of a bulk order that is found valid is 100% off, single-use, and has not been redeemed by anyone |
| `SeatPromos.PromoUpdateOfCode` | ecommerce/serializers.py:1065-1097 | a promo update of a code leaves it with more than the version it was issued with, and from then on it makes a product with a positive price free if and only if the update is global or lists that product |
| `SeatPromos.UpdatedCodeCanStopBuying` | ecommerce/serializers.py:1033-1097 | a run from an empty shop after which a paid code takes nothing off the product it was bought for |
| `SeatPromos.RunKeepsCodes` | ecommerce/serializers.py:1065-1097 | every run keeps that each version of a code is on the terms of a seat, dates aside, and that codes no accepted update has named are as issued |
| `SingleUse.StepKeepsSingleUse` | b2b_ecommerce/models.py:32-61 | every step keeps that free bulk orders are fulfilled and no two of them share a coupon that is not reusable |
| `SingleUse.RunKeepsSingleUse` | b2b_ecommerce/models.py:32-61 | so does every run: at most one free bulk order is ever made with such a coupon |
| `SingleUse.FreeSingleUseRedeemedOnce` | b2b_ecommerce/models.py:54-60 | a coupon that is not reusable and was only redeemed by free bulk orders is redeemed at most once, over any run |
| `SingleUse.AcceptKeepsSingleUseExactly` | b2b_ecommerce/api.py:123-151 | accepting a paid bulk order leaves its coupon redeemed at most once if and only if it was not redeemed before |
| `SingleUse.SingleUseRedeemedTwice` | b2b_ecommerce/api.py:123-151 | a run from an empty shop in which two paid bulk orders redeem a coupon that is not reusable |
| `Store.Shop.constructor` | ecommerce/models.py:301-368 | a shop starts with empty tables over a catalogue, prices and coupon book, with the invariant |
| `Store.Shop.AutoselectRuns` | ecommerce/serializers.py:516-557 | fills in the runs that automatic selection picks |
| `Store.Shop.UpdateBasketData` | ecommerce/serializers.py:440-514 | row by row it makes exactly the change asked for, or rolls back |
| `Store.Shop.UpdateBasket` | ecommerce/serializers.py:638-694 | is the machine's basket step, and refuses exactly what that refuses |
| `Store.Shop.SyncUnfulfilledOrder` | ecommerce/serializers.py:699-717 | is the mirror made after an update |
| `Store.Shop.CreateOrUpdateUnfulfilledOrder` | ecommerce/api.py:894-994 | writes order, line, selections and redemption in turn to reach exactly the mirrored state, or rolls back |
| `Store.Shop.EnrollInOrderItems` | ecommerce/api.py:805-838 | enrolls the purchaser in every selected run that is reached and whose record can be written, and in nothing else |
| `Store.Shop.CompleteOrder` | ecommerce/api.py:784-802 | is the fulfilment transition: the status saved first, then enrollment and basket as far as completion gets |
| `Store.Shop.CheckOut` | ecommerce/views.py:200-226 | is the machine's checkout step; it is refused exactly as validation says, and raises when the completion of a free order is stopped, with the order saved |
| `Store.Shop.FulfillOrder` | ecommerce/api.py:1488-1521 | is the machine's message step, and raises when the completion is stopped, with the order saved |
| `Store.Shop.IssueCoupons` | ecommerce/api.py:1339-1456 | inserts payment, coupons with versions, and eligibilities in turn to reach exactly the new coupon book; an error leaves exactly the rows inserted before it |
| `Store.Shop.InsertCoupons` | ecommerce/api.py:1410-1454 | the loop inserts one coupon and one version for each code |
| `Store.Shop.CreateCouponPayment` | ecommerce/views.py:391-420 | is the machine's coupon step, outside a transaction |
| `Store.Shop.CompleteBulkOrder` | b2b_ecommerce/api.py:24-54 | creates the codes and links them, or rolls everything back |
| `Store.Shop.PlaceBulkOrder` | b2b_ecommerce/views.py:98-123 | saves the order, and if it is free sets it fulfilled, saves it and completes it; a failed completion leaves the order saved |
| `Store.Shop.FulfillBulkOrder` | b2b_ecommerce/api.py:123-151 | is the machine's bulk message step |
| `Store.Shop.CheckOutBulk` | b2b_ecommerce/views.py:45-138 | is the machine's bulk checkout step; an accepted request succeeds if and only if its order is not free or its codes can be issued |
| `References.ParseIntPrint` | ecommerce/utils.py:59-68 | reading back a printed number gives the number |
| `References.ReferenceRoundTrip` | ecommerce/views.py:276-284 | for every environment and id, printing, routing by prefix and parsing gives back the kind and the id |
| `References.PrefixesDisjoint` | b2b_ecommerce/models.py:168-171 | no string starts with both prefixes, whatever the environments |
| `References.ForeignReferenceRejected` | ecommerce/utils.py:41-68 | a reference number printed in another environment never resolves to a positive id |
| `EnrollmentOutcomes.SaveAndLogExactly` | mitxpro/models.py:125-146 | saving stores the record, logs the change from the old record to it, and touches no other row |
| `Enrollments.SaveAndLogFits` | mitxpro/models.py:125-146 | saving keeps each audit log an unbroken chain that ends at the stored record, and logs every change of a record |
| `Enrollments.EnrollAllFits` | courses/api.py:90-198 | creating enrollments, whatever fails, keeps every record active exactly when its change status is null, and keeps the chains and the keys |
| `EnrollmentOutcomes.EnrollOneExactly` | courses/api.py:131-147 | an active record on the order stays, an inactive one is reactivated and a missing one created with this call's edX outcome, and no other record changes |
| `EnrollmentOutcomes.CreationReturns` | courses/api.py:129-157 | creation returns the active record of each writable item, in order, and is cut short if and only if some item cannot be written and there is no order to report it on |
| `EnrollmentOutcomes.CreateRunsExactly` | courses/api.py:90-158 | an unexpected failure of edX, or a known one not kept, raises and writes nothing; otherwise the records are written, flagged with whether edX succeeded |
| `EnrollmentOutcomes.CreateProgramsExactly` | courses/api.py:161-198 | program creation returns the active records of the writable programs and touches no run enrollment |
| `EnrollmentOutcomes.DeactivateRunExactly` | courses/api.py:201-235 | a run enrollment is left alone if and only if edX failed and failures are not kept; otherwise it is inactive with the given status, out of edX if that succeeded, and logged |
| `Enrollments.RetryAllFits` | courseware/api.py:693-741 | a retry sets `edx_enrolled` on exactly the records reported, all of them active and not enrolled in edX before, and changes no other |
| `EnrollmentOutcomes.RetryExactly` | courseware/api.py:693-741 | a retry reports, in order, exactly the due, active and unsynced records that edX takes or has already, before the first whose lookup raises, and is cut short if and only if there is such a one |
| `Enrollments.DeactivateProgramExactly` | courses/api.py:238-281 | exactly the program's run enrollments that can be dropped go inactive, and the program does if and only if there was one |
| `EnrollmentOutcomes.DeactivatedRunsOf` | courses/api.py:238-281 | exactly the program's active run enrollments that edX lets go or that are kept get the given status, and the others stay as they are |
| `EnrollmentOutcomes.DeactivationLeavesAlone` | courses/api.py:262-276 | other users, inactive records, runs of other programs and, if limited, other orders are left alone; every other run enrollment goes inactive if failures are kept |
| `OrderEnrollments.EnrollAllAddsPairs` | courses/api.py:129-157 | creating enrollments on an order adds exactly the pairs of the writable runs to the active ones, leaves active records alone, and gives each of those runs an active record on that order |
| `OrderEnrollments.FulfilmentEnrolls` | ecommerce/api.py:805-838 | for every outcome of edX, fulfilling an order adds to the shop's enrolled pairs exactly what run creation with failures kept adds to the active enrollments, on that order; an unexpected failure enrolls nobody and keeps the basket, with the order fulfilled |
| `Enrollments.DeferralKeepsSeat` | courses/api.py:284-355 | for every combination of failures, an active source leaves an active source or target; the source changes only once an active target on the same order exists; no third record changes |
| `EnrollmentOutcomes.DeferralChecksExactly` | courses/api.py:308-346 | a deferral passes its checks if and only if both runs exist and differ and the latest record for the source run, unless forced, is active and the target in its enrollment period and of the same course |
| `EnrollmentOutcomes.DeferralExactly` | courses/api.py:284-355 | how a deferral ends for every combination of failures: what it returns or raises, when, and what source and target then are |
| `EnrollmentOutcomes.CompletedDeferral` | courses/api.py:347-355 | a deferral that returns both enrollments has left the source inactive with status deferred and the target active on the source's order |
| `Enrollments.ApplyFits` | courses/models.py:864-874 | every enrollment change keeps the invariant of both tables |
| `Enrollments.ApplyAllFits` | courses/models.py:864-874 | over every run of changes: active exactly when the status is null, unbroken audit chains, distinct keys, no audit row lost and no change of a record unlogged |
| `EnrollmentRegistry.Registry.SaveRun` | mitxpro/models.py:125-146 | stores the record and appends the pair of stored states |
| `EnrollmentRegistry.Registry.EnrollInRun` | courses/api.py:131-147 | gets or creates the record and reactivates an inactive one |
| `EnrollmentRegistry.Registry.EnrollInRuns` | courses/api.py:129-157 | the loop is the creation of every writable record, in order |
| `EnrollmentRegistry.Registry.CreateRuns` | courses/api.py:90-158 | is run creation for every outcome of edX and of the local writes |
| `EnrollmentRegistry.Registry.EnrollInProgram` | courses/api.py:176-184 | gets or creates the program record and reactivates an inactive one |
| `EnrollmentRegistry.Registry.CreatePrograms` | courses/api.py:161-198 | the loop is the creation of every writable program record, in order |
| `EnrollmentRegistry.Registry.DropRun` | courses/api.py:201-235 | deactivates unless edX failed and failures are not kept |
| `EnrollmentRegistry.Registry.DropRunsOf` | courses/api.py:262-276 | the loop rewrites exactly the planned rows and tells whether there was one |
| `EnrollmentRegistry.Registry.DropProgram` | courses/api.py:238-281 | is program deactivation |
| `EnrollmentRegistry.Registry.DeferEnrollment` | courses/api.py:284-355 | is the deferral, for every combination of failures |
| `EnrollmentRegistry.Registry.RetryFailedEnrollments` | courseware/api.py:693-741 | the loop is the retry of every due record, in order |
| `HubspotSync.ChunksSpec` | hubspot_xpro/tasks.py:83-99 | chunks joined are the ids in order; none is empty or over the size |
| `HubspotSync.ChunksFull` | hubspot_xpro/tasks.py:83-99 | all chunks but the last are full |
| `HubspotSync.BatchedChunksSpec` | hubspot_xpro/tasks.py:83-99 | batches joined are the ids in order, with at most 10 contacts or 100 other ids in each, and all but the last full |
| `HubspotSync.ConcurrencyBounded` | hubspot_xpro/tasks.py:70-80 | the computed chunk size is the least that gives at most as many chunks as concurrent tasks, and is 0 only for no ids |
| `HubspotSync.UpsertAssociations` | hubspot_xpro/tasks.py:616-691 | submitted batches joined are the gathered associations in order, or a prefix if a rate limit ends the run early; none is empty, contact batches hold at most 100, and line batches too if orders have one line; a round of requests but the last is made for at least 100 |
| `HubspotSync.TakeOrder` | hubspot_xpro/tasks.py:626-690 | one turn of the loop gathers an order and submits if a batch is full or it is the last order |
| `HubspotSync.SubmitRound` | hubspot_xpro/tasks.py:655-690 | a round submits the lines and then the contacts, and ends early if and only if a request made raises |
| `HubspotSync.AddMappingSpec` | hubspot_xpro/tasks.py:419-456 | adding a pair keeps the map one-to-one, drops nothing, and succeeds exactly when it is there already or neither id is in use |
| `HubspotSync.RecordAllSpec` | hubspot_xpro/tasks.py:403-466 | over a whole response the map stays one-to-one, grows only by reported pairs, and refuses a result only for a conflict |
| `HubspotSync.IdTable.RecordCreated` | hubspot_xpro/tasks.py:403-466 | returns, in order, exactly the ids of the results that the final map holds as reported |
| `HubspotSync.MapContactSpec` | hubspot_xpro/api.py:206-236 | mapping a contact keeps the map one-to-one, leaves it unchanged on a conflict, and touches no other user's row |
| `HubspotSync.MapContactsSpec` | hubspot_xpro/api.py:206-236 | over all contacts the map stays one-to-one, no mapped user becomes unmapped, and new rows pair a contact with its user |
| `HubspotSync.MapContactsTakes` | hubspot_xpro/api.py:206-236 | a known user ends mapped unless the contact's id was another user's at its turn, and to the id of the user's last contact if that was free |
| `HubspotSync.RowsCountObjects` | hubspot_xpro/api.py:237-240 | a one-to-one map has as many rows as mapped objects |
| `HubspotSync.IdTable.SyncContacts` | hubspot_xpro/api.py:195-240 | when mapped ids are existing users, it returns True if and only if every user is mapped |
| `HubspotSync.IdTable.IdForObject` | hubspot_xpro/api.py:403-474 | a mapped object's id is returned unchanged; a found id is returned in any case and recorded only if that keeps the map one-to-one |
| `Signing.SplitJoin` | ecommerce/api.py:229-242 | splitting undoes joining when there is a part and no part holds a comma |
| `Signing.JoinSplit` | ecommerce/api.py:182-190 | joining undoes splitting for every text |
| `Signing.SortNamesSorted` | ecommerce/api.py:238-240 | the signed names are the given names, in order |
| `Signing.FieldsAre` | ecommerce/api.py:182-190 | the text to sign has one part for each name, in order: the name, an equals sign, and the value |
| `Signing.SignedPayloadVerifies` | ecommerce/permissions.py:18-31 | a payload whose keys hold no comma and are not reserved is signed over exactly its keys and "signed_field_names", keeps its fields, and passes verification |
| `Signing.SigningExactly` | ecommerce/api.py:174-193 | signing succeeds if and only if every name read back from the joined list is a field |
| `Signing.TextsAgreeExactly` | ecommerce/api.py:174-193 | two payloads that differ at most in one signed field give the same text to sign if and only if they are the same |
| `Signing.VerifiesExactly` | ecommerce/permissions.py:18-31 | for every digest, a payload just signed passes verification if and only if "signature" is not a signed name or the digests of the text signed and of the text verified are equal |
| `Signing.VerifiesOnly` | ecommerce/permissions.py:18-31 | a payload verifies if and only if it has a signature and every named field, and the signature is the digest of those |
| `Signing.TamperedPayloadRefused` | ecommerce/permissions.py:18-31 | a payload that verifies, with another value in a signed field, is checked against another text and so verifies only by a collision of the digest; with another signature it is refused |
| `Signing.ResigningFails` | ecommerce/api.py:229-242 | signing a payload that has a "signature" field can produce one that is refused |

## Left out

- Machine.FreeRedemptionsKeepLimits: two requests that interleave inside one another are not modelled, because a request is one step.
- Orders.FirstMessageDecides: an exception that stops a completion between deleting the basket and answering changes no table, so it is not told apart from a completion that ends; an exception before the status is saved leaves the message unhandled.
- Machine.StepFits: refunds are only given to fulfilled orders.
- BulkRuns.CodesMatchFulfilledSeats: B2B coupons are made by hand before the run, and refunds of bulk orders, which no endpoint makes, are not modelled.
- Money.HalfEvenSpec: Decimal's limit of 28 significant digits is not modelled; arithmetic is exact.
- References.ParseIntPrint: `int()` is modelled on ASCII text; other Unicode digits and spaces are left out, and the case-insensitive comparison of contract numbers is on ASCII letters.
- Coupons.ValidVersionsSpec: a call without a product, and ties of creation time, are left out.
- Baskets.NextBasketFits: products are named by numeric id and program runs are given already looked up; the lookup by readable id depends on how the database orders nulls.
- HubspotSync.IdTable.SyncContacts: matching a contact's email addresses to a user, and reading an object's id out of a response, are inputs.
- Signing.SignedPayloadVerifies: the contents of the payload other than its keys and the amount fields are left out.
- Vouchers, affiliates, assignments of codes to people, creation of consent records, certificates and grades: thin logic beside the checkout.
- HubSpot and edX calls, emails, Celery scheduling, OAuth, HTTP parsing: only their outcomes appear.
- Visitor country and the tax rate it leads to: inputs, because they come from the profile and an IP lookup.
- CMS pages, templates and sheets: no state that checkout depends on.
- The Django admin: rows edited by hand can break what requests keep; PromoTerms.AutoAppliedCanFail shows one such case.
