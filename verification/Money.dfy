/**
 * Prices, discounts and taxes, in integers: money in cents, a discount amount times 10^5,
 * a tax rate (a percentage) times 10^4.
 */
module Money {
  import opened Prelude

  datatype DiscountType = PercentOff | DollarsOff | OtherDiscount

  const AMOUNT_SCALE := 100_000      // discount amounts carry five decimal places
  const CENTS_PER_AMOUNT := 1_000    // amount units in one cent
  const MICRO := 1_000_000           // tax units in one cent: rate scale 10^4 times percent 10^2

  function Abs(n: int): int {
    if n < 0 then -n else n
  }

  // ----------------------------------------------------------------------------------------
  // Rounding n/d to an integer
  // ----------------------------------------------------------------------------------------

  /** ROUND_HALF_UP: a tie goes away from zero. */
  function HalfUp(n: int, d: int): int
    requires d > 0
  {
    if n >= 0 then (2 * n + d) / (2 * d) else -((2 * -n + d) / (2 * d))
  }

  /** ROUND_HALF_EVEN, the default of Decimal.quantize: a tie goes to the even neighbour. */
  function HalfEven(n: int, d: int): int
    requires d > 0
  {
    var floor := n / d;
    var rest := n % d;
    if 2 * rest < d || (2 * rest == d && floor % 2 == 0) then floor else floor + 1
  }

  ghost predicate IsTie(n: int, d: int)
    requires d > 0
  {
    2 * (n % d) == d
  }

  /** r is an integer nearest to n/d. */
  ghost predicate IsNearest(n: int, d: int, r: int) {
    2 * Abs(n - d * r) <= d
  }

  lemma DivBounds(n: int, d: int)
    requires d > 0
    ensures d * (n / d) <= n < d * (n / d) + d
    ensures n == d * (n / d) + n % d && 0 <= n % d < d
  {
  }

  lemma MulOrder(d: int, x: int, y: int)
    requires d > 0 && x < y
    ensures d * x + d <= d * y
  {
    assert d * y == d * x + d + d * (y - x - 1);
    assert d * (y - x - 1) >= 0;
  }

  /** A neighbour of the floor is the only candidate for nearest. */
  lemma NearestCandidates(n: int, d: int, r: int)
    requires d > 0 && IsNearest(n, d, r)
    ensures r == n / d || r == n / d + 1
  {
    var floor := n / d;
    DivBounds(n, d);
    if r < floor {
      MulOrder(d, r, floor);
    } else if r > floor + 1 {
      MulOrder(d, floor + 1, r);
    }
  }

  lemma {:induction false} HalfEvenSpec(n: int, d: int, r: int)
    requires d > 0
    ensures r == HalfEven(n, d) <==> IsNearest(n, d, r) && (2 * Abs(n - d * r) == d ==> r % 2 == 0)
  {
    DivBounds(n, d);
    if IsNearest(n, d, r) {
      NearestCandidates(n, d, r);
    }
  }

  lemma HalfUpNonNegative(n: int, d: int, r: int)
    requires d > 0 && n >= 0
    ensures r == HalfUp(n, d) <==> 2 * d * r <= 2 * n + d < 2 * d * r + 2 * d
  {
    var h := HalfUp(n, d);
    DivBounds(2 * n + d, 2 * d);
    if 2 * d * r <= 2 * n + d < 2 * d * r + 2 * d {
      if r < h {
        MulOrder(2 * d, r, h);
      } else if h < r {
        MulOrder(2 * d, h, r);
      }
    }
  }

  lemma HalfUpSymmetric(n: int, d: int)
    requires d > 0
    ensures HalfUp(-n, d) == -HalfUp(n, d)
  {
    if n == 0 {
      assert d / (2 * d) == 0;
    }
  }

  lemma {:induction false} HalfUpSpec(n: int, d: int, r: int)
    requires d > 0
    ensures r == HalfUp(n, d) <==>
              IsNearest(n, d, r) && (2 * Abs(n - d * r) == d ==> Abs(d * r) > Abs(n))
    decreases n < 0
  {
    if n < 0 {
      HalfUpSpec(-n, d, -r);
      HalfUpSymmetric(n, d);
      assert d * -r == -(d * r);
    } else {
      HalfUpNonNegative(n, d, r);
      var m := d * r;
      assert 2 * d * r == 2 * m;
      if r < 0 {
        MulOrder(d, r, 0);
      } else if r > 0 {
        MulOrder(d, 0, r);
      }
      assert m <= -d || m >= 0;
    }
  }

  lemma HalfUpMonotone(m: int, n: int, d: int)
    requires d > 0 && 0 <= m <= n
    ensures 0 <= HalfUp(m, d) <= HalfUp(n, d)
  {
    var h, k := HalfUp(m, d), HalfUp(n, d);
    HalfUpNonNegative(m, d, h);
    HalfUpNonNegative(n, d, k);
    if k < h {
      MulOrder(2 * d, k, h);
    }
    if h < 0 {
      MulOrder(2 * d, h, 0);
    }
  }

  lemma HalfUpExact(k: int, d: int)
    requires d > 0
    ensures HalfUp(d * k, d) == k
  {
    HalfUpSpec(d * k, d, k);
  }

  // ----------------------------------------------------------------------------------------
  // Discounts
  // ----------------------------------------------------------------------------------------

  function DiscountAmount(kind: DiscountType, amount: int, price: int): int {
    if price == 0 then 0
    else match kind
      case PercentOff => HalfUp(amount * price, AMOUNT_SCALE)
      case DollarsOff => HalfUp(amount, CENTS_PER_AMOUNT)
      case OtherDiscount => 0
  }

  function PositiveOrZero(n: int): int {
    if n < 0 then 0 else n
  }

  function DiscountedPrice(kind: DiscountType, amount: int, price: int): int {
    PositiveOrZero(price - DiscountAmount(kind, amount, price))
  }

  /** validate_amount reports no error. */
  predicate ValidAmount(kind: DiscountType, amount: int) {
    amount > 0 && (kind == PercentOff ==> amount <= AMOUNT_SCALE)
  }

  /** The condition get_valid_coupon_versions puts on a version under full_discount. */
  predicate PassesFullDiscount(kind: DiscountType, amount: int, price: Option<int>) {
    match price
    case None => amount == AMOUNT_SCALE
    case Some(p) =>
      (kind == PercentOff && amount == AMOUNT_SCALE) ||
      (kind == DollarsOff && amount >= p * CENTS_PER_AMOUNT)
  }

  lemma ScaleMonotone(a: int, b: int, price: int)
    requires 0 <= a <= b && price >= 0
    ensures 0 <= a * price <= b * price
  {
  }

  /** A valid discount never exceeds the price by more than the clamp handles; percent-off needs no clamp. */
  lemma {:induction false} DiscountedPriceBounds(kind: DiscountType, amount: int, price: int)
    requires ValidAmount(kind, amount) && price >= 0
    ensures 0 <= DiscountAmount(kind, amount, price)
    ensures 0 <= DiscountedPrice(kind, amount, price) <= price
    ensures kind == PercentOff ==>
              DiscountedPrice(kind, amount, price) == price - DiscountAmount(kind, amount, price)
  {
    match kind
    case PercentOff =>
      ScaleMonotone(amount, AMOUNT_SCALE, price);
      HalfUpMonotone(amount * price, AMOUNT_SCALE * price, AMOUNT_SCALE);
      HalfUpExact(price, AMOUNT_SCALE);
    case DollarsOff =>
      HalfUpMonotone(0, amount, CENTS_PER_AMOUNT);
    case OtherDiscount =>
  }

  /**
   * What a valid discount takes off a positive price: for percent-off the cents nearest to that part
   * of the price, for dollars-off the cents nearest to the amount as far as the price goes, a tie
   * going up; nothing for another type.
   */
  lemma {:induction false} DiscountedPriceExactly(kind: DiscountType, amount: int, price: int, off: int)
    requires ValidAmount(kind, amount) && price > 0
    ensures kind == PercentOff ==>
              (DiscountedPrice(kind, amount, price) == price - off <==>
                 IsNearest(amount * price, AMOUNT_SCALE, off)
                 && (2 * Abs(amount * price - AMOUNT_SCALE * off) == AMOUNT_SCALE ==>
                       AMOUNT_SCALE * off > amount * price))
    ensures kind == DollarsOff && IsNearest(amount, CENTS_PER_AMOUNT, off)
            && (2 * Abs(amount - CENTS_PER_AMOUNT * off) == CENTS_PER_AMOUNT ==> CENTS_PER_AMOUNT * off > amount) ==>
              DiscountedPrice(kind, amount, price) == if off <= price then price - off else 0
    ensures kind == OtherDiscount ==> DiscountedPrice(kind, amount, price) == price
  {
    DiscountedPriceBounds(kind, amount, price);
    match kind
    case PercentOff =>
      ScaleMonotone(0, amount, price);
      HalfUpSpec(amount * price, AMOUNT_SCALE, off);
    case DollarsOff =>
      HalfUpSpec(amount, CENTS_PER_AMOUNT, off);
    case OtherDiscount =>
  }

  lemma {:induction false} DiscountedPriceAntitone(kind: DiscountType, a: int, b: int, price: int)
    requires 0 <= a <= b && price >= 0
    ensures DiscountedPrice(kind, b, price) <= DiscountedPrice(kind, a, price)
  {
    match kind
    case PercentOff =>
      ScaleMonotone(a, b, price);
      HalfUpMonotone(a * price, b * price, AMOUNT_SCALE);
    case DollarsOff =>
      HalfUpMonotone(a, b, CENTS_PER_AMOUNT);
    case OtherDiscount =>
  }

  /** Exactly which valid discounts make a product free. */
  lemma {:induction false} FreeExactly(kind: DiscountType, amount: int, price: int)
    requires ValidAmount(kind, amount) && price >= 0
    ensures DiscountedPrice(kind, amount, price) == 0 <==>
              (price == 0
              || (kind == PercentOff && 2 * price * (AMOUNT_SCALE - amount) <= AMOUNT_SCALE)
              || (kind == DollarsOff && 2 * amount >= CENTS_PER_AMOUNT * (2 * price - 1)))
  {
    DiscountedPriceBounds(kind, amount, price);
    if price > 0 {
      match kind
      case PercentOff =>
        ScaleMonotone(0, amount, price);
        var h := HalfUp(amount * price, AMOUNT_SCALE);
        HalfUpNonNegative(amount * price, AMOUNT_SCALE, h);
        HalfUpNonNegative(amount * price, AMOUNT_SCALE, price);
      case DollarsOff =>
        HalfUpNonNegative(amount, CENTS_PER_AMOUNT, HalfUp(amount, CENTS_PER_AMOUNT));
      case OtherDiscount =>
    }
  }

  /** Every version that passes the full-discount filter at a known price is free at that price. */
  lemma {:induction false} FullDiscountIsFree(kind: DiscountType, amount: int, price: int)
    requires price >= 0 && PassesFullDiscount(kind, amount, Some(price))
    ensures DiscountedPrice(kind, amount, price) == 0
  {
    if price > 0 {
      FreeExactly(kind, amount, price);
    }
  }

  /**
   * Exactly which valid discounts are free at a known price and yet fail the filter: less than 100%
   * off that rounds to the price or meets a price of zero, dollars off that round up to the price, and
   * a discount of another type on a price of zero.
   */
  lemma {:induction false} FilterMissesExactly(kind: DiscountType, amount: int, price: int)
    requires ValidAmount(kind, amount) && price >= 0
    ensures DiscountedPrice(kind, amount, price) == 0 && !PassesFullDiscount(kind, amount, Some(price)) <==>
              match kind
              case PercentOff => amount < AMOUNT_SCALE && 2 * price * (AMOUNT_SCALE - amount) <= AMOUNT_SCALE
              case DollarsOff =>
                CENTS_PER_AMOUNT * (2 * price - 1) <= 2 * amount && amount < price * CENTS_PER_AMOUNT
              case OtherDiscount => price == 0
  {
    FreeExactly(kind, amount, price);
  }

  /**
   * Exactly when a valid discount passes the filter because the price is unknown and is not free at
   * the price that comes out: one dollar off more than a dollar, or another type at a positive price.
   */
  lemma {:induction false} UnknownPricePassesExactly(kind: DiscountType, amount: int, price: int)
    requires ValidAmount(kind, amount) && price >= 0
    ensures PassesFullDiscount(kind, amount, None) && DiscountedPrice(kind, amount, price) != 0 <==>
              amount == AMOUNT_SCALE && ((kind == DollarsOff && price > 100) || (kind == OtherDiscount && price > 0))
  {
    FreeExactly(kind, amount, price);
  }

  /** For instance 99.999% off one dollar, and one dollar off a two-dollar product. */
  lemma FullDiscountIncomplete()
    ensures ValidAmount(PercentOff, 99_999) && DiscountedPrice(PercentOff, 99_999, 100) == 0
    ensures !PassesFullDiscount(PercentOff, 99_999, Some(100))
    ensures PassesFullDiscount(DollarsOff, AMOUNT_SCALE, None)
    ensures DiscountedPrice(DollarsOff, AMOUNT_SCALE, 200) == 100
  {
  }

  /** 100% off costs nothing at any price. */
  lemma FullPercentIsFree(price: int)
    ensures DiscountedPrice(PercentOff, AMOUNT_SCALE, price) == 0
  {
    HalfUpExact(price, AMOUNT_SCALE);
  }

  // ----------------------------------------------------------------------------------------
  // Order totals
  // ----------------------------------------------------------------------------------------

  /** One order line: list price, price after discount, and quantity. */
  datatype PricedLine = PricedLine(list: int, price: int, quantity: nat)

  /** Tax on a price, in millionths of a cent (the exact value of price * rate / 100). */
  function TaxAssessed(price: int, rate: int): int {
    if rate == 0 then 0 else price * rate
  }

  /** Tax adds up over prices, and a rate of 100% taxes exactly the price. */
  lemma TaxIsProportional(price: int, other: int, rate: int)
    ensures TaxAssessed(price + other, rate) == TaxAssessed(price, rate) + TaxAssessed(other, rate)
    ensures TaxAssessed(price, 1_000_000) == MICRO * price
    ensures 1_000_000 * TaxAssessed(price, rate) == rate * TaxAssessed(price, 1_000_000)
  {
    assert (price + other) * rate == price * rate + other * rate;
  }

  datatype Payload = Payload(amount: int, taxAmount: int)

  datatype ReceiptLine = ReceiptLine(totalPaid: int, taxPaid: int, discount: int, totalBeforeTax: int)

  function LinePrices(lines: seq<PricedLine>): seq<int> {
    seq(|lines|, i requires 0 <= i < |lines| => lines[i].price)
  }

  function LineTaxes(lines: seq<PricedLine>, rate: int): seq<int> {
    seq(|lines|, i requires 0 <= i < |lines| => TaxAssessed(lines[i].price, rate))
  }

  /** The amount fields of the CyberSource payload. */
  method PayloadTotals(lines: seq<PricedLine>, rate: int) returns (payload: Payload)
    ensures payload.amount == HalfEven(MICRO * Sum(LinePrices(lines)) + Sum(LineTaxes(lines, rate)), MICRO)
    ensures payload.taxAmount == HalfEven(Sum(LineTaxes(lines, rate)), MICRO)
  {
    var total, totalTax := 0, 0;
    for i := 0 to |lines|
      invariant total == Sum(LinePrices(lines[..i]))
      invariant totalTax == Sum(LineTaxes(lines[..i], rate))
    {
      assert LinePrices(lines[..i + 1]) == LinePrices(lines[..i]) + [lines[i].price];
      assert LineTaxes(lines[..i + 1], rate)
          == LineTaxes(lines[..i], rate) + [TaxAssessed(lines[i].price, rate)];
      SumAppend(LinePrices(lines[..i]), lines[i].price);
      SumAppend(LineTaxes(lines[..i], rate), TaxAssessed(lines[i].price, rate));
      total := total + lines[i].price;
      totalTax := totalTax + TaxAssessed(lines[i].price, rate);
    }
    assert lines[..|lines|] == lines;
    payload := Payload(HalfEven(MICRO * total + totalTax, MICRO), HalfEven(totalTax, MICRO));
  }

  function Receipt(line: PricedLine, rate: int): ReceiptLine {
    var taxPaid := HalfEven(TaxAssessed(line.price, rate) * line.quantity, MICRO);
    var totalPrice := line.price * line.quantity;
    var totalPaid := totalPrice + taxPaid;
    ReceiptLine(totalPaid, taxPaid, line.list * line.quantity - totalPrice, totalPaid - taxPaid)
  }

  /** OrderReceiptSerializer.get_lines: one receipt line per order line, in order. */
  method ReceiptLines(lines: seq<PricedLine>, rate: int) returns (receipt: seq<ReceiptLine>)
    ensures |receipt| == |lines|
    ensures forall i :: 0 <= i < |lines| ==>
              receipt[i] == Receipt(lines[i], rate)
              && receipt[i].discount + receipt[i].totalBeforeTax == lines[i].list * lines[i].quantity
              && receipt[i].totalBeforeTax == lines[i].price * lines[i].quantity
              && receipt[i].totalPaid == receipt[i].totalBeforeTax + receipt[i].taxPaid
              && receipt[i].taxPaid == HalfEven(TaxAssessed(lines[i].price, rate) * lines[i].quantity, MICRO)
  {
    receipt := [];
    for i := 0 to |lines|
      invariant |receipt| == i
      invariant forall j :: 0 <= j < i ==> receipt[j] == Receipt(lines[j], rate)
    {
      receipt := receipt + [Receipt(lines[i], rate)];
    }
  }

  lemma DivShift(n: int, d: int, k: int)
    requires d > 0
    ensures (d * k + n) / d == k + n / d && (d * k + n) % d == n % d
  {
    DivBounds(n, d);
    DivBounds(d * k + n, d);
    var q := (d * k + n) / d;
    assert d * (k + n / d) == d * k + d * (n / d);
    if q < k + n / d {
      MulOrder(d, q, k + n / d);
    } else if k + n / d < q {
      MulOrder(d, k + n / d, q);
    }
  }

  /** Shifting by whole units shifts half-even rounding, except that an odd shift flips a tie. */
  lemma {:induction false} HalfEvenShift(n: int, d: int, k: int)
    requires d > 0
    ensures HalfEven(d * k + n, d) ==
              if IsTie(n, d) && k % 2 != 0
              then k + HalfEven(n, d) + (if HalfEven(n, d) == n / d then 1 else -1)
              else k + HalfEven(n, d)
  {
    DivShift(n, d, k);
  }

  lemma HalfEvenMonotone(m: int, n: int, d: int)
    requires d > 0 && m <= n
    ensures HalfEven(m, d) <= HalfEven(n, d)
  {
    DivBounds(m, d);
    DivBounds(n, d);
    if n / d < m / d {
      MulOrder(d, n / d, m / d);
    } else if m / d == n / d {
      assert m % d <= n % d;
    }
  }

  /** The condition under which payload and receipt of a single unit differ. */
  ghost predicate IsOneCentOff(price: int, rate: int) {
    IsTie(TaxAssessed(price, rate), MICRO) && price % 2 != 0
  }

  lemma SingleLineTotals(line: PricedLine, rate: int)
    ensures Sum(LinePrices([line])) == line.price
    ensures Sum(LineTaxes([line], rate)) == TaxAssessed(line.price, rate)
  {
    assert LinePrices([line]) == [line.price];
    assert LineTaxes([line], rate) == [TaxAssessed(line.price, rate)];
  }

  /**
   * For a single line of quantity one, what CyberSource is asked to charge is what the receipt says
   * was paid, except by exactly one cent when the tax is a half-cent tie and the price is odd.
   */
  lemma {:induction false} PayloadMatchesReceipt(line: PricedLine, rate: int, payload: Payload)
    requires line.quantity == 1
    requires payload.amount == HalfEven(MICRO * Sum(LinePrices([line])) + Sum(LineTaxes([line], rate)), MICRO)
    requires payload.taxAmount == HalfEven(Sum(LineTaxes([line], rate)), MICRO)
    ensures payload.taxAmount == Receipt(line, rate).taxPaid
    ensures payload.amount == Receipt(line, rate).totalPaid <==> !IsOneCentOff(line.price, rate)
    ensures IsOneCentOff(line.price, rate) ==> Abs(payload.amount - Receipt(line, rate).totalPaid) == 1
  {
    SingleLineTotals(line, rate);
    HalfEvenShift(TaxAssessed(line.price, rate), MICRO, line.price);
  }

  /** Tax on at least two units, against the tax on one with a tie rounded up. */
  lemma TaxOnMore(tax: int, quantity: nat)
    requires tax >= 0 && quantity >= 2
    ensures HalfEven(tax * quantity, MICRO) >= HalfEven(tax, MICRO)
    ensures IsTie(tax, MICRO) ==> HalfEven(tax * quantity, MICRO) >= tax / MICRO + 1
  {
    var more := tax * (quantity - 2);
    assert more >= 0 && tax * quantity == 2 * tax + more;
    HalfEvenMonotone(tax, tax * quantity, MICRO);
    HalfEvenMonotone(2 * tax, tax * quantity, MICRO);
    if IsTie(tax, MICRO) {
      DivBounds(tax, MICRO);
      assert 2 * tax == MICRO * (2 * (tax / MICRO) + 1);
      HalfEvenExact(2 * (tax / MICRO) + 1, MICRO);
      assert tax / MICRO >= 0;
    }
  }

  lemma HalfEvenExact(k: int, d: int)
    requires d > 0
    ensures HalfEven(d * k, d) == k
  {
    DivShift(0, d, k);
  }

  /** What one unit is charged is at most its price and the tax, with a tie rounded up. */
  lemma ChargeAtMost(price: int, tax: int)
    ensures HalfEven(MICRO * price + tax, MICRO)
         <= price + (if IsTie(tax, MICRO) then tax / MICRO + 1 else HalfEven(tax, MICRO))
  {
    HalfEvenShift(tax, MICRO, price);
  }

  /** How the charge for a line compares with what the receipt says, by quantity. */
  ghost predicate ComparesByQuantity(price: int, tax: int, quantity: nat) {
    var charged := HalfEven(MICRO * price + tax, MICRO);
    var paid := price * quantity + HalfEven(tax * quantity, MICRO);
    && (quantity > 1 ==> charged < paid)
    && (quantity == 0 ==> charged > paid)
    && (charged == paid <==> quantity == 1 && !(IsTie(tax, MICRO) && price % 2 != 0))
  }

  lemma ChargeAgainstReceipt(price: int, tax: int, quantity: nat)
    requires price > 0 && tax >= 0
    ensures ComparesByQuantity(price, tax, quantity)
  {
    if quantity == 0 {
      NoUnits(price, tax);
      assert price * quantity == 0 && tax * quantity == 0;
    } else if quantity == 1 {
      HalfEvenShift(tax, MICRO, price);
      assert price * quantity == price && tax * quantity == tax;
    } else {
      MoreUnits(price, tax, quantity);
    }
  }

  lemma NoUnits(price: int, tax: int)
    requires price > 0 && tax >= 0
    ensures HalfEven(MICRO * price + tax, MICRO) > 0 == HalfEven(0, MICRO)
  {
    HalfEvenExact(1, MICRO);
    HalfEvenMonotone(MICRO * 1, MICRO * price + tax, MICRO);
  }

  /**
   * The payload ignores the quantity: at a positive price, more than one unit is charged less than
   * the receipt says was paid, and an empty line more. So only quantity one can agree.
   */
  lemma {:induction false} PayloadIgnoresQuantity(line: PricedLine, rate: int)
    requires line.price > 0 && rate >= 0
    ensures var charged := HalfEven(MICRO * Sum(LinePrices([line])) + Sum(LineTaxes([line], rate)), MICRO);
            var paid := Receipt(line, rate).totalPaid;
            && (line.quantity > 1 ==> charged < paid)
            && (line.quantity == 0 ==> charged > paid)
            && (charged == paid <==> line.quantity == 1 && !IsOneCentOff(line.price, rate))
  {
    SingleLineTotals(line, rate);
    assert TaxAssessed(line.price, rate) >= 0;
    ChargeAgainstReceipt(line.price, TaxAssessed(line.price, rate), line.quantity);
  }

  lemma MoreUnits(price: int, tax: int, quantity: nat)
    requires price > 0 && tax >= 0 && quantity > 1
    ensures HalfEven(MICRO * price + tax, MICRO) < price * quantity + HalfEven(tax * quantity, MICRO)
  {
    TaxOnMore(tax, quantity);
    ChargeAtMost(price, tax);
    MulOrder(price, 1, quantity);
  }

  /** A free line is charged and receipted at zero, whatever its quantity and tax rate. */
  lemma FreePayloadMatchesReceipt(line: PricedLine, rate: int)
    requires line.price == 0
    ensures HalfEven(MICRO * Sum(LinePrices([line])) + Sum(LineTaxes([line], rate)), MICRO) == 0
    ensures Receipt(line, rate).totalPaid == 0
  {
    SingleLineTotals(line, rate);
    assert 0 * line.quantity == 0;
  }

  /** One unit at 0.01 with tax rate 50% is charged 0.02, and the receipt says 0.01. */
  lemma PayloadOneCentOff()
    ensures HalfEven(MICRO * 1 + TaxAssessed(1, 500_000), MICRO) == 2
    ensures Receipt(PricedLine(1, 1, 1), 500_000).totalPaid == 1
  {
  }
}
