/** Digest amounts to minor units: exact decimals, banker's rounding, the 64-bit range. */
module Money {
  import opened Wrappers
  import opened Text

  /** The number `mantissa / 10^scale`. */
  datatype Decimal = Decimal(mantissa: int, scale: nat)

  function Pow10(n: nat): (p: int)
    ensures p >= 1
  {
    if n == 0 then 1 else 10 * Pow10(n - 1)
  }

  function Value(d: Decimal): real { d.mantissa as real / Pow10(d.scale) as real }

  /** `round`: the nearest integer, a tie to the even one. */
  function Nearest(x: real): int
  {
    var f := x.Floor;
    var rest := x - f as real;
    if rest < 0.5 then f
    else if rest > 0.5 then f + 1
    else if f % 2 == 0 then f
    else f + 1
  }

  function Scaled(d: Decimal, digits: nat): real { Value(d) * Pow10(digits) as real }

  /** The amount times 10^digits, rounded. */
  function MinorUnits(d: Decimal, digits: nat): int { Nearest(Scaled(d, digits)) }

  // ----- what rounding means -----

  /** Within half a unit of `x`, and even when exactly half a unit away. */
  predicate IsNearest(r: int, x: real)
  {
    var gap := x - r as real;
    -0.5 <= gap <= 0.5 && (gap == 0.5 || gap == -0.5 ==> r % 2 == 0)
  }

  /** Rounding gives the one nearest integer. */
  lemma NearestIsNearest(x: real, r: int)
    ensures IsNearest(r, x) <==> r == Nearest(x)
  {
  }

  lemma NearestMonotone(x: real, y: real)
    requires x <= y
    ensures Nearest(x) <= Nearest(y)
  {
  }

  lemma NearestOdd(x: real)
    ensures Nearest(-x) == -Nearest(x)
  {
  }

  /** Rounding two numbers apart differs from rounding their sum by at most one. */
  lemma NearestSum(x: real, y: real)
    ensures -1 <= Nearest(x) + Nearest(y) - Nearest(x + y) <= 1
  {
  }

  // ----- amounts -----

  lemma Cancel(x: real, y: real, d: real)
    requires d > 0.0
    ensures x <= y <==> x * d <= y * d
  {
  }

  /** Amounts compare as their values, whatever scale they are written with. */
  lemma MinorMonotone(a: Decimal, b: Decimal, digits: nat)
    requires Value(a) <= Value(b)
    ensures MinorUnits(a, digits) <= MinorUnits(b, digits)
  {
    hide Nearest, Value, Pow10;
    Cancel(Value(a), Value(b), Pow10(digits) as real);
    NearestMonotone(Scaled(a, digits), Scaled(b, digits));
  }

  lemma MinorOdd(d: Decimal, digits: nat)
    ensures MinorUnits(Decimal(-d.mantissa, d.scale), digits) == -MinorUnits(d, digits)
  {
    hide Nearest, Scaled;
    ScaledNegated(d, digits);
    NearestOdd(Scaled(d, digits));
  }

  lemma ScaledNegated(d: Decimal, digits: nat)
    ensures Scaled(Decimal(-d.mantissa, d.scale), digits) == -Scaled(d, digits)
  {
  }

  lemma {:induction false} Pow10Sum(m: nat, n: nat)
    ensures Pow10(m + n) == Pow10(m) * Pow10(n)
  {
    if m == 0 {
    } else {
      Pow10Sum(m - 1, n);
    }
  }

  lemma FactorOut(m: real, s: real, k: real)
    requires s > 0.0
    ensures m / s * (s * k) == m * k
  {
  }

  /** An amount with no more decimals than the currency has converts without rounding. */
  lemma MinorExact(d: Decimal, digits: nat)
    requires d.scale <= digits
    ensures MinorUnits(d, digits) == d.mantissa * Pow10(digits - d.scale)
  {
    hide Nearest, Scaled;
    ScaledExact(d, digits);
    NearestOfInt(d.mantissa * Pow10(digits - d.scale));
  }

  lemma ScaledExact(d: Decimal, digits: nat)
    requires d.scale <= digits
    ensures Scaled(d, digits) == (d.mantissa * Pow10(digits - d.scale)) as real
  {
    hide Pow10;
    var s, k := Pow10(d.scale), Pow10(digits - d.scale);
    Pow10Sum(d.scale, digits - d.scale);
    Times(s, k);
    Times(d.mantissa, k);
    FactorOut(d.mantissa as real, s as real, k as real);
  }

  lemma Times(a: int, b: int)
    ensures (a * b) as real == a as real * b as real
  {
  }

  lemma NearestOfInt(n: int)
    ensures Nearest(n as real) == n
  {
  }

  /** Rounding net and VAT apart moves the gross by at most one minor unit. */
  lemma GrossWithinOne(net: Decimal, vat: Decimal, gross: Decimal, digits: nat)
    requires Value(gross) == Value(net) + Value(vat)
    ensures -1 <= MinorUnits(net, digits) + MinorUnits(vat, digits) - MinorUnits(gross, digits) <= 1
  {
    hide Nearest, Scaled;
    ScaledSum(net, vat, gross, digits);
    NearestSum(Scaled(net, digits), Scaled(vat, digits));
  }

  lemma ScaledSum(net: Decimal, vat: Decimal, gross: Decimal, digits: nat)
    requires Value(gross) == Value(net) + Value(vat)
    ensures Scaled(gross, digits) == Scaled(net, digits) + Scaled(vat, digits)
  {
  }

  // ----- decimal_to_minor -----

  /** An amount field once trimmed and handed to the decimal parser. */
  datatype Amount = Blank | Malformed | Number(value: Decimal)

  datatype AmountError = NotADecimal | UnknownCurrency | OutOfRange

  const MIN_I64 := -0x8000_0000_0000_0000
  const MAX_I64 := 0x7FFF_FFFF_FFFF_FFFF

  predicate InI64(n: int) { MIN_I64 <= n <= MAX_I64 }

  function Digits(currency: string): Option<nat>
  {
    if currency == "HUF" then Some(0) else if currency == "EUR" then Some(2) else None
  }

  function DecimalToMinor(a: Amount, currency: string): Result<int, AmountError>
  {
    match a
    case Blank => Ok(0)
    case Malformed => Err(NotADecimal)
    case Number(d) =>
      if Digits(currency).None? then Err(UnknownCurrency)
      else
        var r := MinorUnits(d, Digits(currency).value);
        if InI64(r) then Ok(r) else Err(OutOfRange)
  }

  /** `m` forints and `m` euro cents come back as `m`. */
  lemma MinorUnitsRoundTrip(m: int)
    requires -0x8000_0000_0000_0000 <= m <= 0x7FFF_FFFF_FFFF_FFFF
    ensures DecimalToMinor(Number(Decimal(m, 0)), "HUF") == Ok(m)
    ensures DecimalToMinor(Number(Decimal(m, 2)), "EUR") == Ok(m)
  {
    hide MinorUnits;
    MinorExact(Decimal(m, 0), 0);
    MinorExact(Decimal(m, 2), 2);
  }

  /** What is accepted, and as what: forints are rounded whole, euros are rounded to the cent. */
  lemma AcceptedMeans(a: Amount, currency: string, r: int)
    requires currency in {"HUF", "EUR"}
    ensures DecimalToMinor(a, currency) == Ok(r) <==>
      -0x8000_0000_0000_0000 <= r <= 0x7FFF_FFFF_FFFF_FFFF
      && match a
         case Blank => r == 0
         case Malformed => false
         case Number(d) => IsNearest(r, if currency == "EUR" then Value(d) * 100.0 else Value(d))
  {
    hide Value, IsNearest, Nearest;
    if a.Number? {
      assert Pow10(0) == 1 && Pow10(2) == 100;
      hide Pow10;
      NearestIsNearest(if currency == "EUR" then Value(a.value) * 100.0 else Value(a.value), r);
    }
  }

  /** Why an amount is refused. */
  lemma AmountRefused(a: Amount, currency: string)
    ensures DecimalToMinor(a, currency) == Err(NotADecimal) <==> a.Malformed?
    ensures DecimalToMinor(a, currency) == Err(UnknownCurrency) <==> a.Number? && currency !in {"HUF", "EUR"}
    ensures DecimalToMinor(a, currency) == Err(OutOfRange) <==>
      a.Number? && currency in {"HUF", "EUR"} && !InI64(Nearest(Exact(Some(a), currency)))
  {
    hide Nearest, Value;
    if a.Number? {
      assert Pow10(0) == 1 && Pow10(2) == 100;
    }
  }

  /** How an amount is written: its mantissa at scale 0, and one more decimal place is a tenth. */
  lemma ValueScales(m: int, s: nat)
    ensures Value(Decimal(m, 0)) == m as real
    ensures Value(Decimal(m, s + 1)) * 10.0 == Value(Decimal(m, s))
    ensures Value(Decimal(10 * m, s + 1)) == Value(Decimal(m, s))
  {
    Times(10, m);
    Times(10, Pow10(s));
    TenthsCancel(m as real, Pow10(s) as real);
  }

  lemma TenthsCancel(m: real, p: real)
    requires p > 0.0
    ensures m / (10.0 * p) * 10.0 == m / p && (10.0 * m) / (10.0 * p) == m / p
  {
    var q := m / p;
    assert q * p == m;
    assert q * (10.0 * p) == 10.0 * m;
    assert (10.0 * m) / (10.0 * p) == q;
    var t := m / (10.0 * p);
    assert t * (10.0 * p) == m;
    assert (t * 10.0) * p == m;
  }

  // ----- digest_to_ingestion_input -----

  datatype Digest = Digest(
    supplierTax: string,
    invoiceNumber: string,
    supplierName: Option<string>,
    issueDate: Option<string>,
    currency: Option<string>,
    net: Option<Amount>,
    vat: Option<Amount>)

  datatype IngestionInput = IngestionInput(
    supplierTax: string,
    supplierName: string,
    invoiceNumber: string,
    issueDate: string,
    netMinor: int,
    vatMinor: int,
    grossMinor: int,
    currency: string)

  datatype DigestError =
    | NoSupplierName
    | NoIssueDate
    | ForeignCurrency
    | NoCurrency
    | BadNet(AmountError)
    | BadVat(AmountError)
    | GrossOverflow

  const ZERO := Number(Decimal(0, 0))

  function OrZero(a: Option<Amount>): Amount { if a.None? then ZERO else a.value }

  function DigestToInput(d: Digest): Result<IngestionInput, DigestError>
  {
    if d.supplierName.None? || Trim(d.supplierName.value) == "" then Err(NoSupplierName)
    else if d.issueDate.None? then Err(NoIssueDate)
    else if d.currency.None? then Err(NoCurrency)
    else if d.currency.value != "HUF" && d.currency.value != "EUR" then Err(ForeignCurrency)
    else
      var net := DecimalToMinor(OrZero(d.net), d.currency.value);
      if net.Err? then Err(BadNet(net.error))
      else
        var vat := DecimalToMinor(OrZero(d.vat), d.currency.value);
        if vat.Err? then Err(BadVat(vat.error))
        else if !InI64(net.value + vat.value) then Err(GrossOverflow)
        else Ok(IngestionInput(d.supplierTax, d.supplierName.value, d.invoiceNumber, d.issueDate.value,
                               net.value, vat.value, net.value + vat.value, d.currency.value))
  }

  /** The exact amount a field stands for: forints, or euro cents before rounding. */
  function Exact(a: Option<Amount>, currency: string): real
  {
    match a
    case Some(Number(d)) => if currency == "EUR" then Value(d) * 100.0 else Value(d)
    case _ => 0.0
  }

  lemma MinorOfField(a: Option<Amount>, currency: string)
    requires currency in {"HUF", "EUR"}
    ensures var r, n := DecimalToMinor(OrZero(a), currency), Nearest(Exact(a, currency));
      (r.Ok? <==> a != Some(Malformed) && InI64(n)) && (r.Ok? ==> r.value == n)
  {
    hide Nearest, IsNearest, Value;
    var r, x := DecimalToMinor(OrZero(a), currency), Exact(a, currency);
    var n := Nearest(x);
    NearestOfInt(0);
    ValueScales(0, 0);
    NearestIsNearest(x, n);
    AcceptedMeans(OrZero(a), currency, n);
    if r.Ok? {
      AcceptedMeans(OrZero(a), currency, r.value);
      NearestIsNearest(x, r.value);
    }
  }

  /** The input keeps the digest's key, name, date and currency; net and VAT are its amounts to the
      nearest forint or cent; the gross is their sum, at most one unit off the rounded exact sum; and
      all three fit in 64 bits. */
  lemma ConversionFaithful(d: Digest)
    requires DigestToInput(d).Ok?
    ensures var i := DigestToInput(d).value;
      && i.supplierTax == d.supplierTax && i.invoiceNumber == d.invoiceNumber
      && Some(i.supplierName) == d.supplierName && Some(i.issueDate) == d.issueDate && Some(i.currency) == d.currency
      && i.currency in {"HUF", "EUR"}
      && var net, vat := Exact(d.net, i.currency), Exact(d.vat, i.currency);
         && IsNearest(i.netMinor, net) && IsNearest(i.vatMinor, vat)
         && i.grossMinor == i.netMinor + i.vatMinor
         && -1 <= i.grossMinor - Nearest(net + vat) <= 1
         && InI64(i.netMinor) && InI64(i.vatMinor) && InI64(i.grossMinor)
  {
    hide Nearest, IsNearest, Exact, DecimalToMinor, Trim;
    var i := DigestToInput(d).value;
    MinorOfField(d.net, i.currency);
    MinorOfField(d.vat, i.currency);
    var net, vat := Exact(d.net, i.currency), Exact(d.vat, i.currency);
    NearestIsNearest(net, i.netMinor);
    NearestIsNearest(vat, i.vatMinor);
    NearestSum(net, vat);
  }

  /** Which digests convert: named, dated, in HUF or EUR, with amounts that are numbers, and with
      net, VAT and gross in the 64-bit range. */
  lemma ConvertsWhen(d: Digest)
    ensures DigestToInput(d).Ok? <==>
      && d.supplierName.Some? && (exists k :: 0 <= k < |d.supplierName.value| && !IsWhitespace(d.supplierName.value[k]))
      && d.issueDate.Some? && d.currency.Some? && d.currency.value in {"HUF", "EUR"}
      && d.net != Some(Malformed) && d.vat != Some(Malformed)
      && var net, vat := Nearest(Exact(d.net, d.currency.value)), Nearest(Exact(d.vat, d.currency.value));
         InI64(net) && InI64(vat) && InI64(net + vat)
  {
    hide Nearest, Exact, DecimalToMinor, Trim, IsWhitespace;
    if d.supplierName.Some? {
      TrimBlank(d.supplierName.value);
    }
    if d.currency.Some? && d.currency.value in {"HUF", "EUR"} {
      MinorOfField(d.net, d.currency.value);
      MinorOfField(d.vat, d.currency.value);
    }
  }

  /** The name is there and not all whitespace, then the date, then a known currency. */
  predicate HeaderComplete(d: Digest)
  {
    && d.supplierName.Some? && Trim(d.supplierName.value) != "" && d.issueDate.Some?
    && d.currency in {Some("HUF"), Some("EUR")}
  }

  /** Why a digest is refused: the first thing wrong with it, in this order. */
  lemma DigestRefused(d: Digest, e: AmountError)
    ensures DigestToInput(d) == Err(NoSupplierName) <==>
      d.supplierName.None? || forall k :: 0 <= k < |d.supplierName.value| ==> IsWhitespace(d.supplierName.value[k])
    ensures DigestToInput(d) == Err(NoIssueDate) <==> DigestToInput(d) != Err(NoSupplierName) && d.issueDate.None?
    ensures DigestToInput(d) == Err(NoCurrency) <==>
      DigestToInput(d) != Err(NoSupplierName) && d.issueDate.Some? && d.currency.None?
    ensures DigestToInput(d) == Err(ForeignCurrency) <==>
      DigestToInput(d) != Err(NoSupplierName) && d.issueDate.Some? && d.currency.Some?
      && d.currency.value !in {"HUF", "EUR"}
    ensures DigestToInput(d) == Err(BadNet(e)) <==>
      HeaderComplete(d) && DecimalToMinor(OrZero(d.net), d.currency.value) == Err(e)
    ensures DigestToInput(d) == Err(BadVat(e)) <==>
      HeaderComplete(d) && DecimalToMinor(OrZero(d.net), d.currency.value).Ok?
      && DecimalToMinor(OrZero(d.vat), d.currency.value) == Err(e)
    ensures DigestToInput(d) == Err(GrossOverflow) <==>
      HeaderComplete(d) && DecimalToMinor(OrZero(d.net), d.currency.value).Ok?
      && DecimalToMinor(OrZero(d.vat), d.currency.value).Ok?
      && !InI64(DecimalToMinor(OrZero(d.net), d.currency.value).value
                + DecimalToMinor(OrZero(d.vat), d.currency.value).value)
  {
    hide DecimalToMinor, Trim, IsWhitespace;
    if d.supplierName.Some? {
      TrimBlank(d.supplierName.value);
    }
  }
}
