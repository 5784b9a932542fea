/** The conversion arithmetic of the menu's "Convert Currency" and "Check
    Exchange Rate" options: validation of the request, conversion through the
    anchor currency and the effective rate shown to the user. */
module Converter {
  import opened Wrappers
  import opened RateTable

  /** Why a request produced no result, in the order the checks are made. */
  datatype ConversionError =
    | UnsupportedSource   // the source (or base) code has no entry in the table
    | NotANumber          // the amount entered does not parse as a number
    | NegativeAmount      // the amount is below zero
    | UnsupportedTarget   // the target code has no entry in the table
    | DivisionByZero      // the source rate is 0.0: Currency.py has NO check for
                          // this and raises ZeroDivisionError, which only the
                          // top-level handler catches, ending the session

  /** The converted amount and the effective rate (target units per source unit). */
  datatype Conversion = Conversion(converted: real, rate: real)

  /** `convert_currency` with the rate line of `display_conversion_result`.
      The amount is `None` when the text entered is not a number. The amount is
      divided by the source rate (not when the source is the anchor) and
      multiplied by the target rate; the effective rate is shown for every
      source, so a 0.0 source rate fails even for the anchor. A 0.0 target rate
      is NOT rejected: Currency.py converts it to 0. */
  function Convert(rates: Rates, source: Code, amount: Option<real>, target: Code): (r: Result<Conversion, ConversionError>)
    ensures r == Failure(UnsupportedSource) <==> source !in rates
    ensures r == Failure(NotANumber) <==> source in rates && amount.None?
    ensures r == Failure(NegativeAmount) <==> source in rates && amount.Some? && amount.value < 0.0
    ensures r == Failure(UnsupportedTarget) <==>
              source in rates && amount.Some? && amount.value >= 0.0 && target !in rates
    ensures r == Failure(DivisionByZero) <==>
              source in rates && amount.Some? && amount.value >= 0.0 && target in rates && rates[source] == 0.0
    ensures r.Success? ==> r.value.rate * rates[source] == rates[target]
    ensures r.Success? && source != Anchor ==> r.value.converted * rates[source] == amount.value * rates[target]
    ensures r.Success? && source == Anchor ==> r.value.converted == amount.value * rates[target]
  {
    if source !in rates then Failure(UnsupportedSource)
    else if amount.None? then Failure(NotANumber)
    else if amount.value < 0.0 then Failure(NegativeAmount)
    else if target !in rates then Failure(UnsupportedTarget)
    else if rates[source] == 0.0 then Failure(DivisionByZero)
    else
      var anchorAmount := if source != Anchor then amount.value / rates[source] else amount.value;
      Success(Conversion(anchorAmount * rates[target], rates[target] / rates[source]))
  }

  /** In a table that holds the anchor at 1.0, the converted amount is the
      amount times the effective rate shown beside it. */
  lemma ConvertAtEffectiveRate(rates: Rates, source: Code, amount: real, target: Code)
    requires Anchored(rates)
    requires Convert(rates, source, Some(amount), target).Success?
    ensures var c := Convert(rates, source, Some(amount), target).value;
            c.converted == amount * c.rate
  {
  }

  /** Converting a currency to itself returns the amount, at rate 1. */
  lemma ConvertIdentity(rates: Rates, code: Code, amount: real)
    requires Anchored(rates)
    requires code in rates && rates[code] != 0.0 && amount >= 0.0
    ensures Convert(rates, code, Some(amount), code) == Success(Conversion(amount, 1.0))
  {
    var c := Convert(rates, code, Some(amount), code).value;
    assert c.rate * rates[code] == rates[code];
    ConvertAtEffectiveRate(rates, code, amount, code);
  }

  /** Converting there and back between two currencies with positive rates
      returns the starting amount (exactly, with real arithmetic). */
  lemma ConvertRoundTrip(rates: Rates, a: Code, b: Code, amount: real)
    requires Anchored(rates)
    requires a in rates && b in rates && rates[a] > 0.0 && rates[b] > 0.0 && amount >= 0.0
    ensures Convert(rates, a, Some(amount), b).Success?
    ensures var there := Convert(rates, a, Some(amount), b).value.converted;
            Convert(rates, b, Some(there), a).Success?
            && Convert(rates, b, Some(there), a).value.converted == amount
  {
  }

  /** A placeholder target rate is not rejected: any amount converts to 0. */
  lemma PlaceholderTargetConvertsToZero(rates: Rates, source: Code, amount: real, target: Code)
    requires source in rates && rates[source] != 0.0 && amount >= 0.0
    requires target in rates && rates[target] == Placeholder
    ensures Convert(rates, source, Some(amount), target) == Success(Conversion(0.0, 0.0))
  {
  }

  /** One line of the rate checker: a target it does not know, or the number of
      target units per base unit. */
  datatype Quote = NotSupported(code: Code) | Rate(code: Code, rate: real)

  /** The per-target loop of `check_exchange_rate`: one quote per target, in the
      order entered. The base must be in the table; a 0.0 base rate fails with
      the error Currency.py raises at its first supported target. */
  function CheckExchangeRate(rates: Rates, base: Code, targets: seq<Code>): (r: Result<seq<Quote>, ConversionError>)
    ensures r == Failure(UnsupportedSource) <==> base !in rates
    ensures r == Failure(DivisionByZero) <==>
              base in rates && rates[base] == 0.0 && exists i :: 0 <= i < |targets| && targets[i] in rates
    ensures r.Failure? ==> r.error == UnsupportedSource || r.error == DivisionByZero
    ensures r.Success? ==> |r.value| == |targets|
    ensures r.Success? ==> forall i :: 0 <= i < |targets| ==>
              && r.value[i].code == targets[i]
              && (r.value[i].Rate? <==> targets[i] in rates)
              && (r.value[i].Rate? ==> r.value[i].rate * rates[base] == rates[targets[i]])
  {
    if base !in rates then Failure(UnsupportedSource)
    else if rates[base] == 0.0 && exists i :: 0 <= i < |targets| && targets[i] in rates then Failure(DivisionByZero)
    else
      Success(seq(|targets|, i requires 0 <= i < |targets| =>
        if targets[i] in rates then Rate(targets[i], rates[targets[i]] / rates[base]) else NotSupported(targets[i])))
  }

  /** The rate checker quotes, for every supported target, the effective rate
      the converter shows, and in a table with the anchor at 1.0 that is what
      one unit of the base converts to. */
  lemma QuoteMatchesConversion(rates: Rates, base: Code, targets: seq<Code>, i: nat)
    requires CheckExchangeRate(rates, base, targets).Success?
    requires i < |targets| && targets[i] in rates
    ensures var q := CheckExchangeRate(rates, base, targets).value[i];
            var c := Convert(rates, base, Some(1.0), targets[i]);
            && c.Success? && q.Rate? && q.rate == c.value.rate
            && (Anchored(rates) ==> q.rate == c.value.converted)
  {
  }

  /** A worked example: with USD 1.0, EUR 0.94 and JPY 149.30,
      100 USD are 94 EUR at rate 0.94, and 94 EUR are 100 USD. */
  lemma ConvertExample()
    ensures var rates := map["USD" := 1.0, "EUR" := 0.94, "JPY" := 149.30];
            && Convert(rates, "USD", Some(100.0), "EUR") == Success(Conversion(94.0, 0.94))
            && Convert(rates, "EUR", Some(94.0), "USD").Success?
            && Convert(rates, "EUR", Some(94.0), "USD").value.converted == 100.0
  {
  }
}
