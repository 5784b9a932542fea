/** Building the session's rate table: the merge of the complete currency list
    with the published rates, the per-code enrichment of the standard rates,
    the static fallback table and the choice between the three sources.

    Every reply of the rate service is an input of the model: `None` stands for
    a request that failed (network error, HTTP error status, a body that is not
    JSON), `Some` for the JSON body that came back. */
module RateTable {
  import opened Wrappers

  /** A currency code as the rate service spells it, e.g. "USD". */
  type Code = string

  /** Units of each currency per unit of the anchor currency. Exact reals stand
      in for the floating-point numbers of Currency.py. */
  type Rates = map<Code, real>

  /** The currency every table is expressed against; it is never published by
      the service and is always inserted with rate 1.0. */
  const Anchor: Code := "USD"
  const AnchorRate: real := 1.0

  /** The rate given to a code that is known but has no published rate. */
  const Placeholder: real := 0.0

  /** The base the service quotes in when its reply names none. */
  const DefaultServiceBase: Code := "EUR"

  /** The complete-list table is used only when it has MORE entries than this. */
  const CompleteListMinimum: nat := 31

  /** The standard rates are enriched only when they have FEWER entries than this. */
  const EnrichmentThreshold: nat := 50

  /** The JSON body of a `/rates` reply; a field is `None` when its key is absent. */
  datatype RatesReply = RatesReply(rates: Option<Rates>, date: Option<string>, base: Option<Code>)

  /** The outcome of one way of fetching a table: the table and its date, or
      `Unavailable` when a request it needed failed. */
  datatype Fetch = Fetched(rates: Rates, date: Option<string>) | Unavailable

  /** The per-code request `/rates?base=<base>&symbols=<code>`: the `rates`
      object of its reply, or `None` when the request failed, its status was not
      200 or the reply had no `rates` key. */
  type Lookup = (Code, Code) -> Option<Rates>

  /** Everything the rate service answers during one start-up, in the order the
      requests are made: the two requests of the complete-list fetch, then the
      two requests and the per-code lookups of the standard fetch. */
  datatype Network = Network(
    completeCurrencies: Option<seq<Code>>,
    completeRates: Option<RatesReply>,
    standardRates: Option<RatesReply>,
    standardCurrencies: Option<seq<Code>>,
    lookup: Lookup)

  /** The rate table a session works with, and the date it is valid for
      (`None` for the static fallback table). */
  datatype Table = Table(rates: Rates, date: Option<string>)

  /** The table holds the anchor at rate 1.0. */
  predicate Anchored(rates: Rates) {
    Anchor in rates && rates[Anchor] == AnchorRate
  }

  /** Every rate of the table is above zero. */
  predicate Positive(r: Rates) {
    forall c :: c in r ==> r[c] > 0.0
  }

  /** The published rates of a reply (empty when the key is absent) with the
      anchor forced to 1.0, whether or not it was published. */
  function WithAnchor(reply: RatesReply): (r: Rates)
    ensures Anchored(r)
    ensures forall c :: c in r <==> c == Anchor || c in reply.rates.GetOr(map[])
    ensures forall c :: c in reply.rates.GetOr(map[]) && c != Anchor ==> r[c] == reply.rates.GetOr(map[])[c]
  {
    reply.rates.GetOr(map[])[Anchor := AnchorRate]
  }

  // ---------------------------------------------------------------------------
  // The complete-list fetch

  /** The placeholder loop: every code of `codes` that has no entry yet gets the
      placeholder rate, in list order. */
  function WithPlaceholders(rates: Rates, codes: seq<Code>): Rates
    decreases |codes|
  {
    if codes == [] then rates
    else WithPlaceholders(if codes[0] in rates then rates else rates[codes[0] := Placeholder], codes[1..])
  }

  /** The placeholder loop adds exactly the listed codes, gives each new one the
      placeholder rate and never overwrites an entry that was there. */
  lemma {:induction false} WithPlaceholdersSpec(rates: Rates, codes: seq<Code>)
    ensures forall c :: c in WithPlaceholders(rates, codes) <==> c in rates || c in codes
    ensures forall c :: c in rates ==> WithPlaceholders(rates, codes)[c] == rates[c]
    ensures forall c :: c in codes && c !in rates ==> WithPlaceholders(rates, codes)[c] == Placeholder
    decreases |codes|
  {
    if codes != [] {
      var next := if codes[0] in rates then rates else rates[codes[0] := Placeholder];
      WithPlaceholdersSpec(next, codes[1..]);
      assert forall c :: c in codes <==> c == codes[0] || c in codes[1..];
    }
  }

  /** What the complete-list fetch yields: unavailable when either request
      failed, otherwise the published rates with the anchor and a placeholder
      for every listed code without a rate. */
  function CompleteTable(currencies: Option<seq<Code>>, reply: Option<RatesReply>): Fetch {
    if currencies.None? || reply.None? then Unavailable
    else Fetched(WithPlaceholders(WithAnchor(reply.value), currencies.value), reply.value.date)
  }

  /** The merged table covers the currency list, adds nothing beyond the
      published rates, the list and the anchor, keeps every published rate but
      the anchor's, which is 1.0, and gives the placeholder to every listed code
      without a published rate. */
  lemma CompleteTableSpec(currencies: seq<Code>, reply: RatesReply)
    ensures CompleteTable(Some(currencies), Some(reply)).Fetched?
    ensures var t := CompleteTable(Some(currencies), Some(reply)).rates;
            var published := reply.rates.GetOr(map[]);
            && Anchored(t)
            && (forall c :: c in t <==> c in published || c in currencies || c == Anchor)
            && (forall c :: c in published && c != Anchor ==> t[c] == published[c])
            && (forall c :: c in currencies && c !in published && c != Anchor ==> t[c] == Placeholder)
  {
    WithPlaceholdersSpec(WithAnchor(reply), currencies);
  }

  /** The complete-list fetch (`fetch_all_available_currencies`): the currency
      list and the published rates, merged by the placeholder loop. */
  method FetchAllAvailableCurrencies(currencies: Option<seq<Code>>, reply: Option<RatesReply>)
    returns (result: Fetch)
    ensures result == CompleteTable(currencies, reply)
  {
    if currencies.None? || reply.None? {
      return Unavailable;
    }
    var codes := currencies.value;
    var rates := WithAnchor(reply.value);
    var i := 0;
    while i < |codes|
      invariant 0 <= i <= |codes|
      invariant WithPlaceholders(rates, codes[i..]) == WithPlaceholders(WithAnchor(reply.value), codes)
    {
      if codes[i] !in rates {
        rates := rates[codes[i] := Placeholder];
      }
      i := i + 1;
    }
    return Fetched(rates, reply.value.date);
  }

  // ---------------------------------------------------------------------------
  // The standard fetch and its per-code enrichment

  /** The per-code lookup for `code` succeeded and its reply quotes `code`. */
  predicate Quoted(lookup: Lookup, base: Code, code: Code) {
    lookup(base, code).Some? && code in lookup(base, code).value
  }

  /** The enrichment loop: every code of `codes` that is missing, is not the
      service's base and is quoted by its lookup is added with the quoted rate. */
  function Enriched(rates: Rates, base: Code, codes: seq<Code>, lookup: Lookup): Rates
    decreases |codes|
  {
    if codes == [] then rates
    else
      var c := codes[0];
      var next := if c !in rates && c != base && Quoted(lookup, base, c)
                  then rates[c := lookup(base, c).value[c]]
                  else rates;
      Enriched(next, base, codes[1..], lookup)
  }

  /** Enrichment never changes an existing entry; a code it adds was listed,
      missing, not the base, and carries its quoted rate; and every listed code
      other than the base whose lookup quotes it ends up in the table. */
  lemma {:induction false} EnrichedSpec(rates: Rates, base: Code, codes: seq<Code>, lookup: Lookup)
    ensures forall c :: c in rates ==>
              c in Enriched(rates, base, codes, lookup) && Enriched(rates, base, codes, lookup)[c] == rates[c]
    ensures forall c :: c in Enriched(rates, base, codes, lookup) && c !in rates ==>
              && c in codes && c != base && Quoted(lookup, base, c)
              && Enriched(rates, base, codes, lookup)[c] == lookup(base, c).value[c]
    ensures forall c :: c in codes && c != base && Quoted(lookup, base, c) ==> c in Enriched(rates, base, codes, lookup)
    decreases |codes|
  {
    if codes != [] {
      var c := codes[0];
      var next := if c !in rates && c != base && Quoted(lookup, base, c)
                  then rates[c := lookup(base, c).value[c]]
                  else rates;
      EnrichedSpec(next, base, codes[1..], lookup);
      assert forall d :: d in codes <==> d == c || d in codes[1..];
    }
  }

  /** What the standard fetch yields: unavailable when the rates request failed,
      or when the table is short and the currency-list request failed;
      otherwise the published rates with the anchor, enriched only when they hold
      fewer than 50 entries. */
  function StandardTable(reply: Option<RatesReply>, currencies: Option<seq<Code>>, lookup: Lookup): Fetch {
    match reply
    case None => Unavailable
    case Some(data) =>
      var rates := WithAnchor(data);
      if |rates| >= EnrichmentThreshold then Fetched(rates, data.date)
      else
        match currencies
        case None => Unavailable
        case Some(codes) => Fetched(Enriched(rates, data.base.GetOr(DefaultServiceBase), codes, lookup), data.date)
  }

  /** The standard table keeps every published rate but the anchor's, which is
      1.0; it differs from them only when they were fewer than 50, and then only
      by listed codes, other than the service's base, that their lookup quoted,
      each with its quoted rate. */
  lemma StandardTableSpec(reply: RatesReply, currencies: Option<seq<Code>>, lookup: Lookup)
    ensures var published := WithAnchor(reply);
            var base := reply.base.GetOr(DefaultServiceBase);
            var result := StandardTable(Some(reply), currencies, lookup);
            && (result.Unavailable? <==> |published| < EnrichmentThreshold && currencies.None?)
            && (result.Fetched? ==>
                  && result.date == reply.date
                  && Anchored(result.rates)
                  && (forall c :: c in reply.rates.GetOr(map[]) && c != Anchor ==>
                        c in result.rates && result.rates[c] == reply.rates.GetOr(map[])[c])
                  && (forall c :: c in published ==> c in result.rates && result.rates[c] == published[c])
                  && (base !in published ==> base !in result.rates)
                  && (forall c :: c in result.rates && c !in published ==>
                        && |published| < EnrichmentThreshold
                        && c in currencies.value && Quoted(lookup, base, c)
                        && result.rates[c] == lookup(base, c).value[c]))
            && (|published| >= EnrichmentThreshold ==> result == Fetched(published, reply.date))
  {
    if |WithAnchor(reply)| < EnrichmentThreshold && currencies.Some? {
      EnrichedSpec(WithAnchor(reply), reply.base.GetOr(DefaultServiceBase), currencies.value, lookup);
    }
  }

  /** The standard fetch (`get_exchange_rates`): the published rates with the
      anchor, enriched code by code when they hold fewer than 50 entries. */
  method GetExchangeRates(reply: Option<RatesReply>, currencies: Option<seq<Code>>, lookup: Lookup)
    returns (result: Fetch)
    ensures result == StandardTable(reply, currencies, lookup)
  {
    if reply.None? {
      return Unavailable;
    }
    var data := reply.value;
    var rates := WithAnchor(data);
    if |rates| < EnrichmentThreshold {
      if currencies.None? {
        return Unavailable;
      }
      var codes := currencies.value;
      var base := data.base.GetOr(DefaultServiceBase);
      var i := 0;
      while i < |codes|
        invariant 0 <= i <= |codes|
        invariant Enriched(rates, base, codes[i..], lookup) == Enriched(WithAnchor(data), base, codes, lookup)
      {
        var code := codes[i];
        if code !in rates && code != base {
          var quote := lookup(base, code);
          if quote.Some? && code in quote.value {
            rates := rates[code := quote.value[code]];
          }
        }
        i := i + 1;
      }
    }
    return Fetched(rates, data.date);
  }

  // ---------------------------------------------------------------------------
  // The static fallback table and the choice of source

  /** The static table used when every live source failed: 46 approximate
      rates, grouped by region as Currency.py lists them. */
  function FallbackRates(): (r: Rates)
    ensures Anchored(r)
    ensures Positive(r)
  {
    var east := FallbackAsia() + FallbackAfricaMiddleEast() + FallbackOceania();
    assert Anchor !in east && Positive(east);
    var west := FallbackEurope() + FallbackAmericas();
    assert Anchor !in west && Positive(west);
    var rest := west + east;
    assert Anchor !in rest && Positive(rest);
    FallbackMajor() + rest
  }

  function FallbackMajor(): (r: Rates)
    ensures Anchored(r)
    ensures Positive(r)
  {
    map["USD" := 1.00, "EUR" := 0.94, "GBP" := 0.82, "JPY" := 149.30, "CNY" := 7.23,
        "AUD" := 1.55, "CAD" := 1.38, "CHF" := 0.89, "HKD" := 7.82, "SGD" := 1.36]
  }

  function FallbackEurope(): (r: Rates)
    ensures Anchor !in r
    ensures Positive(r)
  {
    map["SEK" := 10.71, "NOK" := 10.80, "DKK" := 7.01, "PLN" := 4.03, "CZK" := 23.45,
        "HUF" := 358.80, "RON" := 4.68, "BGN" := 1.84, "ISK" := 138.50, "RUB" := 92.50]
  }

  function FallbackAmericas(): (r: Rates)
    ensures Anchor !in r
    ensures Positive(r)
  {
    map["MXN" := 17.03, "BRL" := 5.15, "ARS" := 870.0, "COP" := 3950.0, "CLP" := 927.0,
        "PEN" := 3.70]
  }

  function FallbackAsia(): (r: Rates)
    ensures Anchor !in r
    ensures Positive(r)
  {
    map["INR" := 83.39, "KRW" := 1345.0, "IDR" := 15680.0, "MYR" := 4.72, "THB" := 36.14,
        "PHP" := 56.70, "PKR" := 278.50, "BDT" := 109.50, "VND" := 24890.0, "ILS" := 3.70]
  }

  function FallbackAfricaMiddleEast(): (r: Rates)
    ensures Anchor !in r
    ensures Positive(r)
  {
    map["ZAR" := 18.94, "EGP" := 46.80, "NGN" := 1420.0, "KES" := 129.50, "SAR" := 3.75,
        "AED" := 3.67, "QAR" := 3.64, "TRY" := 32.17]
  }

  function FallbackOceania(): (r: Rates)
    ensures Anchor !in r
    ensures Positive(r)
  {
    map["NZD" := 1.67, "FJD" := 2.27]
  }

  /** The start-up sequence of `main`: the complete-list table when its fetch
      succeeded with more than 31 entries; otherwise the standard table,
      fetched only then, when that fetch succeeded; otherwise the fallback table
      with no date. Whatever the service answers, the table holds the anchor at
      1.0. */
  method LoadRates(net: Network) returns (t: Table)
    ensures var complete := CompleteTable(net.completeCurrencies, net.completeRates);
            var standard := StandardTable(net.standardRates, net.standardCurrencies, net.lookup);
            var useComplete := complete.Fetched? && |complete.rates| > CompleteListMinimum;
            && (useComplete ==> t == Table(complete.rates, complete.date))
            && (!useComplete && standard.Fetched? ==> t == Table(standard.rates, standard.date))
            && (!useComplete && standard.Unavailable? ==> t == Table(FallbackRates(), None))
    ensures Anchored(t.rates)
  {
    var complete := FetchAllAvailableCurrencies(net.completeCurrencies, net.completeRates);
    if complete.Fetched? && |complete.rates| > CompleteListMinimum {
      CompleteTableSpec(net.completeCurrencies.value, net.completeRates.value);
      return Table(complete.rates, complete.date);
    }
    var standard := GetExchangeRates(net.standardRates, net.standardCurrencies, net.lookup);
    if standard.Fetched? {
      StandardTableSpec(net.standardRates.value, net.standardCurrencies, net.lookup);
      t := Table(standard.rates, standard.date);
    } else {
      t := Table(FallbackRates(), None);
    }
  }
}
