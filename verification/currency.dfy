/** The currency table (`currency_to_rub`) and the conversion of one salary
    range into roubles. */
module Currency {

  import opened Results

  /** Roubles per unit of each currency the report knows. */
  const Rates: map<string, real> := map[
    "AZN" := 35.68, "BYR" := 23.91, "EUR" := 59.90, "GEL" := 21.74, "KGS" := 0.76,
    "KZT" := 0.13, "RUR" := 1.0, "UAH" := 1.64, "USD" := 60.66, "UZS" := 0.0055
  ]

  /** Looking a code up in the table; a code the table lacks is a `KeyError`,
      never a zero rate. */
  function Rate(code: string): (r: Result<real>)
    ensures r.Ok? <==> code in Rates
    ensures r.Ok? ==> r.value > 0.0
    ensures r.Err? ==> r.error == UnknownCurrency(code)
  {
    if code in Rates then Ok(Rates[code]) else Err(UnknownCurrency(code))
  }

  /** The salary of one posting in roubles: the middle of its range times the
      rate of its currency. */
  function Normalize(from: real, to: real, code: string): (r: Result<real>)
    ensures r.Ok? <==> code in Rates
    ensures r.Err? ==> r.error == UnknownCurrency(code)
    ensures r.Ok? && from <= to ==> from * Rates[code] <= r.value <= to * Rates[code]
    ensures r.Ok? && to <= from ==> to * Rates[code] <= r.value <= from * Rates[code]
    ensures r.Ok? ==> r.value - from * Rates[code] == to * Rates[code] - r.value
  {
    var rate :- Rate(code);
    Ok((from + to) / 2.0 * rate)
  }

  /** Roubles convert at rate one: a rouble range normalises to its midpoint. */
  lemma RoubleIsIdentity(from: real, to: real)
    ensures Normalize(from, to, "RUR") == Ok((from + to) / 2.0)
  {
    assert Rates["RUR"] == 1.0;
  }
}
