/**
 * Reading the two platforms' balances out of their decoded JSON replies, and
 * turning them into US dollars (src/platform.rs).
 */
module Platform {
  import opened Wrappers
  import opened Json
  import opened Errors

  /** Rust's `str::parse::<f64>`, left abstract: `None` where the text is not a number. */
  type Parser = string -> Option<real>

  /** What the HTTP client hands over: the decoded reply, or a failed request or decoding. */
  datatype Fetch = Body(json: Value) | TransportFailure

  // ---------------------------------------------------------------------------
  // Modrinth: `available` and `pending`, both decimal strings, both optional
  // ---------------------------------------------------------------------------

  function AvailableField(response: Value): Option<string> {
    AsStr(Index(response, "available"))
  }

  function PendingField(response: Value): Option<string> {
    AsStr(Index(response, "pending"))
  }

  /** A field that is present as a string whose text is not a number. */
  predicate Malformed(field: Option<string>, parse: Parser) {
    field.Some? && parse(field.value).None?
  }

  /** The amount a field contributes to the sum: its number, or zero when it is absent. */
  function AmountOrZero(field: Option<string>, parse: Parser): real {
    if field.Some? && parse(field.value).Some? then parse(field.value).value else 0.0
  }

  /** `field.map(parse).transpose()`: absent stays absent, a failed parse is an error. */
  function ParseOptional(field: Option<string>, parse: Parser): Result<Option<real>, ()> {
    match field
    case None => Ok(None)
    case Some(text) =>
      match parse(text)
      case None => Err(())
      case Some(x) => Ok(Some(x))
  }

  function ModrinthParseError(field: string, response: Value): Error {
    BalanceUnavailable("Modrinth", ParseError(field), response)
  }

  /**
   * The body of `get_modrinth_balance` once the reply is decoded: no balance
   * when neither field is a string, an error naming the first malformed field
   * (`available` is tried first) with the whole reply, otherwise the sum with
   * a missing field counted as zero.
   */
  function ExtractModrinth(response: Value, parse: Parser): (r: Result<Option<real>, Error>)
    ensures r == Ok(None) <==> AvailableField(response).None? && PendingField(response).None?
    ensures r.Err? <==> Malformed(AvailableField(response), parse) || Malformed(PendingField(response), parse)
    ensures r.Err? ==>
      r.error == ModrinthParseError(
        if Malformed(AvailableField(response), parse) then "available" else "pending", response)
    ensures r.Ok? && r.value.Some? ==>
      r.value.value == AmountOrZero(AvailableField(response), parse) + AmountOrZero(PendingField(response), parse)
  {
    var available := AvailableField(response);
    var pending := PendingField(response);
    if available.None? && pending.None? then
      Ok(None)
    else
      match ParseOptional(available, parse)
      case Err(_) => Err(ModrinthParseError("available", response))
      case Ok(a) =>
        match ParseOptional(pending, parse)
        case Err(_) => Err(ModrinthParseError("pending", response))
        case Ok(p) => Ok(Some(a.GetOr(0.0) + p.GetOr(0.0)))
  }

  /** `get_modrinth_balance`: a failed request or decoding is a `RequestError`; otherwise the extraction above. */
  function GetModrinthBalance(fetch: Fetch, parse: Parser): (r: Result<Option<real>, Error>)
    ensures fetch.TransportFailure? ==> r == Err(RequestError)
    ensures fetch.Body? ==> r == ExtractModrinth(fetch.json, parse)
  {
    match fetch
    case TransportFailure => Err(RequestError)
    case Body(response) => ExtractModrinth(response, parse)
  }

  /** A reply whose fields are not strings (numbers, say) reports no balance, not an error and not zero. */
  lemma NonStringFieldsReadAsAbsent(response: Value, parse: Parser)
    requires response.Object?
    requires "available" in response.fields ==> !response.fields["available"].String?
    requires "pending" in response.fields ==> !response.fields["pending"].String?
    ensures ExtractModrinth(response, parse) == Ok(None)
  {
  }

  /** When both fields are malformed the error names `available`, the field checked first. */
  lemma BothMalformedNamesAvailable(response: Value, parse: Parser)
    requires Malformed(AvailableField(response), parse) && Malformed(PendingField(response), parse)
    ensures ExtractModrinth(response, parse) == Err(BalanceUnavailable("Modrinth", ParseError("available"), response))
  {
  }

  /** A successful balance is only ever reported when at least one field was a string. */
  lemma ModrinthBalanceNeedsAString(response: Value, parse: Parser)
    requires ExtractModrinth(response, parse).Ok? && ExtractModrinth(response, parse).value.Some?
    ensures AvailableField(response).Some? || PendingField(response).Some?
  {
  }

  /** The worked cases: both fields, only `available`, neither. */
  lemma ModrinthExamples(parse: Parser)
    requires parse("10.5") == Some(10.5) && parse("2.25") == Some(2.25)
    ensures ExtractModrinth(Object(map["available" := String("10.5"), "pending" := String("2.25")]), parse)
            == Ok(Some(12.75))
    ensures ExtractModrinth(Object(map["available" := String("10.5")]), parse) == Ok(Some(10.5))
    ensures ExtractModrinth(Object(map[]), parse) == Ok(None)
  {
    var both := Object(map["available" := String("10.5"), "pending" := String("2.25")]);
    assert AvailableField(both) == Some("10.5");
    assert PendingField(both) == Some("2.25");
    var one := Object(map["available" := String("10.5")]);
    assert AvailableField(one) == Some("10.5");
    assert PendingField(one) == None;
  }

  // ---------------------------------------------------------------------------
  // CurseForge: `userPoints`, an integer
  // ---------------------------------------------------------------------------

  /** The body of `get_curseforge_balance` once the reply is decoded: `userPoints` when it is an `i64`. */
  function ExtractCurseforge(response: Value): (r: Option<I64>)
    ensures r.Some? <==> Index(response, "userPoints").Int? && I64Min <= Index(response, "userPoints").i <= I64Max
    ensures r.Some? ==> r.value == Index(response, "userPoints").i
  {
    AsI64(Index(response, "userPoints"))
  }

  /** `get_curseforge_balance`: the only error is a failed request or decoding; the reply itself never causes one. */
  function GetCurseforgeBalance(fetch: Fetch): (r: Result<Option<I64>, Error>)
    ensures r.Err? <==> fetch.TransportFailure?
    ensures r.Err? ==> r.error == RequestError
    ensures fetch.Body? ==> r.value == ExtractCurseforge(fetch.json)
  {
    match fetch
    case TransportFailure => Err(RequestError)
    case Body(response) => Ok(ExtractCurseforge(response))
  }

  /** Points sent as a float, as a string, or too large for `i64` read as no balance. */
  lemma CurseforgeNonIntegersReadAsAbsent(x: real, text: string)
    ensures ExtractCurseforge(Object(map["userPoints" := Float(x)])) == None
    ensures ExtractCurseforge(Object(map["userPoints" := String(text)])) == None
    ensures ExtractCurseforge(Object(map["userPoints" := Int(I64Max + 1)])) == None
    ensures ExtractCurseforge(Object(map["userPoints" := Int(1250)])) == Some(1250)
  {
  }

  // ---------------------------------------------------------------------------
  // Conversion to US dollars, truncated to whole cents
  // ---------------------------------------------------------------------------

  /** An amount that is a whole number of cents. */
  predicate IsWholeCents(x: real) {
    (x * 100.0).Floor as real == x * 100.0
  }

  /**
   * `modrinth_balance_as_usd`: the balance cut down to whole cents, never
   * rounded up: at most the balance and less than a cent below it.
   */
  function ModrinthBalanceAsUsd(balance: real): (usd: real)
    ensures usd <= balance
    ensures balance - 0.01 < usd
    ensures IsWholeCents(usd)
    ensures balance >= 0.0 ==> usd >= 0.0
  {
    (balance * 100.0).Floor as real / 100.0
  }

  /** The result is the largest whole-cents amount that does not exceed the balance. */
  lemma ModrinthBalanceAsUsdIsGreatestCentsBelow(balance: real, cents: real)
    requires IsWholeCents(cents) && cents <= balance
    ensures cents <= ModrinthBalanceAsUsd(balance)
  {
    var k := (cents * 100.0).Floor;
    assert k as real <= balance * 100.0;
    assert k <= (balance * 100.0).Floor;
  }

  /** Truncating an amount that is already truncated changes nothing. */
  lemma ModrinthBalanceAsUsdIdempotent(balance: real)
    ensures ModrinthBalanceAsUsd(ModrinthBalanceAsUsd(balance)) == ModrinthBalanceAsUsd(balance)
  {
    var usd := ModrinthBalanceAsUsd(balance);
    assert (usd * 100.0).Floor as real == usd * 100.0;
  }

  /** A larger balance never reports fewer dollars. */
  lemma ModrinthBalanceAsUsdMonotone(a: real, b: real)
    requires a <= b
    ensures ModrinthBalanceAsUsd(a) <= ModrinthBalanceAsUsd(b)
  {
    ModrinthBalanceAsUsdIsGreatestCentsBelow(b, ModrinthBalanceAsUsd(a));
  }

  /** Half a cent is dropped, not rounded up. */
  lemma ModrinthBalanceAsUsdNeverRoundsUp()
    ensures ModrinthBalanceAsUsd(1.005) == 1.0
    ensures ModrinthBalanceAsUsd(12.75) == 12.75
    ensures ModrinthBalanceAsUsd(10.5) == 10.5
  {
    assert (1.005 * 100.0).Floor == 100;
    assert (12.75 * 100.0).Floor == 1275;
    assert (10.5 * 100.0).Floor == 1050;
  }

  /**
   * `curseforge_points_to_usd`: 100 points are worth 5 dollars; in exact
   * arithmetic the truncation to cents loses nothing.
   */
  function CurseforgePointsToUsd(points: I64): (usd: real)
    ensures usd == points as real * 5.0 / 100.0
    ensures IsWholeCents(usd)
  {
    var usd := points as real / 100.0 * 5.0;
    var cents := 5 * points;
    assert usd * 100.0 == cents as real by {
      assert points as real / 100.0 * 5.0 * 100.0 == points as real * 5.0;
    }
    assert (cents as real).Floor == cents;
    (usd * 100.0).Floor as real / 100.0
  }

  /** Both conversions truncate the same way: points go through the dollar rule at 5 cents a point. */
  lemma CurseforgeUsesModrinthTruncation(points: I64)
    ensures CurseforgePointsToUsd(points) == ModrinthBalanceAsUsd(points as real / 100.0 * 5.0)
  {
    assert (points as real / 100.0 * 5.0 * 100.0).Floor == 5 * points;
  }

  lemma CurseforgePointsToUsdExamples()
    ensures CurseforgePointsToUsd(100) == 5.0
    ensures CurseforgePointsToUsd(250) == 12.5
    ensures CurseforgePointsToUsd(0) == 0.0
  {
  }
}
