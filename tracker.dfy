/**
 * One run of the tracker (src/main.rs): read the Modrinth balance, then the
 * CurseForge points, store both raw values in the current bucket, and report
 * them in dollars. Either `?` on a platform's result ends the run before the
 * store.
 */
module Tracker {
  import opened Wrappers
  import opened Json
  import opened Errors
  import opened Platform
  import opened Database

  /** What a run hands to `store_balances`: the raw balance and the raw points. */
  datatype Balances = Balances(modrinth: Option<real>, curseforge: Option<I64>)

  /**
   * The two reads in program order. The first error ends the run: a Modrinth
   * error wins over anything CurseForge would have returned.
   */
  function ReadBalances(modrinth: Fetch, curseforge: Fetch, parse: Parser): (r: Result<Balances, Error>)
    ensures r.Ok? <==> GetModrinthBalance(modrinth, parse).Ok? && curseforge.Body?
    ensures GetModrinthBalance(modrinth, parse).Err? ==> r == Err(GetModrinthBalance(modrinth, parse).error)
    ensures GetModrinthBalance(modrinth, parse).Ok? && curseforge.TransportFailure? ==> r == Err(RequestError)
    ensures r.Ok? ==>
      r.value == Balances(GetModrinthBalance(modrinth, parse).value, ExtractCurseforge(curseforge.json))
  {
    match GetModrinthBalance(modrinth, parse)
    case Err(e) => Err(e)
    case Ok(m) =>
      match GetCurseforgeBalance(curseforge)
      case Err(e) => Err(e)
      case Ok(c) => Ok(Balances(m, c))
  }

  /** The summary printed after a successful store. */
  datatype Report = Report(modrinthUsd: real, curseforgePoints: I64, curseforgeUsd: real)

  /**
   * The dollar amounts of the summary: a missing balance or missing points
   * are shown as zero; amounts are whole cents and never above what is held.
   */
  function MakeReport(b: Balances): (r: Report)
    ensures IsWholeCents(r.modrinthUsd) && IsWholeCents(r.curseforgeUsd)
    ensures b.modrinth.None? ==> r.modrinthUsd == 0.0
    ensures b.modrinth.Some? ==> b.modrinth.value - 0.01 < r.modrinthUsd <= b.modrinth.value
    ensures b.curseforge.None? ==> r.curseforgePoints == 0 && r.curseforgeUsd == 0.0
    ensures b.curseforge.Some? ==>
      r.curseforgePoints == b.curseforge.value && r.curseforgeUsd == b.curseforge.value as real * 5.0 / 100.0
  {
    var points := b.curseforge.GetOr(0);
    Report(ModrinthBalanceAsUsd(b.modrinth.GetOr(0.0)), points, CurseforgePointsToUsd(points))
  }

  /**
   * A whole run against the table at time `now`. On an extraction or request
   * error the table is untouched; otherwise the raw values are stored with
   * insert-or-ignore and the summary is returned.
   */
  method RunCycle(table: PayoutTable, now: real, modrinth: Fetch, curseforge: Fetch, parse: Parser)
    returns (r: Result<Report, Error>)
    requires table.Valid()
    modifies table
    ensures table.Valid()
    ensures ReadBalances(modrinth, curseforge, parse).Err? ==>
      r == Err(ReadBalances(modrinth, curseforge, parse).error) && table.rows == old(table.rows)
    ensures ReadBalances(modrinth, curseforge, parse).Ok? ==>
      var b := ReadBalances(modrinth, curseforge, parse).value;
      r == Ok(MakeReport(b)) && table.rows == InsertOrIgnore(old(table.rows), now, b.modrinth, b.curseforge)
  {
    var read := ReadBalances(modrinth, curseforge, parse);
    match read {
      case Err(e) =>
        r := Err(e);
      case Ok(b) =>
        table.StoreBalances(now, b.modrinth, b.curseforge);
        r := Ok(MakeReport(b));
    }
  }

  /**
   * A malformed Modrinth field ends the run with no row stored, even when
   * CurseForge answered: one platform's failure is fatal to the other's data.
   */
  lemma ModrinthFailureDropsCurseforge(response: Value, curseforge: Fetch, parse: Parser)
    requires Malformed(AvailableField(response), parse)
    ensures ReadBalances(Body(response), curseforge, parse)
         == Err(BalanceUnavailable("Modrinth", ParseError("available"), response))
  {
  }

  /** The row holds the raw points, not dollars: 100 points are stored as 100 and reported as 5 dollars. */
  lemma StoresRawPoints(rows: map<int, Row>, now: real, parse: Parser)
    requires Bucket(now) !in rows
    ensures var b := ReadBalances(Body(Object(map[])), Body(Object(map["userPoints" := Int(100)])), parse).value;
      && b == Balances(None, Some(100))
      && InsertOrIgnore(rows, now, b.modrinth, b.curseforge)[Bucket(now)] == Row(None, Some(100))
      && MakeReport(b) == Report(0.0, 100, 5.0)
  {
    var cf := Object(map["userPoints" := Int(100)]);
    assert Index(cf, "userPoints") == Int(100);
  }
}
