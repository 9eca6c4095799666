# ModRevenueTracker, modelled in Dafny

ModRevenueTracker reads a creator's payout balance from two platforms. Modrinth
reports `available` and `pending` as decimal strings. CurseForge reports
`userPoints` as an integer. Each run stores the two raw readings in a Postgres
table `payout`, with one row per 30-minute bucket, where the first write in a
bucket wins. It then prints the readings in US dollars, truncated to whole
cents.

The project models:

- `wrappers.dfy`: `Option` and `Result`.
- `json.dfy`: the serde_json value the replies decode to. It covers indexing by
  key (`Null` when the key is missing or the value is not an object), `as_str`
  and `as_i64`, and the `i64` range.
- `errors.dfy`: the shape of the program's error type. `MissingField` is
  declared in the source but never built.
- `platform.dfy`: the extraction that runs once a platform's reply is decoded,
  and the two dollar conversions.
- `database.dfy`: the bucket expression that is the `time` column's default,
  and `INSERT ... ON CONFLICT (time) DO NOTHING`. The table is a map from
  bucket start to row, held in a class whose `StoreBalances` method updates
  it. A value-level `InsertOrIgnore` specifies that method, and `InsertAll`
  replays a series of runs.
- `tracker.dfy`: one run of `main`. The Modrinth read comes first, then the
  CurseForge read. Either error ends the run before the store. Otherwise the
  raw values are stored and the dollar summary is computed.

Abstractions:

- Rust's `str::parse::<f64>` is a parameter `parse: string -> Option<real>`.
  Every property holds for any such parser.
- All arithmetic is exact, over `real`.
- The HTTP request and JSON decoding are an input value `Fetch`. It is either
  the decoded reply or a transport failure, which becomes `RequestError` as the
  source's `?` makes it.
- The clock (`now()` in Postgres) is the parameter `now`, in epoch seconds as a
  `real`.

Where the code and the system's design description differ, the model follows
the code:

- The design says one platform's extraction failure must not stop the other
  platform's reading from being stored. The code uses `?` on both reads, so any
  error ends the run and stores nothing (`Tracker.ModrinthFailureDropsCurseforge`).
- The design says dollar amounts are stored. The code stores the raw Modrinth
  balance and the raw CurseForge points. Dollars are only printed
  (`Tracker.StoresRawPoints`).
- The design says a field of the wrong type is an extraction failure. In the
  code, a Modrinth field that is a JSON number, not a string, reads as absent
  (`Platform.NonStringFieldsReadAsAbsent`).

## Model

| member | source | states |
|---|---|---|
| `Platform.ExtractModrinth` | src/platform.rs:15-42 | no balance exactly when neither field is a string; an error exactly when a present string fails to parse; the error names `available` when that field is malformed and `pending` otherwise, with platform "Modrinth" and the whole reply; a success is the sum with a missing field counted as zero |
| `Platform.GetModrinthBalance` | src/platform.rs:3-43 | a failed request or decoding is `RequestError`; otherwise the result is the extraction of the decoded reply |
| `Platform.NonStringFieldsReadAsAbsent` | src/platform.rs:15-20 | an object whose `available` and `pending` are missing or not strings gives `Ok(None)`, never an error or a zero |
| `Platform.BothMalformedNamesAvailable` | src/platform.rs:22-37 | when both fields are malformed, the error is `ParseError("available")`, because `available` is checked first |
| `Platform.ModrinthBalanceNeedsAString` | src/platform.rs:18-42 | a balance is only reported when at least one field was a string |
| `Platform.ModrinthExamples` | src/platform.rs:15-42 | "10.5" and "2.25" give 12.75; "10.5" alone gives 10.5; an empty object gives no balance |
| `Platform.ExtractCurseforge` | src/platform.rs:57 | `Some(n)` exactly when `userPoints` is an integer in the `i64` range, and then n is that integer |
| `Platform.GetCurseforgeBalance` | src/platform.rs:45-60 | errors exactly on a failed request or decoding, and the reply itself never causes one |
| `Platform.CurseforgeNonIntegersReadAsAbsent` | src/platform.rs:57 | points sent as a float, as a string, or above `i64::MAX` read as absent; 1250 reads as 1250 |
| `Platform.ModrinthBalanceAsUsd` | src/platform.rs:62-65 | the dollars are at most the balance, more than a cent below it, a whole number of cents, and not negative for a balance that is not negative |
| `Platform.ModrinthBalanceAsUsdIsGreatestCentsBelow` | src/platform.rs:63-64 | every whole-cents amount not above the balance is at most the result, so the result is the greatest such amount |
| `Platform.ModrinthBalanceAsUsdIdempotent` | src/platform.rs:63-64 | converting an already converted amount changes nothing |
| `Platform.ModrinthBalanceAsUsdMonotone` | src/platform.rs:63-64 | a larger balance never gives fewer dollars |
| `Platform.ModrinthBalanceAsUsdNeverRoundsUp` | src/platform.rs:62-64 | 1.005 gives 1.00; 12.75 and 10.5 are kept as they are |
| `Platform.CurseforgePointsToUsd` | src/platform.rs:67-71 | in exact arithmetic the result is exactly points × 5 / 100, a whole number of cents, so truncation loses nothing there (the program's doubles can lose a cent) |
| `Platform.CurseforgeUsesModrinthTruncation` | src/platform.rs:67-71 | the points rule equals the dollar truncation applied to points / 100 × 5 |
| `Platform.CurseforgePointsToUsdExamples` | src/platform.rs:68-70 | 100 points give 5.00, 250 give 12.50, 0 give 0.00 |
| `Database.Bucket` | src/database.rs:10 | the bucket is a multiple of 1800 with bucket ≤ t < bucket + 1800 |
| `Database.BucketIsUniqueWindowStart` | src/database.rs:10 | any multiple of 1800 whose window holds t is the bucket of t |
| `Database.SameWindowSameBucket` | src/database.rs:10 | two times in the same 30-minute window get the same bucket, that window's start |
| `Database.BucketOfBucket` | src/database.rs:10 | the bucket of a bucket start is itself |
| `Database.BucketMonotone` | src/database.rs:10 | a later time never gets an earlier bucket |
| `Database.InsertOrIgnore` | src/database.rs:29-31 | the keys gain the current bucket only; an occupied bucket leaves the table unchanged; a free bucket gains exactly one row holding the given values, nulls included; other rows keep their values; keys stay bucket starts |
| `Database.RowsAreImmutable` | src/database.rs:29-30 | over any series of stores, no row is removed or changed, and keys stay bucket starts |
| `Database.OccupiedBucketIgnoresWrites` | src/database.rs:29-30 | any number of stores into a bucket that already has a row leave the table unchanged |
| `Database.FirstWriteWins` | src/database.rs:9-13 | any number of stores in one window into a free bucket add exactly one row, and it holds the first store's values |
| `Database.PayoutTable.constructor` | src/database.rs:9-13 | a new table is empty and its keys are bucket starts |
| `Database.PayoutTable.StoreBalances` | src/database.rs:22-36 | the new table is the old one after insert-or-ignore under the current bucket, so an occupied bucket leaves it unchanged, a free one gains the row; keys stay bucket starts |
| `Tracker.ReadBalances` | src/main.rs:39-43 | given that both environment reads succeed, the run reaches the store exactly when Modrinth gave no error and the CurseForge request succeeded; a Modrinth error wins; on success the values are the raw balance and the raw points |
| `Tracker.MakeReport` | src/main.rs:47-56 | a missing balance or missing points are shown as zero; dollars are whole cents, the Modrinth amount within a cent below the balance, the CurseForge amount exactly points × 5 / 100 |
| `Tracker.RunCycle` | src/main.rs:39-56 | on an error the table is untouched and the error is returned; otherwise the raw values are stored with insert-or-ignore and the summary is returned |
| `Tracker.ModrinthFailureDropsCurseforge` | src/main.rs:39-45 | a malformed Modrinth `available` ends the run with that error whatever CurseForge returned |
| `Tracker.StoresRawPoints` | src/main.rs:45-56 | a run where Modrinth reports nothing and CurseForge reports 100 points stores the row (null, 100) and reports 0.00 and 5.00 dollars |

## Left out

- HTTP requests and JSON decoding (src/platform.rs:7-13, 49-55): network I/O. The decoded reply is an input, and any failure there is `RequestError`.
- `str::parse::<f64>`: a parameter. The model does not say which strings parse. Rust also accepts "inf" and "NaN", which `real` cannot represent.
- f64 rounding: the sum of the two fields and both conversions are modelled in exact arithmetic. In binary floating point, `balance * 100.0` can fall just below a whole number, and then the printed amount is one cent lower than the exact truncation.
- CurseforgePointsToUsd: the exact rule `points × 5 / 100`, and "truncation loses nothing", hold only in this exact-arithmetic model. The program computes `(points as f64 / 100.0) * 5.0 * 100.0` in doubles. For many point counts the product falls just below the whole number of cents; 9 points give 44.99999999999999, for example. The program then reports one cent less, here 0.44 instead of 0.45.
- Postgres storage types: `DOUBLE PRECISION` and `BIGINT` are `real` and `I64`. The conversion of `to_timestamp` to a `TIMESTAMP` column in the session time zone is not modelled. Keys are bucket starts in epoch seconds. This loses something. In a time zone with a daylight-saving fall-back, two epoch buckets an hour apart map to the same local `time` key. `ON CONFLICT` then drops the second hour's rows, which the model would insert.
- Driver and database errors, and `create_tables` on a database where the table already exists: the database is outside the model. `PayoutTable.constructor` stands for a fresh table, and `RunCycle` accepts a table that already holds rows.
- Environment-variable loading, the connection task, and `println!` formatting (src/main.rs:9-34, 38, 41, 47-56): configuration and output. `MakeReport` computes the printed numbers but not the text.
- Tracker.ReadBalances: assumes that reading `MODRINTH_TOKEN` (src/main.rs:38) and `CURSEFORGE_COOKIE` (src/main.rs:41) succeeds. A missing `CURSEFORGE_COOKIE` ends the run with `ConfigurationError` after a good Modrinth read and before any store. The model does not represent that path.
- `From` conversions in src/error.rs: wrappers around library error types, whose payloads are not carried.
