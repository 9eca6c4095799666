/**
 * The `payout` table (src/database.rs): one row per 30-minute bucket, keyed by
 * the bucket's start, written with `INSERT ... ON CONFLICT (time) DO NOTHING`.
 * The table is held in memory as a map from bucket start (epoch seconds) to row.
 */
module Database {
  import opened Wrappers
  import opened Json

  /** Length of a bucket in seconds: 30 minutes. */
  const BucketSeconds: int := 1800

  /**
   * The `time` column's default, `floor(epoch / 1800) * 1800`: the start of
   * the 30-minute window holding `epoch`, a multiple of 1800.
   */
  function Bucket(epoch: real): (b: int)
    ensures b % BucketSeconds == 0
    ensures b as real <= epoch < b as real + BucketSeconds as real
  {
    (epoch / 1800.0).Floor * BucketSeconds
  }

  /** The bucket is the only multiple of 1800 whose window holds the time. */
  lemma BucketIsUniqueWindowStart(epoch: real, b: int)
    requires b % BucketSeconds == 0
    requires b as real <= epoch < b as real + BucketSeconds as real
    ensures Bucket(epoch) == b
  {
    var c := Bucket(epoch);
    var d := b - c;
    assert d % BucketSeconds == 0;
    assert -BucketSeconds < d < BucketSeconds;
    assert d == (d / BucketSeconds) * BucketSeconds;
  }

  /** Two times in the same window share a bucket. */
  lemma SameWindowSameBucket(t1: real, t2: real, k: int)
    requires (k * BucketSeconds) as real <= t1 < ((k + 1) * BucketSeconds) as real
    requires (k * BucketSeconds) as real <= t2 < ((k + 1) * BucketSeconds) as real
    ensures Bucket(t1) == Bucket(t2) == k * BucketSeconds
  {
    BucketIsUniqueWindowStart(t1, k * BucketSeconds);
    BucketIsUniqueWindowStart(t2, k * BucketSeconds);
  }

  /** The bucket of a bucket start is itself. */
  lemma BucketOfBucket(b: int)
    requires b % BucketSeconds == 0
    ensures Bucket(b as real) == b
  {
    BucketIsUniqueWindowStart(b as real, b);
  }

  /** Later times never fall into earlier buckets. */
  lemma BucketMonotone(t1: real, t2: real)
    requires t1 <= t2
    ensures Bucket(t1) <= Bucket(t2)
  {
  }

  /** A row: the Modrinth balance and the CurseForge points, each nullable. */
  datatype Row = Row(modrinthBalance: Option<real>, curseforgePoints: Option<I64>)

  /** Every key of the table is a bucket start, since no insert sets `time` itself. */
  predicate KeysAreBuckets(rows: map<int, Row>) {
    forall t :: t in rows ==> t % BucketSeconds == 0
  }

  /**
   * `store_balances` on the table as a value: a row for the current bucket is
   * added when there is none, and the table is left as it is otherwise.
   */
  function InsertOrIgnore(rows: map<int, Row>, now: real, m: Option<real>, c: Option<I64>): (r: map<int, Row>)
    ensures r.Keys == rows.Keys + {Bucket(now)}
    ensures Bucket(now) in rows ==> r == rows
    ensures Bucket(now) !in rows ==> r[Bucket(now)] == Row(m, c) && |r| == |rows| + 1
    ensures forall t :: t in rows ==> r[t] == rows[t]
    ensures KeysAreBuckets(rows) ==> KeysAreBuckets(r)
  {
    var b := Bucket(now);
    if b in rows then rows else rows[b := Row(m, c)]
  }

  /** One call of `store_balances`: when it ran and what it was given. */
  datatype Write = Write(now: real, modrinthBalance: Option<real>, curseforgePoints: Option<I64>)

  /** The table after a series of calls, in order. */
  function InsertAll(rows: map<int, Row>, writes: seq<Write>): map<int, Row>
    decreases |writes|
  {
    if writes == [] then rows
    else
      var w := writes[0];
      InsertAll(InsertOrIgnore(rows, w.now, w.modrinthBalance, w.curseforgePoints), writes[1..])
  }

  predicate AllInBucket(writes: seq<Write>, b: int) {
    forall i :: 0 <= i < |writes| ==> Bucket(writes[i].now) == b
  }

  /** Once written, a row is never changed, and every key stays a bucket start. */
  lemma {:induction false} RowsAreImmutable(rows: map<int, Row>, writes: seq<Write>)
    ensures rows.Keys <= InsertAll(rows, writes).Keys
    ensures forall t :: t in rows ==> InsertAll(rows, writes)[t] == rows[t]
    ensures KeysAreBuckets(rows) ==> KeysAreBuckets(InsertAll(rows, writes))
    decreases |writes|
  {
    if writes != [] {
      var w := writes[0];
      RowsAreImmutable(InsertOrIgnore(rows, w.now, w.modrinthBalance, w.curseforgePoints), writes[1..]);
    }
  }

  /** Writes into a bucket that already has a row change nothing. */
  lemma {:induction false} OccupiedBucketIgnoresWrites(rows: map<int, Row>, writes: seq<Write>, b: int)
    requires b in rows && AllInBucket(writes, b)
    ensures InsertAll(rows, writes) == rows
    decreases |writes|
  {
    if writes != [] {
      OccupiedBucketIgnoresWrites(rows, writes[1..], b);
    }
  }

  /**
   * Any number of runs within one 30-minute window leave exactly one new row,
   * holding what the first run stored: the first write wins.
   */
  lemma {:induction false} FirstWriteWins(rows: map<int, Row>, writes: seq<Write>)
    requires |writes| > 0
    requires Bucket(writes[0].now) !in rows
    requires AllInBucket(writes, Bucket(writes[0].now))
    ensures InsertAll(rows, writes)
         == rows[Bucket(writes[0].now) := Row(writes[0].modrinthBalance, writes[0].curseforgePoints)]
    ensures |InsertAll(rows, writes)| == |rows| + 1
  {
    var w := writes[0];
    var b := Bucket(w.now);
    var first := InsertOrIgnore(rows, w.now, w.modrinthBalance, w.curseforgePoints);
    assert AllInBucket(writes[1..], b);
    OccupiedBucketIgnoresWrites(first, writes[1..], b);
  }

  /** The `payout` table: its rows keyed by `time`, the primary key. */
  class PayoutTable {
    var rows: map<int, Row>

    ghost predicate Valid()
      reads this
    {
      KeysAreBuckets(rows)
    }

    /** `create_tables` on a database that has no `payout` table yet. */
    constructor ()
      ensures Valid() && rows == map[]
    {
      rows := map[];
    }

    /**
     * `store_balances` at time `now`: inserts `(m, c)` under the current
     * bucket unless that bucket already has a row; a row with both values
     * null is inserted like any other; no other row is touched.
     */
    method StoreBalances(now: real, m: Option<real>, c: Option<I64>)
      requires Valid()
      modifies this
      ensures Valid()
      ensures rows == InsertOrIgnore(old(rows), now, m, c)
      ensures Bucket(now) in old(rows) ==> rows == old(rows)
      ensures Bucket(now) !in old(rows) ==> rows == old(rows)[Bucket(now) := Row(m, c)]
    {
      var b := Bucket(now);
      if b !in rows {
        rows := rows[b := Row(m, c)];
      }
    }
  }
}
