/**
 * The monthly usage ledger (lib/usage.ts:1-29): the `usageLimits` table holds
 * one row per user and month key with the number of quota units consumed, and
 * `incrementUsage` adds to the row of the current month or creates it.
 */
module Usage {
  import opened Wrappers
  import opened MonthKeys

  /** One row of the `usageLimits` table. */
  datatype UsageRecord = UsageRecord(id: string, userId: string, month: string, count: int)

  /** The `where` clause of the lookup: same user and same month key. */
  predicate Matches(r: UsageRecord, userId: string, month: string) {
    r.userId == userId && r.month == month
  }

  ghost function Ids(rows: seq<UsageRecord>): set<string> {
    set i | 0 <= i < |rows| :: rows[i].id
  }

  /** The `id` column is the table's primary key: no two rows share an id. */
  ghost predicate IdsUnique(rows: seq<UsageRecord>) {
    forall i, j :: 0 <= i < j < |rows| ==> rows[i].id != rows[j].id
  }

  /** At most one row per (user, month key). */
  ghost predicate KeysUnique(rows: seq<UsageRecord>) {
    forall i, j :: 0 <= i < j < |rows| ==> !Matches(rows[j], rows[i].userId, rows[i].month)
  }

  /**
   * `tx.query.usageLimits.findFirst` for (userId, month): the position of the
   * first matching row in table order, or None when no row matches.
   */
  function FindFirst(rows: seq<UsageRecord>, userId: string, month: string): (found: Option<nat>)
    ensures found.Some? ==> found.value < |rows| && Matches(rows[found.value], userId, month)
    ensures found.Some? ==> forall j :: 0 <= j < found.value ==> !Matches(rows[j], userId, month)
    ensures found.None? ==> forall j :: 0 <= j < |rows| ==> !Matches(rows[j], userId, month)
  {
    if rows == [] then None
    else if Matches(rows[0], userId, month) then Some(0)
    else match FindFirst(rows[1..], userId, month)
      case None => None
      case Some(i) => Some(i + 1)
  }

  /** Units consumed by `userId` in `month`: the count of the row the lookup finds, 0 if none. */
  function Used(rows: seq<UsageRecord>, userId: string, month: string): (n: int)
    ensures (forall j :: 0 <= j < |rows| ==> !Matches(rows[j], userId, month)) ==> n == 0
    ensures n != 0 ==> exists i :: 0 <= i < |rows| && Matches(rows[i], userId, month) && rows[i].count == n
  {
    match FindFirst(rows, userId, month)
    case None => 0
    case Some(i) => rows[i].count
  }

  /** `tx.update(usageLimits).set({count: c}).where(eq(usageLimits.id, id))` (lib/usage.ts:16-18). */
  function SetCountWhereId(rows: seq<UsageRecord>, id: string, c: int): (r: seq<UsageRecord>)
    ensures |r| == |rows|
    ensures forall k :: 0 <= k < |rows| ==> r[k] == rows[k].(count := if rows[k].id == id then c else rows[k].count)
  {
    seq(|rows|, k requires 0 <= k < |rows| => if rows[k].id == id then rows[k].(count := c) else rows[k])
  }

  /**
   * While `id` is the primary key, updating by the id of row `i` changes
   * that row's count and nothing else.
   */
  lemma SetCountAtUniqueId(rows: seq<UsageRecord>, i: nat, c: int)
    requires IdsUnique(rows) && i < |rows|
    ensures SetCountWhereId(rows, rows[i].id, c) == rows[i := rows[i].(count := c)]
  {
    var after := SetCountWhereId(rows, rows[i].id, c);
    var expected := rows[i := rows[i].(count := c)];
    forall k | 0 <= k < |rows|
      ensures after[k] == expected[k]
    {
      if k < i {
        assert rows[k].id != rows[i].id;
      } else if k > i {
        assert rows[i].id != rows[k].id;
      }
    }
    assert after == expected;
  }

  /**
   * The body of the transaction (lib/usage.ts:7-27) on the table's rows:
   * overwrite the found row's count with its old count plus `count`, or
   * append a new row whose id is `freshId`.
   */
  function Upsert(rows: seq<UsageRecord>, userId: string, month: string, count: int, freshId: string): (r: seq<UsageRecord>)
    ensures |r| == if FindFirst(rows, userId, month).Some? then |rows| else |rows| + 1
  {
    match FindFirst(rows, userId, month)
    case Some(i) => SetCountWhereId(rows, rows[i].id, rows[i].count + count)
    case None => rows + [UsageRecord(freshId, userId, month, count)]
  }

  /** A bound on the length of every id in the table. */
  function LongestId(rows: seq<UsageRecord>): (n: nat)
    ensures forall i :: 0 <= i < |rows| ==> |rows[i].id| <= n
  {
    if rows == [] then 0
    else var rest := LongestId(rows[1..]); if |rows[0].id| > rest then |rows[0].id| else rest
  }

  /** Stands in for `nanoid()`: an id that no row of the table has. */
  function FreshId(rows: seq<UsageRecord>): (id: string)
    ensures forall i :: 0 <= i < |rows| ==> rows[i].id != id
  {
    seq(LongestId(rows) + 1, _ => 'n')
  }

  /** With one row per key, the lookup finds that row, whatever the table order. */
  lemma FindFirstUnique(rows: seq<UsageRecord>, i: nat)
    requires KeysUnique(rows) && i < |rows|
    ensures FindFirst(rows, rows[i].userId, rows[i].month) == Some(i)
    ensures Used(rows, rows[i].userId, rows[i].month) == rows[i].count
  {
    forall j | 0 <= j < i
      ensures !Matches(rows[j], rows[i].userId, rows[i].month)
    {
      assert !Matches(rows[i], rows[j].userId, rows[j].month);
    }
  }

  /**
   * What the transaction does to the table: when a row is found, only that
   * row's count changes, to its old count plus `count`; otherwise exactly one
   * row is appended, with the caller's user, month and count, and all old rows
   * stay as they were.
   */
  lemma UpsertEffect(rows: seq<UsageRecord>, userId: string, month: string, count: int, freshId: string)
    requires IdsUnique(rows)
    ensures match FindFirst(rows, userId, month)
      case Some(i) => Upsert(rows, userId, month, count, freshId) == rows[i := rows[i].(count := rows[i].count + count)]
      case None => Upsert(rows, userId, month, count, freshId) == rows + [UsageRecord(freshId, userId, month, count)]
  {
    match FindFirst(rows, userId, month)
    case None =>
    case Some(i) =>
      var c := rows[i].count + count;
      SetCountAtUniqueId(rows, i, c);
      assert Upsert(rows, userId, month, count, freshId) == SetCountWhereId(rows, rows[i].id, c);
  }

  /**
   * The primary key stays a key when the new row's id is fresh, and the only
   * id the transaction can add is that one.
   */
  lemma UpsertKeepsIdsUnique(rows: seq<UsageRecord>, userId: string, month: string, count: int, freshId: string)
    requires IdsUnique(rows) && freshId !in Ids(rows)
    ensures IdsUnique(Upsert(rows, userId, month, count, freshId))
    ensures Ids(Upsert(rows, userId, month, count, freshId)) <= Ids(rows) + {freshId}
  {
    var after := Upsert(rows, userId, month, count, freshId);
    match FindFirst(rows, userId, month)
    case Some(i) =>
      forall x | x in Ids(after) ensures x in Ids(rows) {
        var k :| 0 <= k < |after| && after[k].id == x;
        assert rows[k].id == x;
      }
    case None =>
      forall k | 0 <= k < |rows| ensures rows[k].id != freshId {
        assert rows[k].id in Ids(rows);
      }
      forall x | x in Ids(after) ensures x in Ids(rows) + {freshId} {
        var k :| 0 <= k < |after| && after[k].id == x;
        if k < |rows| {
          assert after[k] == rows[k];
        }
      }
  }

  /**
   * An insert happens only when the lookup found nothing, so a table with at
   * most one row per (user, month) keeps that property.
   */
  lemma UpsertKeepsKeysUnique(rows: seq<UsageRecord>, userId: string, month: string, count: int, freshId: string)
    requires KeysUnique(rows)
    ensures KeysUnique(Upsert(rows, userId, month, count, freshId))
  {
    var after := Upsert(rows, userId, month, count, freshId);
    match FindFirst(rows, userId, month)
    case Some(i) =>
      forall a, b | 0 <= a < b < |after|
        ensures !Matches(after[b], after[a].userId, after[a].month)
      {
        assert !Matches(rows[b], rows[a].userId, rows[a].month);
      }
    case None =>
      forall a, b | 0 <= a < b < |after|
        ensures !Matches(after[b], after[a].userId, after[a].month)
      {
        if b < |rows| {
          assert !Matches(rows[b], rows[a].userId, rows[a].month);
        } else {
          assert !Matches(rows[a], userId, month);
        }
      }
  }

  /** After an increment by `count`, the key's usage has grown by exactly `count`. */
  lemma UsedAfterUpsert(rows: seq<UsageRecord>, userId: string, month: string, count: int, freshId: string)
    ensures Used(Upsert(rows, userId, month, count, freshId), userId, month) == Used(rows, userId, month) + count
  {
    var after := Upsert(rows, userId, month, count, freshId);
    match FindFirst(rows, userId, month)
    case Some(i) =>
      assert FindFirst(after, userId, month) == Some(i) by {
        var found := FindFirst(after, userId, month);
        assert Matches(after[i], userId, month);
        assert found.Some? && found.value <= i;
        assert Matches(rows[found.value], userId, month);
      }
    case None =>
      forall k | 0 <= k < |rows|
        ensures after[k] == rows[k]
      {
      }
      assert Matches(after[|rows|], userId, month);
  }

  /**
   * The lookup matches on user and month together, so an increment leaves the
   * usage of every other user and of every other month key unchanged.
   */
  lemma UsedIsolation(rows: seq<UsageRecord>, userId: string, month: string, count: int, freshId: string,
                      otherUser: string, otherMonth: string)
    requires IdsUnique(rows)
    requires otherUser != userId || otherMonth != month
    ensures Used(Upsert(rows, userId, month, count, freshId), otherUser, otherMonth) == Used(rows, otherUser, otherMonth)
  {
    var after := Upsert(rows, userId, month, count, freshId);
    UpsertEffect(rows, userId, month, count, freshId);
    match FindFirst(rows, userId, month)
    case Some(i) =>
      assert |after| == |rows|;
      forall k | 0 <= k < |rows|
        ensures Matches(after[k], otherUser, otherMonth) == Matches(rows[k], otherUser, otherMonth)
        ensures Matches(after[k], otherUser, otherMonth) ==> after[k] == rows[k]
      {
      }
      SameMatchesSameUsed(rows, after, otherUser, otherMonth);
    case None =>
      assert !Matches(after[|rows|], otherUser, otherMonth);
      forall k | 0 <= k < |rows|
        ensures after[k] == rows[k]
      {
      }
      AppendUnmatchedUsed(rows, after[|rows|], otherUser, otherMonth);
  }

  /** Two tables of equal length whose matching rows agree give the same usage. */
  lemma {:induction false} SameMatchesSameUsed(rows: seq<UsageRecord>, other: seq<UsageRecord>, userId: string, month: string)
    requires |rows| == |other|
    requires forall k :: 0 <= k < |rows| ==> Matches(other[k], userId, month) == Matches(rows[k], userId, month)
    requires forall k :: 0 <= k < |rows| && Matches(other[k], userId, month) ==> other[k] == rows[k]
    ensures FindFirst(other, userId, month) == FindFirst(rows, userId, month)
    ensures Used(other, userId, month) == Used(rows, userId, month)
  {
    if rows != [] {
      SameMatchesSameUsed(rows[1..], other[1..], userId, month);
    }
  }

  /** Appending a row of another key changes nobody's lookup for this key. */
  lemma {:induction false} AppendUnmatchedUsed(rows: seq<UsageRecord>, r: UsageRecord, userId: string, month: string)
    requires !Matches(r, userId, month)
    ensures FindFirst(rows + [r], userId, month) == FindFirst(rows, userId, month)
    ensures Used(rows + [r], userId, month) == Used(rows, userId, month)
  {
    if rows != [] {
      assert (rows + [r])[1..] == rows[1..] + [r];
      AppendUnmatchedUsed(rows[1..], r, userId, month);
    }
  }

  /**
   * An increment by 0 leaves the key's usage as it was; when no row existed,
   * one is still created (with count 0).
   */
  lemma ZeroIncrement(rows: seq<UsageRecord>, userId: string, month: string, freshId: string)
    ensures Used(Upsert(rows, userId, month, 0, freshId), userId, month) == Used(rows, userId, month)
    ensures FindFirst(Upsert(rows, userId, month, 0, freshId), userId, month).Some?
  {
    UsedAfterUpsert(rows, userId, month, 0, freshId);
    var after := Upsert(rows, userId, month, 0, freshId);
    match FindFirst(rows, userId, month)
    case Some(i) =>
      assert Matches(after[i], userId, month);
    case None =>
      assert Matches(after[|rows|], userId, month);
  }

  /** One call of `incrementUsage`, with the id `nanoid()` would give if a row is inserted. */
  datatype Increment = Increment(userId: string, month: string, delta: int, id: string)

  /** The table after the given increments, applied one after the other. */
  function Run(rows: seq<UsageRecord>, ops: seq<Increment>): seq<UsageRecord>
    decreases |ops|
  {
    if ops == [] then rows
    else Run(Upsert(rows, ops[0].userId, ops[0].month, ops[0].delta, ops[0].id), ops[1..])
  }

  /** The sum of the deltas of the increments for (userId, month). */
  function DeltaSum(ops: seq<Increment>, userId: string, month: string): int
    decreases |ops|
  {
    if ops == [] then 0
    else
      var own := if ops[0].userId == userId && ops[0].month == month then ops[0].delta else 0;
      own + DeltaSum(ops[1..], userId, month)
  }

  /**
   * At each step, the id that step would give a new row is not yet in the
   * table it runs on; this is what `IncrementUsage` promises of its id.
   */
  ghost predicate StepFresh(rows: seq<UsageRecord>, ops: seq<Increment>)
    decreases |ops|
  {
    ops != [] ==>
      && ops[0].id !in Ids(rows)
      && StepFresh(Upsert(rows, ops[0].userId, ops[0].month, ops[0].delta, ops[0].id), ops[1..])
  }

  /**
   * Any sequence of increments, for any mix of users and months, leaves each
   * key's usage equal to its usage before plus the sum of that key's deltas.
   */
  lemma {:induction false} RunUsed(rows: seq<UsageRecord>, ops: seq<Increment>, userId: string, month: string)
    requires IdsUnique(rows) && StepFresh(rows, ops)
    ensures Used(Run(rows, ops), userId, month) == Used(rows, userId, month) + DeltaSum(ops, userId, month)
    decreases |ops|
  {
    if ops != [] {
      var op := ops[0];
      var next := Upsert(rows, op.userId, op.month, op.delta, op.id);
      UpsertKeepsIdsUnique(rows, op.userId, op.month, op.delta, op.id);
      RunUsed(next, ops[1..], userId, month);
      if op.userId == userId && op.month == month {
        UsedAfterUpsert(rows, op.userId, op.month, op.delta, op.id);
      } else {
        UsedIsolation(rows, op.userId, op.month, op.delta, op.id, userId, month);
      }
    }
  }

  /**
   * Starting from no row for (userId, month), increments d1..dn for that key
   * leave its usage at d1 + ... + dn.
   */
  lemma SameKeySum(rows: seq<UsageRecord>, ops: seq<Increment>, userId: string, month: string)
    requires IdsUnique(rows) && StepFresh(rows, ops)
    requires FindFirst(rows, userId, month).None?
    requires forall k :: 0 <= k < |ops| ==> ops[k].userId == userId && ops[k].month == month
    ensures Used(Run(rows, ops), userId, month) == Deltas(ops)
  {
    RunUsed(rows, ops, userId, month);
    DeltaSumAllSameKey(ops, userId, month);
  }

  /** The sum of all deltas in `ops`. */
  function Deltas(ops: seq<Increment>): int
    decreases |ops|
  {
    if ops == [] then 0 else ops[0].delta + Deltas(ops[1..])
  }

  /** When every increment is for one key, that key's delta sum is the sum of all deltas. */
  lemma {:induction false} DeltaSumAllSameKey(ops: seq<Increment>, userId: string, month: string)
    requires forall k :: 0 <= k < |ops| ==> ops[k].userId == userId && ops[k].month == month
    ensures DeltaSum(ops, userId, month) == Deltas(ops)
  {
    if ops != [] {
      DeltaSumAllSameKey(ops[1..], userId, month);
    }
  }

  /**
   * Increments in one month bucket do not change the usage of any other
   * month bucket of the same user: distinct (year, month) pairs give
   * distinct keys.
   */
  lemma MonthBucketIsolation(rows: seq<UsageRecord>, userId: string, y1: int, m1: MonthIndex, y2: int, m2: MonthIndex,
                             count: int, freshId: string)
    requires IdsUnique(rows)
    requires y1 != y2 || m1 != m2
    ensures Used(Upsert(rows, userId, MonthKey(y1, m1), count, freshId), userId, MonthKey(y2, m2))
         == Used(rows, userId, MonthKey(y2, m2))
  {
    MonthKeyInjective(y1, m1, y2, m2);
    UsedIsolation(rows, userId, MonthKey(y1, m1), count, freshId, userId, MonthKey(y2, m2));
  }

  /** Everything one transaction guarantees, gathered for the method that runs it. */
  lemma UpsertSummary(rows: seq<UsageRecord>, userId: string, month: string, count: int, freshId: string,
                      after: seq<UsageRecord>)
    requires IdsUnique(rows) && freshId !in Ids(rows)
    requires after == Upsert(rows, userId, month, count, freshId)
    ensures IdsUnique(after)
    ensures match FindFirst(rows, userId, month)
      case Some(i) => after == rows[i := rows[i].(count := rows[i].count + count)]
      case None => after == rows + [UsageRecord(freshId, userId, month, count)]
    ensures Used(after, userId, month) == Used(rows, userId, month) + count
    ensures forall u, m :: u != userId || m != month ==> Used(after, u, m) == Used(rows, u, m)
    ensures KeysUnique(rows) ==> KeysUnique(after)
  {
    UpsertEffect(rows, userId, month, count, freshId);
    UpsertKeepsIdsUnique(rows, userId, month, count, freshId);
    UsedAfterUpsert(rows, userId, month, count, freshId);
    forall u, m | u != userId || m != month
      ensures Used(after, u, m) == Used(rows, u, m)
    {
      UsedIsolation(rows, userId, month, count, freshId, u, m);
    }
    if KeysUnique(rows) {
      UpsertKeepsKeysUnique(rows, userId, month, count, freshId);
    }
  }

  /** The `usageLimits` table, updated in place by `incrementUsage`. */
  class UsageLimits {
    var rows: seq<UsageRecord>

    ghost predicate Valid()
      reads this
    {
      IdsUnique(rows)
    }

    constructor ()
      ensures Valid() && rows == []
    {
      rows := [];
    }

    /**
     * `incrementUsage(userId, count)` for a clock reading `year`, `monthIndex`
     * (lib/usage.ts:1-29), run as one atomic step. `insertedId` is the id a
     * new row receives; it is only meaningful when no row was found.
     */
    method IncrementUsage(userId: string, year: int, monthIndex: MonthIndex, count: int) returns (ghost insertedId: string)
      requires Valid()
      modifies this
      ensures Valid()
      ensures insertedId !in Ids(old(rows))
      ensures rows == Upsert(old(rows), userId, MonthKey(year, monthIndex), count, insertedId)
      ensures FindFirst(old(rows), userId, MonthKey(year, monthIndex)).None? ==>
        rows == old(rows) + [UsageRecord(insertedId, userId, MonthKey(year, monthIndex), count)]
      ensures forall i :: FindFirst(old(rows), userId, MonthKey(year, monthIndex)) == Some(i) ==>
        rows == old(rows)[i := old(rows)[i].(count := old(rows)[i].count + count)]
      ensures Used(rows, userId, MonthKey(year, monthIndex)) == old(Used(rows, userId, MonthKey(year, monthIndex))) + count
      ensures forall u, m :: u != userId || m != MonthKey(year, monthIndex) ==> Used(rows, u, m) == old(Used(rows, u, m))
      ensures KeysUnique(old(rows)) ==> KeysUnique(rows)
    {
      var month := MonthKey(year, monthIndex);
      var id := FreshId(rows);
      insertedId := id;
      var table := rows;
      var record := FindFirst(table, userId, month);
      var updated;
      if record.Some? {
        var r := table[record.value];
        updated := SetCountWhereId(table, r.id, r.count + count);
      } else {
        updated := table + [UsageRecord(id, userId, month, count)];
      }
      assert updated == Upsert(table, userId, month, count, id);
      UpsertSummary(table, userId, month, count, id, updated);
      rows := updated;
    }
  }
}
