# Monthly usage ledger

A Dafny model of the usage ledger of a lead-generation SaaS starter: the
function `incrementUsage(userId, count)` in `lib/usage.ts`. It meters how many
quota units each user has consumed per calendar month in a `usageLimits`
table. It works in two steps:

1. It builds a month key from the clock: the decimal year, a `-`, then the
   1-based month padded to two digits ("2024-03").
2. Inside one transaction it looks up the row for (userId, month key). If
   there is one, it overwrites that row's `count` with the old count plus
   `count`, selecting the row by its `id`. If there is none, it inserts a new
   row with a fresh `nanoid()` id, the user, the month key and `count`.

Files:

- `wrappers.dfy`: module `Wrappers`, the `Option` datatype.
- `month_key.dfy`: module `MonthKeys`. It holds the key string (`MonthKey`),
  the decimal rendering of `String(n)` and `String(year)`, and
  `padStart(2, '0')`. It also holds a parser for keys, with a round-trip
  lemma. From that lemma it proves that distinct (year, month) pairs give
  distinct keys.
- `usage.dfy`: module `Usage`. The table is a sequence of `UsageRecord` rows.
  It defines the lookup `FindFirst`, the read function `Used` (count of the
  found row, 0 when there is none), and the transaction as the function
  `Upsert`. It proves lemmas about these. The class `UsageLimits` holds the
  table in a field `rows`, and its method `IncrementUsage` changes the table
  in place.

The clock is not modelled: `IncrementUsage` takes the `year` and the 0-based
`monthIndex` that `getFullYear()` and `getMonth()` would return.
`MonthIndex` is the type `0..11`.

`count` is an unbounded `int`. The source at lib/usage.ts:1 checks neither
`count` nor `userId`, so the model accepts negative counts and has no error
cases.

## Model

| member | source | states |
|---|---|---|
| `MonthKeys.NatToDecimal` | lib/usage.ts:3 | `String(n)` of a non-negative integer is a non-empty run of decimal digits with no leading zero; it is one character long exactly when n < 10 |
| `MonthKeys.DecimalRoundTrip` | lib/usage.ts:3 | reading back the digits `String(n)` writes gives n again |
| `MonthKeys.IntRoundTrip` | lib/usage.ts:3 | `String(year)`, with a minus sign for negative years, reads back as the same year |
| `MonthKeys.IntToDecimal` | lib/usage.ts:3 | `String(year)` is non-empty, starts with `-` exactly when the year is negative, a digit follows the sign, and the first digit is `0` only for the year 0 (no leading zero); `IntRoundTrip` gives its value |
| `MonthKeys.PadStart` | lib/usage.ts:3 | `padStart(width, fill)` yields max(length, width) characters: the original string at the end, fill characters before it |
| `MonthKeys.MonthPart` | lib/usage.ts:3 | `String(monthIndex + 1).padStart(2, '0')` is two characters, `0` or `1` then a digit |
| `MonthKeys.MonthPartDigits` | lib/usage.ts:3 | the month part is `0` followed by the month's digit for January to September, and `1` followed by the last digit for October to December |
| `MonthKeys.MonthPartShape` | lib/usage.ts:3 | the month part is always exactly two decimal digits whose value is monthIndex + 1 |
| `MonthKeys.MonthPartTable` | lib/usage.ts:3 | month index 0..11 gives exactly entry m of the written table "01", "02", …, "12" |
| `MonthKeys.MonthKey` | lib/usage.ts:2-3 | the key is the year's text, then `-` at the third position from the end, then the two-character month part; `MonthKeyRoundTrip` and `MonthKeyInjective` show the key determines the month |
| `MonthKeys.MonthKeyRoundTrip` | lib/usage.ts:2-3 | the key `year-MM` parses back into the year and month index it was made from |
| `MonthKeys.MonthKeyInjective` | lib/usage.ts:2-3 | two (year, month index) pairs give the same key if and only if they are equal |
| `Usage.FindFirst` | lib/usage.ts:7-12 | the lookup returns a row matching both userId and month with no matching row before it, or None exactly when no row matches |
| `Usage.Used` | lib/usage.ts:7-17 | the usage of a key no row matches is 0, and a non-zero usage is the count of a row matching both userId and month; with one row per key, `FindFirstUnique` gives the converse: the usage is exactly that row's count |
| `Usage.FindFirstUnique` | lib/usage.ts:7-12 | in a table with one row per (user, month), the lookup finds that row and `Used` is its count |
| `Usage.FreshId` | lib/usage.ts:22 | the id given to an inserted row differs from the id of every existing row |
| `Usage.UpsertEffect` | lib/usage.ts:14-26 | when a row is found, the only change is its count, which becomes old count + count; otherwise exactly one row (fresh id, userId, month, count) is appended and every old row is untouched |
| `Usage.SetCountWhereId` | lib/usage.ts:16-18 | the update by id keeps the table's length and every row except for its count, which becomes the new value exactly in the rows with that id |
| `Usage.SetCountAtUniqueId` | lib/usage.ts:16-18 | while ids are unique, updating by the id of row i is the positional update of row i's count and changes no other row |
| `Usage.Upsert` | lib/usage.ts:7-27 | the transaction keeps the table's length when the lookup finds a row and adds exactly one row otherwise; `UpsertEffect` and `UsedAfterUpsert` give the full effect |
| `Usage.UpsertKeepsIdsUnique` | lib/usage.ts:19-26 | with a fresh insert id, ids stay unique, and the only id that can appear is the fresh one |
| `Usage.UpsertKeepsKeysUnique` | lib/usage.ts:7-26 | an insert happens only when no row matched, so at most one row per (user, month) before means at most one after |
| `Usage.UsedAfterUpsert` | lib/usage.ts:14-27 | after an increment by count, the usage of that (user, month) is its old usage plus count, whether the row existed or not |
| `Usage.UsedIsolation` | lib/usage.ts:8-11 | an increment leaves the usage of every other user and every other month key unchanged |
| `Usage.MonthBucketIsolation` | lib/usage.ts:2-11 | an increment in month (y1, m1) leaves the same user's usage in any other month (y2, m2) unchanged |
| `Usage.ZeroIncrement` | lib/usage.ts:14-26 | an increment by 0 leaves the key's usage unchanged, and afterwards a row for the key exists (created with count 0 if it was absent) |
| `Usage.RunUsed` | lib/usage.ts:5-28 | after any sequence of increments over any users and months, each key's usage is its old usage plus the sum of that key's deltas; each step needs only that its insert id is new to the table it runs on, which is what `IncrementUsage` promises |
| `Usage.SameKeySum` | lib/usage.ts:14-27 | starting from no row, increments d1..dn for one (user, month) leave its usage at d1 + … + dn |
| `Usage.UpsertSummary` | lib/usage.ts:7-27 | for the table `after` one transaction produces from a table with unique ids, with a fresh insert id: ids stay unique, only the found row's count changes (or one row is appended), the key's usage grows by count, every other key's usage is unchanged, and one row per (user, month) is preserved |
| `Usage.UsageLimits.IncrementUsage` | lib/usage.ts:1-29 | the table becomes `Upsert` of the old table with a fresh id. The found row's count grows by count, or one new row is appended. The key's usage grows by count and every other key's usage is unchanged. Ids stay unique, and at most one row per (user, month) is preserved |

## Left out

- Transactions and concurrency: `db.transaction` (lib/usage.ts:5) is modelled as one atomic step on the table. The behaviour of concurrent callers (lost updates, two racing inserts) depends on the database's isolation level and is not modelled.
- Clock and time zone: `new Date()`, `getFullYear()` and `getMonth()` (lib/usage.ts:2-3) become the parameters `year` and `monthIndex`.
- Usage.FreshId: `nanoid()` (lib/usage.ts:22) is random. The model uses one deterministic fresh id, and its contract promises only that the id is not already in the table. A random id colliding with an existing one is not modelled.
- Usage.UsageLimits.IncrementUsage: the source returns nothing. The ghost out-parameter `insertedId` exists only to name the id of an inserted row in the contract.
- Usage.FindFirst: `findFirst` without an ordering may return any matching row. The model takes the first in table order. With one row per (user, month) the choice does not matter (`Usage.FindFirstUnique`).
- The uniqueness of `id` is assumed as the table's primary key, and is the class invariant `Valid()`. The schema is not part of this model.
- Numbers: `count` is a JavaScript `number`. Floating-point rounding above 2^53 and non-integer counts are not modelled; the model uses unbounded integers.
- Storage failures: an exception thrown by the database propagates to the caller. No failure path is modelled.
- The drizzle query, update and insert APIs are modelled by their effect on the table only.
- `checkUsageLimit` (imported in app/api/campaigns/create/route.ts:5) is not part of this model. Its remaining/limit computation is not visible, so the quota comparison at route.ts:19 is not modelled, and neither is a "remaining" read.
- The request handlers in app/api/campaigns/create/route.ts and app/api/campaign-status/routes.ts, and the upload form in components/leads/lead-upload.tsx, are plumbing: authentication, HTTP calls, JSON and UI. They are not modelled.
