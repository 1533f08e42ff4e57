# Visa-policy data pipeline of globereach, in Dafny

This project models the data pipeline behind the globereach passport map.
The data lives in two JSON lookup files, `visaPolicy.json` and
`visaDuration.json`. Each one maps a passport to an object that maps a
destination to an integer. The data also lives in the `visa_policies`
table, whose key is (passport, destination). The pipeline has these parts:

- **seed generator** (`scripts/generate-seed-sql.js`). It turns every
  (passport, destination) entry into a row tuple. String values are written
  as SQL character string literals with doubled quotes. The tuples go into
  `INSERT ... ON CONFLICT ... DO UPDATE` statements of 200 rows each.
- **seed splitter** (`scripts/split-seed-sql.js`). It cuts the seed file
  into statements at blank lines and drops the blank pieces. It then deals
  the statements into exactly six parts of at most ceil(n/6) statements
  each. The trailing parts can be shorter, or empty.
- **seeder** (`scripts/seed-supabase.js`). It builds the rows passport by
  passport and upserts them 500 at a time. It counts the rows of every
  upsert that succeeded, and a failed upsert does not stop the later ones.
- **admin API**:
  - `pages/api/admin/visa-policies.ts` reads the table (GET, filtered and
    ordered by destination). Behind the shared secret it also upserts one
    entry (PUT) or deletes one (DELETE).
  - `pages/api/admin/publish.ts` reads the whole table and folds it back into
    the two lookup files.
  - `pages/api/admin/auth.ts` checks the sign-in password.

Modules, one per concern:

- `JsValues` models JavaScript values: optional request fields and their
  truthiness, plain objects as keys in enumeration order plus a field map,
  `join` and the blank test of `trim`.
- `Slices` models `slice` with clamped bounds, `Math.ceil(a / b)` and the
  stride loops, with the partition lemmas that all three batching loops
  share.
- `PolicyData` holds rows, the table, the lookup files and the rows that
  the lookup files describe.
- `Http` holds status codes and response bodies.
- `AdminAuth`, `Publish` and `Gateway` model the three endpoints. The
  visa-policies endpoint is the class `Gateway.PolicyStore`, whose `table`
  field its handler updates.
- `SeedSql`, `SplitSeed` and `Seeder` model the three scripts.
- `Pipeline` holds the end-to-end properties: seed, then list, then publish.

The database is modelled in three ways:

- **publish:** the read is the parameter `fetch`, either the rows or an
  error message.
- **visa-policies handler:** the store is the class's `table` field. The
  parameter `storeError` says whether the database call fails.
- **seeder:** the outcome of each upsert is an oracle
  `succeeds(passport, i)`. A successful upsert writes its whole batch. A
  failed one writes nothing.

ADMIN_PASSWORD, the Supabase URL and the Supabase key are parameters:
`None` when the variable is unset.

## Model

| member | source | states |
|---|---|---|
| JsValues.Obj.Put | pages/api/admin/publish.ts:30-33 | assigning `o[k] = v` keeps a well-formed object well formed; an existing key keeps its place in `Object.keys`, a new key is enumerated last |
| Slices.CeilDiv | scripts/split-seed-sql.js:9 | the result is the least q with q * b >= a, i.e. `Math.ceil(a / b)` |
| Slices.Strides | scripts/split-seed-sql.js:11-12 | exactly `count` slices, none longer than the width |
| Slices.StridesConcat | scripts/split-seed-sql.js:11-12 | the slices laid end to end are the prefix of the list they cover, in order |
| Slices.BatchesPartition | scripts/generate-seed-sql.js:28-29 | the stride loop's batches laid end to end are the whole list; there are ceil(n/size) of them, each holds 1 to size elements, all but the last exactly size |
| Slices.BelowCeil | scripts/seed-supabase.js:41 | the loop `i += size` is still running after k steps exactly when k < ceil(n/size) |
| PolicyData.DurationOf | scripts/generate-seed-sql.js:21 | `(visaDuration[p] && visaDuration[p][d]) \|\| 0` is the duration file's value when it has one, 0 otherwise |
| PolicyData.PassportRows | scripts/seed-supabase.js:34-39 | one row per destination of the passport |
| PolicyData.UpsertAllAppend | scripts/seed-supabase.js:41-45 | upserting two batches in turn is upserting their concatenation |
| PolicyData.UpsertAllKeys | scripts/seed-supabase.js:43-45 | upserting gives the table exactly its old keys and the rows' keys |
| PolicyData.UpsertAllOthers | scripts/seed-supabase.js:43-45 | upserting leaves every key the rows do not name with its old values |
| PolicyData.UpsertAllValues | scripts/seed-supabase.js:43-45 | with distinct keys, each row's key holds that row's values after upserting |
| PolicyData.UpsertAllUnique | scripts/seed-supabase.js:43-45 | upserting rows with distinct keys on conflict (passport, destination): the table gains exactly their keys with their values, and every other key keeps its values |
| PolicyData.PassportRowsMembers | scripts/seed-supabase.js:33-39 | the rows of one passport are exactly the rows that describe one of its entries |
| PolicyData.AllRowsExact | scripts/generate-seed-sql.js:17-26 | the rows built from the lookup files are one per (passport, destination) entry, no key twice, and a row is among them if and only if it carries that entry's policy and defaulted duration |
| AdminAuth.CheckAuth | pages/api/admin/visa-policies.ts:4-7 | an unset or empty ADMIN_PASSWORD admits nobody; a request passes only with a non-empty header equal to the password |
| AdminAuth.Login | pages/api/admin/auth.ts:3-16 | 405 exactly for a non-POST; 500 exactly when POST and ADMIN_PASSWORD is unset or empty; 200 with `{ ok: true }` exactly when the password equals it; 401 otherwise |
| Publish.Assign | pages/api/admin/publish.ts:30-33 | one step of the fold keeps both levels of a well-formed lookup file well formed |
| Publish.GroupedValid | pages/api/admin/publish.ts:26-34 | the fold from `{}` always builds a well-formed lookup file |
| Publish.BuildLookups | pages/api/admin/publish.ts:26-34 | the loop builds both files as the fold `Grouped` of the rows in order |
| Publish.FoldRow | pages/api/admin/publish.ts:29-34 | one turn of the loop takes both files from the fold of the first i rows to the fold of the first i + 1 |
| Publish.SetEntry | pages/api/admin/publish.ts:30-33 | the two statements of the loop body (create the inner object if missing, then assign) are one fold step |
| Publish.AssignInPlace | pages/api/admin/publish.ts:30-33 | creating the missing inner object and then assigning into it gives the same object as the fold step |
| Publish.Handle | pages/api/admin/publish.ts:6-52 | 405 for a non-POST, 401 without the secret (regardless of table contents), 500 with the store's message, 400 with the no-data message for an empty table; files are written exactly when the answer is 200, and then they are the fold of the rows and the answer counts distinct passports and rows |
| Publish.LastIndex | pages/api/admin/publish.ts:29-34 | the index returned is the last row with the key, or -1 when no row has it |
| Publish.GroupedLookup | pages/api/admin/publish.ts:29-34 | last row wins: (p, d) has an entry exactly when some row has that key, holding the last such row's value; p is a key exactly when some row names it |
| Publish.GroupedEntry | pages/api/admin/publish.ts:29-34 | (p, d) has an entry exactly when some row has that key, and it holds the last such row's value |
| Publish.GroupedPassport | pages/api/admin/publish.ts:30-31 | p is a key of the file exactly when some row names it |
| Publish.AssignNewEntry | pages/api/admin/publish.ts:30-33 | assigning a (p, d) that had no entry adds exactly one entry |
| Publish.GroupedHoldsEveryRow | pages/api/admin/publish.ts:29-34 | with unique keys, every row's policy and duration are in the files under its passport and destination |
| Publish.GroupedSameShape | pages/api/admin/publish.ts:30-33 | the policy file and the duration file have the same passports and, under each, the same destinations in the same order |
| Publish.GroupedPassports | pages/api/admin/publish.ts:49 | the `passports` count is the number of distinct passports among the rows |
| Publish.Grouped | pages/api/admin/publish.ts:26-34 | the fold of the rows into a lookup file never has more passports than rows |
| Publish.GroupedOrderFree | pages/api/admin/publish.ts:15-18 | with unique keys, the rows in any order give the same entries, the same values and the same passports |
| Publish.GroupedSubset | pages/api/admin/publish.ts:26-34 | with unique keys, every entry folded from some rows is also in the fold of any superset of them, with the same value |
| Publish.GroupedEntries | pages/api/admin/publish.ts:50 | with unique keys, the files hold one entry per row, so `totalEntries` is their entry count |
| Gateway.InsertByDestination | pages/api/admin/visa-policies.ts:18 | inserting a row into a list ordered by destination keeps it ordered, adds one element and only that one |
| Gateway.StrLeTotal | pages/api/admin/visa-policies.ts:18 | any two destinations are comparable in the ascending order |
| Gateway.StrLeTransitive | pages/api/admin/visa-policies.ts:18 | the ascending order is transitive |
| Gateway.PolicyStore.List | pages/api/admin/visa-policies.ts:12-18 | the GET rows are ordered by destination, have no key twice, and are exactly the table's rows that match the present, non-empty filters |
| Gateway.PolicyStore.Handle | pages/api/admin/visa-policies.ts:9-65 | GET never writes and answers 500 or the listing; other methods without the secret get 401; PUT or DELETE without both keys get 400; a store error gets 500 and changes nothing; PUT upserts exactly one entry and returns it; DELETE removes exactly that key; any other method gets 405 |
| Gateway.UpsertThenSelect | pages/api/admin/visa-policies.ts:35-41 | after a PUT, a GET filtered on its passport and destination selects exactly the written row |
| Gateway.DeleteThenSelect | pages/api/admin/visa-policies.ts:54-58 | after a DELETE, a GET filtered on its passport and destination selects nothing |
| Gateway.ListingSize | pages/api/admin/visa-policies.ts:20-22 | a listing without repeated keys has as many rows as the selected set |
| Gateway.PutGetDelete | pages/api/admin/visa-policies.ts:29-62 | PUT then GET returns exactly the written row, DELETE then GET returns no row, and the table ends as before minus that key |
| SeedSql.Escape | scripts/generate-seed-sql.js:22-23 | doubling the quotes lengthens the string by its number of quotes |
| SeedSql.UnescapeEscape | scripts/generate-seed-sql.js:22-23 | un-doubling the quotes gives the original name back |
| SeedSql.EscapePaired | scripts/generate-seed-sql.js:22-23 | every quote of an escaped name is immediately followed by a second one |
| SeedSql.ReadQuotedEscape | scripts/generate-seed-sql.js:24 | a reader of SQL literals gets exactly the original name from `'<escaped>'` and stops at the closing quote |
| SeedSql.Tuple | scripts/generate-seed-sql.js:24 | a row's tuple text opens with `('` and closes with `)` |
| SeedSql.DecimalRoundTrip | scripts/generate-seed-sql.js:24 | reading back `${n}` gives n, negative numbers included |
| SeedSql.TupleRoundTrip | scripts/generate-seed-sql.js:24 | a row tuple reads back as the row it was made from, whatever quotes or commas the names contain |
| SeedSql.PassportTuples | scripts/generate-seed-sql.js:19-25 | the inner loop emits the tuples of one passport's rows, one per destination in order |
| SeedSql.CollectTuples | scripts/generate-seed-sql.js:17-26 | the nested loops emit one tuple per entry, in passport then destination enumeration order |
| SeedSql.Statement | scripts/generate-seed-sql.js:30 | a statement begins with the INSERT head and ends with the ON CONFLICT tail |
| SeedSql.BuildStatements | scripts/generate-seed-sql.js:28-31 | the stride loop emits one INSERT statement per 200-tuple batch, in order |
| SeedSql.Generate | scripts/generate-seed-sql.js:10-35 | the seed file is the statements joined by newlines; the reported counts are the number of entries and ceil(entries/200) |
| SeedSql.StatementsPartition | scripts/generate-seed-sql.js:28-31 | the statements' batches laid end to end are all tuples; there are ceil(n/200) statements, each with 1 to 200 tuples, all but the last with 200 |
| SplitSeed.SplitOn | scripts/split-seed-sql.js:6 | splitting always gives at least one piece, and the first is a prefix of the text |
| SplitSeed.SplitOnJoin | scripts/split-seed-sql.js:6 | joining the pieces with a blank line gives the file back |
| SplitSeed.SplitOnNoBreak | scripts/split-seed-sql.js:6 | no piece contains two newlines in a row |
| SplitSeed.SplitOnLeftmost | scripts/split-seed-sql.js:6 | the first piece holds no separator and, when there are more pieces, ends exactly where the first separator starts |
| SplitSeed.SplitOnRest | scripts/split-seed-sql.js:6 | when there are more pieces, the others are the split of the text after the first separator, so every piece is fixed by the leftmost rule |
| SplitSeed.NonBlank | scripts/split-seed-sql.js:6 | filtering never adds pieces |
| SplitSeed.NonBlankKeeps | scripts/split-seed-sql.js:6 | a piece is kept if and only if it is not empty or white space only |
| SplitSeed.StatementsShape | scripts/split-seed-sql.js:6 | no retained statement is blank or holds a blank line, and every non-blank piece is retained |
| SplitSeed.NonBlankAppend | scripts/split-seed-sql.js:6 | filtering a concatenation is filtering each half: kept pieces stay in order, repeats included |
| SplitSeed.NonBlankOrder | scripts/split-seed-sql.js:6 | a piece is kept in its place between the kept pieces before and after it exactly when it is not blank |
| SplitSeed.Chunks | scripts/split-seed-sql.js:11-12 | there are always six chunks |
| SplitSeed.PartText | scripts/split-seed-sql.js:14 | every part file's text ends with a newline, an empty part included |
| SplitSeed.Split | scripts/split-seed-sql.js:8-16 | exactly six part texts, the texts of the six chunks in order |
| SplitSeed.PartAt | scripts/split-seed-sql.js:12-14 | one turn of the loop writes chunk i's text |
| SplitSeed.PartTextsAt | scripts/split-seed-sql.js:14 | part i is chunk i joined by blank lines with a final newline (an empty chunk gives "\n") |
| SplitSeed.ChunksPartition | scripts/split-seed-sql.js:8-12 | exactly six chunks even for fewer than six statements; none longer than ceil(n/6); laid end to end they are the statements in order; once a chunk is empty all later ones are |
| SplitSeed.EmptyChunkThenEmpty | scripts/split-seed-sql.js:9-12 | once a chunk is empty the statements have run out, so every later chunk is empty |
| Seeder.PassportAttempts | scripts/seed-supabase.js:41-42 | one upsert per 500-row stride of the passport's rows |
| Seeder.Seed | scripts/seed-supabase.js:14-58 | nothing happens without both the URL and the key; otherwise the counter and the table are those of running every upsert, passport after passport and batch after batch |
| Seeder.SeedNext | scripts/seed-supabase.js:32-55 | one turn of the passport loop runs that passport's upserts after those of the passports before it |
| Seeder.SeedBatch | scripts/seed-supabase.js:42-51 | one upsert: on success the batch is written and its length counted, on error nothing changes |
| Seeder.SeedPassport | scripts/seed-supabase.js:41-52 | the batch loop of one passport: each successful upsert adds its batch's length and writes the batch, a failed one changes nothing |
| Seeder.RunAppend | scripts/seed-supabase.js:32-55 | running the upserts of one passport after those of the earlier ones is running them all in order |
| Seeder.PassportAttemptsCover | scripts/seed-supabase.js:41-42 | a passport's batches laid end to end are its rows; each holds 1 to 500 rows of that passport |
| Seeder.AttemptsCover | scripts/seed-supabase.js:32-52 | all upserts' batches laid end to end are every row of the lookup files, each batch 1 to 500 rows |
| Seeder.RunIsSucceeded | scripts/seed-supabase.js:47-51 | after any upserts, the counter has grown by the rows of the successful ones and the table is the old one with exactly those rows upserted: a failed batch leaves no trace and does not stop later ones |
| Seeder.SucceededRows | scripts/seed-supabase.js:47-51 | the successful upserts hold at most all the rows, and exactly all of them if and only if every upsert succeeded |
| Seeder.AllSucceeded | scripts/seed-supabase.js:47-51 | when every upsert succeeds, the successful ones are all of them |
| Seeder.SeedInserted | scripts/seed-supabase.js:32-57 | `totalInserted` is at most the number of entries, and equal to it if and only if no upsert failed |
| Seeder.SeedAllRows | scripts/seed-supabase.js:32-55 | when no upsert fails, the table is the old one with every row upserted in order |
| Seeder.SeedTotals | scripts/seed-supabase.js:32-57 | `totalInserted` is at most the number of entries, equal to it if and only if no upsert failed, and then the table holds every row |
| Pipeline.SelectedAll | pages/api/admin/visa-policies.ts:13 | an unfiltered GET selects every row of the table and nothing else |
| Pipeline.ListingCount | pages/api/admin/publish.ts:15-18 | a listing of the table has one row per key |
| Pipeline.PublishedKey | pages/api/admin/publish.ts:29-34 | one key of the table, looked up in one published file, is present exactly when the table has it and holds the table's value |
| Pipeline.PublishedMatchesTable | pages/api/admin/publish.ts:15-34 | publishing a listing of the table gives files with an entry exactly for each key of the table, holding its policy and duration, and as many entries as the table has keys |
| Pipeline.SeededTable | scripts/seed-supabase.js:32-55 | seeding an empty table with no failure leaves one key per lookup entry, holding its policy and defaulted duration |
| Pipeline.SeededCount | scripts/seed-supabase.js:32-55 | the seeded table has one key per entry of `visaPolicy.json` |
| Pipeline.PublishSeeded | pages/api/admin/publish.ts:29-50 | publishing the seeded table gives back exactly the seeded entries with their policies and defaulted durations, and counts the passports that have at least one destination |
| Pipeline.SeededPassports | pages/api/admin/publish.ts:49 | the published passports are those of `visaPolicy.json` that list at least one destination |
| Pipeline.SeedAndPublish | pages/api/admin/publish.ts:6-52 | seed then publish: 400 when the lookup file has no entry; otherwise 200, and the published files have exactly the seeded entries with the same policies and the defaulted durations |

## Left out

- Database calls are not modelled as a database. Reads are parameters,
  failures are `storeError`, the seeder's upserts are the oracle
  `succeeds`, and the rest is a map keyed on (passport, destination).
- The database's ordering differs from the model in two ways:
  - `order('destination')` sorts by code point, not by the database's
    collation;
  - `order('passport')` in publish is not modelled. When keys are unique,
    the lookups (`fields`: which entries exist, their values, which
    passports appear) do not depend on the row order
    (`Publish.GroupedOrderFree`). The key order of the written files, sorted
    by passport in the source, is not modelled. The lemmas for duplicated
    keys hold for every order.
- Publish.Handle: the model assumes the read returns every row of the
  table. The database API caps the rows one request returns, and the
  select at pages/api/admin/publish.ts:15-18 does no paging, so a larger
  table would be published only in part. The cap is not modelled.
- Pipeline.SeedAndPublish: like `Publish.Handle`, the model assumes
  publish reads the whole seeded table. The per-request row cap is not
  modelled.
- SeedSql.Decimal: policy and duration are integers. JavaScript number
  formatting beyond plain decimal digits (exponent form such as `1e+21`,
  fractions, NaN) is not modelled.
- Gateway.PolicyStore.Handle: the PUT row's policy and duration are taken
  as integers. `Number(...)` on arbitrary JSON (NaN, fractions, strings)
  is not modelled.
- File I/O (`readFileSync`, `writeFileSync`, `path.join`, `process.cwd`),
  `JSON.stringify` formatting, console output and `process.exit` are not
  modelled. The files written are returned values: the `Artifacts` of
  publish, the seed text, and the six part texts.
- Environment variables are parameters. `x-admin-password` is one optional
  string; a header sent several times (an array) is not modelled.
- Gateway.Request: the GET query parameters `passport` and `destination`
  and the PUT/DELETE body fields are modelled as optional strings. A query
  parameter given several times (`string[]`) and body fields that are
  other JSON values (a truthy number, an object, an array) are not
  modelled.
- Async/await and any concurrency between the endpoints and the scripts are
  not modelled. Each handler is one sequential step.
- Seeder.Seed: a rejected promise caught by `seed().catch` (exit code 1) is
  not modelled. Only the `error` returned by an upsert is.
- JavaScript objects are modelled with keys in insertion order. Integer-like
  keys, which JavaScript enumerates first, and keys inherited from
  `Object.prototype` are not modelled.
- Regular expressions are modelled as literal-text operations:
  `split(/\n\n/)` as a split on the literal two newlines, and
  `replace(/'/g, "''")` as a per-character map.
- The admin console and the other pages (React UI), and the build
  configuration, are not part of this model.
