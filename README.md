# Pastebin-Lite consume-on-read store, in Dafny

This project models the core of Pastebin-Lite, a service that keeps a piece of text
until a time-to-live runs out or a maximum number of views is used up. It covers five
parts:

- **The store contract** (`paste_contract.dfy`). A paste row has an id, content, a
  creation time, an optional expiry and an optional view count. `Consume` is the single
  atomic consume step. A missing row gives "not found". An expired row
  (`now >= expires_at_ms`) is deleted first. A view-limited row with no views left is
  deleted. Otherwise one view is taken and the row after the decrement is returned, or
  an unlimited row is returned untouched.
  Each consume is one transaction or one server-side script, so any run of concurrent
  callers is a sequence of steps. `Run` models that sequence. Its lemmas prove:
  - a paste is served at most `remaining_views` times, each time with a distinct,
    decreasing count;
  - the last view goes to exactly one caller;
  - a paste is never served after expiry and never shows a negative count;
  - `n` consecutive reads count down to 0 and then find nothing;
  - unlimited pastes are served unchanged forever.
- **The SQLite backend** (`sqlite_store.dfy`). A class holding the `pastes` table as a
  map. `CreatePaste` rejects a repeated primary key. `ConsumePasteById` follows the
  transaction body branch by branch and is proved equal to `Consume`.
- **The Upstash (Redis) backend** (`upstash_store.dfy`). Each paste is a hash under
  `paste:{id}`. Nullable numbers are stored as `""` or decimal text. `createPaste` sets
  the key-expiry hint. The Lua consume script is a method proved against
  `ConsumeScript`, and the client decodes the reply. `ScriptRefinesConsume` proves the
  two backends agree, with replies read as text, on every keyspace that encodes a well-keyed table: script plus decoding
  returns what `Consume` returns, and the new keyspace encodes the new table.
- **Configuration** (`db_config.dfy`). Driver selection from the environment, the
  SQLite file path, and the process-wide handles that are created once and then reused.
- **The service layer** (`paste_service.dfy`) and **test clock** (`time.dfy`).
  Validation of the untyped body, TTL to absolute expiry, projection into the response,
  and the `x-test-now-ms` override.

`src/lib/db.ts` repeats the two adapters line for line: db.ts:87-136 repeats
db-sqlite.ts:38-87, and db.ts:164-267 repeats db-upstash.ts:31-123. It also repeats
`getSqlitePath`, `getSqliteDb` and `getUpstashRedis`. Each is modelled once. The rows
below cite the dedicated files for the adapters and db.ts for the configuration code.

The script does not treat a non-numeric `remaining_views` field as an error. It reads it
as "no limit" and replies `""`, so the client serves the paste as unlimited
(`NonNumericViewsServedUnlimited`). The client-side guard against a non-numeric count
never sees such text. Rows written by `createPaste` always hold a number, so this only
concerns data written by something else.

## Model

| member | source | states |
|---|---|---|
| PasteContract.Consume | src/lib/db-sqlite.ts:50-81 | not found exactly when the row is missing, expired (`now >= expires_at_ms`) or view-limited with `<= 0` views; a served row is the stored row with one view taken (never negative) and not expired; a dead row is deleted, a served row is stored as served, and no other id changes |
| PasteContract.ExpiryBoundaryIsExact | src/lib/db-sqlite.ts:62-65 | a live row is served at `expires_at_ms - 1`, and not found and deleted at `expires_at_ms` |
| PasteContract.ConsumeKeepsWellKeyed | src/lib/db-sqlite.ts:63-73 | every row stays stored under its own id after a consume (mutations are keyed `WHERE id = ?`) |
| PasteContract.RunServesOnlyLiveRows | src/lib/db.ts:18-22 | over any sequence of consumes, nothing served is expired at the time of its call, and no served view count is negative |
| PasteContract.AbsentNeverServed | src/lib/db-sqlite.ts:60 | an id not in the table is never served and never reappears under consume calls |
| PasteContract.LimitedServes | src/lib/db-sqlite.ts:67-74 | a row stored with `remaining_views = n` is served at most `max(n, 0)` times over any sequence of calls, the i-th time with `n - 1 - i` views and all other fields unchanged |
| PasteContract.LastViewServedOnce | src/lib/db-sqlite.ts:51-80 | with one view left and any number of callers, the first caller, if the paste has not expired at its time, gets the paste with 0 views; every other caller gets not found |
| PasteContract.Countdown | tests/paste.test.ts:109-136 | `n` consecutive consumes of a row with `n` views return `n-1, ..., 0`; the next returns not found and the row is gone |
| PasteContract.UnlimitedRepeats | src/lib/db-sqlite.ts:77 | an unexpired row without a view limit is served unchanged to any number of consumes and the table is never modified |
| SqliteStore.SqlitePasteDb.CreatePaste | src/lib/db-sqlite.ts:42-48 | INSERT succeeds exactly when the id is new, and then adds the row under its id; a repeated primary key fails and changes nothing |
| SqliteStore.SqlitePasteDb.ConsumePasteById | src/lib/db-sqlite.ts:50-81 | the transaction body leaves the table and returns the row exactly as `Consume` does; a returned row carries the requested id |
| UpstashStore.Key | src/lib/db-upstash.ts:79 | the key is `paste:` followed by the id (the same function is used on consume, line 94) |
| UpstashStore.KeyInjective | src/lib/db-upstash.ts:94 | distinct ids never share a key |
| UpstashStore.EncodeNullableInt | src/lib/db-upstash.ts:83-84 | a nullable number is stored as the empty string exactly when it is null |
| UpstashStore.Payload | src/lib/db-upstash.ts:80-86 | the hash written by createPaste has exactly the four fields content, created_at_ms, expires_at_ms, remaining_views |
| UpstashStore.TtlHint | src/lib/db-upstash.ts:87-90 | the key expiry is at least 1 second, covers the paste's lifetime (`secs * 1000 >= expires - created`), and is the least such whole number of seconds |
| UpstashStore.ScriptNumber | src/lib/db-upstash.ts:46-49 | an absent or empty field is read as nil (no expiry, no view limit) |
| UpstashStore.ConsumeScriptContract | src/lib/db-upstash.ts:34-75 | missing key: nil, nothing changes; only the script's key is touched; nil for an existing key means it was deleted; an expired hash is deleted whatever its views; a live hash with a count `<= 0` is deleted; a live hash with a count `v > 0` replies and stores `tostring(v - 1)`; a reply copies content, created and raw expiry; without a numeric view count nothing is written and `""` is returned; a stored count is never negative; the reply's four entries are the returned table as Redis converts it, a field the hash lacks as nil in its own place |
| UpstashStore.ArrayReply | src/lib/db-upstash.ts:41-74 | Redis's conversion of the returned Lua table: entry by entry, `false` (what HGET gives for a missing field) as a nil entry and a string unchanged, ending exactly at the first Lua `nil` |
| UpstashStore.ReplyTableNotCut | src/lib/db-upstash.ts:41-74 | the script's table holds no Lua `nil`, so the client receives all four entries, each the HGET result or the view text |
| UpstashStore.MissingCreatedAtReadsAsZero | src/lib/db-upstash.ts:100-105 | a hash without created_at_ms gives the reply `["x", nil, "", ""]`, and `Number(null)` makes it a row created at 0 |
| UpstashStore.DecodeReply | src/lib/db-upstash.ts:98-116 | nil decodes to null; a non-numeric created_at_ms, present expiry or present view count, or a negative count, gives null; otherwise the row with the requested id, the reply's content, the parsed created_at_ms, and the parsed expiry and count (null for `""`); a reply without content also gives null (see "## Left out") |
| UpstashStore.NullableRoundTrip | src/lib/db-upstash.ts:102-103 | null encodes to `""` and decodes to null; an integer encodes to decimal text and decodes to itself, both in the client and in the script |
| UpstashStore.ScriptBranches | src/lib/db-upstash.ts:51-74 | on an existing key the script has exactly four outcomes, by its two numbers: delete on a reached expiry, delete on a view count `<= 0`, store and return the decremented count, or change nothing and return `""` |
| UpstashStore.ScriptOnPayload | src/lib/db-upstash.ts:37-74 | on a hash written by createPaste the script takes the same branch as `Consume` on the row: delete when expired or out of views, store the decremented row, or change nothing |
| UpstashStore.ScriptRefinesConsume | src/lib/db-upstash.ts:93-116 | on a keyspace encoding a table, script plus decoding returns exactly `Consume`'s result and leaves a keyspace encoding `Consume`'s new table |
| UpstashStore.CreateRefinesInsert | src/lib/db-upstash.ts:78-86 | creating a paste with a new id keeps keyspace and table in step |
| UpstashStore.NonNumericViewsServedUnlimited | src/lib/db-upstash.ts:56-59 | a live hash whose remaining_views the script does not read as a number (absent, empty or non-numeric text such as "many"), with a numeric created_at_ms and a readable expiry, is left unchanged and decoded as an unlimited paste with the stored content, creation time and expiry (an absent created_at_ms is a nil entry, which `Number` reads as 0) |
| UpstashStore.UpstashPasteDb.CreatePaste | src/lib/db-upstash.ts:78-91 | HSET merges the payload into the hash at `paste:{id}`; EXPIRE with `TtlHint` is set only when the paste has an expiry |
| UpstashStore.UpstashPasteDb.RunConsumeScript | src/lib/db-upstash.ts:34-75 | the Lua script, statement by statement, leaves the keyspace and reply of `ConsumeScript`; a DEL also drops the key's expiry |
| UpstashStore.UpstashPasteDb.ConsumePasteById | src/lib/db-upstash.ts:93-116 | runs the script on `paste:{id}` and returns the decoded reply; the key's expiry entry is dropped exactly when the script deleted the key |
| Numbers.EncodeIntRoundTrip | src/lib/db-upstash.ts:101 | `Number(String(n))` and Lua `tonumber(String(n))` both give back the integer `n` |
| Numbers.Floor | src/lib/time.ts:31 | `Math.floor` of a finite decimal is the greatest integer not above it, non-negative for a non-negative number |
| Text.TrimShape | src/lib/pasteService.ts:39 | `trim()` drops a whitespace prefix and suffix and leaves a string that neither starts nor ends with whitespace |
| Text.TrimEmptyIff | src/lib/pasteService.ts:39 | the trimmed content is empty exactly when every character is whitespace |
| Db.GetDriver | src/lib/db.ts:26-47 | Upstash exactly when DB_DRIVER says "upstash" (any case) or it does not say "sqlite" and both Upstash variables are set; SQLite exactly when DB_DRIVER says "sqlite", or no driver is named, the platform is not serverless and Upstash is not configured; an error exactly when no driver is named on a serverless platform without Upstash |
| Db.DriverNameIgnoresCase | src/lib/db.ts:27-29 | `DB_DRIVER=SQLite` selects SQLite |
| Db.SqlitePath | src/lib/db.ts:54-58 | a non-blank SQLITE_DB_PATH, trimmed, is used as is when absolute and under the working directory when relative; otherwise `.data/pastebin.sqlite` under the working directory |
| Db.HandleCache.GetSqliteDb | src/lib/db.ts:65-85 | a cached connection is returned unchanged; otherwise one is opened on `SqlitePath` and cached |
| Db.HandleCache.GetUpstashRedis | src/lib/db.ts:138-154 | a cached client is returned unchanged; otherwise a missing or empty URL or token is an error and nothing is cached, else a client on that URL and token is created and cached |
| Db.HandleCache.GetPasteDb | src/lib/db.ts:269-273 | a driver error is returned as is and nothing is cached; the SQLite driver yields the cached SQLite handle, or one opened on `SqlitePath` and cached, leaving the Redis slot alone; the Upstash driver reuses a cached client, and otherwise succeeds exactly when Upstash is configured, with a client on that URL and token that is then cached, or fails with the configuration error caching nothing; the SQLite slot is untouched |
| PasteService.ToPositiveIntOrNull | src/lib/pasteService.ts:26-32 | accepts exactly undefined, null or an integer `>= 1`; null exactly for undefined or null; a result is the input unchanged; a non-number or non-finite value fails with "<field> must be a number", a fraction with "<field> must be an integer", an integer below 1 with "<field> must be >= 1" |
| PasteService.ValidateCreatePasteInput | src/lib/pasteService.ts:34-49 | succeeds exactly for an object whose content is a string with a non-whitespace character and whose two counts are acceptable; keeps the untrimmed content and the counts; the first failing check, in the order body, content type, emptiness, ttl_seconds, max_views, decides the error |
| PasteService.CreatedPasteLifetime | src/lib/pasteService.ts:58-66 | a created paste is served, with its content, exactly before `now + ttl_seconds*1000` (always without TTL), with `max_views - 1` views or unlimited |
| PasteService.CreatePaste | src/lib/pasteService.ts:53-69 | writes exactly one row, under the returned 10-character id, created now, expiring exactly when a TTL was given, with `max_views` as its view limit; a repeated id fails and writes nothing |
| PasteService.Project | src/lib/pasteService.ts:81-85 | content and remaining_views pass through verbatim; expires_at is null exactly when the row has no expiry; an expiry outside the Date range fails |
| PasteService.ConsumePaste | src/lib/pasteService.ts:71-86 | an empty id is not found without touching the store; otherwise one `Consume` step, not found when it serves nothing, else the projected response |
| PasteService.HugeTtlFailsOnRead | src/lib/pasteService.ts:84 | a TTL of 10^13 seconds passes validation, and reading the paste is served by the store and then fails formatting the expiry |
| PasteService.HelloTwoViews | tests/paste.test.ts:109-136 | `{content:"hello", max_views:2}` read three times at the same instant gives 1, then 0, then not found |
| PasteService.TenSecondTtl | tests/paste.test.ts:138-157 | `{content:"x", ttl_seconds:10}` is served at T+9999 and not found at T+10000 |
| PasteService.RejectsZeroAndEmpty | tests/paste.test.ts:181-201 | empty content, `ttl_seconds: 0` and `max_views: 0` are rejected |
| Time.GetHeaderValue | src/lib/time.ts:5-20 | no headers give undefined; a get-style object: a string for the name is the answer, null or undefined falls back to the lower-case name (a string there is the answer, anything else undefined), any other value gives undefined; a record: the lower-case name is read first, then the name, and an array gives its first element |
| Time.NowMsFromHeaders | src/lib/time.ts:22-32 | the wall clock unless TEST_MODE is "1"; the wall clock for a missing or empty header, a non-finite or a negative number; otherwise the floor of the number, never negative |
| Time.TestHeaderRoundTrip | src/lib/time.ts:26-31 | in test mode a header holding `String(t)` for `t >= 0` yields exactly `t` |

## Left out

- Concurrency is not modelled as threads. Each SQLite transaction and each Redis EVAL is one atomic method call, and concurrent callers are one sequence of calls (`PasteContract.Run`).
- `healthCheck` in every store, and `src/api/healthz.ts`: pings with no state to speak of.
- Connection plumbing (`mkdirSync`, `new Database`, the WAL pragma, `CREATE TABLE`, `new Redis`): a handle is a value recording its file path, or its URL and token.
- Storage errors (disk or network failures) are not modelled. The only store error is the SQLite primary-key violation.
- `nanoid(10)`: the id is a parameter of length 10.
- `toISOString` formatting is a function parameter of `PasteService.Project`. Its RangeError outside ±8.64e15 ms is modelled.
- Numbers are unbounded integers. The model ignores floating-point rounding above 2^53 (for example in `now + ttl_seconds * 1000`). It also ignores exponent notation from `String(n)` at 1e21 and up, and from Lua 5.1's `tostring` (format `%.14g`) at 1e14 and up.
- Number parsing (`Numbers.ParseNumber`) accepts surrounding whitespace, a sign, digits and an optional fraction, and reads `Infinity` as not finite. Exponents, hex, binary (`0b`) and octal (`0o`) literals, and Lua's `inf`/`nan` spellings are read as non-numeric.
- Lua's `tonumber` is modelled by the same grammar, restricted to integers, and reads blank text as nil; Lua's whitespace set is ASCII while JavaScript's is wider.
- UpstashStore.ConsumeScript, Numbers.LuaToNumber: Lua's `tonumber("1.5")` is 1.5, but the model reads any finite non-integer as nil. A hash holding `remaining_views = "1.5"` is served "0.5", then "0", then deleted by the real script; in the model it is served as unlimited and never written. An `expires_at_ms` of "1.5" never expires in the model. The floor at zero for the next count (db-upstash.ts:66-68) is reached only by such fractional counts, so that branch is dead in the model. Only data not written by `createPaste` can hold such values.
- UpstashStore.DecodeReply: a stored field holding a finite non-integer such as "1.5" is read by the source as that fraction. The model's rows hold integers, so the decoder returns not found for it.
- UpstashStore.DecodeReply: a hash with no `content` field would give a row with null content in the source. The model returns not found. `createPaste` always writes the field.
- UpstashStore.UpstashPasteDb.ConsumePasteById: the script receives `now` as a number. The source passes `String(now_ms)` and parses it with `tonumber`; `Numbers.EncodeIntRoundTrip` shows this gives `now` back.
- UpstashStore.ArrayReply, UpstashStore.DecodeReply, UpstashStore.NonNumericViewsServedUnlimited: the reply follows Redis's documented EVAL conversions: a nil bulk reply reaches Lua as `false`, `false` returns as a nil entry, and an array ends at the first Lua `nil`. A server that instead cut the reply at a missing field would make the client return null for a hash lacking `created_at_ms`, and an unlimited count for one lacking `expires_at_ms`. Only hashes not written by `createPaste` lack fields.
- Redis itself is a keyspace of hashes. Expiry of keys by the server is not modelled: the EXPIRE value is recorded and never acts. Keys of other types (such as the health-check probe) are left out.
- UpstashStore.DecodeReply, UpstashStore.ScriptRefinesConsume: every reply entry is taken as the text the script returned. The client is built with the library's defaults (db-upstash.ts:21), and its automatic JSON deserialisation may turn number-like entries into numbers. If it does, the last view's reply "0" is falsy at db-upstash.ts:103 and that paste is served with `remaining_views: null`, and number-like content comes back as a number. The agreement of the two backends is proved under the text-reply reading only.
- Db.SqlitePath: `path.join` normalisation (collapsing `.`, `..` and repeated separators) is not modelled. Joining is concatenation with `/`, and `path.isAbsolute` is the POSIX leading-slash test.
- Db.DriverSetting: `toLowerCase` is modelled on ASCII letters only. No non-ASCII character lower-cases to a single letter of "upstash" or "sqlite", so the comparison results are the same.
- Time.GetHeaderValue: a Fetch `Headers.get` answers case-insensitively. The model's get-style headers are an exact-name map, which the code's fallback to the lower-case name then consults.
- The service operations run against the SQLite class. The Upstash class reaches the same results on encoded tables by `UpstashStore.ScriptRefinesConsume` and, for ids not already stored, `UpstashStore.CreateRefinesInsert`; on a repeated id SQLite rejects the insert and Upstash merges the new payload over the existing hash and succeeds.
- `src/api/pastes.ts` and `src/api/pastes/[id].ts` (HTTP method checks, URL building, status mapping), `src/pages/` (the React UI and HTML page), `test-live.js` and the end-to-end harness in `tests/paste.test.ts` are outside the core. The tests' assertions appear as lemmas above.
