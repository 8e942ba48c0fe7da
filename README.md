# INSS benefit-inquiry backend: a Dafny model

The system is a small Express/MySQL backend for INSS benefit inquiries. It has two
tables:

- `ip_data` holds access grants: an address, an expiry date, a remaining query limit and a running
  total loaded.
- `inss_higienizado` holds the collected benefit records.

`index.js` puts its endpoints behind one of two gates:

- `checkAuthIp` admits a customer address that has an unexpired grant.
- `checkAuthIp2` admits one of two fixed admin addresses.

Its endpoints are:

- the admin grant endpoints, which create, re-grant, edit, delete and list grants;
- `/api/limit`, which reports the caller's remaining quota;
- `/api/insert`, which either duplicates a record already stored for the same document and
  benefit number (with fresh provenance) or fetches it from an external provider, and then
  consumes one query of the caller's quota;
- delete and download of records by `nome_arquivo`;
- a nightly job that deletes records older than 30 days.

`app.js` is a second server with no gate. Its insert is an `INSERT ... ON DUPLICATE KEY UPDATE`
upsert, and it has the same delete and download endpoints.

The files of the model:

- `wrappers.dfy` (`Wrappers`, `Http`): an Option type, and the HTTP statuses (200, 400, 403, 404,
  500) the handlers answer with.
- `jsvalues.dfy` (`JsValues`): JSON body values as JavaScript sees them, covering truthiness
  (`if (!x)`) and `parseInt(v, 10) || 0`.
- `clientip.dfy` (`ClientIp`): how every handler works out the caller's address. It reads the
  `x-client-ip` header, else `x-forwarded-for`, else the socket peer, then strips `::ffff:`.
- `grants.dfy` (`Grants`) covers `ip_data`:
  - the rows as a datatype, and the two gates;
  - the `/api/limit` sum and the `updateIpLimit` decrement;
  - the admin writes, as pure functions over a `Ledger`;
  - `GrantTable`, a class whose `rows` field the SQL statements reassign, each method's new state
    tied to those functions.
- `records.dfy` (`Records`) covers `inss_higienizado`:
  - the 32 columns, with NULL as `None`;
  - plain INSERT;
  - the upsert, and the `WHERE nome_arquivo = ?` and `WHERE data_hora_registro < ?` select and
    delete, as pure functions over a `Store`;
  - `RecordTable`, a class whose methods perform them.

  The table's unique keys are the primary key `id` and, when the class constant
  `naturalKeyUnique` is set, the pair (`numero_beneficio`, `numero_documento`). The app.js upsert
  depends on that pair, but the schema is not part of this model, so the pair is a parameter.
  NULL key cells never clash.
- `indexapi.dfy` (`IndexApi`): the index.js handlers, plus the write policy of `/api/insert` as
  pure functions (find, clone, map the provider answer, plan).
- `appapi.dfy` (`AppApi`): the app.js handlers.

Conventions of the model:

- `today` is a day number, standing for `CURDATE()` compared with `DATE(data_vencimento)`.
- `now` is in seconds, standing for `NOW()`, `data_adicao` and `data_hora_registro`.
- A query without `ORDER BY` reads rows in primary-key order, as InnoDB does.
  - In `ip_data` every id comes from the counter, so ids grow along the table and table order is
    primary-key order (`Grants.FirstMatchHasSmallestId`).
  - In `inss_higienizado` ids may also come from the request, so `IndexApi.FindExisting` picks
    the matching row with the smallest id.
  - The rows a select returns are kept in table order (see "## Left out").
- Ties under `ORDER BY data_adicao DESC LIMIT 1` go to the last row added.
- The caller's headers and socket address are a `Caller` value.
- The time is a parameter.
- The provider's answer is an `Option<ProviderData>`. `None` stands for a fetch that is rejected
  or a body that is not JSON, the two failures that reach the `.catch` at index.js:428-430.
  index.js:368-369 never looks at `response.ok`: an error answer in JSON is `Some` of a
  `ProviderData` whose fields are absent (`IndexApi.ErrorAnswer`), and it is stored. A JSON
  `null` body makes `apiData.id` throw, and that also ends in the `.catch`, so it is `None`.
- A failing INSERT is a `storageFails` flag.

## Design notes

Three behaviours of index.js that a reader of its messages might not expect:

- **A re-grant replaces the limit.** The success messages of the POST re-grant and of PUT say the
  limit was added ("limite somado", index.js:115 and index.js:159). The statements themselves
  set `limite_consultas` to the new value, and add it only to `total_carregado`
  (index.js:100-110 for POST, index.js:147-154 for PUT). `Grants.RegrantReplacesQuota` proves
  the replacing behaviour.
- **Limits can be negative.** Nothing in index.js:92-95 rejects a negative limit. The code only
  checks that `limite_consultas` is truthy and then takes `parseInt(...) || 0`, so the text "-5"
  is stored as -5. `IndexApi.NegativeLimitIsStored` proves this. The decrement itself never
  produces a negative limit (`Grants.DecrementKeepsLimitsNonNegative`).
- **The quota is never checked before a write.** The gate looks only at address and expiry
  (`Grants.GateIgnoresLimits`). A caller whose quota is at 0 can still insert
  (`Grants.TwoQueryGrantScenario`). When no limit is negative, the decrement then leaves the
  quota at 0 (`Grants.ExhaustedQuotaIsUntouched`). A zero made of positive and negative limits
  drops by one, to -1 (`Grants.DecrementLowersSumByOne`, `Grants.MixedZeroQuotaDropsBelowZero`).
- **A provider error is stored.** An error answer in JSON reaches the INSERT with every provider
  column NULL. If the schema allows NULL in those columns, it adds a row and consumes a query
  (`IndexApi.ErrorAnswerStoresNullRow`). If a provider column is NOT NULL, the INSERT fails
  instead. The model shows that only as a storage failure: status 500, and no query consumed.

Two consequences of the unique keys:

- **The duplicate branch depends on the schema.** With the (`numero_beneficio`,
  `numero_documento`) key unique, the clone that `/api/insert` writes for a known record always
  clashes with the record it was copied from. That write is refused, and no quota is consumed
  (`IndexApi.DuplicateRejectedUnderNaturalKey`). Without that key, exactly one row is added
  (`IndexApi.DuplicateAppendsClone`).
- **The upsert is idempotent only for keyed requests.** Repeating it leaves the rows unchanged
  when the request carries an `id`, or a complete natural key that the table keeps unique
  (`Records.UpsertIdempotent`). Otherwise every call adds a row
  (`Records.UnkeyedUpsertAddsEveryTime`).

The auto-increment counter follows InnoDB:

- A statement whose id would come from the counter spends a value even when it adds no row.
  That covers an INSERT refused for a duplicate key, and an upsert that updates.
- A supplied id spends nothing.
- A storage failure spends nothing, because the statement never reaches the table.
- When the incoming values clash with one row on the primary key and with another on the natural
  key, the upsert overwrites the row holding the id, because InnoDB checks the primary key first
  (`Records.IdClashWinsOverKeyClash`).

## Model

| member | source | states |
|---|---|---|
| ClientIp.RawAddress | index.js:39-40 | the `x-client-ip` header when non-empty, else `x-forwarded-for` when non-empty, else the socket address |
| ClientIp.StripMappedPrefix | index.js:41 | the result is the input or the input minus a leading `::ffff:`, and differs from it exactly when the input starts with `::ffff:` |
| ClientIp.ResolveIp | index.js:38-41 | the chosen raw address, or that address minus a leading `::ffff:`; the address changes exactly when it starts with `::ffff:` |
| ClientIp.StripRemovesExactlyOnePrefix | index.js:41 | a leading `::ffff:` is removed once, and any further copy of it is kept |
| ClientIp.ClientHeaderWins | index.js:39-41 | a non-empty `x-client-ip` decides the address whatever the other sources say |
| ClientIp.FallbackOrder | index.js:40 | with no client header the forwarded header decides; with neither header the socket address decides |
| ClientIp.MappedPeerResolvesToIpv4 | index.js:40-41 | a socket peer `::ffff:a.b.c.d` with no headers resolves to `a.b.c.d` |
| JsValues.Truthy | index.js:92 | falsy exactly for a missing field, the number 0 and the empty text |
| JsValues.PresentText | index.js:92 | false exactly for a missing or empty string |
| JsValues.RequiredText | index.js:439-442 | refuses exactly the missing and empty values, and otherwise passes the value through |
| JsValues.TrimStart | index.js:95 | the result is a suffix of the input, every character dropped is white space, and the result does not start with white space |
| JsValues.DigitRun | index.js:95 | the longest prefix made only of decimal digits |
| JsValues.DigitsValueOfNatDigits | index.js:95 | the decimal digits of a natural number read back as that number |
| JsValues.ParseUnsigned | index.js:95 | a value exactly when the text starts with a digit, and then a non-negative one |
| JsValues.ParseSigned | index.js:95 | a leading minus negates the digit value and fails with it; a plus is skipped; without a sign the digits decide; a negative result needs a leading minus |
| JsValues.ParseDecimal | index.js:95 | a value only when the text, after leading white space, starts with a digit or with a sign and a digit; a leading digit always gives a non-negative value |
| JsValues.ParseIntOrZero | index.js:95 | 0 for every falsy value and for text `parseInt` reads as NaN; a number is kept; other text gives what `parseInt` reads |
| JsValues.ParseDecimalOfDecimal | index.js:95 | `parseInt` of an integer's decimal form, followed by anything non-digit, gives that integer |
| JsValues.ParseIntOrZeroOfText | index.js:95 | `parseInt(v, 10) || 0` returns `n` for the number `n` and for its decimal text |
| JsValues.ParseIntOrZeroOfNonNumber | index.js:95 | text that does not start a number after white space becomes 0 |
| JsValues.ZeroLimits | index.js:92-95 | the number 0 is refused as missing, while the texts "0" and "abc" pass validation and give the limit 0 |
| Grants.CheckAuthIp2 | index.js:57-65 | admits exactly the addresses 201.0.21.143 and 45.224.161.116 |
| Grants.MappedAdminAddressRefused | index.js:59-63 | an admin address still carrying `::ffff:` from a header is refused, and so is the empty address |
| Grants.Unexpired | index.js:43 | holds only for a grant of the address, never once the expiry day is past, and still on the expiry day itself |
| Grants.CheckAuthIp | index.js:42-51 | admits the address exactly when some grant for it expires today or later |
| Grants.GateIgnoresLimits | index.js:43 | tables that differ only in limits and totals admit the same callers |
| Grants.LimitSum | index.js:185-193 | 0 when the gate refuses; a positive total implies a qualifying grant; with no negative limit the total is never negative |
| Grants.LimitSumAppend | index.js:186 | adding a row adds exactly its contribution to the sum |
| Grants.LimitSumUpdate | index.js:186 | replacing one row changes the sum by the difference of the two contributions |
| Grants.LimitSumRemove | index.js:186 | removing one row subtracts exactly its contribution |
| Grants.LimitSumOfOnlyGrant | index.js:186 | when no other row has the address, the sum is that one row's contribution: its limit while unexpired, else 0 |
| Grants.LimitSumOfNoGrant | index.js:186 | an address with no row has sum 0 |
| Grants.LimitSumAtLeastRow | index.js:186 | with no negative limit, the sum is at least each unexpired grant's limit |
| Grants.Contribution | index.js:186 | a grant of another address or past its expiry adds 0, and an unexpired grant of the address adds its limit |
| Grants.Qualifying | index.js:229-231 | holds exactly for the grants that add a positive amount to the reported quota |
| Grants.LatestQualifying | index.js:225-234 | picks an unexpired grant with a positive limit and the latest `data_adicao`, taking the last such row on ties, and picks none when no grant qualifies |
| Grants.Greatest | index.js:235 | the larger of two integers |
| Grants.Decremented | index.js:224-236 | only the picked row changes, its limit drops by one and stays non-negative, and the table is unchanged when nothing qualifies |
| Grants.DecrementLowersSumByOne | index.js:224-236 | the reported quota drops by exactly one when some grant qualified, and otherwise stays the same |
| Grants.PositiveQuotaIsConsumed | index.js:224-236 | a positive reported quota drops by exactly one |
| Grants.ExhaustedQuotaIsUntouched | index.js:224-236 | with no negative limit, a quota of 0 leaves the table unchanged |
| Grants.DecrementKeepsLimitsNonNegative | index.js:235 | consuming quota never makes a limit negative |
| Grants.TwoQueryGrantScenario | index.js:220-243 | a grant of 2 reports 1, then 0, then 0 after three uses, and still admits the address |
| Grants.MixedZeroQuotaDropsBelowZero | index.js:224-236 | a limit of -1 and an unexpired limit of 1 report 0, and one decrement takes the report to -1 |
| Grants.FirstMatch | index.js:96-101 | the first row matching `id = ?` or `ip = ?` in table order, or none when no row matches |
| Grants.FirstMatchHasSmallestId | index.js:96 | in a table with growing ids the first match has the smallest id, the row MySQL returns first |
| Grants.NewestFirst | index.js:79 | every row exactly once, in reverse table order |
| Grants.Regranted | index.js:100-110 | `descricao` and expiry replaced, the limit set to the new value, the total grown by it, and id, address and `data_adicao` kept |
| Grants.AfterGrant | index.js:96-131 | updates the first grant for the address, or appends a new one stamped `now` with the next id whose limit and total are the new value |
| Grants.AfterGrantIsValid | index.js:119-125 | ids stay strictly increasing and below the next id |
| Grants.RegrantReplacesQuota | index.js:103-110 | after granting to an address with at most one grant, with an expiry not yet past, the reported quota is exactly the new limit |
| Grants.Edited | index.js:147-154 | address, `descricao`, expiry and limit replaced, the total grown by the new limit, and id and `data_adicao` kept |
| Grants.EditKeepingIpIsRegrant | index.js:149-154 | a PUT that keeps the address writes the same grant as a POST re-grant |
| Grants.GrantTable.GrantAccess | index.js:96-131 | the new ledger is `AfterGrant` of the old, and an insert id is returned exactly when a new row was added |
| Grants.GrantTable.Edit | index.js:140-160 | reports whether the id exists; if so only that row is rewritten by `Edited`, and otherwise nothing changes |
| Grants.GrantTable.Remove | index.js:167-175 | reports whether the id exists; if so exactly that row is gone, and no row with the id remains |
| Grants.GrantTable.UpdateIpLimit | index.js:220-243 | the rows become `Decremented` of the old rows |
| Grants.GrantTable.Limit | index.js:185-194 | returns the sum of the caller's unexpired limits, and a positive result implies the gate admits |
| Grants.GrantTable.List | index.js:69-85 | the same rows as a multiset, with ids strictly decreasing |
| Records.Conflicts | app.js:51 | without a unique natural key only the primary key clashes; incoming values with no id and an incomplete natural key clash with nothing |
| Records.FirstConflict | app.js:51 | the first stored row that clashes with the incoming values on a unique key, or none |
| Records.NextIdAfter | index.js:349 | the next auto-increment id is above both the assigned id and the previous counter |
| Records.SpentCounter | index.js:341-344 | a statement that adds no row still moves the counter by one when the id would have come from it, and leaves it when an id was supplied |
| Records.UpsertTarget | app.js:41-51 | a conflicting row exactly when one exists; a row holding the supplied id whenever one does; otherwise the first row conflicting on the natural key |
| Records.Overwritten | app.js:51-80 | the 29 listed columns take the incoming values, and id and the two key columns keep theirs |
| Records.InsertInto | index.js:341-344 | refused exactly on a storage failure or a unique-key clash, with no row written; a clash spends a counter value drawn for the id, a storage failure changes nothing; otherwise one row with every supplied value is appended |
| Records.UpsertInto | app.js:41-80 | never refused; overwrites the row holding the supplied id if one does, else the first row clashing on the natural key, spending a counter value when no id was supplied; otherwise appends one row |
| Records.NewRowClashesWithNothing | app.js:41-50 | a row appended where nothing conflicts clashes with no stored row |
| Records.InsertIntoIsValid | index.js:297-307 | a plain INSERT keeps every unique key unique |
| Records.UpsertIntoIsValid | app.js:41-80 | the upsert keeps every unique key unique |
| Records.ConflictsSurviveOverwrite | app.js:51-80 | overwriting keeps the key columns, so later conflicts are found at the same row |
| Records.FirstConflictOfSameKey | app.js:41-51 | two value sets with the same key columns find the same first conflict |
| Records.TargetOfSameKey | app.js:41-80 | two value sets with the same key columns have the same upsert target, and overwriting that row does not move it |
| Records.IdClashWinsOverKeyClash | app.js:41-80 | with one row clashing on the natural key and a later one holding the supplied id, the upsert overwrites the later row |
| Records.LastWriteWinsOnUpdate | app.js:51-80 | after an overwrite, a second upsert on the same key leaves the rows the second alone would; the counter is one further when the first drew from it |
| Records.LastWriteWinsOnInsert | app.js:41-80 | after a keyed insert, a second upsert on the same key leaves the rows the second alone would; the counter is one further when the first drew from it |
| Records.UpsertLastWriteWins | app.js:41-80 | two upserts on one key, the first keyed, leave the rows the second alone would, with the counter one further when the first drew from it |
| Records.UpsertIdempotent | app.js:41-80 | repeating a keyed upsert leaves the rows as they were; with a supplied id the whole table is unchanged, without one the counter moves by one |
| Records.UnkeyedUpsertAddsEveryTime | app.js:41-50 | an upsert with no usable key adds a row each time it runs |
| Records.Holds | index.js:443 | a NULL `nome_arquivo` or NULL `data_hora_registro` never satisfies the condition, and a matched row has exactly the requested file name |
| Records.Select | index.js:458 | at most the input's rows, and each one satisfies the condition |
| Records.Remove | index.js:443 | no remaining row satisfies the condition |
| Records.SelectRemovePartition | index.js:443-448 | selected and remaining rows together are exactly the table as a multiset, so the affected count is the size drop |
| Records.SelectRemoveMultiset | index.js:443-448 | the selected rows and the remaining rows together form the table as a multiset |
| Records.SelectMembers | index.js:458 | a row is selected exactly when it is in the table and satisfies the condition |
| Records.RemoveMembers | index.js:443 | a row remains exactly when it is in the table and does not satisfy the condition |
| Records.RemoveIsValid | index.js:443 | deleting keeps every unique key unique |
| Records.RetentionCondition | index.js:475 | holds exactly for rows with a registration time more than 30 days before `now` |
| Records.SweepKeepsRecentRows | index.js:473-476 | a row registered within the last 30 days, or with no timestamp, survives the sweep |
| Records.SweepScenario | index.js:472-476 | a 31-day-old row is deleted and a recent row survives |
| Records.RecordTable.Insert | index.js:341-344 | the new state and outcome are `InsertInto` of the old state |
| Records.RecordTable.Upsert | app.js:116-121 | the new state and outcome are `UpsertInto` of the old state |
| Records.RecordTable.DeleteWhere | index.js:443-448 | the rows become `Remove` of the old rows, and the affected count is both the number selected and the size drop |
| Records.RecordTable.SelectWhere | index.js:458-463 | returns `Select` of the rows: every row in the table that satisfies the condition, and no other |
| IndexApi.SameRecord | index.js:254 | never matches when the document or benefit number sent is NULL, and a matched row has both columns non-NULL |
| IndexApi.FindExisting | index.js:251-263 | the matching row with the smallest id among those with the same non-null document and benefit number, or none when no such row exists |
| IndexApi.FindExistingPrefersSmallerId | index.js:251-263 | of two copies stored under ids 5 and then 3, the lookup returns the one with id 3 |
| IndexApi.CloneWithProvenance | index.js:264-296 | has no id, keeps the key and the 26 data columns of the stored row, and takes its provenance from the request |
| IndexApi.BankCells | index.js:406-409 | the four bank columns are NULL without a bank account, and the account's fields otherwise |
| IndexApi.FromProvider | index.js:381-414 | id and key from the provider, provenance from the request, every other column from its provider field, and the bank columns from the account or NULL without one |
| IndexApi.InsertPlan | index.js:257-415 | the clone of the known record when one exists; otherwise `FromProvider` of the provider's answer; no plan exactly when the record is unknown and the provider call failed |
| IndexApi.ErrorAnswerStoresNullRow | index.js:355-425 | a JSON error answer for an unknown record is inserted as a row that is NULL except for its fresh id and the request's provenance |
| IndexApi.KnownRecordSkipsProvider | index.js:261-353 | for a known record the provider's answer plays no part |
| IndexApi.DuplicateAppendsClone | index.js:297-344 | without a unique natural key, a known record gains exactly one appended copy with the next id and the request's provenance |
| IndexApi.DuplicateRejectedUnderNaturalKey | index.js:297-344 | with a unique natural key, the duplicate write is always refused |
| IndexApi.NegativeLimitIsStored | index.js:92-95 | the text "-5" passes validation and is stored as the limit -5 |
| IndexApi.PostAuthIps | index.js:90-133 | 403 for non-admins and 400 for a falsy address, expiry or limit, both changing nothing; otherwise the ledger becomes `AfterGrant` with the parsed limit |
| IndexApi.PutAuthIps | index.js:136-162 | 403 for non-admins; 404 with nothing changed for an unknown id; otherwise only that row is rewritten |
| IndexApi.DeleteAuthIps | index.js:165-177 | 403 for non-admins; 404 with nothing changed for an unknown id; otherwise exactly that row is removed |
| IndexApi.GetAuthIps | index.js:68-87 | 403 exactly for non-admins; otherwise every grant once, highest id first |
| IndexApi.GetLimit | index.js:180-196 | answers every caller with the sum of its unexpired limits |
| IndexApi.PostInsert | index.js:246-433 | 403 with nothing changed when the gate refuses; 500 with nothing changed when the record is unknown and the fetch is rejected or its body is not JSON; a refused insert answers 500 and consumes no quota; a successful insert answers 200 with the new id and then decrements the caller's quota |
| IndexApi.DeleteByFile | index.js:438-450 | 403 or 400 change nothing; otherwise exactly that file's rows are deleted and their number reported |
| IndexApi.Download | index.js:453-465 | 403 or 400 return nothing; otherwise exactly that file's rows |
| IndexApi.RetentionSweep | index.js:472-484 | deletes exactly the rows registered more than 30 days before `now` |
| AppApi.Insert | app.js:39-122 | 500 with nothing changed on a storage failure; otherwise 200 and the table becomes `UpsertInto` of the old one |
| AppApi.Delete | app.js:125-137 | 400 with nothing changed for a missing or empty name; otherwise exactly that file's rows are deleted and their number reported |
| AppApi.Download | app.js:140-152 | 400 for a missing or empty name; otherwise exactly that file's rows |

## Left out

- Database driver errors answer 500 in every handler. The model has them only for the INSERT of
  `/api/insert` and app.js's upsert (the `storageFails` flag), where they decide whether quota is
  consumed. The gate's query failing is not modelled.
- Grants.GrantTable.UpdateIpLimit: a failing decrement statement is only logged by the source,
  and the model always performs the decrement.
- IndexApi.PostAuthIps: the expiry `data_vencimento` is an `Option<int>` day number. A body value
  that is present but falsy, such as the empty string that index.js:92 refuses, can be given
  only as `None`. Expiry text that MySQL cannot read as a date is not modelled either.
- IndexApi.PutAuthIps: the source writes whatever the body holds, including NULL for a missing
  address or expiry. The model takes the address and expiry as present.
- IndexApi.PutAuthIps and IndexApi.DeleteAuthIps: the path parameter `:id` is text that MySQL
  converts to a number. The model takes it as an integer.
- Records.RecordTable.Insert, Records.Conflicts, Records.Holds, Records.Select, Records.Remove,
  IndexApi.SameRecord, IndexApi.FindExisting, Grants.CheckAuthIp, Grants.Unexpired,
  Grants.LimitSum, Grants.FirstMatch and Grants.LatestQualifying: MySQL's usual collations
  make `=` on strings ignore letter case and accents, and the PAD SPACE ones (the defaults up to
  MySQL 5.7) also ignore trailing spaces; MySQL 8.0's default `utf8mb4_0900_ai_ci` is NO PAD
  and does not. This applies to the unique keys, to `nome_arquivo = ?` and to every `ip = ?`
  lookup. The model compares strings
  by exact equality, so it can report no match where MySQL finds one.
- Records.UpsertIdempotent and Records.UpsertLastWriteWins: without a supplied id each upsert
  draws a counter value, so a repeated upsert leaves the same rows but not the same counter.
  These lemmas promise equal rows and state the counter's difference exactly.
- Records.NextIdAfter: an explicit id of 0, and `NO_AUTO_VALUE_ON_ZERO`, are not modelled.
- JsValues.ParseIntOrZero: fractional and very large JSON numbers are not modelled. A JSON
  number is an integer in the model.
  - `BodyValue` has no JSON `null`, boolean, object or array.
  - Digit text above 2^53 is read exactly, while `parseInt` rounds it to the nearest double.
- IndexApi.DeleteByFile, IndexApi.Download, AppApi.Delete and AppApi.Download: `nome_arquivo` is
  taken as an optional string. Express's query parser can also give an array or an object
  (`?nome_arquivo[]=a` or `?nome_arquivo[k]=v`). Such a value passes `!nome_arquivo`, and the
  driver does not bind it as one string, so the `WHERE` is then no longer "equals the
  parameter". The model has no such value.
- Records.Select, Records.RecordTable.SelectWhere, IndexApi.Download and AppApi.Download: the
  rows come back in table order. MySQL returns them in primary-key order, which differs when
  explicit ids arrived out of order. The set of rows returned is exact, and so is the multiset.
- ClientIp.ResolveIp: a missing socket address, which makes the source throw, is not modelled.
- The HTTP request to the provider and its API key are not modelled. The provider's parsed
  answer is a parameter. `None` stands for the two failures that reach the `.catch` at
  index.js:428-430:
  - a rejected fetch and a body `response.json()` cannot parse;
  - a JSON `null` body, on which `apiData.id` at index.js:382 throws.

  Any other JSON body is `Some`, error answers included, because index.js:368-369 does not check
  the status.
- Concurrency is not modelled: two requests interleaving between the insert and the decrement.
  Each handler runs as one atomic step.
- The cron schedule itself is not modelled. `RetentionSweep` is the body run at each firing.
- `DATE_FORMAT` in the listing, the `/test` endpoint, CORS, dotenv, `listen` and console output
  are not modelled. They have no effect on stored state.
- The database schema is not part of this model. Which unique keys exist is the parameter
  `naturalKeyUnique`.
