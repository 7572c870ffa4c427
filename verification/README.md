# diary-v3 core, modelled in Dafny

diary-v3 is a personal diary application: a NestJS API over a relational store
and a Next.js web client. This project models its core:

- the diary service. It creates, lists, finds, updates and removes a user's
  diaries, exports them as CSV records, and imports CSV rows with
  line-tagged errors;
- the user table and the auth service: registration with a bcrypt hash,
  credential checking, and token issue;
- the JWT strategy. The token comes from the `access_token` cookie first,
  then from the Bearer header. Expiry is enforced, and the payload is mapped
  to the request user;
- the validation rules of the create body and of the listing query;
- the web hook `useDiaries`. It drops null and undefined parameters, builds
  the URL, falls back to defaults with `||`, and computes a page count.

Modules follow the source files:

- `DiaryModel`: the diary record, the query clamps, the filter, the order and the page window.
- `DiaryDto`: the validation rules of the create body and the listing query.
- `DiaryCsv`: export records, the import's per-row checks, error messages and whole-file outcome.
- `DiariesService`: the `DiaryService` class. Its table is a field `rows`; ids and timestamps come from the counters `nextId` and `clock`.
- `Users`: the `UsersService` class.
- `Auth`.
- `JwtStrategy`.
- `UseDiaries`.
- `Wrappers` and `Text`: shared helpers, such as Option/Result, the JS null/undefined distinction, string order and decimal rendering.

The store's answer to a write is a parameter. It is `fault` for a create,
an update or a delete, and `saveError` per input for an import. So are bcrypt's digest
(`kdf`), JWT signing and verification (`sign`, `verify`), timestamp
rendering (`iso`) and percent-encoding (`enc`).

## Model

| member | source | states |
|---|---|---|
| DiaryModel.ClampPage | apps/api/src/diaries/diaries.service.ts:51 | The page is at least 1. A missing page gives 1, a page below 1 gives 1, and any other page is kept. |
| DiaryModel.ClampLimit | apps/api/src/diaries/diaries.service.ts:52 | The limit lies in 1..100. A missing limit gives 10, and limits below 1 or above 100 are clamped to those bounds. |
| DiaryModel.Filter | apps/api/src/diaries/diaries.service.ts:55-75 | A diary is listed iff it is the caller's and passes each active filter: keyword in title or content, date at or after `fromDate`, at or before `toDate`. Empty filters are inactive. Each matching row keeps its multiplicity and every other row is dropped. |
| DiaryModel.OwnedBy | apps/api/src/diaries/diaries.service.ts:113-114 | Exactly the rows of the given owner, each with its multiplicity. |
| DiaryModel.FilterSeesOnlyOwner | apps/api/src/diaries/diaries.service.ts:55 | Owner isolation: a user's listing equals the listing over that user's rows alone. Other users' rows never influence it. |
| DiaryModel.BeforeTransitive | apps/api/src/diaries/diaries.service.ts:56-57 | The listing order (journal date, then creation time, both descending) is transitive. |
| DiaryModel.BeforeAsymmetric | apps/api/src/diaries/diaries.service.ts:56-57 | The listing order is asymmetric. |
| DiaryModel.BeforeIrreflexive | apps/api/src/diaries/diaries.service.ts:56-57 | No diary precedes itself. |
| DiaryModel.BeforeTransitiveContra | apps/api/src/diaries/diaries.service.ts:56-57 | What does not precede `c` does not precede anything that precedes `c`. |
| DiaryModel.BeforeTotal | apps/api/src/diaries/diaries.service.ts:56-57 | Two rows with different creation times are ordered one way or the other. |
| DiaryModel.NewestFirstDatesDescending | apps/api/src/diaries/diaries.service.ts:56 | A newest-first sequence has non-increasing journal dates. |
| DiaryModel.Insert | apps/api/src/diaries/diaries.service.ts:56-57 | Insertion adds exactly that item: the result's multiset is the input's plus the item. |
| DiaryModel.PrependNewestFirst | apps/api/src/diaries/diaries.service.ts:56-57 | An item that nothing in a newest-first sequence precedes can be put at its front. |
| DiaryModel.InsertNewestFirst | apps/api/src/diaries/diaries.service.ts:56-57 | Insertion keeps the newest-first order. |
| DiaryModel.Sort | apps/api/src/diaries/diaries.service.ts:56-57 | The ORDER BY: the result is a permutation (same multiset) of its input, newest first. |
| DiaryModel.SortMembers | apps/api/src/diaries/diaries.service.ts:56-57 | Sorting keeps exactly the same diaries. |
| DiaryModel.CreatedDistinctTail | apps/api/src/diaries/diaries.service.ts:57 | Distinct creation times hold of every suffix. |
| DiaryModel.HeadPrecedesAll | apps/api/src/diaries/diaries.service.ts:56-57 | In a newest-first sequence with distinct creation times, the head precedes every other item. |
| DiaryModel.HeadsAgree | apps/api/src/diaries/diaries.service.ts:56-57 | Two newest-first arrangements of one collection start with the same item. |
| DiaryModel.MultisetTails | apps/api/src/diaries/diaries.service.ts:56-57 | Two equal collections with the same head have equal tails. |
| DiaryModel.NewestFirstTail | apps/api/src/diaries/diaries.service.ts:56-57 | The tail of a newest-first sequence is newest first. |
| DiaryModel.NewestFirstUnique | apps/api/src/diaries/diaries.service.ts:56-57 | With distinct creation times the listing order is deterministic: two newest-first arrangements of the same diaries are equal. |
| DiaryModel.FilterKeepsCreatedDistinct | apps/api/src/diaries/diaries.service.ts:55-75 | Filtering keeps creation times distinct. |
| DiaryModel.Offset | apps/api/src/diaries/diaries.service.ts:58 | The first page starts at offset 0. |
| DiaryModel.OffsetMonotone | apps/api/src/diaries/diaries.service.ts:58-59 | A later page starts at least one whole page after an earlier one, so pages never overlap. |
| DiaryModel.PageOf | apps/api/src/diaries/diaries.service.ts:58-59 | Every item index `k` lies within the offset range of some page: `Offset(p) <= k < Offset(p) + limit`. |
| DiaryModel.WindowsTile | apps/api/src/diaries/diaries.service.ts:58-59 | Two adjacent windows of one size together make the window of twice that size. |
| DiaryModel.PagesTile | apps/api/src/diaries/diaries.service.ts:58-59 | Consecutive pages tile the listing. Page `p + 1` starts `limit` after page `p`, and the two pages together are the double-size window at page `p`'s offset. |
| DiaryModel.WindowCovers | apps/api/src/diaries/diaries.service.ts:58-59 | A window holds every item in its range, at that item's distance from the offset. |
| DiaryModel.ItemOnItsPage | apps/api/src/diaries/diaries.service.ts:58-59 | Pages partition the listing. Item `k` appears on page `PageOf(k)` and on no other page. |
| DiaryModel.Window | apps/api/src/diaries/diaries.service.ts:58-59 | OFFSET/LIMIT: at most `limit` items. Item k is item `offset + k` of the input, and the length is what remains after the offset, capped at the limit. |
| DiaryModel.PageSize | apps/api/src/diaries/diaries.service.ts:58-59 | A page never holds more than `limit` items. It is non-empty iff its offset is below the total, and full when a whole page remains. |
| DiaryModel.PageSizeIsWindowLength | apps/api/src/diaries/diaries.service.ts:58-59 | The page size is the length of that page's OFFSET/LIMIT window of the listing. |
| DiaryModel.WindowNewestFirst | apps/api/src/diaries/diaries.service.ts:56-59 | A window of a newest-first sequence is newest first. |
| DiaryModel.ApplyUpdate | apps/api/src/diaries/diaries.service.ts:94-99 | Each present field replaces the old one and each missing field is kept. An explicit null mood clears the mood in this model (the stored effect differs; see Left out), and the update time becomes the current clock tick. Id, owner and creation time never change. |
| DiaryModel.EmptyUpdateTouchesOnlyTime | apps/api/src/diaries/diaries.service.ts:94-99 | An update with no fields changes nothing but the update time. |
| DiaryModel.UpdateIdempotent | apps/api/src/diaries/diaries.service.ts:94-99 | Applying the same update twice equals applying it once at the later clock tick. |
| DiaryModel.NewDiary | apps/api/src/diaries/diaries.service.ts:38-45 | The created row carries the input's fields, the caller as owner, and the clock tick as both timestamps. A null or missing mood is stored as no mood. |
| DiaryDto.IsDateString | apps/api/src/diaries/dto/create-diary.dto.ts:17 | `@IsDateString()` in the modelled calendar form `YYYY-MM-DD`: every accepted date has the importer's shape, and the documented example `2025-09-29` is accepted. |
| DiaryDto.CreateDiaryDtoValid | apps/api/src/diaries/dto/create-diary.dto.ts:5-23 | A valid body has a title of 1 to 200 characters, and a title over 200 characters is refused. Under the modelled calendar form of `@IsDateString()`, its date also has the importer's shape. |
| DiaryDto.QueryDiaryDtoValid | apps/api/src/diaries/dto/query-diary.dto.ts:5-34 | A valid query's page and limit pass the service's clamps unchanged, or take the defaults 1 and 10 when missing. Under the modelled calendar form of `@IsDateString()`, any date bound it carries has the importer's shape. |
| DiaryDto.DateStringHasShape | apps/api/src/diaries/dto/create-diary.dto.ts:16-18 | Every date of the modelled calendar form (`YYYY-MM-DD`, month 01-12, day 01-31) has the importer's shape. `2025-13-45` has the shape but is not of that form. |
| DiaryDto.ToCreateInput | apps/api/src/diaries/dto/create-diary.dto.ts:5-23 | A validated body is handed on unchanged: the input carries the body's own title, content and date, and its mood when it has one (else none). Under the modelled rules that title is non-empty and at most 200 characters, the content is non-empty, and the date of the modelled calendar form has the importer's shape. |
| DiaryDto.AcceptedQueryIsNotClamped | apps/api/src/diaries/dto/query-diary.dto.ts:7-19 | For a query that passes validation, the service's clamp keeps page and limit as sent, or uses the defaults 1 and 10. |
| DiaryDto.EmptyQueryAccepted | apps/api/src/diaries/dto/query-diary.dto.ts:7-34 | A query with every field missing is accepted. |
| DiaryCsv.MoodCell | apps/api/src/diaries/diaries.service.ts:123 | A missing mood is exported as the empty string. |
| DiaryCsv.ToRecord | apps/api/src/diaries/diaries.service.ts:118-126 | The record carries the diary's id, title, content, date, mood cell and timestamps. |
| DiaryCsv.ToRecords | apps/api/src/diaries/diaries.service.ts:118 | One record per diary, in order. |
| DiaryCsv.ToRecordsPermutation | apps/api/src/diaries/diaries.service.ts:113-126 | Reordering the diaries reorders their records: equal collections of diaries give equal collections of records. |
| DiaryCsv.RecordsOfDiaries | apps/api/src/diaries/diaries.service.ts:118-126 | Every diary's record is exported, and every record comes from some diary. |
| DiaryCsv.HeaderLabelsDistinct | apps/api/src/diaries/diaries.service.ts:128-138 | The seven column labels are pairwise distinct. |
| DiaryCsv.ToRow | apps/api/src/diaries/diaries.service.ts:128-140 | Reading back an exported record gives a row whose cells hold the record's fields under the header labels. The id is in decimal, the mood cell is as exported, and the created and updated cells are `iso` of the record's timestamps. |
| DiaryCsv.Screen | apps/api/src/diaries/diaries.service.ts:161-178 | A missing or empty title, content or date cell fails with `MissingField` (both directions). Otherwise a date that is not `\d{4}-\d{2}-\d{2}` fails with `BadDateFormat`. Otherwise the input takes the cells as they are, and the mood is present iff its cell is non-empty. The row passes iff all three cells are non-empty and the date has the shape. |
| DiaryCsv.Verdict | apps/api/src/diaries/diaries.service.ts:159-184 | A row is stored iff it passes the checks and the store accepts its insert. A screening failure is kept as it is. A refused insert fails with `SaveFailed` carrying the store's message. |
| DiaryCsv.ImportAccountsForEveryRow | apps/api/src/diaries/diaries.service.ts:158-185 | Every row is accounted for exactly once: imported + errors = rows. |
| DiaryCsv.OutcomeOfLastRow | apps/api/src/diaries/diaries.service.ts:158-185 | The last row's outcome is appended after the outcomes of the rows before it. Its error line is its index + 2. |
| DiaryCsv.ErrorLinesAscend | apps/api/src/diaries/diaries.service.ts:162 | Error lines are strictly increasing and lie in 2..rows+1. |
| DiaryCsv.ErrorsNameFailedRows | apps/api/src/diaries/diaries.service.ts:162-183 | Every error names a row that failed, with that row's own failure. |
| DiaryCsv.FailedRowsAreReported | apps/api/src/diaries/diaries.service.ts:158-185 | Row i failed iff an error on line i + 2 is reported. |
| DiaryCsv.Message | apps/api/src/diaries/diaries.service.ts:162-183 | The message starts with `行 `, followed by the decimal line, then `: `, and it ends with the reason. The reason is one of the two fixed texts of the checks, or the store's message. |
| DiaryCsv.Messages | apps/api/src/diaries/diaries.service.ts:147 | One message per error, in order: message k renders error k. |
| DiaryCsv.MessagesAppend | apps/api/src/diaries/diaries.service.ts:162-183 | A new error appends its message at the end. |
| DiaryCsv.MessageNamesItsLine | apps/api/src/diaries/diaries.service.ts:162 | The line number can be read back from every message. |
| DiaryCsv.Batch | apps/api/src/diaries/diaries.service.ts:174-179 | The imported rows are stored as one diary per accepted input, diary k with id `firstId + k` and the caller as owner. |
| DiaryCsv.BatchIsConsecutive | apps/api/src/diaries/diaries.service.ts:174-181 | Imported diaries are stored in file order, owned by the caller, with consecutive ids and clock ticks. |
| DiaryCsv.BatchAppend | apps/api/src/diaries/diaries.service.ts:174-181 | One more accepted input appends one diary with the next id and tick. |
| DiaryCsv.ExportRows | apps/api/src/diaries/diaries.service.ts:118-140 | The rows a reader gets back from an export: one per diary, in order. |
| DiaryCsv.ExportedRowScreens | apps/api/src/diaries/diaries.service.ts:118-178 | An exported diary with non-empty title and content and a well-shaped date passes the importer's checks. The input carries the same title, content, date and mood, where an empty mood comes back as none. |
| DiaryCsv.ExportedRowStored | apps/api/src/diaries/diaries.service.ts:118-184 | The same, when the store accepts every insert. |
| DiaryCsv.ExportImportNoErrors | apps/api/src/diaries/diaries.service.ts:112-193 | Importing such an export reports no error. |
| DiaryCsv.AllRestoredAppend | apps/api/src/diaries/diaries.service.ts:112-193 | Restoration extends by one restored pair. |
| DiaryCsv.ExportImportRoundTrip | apps/api/src/diaries/diaries.service.ts:112-193 | Export then import round trip: every exported diary comes back in order, with the same title, content, date and normalised mood. |
| DiaryCsv.OneBadRow | apps/api/src/diaries/diaries.service.ts:158-185 | A file with exactly one failing row yields one error, on that row's line. Every other row is imported: the loop never stops early. |
| DiaryCsv.NoBadRow | apps/api/src/diaries/diaries.service.ts:158-185 | A file whose rows all pass yields no errors and imports every row. |
| DiaryCsv.ShapeIsNotCalendar | apps/api/src/diaries/diaries.service.ts:168 | The importer's date check accepts `2025-13-45`. |
| DiariesService.IndexOf | apps/api/src/diaries/diaries.service.ts:82-84 | Finds the position of the row with that id and owner, or reports that none exists. |
| DiariesService.Without | apps/api/src/diaries/diaries.service.ts:108 | Removal drops exactly one position and keeps the others in order. |
| DiariesService.WithoutKeepsTable | apps/api/src/diaries/diaries.service.ts:108 | Removing a row keeps the table invariant. |
| DiariesService.WithoutKeepsOthers | apps/api/src/diaries/diaries.service.ts:108 | Rows with other ids stay. |
| DiariesService.WithoutDropsId | apps/api/src/diaries/diaries.service.ts:108 | No row with the removed id remains. |
| DiariesService.DiaryService.constructor | apps/api/src/diaries/diaries.service.ts:33-36 | An empty, valid table. |
| DiariesService.DiaryService.Create | apps/api/src/diaries/diaries.service.ts:38-48 | On a store failure its message is thrown and nothing changes. Otherwise exactly one new row is appended, with a fresh id (returned) and the next clock tick. |
| DiariesService.DiaryService.FindAll | apps/api/src/diaries/diaries.service.ts:50-79 | Page and limit are clamped, and total counts all matches. The items are the clamped page's window of the caller's matching diaries, sorted newest first. Every item matches, and the page size follows from total, page and limit. |
| DiariesService.DiaryService.FindOne | apps/api/src/diaries/diaries.service.ts:81-87 | Succeeds iff the caller owns a diary with that id, and returns it. Otherwise `Diary not found`, the same for a missing id and for another user's diary. |
| DiariesService.DiaryService.Update | apps/api/src/diaries/diaries.service.ts:89-101 | Fails with `Diary not found` iff FindOne would. Otherwise it fails with the store's message iff the save is refused. Either failure leaves the table unchanged. On success only that diary changes, to `ApplyUpdate` of it, and the id is returned. |
| DiariesService.DiaryService.Remove | apps/api/src/diaries/diaries.service.ts:103-110 | Fails with `Diary not found` iff FindOne would. Otherwise it fails with the store's message iff the delete is refused. Either failure leaves the table unchanged. On success exactly that row is removed, every other row stays, and the id is returned. |
| DiariesService.DiaryService.ExportToCsv | apps/api/src/diaries/diaries.service.ts:112-126 | Exactly the caller's diaries, one record each, with journal dates descending. The records are a permutation of the records of the caller's rows. |
| DiariesService.DiaryService.ImportRow | apps/api/src/diaries/diaries.service.ts:159-184 | One loop turn: it fails iff the row's verdict is a failure, and then nothing changes. Otherwise the screened input is stored with the next id and tick. |
| DiariesService.DiaryService.ImportNext | apps/api/src/diaries/diaries.service.ts:158-185 | The running count, messages and stored rows extend from the first i rows to the first i+1. |
| DiariesService.DiaryService.ImportFromCsv | apps/api/src/diaries/diaries.service.ts:144-193 | `imported` counts the accepted rows. `errors` are the messages of the failed rows, in order, each tagged with line index + 2, and imported + errors = rows. The accepted inputs are appended in file order with consecutive ids. |
| DiariesService.ImportStepFailed | apps/api/src/diaries/diaries.service.ts:161-184 | A failing row adds its message and stores nothing. |
| DiariesService.ImportStepStored | apps/api/src/diaries/diaries.service.ts:174-181 | A passing row stores one diary, counts one import and adds no message. |
| DiariesService.ImportSkipsTitleLimit | apps/api/src/diaries/diaries.service.ts:161-179 | The importer admits a 201-character title that the create body's validation rejects. |
| Users.Hash | apps/api/src/users/users.service.ts:27 | The hash uses cost 10 and the drawn salt, and the password compares true against it. |
| Users.WithEmail | apps/api/src/users/users.service.ts:14-16 | Returns none iff no user has the email; a found user is in the table and has that email. |
| Users.WithId | apps/api/src/users/users.service.ts:18-20 | Returns none iff no user has the id; a found user is in the table and has that id. |
| Users.WithEmailUnique | apps/api/src/entities/user.entity.ts:9 | With unique emails, the lookup finds exactly the user with that email. |
| Users.UsersService.constructor | apps/api/src/users/users.service.ts:9-12 | An empty, valid table. |
| Users.UsersService.FindByEmail | apps/api/src/users/users.service.ts:14-16 | Returns none iff no user has the email; otherwise a stored user with it. |
| Users.UsersService.FindById | apps/api/src/users/users.service.ts:18-20 | Returns none iff no user has the id; otherwise a stored user with it. |
| Users.UsersService.CreateUser | apps/api/src/users/users.service.ts:22-30 | Fails with `Email already registered`, leaving the table unchanged, iff the email exists. Otherwise it appends a user with a fresh id and the cost-10 hash. Email uniqueness is kept, the new user is found by its email, and its password matches. |
| Auth.Register | apps/api/src/auth/auth.service.ts:13-16 | Fails iff the email is taken, with the table unchanged. Otherwise it appends the user, advances the id counter, and returns only the new id and email. Afterwards those credentials validate to the new user. |
| Auth.ValidateUser | apps/api/src/auth/auth.service.ts:18-24 | Returns a user iff one with the email exists and the password matches its hash. An unknown email and a wrong password give the same none. |
| Auth.ValidateRegistered | apps/api/src/auth/auth.service.ts:18-24 | For a registered user, validation succeeds exactly when the password matches. |
| Auth.Login | apps/api/src/auth/auth.service.ts:26-29 | The token is the signature of `{sub: userId, email}`. Its partner is `JwtStrategy.LoginTokenAuthenticates`. |
| JwtStrategy.CookieExtractor | apps/api/src/auth/strategies/jwt.strategy.ts:6-11 | Yields a token iff there is a request with cookies and a non-empty `access_token` cookie, and that cookie is the token. |
| JwtStrategy.BearerExtractor | apps/api/src/auth/strategies/jwt.strategy.ts:19 | Yields the header's Bearer token when there is a non-empty one. |
| JwtStrategy.FromExtractors | apps/api/src/auth/strategies/jwt.strategy.ts:17-20 | An empty chain yields none, and a truthy first result wins. |
| JwtStrategy.ExtractToken | apps/api/src/auth/strategies/jwt.strategy.ts:17-20 | `jwtFromRequest`: the token is the cookie's or the Bearer header's, and there is none iff neither source has one. |
| JwtStrategy.FirstTruthyWins | apps/api/src/auth/strategies/jwt.strategy.ts:17-20 | The chain yields the first non-empty token. |
| JwtStrategy.NoneTruthyGivesLast | apps/api/src/auth/strategies/jwt.strategy.ts:17-20 | With no token anywhere, the chain yields the last extractor's result. |
| JwtStrategy.CookieWins | apps/api/src/auth/strategies/jwt.strategy.ts:17-20 | The cookie takes precedence over the header. |
| JwtStrategy.HeaderFallback | apps/api/src/auth/strategies/jwt.strategy.ts:17-20 | Without the cookie, the header decides. |
| JwtStrategy.Validate | apps/api/src/auth/strategies/jwt.strategy.ts:26-28 | The request user's id is the payload's `sub`, and the email is kept. |
| JwtStrategy.Authenticate | apps/api/src/auth/strategies/jwt.strategy.ts:17-28 | No token fails, and a token that does not verify fails. Success holds iff a token verifies and has not expired, and then yields `Validate` of its claims. |
| JwtStrategy.ExpiredTokenRejected | apps/api/src/auth/strategies/jwt.strategy.ts:21 | A well-signed but expired token is refused. |
| JwtStrategy.LoginTokenAuthenticates | apps/api/src/auth/strategies/jwt.strategy.ts:6-28 | A request carrying the login token in its cookie authenticates as the user the token was issued for, while the token verifies and has not expired. |
| UseDiaries.JsString | apps/web/src/hooks/useDiaries.ts:11 | `String(value)`: a number gives its decimal text and a string gives itself. |
| UseDiaries.Put | apps/web/src/hooks/useDiaries.ts:11 | A key not yet in the record is appended at the end. A key already there is overwritten in place, and the length stays the same. |
| UseDiaries.FilterParams | apps/web/src/hooks/useDiaries.ts:8-15 | The reduce loop builds exactly the accumulator of its specification, `Reduced`. |
| UseDiaries.RenderedKeys | apps/web/src/hooks/useDiaries.ts:9-14 | A key is in the result only if some entry had it. |
| UseDiaries.ReducedIsRendered | apps/web/src/hooks/useDiaries.ts:9-14 | With distinct keys, the reduce equals the reference form. |
| UseDiaries.RenderedSound | apps/web/src/hooks/useDiaries.ts:10-11 | Every kept pair comes from a present entry under the same key. |
| UseDiaries.RenderedComplete | apps/web/src/hooks/useDiaries.ts:10-11 | Every present entry is kept under its own key. |
| UseDiaries.RenderedMembers | apps/web/src/hooks/useDiaries.ts:10-11 | A pair is kept iff its value is neither undefined nor null, and it is then rendered with `String`. |
| UseDiaries.FalsyValuesKept | apps/web/src/hooks/useDiaries.ts:10 | 0 and `''` are kept, while undefined and null are dropped. |
| UseDiaries.Pair | apps/web/src/hooks/useDiaries.ts:8 | A pair renders as the encoded key, then `=`, then the encoded value. Both parts read back from either side of the `=`, and the length is the sum of the parts plus one. |
| UseDiaries.QueryString | apps/web/src/hooks/useDiaries.ts:8 | The query string is empty iff no parameter is kept. It ends with the last pair, preceded by `&` when earlier pairs exist. |
| UseDiaries.QueryStringHasPairs | apps/web/src/hooks/useDiaries.ts:8 | Every pair of the record occurs in the query string. |
| UseDiaries.QueryStringSplits | apps/web/src/hooks/useDiaries.ts:8 | With an encoding that escapes `&`, splitting the query string at `&` gives back exactly the record's pairs, in order. |
| UseDiaries.ParamsQuery | apps/web/src/hooks/useDiaries.ts:8-15 | No params at all give the empty string. |
| UseDiaries.ParamsQuerySendsPresent | apps/web/src/hooks/useDiaries.ts:8-15 | Every parameter whose value is neither undefined nor null occurs in the query string as `key=String(value)`. |
| UseDiaries.ParamsQueryPieces | apps/web/src/hooks/useDiaries.ts:8-15 | With an encoding that escapes `&`, the pieces of the query string are exactly the present parameters, in order, each as `key=String(value)`. So a parameter is sent iff its value is neither undefined nor null. |
| UseDiaries.DiariesUrl | apps/web/src/hooks/useDiaries.ts:17 | The URL is `/diaries` for an empty query string, and otherwise `/diaries?` followed by it. |
| UseDiaries.BareUrlIffNothingKept | apps/web/src/hooks/useDiaries.ts:8-17 | The URL is bare iff there are no params or none is present. |
| UseDiaries.CeilDiv | apps/web/src/hooks/useDiaries.ts:30 | `Math.ceil(a / b)`: the least integer at or above the quotient, for either sign of `b`. |
| UseDiaries.Derive | apps/web/src/hooks/useDiaries.ts:21-30 | Each field falls back with `||`: items `[]`, total 0, page 1, limit 10, so the divisor is never 0. totalPages is the server's value if truthy, else `ceil(total / limit)`. isLoading holds iff there is neither data nor error. |
| UseDiaries.DefaultsWithoutResponse | apps/web/src/hooks/useDiaries.ts:26-30 | Before a response: no diaries, total 0, page 1, limit 10, 0 pages. |
| UseDiaries.Response | apps/api/src/diaries/diaries.service.ts:77-78 | The listing body carries the page's items, total, page and limit, and no `totalPages`. |
| UseDiaries.PageCountMatchesServer | apps/web/src/hooks/useDiaries.ts:30 | Against the listing endpoint, the page count is `ceil(total / limit)` of the server's values. Page n has items iff n is within that count. |

## Left out

- Keyword search is modelled as a substring test. SQL `LIKE` collation (case and accent folding) and the `%`/`_` wildcards inside a keyword are not modelled.
- Journal dates are compared as strings. The `new Date(...)` conversion of `fromDate`/`toDate` and time zones are not modelled.
- CSV tokenising and quoting (csv-writer, csv-parser) are not modelled. A parsed row is a map from column label to cell.
- The `toISOString` rendering of timestamps is the parameter `iso`. A stream error of the parser, which rejects the whole import, is not modelled.
- Percent-encoding is the parameter `enc`. The split of the query string back into pairs assumes that `enc` escapes `&`, as form-urlencoding does.
- Promises, `async` and streams are not modelled; each operation is one atomic step.
- Cascade deletion of a user's diaries is not modelled: no operation here deletes users.
- The `diaries` entity has no `title` or `mood` column, and the web `Diary` type omits them too. The model follows the service, which reads and writes both.
- Client and server disagree in places, and only the hook's own logic is modelled:
  - the web filter type names its date bounds `startDate`/`endDate` (apps/web/src/types/index.ts:35-36), while the server reads `fromDate`/`toDate`;
  - the web updates with PATCH while the controller exposes PUT;
  - the server never sends `totalPages`.
- DiaryDto.DateStringHasShape: holds only for the modelled calendar form. The real `@IsDateString()` check (ISO 8601) also accepts `2025-09-29T10:00:00Z`, `2025-09`, `2025` and `20250929`, which the importer's `\d{4}-\d{2}-\d{2}` check rejects.
- DiaryDto.CreateDiaryDtoValid: the date clause holds only under the modelled calendar form. A body dated `2025-09-29T10:00:00Z`, `2025-09` or `20250929` passes the real validator, but its date lacks the importer's shape.
- DiaryDto.QueryDiaryDtoValid: the date-bound clause holds only under the modelled calendar form, for the same reason.
- DiaryDto.ToCreateInput: its well-shaped date holds only under the modelled calendar form. A body whose date is one of the other ISO 8601 forms passes the real validator but would fail the importer's shape check.
- DiaryDto.IsDateString: accepts the calendar form `YYYY-MM-DD` with month 01-12 and day 01-31. The validator's full ISO 8601 grammar is not modelled: times, week dates and day-per-month limits are left out.
- DiariesService.DiaryService.ExportToCsv: the export orders by journal date only, and ties are left to the database. The contract promises descending dates and the exact set of records, not the order among equal dates. The model breaks ties by creation time.
- Timestamps are ticks of a counter `clock`, distinct per write. Wall-clock time is not modelled.
- DiariesService.DiaryService.Update: the ORM may skip the write of an unchanged row, leaving the update time as it was. The model always refreshes it. The source returns `{ id }`; the model returns the id.
- DiariesService.DiaryService.Create: a failed insert leaves the id counter unchanged, whereas a database sequence may skip an id. The source returns `{ id }`; the model returns the id.
- JavaScript numbers are integers here. NaN, fractions and `@Type(() => Number)` coercion are not modelled.
- bcrypt is the digest function `kdf` plus a salt parameter, and its randomness is not modelled. The Bearer header's grammar is the parsed field `Request.bearer`. JWT signing and verification are the parameters `sign` and `verify`.
- Users.UsersService.CreateUser: the check-then-insert race between two registrations of one email, and a store failure on save, are not modelled. The unique index is stated as the table invariant.
- Users.UsersService.CreateUser: emails are compared exactly, here and in `Users.WithEmail` and `Users.UsersService.FindByEmail`. The store is MySQL (apps/api/src/app.module.ts:19) with no collation given, and its default collation ignores case. So with `A@x.com` stored, registering `a@x.com` fails with `Email already registered` and `a@x.com` finds that user, which the model does not capture.
- DiaryModel.ApplyUpdate: an explicit null mood becomes `undefined` on the entity (apps/api/src/diaries/diaries.service.ts:98). The ORM's `save` skips undefined properties, so the stored mood is kept. The model clears it, as the assignment evidently intends, and so does `DiariesService.DiaryService.Update`.
- JwtStrategy.FromExtractors: passport-jwt tries the extractors in order until one yields a token. An absent request is `None`.
- JwtStrategy.Authenticate: the secret and its `dev-secret` default are inside `verify`. Clock skew is not modelled.
- Controllers, pages, `useAuth`, the axios client, `useDiary`, `createDiary`, `updateDiary`, `deleteDiary` and the hook's `console.log` are not modelled: they are transport and UI.
