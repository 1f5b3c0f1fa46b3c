# clawdirect, modelled in Dafny

clawdirect is a directory of web experiences for AI agents. Agents add and edit entries through
MCP tools that are paid for and authenticated via ATXP. Browsers like entries with a session
cookie that the agent obtains from a tool. The listing is ranked by likes and then by age.

This project models the core of the service:

- the SQLite store (`src/db.ts`);
- the one-shot like migrations (`src/migrate.ts`);
- the seed script (`src/seed.ts`);
- the three MCP tools (`src/tools.ts`);
- the HTTP routes (`src/api.ts`);
- the two admin scripts (`src/admin-add.ts`, `src/admin-edit.ts`);
- the configuration parsing (`src/globals.ts`).

The modules follow the source files:

| module | file | content |
|---|---|---|
| `Common` | common.dfy | `Option`, `Result`, bytes |
| `Text` | text.dfy | the JavaScript string operations the code uses: `split` on one character, `trim`, `startsWith`, `toLowerCase` on ASCII, decimal rendering, and `parseInt` with its hexadecimal prefix |
| `Db` | db.dfy | the `Store` class (entries in rowid order, the AUTOINCREMENT counter, cookies, likes, migration ledger), the table invariants, read queries as functions over the tables, mutations as methods |
| `Migrate` | migrate.dfy | the five like-adding migrations and `migrate()` |
| `Seed` | seed.dfy | the five seed records, the seeding loop (a fold `SeedAll` plus the imperative loop it specifies) and the seed script's own migration |
| `Tools` | tools.dfy | `clawdirect_cookie`, `clawdirect_add`, `clawdirect_edit` |
| `Api` | api.dfy | `getStringParam`, the id check, the Cookie header scan, the like route and the thumbnail route |
| `Cli` | cli.dfy | what both admin scripts share: `parseArgs`, `path.extname`, the MIME map and the thumbnail read |
| `AdminAdd`, `AdminEdit` | admin_add.dfy, admin_edit.dfy | the two scripts' `main` |
| `Globals` | globals.dfy | `FUNDING_DESTINATION_ATXP`, `ADMIN_ACCOUNTS`, `PORT` |

Everything outside the program comes in as a parameter:

- the clock is a natural number `now`;
- `Math.random()` readings are reals in [0, 1) and the random hex suffixes are strings, both given by functions (`Draws`);
- the cookie token is a string the caller draws;
- the file system is a function from a path to optional bytes;
- the ATXP account is an optional string;
- base64 decoding and zod's URL check are functions.

Behaviour of the code that is easy to miss, as modelled:

- Foreign keys are on, so `addLike` for an id with no entry is a rejected insert and returns false. better-sqlite3 builds SQLite with that option enabled.
- `clawdirect_add` accepts a thumbnail without a MIME type and a MIME type without a thumbnail. An empty MIME type is stored as null (`tools.ts:77`, `tools.ts:86`).
- `clawdirect_edit` has no administrator bypass. It validates a supplied MIME type even when it is empty, and it passes a supplied empty thumbnail on to `updateEntry` as the decoding of `""` (an empty buffer under base64) rather than treating it as absent.
- admin-edit counts `--name` and `--newUrl` as updates, but `updateEntry` ignores both. The script reports success while only `updated_at` (and any description or thumbnail) changes (`AdminEdit.RenameIgnored`).
- Seeding is idempotent only when every bundled thumbnail is at least 1000 bytes. A smaller file is written again, with a new `updated_at`, on every run (`Seed.SmallAssetRewritten`).
- `Buffer.from(s, 'base64')` never throws, so the "Invalid base64 thumbnail data" branches of the tools cannot be taken, and the model has none.
- The failure branches after a successful lookup cannot be taken in a sequential store either, so they appear as proved `assert`s rather than as error results. These are "Failed to update entry" and admin-edit's "Failed to update", and an `addEntry` rejected right after `getEntryByUrl` found nothing.
- The like and thumbnail routes use `parseInt` without a radix. So `"12abc"` names entry 12, `"0x1f"` names entry 31, and a negative id is a plain 404.

## Model

| member | source | states |
|---|---|---|
| `Db.GetEntryByUrl` | src/db.ts:115-120 | a row is found exactly when some row has the url, and the row found has that url |
| `Db.GetEntryById` | src/db.ts:122-127 | a row is found exactly when some row has the id, and the row found has that id |
| `Db.IndexOfUrl` | src/db.ts:115-120 | the position of the row with the url, or -1 exactly when no row has it |
| `Db.LookupAppended` | src/db.ts:97-127 | a row appended under a fresh url with an id above all others is the one found by its url and by its id |
| `Db.LookupOtherUrl` | src/db.ts:97-120 | appending a row leaves the lookup of every other url unchanged |
| `Db.LikeCountAfterInsert` | src/db.ts:209-232 | inserting a like raises its entry's count by one when the pair is new, and leaves every other count alone |
| `Db.LikesWithout` | src/db.ts:262 | the likes surviving a delete are a subset of the old likes |
| `Db.LikeCountAfterCascade` | src/db.ts:262 | after deleting an entry's likes its count is 0 and every other entry's count is unchanged |
| `Db.LikeCountZero` | src/db.ts:224-232 | an entry that no like carries has count 0 |
| `Db.LikedCounted` | src/db.ts:224-242 | an account that has liked an entry contributes exactly one to its count, and a positive count means some account has liked it |
| `Db.GetAccountFromCookie` | src/db.ts:87-94 | an account is returned exactly when the token is stored with a non-empty account, and it is that account |
| `Db.GetThumbnail` | src/db.ts:193-206 | nothing exactly when no entry has the id or its thumbnail is null; otherwise the stored bytes and MIME type |
| `Db.ThumbnailUrl` | src/db.ts:186-190 | null exactly when the MIME type is null or empty; otherwise starts with `/thumbnails/<id>?v=` |
| `Db.JoinedRows` | src/db.ts:166-184 | one row per entry, in table order, each with that entry's like count |
| `Db.InsertRanked` | src/db.ts:183 | inserting into a ranked sequence keeps it ranked and adds exactly that row |
| `Db.SortRanked` | src/db.ts:183 | the result is ranked (likes descending, then `created_at` descending) and a permutation of its input |
| `Db.GetAllEntriesWithLikes` | src/db.ts:166-191 | the listing is ranked and a permutation of the joined rows |
| `Db.RankedProjection` | src/db.ts:166-191 | the listing has exactly one row per entry, and each row's likes equal that entry's like count |
| `Db.RankingExample` | src/db.ts:183 | of two entries with equal likes the newer comes first, and an entry with fewer likes comes after both |
| `Db.ApplyUpdates` | src/db.ts:129-164 | the updated row keeps id, url, name, owner and `created_at`, takes `now` as `updated_at`, and takes each supplied field |
| `Db.UpdateRows` | src/db.ts:129-164 | the table keeps its length and every row its id, url, name and owner; rows under another url are unchanged |
| `Db.UpdateRowsNoMatch` | src/db.ts:129-164 | an update by a url no row has leaves the table unchanged |
| `Db.LookupUpdated` | src/db.ts:129-164 | after an update by url, every lookup by url finds the same row as before, updated exactly when it is the url updated |
| `Db.UpdateRowsWellFormed` | src/db.ts:129-164 | an update keeps every table invariant |
| `Db.RemoveEntry` | src/db.ts:265 | the rows after the delete are exactly the rows without that id |
| `Db.RemoveEntryWellOrdered` | src/db.ts:265 | the delete keeps ids increasing and urls unique |
| `Db.Store.constructor` | src/db.ts:18-53 | a fresh database is empty, with the AUTOINCREMENT counter at 1 |
| `Db.Store.CreateAuthCookie` | src/db.ts:75-85 | a new token is stored for the account and then resolves to it (a non-empty account); a token already present is rejected and nothing changes |
| `Db.Store.AddEntry` | src/db.ts:97-113 | a url already present is rejected and nothing changes; otherwise the row with the next id, the given fields and `now` as both timestamps is appended, and it is found by url and by id |
| `Db.Store.UpdateEntry` | src/db.ts:129-164 | returns true exactly when a row has the url; the table becomes that row updated and every other row unchanged; nothing else changes |
| `Db.Store.AddLike` | src/db.ts:209-222 | true exactly when the entry exists and the pair is new; then the pair is added and the count rises by exactly one; otherwise nothing changes; other counts are unchanged |
| `Db.Store.DeleteEntry` | src/db.ts:244-268 | an unknown url gives "Entry not found"; a caller who is neither admin nor owner gives "Not authorized to delete this entry"; both change nothing; otherwise the entry and all its likes are removed and nothing else changes |
| `Db.Store.MarkMigrationComplete` | src/migrate.ts:56 | the name joins the ledger and nothing else changes |
| `Migrate.RandomInt` | src/migrate.ts:10-12 | the draw lies in [min, max] |
| `Migrate.FakeAccountInjective` | src/migrate.ts:14-16 | distinct random suffixes give distinct synthetic accounts |
| `Migrate.ScheduleBounds` | src/migrate.ts:19-229 | `add-random-likes` adds 12 to 97 likes per entry, the four later migrations 12 to 343 |
| `Migrate.LikeEntry` | src/migrate.ts:41-49 | the inner loop for one entry adds at most `likesToAdd` likes, all of them when the synthetic accounts are fresh; the entry's count rises by exactly the number added, every other count is unchanged, and nothing but the likes changes |
| `Migrate.RunLikeMigration` | src/migrate.ts:19-58 | a recorded name changes nothing; otherwise the name is recorded, entries are untouched, and on a non-empty table the migration is applied: each entry gains exactly `added[k]` ≤ `likesToAdd` likes (all of them when the synthetic accounts are fresh), with the total the sum of `added` |
| `Migrate.ScheduleNamesDistinct` | src/migrate.ts:19-229 | the five ledger names are pairwise distinct |
| `Migrate.RunNext` | src/migrate.ts:238-242 | one step of `migrate()`: the ledger gains the step's name; the step is skipped exactly when the name was recorded before the run, and then no like changes; otherwise it reports no entries on an empty table and is applied on a non-empty one, each entry gaining exactly its reported number of likes, at most the drawn number; entries and cookies are untouched |
| `Migrate.RunInOrder` | src/migrate.ts:231-245 | running migrations with distinct names records all of them; each report is a skip exactly when its name was already recorded, and otherwise says applied (with at most the drawn likes per entry) or no entries; each entry gains exactly the sum of its reported likes |
| `Migrate.RunMigrations` | src/migrate.ts:231-245 | `migrate()` records the five names and never touches entries; each report is a skip exactly when its name was recorded, and otherwise says no entries on an empty table or applied on a non-empty one, with at most the drawn number of likes for each entry (which `Migrate.ScheduleBounds` puts at 12 to 97, then 12 to 343); each entry gains exactly the sum of its reported likes, and none when all were recorded |
| `Migrate.MigrateTwice` | src/migrate.ts:231-245 | the first `migrate()` leaves likes in which each entry has gained exactly what its reports list, at most the drawn number per migration; the second reports all five migrations as skipped and leaves entries, likes and ledger as the first left them |
| `Seed.SeedStepKeepsRows` | src/seed.ts:80-111 | one pass appends at most one row, with the next id, and none when the url already has a row; every existing row keeps name, description and owner, and changes only when its thumbnail was broken and a replacement was at hand |
| `Seed.SeedKeepsRows` | src/seed.ts:80-111 | the whole loop keeps existing rows in the same way and only appends rows |
| `Seed.SeedCovers` | src/seed.ts:80-111 | after the loop every record's url has a row |
| `Seed.SeedKeepsUrl` | src/seed.ts:80-111 | a url that has a row keeps one through the loop |
| `Seed.SeedCoveredAppendsNothing` | src/seed.ts:80-111 | a loop over records whose urls all have rows inserts nothing and leaves the counter alone |
| `Seed.SeedSecondPass` | src/seed.ts:80-111 | whatever the thumbnails, a second seeding pass inserts no row, leaves the counter alone, and changes existing rows only by thumbnail repairs |
| `Seed.SeedIntoEmpty` | src/seed.ts:80-111 | seeding an empty table with distinct urls inserts every record in order, with consecutive ids and its listed fields and loaded thumbnail |
| `Seed.SeedOne` | src/seed.ts:81-110 | one pass of the loop leaves the table `SeedStep` describes for that record, and changes nothing else |
| `Seed.SeedEntriesDistinct` | src/seed.ts:31-72 | the five seed urls are distinct |
| `Seed.SeedFreshDatabase` | src/seed.ts:31-111 | a fresh database seeded once holds the five entries with ids 1 to 5 |
| `Seed.SeedSettled` | src/seed.ts:84-98 | a pass over records whose rows need no repair changes nothing |
| `Seed.SeedSettlesAll` | src/seed.ts:80-111 | with bundled thumbnails of at least 1000 bytes, every record is settled after a pass |
| `Seed.SeedIdempotent` | src/seed.ts:80-111 | with bundled thumbnails of at least 1000 bytes, a second seeding pass changes nothing |
| `Seed.SmallAssetRewritten` | src/seed.ts:84-94 | a bundled thumbnail under 1000 bytes is written again on the next pass |
| `Seed.SeedEntriesInto` | src/seed.ts:80-111 | the loop leaves the table `SeedAll` describes, and touches nothing else |
| `Seed.SeedThenMigrate` | src/seed.ts:74-119 | after seeding any records and running a migration, the table is the one `SeedAll` describes, every record's url has a row, cookies are untouched, the migration's name is recorded; it is skipped exactly when recorded before, applied otherwise when there were records, and each entry gains exactly its reported likes, at most the drawn number and exactly that for fresh synthetic accounts |
| `Seed.Seed` | src/seed.ts:74-119 | seeding leaves a row for every seed url and records `add-random-likes-v2`; the migration is skipped exactly when recorded and otherwise applied, each entry gaining exactly its reported likes, at most 97, and at least 12 for fresh synthetic accounts; the migration it runs is the one `seed.ts` defines after `seed()` |
| `Tools.CookieTool` | src/tools.ts:14-36 | no account: an error and no cookie; otherwise the token is stored and the cookie returned resolves to the caller's account |
| `Tools.AddTool` | src/tools.ts:39-95 | errors in the handler's order: bad arguments, no account, url taken, non-empty MIME type outside the four; each leaves the store unchanged; success appends a row owned by the caller with the next id, a null thumbnail for an empty string and a null MIME type for an empty one |
| `Tools.EditTool` | src/tools.ts:99-166 | errors in order, each named: bad arguments, no account, unknown url, caller not the owner (no admin bypass), a supplied MIME type outside the four; each leaves the store unchanged; success applies exactly the supplied description, thumbnail and MIME type |
| `Tools.EditKeepsOwnership` | src/tools.ts:130-156 | an edit keeps the row's owner, id and name, and a supplied MIME type stored is one of the four |
| `Tools.AdminMimesAccepted` | src/admin-add.ts:67-73 | every MIME type the admin scripts derive is one the tools accept |
| `Api.GetStringParam` | src/api.ts:15-20 | the first of repeated values, the single value, or none for a missing parameter or an empty list |
| `Api.ParseIdParam` | src/api.ts:36-47 | a missing or empty parameter, or the first of repeated values being empty, is the missing-id case; otherwise `parseInt` gives the id or the invalid-id case |
| `Api.IdParamRoundTrip` | src/api.ts:36-47 | the decimal id of an entry read back as a route parameter names that entry |
| `Api.CookieParts` | src/api.ts:61 | one trimmed part per `;`-separated piece of the header |
| `Api.FirstCookie` | src/api.ts:62-67 | a value exactly when some part starts with `clawdirect_cookie=`; it is the rest of the first such part |
| `Api.ScanCookies` | src/api.ts:62-67 | the loop with its early exit returns the value `FirstCookie` specifies: the rest of the first part starting with `clawdirect_cookie=`, or none |
| `Api.ExtractCookie` | src/api.ts:57-68 | reading the header finds the value `CookieValue` specifies, and none for a missing or empty header |
| `Api.CookieValueOfPieces` | src/api.ts:57-68 | a non-empty header carries a session cookie exactly when some trimmed `;`-piece starts with `clawdirect_cookie=`; the value is the rest of the first such piece; a missing or empty header carries none |
| `Api.CookieValueOfHeader` | src/api.ts:57-68 | a header starting with `clawdirect_cookie=<token>` gives back the token, whatever cookies follow |
| `Api.HandleLike` | src/api.ts:34-111 | in order: 400 missing id, 400 invalid id, 404 unknown entry, 401 no cookie value, 401 cookie of no account; none of them changes the likes; otherwise the pair is in the likes, `alreadyLiked` tells whether it was before, and `totalLikes` is the new count, one more than before exactly when it was new |
| `Api.RecordLike` | src/api.ts:89-106 | the like set gains the pair; `alreadyLiked` iff it was present; `totalLikes` is the count after, the old count plus one for a new pair |
| `Api.HandleThumbnail` | src/api.ts:114-143 | 400 for a missing or invalid id; an image exactly when the entry exists with a non-empty thumbnail, served with its stored bytes and MIME type; 404 otherwise |
| `Api.ListedThumbnailServed` | src/api.ts:114-138 | the `thumbnailUrl` the listing shows leads to that entry's own image |
| `Api.IssuedCookieAuthenticates` | src/api.ts:57-86 | a token issued for an account and sent first in the Cookie header resolves to that account |
| `Cli.ArgsFrom` | src/admin-add.ts:16-29 | every value collected is non-empty and not a flag, and was given right after its `--key`; the converse is `Cli.ArgsFromComplete` |
| `Cli.ArgsFromComplete` | src/admin-add.ts:16-29 | every flag followed by a proper value puts its key in the options |
| `Cli.ArgsFromLastWins` | src/admin-add.ts:16-29 | each key takes the value of the last flag that gives it one |
| `Cli.ArgsFromKeys` | src/admin-add.ts:16-29 | every key in the options comes from a flag followed by a proper value |
| `Cli.ParseArgs` | src/admin-add.ts:16-29 | the loop returns exactly the options `ArgMap` specifies, skipping a consumed value; `admin-edit.ts` has the same loop |
| `Cli.ParsePairs` | src/admin-add.ts:16-29 | a command line of `--key value` pairs with proper values parses to each key with its last value |
| `Cli.FlagWithoutValue` | src/admin-add.ts:20-25 | a flag not followed by a proper value, spelled nowhere else, gives no option |
| `Cli.Extname` | src/admin-add.ts:66 | the extension is empty or a dot followed by no dot or slash, taken from the end of the last path component; `admin-edit.ts` calls it the same way |
| `Cli.ExtnameOfFile` | src/admin-add.ts:66 | `dir/stem.x` has extension `.x` |
| `Cli.ExtnameOfDotFile` | src/admin-add.ts:66 | a name whose only dot is its first character has no extension |
| `Cli.ExtnameTrailingSlash` | src/admin-add.ts:66 | a trailing slash does not change the extension |
| `Cli.MimeForExtension` | src/admin-add.ts:67-73 | `.png` gives `image/png`, `.jpg` and `.jpeg` give `image/jpeg`, `.gif` gives `image/gif`, `.webp` gives `image/webp`, and any other extension none; `admin-edit.ts` has the same map |
| `Cli.ExtensionIgnoresCase` | src/admin-add.ts:66 | the extension is compared lowercased |
| `Cli.ReadThumbnail` | src/admin-add.ts:58-83 | a missing file and an unsupported extension are errors; otherwise the file's bytes and the mapped MIME type; `admin-edit.ts` reads the file the same way |
| `AdminAdd.Run` | src/admin-add.ts:31-104 | usage error exactly when url, name or description is missing; the url-exists and thumbnail errors surface; every error leaves the store unchanged; success appends the row owned by `admin-cli` with the next id and null thumbnail columns without `--thumbnail` |
| `AdminEdit.Run` | src/admin-edit.ts:30-121 | usage error exactly when `--url` is missing; unknown url surfaces; a thumbnail error for a known url is the error the script reports; no updates exactly when no truthy update argument; errors leave the store unchanged; success applies the description and thumbnail columns whoever owns the entry |
| `AdminEdit.RenameIgnored` | src/admin-edit.ts:65-73 | after the script's update the row keeps its name, url, owner and id |
| `Globals.FundingDestination` | src/globals.ts:1-5 | an error exactly when the variable is unset or empty |
| `Globals.NonEmpty` | src/globals.ts:11 | keeps exactly the non-empty strings; `Globals.NonEmptyConcat` adds that order and repetitions are kept |
| `Globals.NonEmptyConcat` | src/globals.ts:11 | filtering a concatenation is concatenating the filtered parts, so order and repetitions are kept |
| `Globals.NonEmptySingle` | src/globals.ts:11 | a single string is kept exactly when it is non-empty |
| `Globals.AdminAccounts` | src/globals.ts:8-11 | every listed account is non-empty, has no comma and equals its trimmed form |
| `Globals.AdminAccountsOfSegments` | src/globals.ts:8-11 | a comma-joined variable reads as its segments trimmed, in order, with the empty ones dropped |
| `Globals.AdminAccountsRoundTrip` | src/globals.ts:8-11 | a comma-joined list of such accounts reads back as the same list, in order; an unset variable gives none |
| `Globals.PortOf` | src/globals.ts:13 | a decimal `PORT` is the port; unset or empty gives 3001 |
| `Text.Split` | src/api.ts:61 | the parts hold no separator and join back to the input |
| `Text.SplitUnique` | src/api.ts:61 | Split is the only separator-free cut that joins back |
| `Text.Trim` | src/api.ts:61 | the result neither starts nor ends with whitespace and holds only characters of the input; which slice it is, `Text.TrimInfix` states |
| `Text.TrimInfix` | src/api.ts:61 | the result is the slice of the input that starts after its leading whitespace and is followed only by whitespace; with `Text.Trim`'s ends, it is the input with leading and trailing whitespace cut off |
| `Text.LeadingWhitespace` | src/api.ts:61 | the length of the run of whitespace at the start of the text |
| `Text.TrimIdempotent` | src/globals.ts:10 | trimming twice is trimming once |
| `Text.DecimalRoundTrip` | src/db.ts:189 | reading back a rendered decimal gives the number |
| `Text.ParseIntRendering` | src/api.ts:42 | `parseInt` of a decimal followed by a non-digit text gives the number |
| `Text.ParseIntNegated` | src/api.ts:42 | `parseInt` of `-` and a decimal gives the negative number |

## Left out

- SQLite itself (`getDb`, the WAL pragma, executing `CREATE TABLE`): the store is the `Store` class. A constraint failure is an error result. `addLike`'s catch-all is "any rejected insert returns false".
- `created_at` of likes and cookies: never read by the core.
- Timestamps are natural numbers from the caller. SQLite's second-resolution `CURRENT_TIMESTAMP` and its string ordering are not modelled, and neither is `new Date(...).getTime()`: the cache-busting version is the decimal of `updatedAt`.
- Randomness: `crypto.randomBytes` and `Math.random()` are parameters. Floating-point rounding of `Math.random() * (max - min + 1)` is modelled as exact real arithmetic.
- Base64 decoding and zod's `.url()` check are function parameters. String lengths are counted in code points, not UTF-16 units.
- `Text.ParseInt` does not round numbers above 2^53 as JavaScript numbers do.
- `Cli.Extname` models only the POSIX variant of `path.extname`. `ToLowerAscii` lowercases only ASCII letters; for the five extensions that matters this gives the same result.
- `Cli.ParseArgs` does not model the prototype keys of a plain object (`--__proto__ value`).
- Payment (`requirePayment`) and its prices, ATXP authentication and the Express wiring (`src/index.ts`, `src/test-server.ts`) are left out; the account is an optional string.
- `console` output, `process.exit` and `main().catch`: exits are error results.
- The `/api/entries` route is `Db.GetAllEntriesWithLikes` itself. The 500 answers of the routes come from exceptions the model's store does not raise.
- The JSON bodies and messages of the responses are reduced to the response kind and the fields the properties speak about. The tools' error texts are `Tools.Message`.
- The frontend under `frontend/` is left out.
- Concurrency: the model is sequential, so races between processes running migrations, and the atomicity of `deleteEntry`'s two statements, are not captured.
- `Db.SortRanked`: SQLite leaves the order of rows that tie on both keys unspecified. The model fixes one order and proves only what the query promises: ranked, and a permutation.
- `Migrate.RunLikeMigration`: an insert rejected because a synthetic account collides with an existing like is counted as not added, as the source does; exact counts are proved only for fresh draws.
- `Migrate.RunInOrder`, `Migrate.RunMigrations`: across several migrations a later one's synthetic accounts may collide with likes an earlier one added, so the driver promises only at most `likesToAdd` likes per entry and migration, plus exact accounting of what the reports list; the exact count under fresh draws is stated per migration by `Migrate.RunLikeMigration`.
