# Cache synchronisation of the nest-tes article and auth services

This project models the part of the nest-tes NestJS application that keeps
a Redis cache in step with the PostgreSQL tables behind it:

- **The article list snapshot** (`ArticleService`). One key, `"articles"`,
  holds one array of article records for every author, page and order.
  `findAll` serves it on a hit and fills it on a miss. `findOne` scans it
  before asking the table. `update` patches one entry and `remove` splices
  one out; both do so before they call the table.
- **The article table** (`ArticleRepository`). Rows live in a map from id to
  row, and ids come from a SERIAL counter. `findAll` pages the rows five at
  a time, after a substring filter on `author` and an order on `createdAt`.
  `findOneById`, `updateArticle`, `remove` and `createArticle` have their
  not-found rules and overwrite exactly the fields the source assigns.
- **The account point cache** (`AuthService`). `register` and `authenticate`
  use the key `"user" + username` as a read-through, write-back cache over
  the `users` table. bcrypt and the JWT signer are function values.

Files and modules:

| file | module | what it holds |
|---|---|---|
| `wrappers.dfy` | `Wrappers` | `Option`, map lookup |
| `entities.dfy` | `Entities` | article, user, DTO records, `HttpException` failures, `Result` |
| `listing.dfy` | `Listing` | the query of `ArticleRepository.findAll` as functions |
| `article_store.dfy` | `ArticleStore` | class `ArticleRepository` over the row map |
| `cache.dfy` | `Cache` | class `RedisCache`, the keys, the expiry 3600 |
| `article_service.dfy` | `ArticleSvc` | step functions, the coherence invariant, class `ArticleService` |
| `auth_service.dfy` | `Auth` | step functions, the finding, class `AuthService` |
| `shared_cache.dfy` | `SharedCache` | the two services sharing one Redis client |

Each service method is proved against a step function over the whole state:
`(result, new state) == Step(old state, arguments)`. The properties are
lemmas about those step functions. The article side's central invariant,
`ArticleSvc.Coherent`, has two parts: every snapshot entry is the table's
current row for its id, and no id appears twice in the snapshot.

Where the code and its tests or description disagree, the model follows
the code:

- `findAll` caches the bare `data` array, not `{articles: data}`.
- `update` and `remove` rewrite the snapshot before the table call. So a
  NotFound from the table comes after the cache was already written.
- A page below 1 makes a negative OFFSET. PostgreSQL rejects it, and the
  repository turns that into "Error fetching articles".

## Model

| member | source | states |
|---|---|---|
| Listing.TotalPages | src/articles/repository/article.repository.ts:65 | the fewest pages of 5 that hold `total` rows: 5·n ≥ total and 5·(n−1) < total |
| Listing.AuthorFilterAcceptsInfix | src/articles/repository/article.repository.ts:53-57 | any author of the form prefix + text + suffix passes the filter for that text |
| Listing.AuthorFilterRejectsLonger | src/articles/repository/article.repository.ts:53-57 | a filter text longer than the author never matches it |
| Listing.Filter | src/articles/repository/article.repository.ts:53-57 | keeps exactly the rows whose author contains the requested text (all rows when it is absent or empty), each as often as it was given and the others not at all, never more rows than given |
| Listing.Rows | src/articles/repository/article.repository.ts:51-63 | the rows of the table: one per id, and exactly the stored rows |
| Listing.Matching | src/articles/repository/article.repository.ts:53-57 | exactly the table's rows that pass the author filter, each once when the table is keyed by id (so its length is the match count), no more of them than the table holds |
| Listing.Sort | src/articles/repository/article.repository.ts:59 | the result is ordered by `createdAt` in the requested direction and is a permutation of the input |
| Listing.PageOf | src/articles/repository/article.repository.ts:47-48 | at most 5 rows; exactly the rows from index `(page−1)·5` on, as many as remain up to 5 |
| Listing.PageOfKeeps | src/articles/repository/article.repository.ts:61 | a page of ordered, duplicate-free rows is ordered, duplicate-free, and drawn from the rows |
| Listing.PageCovers | src/articles/repository/article.repository.ts:61-65 | row k of the ordered rows is row k mod 5 of page k/5+1, and that page is within `totalPages` |
| Listing.PagesDisjoint | src/articles/repository/article.repository.ts:47-48 | for duplicate-free rows, two different pages share no row |
| Listing.PageNonEmptyIff | src/articles/repository/article.repository.ts:61-65 | a page has rows if and only if its number is at most `totalPages` |
| Listing.Query | src/articles/repository/article.repository.ts:38-80 | fails with 500 "Error fetching articles" exactly on a database error or a page below 1; otherwise echoes page and page size 5, gives the unpaged match count and `ceil(total/5)`, and counts each matching row of a table keyed by id exactly once, and returns the matching rows in the requested order from offset `(page−1)·5`: row k of `data` is row `(page−1)·5 + k` of the ordered matches, there are `min(5, total − offset)` of them (none past the end), and each is the table's row for its id |
| Listing.QueryCoversMatching | src/articles/repository/article.repository.ts:53-73 | every row the filter keeps is listed on some page between 1 and `totalPages` |
| ArticleStore.Patched | src/articles/repository/article.repository.ts:98-100 | an update overwrites title, content and author and keeps id and `createdAt` |
| ArticleStore.ArticleRepository.CreateArticle | src/articles/repository/article.repository.ts:20-36 | inserts one row under a fresh id, carrying the given fields and the database time; other rows stay |
| ArticleStore.ArticleRepository.FindAll | src/articles/repository/article.repository.ts:38-80 | answers the query over the current rows |
| ArticleStore.ArticleRepository.FindOneById | src/articles/repository/article.repository.ts:82-84 | the row with this id, or none |
| ArticleStore.ArticleRepository.UpdateArticle | src/articles/repository/article.repository.ts:86-103 | NotFound with the table unchanged for an unknown id; else the patched row is saved and returned, and every other row stays |
| ArticleStore.ArticleRepository.Remove | src/articles/repository/article.repository.ts:105-122 | NotFound with the table unchanged for an unknown id; else exactly that row goes and the answer is true |
| Cache.UserKey | src/auth/auth.service.ts:36 | the key is the four letters "user" followed by the username, and is four characters longer than it |
| Cache.UserKeyInjective | src/auth/auth.service.ts:50 | distinct usernames give distinct keys |
| Cache.UserKeyNotArticlesKey | src/auth/auth.service.ts:36 | no account key is the snapshot key "articles" |
| Cache.ValueAt | src/articles/articles.service.ts:35 | a read yields a value exactly when the key is present, and then the stored value |
| Cache.RedisCache.Get | src/articles/articles.service.ts:35 | `get` yields the stored value, or null for an absent key |
| Cache.RedisCache.Set | src/articles/articles.service.ts:47-52 | `set` overwrites one key with the value and expiry, and no other key |
| ArticleSvc.Snapshot | src/articles/articles.service.ts:35-39 | a stored value counts as a hit exactly when it is a non-empty list of articles (`'[]'` is a miss), and a hit is that list |
| ArticleSvc.ReconcileUpdate | src/articles/articles.service.ts:85-109 | `update`'s cache write: only the "articles" key can change; with no snapshot or no entry for the id the cache is untouched; otherwise the snapshot is rewritten with that entry patched and expiry 3600 |
| ArticleSvc.ReconcileRemove | src/articles/articles.service.ts:122-141 | `remove`'s cache write: only the "articles" key can change; with no snapshot or no entry for the id the cache is untouched; otherwise the snapshot is rewritten without that entry and expiry 3600 |
| ArticleSvc.CreateStep | src/articles/articles.service.ts:16-22 | `create` stores a row with the DTO's fields, the next serial id (not yet in a well-formed table) and the database time, advances the counter, and leaves the cache as it was |
| ArticleSvc.FindAllStep | src/articles/articles.service.ts:33-54 | `findAll` never changes the table; it answers from the cache exactly when there is a snapshot; a database error is "Error fetching articles" with nothing written; no key but "articles" changes |
| ArticleSvc.FindOneOf | src/articles/articles.service.ts:57-80 | `findOne` answers a snapshot entry with the id or the table's row for it; NotFound exactly when neither the snapshot nor the table has the id |
| ArticleSvc.UpdateStep | src/articles/articles.service.ts:82-117 | `update` makes `update`'s cache write first, then succeeds exactly when the table has the id, saving and answering the patched row; otherwise NotFound with the table unchanged |
| ArticleSvc.RemoveStep | src/articles/articles.service.ts:119-144 | `remove` makes `remove`'s cache write first, then succeeds exactly when the table has the id, deleting that row and answering true; otherwise NotFound with the table unchanged |
| ArticleSvc.IndexOf | src/articles/articles.service.ts:90-92 | the first position whose id matches, or −1 when no entry matches |
| ArticleSvc.FindIndex | src/articles/articles.service.ts:90-92 | the linear scan finds that same first position |
| ArticleSvc.PatchAt | src/articles/articles.service.ts:95-100 | the entry at the index gets the new title, content and author and keeps id and `createdAt`; other entries and the length stay |
| ArticleSvc.RemoveAt | src/articles/articles.service.ts:132 | the splice drops exactly the entry at the index and shifts the rest down by one, in order |
| ArticleSvc.CreateKeepsCoherence | src/articles/articles.service.ts:16-22 | `create` keeps the snapshot coherent with the table |
| ArticleSvc.FindAllKeepsCoherence | src/articles/articles.service.ts:33-54 | `findAll` keeps the snapshot coherent: what it caches is rows of the table |
| ArticleSvc.UpdateKeepsCoherence | src/articles/articles.service.ts:82-117 | `update` keeps the snapshot coherent |
| ArticleSvc.RemoveKeepsCoherence | src/articles/articles.service.ts:119-144 | `remove` keeps the snapshot coherent, including when the splice leaves the empty list |
| ArticleSvc.FindAllHitIgnoresQuery | src/articles/articles.service.ts:33-39 | on a non-empty snapshot, `findAll` returns it unchanged for any author, page and order, and neither table nor cache changes |
| ArticleSvc.FindAllMissPopulates | src/articles/articles.service.ts:41-54 | on a miss the repository's error passes through with nothing written; otherwise the full page result is returned and only its `data` array is cached, with expiry 3600 |
| ArticleSvc.FindAllReadThrough | src/articles/articles.service.ts:35-52 | after a miss that fetched a non-empty page, every later listing, whatever its arguments, is served that page |
| ArticleSvc.FindOneAgreesWithTable | src/articles/articles.service.ts:57-80 | on a coherent state, `findOne` answers the table's row or NotFound, as if there were no cache |
| ArticleSvc.FindOneCases | src/articles/articles.service.ts:62-79 | the first snapshot entry with the id wins; without one, the table's row, else NotFound |
| ArticleSvc.UpdatePatchesSnapshot | src/articles/articles.service.ts:87-108 | with the id in the snapshot, its first entry is patched, everything else, the order and the length are kept, the snapshot is rewritten with expiry 3600, and no other key changes |
| ArticleSvc.RemoveSplicesSnapshot | src/articles/articles.service.ts:124-140 | with the id in the snapshot, exactly its first entry is spliced out, the rest keeps its order and the length drops by one, the snapshot is rewritten with expiry 3600, and no other key changes |
| ArticleSvc.RemoveLastEntryEmptiesSnapshot | src/articles/articles.service.ts:131-139 | removing the only entry writes the empty list with expiry 3600, which later reads as a miss |
| ArticleSvc.WritesSkipCacheOnMiss | src/articles/articles.service.ts:85-116 | with no snapshot or none holding the id, `update` and `remove` write no key, and the table's answer is returned |
| ArticleSvc.CreateLeavesSnapshotStale | src/articles/articles.service.ts:16-22 | `create` leaves the whole cache as it was and adds one row under a fresh id, so the snapshot does not list it |
| ArticleSvc.SnapshotHitMeansTableHit | src/articles/articles.service.ts:85-116 | on a coherent state, an id found in the snapshot is found in the table too: update and remove succeed |
| ArticleSvc.StaleSnapshotRewrittenThenNotFound | src/articles/articles.service.ts:85-143 | for every state whose snapshot lists an id the table lacks, `update` rewrites the snapshot with that entry patched and `remove` rewrites it without the entry, and both then answer NotFound with the table unchanged |
| ArticleSvc.StaleSnapshotPatchedThenNotFound | src/articles/articles.service.ts:94-116 | a concrete such state: the snapshot lists article 7, the table is empty, and `update` rewrites the snapshot and answers NotFound |
| ArticleSvc.UpdateThenFindOne | src/articles/articles.service.ts:82-117 | after a successful update, `findOne` answers the patched row |
| ArticleSvc.RemoveThenFindOne | src/articles/articles.service.ts:119-144 | after a remove, `findOne` answers NotFound |
| ArticleSvc.ArticleService.Create | src/articles/articles.service.ts:16-22 | performs the create step and keeps coherence |
| ArticleSvc.ArticleService.FindAll | src/articles/articles.service.ts:24-55 | performs the `findAll` step and keeps coherence |
| ArticleSvc.ArticleService.FindOne | src/articles/articles.service.ts:57-80 | answers the `findOne` step and changes nothing |
| ArticleSvc.ArticleService.Update | src/articles/articles.service.ts:82-117 | performs the update step (cache first, then table) and keeps coherence |
| ArticleSvc.ArticleService.Remove | src/articles/articles.service.ts:119-144 | performs the remove step (cache first, then table) and keeps coherence |
| Auth.Compare | src/auth/auth.service.ts:64 | the password check fails with 500 exactly when the hash is missing; otherwise it is bcrypt's verdict |
| Auth.RegisterStep | src/auth/auth.service.ts:21-46 | `register` fails with "User already exists" exactly when the name is taken, changing nothing; otherwise it stores the account with the next id and the hashed password, writes the user's key with its record and expiry 3600, and answers the token for that account |
| Auth.LoadAccount | src/auth/auth.service.ts:50-58 | the account `authenticate` checks: the cached record on a hit, else the table's row, and none exactly when neither exists |
| Auth.AuthenticateStep | src/auth/auth.service.ts:48-78 | `authenticate` never changes the table; it succeeds exactly when an account is loaded and bcrypt accepts the password against it; a failure is NotFound (exactly when no account loads), 500 or Unauthorized, with nothing written; no key but the user's changes |
| Auth.RegisterTokenSignsHash | src/auth/auth.service.ts:80-85 | the token `register` answers signs the username together with the stored hash |
| Auth.RegisterRefusesDuplicate | src/auth/auth.service.ts:22-26 | a taken username is refused with BadRequest "User already exists", and nothing changes |
| Auth.RegisterAddsOneAccount | src/auth/auth.service.ts:28-45 | a fresh username adds exactly one account with the hashed password, keeps every other account, sets only its key to `{id, username}` with expiry 3600, and answers a token |
| Auth.AuthenticateIgnoresTableOnHit | src/auth/auth.service.ts:52-58 | on a cache hit the answer and the new cache do not depend on the table |
| Auth.AuthenticateUnknownUser | src/auth/auth.service.ts:60-62 | neither cached nor stored: NotFound "User not found", and nothing is written |
| Auth.AuthenticateWritesOnlyOnSuccess | src/auth/auth.service.ts:60-75 | the table never changes; a failed login writes no key; a successful one answers the token for the loaded account and rewrites only the user's key, with that account's record and expiry 3600 |
| Auth.AuthenticateRejectsWrongPassword | src/auth/auth.service.ts:64-68 | a password the stored hash rejects gets Unauthorized "Invalid credentials", and nothing changes |
| Auth.AsWrittenNeverCachesHash | src/auth/auth.service.ts:38-43 | as written, no cached account record ever holds the hash (lines 40 and 72) |
| Auth.AsWrittenCacheHitFails | src/auth/auth.service.ts:52-64 | as written, every login that finds the account cached fails with 500, whatever the password |
| Auth.RegisteredLoginFailsAsWritten | src/auth/auth.service.ts:36-64 | as written, logging in right after registering, with the same password, fails with 500 |
| Auth.CorrectedRegisterKeepsCoherence | src/auth/auth.service.ts:28-43 | corrected: `register` keeps every cached account record equal to its table row |
| Auth.CorrectedAuthenticateKeepsCoherence | src/auth/auth.service.ts:48-75 | corrected: `authenticate` keeps every cached account record equal to its table row |
| Auth.CorrectedLoginIgnoresCache | src/auth/auth.service.ts:48-68 | corrected: a login gets the same answer whether or not the account is cached |
| Auth.RegisteredLoginSucceedsCorrected | src/auth/auth.service.ts:21-78 | corrected: right after registering, the same password logs in, and any password the hash rejects is refused |
| Auth.AuthService.Register | src/auth/auth.service.ts:21-46 | performs the register step in the chosen record format and keeps the table well formed (accounts under their own names, ids below the counter); in the corrected format it also keeps the account cache coherent |
| Auth.AuthService.Authenticate | src/auth/auth.service.ts:48-78 | performs the authenticate step in the chosen record format and keeps the table well formed; in the corrected format it also keeps the account cache coherent |
| SharedCache.AuthLeavesSnapshot | src/app.module.ts:23-34 | on the shared Redis client, register and authenticate leave the article snapshot, and its coherence, as they were |
| SharedCache.ArticleStepsLeaveAccounts | src/app.module.ts:23-34 | no article operation changes any account key |

## Left out

- JSON text and the Redis client. The cache is a map from key to parsed value and expiry. The empty array counts as a miss, as the `'[]'` check does.
- Expiry over time. Only the value 3600 that each `set` writes is recorded. Entries never lapse in the model.
- Concurrency. The lost-update race between overlapping read-modify-write cycles on the snapshot is not modelled; every operation runs to completion before the next begins.
- Database failures other than in `findAll`. They appear there as the `fault` flag. A failing `findOneById`, `save` or `delete` is not modelled, nor are the user repository's "Error finding user" and "Error creating user".
- The unreachable branches: "Article not created", because `create` always builds an entity, and "Error deleting article", because `delete` always yields a result object.
- Listing.Query: rows with equal `createdAt` come in ascending id order, which is one of the orders PostgreSQL may return. `LIKE` wildcards (`%`, `_`) inside `author` are taken literally. The nullable `author` column is a plain string.
- `page` is an integer. A fractional or non-numeric query string is not modelled. Without a `ParseIntPipe` (`src/articles/articles.controller.ts:36`) the query string reaches the repository unconverted, so `currentPage` echoes that raw string; the model echoes the integer.
- `order` is `ASC` or `DESC`. Any other query value (`src/articles/articles.controller.ts:37`) makes `orderBy` throw inside the `try`, which the repository turns into "Error fetching articles" (`src/articles/repository/article.repository.ts:59`, `74-79`); `Entities.Order` has no third value, so that error path is not modelled.
- bcrypt and JWT are function values. There are no salt rounds and no token format. `HashSound` assumes a hash verifies against its own password.
- `generateJwt` has no contract of its own. The token is the signer applied to `{username, password}`; `Auth.RegisterTokenSignsHash` states what this means for `register`.
- ArticleStore.Patched: the DTO's `author` is optional (`src/articles/dto/article.dto.ts:12-14`) but modelled as always present. An update without it writes `author: undefined`, which JSON drops from the snapshot entry, while TypeORM's `save` skips the undefined column and the row keeps its old author. The model always overwrites the author, in the row and in the snapshot entry (`ArticleSvc.PatchAt`). A create without an author stores NULL, which the model does not represent either.
- Controllers, modules, the data source, the migration, `jwt.strategy.ts`, DTO validation decorators and `console.log` are not part of this model. `user.repository.ts` is replaced by a map from username to account; usernames are unique.

## Findings

| source | as written | input that shows it | evidently intended | confidence | as-written member | corrected member |
|---|---|---|---|---|---|---|
| src/auth/auth.service.ts:38-43, 52-64, 70-75 | the cached account record is `{id, username}` only, so a cache hit passes an undefined hash to `bcrypt.compare`, which rejects with "Illegal arguments" and the client gets 500 | `register({username: "ann", password: "secret1"})` and then, within 3600 s, `authenticate({username: "ann", password: "secret1"})`, both passing the DTO validation (a password of 6 to 20 characters) | a login checks the password against the stored hash whether or not the account is cached | not executed | Auth.RegisteredLoginFailsAsWritten | Auth.RegisteredLoginSucceedsCorrected |
