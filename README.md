# Link shortener core in Dafny

This project models the core of a FastAPI link shortener:
- **core/models.py:** the `links` and `projects` tables and the unique constraints on short codes and aliases.
- **api/routes.py:** the HTTP handlers that create, resolve, update, delete and list short links and projects, together with the cache they populate and invalidate.
- **core/tasks.py:** the periodic sweeps that flag expired links, deactivate idle links and purge expired rows.

Files:
- `models.dfy` (module `Models`): row shapes, column defaults and the well-formedness of the links table. That means ids grow, short codes are unique, aliases are unique, and no code is another row's alias. It also has the lemmas showing that inserting, replacing, removing and rewriting rows keep the table well formed.
- `codes.dfy` (module `ShortCodes`): the 62-character alphabet and the random short-code generator. The random choice is an arbitrary choice from the alphabet.
- `cache.dfy` (module `LinkCache`): the cache as a map from key to cached rows. It holds the exact key strings the handlers use and the glob deletion of `clear_cache_pattern`.
- `views.dfy` (module `Views`): the read-only queries as functions on the table. These are lookup by code, the filtered views and the sorted views, and the statistics.
- `store.dfy` (module `Database`): the shared state, a `Store` class holding both tables, their id sequences and the cache.
- `routes.dfy` (module `Routes`): each handler as a method on the `Store`, plus lemmas relating several handler calls.
- `tasks.dfy` (module `Tasks`): the three sweeps. Each sweep has a specification function and lemmas about it, and an in-place method proved against that function.

The model follows the code as written, including these behaviours:
- A link resolves by its short code only. `get_link` looks at `short_code` and never at `custom_alias`. When an alias is given it becomes the short code, so aliases still resolve.
- Resolution consults only the stored `is_expired` flag. A link whose expiry time has passed but which the sweeper has not flagged yet still redirects.
- Creating a link neither stores the requested expiry time nor invalidates any cache entry.
- The popular view is never served from the cache. On a miss, `get_popular_links` hands the ORM rows to `json.dumps`, which refuses them. A non-empty view therefore ends in a server error and nothing is cached. An empty view is cached as `[]`, and an empty cached list reads as a miss. `Routes.GetPopularLinks` states this, and every operation that changes the cache preserves `LinkCache.PopularUncached`.
- The popular view's key is `popular_links_{limit}`, but the handlers clear `popular_links:*`, which never matches it (`LinkCache.PopularViewSurvivesInvalidation`, `Tasks.PurgeCacheExact`). Because only empty views ever reach that key, this mismatch has no visible effect. The recent view is cached under `recent_links:{limit}` and is cleared.
- A second link with an empty alias, or any other insert the unique constraints refuse, uses up an id from the sequence even though no row is added.
- Update and delete skip the ownership check when no user is signed in.
- An empty alias is falsy, so a code is generated, but the empty string is still stored as the alias. A second link with an empty alias is refused by the unique constraint (`StoreRejected`), not by the 400 check.
- A project id of 0 is falsy, so the ownership check is skipped. No project has id 0, so the foreign key on `project_id` then refuses the insert (`StoreRejected`), and an id is used up as for any refused insert.
- Deleting a project detaches its links, because the ORM default nulls the foreign key. It does not delete them.

## Model

| member | source | states |
|---|---|---|
| Models.NewLink | core/models.py:21-35 | a new row carries the given url, code, alias, owner and project, is created at `now`, has no expiry and no visit, has access count 0, and is active and not expired |
| Models.NewProject | core/models.py:40-48 | a new project carries the given name, description and owner, with creation and update time both `now` |
| Models.UniqueKeys | core/models.py:24-27 | in a well-formed table two distinct rows differ in id and short code, and a row's alias is not another row's alias |
| Models.AppendPreservesTable | core/models.py:24-27 | appending a row with a fresh id, a free code and an alias the unique constraints admit keeps the table well formed |
| Models.ReplacePreservesTable | core/models.py:24-27 | rewriting one row without changing its id, code or alias keeps the table well formed |
| Models.RemovePreservesTable | core/models.py:24-27 | deleting one row keeps the table well formed |
| Models.PointwisePreservesTable | core/models.py:24-27 | a bulk update that changes no id, code or alias keeps the table well formed |
| ShortCodes.AlphabetIsLettersAndDigits | api/routes.py:19-21 | the alphabet has 62 characters, and a character is in it exactly when it is an ASCII letter or digit |
| ShortCodes.GenerateShortCode | api/routes.py:19-21 | the generated code has the requested length and every character is an ASCII letter or digit |
| LinkCache.Hit | core/cache.py:12-14 | a lookup yields cached rows only for a present key with a non-empty value; an empty cached list counts as a miss |
| LinkCache.ClearPattern | core/cache.py:22-26 | a pattern ending in `*` removes exactly the keys with that prefix and any other pattern removes exactly that key; every other entry keeps its value |
| LinkCache.Delete | core/cache.py:19-20 | exactly the given key is removed and every other entry keeps its value |
| LinkCache.InvalidateLinkViews | api/routes.py:306-309 | after an update or delete, a key stays exactly when it is under neither `popular_links:` nor `recent_links:` and is not the link's stats key |
| LinkCache.PopularViewSurvivesInvalidation | api/routes.py:188 | the key the popular view is cached under is never removed by the invalidation that update and delete perform |
| LinkCache.RecentViewInvalidated | api/routes.py:389 | the key the recent view is cached under is always removed by that invalidation |
| LinkCache.ClearPatternIdempotent | core/cache.py:22-26 | clearing a pattern twice equals clearing it once |
| LinkCache.ExactPatternIsDelete | core/cache.py:22-26 | a pattern without a trailing `*` deletes exactly that key |
| LinkCache.PopularKey | api/routes.py:188 | the popular view's key is matched by neither `popular_links:*` nor `recent_links:*` |
| LinkCache.RecentKey | api/routes.py:389 | the recent view's key is matched by `recent_links:*` and is never a popular view's key |
| LinkCache.StatsKey | api/routes.py:309 | a link's stats key is matched by neither view pattern and is never a popular view's key |
| LinkCache.SubCacheKeepsPopularUncached | core/cache.py:19-26 | deleting cache entries, and keeping the rest unchanged, never makes a popular view servable |
| Views.IndexOfCode | api/routes.py:100-109 | finds the position of the row with that short code, and reports none exactly when no row has that code |
| Views.IndexOfCodeFinds | api/routes.py:100-109 | in a well-formed table the lookup finds every row by its code |
| Views.Filter | api/routes.py:156-158 | a WHERE clause: the result holds exactly the rows that satisfy the condition, and no more rows than the table |
| Views.FilterMultiset | api/routes.py:156-158 | a WHERE clause lists each row that satisfies the condition exactly as often as the table holds it, and no other row |
| Views.FilterPreservesTable | api/routes.py:156-158 | a filtered table is still well formed |
| Views.FilterReplaceCount | api/routes.py:430-440 | rewriting a row that stays selected leaves the number of selected rows unchanged |
| Views.FilterReplaceClicks | api/routes.py:430-440 | a rewritten row that stays selected adds its change in visits to the selected rows' visit total |
| Views.FilterReplaceUnselected | api/routes.py:430-440 | rewriting a row that is selected neither before nor after leaves the selection unchanged |
| Views.TakeMultiset | api/routes.py:197-198 | `LIMIT n` lists no row more often than the ranking it cuts from |
| Views.TakeIsTop | api/routes.py:197-198 | `ORDER BY key DESC LIMIT n` keeps the top of the ranking: a row left out ranks no higher than any row kept |
| Views.PageOfRanking | api/routes.py:376-378 | `OFFSET skip LIMIT n` over a ranking is the window at `skip`, still ranked; the rows before it rank at least as high and the rows after it no higher |
| Views.SortDesc | api/routes.py:197 | an ORDER BY … DESC: the result is a permutation of the input, sorted by the key from largest to smallest |
| Views.PopularLinks | api/routes.py:194-199 | a cache miss gives at most `limit` active rows of the table, as many as there are, most visited first, and no row more often than the table holds it |
| Views.PopularIsTop | api/routes.py:194-199 | an active row left out of the popular view has no more visits than any row it lists |
| Views.PopularHasNoExpired | api/routes.py:194-199 | in a well-formed table the popular view never lists an expired row |
| Views.RecentLinks | api/routes.py:395-400 | a cache miss gives at most `limit` rows, as many as there are, newest first, and no row more often than the table holds it; they are the newest: a row left out was created no later than any row listed |
| Views.UserLinks | api/routes.py:151-159 | exactly the caller's rows, each as often as the table holds it |
| Views.MyLinks | api/routes.py:365-380 | the page is the window at `skip`, of at most `limit` rows, of the caller's rows ranked newest first; every skipped row is at least as new as every row on the page, and every row after it is no newer |
| Views.ExpiredLinks | api/routes.py:477-489 | exactly the caller's rows flagged expired, each as often as the table holds it, latest expiry first |
| Views.InactiveLinks | api/routes.py:491-506 | exactly the caller's inactive rows last visited at least `days` days before now, each as often as the table holds it, latest visit first |
| Views.IndexOfProject | api/routes.py:462-468 | finds the project with that id owned by the caller, and reports none exactly when there is none |
| Views.ProjectLinks | api/routes.py:454-475 | 404 exactly when the caller owns no project with that id; otherwise exactly the rows of that project, each as often as the table holds it, newest first |
| Views.UserProjects | api/routes.py:223-231 | exactly the caller's projects, each as often as the table holds it |
| Views.LinkStats | api/routes.py:161-181 | the row with that code when the caller owns it, and 404 exactly when no such row exists |
| Views.SearchLink | api/routes.py:346-363 | no row with that url gives 404 and several give a multiple-results error; with exactly one, it is returned exactly when nobody is signed in or the caller owns it, and 403 is the answer otherwise |
| Views.StatsOverview | api/routes.py:422-452 | the total counts exactly the caller's rows, the clicks are the sum of their access counts, and the active count counts exactly their active rows, so it never exceeds the total |
| Database.Store.constructor | core/models.py:21-48 | a fresh store has empty tables and an empty cache, is well formed, has id sequences that start at 1, and has no popular view cached |
| Routes.CreateShortLink | api/routes.py:49-93 | the code is the alias when one is given and a generated code otherwise; 400 happens exactly when the code is taken, and 404 exactly when it is free but the project is given and not the caller's; a row the unique constraints or the `project_id` foreign key refuse is rejected after drawing an id, so a free code with project id 0 is always rejected; success happens exactly when all four checks pass and appends exactly the new row; the cache is untouched |
| Routes.CodeQueryMatchesAtMostOne | api/routes.py:57-66 | in a well-formed table at most one row has the code as its short code or alias, so the uniqueness query never sees several rows |
| Routes.Touch | api/routes.py:117-118 | a visit raises the access count by one, stamps the last access with now, and changes no other column |
| Routes.Patch | api/routes.py:331-334 | each supplied column is replaced and every other column is kept |
| Routes.GetLink | api/routes.py:95-121 | an unknown code gives 404 and a row flagged expired gives 410, both leaving the store unchanged; otherwise only that row changes, its access count rising by one and its last access becoming now |
| Routes.RedirectToUrl | api/routes.py:123-149 | behaves like `get_link` on the store and answers with the row's original url |
| Routes.UpdateLink | api/routes.py:313-344 | an unknown code gives 404 and a signed-in non-owner gets 403, both changing nothing; otherwise only the given fields of that row change and the link's cached views are invalidated; no popular view becomes servable |
| Routes.DeleteLink | api/routes.py:286-311 | an unknown code gives 404 and a signed-in non-owner gets 403, both changing nothing; otherwise exactly that row is removed and the link's cached views are invalidated; no popular view becomes servable |
| Routes.GetPopularLinks | api/routes.py:183-203 | a cache hit is returned as cached; on a miss a non-empty view fails at serialisation and leaves the cache as it was, and an empty view is cached as an empty list and returned; no popular view ever becomes servable from the cache |
| Routes.CachedForm | api/routes.py:403-419 | the rows the recent view caches keep every column except the expiry time, which is dropped |
| Routes.GetRecentLinks | api/routes.py:382-420 | a cache hit is returned as cached; a miss returns the recent view and caches its cached form under its key; no popular view becomes servable |
| Routes.CreateProject | api/routes.py:205-221 | exactly one new project with a fresh id is appended; links and cache are untouched |
| Routes.UpdateProject | api/routes.py:233-259 | a project the caller does not own gives 404 and changes nothing; otherwise only its name and description change, with the update time set to now only when one of them changed |
| Routes.Detach | api/routes.py:281-282 | every row of the project loses its project and every other column is kept |
| Routes.DetachClears | api/routes.py:281-282 | after detaching, no row refers to the project and the table is still well formed |
| Routes.DeleteProject | api/routes.py:261-284 | a project the caller does not own gives 404 and changes nothing; otherwise exactly that project is removed and its links are detached |
| Routes.CreatedLinkResolves | api/routes.py:81-121 | a link just created is found under its code and resolves, and its code and its alias count as taken for every later create |
| Routes.VisitAddsOneClick | api/routes.py:117-118 | a visit raises the owner's click total in the overview by one, leaves every other user's total as it was, and changes neither the link count nor the active count |
| Routes.DeleteRemovesExactly | api/routes.py:286-311 | a delete removes that row alone: every other row is kept and the code no longer finds any row |
| Routes.UpdateKeepsResolution | api/routes.py:313-344 | after an update the table is still well formed, the code still finds the same row, and it resolves exactly when that row is not flagged expired |
| Tasks.MarkExpired | core/tasks.py:12-17 | the bulk UPDATE keeps the number of rows and the id, code and alias of every row |
| Tasks.MarkExpiredExact | core/tasks.py:8-18 | a row is flagged expired afterwards exactly when it was flagged before or its expiry time is at or before now; a newly flagged row becomes inactive, and no other column changes |
| Tasks.MarkExpiredIdempotent | core/tasks.py:8-18 | running the expiry sweep twice at the same time equals running it once |
| Tasks.MarkExpiredLeavesNoneDue | core/tasks.py:8-18 | after the sweep no unflagged row has an expiry time at or before now |
| Tasks.MarkExpiredPreservesTable | core/tasks.py:8-18 | the expiry sweep keeps the table well formed |
| Tasks.ExpiredCodeIsGone | core/tasks.py:8-18 | once the sweep has run, a code whose expiry time has come no longer resolves, so visiting it answers 410 |
| Tasks.MarkExpiredLinks | core/tasks.py:8-18 | the in-place sweep leaves the table equal to the expiry sweep applied to the old table |
| Tasks.MarkInactive | core/tasks.py:24-30 | the bulk UPDATE keeps the number of rows and the id, code and alias of every row |
| Tasks.MarkInactiveExact | core/tasks.py:20-31 | a row stays active exactly when it was active and was not last visited at or before the threshold; only the active flag can change, and a never-visited row is left as it was |
| Tasks.MarkInactiveIdempotent | core/tasks.py:20-31 | running the idle sweep twice at the same time equals running it once |
| Tasks.MarkInactivePreservesTable | core/tasks.py:20-31 | the idle sweep keeps the table well formed |
| Tasks.MarkInactiveLinks | core/tasks.py:20-31 | the in-place sweep leaves the table equal to the idle sweep applied to the old table, with the threshold `days` days before now |
| Tasks.PurgePartition | core/tasks.py:37-43 | the rows kept and the rows deleted together are the old table, row for row (as multisets) |
| Tasks.PurgeExact | core/tasks.py:37-45 | the purge splits the table into kept and deleted rows, the kept rows stay a well-formed table, and with no expired row the table is unchanged |
| Tasks.PurgeKeepsIdsBelow | core/tasks.py:37-45 | the kept rows are a well-formed table whose ids stay below the next id |
| Tasks.ClearStatsKeys | core/tasks.py:50-51 | clearing the purged rows' stats patterns only drops entries and keeps every other value |
| Tasks.ClearStatsKeysExact | core/tasks.py:48-49 | every removed row's stats key is gone, and every key that no removed row's stats pattern matches is kept |
| Tasks.PurgeCache | core/tasks.py:48-51 | the cleanup's cache pass only drops entries, and leaves no key under either view pattern |
| Tasks.PurgeCacheExact | core/tasks.py:48-51 | after cleanup no key under `popular_links:` or `recent_links:` and no removed row's stats key is left, while the popular view's key `popular_links_{limit}` reads exactly as before |
| Tasks.PurgeKeepsPopularUncached | core/tasks.py:48-51 | the cleanup's cache pass never makes a popular view servable |
| Tasks.ClearPurgedKeys | core/tasks.py:48-51 | the three clearing steps leave exactly the cache of the cleanup's cache pass |
| Tasks.DeleteExpiredRows | core/tasks.py:42-43 | walking the table and keeping each row not flagged expired leaves exactly the purge's kept rows |
| Tasks.ClearEachStatsKey | core/tasks.py:48-49 | deleting the stats keys one at a time leaves exactly the cache with those keys cleared |
| Tasks.CleanupExpiredLinks | core/tasks.py:33-51 | the table keeps exactly its unexpired rows in order, and the cache becomes the old cache with both view prefixes and every removed row's stats key cleared; no popular view becomes servable |

## Left out

- Asynchrony and concurrency: each handler and each sweep is one atomic step. Lost updates between concurrent visits are not modelled.
- HTTP itself: status codes are `Error` values, and a redirect is the url it would send.
- Route matching order is not modelled. For example, the path `/links/popular` matches `/links/{short_code}` first.
- Authentication: the caller is a user id, or no user where the route allows anonymous access. The `users` table has no columns in the model.
- Randomness: `secrets.choice` becomes an arbitrary choice from the alphabet.
- A generated code that collides is answered with 400 like any taken code. The model does not prove how likely a collision is.
- Dates are integer seconds on one clock. A day is 86400 seconds.
- Cache details that are left out:
  - expiry times (TTLs) of cache entries;
  - JSON serialisation, apart from the recent view dropping the expiry time and the popular view failing to serialise;
  - glob characters other than a trailing `*`, which are treated literally.
- Integer widths: the access count and ids are unbounded. The 32-bit `Integer` column limit is not modelled.
- `limit` and `skip` are natural numbers. A negative limit or offset depends on the database and is not modelled.
- Views.SortDesc: rows with equal keys keep their table order. SQL leaves the order of ties unspecified.
- Views.ExpiredLinks: a NULL expiry time sorts last, whereas PostgreSQL puts NULL first under DESC. Only a table that breaks `RowOk` has an expired row without an expiry time.
- Routes.CreateShortLink: the uniqueness query can raise on several matching rows. That case is modelled as the 400 answer, and `Routes.CodeQueryMatchesAtMostOne` shows it cannot arise in a well-formed table.
- Routes.CreateShortLink: the request's `expires_at` is accepted but not stored, as in the handler, so it is not a field of the created row.
- The model assumes the create request carries `project_id`. As written, `LinkCreate` (core/schemas.py:19-25) declares no such field, so the read at api/routes.py:68 raises `AttributeError` and no create with a free code reaches the insert. The model takes `project_id` as an optional request field.
- core/database.py, core/config.py, core/schemas.py, core/schemas/user.py, core/models/ and api/user.py are not part of this model. They cover sessions, settings, response shapes and user management.
- The background scheduler that runs the sweeps is not part of this model. Each sweep takes the current time as a parameter.
- The model assumes working database sessions. As written, the sweeps open their session with `async with` on `get_async_session` (core/tasks.py:10, 22, 35). That function is an async generator (core/database.py:21-23) and cannot be used that way, so each sweep raises before its first query. The model describes what each sweep's queries do.
- The model assumes the ORM mappers configure. As written, `Project.user` declares `back_populates="projects"` (core/models.py:50), but `User` (core/models.py:8-19) has no `projects` relationship, so mapper configuration fails on first use.
