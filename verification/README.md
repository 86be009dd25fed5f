# Ko-Merge in Dafny

Ko-Merge repairs KOReader reading-statistics databases. KOReader keys a book by a fingerprint
of its file, so an edited book shows up as a second book with its own reading history. A user
uploads `statistics.sqlite3`, lists merge groups ("keep book 3, fold books 7 and 9 into it"),
runs the merge on a copy, and downloads the repaired file. This project models that core and
the stores and helpers around it:

- `StatsDb` (`stats_db.dfy`): the statistics database and the book merge. `page_stat_data` is
  a map keyed by (book, page, start time) and `book` is a map from id to row. The merge is a
  max-on-conflict upsert per merged id, then the deletion of that id's book row, then the
  recomputation of the kept book's totals, all in one transaction. The FastAPI server
  (`backend/app/main.py:329-377`) and the Flask app (`app.py:159-201`) hold the same merge,
  and both use `StatsDb.MergeBooks`. `validate_db` and `fetch_books` are here too.
- `Sessions` (`sessions.dfy`): the FastAPI server's in-memory session registry as a class
  `Server`. It covers upload, the merge-group list, `execute_merge`, the result and download
  guards, cleanup, the rolling `expires_at` clock, the fixed file-cleanup clock and the
  expired-session sweep.
- `FlaskApp` (`flask_app.dfy`): the Flask front end's cookie session, form actions and
  download counter file, with `allowed_file` and `format_time`.
- `DeployConfig` (`deploy_config.dfy`): `get_deployment_config`.
- `Cleanup` (`cleanup.dfy`): `CleanupService`. It holds the active-session protection set,
  the parsing of a session id out of a file name, the age-based folder sweep and the
  `running` flag.
- `AmazonCache` (`amazon_cache.dfy`): `normalize_text` and the `books` table keyed by ASIN.
- `MetadataDb` (`metadata_db.dfy`): `DatabaseService`. It has cover preferences, a metadata
  cache with expiry, and the download counter.
- `CoverStorage` (`cover_storage.dfy`): the `cover_images` table, the covers folder, the
  book-hash normalisation, the choice of file extension and the orphan sweep.
- `BookMetadata` (`book_metadata.dfy`): the Amazon cache key, the excluded-source parsing,
  source selection, the Google Books and OpenLibrary cover lists, cover de-duplication, the
  `get_book_details` fallback and `_normalize_amazon_response`.
- `AmazonScraper` (`amazon_scraper.dfy`): tag stripping, the search query, genre cleaning
  and de-duplication, the review count, the field-map fill and the argument check of
  `scrape_amazon_book`.
- `Text` and `Wrappers` are shared helpers: ASCII character classes, Python's `strip`,
  `lower`, `split` and `int`, and `Option`/`Result`.

Time is whole seconds passed in as `now`. A folder is a map from file name to its entry.
Failures the source raises as exceptions are `Result` error variants or `None`. An injected
`failAt` statement number models a merge statement that raises.

## Model

| member | source | states |
|---|---|---|
| StatsDb.ValidateDb | backend/app/main.py:267-284 | Valid iff the file is SQLite with tables `book` and `page_stat_data` and `book` columns `total_read_time` and `md5`. A non-database file fails with its own error. A missing-tables error means a required table is absent. A column error means the tables are present. |
| StatsDb.SortedIds | backend/app/main.py:308 | The ids come out strictly ascending, one per key of the table (`ORDER BY id`). |
| StatsDb.FetchBooks | backend/app/main.py:287-326 | A listing exists iff the query's columns exist. It has one row per book in ascending id order. `authors` defaults to "Unknown Author" and `series` to None when the column is missing. |
| StatsDb.UpsertCases | backend/app/main.py:340-351 | After one upsert, a key of `keep` exists iff it existed or the merged id has it. A one-sided key keeps its row. A shared key takes the maximum duration and the maximum page count. Other books' rows are untouched. |
| StatsDb.UpsertSelf | backend/app/main.py:340-351 | Upserting a book into itself leaves the table unchanged. |
| StatsDb.UpsertStep | backend/app/main.py:339-353 | One more upsert extends a merge of the book set S to a merge of S plus the new id. |
| StatsDb.MergeEventsIsMerge | backend/app/main.py:339-353 | The loop of upserts over `merge_ids` merges exactly the set {keep} plus those ids. Other books are untouched. Each kept key exists iff some source book has it. Its duration and page count are each the maximum over the source rows. |
| StatsDb.MergeOfUnique | backend/app/main.py:340-351 | The merged table is determined by the original table, `keep` and the set of merged books. |
| StatsDb.MergeOrderIndependent | backend/app/main.py:339-353 | Two id lists with the same elements give the same events, whatever the order and repetitions. |
| StatsDb.MergeIntoSelf | backend/app/main.py:339-353 | Merging only `keep` into itself leaves the events unchanged. |
| StatsDb.ReadTotals | backend/app/main.py:357-370 | The two aggregates are the sum of the book's durations and its count of distinct pages, both 0 without events (the COALESCE). |
| StatsDb.MergedPages | backend/app/main.py:339-370 | After merging, the kept book's distinct pages are the union of the pages of the kept and merged books. |
| StatsDb.UpsertAndDelete | backend/app/main.py:339-354 | The statement loop succeeds iff no injected failure hits it. It leaves the merged events and the book table minus the merged ids. |
| StatsDb.MergeBooks | backend/app/main.py:329-377 | Commits iff the file is a valid database and no statement fails. It then returns the merged database; otherwise it returns an error and the file is unchanged (the rollback). |
| StatsDb.MergeResultFacts | backend/app/main.py:339-370 | After a commit: the merged ids' book rows are gone and every other book row is unchanged. Every other book's events, the merged ids' included, are kept. The kept row survives iff it existed and was not itself merged. Its totals equal the sum of durations and the distinct-page count. |
| StatsDb.MergeResultOrderIndependent | backend/app/main.py:329-377 | Two calls whose id lists hold the same ids give the same database. |
| Sessions.StatusCode | backend/app/main.py:386-750 | Every handler error maps to 400, 404, 410 or 500. It is 410 exactly for an expired session and for a session whose files are gone. |
| Sessions.Without | backend/app/main.py:464 | The list minus `keep_id`: an id is in it iff it is in the input and is not `keep_id`. It is unchanged when `keep_id` is absent. |
| Sessions.WithoutCounts | backend/app/main.py:464 | Every `keep_id` is dropped and every other id keeps its number of occurrences. |
| Sessions.WithoutAppend | backend/app/main.py:464 | The filter of a concatenation is the concatenation of the filters, so the comprehension keeps the order of `merge_ids`. |
| Sessions.NewGroup | backend/app/main.py:458-472 | A falsy `keep_id` or empty `merge_ids` gives a 400. Otherwise `keep_id` is removed, and a group is formed iff some other id remains. The group's ids are `merge_ids` in order with every `keep_id` dropped, each other id as often as given. |
| Sessions.Minutes | backend/app/main.py:670 | `int(seconds / 60)`: the quotient truncated toward zero, for either sign. |
| Sessions.FileCleanupMinutes | backend/app/main.py:663-672 | `max(0, …)` of the minutes left until `created_at + CLEANUP_AGE`. It is 0 once that time has passed. |
| Sessions.ApplyGroupsSucceeds | backend/app/main.py:519-524 | Applying the groups in order succeeds iff there are none or the upload has the schema a merge needs. |
| Sessions.RunGroups | backend/app/main.py:519-524 | The merge loop stops at the first failure. The copy it leaves is the upload with the committed prefix of groups applied. All groups commit iff no fault hits and the schema allows it. |
| Sessions.CollectExpired | backend/app/main.py:736-741 | The collected ids are exactly the sessions with `now > expires_at`. |
| Sessions.SweepFolder | backend/app/main.py:256-264 | A file is kept iff its age is at most the maximum. Kept files are unchanged. |
| Sessions.Server.Upload | backend/app/main.py:386-430 | Refuses a name not ending ".sqlite3". A valid database opens a session with no groups whose clocks start at `now`. A schema error or a non-database removes the saved file and gives 400 or 500 respectively. |
| Sessions.Server.GetBooks | backend/app/main.py:433-449 | 404 for an unknown session or a missing upload. Otherwise the listing of the upload (or the fetch error) together with the session's groups. |
| Sessions.Server.AddMergeGroup | backend/app/main.py:452-476 | Appends exactly the `NewGroup` result at the end of that session's list, or changes nothing on an error. There is no check against other groups or against the book table. |
| Sessions.Server.RemoveLastMergeGroup | backend/app/main.py:479-490 | Pops and returns the last group. An empty list is refused (400) and left alone. |
| Sessions.Server.ClearMergeGroups | backend/app/main.py:493-500 | The list becomes empty; nothing else changes. |
| Sessions.Server.ExecuteMerge | backend/app/main.py:503-538 | Refuses an empty list. Otherwise it applies the groups in order to a fresh copy of the upload. On success the processed file is that result and `fixed_db` is set. On failure the processed file is deleted and the session is unchanged. The same groups therefore always give the same file. |
| Sessions.Server.GetResult | backend/app/main.py:541-563 | 404 without a session, without `fixed_db` or without the processed file. Otherwise the listing of the processed file. |
| Sessions.Server.Download | backend/app/main.py:566-589 | The same three guards. Otherwise the processed file, and the download counter rises by one only then. |
| Sessions.Server.CleanupSession | backend/app/main.py:592-615 | Removes the upload, the processed file if recorded, and the session. It is 404 and changes nothing for an unknown session. |
| Sessions.Server.ValidateSession | backend/app/main.py:621-675 | `now > expires_at` cleans the session up (410). A missing upload drops the session without touching files (410). Otherwise `expires_at := now + SESSION_TIMEOUT`, `last_accessed := now`, `created_at` stays, and the file-cleanup minutes are reported. |
| Sessions.Server.GetSessionInfo | backend/app/main.py:678-720 | Reports the session without changing it. That includes the expiry flag, the clocks, the file-cleanup minutes, whether each file exists, and the groups and their count. |
| Sessions.Server.CleanupOldFiles | backend/app/main.py:256-264 | Both folders lose exactly the files older than CLEANUP_AGE. |
| Sessions.Server.RemoveSessions | backend/app/main.py:743-750 | Removing each collected session removes exactly those sessions, their uploads and their processed files. |
| Sessions.Server.CleanupExpiredSessions | backend/app/main.py:727-755 | Removes exactly the sessions with `now > expires_at` and their files, then sweeps old files. It returns how many sessions expired, and every remaining session is live. |
| DeployConfig.NormalizedPathOfName | backend/app/main.py:61-67 | A plain folder name such as "app", written bare, as "app/" or as "/app/", normalises to "/app". |
| DeployConfig.NormalizeSubfolderAsWritten | backend/app/main.py:61-71 | The path becomes the "/"-prefixed input with every trailing "/" removed, so it is empty or starts with "/" without a trailing "/". The flag never changes; a path of slashes becomes "" with the flag as it was. |
| DeployConfig.NormalizeSubfolder | backend/app/main.py:61-71 | The same path. The flag is turned off exactly when a non-empty path normalises to "". |
| DeployConfig.NormalizeBaseUrl | backend/app/main.py:73-93 | The URL is `BaseUrlOf` the input. That is http://localhost:8000 for an empty input. A URL with a protocol keeps it. A URL without one gets http:// if it looks local (localhost, 127.0.0.1, ":80", 192.168., 10., 172.) and https:// otherwise. Trailing "/"s are stripped. The result is never empty and never ends in "/". |
| DeployConfig.BaseUrlOfHost | backend/app/main.py:78-93 | For an input not ending in "/": a URL with a protocol is kept as it is, and a bare host gains exactly "http://" if it looks local and "https://" otherwise. |
| DeployConfig.CorsOrigins | backend/app/main.py:98-105 | The two development origins, then the base URL only if absent. No origin appears twice. |
| DeployConfig.SubfolderSettings | backend/app/main.py:54-71 | Without `PUBLIC_SUBFOLDER_PATH` and `USE_SUBFOLDER`, a legacy `DEPLOYMENT_PATH` other than "" and "/" is used, normalised, with the flag on. No settings give no sub-folder. Otherwise the given path is normalised as written and the flag is kept, so "/" with the flag on gives "" with the flag on. |
| DeployConfig.EnvSubfolder | backend/app/main.py:50-71 | The same, on the stripped environment values, with `USE_SUBFOLDER` compared to "true" in lower case. |
| DeployConfig.EnvUrls | backend/app/main.py:50-105 | The base URL is `BaseUrlOf` the stripped `PUBLIC_BASE_URL`. The CORS list adds it after the two development origins unless it is one of them. |
| DeployConfig.GetDeploymentConfig | backend/app/main.py:44-110 | The sub-folder path and flag are the values above, for the legacy, the newer and the absent settings. `root_path` is the sub-folder exactly when the flag is on. The base URL is `BaseUrlOf` the stripped `PUBLIC_BASE_URL`, with the protocol and trailing-"/" rules. The CORS list is as above. A root deployment has an empty path, the flag off and an empty root path. |
| FlaskApp.AllowedFileIff | app.py:109-110 | Allowed iff the name has a "." and the text after the last "." lower-cases to "sqlite3", that is iff the last eight characters lower-case to ".sqlite3". |
| FlaskApp.HMS | app.py:405-408 | Hours, minutes and seconds by floor division: `h*3600 + m*60 + s` is the input and `0 <= m, s < 60`. |
| FlaskApp.Pad2ReadsBack | app.py:409 | A zero-padded field reads back as its number. |
| FlaskApp.FormatSecondsReadsBack | app.py:398-411 | The three printed fields read back as h, m, s with `h*3600 + m*60 + s` equal to the input, `m, s < 60`, and `h >= 0` for a non-negative input. |
| FlaskApp.FormatZero | app.py:402-404 | Zero seconds print as the fallback text "00h:00m:00s". |
| FlaskApp.FormatTimeOfText | app.py:400-404 | Text that `int()` accepts formats like that integer. Anything else, including text with an outer separator 0x1c-0x1f, formats like 0, the fallback. |
| FlaskApp.CounterValue | app.py:92-98 | The stripped text read as an integer. A missing file, blank text or stripped text that is not an integer gives 0. Text that `int()` accepts as it is gives the same value. |
| FlaskApp.SeparatorBeforeDigits | app.py:399-404 | A separator 0x1c-0x1f before a run of digits, such as "\x1c5": `format_time` prints the fallback, because `int()` rejects the separator. The counter file reads the digits' value, because it strips first. |
| FlaskApp.CounterRoundTrip | app.py:92-104 | What `set_download_count` writes, `get_download_count` reads back. |
| FlaskApp.FlaskApp.SetDownloadCount | app.py:100-104 | The counter file holds `str(count)` and reads back as `count`. |
| FlaskApp.FlaskApp.CleanupOldFiles | app.py:112-119 | Both folders lose exactly the files older than ten minutes. |
| FlaskApp.FlaskApp.BeforeRequest | app.py:122-128 | The old-file sweep. A visitor without an id gets a fresh id and an empty group list; an existing visitor keeps both. |
| FlaskApp.FlaskApp.Upload | app.py:206-238 | Accepted iff there is a name, it is allowed and the database is valid. Acceptance saves the upload and resets the groups. An allowed name with a schema error removes the saved file. A file that is not a database stays saved and the session is unchanged, as the uncaught error leaves it. |
| FlaskApp.FlaskApp.AddGroup | app.py:241-261 | Only when the merge page loads (an upload is recorded, present and listable): the group, minus `keep_id`, is appended iff something remains. Otherwise the list is unchanged. |
| FlaskApp.FlaskApp.RemoveLast | app.py:241-268 | Only when the merge page loads: pops the last group, and an empty list is silently left alone. Otherwise the list is unchanged. |
| FlaskApp.FlaskApp.ClearGroups | app.py:241-274 | The list becomes empty when the merge page loads, and is unchanged otherwise. |
| FlaskApp.FlaskApp.RunAll | app.py:241-292 | Nothing changes unless the merge page loads and there are groups. Otherwise the copy gets the groups merged in order, and `fixed_db` is set iff all commit. A failure leaves the copy with the groups before it applied. |
| FlaskApp.FlaskApp.Download | app.py:337-367 | Needs both file names. The counter file is rewritten one higher and reads back one higher, and only the upload is deleted. |
| FlaskApp.FlaskApp.ServeProcessed | app.py:311-334 | A missing file is a 404. A served file is deleted afterwards. |
| FlaskApp.FlaskApp.Cleanup | app.py:370-395 | Both recorded files are deleted and the session is cleared. |
| Cleanup.SessionIdOfAsWritten | backend/app/services/cleanup_service.py:78-85 | Only ".sqlite3" names carry an id. A "_fixed.sqlite3" name loses 13 characters, so the id keeps its "_". |
| Cleanup.SessionIdOf | backend/app/services/cleanup_service.py:78-85 | The corrected parse: the id plus "_fixed.sqlite3" or ".sqlite3" is the name. |
| Cleanup.SessionIdOfServerFiles | backend/app/services/cleanup_service.py:78-85 | Both file names the server writes for a session parse back to that session's id. |
| Cleanup.ActiveSessionFilesProtected | backend/app/services/cleanup_service.py:66-87 | An active session's upload and processed files are both protected. |
| Cleanup.FixedFileUnprotectedAsWritten | backend/app/services/cleanup_service.py:80-81 | As written, "abc_fixed.sqlite3" is tested under "abc_", so an active "abc" does not protect it. The corrected parse does. |
| Cleanup.ActiveFixedFileSweptAsWritten | backend/app/services/cleanup_service.py:80-81 | So an old processed file of the active session "abc" is swept, while the corrected parse would protect it. |
| Cleanup.ActiveUploadProtectedAsWritten | backend/app/services/cleanup_service.py:82-85 | An active session's upload file is protected as written. |
| Cleanup.CleanupService.AddActiveSession | backend/app/services/cleanup_service.py:46-54 | The id is added to the set. |
| Cleanup.CleanupService.RemoveActiveSession | backend/app/services/cleanup_service.py:56-64 | The id is discarded; removing an absent id changes nothing. |
| Cleanup.CleanupService.IsProtected | backend/app/services/cleanup_service.py:66-87 | False for a name not ending ".sqlite3". For a "_fixed.sqlite3" name, true iff the name minus 13 characters is active. For another ".sqlite3" name, true iff the name minus 8 characters is active. |
| Cleanup.CleanupService.CleanupDirectory | backend/app/services/cleanup_service.py:89-139 | A missing folder gives 0. Otherwise it deletes exactly the regular, files not protected under the as-written parse strictly older than the maximum age whose unlink succeeds, and counts them. Every other file is kept unchanged. |
| Cleanup.CleanupService.RunCleanupCycle | backend/app/services/cleanup_service.py:141-182 | Each folder is swept as `CleanupDirectory` sweeps it. The returned total is the `total_deleted` the source logs (the source itself returns nothing): the upload count plus the processed count plus the orphaned-cover count. |
| Cleanup.CleanupService.Start | backend/app/services/cleanup_service.py:184-192 | Does nothing when already running; otherwise it sets the flag. |
| Cleanup.CleanupService.Stop | backend/app/services/cleanup_service.py:210-218 | The flag ends up false, and a stopped service stays stopped. |
| AmazonCache.NormalizeTextIsNormalized | backend/app/services/amazon_cachedb.py:6-10 | The result holds only lower-case word characters and single inner spaces, with none at either end ("" for an empty or missing text). |
| AmazonCache.NormalizeTextFixes | backend/app/services/amazon_cachedb.py:6-10 | Normalised text is left unchanged. |
| AmazonCache.NormalizeTextIdempotent | backend/app/services/amazon_cachedb.py:6-10 | Normalising twice equals normalising once. |
| AmazonCache.RecordOf | backend/app/services/amazon_cachedb.py:94-133 | The row keeps the record's ASIN. The search columns are the normalised title and author. Genres are joined by ", ". The other columns are copied. |
| AmazonCache.RecordSearchNormalized | backend/app/services/amazon_cachedb.py:113-114 | Both search columns are normalised text. |
| AmazonCache.AmazonCacheDb.Save | backend/app/services/amazon_cachedb.py:94-135 | INSERT OR REPLACE by ASIN: the row replaces any row with the same ASIN. A record without an ASIN is a further row. The new row is in the table. |
| AmazonCache.AmazonCacheDb.GetByAsin | backend/app/services/amazon_cachedb.py:53-59 | Returns the row with that ASIN, or None when there is none or no ASIN was given. |
| AmazonCache.AmazonCacheDb.GetByTitleAuthor | backend/app/services/amazon_cachedb.py:62-91 | An exact match on both normalised columns is returned if one exists. Only otherwise is a row returned whose title contains the title and whose author is equal. None iff no row matches either way. |
| AmazonCache.AmazonCacheDb.SaveThenLookup | backend/app/services/amazon_cachedb.py:71-78 | After saving a record, a lookup by its own title and author finds a row through the exact branch. |
| MetadataDb.CachedData | backend/app/services/database.py:138-148 | The data is found iff the key's entry is from that source and `expires_at > now`. |
| MetadataDb.DatabaseService.constructor | backend/app/services/database.py:17-69 | Existing rows are kept. The counter row is created with 0 only when it is missing (INSERT OR IGNORE). |
| MetadataDb.DatabaseService.SaveCoverPreference | backend/app/services/database.py:71-89 | The preference replaces any earlier one for the key. |
| MetadataDb.DatabaseService.GetCoverPreference | backend/app/services/database.py:91-106 | The latest saved URL, or None. |
| MetadataDb.DatabaseService.CacheBookMetadata | backend/app/services/database.py:108-129 | The entry expires `cache_hours` after now. The same source reads it back strictly before then and not after. Any other source finds nothing under the key, since the key alone is the primary key. Other keys are unaffected. |
| MetadataDb.DatabaseService.GetCachedBookMetadata | backend/app/services/database.py:131-151 | The data only while `expires_at > now`. |
| MetadataDb.DatabaseService.CleanupExpiredCache | backend/app/services/database.py:153-169 | Deletes exactly the entries with `expires_at <= now` and keeps the rest unchanged. No lookup at `now` changes. |
| MetadataDb.DatabaseService.GetCoverPreferencesStats | backend/app/services/database.py:171-191 | The total count and the count selected in the last 30 days, which is at most the total. |
| MetadataDb.DatabaseService.GetDownloadCount | backend/app/services/database.py:193-203 | The counter row's count, or 0 without one. |
| MetadataDb.DatabaseService.IncrementDownloadCount | backend/app/services/database.py:205-225 | Raises the count by exactly one and returns the new count. Without a counter row it returns 0. |
| CoverStorage.BookHashKeyIgnoresCaseAndPadding | backend/app/services/cover_storage.py:99-104 | Titles that differ only in case or outer whitespace give the same book key. |
| CoverStorage.BookHashKeyAmbiguous | backend/app/services/cover_storage.py:99-104 | A "|" in a title or author lets two different books share a key. |
| CoverStorage.SameKey | backend/app/services/cover_storage.py:99-104 | Books whose normalised parts join to the same text share a key. |
| CoverStorage.BookHashes | backend/app/services/cover_storage.py:276-285 | One book key per listed book, in order. |
| CoverStorage.FileExtension | backend/app/services/cover_storage.py:161-175 | Always one of jpg/jpeg/png/webp/gif. A content type containing jpeg or jpg gives jpg, else png gives png, else webp gives webp. Otherwise a URL without "." gives jpg, and a URL with one gives its lower-cased text after the last "." if that is allowed, else jpg. |
| CoverStorage.UrlExtension | backend/app/services/cover_storage.py:168-175 | The URL fallback is always an allowed extension. A URL without "." gives jpg. A jpeg or gif result comes only from a URL whose text after its last "." lower-cases to it. |
| CoverStorage.UrlExtensionAfterLastDot | backend/app/services/cover_storage.py:170-175 | For any URL, the fallback is the lower-cased text after the last "." when that is allowed, and jpg otherwise. |
| CoverStorage.ReplaceRow | backend/app/services/cover_storage.py:186-208 | INSERT OR REPLACE: the new row is under its book hash. Rows clashing on the image hash are gone, and every other row is unchanged. |
| CoverStorage.ReplaceRowUnique | backend/app/services/cover_storage.py:186-208 | Replacing keeps the image hashes unique. |
| CoverStorage.CoverStore.GetStoredCover | backend/app/services/cover_storage.py:221-261 | The row for the book hash, or None. |
| CoverStorage.CoverStore.GetBatchStoredCovers | backend/app/services/cover_storage.py:263-327 | The stored rows of exactly the listed books that have one; an empty list gives an empty map. |
| CoverStorage.CoverStore.DownloadAndStoreCover | backend/app/services/cover_storage.py:118-219 | A book already stored returns its image hash with nothing fetched or written. A failed fetch, a non-200 status or an empty body returns None and stores nothing. Otherwise the file "<image hash>.<extension>" is written and the row replaces the book's row and any row with that image hash. |
| CoverStorage.CoverStore.GetCoverFilePath | backend/app/services/cover_storage.py:329-364 | A path is returned iff a row has that image hash and its file exists. |
| CoverStorage.CoverStore.DeleteStoredCover | backend/app/services/cover_storage.py:366-408 | True iff a row was stored. The row is deleted, and its file is deleted when present. |
| CoverStorage.CoverStore.CleanupOrphanedFiles | backend/app/services/cover_storage.py:410-451 | Deletes exactly the files no row refers to whose unlink succeeds, and counts them. Referenced files stay. |
| CoverStorage.SweepOrphans | backend/app/services/cover_storage.py:430-447 | The same over one folder: the removed files and the count. |
| CoverStorage.SelectRows | backend/app/services/cover_storage.py:291-318 | `WHERE book_hash IN (…)`: exactly the rows whose key is listed. |
| BookMetadata.AmazonCacheKeyInjective | backend/app/services/book_metadata.py:64-71 | Two keys are equal iff the normalised titles and the normalised authors are equal. |
| BookMetadata.AmazonCacheKeyNormalizes | backend/app/services/book_metadata.py:64-71 | Already-normalised inputs give the same key, so case, punctuation and spacing do not matter. |
| BookMetadata.ParseExcluded | backend/app/services/book_metadata.py:659-663 | Every excluded name is non-empty and trimmed. |
| BookMetadata.ParseExcludedMembers | backend/app/services/book_metadata.py:659-663 | A name is excluded iff it is the lower-cased trim of some non-blank comma-separated part. |
| BookMetadata.ParseExcludedSingle | backend/app/services/book_metadata.py:659-663 | One name is excluded in lower case, whatever case it was written in. |
| BookMetadata.ParseExcludedAppend | backend/app/services/book_metadata.py:659-663 | One more comma-separated name adds exactly its trimmed, lower-cased form, if non-empty. |
| BookMetadata.SelectSources | backend/app/services/book_metadata.py:666-698 | "all" tries the three sources in order, minus excluded ones and minus Amazon without the scraper. A named, non-excluded source is tried alone, and a non-excluded "amazon" without the scraper tries nothing. Otherwise Google Books if not excluded, else OpenLibrary if not excluded, else nothing. |
| BookMetadata.SelectNamedSource | backend/app/services/book_metadata.py:679-685 | A named source that is neither excluded nor unavailable is searched alone. |
| BookMetadata.GoogleCoverUrlQuery | backend/app/services/book_metadata.py:343-359 | A rewritten Google link always carries a query ending in the front-cover parameters. |
| BookMetadata.GoogleCoverUrlPlain | backend/app/services/book_metadata.py:343-359 | An https link without `edge=curl` only gains the parameters, after "&" if it has a "?" and after "?" otherwise. |
| BookMetadata.PresentSizesDistinct | backend/app/services/book_metadata.py:333-341 | Filtering the fixed size list keeps its sizes distinct. |
| BookMetadata.GoogleCoverSizes | backend/app/services/book_metadata.py:333-369 | One cover per present size, and each size at most once. |
| BookMetadata.GoogleCovers | backend/app/services/book_metadata.py:333-369 | One cover per size present, in the order extraLarge … smallThumbnail, each with its rewritten URL. A size is covered iff its link exists. |
| BookMetadata.CoversFor | backend/app/services/book_metadata.py:333-369 | The loop gives the covers of the present sizes in the given order. |
| BookMetadata.OpenLibraryCovers | backend/app/services/book_metadata.py:418-427 | No covers without a truthy `cover_i`. Otherwise three covers, l, m and s, from OpenLibrary with truthy URLs. |
| BookMetadata.OpenLibraryCoversDistinct | backend/app/services/book_metadata.py:418-427 | The three URLs differ. |
| BookMetadata.AddCoversProperties | backend/app/services/book_metadata.py:710-720 | Adding one source's covers keeps the earlier list as a prefix and keeps the list valid (no empty URL, no URL twice). It takes only incoming covers and leaves no truthy incoming URL out. |
| BookMetadata.AddCoversFirstWins | backend/app/services/book_metadata.py:710-720 | The first cover with a new URL is the one kept. |
| BookMetadata.CollectProperties | backend/app/services/book_metadata.py:700-731 | Over all sources the list stays valid and takes only covers a searched source returned. It lists every truthy URL a searched source returned. |
| BookMetadata.MergeCovers | backend/app/services/book_metadata.py:709-719 | The inner loop equals `AddCovers` of the list and the source's covers. |
| BookMetadata.CollectCovers | backend/app/services/book_metadata.py:700-731 | The outer loop equals `Collect` over the sources, and the list is valid. |
| BookMetadata.GetCoverOptions | backend/app/services/book_metadata.py:637-732 | The covers of the selected sources, in first-seen order, without URL-less covers and without a URL twice. |
| BookMetadata.GetCoverOptionsByIsbn | backend/app/services/book_metadata.py:763-811 | The same over Google Books then OpenLibrary; Amazon is never used. |
| BookMetadata.DetailsOrder | backend/app/services/book_metadata.py:616-633 | Two different sources, one of them Google Books. Amazon is among them iff it is asked for. |
| BookMetadata.GetBookDetailsFallback | backend/app/services/book_metadata.py:616-635 | The first source's result whenever it is non-empty, else the second's. Empty only when both are. |
| BookMetadata.GetBookDetailsIgnoresAmazon | backend/app/services/book_metadata.py:616-635 | Unless Amazon is asked for, its result cannot change the outcome. |
| BookMetadata.NormalizeAmazonResponse | backend/app/services/book_metadata.py:474-475 | The empty dict gives the empty result, and only it does. |
| BookMetadata.AmazonTitleField | backend/app/services/book_metadata.py:538 | A text field takes the capitalised key if truthy, else the lower-case key, else "". |
| BookMetadata.AmazonKindleUnlimited | backend/app/services/book_metadata.py:561-563 | `kindle_unlimited` is true iff the chosen flag (default "NO") is "YES". |
| BookMetadata.AmazonCovers | backend/app/services/book_metadata.py:478-488 | A single "large" Amazon cover exactly when a cover URL is given. |
| BookMetadata.PageCount | backend/app/services/book_metadata.py:509-520 | 0 without a print length, and 0 when its text has no digit. |
| BookMetadata.PageCountOfText | backend/app/services/book_metadata.py:509-520 | The first digit run gives the count, whatever digit-free text comes before it and whatever non-digit follows it. |
| BookMetadata.PageCountAfterLabel | backend/app/services/book_metadata.py:509-520 | "Print length: 320 pages" gives 320. |
| BookMetadata.PageCountOfNumber | backend/app/services/book_metadata.py:509-520 | A positive number reads back as itself. |
| BookMetadata.Categories | backend/app/services/book_metadata.py:492-499 | A list passes through. A string gives trimmed, non-empty parts without commas. Anything else gives none. |
| BookMetadata.CategoriesComplete | backend/app/services/book_metadata.py:492-499 | Every non-blank comma-separated part of a genres string is listed, trimmed. |
| AmazonScraper.TagEnd | backend/app/services/amazon_scraper.py:22-27 | Where a tag opened at "<" ends: the first ">" after at least one other character. |
| AmazonScraper.RemoveTagsNoTags | backend/app/services/amazon_scraper.py:22-27 | What the tag regex leaves holds no "<…>" tag. |
| AmazonScraper.RemoveTagsIdentity | backend/app/services/amazon_scraper.py:22-27 | Text without tags is left alone. |
| AmazonScraper.StripHtmlTagsNoTags | backend/app/services/amazon_scraper.py:22-27 | `strip_html_tags` leaves no tag. |
| AmazonScraper.StripHtmlTagsIdempotent | backend/app/services/amazon_scraper.py:22-27 | Applying it twice equals applying it once. |
| AmazonScraper.RemoveLeadingTag | backend/app/services/amazon_scraper.py:25 | A leading tag is dropped and the scan continues after it. |
| AmazonScraper.CleanChars | backend/app/services/amazon_scraper.py:44-48 | `clean` leaves only word characters and spaces. |
| AmazonScraper.CleanShape | backend/app/services/amazon_scraper.py:44-48 | `clean` leaves no outer whitespace and single inner spaces. |
| AmazonScraper.BuildAmazonQueryDecodes | backend/app/services/amazon_scraper.py:30-51 | The query has no whitespace. Its length is the two cleaned parts plus 8. Turning "+" back into spaces gives `"title" "by author"` exactly. |
| AmazonScraper.RemoveCommas | backend/app/services/amazon_scraper.py:176 | No comma is left and nothing else is removed. |
| AmazonScraper.ReviewCount | backend/app/services/amazon_scraper.py:173-176 | None iff the text has no digit. Otherwise a non-empty digit string. |
| AmazonScraper.ReviewCountGrouped | backend/app/services/amazon_scraper.py:173-176 | "1,234 ratings" reads as "1234". |
| AmazonScraper.FindIn | backend/app/services/amazon_scraper.py:204 | The leftmost "in" followed by whitespace. |
| AmazonScraper.FindParen | backend/app/services/amazon_scraper.py:210 | The leftmost start of a trailing whitespace-then-"(…)". |
| AmazonScraper.CleanGenreTrimmed | backend/app/services/amazon_scraper.py:204-210 | A cleaned genre has no outer whitespace. |
| AmazonScraper.CleanGenreRankLine | backend/app/services/amazon_scraper.py:204-210 | "#1,234 in Name" cleans to "Name". |
| AmazonScraper.CleanGenreRankLineNote | backend/app/services/amazon_scraper.py:204-210 | "#1,234 in Name (Note)" cleans to "Name". |
| AmazonScraper.DedupProperties | backend/app/services/amazon_scraper.py:214-215 | The de-duplicated list has no repeats and holds exactly the values not already seen. |
| AmazonScraper.DedupFirstOccurrences | backend/app/services/amazon_scraper.py:213-215 | The de-duplicated list holds the values at exactly the positions whose value is neither already seen nor earlier in the list. Those positions are in increasing order, so order is preserved. |
| AmazonScraper.DedupInOrder | backend/app/services/amazon_scraper.py:214-215 | The comprehension with its mutated `seen` set gives the first occurrences in order, without repeats, and misses nothing. |
| AmazonScraper.CleanAll | backend/app/services/amazon_scraper.py:200-211 | One cleaned genre per rank line, in order. |
| AmazonScraper.Genres | backend/app/services/amazon_scraper.py:183-219 | The genres are `Dedup` of the cleaned lines, so they are the first occurrences in order. They have no repeats, every cleaned line is present and nothing else is. |
| AmazonScraper.FieldFor | backend/app/services/amazon_scraper.py:294-303 | ISBN-13 and ISBN-10 both map to ISBN. |
| AmazonScraper.FillMetadata | backend/app/services/amazon_scraper.py:305-309 | The loop applies every label in order. |
| AmazonScraper.FillKeeps | backend/app/services/amazon_scraper.py:305-309 | A field that already holds text, and any field no label maps to, keeps its value. |
| AmazonScraper.FillFirstWins | backend/app/services/amazon_scraper.py:305-309 | For an empty field, the first mapped label with a non-empty value wins. ISBN-13 and ISBN-10 compete for ISBN. |
| AmazonScraper.ScrapePlan | backend/app/services/amazon_scraper.py:369-370 | ValueError iff there is no ASIN and not both a title and an author. A given ASIN goes straight to its product page. |
| AmazonScraper.BookUrl | backend/app/services/amazon_scraper.py:385 | The product URL is the fixed prefix followed by the ASIN. |

## Left out

- HTTP and the web frameworks: FastAPI and Flask routing, request parsing, templates, flash messages, CORS middleware, static files, `FileResponse`, `proxy_image`. Handler errors are an `ApiError` with its status code.
- Network I/O: the Google Books, OpenLibrary and Amazon searches, and image downloads. Their results are parameters (`found`, `response`).
- Playwright page interaction in the scraper, the subprocess pool in `playwright_wrapper.py`, and `start_server.py`. The texts those pages would give are parameters.
- Concurrency: the in-flight Amazon request bookkeeping, asyncio tasks and timeouts, and the cleanup loop's sleeping.
- Cleanup.CleanupService.Start: only the check of the `running` flag and its setting are modelled. The periodic loop and the reset of the flag when the loop ends are not.
- Hashing: SHA-256 and MD5 are not modelled. The book hash is modelled as its normalised "title|author" key, and the image hash as the function `hashOf` passed in.
- Floating point: `average_rating`, `get_storage_stats` sizes, and `fetch_stats` averages in app.py. The minute counts use integer seconds (`Sessions.Minutes` is `int(x / 60)`).
- BookMetadata.NormalizeAmazonResponse: `average_rating` and `ratings_count` (the `float()`/`int()` conversions) and the constant fields are not part of the result.
- Clocks and files: `datetime.now()`, mtimes and `timedelta` are integers passed in. File copies and unlinks are map updates. An unlink that fails is a name in `undeletable`. Logging is left out.
- `strptime` of the publication date, which sets `Status` in `try_get_metadata`.
- Unicode: `\w`, `\s`, `isspace` and `lower()` are their ASCII forms. `\d` and `int()` also accept non-ASCII decimal digits; the model's digits are 0-9 only.
- SQL `LIKE` is read as substring containment: its `_` and `%` wildcards are not modelled, nor is case-insensitivity beyond the normalised columns. When several rows match, which one `fetchone` returns is not specified.
- SQLite integer width: SUM overflow and 64-bit wrap-around. Integers are unbounded.
- `int()` accepting underscores between digits. `PyInt` skips outer space and \t \n \v \f \r (not the separators 0x1c-0x1f, which `str.strip` removes), then takes an optional sign and decimal digits. Non-ASCII whitespace falls under the Unicode line above.
- MetadataDb.DatabaseService.GetCoverPreferencesStats: `selected_at` is stored from the local `datetime.now()` but compared with SQLite's UTC `datetime('now', '-30 days')`. The model uses one clock `now`, so it does not capture that the source's window is shifted by the host's UTC offset.
- Exceptions that the source swallows and logs (the service methods' `except` branches): the model follows the successful path. The cover store and the database service are not modelled as failing.
- AmazonCache.AmazonCacheDb.GetByTitleAuthor: when several rows match it does not say which one is returned, because SQLite does not either.
- Sessions.Server.GetSessionInfo: bounds the remaining session minutes only for a live session. For an expired one the value is the (negative) truncated quotient, which is not stated.
- `get_cover_options_by_asin`, the search functions and their response parsing, `_normalize_google_books_response` fields other than the covers, and `_normalize_openlibrary_response` fields other than the covers.
- `BookMetadata.PyStr` renders a list without Python's escaping of quotes inside elements.
- The Flask `result` and `stats` pages and `fetch_stats`: rendering only. The Flask `fetch_books` selects only id, title, total_read_time and md5, without the author and series defaults of `StatsDb.FetchBooks`. Whether it succeeds is `StatsDb.Listable`, which `FlaskApp.FlaskApp.MergePageLoads` uses.
- When the Flask merge page finds the upload gone, `sqlite3.connect` leaves an empty file in its place before the listing fails. The model leaves the folder unchanged.
- The HTTP status of a failed Flask request (500 for an uncaught error) is not modelled. `FlaskApp.FlaskApp.Upload` reports only whether the upload was accepted.
- A Flask merge that raises shows an error page; the model reports `false` and the copy as left behind.
- The covers folder's subdirectories, and files other than regular files in it.
- The merge-group registry makes no further checks. `Sessions.Server.AddMergeGroup` accepts ids that name no book and ids already in another group. `Sessions.Server.ExecuteMerge` can be run again. Merged ids keep their event rows (`StatsDb.MergeResultFacts`).

## Findings

| source | as written | input that shows it | evidently intended | confidence | as-written member | corrected member |
|---|---|---|---|---|---|---|
| backend/app/services/cleanup_service.py:80-81 | `filename[:-13]` removes 13 characters from a "_fixed.sqlite3" name, which is 14 characters long, so the id keeps a trailing "_". | Active session "abc" and file "abc_fixed.sqlite3": the id tested is "abc_", so the merged file of a live session is not protected from the sweep. | Remove the whole "_fixed.sqlite3" suffix (14 characters), as the comment says. | not executed; high | Cleanup.FixedFileUnprotectedAsWritten | Cleanup.ActiveSessionFilesProtected |
| backend/app/main.py:69-71 | The root-deployment reset tests for "/" after `rstrip("/")`. That string can never be "/", because the strip removes every trailing slash. | `DEPLOYMENT_PATH="//"` (or `PUBLIC_SUBFOLDER_PATH="/"` with `USE_SUBFOLDER=true`): the path becomes "" while `use_subfolder` stays true. | A path that normalises to the root turns `use_subfolder` off. | not executed; high | DeployConfig.NormalizeSubfolderAsWritten | DeployConfig.NormalizeSubfolder |
