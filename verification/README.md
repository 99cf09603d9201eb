# MyShelf offline-first book sync, modelled in Dafny

MyShelf keeps a personal library of PDF books that stays usable offline. Every user action lands in a
local Room table first. Remote work follows: a Firebase Storage upload plus a Firestore metadata
document. When that work cannot happen inline, a WorkManager worker retries it later. This project
models that core as pure transitions over immutable state and proves what each step guarantees.

State:

- the local `books` table, a map from primary key to `BookEntity` (`BookDao.Table`);
- the remote metadata store, a map keyed by (user id, book id) (`Remote.RemoteStore`);
- the set of local files that exist;
- the view model's observable values: `uploadState`, the published book list, `isLoading`, and a
  count of enqueued background syncs.

Every answer from the outside world is a parameter:

- whether the copy worked;
- connectivity;
- the upload's URL or failure;
- save and delete success;
- the fetched list;
- the current user;
- the UUID and the clock.

Modules follow the source files:

| module | file | models |
|---|---|---|
| `Books` | books.dfy | `BookEntity`, `SavedBook`, and the conversions in HelperFunctions.kt |
| `BookDao` | book_dao.dfy | the DAO: replace-on-conflict inserts, field update, delete by key, clear, queries |
| `BookCache` | book_cache.dfy | `cacheBooks`; the repository's other methods delegate to the DAO unchanged, so the DAO members model them |
| `Remote` | remote.dfy | the Firestore document map and the storage upload outcome |
| `SyncPath` | sync_path.dfy | upload, then save metadata, then mark synced; `addBook` and the worker both perform these steps, and the model writes them once |
| `KotlinText` | kotlin_text.dfy | `lastIndexOf` and `substringBeforeLast` |
| `JavaFile` | java_file.dfy | how `File(parent, child)` on a Unix file system normalizes the child and joins it to the directory |
| `BookSyncWorker` | book_sync_worker.dfy | `doWork` and `processBookBatch` |
| `BookViewModel` | book_view_model.dfy | `addBook`, the title derivation, `getBooks`, `deleteBook`, `clearUploadState`, `UploadState` |
| `AuthViewModel` | auth_view_model.dfy | the `AuthState` machine |
| `Scenarios` | scenarios.dfy | properties spanning several operations |

Behaviours of the code the model keeps:

- A refresh (`getBooks`) upserts the fetched documents. It does not replace the table, so unsynced
  local rows survive (`Scenarios.RefreshKeepsPendingBook`). It also never checks offline mode.
- `addBook` checks connectivity only, not the offline-mode preference.
- The worker returns `failure`, not `retry`, when there is no signed-in user.
- The local path of a book depends on its title alone, not on the book. Two books whose titles
  coincide ("Notes.pdf" and "Notes") share one file (`Scenarios.SameTitleSamePath`).
  - While the first of them is unsynced, deleting it deletes the other's file. The other book
    then cannot be synced until a file reappears at that path (`Scenarios.DeletingTwinStrandsSibling`).
  - A later add with the same title recreates the file. The worker then uploads that new content
    under the stranded book's id (`Scenarios.StrandedRowSyncsAgain`).
  - A synced book's row points at its download URL, so deleting it leaves the shared file alone
    (`Scenarios.SyncedTwinDeleteKeepsFile`).
- The path is built by `java.io.File`, which collapses runs of separators in the title and drops a
  leading one. So "a//b" and "a/b" share a file, and so do "/x" and "x".
- `java.io.File` keeps "." and ".." segments in the path string. The title "../x" gives
  `<pdfs>/../x.pdf`, a file outside the pdfs directory (`Scenarios.ParentSegmentStaysInPath`),
  and "./x" gives a path string different from that of "x" although the file system opens one
  file for both (`Scenarios.CurrentSegmentSplitsPath`).

## Model

| member | source | states |
|---|---|---|
| Books.EntityRoundTrip | app/src/main/java/com/innovatewithomer/myshelf/utils/HelperFunctions.kt:6-23 | a row turned into a document and back, keeping its sync flag, is the same row |
| Books.ToBookEntityDefaultsToSynced | app/src/main/java/com/innovatewithomer/myshelf/utils/HelperFunctions.kt:15 | without an explicit flag the row built from a document is marked synced |
| Books.DocumentRoundTrip | app/src/main/java/com/innovatewithomer/myshelf/utils/HelperFunctions.kt:6-23 | document to row to document keeps id, title, author and fileUrl; it is the identity exactly when the clock reads the original `uploadedAt` |
| BookDao.InsertBook | app/src/main/java/com/innovatewithomer/myshelf/data/local/dao/BookDao.kt:19-20 | replace on conflict: the row for the id becomes the given row and every other row is unchanged |
| BookDao.InsertBooks | app/src/main/java/com/innovatewithomer/myshelf/data/local/dao/BookDao.kt:26-27 | a bulk insert equals overlaying the table with the list's rows by id, a later row replacing an earlier one |
| BookDao.InsertBooksLastWins | app/src/main/java/com/innovatewithomer/myshelf/data/local/dao/BookDao.kt:26-27 | after a bulk insert each id holds the last listed row with that id, and ids not listed keep their rows |
| BookDao.InsertBooksIdempotent | app/src/main/java/com/innovatewithomer/myshelf/data/local/dao/BookDao.kt:26-27 | inserting the same list twice gives the same table as once |
| BookDao.UpdateBookSyncStatus | app/src/main/java/com/innovatewithomer/myshelf/data/local/dao/BookDao.kt:22-24 | only fileUrl and isSynced of the matching row change; title and author stay; a missing id changes nothing and creates no row |
| BookDao.DeleteBook | app/src/main/java/com/innovatewithomer/myshelf/data/local/dao/BookDao.kt:29-30 | exactly the row with the entity's primary key is removed, whatever its other fields |
| BookDao.ClearBooks | app/src/main/java/com/innovatewithomer/myshelf/data/local/dao/BookDao.kt:32-33 | the table is left empty |
| BookDao.Unsynced | app/src/main/java/com/innovatewithomer/myshelf/data/local/dao/BookDao.kt:16-17 | the selection holds exactly the rows with isSynced false, unchanged |
| BookDao.Enumerate | app/src/main/java/com/innovatewithomer/myshelf/data/local/dao/BookDao.kt:13-14 | a query result holds every row of the table exactly once, in no fixed order |
| BookDao.GetAllBooks | app/src/main/java/com/innovatewithomer/myshelf/data/local/dao/BookDao.kt:13-14 | all rows, each once, as many as the table has |
| BookDao.GetUnsyncedBooks | app/src/main/java/com/innovatewithomer/myshelf/data/local/dao/BookDao.kt:16-17 | exactly the unsynced rows, each once, each equal to its table row |
| BookDao.ReinsertRestores | app/src/main/java/com/innovatewithomer/myshelf/data/local/dao/BookDao.kt:19-30 | deleting a row and inserting it again restores the table exactly |
| BookDao.MarkedSyncedLeavesUnsynced | app/src/main/java/com/innovatewithomer/myshelf/data/local/dao/BookDao.kt:16-24 | after marking an id synced it is not among the unsynced rows, and no other unsynced row changes |
| BookDao.UnsyncedIsSubTable | app/src/main/java/com/innovatewithomer/myshelf/data/local/dao/BookDao.kt:13-17 | the unsynced rows are a sub-table of all rows |
| BookCache.CacheBooks | app/src/main/java/com/innovatewithomer/myshelf/data/repo/BookCacheRepository.kt:15-27 | upsert, never delete: fetched ids hold a synced row copied from the last document with that id; every other row, unsynced ones included, is kept |
| BookCache.CachedRow | app/src/main/java/com/innovatewithomer/myshelf/data/repo/BookCacheRepository.kt:17-25 | the row built for a document is synced, keeps the document's id, and converts back to the same document |
| BookCache.ClearThenCacheReplaces | app/src/main/java/com/innovatewithomer/myshelf/data/local/dao/BookDao.kt:32-33 | clearing before caching turns the upsert into a replacement: exactly the fetched ids remain, all synced, no local row survives |
| BookCache.CachedRowIsToBookEntity | app/src/main/java/com/innovatewithomer/myshelf/utils/HelperFunctions.kt:15-23 | the row cacheBooks stores for a document is that document's toBookEntity() |
| BookCache.CacheBooksIdempotent | app/src/main/java/com/innovatewithomer/myshelf/data/repo/BookCacheRepository.kt:15-27 | caching the same documents twice gives the same table as once |
| BookCache.CacheBooksKeepsLocalRows | app/src/main/java/com/innovatewithomer/myshelf/data/repo/BookCacheRepository.kt:15-16 | an unsynced local row whose id is not fetched survives unchanged |
| BookCache.CacheBooksOverwritesLocalRow | app/src/main/java/com/innovatewithomer/myshelf/data/repo/BookCacheRepository.kt:16-25 | an unsynced local row whose id is fetched becomes synced with the remote fields |
| Remote.SaveBook | app/src/main/java/com/innovatewithomer/myshelf/data/remote/firestore/BookRepositoryImpl.kt:10-17 | the document under (user, book id) becomes the book; no other document changes |
| Remote.DeleteBook | app/src/main/java/com/innovatewithomer/myshelf/data/remote/firestore/BookRepositoryImpl.kt:41-51 | exactly the document (user, book id) is removed |
| Remote.UserBooks | app/src/main/java/com/innovatewithomer/myshelf/data/remote/firestore/BookRepositoryImpl.kt:25-33 | the documents read for a user are those stored under that user, each under its own id |
| Remote.SaveBookIdempotent | app/src/main/java/com/innovatewithomer/myshelf/data/remote/firestore/BookRepositoryImpl.kt:10-17 | saving the same document twice is saving it once |
| SyncPath.MarkSynced | app/src/main/java/com/innovatewithomer/myshelf/worker/BookSyncWorker.kt:87-91 | marking synced changes only fileUrl, to the URL, and isSynced, to true |
| SyncPath.Push | app/src/main/java/com/innovatewithomer/myshelf/worker/BookSyncWorker.kt:63-91 | the row ends synced with the URL iff the upload yields a URL and the save succeeds; the saved document is the book's id, title, author and URL; on failure no store changes |
| SyncPath.PushTwiceConverges | app/src/main/java/com/innovatewithomer/myshelf/viewmodel/BookViewModel.kt:105-124 | running the sync steps twice for one book leaves one document with the second URL and the row synced with it |
| KotlinText.LastIndexOf | app/src/main/java/com/innovatewithomer/myshelf/viewmodel/BookViewModel.kt:68 | -1 iff the delimiter does not occur; otherwise an occurrence with none after it |
| KotlinText.SubstringBeforeLast | app/src/main/java/com/innovatewithomer/myshelf/viewmodel/BookViewModel.kt:68 | the prefix before the last occurrence of the delimiter, or the fallback when there is none |
| BookSyncWorker.SyncRecord | app/src/main/java/com/innovatewithomer/myshelf/worker/BookSyncWorker.kt:53-96 | a row is synced and its document written iff its file exists, the upload yields a URL and the save succeeds; otherwise nothing changes |
| BookSyncWorker.DocFor | app/src/main/java/com/innovatewithomer/myshelf/worker/BookSyncWorker.kt:73-78 | the document the worker writes, read back as a row, is exactly the row marked synced with the URL |
| BookSyncWorker.ProcessBatch | app/src/main/java/com/innovatewithomer/myshelf/worker/BookSyncWorker.kt:52-98 | a batch creates and removes no file and no row, and removes no document |
| BookSyncWorker.ProcessBatches | app/src/main/java/com/innovatewithomer/myshelf/worker/BookSyncWorker.kt:42-44 | running all batches creates and removes no file and no row, and removes no document |
| BookSyncWorker.Chunked | app/src/main/java/com/innovatewithomer/myshelf/worker/BookSyncWorker.kt:42 | batches are non-empty, at most five long, all full but the last, and concatenate to the list |
| BookSyncWorker.DoWork | app/src/main/java/com/innovatewithomer/myshelf/worker/BookSyncWorker.kt:33-50 | no user gives failure and no change; a throwing query gives retry and no change; otherwise success even if rows failed; an empty list changes nothing |
| BookSyncWorker.ProcessBatchEffect | app/src/main/java/com/innovatewithomer/myshelf/worker/BookSyncWorker.kt:52-98 | sibling isolation: each listed row ends as its own attempt alone decides; unlisted rows and unrelated documents are untouched |
| BookSyncWorker.ProcessBatchesFlatten | app/src/main/java/com/innovatewithomer/myshelf/worker/BookSyncWorker.kt:42-44 | running the batches in turn is one pass over their concatenation |
| BookSyncWorker.DoWorkIsOnePass | app/src/main/java/com/innovatewithomer/myshelf/worker/BookSyncWorker.kt:42-44 | batching by five processes every listed row exactly once, in order |
| BookSyncWorker.ListingReferences | app/src/main/java/com/innovatewithomer/myshelf/worker/BookSyncWorker.kt:37 | over the listing of the unsynced rows, synced rows are never touched |
| BookSyncWorker.RunWorker | app/src/main/java/com/innovatewithomer/myshelf/worker/BookSyncWorker.kt:33-98 | a whole run: exactly the unsynced rows whose file exists, whose upload yields a URL and whose save succeeds become synced with that URL and get their document; every other row and document is unchanged |
| BookViewModel.TitleOf | app/src/main/java/com/innovatewithomer/myshelf/viewmodel/BookViewModel.kt:67-68 | the name ("Untitled" if none) cut before its last ".pdf"; a name without ".pdf" is kept whole |
| BookViewModel.TitleOfPdfName | app/src/main/java/com/innovatewithomer/myshelf/viewmodel/BookViewModel.kt:67-68 | a name t + ".pdf" gives the title t, whatever t contains |
| BookViewModel.LocalPath | app/src/main/java/com/innovatewithomer/myshelf/viewmodel/BookViewModel.kt:73 | the path string starts with the pdfs directory's path, ends in ".pdf" and is normal when the directory is; for a title without separators it is the directory, "/", the title and ".pdf" |
| BookViewModel.LocalRow | app/src/main/java/com/innovatewithomer/myshelf/viewmodel/BookViewModel.kt:69-92 | the row inserted before any network step is unsynced, by "Unknown", and points at the local copy |
| JavaFile.CollapseSlashes | app/src/main/java/com/innovatewithomer/myshelf/viewmodel/BookViewModel.kt:73 | the result has no two separators in a row, keeps the first and last character, and is the input itself when the input already has none; which characters it keeps is stated by `JavaFile.CollapseIsLoop` |
| JavaFile.CollapseIsLoop | app/src/main/java/com/innovatewithomer/myshelf/viewmodel/BookViewModel.kt:73 | collapsing equals the character loop of `UnixFileSystem.normalize`, which copies each character and skips a separator that follows a separator |
| JavaFile.Normalize | app/src/main/java/com/innovatewithomer/myshelf/viewmodel/BookViewModel.kt:73 | the result is a normal pathname, a normal input is unchanged, and an input not ending in a separator is only collapsed |
| JavaFile.Resolve | app/src/main/java/com/innovatewithomer/myshelf/viewmodel/BookViewModel.kt:73 | the parent stays in front and the child ends the result; after a parent other than "" and "/" comes the child itself when it starts with a separator and otherwise one separator and then the child; two normal pathnames join into a normal one |
| JavaFile.Child | app/src/main/java/com/innovatewithomer/myshelf/viewmodel/BookViewModel.kt:73 | the path starts with the directory, ends with the normalized child and is normal when the directory is; a plain name is joined with one separator |
| JavaFile.ChildSameNormalForm | app/src/main/java/com/innovatewithomer/myshelf/viewmodel/BookViewModel.kt:73 | two children with the same normal form name the same file |
| JavaFile.ChildLeadingSeparator | app/src/main/java/com/innovatewithomer/myshelf/viewmodel/BookViewModel.kt:73 | a leading separator on the child does not change the file |
| BookViewModel.Open | app/src/main/java/com/innovatewithomer/myshelf/viewmodel/BookViewModel.kt:44-63 | a new view model starts Idle, empty, not loading, and enqueues one sync |
| BookViewModel.LoadCachedBooks | app/src/main/java/com/innovatewithomer/myshelf/viewmodel/BookViewModel.kt:53-59 | the published list is the table and loading has ended |
| BookViewModel.ScheduleBackgroundSync | app/src/main/java/com/innovatewithomer/myshelf/viewmodel/BookViewModel.kt:216-226 | one more sync is enqueued; nothing else changes |
| BookViewModel.SaveLocally | app/src/main/java/com/innovatewithomer/myshelf/viewmodel/BookViewModel.kt:72-96 | a failed copy reports "Failed to save locally" and changes nothing else; otherwise the unsynced row with the local path is in the table and published before any network step |
| BookViewModel.StartUpload | app/src/main/java/com/innovatewithomer/myshelf/viewmodel/BookViewModel.kt:99-101 | the online branch publishes Uploading first |
| BookViewModel.FinishUpload | app/src/main/java/com/innovatewithomer/myshelf/viewmodel/BookViewModel.kt:104-132 | Success(book) iff the upload and the save succeed; a failure reports the step's message, schedules a sync and leaves the stores alone |
| BookViewModel.AddBook | app/src/main/java/com/innovatewithomer/myshelf/viewmodel/BookViewModel.kt:65-138 | copy failure is terminal; otherwise the book is in the table whatever the network does, synced with the URL iff online, uploaded and saved; else unsynced at the local path with a sync scheduled; offline leaves uploadState alone |
| BookViewModel.GetBooks | app/src/main/java/com/innovatewithomer/myshelf/viewmodel/BookViewModel.kt:147-159 | success upserts fetched documents as synced rows and keeps all others; failure publishes an empty list and keeps the table; loading ends false |
| BookViewModel.DeleteBook | app/src/main/java/com/innovatewithomer/myshelf/viewmodel/BookViewModel.kt:161-198 | the id is gone iff the book was unsynced or the remote delete succeeded; otherwise the entity is back unchanged; the local file is removed; other rows stay |
| BookViewModel.ClearUploadState | app/src/main/java/com/innovatewithomer/myshelf/viewmodel/BookViewModel.kt:212-214 | the upload state returns to Idle and nothing else changes |
| BookViewModel.DeleteCompensates | app/src/main/java/com/innovatewithomer/myshelf/viewmodel/BookViewModel.kt:177-192 | a failed remote delete of a synced book restores the table exactly |
| BookViewModel.UnsyncedDeleteIsLocal | app/src/main/java/com/innovatewithomer/myshelf/viewmodel/BookViewModel.kt:176-193 | deleting an unsynced book does not depend on or touch the remote store |
| BookViewModel.RefreshMirrorsRemote | app/src/main/java/com/innovatewithomer/myshelf/viewmodel/BookViewModel.kt:147-159 | a refresh that reads exactly the user's documents leaves every one of them in the table as its toBookEntity() row |
| BookViewModel.GetBooksIdempotent | app/src/main/java/com/innovatewithomer/myshelf/viewmodel/BookViewModel.kt:147-159 | two refreshes with the same documents equal one |
| AuthViewModel.UserStateOf | app/src/main/java/com/innovatewithomer/myshelf/viewmodel/AuthViewModel.kt:22-27 | Authenticated(uid) iff a user is signed in, else UnAuthenticated |
| AuthViewModel.Init | app/src/main/java/com/innovatewithomer/myshelf/viewmodel/AuthViewModel.kt:21-28 | the first state comes from the current user alone |
| AuthViewModel.BeginSignIn | app/src/main/java/com/innovatewithomer/myshelf/viewmodel/AuthViewModel.kt:32 | a sign-in first publishes Loading |
| AuthViewModel.SettleSignIn | app/src/main/java/com/innovatewithomer/myshelf/viewmodel/AuthViewModel.kt:34-38 | Authenticated iff the provider signed the user in; otherwise Error with its message or the fallback |
| AuthViewModel.SignInAnonymously | app/src/main/java/com/innovatewithomer/myshelf/viewmodel/AuthViewModel.kt:30-40 | ends Authenticated(uid) or Error, "Unknown error" by default, never Loading; the offline flag is kept |
| AuthViewModel.SignInWithGoogle | app/src/main/java/com/innovatewithomer/myshelf/viewmodel/AuthViewModel.kt:42-52 | the same, with "Google Sign-in failed" by default |
| AuthViewModel.UseOfflineMode | app/src/main/java/com/innovatewithomer/myshelf/viewmodel/AuthViewModel.kt:54-59 | the flag is set and the state is Anonymous |
| AuthViewModel.ClearOfflineMode | app/src/main/java/com/innovatewithomer/myshelf/viewmodel/AuthViewModel.kt:61-65 | the flag is cleared and the state is unchanged |
| AuthViewModel.CheckInitialState | app/src/main/java/com/innovatewithomer/myshelf/viewmodel/AuthViewModel.kt:67-78 | offline gives Anonymous, else a signed-in user gives Authenticated, else UnAuthenticated |
| AuthViewModel.SignInFlowsAgree | app/src/main/java/com/innovatewithomer/myshelf/viewmodel/AuthViewModel.kt:30-52 | when the provider answers with a user or with its own message, the two sign-in flows end in the same state; only the fallback message tells them apart |
| AuthViewModel.CheckInitialStateIgnoresHistory | app/src/main/java/com/innovatewithomer/myshelf/viewmodel/AuthViewModel.kt:67-78 | the derived state depends only on the flag and the user |
| AuthViewModel.CheckInitialStateVersusInit | app/src/main/java/com/innovatewithomer/myshelf/viewmodel/AuthViewModel.kt:67-78 | without offline mode the check agrees with init; with it and a signed-in user they differ |
| AuthViewModel.OfflineRoundTrip | app/src/main/java/com/innovatewithomer/myshelf/viewmodel/AuthViewModel.kt:54-78 | entering then leaving offline mode keeps Anonymous until the next check, which then follows the user |
| Scenarios.OfflineAddThenWorkerSyncs | app/src/main/java/com/innovatewithomer/myshelf/viewmodel/BookViewModel.kt:86-136 | a book added offline is unsynced with no failure reported, and a later working worker run syncs it and writes its document |
| Scenarios.WorkerSyncsPendingRow | app/src/main/java/com/innovatewithomer/myshelf/worker/BookSyncWorker.kt:33-98 | a listed unsynced row whose file exists and whose upload and save succeed ends synced with the URL and has its document, and the run reports success |
| Scenarios.MobyDickOffline | app/src/main/java/com/innovatewithomer/myshelf/viewmodel/BookViewModel.kt:67-96 | "Moby Dick.pdf" added offline to an empty table leaves one unsynced row titled "Moby Dick" at the local path for that title |
| Scenarios.MobyDickPath | app/src/main/java/com/innovatewithomer/myshelf/viewmodel/BookViewModel.kt:73 | in an ordinary pdfs directory the book "Moby Dick" is stored as "Moby Dick.pdf" |
| Scenarios.RefreshKeepsPendingBook | app/src/main/java/com/innovatewithomer/myshelf/viewmodel/BookViewModel.kt:147-159 | a refresh after an unsynced add keeps the pending row when the remote list lacks its id |
| Scenarios.InlineSyncThenWorkerLeavesBook | app/src/main/java/com/innovatewithomer/myshelf/worker/BookSyncWorker.kt:37 | after an inline sync the row is synced, so a worker run, whatever its listing order and network outcomes, leaves that row and its document unchanged |
| Scenarios.ThreeBooksMiddleFails | app/src/main/java/com/innovatewithomer/myshelf/worker/BookSyncWorker.kt:53-96 | with three books and the second failing its upload, the first and third end synced and the second is unchanged |
| Scenarios.OfflineAddTitled | app/src/main/java/com/innovatewithomer/myshelf/viewmodel/BookViewModel.kt:67-96 | an offline add into an empty table leaves one unsynced row with the display name's title, author "Unknown" and that title's local path, and the upload state alone |
| Scenarios.OfflineAddIsPending | app/src/main/java/com/innovatewithomer/myshelf/viewmodel/BookViewModel.kt:85-96 | an add that does not sync inline leaves exactly the pending unsynced row under the new id |
| Scenarios.SameTitleSamePath | app/src/main/java/com/innovatewithomer/myshelf/viewmodel/BookViewModel.kt:68-73 | "Notes.pdf" and "Notes" get the same title, hence the same local path |
| Scenarios.DeletingTwinStrandsSibling | app/src/main/java/com/innovatewithomer/myshelf/viewmodel/BookViewModel.kt:171-174 | deleting the first of two same-titled books while it is unsynced removes the other's file, so a worker run in that state cannot sync the other |
| Scenarios.StrandedRowSyncsAgain | app/src/main/java/com/innovatewithomer/myshelf/viewmodel/BookViewModel.kt:73-79 | once a third same-titled add copies a file to the shared path, the stranded row syncs on the next working run, with that file's content |
| Scenarios.SyncedTwinDeleteKeepsFile | app/src/main/java/com/innovatewithomer/myshelf/viewmodel/BookViewModel.kt:171-174 | deleting a synced twin, whose row points at a download URL outside the pdfs directory, leaves the shared file and the sibling's row |
| Scenarios.SeparatorRunsShareFile | app/src/main/java/com/innovatewithomer/myshelf/viewmodel/BookViewModel.kt:73 | the titles "a//b" and "a/b" name one file |
| Scenarios.LeadingSeparatorSharesFile | app/src/main/java/com/innovatewithomer/myshelf/viewmodel/BookViewModel.kt:73 | the titles "/x" and "x" name one file |
| Scenarios.DotTitlePath | app/src/main/java/com/innovatewithomer/myshelf/viewmodel/BookViewModel.kt:73 | a relative title without separator runs is joined to the directory as written, "." and ".." included |
| Scenarios.ParentSegmentStaysInPath | app/src/main/java/com/innovatewithomer/myshelf/viewmodel/BookViewModel.kt:68-73 | the title "../x" gives the path string `<pdfs>/../x.pdf` |
| Scenarios.CurrentSegmentSplitsPath | app/src/main/java/com/innovatewithomer/myshelf/viewmodel/BookViewModel.kt:73 | the titles "./x" and "x" give different path strings |

## Left out

- User interface: Compose screens, toasts, snackbars and navigation. They only present state.
- Undo after delete: the screen calls `removeLocally` and `reAddBook`, which the view model does not
  define, so there is no behaviour to model.
- Firebase, Room, WorkManager and DataStore internals are foreign code.
  - Their results are parameters.
  - Blob storage is reduced to the upload's outcome. Each upload gets a fresh random name, so the
    URL is an opaque input, and blobs orphaned by a failed metadata save are not tracked.
- Connectivity is a boolean input. The pdfs directory, the UUID and `System.currentTimeMillis` are inputs too.
- Coroutines and `StateFlow`: each operation is one atomic step. `loadCachedBooks` runs in its own
  coroutine in the app; here it completes inside the calling operation.
- Exceptions from local database writes and from file deletion are not modelled: those steps always succeed here.
- A copy that throws midway can leave a partly written file; the model leaves the file set unchanged.
- Room's own exceptions: only the unsynced-rows query is given a failure (`None`), because only there
  does an exception reach the worker's outer `catch`.
- `KotlinText.LastIndexOf` and `KotlinText.SubstringBeforeLast` require a non-empty delimiter. Kotlin
  defines the empty case too, but the only call uses ".pdf".
- `getExternalFilesDir` returning null is not modelled. The directory is always given as an absolute, normal path.
- BookViewModel.LocalPath: "." and ".." segments are not resolved, because `java.io.File` leaves them to the file system. Titles
  that differ only by them ("./x" and "x") name one file on disk but two members of the file set, and a title containing "../"
  names a file outside the pdfs directory although its path string starts with the directory's.
- Row paths are used as strings: `File(bookEntity.fileUrl)` in the worker and in `deleteBook` looks up the stored string as is.
  The paths `addBook` stores are already normal (`BookViewModel.LocalPath`). A download URL is taken to name no local file.
- `AuthViewModel.ClearOfflineMode`: only its own body is modelled. A `checkInitialState` collector that
  is still active would re-derive the state when the flag changes; here that is another
  `CheckInitialState` step.
- A successful storage result with a null URL ("No URL returned") cannot occur with `Result<String>`
  and is not modelled.
- Sign-out, DI modules, App Check, the unregistered `CachedBook` entity and build configuration are
  outside the sync core.
