/**
  The book screen's state holder: optimistic local writes first, then remote work inline when the
  device is online, with the background worker scheduled whenever that inline work is skipped or
  fails. Each operation is one atomic step here; the outside world's answers are parameters.
 */
module BookViewModel {
  import opened Optional
  import opened Books
  import opened BookDao
  import opened BookCache
  import opened Remote
  import opened SyncPath
  import opened KotlinText
  import opened JavaFile

  const DefaultFileName := "Untitled"
  const PdfExtension := ".pdf"
  const DefaultAuthor := "Unknown"
  const SaveLocallyFailed := "Failed to save locally"
  const MetadataSaveFailed := "Firestore save failed"
  const UploadFailedPrefix := "Upload failed: "

  /** Feedback for the add-book flow; the newest value replaces the previous one. */
  datatype UploadState = Idle | Uploading | Success(book: SavedBook) | Failure(message: string)

  /**
    The view model's observable state together with the stores it writes. `shown` is the last
    published snapshot of the table, `pendingSyncs` counts the background syncs enqueued.
   */
  datatype Shelf = Shelf(stores: Stores, uploadState: UploadState, shown: Table, isLoading: bool, pendingSyncs: nat)

  /** How copying the picked document into app storage went; `NoStream` is a null input stream. */
  datatype CopyOutcome = Copied | NoStream | CopyFailed

  /** Everything `addBook` learns from the outside world. */
  datatype AddInputs = AddInputs(
    displayName: Option<string>,  // the picked document's display name, if the resolver has one
    bookId: string,               // the fresh random UUID
    pdfDir: string,               // the app's external "pdfs" directory
    copy: CopyOutcome,
    online: bool,
    upload: UploadOutcome,
    saveOk: bool,
    now: int                      // the clock reading for `uploadedAt`
  )

  /**
    The title: the display name, "Untitled" when there is none, cut before its last ".pdf";
    a name without ".pdf" is kept whole.
   */
  function TitleOf(displayName: Option<string>): (title: string)
    ensures displayName.None? ==> title == DefaultFileName
    ensures displayName.Some? && !Contains(displayName.value, PdfExtension) ==> title == displayName.value
    ensures displayName.Some? && Contains(displayName.value, PdfExtension) ==>
      var name := displayName.value;
      && |title| <= |name| && title == name[..|title|]
      && OccursAt(name, PdfExtension, |title|)
      && forall j :: |title| < j ==> !OccursAt(name, PdfExtension, j)
  {
    var name := displayName.GetOr(DefaultFileName);
    assert !Contains(DefaultFileName, PdfExtension) by { NoDotNoPdf(DefaultFileName); }
    SubstringBeforeLast(name, PdfExtension, name)
  }

  /** A name with no '.' cannot contain ".pdf". */
  lemma NoDotNoPdf(s: string)
    requires '.' !in s
    ensures !Contains(s, PdfExtension)
  {
    forall j | 0 <= j <= |s| ensures !OccursAt(s, PdfExtension, j) {
      if j + 4 <= |s| {
        assert s[j..j + 4][0] == s[j] != '.';
      }
    }
  }

  /** A name ending in ".pdf" yields exactly what precedes that suffix. */
  lemma {:induction false} TitleOfPdfName(t: string)
    ensures TitleOf(Some(t + PdfExtension)) == t
  {
    var name := t + PdfExtension;
    assert name[|t|..|t| + 4] == PdfExtension;
    assert OccursAt(name, PdfExtension, |t|);
    var title := TitleOf(Some(name));
    assert |title| >= |t|;
    assert name[..|t|] == t;
  }

  /**
    The local copy's path: `File(pdfDir, "$title.pdf").absolutePath` under the app's absolute
    "pdfs" directory. It depends on the title only, and only after `java.io.File` has collapsed
    the separators the title may contain. The path string starts with `pdfDir` and ends in ".pdf";
    "." and ".." segments of the title stay in it, so it need not name a file inside `pdfDir`.
   */
  function LocalPath(pdfDir: string, title: string): (p: string)
    ensures pdfDir != [] ==> StartsWith(p, pdfDir)
    ensures EndsWith(p, PdfExtension)
    ensures Normal(pdfDir) ==> Normal(p)
    ensures pdfDir != [] && pdfDir != "/" && '/' !in title ==> p == pdfDir + "/" + title + PdfExtension
  {
    assert Separator !in PdfExtension;
    ChildEndsWith(pdfDir, title, PdfExtension);
    PlainTitlePath(pdfDir, title);
    Child(pdfDir, title + PdfExtension)
  }

  lemma PlainTitlePath(pdfDir: string, title: string)
    ensures pdfDir != [] && pdfDir != "/" && '/' !in title ==>
      Child(pdfDir, title + PdfExtension) == pdfDir + "/" + title + PdfExtension
  {
    PdfChildNormal(title);
    if pdfDir != [] && pdfDir != "/" && '/' !in title {
      assert pdfDir != [Separator];
      assert pdfDir + [Separator] + (title + PdfExtension) == pdfDir + "/" + title + PdfExtension;
    }
  }

  /** The child name `title + ".pdf"` normalizes to the title's collapsed form followed by ".pdf". */
  lemma PdfChildNormal(title: string)
    ensures Normalize(title + PdfExtension) == CollapseSlashes(title) + PdfExtension
    ensures '/' !in title ==> '/' !in title + PdfExtension
  {
    assert Separator !in PdfExtension;
    CollapseAppend(title, PdfExtension);
    var name := title + PdfExtension;
    assert name[|name| - 1] == 'f';
  }

  /** A Kotlin string template renders a missing exception message as "null". */
  function Render(message: Option<string>): string {
    message.GetOr("null")
  }

  /** `init`: a fresh view model enqueues one background sync. */
  function Open(stores: Stores, pendingSyncs: nat): (s: Shelf)
    ensures s.stores == stores && s.uploadState == Idle && s.shown == map[] && !s.isLoading
    ensures s.pendingSyncs == pendingSyncs + 1
  {
    Shelf(stores, Idle, map[], false, pendingSyncs + 1)
  }

  /** `loadCachedBooks`: publish the whole table. */
  function LoadCachedBooks(s: Shelf): (r: Shelf)
    ensures r.shown == s.stores.cache && !r.isLoading
    ensures r.stores == s.stores && r.uploadState == s.uploadState && r.pendingSyncs == s.pendingSyncs
  {
    s.(shown := s.stores.cache, isLoading := false)
  }

  /** `scheduleBackgroundSync`: enqueue one more network-constrained worker run. */
  function ScheduleBackgroundSync(s: Shelf): (r: Shelf)
    ensures r.pendingSyncs == s.pendingSyncs + 1
    ensures r.(pendingSyncs := s.pendingSyncs) == s
  {
    s.(pendingSyncs := s.pendingSyncs + 1)
  }

  /** The row `addBook` inserts before any network step: unsynced, by "Unknown", at the local copy. */
  function LocalRow(id: string, title: string, path: string): (r: BookEntity)
    ensures r.id == id && r.title == title && r.fileUrl == path
    ensures !r.isSynced && r.author == DefaultAuthor
  {
    BookEntity(id, title, DefaultAuthor, path, false)
  }

  /**
    First phase of `addBook`: copy the document, then insert the unsynced row and publish. A
    failing copy only reports the failure; a null input stream copies nothing but still inserts.
   */
  function SaveLocally(s: Shelf, id: string, title: string, path: string, copy: CopyOutcome): (r: Shelf)
    ensures copy == CopyFailed ==> r == s.(uploadState := Failure(SaveLocallyFailed))
    ensures copy != CopyFailed ==>
      && r.stores.cache.Keys == s.stores.cache.Keys + {id}
      && r.stores.cache[id] == LocalRow(id, title, path)
      && (forall k :: k in s.stores.cache && k != id ==> r.stores.cache[k] == s.stores.cache[k])
      && r.stores.remote == s.stores.remote
      && r.stores.files == (if copy == Copied then s.stores.files + {path} else s.stores.files)
      && r.shown == r.stores.cache
      && r.uploadState == s.uploadState && r.pendingSyncs == s.pendingSyncs
  {
    if copy == CopyFailed then s.(uploadState := Failure(SaveLocallyFailed))
    else
      var files := if copy == Copied then s.stores.files + {path} else s.stores.files;
      var cache := InsertBook(s.stores.cache, LocalRow(id, title, path));
      LoadCachedBooks(s.(stores := s.stores.(cache := cache, files := files)))
  }

  /** Entering the online branch publishes `Uploading` before any network call. */
  function StartUpload(s: Shelf): (r: Shelf)
    ensures r.uploadState == Uploading
    ensures r.stores == s.stores && r.shown == s.shown && r.pendingSyncs == s.pendingSyncs
  {
    s.(uploadState := Uploading)
  }

  /**
    The online branch of `addBook` after `Uploading`: the shared sync path, then `Success` with
    the saved document and a fresh snapshot, or `Failure` with the step's message and one more
    background sync, the stores untouched.
   */
  function FinishUpload(s: Shelf, user: string, id: string, title: string,
                        upload: UploadOutcome, saveOk: bool, now: int): (r: Shelf)
    ensures r.uploadState.Success? <==> upload.Uploaded? && saveOk
    ensures r.uploadState.Success? ==>
      && r.uploadState.book == SavedBook(id, title, DefaultAuthor, upload.url, now)
      && r.stores == Push(s.stores, user, id, title, DefaultAuthor, upload, saveOk, now).0
      && r.shown == r.stores.cache && r.pendingSyncs == s.pendingSyncs
    ensures upload.UploadFailed? ==>
      r == s.(uploadState := Failure(UploadFailedPrefix + Render(upload.reason)), pendingSyncs := s.pendingSyncs + 1)
    ensures upload.Uploaded? && !saveOk ==>
      r == s.(uploadState := Failure(MetadataSaveFailed), pendingSyncs := s.pendingSyncs + 1)
  {
    var (st, res) := Push(s.stores, user, id, title, DefaultAuthor, upload, saveOk, now);
    match res
    case Pushed(book) => LoadCachedBooks(s.(stores := st, uploadState := Success(book)))
    case UploadRejected(reason) =>
      ScheduleBackgroundSync(s.(uploadState := Failure(UploadFailedPrefix + Render(reason))))
    case SaveRejected => ScheduleBackgroundSync(s.(uploadState := Failure(MetadataSaveFailed)))
  }

  /** The inline attempt of `addBook` syncs the book. */
  predicate InlineSyncs(inputs: AddInputs) {
    inputs.online && inputs.upload.Uploaded? && inputs.saveOk
  }

  /**
    `addBook`. A failed copy is terminal: a failure is reported and nothing else happens.
    Otherwise the new row is in the table whatever the network does; it ends synced with the
    download URL exactly when the device is online, the upload yields a URL and the save succeeds;
    an online failure reports `Failure` and schedules a sync; offline, the upload state is left
    alone and a sync is scheduled. No other row changes.
   */
  function AddBook(s: Shelf, user: string, inputs: AddInputs): (r: Shelf)
    ensures inputs.copy == CopyFailed ==> r == s.(uploadState := Failure(SaveLocallyFailed))
    ensures inputs.copy != CopyFailed ==>
      && r.stores.cache.Keys == s.stores.cache.Keys + {inputs.bookId}
      && (forall k :: k in s.stores.cache && k != inputs.bookId ==> r.stores.cache[k] == s.stores.cache[k])
      && r.shown == r.stores.cache
    ensures inputs.copy != CopyFailed && !InlineSyncs(inputs) ==>
      && r.stores.cache[inputs.bookId] == LocalRow(inputs.bookId, TitleOf(inputs.displayName), LocalPath(inputs.pdfDir, TitleOf(inputs.displayName)))
      && r.stores.remote == s.stores.remote
      && r.pendingSyncs == s.pendingSyncs + 1
    ensures inputs.copy != CopyFailed && InlineSyncs(inputs) ==>
      var book := SavedBook(inputs.bookId, TitleOf(inputs.displayName), DefaultAuthor, inputs.upload.url, inputs.now);
      && r.stores.cache[inputs.bookId] == ToBookEntity(book)
      && r.stores.remote == SaveBook(s.stores.remote, user, book)
      && r.uploadState == Success(book)
      && r.pendingSyncs == s.pendingSyncs
    ensures inputs.copy != CopyFailed && inputs.online && !InlineSyncs(inputs) ==> r.uploadState.Failure?
    ensures inputs.copy != CopyFailed && !inputs.online ==> r.uploadState == s.uploadState
    ensures r.stores.files ==
      if inputs.copy == Copied then s.stores.files + {LocalPath(inputs.pdfDir, TitleOf(inputs.displayName))}
      else s.stores.files
  {
    var title := TitleOf(inputs.displayName);
    var path := LocalPath(inputs.pdfDir, title);
    var s1 := SaveLocally(s, inputs.bookId, title, path, inputs.copy);
    if inputs.copy == CopyFailed then s1
    else if inputs.online then
      FinishUpload(StartUpload(s1), user, inputs.bookId, title, inputs.upload, inputs.saveOk, inputs.now)
    else
      ScheduleBackgroundSync(s1)
  }

  /**
    `getBooks`: on success the fetched documents are upserted as synced rows, rows not fetched
    (unsynced local ones included) are kept, and the table is published; on failure an empty list
    is published and the table is left alone. Loading ends either way.
   */
  function GetBooks(s: Shelf, fetched: Option<seq<SavedBook>>): (r: Shelf)
    ensures !r.isLoading
    ensures r.stores.remote == s.stores.remote && r.stores.files == s.stores.files
    ensures r.uploadState == s.uploadState && r.pendingSyncs == s.pendingSyncs
    ensures fetched.None? ==> r.stores == s.stores && r.shown == map[]
    ensures fetched.Some? ==>
      var books := fetched.value;
      && r.shown == r.stores.cache
      && r.stores.cache.Keys == s.stores.cache.Keys + SavedIds(books)
      && (forall k :: k in s.stores.cache && k !in SavedIds(books) ==> r.stores.cache[k] == s.stores.cache[k])
      && (forall i :: 0 <= i < |books| && LastSaved(books, i) ==> r.stores.cache[books[i].id] == ToBookEntity(books[i]))
  {
    match fetched
    case None => s.(shown := map[], isLoading := false)
    case Some(books) =>
      var cache := CacheBooks(s.stores.cache, books);
      LoadCachedBooks(s.(stores := s.stores.(cache := cache)))
  }

  /**
    `deleteBook`: the row goes at once and its local file, if any, is removed. Only a synced book
    is deleted remotely; if that fails the given entity is reinserted. So the id is gone afterwards
    exactly when the book was unsynced or the remote delete succeeded.
   */
  function DeleteBook(s: Shelf, user: string, e: BookEntity, remoteOk: bool): (r: Shelf)
    ensures e.id in r.stores.cache <==> e.isSynced && !remoteOk
    ensures e.id in r.stores.cache ==> r.stores.cache[e.id] == e
    ensures r.stores.cache.Keys - {e.id} == s.stores.cache.Keys - {e.id}
    ensures forall k :: k in s.stores.cache && k != e.id ==> k in r.stores.cache && r.stores.cache[k] == s.stores.cache[k]
    ensures r.stores.files == s.stores.files - {e.fileUrl}
    ensures e.isSynced && remoteOk ==> r.stores.remote.Keys == s.stores.remote.Keys - {(user, e.id)}
    ensures forall k :: k in r.stores.remote ==> k in s.stores.remote && r.stores.remote[k] == s.stores.remote[k]
    ensures !(e.isSynced && remoteOk) ==> r.stores.remote == s.stores.remote
    ensures r.shown == r.stores.cache && !r.isLoading
    ensures r.uploadState == s.uploadState && r.pendingSyncs == s.pendingSyncs
  {
    var cache := BookDao.DeleteBook(s.stores.cache, e);
    var files := s.stores.files - {e.fileUrl};
    var st :=
      if !e.isSynced then Stores(cache, s.stores.remote, files)
      else if remoteOk then Stores(cache, Remote.DeleteBook(s.stores.remote, user, e.id), files)
      else Stores(InsertBook(cache, e), s.stores.remote, files);
    LoadCachedBooks(s.(stores := st))
  }

  /** `clearUploadState`: the feedback is acknowledged; nothing else changes. */
  function ClearUploadState(s: Shelf): (r: Shelf)
    ensures r.uploadState == Idle
    ensures r.stores == s.stores && r.shown == s.shown && r.isLoading == s.isLoading && r.pendingSyncs == s.pendingSyncs
  {
    s.(uploadState := Idle)
  }

  /** A failed remote delete of the current row puts the table back exactly as it was. */
  lemma DeleteCompensates(s: Shelf, user: string, e: BookEntity)
    requires e.id in s.stores.cache && s.stores.cache[e.id] == e && e.isSynced
    ensures DeleteBook(s, user, e, false).stores.cache == s.stores.cache
  {
    ReinsertRestores(s.stores.cache, e);
  }

  /** Deleting an unsynced book never touches the remote store, whatever it would answer. */
  lemma UnsyncedDeleteIsLocal(s: Shelf, user: string, e: BookEntity, remoteOk: bool)
    requires !e.isSynced
    ensures DeleteBook(s, user, e, remoteOk) == DeleteBook(s, user, e, !remoteOk)
    ensures DeleteBook(s, user, e, remoteOk).stores.remote == s.stores.remote
  {
  }

  /**
    A refresh that reads exactly the user's documents leaves each of them in the table as its
    `toBookEntity()` row, whatever the table held under that id before.
   */
  lemma RefreshMirrorsRemote(s: Shelf, user: string, books: seq<SavedBook>)
    requires forall i :: 0 <= i < |books| ==> books[i] in UserBooks(s.stores.remote, user)
    requires forall d :: d in UserBooks(s.stores.remote, user) ==> d in books
    ensures var r := GetBooks(s, Some(books));
      forall id :: (user, id) in s.stores.remote ==>
        id in r.stores.cache && r.stores.cache[id] == ToBookEntity(s.stores.remote[(user, id)])
  {
    var r := GetBooks(s, Some(books));
    var remote := s.stores.remote;
    forall id | (user, id) in remote
      ensures id in r.stores.cache && r.stores.cache[id] == ToBookEntity(remote[(user, id)])
    {
      var d := remote[(user, id)];
      assert d in UserBooks(remote, user);
      assert d in books;
      assert id in SavedIds(books);
      var i := LastSavedExists(books, id);
      assert books[i] in UserBooks(remote, user);
      assert books[i] == d;
    }
  }

  /** Two refreshes with the same documents leave the table as one does. */
  lemma GetBooksIdempotent(s: Shelf, books: seq<SavedBook>)
    ensures GetBooks(GetBooks(s, Some(books)), Some(books)) == GetBooks(s, Some(books))
  {
    CacheBooksIdempotent(s.stores.cache, books);
  }
}
