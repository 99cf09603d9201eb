/**
  The background worker. It resolves the signed-in user, reads the unsynced rows, splits them
  into batches of five and drives each row through the shared sync path. A row whose local file
  is missing, whose upload fails or whose metadata write fails is skipped; its siblings, in its
  batch and in later batches, are still processed.
 */
module BookSyncWorker {
  import opened Optional
  import opened Books
  import opened BookDao
  import opened Remote
  import opened SyncPath

  const BatchSize: nat := 5

  /** What the outside world does when the worker handles one row. */
  datatype Attempt = Attempt(upload: UploadOutcome, saveOk: bool, now: int)

  /** The worker's `Result.success()`, `Result.failure()` and `Result.retry()`. */
  datatype WorkResult = WorkSuccess | WorkFailure | WorkRetry

  /** Row `b` gets synced by attempt `a`: its file exists, the upload yields a URL, the save succeeds. */
  predicate Syncs(files: set<string>, b: BookEntity, a: Attempt) {
    b.fileUrl in files && a.upload.Uploaded? && a.saveOk
  }

  /** The document the worker writes for row `b`: its id, title and author with the new URL. */
  function DocFor(b: BookEntity, a: Attempt): (d: SavedBook)
    requires a.upload.Uploaded?
    ensures ToBookEntity(d) == MarkSynced(b, a.upload.url)
    ensures d.uploadedAt == a.now
  {
    SavedBook(b.id, b.title, b.author, a.upload.url, a.now)
  }

  /** One iteration of `processBookBatch`; every failure path ends at this row. */
  function SyncRecord(st: Stores, user: string, b: BookEntity, a: Attempt): (r: Stores)
    ensures r.files == st.files
    ensures !Syncs(st.files, b, a) ==> r == st
    ensures Syncs(st.files, b, a) ==>
      && r.cache.Keys == st.cache.Keys
      && (b.id in st.cache ==> r.cache[b.id] == MarkSynced(st.cache[b.id], a.upload.url))
      && (forall k :: k in st.cache && k != b.id ==> r.cache[k] == st.cache[k])
      && Lookup(r.remote, (user, b.id)) == Some(DocFor(b, a))
      && (forall key :: key != (user, b.id) ==> Lookup(r.remote, key) == Lookup(st.remote, key))
  {
    if b.fileUrl !in st.files then st
    else Push(st, user, b.id, b.title, b.author, a.upload, a.saveOk, a.now).0
  }

  /** `processBookBatch`: the rows of one batch, in order. No file and no row is created or removed. */
  function ProcessBatch(st: Stores, user: string, books: seq<BookEntity>, outcome: BookEntity -> Attempt): (r: Stores)
    ensures r.files == st.files && r.cache.Keys == st.cache.Keys
    ensures st.remote.Keys <= r.remote.Keys
    decreases |books|
  {
    if books == [] then st
    else ProcessBatch(SyncRecord(st, user, books[0], outcome(books[0])), user, books[1..], outcome)
  }

  /** The `forEach` over the batches. No file and no row is created or removed. */
  function ProcessBatches(st: Stores, user: string, batches: seq<seq<BookEntity>>, outcome: BookEntity -> Attempt): (r: Stores)
    ensures r.files == st.files && r.cache.Keys == st.cache.Keys
    ensures st.remote.Keys <= r.remote.Keys
    decreases |batches|
  {
    if batches == [] then st
    else ProcessBatches(ProcessBatch(st, user, batches[0], outcome), user, batches[1..], outcome)
  }

  function Flatten<T>(xss: seq<seq<T>>): seq<T>
    decreases |xss|
  {
    if xss == [] then [] else xss[0] + Flatten(xss[1..])
  }

  /**
    `xs.chunked(n)`: consecutive pieces of `xs`, all of size `n` but the last, which is non-empty;
    read in order they give back `xs`.
   */
  function Chunked<T>(xs: seq<T>, n: nat): (r: seq<seq<T>>)
    requires n > 0
    ensures Flatten(r) == xs
    ensures forall i :: 0 <= i < |r| ==> 0 < |r[i]| <= n
    ensures forall i :: 0 <= i < |r| - 1 ==> |r[i]| == n
    decreases |xs|
  {
    if xs == [] then []
    else if |xs| <= n then
      assert Flatten([xs]) == xs + Flatten([xs][1..]);
      [xs]
    else
      var rest := Chunked(xs[n..], n);
      assert ([xs[..n]] + rest)[1..] == rest;
      assert xs == xs[..n] + xs[n..];
      [xs[..n]] + rest
  }

  /** `doWork`. `unsynced` is what the unsynced-rows query returned, `None` when it threw. */
  function DoWork(st: Stores, user: Option<string>, unsynced: Option<seq<BookEntity>>,
                  outcome: BookEntity -> Attempt): (r: (Stores, WorkResult))
    ensures user.None? ==> r == (st, WorkFailure)
    ensures user.Some? && unsynced.None? ==> r == (st, WorkRetry)
    ensures user.Some? && unsynced.Some? ==> r.1 == WorkSuccess
    ensures user.Some? && unsynced == Some([]) ==> r.0 == st
  {
    match user
    case None => (st, WorkFailure)
    case Some(uid) =>
      match unsynced
      case None => (st, WorkRetry)
      case Some(books) =>
        if books == [] then (st, WorkSuccess)
        else (ProcessBatches(st, uid, Chunked(books, BatchSize), outcome), WorkSuccess)
  }

  /** The first row of `books` with id `k`. */
  function FindById(books: seq<BookEntity>, k: string): (r: Option<BookEntity>)
    ensures r.None? <==> forall i :: 0 <= i < |books| ==> books[i].id != k
    ensures r.Some? ==> r.value in books && r.value.id == k
    ensures r.Some? ==> exists i :: 0 <= i < |books| && books[i] == r.value && forall j :: 0 <= j < i ==> books[j].id != k
    decreases |books|
  {
    if books == [] then None
    else if books[0].id == k then Some(books[0])
    else FindById(books[1..], k)
  }

  /** In a listing with distinct ids, looking a row's id up finds that row. */
  lemma FindByIdDistinct(books: seq<BookEntity>, i: int)
    requires DistinctIds(books) && 0 <= i < |books|
    ensures FindById(books, books[i].id) == Some(books[i])
  {
    var f := FindById(books, books[i].id);
    var j :| 0 <= j < |books| && books[j] == f.value;
  }

  /** Reference for what a run over the listing `books` leaves in row `k`. */
  function RowAfter(st: Stores, books: seq<BookEntity>, outcome: BookEntity -> Attempt, k: string): BookEntity
    requires k in st.cache
  {
    match FindById(books, k)
    case None => st.cache[k]
    case Some(b) =>
      if Syncs(st.files, b, outcome(b)) then MarkSynced(st.cache[k], outcome(b).upload.url) else st.cache[k]
  }

  /** Reference for what a run over the listing `books` leaves in the remote document `key`. */
  function DocAfter(st: Stores, user: string, books: seq<BookEntity>, outcome: BookEntity -> Attempt,
                    key: (string, string)): Option<SavedBook>
  {
    if key.0 != user then Lookup(st.remote, key)
    else
      match FindById(books, key.1)
      case None => Lookup(st.remote, key)
      case Some(b) => if Syncs(st.files, b, outcome(b)) then Some(DocFor(b, outcome(b))) else Lookup(st.remote, key)
  }

  /**
    Batch isolation: each row of a listing with distinct ids ends up as its own attempt alone
    decides, whatever happened to the rows before or after it.
   */
  lemma {:induction false} ProcessBatchEffect(st: Stores, user: string, books: seq<BookEntity>,
                                              outcome: BookEntity -> Attempt)
    requires DistinctIds(books)
    ensures var r := ProcessBatch(st, user, books, outcome);
      && r.files == st.files
      && r.cache.Keys == st.cache.Keys
      && (forall k :: k in st.cache ==> r.cache[k] == RowAfter(st, books, outcome, k))
      && (forall key :: Lookup(r.remote, key) == DocAfter(st, user, books, outcome, key))
    decreases |books|
  {
    if books != [] {
      var b, rest := books[0], books[1..];
      var st1 := SyncRecord(st, user, b, outcome(b));
      var r := ProcessBatch(st1, user, rest, outcome);
      assert DistinctIds(rest);
      ProcessBatchEffect(st1, user, rest, outcome);
      assert FindById(rest, b.id).None? by {
        forall i | 0 <= i < |rest| ensures rest[i].id != b.id {
          assert rest[i] == books[i + 1];
        }
      }
      forall k | k in st.cache ensures r.cache[k] == RowAfter(st, books, outcome, k) {
        if k != b.id {
          assert FindById(books, k) == FindById(rest, k);
        }
      }
      forall key ensures Lookup(r.remote, key) == DocAfter(st, user, books, outcome, key) {
        if key.0 == user && key.1 != b.id {
          assert FindById(books, key.1) == FindById(rest, key.1);
        }
      }
    }
  }

  lemma {:induction false} ProcessBatchAppend(st: Stores, user: string, xs: seq<BookEntity>, ys: seq<BookEntity>,
                                              outcome: BookEntity -> Attempt)
    ensures ProcessBatch(st, user, xs + ys, outcome) == ProcessBatch(ProcessBatch(st, user, xs, outcome), user, ys, outcome)
    decreases |xs|
  {
    if xs != [] {
      assert (xs + ys)[1..] == xs[1..] + ys;
      ProcessBatchAppend(SyncRecord(st, user, xs[0], outcome(xs[0])), user, xs[1..], ys, outcome);
    } else {
      assert xs + ys == ys;
    }
  }

  /** Running the batches one after the other is running their concatenation. */
  lemma {:induction false} ProcessBatchesFlatten(st: Stores, user: string, batches: seq<seq<BookEntity>>,
                                                 outcome: BookEntity -> Attempt)
    ensures ProcessBatches(st, user, batches, outcome) == ProcessBatch(st, user, Flatten(batches), outcome)
    decreases |batches|
  {
    if batches != [] {
      ProcessBatchAppend(st, user, batches[0], Flatten(batches[1..]), outcome);
      ProcessBatchesFlatten(ProcessBatch(st, user, batches[0], outcome), user, batches[1..], outcome);
    }
  }

  /** Splitting into batches of five neither drops nor repeats a row: the run is one pass over the listing. */
  lemma DoWorkIsOnePass(st: Stores, user: string, books: seq<BookEntity>, outcome: BookEntity -> Attempt)
    ensures DoWork(st, Some(user), Some(books), outcome).0 == ProcessBatch(st, user, books, outcome)
  {
    if books != [] {
      ProcessBatchesFlatten(st, user, Chunked(books, BatchSize), outcome);
    }
  }

  /** What a run leaves in a row, stated on the row alone: unsynced rows that sync get the URL. */
  function AfterSync(files: set<string>, row: BookEntity, a: Attempt): BookEntity {
    if !row.isSynced && Syncs(files, row, a) then MarkSynced(row, a.upload.url) else row
  }

  /** What a run leaves in a remote document, stated on the table alone. */
  function DocAfterRun(st: Stores, user: string, outcome: BookEntity -> Attempt, key: (string, string)): Option<SavedBook> {
    if key.0 == user && key.1 in st.cache && !st.cache[key.1].isSynced && Syncs(st.files, st.cache[key.1], outcome(st.cache[key.1]))
    then Some(DocFor(st.cache[key.1], outcome(st.cache[key.1])))
    else Lookup(st.remote, key)
  }

  /** Over a listing of exactly the unsynced rows, the per-listing references become per-row ones. */
  lemma ListingReferences(st: Stores, user: string, listing: seq<BookEntity>, outcome: BookEntity -> Attempt)
    requires Lists(listing, Unsynced(st.cache))
    ensures forall k :: k in st.cache ==> RowAfter(st, listing, outcome, k) == AfterSync(st.files, st.cache[k], outcome(st.cache[k]))
    ensures forall key :: DocAfter(st, user, listing, outcome, key) == DocAfterRun(st, user, outcome, key)
  {
    forall k ensures FindById(listing, k) == if k in st.cache && !st.cache[k].isSynced then Some(st.cache[k]) else None {
      var f := FindById(listing, k);
      if f.Some? {
        var i :| 0 <= i < |listing| && listing[i] == f.value;
      }
    }
  }

  /**
    A whole worker run. Without a user it fails and changes nothing; if the query throws it asks
    for a retry and changes nothing; otherwise it succeeds, whatever happened to individual rows,
    and exactly the unsynced rows whose file exists, whose upload yields a URL and whose save
    succeeds become synced with that URL, each with its document written remotely.
   */
  method RunWorker(st: Stores, user: Option<string>, queryOk: bool, outcome: BookEntity -> Attempt)
    returns (r: Stores, result: WorkResult)
    ensures user.None? ==> r == st && result == WorkFailure
    ensures user.Some? && !queryOk ==> r == st && result == WorkRetry
    ensures user.Some? && queryOk ==> result == WorkSuccess
    ensures user.Some? && queryOk ==> r.files == st.files && r.cache.Keys == st.cache.Keys
    ensures user.Some? && queryOk ==>
      forall k :: k in st.cache ==> r.cache[k] == AfterSync(st.files, st.cache[k], outcome(st.cache[k]))
    ensures user.Some? && queryOk ==>
      forall key :: Lookup(r.remote, key) == DocAfterRun(st, user.value, outcome, key)
  {
    if user.None? {
      return st, WorkFailure;
    }
    if !queryOk {
      return st, WorkRetry;
    }
    var listing := GetUnsyncedBooks(st.cache);
    var run := DoWork(st, user, Some(listing), outcome);
    r, result := run.0, run.1;
    DoWorkIsOnePass(st, user.value, listing, outcome);
    ProcessBatchEffect(st, user.value, listing, outcome);
    ListingReferences(st, user.value, listing, outcome);
  }
}
