/**
  The three steps that take an unsynced book to synced, performed both inline when a book is
  added and by the background worker: upload the file, write the metadata document, mark the
  local row synced with the download URL. Each step runs only when the previous one succeeded.
 */
module SyncPath {
  import opened Optional
  import opened Books
  import opened BookDao
  import opened Remote

  /** Everything the sync logic reads and writes: local table, remote metadata, local files. */
  datatype Stores = Stores(cache: Table, remote: RemoteStore, files: set<string>)

  datatype PushResult =
    | Pushed(book: SavedBook)               // all three steps completed
    | UploadRejected(reason: Option<string>) // the blob upload failed; nothing else was attempted
    | SaveRejected                           // the upload succeeded but the metadata write failed

  /** The row once its file lives remotely: only `fileUrl` and `isSynced` change. */
  function MarkSynced(e: BookEntity, url: string): (r: BookEntity)
    ensures r.id == e.id && r.title == e.title && r.author == e.author
    ensures r.fileUrl == url && r.isSynced
  {
    e.(fileUrl := url, isSynced := true)
  }

  /**
    Upload, save metadata `SavedBook(id, title, author, url)`, mark synced. On any failure no store
    changes; on success the document for (user, id) is written and the row `id`, if present, is
    marked synced with the URL, and nothing else changes.
   */
  function Push(st: Stores, user: string, id: string, title: string, author: string,
                upload: UploadOutcome, saveOk: bool, now: int): (r: (Stores, PushResult))
    ensures r.1.Pushed? <==> upload.Uploaded? && saveOk
    ensures r.1.UploadRejected? <==> upload.UploadFailed?
    ensures r.1.UploadRejected? ==> r.1.reason == upload.reason
    ensures !r.1.Pushed? ==> r.0 == st
    ensures r.1.Pushed? ==> r.1.book == SavedBook(id, title, author, upload.url, now)
    ensures r.1.Pushed? ==> r.0.files == st.files
    ensures r.1.Pushed? ==> r.0.cache.Keys == st.cache.Keys
    ensures r.1.Pushed? && id in st.cache ==> r.0.cache[id] == MarkSynced(st.cache[id], upload.url)
    ensures r.1.Pushed? ==> forall k :: k in st.cache && k != id ==> r.0.cache[k] == st.cache[k]
    ensures r.1.Pushed? ==> r.0.remote.Keys == st.remote.Keys + {(user, id)}
    ensures r.1.Pushed? ==> r.0.remote[(user, id)] == r.1.book
    ensures r.1.Pushed? ==> forall k :: k in st.remote && k != (user, id) ==> r.0.remote[k] == st.remote[k]
  {
    match upload
    case UploadFailed(reason) => (st, UploadRejected(reason))
    case Uploaded(url) =>
      var book := SavedBook(id, title, author, url, now);
      if saveOk then
        var st' := st.(remote := SaveBook(st.remote, user, book),
                       cache := UpdateBookSyncStatus(st.cache, id, url, true));
        (st', Pushed(book))
      else
        (st, SaveRejected)
  }

  /**
    Running the path twice for the same book, as the inline attempt and the worker may, converges:
    one document for the book, holding the second run's URL, and the row synced with that URL.
   */
  lemma PushTwiceConverges(st: Stores, user: string, id: string, title: string, author: string,
                           url1: string, url2: string, now1: int, now2: int)
    requires id in st.cache
    ensures var (st1, _) := Push(st, user, id, title, author, Uploaded(url1), true, now1);
            var (st2, res) := Push(st1, user, id, title, author, Uploaded(url2), true, now2);
            && res == Pushed(SavedBook(id, title, author, url2, now2))
            && st2.remote.Keys == st.remote.Keys + {(user, id)}
            && st2.remote[(user, id)] == SavedBook(id, title, author, url2, now2)
            && st2.cache[id] == MarkSynced(st.cache[id], url2)
            && st2.cache.Keys == st.cache.Keys
  {
  }
}
