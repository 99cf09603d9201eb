/**
  The two record shapes of the library: the row of the local `books` table and the document
  stored remotely, with the conversions between them.
 */
module Books {

  /** A row of the local `books` table; `id` is the primary key. */
  datatype BookEntity = BookEntity(
    id: string,
    title: string,
    author: string,
    fileUrl: string,   // a local path while unsynced, a download URL once synced
    isSynced: bool
  )

  /** The metadata document stored remotely; `uploadedAt` defaults to the clock at construction. */
  datatype SavedBook = SavedBook(
    id: string,
    title: string,
    author: string,
    fileUrl: string,
    uploadedAt: int
  )

  /** `BookEntity.toSavedBook()`; `now` is the clock reading that fills `uploadedAt`. */
  function ToSavedBook(e: BookEntity, now: int): SavedBook {
    SavedBook(e.id, e.title, e.author, e.fileUrl, now)
  }

  /** `SavedBook.toBookEntity(isSynced = true)` */
  function ToBookEntity(s: SavedBook, isSynced: bool := true): BookEntity {
    BookEntity(s.id, s.title, s.author, s.fileUrl, isSynced)
  }

  /** Converting a row to a document and back, keeping its sync flag, gives the row back. */
  lemma EntityRoundTrip(e: BookEntity, now: int)
    ensures ToBookEntity(ToSavedBook(e, now), e.isSynced) == e
  {
  }

  /** Without an explicit flag the row built from a document is marked synced. */
  lemma ToBookEntityDefaultsToSynced(s: SavedBook)
    ensures ToBookEntity(s).isSynced
    ensures ToBookEntity(s) == ToBookEntity(s, true)
  {
  }

  /**
    A document converted to a row and back keeps id, title, author and fileUrl; `uploadedAt` is not
    carried by the row, so it is whatever the clock reads, and the round trip is exact only when that
    reading equals the original timestamp.
   */
  lemma DocumentRoundTrip(s: SavedBook, isSynced: bool, now: int)
    ensures var s' := ToSavedBook(ToBookEntity(s, isSynced), now);
      s'.id == s.id && s'.title == s.title && s'.author == s.author && s'.fileUrl == s.fileUrl
    ensures ToSavedBook(ToBookEntity(s, isSynced), now) == s <==> now == s.uploadedAt
  {
  }
}
