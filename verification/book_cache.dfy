/**
  The cache repository over the `books` table. Its reads and writes delegate to the table
  operations unchanged; its one operation of its own turns remote documents into synced rows.
 */
module BookCache {
  import opened Books
  import opened BookDao

  /** The row `cacheBooks` builds for a document: fields copied, marked synced. */
  function CachedRow(s: SavedBook): (r: BookEntity)
    ensures r.isSynced && r.id == s.id
    ensures ToSavedBook(r, s.uploadedAt) == s
  {
    BookEntity(s.id, s.title, s.author, s.fileUrl, true)
  }

  function CachedRows(books: seq<SavedBook>): (rows: seq<BookEntity>)
    ensures |rows| == |books|
    ensures forall i :: 0 <= i < |books| ==> rows[i] == CachedRow(books[i])
  {
    seq(|books|, i requires 0 <= i < |books| => CachedRow(books[i]))
  }

  /** The ids of a list of documents: those of the rows they become. */
  function SavedIds(books: seq<SavedBook>): set<string> {
    IdsOf(CachedRows(books))
  }

  /** Document `i` is the last one in `books` with its id, as its row is among the rows. */
  predicate LastSaved(books: seq<SavedBook>, i: int)
    requires 0 <= i < |books|
  {
    LastWithId(CachedRows(books), i)
  }

  /** Every fetched id has a last document carrying it. */
  lemma LastSavedExists(books: seq<SavedBook>, k: string) returns (i: int)
    requires k in SavedIds(books)
    ensures 0 <= i < |books| && books[i].id == k && LastSaved(books, i)
    decreases |books|
  {
    var n := |books| - 1;
    if books[n].id == k {
      return n;
    }
    var prefix := books[..n];
    assert k in SavedIds(prefix) by {
      var j :| 0 <= j < |books| && books[j].id == k;
      assert prefix[j] in prefix;
    }
    i := LastSavedExists(prefix, k);
    assert forall j :: i < j < n ==> books[j] == prefix[j];
  }

  /**
    `cacheBooks`: an upsert, never a replace. Every fetched id ends up holding a synced row built
    from the last document with that id; every other row, unsynced local ones included, is kept.
   */
  function CacheBooks(t: Table, books: seq<SavedBook>): (r: Table)
    ensures r.Keys == t.Keys + SavedIds(books)
    ensures forall k :: k in t && k !in SavedIds(books) ==> r[k] == t[k]
    ensures forall i :: 0 <= i < |books| && LastSaved(books, i) ==> r[books[i].id] == CachedRow(books[i])
    ensures forall k :: k in SavedIds(books) ==> r[k].isSynced
  {
    CacheBooksFacts(t, books);
    InsertBooks(t, CachedRows(books))
  }

  lemma CacheBooksFacts(t: Table, books: seq<SavedBook>)
    ensures var r := InsertBooks(t, CachedRows(books));
      && r.Keys == t.Keys + SavedIds(books)
      && (forall k :: k in t && k !in SavedIds(books) ==> r[k] == t[k])
      && (forall i :: 0 <= i < |books| && LastSaved(books, i) ==> r[books[i].id] == CachedRow(books[i]))
      && (forall k :: k in SavedIds(books) ==> r[k].isSynced)
  {
    var rows := CachedRows(books);
    CachedRowsIds(books);
    CacheKeys(t, rows);
    CacheLast(t, books);
    CacheSynced(t, books);
  }

  lemma CacheKeys(t: Table, rows: seq<BookEntity>)
    ensures InsertBooks(t, rows).Keys == t.Keys + IdsOf(rows)
    ensures forall k :: k in t && k !in IdsOf(rows) ==> InsertBooks(t, rows)[k] == t[k]
  {
  }

  lemma CacheLast(t: Table, books: seq<SavedBook>)
    ensures forall i :: 0 <= i < |books| && LastSaved(books, i) ==> InsertBooks(t, CachedRows(books))[books[i].id] == CachedRow(books[i])
  {
    var rows := CachedRows(books);
    InsertBooksLastWins(t, rows);
    forall i | 0 <= i < |books| && LastSaved(books, i)
      ensures InsertBooks(t, rows)[books[i].id] == CachedRow(books[i])
    {
      assert LastWithId(rows, i);
      assert rows[i] == CachedRow(books[i]);
    }
  }

  lemma CacheSynced(t: Table, books: seq<SavedBook>)
    ensures forall k :: k in SavedIds(books) ==> InsertBooks(t, CachedRows(books))[k].isSynced
  {
    var rows := CachedRows(books);
    CachedRowsIds(books);
    forall k | k in SavedIds(books) ensures InsertBooks(t, rows)[k].isSynced {
      assert k in Latest(rows);
      assert Latest(rows)[k] in rows;
    }
  }

  lemma CachedRowsIds(books: seq<SavedBook>)
    ensures IdsOf(CachedRows(books)) == SavedIds(books)
  {
    var rows := CachedRows(books);
    forall k | k in SavedIds(books) ensures k in IdsOf(rows) {
      var i :| 0 <= i < |books| && books[i].id == k;
      assert rows[i] in rows;
    }
  }

  /** The row `cacheBooks` stores for a document is the document's `toBookEntity()`. */
  lemma CachedRowIsToBookEntity(s: SavedBook)
    ensures CachedRow(s) == ToBookEntity(s)
  {
  }

  /** Refreshing twice with the same documents gives the table one refresh gave. */
  lemma CacheBooksIdempotent(t: Table, books: seq<SavedBook>)
    ensures CacheBooks(CacheBooks(t, books), books) == CacheBooks(t, books)
  {
    InsertBooksIdempotent(t, CachedRows(books));
  }

  /** An unsynced local row whose id is not fetched survives the refresh unchanged. */
  lemma CacheBooksKeepsLocalRows(t: Table, books: seq<SavedBook>, id: string)
    requires id in t && !t[id].isSynced
    requires forall i :: 0 <= i < |books| ==> books[i].id != id
    ensures id in CacheBooks(t, books) && CacheBooks(t, books)[id] == t[id]
  {
  }

  /** An unsynced local row whose id is fetched is overwritten by the remote copy, synced. */
  lemma CacheBooksOverwritesLocalRow(t: Table, books: seq<SavedBook>, i: int)
    requires 0 <= i < |books| && LastSaved(books, i)
    requires books[i].id in t && !t[books[i].id].isSynced
    ensures CacheBooks(t, books)[books[i].id] == BookEntity(books[i].id, books[i].title, books[i].author, books[i].fileUrl, true)
  {
  }

  /**
    Clearing the table before caching turns the upsert into a replacement: exactly the fetched ids
    remain, all synced, and no local row survives.
   */
  lemma ClearThenCacheReplaces(t: Table, books: seq<SavedBook>)
    ensures CacheBooks(ClearBooks(t), books).Keys == SavedIds(books)
    ensures forall k :: k in CacheBooks(ClearBooks(t), books) ==> CacheBooks(ClearBooks(t), books)[k].isSynced
    ensures forall k :: k in t && k !in SavedIds(books) ==> k !in CacheBooks(ClearBooks(t), books)
  {
    assert ClearBooks(t).Keys == {};
  }
}
