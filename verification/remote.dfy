/**
  The remote stores as the core sees them. Metadata documents live under
  `users/{userId}/books/{bookId}` and are written with an overwriting `set`; a blob upload either
  yields a download URL (each upload under a fresh random name) or fails.
 */
module Remote {
  import opened Optional
  import opened Books

  /** Each document is stored under its own id inside its owner's collection. */
  predicate KeyedByPath(m: map<(string, string), SavedBook>) {
    forall k :: k in m ==> m[k].id == k.1
  }

  type RemoteStore = m: map<(string, string), SavedBook> | KeyedByPath(m) witness map[]

  /** The result of `uploadBookFile`: a download URL, or a failure with an optional message. */
  datatype UploadOutcome = Uploaded(url: string) | UploadFailed(reason: Option<string>)

  /** `saveBook`: `document(book.id).set(book)`, overwriting any earlier document with that id. */
  function SaveBook(r: RemoteStore, user: string, b: SavedBook): (r': RemoteStore)
    ensures r'.Keys == r.Keys + {(user, b.id)}
    ensures r'[(user, b.id)] == b
    ensures forall k :: k in r && k != (user, b.id) ==> r'[k] == r[k]
  {
    r[(user, b.id) := b]
  }

  /** `deleteBook`: removes the one document, if present. */
  function DeleteBook(r: RemoteStore, user: string, id: string): (r': RemoteStore)
    ensures r'.Keys == r.Keys - {(user, id)}
    ensures forall k :: k in r' ==> r'[k] == r[k]
  {
    r - {(user, id)}
  }

  /** The documents `getSavedBooks(user)` reads. */
  function UserBooks(r: RemoteStore, user: string): (s: set<SavedBook>)
    ensures forall b :: b in s <==> (user, b.id) in r && r[(user, b.id)] == b
  {
    set k | k in r && k.0 == user :: r[k]
  }

  /** Saving the same document twice leaves one document, as one save does. */
  lemma SaveBookIdempotent(r: RemoteStore, user: string, b: SavedBook)
    ensures SaveBook(SaveBook(r, user, b), user, b) == SaveBook(r, user, b)
  {
  }
}
