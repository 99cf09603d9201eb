/**
  Properties that span several operations: a book added offline is later synced by the worker,
  a refresh keeps books not yet uploaded, the inline path and the worker do not fight over a
  book, one failing book does not hold back its siblings, and two books with the same title share
  one local file.
 */
module Scenarios {
  import opened Optional
  import opened Books
  import opened BookDao
  import opened Remote
  import opened SyncPath
  import opened BookSyncWorker
  import opened BookViewModel
  import opened JavaFile

  /** The row `addBook` leaves behind when the inline attempt does not sync it. */
  function PendingRow(inputs: AddInputs): BookEntity {
    var title := TitleOf(inputs.displayName);
    LocalRow(inputs.bookId, title, LocalPath(inputs.pdfDir, title))
  }

  /**
    A book added offline is kept locally, unsynced, with no failure reported; the next worker run
    that finds the network working uploads it and marks it synced with the download URL.
   */
  lemma {:induction false} OfflineAddThenWorkerSyncs(s: Shelf, user: string, inputs: AddInputs,
                                                     listing: seq<BookEntity>, outcome: BookEntity -> Attempt)
    requires inputs.copy == Copied && !inputs.online
    ensures var r := AddBook(s, user, inputs);
      && r.stores.cache[inputs.bookId] == PendingRow(inputs)
      && r.uploadState == s.uploadState
      && r.pendingSyncs == s.pendingSyncs + 1
    ensures var r := AddBook(s, user, inputs);
            var row := PendingRow(inputs);
      Lists(listing, Unsynced(r.stores.cache)) && outcome(row).upload.Uploaded? && outcome(row).saveOk ==>
        var (w, result) := DoWork(r.stores, Some(user), Some(listing), outcome);
        && result == WorkSuccess
        && inputs.bookId in w.cache
        && w.cache[inputs.bookId] == MarkSynced(row, outcome(row).upload.url)
        && Lookup(w.remote, (user, inputs.bookId)) == Some(DocFor(row, outcome(row)))
  {
    var r := AddBook(s, user, inputs);
    var row := PendingRow(inputs);
    OfflineAddIsPending(s, user, inputs);
    assert row.fileUrl in r.stores.files;
    if Lists(listing, Unsynced(r.stores.cache)) && outcome(row).upload.Uploaded? && outcome(row).saveOk {
      WorkerSyncsPendingRow(r.stores, user, listing, outcome, row);
    }
  }

  /** A worker run that lists a pending row whose file exists and whose attempt succeeds syncs it. */
  lemma WorkerSyncsPendingRow(st: Stores, user: string, listing: seq<BookEntity>,
                              outcome: BookEntity -> Attempt, row: BookEntity)
    requires row.id in st.cache && st.cache[row.id] == row && !row.isSynced && row.fileUrl in st.files
    requires Lists(listing, Unsynced(st.cache)) && outcome(row).upload.Uploaded? && outcome(row).saveOk
    ensures var (w, result) := DoWork(st, Some(user), Some(listing), outcome);
      && result == WorkSuccess
      && row.id in w.cache
      && w.cache[row.id] == MarkSynced(row, outcome(row).upload.url)
      && Lookup(w.remote, (user, row.id)) == Some(DocFor(row, outcome(row)))
  {
    DoWorkIsOnePass(st, user, listing, outcome);
    ProcessBatchEffect(st, user, listing, outcome);
    ListingReferences(st, user, listing, outcome);
    assert DocAfterRun(st, user, outcome, (user, row.id)) == Some(DocFor(row, outcome(row)));
  }

  /**
    The scenario with a concrete document: "Moby Dick.pdf" becomes the book "Moby Dick", stored
    at the local path for that title (`MobyDickPath` spells it out).
   */
  lemma MobyDickOffline(s: Shelf, user: string, inputs: AddInputs)
    requires inputs.displayName == Some("Moby Dick.pdf") && inputs.copy == Copied && !inputs.online
    requires s.stores.cache == map[]
    ensures var r := AddBook(s, user, inputs);
      && r.stores.cache.Keys == {inputs.bookId}
      && r.stores.cache[inputs.bookId] == BookEntity(inputs.bookId, "Moby Dick", "Unknown", LocalPath(inputs.pdfDir, "Moby Dick"), false)
      && r.uploadState == s.uploadState
  {
    MobyDickTitle();
    OfflineAddTitled(s, user, inputs, "Moby Dick");
  }

  /** An offline add of a copied document whose display name yields `title` into an empty table. */
  lemma OfflineAddTitled(s: Shelf, user: string, inputs: AddInputs, title: string)
    requires inputs.copy == Copied && !inputs.online && TitleOf(inputs.displayName) == title
    requires s.stores.cache == map[]
    ensures var r := AddBook(s, user, inputs);
      && r.stores.cache.Keys == {inputs.bookId}
      && r.stores.cache[inputs.bookId] == BookEntity(inputs.bookId, title, "Unknown", LocalPath(inputs.pdfDir, title), false)
      && r.uploadState == s.uploadState
  {
    OfflineAddIsPending(s, user, inputs);
    PendingRowInEmptyTable(s.stores.cache, AddBook(s, user, inputs).stores.cache, inputs, title);
  }

  /** The pending row added to an empty table is its only row, under the title it was given. */
  lemma PendingRowInEmptyTable(before: Table, after: Table, inputs: AddInputs, title: string)
    requires before == map[] && TitleOf(inputs.displayName) == title
    requires after.Keys == before.Keys + {inputs.bookId} && after[inputs.bookId] == PendingRow(inputs)
    ensures after.Keys == {inputs.bookId}
    ensures after[inputs.bookId] == BookEntity(inputs.bookId, title, "Unknown", LocalPath(inputs.pdfDir, title), false)
  {
    assert before.Keys + {inputs.bookId} == {inputs.bookId};
  }

  lemma MobyDickTitle()
    ensures TitleOf(Some("Moby Dick.pdf")) == "Moby Dick"
  {
    TitleOfPdfName("Moby Dick");
    assert "Moby Dick" + PdfExtension == "Moby Dick.pdf";
  }

  /** An add that keeps the book local leaves exactly the pending row under the new id. */
  lemma OfflineAddIsPending(s: Shelf, user: string, inputs: AddInputs)
    requires inputs.copy != CopyFailed && !InlineSyncs(inputs)
    ensures var r := AddBook(s, user, inputs);
      && r.stores.cache.Keys == s.stores.cache.Keys + {inputs.bookId}
      && r.stores.cache[inputs.bookId] == PendingRow(inputs)
      && (!inputs.online ==> r.uploadState == s.uploadState)
  {
  }

  /** In an ordinary directory, the book "Moby Dick" is stored as "Moby Dick.pdf". */
  lemma MobyDickPath(pdfDir: string)
    ensures pdfDir != [] && pdfDir != "/" ==> LocalPath(pdfDir, "Moby Dick") == pdfDir + "/Moby Dick.pdf"
  {
    assert '/' !in "Moby Dick";
    assert pdfDir + "/" + "Moby Dick" + PdfExtension == pdfDir + "/Moby Dick.pdf";
  }

  /**
    A successful refresh after an offline add keeps the pending book when the remote list does not
    know its id.
   */
  lemma RefreshKeepsPendingBook(s: Shelf, user: string, inputs: AddInputs, books: seq<SavedBook>)
    requires inputs.copy != CopyFailed && !InlineSyncs(inputs)
    requires forall i :: 0 <= i < |books| ==> books[i].id != inputs.bookId
    ensures var r := GetBooks(AddBook(s, user, inputs), Some(books));
      inputs.bookId in r.stores.cache && r.stores.cache[inputs.bookId] == PendingRow(inputs) && r.shown == r.stores.cache
  {
  }

  /**
    After an inline sync succeeded, a later worker run leaves that book and its document alone:
    the two paths do not upload it twice. Stated through the references `RunWorker` is proved to
    follow, so it holds for every listing order and every network outcome of that run.
   */
  lemma InlineSyncThenWorkerLeavesBook(s: Shelf, user: string, inputs: AddInputs, outcome: BookEntity -> Attempt)
    requires inputs.copy != CopyFailed && InlineSyncs(inputs)
    ensures var r := AddBook(s, user, inputs);
      && inputs.bookId in r.stores.cache
      && r.stores.cache[inputs.bookId].isSynced
      && AfterSync(r.stores.files, r.stores.cache[inputs.bookId], outcome(r.stores.cache[inputs.bookId]))
         == r.stores.cache[inputs.bookId]
      && DocAfterRun(r.stores, user, outcome, (user, inputs.bookId)) == Lookup(r.stores.remote, (user, inputs.bookId))
  {
  }

  /**
    Three unsynced books whose files exist, the second failing its upload: the first and third end
    synced, the second stays exactly as it was.
   */
  lemma ThreeBooksMiddleFails(st: Stores, user: string, bs: seq<BookEntity>, outcome: BookEntity -> Attempt)
    requires |bs| == 3 && DistinctIds(bs)
    requires forall i :: 0 <= i < 3 ==> bs[i].id in st.cache && st.cache[bs[i].id] == bs[i]
    requires bs[0].fileUrl in st.files && bs[2].fileUrl in st.files
    requires outcome(bs[0]).upload.Uploaded? && outcome(bs[0]).saveOk
    requires outcome(bs[1]).upload.UploadFailed?
    requires outcome(bs[2]).upload.Uploaded? && outcome(bs[2]).saveOk
    ensures var r := ProcessBatch(st, user, bs, outcome);
      && bs[0].id in r.cache && bs[1].id in r.cache && bs[2].id in r.cache
      && r.cache[bs[0].id] == MarkSynced(bs[0], outcome(bs[0]).upload.url)
      && r.cache[bs[1].id] == bs[1]
      && r.cache[bs[2].id] == MarkSynced(bs[2], outcome(bs[2]).upload.url)
  {
    ProcessBatchEffect(st, user, bs, outcome);
    FindByIdDistinct(bs, 0);
    FindByIdDistinct(bs, 1);
    FindByIdDistinct(bs, 2);
  }

  /**
    "Notes.pdf" and "Notes" get the same title, so the same local path: the copy of the second
    overwrites the first one's file, and deleting either while it is still unsynced deletes the
    other's file too.
   */
  lemma SameTitleSamePath(pdfDir: string)
    ensures TitleOf(Some("Notes.pdf")) == TitleOf(Some("Notes")) == "Notes"
    ensures LocalPath(pdfDir, TitleOf(Some("Notes.pdf"))) == LocalPath(pdfDir, TitleOf(Some("Notes")))
  {
    TitleOfPdfName("Notes");
    assert "Notes" + PdfExtension == "Notes.pdf";
    NoDotNoPdf("Notes");
  }

  /**
    Two unsynced books with one title: deleting the first removes the file the second points at,
    so a worker run cannot sync the second, whatever the network does, until a file appears at
    that path again.
   */
  lemma {:induction false} DeletingTwinStrandsSibling(s: Shelf, user: string, a: AddInputs, b: AddInputs,
                                                      remoteOk: bool, attempt: Attempt)
    requires a.copy == Copied && b.copy == Copied && !a.online && !b.online
    requires a.bookId != b.bookId && a.pdfDir == b.pdfDir
    requires TitleOf(a.displayName) == TitleOf(b.displayName)
    ensures var s2 := AddBook(AddBook(s, user, a), user, b);
            var s3 := BookViewModel.DeleteBook(s2, user, s2.stores.cache[a.bookId], remoteOk);
      && b.bookId in s3.stores.cache
      && s3.stores.cache[b.bookId] == PendingRow(b)
      && PendingRow(b).fileUrl !in s3.stores.files
      && AfterSync(s3.stores.files, s3.stores.cache[b.bookId], attempt) == s3.stores.cache[b.bookId]
  {
    var s1 := AddBook(s, user, a);
    var s2 := AddBook(s1, user, b);
    assert s2.stores.cache[a.bookId] == PendingRow(a);
    assert PendingRow(a).fileUrl == PendingRow(b).fileUrl;
  }

  /**
    The stranding lasts until a file reappears at the shared path: a third book with the same
    title copies its document there, and the next worker run that reaches the network syncs the
    stranded row, uploading the third book's content under the second book's id.
   */
  lemma {:induction false} StrandedRowSyncsAgain(s: Shelf, user: string, a: AddInputs, b: AddInputs, c: AddInputs,
                                                 remoteOk: bool, attempt: Attempt)
    requires a.copy == Copied && b.copy == Copied && c.copy == Copied && !a.online && !b.online
    requires a.bookId != b.bookId && c.bookId != b.bookId
    requires a.pdfDir == b.pdfDir && c.pdfDir == b.pdfDir
    requires TitleOf(a.displayName) == TitleOf(b.displayName) && TitleOf(c.displayName) == TitleOf(b.displayName)
    requires attempt.upload.Uploaded? && attempt.saveOk
    ensures var s2 := AddBook(AddBook(s, user, a), user, b);
            var s3 := BookViewModel.DeleteBook(s2, user, s2.stores.cache[a.bookId], remoteOk);
            var s4 := AddBook(s3, user, c);
      && b.bookId in s4.stores.cache
      && s4.stores.cache[b.bookId] == PendingRow(b)
      && PendingRow(b).fileUrl in s4.stores.files
      && AfterSync(s4.stores.files, s4.stores.cache[b.bookId], attempt) == MarkSynced(PendingRow(b), attempt.upload.url)
  {
    DeletingTwinStrandsSibling(s, user, a, b, remoteOk, attempt);
    var s2 := AddBook(AddBook(s, user, a), user, b);
    var s3 := BookViewModel.DeleteBook(s2, user, s2.stores.cache[a.bookId], remoteOk);
    var s4 := AddBook(s3, user, c);
    assert PendingRow(c).fileUrl == PendingRow(b).fileUrl;
    assert s4.stores.files == s3.stores.files + {PendingRow(c).fileUrl};
    assert s4.stores.cache[b.bookId] == s3.stores.cache[b.bookId];
  }

  /**
    Deleting a synced twin leaves the shared file alone: the synced row points at its download
    URL, which lies outside the pdfs directory, so the unsynced sibling keeps its copy.
   */
  lemma {:induction false} SyncedTwinDeleteKeepsFile(s: Shelf, user: string, a: AddInputs, b: AddInputs, remoteOk: bool)
    requires a.copy == Copied && InlineSyncs(a) && b.copy == Copied && !b.online
    requires a.bookId != b.bookId && a.pdfDir == b.pdfDir
    requires TitleOf(a.displayName) == TitleOf(b.displayName)
    requires a.pdfDir != [] && !StartsWith(a.upload.url, a.pdfDir)
    ensures var s2 := AddBook(AddBook(s, user, a), user, b);
            var s3 := BookViewModel.DeleteBook(s2, user, s2.stores.cache[a.bookId], remoteOk);
      && b.bookId in s3.stores.cache
      && s3.stores.cache[b.bookId] == PendingRow(b)
      && PendingRow(b).fileUrl in s3.stores.files
  {
    var s1 := AddBook(s, user, a);
    var s2 := AddBook(s1, user, b);
    assert a.upload.url != PendingRow(b).fileUrl;
    assert s1.stores.cache[a.bookId].fileUrl == a.upload.url;
    assert s2.stores.cache[a.bookId] == s1.stores.cache[a.bookId];
    assert PendingRow(b).fileUrl in s2.stores.files;
  }

  /** `java.io.File` collapses a run of separators in a title: "a//b" and "a/b" name one file. */
  lemma SeparatorRunsShareFile(pdfDir: string)
    ensures LocalPath(pdfDir, "a//b") == LocalPath(pdfDir, "a/b")
  {
    SeparatorRunTitles();
    PdfChildNormal("a//b");
    PdfChildNormal("a/b");
    ChildSameNormalForm(pdfDir, "a//b" + PdfExtension, "a/b" + PdfExtension);
  }

  lemma SeparatorRunTitles()
    ensures CollapseSlashes("a//b") == "a/b" && CollapseSlashes("a/b") == "a/b"
  {
    assert CollapseSlashes("a//b") == "a/b";
  }

  /** A title's leading separator adds nothing to the path: "/x" and "x" name one file. */
  lemma LeadingSeparatorSharesFile(pdfDir: string)
    ensures LocalPath(pdfDir, "/x") == LocalPath(pdfDir, "x")
  {
    assert "/x" + PdfExtension == [Separator] + ("x" + PdfExtension);
    ChildLeadingSeparator(pdfDir, "x" + PdfExtension);
  }

  /**
    `java.io.File` leaves ".." in the path, so the title "../x" gives a path string that starts with
    the pdfs directory yet names "x.pdf" in the directory above it once the file system resolves it.
   */
  lemma ParentSegmentStaysInPath(pdfDir: string)
    requires pdfDir != [] && pdfDir != "/"
    ensures LocalPath(pdfDir, "../x") == pdfDir + "/../x.pdf"
  {
    ParentSegmentTitle(pdfDir);
    DotTitlePath(pdfDir, "../x");
  }

  lemma ParentSegmentTitle(pdfDir: string)
    ensures Collapsed("../x") && "../x"[0] != Separator
    ensures pdfDir + "/" + "../x" + PdfExtension == pdfDir + "/../x.pdf"
  {
  }

  /** The title "./x" gives a different path string from "x", though both name one file on disk. */
  lemma CurrentSegmentSplitsPath(pdfDir: string)
    requires pdfDir != [] && pdfDir != "/"
    ensures LocalPath(pdfDir, "./x") != LocalPath(pdfDir, "x")
  {
    CurrentSegmentTitle(pdfDir);
    DotTitlePath(pdfDir, "./x");
    DotTitlePath(pdfDir, "x");
  }

  lemma CurrentSegmentTitle(pdfDir: string)
    ensures Collapsed("./x") && "./x"[0] != Separator && Collapsed("x")
    ensures pdfDir + "/" + "./x" + PdfExtension != pdfDir + "/" + "x" + PdfExtension
  {
    assert |pdfDir + "/" + "./x" + PdfExtension| == |pdfDir| + 8;
  }

  /** A relative title that is already collapsed is joined to the directory with one separator, as written. */
  lemma DotTitlePath(pdfDir: string, title: string)
    requires pdfDir != [] && pdfDir != "/"
    requires Collapsed(title) && title != [] && title[0] != Separator
    ensures LocalPath(pdfDir, title) == pdfDir + "/" + title + PdfExtension
  {
    PdfChildNormal(title);
    var c := title + PdfExtension;
    assert Normalize(c) == c;
    assert c[0] != Separator;
    assert pdfDir + [Separator] + c == pdfDir + "/" + title + PdfExtension;
  }
}
