/**
  The local `books` table and the operations of its data-access object. `SELECT * FROM books` has
  no ORDER BY, so the table is a map from primary key to row; queries hand back the rows in some
  order, with each row exactly once.
 */
module BookDao {
  import opened Books

  /** Every row is stored under its own primary key. */
  predicate KeyedById(t: map<string, BookEntity>) {
    forall k :: k in t ==> t[k].id == k
  }

  type Table = t: map<string, BookEntity> | KeyedById(t) witness map[]

  /** The ids of a list of rows. */
  function IdsOf(bs: seq<BookEntity>): set<string> {
    set b | b in bs :: b.id
  }

  /** No two rows of the list share an id. */
  predicate DistinctIds(bs: seq<BookEntity>) {
    forall i, j :: 0 <= i < j < |bs| ==> bs[i].id != bs[j].id
  }

  /** `rows` holds each row of `t` exactly once, in any order. */
  predicate Lists(rows: seq<BookEntity>, t: Table) {
    && DistinctIds(rows)
    && (forall i :: 0 <= i < |rows| ==> rows[i].id in t && t[rows[i].id] == rows[i])
    && (forall k :: k in t ==> t[k] in rows)
  }

  /** `insertBook` with `OnConflictStrategy.REPLACE`: the row for `b.id` becomes `b`, nothing else moves. */
  function InsertBook(t: Table, b: BookEntity): (r: Table)
    ensures r.Keys == t.Keys + {b.id}
    ensures r[b.id] == b
    ensures forall k :: k in t && k != b.id ==> r[k] == t[k]
  {
    t[b.id := b]
  }

  /** The rows of `bs` by id, a later row replacing an earlier one with the same id. */
  function Latest(bs: seq<BookEntity>): (m: Table)
    ensures m.Keys == IdsOf(bs)
    ensures forall k :: k in m ==> m[k] in bs
    decreases |bs|
  {
    if bs == [] then map[]
    else
      var rest := Latest(bs[1..]);
      ConsFacts(bs);
      if bs[0].id in rest then rest else InsertBook(rest, bs[0])
  }

  /** How a non-empty list splits into its head and tail, for membership and ids. */
  lemma ConsFacts(bs: seq<BookEntity>)
    requires bs != []
    ensures IdsOf(bs) == {bs[0].id} + IdsOf(bs[1..])
    ensures forall b :: b in bs[1..] ==> b in bs
  {
    assert forall b :: b in bs <==> b == bs[0] || b in bs[1..];
  }

  /** Row `i` is the last one in `bs` with its id. */
  predicate LastWithId(bs: seq<BookEntity>, i: int)
    requires 0 <= i < |bs|
  {
    forall j :: i < j < |bs| ==> bs[j].id != bs[i].id
  }

  /** `insertBooks` with REPLACE: each element is inserted in list order. */
  function InsertBooks(t: Table, bs: seq<BookEntity>): (r: Table)
    ensures r == t + Latest(bs)
    decreases |bs|
  {
    if bs == [] then t
    else
      UnionShift(t, bs[0], Latest(bs[1..]), Latest(bs));
      InsertBooks(InsertBook(t, bs[0]), bs[1..])
  }

  /** Inserting a row and then merging a map is merging the map with the row added where it is missing. */
  lemma UnionShift(t: Table, b: BookEntity, m: Table, m': Table)
    requires m' == if b.id in m then m else InsertBook(m, b)
    ensures InsertBook(t, b) + m == t + m'
  {
    var l := InsertBook(t, b) + m;
    var r := t + m';
    assert l.Keys == r.Keys;
    forall k | k in l ensures l[k] == r[k] {
    }
  }

  /** `updateBookSyncStatus`: an UPDATE ... WHERE id = :bookId, so a missing id changes nothing. */
  function UpdateBookSyncStatus(t: Table, id: string, fileUrl: string, isSynced: bool): (r: Table)
    ensures r.Keys == t.Keys
    ensures id in t ==> r[id] == BookEntity(id, t[id].title, t[id].author, fileUrl, isSynced)
    ensures forall k :: k in t && k != id ==> r[k] == t[k]
    ensures id !in t ==> r == t
  {
    if id in t then t[id := t[id].(fileUrl := fileUrl, isSynced := isSynced)] else t
  }

  /** `deleteBook` with `@Delete`: matches on the primary key only, whatever the other fields hold. */
  function DeleteBook(t: Table, e: BookEntity): (r: Table)
    ensures r.Keys == t.Keys - {e.id}
    ensures forall k :: k in r ==> r[k] == t[k]
  {
    t - {e.id}
  }

  /** `clearBooks`: DELETE FROM books. */
  function ClearBooks(t: Table): (r: Table)
    ensures forall k :: k !in r
  {
    map[]
  }

  /** The rows the `WHERE isSynced = 0` query selects. */
  function Unsynced(t: Table): (r: Table)
    ensures forall k :: k in r <==> k in t && !t[k].isSynced
    ensures forall k :: k in r ==> r[k] == t[k]
  {
    map k | k in t && !t[k].isSynced :: t[k]
  }

  /** Reads every row of `t` once, in an order the table does not fix. */
  method Enumerate(t: Table) returns (rows: seq<BookEntity>)
    ensures Lists(rows, t)
  {
    rows := [];
    var rest: map<string, BookEntity> := t;
    while rest != map[]
      invariant rest.Keys <= t.Keys
      invariant forall i :: 0 <= i < |rows| ==> rows[i].id in t && t[rows[i].id] == rows[i]
      invariant forall i :: 0 <= i < |rows| ==> rows[i].id !in rest
      invariant DistinctIds(rows)
      invariant forall k :: k in t && k !in rest ==> t[k] in rows
      decreases |rest|
    {
      assert rest.Keys != {};
      var k :| k in rest;
      rows := rows + [t[k]];
      rest := rest - {k};
    }
  }

  /** `getAllBooks`: SELECT * FROM books. */
  method GetAllBooks(t: Table) returns (rows: seq<BookEntity>)
    ensures Lists(rows, t)
    ensures |rows| == |t|
  {
    rows := Enumerate(t);
    ListsCardinality(rows, t);
  }

  /** `getUnsyncedBooks`: exactly the rows with `isSynced = false`, each once. */
  method GetUnsyncedBooks(t: Table) returns (rows: seq<BookEntity>)
    ensures Lists(rows, Unsynced(t))
    ensures forall i :: 0 <= i < |rows| ==> rows[i].id in t && t[rows[i].id] == rows[i] && !rows[i].isSynced
    ensures forall k :: k in t && !t[k].isSynced ==> t[k] in rows
  {
    rows := Enumerate(Unsynced(t));
  }

  /** A listing with distinct ids has one element per row. */
  lemma {:induction false} ListsCardinality(rows: seq<BookEntity>, t: Table)
    requires Lists(rows, t)
    ensures |rows| == |t|
  {
    var ids := set i | 0 <= i < |rows| :: rows[i].id;
    assert ids == t.Keys by {
      forall k | k in t ensures k in ids {
        var i :| 0 <= i < |rows| && rows[i] == t[k];
      }
    }
    IndexSetSize(rows);
  }

  /** Distinct ids make the index-to-id map injective, so there are as many ids as rows. */
  lemma {:induction false} IndexSetSize(rows: seq<BookEntity>)
    requires DistinctIds(rows)
    ensures |set i | 0 <= i < |rows| :: rows[i].id| == |rows|
    decreases |rows|
  {
    if rows != [] {
      var n := |rows| - 1;
      var front := rows[..n];
      IndexSetSize(front);
      var s := set i | 0 <= i < |rows| :: rows[i].id;
      var s' := set i | 0 <= i < |front| :: front[i].id;
      assert s == s' + {rows[n].id};
      assert rows[n].id !in s';
    }
  }

  /** Applying the same bulk insert twice gives the table the first application gave. */
  lemma InsertBooksIdempotent(t: Table, bs: seq<BookEntity>)
    ensures InsertBooks(InsertBooks(t, bs), bs) == InsertBooks(t, bs)
  {
    assert (t + Latest(bs)) + Latest(bs) == t + Latest(bs);
  }

  /** In a bulk insert the last row with a given id wins; rows with ids not in the list stay. */
  lemma {:induction false} InsertBooksLastWins(t: Table, bs: seq<BookEntity>)
    ensures forall i :: 0 <= i < |bs| && LastWithId(bs, i) ==> InsertBooks(t, bs)[bs[i].id] == bs[i]
    ensures forall k :: k in t && k !in IdsOf(bs) ==> InsertBooks(t, bs)[k] == t[k]
  {
    LatestLastWins(bs);
  }

  lemma {:induction false} LatestLastWins(bs: seq<BookEntity>)
    ensures forall i :: 0 <= i < |bs| && LastWithId(bs, i) ==> Latest(bs)[bs[i].id] == bs[i]
    decreases |bs|
  {
    if bs != [] {
      var rest := bs[1..];
      LatestLastWins(rest);
      forall i | 0 <= i < |bs| && LastWithId(bs, i)
        ensures Latest(bs)[bs[i].id] == bs[i]
      {
        if i == 0 {
          assert bs[0].id !in IdsOf(rest) by {
            forall b | b in rest ensures b.id != bs[0].id {
              var j :| 0 <= j < |rest| && rest[j] == b;
              assert bs[j + 1] == b;
            }
          }
        } else {
          assert LastWithId(rest, i - 1) by {
            forall j | i - 1 < j < |rest| ensures rest[j].id != rest[i - 1].id {
              assert rest[j] == bs[j + 1];
            }
          }
        }
      }
    }
  }

  /** Reinserting a row right after deleting it restores the table exactly. */
  lemma ReinsertRestores(t: Table, e: BookEntity)
    requires e.id in t && t[e.id] == e
    ensures InsertBook(DeleteBook(t, e), e) == t
  {
  }

  /** Once a row is marked synced it is no longer among the unsynced rows. */
  lemma MarkedSyncedLeavesUnsynced(t: Table, id: string, fileUrl: string)
    ensures id !in Unsynced(UpdateBookSyncStatus(t, id, fileUrl, true))
    ensures Unsynced(UpdateBookSyncStatus(t, id, fileUrl, true)) == Unsynced(t) - {id}
  {
  }

  /** The unsynced rows are a sub-table of the whole table. */
  lemma UnsyncedIsSubTable(t: Table)
    ensures Unsynced(t).Keys <= t.Keys
    ensures forall k :: k in Unsynced(t) ==> Unsynced(t)[k] == t[k] && !t[k].isSynced
  {
  }
}
