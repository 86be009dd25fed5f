/**
 * A KOReader reading-statistics database and the book merge that Ko-Merge runs on it.
 *
 * `page_stat_data` is a map from `(id_book, page, start_time)` to `(duration, total_pages)`
 * (the table's UNIQUE key), `book` a map from id to row. `merge_books` copies every event of
 * each merged id under the kept id with a max-on-conflict upsert, deletes the merged book
 * rows (but not their events) and recomputes the kept book's totals, all in one transaction.
 */
module StatsDb {
  import opened Wrappers

  datatype EventKey = EventKey(book: int, page: int, start: int)

  datatype Event = Event(duration: int, totalPages: int)

  type Events = map<EventKey, Event>

  /** A `book` row; `authors` and `series` are NULL-able. */
  datatype Book = Book(
    title: string,
    md5: string,
    authors: Option<string>,
    series: Option<string>,
    totalReadTime: int,
    totalReadPages: int)

  datatype Db = Db(books: map<int, Book>, events: Events)

  /**
   * The content of a `.sqlite3` file: either not an SQLite database at all, or one with
   * its table names, the column names of its `book` table, and its rows.
   */
  datatype DbFile = Corrupt | Sqlite(tables: set<string>, bookColumns: set<string>, db: Db)

  datatype DbError =
    | NotADatabase
    | MissingTables(missing: set<string>)
    | MissingBookColumns
    | StatementFailed(index: nat)

  const RequiredTables: set<string> := {"book", "page_stat_data"}

  function Max(a: int, b: int): int {
    if a < b then b else a
  }

  function Elems(ids: seq<int>): (s: set<int>)
    ensures forall x :: x in s <==> x in ids
  {
    set x | x in ids
  }

  // ---------------------------------------------------------------------------
  // validate_db and fetch_books

  lemma DifferenceNonEmpty(a: set<string>, b: set<string>)
    requires !(a <= b)
    ensures a - b != {}
  {
    var t :| t in a && t !in b;
    assert t in a - b;
  }

  /**
   * `validate_db` (main.py and app.py): an SQLite file whose tables include `book` and
   * `page_stat_data` and whose `book` table has `total_read_time` and `md5` columns.
   * `None` means valid; a file that is not a database fails with `NotADatabase`, which the
   * upload handler reports differently from the two schema errors.
   */
  function ValidateDb(f: DbFile): (problem: Option<DbError>)
    ensures problem.None? <==>
              f.Sqlite? && RequiredTables <= f.tables &&
              "total_read_time" in f.bookColumns && "md5" in f.bookColumns
    ensures problem == Some(NotADatabase) <==> f.Corrupt?
    ensures problem.Some? && problem.value.MissingTables? ==>
              f.Sqlite? && problem.value.missing == RequiredTables - f.tables && problem.value.missing != {}
    ensures problem == Some(MissingBookColumns) ==> f.Sqlite? && RequiredTables <= f.tables
  {
    match f
    case Corrupt => Some(NotADatabase)
    case Sqlite(tables, cols, _) =>
      if !(RequiredTables <= tables) then
        DifferenceNonEmpty(RequiredTables, tables);
        Some(MissingTables(RequiredTables - tables))
      else if !("total_read_time" in cols && "md5" in cols) then Some(MissingBookColumns)
      else None
  }

  /** One entry of the list `fetch_books` returns. */
  datatype BookRow = BookRow(
    id: int,
    title: string,
    totalReadTime: int,
    md5: string,
    authors: Option<string>,
    series: Option<string>)

  /** The row for book `id`: `authors` defaults to "Unknown Author" and `series` to None when the column is absent. */
  function RowOf(id: int, b: Book, cols: set<string>): BookRow {
    BookRow(id, b.title, b.totalReadTime, b.md5,
            if "authors" in cols then b.authors else Some("Unknown Author"),
            if "series" in cols then b.series else None)
  }

  const FetchedColumns: set<string> := {"id", "title", "total_read_time", "md5"}

  /** The ids of a key set in ascending order, as `ORDER BY id` returns them. */
  method SortedIds(keys: set<int>) returns (ids: seq<int>)
    ensures |ids| == |keys|
    ensures forall i, j :: 0 <= i < j < |ids| ==> ids[i] < ids[j]
    ensures forall x :: x in ids <==> x in keys
  {
    var todo := keys;
    ids := [];
    while todo != {}
      invariant todo <= keys
      invariant |ids| + |todo| == |keys|
      invariant forall i, j :: 0 <= i < j < |ids| ==> ids[i] < ids[j]
      invariant forall x :: x in ids <==> x in keys && x !in todo
      invariant forall i, t :: 0 <= i < |ids| && t in todo ==> ids[i] < t
      decreases |todo|
    {
      SetHasMin(todo);
      var id :| id in todo && forall t :: t in todo ==> id <= t;
      ids := ids + [id];
      todo := todo - {id};
    }
  }

  /** Some element of a nonempty set. */
  ghost function PickOne(s: set<int>): (x: int)
    requires s != {}
    ensures x in s
  {
    var m := map x | x in s :: x;
    assert m.Keys == s;
    var kv :| kv in m.Items;
    kv.0
  }

  lemma {:induction false} SetHasMin(s: set<int>)
    requires s != {}
    ensures exists m :: m in s && forall t :: t in s ==> m <= t
    decreases |s|
  {
    var x := PickOne(s);
    if s != {x} {
      var rest := s - {x};
      SetHasMin(rest);
      var m :| m in rest && forall t :: t in rest ==> m <= t;
      var low := if x < m then x else m;
      forall t | t in s ensures low <= t {
        if t != x {
          assert t in rest;
        }
      }
    } else {
      assert forall t :: t in s ==> t == x;
    }
  }

  /** Whether `f` can be listed: the query selects `id`, `title`, `total_read_time` and `md5` from `book`. */
  predicate Listable(f: DbFile) {
    f.Sqlite? && "book" in f.tables && FetchedColumns <= f.bookColumns
  }

  /** `rows` lists every book of `f` once, in ascending id order, with the column defaults applied. */
  ghost predicate IsListing(rows: seq<BookRow>, f: DbFile)
    requires f.Sqlite?
  {
    && |rows| == |f.db.books|
    && (forall i, j :: 0 <= i < j < |rows| ==> rows[i].id < rows[j].id)
    && (forall i :: 0 <= i < |rows| ==>
          rows[i].id in f.db.books && rows[i] == RowOf(rows[i].id, f.db.books[rows[i].id], f.bookColumns))
    && (forall id :: id in f.db.books ==> exists i :: 0 <= i < |rows| && rows[i].id == id)
  }

  /**
   * `fetch_books`: one row per book in ascending id order, with the column defaults.
   * A file whose query fails gives `None`.
   */
  method FetchBooks(f: DbFile) returns (rows: Option<seq<BookRow>>)
    ensures rows.Some? <==> Listable(f)
    ensures rows.Some? ==> IsListing(rows.value, f)
  {
    if !Listable(f) {
      return None;
    }
    var books := f.db.books;
    var ids := SortedIds(books.Keys);
    var out: seq<BookRow> := [];
    for i := 0 to |ids|
      invariant |out| == i
      invariant forall j :: 0 <= j < i ==> out[j] == RowOf(ids[j], books[ids[j]], f.bookColumns)
    {
      out := out + [RowOf(ids[i], books[ids[i]], f.bookColumns)];
    }
    forall id | id in books ensures exists i :: 0 <= i < |out| && out[i].id == id {
      var i :| 0 <= i < |ids| && ids[i] == id;
      assert out[i].id == id;
    }
    return Some(out);
  }

  // ---------------------------------------------------------------------------
  // merge_books: the upsert statement

  /** The key `k` moved to book `id`. */
  function Retag(k: EventKey, id: int): EventKey {
    k.(book := id)
  }

  function MaxEvent(a: Event, b: Event): Event {
    Event(Max(a.duration, b.duration), Max(a.totalPages, b.totalPages))
  }

  /** The keys of book `id`'s events. */
  function BookKeys(e: Events, id: int): set<EventKey> {
    set k | k in e && k.book == id
  }

  /**
   * The insert-select with an on-conflict update that merge_books issues for one merged id:
   * every row of `mid`, as the table stood before the statement, is inserted under `keep`,
   * and a clash on (book, page, start time) keeps the larger duration and the larger page count.
   */
  function Upsert(e: Events, keep: int, mid: int): Events {
    map k | k in e.Keys + (set j | j in BookKeys(e, mid) :: Retag(j, keep)) ::
      if k.book == keep && Retag(k, mid) in e then
        (if k in e then MaxEvent(e[k], e[Retag(k, mid)]) else e[Retag(k, mid)])
      else e[k]
  }

  /**
   * The upsert copies each event of `mid` under `keep`: a key only the merged book has is
   * copied unchanged, a key only the kept book has keeps its row, a shared key takes the
   * field-wise maximum, and rows of every other book are untouched.
   */
  lemma UpsertCases(e: Events, keep: int, mid: int, k: EventKey)
    ensures k in Upsert(e, keep, mid) <==> k in e || (k.book == keep && Retag(k, mid) in e)
    ensures k in e && (k.book != keep || Retag(k, mid) !in e) ==> Upsert(e, keep, mid)[k] == e[k]
    ensures k !in e && k.book == keep && Retag(k, mid) in e ==> Upsert(e, keep, mid)[k] == e[Retag(k, mid)]
    ensures k in e && k.book == keep && Retag(k, mid) in e ==>
              Upsert(e, keep, mid)[k] == MaxEvent(e[k], e[Retag(k, mid)])
  {
    if k.book == keep && Retag(k, mid) in e {
      assert Retag(Retag(k, mid), keep) == k;
    }
  }

  /** Merging a book into itself changes nothing: every clash is with the row itself. */
  lemma UpsertSelf(e: Events, keep: int)
    ensures Upsert(e, keep, keep) == e
  {
    var r := Upsert(e, keep, keep);
    forall k | k in r ensures k in e && r[k] == e[k] {
      UpsertCases(e, keep, keep, k);
      assert k.book == keep ==> Retag(k, keep) == k;
    }
    forall k | k in e ensures k in r {
      UpsertCases(e, keep, keep, k);
    }
  }

  /** The events after merging `ids` into `keep`, one upsert per id in list order. */
  function MergeEvents(e: Events, keep: int, ids: seq<int>): Events
    decreases |ids|
  {
    if ids == [] then e
    else Upsert(MergeEvents(e, keep, ids[..|ids| - 1]), keep, ids[|ids| - 1])
  }

  // ---------------------------------------------------------------------------
  // merge_books: what the merged table is, independently of the order of the upserts

  /**
   * `r` is `e` with the events of the books in `S` merged under `keep`: other books' rows
   * are untouched; a key of `keep` exists iff some book of `S` has that page and start time;
   * its duration and page count each dominate every such source row and equal one of them.
   */
  ghost predicate IsMergeOf(r: Events, e: Events, keep: int, S: set<int>) {
    && (forall k :: k in r && k.book != keep ==> k in e && r[k] == e[k])
    && (forall k :: k in e && k.book != keep ==> k in r)
    && (forall k, s :: s in S && Retag(k, s) in e && k.book == keep ==> k in r)
    && (forall k :: k in r && k.book == keep ==> exists s :: s in S && Retag(k, s) in e)
    && (forall k, s :: k in r && k.book == keep && s in S && Retag(k, s) in e ==>
          e[Retag(k, s)].duration <= r[k].duration && e[Retag(k, s)].totalPages <= r[k].totalPages)
    && (forall k :: k in r && k.book == keep ==>
          exists s :: s in S && Retag(k, s) in e && e[Retag(k, s)].duration == r[k].duration)
    && (forall k :: k in r && k.book == keep ==>
          exists s :: s in S && Retag(k, s) in e && e[Retag(k, s)].totalPages == r[k].totalPages)
  }

  lemma MergeOfNothing(e: Events, keep: int)
    ensures IsMergeOf(e, e, keep, {keep})
  {
    forall k | k in e && k.book == keep
      ensures Retag(k, keep) == k
    {
    }
  }

  /** One more upsert extends the merged set of books by `mid`. */
  lemma UpsertStep(r0: Events, e: Events, keep: int, S: set<int>, mid: int)
    requires keep in S && IsMergeOf(r0, e, keep, S)
    ensures IsMergeOf(Upsert(r0, keep, mid), e, keep, S + {mid})
  {
    if mid == keep {
      UpsertSelf(r0, keep);
      assert S + {mid} == S;
      return;
    }
    var r := Upsert(r0, keep, mid);
    var S' := S + {mid};
    forall k | k in r && k.book != keep ensures k in e && r[k] == e[k] {
      UpsertCases(r0, keep, mid, k);
    }
    forall k | k in e && k.book != keep ensures k in r {
      UpsertCases(r0, keep, mid, k);
    }
    forall k, s | s in S' && Retag(k, s) in e && k.book == keep ensures k in r {
      UpsertCases(r0, keep, mid, k);
      if s == mid {
        assert Retag(k, mid) in r0;
      }
    }
    forall k | k in r && k.book == keep ensures MergedRow(r, e, k, S') {
      UpsertStepKept(r0, e, keep, S, mid, k);
    }
  }

  /** The row of kept key `k` in `r` is the field-wise maximum over the source rows of the books in `S`. */
  ghost predicate MergedRow(r: Events, e: Events, k: EventKey, S: set<int>)
    requires k in r
  {
    && (exists s :: s in S && Retag(k, s) in e)
    && (forall s :: s in S && Retag(k, s) in e ==>
          e[Retag(k, s)].duration <= r[k].duration && e[Retag(k, s)].totalPages <= r[k].totalPages)
    && (exists s :: s in S && Retag(k, s) in e && e[Retag(k, s)].duration == r[k].duration)
    && (exists s :: s in S && Retag(k, s) in e && e[Retag(k, s)].totalPages == r[k].totalPages)
  }

  /** The row of one key of the kept book after one more upsert. */
  lemma UpsertStepKept(r0: Events, e: Events, keep: int, S: set<int>, mid: int, k: EventKey)
    requires keep in S && mid != keep && IsMergeOf(r0, e, keep, S)
    requires k.book == keep && k in Upsert(r0, keep, mid)
    ensures MergedRow(Upsert(r0, keep, mid), e, k, S + {mid})
  {
    var r := Upsert(r0, keep, mid);
    UpsertCases(r0, keep, mid, k);
    var km := Retag(k, mid);
    assert km.book == mid;
    assert km in r0 <==> km in e;
    assert km in r0 ==> r0[km] == e[km];
    if k in r0 {
      assert MergedRow(r0, e, k, S);
      if km in r0 {
        UpsertKeptBoth(r0, r, e, k, S, mid);
      } else {
        UpsertKeptOld(r0, r, e, k, S, mid);
      }
    } else {
      assert forall s :: s in S ==> Retag(k, s) !in e;
      UpsertKeptNew(r, e, k, S, mid);
    }
  }

  /** A key both books have: the maximum of the row so far and the merged book's row. */
  lemma UpsertKeptBoth(r0: Events, r: Events, e: Events, k: EventKey, S: set<int>, mid: int)
    requires k in r0 && MergedRow(r0, e, k, S) && Retag(k, mid) in e
    requires k in r && r[k] == MaxEvent(r0[k], e[Retag(k, mid)])
    ensures MergedRow(r, e, k, S + {mid})
  {
    var km := Retag(k, mid);
    var sd :| sd in S && Retag(k, sd) in e && e[Retag(k, sd)].duration == r0[k].duration;
    var sp :| sp in S && Retag(k, sp) in e && e[Retag(k, sp)].totalPages == r0[k].totalPages;
    if r0[k].duration < e[km].duration {
      assert e[Retag(k, mid)].duration == r[k].duration;
    } else {
      assert e[Retag(k, sd)].duration == r[k].duration;
    }
    if r0[k].totalPages < e[km].totalPages {
      assert e[Retag(k, mid)].totalPages == r[k].totalPages;
    } else {
      assert e[Retag(k, sp)].totalPages == r[k].totalPages;
    }
  }

  /** A key only the rows so far have: unchanged. */
  lemma UpsertKeptOld(r0: Events, r: Events, e: Events, k: EventKey, S: set<int>, mid: int)
    requires k in r0 && MergedRow(r0, e, k, S) && Retag(k, mid) !in e
    requires k in r && r[k] == r0[k]
    ensures MergedRow(r, e, k, S + {mid})
  {
    var sd :| sd in S && Retag(k, sd) in e && e[Retag(k, sd)].duration == r0[k].duration;
    var sp :| sp in S && Retag(k, sp) in e && e[Retag(k, sp)].totalPages == r0[k].totalPages;
    assert e[Retag(k, sd)].duration == r[k].duration;
    assert e[Retag(k, sp)].totalPages == r[k].totalPages;
  }

  /** A key only the merged book has: its row copied. */
  lemma UpsertKeptNew(r: Events, e: Events, k: EventKey, S: set<int>, mid: int)
    requires forall s :: s in S ==> Retag(k, s) !in e
    requires Retag(k, mid) in e && k in r && r[k] == e[Retag(k, mid)]
    ensures MergedRow(r, e, k, S + {mid})
  {
  }

  /** Merging a list of ids merges exactly the set of those ids into `keep`. */
  lemma {:induction false} MergeEventsIsMerge(e: Events, keep: int, ids: seq<int>)
    ensures IsMergeOf(MergeEvents(e, keep, ids), e, keep, {keep} + Elems(ids))
    decreases |ids|
  {
    if ids == [] {
      MergeOfNothing(e, keep);
      assert {keep} + Elems(ids) == {keep};
    } else {
      var init := ids[..|ids| - 1];
      MergeEventsIsMerge(e, keep, init);
      UpsertStep(MergeEvents(e, keep, init), e, keep, {keep} + Elems(init), ids[|ids| - 1]);
      assert ids == init + [ids[|ids| - 1]];
      assert {keep} + Elems(init) + {ids[|ids| - 1]} == {keep} + Elems(ids);
    }
  }

  /** The merged table is determined by the original table, `keep` and the set of merged books. */
  lemma MergeOfUnique(r1: Events, r2: Events, e: Events, keep: int, S: set<int>)
    requires IsMergeOf(r1, e, keep, S) && IsMergeOf(r2, e, keep, S)
    ensures r1 == r2
  {
    forall k | k in r1 ensures k in r2 && r1[k] == r2[k] {
      MergeOfUniqueAt(r1, r2, e, keep, S, k);
    }
    forall k | k in r2 ensures k in r1 {
      MergeOfUniqueAt(r2, r1, e, keep, S, k);
    }
  }

  lemma MergeOfUniqueAt(r1: Events, r2: Events, e: Events, keep: int, S: set<int>, k: EventKey)
    requires IsMergeOf(r1, e, keep, S) && IsMergeOf(r2, e, keep, S) && k in r1
    ensures k in r2 && r1[k] == r2[k]
  {
    if k.book == keep {
      var s0 :| s0 in S && Retag(k, s0) in e;
      assert k in r2;
      MergeOfUniqueKept(r1, r2, e, keep, S, k);
    }
  }

  /** Both fields of a kept key are the maximum over the same source rows. */
  lemma MergeOfUniqueKept(r1: Events, r2: Events, e: Events, keep: int, S: set<int>, k: EventKey)
    requires IsMergeOf(r1, e, keep, S) && IsMergeOf(r2, e, keep, S)
    requires k in r1 && k in r2 && k.book == keep
    ensures r1[k] == r2[k]
  {
    MergeDurationBelow(r1, r2, e, keep, S, k);
    MergeDurationBelow(r2, r1, e, keep, S, k);
    MergePagesBelow(r1, r2, e, keep, S, k);
    MergePagesBelow(r2, r1, e, keep, S, k);
  }

  lemma MergeDurationBelow(r1: Events, r2: Events, e: Events, keep: int, S: set<int>, k: EventKey)
    requires IsMergeOf(r1, e, keep, S) && IsMergeOf(r2, e, keep, S)
    requires k in r1 && k in r2 && k.book == keep
    ensures r1[k].duration <= r2[k].duration
  {
    var d1 :| d1 in S && Retag(k, d1) in e && e[Retag(k, d1)].duration == r1[k].duration;
  }

  lemma MergePagesBelow(r1: Events, r2: Events, e: Events, keep: int, S: set<int>, k: EventKey)
    requires IsMergeOf(r1, e, keep, S) && IsMergeOf(r2, e, keep, S)
    requires k in r1 && k in r2 && k.book == keep
    ensures r1[k].totalPages <= r2[k].totalPages
  {
    var p1 :| p1 in S && Retag(k, p1) in e && e[Retag(k, p1)].totalPages == r1[k].totalPages;
  }

  /** The order of the merged ids, and repetitions among them, do not matter. */
  lemma MergeOrderIndependent(e: Events, keep: int, ids1: seq<int>, ids2: seq<int>)
    requires Elems(ids1) == Elems(ids2)
    ensures MergeEvents(e, keep, ids1) == MergeEvents(e, keep, ids2)
  {
    MergeEventsIsMerge(e, keep, ids1);
    MergeEventsIsMerge(e, keep, ids2);
    MergeOfUnique(MergeEvents(e, keep, ids1), MergeEvents(e, keep, ids2), e, keep, {keep} + Elems(ids1));
  }

  /** Merging only the kept book into itself leaves the table as it was. */
  lemma MergeIntoSelf(e: Events, keep: int, ids: seq<int>)
    requires forall i :: 0 <= i < |ids| ==> ids[i] == keep
    ensures MergeEvents(e, keep, ids) == e
  {
    MergeEventsIsMerge(e, keep, ids);
    MergeOfNothing(e, keep);
    assert {keep} + Elems(ids) == {keep};
    MergeOfUnique(MergeEvents(e, keep, ids), e, e, keep, {keep});
  }

  // ---------------------------------------------------------------------------
  // merge_books: the totals

  /** `SUM(duration)` over the rows with keys in `s`, 0 for none (the COALESCE). */
  ghost function SumDurations(e: Events, s: set<EventKey>): int
    requires s <= e.Keys
    decreases s
  {
    if s == {} then 0
    else
      var k :| k in s;
      e[k].duration + SumDurations(e, s - {k})
  }

  lemma {:induction false} SumDurationsRemove(e: Events, s: set<EventKey>, k: EventKey)
    requires s <= e.Keys && k in s
    ensures SumDurations(e, s) == e[k].duration + SumDurations(e, s - {k})
    decreases s
  {
    var j :| j in s && SumDurations(e, s) == e[j].duration + SumDurations(e, s - {j});
    if j != k {
      SumDurationsRemove(e, s - {j}, k);
      SumDurationsRemove(e, s - {k}, j);
      assert s - {j} - {k} == s - {k} - {j};
    }
  }

  /** `total_read_time` as recomputed: the sum of the book's event durations. */
  ghost function TotalReadTime(e: Events, id: int): int {
    SumDurations(e, BookKeys(e, id))
  }

  /** The pages of book `id` that have at least one event. */
  function DistinctPages(e: Events, id: int): set<int> {
    set k | k in e && k.book == id :: k.page
  }

  /** The pages that any book of `S` has events for. */
  function PagesOf(e: Events, S: set<int>): set<int> {
    set k | k in e && k.book in S :: k.page
  }

  /**
   * The two aggregate sub-queries of the `UPDATE book SET total_read_time = ..., total_read_pages = ...`,
   * evaluated by a scan over the book's rows.
   */
  method ReadTotals(e: Events, id: int) returns (time: int, pages: nat)
    ensures time == TotalReadTime(e, id)
    ensures pages == |DistinctPages(e, id)|
    ensures BookKeys(e, id) == {} ==> time == 0 && pages == 0
  {
    var todo := BookKeys(e, id);
    var seen: set<int> := {};
    time := 0;
    while todo != {}
      invariant todo <= BookKeys(e, id)
      invariant time + SumDurations(e, todo) == TotalReadTime(e, id)
      invariant seen == set k | k in BookKeys(e, id) && k !in todo :: k.page
      decreases |todo|
    {
      var k :| k in todo;
      SumDurationsRemove(e, todo, k);
      time := time + e[k].duration;
      ghost var before := todo;
      todo := todo - {k};
      assert (set j | j in BookKeys(e, id) && j !in todo :: j.page) ==
             (set j | j in BookKeys(e, id) && j !in before :: j.page) + {k.page};
      seen := seen + {k.page};
    }
    assert seen == DistinctPages(e, id);
    pages := |seen|;
  }

  /** After merging, the kept book's pages are all pages of the kept and merged books. */
  lemma MergedPages(e: Events, keep: int, ids: seq<int>)
    ensures DistinctPages(MergeEvents(e, keep, ids), keep) == PagesOf(e, {keep} + Elems(ids))
  {
    var r := MergeEvents(e, keep, ids);
    var S := {keep} + Elems(ids);
    MergeEventsIsMerge(e, keep, ids);
    forall p | p in DistinctPages(r, keep) ensures p in PagesOf(e, S) {
      var k :| k in r && k.book == keep && k.page == p;
      var s :| s in S && Retag(k, s) in e;
      assert Retag(k, s).book in S && Retag(k, s).page == p;
    }
    forall p | p in PagesOf(e, S) ensures p in DistinctPages(r, keep) {
      var j :| j in e && j.book in S && j.page == p;
      var k := Retag(j, keep);
      assert Retag(k, j.book) == j;
      assert k in r;
    }
  }

  // ---------------------------------------------------------------------------
  // merge_books: the transaction

  const TotalsColumns: set<string> := {"total_read_time", "total_read_pages"}

  /** The database after a successful `merge_books(keep, ids)`. */
  ghost function MergeResult(db: Db, keep: int, ids: seq<int>): Db {
    var events := MergeEvents(db.events, keep, ids);
    var books := db.books - Elems(ids);
    Db(if keep in books
       then books[keep := books[keep].(totalReadTime := TotalReadTime(events, keep),
                                       totalReadPages := |DistinctPages(events, keep)|)]
       else books,
       events)
  }

  /** Whether `merge_books(keep, ids)` commits: statements are numbered upsert 2i, delete 2i+1, update 2n, commit 2n+1. */
  predicate MergeCommits(f: DbFile, ids: seq<int>, failAt: Option<nat>) {
    && f.Sqlite? && RequiredTables <= f.tables && TotalsColumns <= f.bookColumns
    && (failAt.None? || failAt.value > 2 * |ids| + 1)
  }

  /**
   * `merge_books`: inside one transaction, for each merged id an upsert of its events under
   * `keep` and the deletion of its book row, then the recomputation of the kept book's totals.
   * `failAt` names a statement that raises (a locked or full disk, say); any failure, a
   * file that is not a database or a missing table or totals column rolls everything back,
   * so the file keeps its old content and the caller sees an error.
   */
  method MergeBooks(f: DbFile, keep: int, ids: seq<int>, failAt: Option<nat>) returns (r: Result<DbFile, DbError>)
    ensures r.Ok? <==> MergeCommits(f, ids, failAt)
    ensures r.Ok? ==> r.value == f.(db := MergeResult(f.db, keep, ids))
  {
    if f.Corrupt? {
      return Err(NotADatabase);
    }
    if !(RequiredTables <= f.tables) {
      return Err(MissingTables(RequiredTables - f.tables));
    }
    var merged := UpsertAndDelete(f.db, keep, ids, failAt);
    if merged.None? {
      return Err(StatementFailed(failAt.value));
    }
    var events, books := merged.value.events, merged.value.books;
    if !(TotalsColumns <= f.bookColumns) {
      return Err(MissingBookColumns);
    }
    if failAt == Some(2 * |ids|) {
      return Err(StatementFailed(failAt.value));
    }
    var time, pages := ReadTotals(events, keep);
    if keep in books {
      books := books[keep := books[keep].(totalReadTime := time, totalReadPages := pages)];
    }
    if failAt == Some(2 * |ids| + 1) {
      return Err(StatementFailed(failAt.value));
    }
    return Ok(f.(db := Db(books, events)));
  }

  /**
   * The statements of the loop over the merged ids: the upsert of each id's events under
   * `keep`, then the deletion of its book row. None when statement `failAt` raises.
   */
  method UpsertAndDelete(db: Db, keep: int, ids: seq<int>, failAt: Option<nat>) returns (r: Option<Db>)
    ensures r.Some? <==> failAt.None? || failAt.value >= 2 * |ids|
    ensures r.Some? ==> r.value.events == MergeEvents(db.events, keep, ids) && r.value.books == db.books - Elems(ids)
  {
    var events := db.events;
    var books := db.books;
    var i := 0;
    while i < |ids|
      invariant 0 <= i <= |ids|
      invariant events == MergeEvents(db.events, keep, ids[..i])
      invariant books == db.books - Elems(ids[..i])
      invariant failAt.None? || failAt.value >= 2 * i
    {
      if failAt == Some(2 * i) || failAt == Some(2 * i + 1) {
        return None;
      }
      assert ids[..i + 1][..i] == ids[..i];
      assert Elems(ids[..i + 1]) == Elems(ids[..i]) + {ids[i]};
      events := Upsert(events, keep, ids[i]);
      books := books - {ids[i]};
      i := i + 1;
    }
    assert ids[..|ids|] == ids;
    return Some(Db(books, events));
  }

  /**
   * What a committed merge leaves: the merged ids' book rows are gone, every other book row
   * is as it was, every other book's events (the merged ids' included) are kept, and the
   * kept book's totals are the sum of its durations and its count of distinct pages.
   */
  lemma MergeResultFacts(db: Db, keep: int, ids: seq<int>)
    ensures var r := MergeResult(db, keep, ids);
            && (forall id :: id in ids ==> id !in r.books)
            && (forall id :: id in db.books && id != keep && id !in ids ==>
                  id in r.books && r.books[id] == db.books[id])
            && (forall k :: k in db.events && k.book != keep ==> k in r.events && r.events[k] == db.events[k])
            && (keep in r.books <==> keep in db.books && keep !in ids)
            && (keep in r.books ==>
                  r.books[keep].totalReadTime == TotalReadTime(r.events, keep) &&
                  r.books[keep].totalReadPages == |DistinctPages(r.events, keep)|)
  {
    MergeEventsIsMerge(db.events, keep, ids);
  }

  /** Two calls of `merge_books` whose id lists hold the same ids give the same database. */
  lemma MergeResultOrderIndependent(db: Db, keep: int, ids1: seq<int>, ids2: seq<int>)
    requires Elems(ids1) == Elems(ids2)
    ensures MergeResult(db, keep, ids1) == MergeResult(db, keep, ids2)
  {
    MergeOrderIndependent(db.events, keep, ids1, ids2);
  }
}
