/** The KoboDB class: a handle on the device database and its two queries
    (kobodb.py:66-126). The SQL engine is replaced by the meaning of each statement
    (module Query); the rows fetched are then mapped one by one, as the source does. */
module KoboDb {
  import opened Wrappers
  import opened Records
  import opened Query

  /** The two tables of an opened database file. */
  datatype Database = Database(content: seq<ContentRow>, bookmarks: seq<BookmarkRow>)

  /** KoboException, by the operation that raised it. */
  datatype KoboError = ConnectFailed(reason: string) | BooksFailed | BookmarksFailed

  /** Book(r) for every fetched row, in fetch order. */
  function Books(rows: seq<ContentRow>): (r: seq<Book>)
    ensures |r| == |rows|
    ensures forall k :: 0 <= k < |rows| ==> r[k] == MakeBook(rows[k])
  {
    seq(|rows|, k requires 0 <= k < |rows| => MakeBook(rows[k]))
  }

  /** Bookmark(r) for every joined row, in fetch order. */
  function Bookmarks(pairs: seq<(ContentRow, BookmarkRow)>): (r: seq<Bookmark>)
    ensures |r| == |pairs|
    ensures forall k :: 0 <= k < |pairs| ==> r[k] == MakeBookmark(pairs[k].0, pairs[k].1)
  {
    seq(|pairs|, k requires 0 <= k < |pairs| => MakeBookmark(pairs[k].0, pairs[k].1))
  }

  class KoboDB {
    const filename: string
    /** None until connect succeeds. */
    var conn: Option<Database>

    constructor(filename: string)
      ensures this.filename == filename && conn == None
    {
      this.filename := filename;
      conn := None;
    }

    /** connect: `outcome` is what opening the file read-only produced, the tables or the
        reason it failed. A failure leaves the handle as it was. */
    method Connect(outcome: Result<Database, string>) returns (err: Option<KoboError>)
      modifies this
      ensures outcome.Success? ==> conn == Some(outcome.value) && err == None
      ensures outcome.Failure? ==> conn == old(conn) && err == Some(ConnectFailed(outcome.error))
    {
      if outcome.Failure? {
        return Some(ConnectFailed(outcome.error));
      }
      conn := Some(outcome.value);
      err := None;
    }

    /** get_books: before connect the cursor call fails and the failure is re-raised as a
        KoboException; afterwards one Book per selected row, in title order. */
    method GetBooks(title: Option<string>, author: Option<string>, status: Option<int>)
      returns (r: Result<seq<Book>, KoboError>)
      requires Spliceable(BookQuery(title, author, status))
      ensures conn.None? ==> r == Failure(BooksFailed)
      ensures conn.Some? ==> r == Success(Books(SelectBooks(conn.value.content, BookQuery(title, author, status))))
    {
      if conn.None? {
        return Failure(BooksFailed);
      }
      var records := SelectBooks(conn.value.content, BookQuery(title, author, status));
      var lb := FetchBooks(records);
      r := Success(lb);
    }

    /** get_bookmarks: the title and author arguments are accepted and ignored. */
    method GetBookmarks(title: Option<string>, author: Option<string>)
      returns (r: Result<seq<Bookmark>, KoboError>)
      ensures conn.None? ==> r == Failure(BookmarksFailed)
      ensures conn.Some? ==> r == Success(Bookmarks(JoinRows(conn.value.content, conn.value.bookmarks)))
    {
      if conn.None? {
        return Failure(BookmarksFailed);
      }
      var records := JoinRows(conn.value.content, conn.value.bookmarks);
      var lb := FetchBookmarks(records);
      r := Success(lb);
    }
  }

  /** The loop over fetchall() in get_books: one Book per row, appended in fetch order. */
  method FetchBooks(records: seq<ContentRow>) returns (lb: seq<Book>)
    ensures lb == Books(records)
  {
    lb := [];
    for i := 0 to |records|
      invariant |lb| == i
      invariant forall k :: 0 <= k < i ==> lb[k] == MakeBook(records[k])
    {
      lb := lb + [MakeBook(records[i])];
    }
  }

  /** The loop over fetchall() in get_bookmarks: one Bookmark per joined row. */
  method FetchBookmarks(records: seq<(ContentRow, BookmarkRow)>) returns (lb: seq<Bookmark>)
    ensures lb == Bookmarks(records)
  {
    lb := [];
    for i := 0 to |records|
      invariant |lb| == i
      invariant forall k :: 0 <= k < i ==> lb[k] == MakeBookmark(records[k].0, records[k].1)
    {
      lb := lb + [MakeBookmark(records[i].0, records[i].1)];
    }
  }

  /** No book comes back when no row satisfies the query: an empty list, not an error. */
  lemma NoMatchEmpty(db: Database, q: BookQuery)
    requires forall x :: x in db.content ==> !Selected(q, x)
    ensures Books(SelectBooks(db.content, q)) == []
  {
  }

  /** Every bookmark listed belongs to a content row whose ContentID is its VolumeID, and
      takes its book title and author from that row. */
  lemma BookmarkOwner(db: Database, k: nat)
    requires k < |JoinRows(db.content, db.bookmarks)|
    ensures var p := JoinRows(db.content, db.bookmarks)[k];
            var m := Bookmarks(JoinRows(db.content, db.bookmarks))[k];
            p.0 in db.content && p.1 in db.bookmarks && p.0.contentId.Some? && p.0.contentId == p.1.volumeId
            && m.id == p.1.bookmarkId && m.bookTitle == p.0.title && m.bookAuthor == p.0.attribution
  {
    JoinSound(db.content, db.bookmarks, k);
  }
}
