/** What the two SELECT statements of KoboDB compute, stated over in-memory rows:
    the WHERE clause of get_books, its ORDER BY Title, and the inner join of
    get_bookmarks (kobodb.py:96-126). */
module Query {
  import opened Wrappers
  import opened Records
  import opened SqlLike

  /** The optional filters of get_books; None leaves that column unrestricted. */
  datatype BookQuery = BookQuery(title: Option<string>, author: Option<string>, status: Option<int>)

  /** The title and author values are spliced between double quotes into the SQL text;
      a value holding '"' would end that literal and change the statement itself. */
  predicate Spliceable(q: BookQuery)
  {
    (q.title.Some? ==> '"' !in q.title.value) && (q.author.Some? ==> '"' !in q.author.value)
  }

  /** The fixed part of the WHERE clause: a top-level, downloaded, file-backed book. */
  predicate Eligible(r: ContentRow)
  {
    && r.bookId.None?
    && r.contentType == Some(6)
    && (r.isDownloaded == Text("true") || r.isDownloaded == Integer(1))
    && r.contentId.Some? && Like("file%", r.contentId.value)
  }

  /** column LIKE "%v%" when a value is given; NULL never matches. */
  predicate LikeFilter(column: Option<string>, v: Option<string>)
  {
    v.None? || (column.Some? && Like("%" + v.value + "%", column.value))
  }

  /** The optional part of the WHERE clause. */
  predicate MatchesFilters(q: BookQuery, r: ContentRow)
  {
    && LikeFilter(r.title, q.title)
    && LikeFilter(r.attribution, q.author)
    && (q.status.None? || r.readStatus == q.status)
  }

  predicate Selected(q: BookQuery, r: ContentRow)
  {
    Eligible(r) && MatchesFilters(q, r)
  }

  /** Every row r satisfies y <= r in title order. */
  predicate LowerBound(y: ContentRow, s: seq<ContentRow>)
  {
    forall k :: 0 <= k < |s| ==> RowLe(y, s[k])
  }

  /** The rows the WHERE clause keeps, in table order. Its properties are lemmas
      rather than postconditions, so that proofs about it do not carry them. */
  function FilterRows(q: BookQuery, rows: seq<ContentRow>): seq<ContentRow>
    decreases |rows|
  {
    if rows == [] then []
    else
      var rest := FilterRows(q, rows[1..]);
      if Selected(q, rows[0]) then [rows[0]] + rest else rest
  }

  /** Every row that meets the WHERE clause is kept as often as the table holds it,
      and no other row is kept. */
  lemma {:induction false} FilterRowsCount(q: BookQuery, rows: seq<ContentRow>)
    ensures forall x :: multiset(FilterRows(q, rows))[x] == if Selected(q, x) then multiset(rows)[x] else 0
    ensures multiset(FilterRows(q, rows)) <= multiset(rows)
    decreases |rows|
  {
    if rows != [] {
      FilterRowsCount(q, rows[1..]);
      assert rows == [rows[0]] + rows[1..];
    }
  }

  /** Every kept row meets the WHERE clause. */
  lemma {:induction false} FilterRowsSelected(q: BookQuery, rows: seq<ContentRow>)
    ensures forall k :: 0 <= k < |FilterRows(q, rows)| ==> Selected(q, FilterRows(q, rows)[k])
    decreases |rows|
  {
    if rows != [] {
      var rest := FilterRows(q, rows[1..]);
      FilterRowsSelected(q, rows[1..]);
      if Selected(q, rows[0]) {
        var r := [rows[0]] + rest;
        forall k | 0 <= k < |r| ensures Selected(q, r[k]) {
          if k > 0 {
            assert r[k] == rest[k - 1];
          }
        }
      }
    }
  }

  /** Filtering a list already in title order leaves it in title order. */
  lemma {:induction false} FilterKeepsOrder(q: BookQuery, rows: seq<ContentRow>)
    requires SortedByTitle(rows)
    ensures SortedByTitle(FilterRows(q, rows))
    decreases |rows|
  {
    if rows != [] {
      SortedHead(rows);
      FilterKeepsOrder(q, rows[1..]);
      var rest := FilterRows(q, rows[1..]);
      if Selected(q, rows[0]) {
        LowerBoundTail(rows[0], rows);
        FilterRowsCount(q, rows[1..]);
        LowerBoundSub(rows[0], rest, rows[1..]);
        SortedCons(rows[0], rest);
      }
    }
  }

  /** A bound on every row of b bounds every row of a sub-multiset of b. */
  lemma LowerBoundSub(y: ContentRow, a: seq<ContentRow>, b: seq<ContentRow>)
    requires multiset(a) <= multiset(b) && LowerBound(y, b)
    ensures LowerBound(y, a)
  {
    forall k | 0 <= k < |a| ensures RowLe(y, a[k]) {
      assert a[k] in multiset(a);
      assert a[k] in multiset(b);
      var j :| 0 <= j < |b| && b[j] == a[k];
    }
  }

  lemma LowerBoundTail(y: ContentRow, s: seq<ContentRow>)
    requires LowerBound(y, s) && s != []
    ensures LowerBound(y, s[1..]) && RowLe(y, s[0])
  {
    forall k | 0 <= k < |s[1..]| ensures RowLe(y, s[1..][k]) {
      assert s[1..][k] == s[k + 1];
    }
  }

  lemma LowerBoundCons(y: ContentRow, x: ContentRow, s: seq<ContentRow>)
    requires RowLe(y, x) && LowerBound(y, s)
    ensures LowerBound(y, [x] + s)
  {
    forall k | 0 <= k < |[x] + s| ensures RowLe(y, ([x] + s)[k]) {
      if k > 0 {
        assert ([x] + s)[k] == s[k - 1];
      }
    }
  }

  // ---- ORDER BY Title under SQLite's default BINARY collation ----
  // That collation applies when the schema declares content.Title without COLLATE.

  /** Code-point lexicographic order, which is the byte order of the UTF-8 encoding. */
  predicate LexLe(a: string, b: string)
    decreases |a|
  {
    a == [] || (b != [] && (a[0] < b[0] || (a[0] == b[0] && LexLe(a[1..], b[1..]))))
  }

  /** A NULL title sorts before every text. */
  predicate TitleLe(a: Option<string>, b: Option<string>)
  {
    a.None? || (b.Some? && LexLe(a.value, b.value))
  }

  predicate RowLe(x: ContentRow, y: ContentRow)
  {
    TitleLe(x.title, y.title)
  }

  /** Non-decreasing title order. */
  predicate SortedByTitle(s: seq<ContentRow>)
  {
    forall i, j :: 0 <= i < j < |s| ==> RowLe(s[i], s[j])
  }

  lemma {:induction false} LexLeReflexive(a: string)
    ensures LexLe(a, a)
    decreases |a|
  {
    if a != [] {
      LexLeReflexive(a[1..]);
    }
  }

  lemma {:induction false} LexLeTotal(a: string, b: string)
    ensures LexLe(a, b) || LexLe(b, a)
    decreases |a|
  {
    if a != [] && b != [] && a[0] == b[0] {
      LexLeTotal(a[1..], b[1..]);
    }
  }

  lemma {:induction false} LexLeTransitive(a: string, b: string, c: string)
    requires LexLe(a, b) && LexLe(b, c)
    ensures LexLe(a, c)
    decreases |a|
  {
    if a != [] && a[0] == b[0] && b[0] == c[0] {
      LexLeTransitive(a[1..], b[1..], c[1..]);
    }
  }

  lemma RowLeTotal(x: ContentRow, y: ContentRow)
    ensures RowLe(x, y) || RowLe(y, x)
  {
    if x.title.Some? && y.title.Some? {
      LexLeTotal(x.title.value, y.title.value);
    }
  }

  lemma RowLeTransitive(x: ContentRow, y: ContentRow, z: ContentRow)
    requires RowLe(x, y) && RowLe(y, z)
    ensures RowLe(x, z)
  {
    if x.title.Some? {
      LexLeTransitive(x.title.value, y.title.value, z.title.value);
    }
  }

  lemma RowLeReflexive(x: ContentRow)
    ensures RowLe(x, x)
  {
    if x.title.Some? {
      LexLeReflexive(x.title.value);
    }
  }

  lemma LowerBoundTransitive(x: ContentRow, y: ContentRow, s: seq<ContentRow>)
    requires RowLe(x, y) && LowerBound(y, s)
    ensures LowerBound(x, s)
  {
    forall k | 0 <= k < |s| ensures RowLe(x, s[k]) {
      RowLeTransitive(x, y, s[k]);
    }
  }

  lemma SortedCons(x: ContentRow, s: seq<ContentRow>)
    requires LowerBound(x, s) && SortedByTitle(s)
    ensures SortedByTitle([x] + s)
  {
    var t := [x] + s;
    forall i, j | 0 <= i < j < |t| ensures RowLe(t[i], t[j]) {
      assert t[j] == s[j - 1];
      if i > 0 {
        assert t[i] == s[i - 1];
      }
    }
  }

  lemma SortedHead(s: seq<ContentRow>)
    requires SortedByTitle(s) && s != []
    ensures LowerBound(s[0], s) && SortedByTitle(s[1..])
  {
    RowLeReflexive(s[0]);
    forall i, j | 0 <= i < j < |s[1..]| ensures RowLe(s[1..][i], s[1..][j]) {
      assert s[1..][i] == s[i + 1] && s[1..][j] == s[j + 1];
    }
  }

  /** Place x after every row whose title is strictly smaller and before the first
      row it does not exceed. */
  function Insert(x: ContentRow, s: seq<ContentRow>): (r: seq<ContentRow>)
    ensures multiset(r) == multiset(s) + multiset{x}
    decreases |s|
  {
    if s == [] then [x]
    else if RowLe(x, s[0]) then [x] + s
    else
      assert s == [s[0]] + s[1..];
      [s[0]] + Insert(x, s[1..])
  }

  /** Inserting into a list in title order gives a list in title order. */
  lemma {:induction false} InsertKeepsOrder(x: ContentRow, s: seq<ContentRow>)
    requires SortedByTitle(s)
    ensures SortedByTitle(Insert(x, s))
    decreases |s|
  {
    if s != [] {
      SortedHead(s);
      if RowLe(x, s[0]) {
        LowerBoundTransitive(x, s[0], s);
        SortedCons(x, s);
      } else {
        var rest := Insert(x, s[1..]);
        InsertKeepsOrder(x, s[1..]);
        RowLeTotal(x, s[0]);
        LowerBoundTail(s[0], s);
        LowerBoundCons(s[0], x, s[1..]);
        assert multiset(rest) == multiset([x] + s[1..]);
        LowerBoundSub(s[0], rest, [x] + s[1..]);
        SortedCons(s[0], rest);
      }
    }
  }

  /** Insertion sort by title: one of the orders ORDER BY Title may return. Rows with
      equal titles keep their table order. */
  function SortByTitle(s: seq<ContentRow>): (r: seq<ContentRow>)
    ensures SortedByTitle(r)
    ensures multiset(r) == multiset(s)
    decreases |s|
  {
    if s == [] then [] else
      assert s == [s[0]] + s[1..];
      var rest := SortByTitle(s[1..]);
      InsertKeepsOrder(s[0], rest);
      Insert(s[0], rest)
  }

  /** The rows get_books receives from fetchall(): the selected rows, each as often as
      the table holds it, ordered by title. */
  function SelectBooks(content: seq<ContentRow>, q: BookQuery): (r: seq<ContentRow>)
    ensures SortedByTitle(r)
    ensures forall x :: multiset(r)[x] == if Selected(q, x) then multiset(content)[x] else 0
    ensures forall x :: x in r <==> x in content && Selected(q, x)
  {
    var r := SortByTitle(FilterRows(q, content));
    FilterRowsCount(q, content);
    assert forall x :: x in r <==> x in multiset(r);
    r
  }

  // ---- narrowing a query ----

  /** q2 keeps every filter q1 sets, and may set more. */
  predicate Narrows(q2: BookQuery, q1: BookQuery)
  {
    && (q1.title.None? || q1.title == q2.title)
    && (q1.author.None? || q1.author == q2.author)
    && (q1.status.None? || q1.status == q2.status)
  }

  lemma FilterCons(q: BookQuery, y: ContentRow, s: seq<ContentRow>)
    ensures FilterRows(q, [y] + s) == if Selected(q, y) then [y] + FilterRows(q, s) else FilterRows(q, s)
  {
    assert ([y] + s)[0] == y && ([y] + s)[1..] == s;
  }

  lemma {:induction false} FilterInsert(q: BookQuery, x: ContentRow, t: seq<ContentRow>)
    requires SortedByTitle(t)
    ensures FilterRows(q, Insert(x, t)) == if Selected(q, x) then Insert(x, FilterRows(q, t)) else FilterRows(q, t)
    decreases |t|
  {
    if t == [] || RowLe(x, t[0]) {
      FilterInsertFront(q, x, t);
    } else {
      SortedHead(t);
      FilterInsert(q, x, t[1..]);
      FilterInsertStep(q, x, t);
    }
  }

  /** x goes in front of t, and in front of what the filter keeps of t. */
  lemma FilterInsertFront(q: BookQuery, x: ContentRow, t: seq<ContentRow>)
    requires SortedByTitle(t) && (t == [] || RowLe(x, t[0]))
    ensures FilterRows(q, Insert(x, t)) == if Selected(q, x) then Insert(x, FilterRows(q, t)) else FilterRows(q, t)
  {
    var f := FilterRows(q, t);
    assert Insert(x, t) == [x] + t;
    FilterCons(q, x, t);
    if Selected(q, x) && f != [] {
      SortedHead(t);
      FilterRowsCount(q, t);
      LowerBoundSub(t[0], f, t);
      RowLeTransitive(x, t[0], f[0]);
    }
  }

  /** x goes past the head of t: the head is filtered on its own and x into the tail. */
  lemma FilterInsertStep(q: BookQuery, x: ContentRow, t: seq<ContentRow>)
    requires t != [] && !RowLe(x, t[0])
    requires FilterRows(q, Insert(x, t[1..])) ==
             if Selected(q, x) then Insert(x, FilterRows(q, t[1..])) else FilterRows(q, t[1..])
    ensures FilterRows(q, Insert(x, t)) == if Selected(q, x) then Insert(x, FilterRows(q, t)) else FilterRows(q, t)
  {
    if Selected(q, x) {
      InsertKeptPastHead(q, x, t);
    } else {
      InsertDroppedPastHead(q, x, t);
    }
  }

  /** A kept row inserted past the head lands past the head of the filtered list too. */
  lemma InsertKeptPastHead(q: BookQuery, x: ContentRow, t: seq<ContentRow>)
    requires t != [] && !RowLe(x, t[0]) && Selected(q, x)
    requires FilterRows(q, Insert(x, t[1..])) == Insert(x, FilterRows(q, t[1..]))
    ensures FilterRows(q, Insert(x, t)) == Insert(x, FilterRows(q, t))
  {
    assert t == [t[0]] + t[1..];
    assert Insert(x, t) == [t[0]] + Insert(x, t[1..]);
    if Selected(q, t[0]) {
      InsertKeptPastKeptHead(q, x, t[0], t[1..]);
    } else {
      InsertKeptPastDroppedHead(q, x, t[0], t[1..]);
    }
  }

  lemma InsertKeptPastKeptHead(q: BookQuery, x: ContentRow, y: ContentRow, ys: seq<ContentRow>)
    requires !RowLe(x, y) && Selected(q, x) && Selected(q, y)
    requires FilterRows(q, Insert(x, ys)) == Insert(x, FilterRows(q, ys))
    ensures FilterRows(q, [y] + Insert(x, ys)) == Insert(x, FilterRows(q, [y] + ys))
  {
    var f := FilterRows(q, ys);
    FilterCons(q, y, Insert(x, ys));
    FilterCons(q, y, ys);
    InsertAfter(x, y, f);
  }

  lemma InsertKeptPastDroppedHead(q: BookQuery, x: ContentRow, y: ContentRow, ys: seq<ContentRow>)
    requires !Selected(q, y)
    requires FilterRows(q, Insert(x, ys)) == Insert(x, FilterRows(q, ys))
    ensures FilterRows(q, [y] + Insert(x, ys)) == Insert(x, FilterRows(q, [y] + ys))
  {
    FilterCons(q, y, Insert(x, ys));
    FilterCons(q, y, ys);
  }

  /** A dropped row inserted anywhere leaves the filtered list as it was. */
  lemma InsertDroppedPastHead(q: BookQuery, x: ContentRow, t: seq<ContentRow>)
    requires t != [] && !RowLe(x, t[0]) && !Selected(q, x)
    requires FilterRows(q, Insert(x, t[1..])) == FilterRows(q, t[1..])
    ensures FilterRows(q, Insert(x, t)) == FilterRows(q, t)
  {
    var y, ys := t[0], t[1..];
    assert t == [y] + ys;
    assert Insert(x, t) == [y] + Insert(x, ys);
    FilterCons(q, y, Insert(x, ys));
    FilterCons(q, y, ys);
  }

  /** A row placed after a smaller head goes into the tail. */
  lemma InsertAfter(x: ContentRow, y: ContentRow, s: seq<ContentRow>)
    requires !RowLe(x, y)
    ensures Insert(x, [y] + s) == [y] + Insert(x, s)
  {
    assert ([y] + s)[0] == y && ([y] + s)[1..] == s;
  }

  /** Filtering a sorted list is sorting the filtered list. */
  lemma {:induction false} FilterSort(q: BookQuery, s: seq<ContentRow>)
    ensures FilterRows(q, SortByTitle(s)) == SortByTitle(FilterRows(q, s))
    decreases |s|
  {
    if s != [] {
      FilterSort(q, s[1..]);
      FilterInsert(q, s[0], SortByTitle(s[1..]));
      var f := FilterRows(q, s[1..]);
      if Selected(q, s[0]) {
        assert ([s[0]] + f)[0] == s[0] && ([s[0]] + f)[1..] == f;
      }
    }
  }

  lemma {:induction false} FilterTwice(q2: BookQuery, q1: BookQuery, s: seq<ContentRow>)
    requires Narrows(q2, q1)
    ensures FilterRows(q2, FilterRows(q1, s)) == FilterRows(q2, s)
    decreases |s|
  {
    if s != [] {
      var x, xs := s[0], s[1..];
      FilterTwice(q2, q1, xs);
      NarrowsSelected(q2, q1, x);
      var f := FilterRows(q1, xs);
      if Selected(q1, x) {
        assert FilterRows(q1, s) == [x] + f;
        var g := [x] + f;
        assert g[0] == x && g[1..] == f;
        assert FilterRows(q2, g) == if Selected(q2, x) then [x] + FilterRows(q2, f) else FilterRows(q2, f);
      } else {
        assert FilterRows(q1, s) == f;
      }
    }
  }

  lemma NarrowsSelected(q2: BookQuery, q1: BookQuery, r: ContentRow)
    requires Narrows(q2, q1)
    ensures Selected(q2, r) ==> Selected(q1, r)
  {
  }

  /** Adding filters keeps exactly the rows the narrower query selects, in the order
      the wider query returned them: nothing is added, duplicated or moved. */
  lemma NarrowingFiltersInOrder(content: seq<ContentRow>, q2: BookQuery, q1: BookQuery)
    requires Narrows(q2, q1)
    ensures SelectBooks(content, q2) == FilterRows(q2, SelectBooks(content, q1))
  {
    FilterSort(q2, FilterRows(q1, content));
    FilterTwice(q2, q1, content);
  }

  /** Adding filters only removes rows, whatever order ties come back in. */
  lemma NarrowingOnlyRemoves(content: seq<ContentRow>, q2: BookQuery, q1: BookQuery)
    requires Narrows(q2, q1)
    ensures multiset(SelectBooks(content, q2)) <= multiset(SelectBooks(content, q1))
  {
  }

  // ---- the WHERE clause in plain terms ----

  /** With literal filter values (no '%' or '_'), a row is selected exactly when it is a
      top-level downloaded book whose ContentID starts with "file" and whose title and
      author contain the given values, letters A-Z compared without case. */
  lemma SelectedMeaning(q: BookQuery, r: ContentRow)
    requires q.title.Some? ==> NoWildcards(q.title.value)
    requires q.author.Some? ==> NoWildcards(q.author.value)
    ensures Selected(q, r) <==>
      && r.bookId.None?
      && r.contentType == Some(6)
      && (r.isDownloaded == Text("true") || r.isDownloaded == Integer(1))
      && r.contentId.Some? && StartsWithFolded(r.contentId.value, "file")
      && (q.title.Some? ==> r.title.Some? && ContainsFolded(r.title.value, q.title.value))
      && (q.author.Some? ==> r.attribution.Some? && ContainsFolded(r.attribution.value, q.author.value))
      && (q.status.Some? ==> r.readStatus == q.status)
  {
    assert Eligible(r) <==>
      && r.bookId.None?
      && r.contentType == Some(6)
      && (r.isDownloaded == Text("true") || r.isDownloaded == Integer(1))
      && r.contentId.Some? && StartsWithFolded(r.contentId.value, "file")
    by {
      if r.contentId.Some? {
        assert "file" + "%" == "file%";
        LikePrefix("file", r.contentId.value);
      }
    }
    assert LikeFilter(r.title, q.title) <==>
      (q.title.Some? ==> r.title.Some? && ContainsFolded(r.title.value, q.title.value))
    by {
      if q.title.Some? && r.title.Some? {
        LikeContains(q.title.value, r.title.value);
      }
    }
    assert LikeFilter(r.attribution, q.author) <==>
      (q.author.Some? ==> r.attribution.Some? && ContainsFolded(r.attribution.value, q.author.value))
    by {
      if q.author.Some? && r.attribution.Some? {
        LikeContains(q.author.value, r.attribution.value);
      }
    }
  }

  /** Searching for a book's own title finds it, when the title can be spliced into the
      statement, that is, holds no '"'. A '%' or '_' in the title does no harm. */
  lemma OwnTitleFindsBook(content: seq<ContentRow>, r: ContentRow)
    requires r in content && Eligible(r) && r.title.Some?
    requires Spliceable(BookQuery(r.title, None, None))
    ensures r in SelectBooks(content, BookQuery(r.title, None, None))
  {
    LikeSelfContains(r.title.value);
  }

  /** A status filter keeps exactly the unfiltered books stored with that code, so two
      different codes never select the same row. */
  lemma StatusFilterPartition(content: seq<ContentRow>, q: BookQuery, a: int, b: int, x: ContentRow)
    requires q.status.None?
    ensures x in SelectBooks(content, q.(status := Some(a))) <==>
            x in SelectBooks(content, q) && x.readStatus == Some(a)
    ensures a != b ==> !(x in SelectBooks(content, q.(status := Some(a))) &&
                         x in SelectBooks(content, q.(status := Some(b))))
  {
  }

  /** What the program's filtered listing shows: every book from a status-filtered query
      carries the status that code names. */
  lemma StatusFilterLabel(content: seq<ContentRow>, q: BookQuery, k: nat)
    requires q.status.Some?
    ensures var r := SelectBooks(content, q);
            k < |r| ==> MakeBook(r[k]).readStatus == ToReadStatus(q.status)
  {
    var r := SelectBooks(content, q);
    if k < |r| {
      assert r[k] in r;
    }
  }

  // ---- the inner join of get_bookmarks ----

  /** c.ContentID = b.VolumeID; a NULL on either side never matches. */
  predicate JoinMatch(c: ContentRow, b: BookmarkRow)
  {
    c.contentId.Some? && c.contentId == b.volumeId
  }

  /** The joined rows one content row contributes, in bookmark table order. */
  function JoinOne(c: ContentRow, bookmarks: seq<BookmarkRow>): seq<(ContentRow, BookmarkRow)>
    decreases |bookmarks|
  {
    if bookmarks == [] then []
    else (if JoinMatch(c, bookmarks[0]) then [(c, bookmarks[0])] else []) + JoinOne(c, bookmarks[1..])
  }

  lemma {:induction false} JoinOneMultiplicity(c: ContentRow, bookmarks: seq<BookmarkRow>, p: (ContentRow, BookmarkRow))
    ensures multiset(JoinOne(c, bookmarks))[p] ==
            if p.0 == c && JoinMatch(c, p.1) then multiset(bookmarks)[p.1] else 0
    decreases |bookmarks|
  {
    if bookmarks != [] {
      var b, bs := bookmarks[0], bookmarks[1..];
      JoinOneMultiplicity(c, bs, p);
      var head: seq<(ContentRow, BookmarkRow)> := if JoinMatch(c, b) then [(c, b)] else [];
      assert JoinOne(c, bookmarks) == head + JoinOne(c, bs);
      assert multiset(head + JoinOne(c, bs))[p] == multiset(head)[p] + multiset(JoinOne(c, bs))[p];
      assert bookmarks == [b] + bs;
      CountCons(b, bs, p.1);
    }
  }

  /** Occurrences in a non-empty sequence: the head's and the tail's. */
  lemma CountCons<T>(x: T, xs: seq<T>, y: T)
    ensures multiset([x] + xs)[y] == (if x == y then 1 else 0) + multiset(xs)[y]
  {
    assert multiset([x] + xs) == multiset{x} + multiset(xs);
  }

  /** content c INNER JOIN Bookmark b ON c.ContentID = b.VolumeID, content rows outermost. */
  function JoinRows(content: seq<ContentRow>, bookmarks: seq<BookmarkRow>): seq<(ContentRow, BookmarkRow)>
    decreases |content|
  {
    if content == [] then [] else JoinOne(content[0], bookmarks) + JoinRows(content[1..], bookmarks)
  }

  /** Each matching pair of rows is joined once for every way of choosing it: as many
      times as the content row occurs times as many as the bookmark row occurs. */
  lemma {:induction false} JoinMultiplicity(content: seq<ContentRow>, bookmarks: seq<BookmarkRow>,
                                            p: (ContentRow, BookmarkRow))
    ensures multiset(JoinRows(content, bookmarks))[p] ==
            if JoinMatch(p.0, p.1) then multiset(content)[p.0] * multiset(bookmarks)[p.1] else 0
    decreases |content|
  {
    if content != [] {
      var c, cs := content[0], content[1..];
      JoinMultiplicity(cs, bookmarks, p);
      JoinOneMultiplicity(c, bookmarks, p);
      var one, rest := JoinOne(c, bookmarks), JoinRows(cs, bookmarks);
      assert JoinRows(content, bookmarks) == one + rest;
      assert multiset(one + rest)[p] == multiset(one)[p] + multiset(rest)[p];
      assert content == [c] + cs;
      CountCons(c, cs, p.0);
      var m, mb := multiset(cs)[p.0], multiset(bookmarks)[p.1];
      var here := if c == p.0 then 1 else 0;
      assert multiset(content)[p.0] == here + m;
      CountStep(here, m, mb);
    }
  }

  /** One more occurrence of the content row adds one more copy of each match. */
  lemma CountStep(here: nat, m: nat, n: nat)
    ensures here * n + m * n == (here + m) * n
  {
  }

  /** Every joined row pairs a bookmark with a content row it refers to, both taken from
      the tables, so a bookmark whose volume is missing from content never appears. */
  lemma JoinSound(content: seq<ContentRow>, bookmarks: seq<BookmarkRow>, k: nat)
    requires k < |JoinRows(content, bookmarks)|
    ensures var p := JoinRows(content, bookmarks)[k];
            p.0 in content && p.1 in bookmarks && JoinMatch(p.0, p.1)
  {
    var rows := JoinRows(content, bookmarks);
    var p := rows[k];
    assert p in multiset(rows);
    JoinMultiplicity(content, bookmarks, p);
    assert JoinMatch(p.0, p.1);
    ProductPositive(multiset(content)[p.0], multiset(bookmarks)[p.1]);
  }

  lemma ProductPositive(m: nat, n: nat)
    ensures m * n > 0 <==> m > 0 && n > 0
  {
    if m > 0 && n > 0 {
      assert m * n >= n;
    }
  }

  /** Every matching pair of rows appears, once per occurrence of each in its table. */
  lemma JoinComplete(content: seq<ContentRow>, bookmarks: seq<BookmarkRow>, c: ContentRow, b: BookmarkRow)
    requires c in content && b in bookmarks && JoinMatch(c, b)
    ensures (c, b) in JoinRows(content, bookmarks)
  {
    JoinMultiplicity(content, bookmarks, (c, b));
    ProductPositive(multiset(content)[c], multiset(bookmarks)[b]);
    assert multiset(JoinRows(content, bookmarks))[(c, b)] > 0;
  }
}
