/** Raw rows of the device database and the Book and Bookmark records built from them
    (kobodb.py, classes Book and Bookmark). */
module Records {
  import opened Wrappers

  /** A cell whose column may hold values of more than one storage class; the query
      accepts either the text 'true' or the integer 1 in IsDownloaded. */
  datatype SqlValue = Null | Integer(i: int) | Text(t: string)

  /** One row of the content table, restricted to the columns the program reads. */
  datatype ContentRow = ContentRow(
    contentId: Option<string>,
    bookId: Option<string>,
    contentType: Option<int>,
    isDownloaded: SqlValue,
    title: Option<string>,
    attribution: Option<string>,
    mimeType: Option<string>,
    readStatus: Option<int>,
    dateLastRead: Option<string>,
    percentRead: Option<int>,
    timeSpentReading: Option<int>,
    fileSize: Option<int>,
    language: Option<string>)

  /** One row of the Bookmark table, restricted to the columns the program reads. */
  datatype BookmarkRow = BookmarkRow(
    bookmarkId: Option<string>,
    volumeId: Option<string>,
    dateCreated: Option<string>,
    dateModified: Option<string>,
    bookmarkType: Option<string>,
    text: Option<string>,
    annotation: Option<string>)

  /** The four read states a book can be shown in. */
  datatype ReadStatus = NotRead | InProgress | Completed | Unknown

  /** The status codes the program names (KoboDB.BOOK_NOT_READ and its siblings). */
  const BookNotRead: int := 0
  const BookInProgress: int := 1
  const BookCompleted: int := 2

  /** The label the program stores in Book.read_status. */
  function Label(s: ReadStatus): string
  {
    match s
    case NotRead => "not read"
    case InProgress => "in progress"
    case Completed => "completed"
    case Unknown => "unknown"
  }

  /** The code a known status is stored under; Unknown has none. */
  function Code(s: ReadStatus): Option<int>
  {
    match s
    case NotRead => Some(BookNotRead)
    case InProgress => Some(BookInProgress)
    case Completed => Some(BookCompleted)
    case Unknown => None
  }

  /** Book.__to_read_status: total over every stored value, NULL included. */
  function ToReadStatus(value: Option<int>): (s: ReadStatus)
    ensures s == NotRead <==> value == Some(0)
    ensures s == InProgress <==> value == Some(1)
    ensures s == Completed <==> value == Some(2)
    ensures s == Unknown <==> (value.None? || value.value !in {0, 1, 2})
  {
    if value == Some(BookNotRead) then NotRead
    else if value == Some(BookInProgress) then InProgress
    else if value == Some(BookCompleted) then Completed
    else Unknown
  }

  /** Reading a known status back from its code gives that status, and a code that
      derives a known status is that status's code. */
  lemma StatusCodeRoundTrip(s: ReadStatus, value: Option<int>)
    ensures s != Unknown ==> ToReadStatus(Code(s)) == s
    ensures ToReadStatus(value) != Unknown ==> Code(ToReadStatus(value)) == value
  {
  }

  /** The four labels are distinct, so the label determines the status. */
  lemma LabelInjective(a: ReadStatus, b: ReadStatus)
    requires Label(a) == Label(b)
    ensures a == b
  {
  }

  datatype Book = Book(
    title: Option<string>,
    author: Option<string>,
    mimeType: Option<string>,
    readStatus: ReadStatus,
    filepath: Option<string>,
    lastReadDate: Option<string>,
    percentRead: Option<int>,
    timeSpentReadingSec: int,
    filesize: Option<int>,
    language: Option<string>)

  /** Book.__init__: a NULL reading time becomes the sentinel -1. */
  function MakeBook(rec: ContentRow): (b: Book)
    ensures b.readStatus == ToReadStatus(rec.readStatus)
    ensures rec.timeSpentReading.None? ==> b.timeSpentReadingSec == -1
    ensures rec.timeSpentReading.Some? ==> b.timeSpentReadingSec == rec.timeSpentReading.value
    ensures b.title == rec.title && b.author == rec.attribution && b.mimeType == rec.mimeType
    ensures b.filepath == rec.contentId && b.lastReadDate == rec.dateLastRead
    ensures b.percentRead == rec.percentRead && b.filesize == rec.fileSize && b.language == rec.language
  {
    Book(rec.title, rec.attribution, rec.mimeType, ToReadStatus(rec.readStatus), rec.contentId,
         rec.dateLastRead, rec.percentRead,
         if rec.timeSpentReading.None? then -1 else rec.timeSpentReading.value,
         rec.fileSize, rec.language)
  }

  /** The sentinel is told apart from every real reading time the device records
      (those are never negative): it is -1 exactly when the column was NULL. */
  lemma ReadingTimeSentinel(rec: ContentRow)
    requires rec.timeSpentReading.Some? ==> rec.timeSpentReading.value >= 0
    ensures MakeBook(rec).timeSpentReadingSec == -1 <==> rec.timeSpentReading.None?
    ensures MakeBook(rec).timeSpentReadingSec >= 0 <==> rec.timeSpentReading.Some?
  {
  }

  datatype Bookmark = Bookmark(
    id: Option<string>,
    bookTitle: Option<string>,
    bookAuthor: Option<string>,
    dateCreated: Option<string>,
    dateModified: Option<string>,
    bookmarkType: Option<string>,
    text: Option<string>,
    annotation: Option<string>)

  /** Bookmark.__init__ over one joined row: title and author come from the owning
      content row, every other column from the bookmark row. */
  function MakeBookmark(c: ContentRow, b: BookmarkRow): (m: Bookmark)
    ensures m.id == b.bookmarkId && m.bookTitle == c.title && m.bookAuthor == c.attribution
    ensures m.dateCreated == b.dateCreated && m.dateModified == b.dateModified
    ensures m.bookmarkType == b.bookmarkType && m.text == b.text && m.annotation == b.annotation
  {
    Bookmark(b.bookmarkId, c.title, c.attribution, b.dateCreated, b.dateModified,
             b.bookmarkType, b.text, b.annotation)
  }
}
