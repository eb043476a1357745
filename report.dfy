/** The text the program produces from records: duration formatting, the status word
    of the list command, the tab-separated export and the console blocks of
    print_book_info and print_bookmark (kobodb.py:128-186). */
module Report {
  import opened Wrappers
  import opened Records
  import opened Decimal
  import opened Delimited

  // ---- values as Python's str() and '{}'.format() write them ----

  /** A text column: itself, or "None" for NULL. */
  function FormatText(v: Option<string>): (s: string)
    ensures v.Some? ==> s == v.value
    ensures v.None? ==> s == "None"
  {
    match v
    case None => "None"
    case Some(t) => t
  }

  /** An integer column: its decimal text, or "None" for NULL. */
  function FormatInt(v: Option<int>): (s: string)
    ensures v.None? <==> s == "None"
    ensures v.Some? ==> |s| >= 1 && (s[0] == '-' ==> AllDigits(s[1..])) && (s[0] != '-' ==> AllDigits(s))
    ensures v.Some? ==> ParseInt(s) == v.value
  {
    match v
    case None => "None"
    case Some(i) =>
      IntRoundTrip(i);
      var s := IntToString(i);
      assert s != "None" by {
        if s[0] != '-' {
          assert IsDigit(s[0]);
        }
      }
      s
  }

  /** to_str: None becomes a single dash and any other value is left as it is. */
  function ToStr(field: Option<string>): (s: string)
    ensures field.None? ==> s == "-"
    ensures field.Some? ==> s == field.value
  {
    if field.None? then "-" else field.value
  }

  // ---- seconds_to_str ----

  /** Whole hours, the minutes left over and the seconds left after those, with
      Python's floor // and % (equal to Dafny's on a non-negative dividend). */
  function Parts(secs: nat): (r: (nat, nat, nat))
    ensures 3600 * r.0 + 60 * r.1 + r.2 == secs
    ensures r.1 < 60 && r.2 < 60
  {
    var hours := secs / 3600;
    var minutes := (secs % 3600) / 60;
    assert secs == 3600 * hours + secs % 3600;
    assert secs % 3600 == 60 * minutes + (secs % 3600) % 60;
    (hours, minutes, secs - 3600 * hours - 60 * minutes)
  }

  /** The decomposition is the only one with minutes and seconds below sixty. */
  lemma PartsUnique(secs: nat, h: nat, m: nat, s: nat)
    requires 3600 * h + 60 * m + s == secs && m < 60 && s < 60
    ensures Parts(secs) == (h, m, s)
  {
    var r := Parts(secs);
    assert 60 * m + s < 3600 && 60 * r.1 + r.2 < 3600;
    assert r.0 == h;
    assert 60 * r.1 + r.2 == 60 * m + s;
  }

  /** "{h}h {m}min {s}sec" */
  function Clock(h: nat, m: nat, s: nat): (r: string)
    ensures |r| > 0 && IsDigit(r[0])
  {
    NatToString(h) + ("h " + (NatToString(m) + ("min " + (NatToString(s) + "sec"))))
  }

  /** seconds_to_str: a negative count, the sentinel of a missing reading time, reads
      "not available"; any other is its hours, minutes and seconds. */
  function SecondsToStr(secs: int): (r: string)
    ensures secs < 0 <==> r == "not available"
    ensures secs >= 0 ==> r == Clock(Parts(secs).0, Parts(secs).1, Parts(secs).2)
  {
    if secs < 0 then "not available"
    else
      var p := Parts(secs);
      Clock(p.0, p.1, p.2)
  }

  lemma SecondsToStrExamples()
    ensures SecondsToStr(-1) == "not available"
    ensures SecondsToStr(3725) == "1h 2min 5sec"
  {
    PartsUnique(3725, 1, 2, 5);
    ClockDigits(1, 2, 5);
    SmallDigits();
  }

  /** A duration whose three parts are single digits. */
  lemma ClockDigits(h: nat, m: nat, s: nat)
    requires h < 10 && m < 10 && s < 10
    ensures Clock(h, m, s) == [DigitChar(h)] + "h " + [DigitChar(m)] + "min " + [DigitChar(s)] + "sec"
  {
    assert NatToString(h) == [DigitChar(h)] && NatToString(m) == [DigitChar(m)] && NatToString(s) == [DigitChar(s)];
  }

  lemma SmallDigits()
    ensures DigitChar(1) == '1' && DigitChar(2) == '2' && DigitChar(5) == '5'
  {
  }

  /** The length of the run of digits that s starts with. */
  function DigitRun(s: string): (n: nat)
    ensures n <= |s|
    decreases |s|
  {
    if s == [] || !IsDigit(s[0]) then 0 else 1 + DigitRun(s[1..])
  }

  lemma {:induction false} DigitRunConcat(a: string, r: string)
    requires AllDigits(a) && r != [] && !IsDigit(r[0])
    ensures DigitRun(a + r) == |a|
    decreases |a|
  {
    if a == [] {
      assert a + r == r;
    } else {
      assert (a + r)[0] == a[0] && (a + r)[1..] == a[1..] + r;
      DigitRunConcat(a[1..], r);
    }
  }

  /** Two digit strings followed by texts that start with a non-digit are equal only
      when the digits and the texts are. */
  lemma DigitsThen(a: string, r1: string, b: string, r2: string)
    requires AllDigits(a) && AllDigits(b)
    requires r1 != [] && r2 != [] && !IsDigit(r1[0]) && !IsDigit(r2[0])
    requires a + r1 == b + r2
    ensures a == b && r1 == r2
  {
    DigitRunConcat(a, r1);
    DigitRunConcat(b, r2);
    assert a == (a + r1)[..|a|] && b == (b + r2)[..|b|];
    assert r1 == (a + r1)[|a|..] && r2 == (b + r2)[|b|..];
  }

  lemma DropPrefix(p: string, x: string, y: string)
    requires p + x == p + y
    ensures x == y
  {
    assert x == (p + x)[|p|..] && y == (p + y)[|p|..];
  }

  /** The three numbers of a duration can be read back from its text. */
  lemma ClockInjective(h1: nat, m1: nat, s1: nat, h2: nat, m2: nat, s2: nat)
    requires Clock(h1, m1, s1) == Clock(h2, m2, s2)
    ensures h1 == h2 && m1 == m2 && s1 == s2
  {
    var c1, c2 := NatToString(s1) + "sec", NatToString(s2) + "sec";
    var t1, t2 := NatToString(m1) + ("min " + c1), NatToString(m2) + ("min " + c2);
    DigitsThen(NatToString(h1), "h " + t1, NatToString(h2), "h " + t2);
    DropPrefix("h ", t1, t2);
    DigitsThen(NatToString(m1), "min " + c1, NatToString(m2), "min " + c2);
    DropPrefix("min ", c1, c2);
    DigitsThen(NatToString(s1), "sec", NatToString(s2), "sec");
    NatToStringInjective(h1, h2);
    NatToStringInjective(m1, m2);
    NatToStringInjective(s1, s2);
  }

  /** Different durations are written differently. */
  lemma SecondsToStrInjective(x: nat, y: nat)
    requires SecondsToStr(x) == SecondsToStr(y)
    ensures x == y
  {
    var p, q := Parts(x), Parts(y);
    ClockInjective(p.0, p.1, p.2, q.0, q.1, q.2);
  }

  // ---- the status word of the list command ----

  /** book_status: the status code a listing word selects; None means no status filter. */
  function BookStatus(status: string): (r: Option<int>)
    ensures r == Some(BookCompleted) <==> status == "read"
    ensures r == Some(BookNotRead) <==> status == "unread"
    ensures r == Some(BookInProgress) <==> status == "progress"
    ensures r == None <==> status !in {"read", "unread", "progress"}
  {
    if status == "read" then Some(BookCompleted)
    else if status == "unread" then Some(BookNotRead)
    else if status == "progress" then Some(BookInProgress)
    else None
  }

  /** Each listing word selects the books whose derived status it names. */
  lemma BookStatusLabels()
    ensures Label(ToReadStatus(BookStatus("read"))) == "completed"
    ensures Label(ToReadStatus(BookStatus("unread"))) == "not read"
    ensures Label(ToReadStatus(BookStatus("progress"))) == "in progress"
    ensures BookStatus("all") == None
  {
  }

  // ---- export_books ----

  const Columns: seq<string> :=
    ["title", "author", "mime_type", "language", "filepath", "filesize", "read_status", "last_read_date", "percent_read"]

  function HeaderLine(): string
  {
    Join(Columns, '\t')
  }

  /** The data list of one book before to_str: filesize and percent_read have already
      been through str(), so NULL there is the text "None" and not None. */
  function RawFields(b: Book): seq<Option<string>>
  {
    [b.title, b.author, b.mimeType, b.language, b.filepath, Some(FormatInt(b.filesize)),
     Some(Label(b.readStatus)), b.lastReadDate, Some(FormatInt(b.percentRead))]
  }

  /** map(to_str, data) */
  function MapToStr(data: seq<Option<string>>): (r: seq<string>)
    ensures |r| == |data|
    ensures forall i :: 0 <= i < |data| ==> r[i] == ToStr(data[i])
    decreases |data|
  {
    if data == [] then [] else [ToStr(data[0])] + MapToStr(data[1..])
  }

  function RowFields(b: Book): (r: seq<string>)
    ensures |r| == |Columns|
  {
    MapToStr(RawFields(b))
  }

  function BookLine(b: Book): string
  {
    Join(RowFields(b), '\t')
  }

  /** The data lines, in the order the loop writes them. */
  function BookLines(books: seq<Book>): (r: seq<string>)
    ensures |r| == |books|
    decreases |books|
  {
    if books == [] then [] else BookLines(books[..|books| - 1]) + [BookLine(books[|books| - 1])]
  }

  lemma {:induction false} BookLinesAt(books: seq<Book>, k: nat)
    requires k < |books|
    ensures BookLines(books)[k] == BookLine(books[k])
    decreases |books|
  {
    var n := |books| - 1;
    if k < n {
      BookLinesAt(books[..n], k);
      assert books[..n][k] == books[k];
    }
  }

  function ExportLines(books: seq<Book>): seq<string>
  {
    [HeaderLine()] + BookLines(books)
  }

  /** The whole file: the header and one line per book, each closed by a newline. */
  function ExportText(books: seq<Book>): string
  {
    Terminated(ExportLines(books), '\n')
  }

  /** export_books, without the file: the text written, in the order it is written. */
  method ExportBooks(books: seq<Book>) returns (text: string)
    ensures text == ExportText(books)
  {
    text := HeaderLine() + "\n";
    assert text == Terminated(ExportLines(books[..0]), '\n');
    for i := 0 to |books|
      invariant text == Terminated(ExportLines(books[..i]), '\n')
    {
      TerminatedAppend(ExportLines(books[..i]), BookLine(books[i]), '\n');
      ExportLinesSnoc(books, i);
      text := text + BookLine(books[i]) + "\n";
    }
    assert books[..|books|] == books;
  }

  lemma ExportLinesSnoc(books: seq<Book>, i: nat)
    requires i < |books|
    ensures ExportLines(books[..i + 1]) == ExportLines(books[..i]) + [BookLine(books[i])]
  {
    var prefix := books[..i + 1];
    assert prefix[..i] == books[..i] && prefix[i] == books[i];
    assert BookLines(prefix) == BookLines(books[..i]) + [BookLine(books[i])];
  }

  /** The text columns of a book hold no tab and no newline. */
  predicate CleanText(v: Option<string>)
  {
    v.Some? ==> '\t' !in v.value && '\n' !in v.value
  }

  predicate Clean(b: Book)
  {
    CleanText(b.title) && CleanText(b.author) && CleanText(b.mimeType) && CleanText(b.language)
    && CleanText(b.filepath) && CleanText(b.lastReadDate)
  }

  lemma FormatIntClean(v: Option<int>)
    ensures '\t' !in FormatInt(v) && '\n' !in FormatInt(v)
  {
    var s := FormatInt(v);
    if v.Some? {
      forall i | 0 <= i < |s| ensures s[i] != '\t' && s[i] != '\n' {
        if i > 0 || s[0] != '-' {
          assert IsDigit(s[i]) by {
            if s[0] == '-' {
              assert s[1..][i - 1] == s[i];
            }
          }
        }
      }
    }
  }

  lemma LabelClean(status: ReadStatus)
    ensures '\t' !in Label(status) && '\n' !in Label(status)
  {
    var s := Label(status);
    assert forall j :: 0 <= j < |s| ==> 'a' <= s[j] <= 'z' || s[j] == ' ';
  }

  lemma MapToStrFree(data: seq<Option<string>>, c: char)
    requires c != '-'
    requires forall i :: 0 <= i < |data| ==> data[i].Some? ==> c !in data[i].value
    ensures FreeOf(MapToStr(data), c)
  {
    var r := MapToStr(data);
    forall i | 0 <= i < |r| ensures c !in r[i] {
      assert r[i] == ToStr(data[i]);
    }
  }

  lemma RowFieldsFree(b: Book)
    requires Clean(b)
    ensures FreeOf(RowFields(b), '\t') && FreeOf(RowFields(b), '\n')
  {
    FormatIntClean(b.filesize);
    FormatIntClean(b.percentRead);
    LabelClean(b.readStatus);
    var raw := RawFields(b);
    forall i | 0 <= i < |raw| ensures CleanText(raw[i]) {
      assert i == 0 || i == 1 || i == 2 || i == 3 || i == 4 || i == 5 || i == 6 || i == 7 || i == 8;
    }
    MapToStrFree(raw, '\t');
    MapToStrFree(raw, '\n');
  }

  /** The column names are written in lower-case letters and '_' only. */
  lemma ColumnsFree(c: char)
    requires !('a' <= c <= 'z' || c == '_')
    ensures FreeOf(Columns, c)
  {
    forall i | 0 <= i < |Columns| ensures c !in Columns[i] {
      assert forall j :: 0 <= j < |Columns[i]| ==> 'a' <= Columns[i][j] <= 'z' || Columns[i][j] == '_';
    }
  }

  lemma HeaderFields()
    ensures Split(HeaderLine(), '\t') == Columns && |Columns| == 9
  {
    ColumnsFree('\t');
    SplitJoin(Columns, '\t');
  }

  /** Each book line splits on tabs into its nine rendered fields: a missing value is "-",
      except in the two columns that went through str() first, where it is "None"; a
      present filesize or percent_read reads back as its number. */
  lemma BookLineFields(b: Book)
    requires Clean(b)
    ensures Split(BookLine(b), '\t') == RowFields(b) && |RowFields(b)| == 9
    ensures RowFields(b)[0] == (if b.title.None? then "-" else b.title.value)
    ensures RowFields(b)[1] == (if b.author.None? then "-" else b.author.value)
    ensures RowFields(b)[2] == (if b.mimeType.None? then "-" else b.mimeType.value)
    ensures RowFields(b)[3] == (if b.language.None? then "-" else b.language.value)
    ensures RowFields(b)[4] == (if b.filepath.None? then "-" else b.filepath.value)
    ensures RowFields(b)[5] == "None" <==> b.filesize.None?
    ensures b.filesize.Some? ==> ParseInt(RowFields(b)[5]) == b.filesize.value
    ensures RowFields(b)[6] == Label(b.readStatus)
    ensures RowFields(b)[7] == (if b.lastReadDate.None? then "-" else b.lastReadDate.value)
    ensures RowFields(b)[8] == "None" <==> b.percentRead.None?
    ensures b.percentRead.Some? ==> ParseInt(RowFields(b)[8]) == b.percentRead.value
  {
    RowFieldsFree(b);
    SplitJoin(RowFields(b), '\t');
  }

  lemma BookLineSingle(b: Book)
    requires Clean(b)
    ensures '\n' !in BookLine(b)
  {
    RowFieldsFree(b);
    JoinFree(RowFields(b), '\t', '\n');
  }

  lemma HeaderSingle()
    ensures '\n' !in HeaderLine()
  {
    ColumnsFree('\n');
    JoinFree(Columns, '\t', '\n');
  }

  /** No line of the export holds a newline. */
  lemma ExportLinesFree(books: seq<Book>)
    requires forall k :: 0 <= k < |books| ==> Clean(books[k])
    ensures FreeOf(ExportLines(books), '\n')
  {
    var lines := BookLines(books);
    HeaderSingle();
    forall k | 0 <= k < |lines| ensures '\n' !in lines[k] {
      BookLinesAt(books, k);
      BookLineSingle(books[k]);
    }
    FreeOfCons(HeaderLine(), lines, '\n');
  }

  /** Reading the file back line by line gives the header and one line per book (and the
      empty piece after the last newline); joining the pieces gives the file again; every
      line has as many tab-separated fields as there are columns. */
  lemma ExportRoundTrip(books: seq<Book>)
    requires forall k :: 0 <= k < |books| ==> Clean(books[k])
    ensures Split(ExportText(books), '\n') == ExportLines(books) + [""]
    ensures Join(Split(ExportText(books), '\n'), '\n') == ExportText(books)
    ensures forall k :: 0 <= k < |ExportLines(books)| ==> |Split(ExportLines(books)[k], '\t')| == |Columns|
  {
    ExportLinesFree(books);
    SplitTerminated(ExportLines(books), '\n');
    JoinSplit(ExportText(books), '\n');
    ExportFieldCounts(books);
  }

  lemma ExportFieldCounts(books: seq<Book>)
    requires forall k :: 0 <= k < |books| ==> Clean(books[k])
    ensures forall k :: 0 <= k < |ExportLines(books)| ==> |Split(ExportLines(books)[k], '\t')| == |Columns|
  {
    var lines := BookLines(books);
    BookLinesFieldCounts(books);
    HeaderFields();
    var all := ExportLines(books);
    forall k | 0 <= k < |all| ensures |Split(all[k], '\t')| == |Columns| {
      if k > 0 {
        assert all[k] == lines[k - 1];
      }
    }
  }

  lemma BookLinesFieldCounts(books: seq<Book>)
    requires forall k :: 0 <= k < |books| ==> Clean(books[k])
    ensures forall k :: 0 <= k < |BookLines(books)| ==> |Split(BookLines(books)[k], '\t')| == |Columns|
  {
    forall k | 0 <= k < |BookLines(books)| ensures |Split(BookLines(books)[k], '\t')| == |Columns| {
      BookLinesAt(books, k);
      BookLineFieldCount(books[k]);
    }
  }

  lemma BookLineFieldCount(b: Book)
    requires Clean(b)
    ensures |Split(BookLine(b), '\t')| == |Columns|
  {
    RowFieldsFree(b);
    SplitJoin(RowFields(b), '\t');
  }

  // ---- console blocks ----

  /** '-' * n */
  function Dashes(n: nat): (r: string)
    ensures |r| == n && forall i :: 0 <= i < n ==> r[i] == '-'
  {
    if n == 0 then [] else Dashes(n - 1) + "-"
  }

  /** The rule printed after every block. */
  const Rule: string := Dashes(80)

  predicate StartsWith(s: string, prefix: string)
  {
    |prefix| <= |s| && s[..|prefix|] == prefix
  }

  /** A Text or Annotation value is printed only when it is present and not empty. */
  predicate Shown(v: Option<string>)
  {
    v.Some? && v.value != ""
  }

  function OptionalLine(caption: string, v: Option<string>): seq<string>
  {
    if Shown(v) then [caption + "\"" + v.value + "\""] else []
  }

  /** The six lines print_bookmark always prints. */
  function FixedLines(bm: Bookmark): (r: seq<string>)
    ensures |r| == 6
  {
    ["Bookmark ID: " + FormatText(bm.id),
     "Type: " + FormatText(bm.bookmarkType),
     "Book title: " + FormatText(bm.bookTitle),
     "Book author: " + FormatText(bm.bookAuthor),
     "Date created: " + FormatText(bm.dateCreated),
     "Date modified: " + FormatText(bm.dateModified)]
  }

  /** print_bookmark, as the list of lines it prints. */
  function BookmarkLines(bm: Bookmark): seq<string>
  {
    FixedLines(bm) + OptionalLine("Text: ", bm.text) + OptionalLine("Annotation: ", bm.annotation) + [Rule]
  }

  /** None of the six fixed lines begins like a Text or an Annotation line. */
  lemma FixedLineHead(bm: Bookmark, i: nat)
    requires i < 6
    ensures !StartsWith(FixedLines(bm)[i], "Text: ") && !StartsWith(FixedLines(bm)[i], "Annotation: ")
  {
    var line := FixedLines(bm)[i];
    var heads := ["Bookmark ID: ", "Type: ", "Book title: ", "Book author: ", "Date created: ", "Date modified: "];
    var values := [bm.id, bm.bookmarkType, bm.bookTitle, bm.bookAuthor, bm.dateCreated, bm.dateModified];
    assert line == heads[i] + FormatText(values[i]);
    assert line[0] == heads[i][0] && line[1] == heads[i][1];
    assert "Text: "[1] == 'e' && "Annotation: "[0] == 'A';
  }

  lemma OptionalLineHead(caption: string, v: Option<string>, other: string)
    requires Shown(v) && |other| > 0 && |caption| > 0 && caption[0] != other[0]
    ensures StartsWith(OptionalLine(caption, v)[0], caption)
    ensures !StartsWith(OptionalLine(caption, v)[0], other)
  {
    var line := OptionalLine(caption, v)[0];
    assert line == caption + ("\"" + v.value + "\"");
    assert line[..|caption|] == caption;
    assert line[0] == caption[0];
  }

  /** The six fixed lines come first and the rule last, with a quoted Text line and a
      quoted Annotation line between them when those values are present and non-empty. */
  lemma BookmarkLinesShape(bm: Bookmark)
    ensures |BookmarkLines(bm)| == 7 + (if Shown(bm.text) then 1 else 0) + (if Shown(bm.annotation) then 1 else 0)
    ensures BookmarkLines(bm)[..6] == FixedLines(bm)
    ensures BookmarkLines(bm)[|BookmarkLines(bm)| - 1] == Rule
    ensures Shown(bm.text) ==> BookmarkLines(bm)[6] == "Text: \"" + bm.text.value + "\""
    ensures Shown(bm.annotation) ==>
              BookmarkLines(bm)[|BookmarkLines(bm)| - 2] == "Annotation: \"" + bm.annotation.value + "\""
  {
    var fixed, textLines, annotationLines := FixedLines(bm), OptionalLine("Text: ", bm.text), OptionalLine("Annotation: ", bm.annotation);
    var lines := BookmarkLines(bm);
    assert lines == fixed + textLines + annotationLines + [Rule];
    assert lines[..6] == fixed;
    if Shown(bm.text) {
      assert lines[6] == textLines[0];
    }
    if Shown(bm.annotation) {
      assert lines[|lines| - 2] == annotationLines[0];
    }
  }

  /** What the line at position i can begin with. */
  lemma LineHeads(bm: Bookmark, i: nat)
    requires i < |BookmarkLines(bm)|
    ensures StartsWith(BookmarkLines(bm)[i], "Text: ") ==> Shown(bm.text) && i == 6
    ensures StartsWith(BookmarkLines(bm)[i], "Annotation: ") ==>
              Shown(bm.annotation) && i == |BookmarkLines(bm)| - 2
  {
    var fixed, textLines, annotationLines := FixedLines(bm), OptionalLine("Text: ", bm.text), OptionalLine("Annotation: ", bm.annotation);
    var lines := BookmarkLines(bm);
    assert lines == fixed + textLines + annotationLines + [Rule];
    var t, a := |textLines|, |annotationLines|;
    if i < 6 {
      assert lines[i] == fixed[i];
      FixedLineHead(bm, i);
    } else if i < 6 + t {
      assert lines[i] == textLines[0];
      OptionalLineHead("Text: ", bm.text, "Annotation: ");
    } else if i < 6 + t + a {
      assert lines[i] == annotationLines[0];
      OptionalLineHead("Annotation: ", bm.annotation, "Text: ");
    } else {
      assert lines[i] == Rule && Rule[0] == '-';
    }
  }

  /** A Text line is printed exactly when the bookmark has a non-empty text, and an
      Annotation line exactly when it has a non-empty annotation. */
  lemma BookmarkLinesOptional(bm: Bookmark)
    ensures (exists i :: 0 <= i < |BookmarkLines(bm)| && StartsWith(BookmarkLines(bm)[i], "Text: "))
            <==> Shown(bm.text)
    ensures (exists i :: 0 <= i < |BookmarkLines(bm)| && StartsWith(BookmarkLines(bm)[i], "Annotation: "))
            <==> Shown(bm.annotation)
  {
    var lines := BookmarkLines(bm);
    forall i | 0 <= i < |lines|
      ensures StartsWith(lines[i], "Text: ") ==> Shown(bm.text)
      ensures StartsWith(lines[i], "Annotation: ") ==> Shown(bm.annotation)
    {
      LineHeads(bm, i);
    }
    BookmarkLinesShape(bm);
    if Shown(bm.text) {
      OptionalLineHead("Text: ", bm.text, "Annotation: ");
      assert StartsWith(lines[6], "Text: ");
    }
    if Shown(bm.annotation) {
      OptionalLineHead("Annotation: ", bm.annotation, "Text: ");
      assert StartsWith(lines[|lines| - 2], "Annotation: ");
    }
  }

  function ReadingTimeLine(b: Book): string
  {
    "Time spent reading: " + SecondsToStr(b.timeSpentReadingSec)
  }

  /** print_book_info, as the list of lines it prints. */
  function BookInfoLines(b: Book): (lines: seq<string>)
    ensures |lines| == 11 && lines[9] == ReadingTimeLine(b) && lines[10] == Rule
  {
    ["Title: " + FormatText(b.title),
     "Author: " + FormatText(b.author),
     "Mime type: " + FormatText(b.mimeType),
     "language: " + FormatText(b.language),
     "File: " + FormatText(b.filepath),
     "Size: " + FormatInt(b.filesize) + " bytes",
     "Read status: " + Label(b.readStatus),
     "Last read date: " + FormatText(b.lastReadDate),
     "Percent read: " + FormatInt(b.percentRead) + "%",
     ReadingTimeLine(b),
     Rule]
  }

  /** From row to screen: the reading time of a book reads "not available" exactly when
      the row stored no reading time or a negative one, and otherwise shows the stored
      seconds as hours, minutes and seconds. */
  lemma BookInfoReadingTime(rec: ContentRow)
    ensures BookInfoLines(MakeBook(rec))[9] == "Time spent reading: not available" <==>
            (rec.timeSpentReading.None? || rec.timeSpentReading.value < 0)
    ensures rec.timeSpentReading.Some? && rec.timeSpentReading.value >= 0 ==>
            BookInfoLines(MakeBook(rec))[9] == "Time spent reading: " + Clock(Parts(rec.timeSpentReading.value).0,
                                                 Parts(rec.timeSpentReading.value).1, Parts(rec.timeSpentReading.value).2)
  {
    var b := MakeBook(rec);
    ReadingTimeLineMeaning(b);
  }

  lemma ReadingTimeLineMeaning(b: Book)
    ensures ReadingTimeLine(b) == "Time spent reading: not available" <==> b.timeSpentReadingSec < 0
  {
    var d := SecondsToStr(b.timeSpentReadingSec);
    if ReadingTimeLine(b) == "Time spent reading: not available" {
      assert "Time spent reading: not available" == "Time spent reading: " + "not available";
      DropPrefix("Time spent reading: ", d, "not available");
    }
  }
}
