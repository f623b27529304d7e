/** Plain-text books (`ebook/text.go`): the whole file as one chapter, and
    the page splitter that packs whole lines into pages of a bounded size. */
module TextBook {
  import opened Results
  import opened TextUtil
  import opened Books

  /** `charsPerPage`. */
  const CharsPerPage := 2000

  /** Each line followed by a newline, all concatenated: what writing the
      lines one by one, each with its "\n", produces. */
  function Lined(lines: seq<string>): string {
    if lines == [] then "" else lines[0] + "\n" + Lined(lines[1..])
  }

  lemma {:induction false} LinedSnoc(lines: seq<string>, line: string)
    ensures Lined(lines + [line]) == Lined(lines) + line + "\n"
  {
    if lines != [] {
      assert (lines + [line])[1..] == lines[1..] + [line];
      LinedSnoc(lines[1..], line);
    }
  }

  /** For at least one line, that is the lines joined by newlines with a
      final newline. */
  lemma {:induction false} LinedJoin(lines: seq<string>)
    requires lines != []
    ensures Lined(lines) == Join(lines, "\n") + "\n"
  {
    if |lines| > 1 {
      LinedJoin(lines[1..]);
    }
  }

  // ---------------------------------------------------------------------
  // splitIntoPages

  /** The loop state of `splitIntoPages`: the finished pages, the page being
      filled and its length counter. */
  datatype Pager = Pager(pages: seq<string>, current: string, currentLength: int)

  /** One iteration: close the page when it holds something and this line
      would take it past the limit, then add the line and its newline. */
  function Step(st: Pager, line: string, charsPerPage: int): Pager {
    var lineLength := |line| + 1;
    var st1 := if st.currentLength > 0 && st.currentLength + lineLength > charsPerPage
               then Pager(st.pages + [st.current], "", 0) else st;
    Pager(st1.pages, st1.current + line + "\n", st1.currentLength + lineLength)
  }

  /** The state after the given lines. */
  function Run(lines: seq<string>, charsPerPage: int): Pager {
    if lines == [] then Pager([], "", 0)
    else Step(Run(lines[..|lines| - 1], charsPerPage), lines[|lines| - 1], charsPerPage)
  }

  /** `splitIntoPages` as a function: `[""]` for empty text; otherwise the
      closed pages and, when it holds something, the last one. */
  function Pages(text: string, charsPerPage: int): seq<string> {
    if text == [] then [""]
    else
      var st := Run(Split(text, '\n'), charsPerPage);
      if |st.current| > 0 then st.pages + [st.current] else st.pages
  }

  /** A page as the splitter makes it: non-empty, ending in a newline, and a
      single line whenever it is longer than the limit. */
  predicate GoodPage(p: string, charsPerPage: int) {
    p != [] && p[|p| - 1] == '\n' && (|p| > charsPerPage ==> Count(p, '\n') == 1)
  }

  /** What the loop keeps: the counter is the page's length, every closed
      page is good, the open page is empty or good, and the pages so far
      followed by the open one are the lines read, each with its newline. */
  predicate Kept(st: Pager, lines: seq<string>, charsPerPage: int) {
    && st.currentLength == |st.current|
    && (forall i :: 0 <= i < |st.pages| ==> GoodPage(st.pages[i], charsPerPage))
    && (st.current == [] || GoodPage(st.current, charsPerPage))
    && Concat(st.pages) + st.current == Lined(lines)
  }

  lemma {:induction false} RunKept(lines: seq<string>, charsPerPage: int)
    requires forall i :: 0 <= i < |lines| ==> '\n' !in lines[i]
    ensures Kept(Run(lines, charsPerPage), lines, charsPerPage)
    ensures lines != [] ==> Run(lines, charsPerPage).current != []
  {
    if lines != [] {
      var init := lines[..|lines| - 1];
      var line := lines[|lines| - 1];
      RunKept(init, charsPerPage);
      StepKept(Run(init, charsPerPage), init, line, charsPerPage);
      assert init + [line] == lines;
    }
  }

  lemma StepKept(st: Pager, lines: seq<string>, line: string, charsPerPage: int)
    requires Kept(st, lines, charsPerPage)
    requires '\n' !in line
    ensures Kept(Step(st, line, charsPerPage), lines + [line], charsPerPage)
    ensures Step(st, line, charsPerPage).current != []
  {
    var next := Step(st, line, charsPerPage);
    if st.currentLength > 0 && st.currentLength + |line| + 1 > charsPerPage {
      OneLinePage(line, charsPerPage);
      ClosedPages(st.pages, st.current, charsPerPage);
      StepText(st.pages, st.current, line, next.pages, next.current, lines);
    } else {
      if st.current != [] {
        LongerPage(st.current, line, charsPerPage);
      } else {
        OneLinePage(line, charsPerPage);
        assert next.current == line + "\n";
      }
      StepText(st.pages, st.current, line, next.pages, next.current, lines);
    }
  }

  /** A line and its newline make a good page. */
  lemma OneLinePage(line: string, charsPerPage: int)
    requires '\n' !in line
    ensures GoodPage(line + "\n", charsPerPage)
  {
    CountAppend(line, "\n", '\n');
  }

  /** A good page that stays within the limit stays good. */
  lemma LongerPage(page: string, line: string, charsPerPage: int)
    requires GoodPage(page, charsPerPage)
    requires |page| + |line| + 1 <= charsPerPage
    ensures GoodPage(page + line + "\n", charsPerPage)
  {
  }

  /** Closing a good page keeps every closed page good. */
  lemma ClosedPages(pages: seq<string>, page: string, charsPerPage: int)
    requires forall i :: 0 <= i < |pages| ==> GoodPage(pages[i], charsPerPage)
    requires GoodPage(page, charsPerPage)
    ensures forall i :: 0 <= i < |pages + [page]| ==> GoodPage((pages + [page])[i], charsPerPage)
  {
  }

  /** Either way the step goes, the text written so far grows by the line
      and its newline. */
  lemma StepText(pages: seq<string>, page: string, line: string,
                 pages': seq<string>, page': string, lines: seq<string>)
    requires Concat(pages) + page == Lined(lines)
    requires (pages' == pages + [page] && page' == line + "\n") ||
             (pages' == pages && page' == page + line + "\n")
    ensures Concat(pages') + page' == Lined(lines + [line])
  {
    LinedSnoc(lines, line);
    if pages' == pages + [page] && page' == line + "\n" {
      ConcatAppend(pages, [page]);
      assert Concat([page]) == page;
    }
  }

  /** Empty text gives exactly one empty page. */
  lemma PagesOfEmpty(charsPerPage: int)
    ensures Pages("", charsPerPage) == [""]
  {
  }

  /** For non-empty text, no page is empty, every page ends in a newline, a
      page longer than the limit is a single line, and the pages put back
      together are the text with a final newline: lines are neither split
      nor reordered nor lost. */
  lemma PagesSpec(text: string, charsPerPage: int)
    requires text != []
    ensures var ps := Pages(text, charsPerPage);
            && ps != []
            && (forall i :: 0 <= i < |ps| ==> GoodPage(ps[i], charsPerPage))
            && Concat(ps) == text + "\n"
  {
    var lines := Split(text, '\n');
    RunKept(lines, charsPerPage);
    var st := Run(lines, charsPerPage);
    ConcatAppend(st.pages, [st.current]);
    LinedJoin(lines);
    JoinSplit(text, '\n');
  }

  /** `splitIntoPages`. */
  method SplitIntoPages(text: string, charsPerPage: int) returns (pages: seq<string>)
    ensures pages == Pages(text, charsPerPage)
  {
    if |text| == 0 {
      return [""];
    }
    pages := [];
    var lines := Split(text, '\n');
    var currentPage := "";
    var currentLength := 0;
    for i := 0 to |lines|
      invariant Pager(pages, currentPage, currentLength) == Run(lines[..i], charsPerPage)
    {
      assert lines[..i + 1][..i] == lines[..i];
      var line := lines[i];
      var lineLength := |line| + 1;
      if currentLength > 0 && currentLength + lineLength > charsPerPage {
        pages := pages + [currentPage];
        currentPage := "";
        currentLength := 0;
      }
      currentPage := currentPage + line + "\n";
      currentLength := currentLength + lineLength;
    }
    assert lines[..|lines|] == lines;
    if |currentPage| > 0 {
      pages := pages + [currentPage];
    }
  }

  // ---------------------------------------------------------------------
  // TextReader.Read

  /** What reading the file gives: it cannot be opened, the line scanner
      fails, or the lines it yields (without their line endings). */
  datatype TextFile = Unopenable | ScanFailed | Scanned(lines: seq<string>)

  /** The title of a plain-text book: the file's base name without its
      extension. */
  function TitleOf(path: string): string {
    TrimSuffix(Base(path), Ext(path))
  }

  /** `TextReader.Read` as a function of the file. */
  function TextRead(path: string, file: TextFile): Result<Book> {
    match file
    case Unopenable => Err("failed to open text file")
    case ScanFailed => Err("failed to read text file")
    case Scanned(lines) =>
      var title := TitleOf(path);
      Ok(NewBook(title).(chapters := [Chapter(title, Lined(lines), 0)]))
  }

  /** A text file that is read becomes exactly one chapter, numbered 0,
      titled like the book with the base name minus its extension, holding
      every line with a newline after it; reading fails only when the file
      cannot be opened or scanned. */
  lemma TextReadSpec(path: string, file: TextFile)
    ensures var r := TextRead(path, file);
            && (r.Ok? <==> file.Scanned?)
            && (r.Ok? ==>
                  && |r.value.chapters| == 1
                  && r.value.chapters[0].order == 0
                  && r.value.title == TitleOf(path)
                  && r.value.chapters[0].title == r.value.title
                  && (HasSuffix(Base(path), Ext(path)) ==> r.value.title + Ext(path) == Base(path))
                  && r.value.metadata == map[]
                  && (file.lines != [] ==> r.value.chapters[0].content == Join(file.lines, "\n") + "\n"))
  {
    if file.Scanned? && file.lines != [] {
      LinedJoin(file.lines);
    }
  }

  /** `TextReader.Read`. */
  method ReadText(path: string, file: TextFile) returns (r: Result<Book>)
    ensures r == TextRead(path, file)
  {
    if file.Unopenable? {
      return Err("failed to open text file");
    }
    var book := NewBook(TrimSuffix(Base(path), Ext(path)));
    if file.ScanFailed? {
      return Err("failed to read text file");
    }
    var lines := file.lines;
    var fullText := "";
    for i := 0 to |lines|
      invariant fullText == Lined(lines[..i])
    {
      LinedSnoc(lines[..i], lines[i]);
      assert lines[..i + 1] == lines[..i] + [lines[i]];
      fullText := fullText + lines[i] + "\n";
    }
    assert lines[..|lines|] == lines;
    book := book.(chapters := [Chapter(book.title, fullText, 0)]);
    return Ok(book);
  }
}
