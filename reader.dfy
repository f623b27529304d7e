/** `ReaderModel` (`tui/reader.go`): the reader's state updated in place,
    each operation proved to make the state `Navigation` describes. */
module Reader {
  import opened Results
  import opened Books
  import Progress
  import Renderer
  import Navigation

  class ReaderModel {
    const screen: Navigation.Screen
    const progress: Progress.ProgressData
    var book: Option<Book>
    var currentChapter: int
    var headingPositions: seq<nat>
    var yOffset: int
    var content: string

    /** The state as `Navigation` sees it. */
    function State(): Navigation.View
      reads this
    {
      Navigation.View(book, currentChapter, headingPositions, yOffset, content)
    }

    /** `NewReaderModel`: the progress table as loaded from its file, or an
        empty one when loading fails. */
    constructor (screen: Navigation.Screen, file: Progress.ProgressFile)
      ensures this.screen == screen && fresh(progress)
      ensures progress.books ==
              if Progress.LoadedBooks(file).Ok? then Progress.LoadedBooks(file).value else map[]
      ensures State() == Navigation.Initial
    {
      this.screen := screen;
      var loaded := Progress.LoadProgress(file);
      if loaded.Ok? {
        this.progress := loaded.value;
      } else {
        this.progress := new Progress.ProgressData(map[]);
      }
      book := None;
      currentChapter := 0;
      headingPositions := [];
      yOffset := 0;
      content := "";
    }

    /** The viewport's `SetYOffset`. */
    method SetYOffset(n: int)
      modifies this
      ensures State() == Navigation.SetYOffset(old(State()), n, screen)
    {
      yOffset := Renderer.Min(Renderer.Max(n, 0), screen.maxOffset(content));
    }

    /** `updateViewport`. */
    method UpdateViewport()
      requires Navigation.Renderable(screen)
      modifies this
      ensures State() == Navigation.UpdateViewport(old(State()), screen)
    {
      if book.None? || !screen.themed {
        return;
      }
      var chapter := GetChapter(book.value, currentChapter);
      if chapter.None? {
        return;
      }
      var renderWidth := screen.width;
      if renderWidth <= 0 {
        renderWidth := 80;
      }
      var c := chapter.value.content;
      if book.value.format == Epub {
        var renderResult := Renderer.RenderToStyledTextWithHeadings(c, screen.parse(c), renderWidth, screen.env);
        content := renderResult.text;
        headingPositions := renderResult.headingPositions;
      } else {
        content := screen.env.wrap(c, renderWidth);
        headingPositions := [];
      }
      yOffset := 0;
    }

    /** The forward scan of the next-heading key: the first heading line
        below `currentLine`, or -1. */
    static method NextHeadingLine(positions: seq<nat>, currentLine: int) returns (next: int)
      ensures next == Navigation.FirstAfter(positions, currentLine)
    {
      next := -1;
      var i := 0;
      while i < |positions|
        invariant 0 <= i <= |positions|
        invariant Navigation.FirstAfter(positions[i..], currentLine) == Navigation.FirstAfter(positions, currentLine)
      {
        assert positions[i..][1..] == positions[i + 1..];
        if positions[i] > currentLine {
          next := positions[i];
          break;
        }
        i := i + 1;
      }
    }

    /** The backward scan of the previous-heading key: the last heading line
        above `currentLine`, or -1. */
    static method PrevHeadingLine(positions: seq<nat>, currentLine: int) returns (prev: int)
      ensures prev == Navigation.LastBefore(positions, currentLine)
    {
      prev := -1;
      var i := |positions| - 1;
      assert positions[..i + 1] == positions;
      while i >= 0
        invariant -1 <= i < |positions|
        invariant Navigation.LastBefore(positions[..i + 1], currentLine) == Navigation.LastBefore(positions, currentLine)
      {
        assert positions[..i + 1][..i] == positions[..i];
        if positions[i] < currentLine {
          prev := positions[i];
          break;
        }
        i := i - 1;
      }
    }

    method NextChapter()
      requires Navigation.Renderable(screen)
      modifies this
      ensures State() == Navigation.NextChapter(old(State()), screen)
    {
      ghost var v := State();
      if book.Some? && currentChapter < ChapterCount(book.value) - 1 {
        assert Navigation.NextChapter(v, screen) == Navigation.UpdateViewport(v.(chapter := v.chapter + 1), screen);
        currentChapter := currentChapter + 1;
        UpdateViewport();
      }
    }

    method PrevChapter()
      requires Navigation.Renderable(screen)
      modifies this
      ensures State() == Navigation.PrevChapter(old(State()), screen)
    {
      ghost var v := State();
      if currentChapter > 0 {
        currentChapter := currentChapter - 1;
        assert State() == v.(chapter := v.chapter - 1);
        UpdateViewport();
      }
    }

    method NextHeading()
      requires Navigation.Renderable(screen)
      modifies this
      ensures State() == Navigation.NextHeading(old(State()), screen)
    {
      var nextHeadingLine := NextHeadingLine(headingPositions, yOffset);
      if nextHeadingLine >= 0 {
        SetYOffset(nextHeadingLine);
      } else {
        NextChapter();
      }
    }

    method PrevHeading()
      requires Navigation.Renderable(screen)
      modifies this
      ensures State() == Navigation.PrevHeading(old(State()), screen)
    {
      var prevHeadingLine := PrevHeadingLine(headingPositions, yOffset);
      if prevHeadingLine >= 0 {
        SetYOffset(prevHeadingLine);
      } else if currentChapter > 0 {
        ghost var v := State();
        currentChapter := currentChapter - 1;
        assert State() == v.(chapter := v.chapter - 1);
        UpdateViewport();
        ToLastHeading();
      }
    }

    /** Onto the last heading of the chapter, when it has one. */
    method ToLastHeading()
      modifies this
      ensures State() == Navigation.ToLastHeading(old(State()), screen)
    {
      if |headingPositions| > 0 {
        SetYOffset(headingPositions[|headingPositions| - 1]);
      }
    }

    method FirstChapter()
      requires Navigation.Renderable(screen)
      modifies this
      ensures State() == Navigation.FirstChapter(old(State()), screen)
    {
      currentChapter := 0;
      UpdateViewport();
    }

    method LastChapter()
      requires Navigation.Renderable(screen)
      requires book.Some?
      modifies this
      ensures State() == Navigation.LastChapter(old(State()), screen)
    {
      currentChapter := ChapterCount(book.value) - 1;
      UpdateViewport();
    }

    /** `SaveProgress`: record this book's chapter and offset (writing the
        file is not modelled). */
    method SaveProgress()
      modifies progress
      ensures progress.books == Navigation.SaveProgress(State(), old(progress.books))
    {
      if book.Some? {
        progress.SetBookProgress(book.value.path, currentChapter, yOffset);
      }
    }

    /** `Update` on a navigation key or the back key. */
    method Update(key: Navigation.Key)
      requires Navigation.Renderable(screen)
      modifies this, progress
      ensures State() == Navigation.Update(old(State()), key, screen)
      ensures progress.books ==
              (if old(book).Some? && key.BackKey? then Navigation.SaveProgress(old(State()), old(progress.books))
               else old(progress.books))
    {
      if book.None? {
        return;
      }
      match key {
        case BackKey => SaveProgress();
        case NextChapterKey => NextChapter();
        case PrevChapterKey => PrevChapter();
        case NextHeadingKey => NextHeading();
        case PrevHeadingKey => PrevHeading();
        case FirstChapterKey => FirstChapter();
        case LastChapterKey => LastChapter();
      }
    }

    /** `LoadBook`. */
    method LoadBook(b: Book)
      requires Navigation.Renderable(screen)
      modifies this
      ensures State() == Navigation.LoadBook(old(State()), b, progress.books, screen)
    {
      book := Some(b);
      var saved := progress.GetBookProgress(b.path);
      if saved.found {
        currentChapter := saved.progress.currentChapter;
        if currentChapter >= ChapterCount(b) {
          currentChapter := 0;
        }
        UpdateViewport();
        SetYOffset(saved.progress.scrollOffset);
      } else {
        currentChapter := 0;
        UpdateViewport();
      }
    }
  }
}
