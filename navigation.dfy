/** The reader's navigation (`tui/reader.go`) as functions of its state: the
    book, the current chapter, the heading positions of the rendered
    chapter and the viewport's scroll offset. `Reader.ReaderModel` updates
    the same state in place and is proved against these functions. */
module Navigation {
  import opened Results
  import opened Books
  import Progress
  import Renderer

  /** The reader's state. `content` is what the viewport shows; the offset
      is the viewport's `YOffset`. */
  datatype View = View(
    book: Option<Book>,
    chapter: int,
    positions: seq<nat>,
    offset: int,
    content: string)

  /** The reader before any book is loaded. */
  const Initial := View(None, 0, [], 0, "")

  /** What the reader's rendering depends on but does not compute: the HTML
      parser, the theme's styling and `wordwrap.String` (inside `env`), the
      viewport's width, whether a theme is active, and the largest offset
      the viewport allows for a content (its line count less its height). */
  datatype Screen = Screen(
    parse: string -> Option<Renderer.Node>,
    env: Renderer.Env,
    width: int,
    themed: bool,
    maxOffset: string -> nat)

  /** The parser only yields trees the renderer can walk without a negative
      repeat count (no `li` outside a list). */
  ghost predicate Renderable(s: Screen) {
    forall c :: s.parse(c).Some? ==>
      Renderer.Safe(s.parse(c).value, Renderer.TopContext, Renderer.EffectiveWidth(s.width))
  }

  /** The viewport's `SetYOffset`: the offset clamped to the content. */
  function SetYOffset(v: View, n: int, s: Screen): (r: View)
    ensures r == v.(offset := r.offset)
    ensures 0 <= r.offset <= s.maxOffset(v.content)
    ensures 0 <= n <= s.maxOffset(v.content) ==> r.offset == n
  {
    v.(offset := Renderer.Min(Renderer.Max(n, 0), s.maxOffset(v.content)))
  }

  /** The chapter as the viewport shows it: for an EPUB the rendered HTML
      and its heading positions, for plain text the wrapped text and no
      positions; both at the viewport width, 80 when it is not positive. */
  function Shown(book: Book, c: Chapter, s: Screen): (r: Renderer.RenderResult)
    requires Renderable(s)
  {
    var w := Renderer.EffectiveWidth(s.width);
    if book.format == Epub then Renderer.RenderedWithFallback(c.content, s.parse(c.content), w, s.env)
    else Renderer.RenderResult(s.env.wrap(c.content, w), [])
  }

  /** `updateViewport`: nothing without a book, a theme or a chapter at the
      current index; otherwise show the chapter from the top. */
  function UpdateViewport(v: View, s: Screen): (r: View)
    requires Renderable(s)
  {
    if v.book.None? || !s.themed then v
    else
      match GetChapter(v.book.value, v.chapter)
      case None => v
      case Some(c) =>
        var shown := Shown(v.book.value, c, s);
        v.(content := shown.text, positions := shown.headingPositions, offset := 0)
  }

  /** Showing a chapter resets the offset and keeps the book and chapter;
      the positions are the rendering's, so they strictly increase. */
  lemma UpdateViewportSpec(v: View, s: Screen)
    requires Renderable(s)
    ensures var r := UpdateViewport(v, s);
            && r.book == v.book && r.chapter == v.chapter
            && (v.book.None? || !s.themed || GetChapter(v.book.value, v.chapter).None? ==> r == v)
            && (v.book.Some? && s.themed && 0 <= v.chapter < ChapterCount(v.book.value) ==>
                  var c := v.book.value.chapters[v.chapter];
                  && r.offset == 0
                  && r.positions == Shown(v.book.value, c, s).headingPositions
                  && r.content == Shown(v.book.value, c, s).text
                  && Renderer.StrictlyIncreasing(r.positions)
                  && (v.book.value.format != Epub ==> r.positions == []))
  {
    if v.book.Some? && s.themed && 0 <= v.chapter < |v.book.value.chapters| {
      var c := v.book.value.chapters[v.chapter];
      if v.book.value.format == Epub {
        var w := Renderer.EffectiveWidth(s.width);
        Renderer.RenderedSpec(c.content, s.parse(c.content), w, s.env);
      }
    }
  }

  /** Next chapter: only when there is one after the current. */
  function NextChapter(v: View, s: Screen): View
    requires Renderable(s)
  {
    if v.book.Some? && v.chapter < ChapterCount(v.book.value) - 1
    then UpdateViewport(v.(chapter := v.chapter + 1), s)
    else v
  }

  /** Previous chapter: only when the current is not the first. */
  function PrevChapter(v: View, s: Screen): View
    requires Renderable(s)
  {
    if v.chapter > 0 then UpdateViewport(v.(chapter := v.chapter - 1), s) else v
  }

  /** The first position strictly after `current`, or -1. */
  function FirstAfter(positions: seq<nat>, current: int): (r: int)
    ensures r == -1 || r in positions
  {
    if positions == [] then -1
    else if positions[0] > current then positions[0]
    else FirstAfter(positions[1..], current)
  }

  /** The last position strictly before `current`, or -1. */
  function LastBefore(positions: seq<nat>, current: int): (r: int)
    ensures r == -1 || r in positions
  {
    if positions == [] then -1
    else if positions[|positions| - 1] < current then positions[|positions| - 1]
    else LastBefore(positions[..|positions| - 1], current)
  }

  /** `FirstAfter` finds the first position past `current`, and -1 means
      there is none. */
  lemma {:induction false} FirstAfterSpec(positions: seq<nat>, current: int)
    ensures var r := FirstAfter(positions, current);
            && (r == -1 <==> forall i :: 0 <= i < |positions| ==> positions[i] <= current)
            && (r >= 0 ==> exists i :: 0 <= i < |positions| && positions[i] == r && r > current &&
                                       forall j :: 0 <= j < i ==> positions[j] <= current)
  {
    if positions != [] && positions[0] <= current {
      var rest := positions[1..];
      FirstAfterSpec(rest, current);
      assert forall i :: 1 <= i < |positions| ==> positions[i] == rest[i - 1];
      var r := FirstAfter(rest, current);
      if r >= 0 {
        var i :| 0 <= i < |rest| && rest[i] == r && r > current &&
                 forall j :: 0 <= j < i ==> rest[j] <= current;
        assert positions[i + 1] == r;
      }
    } else if positions != [] {
      assert positions[0] > current;
    }
  }

  /** `LastBefore` finds the last position before `current`, and -1 means
      there is none. */
  lemma {:induction false} LastBeforeSpec(positions: seq<nat>, current: int)
    ensures var r := LastBefore(positions, current);
            && (r == -1 <==> forall i :: 0 <= i < |positions| ==> positions[i] >= current)
            && (r >= 0 ==> exists i :: 0 <= i < |positions| && positions[i] == r && r < current &&
                                       forall j :: i < j < |positions| ==> positions[j] >= current)
  {
    if positions != [] && positions[|positions| - 1] >= current {
      var init := positions[..|positions| - 1];
      LastBeforeSpec(init, current);
      assert forall i :: 0 <= i < |init| ==> positions[i] == init[i];
    } else if positions != [] {
      assert positions[|positions| - 1] < current;
    }
  }

  /** With increasing positions, the first one after the offset is the
      least of those after it, and the last one before it the greatest of
      those before it. */
  lemma NearestHeadings(positions: seq<nat>, current: int)
    requires Renderer.StrictlyIncreasing(positions)
    ensures var n := FirstAfter(positions, current);
            n >= 0 ==> forall i :: 0 <= i < |positions| && positions[i] > current ==> n <= positions[i]
    ensures var p := LastBefore(positions, current);
            p >= 0 ==> forall i :: 0 <= i < |positions| && positions[i] < current ==> positions[i] <= p
  {
    FirstAfterLeast(positions, current);
    LastBeforeGreatest(positions, current);
  }

  lemma FirstAfterLeast(positions: seq<nat>, current: int)
    requires Renderer.StrictlyIncreasing(positions)
    ensures var n := FirstAfter(positions, current);
            n >= 0 ==> forall i :: 0 <= i < |positions| && positions[i] > current ==> n <= positions[i]
  {
    FirstAfterSpec(positions, current);
    var n := FirstAfter(positions, current);
    if n >= 0 {
      var k :| 0 <= k < |positions| && positions[k] == n && n > current &&
               forall j :: 0 <= j < k ==> positions[j] <= current;
      forall i | 0 <= i < |positions| && positions[i] > current
        ensures n <= positions[i]
      {
        if i > k {
          assert positions[k] < positions[i];
        }
      }
    }
  }

  lemma LastBeforeGreatest(positions: seq<nat>, current: int)
    requires Renderer.StrictlyIncreasing(positions)
    ensures var p := LastBefore(positions, current);
            p >= 0 ==> forall i :: 0 <= i < |positions| && positions[i] < current ==> positions[i] <= p
  {
    LastBeforeSpec(positions, current);
    var p := LastBefore(positions, current);
    if p >= 0 {
      var k :| 0 <= k < |positions| && positions[k] == p && p < current &&
               forall j :: k < j < |positions| ==> positions[j] >= current;
      forall i | 0 <= i < |positions| && positions[i] < current
        ensures positions[i] <= p
      {
        if i < k {
          assert positions[i] < positions[k];
        }
      }
    }
  }

  /** Next heading: jump to the first heading below the offset, or else on
      to the top of the next chapter. */
  function NextHeading(v: View, s: Screen): View
    requires Renderable(s)
  {
    var next := FirstAfter(v.positions, v.offset);
    if next >= 0 then SetYOffset(v, next, s) else NextChapter(v, s)
  }

  /** Previous heading: jump to the last heading above the offset, or else
      back to the previous chapter, onto its last heading when it has one. */
  function PrevHeading(v: View, s: Screen): View
    requires Renderable(s)
  {
    var prev := LastBefore(v.positions, v.offset);
    if prev >= 0 then SetYOffset(v, prev, s)
    else if v.chapter > 0 then ToLastHeading(UpdateViewport(v.(chapter := v.chapter - 1), s), s)
    else v
  }

  /** The offset of the last heading of the view, when it has one. */
  function ToLastHeading(w: View, s: Screen): View
  {
    if |w.positions| > 0 then SetYOffset(w, w.positions[|w.positions| - 1], s) else w
  }

  /** First chapter. */
  function FirstChapter(v: View, s: Screen): View
    requires Renderable(s)
  {
    UpdateViewport(v.(chapter := 0), s)
  }

  /** Last chapter: the chapter count less one, whatever the count. */
  function LastChapter(v: View, s: Screen): View
    requires Renderable(s)
    requires v.book.Some?
  {
    UpdateViewport(v.(chapter := ChapterCount(v.book.value) - 1), s)
  }

  /** The navigation keys of `Update`, and the back key, which saves. */
  datatype Key = NextChapterKey | PrevChapterKey | NextHeadingKey | PrevHeadingKey
               | FirstChapterKey | LastChapterKey | BackKey

  /** `Update` on a key: nothing happens without a book. The back key
      changes the progress table, not the view (see `SaveProgress`). */
  function Update(v: View, key: Key, s: Screen): View
    requires Renderable(s)
  {
    if v.book.None? then v
    else
      match key
      case NextChapterKey => NextChapter(v, s)
      case PrevChapterKey => PrevChapter(v, s)
      case NextHeadingKey => NextHeading(v, s)
      case PrevHeadingKey => PrevHeading(v, s)
      case FirstChapterKey => FirstChapter(v, s)
      case LastChapterKey => LastChapter(v, s)
      case BackKey => v
  }

  /** `LoadBook`: the saved chapter, unless there is none or it is past the
      last chapter, in which case the first; a saved offset is restored. */
  function LoadBook(v: View, book: Book, books: map<string, Progress.BookProgress>, s: Screen): View
    requires Renderable(s)
  {
    var v1 := v.(book := Some(book));
    var saved := Progress.Find(books, book.path);
    if saved.found then
      var c := saved.progress.currentChapter;
      var c1 := if c >= ChapterCount(book) then 0 else c;
      SetYOffset(UpdateViewport(v1.(chapter := c1), s), saved.progress.scrollOffset, s)
    else UpdateViewport(v1.(chapter := 0), s)
  }

  /** `SaveProgress`: the table with this book's chapter and offset, when a
      book is loaded. */
  function SaveProgress(v: View, books: map<string, Progress.BookProgress>): (r: map<string, Progress.BookProgress>)
    ensures v.book.None? ==> r == books
    ensures v.book.Some? ==> r == Progress.Stored(books, v.book.value.path, v.chapter, v.offset)
  {
    if v.book.Some? then Progress.Stored(books, v.book.value.path, v.chapter, v.offset) else books
  }

  // ---------------------------------------------------------------------
  // Properties

  /** The state the reader keeps: the offset within the content's range and
      the heading positions strictly increasing. */
  predicate Good(v: View, s: Screen) {
    0 <= v.offset <= s.maxOffset(v.content) && Renderer.StrictlyIncreasing(v.positions)
  }

  lemma InitialGood(s: Screen)
    ensures Good(Initial, s)
  {
  }

  lemma UpdateViewportGood(v: View, s: Screen)
    requires Renderable(s) && Good(v, s)
    ensures Good(UpdateViewport(v, s), s)
  {
    UpdateViewportSpec(v, s);
  }

  /** Every key keeps the state good. */
  lemma UpdateGood(v: View, key: Key, s: Screen)
    requires Renderable(s) && Good(v, s)
    ensures Good(Update(v, key, s), s)
  {
    if v.book.Some? {
      match key
      case NextChapterKey => NextChapterKeyGood(v, s);
      case PrevChapterKey => PrevChapterKeyGood(v, s);
      case NextHeadingKey => NextHeadingKeyGood(v, s);
      case PrevHeadingKey => PrevHeadingKeyGood(v, s);
      case FirstChapterKey => FirstChapterKeyGood(v, s);
      case LastChapterKey => LastChapterKeyGood(v, s);
      case BackKey =>
    }
  }

  lemma NextChapterKeyGood(v: View, s: Screen)
    requires Renderable(s) && Good(v, s) && v.book.Some?
    ensures Good(Update(v, NextChapterKey, s), s)
  {
    NextChapterGood(v, s);
  }

  lemma PrevChapterKeyGood(v: View, s: Screen)
    requires Renderable(s) && Good(v, s) && v.book.Some?
    ensures Good(Update(v, PrevChapterKey, s), s)
  {
    UpdateViewportGood(v.(chapter := v.chapter - 1), s);
  }

  lemma NextHeadingKeyGood(v: View, s: Screen)
    requires Renderable(s) && Good(v, s) && v.book.Some?
    ensures Good(Update(v, NextHeadingKey, s), s)
  {
    NextChapterGood(v, s);
  }

  lemma PrevHeadingKeyGood(v: View, s: Screen)
    requires Renderable(s) && Good(v, s) && v.book.Some?
    ensures Good(Update(v, PrevHeadingKey, s), s)
  {
    PrevHeadingGood(v, s);
  }

  lemma FirstChapterKeyGood(v: View, s: Screen)
    requires Renderable(s) && Good(v, s) && v.book.Some?
    ensures Good(Update(v, FirstChapterKey, s), s)
  {
    UpdateViewportGood(v.(chapter := 0), s);
  }

  lemma LastChapterKeyGood(v: View, s: Screen)
    requires Renderable(s) && Good(v, s) && v.book.Some?
    ensures Good(Update(v, LastChapterKey, s), s)
  {
    UpdateViewportGood(v.(chapter := ChapterCount(v.book.value) - 1), s);
  }

  lemma NextChapterGood(v: View, s: Screen)
    requires Renderable(s) && Good(v, s)
    ensures Good(NextChapter(v, s), s)
  {
    if v.book.Some? && v.chapter < ChapterCount(v.book.value) - 1 {
      var w := v.(chapter := v.chapter + 1);
      UpdateViewportGood(w, s);
      assert NextChapter(v, s) == UpdateViewport(w, s);
    }
  }

  lemma PrevHeadingGood(v: View, s: Screen)
    requires Renderable(s) && Good(v, s)
    ensures Good(PrevHeading(v, s), s)
  {
    UpdateViewportGood(v.(chapter := v.chapter - 1), s);
  }

  /** Loading a book leaves the state good. */
  lemma LoadBookGood(v: View, book: Book, books: map<string, Progress.BookProgress>, s: Screen)
    requires Renderable(s) && Good(v, s)
    ensures Good(LoadBook(v, book, books, s), s)
  {
    var v1 := v.(book := Some(book));
    UpdateViewportGood(v1.(chapter := 0), s);
    var saved := Progress.Find(books, book.path);
    if saved.found {
      var c := saved.progress.currentChapter;
      UpdateViewportGood(v1.(chapter := if c >= ChapterCount(book) then 0 else c), s);
    }
  }

  /** Next chapter moves on by one exactly when there is a later chapter,
      and then shows it from the top (given a theme); otherwise nothing
      changes. Previous chapter likewise moves back by one exactly when the
      current chapter is past the first. */
  lemma ChapterSteps(v: View, s: Screen)
    requires Renderable(s)
    ensures var r := NextChapter(v, s);
            && (v.book.Some? && v.chapter < ChapterCount(v.book.value) - 1 ==>
                  && r.chapter == v.chapter + 1 && r.book == v.book
                  && (s.themed && v.chapter >= -1 ==> r.offset == 0))
            && (v.book.None? || v.chapter >= ChapterCount(v.book.value) - 1 ==> r == v)
    ensures var r := PrevChapter(v, s);
            && (v.chapter > 0 ==>
                  && r.chapter == v.chapter - 1 && r.book == v.book
                  && (v.book.Some? && s.themed && v.chapter <= ChapterCount(v.book.value) ==> r.offset == 0))
            && (v.chapter <= 0 ==> r == v)
  {
    UpdateViewportSpec(v.(chapter := v.chapter + 1), s);
    UpdateViewportSpec(v.(chapter := v.chapter - 1), s);
  }

  /** Next heading: with a heading below the offset, the chapter stays and
      the offset goes to the nearest such heading (clamped to the content);
      with none, it is exactly next chapter, whose new chapter starts at the
      top. */
  lemma NextHeadingSpec(v: View, s: Screen)
    requires Renderable(s) && Good(v, s)
    ensures var r := NextHeading(v, s);
            var n := FirstAfter(v.positions, v.offset);
            && (n >= 0 ==> r == v.(offset := r.offset) &&
                           n in v.positions && n > v.offset &&
                           (forall i :: 0 <= i < |v.positions| && v.positions[i] > v.offset ==> n <= v.positions[i]) &&
                           (n <= s.maxOffset(v.content) ==> r.offset == n))
            && (n < 0 ==> (forall i :: 0 <= i < |v.positions| ==> v.positions[i] <= v.offset) &&
                          r == NextChapter(v, s))
  {
    NearestHeadings(v.positions, v.offset);
    FirstAfterSpec(v.positions, v.offset);
  }

  /** Previous heading: with a heading above the offset, the chapter stays
      and the offset goes to the nearest such heading; with none, at chapter
      0 nothing changes, and otherwise the previous chapter is shown from its
      last heading when it has one, else from the top. */
  lemma PrevHeadingSpec(v: View, s: Screen)
    requires Renderable(s) && Good(v, s)
    ensures var r := PrevHeading(v, s);
            var p := LastBefore(v.positions, v.offset);
            && (p >= 0 ==> r == v.(offset := r.offset) && r.offset == p && p in v.positions &&
                           forall i :: 0 <= i < |v.positions| && v.positions[i] < v.offset ==> v.positions[i] <= p)
            && (p < 0 && v.chapter <= 0 ==> r == v)
            && (p < 0 && v.chapter > 0 ==> r.chapter == v.chapter - 1 && r.book == v.book)
            && (p < 0 && v.chapter > 0 && v.book.Some? && s.themed && v.chapter <= ChapterCount(v.book.value) ==>
                  var shown := Shown(v.book.value, v.book.value.chapters[v.chapter - 1], s);
                  && r.positions == shown.headingPositions
                  && (shown.headingPositions == [] ==> r.offset == 0)
                  && (shown.headingPositions != [] &&
                      shown.headingPositions[|shown.headingPositions| - 1] <= s.maxOffset(shown.text) ==>
                        r.offset == shown.headingPositions[|shown.headingPositions| - 1]))
  {
    NearestHeadings(v.positions, v.offset);
    LastBeforeSpec(v.positions, v.offset);
    UpdateViewportSpec(v.(chapter := v.chapter - 1), s);
  }

  /** First chapter goes to chapter 0; last chapter to the count less one,
      which is -1 for a book without chapters, where nothing is shown. */
  lemma FirstLastSpec(v: View, s: Screen)
    requires Renderable(s)
    ensures FirstChapter(v, s).chapter == 0
    ensures v.book.Some? ==> LastChapter(v, s).chapter == ChapterCount(v.book.value) - 1
    ensures v.book.Some? && v.book.value.chapters == [] ==>
              LastChapter(v, s) == v.(chapter := -1)
  {
    UpdateViewportSpec(v.(chapter := 0), s);
    if v.book.Some? {
      UpdateViewportSpec(v.(chapter := ChapterCount(v.book.value) - 1), s);
    }
  }

  /** Loading a book: the saved chapter when there is one below the chapter
      count (even a negative one), else chapter 0; that chapter as the
      viewport shows it; the saved offset clamped to the content, or the
      top of the chapter when nothing was saved. */
  lemma LoadBookSpec(v: View, book: Book, books: map<string, Progress.BookProgress>, s: Screen)
    requires Renderable(s)
    ensures var r := LoadBook(v, book, books, s);
            var saved := Progress.Find(books, book.path);
            && r.book == Some(book)
            && (!saved.found ==> r.chapter == 0)
            && (saved.found && saved.progress.currentChapter >= ChapterCount(book) ==> r.chapter == 0)
            && (saved.found && saved.progress.currentChapter < ChapterCount(book) ==>
                  r.chapter == saved.progress.currentChapter)
            && (s.themed && 0 <= r.chapter < ChapterCount(book) ==>
                  && r.content == Shown(book, book.chapters[r.chapter], s).text
                  && r.positions == Shown(book, book.chapters[r.chapter], s).headingPositions)
            && (saved.found ==>
                  && 0 <= r.offset <= s.maxOffset(r.content)
                  && (0 <= saved.progress.scrollOffset <= s.maxOffset(r.content) ==>
                        r.offset == saved.progress.scrollOffset))
            && (!saved.found ==> r.offset == if s.themed && ChapterCount(book) > 0 then 0 else v.offset)
  {
    var v1 := v.(book := Some(book));
    UpdateViewportSpec(v1.(chapter := 0), s);
    var saved := Progress.Find(books, book.path);
    if saved.found {
      var c := saved.progress.currentChapter;
      UpdateViewportSpec(v1.(chapter := if c >= ChapterCount(book) then 0 else c), s);
    }
  }

  /** Saving and loading again restores the chapter, when it is still
      below the chapter count. */
  lemma SaveThenLoad(v: View, books: map<string, Progress.BookProgress>, s: Screen)
    requires Renderable(s)
    requires v.book.Some? && v.chapter < ChapterCount(v.book.value)
    ensures LoadBook(Initial, v.book.value, SaveProgress(v, books), s).chapter == v.chapter
  {
    Progress.GetAfterSet(books, v.book.value.path, v.chapter, v.offset);
    LoadBookSpec(Initial, v.book.value, SaveProgress(v, books), s);
  }

  /** A view that shows its chapter as the viewport renders it, at an
      offset the viewport allows, comes back whole from saving and loading
      its book again. */
  lemma SaveThenLoadRestores(v: View, books: map<string, Progress.BookProgress>, s: Screen)
    requires Renderable(s) && s.themed
    requires v.book.Some? && 0 <= v.chapter < ChapterCount(v.book.value)
    requires v.content == Shown(v.book.value, v.book.value.chapters[v.chapter], s).text
    requires v.positions == Shown(v.book.value, v.book.value.chapters[v.chapter], s).headingPositions
    requires 0 <= v.offset <= s.maxOffset(v.content)
    ensures LoadBook(Initial, v.book.value, SaveProgress(v, books), s) == v
  {
    Progress.GetAfterSet(books, v.book.value.path, v.chapter, v.offset);
    LoadBookSpec(Initial, v.book.value, SaveProgress(v, books), s);
  }
}
