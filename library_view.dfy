/** The library list (`tui/library.go`): one item per listed book, its
    description line and the text the list filters on, and the
    finished-toggle key. */
module LibraryView {
  import opened TextUtil
  import opened Books
  import Progress

  /** `bookItem`. `completion` is the completion percentage. */
  datatype BookItem = BookItem(
    title: string,
    author: string,
    path: string,
    tags: seq<string>,
    completion: real,
    finished: bool)

  /** The separator of the description's parts. */
  const Bullet := " • "

  const FinishedMark := "✓ Finished"

  /** The tags part: a folder sign and the tags joined by slashes. */
  function TagsPart(tags: seq<string>): (r: string)
    ensures |r| >= 2 && r[..2] == "📁 "
  {
    "📁 " + Join(tags, " / ")
  }

  /** The parts of the description, in order: the tags when there are some,
      the author when there is one, and the status: finished, else the
      percentage when some reading was done. `percent` is the `%.0f%%`
      formatting of the completion. */
  function Parts(item: BookItem, percent: real -> string): seq<string> {
    (if |item.tags| > 0 then [TagsPart(item.tags)] else [])
    + (if item.author != "" then [item.author] else [])
    + (if item.finished then [FinishedMark]
       else if item.completion > 0.0 then [percent(item.completion)]
       else [])
  }

  /** The parts are tags, author and status in this order, each present
      exactly when its condition holds; finished wins over the percentage. */
  lemma PartsSpec(item: BookItem, percent: real -> string)
    ensures var ps := Parts(item, percent);
            var t := if |item.tags| > 0 then 1 else 0;
            var a := if item.author != "" then 1 else 0;
            var st := if item.finished || item.completion > 0.0 then 1 else 0;
            && |ps| == t + a + st
            && (t == 1 ==> ps[0] == TagsPart(item.tags))
            && (a == 1 ==> ps[t] == item.author)
            && (item.finished ==> ps[|ps| - 1] == FinishedMark)
            && (!item.finished && item.completion > 0.0 ==> ps[|ps| - 1] == percent(item.completion))
            && (!item.finished && item.completion <= 0.0 ==> |ps| == t + a)
  {
  }

  /** `bookItem.Description`. */
  method Description(item: BookItem, percent: real -> string) returns (r: string)
    ensures r == Join(Parts(item, percent), Bullet)
  {
    var parts: seq<string> := [];
    if |item.tags| > 0 {
      parts := parts + ["📁 " + Join(item.tags, " / ")];
    }
    if item.author != "" {
      parts := parts + [item.author];
    }
    if item.finished {
      parts := parts + [FinishedMark];
    } else if item.completion > 0.0 {
      parts := parts + [percent(item.completion)];
    }
    assert parts == Parts(item, percent);
    return Join(parts, Bullet);
  }

  /** A description of a single part is that part, and of none is "". */
  lemma DescriptionOfOne(item: BookItem, percent: real -> string)
    ensures |item.tags| == 0 && item.author == "" && !item.finished && item.completion <= 0.0 ==>
              Join(Parts(item, percent), Bullet) == ""
    ensures |item.tags| == 0 && item.author == "" && item.finished ==>
              Join(Parts(item, percent), Bullet) == FinishedMark
    ensures |item.tags| > 0 && item.author != "" && item.finished ==>
              Join(Parts(item, percent), Bullet) ==
                TagsPart(item.tags) + Bullet + item.author + Bullet + FinishedMark
  {
    var ps := Parts(item, percent);
    if |item.tags| > 0 && item.author != "" && item.finished {
      assert ps == [TagsPart(item.tags), item.author, FinishedMark];
      assert ps[1..] == [item.author, FinishedMark];
      assert ps[1..][1..] == [FinishedMark];
      assert Join(ps[1..], Bullet) == item.author + Bullet + FinishedMark;
    }
  }

  /** `bookItem.FilterValue`: the title, then the author and the tags, each
      after a space when present. */
  function FilterValue(item: BookItem): (r: string)
    ensures |r| >= |item.title| && r[..|item.title|] == item.title
  {
    var v := item.title;
    var v1 := if item.author != "" then v + " " + item.author else v;
    var v2 := if |item.tags| > 0 then v1 + " " + Join(item.tags, " ") else v1;
    assert v2[..|v|] == v;
    v2
  }

  /** Filtering sees every word: the words of the filter text are the
      title's, then the author's, then each tag's. */
  lemma FilterValueWords(item: BookItem)
    ensures Fields(FilterValue(item)) ==
            Fields(item.title) + Fields(item.author) + FieldsOfLines(item.tags)
  {
    var v1 := if item.author != "" then item.title + " " + item.author else item.title;
    if item.author != "" {
      SpacedWords(item.title, item.author);
    } else {
      assert Fields(item.author) == [];
    }
    if |item.tags| > 0 {
      FieldsJoinSpace(item.tags, ' ');
      assert [' '] == " ";
      SpacedWords(v1, Join(item.tags, " "));
      assert FilterValue(item) == v1 + " " + Join(item.tags, " ");
    } else {
      assert FieldsOfLines(item.tags) == [];
      assert FilterValue(item) == v1;
    }
  }

  /** A space between two texts keeps their words apart. */
  lemma SpacedWords(a: string, b: string)
    ensures Fields(a + " " + b) == Fields(a) + Fields(b)
  {
    FieldsAllSpace(" ");
    FieldsAppend(" ", b);
    assert a + " " + b == a + (" " + b);
    FieldsAppend(a, " " + b);
  }

  // ---------------------------------------------------------------------
  // Items from the listing

  /** What the progress record gives an item. `Finished` and the completion
      percentage belong to the record but are computed outside this model. */
  datatype ProgressView = ProgressView(
    finishedOf: Progress.BookProgress -> bool,
    completionOf: Progress.BookProgress -> real)

  /** The item for a listed book: the path when it has no title, and no
      completion and not finished when it has no progress record. */
  function ItemOf(info: BookInfo, books: map<string, Progress.BookProgress>, pv: ProgressView): (item: BookItem)
    ensures item.path == info.path && item.tags == info.tags && item.author == info.author
    ensures item.title == (if info.title != "" then info.title else info.path)
    ensures info.path !in books ==> item.completion == 0.0 && !item.finished
    ensures info.path in books ==>
              item.completion == pv.completionOf(books[info.path]) &&
              item.finished == pv.finishedOf(books[info.path])
  {
    var title := if info.title != "" then info.title else info.path;
    var saved := Progress.Find(books, info.path);
    var completion := if saved.found then pv.completionOf(saved.progress) else 0.0;
    var finished := if saved.found then pv.finishedOf(saved.progress) else false;
    BookItem(title, info.author, info.path, info.tags, completion, finished)
  }

  /** The items after the books are loaded: one per book, in order. */
  function Items(infos: seq<BookInfo>, books: map<string, Progress.BookProgress>, pv: ProgressView): (items: seq<BookItem>)
    ensures |items| == |infos|
    ensures forall i :: 0 <= i < |infos| ==> items[i] == ItemOf(infos[i], books, pv)
  {
    seq(|infos|, i requires 0 <= i < |infos| => ItemOf(infos[i], books, pv))
  }

  /** The `BooksLoadedMsg` branch of `Update`: the items for the listed
      books. */
  method LoadItems(infos: seq<BookInfo>, progress: Progress.ProgressData, pv: ProgressView)
    returns (items: seq<BookItem>)
    ensures items == Items(infos, progress.books, pv)
  {
    items := [];
    for i := 0 to |infos|
      invariant |items| == i
      invariant forall k :: 0 <= k < i ==> items[k] == ItemOf(infos[k], progress.books, pv)
    {
      var bookInfo := infos[i];
      var title := bookInfo.path;
      var author := "";
      if bookInfo.title != "" {
        title := bookInfo.title;
      }
      if bookInfo.author != "" {
        author := bookInfo.author;
      }
      var completion := 0.0;
      var finished := false;
      var saved := progress.GetBookProgress(bookInfo.path);
      if saved.found {
        completion := pv.completionOf(saved.progress);
        finished := pv.finishedOf(saved.progress);
      }
      items := items + [BookItem(title, author, bookInfo.path, bookInfo.tags, completion, finished)];
    }
  }

  /** The request the "f" key makes for the selected item: its path and the
      opposite of its finished flag. */
  datatype FinishedRequest = FinishedRequest(path: string, finished: bool)

  function ToggleFinished(item: BookItem): (r: FinishedRequest)
    ensures r.path == item.path && r.finished == !item.finished
  {
    FinishedRequest(item.path, !item.finished)
  }

  /** Toggling twice asks for the item's own flag back. */
  lemma ToggleTwice(item: BookItem)
    ensures ToggleFinished(item.(finished := ToggleFinished(item).finished)).finished == item.finished
  {
  }
}
