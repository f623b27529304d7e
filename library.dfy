/** Opening books and listing a library folder (`ebook/ebook.go`): the
    extension decides the reader, and the folders between the library root
    and a file become its tags. */
module Library {
  import opened Results
  import opened TextUtil
  import opened Books
  import Epub
  import TextBook

  // ---------------------------------------------------------------------
  // extractTags

  /** The folder names kept as tags: every part but "" and ".", in order. */
  function KeptParts(parts: seq<string>): (tags: seq<string>)
    ensures |tags| <= |parts|
    ensures forall t :: t in tags <==> t in parts && t != "" && t != "."
  {
    if parts == [] then []
    else
      var rest := KeptParts(parts[..|parts| - 1]);
      var last := parts[|parts| - 1];
      assert parts == parts[..|parts| - 1] + [last];
      if last != "" && last != "." then rest + [last] else rest
  }

  /** When no part is "" or ".", every part is kept. */
  lemma {:induction false} KeptAll(parts: seq<string>)
    requires forall i :: 0 <= i < |parts| ==> parts[i] != "" && parts[i] != "."
    ensures KeptParts(parts) == parts
  {
    if parts != [] {
      KeptAll(parts[..|parts| - 1]);
      assert parts[..|parts| - 1] + [parts[|parts| - 1]] == parts;
    }
  }

  /** `extractTags` as a function. `rel` is `filepath.Rel` (`None` when it
      fails) and `clean` is `filepath.Clean`. */
  function Tags(bookPath: string, libraryRoot: string,
                rel: (string, string) -> Option<string>, clean: string -> string): seq<string>
  {
    match rel(libraryRoot, bookPath)
    case None => []
    case Some(relPath) =>
      var dir := Dir(relPath, clean);
      if dir == "." then [] else KeptParts(Split(dir, '/'))
  }

  /** No tags when `Rel` fails or the book sits in the root; otherwise the
      folder names of the relative directory, in order, without "" and ".",
      none holding a slash; and when the directory has no empty or "."
      component the tags joined by slashes give it back. */
  lemma TagsSpec(bookPath: string, libraryRoot: string,
                 rel: (string, string) -> Option<string>, clean: string -> string)
    ensures var tags := Tags(bookPath, libraryRoot, rel, clean);
            && (rel(libraryRoot, bookPath).None? ==> tags == [])
            && (rel(libraryRoot, bookPath).Some? && Dir(rel(libraryRoot, bookPath).value, clean) == "." ==> tags == [])
            && (forall t :: t in tags ==> t != "" && t != "." && '/' !in t)
            && (rel(libraryRoot, bookPath).Some? ==>
                  var dir := Dir(rel(libraryRoot, bookPath).value, clean);
                  var parts := Split(dir, '/');
                  && (dir != "." ==> forall t :: t in tags <==> t in parts && t != "" && t != ".")
                  && (dir != "." && (forall i :: 0 <= i < |parts| ==> parts[i] != "" && parts[i] != ".") ==>
                        Join(tags, "/") == dir))
  {
    var r := rel(libraryRoot, bookPath);
    if r.Some? {
      var dir := Dir(r.value, clean);
      var parts := Split(dir, '/');
      if dir != "." && (forall i :: 0 <= i < |parts| ==> parts[i] != "" && parts[i] != ".") {
        KeptAll(parts);
        JoinSplit(dir, '/');
      }
    }
  }

  /** `extractTags`. */
  method ExtractTags(bookPath: string, libraryRoot: string,
                     rel: (string, string) -> Option<string>, clean: string -> string)
    returns (tags: seq<string>)
    ensures tags == Tags(bookPath, libraryRoot, rel, clean)
  {
    var relPath := rel(libraryRoot, bookPath);
    if relPath.None? {
      return [];
    }
    var dir := Dir(relPath.value, clean);
    if dir == "." {
      return [];
    }
    var parts := Split(dir, '/');
    tags := [];
    for i := 0 to |parts|
      invariant tags == KeptParts(parts[..i])
    {
      assert parts[..i + 1][..i] == parts[..i];
      var part := parts[i];
      if part != "" && part != "." {
        tags := tags + [part];
      }
    }
    assert parts[..|parts|] == parts;
  }

  // ---------------------------------------------------------------------
  // Open

  /** The formats the library knows, by lower-cased extension. */
  function FormatOf(ext: string): (f: Format)
    ensures f == Epub <==> ext == ".epub"
    ensures f == Text <==> ext == ".txt"
  {
    if ext == ".epub" then Epub else if ext == ".txt" then Text else Unset
  }

  /** What a file holds, as each reader would see it: the archive for the
      EPUB reader and the scanned lines for the plain-text reader. */
  datatype Source = Source(archive: Option<seq<Epub.Entry>>, std: Epub.Std, text: TextBook.TextFile)

  /** `Open` as a function: the reader chosen by the lower-cased extension,
      its error passed on, and on success the format and path set. */
  function Opened(path: string, src: Source): Result<Book> {
    var ext := ToLower(Ext(path));
    var read :=
      if ext == ".epub" then Epub.EpubRead(path, src.archive, src.std)
      else if ext == ".txt" then TextBook.TextRead(path, src.text)
      else Err("unsupported file format: " + ext);
    match read
    case Err(msg) => Err(msg)
    case Ok(book) => Ok(book.(format := FormatOf(ext), path := path))
  }

  /** Only ".epub" and ".txt" open, in any letter case; a book that opens
      carries the format its extension names and the path it was opened
      from, and otherwise is the chosen reader's book. */
  lemma OpenedSpec(path: string, src: Source)
    ensures var ext := ToLower(Ext(path));
            var r := Opened(path, src);
            && (ext != ".epub" && ext != ".txt" ==> r == Err("unsupported file format: " + ext))
            && (r.Ok? ==> r.value.path == path && r.value.format != Unset)
            && (r.Ok? && ext == ".epub" ==>
                  r.value.format == Epub &&
                  r.value == Epub.EpubRead(path, src.archive, src.std).value.(format := Epub, path := path))
            && (r.Ok? && ext == ".txt" ==>
                  r.value.format == Text &&
                  r.value == TextBook.TextRead(path, src.text).value.(format := Text, path := path))
            && (ext == ".txt" ==> (r.Ok? <==> src.text.Scanned?))
  {
    TextBook.TextReadSpec(path, src.text);
  }

  /** `Open`. */
  method Open(path: string, src: Source) returns (r: Result<Book>)
    ensures r == Opened(path, src)
  {
    var ext := ToLower(Ext(path));
    var format: Format;
    var book: Result<Book>;
    if ext == ".epub" {
      format := Epub;
      book := Epub.ReadEpub(path, src.archive, src.std);
    } else if ext == ".txt" {
      format := Text;
      book := TextBook.ReadText(path, src.text);
    } else {
      return Err("unsupported file format: " + ext);
    }
    if book.Err? {
      return Err(book.msg);
    }
    var b := book.value.(format := format, path := path);
    return Ok(b);
  }

  // ---------------------------------------------------------------------
  // ListBooks

  /** What the directory walk reports, in walk order: an error, or a path
      and whether it is a directory. */
  datatype Visit = Failed(msg: string) | Visited(path: string, isDir: bool)

  /** The extensions the library lists. */
  predicate IsBookPath(path: string) {
    var ext := ToLower(Ext(path));
    ext == ".epub" || ext == ".txt"
  }

  /** The listing entry of a book file: its path and tags, and the title and
      author of the book when it opens. */
  function Info(path: string, dir: string, open: string -> Result<Book>,
                rel: (string, string) -> Option<string>, clean: string -> string): (b: BookInfo)
    ensures b.path == path && b.tags == Tags(path, dir, rel, clean)
    ensures open(path).Ok? ==> b.title == open(path).value.title && b.author == open(path).value.author
    ensures open(path).Err? ==> b.title == "" && b.author == ""
  {
    var info := BookInfo(path, "", "", Tags(path, dir, rel, clean));
    match open(path)
    case Ok(book) => info.(title := book.title, author := book.author)
    case Err(_) => info
  }

  /** `ListBooks` over the visits so far: the first error aborts the walk;
      otherwise one entry per book file, in walk order. `open` is `Open` on
      the file system. */
  function Listing(visits: seq<Visit>, dir: string, open: string -> Result<Book>,
                   rel: (string, string) -> Option<string>, clean: string -> string): Result<seq<BookInfo>>
  {
    if visits == [] then Ok([])
    else
      match Listing(visits[..|visits| - 1], dir, open, rel, clean)
      case Err(msg) => Err(msg)
      case Ok(books) =>
        match visits[|visits| - 1]
        case Failed(msg) => Err(msg)
        case Visited(path, isDir) =>
          if !isDir && IsBookPath(path) then Ok(books + [Info(path, dir, open, rel, clean)])
          else Ok(books)
  }

  /** The book files among the visits, in walk order. */
  function BookFiles(visits: seq<Visit>): (paths: seq<string>)
    ensures forall p :: p in paths <==> Visited(p, false) in visits && IsBookPath(p)
  {
    if visits == [] then []
    else
      var rest := BookFiles(visits[..|visits| - 1]);
      var v := visits[|visits| - 1];
      assert visits == visits[..|visits| - 1] + [v];
      if v.Visited? && !v.isDir && IsBookPath(v.path) then rest + [v.path] else rest
  }

  /** The listing fails exactly when the walk reports an error, with the
      first error's message; otherwise it is one entry per non-directory
      ".epub" or ".txt" file (any letter case), in walk order. */
  lemma ListingSpec(visits: seq<Visit>, dir: string, open: string -> Result<Book>,
                    rel: (string, string) -> Option<string>, clean: string -> string)
    ensures var r := Listing(visits, dir, open, rel, clean);
            && (r.Err? <==> exists i :: 0 <= i < |visits| && visits[i].Failed?)
            && (r.Err? ==> exists i :: 0 <= i < |visits| && visits[i].Failed? && r.msg == visits[i].msg &&
                                       forall j :: 0 <= j < i ==> visits[j].Visited?)
            && (r.Ok? ==> |r.value| == |BookFiles(visits)| &&
                          forall k :: 0 <= k < |r.value| ==>
                            r.value[k] == Info(BookFiles(visits)[k], dir, open, rel, clean))
  {
    ListingFails(visits, dir, open, rel, clean);
    ListingBooks(visits, dir, open, rel, clean);
  }

  lemma {:induction false} ListingFails(visits: seq<Visit>, dir: string, open: string -> Result<Book>,
                                        rel: (string, string) -> Option<string>, clean: string -> string)
    ensures var r := Listing(visits, dir, open, rel, clean);
            && (r.Err? <==> exists i :: 0 <= i < |visits| && visits[i].Failed?)
            && (r.Err? ==> exists i :: 0 <= i < |visits| && visits[i].Failed? && r.msg == visits[i].msg &&
                                       forall j :: 0 <= j < i ==> visits[j].Visited?)
  {
    if visits != [] {
      var init := visits[..|visits| - 1];
      var v := visits[|visits| - 1];
      ListingFails(init, dir, open, rel, clean);
      assert forall i :: 0 <= i < |init| ==> init[i] == visits[i];
      var r := Listing(visits, dir, open, rel, clean);
      var r0 := Listing(init, dir, open, rel, clean);
      if r0.Err? {
        var i :| 0 <= i < |init| && init[i].Failed? && r0.msg == init[i].msg &&
                 forall j :: 0 <= j < i ==> init[j].Visited?;
        assert visits[i].Failed? && r.msg == visits[i].msg;
      } else if v.Failed? {
        assert forall j :: 0 <= j < |visits| - 1 ==> visits[j].Visited?;
      } else {
        assert forall j :: 0 <= j < |visits| ==> visits[j].Visited?;
      }
    }
  }

  lemma {:induction false} ListingBooks(visits: seq<Visit>, dir: string, open: string -> Result<Book>,
                                        rel: (string, string) -> Option<string>, clean: string -> string)
    ensures var r := Listing(visits, dir, open, rel, clean);
            r.Ok? ==> |r.value| == |BookFiles(visits)| &&
                      forall k :: 0 <= k < |r.value| ==>
                        r.value[k] == Info(BookFiles(visits)[k], dir, open, rel, clean)
  {
    if visits != [] {
      var init := visits[..|visits| - 1];
      ListingBooks(init, dir, open, rel, clean);
    }
  }

  /** `ListBooks`: walk the visits, stop at the first error, keep the book
      files. */
  method ListBooks(visits: seq<Visit>, dir: string, open: string -> Result<Book>,
                   rel: (string, string) -> Option<string>, clean: string -> string)
    returns (r: Result<seq<BookInfo>>)
    ensures r == Listing(visits, dir, open, rel, clean)
  {
    var books: seq<BookInfo> := [];
    for i := 0 to |visits|
      invariant Listing(visits[..i], dir, open, rel, clean) == Ok(books)
    {
      assert visits[..i + 1][..i] == visits[..i];
      match visits[i]
      case Failed(msg) =>
        assert Listing(visits[..i + 1], dir, open, rel, clean) == Err(msg);
        ListingStops(visits, i + 1, dir, open, rel, clean);
        return Err(msg);
      case Visited(path, isDir) =>
        if isDir {
          continue;
        }
        var ext := ToLower(Ext(path));
        if ext == ".epub" || ext == ".txt" {
          var tags := ExtractTags(path, dir, rel, clean);
          var bookInfo := BookInfo(path, "", "", tags);
          var book := open(path);
          if book.Ok? {
            bookInfo := bookInfo.(title := book.value.title, author := book.value.author);
          }
          books := books + [bookInfo];
        }
    }
    assert visits[..|visits|] == visits;
    return Ok(books);
  }

  /** Once the walk has failed, later visits change nothing. */
  lemma {:induction false} ListingStops(visits: seq<Visit>, n: nat, dir: string, open: string -> Result<Book>,
                                        rel: (string, string) -> Option<string>, clean: string -> string)
    requires n <= |visits|
    requires Listing(visits[..n], dir, open, rel, clean).Err?
    ensures Listing(visits, dir, open, rel, clean) == Listing(visits[..n], dir, open, rel, clean)
    decreases |visits| - n
  {
    if n < |visits| {
      assert visits[..n + 1][..n] == visits[..n];
      ListingStops(visits, n + 1, dir, open, rel, clean);
    } else {
      assert visits[..n] == visits;
    }
  }
}
