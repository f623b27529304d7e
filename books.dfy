/** The book model shared by the readers (`ebook/ebook.go`): chapters,
    books, formats and the chapter accessors. */
module Books {
  import opened Results

  datatype Chapter = Chapter(title: string, content: string, order: int)

  datatype Format = Unset | Epub | Text

  /** A book. `metadata` is Go's `map[string]string`; `tags` are the folder
      names between the library root and the file. */
  datatype Book = Book(
    path: string,
    title: string,
    author: string,
    format: Format,
    chapters: seq<Chapter>,
    metadata: map<string, string>,
    tags: seq<string>)

  /** What the library list shows for a file before the book is opened. */
  datatype BookInfo = BookInfo(path: string, title: string, author: string, tags: seq<string>)

  /** A book as the readers create it: only a title, no chapters yet. */
  function NewBook(title: string): (b: Book)
    ensures b.title == title && b.chapters == [] && b.metadata == map[]
    ensures b.path == "" && b.author == "" && b.format == Unset && b.tags == []
  {
    Book("", title, "", Unset, [], map[], [])
  }

  /** `Book.GetChapter`: no chapter for an index outside the chapter list. */
  function GetChapter(b: Book, index: int): (r: Option<Chapter>)
    ensures r.None? <==> index < 0 || index >= |b.chapters|
    ensures r.Some? ==> 0 <= index < |b.chapters| && r.value == b.chapters[index]
  {
    if index < 0 || index >= |b.chapters| then None else Some(b.chapters[index])
  }

  /** `Book.ChapterCount`. */
  function ChapterCount(b: Book): (n: nat)
    ensures n == |b.chapters|
    ensures forall i :: 0 <= i < n <==> GetChapter(b, i).Some?
  {
    |b.chapters|
  }
}
