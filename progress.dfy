/** The reading-progress table (`config/progress.go`): one record per book
    path, holding the chapter and the scroll offset last read. */
module Progress {
  import opened Results

  datatype BookProgress = BookProgress(bookPath: string, currentChapter: int, scrollOffset: int)

  /** Go's zero `BookProgress`, which a lookup of an absent key returns. */
  const NoProgress := BookProgress("", 0, 0)

  /** What `GetBookProgress` returns: the record and whether it exists. */
  datatype Lookup = Lookup(progress: BookProgress, found: bool)

  /** A lookup in the table: the stored record, or the zero record and
      `false` for a path that has none. */
  function Find(books: map<string, BookProgress>, bookPath: string): (r: Lookup)
    ensures r.found <==> bookPath in books
    ensures r.found ==> r.progress == books[bookPath]
    ensures !r.found ==> r.progress == NoProgress
  {
    if bookPath in books then Lookup(books[bookPath], true) else Lookup(NoProgress, false)
  }

  /** The table after `SetBookProgress`: the key's record replaced by a
      fresh one naming the key. */
  function Stored(books: map<string, BookProgress>, bookPath: string, chapter: int, offset: int)
    : map<string, BookProgress>
  {
    books[bookPath := BookProgress(bookPath, chapter, offset)]
  }

  /** Reading back what was just stored gives exactly the stored chapter and
      offset, under the key itself. */
  lemma GetAfterSet(books: map<string, BookProgress>, bookPath: string, chapter: int, offset: int)
    ensures Find(Stored(books, bookPath, chapter, offset), bookPath)
            == Lookup(BookProgress(bookPath, chapter, offset), true)
  {
  }

  /** Storing one book's progress leaves every other book's lookup as it was. */
  lemma SetKeepsOthers(books: map<string, BookProgress>, bookPath: string, chapter: int, offset: int, other: string)
    requires other != bookPath
    ensures Find(Stored(books, bookPath, chapter, offset), other) == Find(books, other)
  {
  }

  /** Storing overwrites: the previous record of the key leaves no trace,
      and the keys are the old keys plus this one. */
  lemma SetOverwrites(books: map<string, BookProgress>, bookPath: string, c1: int, o1: int, c2: int, o2: int)
    ensures Stored(Stored(books, bookPath, c1, o1), bookPath, c2, o2) == Stored(books, bookPath, c2, o2)
    ensures Stored(books, bookPath, c1, o1).Keys == books.Keys + {bookPath}
  {
  }

  /** `ProgressData`: the table, updated in place. */
  class ProgressData {
    var books: map<string, BookProgress>

    constructor (books: map<string, BookProgress>)
      ensures this.books == books
    {
      this.books := books;
    }

    /** `GetBookProgress`. */
    function GetBookProgress(bookPath: string): (r: Lookup)
      reads this
      ensures r == Find(books, bookPath)
    {
      Find(books, bookPath)
    }

    /** `SetBookProgress`. */
    method SetBookProgress(bookPath: string, chapter: int, offset: int)
      modifies this
      ensures books == Stored(old(books), bookPath, chapter, offset)
    {
      books := books[bookPath := BookProgress(bookPath, chapter, offset)];
    }
  }

  /** What the progress file yields: the data directory could not be made,
      no file, a read failure, JSON that does not decode, or the decoded
      `books` member (`None` for a JSON `null` or a missing member). */
  datatype ProgressFile =
    | NoDataDir
    | Missing
    | Unreadable
    | Malformed
    | Decoded(books: Option<map<string, BookProgress>>)

  /** `LoadProgress` as a function of what is on disk. */
  function LoadedBooks(file: ProgressFile): (r: Result<map<string, BookProgress>>)
    ensures r.Err? <==> file.NoDataDir? || file.Unreadable? || file.Malformed?
    ensures file.Missing? ==> r == Ok(map[])
    ensures file.Decoded? && file.books.None? ==> r == Ok(map[])
    ensures file.Decoded? && file.books.Some? ==> r == Ok(file.books.value)
  {
    match file
    case NoDataDir => Err("cannot create data directory")
    case Missing => Ok(map[])
    case Unreadable => Err("failed to read progress file")
    case Malformed => Err("failed to parse progress file")
    case Decoded(books) =>
      match books
      case None => Ok(map[])
      case Some(m) => Ok(m)
  }

  /** `LoadProgress`: a table is always returned on success, empty when the
      file is missing or its `books` is null. */
  method LoadProgress(file: ProgressFile) returns (r: Result<ProgressData>)
    ensures r.Ok? <==> LoadedBooks(file).Ok?
    ensures r.Ok? ==> fresh(r.value) && r.value.books == LoadedBooks(file).value
  {
    match file {
      case NoDataDir =>
        return Err("cannot create data directory");
      case Missing =>
        var p := new ProgressData(map[]);
        return Ok(p);
      case Unreadable =>
        return Err("failed to read progress file");
      case Malformed =>
        return Err("failed to parse progress file");
      case Decoded(books) =>
        var m := if books.None? then map[] else books.value;
        var p := new ProgressData(m);
        return Ok(p);
    }
  }
}
