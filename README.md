# cozy e-book reader core, in Dafny

This project models the core of cozy, a terminal e-book reader written in
Go, and proves properties of that model. It covers:

- **Books** (`ebook/ebook.go`): the book, chapter and format types. It also
  covers the chapter accessors, the extension dispatch of `Open`, the
  library listing `ListBooks` and the folder tags of `extractTags`.
- **EPUB reading** (`ebook/epub.go`): tag stripping, the plain-text
  extraction `htmlToText` and chapter titles. It also covers the manifest
  map, the spine-order chapter assembly of `Read`, and the `readFallback`
  that collects the archive's HTML files when there is no usable package
  document. The manifest and spine are those of section 5.5 "Manifest" and
  section 5.6 "Spine" of the EPUB 3.3 Package Document.
- **Plain-text reading** (`ebook/text.go`): the single-chapter book and
  the page splitter `splitIntoPages`.
- **The renderer** (`ebook/renderer.go`): the depth-first walk over the
  parsed HTML tree that writes styled text to one buffer. The walk gives
  every element a copy of the render context and records the buffer's line
  count at every `h2`/`h3`. It also covers full justification
  (`justifyText`) and the fallback to the plain-text extraction.
- **Reading progress** (`config/progress.go`): the table from book path to
  chapter and scroll offset.
- **The reader** (`tui/reader.go`): the navigation keys, loading a book at
  its saved place, and saving the place.
- **The library list** (`tui/library.go`): the item description, the
  filter text, the items built from the listing, and the finished toggle.

Modules follow these source areas: `Books`, `Epub`, `TextBook`, `Library`,
`Renderer`, `Justify`, `Progress`, `Navigation`, `Reader` and
`LibraryView`. `TextUtil` models the Go `strings`/`filepath` functions the
core calls, and `Results` holds `Option` and `Result`.

Code that changes state step by step is modelled as imperative Dafny. Each
method is proved equal to a specification function, and the properties
are proved as lemmas about that function:

- `Progress.ProgressData` holds the progress map and updates it in place.
- `Renderer.Renderer` holds the heading positions and writes into a
  `Renderer.Builder`.
- `Reader.ReaderModel` holds the reader's chapter, positions, offset and
  content.
- Every loop of the source is a method with its invariants, proved against
  the specification function: `justifyText`, `stripHTMLTags`,
  `htmlToText`, the spine and fallback loops, `splitIntoPages`, the line
  scan of `TextReader.Read`, the heading scans of `Update`,
  `extractTags`, `ListBooks`, and the item loop of the library `Update`.

Foreign code becomes parameters:

- `Renderer.Env` stands for `wordwrap.String` and lipgloss `Render` under
  the theme.
- `html.Parse` becomes an `Option<Node>`, where `None` is a parse failure.
- `Epub.Std` stands for XML decoding and `filepath.Clean`.
- `Navigation.Screen` stands for the viewport's width and its largest
  offset.
- `filepath.Rel`, `filepath.Walk` and `Open` become function parameters or
  input sequences.
- The archive and the scanned lines of a file are inputs (`Epub.Entry`,
  `TextBook.TextFile`).

Lengths are character counts. Go's `len` counts bytes, so the model
matches the source on ASCII text.

Heading positions are counted against the untrimmed buffer, while the text
the reader shows is `TrimSpace`d (`renderer.go:64`). So a position is a
line index of the buffer before trimming. `Renderer.RenderedSpec` states
the positions against that buffer, and `Renderer.LeadingHeadingPosition`
shows the shift for a chapter that opens with a heading.

## Model

| member | source | states |
|---|---|---|
| Books.NewBook | ebook/epub.go:66-69 | A new book has only its title: no chapters, no metadata, no path, author, format or tags |
| Books.GetChapter | ebook/ebook.go:152-157 | No chapter exactly when the index is negative or not below the chapter count; otherwise the chapter at that index |
| Books.ChapterCount | ebook/ebook.go:160-162 | The count is the number of chapters, and an index has a chapter exactly when it is below the count |
| Justify.Threshold | ebook/renderer.go:370-371 | The 0.75 threshold is three quarters of the width, truncated: 4t <= 3w < 4t + 4 and 0 <= t <= w |
| Justify.JustifiedLines | ebook/renderer.go:348-410 | One output line per input line |
| Justify.JustifiedLength | ebook/renderer.go:383-407 | A justified line is exactly `width` long |
| Justify.JustifiedWordAndGap | ebook/renderer.go:393-407 | Each word sits in the line where the previous gap ends; the gap after it has `total / gaps` spaces, one more for the first `total % gaps` gaps; the last word ends the line |
| Justify.RebuiltLine | ebook/renderer.go:376-409 | A rebuilt line is `width` long, trimmed, holds exactly its words in order, and has no newline |
| Justify.JustifyLineSpec | ebook/renderer.go:355-409 | A line is rebuilt exactly when it is non-blank, not last, not the only line, has at least two words, reaches the threshold and leaves a space per gap; otherwise it is only trimmed; either way it is trimmed and keeps its words |
| Justify.JustifiedTextSpec | ebook/renderer.go:347-413 | The output has as many lines as the input, every line trimmed, and the same sequence of words |
| Justify.JustifyText | ebook/renderer.go:347-413 | The loop computes the justified block of the specification |
| Justify.JustifyOneLine | ebook/renderer.go:356-409 | The loop body for one line computes that line's justification |
| Justify.Spread | ebook/renderer.go:376-409 | With a space for every gap the line is rebuilt to width; without, it is returned as it was |
| Justify.TotalWordLength | ebook/renderer.go:377-380 | The loop sums the word lengths |
| Justify.LayOut | ebook/renderer.go:396-407 | The loop writes the words with `base` spaces per gap and one more in the first `extra` gaps |
| Renderer.Min | ebook/renderer.go:338-343 | The result is one of the two arguments and no greater than either |
| Renderer.Max | ebook/renderer.go:302-307 | The result is one of the two arguments and no less than either |
| Renderer.EffectiveWidth | ebook/renderer.go:218-221 | The wrap width is the given width when positive, else 80 |
| Renderer.EnterContext | ebook/renderer.go:118-195 | The child context is a copy of the parent's, each flag set when the parent has it or the tag is its own: `blockquote`; `pre` for pre; `pre`, or `code` outside pre, for code; `em`/`i`; `strong`/`b`; `li`. The list level grows by one for `ul`/`ol` only, and headings set their level |
| Renderer.Rule | ebook/renderer.go:177-182 | An `hr` rule is `min(width, 80)` box-drawing characters |
| Renderer.WalkSpec | ebook/renderer.go:91-211 | Rendering a node only appends to the buffer and to the positions; it adds one position per `h2`/`h3` it enters; positions stay strictly increasing and within the buffer's line count |
| Renderer.WalkChildrenSpec | ebook/renderer.go:197-200 | The same for the children of an element, in order |
| Renderer.RenderedSpec | ebook/renderer.go:49-69 | A failed parse or a blank render gives the plain-text extraction with no positions; otherwise the trimmed buffer, one position per `h2`/`h3`, strictly increasing, each a line index of the untrimmed buffer |
| Renderer.LeadingHeadingPosition | ebook/renderer.go:119-130 | A chapter that opens with an `h2` records it at line 2, after two leading newlines that trimming removes from the shown text |
| Renderer.Renderer.RenderNode | ebook/renderer.go:91-115 | The method leaves the buffer and the positions as the walk specifies |
| Renderer.Renderer.RenderElement | ebook/renderer.go:117-211 | The same for one element: opening, children under the copied context, closing |
| Renderer.Renderer.WriteStyledText | ebook/renderer.go:214-300 | One piece of text appends its heading marker, wrap, justification, quoting and style as specified |
| Renderer.Renderer.WriteQuoted | ebook/renderer.go:242-260 | Quoted lines are written one by one; blank lines write nothing, not even their newline |
| Renderer.Renderer.RenderWithHeadings | ebook/renderer.go:49-69 | Resets the positions and returns the rendering of the specification |
| Renderer.CountNewlines | ebook/renderer.go:126-128 | The loop counts the newlines of the buffer |
| Renderer.RenderToStyledTextWithHeadings | ebook/renderer.go:323-336 | A fresh renderer's result, or the plain-text extraction when that is blank |
| Epub.Strip | ebook/epub.go:299-318 | The kept text has no `<` or `>` and is no longer than the input |
| Epub.StripHTMLTags | ebook/epub.go:299-318 | The loop with its `inTag` flag computes the stripped text |
| Epub.StripIsSubsequence | ebook/epub.go:303-315 | The stripped text is a subsequence of the input |
| Epub.StripWithoutTags | ebook/epub.go:303-315 | Text without brackets passes through unchanged |
| Epub.StripIdempotent | ebook/epub.go:299-318 | Stripping twice is stripping once |
| Epub.Cleaned | ebook/epub.go:286-293 | The kept lines are non-empty and trimmed, and no more than the input lines |
| Epub.HtmlToText | ebook/epub.go:273-296 | Breaks after block elements, strips tags, keeps the trimmed non-blank lines joined by blank lines |
| Epub.AddBlockBreaks | ebook/epub.go:277-280 | The loop appends a newline to every occurrence of each block element |
| Epub.AddBreaksFollows | ebook/epub.go:277-280 | After the loop, every occurrence of every block element in the text is followed by a newline |
| TextUtil.ReplaceAddNewlineFollows | ebook/epub.go:279 | After one replacement, every occurrence of its element is followed by a newline |
| TextUtil.ReplaceKeepsNewlineAfter | ebook/epub.go:278-280 | A later replacement keeps the newline after every occurrence of an earlier element |
| Epub.CleanLines | ebook/epub.go:286-293 | The loop keeps the trimmed non-blank lines in order |
| Epub.HtmlToTextShape | ebook/epub.go:283-295 | The text has no tag brackets; its lines alternate between a trimmed non-blank line and a blank separator, starting and ending with text |
| Epub.ExtractTitleAsWrittenPanics | ebook/epub.go:258-265 | On `<h1</h1>` the heading slice of the source runs backwards |
| Epub.ExtractTitleNone | ebook/epub.go:250-269 | Without `<title>` and `<h1` there is no title |
| Epub.ExtractTitleFromTitle | ebook/epub.go:250-256 | With a closed `<title>`, the title is a trimmed slice of the page |
| Epub.ExtractTitleFromHeading | ebook/epub.go:258-269 | Otherwise the title has no tag brackets and is a subsequence of the page |
| Epub.ExtractTitleOfTitle | ebook/epub.go:250-256 | A page whose first `<title>` holds `t`, with no `</title>` inside `t`, is titled `t` trimmed |
| Epub.ExtractTitleOfHeading | ebook/epub.go:258-266 | Without a closed `<title>`, a page whose first `<h1` opens a tag without `>` in its attributes and holds `t` before the first `</h1>` is titled `t` with its tags stripped |
| Epub.ExtractTitleMalformedHeading | ebook/epub.go:258-266 | The corrected reading gives no title for the input that panics |
| Epub.FileFromZip | ebook/epub.go:231-245 | Nothing is read when no entry has the cleaned path |
| Epub.FileFromZipFirst | ebook/epub.go:233-242 | The first entry with the cleaned path decides what is read |
| Epub.ReadFileFromZip | ebook/epub.go:231-245 | The scan returns the first matching entry's contents |
| Epub.FindOPFPath | ebook/epub.go:197-213 | The first rootfile of `container.xml`, or none when it cannot be read, decoded or lists none |
| Epub.ParseOPF | ebook/epub.go:216-228 | The decoded package document at the path, or none |
| Epub.ManifestKeys | ebook/epub.go:96-99 | An id is in the manifest map exactly when some item has it |
| Epub.ManifestLastWins | ebook/epub.go:96-99 | An id maps to the last item with that id |
| Epub.ManifestMap | ebook/epub.go:96-99 | The loop builds the manifest map |
| Epub.ChapterTitle | ebook/epub.go:118-121 | A chapter title is never empty |
| Epub.DefaultChapterTitle | ebook/epub.go:119-121 | Without a page title the title is "Chapter " and the decimal 1-based spine position |
| Epub.ChapterAt | ebook/epub.go:104-130 | A spine entry's chapter has the spine index as its order, a non-empty title and non-blank content |
| Epub.SpineChaptersSpec | ebook/epub.go:101-132 | The chapters are exactly the spine entries that yield one, in strictly increasing spine order |
| Epub.ReadSpine | ebook/epub.go:101-132 | The loop collects the spine's chapters |
| Epub.CandidatesSpec | ebook/epub.go:150-174 | The kept files are exactly the readable `.html`/`.xhtml`/`.htm` entries (any case) that are non-blank and over 100 characters |
| Epub.SortByNameSpec | ebook/epub.go:177-179 | The sorted files are in name order and are the same files |
| Epub.FallbackChapters | ebook/epub.go:181-187 | One chapter per file, titled by its base name and numbered from 0 |
| Epub.FallbackSpec | ebook/epub.go:142-194 | From a fresh book: one chapter per kept file, in name order, numbered from 0, each substantial; the title is kept |
| Epub.CollectHtmlFiles | ebook/epub.go:150-174 | The first loop collects the kept files in archive order |
| Epub.AppendFallbackChapters | ebook/epub.go:181-187 | The second loop appends a chapter per sorted file |
| Epub.ReadFallback | ebook/epub.go:142-194 | The fallback's book, with the base name minus extension when the title is empty |
| Epub.WithMetadata | ebook/epub.go:85-93 | The first title and first creator when given; a language entry only for a non-empty language; nothing else changes |
| Epub.EpubReadSpec | ebook/epub.go:59-139 | Fails exactly when the archive cannot be opened or the spine yields no chapter; the fallback is used when the package document is missing and keeps the file's base name; otherwise the book has the metadata rules and the spine's chapters in order |
| Epub.ReadEpub | ebook/epub.go:59-139 | The method computes the read of the specification |
| TextBook.LinedJoin | ebook/text.go:30-35 | Writing each line with a newline gives the lines joined by newlines plus a final newline |
| TextBook.PagesOfEmpty | ebook/text.go:56-58 | Empty text gives exactly one empty page |
| TextBook.PagesSpec | ebook/text.go:55-87 | For non-empty text: some page exists, no page is empty, every page ends in a newline, a page over the limit is one line, and the pages put back together are the text plus a newline |
| TextBook.SplitIntoPages | ebook/text.go:55-87 | The loop computes the pages of the specification |
| TextBook.TextReadSpec | ebook/text.go:17-52 | Fails exactly when the file cannot be opened or scanned; otherwise one chapter, order 0, titled with the base name minus its extension, holding every line with a newline after it |
| TextBook.ReadText | ebook/text.go:17-52 | The method computes the read of the specification |
| Library.KeptParts | ebook/ebook.go:141-146 | A part is kept exactly when it is neither "" nor "." |
| Library.KeptAll | ebook/ebook.go:141-146 | Parts that are never "" or "." are all kept |
| Library.TagsSpec | ebook/ebook.go:122-149 | No tags when `Rel` fails or the file is in the root; otherwise the directory's components without "" and ".", none holding a slash, joining back to the directory when none was dropped |
| Library.ExtractTags | ebook/ebook.go:122-149 | The loop computes the tags of the specification |
| Library.FormatOf | ebook/ebook.go:56-62 | ".epub" is EPUB and ".txt" is text |
| Library.OpenedSpec | ebook/ebook.go:50-76 | Only ".epub" and ".txt" open, in any case, and any other extension is an error naming it; a book that opens has its extension's format and the path, and is otherwise the chosen reader's book |
| Library.Open | ebook/ebook.go:50-76 | The method computes the dispatch of the specification |
| Library.Info | ebook/ebook.go:94-106 | A listed book has its path and its tags, and the title and author of the opened book, or empty ones when opening fails |
| Library.BookFiles | ebook/ebook.go:87-92 | The book files are exactly the non-directory visits with a book extension |
| Library.ListingSpec | ebook/ebook.go:79-119 | The listing fails exactly when the walk reports an error, with the first error; otherwise one entry per book file, in walk order |
| Library.ListingStops | ebook/ebook.go:82-85 | After the walk fails, later visits change nothing |
| Library.ListBooks | ebook/ebook.go:79-119 | The method computes the listing of the specification |
| Progress.Find | config/progress.go:75-78 | Found exactly when the key is present; then its record, else the zero record |
| Progress.GetAfterSet | config/progress.go:75-87 | Reading back a stored key gives the stored chapter and offset under the key, found |
| Progress.SetKeepsOthers | config/progress.go:81-87 | Storing one key leaves every other key's lookup unchanged |
| Progress.SetOverwrites | config/progress.go:81-87 | A second store replaces the first completely; the keys grow by this key only |
| Progress.ProgressData.GetBookProgress | config/progress.go:75-78 | The method's lookup is the table lookup |
| Progress.ProgressData.SetBookProgress | config/progress.go:81-87 | The table afterwards is the old table with this key's record replaced |
| Progress.LoadedBooks | config/progress.go:23-52 | Errors exactly for the data directory, a read failure or bad JSON; a missing file or a null table gives an empty table; otherwise the decoded table |
| Progress.LoadProgress | config/progress.go:23-52 | Succeeds exactly when the load does, with a fresh table holding the loaded map, never a missing one |
| Navigation.SetYOffset | tui/reader.go:257 | Only the offset changes, it is clamped to the content, and an offset in range is taken as given |
| Navigation.UpdateViewportSpec | tui/reader.go:183-214 | Keeps the book and chapter; nothing changes without a book, a theme or a chapter; otherwise offset 0 and the rendering's positions, strictly increasing, none for plain text |
| Navigation.ChapterSteps | tui/reader.go:234-240 | Next chapter moves on by one exactly when a later chapter exists, shown from the top; previous chapter moves back by one exactly when past the first; otherwise nothing changes |
| Navigation.FirstAfterSpec | tui/reader.go:247-253 | The forward scan finds the first position past the offset, and -1 exactly when there is none |
| Navigation.LastBeforeSpec | tui/reader.go:272-279 | The backward scan finds the last position before the offset, and -1 exactly when there is none |
| Navigation.NearestHeadings | tui/reader.go:244-279 | With increasing positions, those are the nearest heading below and the nearest above |
| Navigation.NextHeadingSpec | tui/reader.go:242-265 | With a heading below, only the offset moves, to the nearest one; with none, it is next chapter |
| Navigation.PrevHeadingSpec | tui/reader.go:267-295 | With a heading above, only the offset moves, to the nearest one; with none, nothing at chapter 0, else the previous chapter at its last heading or its top |
| Navigation.FirstLastSpec | tui/reader.go:315-325 | First goes to chapter 0; last goes to the count less one, -1 for a book without chapters, where nothing is shown |
| Navigation.LoadBookSpec | tui/reader.go:152-170 | The book is set; the saved chapter is used when one exists below the count (even a negative one), else chapter 0; that chapter is shown as rendered; the saved offset is clamped to the content and kept when in range; with nothing saved the offset is the top of the chapter |
| Navigation.SaveProgress | tui/reader.go:144-149 | Without a book the table is unchanged; with one, this book's chapter and offset are stored |
| Navigation.SaveThenLoad | tui/reader.go:144-170 | Saving and loading the book again restores its chapter |
| Navigation.SaveThenLoadRestores | tui/reader.go:144-170 | A view showing its chapter as rendered, at an offset in range, is restored whole by saving and loading its book again |
| Navigation.UpdateGood | tui/reader.go:217-332 | Every key keeps the offset within the content and the positions strictly increasing |
| Navigation.LoadBookGood | tui/reader.go:152-170 | Loading a book keeps the same invariant |
| Reader.ReaderModel.constructor | tui/reader.go:116-137 | The reader starts with no book, chapter 0, no positions and offset 0, and with the progress table loaded from its file, or an empty one when loading fails |
| Reader.ReaderModel.SetYOffset | tui/reader.go:257 | The state afterwards is the clamped offset of the specification |
| Reader.ReaderModel.UpdateViewport | tui/reader.go:183-214 | The state afterwards is `updateViewport`'s of the specification |
| Reader.ReaderModel.NextHeadingLine | tui/reader.go:247-253 | The loop with its break finds the first position past the offset, or -1 |
| Reader.ReaderModel.PrevHeadingLine | tui/reader.go:272-279 | The backward loop finds the last position before the offset, or -1 |
| Reader.ReaderModel.NextChapter | tui/reader.go:234-240 | The state afterwards is next chapter's |
| Reader.ReaderModel.PrevChapter | tui/reader.go:307-313 | The state afterwards is previous chapter's |
| Reader.ReaderModel.NextHeading | tui/reader.go:242-265 | The state afterwards is next heading's |
| Reader.ReaderModel.PrevHeading | tui/reader.go:267-295 | The state afterwards is previous heading's |
| Reader.ReaderModel.ToLastHeading | tui/reader.go:289-292 | The offset moves to the chapter's last heading when it has one |
| Reader.ReaderModel.FirstChapter | tui/reader.go:315-319 | The state afterwards is first chapter's |
| Reader.ReaderModel.LastChapter | tui/reader.go:321-325 | The state afterwards is last chapter's |
| Reader.ReaderModel.SaveProgress | tui/reader.go:144-149 | The progress table afterwards is the saved table of the specification |
| Reader.ReaderModel.Update | tui/reader.go:217-332 | Every navigation key changes the state as the specification says; only the back key, with a book, changes the progress table |
| Reader.ReaderModel.LoadBook | tui/reader.go:152-170 | The state afterwards is the specification's loaded state |
| LibraryView.TagsPart | tui/library.go:38-40 | The tags part starts with the folder sign |
| LibraryView.PartsSpec | tui/library.go:36-51 | Tags, author and status in this order, each present exactly when its condition holds; finished wins over the percentage |
| LibraryView.Description | tui/library.go:35-54 | The description is the parts joined by " • " |
| LibraryView.DescriptionOfOne | tui/library.go:35-54 | No parts give "", finished alone gives the finished mark, and all three parts are joined by bullets |
| LibraryView.FilterValue | tui/library.go:55-65 | The filter text starts with the title |
| LibraryView.FilterValueWords | tui/library.go:55-65 | The words of the filter text are the title's, then the author's, then each tag's |
| LibraryView.ItemOf | tui/library.go:137-161 | The title falls back to the path; without a progress record, completion 0 and not finished; with one, the record's values |
| LibraryView.Items | tui/library.go:135-162 | One item per listed book, in order |
| LibraryView.LoadItems | tui/library.go:129-164 | The loop builds the items of the specification |
| LibraryView.ToggleFinished | tui/library.go:173-176 | The "f" key asks for the selected path with its finished flag negated |
| TextUtil.JoinSplit | ebook/epub.go:286 | Joining the pieces of a split gives back the text |
| TextUtil.SplitJoin | ebook/renderer.go:412 | Splitting lines joined by a separator they do not contain gives back the lines |
| TextUtil.FieldsTrimSpace | ebook/renderer.go:356-363 | Trimming keeps the words of a line |
| TextUtil.DecimalRoundTrip | ebook/epub.go:120 | The decimal text of a number reads back as that number |

## Left out

- Styling and wrapping: lipgloss styles, borders and colours, and `wordwrap.String`, are parameters (`Renderer.Env`) with no contract. The model fixes where styled text goes and with which style, not what it looks like.
- HTML parsing: `html.Parse` is replaced by a parsed tree or `None`, and the parser's own tree shape (implied `html`/`body` elements) is not modelled.
- `Renderer.Safe`, `Navigation.Renderable`: the walk requires that no `li` sits outside a list and that an `hr` never meets a negative width. Go panics in both cases (a negative `strings.Repeat` count), so the model excludes those trees instead of modelling the panic.
- `Render`, `RenderToStyledText` and `ExtractPlainText` in `ebook/renderer.go` are not modelled. The reader uses only `RenderToStyledTextWithHeadings`, and the other two are debug or unused entry points.
- Archive, XML and file-system I/O are inputs: `zip.OpenReader` and file opening become `Epub.Entry` contents, `xml.Unmarshal` becomes `Epub.Std`, `filepath.Walk` becomes a sequence of `Library.Visit`, `filepath.Rel` and `filepath.Clean` are parameters, and `bufio.Scanner` becomes `TextBook.TextFile` (its line splitting, `\r` handling and long-line error are not modelled).
- Error messages carry only the source's own text, not the wrapped cause (`%w`).
- White space: `TextUtil.IsSpace` covers the ASCII and Latin-1 white space (tab, newline, vertical tab, form feed, carriage return, space, U+0085, U+00A0). The other Unicode space separators that Go's `unicode.IsSpace` accepts (U+1680, U+2000 to U+200A, U+2028, U+2029, U+202F, U+205F, U+3000) are not white space in the model, so `TrimSpace` and `Fields` keep them. Adding them makes every proof about rendered text much more expensive to check.
- TextUtil.ToLower: lowers ASCII letters only, where Go's `strings.ToLower` lowers every Unicode letter. The suffixes compared after lowering (`.epub`, `.txt`, `.html`, `.xhtml`, `.htm`) are ASCII and no non-ASCII letter lowers into them, so which files are recognised does not change; what differs is the lowered extension quoted in the unsupported-format error (`.ÉPUB` stays `.ÉPUB` where Go gives `.épub`).
- Byte lengths: `len` in `justifyText`, `splitIntoPages` and the 100-byte fallback limit is modelled as a count of characters, which agrees with the source on ASCII text.
- `Epub.SortByName`: `sort.Slice` is not stable; the model fixes one order for files with equal names, and the proof covers name order and the permutation only.
- The bubbles viewport is an offset clamped by a `maxOffset` parameter; `HalfViewUp/Down`, scrolling keys, `ScrollPercent`, key bindings, help, `SetSize` and every `View` method are UI and left out.
- `Reader.ReaderModel.LastChapter` requires a book: in the source it is reached only through `Update`, which returns early without a book.
- `Reader.ReaderModel.SaveProgress` updates the table; writing `progress.json` (`config.SaveProgress`) is file I/O and left out, as is `LoadProgress`'s reading and decoding, given as a `Progress.ProgressFile`.
- `LibraryView.ToggleFinished`, `LibraryView.ItemOf`: `Finished`, `GetCompletionPercentage` and `SetBookFinished` are defined in no source file, so the finished flag and the completion are read through parameters (`LibraryView.ProgressView`), and the toggle is stated as the request it makes.
- `LibraryView.Description`: the `%.0f%%` formatting of the completion is a parameter (floating point).
- The library `Update` error branch, the `enter` key, `openBook` and `loadBooks` are message dispatch for the UI loop and left out; so are `config/config.go`, `config/theme.go`, `tui/model.go` and `main.go`.
- Heading positions are `seq<nat>`: they come only from the renderer or are empty, so the scans' sentinel -1 cannot collide with a position.

## Findings

| source | as written | input that shows it | evidently intended | confidence | as-written member | corrected member |
|---|---|---|---|---|---|---|
| ebook/epub.go:258-265 | `extractTitle` looks for the first `>` after `<h1` without checking that it comes before `</h1>`, then slices from after that `>` to the start of `</h1>` | `<h1</h1>`: the only `>` is the one closing `</h1>`, so the slice runs backwards and Go panics | a heading with no `>` before `</h1>` is not a heading, and the page has no title | not executed | Epub.ExtractTitleAsWritten, Epub.ExtractTitleAsWrittenPanics | Epub.ExtractTitle, Epub.ExtractTitleMalformedHeading, Epub.ExtractTitleFromHeading |
