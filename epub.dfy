/** Reading EPUB books (`ebook/epub.go`): tag stripping, the plain-text
    fallback, chapter titles, and chapter assembly from the package
    document's manifest and spine (section 5.5 "Manifest" and section 5.6
    "Spine" of the EPUB 3.3 Package Document), or from the archive's HTML
    files when there is no usable package document. */
module Epub {
  import opened Results
  import opened TextUtil
  import opened Books

  // ---------------------------------------------------------------------
  // stripHTMLTags

  /** The characters `stripHTMLTags` keeps from `s` when it starts inside
      (`inTag`) or outside a tag: everything outside `<`…`>`, and no
      bracket. */
  function Strip(s: string, inTag: bool): (r: string)
    ensures '<' !in r && '>' !in r
    ensures |r| <= |s|
  {
    if s == [] then ""
    else if s[0] == '<' then Strip(s[1..], true)
    else if s[0] == '>' then Strip(s[1..], false)
    else if !inTag then [s[0]] + Strip(s[1..], inTag)
    else Strip(s[1..], inTag)
  }

  /** `a` can be obtained from `b` by deleting characters. */
  predicate IsSubsequence(a: string, b: string)
    decreases |b|
  {
    a == [] || (b != [] && ((a[0] == b[0] && IsSubsequence(a[1..], b[1..])) || IsSubsequence(a, b[1..])))
  }

  /** `stripHTMLTags`: drop every `<`…`>` tag, brackets included. */
  method StripHTMLTags(html: string) returns (r: string)
    ensures r == Strip(html, false)
  {
    var inTag := false;
    r := "";
    for i := 0 to |html|
      invariant r + Strip(html[i..], inTag) == Strip(html, false)
    {
      assert html[i..][1..] == html[i + 1..];
      var c := html[i];
      if c == '<' {
        inTag := true;
        continue;
      }
      if c == '>' {
        inTag := false;
        continue;
      }
      if !inTag {
        r := r + [c];
      }
    }
  }

  /** What `stripHTMLTags` keeps is a subsequence of its input. */
  lemma {:induction false} StripIsSubsequence(s: string, inTag: bool)
    ensures IsSubsequence(Strip(s, inTag), s)
  {
    if s != [] {
      StripIsSubsequence(s[1..], s[0] == '<' || (s[0] != '>' && inTag));
      var rest := Strip(s[1..], s[0] == '<' || (s[0] != '>' && inTag));
      if s[0] != '<' && s[0] != '>' && !inTag {
        assert Strip(s, inTag) == [s[0]] + rest;
        assert ([s[0]] + rest)[1..] == rest;
      } else {
        SubsequenceOfTail(rest, s);
      }
    }
  }

  lemma SubsequenceOfTail(a: string, b: string)
    requires b != [] && IsSubsequence(a, b[1..])
    ensures IsSubsequence(a, b)
  {
  }

  /** Text without brackets passes through unchanged. */
  lemma {:induction false} StripWithoutTags(s: string)
    requires '<' !in s && '>' !in s
    ensures Strip(s, false) == s
  {
    if s != [] {
      StripWithoutTags(s[1..]);
      assert s == [s[0]] + s[1..];
    }
  }

  /** `stripHTMLTags` is idempotent. */
  lemma StripIdempotent(s: string)
    ensures Strip(Strip(s, false), false) == Strip(s, false)
  {
    StripWithoutTags(Strip(s, false));
  }

  // ---------------------------------------------------------------------
  // htmlToText

  /** The tags after which `htmlToText` starts a new line. */
  const BlockElements: seq<string> :=
    ["</p>", "</div>", "</h1>", "</h2>", "</h3>", "</h4>", "</h5>", "</h6>", "<br>", "<br/>", "</li>"]

  /** The text after the first `k` block elements have had a newline
      appended to each of their occurrences. */
  function AddBreaks(html: string, k: nat): string
    requires k <= |BlockElements|
  {
    if k == 0 then html
    else ReplaceAll(AddBreaks(html, k - 1), BlockElements[k - 1], BlockElements[k - 1] + "\n")
  }

  /** After all the replacements every block element in the text is
      followed by a newline. */
  lemma AddBreaksFollows(html: string)
    ensures forall m :: 0 <= m < |BlockElements| ==>
              NewlineAfterEach(AddBreaks(html, |BlockElements|), BlockElements[m])
  {
    forall m | 0 <= m < |BlockElements|
      ensures NewlineAfterEach(AddBreaks(html, |BlockElements|), BlockElements[m])
    {
      AddBreaksKeeps(html, m, |BlockElements|);
    }
  }

  /** A block element has its newlines from its own replacement on, and
      the later replacements only add newlines. */
  lemma {:induction false} AddBreaksKeeps(html: string, m: nat, k: nat)
    requires m < k <= |BlockElements|
    ensures NewlineAfterEach(AddBreaks(html, k), BlockElements[m])
    decreases k
  {
    BlockElementsPlain();
    var before := AddBreaks(html, k - 1);
    if k == m + 1 {
      ReplaceNewlineAfterEach(before, BlockElements[m]);
    } else {
      AddBreaksKeeps(html, m, k - 1);
      ReplaceKeepsNewlineAfterEach(before, BlockElements[k - 1], BlockElements[m]);
    }
  }

  /** No block element is empty or holds a newline. */
  lemma BlockElementsPlain()
    ensures forall m :: 0 <= m < |BlockElements| ==> BlockElements[m] != [] && '\n' !in BlockElements[m]
  {
  }

  /** The trimmed non-blank lines, in order. */
  function Cleaned(lines: seq<string>): (r: seq<string>)
    ensures |r| <= |lines|
    ensures forall i :: 0 <= i < |r| ==> r[i] != "" && IsTrimmed(r[i])
  {
    if lines == [] then []
    else
      var t := TrimSpace(lines[0]);
      (if t != "" then [t] else []) + Cleaned(lines[1..])
  }

  /** `htmlToText` as a function of its input. */
  function HtmlToTextSpec(html: string): string {
    Join(Cleaned(Split(Strip(AddBreaks(html, |BlockElements|), false), '\n')), "\n\n")
  }

  /** `htmlToText`: break lines after block elements, strip the tags, and
      keep the trimmed non-blank lines separated by blank lines. */
  method HtmlToText(html: string) returns (r: string)
    ensures r == HtmlToTextSpec(html)
  {
    var result := AddBlockBreaks(html);
    result := StripHTMLTags(result);
    var lines := Split(result, '\n');
    var cleanedLines := CleanLines(lines);
    r := Join(cleanedLines, "\n\n");
  }

  /** The first loop of `htmlToText`. */
  method AddBlockBreaks(html: string) returns (result: string)
    ensures result == AddBreaks(html, |BlockElements|)
  {
    result := html;
    for k := 0 to |BlockElements|
      invariant result == AddBreaks(html, k)
    {
      var elem := BlockElements[k];
      result := ReplaceAll(result, elem, elem + "\n");
    }
  }

  /** The second loop of `htmlToText`. */
  method CleanLines(lines: seq<string>) returns (cleanedLines: seq<string>)
    ensures cleanedLines == Cleaned(lines)
  {
    cleanedLines := [];
    for i := 0 to |lines|
      invariant cleanedLines == Cleaned(lines[..i])
    {
      CleanedSnoc(lines, i);
      var trimmed := TrimSpace(lines[i]);
      if trimmed != "" {
        cleanedLines := cleanedLines + [trimmed];
      }
    }
    assert lines[..|lines|] == lines;
  }

  lemma CleanedSnoc(lines: seq<string>, i: nat)
    requires i < |lines|
    ensures var t := TrimSpace(lines[i]);
            Cleaned(lines[..i + 1]) == Cleaned(lines[..i]) + (if t != "" then [t] else [])
  {
    assert lines[..i + 1] == lines[..i] + [lines[i]];
    CleanedAppend(lines[..i], [lines[i]]);
    assert [lines[i]][1..] == [];
  }

  lemma {:induction false} CleanedAppend(a: seq<string>, b: seq<string>)
    ensures Cleaned(a + b) == Cleaned(a) + Cleaned(b)
  {
    if a == [] {
      assert a + b == b;
    } else {
      var t := TrimSpace(a[0]);
      var head: seq<string> := if t != "" then [t] else [];
      assert (a + b)[0] == a[0] && (a + b)[1..] == a[1..] + b;
      CleanedAppend(a[1..], b);
      ConcatAssoc(head, Cleaned(a[1..]), Cleaned(b));
    }
  }

  lemma ConcatAssoc<T>(x: seq<T>, y: seq<T>, z: seq<T>)
    ensures x + (y + z) == (x + y) + z
  {
  }

  /** The parts with an empty part between neighbours: the lines of the
      parts joined by a blank line. */
  function Spaced(parts: seq<string>): (r: seq<string>)
    ensures |r| == if parts == [] then 0 else 2 * |parts| - 1
  {
    if |parts| <= 1 then parts else [parts[0], ""] + Spaced(parts[1..])
  }

  /** Non-blank parts are at the even lines, blank separators at the odd ones. */
  predicate Alternating(lines: seq<string>) {
    forall i :: 0 <= i < |lines| ==> (i % 2 == 0 <==> lines[i] != "") && IsTrimmed(lines[i])
  }

  lemma {:induction false} SpacedAlternates(parts: seq<string>)
    requires forall i :: 0 <= i < |parts| ==> parts[i] != "" && IsTrimmed(parts[i])
    ensures Alternating(Spaced(parts))
  {
    if |parts| > 1 {
      SpacedAlternates(parts[1..]);
      var rest := Spaced(parts[1..]);
      var r := Spaced(parts);
      assert r == [parts[0], ""] + rest;
      forall i | 2 <= i < |r|
        ensures (i % 2 == 0 <==> r[i] != "") && IsTrimmed(r[i])
      {
        assert r[i] == rest[i - 2];
        assert (i - 2) % 2 == i % 2;
      }
    }
  }

  /** Joining with "\n\n" is joining the spaced parts with "\n". */
  lemma {:induction false} JoinSpaced(parts: seq<string>)
    ensures Join(parts, "\n\n") == Join(Spaced(parts), "\n")
  {
    if |parts| > 1 {
      var rest := Spaced(parts[1..]);
      calc {
        Join(Spaced(parts), "\n");
      == { assert Spaced(parts) == [parts[0]] + ([""] + rest);
           JoinCons(parts[0], [""] + rest, "\n"); }
        parts[0] + "\n" + Join([""] + rest, "\n");
      == { JoinCons("", rest, "\n"); }
        parts[0] + "\n" + ("" + "\n" + Join(rest, "\n"));
      == { JoinSpaced(parts[1..]); }
        parts[0] + "\n" + ("" + "\n" + Join(parts[1..], "\n\n"));
      == { assert parts[0] + "\n" + ("" + "\n" + Join(parts[1..], "\n\n"))
                  == parts[0] + "\n\n" + Join(parts[1..], "\n\n"); }
        parts[0] + "\n\n" + Join(parts[1..], "\n\n");
      == { assert [parts[0]] + parts[1..] == parts;
           JoinCons(parts[0], parts[1..], "\n\n"); }
        Join(parts, "\n\n");
      }
    }
  }

  /** Trimming and dropping blank lines adds no character. */
  lemma {:induction false} CleanedKeepsOut(lines: seq<string>, d: char)
    requires forall i :: 0 <= i < |lines| ==> d !in lines[i]
    ensures forall i :: 0 <= i < |Cleaned(lines)| ==> d !in Cleaned(lines)[i]
  {
    if lines != [] {
      TrimSpaceKeepsOut(lines[0], d);
      CleanedKeepsOut(lines[1..], d);
    }
  }

  lemma SpacedKeepsOut(parts: seq<string>, d: char)
    requires forall i :: 0 <= i < |parts| ==> d !in parts[i]
    ensures forall i :: 0 <= i < |Spaced(parts)| ==> d !in Spaced(parts)[i]
  {
    if |parts| > 1 {
      SpacedKeepsOut(parts[1..], d);
    }
  }

  lemma OddLength(m: nat, n: nat)
    requires n == 2 * m + 1
    ensures n % 2 == 1
  {
  }

  /** Paragraphs joined by a blank line split back into the paragraphs with
      the blank separators between them. */
  lemma ParagraphLines(cl: seq<string>)
    requires forall i :: 0 <= i < |cl| ==> cl[i] != "" && IsTrimmed(cl[i]) && '\n' !in cl[i]
    ensures cl == [] <==> Join(cl, "\n\n") == ""
    ensures cl != [] ==> Split(Join(cl, "\n\n"), '\n') == Spaced(cl)
    ensures cl != [] ==> Alternating(Split(Join(cl, "\n\n"), '\n'))
    ensures |Split(Join(cl, "\n\n"), '\n')| % 2 == 1
  {
    if cl == [] {
      assert Split("", '\n') == [""];
    } else {
      assert Join(cl, "\n\n") != "" by {
        if |cl| > 1 { JoinCons(cl[0], cl[1..], "\n\n"); assert [cl[0]] + cl[1..] == cl; }
      }
      var sp := Spaced(cl);
      SpacedKeepsOut(cl, '\n');
      JoinSpaced(cl);
      SpacedAlternates(cl);
      assert "\n" == ['\n'];
      SplitJoin(sp, '\n');
      OddLength(|cl| - 1, |sp|);
    }
  }

  /** The text `htmlToText` produces: no tag brackets, and its lines are
      alternately a trimmed non-blank line of the stripped text and a blank
      separator, starting and ending with text, unless the page holds no
      text at all. */
  lemma HtmlToTextShape(html: string)
    ensures '<' !in HtmlToTextSpec(html) && '>' !in HtmlToTextSpec(html)
    ensures |Split(HtmlToTextSpec(html), '\n')| % 2 == 1
    ensures HtmlToTextSpec(html) != "" ==> Alternating(Split(HtmlToTextSpec(html), '\n'))
  {
    var stripped := Strip(AddBreaks(html, |BlockElements|), false);
    var split := Split(stripped, '\n');
    var cl := Cleaned(split);
    assert HtmlToTextSpec(html) == Join(cl, "\n\n");
    SplitKeepsOut(stripped, '\n', '<');
    SplitKeepsOut(stripped, '\n', '>');
    CleanedKeepsOut(split, '<');
    CleanedKeepsOut(split, '>');
    CleanedKeepsOut(split, '\n');
    JoinKeepsOut(cl, "\n\n", '<');
    JoinKeepsOut(cl, "\n\n", '>');
    ParagraphLines(cl);
  }

  // ---------------------------------------------------------------------
  // extractTitle

  /** `extractTitle` as written: the trimmed text of the first
      `<title>`…`</title>`, else the tag-stripped text of the first
      `<h1`…`</h1>`, else "". `None` where the source slices past the end
      of the heading and panics: when no `>` comes before `</h1>`. */
  function ExtractTitleAsWritten(html: string): (r: Option<string>)
  {
    match TitleElement(html)
    case Some(t) => Some(TrimSpace(t))
    case None => HeadingAsWritten(html)
  }

  /** The text between the first `<title>` and the first `</title>` after
      it, if there is one. */
  function TitleElement(html: string): (r: Option<string>)
    ensures r.Some? ==> exists a, b :: 0 <= a <= b <= |html| && r.value == html[a..b]
  {
    var ts := Index(html, "<title>");
    if ts < 0 then None
    else
      var te := Index(html[ts..], "</title>");
      if te < 0 then None
      else
        TitleCloseAfterOpen(html[ts..], te);
        Some(html[ts + 7..ts + te])
  }

  /** The `<h1` branch: the tag-stripped text between the first `>` after
      `<h1` and the first `</h1>` after it, "" when one of them is missing,
      `None` where the slice would run backwards. */
  function HeadingAsWritten(html: string): (r: Option<string>)
    ensures r.Some? ==> '<' !in r.value && '>' !in r.value && IsSubsequence(r.value, html)
  {
    var hs := Index(html, "<h1");
    if hs < 0 then Some("")
    else
      var cs := Index(html[hs..], ">");
      var he := Index(html[hs..], "</h1>");
      if cs < 0 || he < 0 then Some("")
      else if cs + 1 <= he then
        StripIsSubsequence(html[hs + cs + 1..hs + he], false);
        SubsequenceOfSlice(Strip(html[hs + cs + 1..hs + he], false), html, hs + cs + 1, hs + he);
        Some(Strip(html[hs + cs + 1..hs + he], false))
      else None
  }

  /** A `</title>` found after `<title>` starts after it: the slice of the
      title text is well formed. */
  lemma TitleCloseAfterOpen(s: string, te: int)
    requires MatchAt(s, "<title>", 0)
    requires te >= 0 && MatchAt(s, "</title>", te)
    ensures te >= 7
  {
    assert s[..7] == "<title>";
    assert s[te] == s[te..te + 8][0] == '<';
    assert s[te + 1] == s[te..te + 8][1] == '/';
    assert forall k :: 1 <= k < 7 ==> s[k] == "<title>"[k] != '<';
    assert s[1] == 't';
  }

  /** The input on which `extractTitle` panics: the only `>` after `<h1`
      belongs to `</h1>`. */
  lemma ExtractTitleAsWrittenPanics()
    ensures ExtractTitleAsWritten("<h1</h1>").None?
  {
    var html := "<h1</h1>";
    PanicInputIndexes();
    assert html[0..] == html;
  }

  /** Where the searches of `extractTitle` land in `<h1</h1>`: no `<title>`,
      `<h1` at 0, `</h1>` at 3 and the first `>` at 7. */
  lemma PanicInputIndexes()
    ensures Index("<h1</h1>", "<title>") == -1
    ensures Index("<h1</h1>", "<h1") == 0
    ensures Index("<h1</h1>", "</h1>") == 3
    ensures Index("<h1</h1>", ">") == 7
  {
    var html := "<h1</h1>";
    assert |html| == 8;
    assert html[1] == 'h' && html[3] == '<' && html[4] == '/' && html[7] == '>';
    forall j | 0 <= j
      ensures !MatchAt(html, "<title>", j)
    {
      if j <= 1 {
        assert html[j..j + 7][1 - j] == html[1] != "<title>"[1 - j];
      }
    }
    IndexIs(html, "<title>", -1);
    assert html[0..3] == "<h1";
    IndexIs(html, "<h1", 0);
    forall j | 0 <= j < 3
      ensures !MatchAt(html, "</h1>", j)
    {
      assert html[j..j + 5][0] == html[j];
      assert html[j..j + 5][1] == html[j + 1];
    }
    assert html[3..8] == "</h1>";
    IndexIs(html, "</h1>", 3);
    forall j | 0 <= j < 7
      ensures !MatchAt(html, ">", j)
    {
      assert html[j..j + 1][0] == html[j];
    }
    assert html[7..8] == [html[7]];
    IndexIs(html, ">", 7);
  }

  /** `extractTitle` with the malformed heading read as no heading: "" where
      the source panics, otherwise the same title. */
  function ExtractTitle(html: string): (r: string)
  {
    match ExtractTitleAsWritten(html)
    case Some(t) => t
    case None => ""
  }

  /** A page with neither a title nor a heading has no title. */
  lemma ExtractTitleNone(html: string)
    requires Index(html, "<title>") < 0 && Index(html, "<h1") < 0
    ensures ExtractTitle(html) == ""
  {
  }

  /** A page with a closed `<title>` is titled by a trimmed piece of it. */
  lemma ExtractTitleFromTitle(html: string)
    requires TitleElement(html).Some?
    ensures IsTrimmed(ExtractTitle(html))
    ensures exists a, b :: 0 <= a <= b <= |html| && ExtractTitle(html) == html[a..b]
  {
    var inner := TitleElement(html).value;
    assert ExtractTitle(html) == TrimSpace(inner);
    var a, b :| 0 <= a <= b <= |html| && inner == html[a..b];
    var i, j := TrimSpaceSlice(inner);
    SliceOfSlice(html, a, b, i, j);
  }

  lemma SliceOfSlice(s: string, a: nat, b: nat, i: nat, j: nat)
    requires a <= b <= |s| && i <= j <= b - a
    ensures s[a..b][i..j] == s[a + i..a + j]
  {
    assert forall k :: 0 <= k < j - i ==> s[a..b][i..j][k] == s[a + i + k];
  }

  /** Otherwise the title is text of the page without tag brackets. */
  lemma ExtractTitleFromHeading(html: string)
    requires TitleElement(html).None?
    ensures '<' !in ExtractTitle(html) && '>' !in ExtractTitle(html)
    ensures IsSubsequence(ExtractTitle(html), html)
  {
    if HeadingAsWritten(html).None? {
      assert ExtractTitle(html) == "";
    }
  }

  /** The title of a page whose first `<title>` holds `t`, with no
      `</title>` inside `t`, is `t` trimmed. */
  lemma ExtractTitleOfTitle(pre: string, t: string, post: string)
    requires Index(pre + "<title>", "<title>") == |pre|
    requires Index(t + "</title>", "</title>") == |t|
    ensures ExtractTitle(pre + "<title>" + t + "</title>" + post) == TrimSpace(t)
  {
    var html := pre + "<title>" + t + "</title>" + post;
    TitleIndexes(pre, t, post);
    MiddleSlice(pre + "<title>", t, "</title>" + post);
    assert html == (pre + "<title>") + t + ("</title>" + post);
    assert TitleElement(html) == Some(html[|pre| + 7..|pre| + 7 + |t|]);
  }

  /** Where the searches of the `<title>` branch land on such a page. */
  lemma TitleIndexes(pre: string, t: string, post: string)
    requires Index(pre + "<title>", "<title>") == |pre|
    requires Index(t + "</title>", "</title>") == |t|
    ensures var html := pre + "<title>" + t + "</title>" + post;
      Index(html, "<title>") == |pre| && Index(html[|pre|..], "</title>") == 7 + |t|
  {
    var html := pre + "<title>" + t + "</title>" + post;
    assert html[..|pre| + 7] == pre + "<title>";
    IndexInPrefix(pre + "<title>", html, "<title>");
    var rest := html[|pre|..];
    assert rest == "<title>" + t + "</title>" + post;
    assert MatchAt(rest, "<title>", 0) by {
      assert rest[..7] == "<title>";
    }
    forall j | 0 <= j < 7
      ensures !MatchAt(rest, "</title>", j)
    {
      if MatchAt(rest, "</title>", j) {
        TitleCloseAfterOpen(rest, j);
      }
    }
    assert rest[7..][..|t| + 8] == t + "</title>";
    IndexInPrefix(t + "</title>", rest[7..], "</title>");
    IndexAfter(rest, "</title>", 7);
  }

  /** Without a closed `<title>`, the title of a page whose first `<h1`
      opens a tag `<h1` + `a` + `>` holding `t`, with no `</h1>` before the
      end of `t`, is `t` without its tags. */
  lemma ExtractTitleOfHeading(pre: string, a: string, t: string, post: string)
    requires TitleElement(pre + "<h1" + a + ">" + t + "</h1>" + post).None?
    requires Index(pre + "<h1", "<h1") == |pre|
    requires '>' !in a
    requires Index(a + ">" + t + "</h1>", "</h1>") == |a| + 1 + |t|
    ensures ExtractTitle(pre + "<h1" + a + ">" + t + "</h1>" + post) == Strip(t, false)
  {
    HeadingOf(pre, a, t, post);
  }

  /** The `<h1` branch on such a page yields `t` without its tags. */
  lemma HeadingOf(pre: string, a: string, t: string, post: string)
    requires Index(pre + "<h1", "<h1") == |pre|
    requires '>' !in a
    requires Index(a + ">" + t + "</h1>", "</h1>") == |a| + 1 + |t|
    ensures HeadingAsWritten(pre + "<h1" + a + ">" + t + "</h1>" + post) == Some(Strip(t, false))
  {
    var html := pre + "<h1" + a + ">" + t + "</h1>" + post;
    var hs, cs, he := |pre|, 3 + |a|, 4 + |a| + |t|;
    MiddleSlice(pre + "<h1" + a + ">", t, "</h1>" + post);
    assert html == (pre + "<h1" + a + ">") + t + ("</h1>" + post);
    HeadingIndexes(pre, a, t, post);
    HeadingBetween(html, hs, cs, he);
  }

  lemma MiddleSlice(x: string, t: string, y: string)
    ensures (x + t + y)[|x|..|x| + |t|] == t
  {
  }

  /** The `<h1` branch once its three searches are known. */
  lemma HeadingBetween(html: string, hs: nat, cs: nat, he: nat)
    requires Index(html, "<h1") == hs
    requires Index(html[hs..], ">") == cs && Index(html[hs..], "</h1>") == he
    requires cs + 1 <= he
    ensures hs + he <= |html|
    ensures HeadingAsWritten(html) == Some(Strip(html[hs + cs + 1..hs + he], false))
  {
  }

  /** Where the searches of the `<h1` branch land on such a page. */
  lemma HeadingIndexes(pre: string, a: string, t: string, post: string)
    requires Index(pre + "<h1", "<h1") == |pre|
    requires '>' !in a
    requires Index(a + ">" + t + "</h1>", "</h1>") == |a| + 1 + |t|
    ensures var html := pre + "<h1" + a + ">" + t + "</h1>" + post;
      Index(html, "<h1") == |pre| &&
      Index(html[|pre|..], ">") == 3 + |a| &&
      Index(html[|pre|..], "</h1>") == 4 + |a| + |t|
  {
    var html := pre + "<h1" + a + ">" + t + "</h1>" + post;
    assert html[..|pre| + 3] == pre + "<h1";
    IndexInPrefix(pre + "<h1", html, "<h1");
    var rest := html[|pre|..];
    assert rest == "<h1" + a + ">" + t + "</h1>" + post;
    HeadingCloseBracket(rest, a);
    forall j | 0 <= j < 3
      ensures !MatchAt(rest, "</h1>", j)
    {
      assert rest[j..j + 5][0] == rest[j];
      assert rest[j..j + 5][1] == rest[j + 1];
    }
    var body := a + ">" + t + "</h1>";
    assert rest[3..][..|body|] == body;
    IndexInPrefix(body, rest[3..], "</h1>");
    IndexAfter(rest, "</h1>", 3);
  }

  /** The first `>` after `<h1` + `a` is the one that closes the tag. */
  lemma HeadingCloseBracket(rest: string, a: string)
    requires '>' !in a && |rest| > 3 + |a|
    requires rest[..3] == "<h1" && rest[3..3 + |a|] == a && rest[3 + |a|] == '>'
    ensures Index(rest, ">") == 3 + |a|
  {
    forall j | 0 <= j < 3 + |a|
      ensures !MatchAt(rest, ">", j)
    {
      assert rest[j..j + 1][0] == rest[j];
      if j < 3 {
        assert rest[j] == rest[..3][j];
      } else {
        assert rest[j] == rest[3..3 + |a|][j - 3];
      }
    }
    assert rest[3 + |a|..4 + |a|] == ">";
    IndexIs(rest, ">", 3 + |a|);
  }

  /** The corrected reading gives no title for the input that panics. */
  lemma ExtractTitleMalformedHeading()
    ensures ExtractTitle("<h1</h1>") == ""
  {
    ExtractTitleAsWrittenPanics();
  }

  /** A subsequence of a slice is a subsequence of the whole. */
  lemma SubsequenceOfSlice(x: string, s: string, a: nat, b: nat)
    requires a <= b <= |s| && IsSubsequence(x, s[a..b])
    ensures IsSubsequence(x, s)
  {
    SubsequenceExtend(x, s[a..b], s[b..]);
    assert s[a..b] + s[b..] == s[a..];
    SubsequenceOfSuffix(x, s, a);
  }

  lemma {:induction false} SubsequenceExtend(x: string, s: string, t: string)
    requires IsSubsequence(x, s)
    ensures IsSubsequence(x, s + t)
    decreases |s|
  {
    if x != [] {
      assert (s + t)[1..] == s[1..] + t;
      if x[0] == s[0] && IsSubsequence(x[1..], s[1..]) {
        SubsequenceExtend(x[1..], s[1..], t);
      } else {
        SubsequenceExtend(x, s[1..], t);
      }
    }
  }

  lemma {:induction false} SubsequenceOfSuffix(x: string, s: string, a: nat)
    requires a <= |s| && IsSubsequence(x, s[a..])
    ensures IsSubsequence(x, s)
    decreases a
  {
    if a > 0 {
      assert s[a - 1..][1..] == s[a..];
      SubsequenceOfTail(x, s[a - 1..]);
      SubsequenceOfSuffix(x, s, a - 1);
    } else {
      assert s[0..] == s;
    }
  }

  // ---------------------------------------------------------------------
  // The archive and the package document

  /** A file of the archive: its name and its contents, `None` when opening
      or reading it fails. */
  datatype Entry = Entry(name: string, data: Option<string>)

  /** A manifest `item` of the package document. */
  datatype Item = Item(id: string, href: string, mediaType: string)

  /** The parts of the package document the reader uses: the `title`,
      `creator` and `language` metadata, the manifest items, and the spine's
      `idref`s in reading order. */
  datatype Package = Package(
    titles: seq<string>,
    creators: seq<string>,
    lang: string,
    items: seq<Item>,
    spine: seq<string>)

  /** Library code the reader calls: XML decoding of `container.xml` (the
      rootfiles' full paths) and of the package document, `None` when the
      XML does not decode; and `filepath.Clean`. */
  datatype Std = Std(
    container: string -> Option<seq<string>>,
    package: string -> Option<Package>,
    clean: string -> string)

  /** `readFileFromZip` as a function: the contents of the first entry whose
      cleaned name is the cleaned path; `None` when there is none or it
      cannot be read. */
  function FileFromZip(entries: seq<Entry>, path: string, clean: string -> string): (r: Option<string>)
    ensures (forall i :: 0 <= i < |entries| ==> clean(entries[i].name) != clean(path)) ==> r.None?
  {
    if entries == [] then None
    else if clean(entries[0].name) == clean(path) then entries[0].data
    else FileFromZip(entries[1..], path, clean)
  }

  /** The first matching entry decides what is read, even when a later entry
      of the same name could be read. */
  lemma {:induction false} FileFromZipFirst(entries: seq<Entry>, path: string, clean: string -> string, i: nat)
    requires i < |entries| && clean(entries[i].name) == clean(path)
    requires forall j :: 0 <= j < i ==> clean(entries[j].name) != clean(path)
    ensures FileFromZip(entries, path, clean) == entries[i].data
  {
    if i > 0 {
      FileFromZipFirst(entries[1..], path, clean, i - 1);
    }
  }

  /** `readFileFromZip`: scan the archive for the path. */
  method ReadFileFromZip(entries: seq<Entry>, path: string, clean: string -> string) returns (r: Option<string>)
    ensures r == FileFromZip(entries, path, clean)
  {
    var p := clean(path);
    for i := 0 to |entries|
      invariant FileFromZip(entries[i..], path, clean) == FileFromZip(entries, path, clean)
    {
      assert entries[i..][1..] == entries[i + 1..];
      if clean(entries[i].name) == p {
        return entries[i].data;
      }
    }
    return None;
  }

  /** `findOPFPath`: the first rootfile named by `META-INF/container.xml`. */
  function OpfPath(entries: seq<Entry>, std: Std): Option<string> {
    match FileFromZip(entries, "META-INF/container.xml", std.clean)
    case None => None
    case Some(data) =>
      match std.container(data)
      case None => None
      case Some(paths) => if paths == [] then None else Some(paths[0])
  }

  /** `parseOPF`: the decoded package document at `opfPath`. */
  function OpfPackage(entries: seq<Entry>, opfPath: string, std: Std): Option<Package> {
    match FileFromZip(entries, opfPath, std.clean)
    case None => None
    case Some(data) => std.package(data)
  }

  method FindOPFPath(entries: seq<Entry>, std: Std) returns (r: Option<string>)
    ensures r == OpfPath(entries, std)
  {
    var data := ReadFileFromZip(entries, "META-INF/container.xml", std.clean);
    if data.None? {
      return None;
    }
    var cont := std.container(data.value);
    if cont.None? || cont.value == [] {
      return None;
    }
    return Some(cont.value[0]);
  }

  method ParseOPF(entries: seq<Entry>, opfPath: string, std: Std) returns (r: Option<Package>)
    ensures r == OpfPackage(entries, opfPath, std)
  {
    var data := ReadFileFromZip(entries, opfPath, std.clean);
    if data.None? {
      return None;
    }
    return std.package(data.value);
  }

  // ---------------------------------------------------------------------
  // The manifest map

  /** The manifest map after the first `|items|` items: each id maps to its
      last item. */
  function Manifest(items: seq<Item>): map<string, Item> {
    if items == [] then map[]
    else Manifest(items[..|items| - 1])[items[|items| - 1].id := items[|items| - 1]]
  }

  /** An id is mapped exactly when some item has it. */
  lemma {:induction false} ManifestKeys(items: seq<Item>, id: string)
    ensures id in Manifest(items) <==> exists i :: 0 <= i < |items| && items[i].id == id
  {
    if items != [] {
      var init := items[..|items| - 1];
      ManifestKeys(init, id);
      if id in Manifest(init) {
        var i :| 0 <= i < |init| && init[i].id == id;
        assert items[i].id == id;
      }
      if exists i :: 0 <= i < |items| && items[i].id == id {
        var i :| 0 <= i < |items| && items[i].id == id;
        if i < |init| {
          assert init[i].id == id;
        }
      }
    }
  }

  /** The item an id maps to is the last item with that id. */
  lemma {:induction false} ManifestLastWins(items: seq<Item>, i: nat)
    requires i < |items|
    requires forall j :: i < j < |items| ==> items[j].id != items[i].id
    ensures items[i].id in Manifest(items) && Manifest(items)[items[i].id] == items[i]
  {
    if i < |items| - 1 {
      var init := items[..|items| - 1];
      ManifestLastWins(init, i);
    }
  }

  /** Step 4 of `Read`: build the manifest map. */
  method ManifestMap(items: seq<Item>) returns (m: map<string, Item>)
    ensures m == Manifest(items)
  {
    m := map[];
    for i := 0 to |items|
      invariant m == Manifest(items[..i])
    {
      assert items[..i + 1][..i] == items[..i];
      m := m[items[i].id := items[i]];
    }
    assert items[..|items|] == items;
  }

  // ---------------------------------------------------------------------
  // Chapters in spine order

  /** The chapter title: the page's own, else "Chapter n" with the 1-based
      spine position. */
  function ChapterTitle(html: string, i: nat): (t: string)
    ensures t != ""
  {
    var own := ExtractTitle(html);
    if own == "" then "Chapter " + DecimalString(i + 1) else own
  }

  /** The default title names the chapter's spine position, counted from 1. */
  lemma DefaultChapterTitle(html: string, i: nat)
    requires ExtractTitle(html) == ""
    ensures var t := ChapterTitle(html, i);
            |t| > 8 && t[..8] == "Chapter " &&
            (forall k :: 8 <= k < |t| ==> '0' <= t[k] <= '9') &&
            DecimalValue(t[8..]) == i + 1
  {
    var t := ChapterTitle(html, i);
    assert t[8..] == DecimalString(i + 1);
    DecimalRoundTrip(i + 1);
  }

  /** What spine entry `i` contributes: a chapter when its idref names a
      manifest item whose file can be read and is not blank. */
  function ChapterAt(entries: seq<Entry>, dir: string, manifest: map<string, Item>,
                     spine: seq<string>, clean: string -> string, i: nat): (r: Option<Chapter>)
    requires i < |spine|
    ensures r.Some? ==> r.value.order == i && r.value.title != "" && TrimSpace(r.value.content) != ""
  {
    if spine[i] !in manifest then None
    else
      match FileFromZip(entries, clean(JoinPath(dir, manifest[spine[i]].href, clean)), clean)
      case None => None
      case Some(content) =>
        if TrimSpace(content) == "" then None
        else Some(Chapter(ChapterTitle(content, i), content, i))
  }

  /** What each of the first `n` spine entries yields. */
  function SpineYield(entries: seq<Entry>, dir: string, manifest: map<string, Item>,
                      spine: seq<string>, clean: string -> string, n: nat): (ys: seq<Option<Chapter>>)
    requires n <= |spine|
    ensures |ys| == n
    ensures forall i :: 0 <= i < n ==> ys[i] == ChapterAt(entries, dir, manifest, spine, clean, i)
  {
    seq(n, i requires 0 <= i < n => ChapterAt(entries, dir, manifest, spine, clean, i))
  }

  /** The chapters among the yields, in order. */
  function Present(ys: seq<Option<Chapter>>): seq<Chapter> {
    if ys == [] then []
    else Present(ys[..|ys| - 1]) + (match ys[|ys| - 1] case Some(c) => [c] case None => [])
  }

  /** The chapters of the spine, in spine order. */
  function SpineChapters(entries: seq<Entry>, dir: string, manifest: map<string, Item>,
                         spine: seq<string>, clean: string -> string): seq<Chapter>
  {
    Present(SpineYield(entries, dir, manifest, spine, clean, |spine|))
  }

  /** When each yield is numbered by its position, every chapter present is
      what its position yields, and orders strictly increase. */
  lemma {:induction false} PresentFromYields(ys: seq<Option<Chapter>>)
    requires forall i :: 0 <= i < |ys| && ys[i].Some? ==> ys[i].value.order == i
    ensures forall j :: 0 <= j < |Present(ys)| ==>
              0 <= Present(ys)[j].order < |ys| && ys[Present(ys)[j].order] == Some(Present(ys)[j])
    ensures forall j, k :: 0 <= j < k < |Present(ys)| ==> Present(ys)[j].order < Present(ys)[k].order
  {
    if ys != [] {
      var init := ys[..|ys| - 1];
      PresentFromYields(init);
      var prev := Present(init);
      assert forall j :: 0 <= j < |prev| ==> 0 <= prev[j].order < |init|;
      var cs := Present(ys);
      assert forall i :: 0 <= i < |init| ==> init[i] == ys[i];
      if ys[|ys| - 1].Some? {
        assert cs == prev + [ys[|ys| - 1].value];
        assert forall j :: 0 <= j < |prev| ==> cs[j] == prev[j] && cs[j].order < |init|;
        assert cs[|prev|].order == |ys| - 1;
      } else {
        assert cs == prev;
      }
    }
  }

  /** No yield is skipped. */
  lemma {:induction false} PresentComplete(ys: seq<Option<Chapter>>)
    ensures forall i :: 0 <= i < |ys| && ys[i].Some? ==> ys[i].value in Present(ys)
  {
    if ys != [] {
      var init := ys[..|ys| - 1];
      PresentComplete(init);
      var tail: seq<Chapter> := match ys[|ys| - 1] case Some(c) => [c] case None => [];
      assert Present(ys) == Present(init) + tail;
      assert forall i :: 0 <= i < |init| ==> init[i] == ys[i];
    }
  }

  lemma PresentSnoc(ys: seq<Option<Chapter>>, i: nat)
    requires i < |ys|
    ensures Present(ys[..i + 1]) == Present(ys[..i]) + (match ys[i] case Some(c) => [c] case None => [])
  {
    assert ys[..i + 1][..i] == ys[..i];
  }

  /** The spine's chapters are exactly the spine entries that yield one, in
      spine order, each a non-blank page under a non-empty title. */
  lemma SpineChaptersSpec(entries: seq<Entry>, dir: string, manifest: map<string, Item>,
                          spine: seq<string>, clean: string -> string)
    ensures var cs := SpineChapters(entries, dir, manifest, spine, clean);
            && (forall j :: 0 <= j < |cs| ==>
                  0 <= cs[j].order < |spine| &&
                  ChapterAt(entries, dir, manifest, spine, clean, cs[j].order) == Some(cs[j]) &&
                  cs[j].title != "" && TrimSpace(cs[j].content) != "")
            && (forall j, k :: 0 <= j < k < |cs| ==> cs[j].order < cs[k].order)
            && (forall i :: 0 <= i < |spine| && ChapterAt(entries, dir, manifest, spine, clean, i).Some? ==>
                  ChapterAt(entries, dir, manifest, spine, clean, i).value in cs)
  {
    var ys := SpineYield(entries, dir, manifest, spine, clean, |spine|);
    PresentFromYields(ys);
    PresentComplete(ys);
  }

  /** Step 5 of `Read`: the chapters in spine order. */
  method ReadSpine(entries: seq<Entry>, opfPath: string, manifest: map<string, Item>,
                   spine: seq<string>, clean: string -> string) returns (chapters: seq<Chapter>)
    ensures chapters == SpineChapters(entries, Dir(opfPath, clean), manifest, spine, clean)
  {
    var opfDir := Dir(opfPath, clean);
    ghost var ys := SpineYield(entries, opfDir, manifest, spine, clean, |spine|);
    chapters := [];
    for i := 0 to |spine|
      invariant chapters == Present(ys[..i])
    {
      PresentSnoc(ys, i);
      if spine[i] in manifest {
        var item := manifest[spine[i]];
        var contentPath := JoinPath(opfDir, item.href, clean);
        contentPath := clean(contentPath);
        var content := ReadFileFromZip(entries, contentPath, clean);
        if content.None? {
          continue;
        }
        var htmlContent := content.value;
        var chapterTitle := ExtractTitle(htmlContent);
        if chapterTitle == "" {
          chapterTitle := "Chapter " + DecimalString(i + 1);
        }
        if TrimSpace(htmlContent) != "" {
          chapters := chapters + [Chapter(chapterTitle, htmlContent, i)];
        }
      }
    }
    assert ys[..|spine|] == ys;
  }

  // ---------------------------------------------------------------------
  // readFallback

  /** An HTML file of the archive kept for the fallback. */
  datatype HtmlFile = HtmlFile(name: string, content: string)

  /** The name ends in `.html`, `.xhtml` or `.htm`, in any case. */
  predicate IsHtmlName(name: string) {
    var lower := ToLower(name);
    HasSuffix(lower, ".html") || HasSuffix(lower, ".xhtml") || HasSuffix(lower, ".htm")
  }

  /** Content worth a chapter: not blank and over 100 characters. */
  predicate Substantial(content: string) {
    TrimSpace(content) != "" && |content| > 100
  }

  /** What an entry contributes to the fallback. */
  function Candidate(e: Entry): Option<HtmlFile> {
    if IsHtmlName(e.name) && e.data.Some? && Substantial(e.data.value)
    then Some(HtmlFile(e.name, e.data.value))
    else None
  }

  /** The HTML files kept from the entries, in archive order. */
  function Candidates(entries: seq<Entry>): seq<HtmlFile> {
    if entries == [] then []
    else
      Candidates(entries[..|entries| - 1]) +
      (match Candidate(entries[|entries| - 1]) case Some(f) => [f] case None => [])
  }

  /** The kept files are exactly the readable, substantial HTML entries. */
  lemma CandidatesSpec(entries: seq<Entry>)
    ensures forall f :: f in Candidates(entries) ==>
              IsHtmlName(f.name) && Substantial(f.content) && Entry(f.name, Some(f.content)) in entries
    ensures forall e :: e in entries && Candidate(e).Some? ==> Candidate(e).value in Candidates(entries)
  {
    CandidatesSound(entries);
    CandidatesComplete(entries);
    forall f | f in Candidates(entries)
      ensures IsHtmlName(f.name) && Substantial(f.content) && Entry(f.name, Some(f.content)) in entries
    {
      var e :| e in entries && Candidate(e) == Some(f);
      CandidateKept(e);
    }
  }

  lemma {:induction false} CandidatesSound(entries: seq<Entry>)
    ensures forall f :: f in Candidates(entries) ==> exists e :: e in entries && Candidate(e) == Some(f)
  {
    if entries != [] {
      var init := entries[..|entries| - 1];
      var last := entries[|entries| - 1];
      CandidatesSound(init);
      var tail: seq<HtmlFile> := match Candidate(last) case Some(f) => [f] case None => [];
      assert Candidates(entries) == Candidates(init) + tail;
      forall f | f in Candidates(entries)
        ensures exists e :: e in entries && Candidate(e) == Some(f)
      {
        if f in Candidates(init) {
          var e :| e in init && Candidate(e) == Some(f);
          assert e in entries;
        } else {
          assert last in entries;
        }
      }
    }
  }

  lemma {:induction false} CandidatesComplete(entries: seq<Entry>)
    ensures forall e :: e in entries && Candidate(e).Some? ==> Candidate(e).value in Candidates(entries)
  {
    if entries != [] {
      var init := entries[..|entries| - 1];
      var last := entries[|entries| - 1];
      CandidatesComplete(init);
      var tail: seq<HtmlFile> := match Candidate(last) case Some(f) => [f] case None => [];
      assert Candidates(entries) == Candidates(init) + tail;
      forall e | e in entries && Candidate(e).Some?
        ensures Candidate(e).value in Candidates(entries)
      {
        var k :| 0 <= k < |entries| && entries[k] == e;
        if k < |entries| - 1 {
          assert init[k] == e;
        }
      }
    }
  }

  lemma CandidateKept(e: Entry)
    requires Candidate(e).Some?
    ensures var f := Candidate(e).value;
            IsHtmlName(f.name) && Substantial(f.content) && e == Entry(f.name, Some(f.content))
  {
  }

  lemma CandidatesSnoc(entries: seq<Entry>, i: nat)
    requires i < |entries|
    ensures Candidates(entries[..i + 1]) ==
            Candidates(entries[..i]) + (match Candidate(entries[i]) case Some(f) => [f] case None => [])
  {
    assert entries[..i + 1][..i] == entries[..i];
  }

  /** Files in ascending name order. */
  predicate SortedByName(fs: seq<HtmlFile>) {
    forall i :: 0 <= i < |fs| - 1 ==> LexLe(fs[i].name, fs[i + 1].name)
  }

  /** Insert a file before the first file not named below it. */
  function Insert(f: HtmlFile, fs: seq<HtmlFile>): (r: seq<HtmlFile>)
    ensures multiset(r) == multiset(fs) + multiset{f}
    ensures r[0] == f || (fs != [] && r[0] == fs[0])
  {
    if fs == [] || LexLe(f.name, fs[0].name) then [f] + fs
    else
      assert fs == [fs[0]] + fs[1..];
      [fs[0]] + Insert(f, fs[1..])
  }

  /** The order `sort.Slice` leaves the files in, by name (files of equal
      name in one possible order). */
  function SortByName(fs: seq<HtmlFile>): (r: seq<HtmlFile>)
    ensures multiset(r) == multiset(fs)
  {
    if fs == [] then []
    else
      assert fs == [fs[0]] + fs[1..];
      Insert(fs[0], SortByName(fs[1..]))
  }

  lemma {:induction false} InsertSorted(f: HtmlFile, fs: seq<HtmlFile>)
    requires SortedByName(fs)
    ensures SortedByName(Insert(f, fs))
  {
    if fs != [] && !LexLe(f.name, fs[0].name) {
      InsertSorted(f, fs[1..]);
      LexLeTotal(f.name, fs[0].name);
      var r := Insert(f, fs[1..]);
      assert Insert(f, fs) == [fs[0]] + r;
      assert LexLe(fs[0].name, r[0].name);
    }
  }

  /** The sorted files are in name order and are the same files. */
  lemma {:induction false} SortByNameSpec(fs: seq<HtmlFile>)
    ensures SortedByName(SortByName(fs))
    ensures multiset(SortByName(fs)) == multiset(fs)
  {
    if fs != [] {
      SortByNameSpec(fs[1..]);
      InsertSorted(fs[0], SortByName(fs[1..]));
    }
  }

  /** The fallback's chapters: each file under its base name, numbered from
      0 in name order. */
  function FallbackChapters(files: seq<HtmlFile>): (cs: seq<Chapter>)
    ensures |cs| == |files|
    ensures forall i :: 0 <= i < |cs| ==> cs[i] == Chapter(Base(files[i].name), files[i].content, i)
  {
    seq(|files|, i requires 0 <= i < |files| => Chapter(Base(files[i].name), files[i].content, i))
  }

  /** `readFallback` as a function of the archive and the book so far. */
  function Fallback(entries: seq<Entry>, book: Book): Book {
    var files := SortByName(Candidates(entries));
    var b := book.(chapters := book.chapters + FallbackChapters(files));
    if b.title == "" then b.(title := TrimSuffix(Base(b.path), Ext(b.path))) else b
  }

  /** What the fallback makes of a fresh book: one chapter per kept HTML file,
      in name order, numbered from 0; the title stays the one it had. */
  lemma FallbackSpec(entries: seq<Entry>, book: Book)
    requires book.chapters == [] && book.title != ""
    ensures var r := Fallback(entries, book);
            var files := SortByName(Candidates(entries));
            && r.title == book.title
            && r == book.(chapters := r.chapters)
            && SortedByName(files)
            && multiset(files) == multiset(Candidates(entries))
            && |r.chapters| == |files|
            && forall i :: 0 <= i < |r.chapters| ==>
                 r.chapters[i].order == i &&
                 r.chapters[i].title == Base(files[i].name) &&
                 r.chapters[i].content == files[i].content &&
                 Substantial(files[i].content)
  {
    var files := SortByName(Candidates(entries));
    SortByNameSpec(Candidates(entries));
    SortedFilesSubstantial(entries);
    var r := Fallback(entries, book);
    assert r.chapters == FallbackChapters(files);
  }

  /** Every file the fallback sorts is substantial. */
  lemma SortedFilesSubstantial(entries: seq<Entry>)
    ensures forall f :: f in SortByName(Candidates(entries)) ==> Substantial(f.content)
  {
    var cands := Candidates(entries);
    SortByNameSpec(cands);
    CandidatesSpec(entries);
    forall f | f in SortByName(cands)
      ensures Substantial(f.content)
    {
      assert f in multiset(SortByName(cands));
      assert f in cands;
    }
  }

  /** The first loop of `readFallback`: the kept HTML files, in archive order. */
  method CollectHtmlFiles(entries: seq<Entry>) returns (files: seq<HtmlFile>)
    ensures files == Candidates(entries)
  {
    files := [];
    for i := 0 to |entries|
      invariant files == Candidates(entries[..i])
    {
      CandidatesSnoc(entries, i);
      var f := entries[i];
      var name := ToLower(f.name);
      if HasSuffix(name, ".html") || HasSuffix(name, ".xhtml") || HasSuffix(name, ".htm") {
        if f.data.None? {
          continue;
        }
        var htmlContent := f.data.value;
        if TrimSpace(htmlContent) != "" && |htmlContent| > 100 {
          files := files + [HtmlFile(f.name, htmlContent)];
        }
      }
    }
    assert entries[..|entries|] == entries;
  }

  /** The second loop of `readFallback`: one chapter per sorted file. */
  method AppendFallbackChapters(chapters: seq<Chapter>, files: seq<HtmlFile>) returns (r: seq<Chapter>)
    ensures r == chapters + FallbackChapters(files)
  {
    r := chapters;
    for i := 0 to |files|
      invariant r == chapters + FallbackChapters(files)[..i]
    {
      assert FallbackChapters(files)[..i + 1] == FallbackChapters(files)[..i] + [FallbackChapters(files)[i]];
      r := r + [Chapter(Base(files[i].name), files[i].content, i)];
    }
    assert FallbackChapters(files)[..|files|] == FallbackChapters(files);
  }

  /** `readFallback`. */
  method ReadFallback(entries: seq<Entry>, book: Book) returns (r: Book)
    ensures r == Fallback(entries, book)
  {
    var files := CollectHtmlFiles(entries);
    files := SortByName(files);
    var chapters := AppendFallbackChapters(book.chapters, files);
    r := book.(chapters := chapters);
    if r.title == "" {
      r := r.(title := TrimSuffix(Base(r.path), Ext(r.path)));
    }
  }

  // ---------------------------------------------------------------------
  // Read

  /** Step 3 of `Read`: the first title and the first creator, and the
      language only when one is given. */
  function WithMetadata(book: Book, pkg: Package): (r: Book)
    ensures r.title == (if pkg.titles != [] then pkg.titles[0] else book.title)
    ensures r.author == (if pkg.creators != [] then pkg.creators[0] else book.author)
    ensures r.metadata == (if pkg.lang != "" then book.metadata["language" := pkg.lang] else book.metadata)
    ensures r == book.(title := r.title, author := r.author, metadata := r.metadata)
  {
    var b1 := if pkg.titles != [] then book.(title := pkg.titles[0]) else book;
    var b2 := if pkg.creators != [] then b1.(author := pkg.creators[0]) else b1;
    if pkg.lang != "" then b2.(metadata := b2.metadata["language" := pkg.lang]) else b2
  }

  /** `EPUBReader.Read` as a function of the archive (`None` when it cannot
      be opened): the package document's book in spine order, or the
      fallback when the package document cannot be found or decoded. */
  function EpubRead(path: string, archive: Option<seq<Entry>>, std: Std): Result<Book> {
    match archive
    case None => Err("failed to open EPUB file")
    case Some(entries) =>
      var book := NewBook(Base(path));
      match OpfPath(entries, std)
      case None => Ok(Fallback(entries, book))
      case Some(opfPath) =>
        match OpfPackage(entries, opfPath, std)
        case None => Ok(Fallback(entries, book))
        case Some(pkg) =>
          var chapters := SpineChapters(entries, Dir(opfPath, std.clean), Manifest(pkg.items), pkg.spine, std.clean);
          if chapters == [] then Err("no chapters found in EPUB")
          else Ok(WithMetadata(book, pkg).(chapters := chapters))
  }

  /** What `Read` promises. It fails only when the archive cannot be opened
      or the package document's spine yields no chapter; the fallback never
      fails and keeps the file's base name as the title. A book read through
      the package document has its spine's chapters in spine order, its
      first title and creator, and a language entry only for a given
      language. */
  lemma EpubReadSpec(path: string, archive: Option<seq<Entry>>, std: Std)
    ensures var r := EpubRead(path, archive, std);
            r.Err? <==>
              archive.None? ||
              (var opf := OpfPath(archive.value, std);
               opf.Some? && OpfPackage(archive.value, opf.value, std).Some? &&
               var pkg := OpfPackage(archive.value, opf.value, std).value;
               SpineChapters(archive.value, Dir(opf.value, std.clean), Manifest(pkg.items), pkg.spine, std.clean) == [])
    ensures var r := EpubRead(path, archive, std);
            archive.Some? && (OpfPath(archive.value, std).None? ||
                              OpfPackage(archive.value, OpfPath(archive.value, std).value, std).None?) ==>
              r == Ok(Fallback(archive.value, NewBook(Base(path)))) && r.value.title == Base(path)
    ensures var r := EpubRead(path, archive, std);
            archive.Some? && OpfPath(archive.value, std).Some? &&
            OpfPackage(archive.value, OpfPath(archive.value, std).value, std).Some? && r.Ok? ==>
              var entries := archive.value;
              var opf := OpfPath(entries, std).value;
              var pkg := OpfPackage(entries, opf, std).value;
              var dir := Dir(opf, std.clean);
              var manifest := Manifest(pkg.items);
              var cs := r.value.chapters;
              && cs != []
              && r.value.title == (if pkg.titles != [] then pkg.titles[0] else Base(path))
              && r.value.author == (if pkg.creators != [] then pkg.creators[0] else "")
              && ("language" in r.value.metadata <==> pkg.lang != "")
              && (pkg.lang != "" ==> r.value.metadata["language"] == pkg.lang)
              && (forall j :: 0 <= j < |cs| ==>
                    0 <= cs[j].order < |pkg.spine| &&
                    pkg.spine[cs[j].order] in manifest &&
                    ChapterAt(entries, dir, manifest, pkg.spine, std.clean, cs[j].order) == Some(cs[j]))
              && (forall j, k :: 0 <= j < k < |cs| ==> cs[j].order < cs[k].order)
  {
    if archive.Some? {
      var entries := archive.value;
      var opf := OpfPath(entries, std);
      if opf.None? || OpfPackage(entries, opf.value, std).None? {
        FallbackSpec(entries, NewBook(Base(path)));
      } else {
        var pkg := OpfPackage(entries, opf.value, std).value;
        SpineChaptersSpec(entries, Dir(opf.value, std.clean), Manifest(pkg.items), pkg.spine, std.clean);
      }
    }
  }

  /** `EPUBReader.Read`. */
  method ReadEpub(path: string, archive: Option<seq<Entry>>, std: Std) returns (r: Result<Book>)
    ensures r == EpubRead(path, archive, std)
  {
    if archive.None? {
      return Err("failed to open EPUB file");
    }
    var entries := archive.value;
    var book := NewBook(Base(path));
    var opfPath := FindOPFPath(entries, std);
    if opfPath.None? {
      var b := ReadFallback(entries, book);
      return Ok(b);
    }
    var opf := ParseOPF(entries, opfPath.value, std);
    if opf.None? {
      var b := ReadFallback(entries, book);
      return Ok(b);
    }
    var pkg := opf.value;
    if |pkg.titles| > 0 {
      book := book.(title := pkg.titles[0]);
    }
    if |pkg.creators| > 0 {
      book := book.(author := pkg.creators[0]);
    }
    if pkg.lang != "" {
      book := book.(metadata := book.metadata["language" := pkg.lang]);
    }
    assert book == WithMetadata(NewBook(Base(path)), pkg);
    var manifestMap := ManifestMap(pkg.items);
    var chapters := ReadSpine(entries, opfPath.value, manifestMap, pkg.spine, std.clean);
    assert book.chapters + chapters == chapters;
    book := book.(chapters := book.chapters + chapters);
    if |book.chapters| == 0 {
      return Err("no chapters found in EPUB");
    }
    assert EpubRead(path, archive, std) == Ok(WithMetadata(NewBook(Base(path)), pkg).(chapters := chapters));
    return Ok(book);
  }
}
