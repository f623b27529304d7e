/** The HTML-to-terminal renderer (`ebook/renderer.go`): a depth-first walk
    over the parsed node tree that appends styled text to one growing
    buffer, copies the render context into every element, and records the
    buffer's line count at each `h2`/`h3` heading. */
module Renderer {
  import opened TextUtil
  import opened Justify
  import Epub
  import opened Results

  /** A node of the parsed tree. `OtherNode` stands for the comment and
      doctype nodes of the parser, which render as nothing. */
  datatype Node =
    | TextNode(data: string)
    | ElementNode(tag: string, children: seq<Node>)
    | DocumentNode(children: seq<Node>)
    | OtherNode

  /** `renderContext`: the state inherited from the enclosing elements. */
  datatype Context = Context(
    inHeading: nat,
    inBlockquote: bool,
    inPre: bool,
    inCode: bool,
    inEmphasis: bool,
    inStrong: bool,
    listLevel: nat,
    inListItem: bool)

  /** The context the walk starts with (`&renderContext{}`). */
  const TopContext := Context(0, false, false, false, false, false, 0, false)

  /** What the theme-driven styling of a piece of text depends on: the
      heading, code and inline-emphasis colours of body text, the faded
      quote style with its left border, and the muted colour of a rule. */
  datatype Style =
    | TextStyle(heading: bool, code: bool, emphasis: bool, strong: bool)
    | QuoteStyle
    | RuleStyle

  /** The foreign libraries the renderer calls: `wordwrap.String` and
      lipgloss's `Render` under the active theme. */
  datatype Env = Env(wrap: (string, int) -> string, render: (Style, string) -> string)

  /** The text buffer and the heading positions recorded so far. */
  datatype Buf = Buf(out: string, positions: seq<nat>)

  /** `RenderResult`. */
  datatype RenderResult = RenderResult(text: string, headingPositions: seq<nat>)

  function Min(a: int, b: int): (r: int)
    ensures r <= a && r <= b && (r == a || r == b)
  {
    if a < b then a else b
  }

  function Max(a: int, b: int): (r: int)
    ensures r >= a && r >= b && (r == a || r == b)
  {
    if a > b then a else b
  }

  /** The width text is wrapped to: the renderer's width, or 80 when that
      is not positive. */
  function EffectiveWidth(width: int): (w: int)
    ensures w > 0
    ensures width > 0 ==> w == width
    ensures width <= 0 ==> w == 80
  {
    if width <= 0 then 80 else width
  }

  // ---------------------------------------------------------------------
  // Elements

  predicate IsHeadingTag(tag: string) {
    tag == "h1" || tag == "h2" || tag == "h3" || tag == "h4" || tag == "h5" || tag == "h6"
  }

  /** The headings whose position is recorded. */
  predicate IsAnchorTag(tag: string) {
    tag == "h2" || tag == "h3"
  }

  /** `h1`…`h6` stand for levels 1…6. */
  function HeadingLevel(tag: string): (level: nat)
    requires IsHeadingTag(tag)
    ensures 1 <= level <= 6
  {
    (tag[1] as int) - ('0' as int)
  }

  /** The child context of an element: a copy of the parent's with the
      element's own changes. Every flag set in the parent stays set, each
      flag is switched on by its own tags only, and the list level grows by
      one for a list. */
  function EnterContext(tag: string, ctx: Context): (r: Context)
    ensures r.inBlockquote == (ctx.inBlockquote || tag == "blockquote")
    ensures r.inPre == (ctx.inPre || tag == "pre")
    ensures r.inCode == (ctx.inCode || tag == "pre" || (tag == "code" && !ctx.inPre))
    ensures r.inEmphasis == (ctx.inEmphasis || tag == "em" || tag == "i")
    ensures r.inStrong == (ctx.inStrong || tag == "strong" || tag == "b")
    ensures r.inListItem == (ctx.inListItem || tag == "li")
    ensures r.listLevel == ctx.listLevel + (if tag == "ul" || tag == "ol" then 1 else 0)
    ensures r.inHeading == if IsHeadingTag(tag) then HeadingLevel(tag) else ctx.inHeading
  {
    if IsHeadingTag(tag) then ctx.(inHeading := HeadingLevel(tag))
    else if tag == "blockquote" then ctx.(inBlockquote := true)
    else if tag == "pre" then ctx.(inPre := true, inCode := true)
    else if tag == "code" then (if !ctx.inPre then ctx.(inCode := true) else ctx)
    else if tag == "em" || tag == "i" then ctx.(inEmphasis := true)
    else if tag == "strong" || tag == "b" then ctx.(inStrong := true)
    else if tag == "ul" || tag == "ol" then ctx.(listLevel := ctx.listLevel + 1)
    else if tag == "li" then ctx.(inListItem := true)
    else ctx
  }

  /** An `li` outside every list would repeat its indent a negative number
      of times, and an `hr` under a negative width would repeat its rule
      so; both panic in Go. Neither is reached in a tree where `Safe`
      holds. `br` and `hr` do not render their children. */
  predicate Safe(n: Node, ctx: Context, width: int)
    decreases n
  {
    match n
    case ElementNode(tag, cs) =>
      (tag == "li" ==> ctx.listLevel >= 1) && (tag == "hr" ==> width >= 0) &&
      (tag != "br" && tag != "hr" ==>
         forall i :: 0 <= i < |cs| ==> Safe(cs[i], EnterContext(tag, ctx), width))
    case DocumentNode(cs) => forall i :: 0 <= i < |cs| ==> Safe(cs[i], ctx, width)
    case _ => true
  }

  /** What an element writes before its children. */
  function Opening(tag: string, ctx: Context): string
    requires tag == "li" ==> ctx.listLevel >= 1
  {
    if IsHeadingTag(tag) || tag == "blockquote" || tag == "pre" then "\n\n"
    else if tag == "p" then (if !ctx.inListItem then "\n\n" else "")
    else if tag == "ul" || tag == "ol" then "\n"
    else if tag == "li" then "\n" + RepeatChar(' ', 2 * (ctx.listLevel - 1)) + "• "
    else ""
  }

  /** What an element writes after its children. */
  function Closing(tag: string): string {
    if IsHeadingTag(tag) || tag == "blockquote" || tag == "pre" || tag == "ul" || tag == "ol" then "\n" else ""
  }

  /** The horizontal rule: `min(width, 80)` box-drawing characters. */
  function Rule(width: int): (r: string)
    requires width >= 0
    ensures |r| == Min(width, 80) && forall i :: 0 <= i < |r| ==> r[i] == '─'
  {
    RepeatChar('─', Min(width, 80))
  }

  /** What `br` and `hr` write, children ignored. */
  function Void(tag: string, width: int, env: Env): string
    requires tag == "br" || tag == "hr"
    requires tag == "hr" ==> width >= 0
  {
    if tag == "br" then "\n" else "\n\n" + env.render(RuleStyle, Rule(width)) + "\n\n"
  }

  // ---------------------------------------------------------------------
  // Text

  /** The style body text gets in a context: code colours replace the
      inline emphasis of ordinary text. */
  function StyleOf(ctx: Context): Style {
    TextStyle(ctx.inHeading > 0, ctx.inCode, !ctx.inCode && ctx.inEmphasis, !ctx.inCode && ctx.inStrong)
  }

  /** What line `i` of quoted text writes: nothing when it is blank (white
      space only, which is when it trims to ""), not even its newline;
      otherwise the line in the quote style, followed by a newline unless
      it is the last line. */
  function QuoteLine(lines: seq<string>, i: nat, env: Env): string
    requires i < |lines|
  {
    if AllSpace(lines[i]) then ""
    else env.render(QuoteStyle, lines[i]) + (if i < |lines| - 1 then "\n" else "")
  }

  /** What the first `k` quoted lines write. */
  function QuotePrefix(lines: seq<string>, k: nat, env: Env): string
    requires k <= |lines|
  {
    if k == 0 then "" else QuotePrefix(lines, k - 1, env) + QuoteLine(lines, k - 1, env)
  }

  /** Body text after wrapping: justified unless it is heading text or
      blank. */
  function BodyText(text: string, ctx: Context, ew: int, env: Env): string {
    var w := env.wrap(text, ew);
    if ctx.inHeading == 0 && TrimSpace(w) != "" then JustifiedText(w, ew) else w
  }

  /** Heading text with its marker of `level` `#`s, wrapped. */
  function HeadedText(text: string, ctx: Context, ew: int, env: Env): string {
    if ctx.inHeading > 0 then env.wrap(RepeatChar('#', ctx.inHeading) + " " + text, ew) else text
  }

  /** Quoted text: wrapped to `max(w - 4, 40)`, then written line by line. */
  function Quoted(text: string, ew: int, env: Env): string {
    var lines := Split(env.wrap(text, Max(ew - 4, 40)), '\n');
    QuotePrefix(lines, |lines|, env)
  }

  /** Text outside quotes before styling: preformatted code wrapped to
      `max(w - 2, 40)`, inline code as it is, other text wrapped and
      justified. */
  function Unstyled(text: string, ctx: Context, ew: int, env: Env): string {
    if ctx.inCode then (if ctx.inPre then env.wrap(text, Max(ew - 2, 40)) else text)
    else BodyText(text, ctx, ew, env)
  }

  /** `writeStyledText`: what one piece of text adds to the buffer. */
  function StyledText(text: string, ctx: Context, width: int, env: Env): string {
    var ew := EffectiveWidth(width);
    var t := HeadedText(text, ctx, ew, env);
    if ctx.inBlockquote then Quoted(t, ew, env) else env.render(StyleOf(ctx), Unstyled(t, ctx, ew, env))
  }

  /** What a text node writes: nothing when it is blank (outside `pre`,
      where surrounding white space is trimmed first). */
  function TextOutput(data: string, ctx: Context, width: int, env: Env): string {
    var t := if !ctx.inPre then TrimSpace(data) else data;
    if t != "" then StyledText(t, ctx, width, env) else ""
  }

  // ---------------------------------------------------------------------
  // The walk

  /** `renderNode`: the buffer and positions after rendering `n`. */
  function Walk(n: Node, ctx: Context, width: int, env: Env, b: Buf): Buf
    requires Safe(n, ctx, width)
    decreases n, 1
  {
    match n
    case TextNode(data) => b.(out := b.out + TextOutput(data, ctx, width, env))
    case OtherNode => b
    case DocumentNode(cs) => WalkChildren(n, ctx, width, env, 0, b)
    case ElementNode(tag, cs) =>
      if tag == "br" || tag == "hr" then b.(out := b.out + Void(tag, width, env))
      else
        var started := b.out + Opening(tag, ctx);
        var anchors := if IsAnchorTag(tag) then b.positions + [Count(started, '\n')] else b.positions;
        var inner := WalkChildren(n, EnterContext(tag, ctx), width, env, 0, Buf(started, anchors));
        inner.(out := inner.out + Closing(tag))
  }

  /** The children of `parent` from the `i`-th on, each under `ctx`. */
  function WalkChildren(parent: Node, ctx: Context, width: int, env: Env, i: nat, b: Buf): Buf
    requires parent.ElementNode? || parent.DocumentNode?
    requires i <= |parent.children|
    requires forall j :: 0 <= j < |parent.children| ==> Safe(parent.children[j], ctx, width)
    decreases parent, 0, |parent.children| - i
  {
    if i == |parent.children| then b
    else WalkChildren(parent, ctx, width, env, i + 1, Walk(parent.children[i], ctx, width, env, b))
  }

  /** The child context of a safe element keeps its children safe. */
  lemma SafeChildren(n: Node, ctx: Context, width: int)
    requires n.ElementNode? && n.tag != "br" && n.tag != "hr" && Safe(n, ctx, width)
    ensures forall j :: 0 <= j < |n.children| ==> Safe(n.children[j], EnterContext(n.tag, ctx), width)
  {
  }

  /** The number of `h2`/`h3` headings the walk enters. */
  function Anchors(n: Node): nat
    decreases n, 1
  {
    match n
    case ElementNode(tag, cs) =>
      if tag == "br" || tag == "hr" then 0
      else (if IsAnchorTag(tag) then 1 else 0) + AnchorsFrom(n, 0)
    case DocumentNode(cs) => AnchorsFrom(n, 0)
    case _ => 0
  }

  function AnchorsFrom(parent: Node, i: nat): nat
    requires parent.ElementNode? || parent.DocumentNode?
    requires i <= |parent.children|
    decreases parent, 0, |parent.children| - i
  {
    if i == |parent.children| then 0 else Anchors(parent.children[i]) + AnchorsFrom(parent, i + 1)
  }

  // ---------------------------------------------------------------------
  // Heading positions

  predicate StrictlyIncreasing(ps: seq<nat>) {
    forall i, j :: 0 <= i < j < |ps| ==> ps[i] < ps[j]
  }

  /** The positions are strictly increasing and none lies past the last
      line of the buffer. */
  predicate AnchorsOk(b: Buf) {
    StrictlyIncreasing(b.positions) &&
    forall i :: 0 <= i < |b.positions| ==> b.positions[i] <= Count(b.out, '\n')
  }

  /** `b` grew into `r`: the buffer and the positions were only appended
      to, with `k` new positions. */
  predicate Extends(b: Buf, r: Buf, k: nat) {
    |b.out| <= |r.out| && r.out[..|b.out|] == b.out &&
    |r.positions| == |b.positions| + k && r.positions[..|b.positions|] == b.positions
  }

  lemma ExtendsTrans(a: Buf, b: Buf, c: Buf, k1: nat, k2: nat)
    requires Extends(a, b, k1) && Extends(b, c, k2)
    ensures Extends(a, c, k1 + k2)
  {
    assert c.out[..|a.out|] == c.out[..|b.out|][..|a.out|];
    assert c.positions[..|a.positions|] == c.positions[..|b.positions|][..|a.positions|];
  }

  /** Appending text keeps the anchors valid. */
  lemma AppendKeepsAnchors(b: Buf, s: string)
    requires AnchorsOk(b)
    ensures AnchorsOk(b.(out := b.out + s)) && Extends(b, b.(out := b.out + s), 0)
  {
    CountAppend(b.out, s, '\n');
    assert (b.out + s)[..|b.out|] == b.out;
  }

  /** Entering an element: the opening text is appended, and a heading's
      position is its line count, past every earlier one because an
      anchored heading opens with two newlines. */
  lemma OpenKeepsAnchors(tag: string, ctx: Context, b: Buf)
    requires AnchorsOk(b)
    requires tag == "li" ==> ctx.listLevel >= 1
    ensures var started := b.out + Opening(tag, ctx);
            var anchors := if IsAnchorTag(tag) then b.positions + [Count(started, '\n')] else b.positions;
            AnchorsOk(Buf(started, anchors)) &&
            Extends(b, Buf(started, anchors), if IsAnchorTag(tag) then 1 else 0)
  {
    var started := b.out + Opening(tag, ctx);
    AppendKeepsAnchors(b, Opening(tag, ctx));
    if IsAnchorTag(tag) {
      CountAppend(b.out, "\n\n", '\n');
      assert Count("\n\n", '\n') == 2;
      var anchors := b.positions + [Count(started, '\n')];
      assert anchors[..|b.positions|] == b.positions;
    }
  }

  /** Rendering a node only appends to the buffer and to the positions,
      adds exactly one position per `h2`/`h3` it enters, and keeps the
      positions strictly increasing and within the buffer's lines. */
  lemma {:induction false} WalkSpec(n: Node, ctx: Context, width: int, env: Env, b: Buf)
    requires Safe(n, ctx, width) && AnchorsOk(b)
    ensures AnchorsOk(Walk(n, ctx, width, env, b))
    ensures Extends(b, Walk(n, ctx, width, env, b), Anchors(n))
    decreases n, 1
  {
    match n
    case TextNode(data) =>
      AppendKeepsAnchors(b, TextOutput(data, ctx, width, env));
    case OtherNode =>
      assert b.out[..|b.out|] == b.out;
    case DocumentNode(cs) =>
      WalkChildrenSpec(n, ctx, width, env, 0, b);
    case ElementNode(tag, cs) =>
      if tag == "br" || tag == "hr" {
        AppendKeepsAnchors(b, Void(tag, width, env));
      } else {
        var started := b.out + Opening(tag, ctx);
        var anchors := if IsAnchorTag(tag) then b.positions + [Count(started, '\n')] else b.positions;
        var b1 := Buf(started, anchors);
        OpenKeepsAnchors(tag, ctx, b);
        SafeChildren(n, ctx, width);
        var inner := WalkChildren(n, EnterContext(tag, ctx), width, env, 0, b1);
        WalkChildrenSpec(n, EnterContext(tag, ctx), width, env, 0, b1);
        AppendKeepsAnchors(inner, Closing(tag));
        ExtendsTrans(b, b1, inner, if IsAnchorTag(tag) then 1 else 0, AnchorsFrom(n, 0));
        ExtendsTrans(b, inner, inner.(out := inner.out + Closing(tag)), Anchors(n), 0);
      }
  }

  lemma {:induction false} WalkChildrenSpec(parent: Node, ctx: Context, width: int, env: Env, i: nat, b: Buf)
    requires parent.ElementNode? || parent.DocumentNode?
    requires i <= |parent.children|
    requires forall j :: 0 <= j < |parent.children| ==> Safe(parent.children[j], ctx, width)
    requires AnchorsOk(b)
    ensures AnchorsOk(WalkChildren(parent, ctx, width, env, i, b))
    ensures Extends(b, WalkChildren(parent, ctx, width, env, i, b), AnchorsFrom(parent, i))
    decreases parent, 0, |parent.children| - i
  {
    if i == |parent.children| {
      assert b.out[..|b.out|] == b.out && b.positions[..|b.positions|] == b.positions;
    } else {
      var c := parent.children[i];
      var b1 := Walk(c, ctx, width, env, b);
      WalkSpec(c, ctx, width, env, b);
      WalkChildrenSpec(parent, ctx, width, env, i + 1, b1);
      ExtendsTrans(b, b1, WalkChildren(parent, ctx, width, env, i + 1, b1), Anchors(c), AnchorsFrom(parent, i + 1));
    }
  }

  // ---------------------------------------------------------------------
  // Entry points

  /** `RenderWithHeadings` on a parse result: the plain-text extraction
      with no positions when the parse failed, otherwise the trimmed
      buffer of the walk and the positions it recorded. */
  function Rendered(input: string, parsed: Option<Node>, width: int, env: Env): RenderResult
    requires parsed.Some? ==> Safe(parsed.value, TopContext, width)
  {
    match parsed
    case None => RenderResult(Epub.HtmlToTextSpec(input), [])
    case Some(doc) =>
      var b := Walk(doc, TopContext, width, env, Buf("", []));
      RenderResult(TrimSpace(b.out), b.positions)
  }

  /** `RenderToStyledTextWithHeadings`: `Rendered`, falling back to the
      plain-text extraction when the rendered text is blank. */
  function RenderedWithFallback(input: string, parsed: Option<Node>, width: int, env: Env): RenderResult
    requires parsed.Some? ==> Safe(parsed.value, TopContext, width)
  {
    var r := Rendered(input, parsed, width, env);
    if TrimSpace(r.text) == "" then RenderResult(Epub.HtmlToTextSpec(input), []) else r
  }

  /** What the reader gets for a chapter: the plain-text extraction without
      positions when the parse fails or renders blank; otherwise the
      trimmed buffer, one position per `h2`/`h3`, strictly increasing,
      each the number of newlines before the heading in the untrimmed
      buffer and so a line index of that buffer. */
  lemma RenderedSpec(input: string, parsed: Option<Node>, width: int, env: Env)
    requires parsed.Some? ==> Safe(parsed.value, TopContext, width)
    ensures var r := RenderedWithFallback(input, parsed, width, env);
            && StrictlyIncreasing(r.headingPositions)
            && (parsed.None? ==> r == RenderResult(Epub.HtmlToTextSpec(input), []))
            && (parsed.Some? ==>
                  var buffer := Walk(parsed.value, TopContext, width, env, Buf("", [])).out;
                  && (TrimSpace(buffer) == "" ==> r == RenderResult(Epub.HtmlToTextSpec(input), []))
                  && (TrimSpace(buffer) != "" ==>
                        r.text == TrimSpace(buffer) &&
                        |r.headingPositions| == Anchors(parsed.value) &&
                        forall i :: 0 <= i < |r.headingPositions| ==>
                          r.headingPositions[i] < Count(buffer, '\n') + 1))
  {
    if parsed.Some? {
      WalkSpec(parsed.value, TopContext, width, env, Buf("", []));
      TrimSpaceIdempotent(Walk(parsed.value, TopContext, width, env, Buf("", [])).out);
    }
  }

  /** Positions count the lines of the untrimmed buffer. A chapter that
      opens with an `h2` records it at line 2, after the two newlines the
      heading writes first; those newlines are white space that `TrimSpace`
      removes from the text the reader shows. */
  lemma LeadingHeadingPosition(title: string, width: int, env: Env)
    ensures var doc := DocumentNode([ElementNode("h2", [TextNode(title)])]);
            var b := Walk(doc, TopContext, width, env, Buf("", []));
            && b.positions == [2]
            && |b.out| >= 2 && b.out[..2] == "\n\n"
            && AllSpace(b.out[..2])
  {
    var doc := DocumentNode([ElementNode("h2", [TextNode(title)])]);
    var h := ElementNode("h2", [TextNode(title)]);
    assert Count("\n\n", '\n') == 2;
    assert Walk(doc, TopContext, width, env, Buf("", [])) == WalkChildren(doc, TopContext, width, env, 0, Buf("", []));
    var ctx := EnterContext("h2", TopContext);
    assert Opening("h2", TopContext) == "\n\n";
    var start := Buf("\n\n", [2]);
    assert Buf("" + Opening("h2", TopContext), [] + [Count("" + Opening("h2", TopContext), '\n')]) == start;
    var text := Walk(TextNode(title), ctx, width, env, start);
    assert text.positions == [2] && text.out[..2] == "\n\n";
    assert WalkChildren(h, ctx, width, env, 1, text) == text;
    var inner := WalkChildren(h, ctx, width, env, 0, start);
    assert inner == text;
    var hb := Walk(h, TopContext, width, env, Buf("", []));
    assert hb == inner.(out := inner.out + Closing("h2"));
    assert hb.positions == [2] && hb.out[..2] == "\n\n";
    assert WalkChildren(doc, TopContext, width, env, 1, hb) == hb;
  }

  lemma TrimSpaceIdempotent(s: string)
    ensures TrimSpace(TrimSpace(s)) == "" <==> TrimSpace(s) == ""
  {
  }

  // ---------------------------------------------------------------------
  // The imperative renderer

  /** `strings.Builder`. */
  class Builder {
    var text: string

    constructor ()
      ensures text == ""
    {
      text := "";
    }

    method WriteString(s: string)
      modifies this
      ensures text == old(text) + s
    {
      text := text + s;
    }
  }

  /** `Renderer`: the theme (inside `env`), the width, and the heading
      positions of the current render. */
  class Renderer {
    const env: Env
    const width: int
    var headingPositions: seq<nat>

    constructor (env: Env, width: int)
      ensures this.env == env && this.width == width && headingPositions == []
    {
      this.env := env;
      this.width := width;
      headingPositions := [];
    }

    /** `renderNode`. */
    method RenderNode(n: Node, out: Builder, ctx: Context)
      requires Safe(n, ctx, width)
      modifies this, out
      ensures Buf(out.text, headingPositions) == Walk(n, ctx, width, env, Buf(old(out.text), old(headingPositions)))
      decreases n, 1
    {
      match n {
        case TextNode(data) =>
          var text := data;
          if !ctx.inPre {
            text := TrimSpace(text);
          }
          if text != "" {
            WriteStyledText(out, text, ctx);
          }
        case ElementNode(_, _) =>
          RenderElement(n, out, ctx);
        case DocumentNode(cs) =>
          ghost var start := Buf(out.text, headingPositions);
          for i := 0 to |cs|
            invariant WalkChildren(n, ctx, width, env, i, Buf(out.text, headingPositions))
                      == WalkChildren(n, ctx, width, env, 0, start)
          {
            RenderNode(cs[i], out, ctx);
          }
        case OtherNode =>
      }
    }

    /** `renderElement`. */
    method RenderElement(n: Node, out: Builder, ctx: Context)
      requires n.ElementNode? && Safe(n, ctx, width)
      modifies this, out
      ensures Buf(out.text, headingPositions) == Walk(n, ctx, width, env, Buf(old(out.text), old(headingPositions)))
      decreases n, 0
    {
      var tag := n.tag;
      if tag == "br" || tag == "hr" {
        if tag == "br" {
          out.WriteString("\n");
        } else {
          out.WriteString("\n\n");
          out.WriteString(env.render(RuleStyle, RepeatChar('─', Min(width, 80))));
          out.WriteString("\n\n");
        }
        return;
      }
      var newCtx := EnterContext(tag, ctx);
      out.WriteString(Opening(tag, ctx));
      if IsAnchorTag(tag) {
        var lineCount := CountNewlines(out.text);
        headingPositions := headingPositions + [lineCount];
      }
      SafeChildren(n, ctx, width);
      ghost var start := Buf(out.text, headingPositions);
      for i := 0 to |n.children|
        invariant WalkChildren(n, newCtx, width, env, i, Buf(out.text, headingPositions))
                  == WalkChildren(n, newCtx, width, env, 0, start)
      {
        RenderNode(n.children[i], out, newCtx);
      }
      out.WriteString(Closing(tag));
    }

    /** `writeStyledText`. */
    method WriteStyledText(out: Builder, text: string, ctx: Context)
      modifies out
      ensures out.text == old(out.text) + StyledText(text, ctx, width, env)
    {
      var effectiveWidth := width;
      if effectiveWidth <= 0 {
        effectiveWidth := 80;
      }
      var t := text;
      if ctx.inHeading > 0 {
        t := env.wrap(RepeatChar('#', ctx.inHeading) + " " + t, effectiveWidth);
      }
      assert t == HeadedText(text, ctx, effectiveWidth, env);
      if ctx.inBlockquote {
        var wrappedText := env.wrap(t, Max(effectiveWidth - 4, 40));
        WriteQuoted(out, Split(wrappedText, '\n'));
        return;
      }
      if ctx.inCode {
        if ctx.inPre {
          t := env.wrap(t, Max(effectiveWidth - 2, 40));
        }
      } else {
        t := env.wrap(t, effectiveWidth);
        if ctx.inHeading == 0 && TrimSpace(t) != "" {
          t := JustifyText(t, effectiveWidth);
        }
      }
      out.WriteString(env.render(StyleOf(ctx), t));
    }

    /** The blockquote loop of `writeStyledText`. */
    method WriteQuoted(out: Builder, lines: seq<string>)
      modifies out
      ensures out.text == old(out.text) + QuotePrefix(lines, |lines|, env)
    {
      ghost var before := out.text;
      for i := 0 to |lines|
        invariant out.text == before + QuotePrefix(lines, i, env)
      {
        var line := lines[i];
        var blank := TrimSpace(line) == "";
        assert blank == AllSpace(line);
        var piece := "";
        if !blank {
          piece := env.render(QuoteStyle, line);
          if i < |lines| - 1 {
            piece := piece + "\n";
          }
        }
        assert piece == QuoteLine(lines, i, env);
        ghost var prev := out.text;
        out.WriteString(piece);
        assert out.text == prev + piece;
        assert before + QuotePrefix(lines, i + 1, env) == before + QuotePrefix(lines, i, env) + piece;
      }
    }

    /** `RenderWithHeadings`: reset the positions, then render the parsed
      document, or extract plain text when the parse failed. */
    method RenderWithHeadings(input: string, parsed: Option<Node>) returns (r: RenderResult)
      requires parsed.Some? ==> Safe(parsed.value, TopContext, width)
      modifies this
      ensures r == Rendered(input, parsed, width, env)
    {
      headingPositions := [];
      if parsed.None? {
        var text := Epub.HtmlToText(input);
        return RenderResult(text, []);
      }
      var result := new Builder();
      RenderNode(parsed.value, result, TopContext);
      r := RenderResult(TrimSpace(result.text), headingPositions);
    }
  }

  /** `strings.Count(s, "\n")` as a loop over the buffer. */
  method CountNewlines(s: string) returns (k: nat)
    ensures k == Count(s, '\n')
  {
    k := 0;
    var i := |s|;
    while i > 0
      invariant 0 <= i <= |s|
      invariant k == Count(s[i..], '\n')
    {
      assert s[i - 1..][1..] == s[i..];
      if s[i - 1] == '\n' {
        k := k + 1;
      }
      i := i - 1;
    }
    assert s[0..] == s;
  }

  /** `RenderToStyledTextWithHeadings`: render with a fresh renderer, and
      fall back to the plain-text extraction when the result is blank. */
  method RenderToStyledTextWithHeadings(input: string, parsed: Option<Node>, width: int, env: Env)
    returns (r: RenderResult)
    requires parsed.Some? ==> Safe(parsed.value, TopContext, width)
    ensures r == RenderedWithFallback(input, parsed, width, env)
  {
    var renderer := new Renderer(env, width);
    var result := renderer.RenderWithHeadings(input, parsed);
    if TrimSpace(result.text) == "" {
      var text := Epub.HtmlToText(input);
      return RenderResult(text, []);
    }
    return result;
  }
}
