/** Full justification of word-wrapped paragraphs (`justifyText`). */
module Justify {
  import opened TextUtil

  /** `int(float64(width) * 0.75)`: three quarters of the width, truncated
      toward zero. */
  function Threshold(width: int): (t: int)
    ensures 0 <= width ==> 0 <= t <= width && 4 * t <= 3 * width < 4 * t + 4
  {
    if width >= 0 then (3 * width) / 4 else -((-3 * width) / 4)
  }

  /** Total length of the words. */
  function SumLen(words: seq<string>): nat {
    if words == [] then 0 else SumLen(words[..|words| - 1]) + |words[|words| - 1]|
  }

  /** The spaces written after word `i`: `base` of them, and one more for the
      first `extra` gaps. */
  function Gap(i: int, base: nat, extra: int): (g: string)
    ensures |g| == base + (if i < extra then 1 else 0)
    ensures forall j :: 0 <= j < |g| ==> g[j] == ' '
  {
    RepeatChar(' ', base) + (if i < extra then " " else "")
  }

  /** Word `i` as written into the line: followed by its gap unless it is
      the last word. */
  function Piece(words: seq<string>, base: nat, extra: int, i: nat): string
    requires i < |words|
  {
    words[i] + (if i < |words| - 1 then Gap(i, base, extra) else "")
  }

  /** The justified line after its first `k` words have been written. */
  function Laid(words: seq<string>, base: nat, extra: int, k: nat): string
    requires k <= |words|
  {
    if k == 0 then "" else Laid(words, base, extra, k - 1) + Piece(words, base, extra, k - 1)
  }

  /** The line is long enough, has words to spread and room for a space in
      every gap: the conditions under which `justifyText` rebuilds it. */
  predicate Justifies(t: string, isLast: bool, single: bool, width: int) {
    var words := Fields(t);
    t != [] && !isLast && !single && |words| > 1 && |t| >= Threshold(width)
    && width - SumLen(words) >= |words| - 1
  }

  /** The words of a selected line laid out to `width`: the spare width
      spread as `total / gaps` spaces per gap, one more for the first
      `total % gaps` gaps. */
  function Rebuilt(words: seq<string>, width: int): string
    requires |words| > 1 && width - SumLen(words) >= |words| - 1
  {
    var total := width - SumLen(words);
    var gaps := |words| - 1;
    Laid(words, total / gaps, total % gaps, |words|)
  }

  /** One line of the block after justification: rebuilt with spread gaps
      when `Justifies` selects it, otherwise only trimmed. */
  function JustifyLine(line: string, isLast: bool, single: bool, width: int): string {
    var t := TrimSpace(line);
    if Justifies(t, isLast, single, width) then Rebuilt(Fields(t), width) else t
  }

  /** The lines of the justified block, one per line of the input. */
  function JustifiedLines(text: string, width: int): (out: seq<string>)
    ensures |out| == |Split(text, '\n')|
  {
    var lines := Split(text, '\n');
    seq(|lines|, i requires 0 <= i < |lines| => JustifyLine(lines[i], i == |lines| - 1, |lines| == 1, width))
  }

  function JustifiedText(text: string, width: int): string {
    Join(JustifiedLines(text, width), "\n")
  }

  // ---------------------------------------------------------------------
  // Properties of the laid-out line

  lemma SumLenLast(words: seq<string>, k: nat)
    requires k < |words|
    ensures SumLen(words[..k + 1]) == SumLen(words[..k]) + |words[k]|
  {
    assert words[..k + 1][..k] == words[..k];
  }

  /** A piece is its word, then spaces only. */
  lemma PieceChars(words: seq<string>, base: nat, extra: int, i: nat)
    requires i < |words|
    ensures var p := Piece(words, base, extra, i);
            |words[i]| <= |p| && p[..|words[i]|] == words[i]
            && (forall j :: |words[i]| <= j < |p| ==> p[j] == ' ')
  {
    var g := if i < |words| - 1 then Gap(i, base, extra) else "";
    assert Piece(words, base, extra, i) == words[i] + g;
  }

  /** Every character of a laid-out line is a space or a character of a word. */
  lemma {:induction false} LaidChars(words: seq<string>, base: nat, extra: int, k: nat)
    requires k <= |words|
    requires forall i :: 0 <= i < |words| ==> NoSpace(words[i])
    ensures forall j :: 0 <= j < |Laid(words, base, extra, k)| ==>
              Laid(words, base, extra, k)[j] == ' ' || !IsSpace(Laid(words, base, extra, k)[j])
  {
    if k > 0 {
      LaidChars(words, base, extra, k - 1);
      var prev := Laid(words, base, extra, k - 1);
      var p := Piece(words, base, extra, k - 1);
      PieceChars(words, base, extra, k - 1);
      assert forall j :: 0 <= j < |p| ==> p[j] == ' ' || !IsSpace(p[j]) by {
        forall j | 0 <= j < |p| ensures p[j] == ' ' || !IsSpace(p[j]) {
          if j < |words[k - 1]| {
            assert p[j] == p[..|words[k - 1]|][j];
          }
        }
      }
      CharsOfAppend(prev, p);
    }
  }

  /** Character classes that hold in both halves hold in the concatenation. */
  lemma CharsOfAppend(a: string, b: string)
    requires forall j :: 0 <= j < |a| ==> a[j] == ' ' || !IsSpace(a[j])
    requires forall j :: 0 <= j < |b| ==> b[j] == ' ' || !IsSpace(b[j])
    ensures forall j :: 0 <= j < |a + b| ==> (a + b)[j] == ' ' || !IsSpace((a + b)[j])
  {
    forall j | 0 <= j < |a + b| ensures (a + b)[j] == ' ' || !IsSpace((a + b)[j]) {
      if j >= |a| {
        assert (a + b)[j] == b[j - |a|];
      }
    }
  }

  /** Before the last word, the line laid so far has `k` words and `k` gaps. */
  lemma {:induction false} LaidLength(words: seq<string>, base: nat, extra: int, k: nat)
    requires k < |words|
    requires 0 <= extra
    ensures |Laid(words, base, extra, k)| == SumLen(words[..k]) + k * base + (if k < extra then k else extra)
  {
    if k > 0 {
      LaidLength(words, base, extra, k - 1);
      SumLenLast(words, k - 1);
      assert |Piece(words, base, extra, k - 1)| == |words[k - 1]| + base + (if k - 1 < extra then 1 else 0);
      assert k * base == (k - 1) * base + base;
    }
  }

  /** The whole laid-out line: the words, `base` spaces in each gap, and
      one more in each of the first `extra` gaps. */
  lemma LaidFullLength(words: seq<string>, base: nat, extra: int)
    requires 0 < |words| && 0 <= extra <= |words| - 1
    ensures |Laid(words, base, extra, |words|)| == SumLen(words) + (|words| - 1) * base + extra
  {
    var gaps := |words| - 1;
    LaidLength(words, base, extra, gaps);
    SumLenLast(words, gaps);
    assert |Piece(words, base, extra, gaps)| == |words[gaps]|;
    assert words[..gaps + 1] == words;
  }

  /** A rebuilt line is exactly `width` long: `total / gaps` spaces in every
      gap plus the remainder make up the spare width. */
  lemma JustifiedLength(words: seq<string>, width: int)
    requires |words| > 1
    requires width - SumLen(words) >= |words| - 1
    ensures |Rebuilt(words, width)| == width
  {
    var total := width - SumLen(words);
    var gaps := |words| - 1;
    var base, extra := total / gaps, total % gaps;
    DivMod(total, gaps);
    LaidFullLength(words, base, extra);
  }

  /** Euclidean division splits `total` into `gaps` equal shares and a
      remainder smaller than `gaps`. */
  /** At least one space per gap when there are as many spaces as gaps. */
  lemma QuotientPositive(total: int, gaps: int)
    requires 0 < gaps <= total
    ensures total / gaps >= 1
  {
    DivMod(total, gaps);
  }

  lemma DivMod(total: nat, gaps: nat)
    requires gaps > 0
    ensures total / gaps >= 0 && 0 <= total % gaps < gaps
    ensures gaps * (total / gaps) + total % gaps == total
  {
  }

  /** The line laid after `j` words is a prefix of the line laid after `k`. */
  lemma {:induction false} LaidPrefix(words: seq<string>, base: nat, extra: int, j: nat, k: nat)
    requires j <= k <= |words|
    ensures |Laid(words, base, extra, j)| <= |Laid(words, base, extra, k)|
    ensures Laid(words, base, extra, k)[..|Laid(words, base, extra, j)|] == Laid(words, base, extra, j)
  {
    if j < k {
      LaidPrefix(words, base, extra, j, k - 1);
      var prev := Laid(words, base, extra, k - 1);
      assert Laid(words, base, extra, k)[..|prev|] == prev;
    }
  }

  /** Where word `i` and the gap after it sit in the justified line: the
      word starts where the line laid before it ends, and the gap after it
      holds `base` spaces, one more for the first `extra` gaps. */
  lemma JustifiedWordAndGap(words: seq<string>, base: nat, extra: int, i: nat)
    requires i < |words|
    ensures var line := Laid(words, base, extra, |words|);
            var at := |Laid(words, base, extra, i)|;
            var next := |Laid(words, base, extra, i + 1)|;
            at + |words[i]| <= next <= |line|
            && line[at..at + |words[i]|] == words[i]
            && (i < |words| - 1 ==>
                  next - at - |words[i]| == base + (if i < extra then 1 else 0)
                  && forall j :: at + |words[i]| <= j < next ==> line[j] == ' ')
            && (i == |words| - 1 ==> next == at + |words[i]|)
  {
    var line := Laid(words, base, extra, |words|);
    var prev := Laid(words, base, extra, i);
    var g := if i < |words| - 1 then Gap(i, base, extra) else "";
    LaidPrefix(words, base, extra, i + 1, |words|);
    assert Piece(words, base, extra, i) == words[i] + g;
    PieceAt(line, prev, words[i], g);
  }

  /** A line that starts with `prev + w + g` holds `w` and then `g` right
      after `prev`. */
  lemma PieceAt(line: string, prev: string, w: string, g: string)
    requires |prev + (w + g)| <= |line| && line[..|prev + (w + g)|] == prev + (w + g)
    ensures line[|prev|..|prev| + |w|] == w
    ensures forall j :: |prev| + |w| <= j < |prev| + |w| + |g| ==> line[j] == g[j - |prev| - |w|]
  {
    var n := |prev + (w + g)|;
    assert forall j :: 0 <= j < n ==> line[j] == (prev + (w + g))[j];
  }

  /** A piece has its word as its only field, and ends in a space unless it
      holds the last word. */
  lemma PieceFields(words: seq<string>, base: nat, extra: int, i: nat)
    requires i < |words| && base >= 1
    requires words[i] != [] && NoSpace(words[i])
    ensures var p := Piece(words, base, extra, i);
            Fields(p) == [words[i]] && (i < |words| - 1 ==> IsSpace(p[|p| - 1]))
  {
    var g := if i < |words| - 1 then Gap(i, base, extra) else "";
    assert Piece(words, base, extra, i) == words[i] + g;
    FieldsOfWord(words[i]);
    FieldsAllSpace(g);
    FieldsAppend(words[i], g);
  }

  /** Appending a piece with one field after a line that ends in a space. */
  lemma FieldsSnoc(prev: string, piece: string, ws: seq<string>, w: string)
    requires Fields(prev) == ws && Fields(piece) == [w]
    requires prev == [] || IsSpace(prev[|prev| - 1])
    ensures Fields(prev + piece) == ws + [w]
  {
    FieldsAppend(prev, piece);
  }

  /** Laying out the words with at least one space per gap keeps them the
      line's words, in order; before the last word the line ends in a
      space. */
  lemma {:induction false} LaidFields(words: seq<string>, base: nat, extra: int, k: nat)
    requires 0 < k <= |words|
    requires base >= 1
    requires forall i :: 0 <= i < |words| ==> words[i] != [] && NoSpace(words[i])
    ensures var line := Laid(words, base, extra, k);
            Fields(line) == words[..k] && (k < |words| ==> IsSpace(line[|line| - 1]))
  {
    if k > 1 {
      LaidFields(words, base, extra, k - 1);
    } else {
      assert Laid(words, base, extra, 0) == [] && words[..0] == [];
    }
    PieceFields(words, base, extra, k - 1);
    LaidStep(words, base, extra, k);
  }

  /** One step of `LaidFields`: the next piece adds its one word. */
  lemma LaidStep(words: seq<string>, base: nat, extra: int, k: nat)
    requires 0 < k <= |words|
    requires var prev := Laid(words, base, extra, k - 1);
             Fields(prev) == words[..k - 1] && (prev == [] || IsSpace(prev[|prev| - 1]))
    requires var p := Piece(words, base, extra, k - 1);
             Fields(p) == [words[k - 1]] && (k < |words| ==> IsSpace(p[|p| - 1]))
    ensures var line := Laid(words, base, extra, k);
            Fields(line) == words[..k] && (k < |words| ==> IsSpace(line[|line| - 1]))
  {
    var prev := Laid(words, base, extra, k - 1);
    var p := Piece(words, base, extra, k - 1);
    var line := Laid(words, base, extra, k);
    assert line == prev + p;
    assert Fields(line) == words[..k] by {
      FieldsSnoc(prev, p, words[..k - 1], words[k - 1]);
      PrefixSnoc(words, k - 1);
    }
    assert k < |words| ==> IsSpace(line[|line| - 1]) by {
      if k < |words| {
        LastOfAppend(prev, p);
      }
    }
  }

  lemma LastOfAppend(a: string, b: string)
    requires b != []
    ensures (a + b)[|a + b| - 1] == b[|b| - 1]
  {
  }

  lemma {:induction false} LaidStartsWithWord(words: seq<string>, base: nat, extra: int, k: nat)
    requires 0 < k <= |words| && words[0] != []
    ensures |Laid(words, base, extra, k)| > 0 && Laid(words, base, extra, k)[0] == words[0][0]
  {
    if k > 1 {
      LaidStartsWithWord(words, base, extra, k - 1);
    }
  }

  // ---------------------------------------------------------------------
  // Properties of one line

  /** A line is rebuilt exactly when `Justifies` holds: then it is `width`
      long and its gaps follow the left-biased distribution; otherwise it is
      only trimmed. Either way it is trimmed and keeps its words. */
  lemma JustifyLineSpec(line: string, isLast: bool, single: bool, width: int)
    ensures var r := JustifyLine(line, isLast, single, width);
            var t := TrimSpace(line);
            var words := Fields(t);
            && (Justifies(t, isLast, single, width) ==>
                  |r| == width && r == Rebuilt(words, width))
            && (!Justifies(t, isLast, single, width) ==> r == t)
            && IsTrimmed(r)
            && Fields(r) == Fields(line)
            && ('\n' !in line ==> '\n' !in r)
  {
    var t := TrimSpace(line);
    FieldsTrimSpace(line);
    TrimSpaceKeepsOut(line, '\n');
    if Justifies(t, isLast, single, width) {
      RebuiltLine(Fields(t), width);
    }
  }


  /** A rebuilt line is `width` long, trimmed, holds exactly the words it
      was built from, and no newline. */
  lemma RebuiltLine(words: seq<string>, width: int)
    requires |words| > 1
    requires forall i :: 0 <= i < |words| ==> words[i] != [] && NoSpace(words[i])
    requires width - SumLen(words) >= |words| - 1
    ensures var r := Rebuilt(words, width);
            |r| == width && IsTrimmed(r) && Fields(r) == words && '\n' !in r
  {
    var total := width - SumLen(words);
    var gaps := |words| - 1;
    var base, extra := total / gaps, total % gaps;
    var r := Laid(words, base, extra, |words|);
    assert r == Rebuilt(words, width);
    QuotientPositive(total, gaps);
    JustifiedLength(words, width);
    assert Fields(r) == words by {
      LaidFields(words, base, extra, |words|);
      assert words[..|words|] == words;
    }
    LaidNoNewline(words, base, extra, |words|);
    LaidTrimmed(words, base, extra);
  }

  /** Laid-out words hold no newline: only the gaps' spaces are white. */
  lemma LaidNoNewline(words: seq<string>, base: nat, extra: int, k: nat)
    requires k <= |words|
    requires forall i :: 0 <= i < |words| ==> NoSpace(words[i])
    ensures '\n' !in Laid(words, base, extra, k)
  {
    LaidChars(words, base, extra, k);
    var r := Laid(words, base, extra, k);
    forall j | 0 <= j < |r|
      ensures r[j] != '\n'
    {
      assert r[j] == ' ' || !IsSpace(r[j]);
    }
  }

  /** All the words laid out start and end with a word. */
  lemma LaidTrimmed(words: seq<string>, base: nat, extra: int)
    requires |words| > 1
    requires forall i :: 0 <= i < |words| ==> words[i] != [] && NoSpace(words[i])
    ensures IsTrimmed(Laid(words, base, extra, |words|))
  {
    var r := Laid(words, base, extra, |words|);
    LaidStartsWithWord(words, base, extra, |words|);
    assert !IsSpace(r[0]) by {
      assert r[0] == words[0][0];
    }
    var last := words[|words| - 1];
    var prev := Laid(words, base, extra, |words| - 1);
    assert r == prev + last by {
      assert Piece(words, base, extra, |words| - 1) == last + "";
    }
    LastOfAppend(prev, last);
    assert !IsSpace(last[|last| - 1]);
  }

  // ---------------------------------------------------------------------
  // Properties of the whole block

  lemma {:induction false} FieldsOfLinesPointwise(a: seq<string>, b: seq<string>)
    requires |a| == |b|
    requires forall i :: 0 <= i < |a| ==> Fields(a[i]) == Fields(b[i])
    ensures FieldsOfLines(a) == FieldsOfLines(b)
  {
    if a != [] {
      FieldsOfLinesPointwise(a[1..], b[1..]);
    }
  }

  /** `justifyText` keeps the number of lines, trims every line, justifies
      only the lines `Justifies` selects, and never changes the sequence of
      words of the block. */
  lemma JustifiedTextSpec(text: string, width: int)
    ensures var out := JustifiedText(text, width);
            var lines := Split(text, '\n');
            && Split(out, '\n') == JustifiedLines(text, width)
            && |Split(out, '\n')| == |lines|
            && (forall i :: 0 <= i < |lines| ==> IsTrimmed(Split(out, '\n')[i]))
            && Fields(out) == Fields(text)
  {
    var lines := Split(text, '\n');
    var outs := JustifiedLines(text, width);
    forall i | 0 <= i < |lines|
      ensures IsTrimmed(outs[i]) && Fields(outs[i]) == Fields(lines[i]) && '\n' !in outs[i]
    {
      JustifyLineSpec(lines[i], i == |lines| - 1, |lines| == 1, width);
    }
    SplitJoin(outs, '\n');
    FieldsJoinNewline(outs);
    FieldsJoinNewline(lines);
    JoinSplit(text, '\n');
    FieldsOfLinesPointwise(outs, lines);
  }

  // ---------------------------------------------------------------------
  // The algorithm

  /** `justifyText`: split the block on newlines, trim each line, and spread
      the spare width over the gaps of each line that qualifies. */
  method JustifyText(text: string, width: int) returns (r: string)
    ensures r == JustifiedText(text, width)
  {
    var lines := Split(text, '\n');
    ghost var spec := JustifiedLines(text, width);
    var justified: seq<string> := [];
    for i := 0 to |lines|
      invariant justified == spec[..i]
    {
      var line := JustifyOneLine(lines[i], i == |lines| - 1, |lines| == 1, width);
      JustifiedLineAt(text, width, i);
      PrefixSnoc(spec, i);
      justified := justified + [line];
    }
    assert spec[..|lines|] == spec;
    r := Join(justified, "\n");
  }

  lemma PrefixSnoc(s: seq<string>, i: nat)
    requires i < |s|
    ensures s[..i] + [s[i]] == s[..i + 1]
  {
  }

  lemma JustifiedLineAt(text: string, width: int, i: nat)
    requires i < |Split(text, '\n')|
    ensures var lines := Split(text, '\n');
            JustifiedLines(text, width)[i] == JustifyLine(lines[i], i == |lines| - 1, |lines| == 1, width)
  {
  }

  /** The body of `justifyText`'s loop for one line. */
  method JustifyOneLine(raw: string, isLastLine: bool, single: bool, width: int) returns (r: string)
    ensures r == JustifyLine(raw, isLastLine, single, width)
  {
    var line := TrimSpace(raw);
    ghost var selected := Justifies(line, isLastLine, single, width);
    if line == "" {
      assert !selected;
      return "";
    }
    var words := Fields(line);
    var lineLen := |line|;
    if isLastLine || single || |words| <= 1 || lineLen < Threshold(width) {
      assert !selected;
      return line;
    }
    r := Spread(line, words, width);
  }

  /** The tail of `justifyText`'s loop body: measure the words, keep the
      line when the gaps cannot each take a space, otherwise lay it out. */
  method Spread(line: string, words: seq<string>, width: int) returns (r: string)
    requires |words| > 1
    ensures width - SumLen(words) >= |words| - 1 ==> r == Rebuilt(words, width)
    ensures width - SumLen(words) < |words| - 1 ==> r == line
  {
    var wordLen := TotalWordLength(words);
    var totalSpaces := width - wordLen;
    var gaps := |words| - 1;
    if gaps <= 0 || totalSpaces < gaps {
      return line;
    }
    r := LayOut(words, totalSpaces / gaps, totalSpaces % gaps);
  }

  /** The loop of `justifyText` that adds up the lengths of the words. */
  method TotalWordLength(words: seq<string>) returns (n: nat)
    ensures n == SumLen(words)
  {
    n := 0;
    for k := 0 to |words|
      invariant n == SumLen(words[..k])
    {
      SumLenLast(words, k);
      n := n + |words[k]|;
    }
    assert words[..|words|] == words;
  }

  /** The loop of `justifyText` that writes the words with `base` spaces
      after each but the last, and one more after the first `extra`. */
  method LayOut(words: seq<string>, base: nat, extra: int) returns (line: string)
    ensures line == Laid(words, base, extra, |words|)
  {
    line := "";
    for k := 0 to |words|
      invariant line == Laid(words, base, extra, k)
    {
      var piece := words[k];
      if k < |words| - 1 {
        piece := piece + RepeatChar(' ', base);
        if k < extra {
          piece := piece + " ";
        }
      }
      assert piece == Piece(words, base, extra, k);
      line := line + piece;
    }
  }
}
