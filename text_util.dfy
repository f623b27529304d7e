/** The pieces of Go's `strings` and `path/filepath` packages that the
    reader's core relies on, over `string` (a sequence of characters).
    Lengths are counted in characters where Go counts bytes. */
module TextUtil {

  /** `unicode.IsSpace` on the characters that can occur as ASCII or Latin-1
      white space (the rarer Unicode space separators are not modelled). */
  predicate IsSpace(c: char) {
    c == ' ' || c == '\t' || c == '\n' || c == '\r' || c == '\U{0B}' || c == '\U{0C}'
    || c == '\U{85}' || c == '\U{A0}'
  }

  predicate AllSpace(s: string) {
    forall i :: 0 <= i < |s| ==> IsSpace(s[i])
  }

  predicate NoSpace(s: string) {
    forall i :: 0 <= i < |s| ==> !IsSpace(s[i])
  }

  /** Neither end of `s` is white space. */
  predicate IsTrimmed(s: string) {
    s == [] || (!IsSpace(s[0]) && !IsSpace(s[|s| - 1]))
  }

  /** Number of leading white-space characters. */
  function LeadSpaces(s: string): (k: nat)
    ensures k <= |s|
    ensures forall i :: 0 <= i < k ==> IsSpace(s[i])
    ensures k == |s| || !IsSpace(s[k])
  {
    if s == [] || !IsSpace(s[0]) then 0 else 1 + LeadSpaces(s[1..])
  }

  /** Number of trailing white-space characters. */
  function TrailSpaces(s: string): (k: nat)
    ensures k <= |s|
    ensures forall i :: |s| - k <= i < |s| ==> IsSpace(s[i])
    ensures k == |s| || !IsSpace(s[|s| - 1 - k])
  {
    if s == [] || !IsSpace(s[|s| - 1]) then 0 else 1 + TrailSpaces(s[..|s| - 1])
  }

  /** `strings.TrimSpace`: the slice of `s` between its leading and its
      trailing white space. */
  function TrimSpace(s: string): (r: string)
    ensures IsTrimmed(r)
    ensures r == [] <==> AllSpace(s)
  {
    var l := LeadSpaces(s);
    if l == |s| then
      assert s[..l] == s && s[l..] == [];
      []
    else
      var j := |s| - TrailSpaces(s);
      assert AllSpace(s[..l]) && AllSpace(s[j..]);
      assert !AllSpace(s) by {
        assert !IsSpace(s[l]);
      }
      s[l..j]
  }

  /** Where the trimmed text sits in `s`: only white space before `i` and
      from `j` on. */
  lemma TrimSpaceSlice(s: string) returns (i: nat, j: nat)
    ensures i <= j <= |s| && TrimSpace(s) == s[i..j]
    ensures forall k :: 0 <= k < i ==> IsSpace(s[k])
    ensures forall k :: j <= k < |s| ==> IsSpace(s[k])
  {
    i := LeadSpaces(s);
    j := if i == |s| then i else |s| - TrailSpaces(s);
  }

  /** Trimming adds no character. */
  lemma TrimSpaceKeepsOut(line: string, c: char)
    ensures c !in line ==> c !in TrimSpace(line)
  {
    var t := TrimSpace(line);
    var i, j := TrimSpaceSlice(line);
    assert forall k :: 0 <= k < |t| ==> t[k] == line[i + k];
  }

  /** Splitting adds no character to the parts. */
  lemma {:induction false} SplitKeepsOut(s: string, c: char, d: char)
    requires d !in s
    ensures forall i :: 0 <= i < |Split(s, c)| ==> d !in Split(s, c)[i]
  {
    if s != [] {
      SplitKeepsOut(s[1..], c, d);
      assert d != s[0] && d !in s[1..];
    }
  }

  /** Joining adds only the separator's characters. */
  lemma {:induction false} JoinKeepsOut(parts: seq<string>, sep: string, d: char)
    requires d !in sep
    requires forall i :: 0 <= i < |parts| ==> d !in parts[i]
    ensures d !in Join(parts, sep)
  {
    if |parts| > 1 {
      JoinKeepsOut(parts[1..], sep, d);
    }
  }

  /** Number of occurrences of `c` in `s` (`strings.Count` with a one-character
      separator). */
  function Count(s: string, c: char): (n: nat)
    ensures n <= |s|
    ensures n == 0 <==> c !in s
  {
    if s == [] then 0 else (if s[0] == c then 1 else 0) + Count(s[1..], c)
  }

  lemma {:induction false} CountAppend(a: string, b: string, c: char)
    ensures Count(a + b, c) == Count(a, c) + Count(b, c)
  {
    if a != [] {
      assert (a + b)[1..] == a[1..] + b;
      CountAppend(a[1..], b, c);
    } else {
      assert a + b == b;
    }
  }

  /** `strings.Split` with a one-character separator: one more part than
      there are separators, none of them containing the separator. */
  function Split(s: string, c: char): (parts: seq<string>)
    ensures |parts| == Count(s, c) + 1
    ensures forall i :: 0 <= i < |parts| ==> c !in parts[i]
  {
    if s == [] then [""]
    else
      var rest := Split(s[1..], c);
      if s[0] == c then [""] + rest
      else
        assert c !in [s[0]] + rest[0];
        [[s[0]] + rest[0]] + rest[1..]
  }

  /** `strings.Join`. */
  function Join(parts: seq<string>, sep: string): string {
    if |parts| == 0 then ""
    else if |parts| == 1 then parts[0]
    else parts[0] + sep + Join(parts[1..], sep)
  }

  /** Joining what `Split` cut restores the text. */
  lemma {:induction false} JoinSplit(s: string, c: char)
    ensures Join(Split(s, c), [c]) == s
  {
    if s != [] {
      var rest := Split(s[1..], c);
      JoinSplit(s[1..], c);
      if s[0] == c {
        JoinCons("", rest, [c]);
        assert "" + [c] + s[1..] == s;
      } else {
        JoinGlueHead(s[0], rest, [c]);
        assert [s[0]] + s[1..] == s;
      }
    }
  }

  lemma JoinCons(head: string, rest: seq<string>, sep: string)
    requires |rest| >= 1
    ensures Join([head] + rest, sep) == head + sep + Join(rest, sep)
  {
    assert ([head] + rest)[1..] == rest;
  }

  /** Gluing a character to the first part glues it to the joined text. */
  lemma JoinGlueHead(x: char, rest: seq<string>, sep: string)
    requires |rest| >= 1
    ensures Join([[x] + rest[0]] + rest[1..], sep) == [x] + Join(rest, sep)
  {
    if |rest| > 1 {
      JoinCons([x] + rest[0], rest[1..], sep);
      JoinCons(rest[0], rest[1..], sep);
      assert [rest[0]] + rest[1..] == rest;
    } else {
      assert rest[1..] == [];
    }
  }

  /** Splitting a separator-free prefix off a text. */
  lemma {:induction false} SplitAppendFree(w: string, t: string, c: char)
    requires c !in w
    ensures Split(w + t, c) == [w + Split(t, c)[0]] + Split(t, c)[1..]
  {
    if w != [] {
      var st := Split(t, c);
      assert (w + t)[1..] == w[1..] + t;
      SplitAppendFree(w[1..], t, c);
      HeadTail(w, st[0]);
    } else {
      assert w + t == t && w + Split(t, c)[0] == Split(t, c)[0];
    }
  }

  lemma HeadTail(w: string, u: string)
    requires w != []
    ensures [w[0]] + (w[1..] + u) == w + u
  {
    assert w == [w[0]] + w[1..];
  }

  /** Splitting what `Join` glued restores the parts when no part holds the
      separator. */
  lemma {:induction false} SplitJoin(parts: seq<string>, c: char)
    requires |parts| >= 1
    requires forall i :: 0 <= i < |parts| ==> c !in parts[i]
    ensures Split(Join(parts, [c]), c) == parts
  {
    if |parts| == 1 {
      SplitAppendFree(parts[0], "", c);
      assert parts[0] + "" == parts[0];
    } else {
      SplitJoin(parts[1..], c);
      var t := [c] + Join(parts[1..], [c]);
      assert Join(parts, [c]) == parts[0] + t;
      SplitAppendFree(parts[0], t, c);
      assert Split(t, c) == [""] + parts[1..];
      assert parts[0] + "" == parts[0];
    }
  }

  /** Length of the run of non-space characters at the start of `s`. */
  function WordLen(s: string): (k: nat)
    ensures k <= |s|
    ensures NoSpace(s[..k])
    ensures k == |s| || IsSpace(s[k])
  {
    if s == [] || IsSpace(s[0]) then 0
    else
      var k := 1 + WordLen(s[1..]);
      assert s[..k] == [s[0]] + s[1..][..k - 1];
      k
  }

  lemma {:induction false} WordLenUnique(s: string, k: nat)
    requires k <= |s| && NoSpace(s[..k]) && (k == |s| || IsSpace(s[k]))
    ensures WordLen(s) == k
  {
    if k > 0 {
      assert s[1..][..k - 1] == s[1..k];
      WordLenUnique(s[1..], k - 1);
    }
  }

  /** `strings.Fields`: the maximal runs of non-space characters, in order. */
  function Fields(s: string): (ws: seq<string>)
    ensures forall i :: 0 <= i < |ws| ==> ws[i] != [] && NoSpace(ws[i])
    decreases |s|
  {
    if s == [] then []
    else if IsSpace(s[0]) then Fields(s[1..])
    else
      var k := WordLen(s);
      [s[..k]] + Fields(s[k..])
  }

  /** Fields of a concatenation split at a white-space boundary. */
  lemma {:induction false} FieldsAppend(a: string, b: string)
    requires a == [] || b == [] || IsSpace(a[|a| - 1]) || IsSpace(b[0])
    ensures Fields(a + b) == Fields(a) + Fields(b)
    decreases |a|, 1
  {
    if a == [] {
      assert a + b == b;
    } else if IsSpace(a[0]) {
      assert (a + b)[1..] == a[1..] + b;
      FieldsAppend(a[1..], b);
    } else {
      FieldsAppendWord(a, b);
    }
  }

  /** `FieldsAppend` when `a` starts with a word: the word ends inside `a`,
      or at its end where `b` starts with a space. */
  lemma {:induction false} FieldsAppendWord(a: string, b: string)
    requires a != [] && !IsSpace(a[0])
    requires b == [] || IsSpace(a[|a| - 1]) || IsSpace(b[0])
    ensures Fields(a + b) == Fields(a) + Fields(b)
    decreases |a|, 0
  {
    var ab := a + b;
    var k := WordLen(a);
    assert WordLen(ab) == k by {
      assert ab[..k] == a[..k];
      assert k == |ab| || IsSpace(ab[k]) by {
        if k == |a| && b != [] {
          assert a[..k][k - 1] == a[|a| - 1];
          assert ab[k] == b[0];
        } else if k < |a| {
          assert ab[k] == a[k];
        }
      }
      WordLenUnique(ab, k);
    }
    assert Fields(ab) == [a[..k]] + Fields(a[k..] + b) by {
      assert ab[..k] == a[..k];
      assert ab[k..] == a[k..] + b;
    }
    assert Fields(a) == [a[..k]] + Fields(a[k..]);
    FieldsAppend(a[k..], b);
  }

  lemma {:induction false} FieldsAllSpace(s: string)
    requires AllSpace(s)
    ensures Fields(s) == []
  {
    if s != [] {
      FieldsAllSpace(s[1..]);
    }
  }

  lemma FieldsOfWord(w: string)
    requires w != [] && NoSpace(w)
    ensures Fields(w) == [w]
  {
    WordLenUnique(w, |w|);
    assert w[..|w|] == w && w[|w|..] == [];
  }

  /** Trimming never changes the words of a text. */
  lemma FieldsTrimSpace(s: string)
    ensures Fields(TrimSpace(s)) == Fields(s)
  {
    var i, j := TrimSpaceSlice(s);
    FieldsBetweenSpace(s, i, j);
  }

  /** White space around a text adds no words. */
  lemma FieldsBetweenSpace(s: string, i: nat, j: nat)
    requires i <= j <= |s|
    requires forall k :: 0 <= k < i ==> IsSpace(s[k])
    requires forall k :: j <= k < |s| ==> IsSpace(s[k])
    ensures Fields(s) == Fields(s[i..j])
  {
    FieldsDropLeading(s, i);
    FieldsDropTrailingFrom(s, i, j);
  }

  lemma FieldsDropTrailingFrom(s: string, i: nat, j: nat)
    requires i <= j <= |s|
    requires forall k :: j <= k < |s| ==> IsSpace(s[k])
    ensures Fields(s[i..]) == Fields(s[i..j])
  {
    var t := s[i..];
    assert forall k :: j - i <= k < |t| ==> IsSpace(t[k]);
    FieldsDropTrailing(t, j - i);
    assert t[..j - i] == s[i..j];
  }

  /** Leading white space adds no words. */
  lemma {:induction false} FieldsDropLeading(s: string, i: nat)
    requires i <= |s|
    requires forall k :: 0 <= k < i ==> IsSpace(s[k])
    ensures Fields(s) == Fields(s[i..])
  {
    if i > 0 {
      assert s[1..][i - 1..] == s[i..];
      FieldsDropLeading(s[1..], i - 1);
    }
  }

  /** Trailing white space adds no words. */
  lemma FieldsDropTrailing(t: string, j: nat)
    requires j <= |t|
    requires forall k :: j <= k < |t| ==> IsSpace(t[k])
    ensures Fields(t) == Fields(t[..j])
  {
    var pre, post := t[..j], t[j..];
    assert t == pre + post;
    forall k | 0 <= k < |post|
      ensures IsSpace(post[k])
    {
      assert post[k] == t[j + k];
    }
    FieldsAllSpace(post);
    FieldsAppend(pre, post);
    assert Fields(pre) + [] == Fields(pre);
  }

  /** The words of lines glued with newlines are the lines' words, in order. */
  function FieldsOfLines(lines: seq<string>): seq<string> {
    if lines == [] then [] else Fields(lines[0]) + FieldsOfLines(lines[1..])
  }

  lemma FieldsJoinNewline(lines: seq<string>)
    ensures Fields(Join(lines, "\n")) == FieldsOfLines(lines)
  {
    FieldsJoinSpace(lines, '\n');
  }

  /** The same for any white-space separator. */
  lemma {:induction false} FieldsJoinSpace(lines: seq<string>, sep: char)
    requires IsSpace(sep)
    ensures Fields(Join(lines, [sep])) == FieldsOfLines(lines)
  {
    if |lines| == 1 {
      assert FieldsOfLines(lines[1..]) == [];
    } else if |lines| > 1 {
      var rest := Join(lines[1..], [sep]);
      FieldsJoinSpace(lines[1..], sep);
      assert Join(lines, [sep]) == lines[0] + ([sep] + rest);
      FieldsAppend([sep], rest);
      FieldsAllSpace([sep]);
      FieldsAppend(lines[0], [sep] + rest);
    }
  }

  /** `strings.Repeat`; a negative count (a panic in Go) is excluded by the
      type. */
  function Repeat(s: string, n: nat): (r: string)
    ensures forall i :: 0 <= i < |r| ==> r[i] in s
  {
    if n == 0 then "" else s + Repeat(s, n - 1)
  }

  /** `strings.Repeat` of a one-character string. */
  function RepeatChar(c: char, n: nat): (r: string)
    ensures |r| == n
    ensures forall i :: 0 <= i < n ==> r[i] == c
  {
    if n == 0 then "" else [c] + RepeatChar(c, n - 1)
  }

  /** `s` holds `pat` at position `i`. */
  predicate MatchAt(s: string, pat: string, i: int) {
    0 <= i && i + |pat| <= |s| && s[i..i + |pat|] == pat
  }

  /** `strings.Index`: the first position of `pat` in `s`, or -1. */
  function Index(s: string, pat: string): (r: int)
    ensures -1 <= r <= |s|
    ensures r >= 0 ==> MatchAt(s, pat, r)
    ensures forall j :: 0 <= j && (r < 0 || j < r) ==> !MatchAt(s, pat, j)
  {
    IndexFrom(s, pat, 0)
  }

  /** `Index` is determined by its contract: the first match, or -1. */
  lemma IndexIs(s: string, pat: string, r: int)
    requires -1 <= r
    requires r >= 0 ==> MatchAt(s, pat, r)
    requires forall j :: 0 <= j && (r < 0 || j < r) ==> !MatchAt(s, pat, j)
    ensures Index(s, pat) == r
  {
  }

  /** The first match inside a prefix is the first match of the whole. */
  lemma IndexInPrefix(p: string, s: string, pat: string)
    requires Index(p, pat) >= 0 && |p| <= |s| && s[..|p|] == p
    ensures Index(s, pat) == Index(p, pat)
  {
    var r := Index(p, pat);
    forall i | 0 <= i < |p|
      ensures s[i] == p[i]
    {
      assert s[..|p|][i] == s[i];
    }
    assert s[r..r + |pat|] == p[r..r + |pat|];
    forall j | 0 <= j < r
      ensures !MatchAt(s, pat, j)
    {
      assert !MatchAt(p, pat, j);
      assert s[j..j + |pat|] == p[j..j + |pat|];
    }
    IndexIs(s, pat, r);
  }

  /** With no match before `k`, the first match is the first one of the
      rest, shifted by `k`. */
  lemma IndexAfter(s: string, pat: string, k: nat)
    requires k <= |s|
    requires forall j :: 0 <= j < k ==> !MatchAt(s, pat, j)
    requires Index(s[k..], pat) >= 0
    ensures Index(s, pat) == k + Index(s[k..], pat)
  {
    var r := Index(s[k..], pat);
    assert s[k..][r..r + |pat|] == s[k + r..k + r + |pat|];
    forall j | k <= j < k + r
      ensures !MatchAt(s, pat, j)
    {
      assert !MatchAt(s[k..], pat, j - k);
      if j + |pat| <= |s| {
        assert s[k..][j - k..j - k + |pat|] == s[j..j + |pat|];
      }
    }
    IndexIs(s, pat, k + r);
  }

  function IndexFrom(s: string, pat: string, from: nat): (r: int)
    requires from <= |s|
    ensures -1 <= r <= |s|
    ensures r >= 0 ==> from <= r && MatchAt(s, pat, r)
    ensures forall j :: from <= j && (r < 0 || j < r) ==> !MatchAt(s, pat, j)
    decreases |s| - from
  {
    if from + |pat| > |s| then -1
    else if s[from..from + |pat|] == pat then from
    else IndexFrom(s, pat, from + 1)
  }

  /** `strings.ReplaceAll` for a non-empty pattern: left to right, without
      overlaps. */
  function ReplaceAll(s: string, pat: string, rep: string): string
    requires pat != []
    decreases |s|
  {
    if |s| < |pat| then s
    else if s[..|pat|] == pat then rep + ReplaceAll(s[|pat|..], pat, rep)
    else [s[0]] + ReplaceAll(s[1..], pat, rep)
  }

  lemma MatchAtChar(s: string, pat: string, i: int, j: int)
    requires MatchAt(s, pat, i) && 0 <= j < |pat|
    ensures s[i + j] == pat[j]
  {
    assert s[i..i + |pat|][j] == s[i + j];
  }

  /** Up to the first newline it inserts, appending a newline after each
      match leaves the text as it was. */
  lemma {:induction false} ReplaceAddNewlinePrefix(s: string, pat: string, k: nat)
    requires pat != [] && '\n' !in pat
    requires k <= |ReplaceAll(s, pat, pat + "\n")|
    requires forall j :: 0 <= j < k ==> ReplaceAll(s, pat, pat + "\n")[j] != '\n'
    ensures k <= |s|
    ensures forall j :: 0 <= j < k ==> ReplaceAll(s, pat, pat + "\n")[j] == s[j]
    decreases |s|
  {
    var out := ReplaceAll(s, pat, pat + "\n");
    if k == 0 || |s| < |pat| {
    } else if s[..|pat|] == pat {
      var rest := ReplaceAll(s[|pat|..], pat, pat + "\n");
      assert out == (pat + "\n") + rest;
      assert out[|pat|] == '\n';
      assert forall j :: 0 <= j < k ==> out[j] == pat[j] == s[..|pat|][j];
    } else {
      var rest := ReplaceAll(s[1..], pat, pat + "\n");
      assert out == [s[0]] + rest;
      assert forall j :: 0 <= j < k - 1 ==> rest[j] == out[j + 1];
      ReplaceAddNewlinePrefix(s[1..], pat, k - 1);
    }
  }

  /** After `ReplaceAll(s, pat, pat + "\n")` every occurrence of `pat` is
      followed by a newline. */
  lemma {:induction false} ReplaceAddNewlineFollows(s: string, pat: string, i: int)
    requires pat != [] && '\n' !in pat
    requires MatchAt(ReplaceAll(s, pat, pat + "\n"), pat, i)
    ensures i + |pat| < |ReplaceAll(s, pat, pat + "\n")|
    ensures ReplaceAll(s, pat, pat + "\n")[i + |pat|] == '\n'
    decreases |s|, 1
  {
    if |s| < |pat| {
      assert false;
    } else if s[..|pat|] == pat {
      FollowsAfterMatch(s, pat, i);
    } else {
      FollowsAfterSkip(s, pat, i);
    }
  }

  lemma {:induction false} FollowsAfterMatch(s: string, pat: string, i: int)
    requires pat != [] && '\n' !in pat
    requires |pat| <= |s| && s[..|pat|] == pat
    requires MatchAt(ReplaceAll(s, pat, pat + "\n"), pat, i)
    ensures i + |pat| < |ReplaceAll(s, pat, pat + "\n")|
    ensures ReplaceAll(s, pat, pat + "\n")[i + |pat|] == '\n'
    decreases |s|, 0
  {
    var out := ReplaceAll(s, pat, pat + "\n");
    var rest := ReplaceAll(s[|pat|..], pat, pat + "\n");
    assert out == (pat + "\n") + rest;
    assert out[|pat|] == '\n';
    if i == 0 {
    } else if i <= |pat| {
      MatchAtChar(out, pat, i, |pat| - i);
      assert false;
    } else {
      var j := i - |pat| - 1;
      assert MatchAt(rest, pat, j) by {
        assert rest[j..j + |pat|] == out[i..i + |pat|];
      }
      ReplaceAddNewlineFollows(s[|pat|..], pat, j);
      assert out[i + |pat|] == rest[j + |pat|];
    }
  }

  lemma {:induction false} FollowsAfterSkip(s: string, pat: string, i: int)
    requires pat != [] && '\n' !in pat
    requires |pat| <= |s| && s[..|pat|] != pat
    requires MatchAt(ReplaceAll(s, pat, pat + "\n"), pat, i)
    ensures i + |pat| < |ReplaceAll(s, pat, pat + "\n")|
    ensures ReplaceAll(s, pat, pat + "\n")[i + |pat|] == '\n'
    decreases |s|, 0
  {
    var out := ReplaceAll(s, pat, pat + "\n");
    var rest := ReplaceAll(s[1..], pat, pat + "\n");
    assert out == [s[0]] + rest;
    if i == 0 {
      assert forall j :: 0 <= j < |pat| ==> out[j] == out[..|pat|][j] == pat[j];
      assert forall j :: 0 <= j < |pat| - 1 ==> rest[j] == out[j + 1] == pat[j + 1];
      ReplaceAddNewlinePrefix(s[1..], pat, |pat| - 1);
      assert false;
    } else {
      assert rest[i - 1..i - 1 + |pat|] == out[i..i + |pat|];
      ReplaceAddNewlineFollows(s[1..], pat, i - 1);
    }
  }

  /** Every occurrence of `pat` in `s` is followed by a newline. */
  ghost predicate NewlineAfterEach(s: string, pat: string) {
    forall i :: MatchAt(s, pat, i) ==> i + |pat| < |s| && s[i + |pat|] == '\n'
  }

  /** `ReplaceAll(s, q, q + "\n")` keeps a newline after every occurrence of
      another pattern that had one: it only inserts newlines. */
  lemma {:induction false} ReplaceKeepsNewlineAfter(s: string, q: string, e: string, i: int)
    requires q != [] && '\n' !in q && e != [] && '\n' !in e
    requires NewlineAfterEach(s, e)
    requires MatchAt(ReplaceAll(s, q, q + "\n"), e, i)
    ensures i + |e| < |ReplaceAll(s, q, q + "\n")|
    ensures ReplaceAll(s, q, q + "\n")[i + |e|] == '\n'
    decreases |s|
  {
    var out := ReplaceAll(s, q, q + "\n");
    if |s| < |q| {
    } else if s[..|q|] == q {
      KeptAfterMatch(s, q, e, i);
    } else if i == 0 {
      KeptAtStart(s, q, e);
    } else {
      var rest := ReplaceAll(s[1..], q, q + "\n");
      assert out == [s[0]] + rest;
      assert rest[i - 1..i - 1 + |e|] == out[i..i + |e|];
      NewlineAfterSuffix(s, e, 1);
      ReplaceKeepsNewlineAfter(s[1..], q, e, i - 1);
    }
  }

  /** One replacement leaves every occurrence of its pattern followed by a
      newline. */
  lemma ReplaceNewlineAfterEach(s: string, pat: string)
    requires pat != [] && '\n' !in pat
    ensures NewlineAfterEach(ReplaceAll(s, pat, pat + "\n"), pat)
  {
    forall i | MatchAt(ReplaceAll(s, pat, pat + "\n"), pat, i)
      ensures i + |pat| < |ReplaceAll(s, pat, pat + "\n")|
      ensures ReplaceAll(s, pat, pat + "\n")[i + |pat|] == '\n'
    {
      ReplaceAddNewlineFollows(s, pat, i);
    }
  }

  /** A replacement keeps every newline after another pattern. */
  lemma ReplaceKeepsNewlineAfterEach(s: string, q: string, e: string)
    requires q != [] && '\n' !in q && e != [] && '\n' !in e
    requires NewlineAfterEach(s, e)
    ensures NewlineAfterEach(ReplaceAll(s, q, q + "\n"), e)
  {
    forall i | MatchAt(ReplaceAll(s, q, q + "\n"), e, i)
      ensures i + |e| < |ReplaceAll(s, q, q + "\n")|
      ensures ReplaceAll(s, q, q + "\n")[i + |e|] == '\n'
    {
      ReplaceKeepsNewlineAfter(s, q, e, i);
    }
  }

  lemma {:induction false} KeptAfterMatch(s: string, q: string, e: string, i: int)
    requires q != [] && '\n' !in q && e != [] && '\n' !in e
    requires NewlineAfterEach(s, e)
    requires |q| <= |s| && s[..|q|] == q
    requires MatchAt(ReplaceAll(s, q, q + "\n"), e, i)
    ensures i + |e| < |ReplaceAll(s, q, q + "\n")|
    ensures ReplaceAll(s, q, q + "\n")[i + |e|] == '\n'
    decreases |s|, 0
  {
    var out := ReplaceAll(s, q, q + "\n");
    var rest := ReplaceAll(s[|q|..], q, q + "\n");
    assert out == (q + "\n") + rest;
    assert out[|q|] == '\n';
    if i + |e| <= |q| {
      assert s[i..i + |e|] == q[i..i + |e|] == out[i..i + |e|] by {
        assert forall k :: i <= k < i + |e| ==> s[k] == s[..|q|][k];
      }
      assert MatchAt(s, e, i);
      if i + |e| < |q| {
        assert false;
      }
    } else if i <= |q| {
      MatchAtChar(out, e, i, |q| - i);
      assert false;
    } else {
      var j := i - |q| - 1;
      assert rest[j..j + |e|] == out[i..i + |e|];
      NewlineAfterSuffix(s, e, |q|);
      ReplaceKeepsNewlineAfter(s[|q|..], q, e, j);
      assert out[i + |e|] == rest[j + |e|];
    }
  }

  /** An occurrence at the very start was there before the replacement. */
  lemma KeptAtStart(s: string, q: string, e: string)
    requires q != [] && '\n' !in q && e != [] && '\n' !in e
    requires NewlineAfterEach(s, e)
    requires MatchAt(ReplaceAll(s, q, q + "\n"), e, 0)
    ensures |e| < |ReplaceAll(s, q, q + "\n")|
    ensures ReplaceAll(s, q, q + "\n")[|e|] == '\n'
  {
    var out := ReplaceAll(s, q, q + "\n");
    assert forall j :: 0 <= j < |e| ==> out[j] == out[..|e|][j] == e[j];
    ReplaceAddNewlinePrefix(s, q, |e|);
    assert s[..|e|] == e;
    assert MatchAt(s, e, 0);
    ReplaceAllNotShorter(s, q, q + "\n");
    if out[|e|] != '\n' {
      ReplaceAddNewlinePrefix(s, q, |e| + 1);
      assert false;
    }
  }

  lemma {:induction false} ReplaceAllNotShorter(s: string, pat: string, rep: string)
    requires pat != [] && |pat| <= |rep|
    ensures |ReplaceAll(s, pat, rep)| >= |s|
    decreases |s|
  {
    if |s| < |pat| {
    } else if s[..|pat|] == pat {
      ReplaceAllNotShorter(s[|pat|..], pat, rep);
    } else {
      ReplaceAllNotShorter(s[1..], pat, rep);
    }
  }

  lemma NewlineAfterSuffix(s: string, pat: string, k: nat)
    requires NewlineAfterEach(s, pat) && k <= |s|
    ensures NewlineAfterEach(s[k..], pat)
  {
    forall i | MatchAt(s[k..], pat, i)
      ensures i + |pat| < |s[k..]| && s[k..][i + |pat|] == '\n'
    {
      assert s[k..][i..i + |pat|] == s[k + i..k + i + |pat|];
      assert MatchAt(s, pat, k + i);
    }
  }

  /** ASCII letters lowered (Go's `strings.ToLower` also lowers the other
      Unicode letters). */
  function ToLower(s: string): (r: string)
    ensures |r| == |s|
  {
    seq(|s|, i requires 0 <= i < |s| => if 'A' <= s[i] <= 'Z' then (s[i] as int + 32) as char else s[i])
  }

  predicate HasSuffix(s: string, suffix: string) {
    |suffix| <= |s| && s[|s| - |suffix|..] == suffix
  }

  function TrimSuffix(s: string, suffix: string): (r: string)
    ensures HasSuffix(s, suffix) ==> r + suffix == s
    ensures !HasSuffix(s, suffix) ==> r == s
  {
    if HasSuffix(s, suffix) then s[..|s| - |suffix|] else s
  }

  /** Position of the last `c` in `s`, or -1. */
  function LastIndexOf(s: string, c: char): (r: int)
    ensures -1 <= r < |s|
    ensures r >= 0 ==> s[r] == c
    ensures forall k :: r < k < |s| ==> s[k] != c
  {
    LastIndexBefore(s, c, |s|)
  }

  function LastIndexBefore(s: string, c: char, i: nat): (r: int)
    requires i <= |s|
    requires forall k :: i <= k < |s| ==> s[k] != c
    ensures -1 <= r < i
    ensures r >= 0 ==> s[r] == c
    ensures forall k :: r < k < |s| ==> s[k] != c
  {
    if i == 0 then -1
    else if s[i - 1] == c then i - 1
    else LastIndexBefore(s, c, i - 1)
  }

  /** `filepath.Base` with '/' as the separator: the last element after
      trailing slashes are removed; "." for the empty path, "/" for a path
      of slashes only. */
  function Base(path: string): (r: string)
    ensures r != []
    ensures '/' !in r || r == "/"
  {
    if path == [] then "."
    else
      var trimmed := StripTrailingSlashes(path);
      if trimmed == [] then "/"
      else
        var i := LastIndexOf(trimmed, '/');
        trimmed[i + 1..]
  }

  function StripTrailingSlashes(s: string): (r: string)
    ensures |r| <= |s| && r == s[..|r|]
    ensures r == [] || r[|r| - 1] != '/'
  {
    if s != [] && s[|s| - 1] == '/' then StripTrailingSlashes(s[..|s| - 1]) else s
  }

  /** `filepath.Ext`: the suffix from the final dot of the last path element,
      or "" when that element has no dot. */
  function Ext(path: string): (r: string)
    ensures r == [] || (r[0] == '.' && HasSuffix(path, r))
    ensures '/' !in r
  {
    ExtFrom(path, |path|)
  }

  function ExtFrom(path: string, i: nat): (r: string)
    requires i <= |path|
    requires forall k :: i <= k < |path| ==> path[k] != '/'
    ensures r == [] || (r[0] == '.' && HasSuffix(path, r))
    ensures '/' !in r
    decreases i
  {
    if i == 0 || path[i - 1] == '/' then ""
    else if path[i - 1] == '.' then path[i - 1..]
    else ExtFrom(path, i - 1)
  }

  /** Concatenation of a sequence of strings. */
  function Concat(parts: seq<string>): string {
    if parts == [] then "" else parts[0] + Concat(parts[1..])
  }

  lemma {:induction false} ConcatAppend(a: seq<string>, b: seq<string>)
    ensures Concat(a + b) == Concat(a) + Concat(b)
  {
    if a != [] {
      assert (a + b)[1..] == a[1..] + b;
      ConcatAppend(a[1..], b);
    } else {
      assert a + b == b;
    }
  }

  // ---------------------------------------------------------------------
  // Decimal numbers (`fmt`'s `%d` of a non-negative number)

  function DigitChar(d: nat): (c: char)
    requires d < 10
    ensures '0' <= c <= '9' && (c as int) - ('0' as int) == d
  {
    (('0' as int) + d) as char
  }

  /** `%d` of `n`: decimal digits without a leading zero. */
  function DecimalString(n: nat): (r: string)
    ensures r != []
    ensures forall i :: 0 <= i < |r| ==> '0' <= r[i] <= '9'
    ensures r[0] != '0' || r == "0"
  {
    if n < 10 then [DigitChar(n)] else DecimalString(n / 10) + [DigitChar(n % 10)]
  }

  /** The number a string of decimal digits denotes. */
  function DecimalValue(s: string): nat
    requires forall i :: 0 <= i < |s| ==> '0' <= s[i] <= '9'
  {
    if s == [] then 0
    else DecimalValue(s[..|s| - 1]) * 10 + ((s[|s| - 1] as int) - ('0' as int))
  }

  /** Reading the digits back gives the number. */
  lemma {:induction false} DecimalRoundTrip(n: nat)
    ensures DecimalValue(DecimalString(n)) == n
  {
    var r := DecimalString(n);
    if n >= 10 {
      DecimalRoundTrip(n / 10);
      assert r[..|r| - 1] == DecimalString(n / 10);
    } else {
      assert r[..|r| - 1] == [];
    }
  }

  // ---------------------------------------------------------------------
  // String order (Go's `<` and `<=` on strings)

  /** `a <= b`: character by character, a proper prefix first. */
  predicate LexLe(a: string, b: string)
    decreases |a|
  {
    a == [] || (b != [] && (a[0] < b[0] || (a[0] == b[0] && LexLe(a[1..], b[1..]))))
  }

  /** Any two strings are ordered one way or the other. */
  lemma {:induction false} LexLeTotal(a: string, b: string)
    ensures LexLe(a, b) || LexLe(b, a)
    decreases |a|
  {
    if a != [] && b != [] && a[0] == b[0] {
      LexLeTotal(a[1..], b[1..]);
    }
  }

  lemma {:induction false} LexLeTransitive(a: string, b: string, c: string)
    requires LexLe(a, b) && LexLe(b, c)
    ensures LexLe(a, c)
    decreases |a|
  {
    if a != [] && b != [] && c != [] && a[0] == b[0] && b[0] == c[0] {
      LexLeTransitive(a[1..], b[1..], c[1..]);
    }
  }

  /** `filepath.Dir`: the path up to its last slash, cleaned. */
  function Dir(path: string, clean: string -> string): string {
    clean(path[..LastIndexOf(path, '/') + 1])
  }

  /** `filepath.Join` of two elements: empty elements are skipped, the rest
      joined by a slash and cleaned. */
  function JoinPath(dir: string, name: string, clean: string -> string): string {
    if dir != "" then clean(dir + "/" + name)
    else if name != "" then clean(name)
    else ""
  }
}
