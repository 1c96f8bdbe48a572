/** Paragraph grouping (app.js:177-183): the text is cut at every run of two or more line
    feeds; a piece that begins (after whitespace) with a heading, list, preformatted or rule
    tag is kept, any other becomes a paragraph with `<br/>` for each line feed, and the pieces
    are joined again with a single line feed. */
module Paragraphs {
  import opened Text
  import opened Escaping

  /** Two line feeds at index `k`. */
  predicate BlankAt(s: seq<char>, k: int)
  {
    0 <= k && k + 2 <= |s| && s[k] == '\n' && s[k + 1] == '\n'
  }

  /** Where the first match of `\n{2,}` starts. */
  function FirstBlank(s: seq<char>): (r: Option<nat>)
    ensures r.Some? ==> BlankAt(s, r.value) && forall k :: 0 <= k < r.value ==> !BlankAt(s, k)
    ensures r.None? ==> forall k :: !BlankAt(s, k)
  {
    if |s| < 2 then None
    else if BlankAt(s, 0) then Some(0)
    else match FirstBlank(s[1..])
      case None =>
        assert forall k :: BlankAt(s, k) ==> k == 0 || BlankAt(s[1..], k - 1);
        None
      case Some(j) =>
        assert forall k :: 0 <= k < j + 1 && BlankAt(s, k) ==> k == 0 || BlankAt(s[1..], k - 1);
        Some(j + 1)
  }

  /** Number of leading line feeds: how far the greedy `\n{2,}` reaches. */
  function FeedRun(s: seq<char>): (n: nat)
    ensures n <= |s|
    ensures forall k :: 0 <= k < n ==> s[k] == '\n'
    ensures n < |s| ==> s[n] != '\n'
  {
    if s == [] || s[0] != '\n' then 0 else 1 + FeedRun(s[1..])
  }

  /** `src.split(/\n{2,}/)`: the empty text gives one empty piece, and a separator at either
      end gives an empty piece there. */
  function SplitBlank(s: seq<char>): (ps: seq<seq<char>>)
    ensures |ps| >= 1
    decreases |s|
  {
    match FirstBlank(s)
    case None => [s]
    case Some(k) => [s[..k]] + SplitBlank(s[k + FeedRun(s[k..])..])
  }

  /** The separators `SplitBlank` drops, in order. */
  function Separators(s: seq<char>): (seps: seq<seq<char>>)
    ensures |seps| == |SplitBlank(s)| - 1
    decreases |s|
  {
    match FirstBlank(s)
    case None => []
    case Some(k) =>
      var r := FeedRun(s[k..]);
      [s[k..k + r]] + Separators(s[k + r..])
  }

  /** `ps[0] + seps[0] + ps[1] + … + ps[n]`. */
  function Interleave(ps: seq<seq<char>>, seps: seq<seq<char>>): seq<char>
    requires |seps| == |ps| - 1
    decreases |seps|
  {
    if seps == [] then ps[0] else ps[0] + seps[0] + Interleave(ps[1..], seps[1..])
  }

  /** A separator: two or more line feeds. */
  predicate Feeds(sep: seq<char>)
  {
    |sep| >= 2 && forall k :: 0 <= k < |sep| ==> sep[k] == '\n'
  }

  /** Splitting loses nothing: the pieces and the separators between them give the text
      back, and every separator is a run of two or more line feeds. */
  lemma {:induction false} SplitBlankRoundTrip(s: seq<char>)
    ensures Interleave(SplitBlank(s), Separators(s)) == s
    ensures forall i :: 0 <= i < |Separators(s)| ==> Feeds(Separators(s)[i])
    decreases |s|
  {
    match FirstBlank(s)
    case None =>
    case Some(k) =>
      var r := FeedRun(s[k..]);
      var rest := s[k + r..];
      SplitBlankRoundTrip(rest);
      assert SplitBlank(s) == [s[..k]] + SplitBlank(rest);
      assert Separators(s) == [s[k..k + r]] + Separators(rest);
      assert s == s[..k] + s[k..k + r] + rest;
      SpecTail(s, k, r);
  }

  /** No piece holds two line feeds in a row, no piece after the first starts with a line
      feed and no piece before the last ends with one. */
  ghost predicate Trimmed(ps: seq<seq<char>>)
  {
    && (forall i, k :: 0 <= i < |ps| ==> !BlankAt(ps[i], k))
    && (forall i :: 0 < i < |ps| && ps[i] != [] ==> ps[i][0] != '\n')
    && (forall i :: 0 <= i < |ps| - 1 && ps[i] != [] ==> ps[i][|ps[i]| - 1] != '\n')
  }

  /** Every run of line feeds was taken whole: no piece touches a separator with a line feed
      or holds two line feeds in a row. */
  lemma {:induction false} SplitBlankPieces(s: seq<char>)
    ensures Trimmed(SplitBlank(s))
    decreases |s|
  {
    if FirstBlank(s).Some? {
      var p, rest := CutFirst(s);
      SplitBlankPieces(rest);
      TrimmedCons(p, SplitBlank(rest));
    }
  }

  /** The first piece and the text after the first separator, with what the greedy match
      guarantees about the two. */
  lemma CutFirst(s: seq<char>) returns (p: seq<char>, rest: seq<char>)
    requires FirstBlank(s).Some?
    ensures SplitBlank(s) == [p] + SplitBlank(rest) && |rest| < |s|
    ensures forall j :: !BlankAt(p, j)
    ensures p != [] ==> p[|p| - 1] != '\n'
    ensures SplitBlank(rest)[0] != [] ==> SplitBlank(rest)[0][0] != '\n'
  {
    var k := FirstBlank(s).value;
    var r := FeedRun(s[k..]);
    p, rest := s[..k], s[k + r..];
    FirstPiece(s, k);
    FeedsTaken(s, k, r);
    PieceHead(rest);
  }

  /** The first piece starts where the text does. */
  lemma PieceHead(s: seq<char>)
    ensures SplitBlank(s)[0] != [] ==> SplitBlank(s)[0][0] == s[0]
  {
    match FirstBlank(s)
    case None =>
    case Some(k) =>
      if k > 0 {
        assert SplitBlank(s)[0] == s[..k];
      }
  }

  lemma TrimmedCons(p: seq<char>, qs: seq<seq<char>>)
    requires forall j :: !BlankAt(p, j)
    requires p != [] ==> p[|p| - 1] != '\n'
    requires |qs| >= 1 && (qs[0] != [] ==> qs[0][0] != '\n')
    requires Trimmed(qs)
    ensures Trimmed([p] + qs)
  {
    var ps := [p] + qs;
    assert forall i :: 0 < i < |ps| ==> ps[i] == qs[i - 1];
  }

  /** The piece before the first separator holds no blank line and does not end in a line feed. */
  lemma FirstPiece(s: seq<char>, k: nat)
    requires FirstBlank(s) == Some(k)
    ensures forall j :: !BlankAt(s[..k], j)
    ensures k > 0 ==> s[..k][k - 1] != '\n'
  {
    var p := s[..k];
    forall j ensures !BlankAt(p, j) {
      if 0 <= j && j + 2 <= |p| {
        assert !BlankAt(s, j);
        assert p[j] == s[j] && p[j + 1] == s[j + 1];
      }
    }
    if k > 0 {
      assert p[k - 1] == s[k - 1];
      assert !BlankAt(s, k - 1);
    }
  }

  /** What follows the separator does not start with a line feed. */
  lemma FeedsTaken(s: seq<char>, k: nat, r: nat)
    requires k <= |s| && r == FeedRun(s[k..])
    ensures s[k + r..] != [] ==> s[k + r..][0] != '\n'
  {
    if k + r < |s| {
      assert s[k + r..][0] == s[k..][r];
    }
  }

  lemma SpecTail(s: seq<char>, k: nat, r: nat)
    requires FirstBlank(s) == Some(k) && r == FeedRun(s[k..])
    ensures Feeds(s[k..k + r])
  {
    assert s[k..][1] == '\n';
    assert forall i :: 0 <= i < r ==> s[k..k + r][i] == s[k..][i];
  }

  /** The start of a kept block: `<h` and a digit, `<ul`, `<pre` or `<hr`. */
  predicate TagStart(t: seq<char>)
  {
    (|t| >= 3 && t[0] == '<' && t[1] == 'h' && IsDigit(t[2]))
    || (|t| >= 3 && t[..3] == "<ul")
    || (|t| >= 4 && t[..4] == "<pre")
    || (|t| >= 3 && t[..3] == "<hr")
  }

  /** `/^\s*<(h\d|ul|pre|hr)/.test(block)`. */
  predicate IsTagged(b: seq<char>)
  {
    TagStart(b[SpaceRun(b)..])
  }

  /** `block.replace(/\n/g, "<br/>")`. */
  function BreakLines(b: seq<char>): seq<char>
  {
    ReplaceChar(b, '\n', "<br/>")
  }

  /** What one piece becomes. */
  function Block(b: seq<char>): seq<char>
  {
    if IsTagged(b) then b else "<p>" + BreakLines(b) + "</p>"
  }

  function Blocks(ps: seq<seq<char>>): (bs: seq<seq<char>>)
    ensures |bs| == |ps| && forall i :: 0 <= i < |ps| ==> bs[i] == Block(ps[i])
  {
    if ps == [] then [] else [Block(ps[0])] + Blocks(ps[1..])
  }

  /** The paragraph stage of app.js:177-183. */
  function Paragraph(s: seq<char>): seq<char>
  {
    JoinLines(Blocks(SplitBlank(s)))
  }

  /** Reads `<br/>` back as a line feed. */
  function Unbreak(t: seq<char>): seq<char>
  {
    if t == [] then []
    else if |t| >= 5 && t[..5] == "<br/>" then ['\n'] + Unbreak(t[5..])
    else [t[0]] + Unbreak(t[1..])
  }

  /** A paragraph keeps its line breaks: for text without tags, reading each `<br/>` back
      as a line feed gives the piece again, and no line feed is left in the paragraph. */
  lemma {:induction false} UnbreakBreakLines(b: seq<char>)
    requires '<' !in b
    ensures Unbreak(BreakLines(b)) == b
    ensures '\n' !in BreakLines(b)
    decreases |b|
  {
    if b != [] {
      UnbreakBreakLines(b[1..]);
      ReplaceCharConcat([b[0]], b[1..], '\n', "<br/>");
      assert b == [b[0]] + b[1..];
      var h := ReplaceChar([b[0]], '\n', "<br/>");
      var t := BreakLines(b[1..]);
      var r := h + t;
      assert BreakLines(b) == r;
      if b[0] == '\n' {
        assert h == "<br/>";
        assert r[..5] == "<br/>" && r[5..] == t;
      } else {
        assert h == [b[0]];
        assert r[0] == b[0] && r[1..] == t;
        assert |r| >= 5 ==> r[..5][0] == b[0];
      }
    }
  }

  /** A piece opening with one of the four tags, after any whitespace, is kept as it is;
      any other piece becomes a paragraph, so the block never holds a line feed unless the
      piece was kept. */
  lemma BlockKinds(b: seq<char>)
    ensures IsTagged(b) ==> Block(b) == b
    ensures !IsTagged(b) ==> Block(b) == "<p>" + BreakLines(b) + "</p>" && '\n' !in Block(b)
  {
    if !IsTagged(b) {
      NoFeedAfterBreak(b);
    }
  }

  lemma {:induction false} NoFeedAfterBreak(b: seq<char>)
    ensures '\n' !in BreakLines(b)
    decreases |b|
  {
    if b != [] {
      NoFeedAfterBreak(b[1..]);
      ReplaceCharConcat([b[0]], b[1..], '\n', "<br/>");
      assert b == [b[0]] + b[1..];
    }
  }

  /** Two lines of plain text separated by a blank line are two paragraphs, joined by one
      line feed. */
  lemma TwoParagraphs(a: seq<char>, b: seq<char>)
    requires '\n' !in a && '\n' !in b && '<' !in a && '<' !in b
    ensures Paragraph(a + "\n\n" + b) == "<p>" + a + "</p>" + "\n" + ("<p>" + b + "</p>")
  {
    var s := a + "\n\n" + b;
    assert FirstBlank(s) == Some(|a|) by {
      assert BlankAt(s, |a|);
      forall k | 0 <= k < |a| ensures !BlankAt(s, k) {
        assert s[k] == a[k];
      }
    }
    var r := FeedRun(s[|a|..]);
    assert s[|a|..] == "\n\n" + b;
    assert r == 2 by {
      assert b != [] ==> s[|a|..][2] == b[0];
    }
    assert s[..|a|] == a && s[|a| + 2..] == b;
    assert forall k :: 0 <= k < |b| ==> b[k] != '\n';
    assert FirstBlank(b).None?;
    assert SplitBlank(s) == [a, b];
    PlainIsParagraph(a);
    PlainIsParagraph(b);
    var x, y := "<p>" + a + "</p>", "<p>" + b + "</p>";
    assert Blocks([a, b]) == [x, y];
    assert [x, y][1..] == [y];
    assert JoinLines([x, y]) == x + "\n" + y;
  }

  /** A line without tags or line feeds becomes one paragraph holding it unchanged. */
  lemma PlainIsParagraph(a: seq<char>)
    requires '\n' !in a && '<' !in a
    ensures Block(a) == "<p>" + a + "</p>"
  {
    var t := a[SpaceRun(a)..];
    assert t != [] ==> t[0] == a[SpaceRun(a)];
    assert !IsTagged(a);
    ReplaceCharSpec(a, '\n', "<br/>");
  }
}
