/** Between the extraction of fenced code (app.js:149-152) and the re-injection
    (app.js:184-187) the text carries one token per code block. Every rule in between
    (headings, rules, lists, inline spans, paragraphs) matches only characters that no token
    contains and copies any token it covers, so each stage keeps the text well formed and
    keeps its tokens: in order for every rule but the link rule, which writes the target
    before the label and so keeps them as a multiset. */
module Preserve {
  import opened Text
  import opened Sentinels
  import opened Escaping
  import opened BlockRules
  import opened Inline
  import opened Paragraphs

  // ---------------------------------------------------------------- shared steps

  /** A token holds token characters only. */
  lemma TokenCharsOf(s: seq<char>)
    requires TokenLen(s) > 0
    ensures forall k :: 0 <= k < TokenLen(s) ==> TokenChar(s[k])
  {
    forall k | 0 <= k < TokenLen(s) ensures TokenChar(s[k]) {
      if k > 0 {
        TokenInterior(s, k);
      }
    }
  }

  /** A character that is not a token character is not inside the token at the head of `s`. */
  lemma NotInToken(s: seq<char>, c: char)
    requires TokenLen(s) > 0 && !TokenChar(c)
    ensures c !in s[..TokenLen(s)]
  {
    TokenCharsOf(s);
    var l := TokenLen(s);
    assert forall k :: 0 <= k < l ==> s[..l][k] == s[k];
  }

  /** No token holds a line terminator. */
  lemma TokenOneLine(s: seq<char>)
    requires TokenLen(s) > 0
    ensures NoTerminator(s[1..TokenLen(s)])
  {
    TokenCharsOf(s);
    var l := TokenLen(s);
    forall k | 0 <= k < l - 1 ensures !IsLineTerminator(s[1..l][k]) {
      assert s[1..l][k] == s[k + 1];
    }
  }

  /** A copied token followed by a well-formed text. */
  lemma GlueToken(s: seq<char>, y: seq<char>)
    requires TokenLen(s) > 0 && WellFormed(y)
    ensures WellFormed(s[..TokenLen(s)] + y)
    ensures Tokens(s[..TokenLen(s)] + y) == [s[1..TokenLen(s) - 1]] + Tokens(y)
  {
    var l := TokenLen(s);
    TokenLenPrefix(s, l);
    var x := s[..l];
    TokenLenConcat(x, y);
    var xy := x + y;
    assert xy[l..] == y;
    assert xy[1..l - 1] == s[1..l - 1];
    UnfoldToken(xy);
  }

  /** A match `s[..k]` whose only token-bearing part is `s[i..j]`: the tokens of `s` are those
      of that part followed by those after the match. */
  lemma Cut(s: seq<char>, i: int, j: int, k: int)
    requires WellFormed(s) && 0 <= i <= j <= k <= |s|
    requires Boundary(s, i) && Boundary(s, j) && Boundary(s, k)
    requires Sentinel !in s[..i] && Sentinel !in s[j..k]
    ensures WellFormed(s[i..j]) && WellFormed(s[k..])
    ensures Tokens(s) == Tokens(s[i..j]) + Tokens(s[k..])
  {
    Split3(s, i, j);
    PlainText(s[..i]);
    DropAt(s, j, k);
    var a, b, c := Tokens(s[..i]), Tokens(s[i..j]), Tokens(s[j..]);
    assert a + b == b;
    assert Tokens(s) == a + b + c;
  }

  /** Cutting a sentinel-free stretch `s[j..k]` off a well-formed suffix takes no token. */
  lemma DropAt(s: seq<char>, j: int, k: int)
    requires 0 <= j <= k <= |s| && Boundary(s, k)
    requires Sentinel !in s[j..k] && WellFormed(s[j..])
    ensures WellFormed(s[k..]) && Tokens(s[j..]) == Tokens(s[k..])
  {
    var post := s[j..];
    SuffixCut(s, j, k);
    DropPlain(post, k - j);
  }

  /** A sentinel-free head cut off at a boundary takes no token with it. */
  lemma DropPlain(s: seq<char>, m: int)
    requires WellFormed(s) && Boundary(s, m) && Sentinel !in s[..m]
    ensures WellFormed(s[m..]) && Tokens(s) == Tokens(s[m..])
  {
    Split(s, m);
    PlainText(s[..m]);
    var a, b := Tokens(s[..m]), Tokens(s[m..]);
    assert a + b == b;
  }

  /** What a match writes: sentinel-free mark-up around one copied part, then the rest. */
  lemma Emit(a: seq<char>, x: seq<char>, b: seq<char>, y: seq<char>)
    requires Sentinel !in a && Sentinel !in b && WellFormed(x) && WellFormed(y)
    ensures WellFormed(a + x + b + y) && Tokens(a + x + b + y) == Tokens(x) + Tokens(y)
  {
    Wrap(a, x, b);
    Concat(a + x + b, y);
  }

  // ---------------------------------------------------------------- headings

  lemma HeadingSkipsToken(n: nat, s: seq<char>, bol: bool)
    requires 1 <= n <= 6 && TokenLen(s) > 0
    ensures HeadingPass(n, s, bol) == s[..TokenLen(s)] + HeadingPass(n, s[TokenLen(s)..], false)
  {
    var l := TokenLen(s);
    HeadingAtSentinel(n, s, bol);
    HeadingOverToken(n, s);
    SplitAfterHead(s, l);
    Assoc([s[0]], s[1..l], HeadingPass(n, s[l..], false));
  }

  lemma HeadingAtSentinel(n: nat, s: seq<char>, bol: bool)
    requires 1 <= n <= 6 && s != [] && s[0] == Sentinel
    ensures HeadingPass(n, s, bol) == [s[0]] + HeadingPass(n, s[1..], false)
  {
    assert !HashesAt(s, n) by {
      assert s[0] != '#';
    }
    StepPlain(n, s, bol);
  }

  lemma HeadingOverToken(n: nat, s: seq<char>)
    requires 1 <= n <= 6 && TokenLen(s) > 0
    ensures HeadingPass(n, s[1..], false) == s[1..TokenLen(s)] + HeadingPass(n, s[TokenLen(s)..], false)
  {
    var l := TokenLen(s);
    TokenOneLine(s);
    SplitAfterHead(s, l);
    PassOverText(n, s[1..l], s[l..]);
  }

  /** Each heading pass keeps the tokens. */
  lemma {:induction false} HeadingPreserves(n: nat, s: seq<char>, bol: bool)
    requires 1 <= n <= 6 && WellFormed(s)
    ensures WellFormed(HeadingPass(n, s, bol)) && Tokens(HeadingPass(n, s, bol)) == Tokens(s)
    decreases |s|, 1
  {
    if s == [] {
    } else if TokenLen(s) > 0 {
      var l := TokenLen(s);
      UnfoldToken(s);
      HeadingSkipsToken(n, s, bol);
      HeadingPreserves(n, s[l..], false);
      GlueToken(s, HeadingPass(n, s[l..], false));
    } else if bol && HashesAt(s, n) && SpaceRun(s[n..]) >= 1 {
      HeadingAtMatch(n, s, bol);
    } else {
      UnfoldPlain(s);
      HeadingPreserves(n, s[1..], IsLineTerminator(s[0]));
      GluePlain(s[0], HeadingPass(n, s[1..], IsLineTerminator(s[0])));
    }
  }

  lemma {:induction false} HeadingAtMatch(n: nat, s: seq<char>, bol: bool)
    requires 1 <= n <= 6 && WellFormed(s) && s != []
    requires bol && HashesAt(s, n) && SpaceRun(s[n..]) >= 1
    ensures WellFormed(HeadingPass(n, s, bol)) && Tokens(HeadingPass(n, s, bol)) == Tokens(s)
    decreases |s|, 0
  {
    var i := n + SpaceRun(s[n..]);
    var j := i + LineLen(s[i..]);
    HeadingUnfold(n, s, i, j);
    HeadingCut(n, s, i, j);
    HeadingPreserves(n, s[j..], false);
    HeadingEmit(n, s[i..j], HeadingPass(n, s[j..], false));
  }

  /** The tokens of a heading line are those of its text. */
  lemma HeadingCut(n: nat, s: seq<char>, i: nat, j: nat)
    requires 1 <= n <= 6 && WellFormed(s) && HashesAt(s, n) && SpaceRun(s[n..]) >= 1
    requires i == n + SpaceRun(s[n..]) && j == i + LineLen(s[i..])
    ensures WellFormed(s[i..j]) && WellFormed(s[j..])
    ensures Tokens(s) == Tokens(s[i..j]) + Tokens(s[j..])
  {
    HeadingHead(n, s, i);
    HeadingEnd(s, i, j);
    Cut(s, i, j, j);
  }

  /** The heading tags hold no sentinel. */
  lemma HeadingEmit(n: nat, x: seq<char>, y: seq<char>)
    requires 1 <= n <= 6 && WellFormed(x) && WellFormed(y)
    ensures WellFormed(HeadOpen(n) + x + HeadClose(n) + y)
    ensures Tokens(HeadOpen(n) + x + HeadClose(n) + y) == Tokens(x) + Tokens(y)
  {
    assert Sentinel !in HeadOpen(n) && Sentinel !in HeadClose(n);
    Emit(HeadOpen(n), x, HeadClose(n), y);
  }

  /** A heading match wraps the rest of its line. */
  lemma HeadingUnfold(n: nat, s: seq<char>, i: nat, j: nat)
    requires 1 <= n <= 6 && HashesAt(s, n) && SpaceRun(s[n..]) >= 1
    requires i == n + SpaceRun(s[n..]) && j == i + LineLen(s[i..])
    ensures HeadingPass(n, s, true) == HeadOpen(n) + s[i..j] + HeadClose(n) + HeadingPass(n, s[j..], false)
  {
    HeadingStep(n, s);
    SliceOfDrop(s, i, j);
  }

  /** One step of the heading pass at a heading line, as the pass reads it. */
  lemma HeadingStep(n: nat, s: seq<char>)
    requires 1 <= n <= 6 && HashesAt(s, n) && SpaceRun(s[n..]) >= 1
    ensures var t := s[n + SpaceRun(s[n..])..];
      HeadingPass(n, s, true) == HeadOpen(n) + t[..LineLen(t)] + HeadClose(n) + HeadingPass(n, t[LineLen(t)..], false)
  {
  }

  /** The hashes and the whitespace after them hold no sentinel and end on a boundary. */
  lemma HeadingHead(n: nat, s: seq<char>, i: nat)
    requires 1 <= n <= 6 && HashesAt(s, n) && SpaceRun(s[n..]) >= 1 && i == n + SpaceRun(s[n..])
    ensures Sentinel !in s[..i] && Boundary(s, i)
  {
    forall k | 0 <= k < i ensures s[..i][k] != Sentinel && !TokenChar(s[k]) {
      if k >= n {
        assert s[k] == s[n..][k - n];
      }
    }
  }

  /** The heading text ends at a line terminator or at the end. */
  lemma HeadingEnd(s: seq<char>, i: nat, j: nat)
    requires i <= |s| && j == i + LineLen(s[i..])
    ensures Boundary(s, j)
  {
    if j < |s| {
      assert s[j] == s[i..][j - i];
    }
  }

  lemma HeadingsPreserve(s: seq<char>)
    requires WellFormed(s)
    ensures WellFormed(Headings(s)) && Tokens(Headings(s)) == Tokens(s)
  {
    var h6 := HeadingPass(6, s, true);
    HeadingPreserves(6, s, true);
    var h5 := HeadingPass(5, h6, true);
    HeadingPreserves(5, h6, true);
    var h4 := HeadingPass(4, h5, true);
    HeadingPreserves(4, h5, true);
    var h3 := HeadingPass(3, h4, true);
    HeadingPreserves(3, h4, true);
    var h2 := HeadingPass(2, h3, true);
    HeadingPreserves(2, h3, true);
    HeadingPreserves(1, h2, true);
  }

  // ---------------------------------------------------------------- rules

  lemma {:induction false} HrOverText(x: seq<char>, y: seq<char>)
    requires NoTerminator(x)
    ensures HrPass(x + y, false) == x + HrPass(y, false)
    decreases |x|
  {
    if x != [] {
      Uncons(x, y, HrPass(y, false));
      assert !IsLineTerminator(x[0]);
      HrOverText(x[1..], y);
    } else {
      assert x + y == y;
    }
  }

  lemma HrSkipsToken(s: seq<char>, bol: bool)
    requires TokenLen(s) > 0
    ensures HrPass(s, bol) == s[..TokenLen(s)] + HrPass(s[TokenLen(s)..], false)
  {
    var l := TokenLen(s);
    var body, rest := s[1..l], s[l..];
    HrAtSentinel(s, bol);
    TokenOneLine(s);
    SplitAfterHead(s, l);
    HrOverText(body, rest);
    Assoc([s[0]], body, HrPass(rest, false));
  }

  /** No rule starts at a sentinel: the scan copies it and goes on off the line start. */
  lemma HrAtSentinel(s: seq<char>, bol: bool)
    requires s != [] && s[0] == Sentinel
    ensures HrPass(s, bol) == [s[0]] + HrPass(s[1..], false)
  {
    assert HrMatch(s) == 0 by {
      assert SpaceRun(s) == 0 && s[0..] == s;
    }
  }

  /** `s` read as its head character, `s[1..l]` and the rest. */
  lemma SplitAfterHead(s: seq<char>, l: int)
    requires 1 <= l <= |s|
    ensures s[1..] == s[1..l] + s[l..] && s[..l] == [s[0]] + s[1..l]
  {
  }

  /** A rule line holds whitespace and rule characters only. */
  lemma RuleLineIsPlain(x: seq<char>)
    requires RuleLine(x)
    ensures Sentinel !in x
  {
    var a, b :| RuleShape(x, a, b);
    assert RuleShape(x, a, b);
  }

  lemma {:induction false} HrPreserves(s: seq<char>, bol: bool)
    requires WellFormed(s)
    ensures WellFormed(HrPass(s, bol)) && Tokens(HrPass(s, bol)) == Tokens(s)
    decreases |s|, 1
  {
    if s == [] {
    } else if TokenLen(s) > 0 {
      var l := TokenLen(s);
      UnfoldToken(s);
      HrSkipsToken(s, bol);
      HrPreserves(s[l..], false);
      GlueToken(s, HrPass(s[l..], false));
    } else if bol && HrMatch(s) > 0 {
      HrAtMatch(s, bol);
    } else {
      UnfoldPlain(s);
      HrPreserves(s[1..], IsLineTerminator(s[0]));
      GluePlain(s[0], HrPass(s[1..], IsLineTerminator(s[0])));
    }
  }

  lemma {:induction false} HrAtMatch(s: seq<char>, bol: bool)
    requires WellFormed(s) && s != [] && bol && HrMatch(s) > 0
    ensures WellFormed(HrPass(s, bol)) && Tokens(HrPass(s, bol)) == Tokens(s)
    decreases |s|, 0
  {
    var e := HrMatch(s);
    HrMatchIsRule(s);
    RuleLineIsPlain(s[..e]);
    DropPlain(s, e);
    HrPreserves(s[e..], IsLineTerminator(s[e - 1]));
    PlainText("<hr/>");
    Concat("<hr/>", HrPass(s[e..], IsLineTerminator(s[e - 1])));
  }

  // ---------------------------------------------------------------- lists

  lemma {:induction false} ListOverText(x: seq<char>, y: seq<char>)
    requires NoTerminator(x)
    ensures ListPass(x + y, false) == x + ListPass(y, false)
    decreases |x|
  {
    if x != [] {
      Uncons(x, y, ListPass(y, false));
      assert !IsLineTerminator(x[0]);
      ListOverText(x[1..], y);
    } else {
      assert x + y == y;
    }
  }

  lemma ListSkipsToken(s: seq<char>, bol: bool)
    requires TokenLen(s) > 0
    ensures ListPass(s, bol) == s[..TokenLen(s)] + ListPass(s[TokenLen(s)..], false)
  {
    var l := TokenLen(s);
    var body, rest := s[1..l], s[l..];
    TokenOneLine(s);
    assert !MarkerAt(s, 0);
    SplitAfterHead(s, l);
    ListOverText(body, rest);
    Assoc([s[0]], body, ListPass(rest, false));
  }

  /** Removing the marker and trimming a list line cut off characters outside any token. */
  lemma ItemPreserves(l: seq<char>)
    requires WellFormed(l)
    ensures WellFormed(Trim(StripMarker(l))) && Tokens(Trim(StripMarker(l))) == Tokens(l)
  {
    StripPreserves(l);
    TrimPreserves(StripMarker(l));
  }

  lemma StripPreserves(l: seq<char>)
    requires WellFormed(l)
    ensures WellFormed(StripMarker(l)) && Tokens(StripMarker(l)) == Tokens(l)
  {
    if MarkerAt(l, 0) {
      assert l[..2] == [l[0], ' '];
      DropPlain(l, 2);
    }
  }

  lemma TrimPreserves(u: seq<char>)
    requires WellFormed(u)
    ensures WellFormed(Trim(u)) && Tokens(Trim(u)) == Tokens(u)
  {
    var a, b :| 0 <= a <= b <= |u| && Trim(u) == u[a..b]
      && (forall k :: 0 <= k < a ==> IsSpace(u[k])) && (forall k :: b <= k < |u| ==> IsSpace(u[k]));
    SpacesArePlain(u, a, b);
    Split3(u, a, b);
    PlainText(u[..a]);
    PlainText(u[b..]);
    var x, y, z := Tokens(u[..a]), Tokens(u[a..b]), Tokens(u[b..]);
    assert x + y + z == y;
  }

  lemma SpacesArePlain(u: seq<char>, a: int, b: int)
    requires 0 <= a <= b <= |u|
    requires forall k :: 0 <= k < a ==> IsSpace(u[k])
    requires forall k :: b <= k < |u| ==> IsSpace(u[k])
    ensures Sentinel !in u[..a] && Sentinel !in u[b..] && Boundary(u, a) && Boundary(u, b)
  {
    assert forall k :: 0 <= k < a ==> u[..a][k] == u[k];
    assert forall k :: 0 <= k < |u| - b ==> u[b..][k] == u[b + k];
  }

  lemma {:induction false} ItemsPreserve(m: seq<char>)
    requires WellFormed(m)
    ensures WellFormed(Items(SplitLines(m))) && Tokens(Items(SplitLines(m))) == Tokens(m)
    decreases |m|
  {
    match FirstIndex(m, '\n')
    case None =>
      ItemPreserves(m);
      PlainText([]);
      Emit("<li>", Trim(StripMarker(m)), "</li>", []);
      assert Items(SplitLines(m)) == "<li>" + Trim(StripMarker(m)) + "</li>" + Items([]);
    case Some(k) =>
      assert m[k..k + 1] == "\n";
      Cut(m, 0, k, k + 1);
      assert m[0..k] == m[..k];
      ItemPreserves(m[..k]);
      ItemsPreserve(m[k + 1..]);
      var ls := SplitLines(m);
      assert ls == [m[..k]] + SplitLines(m[k + 1..]);
      assert ls[1..] == SplitLines(m[k + 1..]);
      Emit("<li>", Trim(StripMarker(m[..k])), "</li>", Items(SplitLines(m[k + 1..])));
  }

  lemma {:induction false} ListPreserves(s: seq<char>, bol: bool)
    requires WellFormed(s)
    ensures WellFormed(ListPass(s, bol)) && Tokens(ListPass(s, bol)) == Tokens(s)
    decreases |s|, 1
  {
    if s == [] {
    } else if TokenLen(s) > 0 {
      var l := TokenLen(s);
      UnfoldToken(s);
      ListSkipsToken(s, bol);
      ListPreserves(s[l..], false);
      GlueToken(s, ListPass(s[l..], false));
    } else if bol && MarkerAt(s, 0) {
      ListAtMatch(s, bol);
    } else {
      UnfoldPlain(s);
      ListPreserves(s[1..], IsLineTerminator(s[0]));
      GluePlain(s[0], ListPass(s[1..], IsLineTerminator(s[0])));
    }
  }

  lemma {:induction false} ListAtMatch(s: seq<char>, bol: bool)
    requires WellFormed(s) && s != [] && bol && MarkerAt(s, 0)
    ensures WellFormed(ListPass(s, bol)) && Tokens(ListPass(s, bol)) == Tokens(s)
    decreases |s|, 0
  {
    var e := ChainLen(s);
    Split(s, e);
    ItemsPreserve(s[..e]);
    ListPreserves(s[e..], false);
    Emit("<ul>", Items(SplitLines(s[..e])), "</ul>", ListPass(s[e..], false));
  }

  // ---------------------------------------------------------------- bold

  lemma {:induction false} BoldPreserves(s: seq<char>)
    requires WellFormed(s)
    ensures WellFormed(BoldPass(s)) && Tokens(BoldPass(s)) == Tokens(s)
    decreases |s|, 1
  {
    if s == [] {
    } else if TokenLen(s) > 0 {
      var l := TokenLen(s);
      UnfoldToken(s);
      NotInToken(s, '*');
      assert s == s[..l] + s[l..];
      BoldSkip(s[..l], s[l..]);
      BoldPreserves(s[l..]);
      GlueToken(s, BoldPass(s[l..]));
    } else if PairAt(s, 0) && BoldClose(s[2..]).Some? {
      BoldAtMatch(s);
    } else {
      UnfoldPlain(s);
      BoldPreserves(s[1..]);
      GluePlain(s[0], BoldPass(s[1..]));
    }
  }

  lemma {:induction false} BoldAtMatch(s: seq<char>)
    requires WellFormed(s) && PairAt(s, 0) && BoldClose(s[2..]).Some?
    ensures WellFormed(BoldPass(s)) && Tokens(BoldPass(s)) == Tokens(s)
    decreases |s|, 0
  {
    var j := BoldClose(s[2..]).value;
    assert s[2 + j] == '*' && s[2 + j + 1] == '*';
    assert s[..2] == "**" && s[2 + j..2 + j + 2] == "**";
    Cut(s, 2, 2 + j, 2 + j + 2);
    BoldPreserves(s[2 + j + 2..]);
    Emit("<strong>", s[2..2 + j], "</strong>", BoldPass(s[2 + j + 2..]));
  }

  // ---------------------------------------------------------------- italic

  lemma {:induction false} ItalicPreserves(s: seq<char>, prev: Option<char>)
    requires WellFormed(s)
    ensures WellFormed(ItalicPrev(s, prev)) && Tokens(ItalicPrev(s, prev)) == Tokens(s)
    decreases |s|, 1
  {
    if s == [] {
    } else if TokenLen(s) > 0 {
      var l := TokenLen(s);
      UnfoldToken(s);
      NotInToken(s, '*');
      assert s == s[..l] + s[l..];
      ItalicSkip(s[..l], s[l..], prev);
      ItalicPreserves(s[l..], Some(s[..l][l - 1]));
      GlueToken(s, ItalicPrev(s[l..], Some(s[..l][l - 1])));
    } else if s[0] == '*' && prev != Some('*') && ItalicClose(s[1..]).Some? {
      ItalicAtMatch(s, prev);
    } else {
      UnfoldPlain(s);
      ItalicPreserves(s[1..], Some(s[0]));
      GluePlain(s[0], ItalicPrev(s[1..], Some(s[0])));
    }
  }

  lemma {:induction false} ItalicAtMatch(s: seq<char>, prev: Option<char>)
    requires WellFormed(s) && s != [] && s[0] == '*' && prev != Some('*') && ItalicClose(s[1..]).Some?
    ensures WellFormed(ItalicPrev(s, prev)) && Tokens(ItalicPrev(s, prev)) == Tokens(s)
    decreases |s|, 0
  {
    var j := ItalicClose(s[1..]).value;
    StarsAround(s, j);
    Cut(s, 1, 1 + j, 1 + j + 1);
    ItalicPreserves(s[1 + j + 1..], Some('*'));
    Emit("<em>", s[1..1 + j], "</em>", ItalicPrev(s[1 + j + 1..], Some('*')));
  }

  /** Single stars at both ends of `s[1..1 + j]` are cut points outside any token. */
  lemma StarsAround(s: seq<char>, j: nat)
    requires 1 + j < |s| && s[0] == '*' && s[1 + j] == '*'
    ensures Sentinel !in s[..1] && Sentinel !in s[1 + j..1 + j + 1]
    ensures Boundary(s, 1) && Boundary(s, 1 + j) && Boundary(s, 1 + j + 1)
  {
    assert s[..1] == "*" && s[1 + j..1 + j + 1] == "*";
  }

  // ---------------------------------------------------------------- code

  lemma {:induction false} CodePreserves(s: seq<char>)
    requires WellFormed(s)
    ensures WellFormed(CodePass(s)) && Tokens(CodePass(s)) == Tokens(s)
    decreases |s|, 1
  {
    if s == [] {
    } else if TokenLen(s) > 0 {
      var l := TokenLen(s);
      UnfoldToken(s);
      NotInToken(s, '`');
      assert s == s[..l] + s[l..];
      CodeSkip(s[..l], s[l..]);
      CodePreserves(s[l..]);
      GlueToken(s, CodePass(s[l..]));
    } else if s[0] == '`' && CodeClose(s[1..]).Some? {
      CodeAtMatch(s);
    } else {
      UnfoldPlain(s);
      CodePreserves(s[1..]);
      GluePlain(s[0], CodePass(s[1..]));
    }
  }

  lemma {:induction false} CodeAtMatch(s: seq<char>)
    requires WellFormed(s) && s != [] && s[0] == '`' && CodeClose(s[1..]).Some?
    ensures WellFormed(CodePass(s)) && Tokens(CodePass(s)) == Tokens(s)
    decreases |s|, 0
  {
    var k := CodeClose(s[1..]).value;
    assert s[1 + k] == '`';
    assert s[..1] == "`" && s[1 + k..1 + k + 1] == "`";
    Cut(s, 1, 1 + k, 1 + k + 1);
    CodePreserves(s[1 + k + 1..]);
    Emit("<code>", s[1..1 + k], "</code>", CodePass(s[1 + k + 1..]));
  }

  // ---------------------------------------------------------------- links

  lemma {:induction false} LinkPreserves(s: seq<char>)
    requires WellFormed(s)
    ensures WellFormed(LinkPass(s)) && multiset(Tokens(LinkPass(s))) == multiset(Tokens(s))
    decreases |s|, 1
  {
    if s == [] {
    } else if TokenLen(s) > 0 {
      var l := TokenLen(s);
      UnfoldToken(s);
      NotInToken(s, '[');
      assert s == s[..l] + s[l..];
      LinkSkip(s[..l], s[l..]);
      LinkPreserves(s[l..]);
      GlueToken(s, LinkPass(s[l..]));
    } else if LinkMatch(s).Some? {
      LinkAtMatch(s);
    } else {
      UnfoldPlain(s);
      LinkPreserves(s[1..]);
      GluePlain(s[0], LinkPass(s[1..]));
    }
  }

  lemma {:induction false} LinkAtMatch(s: seq<char>)
    requires WellFormed(s) && s != [] && LinkMatch(s).Some?
    ensures WellFormed(LinkPass(s)) && multiset(Tokens(LinkPass(s))) == multiset(Tokens(s))
    decreases |s|, 0
  {
    var (l, t) := LinkMatch(s).value;
    var lab, tgt, rest := s[1..1 + l], s[3 + l..3 + l + t], s[4 + l + t..];
    LinkParts(s, l, t);
    LinkPreserves(rest);
    var out := LinkPass(rest);
    LinkOut("<a href=\"", tgt, LinkTail, lab, "</a>", out);
    LinkPassAt(s, l, t);
    var a, b, c, d := Tokens(lab), Tokens(tgt), Tokens(rest), Tokens(out);
    assert multiset(d) == multiset(c);
    assert multiset(a + b + d) == multiset(a + b + c);
  }

  /** What a link writes, mark-up `a`, `b`, `c` around its target and label, keeps the
      multiset of tokens of its label, target and rest. */
  lemma LinkOut(a: seq<char>, tgt: seq<char>, b: seq<char>, lab: seq<char>, c: seq<char>, out: seq<char>)
    requires Sentinel !in a && Sentinel !in b && Sentinel !in c
    requires WellFormed(lab) && WellFormed(tgt) && WellFormed(out)
    ensures WellFormed((a + tgt + b) + (lab + c + out))
    ensures multiset(Tokens((a + tgt + b) + (lab + c + out))) == multiset(Tokens(lab) + Tokens(tgt) + Tokens(out))
  {
    Swapped(a, tgt, b, lab, c, out);
    var x, y, z := Tokens(lab), Tokens(tgt), Tokens(out);
    assert multiset(y + (x + z)) == multiset(x + y + z);
  }

  lemma Swapped(a: seq<char>, tgt: seq<char>, b: seq<char>, lab: seq<char>, c: seq<char>, out: seq<char>)
    requires Sentinel !in a && Sentinel !in b && Sentinel !in c
    requires WellFormed(lab) && WellFormed(tgt) && WellFormed(out)
    ensures WellFormed((a + tgt + b) + (lab + c + out))
    ensures Tokens((a + tgt + b) + (lab + c + out)) == Tokens(tgt) + (Tokens(lab) + Tokens(out))
  {
    var head := a + tgt + b;
    Wrap(a, tgt, b);
    var tail := lab + c + out;
    Between(lab, c, out);
    Concat(head, tail);
  }

  /** Sentinel-free mark-up between two well-formed texts. */
  lemma Between(x: seq<char>, b: seq<char>, y: seq<char>)
    requires Sentinel !in b && WellFormed(x) && WellFormed(y)
    ensures WellFormed(x + b + y) && Tokens(x + b + y) == Tokens(x) + Tokens(y)
  {
    PlainText(b);
    Concat3(x, b, y);
    var p, q, r := Tokens(x), Tokens(b), Tokens(y);
    assert p + q + r == p + r;
  }

  /** The tokens of a link match: the label's, then the target's, then the rest's. */
  lemma LinkParts(s: seq<char>, l: nat, t: nat)
    requires WellFormed(s) && LinkShape(s, l, t)
    ensures WellFormed(s[1..1 + l]) && WellFormed(s[3 + l..3 + l + t]) && WellFormed(s[4 + l + t..])
    ensures Tokens(s) == Tokens(s[1..1 + l]) + Tokens(s[3 + l..3 + l + t]) + Tokens(s[4 + l + t..])
  {
    LinkCuts(s, l, t);
    Cut(s, 1, 1 + l, 3 + l);
    TargetCut(s, 3 + l, t);
    Assoc(Tokens(s[1..1 + l]), Tokens(s[3 + l..3 + l + t]), Tokens(s[4 + l + t..]));
  }

  /** The brackets and parentheses of a link `[label](target)` at the head of `s`. */
  predicate LinkShape(s: seq<char>, l: nat, t: nat)
  {
    l + t + 4 <= |s| && s[0] == '[' && s[1 + l] == ']' && s[2 + l] == '(' && s[3 + l + t] == ')'
  }

  lemma LinkCuts(s: seq<char>, l: nat, t: nat)
    requires LinkShape(s, l, t)
    ensures Sentinel !in s[..1] && Sentinel !in s[1 + l..3 + l]
    ensures Boundary(s, 1) && Boundary(s, 1 + l) && Boundary(s, 3 + l)
  {
    assert s[..1] == "[" && s[1 + l..3 + l] == "](";
  }

  /** The target and the closing parenthesis of a link, cut off a well-formed suffix. */
  lemma TargetCut(s: seq<char>, m: nat, t: nat)
    requires m + t < |s| && s[m + t] == ')' && WellFormed(s[m..])
    ensures WellFormed(s[m..m + t]) && WellFormed(s[m + t + 1..])
    ensures Tokens(s[m..]) == Tokens(s[m..m + t]) + Tokens(s[m + t + 1..])
  {
    var v := s[m..];
    assert v[t..t + 1] == ")" && v[..t] == s[m..m + t] && v[t + 1..] == s[m + t + 1..];
    Split(v, t);
    DropPlain(v[t..], 1);
    assert v[t..][1..] == s[m + t + 1..];
  }

  lemma InlinesPreserve(s: seq<char>)
    requires WellFormed(s)
    ensures WellFormed(Inlines(s)) && multiset(Tokens(Inlines(s))) == multiset(Tokens(s))
  {
    BoldPreserves(s);
    var b := BoldPass(s);
    ItalicIsPrev(b);
    ItalicPreserves(b, None);
    var i := Italic(b);
    CodePreserves(i);
    LinkPreserves(CodePass(i));
  }

  // ---------------------------------------------------------------- paragraphs

  lemma {:induction false} ReplacePreserves(s: seq<char>, c: char, rep: seq<char>)
    requires WellFormed(s) && !TokenChar(c) && Sentinel !in rep
    ensures WellFormed(ReplaceChar(s, c, rep)) && Tokens(ReplaceChar(s, c, rep)) == Tokens(s)
    decreases |s|
  {
    if s == [] {
    } else if TokenLen(s) > 0 {
      var l := TokenLen(s);
      UnfoldToken(s);
      NotInToken(s, c);
      ReplaceCharSpec(s[..l], c, rep);
      assert s == s[..l] + s[l..];
      ReplaceCharConcat(s[..l], s[l..], c, rep);
      ReplacePreserves(s[l..], c, rep);
      GlueToken(s, ReplaceChar(s[l..], c, rep));
    } else {
      UnfoldPlain(s);
      ReplacePreserves(s[1..], c, rep);
      assert s == [s[0]] + s[1..];
      ReplaceCharConcat([s[0]], s[1..], c, rep);
      if s[0] == c {
        PlainText(rep);
        Concat(rep, ReplaceChar(s[1..], c, rep));
      } else {
        GluePlain(s[0], ReplaceChar(s[1..], c, rep));
      }
    }
  }

  lemma BlockPreserves(b: seq<char>)
    requires WellFormed(b)
    ensures WellFormed(Block(b)) && Tokens(Block(b)) == Tokens(b)
  {
    if !IsTagged(b) {
      ReplacePreserves(b, '\n', "<br/>");
      Wrap("<p>", BreakLines(b), "</p>");
    }
  }

  lemma {:induction false} ParagraphPreserves(s: seq<char>)
    requires WellFormed(s)
    ensures WellFormed(Paragraph(s)) && Tokens(Paragraph(s)) == Tokens(s)
    decreases |s|, 1
  {
    match FirstBlank(s)
    case None =>
      BlockPreserves(s);
    case Some(k) =>
      ParagraphAtBlank(s, k);
  }

  lemma {:induction false} ParagraphAtBlank(s: seq<char>, k: nat)
    requires WellFormed(s) && FirstBlank(s) == Some(k)
    ensures WellFormed(Paragraph(s)) && Tokens(Paragraph(s)) == Tokens(s)
    decreases |s|, 0
  {
    var r := FeedRun(s[k..]);
    var head, rest := s[..k], s[k + r..];
    FeedsArePlain(s, k, r);
    Cut(s, 0, k, k + r);
    assert s[0..k] == head;
    BlockPreserves(head);
    ParagraphPreserves(rest);
    ParagraphUnfold(s, k, r);
    Between(Block(head), "\n", Paragraph(rest));
  }

  /** The run of line feeds the split drops is a cut outside any token. */
  lemma FeedsArePlain(s: seq<char>, k: nat, r: nat)
    requires FirstBlank(s) == Some(k) && r == FeedRun(s[k..])
    ensures k + r <= |s| && Sentinel !in s[..0] && Sentinel !in s[k..k + r]
    ensures Boundary(s, 0) && Boundary(s, k) && Boundary(s, k + r)
  {
    SpecTail(s, k, r);
    var f := s[k..k + r];
    assert f[0] == s[k] && f[r - 1] == s[k + r - 1];
    FeedsHoldNoSentinel(f);
  }

  lemma FeedsHoldNoSentinel(f: seq<char>)
    requires Feeds(f)
    ensures Sentinel !in f
  {
  }

  /** The first piece becomes a block, followed by a line feed and the paragraphs of the rest. */
  lemma ParagraphUnfold(s: seq<char>, k: nat, r: nat)
    requires FirstBlank(s) == Some(k) && r == FeedRun(s[k..])
    ensures Paragraph(s) == Block(s[..k]) + "\n" + Paragraph(s[k + r..])
  {
    var rest := s[k + r..];
    var ps := SplitBlank(s);
    assert ps == [s[..k]] + SplitBlank(rest);
    assert ps[1..] == SplitBlank(rest);
    var bs := Blocks(ps);
    assert bs[1..] == Blocks(SplitBlank(rest));
  }

  // ---------------------------------------------------------------- all together

  /** The stages between extraction and re-injection, in the source's order. */
  function Middle(t: seq<char>): seq<char>
  {
    Paragraph(Inlines(Lists(Rules(Headings(t)))))
  }

  /** No stage between extraction and re-injection breaks, adds or drops a token. */
  lemma MiddlePreserves(t: seq<char>)
    requires WellFormed(t)
    ensures WellFormed(Middle(t)) && multiset(Tokens(Middle(t))) == multiset(Tokens(t))
  {
    HeadingsPreserve(t);
    var h := Headings(t);
    HrPreserves(h, true);
    var r := Rules(h);
    ListPreserves(r, true);
    var l := Lists(r);
    InlinesPreserve(l);
    ParagraphPreserves(Inlines(l));
  }
}
