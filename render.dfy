/** The whole of `mdToHtml` (app.js:142-189): escaping, fence extraction, the line and inline
    rules, paragraphs, and the final replacement of every token by its code block. */
module Render {
  import opened Text
  import opened Sentinels
  import opened Escaping
  import opened Fences
  import opened BlockRules
  import opened Inline
  import opened Paragraphs
  import opened Preserve

  /** `blocks[i]` in a template literal, where `i` is the digit string a token captured: a
      canonical index of an entry reads that entry, anything else reads `undefined`. */
  function Lookup(bs: seq<seq<char>>, d: seq<char>): (r: seq<char>)
    ensures forall i :: 0 <= i < |bs| && d == Decimal(i) ==> r == bs[i]
    ensures (forall i :: 0 <= i < |bs| ==> d != Decimal(i)) ==> r == "undefined"
  {
    var n := ParseDecimal(d);
    forall i | 0 <= i < |bs| && d == Decimal(i) ensures n == i {
      ParseDecimalOfDecimal(i);
    }
    if n < |bs| && Decimal(n) == d then bs[n] else "undefined"
  }

  /** What a token becomes. */
  function PreCode(b: seq<char>): seq<char>
  {
    "<pre><code>" + b + "</code></pre>"
  }

  /** The last replacement of app.js:184-187: every token, scanning from the left. */
  function Reinject(s: seq<char>, bs: seq<seq<char>>): seq<char>
    decreases |s|
  {
    if s == [] then []
    else if TokenLen(s) > 0 then PreCode(Lookup(bs, s[1..TokenLen(s) - 1])) + Reinject(s[TokenLen(s)..], bs)
    else [s[0]] + Reinject(s[1..], bs)
  }

  /** `mdToHtml`: an empty note renders as the empty string. */
  function MdToHtml(md: seq<char>): seq<char>
  {
    if md == [] then []
    else
      var e := Extract(Escape(md));
      Reinject(Middle(e.text), e.blocks)
  }

  // ---------------------------------------------------------------- re-injection

  lemma OccursLeft(a: seq<char>, b: seq<char>, q: seq<char>, i: int)
    requires OccursAt(a, q, i)
    ensures OccursAt(a + b, q, i)
  {
    assert (a + b)[i..i + |q|] == a[i..i + |q|];
  }

  lemma OccursRight(a: seq<char>, b: seq<char>, q: seq<char>, i: int)
    requires OccursAt(b, q, i)
    ensures OccursAt(a + b, q, |a| + i)
  {
    assert (a + b)[|a| + i..|a| + i + |q|] == b[i..i + |q|];
  }

  /** Every token of a well-formed text shows up, as its code block, in what re-injection
      writes. */
  lemma {:induction false} ReinjectShows(s: seq<char>, bs: seq<seq<char>>, d: seq<char>)
    requires WellFormed(s) && d in Tokens(s)
    ensures Contains(Reinject(s, bs), PreCode(Lookup(bs, d)))
    decreases |s|
  {
    var q := PreCode(Lookup(bs, d));
    if TokenLen(s) > 0 {
      var l := TokenLen(s);
      UnfoldToken(s);
      var head := PreCode(Lookup(bs, s[1..l - 1]));
      var rest := Reinject(s[l..], bs);
      if d == s[1..l - 1] {
        assert OccursAt(head, q, 0);
        OccursLeft(head, rest, q, 0);
      } else {
        ReinjectShows(s[l..], bs, d);
        var i :| OccursAt(rest, q, i);
        OccursRight(head, rest, q, i);
      }
    } else {
      UnfoldPlain(s);
      ReinjectShows(s[1..], bs, d);
      var rest := Reinject(s[1..], bs);
      var i :| OccursAt(rest, q, i);
      OccursRight([s[0]], rest, q, i);
    }
  }

  /** Re-injection into a well-formed text leaves no sentinel behind when no code block
      holds one. */
  lemma {:induction false} ReinjectClears(s: seq<char>, bs: seq<seq<char>>)
    requires WellFormed(s) && forall i :: 0 <= i < |bs| ==> Sentinel !in bs[i]
    ensures Sentinel !in Reinject(s, bs)
    decreases |s|
  {
    if s == [] {
    } else if TokenLen(s) > 0 {
      var l := TokenLen(s);
      UnfoldToken(s);
      ReinjectClears(s[l..], bs);
      ClearPreCode(bs, s[1..l - 1]);
    } else {
      UnfoldPlain(s);
      ReinjectClears(s[1..], bs);
    }
  }

  lemma ClearPreCode(bs: seq<seq<char>>, d: seq<char>)
    requires forall i :: 0 <= i < |bs| ==> Sentinel !in bs[i]
    ensures Sentinel !in PreCode(Lookup(bs, d))
  {
  }

  /** Text without a sentinel is left as it is. */
  lemma {:induction false} ReinjectPlain(s: seq<char>, bs: seq<seq<char>>)
    requires Sentinel !in s
    ensures Reinject(s, bs) == s
    decreases |s|
  {
    if s != [] {
      assert Sentinel !in s[1..];
      ReinjectPlain(s[1..], bs);
      assert s == [s[0]] + s[1..];
    }
  }

  lemma {:induction false} ReinjectNonEmpty(s: seq<char>, bs: seq<seq<char>>)
    ensures s != [] ==> Reinject(s, bs) != []
  {
  }

  // ---------------------------------------------------------------- the whole renderer

  /** Every fenced block of the extraction is sentinel-free when the escaped note is. */
  lemma {:induction false} BlocksClear(s: seq<char>, n: nat)
    requires Sentinel !in s
    ensures forall i :: 0 <= i < |ExtractFrom(s, n).blocks| ==> Sentinel !in ExtractFrom(s, n).blocks[i]
    decreases |s|
  {
    if s == [] {
    } else if FenceAt(s, 0) && FindFence(s[3..]).Some? {
      var j := FindFence(s[3..]).value;
      assert Sentinel !in s[3 + j + 3..] && Sentinel !in s[3..3 + j];
      BlocksClear(s[3 + j + 3..], n + 1);
    } else {
      assert Sentinel !in s[1..];
      BlocksClear(s[1..], n);
    }
  }

  /** The middle stages on a well-formed text keep every token: for a note with no
      sentinel character, the i-th fenced block appears in the output as a preformatted
      code block. */
  lemma CodeBlocksShown(md: seq<char>)
    requires md != [] && Sentinel !in md
    ensures forall i :: 0 <= i < |Extract(Escape(md)).blocks| ==>
              Contains(MdToHtml(md), PreCode(Extract(Escape(md)).blocks[i]))
  {
    var e := Extract(Escape(md));
    EscapeKeepsSentinelFree(md);
    ExtractedTokens(Escape(md), 0);
    MiddlePreserves(e.text);
    var m := Middle(e.text);
    forall i | 0 <= i < |e.blocks| ensures Contains(MdToHtml(md), PreCode(e.blocks[i])) {
      var d := Decimal(i);
      assert Indices(0, |e.blocks|)[i] == d;
      assert d in multiset(Tokens(e.text));
      assert d in multiset(Tokens(m));
      ReinjectShows(m, e.blocks, d);
    }
  }

  /** No token survives: for a note with no sentinel character the output holds none. */
  lemma NoSentinelLeft(md: seq<char>)
    requires Sentinel !in md
    ensures Sentinel !in MdToHtml(md)
  {
    if md != [] {
      var e := Extract(Escape(md));
      EscapeKeepsSentinelFree(md);
      ExtractedTokens(Escape(md), 0);
      BlocksClear(Escape(md), 0);
      MiddlePreserves(e.text);
      ReinjectClears(Middle(e.text), e.blocks);
    }
  }

  /** Every piece of the paragraph stage is a non-empty block. */
  lemma {:induction false} ParagraphNonEmpty(s: seq<char>)
    ensures Paragraph(s) != []
  {
    var bs := Blocks(SplitBlank(s));
    assert bs[0] != [] by {
      var b := SplitBlank(s)[0];
      if IsTagged(b) {
        assert |b[SpaceRun(b)..]| >= 3;
      }
    }
    JoinNonEmpty(bs);
  }

  lemma JoinNonEmpty(ls: seq<seq<char>>)
    requires ls != [] && ls[0] != []
    ensures JoinLines(ls) != []
  {
  }

  /** Only the empty note renders as the empty string. */
  lemma RendersEmptyIff(md: seq<char>)
    ensures MdToHtml(md) == [] <==> md == []
  {
    if md != [] {
      var e := Extract(Escape(md));
      ParagraphNonEmpty(Inlines(Lists(Rules(Headings(e.text)))));
      ReinjectNonEmpty(Middle(e.text), e.blocks);
    }
  }

  // ---------------------------------------------------------------- a note that is one fenced block

  /** A token standing alone passes every line and inline rule untouched, and the paragraph
      stage wraps it as a paragraph: the preformatted block ends up inside `<p>`. */
  lemma LoneToken(t: seq<char>)
    requires TokenLen(t) == |t| > 0
    ensures Middle(t) == "<p>" + t + "</p>"
  {
    assert t[..|t|] == t && t[|t|..] == [] && t + [] == t;
    LoneLines(t);
    LoneInline(t);
    LoneParagraph(t);
  }

  lemma LoneLines(t: seq<char>)
    requires TokenLen(t) == |t| > 0
    ensures Lists(Rules(Headings(t))) == t
  {
    assert t[..|t|] == t && t[|t|..] == [] && t + [] == t;
    HeadingSkipsToken(6, t, true);
    HeadingSkipsToken(5, t, true);
    HeadingSkipsToken(4, t, true);
    HeadingSkipsToken(3, t, true);
    HeadingSkipsToken(2, t, true);
    HeadingSkipsToken(1, t, true);
    HrSkipsToken(t, true);
    ListSkipsToken(t, true);
  }

  lemma LoneInline(t: seq<char>)
    requires TokenLen(t) == |t| > 0
    ensures Inlines(t) == t
  {
    assert t[..|t|] == t && t + [] == t;
    NotInToken(t, '*');
    NotInToken(t, '`');
    NotInToken(t, '[');
    BoldSkip(t, []);
    ItalicIsPrev(t);
    ItalicSkip(t, [], None);
    CodeSkip(t, []);
    LinkSkip(t, []);
  }

  lemma LoneParagraph(t: seq<char>)
    requires TokenLen(t) == |t| > 0
    ensures Paragraph(t) == "<p>" + t + "</p>"
  {
    assert t[..|t|] == t;
    NotInToken(t, '\n');
    assert forall k :: 0 <= k < |t| ==> t[k] != '\n';
    assert FirstBlank(t).None?;
    assert SplitBlank(t) == [t];
    assert !IsTagged(t) by {
      assert SpaceRun(t) == 0;
    }
    ReplaceCharSpec(t, '\n', "<br/>");
    assert Blocks([t]) == [Block(t)];
  }

  /** A lone code block among sentinel-free mark-up is replaced by its entry. */
  lemma ReinjectLone(a: seq<char>, t: seq<char>, b: seq<char>, bs: seq<seq<char>>)
    requires TokenLen(t) == |t| > 0 && Sentinel !in a && Sentinel !in b
    ensures Reinject(a + t + b, bs) == a + PreCode(Lookup(bs, t[1..|t| - 1])) + b
  {
    var p := PreCode(Lookup(bs, t[1..|t| - 1]));
    ReinjectOverText(a, t + b, bs);
    ReinjectToken(t, b, bs);
    ReinjectPlain(b, bs);
    Assoc(a, t, b);
    Assoc(a, p, b);
  }

  /** A whole token at the head is replaced by its entry. */
  lemma ReinjectToken(t: seq<char>, b: seq<char>, bs: seq<seq<char>>)
    requires TokenLen(t) == |t| > 0
    ensures Reinject(t + b, bs) == PreCode(Lookup(bs, t[1..|t| - 1])) + Reinject(b, bs)
  {
    TokenLenConcat(t, b);
    CatParts(t, b, 1, |t| - 1);
  }

  lemma {:induction false} ReinjectOverText(a: seq<char>, y: seq<char>, bs: seq<seq<char>>)
    requires Sentinel !in a
    ensures Reinject(a + y, bs) == a + Reinject(y, bs)
    decreases |a|
  {
    if a != [] {
      Uncons(a, y, Reinject(y, bs));
      ReinjectOverText(a[1..], y, bs);
    } else {
      assert a + y == y;
    }
  }

  /** Escaping adds no backtick. */
  lemma {:induction false} EscapeNoBacktick(x: seq<char>)
    requires '`' !in x
    ensures '`' !in EscapeEach(x)
    decreases |x|
  {
    if x != [] {
      assert '`' !in x[1..];
      EscapeNoBacktick(x[1..]);
    }
  }

  /** A note that is one fenced block without backticks inside renders as that block,
      escaped, in a preformatted element inside a paragraph. */
  lemma FencedNote(x: seq<char>)
    requires '`' !in x
    ensures MdToHtml("```" + x + "```") == "<p>" + PreCode(Escape(x)) + "</p>"
  {
    var y := Escape(x);
    EscapedFence(x);
    ExtractsOne(y);
    var t := Token(0);
    assert MdToHtml("```" + x + "```") == Reinject(Middle(t), [y]);
    TokenLenOfToken(0, []);
    assert t + [] == t;
    TokenParts(0);
    assert Lookup([y], Decimal(0)) == y;
    RenderLone(t, [y], y);
  }

  /** The token of an entry, alone, renders as that entry inside a paragraph. */
  lemma RenderLone(t: seq<char>, bs: seq<seq<char>>, y: seq<char>)
    requires TokenLen(t) == |t| > 0 && Lookup(bs, t[1..|t| - 1]) == y
    ensures Reinject(Middle(t), bs) == "<p>" + PreCode(y) + "</p>"
  {
    LoneToken(t);
    ReinjectLone("<p>", t, "</p>", bs);
  }

  lemma EscapedFence(x: seq<char>)
    requires '`' !in x
    ensures Escape("```" + x + "```") == "```" + Escape(x) + "```"
    ensures '`' !in Escape(x)
  {
    EscapeIsCharwise("```" + x + "```");
    EscapeIsCharwise(x);
    EscapeNoBacktick(x);
    EscapeEachConcat("```", x);
    EscapeEachConcat("```" + x, "```");
    assert EscapeEach("```") == "```";
  }

  lemma ExtractsOne(y: seq<char>)
    requires '`' !in y
    ensures Extract("```" + y + "```") == Extraction(Token(0), [y])
  {
    var s := "```" + y + "```";
    assert FenceAt(s, 0);
    var u := s[3..];
    assert u == y + "```";
    assert FenceAt(u, |y|);
    forall k | 0 <= k < |y| ensures !FenceAt(u, k) {
      assert u[k] == y[k];
    }
    assert FindFence(u) == Some(|y|);
    assert s[3..3 + |y|] == y && s[3 + |y| + 3..] == [];
    assert ExtractFrom([], 1) == Extraction([], []);
    assert Token(0) + [] == Token(0) && [y] + [] == [y];
  }
}
