/** The inline rules of `mdToHtml` (app.js:169-176): bold, then italic, then code spans, then
    links, each a global replacement scanning left to right. None of these patterns has the
    `m` flag, and `.` does not match a line terminator. */
module Inline {
  import opened Text

  // ---------------------------------------------------------------- bold

  predicate PairAt(u: seq<char>, k: int)
  {
    0 <= k && k + 2 <= |u| && u[k] == '*' && u[k + 1] == '*'
  }

  /** Where the lazy `(.+?)\*\*` stops in `u`, the text after an opening `**`: the first
      `**` that leaves at least one character, all on one line, before it. */
  function BoldClose(u: seq<char>): (r: Option<nat>)
    ensures r.Some? ==> 1 <= r.value && PairAt(u, r.value) && NoTerminator(u[..r.value])
    decreases |u|
  {
    if |u| < 3 || IsLineTerminator(u[0]) then None
    else if PairAt(u, 1) then
      assert u[..1] == [u[0]];
      Some(1)
    else match BoldClose(u[1..])
      case None => None
      case Some(j) =>
        assert u[..j + 1] == [u[0]] + u[1..][..j];
        Some(j + 1)
  }

  /** `BoldClose` finds the first closing pair, and finds none only when every pair has a
      line break before it. */
  lemma {:induction false} BoldCloseSpec(u: seq<char>)
    ensures BoldClose(u).Some? ==> forall k :: 1 <= k < BoldClose(u).value ==> !PairAt(u, k)
    ensures BoldClose(u).None? ==>
      forall k :: 1 <= k && PairAt(u, k) ==> exists i :: 0 <= i < k && IsLineTerminator(u[i])
    decreases |u|
  {
    if |u| < 3 || IsLineTerminator(u[0]) {
      if |u| >= 3 {
        assert forall k :: 1 <= k && PairAt(u, k) ==> 0 < k && IsLineTerminator(u[0]);
      }
    } else if !PairAt(u, 1) {
      BoldCloseSpec(u[1..]);
      assert forall k :: 2 <= k && PairAt(u, k) ==> PairAt(u[1..], k - 1);
      if BoldClose(u[1..]).None? {
        forall k | 1 <= k && PairAt(u, k) ensures exists i :: 0 <= i < k && IsLineTerminator(u[i]) {
          assert PairAt(u[1..], k - 1);
          var i :| 0 <= i < k - 1 && IsLineTerminator(u[1..][i]);
          assert IsLineTerminator(u[i + 1]);
        }
      }
    }
  }

  /** `src.replace(/\*\*(.+?)\*\* /g, "<strong>$1</strong>")`. */
  function BoldPass(s: seq<char>): seq<char>
    decreases |s|
  {
    if s == [] then []
    else if PairAt(s, 0) && BoldClose(s[2..]).Some? then
      var j := BoldClose(s[2..]).value;
      "<strong>" + s[2..2 + j] + "</strong>" + BoldPass(s[2 + j + 2..])
    else [s[0]] + BoldPass(s[1..])
  }

  /** Text without `*` is copied through by the bold pass. */
  lemma {:induction false} BoldSkip(a: seq<char>, y: seq<char>)
    requires '*' !in a
    ensures BoldPass(a + y) == a + BoldPass(y)
    decreases |a|
  {
    if a != [] {
      Uncons(a, y, BoldPass(y));
      BoldSkip(a[1..], y);
    } else {
      assert a + y == y;
    }
  }

  /** `**x**` on one line, with no `*` inside, is bold; the text around it is scanned on
      its own. */
  lemma BoldSpan(a: seq<char>, x: seq<char>, b: seq<char>)
    requires '*' !in a && '*' !in x && x != [] && NoTerminator(x)
    ensures BoldPass(a + "**" + x + "**" + b) == a + "<strong>" + x + "</strong>" + BoldPass(b)
  {
    var t := "**" + x + "**" + b;
    assert a + "**" + x + "**" + b == a + t;
    BoldSkip(a, t);
    BoldAtHead(x, b);
  }

  lemma BoldAtHead(x: seq<char>, b: seq<char>)
    requires '*' !in x && x != [] && NoTerminator(x)
    ensures BoldPass("**" + x + "**" + b) == "<strong>" + x + "</strong>" + BoldPass(b)
  {
    BoldPieces(x, b);
    BoldCloseOf(x, b);
  }

  /** Where the bold text and the rest sit in `**x**b`. */
  lemma BoldPieces(x: seq<char>, b: seq<char>)
    ensures var t := "**" + x + "**" + b;
      t[1..] == "*" + x + "**" + b && t[2..] == x + "**" + b
      && t[2..2 + |x|] == x && t[2 + |x| + 2..] == b
  {
    var t := "**" + x + "**" + b;
    assert t[1..] == "*" + x + "**" + b;
    assert t[2..] == x + "**" + b;
    assert t[2..][..|x|] == x && t[2..][|x| + 2..] == b;
  }

  lemma BoldCloseOf(x: seq<char>, b: seq<char>)
    requires '*' !in x && x != [] && NoTerminator(x)
    ensures BoldClose(x + "**" + b) == Some(|x|)
  {
    var u := x + "**" + b;
    assert PairAt(u, |x|);
    assert u[..|x|] == x;
    assert forall i :: 0 <= i < |x| ==> u[i] == x[i];
    BoldCloseSpec(u);
    var r := BoldClose(u);
    assert r.Some?;
    assert r.value <= |x|;
    assert r.value >= |x| by {
      assert u[r.value] == '*';
    }
  }

  /** A would-be bold span that holds a line break is not bold. */
  lemma BoldStaysOnOneLine(x: seq<char>)
    requires '*' !in x && !NoTerminator(x)
    ensures BoldPass("**" + x + "**") == "**" + x + "**"
  {
    var s := "**" + x + "**";
    DoubleStars(x);
    NoBoldClose(x);
    var v := s[1..];
    assert !PairAt(v, 0);
    BoldSkip(x, "**");
    assert BoldPass("**") == "**" by {
      assert "**"[1..] == "*";
    }
  }

  lemma DoubleStars(x: seq<char>)
    requires x != []
    ensures var s := "**" + x + "**";
      s[0] == '*' && s[1..] == "*" + x + "**" && s[1] == '*' && s[2] == x[0]
      && s[2..] == x + "**" && s[1..][1..] == x + "**"
      && s == [s[0]] + ([s[1]] + (x + "**"))
  {
    var s := "**" + x + "**";
    assert s[1..] == "*" + x + "**";
    assert s[2..] == x + "**";
  }

  /** No bold span closes across a line break. */
  lemma NoBoldClose(x: seq<char>)
    requires '*' !in x && !NoTerminator(x)
    ensures BoldClose(x + "**").None?
  {
    var u := x + "**";
    var i0 :| 0 <= i0 < |x| && IsLineTerminator(x[i0]);
    assert forall k :: 0 <= k < |x| ==> u[k] == x[k];
    forall r | 1 <= r && PairAt(u, r) ensures !NoTerminator(u[..r]) {
      assert r >= |x|;
      assert u[..r][i0] == x[i0];
    }
  }

  // ---------------------------------------------------------------- italic

  /** Where `(?!\*)(.+?)\*` stops in `u`, the text after an opening `*`: the first `*`,
      when the text before it is non-empty and on one line. */
  function ItalicClose(u: seq<char>): (r: Option<nat>)
    ensures r.Some? ==> 1 <= r.value < |u| && u[r.value] == '*'
    ensures r.Some? ==> '*' !in u[..r.value] && NoTerminator(u[..r.value])
    ensures r.None? ==> u == [] || u[0] == '*' || FirstIndex(u, '*').None?
                        || !NoTerminator(u[..FirstIndex(u, '*').value])
  {
    if u == [] || u[0] == '*' then None
    else match FirstIndex(u, '*')
      case None => None
      case Some(j) => if NoTerminator(u[..j]) then Some(j) else None
  }

  /** `src.replace(/(^|[^*])\*(?!\*)(.+?)\* /g, "$1<em>$2</em>")`. `^` is the start of the
      whole text (`atStart`); otherwise the star needs a preceding character other than
      `*`, which the match consumes and writes back. */
  function ItalicPass(s: seq<char>, atStart: bool): seq<char>
    decreases |s|
  {
    if s == [] then []
    else if atStart && s[0] == '*' && ItalicClose(s[1..]).Some? then
      var j := ItalicClose(s[1..]).value;
      "<em>" + s[1..1 + j] + "</em>" + ItalicPass(s[1 + j + 1..], false)
    else if |s| >= 2 && s[0] != '*' && s[1] == '*' && ItalicClose(s[2..]).Some? then
      var j := ItalicClose(s[2..]).value;
      [s[0]] + "<em>" + s[2..2 + j] + "</em>" + ItalicPass(s[2 + j + 1..], false)
    else [s[0]] + ItalicPass(s[1..], false)
  }

  function Italic(s: seq<char>): seq<char>
  {
    ItalicPass(s, true)
  }

  /** The same scan described by the character before each star: a star opens emphasis
      exactly when it is not preceded by a star that the scan has seen. */
  function ItalicPrev(s: seq<char>, prev: Option<char>): seq<char>
    decreases |s|
  {
    if s == [] then []
    else if s[0] == '*' && prev != Some('*') && ItalicClose(s[1..]).Some? then
      var j := ItalicClose(s[1..]).value;
      "<em>" + s[1..1 + j] + "</em>" + ItalicPrev(s[1 + j + 1..], Some('*'))
    else [s[0]] + ItalicPrev(s[1..], Some(s[0]))
  }

  /** A star at the head of `s` that would open emphasis. */
  predicate OpensAt(s: seq<char>)
  {
    s != [] && s[0] == '*' && ItalicClose(s[1..]).Some?
  }

  /** The regular-expression scan and the previous-character description agree: with no
      previous character the scan is at the start of the text, and a previous character
      other than `*` is left behind only where no emphasis opens. */
  lemma {:induction false} ItalicAgree(s: seq<char>, prev: Option<char>)
    requires prev.Some? && prev.value != '*' ==> !OpensAt(s)
    ensures ItalicPass(s, prev.None?) == ItalicPrev(s, prev)
    decreases |s|, 1
  {
    if s == [] {
    } else if prev.None? && OpensAt(s) {
      var j := ItalicClose(s[1..]).value;
      ItalicAgree(s[1 + j + 1..], Some('*'));
    } else if |s| >= 2 && s[0] != '*' && s[1] == '*' && ItalicClose(s[2..]).Some? {
      ItalicAgreeAfter(s, prev);
    } else {
      ItalicAgree(s[1..], Some(s[0]));
    }
  }

  lemma {:induction false} ItalicAgreeAfter(s: seq<char>, prev: Option<char>)
    requires |s| >= 2 && s[0] != '*' && s[1] == '*' && ItalicClose(s[2..]).Some?
    requires !(prev.None? && OpensAt(s))
    ensures ItalicPass(s, prev.None?) == ItalicPrev(s, prev)
    decreases |s|, 0
  {
    var j := ItalicClose(s[2..]).value;
    ItalicAgree(s[2 + j + 1..], Some('*'));
    var t := s[1..];
    assert t[1..] == s[2..] && t[1..1 + j] == s[2..2 + j] && t[1 + j + 1..] == s[2 + j + 1..];
    assert ItalicPrev(t, Some(s[0]))
        == "<em>" + s[2..2 + j] + "</em>" + ItalicPrev(s[2 + j + 1..], Some('*'));
    assert ItalicPrev(s, prev) == [s[0]] + ItalicPrev(t, Some(s[0]));
  }

  lemma ItalicIsPrev(s: seq<char>)
    ensures Italic(s) == ItalicPrev(s, None)
  {
    ItalicAgree(s, None);
  }

  /** Text without `*` is copied through, and becomes the previous character. */
  lemma {:induction false} ItalicSkip(a: seq<char>, y: seq<char>, prev: Option<char>)
    requires a != [] && '*' !in a
    ensures ItalicPrev(a + y, prev) == a + ItalicPrev(y, Some(a[|a| - 1]))
    decreases |a|
  {
    var s := a + y;
    assert s[0] == a[0] && s[1..] == a[1..] + y;
    if |a| == 1 {
      assert a[1..] + y == y;
    } else {
      ItalicSkip(a[1..], y, Some(a[0]));
      assert a[1..][|a[1..]| - 1] == a[|a| - 1];
      assert [a[0]] + a[1..] == a;
    }
  }

  /** Text without `*` comes out of the italic pass unchanged. */
  lemma ItalicNoStar(a: seq<char>, prev: Option<char>)
    requires '*' !in a
    ensures ItalicPrev(a, prev) == a
  {
    if a != [] {
      ItalicSkip(a, [], prev);
      assert a + [] == a;
    }
  }

  /** `*x*` on one line is emphasis, at the start of the text or after a character other
      than `*`; what follows is scanned with the closing star as previous character. */
  lemma ItalicSpan(prev: Option<char>, x: seq<char>, b: seq<char>)
    requires prev != Some('*')
    requires '*' !in x && x != [] && NoTerminator(x)
    ensures ItalicPrev("*" + x + "*" + b, prev) == "<em>" + x + "</em>" + ItalicPrev(b, Some('*'))
  {
    var s := "*" + x + "*" + b;
    Enclosed('*', x, b);
    var u := s[1..];
    FirstIndexAfter(x, '*', b);
    assert u[0] == x[0];
    assert ItalicClose(u) == Some(|x|);
  }

  /** A star before or after another star opens nothing: `**x*` with no star in `x` is left
      as it is, though it ends in a star. */
  lemma StarNextToStarDoesNotOpen(x: seq<char>)
    requires '*' !in x
    ensures Italic("**" + x + "*") == "**" + x + "*"
  {
    var s := "**" + x + "*";
    ItalicIsPrev(s);
    assert ItalicClose(s[1..]).None? by {
      assert s[1..][0] == '*';
    }
    assert ItalicPrev(s, None) == ['*'] + ItalicPrev(s[1..], Some('*'));
    var t := s[1..];
    assert ItalicPrev(t, Some('*')) == ['*'] + ItalicPrev(t[1..], Some('*'));
    assert t[1..] == x + "*";
    if x != [] {
      ItalicSkip(x, "*", Some('*'));
      assert ItalicClose([]).None?;
      assert ItalicPrev("*", Some(x[|x| - 1])) == "*" by {
        assert "*"[1..] == [];
      }
    } else {
      assert t[1..] == "*";
      assert ItalicPrev("*", Some('*')) == "*" by {
        assert "*"[1..] == [];
      }
    }
  }

  /** A would-be emphasis span that holds a line break is left as it is. */
  lemma ItalicStaysOnOneLine(x: seq<char>)
    requires '*' !in x && !NoTerminator(x)
    ensures Italic("*" + x + "*") == "*" + x + "*"
  {
    var s := "*" + x + "*";
    ItalicIsPrev(s);
    var u := s[1..];
    assert u == x + "*";
    assert x != [];
    FirstIndexAfter(x, '*', []);
    assert x + ['*'] + [] == u;
    assert u[..|x|] == x;
    assert ItalicClose(u).None?;
    assert ItalicPrev(s, None) == ['*'] + ItalicPrev(u, Some('*'));
    ItalicSkip(x, "*", Some('*'));
    assert ItalicPrev("*", Some(x[|x| - 1])) == "*" by {
      assert "*"[1..] == [];
    }
  }

  // ---------------------------------------------------------------- code

  /** The end of `([^`]+)` ahead of a closing backtick in `u`: non-empty, may span lines. */
  function CodeClose(u: seq<char>): (r: Option<nat>)
    ensures r.Some? ==> 1 <= r.value < |u| && u[r.value] == '`' && '`' !in u[..r.value]
    ensures r.None? ==> FirstIndex(u, '`') == Some(0) || '`' !in u
  {
    match FirstIndex(u, '`')
    case None => None
    case Some(k) => if k >= 1 then Some(k) else None
  }

  /** ``src.replace(/`([^`]+)`/g, "<code>$1</code>")``. */
  function CodePass(s: seq<char>): seq<char>
    decreases |s|
  {
    if s == [] then []
    else if s[0] == '`' && CodeClose(s[1..]).Some? then
      var k := CodeClose(s[1..]).value;
      "<code>" + s[1..1 + k] + "</code>" + CodePass(s[1 + k + 1..])
    else [s[0]] + CodePass(s[1..])
  }

  lemma {:induction false} CodeSkip(a: seq<char>, y: seq<char>)
    requires '`' !in a
    ensures CodePass(a + y) == a + CodePass(y)
    decreases |a|
  {
    if a != [] {
      Uncons(a, y, CodePass(y));
      CodeSkip(a[1..], y);
    } else {
      assert a + y == y;
    }
  }

  /** A backtick-delimited span is code, line breaks and all. */
  lemma CodeSpan(a: seq<char>, x: seq<char>, b: seq<char>)
    requires '`' !in a && '`' !in x && x != []
    ensures CodePass(a + "`" + x + "`" + b) == a + "<code>" + x + "</code>" + CodePass(b)
  {
    var t := "`" + x + "`" + b;
    Append4(a, "`", x, "`", b);
    CodeSkip(a, t);
    CodeAtHead(x, b);
    Append4(a, "<code>", x, "</code>", CodePass(b));
  }

  lemma CodeAtHead(x: seq<char>, b: seq<char>)
    requires '`' !in x && x != []
    ensures CodePass("`" + x + "`" + b) == "<code>" + x + "</code>" + CodePass(b)
  {
    Enclosed('`', x, b);
    FirstIndexAfter(x, '`', b);
  }

  // ---------------------------------------------------------------- links

  const LinkTail: seq<char> := "\" target=\"_blank\" rel=\"noopener\">"

  /** Lengths of label and target of `\[([^\]]+)\]\(([^)]+)\)` at the head of `s`. */
  function LinkMatch(s: seq<char>): (r: Option<(nat, nat)>)
    ensures r.Some? ==> var (l, t) := r.value;
      1 <= l && 1 <= t && l + t + 4 <= |s| && s[0] == '['
      && s[1 + l] == ']' && s[2 + l] == '(' && s[3 + l + t] == ')'
  {
    if s == [] || s[0] != '[' then None
    else match FirstIndex(s[1..], ']')
      case None => None
      case Some(l) =>
        if l == 0 || 2 + l >= |s| || s[2 + l] != '(' then None
        else match FirstIndex(s[3 + l..], ')')
          case None => None
          case Some(t) =>
            if t == 0 then None
            else Some((l, t))
  }

  /** The label holds no `]` and the target no `)`: the two character classes of the pattern. */
  lemma LinkMatchClasses(s: seq<char>)
    ensures LinkMatch(s).Some? ==> var (l, t) := LinkMatch(s).value;
      ']' !in s[1..1 + l] && ')' !in s[3 + l..3 + l + t]
  {
    if LinkMatch(s).Some? {
      var (l, t) := LinkMatch(s).value;
      assert FirstIndex(s[1..], ']') == Some(l);
      assert s[1..][..l] == s[1..1 + l];
      assert FirstIndex(s[3 + l..], ')') == Some(t);
      assert s[3 + l..][..t] == s[3 + l..3 + l + t];
    }
  }

  /** `src.replace(/\[([^\]]+)\]\(([^)]+)\)/g, '<a href="$2" target="_blank" rel="noopener">$1</a>')`. */
  function LinkPass(s: seq<char>): seq<char>
    decreases |s|
  {
    if s == [] then []
    else if LinkMatch(s).Some? then
      var (l, t) := LinkMatch(s).value;
      "<a href=\"" + s[3 + l..3 + l + t] + LinkTail + s[1..1 + l] + "</a>" + LinkPass(s[4 + l + t..])
    else [s[0]] + LinkPass(s[1..])
  }

  lemma {:induction false} LinkSkip(a: seq<char>, y: seq<char>)
    requires '[' !in a
    ensures LinkPass(a + y) == a + LinkPass(y)
    decreases |a|
  {
    if a != [] {
      Uncons(a, y, LinkPass(y));
      LinkSkip(a[1..], y);
    } else {
      assert a + y == y;
    }
  }

  /** `[l](t)` becomes an anchor whose `href` is exactly `t`, opening in a new tab
      without an opener reference, whose text is `l`. */
  lemma LinkSpan(a: seq<char>, l: seq<char>, t: seq<char>, b: seq<char>)
    requires '[' !in a && ']' !in l && ')' !in t && l != [] && t != []
    ensures LinkPass(a + "[" + l + "](" + t + ")" + b)
         == a + "<a href=\"" + t + "\" target=\"_blank\" rel=\"noopener\">" + l + "</a>" + LinkPass(b)
  {
    var s := "[" + l + "](" + t + ")" + b;
    Append6(a, "[", l, "](", t, ")", b);
    LinkSkip(a, s);
    LinkAtHead(l, t, b);
    Append6(a, "<a href=\"", t, LinkTail, l, "</a>", LinkPass(b));
  }

  /** The target is copied as written, and escaping leaves `"` alone: a quote in the
      target closes the `href` attribute early, and the text after it becomes attributes of
      its own. */
  lemma QuoteLeavesHref(s: seq<char>)
    requires s == "[a](x\" onmouseover=\"y)"
    ensures LinkPass(s) == "<a href=\"" + "x\" onmouseover=\"y" + LinkTail + "a" + "</a>"
  {
    var l, t, b := "a", "x\" onmouseover=\"y", [];
    assert s == "[" + l + "](" + t + ")" + b;
    LinkAtHead(l, t, b);
    assert LinkPass(b) == [];
  }

  lemma LinkAtHead(l: seq<char>, t: seq<char>, b: seq<char>)
    requires ']' !in l && ')' !in t && l != [] && t != []
    ensures LinkPass("[" + l + "](" + t + ")" + b) == "<a href=\"" + t + LinkTail + l + "</a>" + LinkPass(b)
  {
    LinkAtHeadSlices(l, t, b);
    LinkPieces(l, t, b);
    Regroup("<a href=\"", t, LinkTail, l, "</a>", LinkPass(b));
  }

  /** `LinkAtHead` with label, target and rest still read off the text. */
  lemma LinkAtHeadSlices(l: seq<char>, t: seq<char>, b: seq<char>)
    requires ']' !in l && ')' !in t && l != [] && t != []
    ensures var s := "[" + l + "](" + t + ")" + b;
      LinkPass(s) == ("<a href=\"" + s[3 + |l|..3 + |l| + |t|] + LinkTail)
        + (s[1..1 + |l|] + "</a>" + LinkPass(s[4 + |l| + |t|..]))
  {
    LinkMatchOf(l, t, b);
    LinkPassAt("[" + l + "](" + t + ")" + b, |l|, |t|);
  }

  /** One step of the link pass at a match: the anchor's opening tag, then its text and the
      pass over the rest. */
  lemma LinkPassAt(s: seq<char>, l: nat, t: nat)
    requires LinkMatch(s) == Some((l, t))
    ensures LinkPass(s) == ("<a href=\"" + s[3 + l..3 + l + t] + LinkTail) + (s[1..1 + l] + "</a>" + LinkPass(s[4 + l + t..]))
  {
    Regroup("<a href=\"", s[3 + l..3 + l + t], LinkTail, s[1..1 + l], "</a>", LinkPass(s[4 + l + t..]));
  }

  /** Where label, target and rest sit in `[l](t)b`. */
  lemma LinkPieces(l: seq<char>, t: seq<char>, b: seq<char>)
    ensures var s := "[" + l + "](" + t + ")" + b;
      s[1..1 + |l|] == l && s[3 + |l|..3 + |l| + |t|] == t && s[4 + |l| + |t|..] == b
  {
    var s := "[" + l + "](" + t + ")" + b;
    var u := s[1 + |l|..];
    assert s == "[" + l + u;
    assert u == "](" + t + ")" + b;
    assert s[1..1 + |l|] == l;
    assert u[2..2 + |t|] == t && u[3 + |t|..] == b;
  }

  lemma LinkMatchOf(l: seq<char>, t: seq<char>, b: seq<char>)
    requires ']' !in l && ')' !in t && l != [] && t != []
    ensures LinkMatch("[" + l + "](" + t + ")" + b) == Some((|l|, |t|))
  {
    var s := "[" + l + "](" + t + ")" + b;
    var u := s[1..];
    assert u == l + [']'] + ("(" + t + ")" + b);
    FirstIndexAfter(l, ']', "(" + t + ")" + b);
    assert s[2 + |l|] == '(';
    var v := s[3 + |l|..];
    assert v == t + [')'] + b;
    FirstIndexAfter(t, ')', b);
  }

  // ---------------------------------------------------------------- the stage

  /** The four inline replacements of app.js:170-176, in the source's order. */
  function Inlines(s: seq<char>): seq<char>
  {
    LinkPass(CodePass(Italic(BoldPass(s))))
  }

  /** `**x**` is made bold before the italic rule runs, so the italic rule finds no star
      left in it. */
  lemma BoldBeforeItalic(x: seq<char>)
    requires '*' !in x && x != [] && NoTerminator(x)
    ensures Italic(BoldPass("**" + x + "**")) == "<strong>" + x + "</strong>"
  {
    BoldAlone(x);
    StrongHoldsNoStar(x);
    ItalicIsPrev("<strong>" + x + "</strong>");
    ItalicNoStar("<strong>" + x + "</strong>", None);
  }

  lemma BoldAlone(x: seq<char>)
    requires '*' !in x && x != [] && NoTerminator(x)
    ensures BoldPass("**" + x + "**") == "<strong>" + x + "</strong>"
  {
    BoldAtHead(x, []);
    assert "**" + x + "**" + [] == "**" + x + "**";
    assert BoldPass([]) == [];
  }

  lemma StrongHoldsNoStar(x: seq<char>)
    requires '*' !in x
    ensures '*' !in "<strong>" + x + "</strong>"
  {
  }

  /** A code span does not protect the emphasis rules: the bold rule has already run when
      code spans are recognised, so `` `**x**` `` is code holding bold text. */
  lemma BackticksDoNotProtectBold(x: seq<char>)
    requires '*' !in x && '`' !in x && '[' !in x && x != [] && NoTerminator(x)
    ensures Inlines("`" + "**" + x + "**" + "`") == "<code>" + ("<strong>" + x + "</strong>") + "</code>"
  {
    var inner := "<strong>" + x + "</strong>";
    var c := "<code>" + inner + "</code>";
    CodeOfBoldInBackticks(x);
    assert '[' !in inner;
    LinkLeavesWrapped("<code>", inner, "</code>");
    assert Inlines("`" + "**" + x + "**" + "`") == LinkPass(c);
  }

  lemma CodeOfBoldInBackticks(x: seq<char>)
    requires '*' !in x && '`' !in x && x != [] && NoTerminator(x)
    ensures CodePass(Italic(BoldPass("`" + "**" + x + "**" + "`"))) == "<code>" + ("<strong>" + x + "</strong>") + "</code>"
  {
    var inner := "<strong>" + x + "</strong>";
    assert '`' !in inner;
    EmphasisInBackticks(x);
    CodeAtHead(inner, []);
    assert "`" + inner + "`" + [] == "`" + inner + "`";
    var c := "<code>" + inner + "</code>";
    assert c + [] == c;
  }

  lemma EmphasisInBackticks(x: seq<char>)
    requires '*' !in x && x != [] && NoTerminator(x)
    ensures Italic(BoldPass("`" + "**" + x + "**" + "`")) == "`" + ("<strong>" + x + "</strong>") + "`"
  {
    var inner := "<strong>" + x + "</strong>";
    var b := "`" + inner + "`";
    BoldInBackticks(x);
    ItalicIsPrev(b);
    StrongHoldsNoStar(x);
    ItalicNoStar(b, None);
  }

  lemma BoldInBackticks(x: seq<char>)
    requires '*' !in x && x != [] && NoTerminator(x)
    ensures BoldPass("`" + "**" + x + "**" + "`") == "`" + ("<strong>" + x + "</strong>") + "`"
  {
    var inner := "<strong>" + x + "</strong>";
    BoldSpan("`", x, "`");
    assert BoldPass("`") == "`" by {
      assert "`"[1..] == [];
    }
    Append4("`", "<strong>", x, "</strong>", "`");
    Assoc("`", inner, "`");
  }

  lemma LinkLeavesWrapped(a: seq<char>, x: seq<char>, b: seq<char>)
    requires '[' !in a && '[' !in x && '[' !in b
    ensures LinkPass(a + x + b) == a + x + b
  {
    var c := a + x + b;
    assert '[' !in c;
    LinkSkip(c, []);
    assert c + [] == c;
  }
}
