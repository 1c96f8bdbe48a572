/** The line-based rules of `mdToHtml`: headings (app.js:153-159), horizontal rules
    (app.js:160) and bullet lists (app.js:161-168). Each regular expression carries the `m`
    flag, so `^` holds at the start of the text and after every line terminator of the text
    being rewritten; each scanner carries that fact as `bol` ("beginning of line"). */
module BlockRules {
  import opened Text

  // ---------------------------------------------------------------- headings

  /** `n` number signs start `s`. */
  predicate HashesAt(s: seq<char>, n: nat)
  {
    n <= |s| && forall k :: 0 <= k < n ==> s[k] == '#'
  }

  function Hashes(n: nat): (r: seq<char>)
    ensures |r| == n && HashesAt(r, n)
  {
    seq(n, _ => '#')
  }

  function LevelDigit(n: nat): char
    requires 1 <= n <= 6
  {
    ('0' as int + n) as char
  }

  function HeadOpen(n: nat): seq<char>
    requires 1 <= n <= 6
  {
    "<h" + [LevelDigit(n)] + ">"
  }

  function HeadClose(n: nat): seq<char>
    requires 1 <= n <= 6
  {
    "</h" + [LevelDigit(n)] + ">"
  }

  /** `src.replace(/^#{n}\s+(.*)$/gm, "<hn>$1</hn>")`. The greedy `\s+` may run over line
      breaks; `(.*)` then takes the rest of the line, and `$` always holds after it. */
  function HeadingPass(n: nat, s: seq<char>, bol: bool): seq<char>
    requires 1 <= n <= 6
    decreases |s|
  {
    if s == [] then []
    else if bol && s[0] == '#' && HashesAt(s, n) && SpaceRun(s[n..]) >= 1 then
      var t := s[n + SpaceRun(s[n..])..];
      var r := LineLen(t);
      HeadOpen(n) + t[..r] + HeadClose(n) + HeadingPass(n, t[r..], false)
    else [s[0]] + HeadingPass(n, s[1..], IsLineTerminator(s[0]))
  }

  /** The six heading replacements of app.js:154-159, longest run of `#` first. */
  function Headings(s: seq<char>): seq<char>
  {
    var h6 := HeadingPass(6, s, true);
    var h5 := HeadingPass(5, h6, true);
    var h4 := HeadingPass(4, h5, true);
    var h3 := HeadingPass(3, h4, true);
    var h2 := HeadingPass(2, h3, true);
    HeadingPass(1, h2, true)
  }

  /** A pass leaves one line alone when it does not begin with a heading marker. */
  lemma {:induction false} PassSkipsLine(n: nat, x: seq<char>, bol: bool)
    requires 1 <= n <= 6 && NoTerminator(x)
    requires bol && x != [] ==> !(HashesAt(x, n) && SpaceRun(x[n..]) >= 1)
    ensures HeadingPass(n, x, bol) == x
    decreases |x|
  {
    if x != [] {
      PassSkipsLine(n, x[1..], false);
      assert x == [x[0]] + x[1..];
    }
  }

  /** One character is copied when no heading starts at it. */
  lemma StepPlain(n: nat, s: seq<char>, bol: bool)
    requires 1 <= n <= 6 && s != []
    requires !(bol && HashesAt(s, n) && SpaceRun(s[n..]) >= 1)
    ensures HeadingPass(n, s, bol) == [s[0]] + HeadingPass(n, s[1..], IsLineTerminator(s[0]))
  {
  }

  /** Whitespace is copied through, and `bol` follows its last character. */
  lemma {:induction false} PassOverSpaces(n: nat, w: seq<char>, y: seq<char>, bol: bool)
    requires 1 <= n <= 6 && |w| >= 1 && AllSpace(w)
    ensures HeadingPass(n, w + y, bol) == w + HeadingPass(n, y, IsLineTerminator(w[|w| - 1]))
    decreases |w|
  {
    var s := w + y;
    assert s[0] == w[0] && s[1..] == w[1..] + y;
    assert !HashesAt(s, n) by { assert IsSpace(s[0]); }
    StepPlain(n, s, bol);
    if |w| == 1 {
      assert w[1..] + y == y;
    } else {
      PassOverSpaces(n, w[1..], y, IsLineTerminator(w[0]));
      assert w[1..][|w[1..]| - 1] == w[|w| - 1];
      assert [w[0]] + w[1..] == w;
    }
  }

  /** Characters that are not line terminators, away from a line start, are copied through. */
  lemma {:induction false} PassOverText(n: nat, x: seq<char>, y: seq<char>)
    requires 1 <= n <= 6 && NoTerminator(x)
    ensures HeadingPass(n, x + y, false) == x + HeadingPass(n, y, false)
    decreases |x|
  {
    if x != [] {
      var s := x + y;
      Uncons(x, y, HeadingPass(n, y, false));
      StepPlain(n, s, false);
      PassOverText(n, x[1..], y);
    } else {
      assert x + y == y;
    }
  }

  /** Composes the six passes when the level-`n` pass alone rewrites `s` into `out`. */
  lemma HeadingsVia(n: nat, s: seq<char>, out: seq<char>)
    requires 1 <= n <= 6
    requires forall m :: n < m <= 6 ==> HeadingPass(m, s, true) == s
    requires HeadingPass(n, s, true) == out
    requires forall m :: 1 <= m < n ==> HeadingPass(m, out, true) == out
    ensures Headings(s) == out
  {
    if n == 6 {
      assert HeadingPass(5, out, true) == out;
    } else if n == 5 {
      assert HeadingPass(6, s, true) == s;
    } else if n == 4 {
      assert HeadingPass(6, s, true) == s && HeadingPass(5, s, true) == s;
    } else if n == 3 {
      assert HeadingPass(6, s, true) == s && HeadingPass(5, s, true) == s && HeadingPass(4, s, true) == s;
    } else if n == 2 {
      assert HeadingPass(6, s, true) == s && HeadingPass(5, s, true) == s && HeadingPass(4, s, true) == s;
      assert HeadingPass(3, s, true) == s;
    } else {
      assert HeadingPass(6, s, true) == s && HeadingPass(5, s, true) == s && HeadingPass(4, s, true) == s;
      assert HeadingPass(3, s, true) == s && HeadingPass(2, s, true) == s;
    }
  }

  /** A line of exactly `n` number signs (1 <= n <= 6), whitespace, then text becomes a
      level-`n` heading. The whitespace may include line breaks, as `\s` does; when it does,
      the text must not itself start with `#`, or the longer patterns tried before would have
      claimed it. */
  lemma HeadingLine(n: nat, w: seq<char>, rest: seq<char>)
    requires 1 <= n <= 6
    requires |w| >= 1 && AllSpace(w)
    requires NoTerminator(rest) && (rest == [] || !IsSpace(rest[0]))
    requires rest != [] && rest[0] == '#' ==> NoTerminator(w)
    ensures Headings(Hashes(n) + w + rest) == HeadOpen(n) + rest + HeadClose(n)
  {
    var s := Hashes(n) + w + rest;
    var out := HeadOpen(n) + rest + HeadClose(n);
    forall m | n < m <= 6 ensures HeadingPass(m, s, true) == s {
      LongerPassSkips(m, n, w, rest);
    }
    OwnPass(n, w, rest);
    forall m | 1 <= m < n ensures HeadingPass(m, out, true) == out {
      ShorterPassSkips(m, n, rest);
    }
    HeadingsVia(n, s, out);
  }

  /** The level-`n` pass rewrites the line. */
  lemma OwnPass(n: nat, w: seq<char>, rest: seq<char>)
    requires 1 <= n <= 6
    requires |w| >= 1 && AllSpace(w)
    requires NoTerminator(rest) && (rest == [] || !IsSpace(rest[0]))
    ensures HeadingPass(n, Hashes(n) + w + rest, true) == HeadOpen(n) + rest + HeadClose(n)
  {
    var s := Hashes(n) + w + rest;
    assert s[n..] == w + rest;
    SpaceRunPrefix(w, rest);
    assert s[n + |w|..] == rest;
    assert rest[..|rest|] == rest && rest[|rest|..] == [];
  }

  /** The passes for shorter markers, which run after, do not touch the heading. */
  lemma ShorterPassSkips(m: nat, n: nat, rest: seq<char>)
    requires 1 <= m < n <= 6 && NoTerminator(rest)
    ensures HeadingPass(m, HeadOpen(n) + rest + HeadClose(n), true) == HeadOpen(n) + rest + HeadClose(n)
  {
    var out := HeadOpen(n) + rest + HeadClose(n);
    NoTerminatorCat(HeadOpen(n), rest);
    NoTerminatorCat(HeadOpen(n) + rest, HeadClose(n));
    assert out[0] == '<';
    PassSkipsLine(m, out, true);
  }


  lemma {:induction false} SpaceRunPrefix(w: seq<char>, y: seq<char>)
    requires AllSpace(w) && (y == [] || !IsSpace(y[0]))
    ensures SpaceRun(w + y) == |w|
    decreases |w|
  {
    if w != [] {
      assert (w + y)[1..] == w[1..] + y;
      SpaceRunPrefix(w[1..], y);
    } else {
      assert w + y == y;
    }
  }

  /** The passes for longer markers, which run first, do not touch a shorter heading line. */
  lemma LongerPassSkips(m: nat, n: nat, w: seq<char>, rest: seq<char>)
    requires 1 <= n < m <= 6
    requires |w| >= 1 && AllSpace(w)
    requires NoTerminator(rest)
    requires rest != [] && rest[0] == '#' ==> NoTerminator(w)
    ensures HeadingPass(m, Hashes(n) + w + rest, true) == Hashes(n) + w + rest
  {
    var y := w + rest;
    Assoc(Hashes(n), w, rest);
    HashHead(m, n, y);
    HashesCons(n);
    PassOverText(m, Hashes(n - 1), y);
    PassOverSpaces(m, w, rest, false);
    var bol := IsLineTerminator(w[|w| - 1]);
    if bol {
      assert !NoTerminator(w);
    }
    PassSkipsLine(m, rest, bol);
    Assoc(['#'], Hashes(n - 1), y);
  }

  lemma HashesCons(n: nat)
    requires n >= 1
    ensures Hashes(n) == ['#'] + Hashes(n - 1) && NoTerminator(Hashes(n - 1))
  {
  }

  /** Fewer than `m` number signs: the level-`m` pass copies the first one. */
  lemma HashHead(m: nat, n: nat, y: seq<char>)
    requires 1 <= n < m <= 6 && y != [] && y[0] != '#'
    ensures HeadingPass(m, Hashes(n) + y, true) == ['#'] + HeadingPass(m, Hashes(n - 1) + y, false)
  {
    var s := Hashes(n) + y;
    assert s[n] == y[0];
    HashesCons(n);
    Uncons(Hashes(n), y, []);
    StepPlain(m, s, true);
  }

  /** Seven or more number signs make no heading: such a line is left alone. */
  lemma SevenHashesIsNoHeading(k: nat, x: seq<char>)
    requires k >= 7 && NoTerminator(x)
    ensures Headings(Hashes(k) + x) == Hashes(k) + x
  {
    var s := Hashes(k) + x;
    assert NoTerminator(s);
    forall m | 1 <= m <= 6 ensures HeadingPass(m, s, true) == s {
      assert s[m] == '#' && s[m..][0] == '#';
      PassSkipsLine(m, s, true);
    }
  }

  // ---------------------------------------------------------------- headings among other lines

  /** The passes of levels `m` down to 1, in the order `Headings` applies them. */
  function Down(m: nat, s: seq<char>): seq<char>
    requires m <= 6
  {
    if m == 0 then s else Down(m - 1, HeadingPass(m, s, true))
  }

  lemma HeadingsDown(s: seq<char>)
    ensures Headings(s) == Down(6, s)
  {
    var h6 := HeadingPass(6, s, true);
    var h5 := HeadingPass(5, h6, true);
    var h4 := HeadingPass(4, h5, true);
    var h3 := HeadingPass(3, h4, true);
    var h2 := HeadingPass(2, h3, true);
    assert Down(1, h2) == Down(0, HeadingPass(1, h2, true));
    assert Down(2, h3) == Down(1, h2);
    assert Down(3, h4) == Down(2, h3);
    assert Down(4, h5) == Down(3, h4);
    assert Down(5, h6) == Down(4, h5);
  }

  /** Some `#` of `x` is followed by whitespace alone. */
  predicate HashThenBlank(x: seq<char>)
  {
    exists k | 0 <= k < |x| :: x[k] == '#' && AllSpace(x[k + 1..])
  }

  /** A text the heading passes finish within: it is empty, or it ends with a line terminator
      and none of its `#` is followed by whitespace alone, so no `#{n}\s+` of it can run on
      past its end. */
  predicate Closed(x: seq<char>)
  {
    x == [] || (IsLineTerminator(x[|x| - 1]) && !HashThenBlank(x))
  }

  /** `q` is empty or starts with a line terminator. */
  predicate AtLineEnd(q: seq<char>)
  {
    q == [] || IsLineTerminator(q[0])
  }

  lemma AllSpaceParts(x: seq<char>, y: seq<char>)
    ensures AllSpace(x + y) ==> AllSpace(x) && AllSpace(y)
  {
    if AllSpace(x + y) {
      assert forall k :: 0 <= k < |x| ==> x[k] == (x + y)[k];
      assert forall k :: 0 <= k < |y| ==> y[k] == (x + y)[|x| + k];
    }
  }

  lemma ClosedSuffix(x: seq<char>, i: nat)
    requires Closed(x) && i < |x|
    ensures Closed(x[i..])
  {
    var z := x[i..];
    assert z[|z| - 1] == x[|x| - 1];
    forall k | 0 <= k < |z| && z[k] == '#' ensures !AllSpace(z[k + 1..]) {
      assert z[k + 1..] == x[i + k + 1..];
      assert x[i + k] == '#';
    }
  }

  lemma HashThenBlankCat(a: seq<char>, b: seq<char>)
    requires !HashThenBlank(b) && (AllSpace(b) ==> !HashThenBlank(a))
    ensures !HashThenBlank(a + b)
  {
    var s := a + b;
    forall k | 0 <= k < |s| && s[k] == '#' ensures !AllSpace(s[k + 1..]) {
      if k < |a| {
        assert s[k + 1..] == a[k + 1..] + b;
        assert a[k] == '#';
        AllSpaceParts(a[k + 1..], b);
      } else {
        assert s[k + 1..] == b[k - |a| + 1..];
        assert b[k - |a|] == '#';
      }
    }
  }

  /** A text ending in a character that is neither whitespace nor `#` has no `#` followed by
      whitespace alone. */
  lemma InkAtEnd(x: seq<char>)
    requires x != [] && !IsSpace(x[|x| - 1]) && x[|x| - 1] != '#'
    ensures !HashThenBlank(x)
  {
    forall k | 0 <= k < |x| && x[k] == '#' ensures !AllSpace(x[k + 1..]) {
      assert x[k + 1..][|x| - k - 2] == x[|x| - 1];
    }
  }

  lemma {:induction false} SpaceRunCat(x: seq<char>, y: seq<char>)
    requires !AllSpace(x)
    ensures SpaceRun(x + y) == SpaceRun(x) < |x|
    decreases |x|
  {
    if IsSpace(x[0]) {
      assert (x + y)[1..] == x[1..] + y;
      SpaceRunCat(x[1..], y);
    }
  }

  lemma {:induction false} LineLenCat(x: seq<char>, y: seq<char>)
    requires !NoTerminator(x)
    ensures LineLen(x + y) == LineLen(x) < |x|
    decreases |x|
  {
    if !IsLineTerminator(x[0]) {
      assert (x + y)[1..] == x[1..] + y;
      LineLenCat(x[1..], y);
    }
  }

  /** A heading marker that starts inside a closed text ends inside it: the parts named here
      are the same whether or not `y` follows. */
  lemma MatchInside(n: nat, pre: seq<char>, y: seq<char>) returns (k: nat, r: nat)
    requires 1 <= n <= 6 && Closed(pre) && pre != []
    requires HashesAt(pre + y, n) && SpaceRun((pre + y)[n..]) >= 1
    ensures n + k + r < |pre| && HashesAt(pre, n) && k >= 1
    ensures SpaceRun(pre[n..]) == k && SpaceRun((pre + y)[n..]) == k
    ensures LineLen(pre[n + k..]) == r && LineLen((pre + y)[n + k..]) == r
    ensures (pre + y)[n + k..][..r] == pre[n + k..][..r]
    ensures (pre + y)[n + k..][r..] == pre[n + k + r..] + y && pre[n + k..][r..] == pre[n + k + r..]
  {
    k := MarkerInside(n, pre, y);
    var t := pre[n + k..];
    assert (pre + y)[n + k..] == t + y;
    assert t[|t| - 1] == pre[|pre| - 1];
    LineLenCat(t, y);
    r := LineLen(t);
    DropCat(t, y, r);
  }

  /** The `#{n}\s+` of a marker inside a closed text. */
  lemma MarkerInside(n: nat, pre: seq<char>, y: seq<char>) returns (k: nat)
    requires 1 <= n <= 6 && Closed(pre) && pre != []
    requires HashesAt(pre + y, n) && SpaceRun((pre + y)[n..]) >= 1
    ensures n + k < |pre| && HashesAt(pre, n) && k >= 1
    ensures SpaceRun(pre[n..]) == k && SpaceRun((pre + y)[n..]) == k
  {
    var s := pre + y;
    assert s[|pre| - 1] == pre[|pre| - 1];
    assert n < |pre|;
    assert HashesAt(pre, n) by {
      forall i | 0 <= i < n ensures pre[i] == '#' {
        assert s[i] == pre[i];
      }
    }
    var x := pre[n..];
    assert s[n..] == x + y;
    assert pre[n - 1] == '#';
    assert !AllSpace(x);
    SpaceRunCat(x, y);
    k := SpaceRun(x);
  }

  /** A heading pass works on a closed text and on what follows it separately, and leaves
      the closed text closed. */
  lemma {:induction false} PassSplit(n: nat, pre: seq<char>, y: seq<char>, bol: bool)
    requires 1 <= n <= 6 && Closed(pre) && (pre == [] ==> bol)
    ensures HeadingPass(n, pre + y, bol) == HeadingPass(n, pre, bol) + HeadingPass(n, y, true)
    ensures Closed(HeadingPass(n, pre, bol)) && (pre != [] ==> HeadingPass(n, pre, bol) != [])
    ensures AllSpace(HeadingPass(n, pre, bol)) ==> AllSpace(pre)
    decreases |pre|, 1
  {
    if pre == [] {
      assert pre + y == y;
    } else if bol && HashesAt(pre + y, n) && SpaceRun((pre + y)[n..]) >= 1 {
      PassSplitMatch(n, pre, y);
    } else {
      PassSplitPlain(n, pre, y, bol);
    }
  }

  lemma {:induction false} PassSplitMatch(n: nat, pre: seq<char>, y: seq<char>)
    requires 1 <= n <= 6 && Closed(pre) && pre != []
    requires HashesAt(pre + y, n) && SpaceRun((pre + y)[n..]) >= 1
    ensures HeadingPass(n, pre + y, true) == HeadingPass(n, pre, true) + HeadingPass(n, y, true)
    ensures Closed(HeadingPass(n, pre, true)) && !AllSpace(HeadingPass(n, pre, true))
    ensures HeadingPass(n, pre, true) != []
    decreases |pre|, 0
  {
    var k, r := MatchInside(n, pre, y);
    var rem := pre[n + k + r..];
    ClosedSuffix(pre, n + k + r);
    PassSplit(n, rem, y, false);
    var x := pre[n + k..][..r];
    var h := HeadOpen(n) + x + HeadClose(n);
    var o := HeadingPass(n, rem, false);
    assert pre[0] == '#' && (pre + y)[0] == '#';
    StepMatch(n, pre, k, r, x, rem);
    StepMatch(n, pre + y, k, r, x, rem + y);
    Assoc(h, o, HeadingPass(n, y, true));
    assert h[0] == '<' && h[|h| - 1] == '>';
    TagThenClosed(h, o);
  }

  /** A tag followed by a closed, non-empty text is closed and not blank. */
  lemma TagThenClosed(h: seq<char>, o: seq<char>)
    requires h != [] && h[0] == '<' && h[|h| - 1] == '>' && Closed(o) && o != []
    ensures Closed(h + o) && !AllSpace(h + o) && h + o != []
  {
    InkAtEnd(h);
    HashThenBlankCat(h, o);
    assert (h + o)[0] == '<';
    assert (h + o)[|h + o| - 1] == o[|o| - 1];
  }

  lemma {:induction false} PassSplitPlain(n: nat, pre: seq<char>, y: seq<char>, bol: bool)
    requires 1 <= n <= 6 && Closed(pre) && pre != []
    requires !(bol && HashesAt(pre + y, n) && SpaceRun((pre + y)[n..]) >= 1)
    ensures HeadingPass(n, pre + y, bol) == HeadingPass(n, pre, bol) + HeadingPass(n, y, true)
    ensures Closed(HeadingPass(n, pre, bol)) && HeadingPass(n, pre, bol) != []
    ensures AllSpace(HeadingPass(n, pre, bol)) ==> AllSpace(pre)
    decreases |pre|, 0
  {
    if |pre| == 1 {
      PassSplitBreak(n, pre, y, bol);
    } else {
      Uncons(pre, y, []);
      PrefixNoHeading(n, pre, y);
      StepPlain(n, pre + y, bol);
      StepPlain(n, pre, bol);
      var b := IsLineTerminator(pre[0]);
      ClosedSuffix(pre, 1);
      PassSplit(n, pre[1..], y, b);
      var o := HeadingPass(n, pre[1..], b);
      Assoc([pre[0]], o, HeadingPass(n, y, true));
      ClosedCons(pre, o);
    }
  }

  /** A closed text of one character is a line break: it is copied, and a line starts
      after it. */
  lemma PassSplitBreak(n: nat, pre: seq<char>, y: seq<char>, bol: bool)
    requires 1 <= n <= 6 && Closed(pre) && |pre| == 1
    ensures HeadingPass(n, pre + y, bol) == HeadingPass(n, pre, bol) + HeadingPass(n, y, true)
    ensures Closed(HeadingPass(n, pre, bol)) && HeadingPass(n, pre, bol) != []
    ensures AllSpace(HeadingPass(n, pre, bol)) ==> AllSpace(pre)
  {
    Uncons(pre, y, []);
    assert pre[1..] == [] && pre[1..] + y == y;
    assert IsLineTerminator(pre[0]) && (pre + y)[0] != '#';
    StepPlain(n, pre + y, bol);
    StepPlain(n, pre, bol);
    assert HeadingPass(n, pre, bol) == pre;
  }

  /** The heading test of the first position in `pre + y` sees only `pre`. */
  lemma PrefixNoHeading(n: nat, pre: seq<char>, y: seq<char>)
    requires 1 <= n <= 6
    ensures HashesAt(pre, n) && SpaceRun(pre[n..]) >= 1 ==>
      HashesAt(pre + y, n) && SpaceRun((pre + y)[n..]) >= 1
  {
    if HashesAt(pre, n) && SpaceRun(pre[n..]) >= 1 {
      assert (pre + y)[n..][0] == pre[n..][0];
      assert forall i :: 0 <= i < n ==> (pre + y)[i] == pre[i];
    }
  }

  lemma ClosedCons(pre: seq<char>, o: seq<char>)
    requires Closed(pre) && |pre| >= 2 && Closed(o) && o != []
    requires AllSpace(o) ==> AllSpace(pre[1..])
    ensures Closed([pre[0]] + o) && (AllSpace([pre[0]] + o) ==> AllSpace(pre))
  {
    var z := [pre[0]] + o;
    assert z[|z| - 1] == o[|o| - 1];
    if AllSpace(o) {
      assert pre[0 + 1..] == pre[1..];
      assert pre[0] != '#';
    }
    HashThenBlankCat([pre[0]], o);
    if AllSpace(z) {
      assert IsSpace(z[0]);
      assert AllSpace(o) by {
        assert forall i :: 0 <= i < |o| ==> o[i] == z[i + 1];
      }
      assert forall i :: 1 <= i < |pre| ==> pre[i] == pre[1..][i - 1];
    }
  }

  lemma {:induction false} DownSplit(m: nat, pre: seq<char>, y: seq<char>)
    requires m <= 6 && Closed(pre)
    ensures Down(m, pre + y) == Down(m, pre) + Down(m, y)
    decreases m
  {
    if m > 0 {
      PassSplit(m, pre, y, true);
      DownSplit(m - 1, HeadingPass(m, pre, true), HeadingPass(m, y, true));
    }
  }

  /** The heading rules rewrite a closed text and the text after it independently. */
  lemma HeadingsSplit(pre: seq<char>, y: seq<char>)
    requires Closed(pre)
    ensures Headings(pre + y) == Headings(pre) + Headings(y)
  {
    HeadingsDown(pre + y);
    HeadingsDown(pre);
    HeadingsDown(y);
    DownSplit(6, pre, y);
  }

  /** At a line end a pass does the same whether or not a line starts there, and what it
      makes starts at a line end again. */
  lemma LineEndPass(m: nat, q: seq<char>, bol: bool)
    requires 1 <= m <= 6 && AtLineEnd(q)
    ensures HeadingPass(m, q, bol) == HeadingPass(m, q, true)
    ensures AtLineEnd(HeadingPass(m, q, true))
  {
    if q != [] {
      StepPlain(m, q, bol);
      StepPlain(m, q, true);
    }
  }

  /** A line whose start is no level-`m` heading marker is copied, and the pass goes on at
      the line end after it. */
  lemma CopyLine(m: nat, x: seq<char>, q: seq<char>, bol: bool)
    requires 1 <= m <= 6 && x != [] && NoTerminator(x)
    requires !(bol && HashesAt(x + q, m) && SpaceRun((x + q)[m..]) >= 1)
    ensures HeadingPass(m, x + q, bol) == x + HeadingPass(m, q, false)
  {
    Uncons(x, q, HeadingPass(m, q, false));
    StepPlain(m, x + q, bol);
    PassOverText(m, x[1..], q);
  }

  /** The level-`n` pass rewrites a heading line that a line end follows. */
  lemma OwnPassThen(n: nat, w: seq<char>, rest: seq<char>, q: seq<char>)
    requires 1 <= n <= 6 && |w| >= 1 && AllSpace(w)
    requires NoTerminator(rest) && rest != [] && !IsSpace(rest[0]) && AtLineEnd(q)
    ensures HeadingPass(n, Hashes(n) + w + rest + q, true)
         == HeadOpen(n) + rest + HeadClose(n) + HeadingPass(n, q, false)
  {
    HeadingLineParts(n, w, rest, q);
    StepMatch(n, Hashes(n) + w + rest + q, |w|, |rest|, rest, q);
  }

  /** The parts of a heading line that a line end follows, as the level-`n` pass sees them. */
  lemma HeadingLineParts(n: nat, w: seq<char>, rest: seq<char>, q: seq<char>)
    requires 1 <= n <= 6 && |w| >= 1 && AllSpace(w)
    requires NoTerminator(rest) && rest != [] && !IsSpace(rest[0]) && AtLineEnd(q)
    ensures var s := Hashes(n) + w + rest + q;
      s != [] && s[0] == '#' && HashesAt(s, n) && SpaceRun(s[n..]) == |w|
      && LineLen(s[n + |w|..]) == |rest| && s[n + |w|..][..|rest|] == rest
      && s[n + |w|..][|rest|..] == q
  {
    var t := rest + q;
    var s := Hashes(n) + (w + t);
    assert Hashes(n) + w + rest + q == s;
    assert s[n..] == w + t;
    SpaceRunPrefix(w, t);
    assert s[n + |w|..] == t;
    LineLenOfLine(rest, q);
    assert t[..|rest|] == rest && t[|rest|..] == q;
  }

  /** The rewriting step at a heading marker, with the parts of the match named. */
  lemma StepMatch(n: nat, s: seq<char>, k: nat, r: nat, x: seq<char>, q: seq<char>)
    requires 1 <= n <= 6 && s != [] && s[0] == '#' && HashesAt(s, n)
    requires SpaceRun(s[n..]) == k >= 1 && LineLen(s[n + k..]) == r
    requires s[n + k..][..r] == x && s[n + k..][r..] == q
    ensures HeadingPass(n, s, true) == HeadOpen(n) + x + HeadClose(n) + HeadingPass(n, q, false)
  {
  }

  lemma LineLenOfLine(x: seq<char>, q: seq<char>)
    requires NoTerminator(x) && AtLineEnd(q)
    ensures LineLen(x + q) == |x|
  {
    var z := x + q;
    assert forall i :: 0 <= i < |x| ==> z[i] == x[i];
    if q != [] {
      assert z[|x|] == q[0];
    }
  }

  /** Each pass over a heading line of level `n` followed by the text `q` from the next line
      end on: passes above `n` copy the line, pass `n` makes it the heading, passes below `n`
      copy the heading, and `q` goes through them all on its own. */
  lemma {:induction false} DownLine(m: nat, n: nat, w: seq<char>, rest: seq<char>, q: seq<char>)
    requires m <= 6 && 1 <= n <= 6 && |w| >= 1 && AllSpace(w) && NoTerminator(w)
    requires NoTerminator(rest) && rest != [] && !IsSpace(rest[0]) && AtLineEnd(q)
    ensures Down(m, (if m >= n then Hashes(n) + w + rest else HeadOpen(n) + rest + HeadClose(n)) + q)
         == HeadOpen(n) + rest + HeadClose(n) + Down(m, q)
    decreases m
  {
    var line := Hashes(n) + w + rest;
    var h := HeadOpen(n) + rest + HeadClose(n);
    if m > 0 {
      LineEndPass(m, q, false);
      var q' := HeadingPass(m, q, true);
      if m > n {
        assert (line + q)[n] == w[0];
        HashesCons(n);
        NoTerminatorCat(Hashes(n), w);
        NoTerminatorCat(Hashes(n) + w, rest);
        CopyLine(m, line, q, true);
      } else if m == n {
        OwnPassThen(n, w, rest, q);
      } else {
        assert (h + q)[0] == '<';
        NoTerminatorCat(HeadOpen(n), rest);
        NoTerminatorCat(HeadOpen(n) + rest, HeadClose(n));
        CopyLine(m, h, q, true);
      }
      DownLine(m - 1, n, w, rest, q');
    }
  }

  /** A heading line between a closed text and a text that starts at a line end is rewritten
      on its own, and the texts around it are rewritten as if it were not there. */
  lemma HeadingAmongLines(pre: seq<char>, n: nat, w: seq<char>, rest: seq<char>, post: seq<char>)
    requires Closed(pre) && 1 <= n <= 6
    requires |w| >= 1 && AllSpace(w) && NoTerminator(w)
    requires NoTerminator(rest) && rest != [] && !IsSpace(rest[0])
    requires AtLineEnd(post)
    ensures Headings(pre + Hashes(n) + w + rest + post)
         == Headings(pre) + HeadOpen(n) + rest + HeadClose(n) + Headings(post)
  {
    var line := Hashes(n) + w + rest;
    var out := HeadOpen(n) + rest + HeadClose(n);
    DownLine(6, n, w, rest, post);
    DownSplice(pre, line, post, out);
    Assoc(pre, Hashes(n), w);
    Assoc(pre, Hashes(n) + w, rest);
    HeadingsOfParts(pre + Hashes(n) + w + rest + post, pre, post, out);
    Assoc(Headings(pre) + HeadOpen(n), rest, HeadClose(n));
    Assoc(Headings(pre), HeadOpen(n), rest);
    Assoc(Headings(pre), HeadOpen(n) + rest, HeadClose(n));
  }

  lemma HeadingsOfParts(whole: seq<char>, pre: seq<char>, post: seq<char>, out: seq<char>)
    requires Down(6, whole) == Down(6, pre) + out + Down(6, post)
    ensures Headings(whole) == Headings(pre) + out + Headings(post)
  {
    HeadingsDown(whole);
    HeadingsDown(pre);
    HeadingsDown(post);
  }

  /** A line between a closed text and `post`, rewritten on its own. */
  lemma DownSplice(pre: seq<char>, line: seq<char>, post: seq<char>, out: seq<char>)
    requires Closed(pre) && Down(6, line + post) == out + Down(6, post)
    ensures Down(6, pre + line + post) == Down(6, pre) + out + Down(6, post)
  {
    assert pre + line + post == pre + (line + post);
    DownSplit(6, pre, line + post);
  }

  lemma {:induction false} DownSkip(m: nat, k: nat, x: seq<char>, q: seq<char>)
    requires m <= 6 && k >= 7 && NoTerminator(x) && AtLineEnd(q)
    ensures Down(m, Hashes(k) + x + q) == Hashes(k) + x + Down(m, q)
    decreases m
  {
    var line := Hashes(k) + x;
    if m > 0 {
      NoMarkerAt(m, k, x, q);
      CopyLine(m, line, q, true);
      LineEndPass(m, q, false);
      var q' := HeadingPass(m, q, true);
      DownSkip(m - 1, k, x, q');
      assert Down(m, line + q) == Down(m - 1, line + q');
    }
  }

  /** Seven or more `#` are no marker of a heading of level six or less. */
  lemma NoMarkerAt(m: nat, k: nat, x: seq<char>, q: seq<char>)
    requires 1 <= m <= 6 && k >= 7 && NoTerminator(x)
    ensures var line := Hashes(k) + x;
      line != [] && NoTerminator(line) && !(HashesAt(line + q, m) && SpaceRun((line + q)[m..]) >= 1)
  {
    var line := Hashes(k) + x;
    assert NoTerminator(line);
    assert (line + q)[m] == '#' && (line + q)[m..][0] == '#';
  }

  /** A line of seven or more `#` stays as it is among other lines too. */
  lemma SevenHashesAmongLines(pre: seq<char>, k: nat, x: seq<char>, post: seq<char>)
    requires Closed(pre) && k >= 7 && NoTerminator(x) && AtLineEnd(post)
    ensures Headings(pre + Hashes(k) + x + post) == Headings(pre) + Hashes(k) + x + Headings(post)
  {
    var line := Hashes(k) + x;
    DownSkip(6, k, x, post);
    DownSplice(pre, line, post, line);
    Assoc(pre, Hashes(k), x);
    HeadingsOfParts(pre + Hashes(k) + x + post, pre, post, line);
    Assoc(Headings(pre), Hashes(k), x);
  }

  // ---------------------------------------------------------------- horizontal rules

  predicate RuleChar(c: char)
  {
    c == '-' || c == '*' || c == '_'
  }

  /** Length of the longest prefix of rule characters (a greedy `[-*_]+`). */
  function RuleRun(s: seq<char>): (n: nat)
    ensures n <= |s|
    ensures n < |s| ==> !RuleChar(s[n])
  {
    if s == [] || !RuleChar(s[0]) then 0 else 1 + RuleRun(s[1..])
  }

  /** Everything `RuleRun` counts is a rule character. */
  lemma {:induction false} RuleRunSpec(s: seq<char>)
    ensures forall k :: 0 <= k < RuleRun(s) ==> RuleChar(s[k])
    decreases |s|
  {
    if s != [] && RuleChar(s[0]) {
      RuleRunSpec(s[1..]);
      assert forall k :: 1 <= k < RuleRun(s) ==> s[k] == s[1..][k - 1];
    }
  }

  /** The backtracking of the trailing `\s*$`: the longest `t' <= t` at which `$` holds. */
  function LastStop(u: seq<char>, t: nat): (r: Option<nat>)
    requires t <= |u|
    ensures r.Some? ==> r.value <= t && (r.value == |u| || IsLineTerminator(u[r.value]))
    decreases t
  {
    if t == |u| || IsLineTerminator(u[t]) then Some(t)
    else if t == 0 then None
    else LastStop(u, t - 1)
  }

  /** `LastStop` finds the last position up to `t` where a line ends, and `None` only when
      there is none. */
  lemma {:induction false} LastStopSpec(u: seq<char>, t: nat)
    requires t <= |u|
    ensures LastStop(u, t).Some? ==>
      forall k :: LastStop(u, t).value < k <= t ==> k < |u| && !IsLineTerminator(u[k])
    ensures LastStop(u, t).None? ==> forall k :: 0 <= k <= t ==> k < |u| && !IsLineTerminator(u[k])
    decreases t
  {
    if !(t == |u| || IsLineTerminator(u[t])) && t > 0 {
      LastStopSpec(u, t - 1);
    }
  }

  /** `x` is optional whitespace, at least three rule characters, optional whitespace. */
  predicate RuleLine(x: seq<char>)
  {
    exists a, b | 0 <= a <= b <= |x| :: RuleShape(x, a, b)
  }

  /** `x[..a]` is whitespace, `x[a..b]` three or more rule characters, `x[b..]` whitespace. */
  predicate RuleShape(x: seq<char>, a: int, b: int)
  {
    0 <= a && a + 3 <= b <= |x|
    && (forall k :: 0 <= k < a ==> IsSpace(x[k]))
    && (forall k :: a <= k < b ==> RuleChar(x[k]))
    && (forall k :: b <= k < |x| ==> IsSpace(x[k]))
  }

  /** Length of the match of `^\s*[-*_]{3,}\s*$` at the start of `s`, or 0. */
  function HrMatch(s: seq<char>): (e: nat)
    ensures e == 0 || (3 <= e <= |s| && (e == |s| || IsLineTerminator(s[e])))
  {
    var a := SpaceRun(s);
    var b := RuleRun(s[a..]);
    if b < 3 then 0
    else
      var u := s[a + b..];
      match LastStop(u, SpaceRun(u))
      case None => 0
      case Some(t) => a + b + t
  }

  /** What `HrMatch` takes is a rule line. */
  lemma HrMatchIsRule(s: seq<char>)
    ensures HrMatch(s) > 0 ==> RuleLine(s[..HrMatch(s)])
  {
    if HrMatch(s) > 0 {
      var a, b := HrMatchParts(s);
      RuleLineOfPrefix(s, HrMatch(s), a, b);
    }
  }

  /** Where the leading whitespace and the run of rule characters of a match end. */
  lemma HrMatchParts(s: seq<char>) returns (a: nat, b: nat)
    requires HrMatch(s) > 0
    ensures a + 3 <= b <= HrMatch(s) <= |s|
    ensures forall k :: 0 <= k < a ==> IsSpace(s[k])
    ensures forall k :: a <= k < b ==> RuleChar(s[k])
    ensures forall k :: b <= k < HrMatch(s) ==> IsSpace(s[k])
  {
    var r;
    a, r := HrMatchStop(s);
    b := a + r;
    RulesBetween(s, a, r);
  }

  /** A rule match that takes something ends where its trailing whitespace stops. */
  lemma HrMatchStop(s: seq<char>) returns (a: nat, r: nat)
    ensures a == SpaceRun(s) && r == RuleRun(s[a..])
    ensures forall k :: a + r <= k < HrMatch(s) ==> IsSpace(s[k])
  {
    a := SpaceRun(s);
    r := RuleRun(s[a..]);
    HrMatchBy(s, a, r);
    var u := s[a + r..];
    var o := LastStop(u, SpaceRun(u));
    if r >= 3 && o.Some? {
      assert HrMatch(s) == a + r + o.value;
      TrailingSpaces(s, a + r, u, o.value);
    } else {
      assert HrMatch(s) == 0;
    }
  }

  lemma RuleLineOfPrefix(s: seq<char>, e: nat, a: nat, b: nat)
    requires a + 3 <= b <= e <= |s|
    requires forall k :: 0 <= k < a ==> IsSpace(s[k])
    requires forall k :: a <= k < b ==> RuleChar(s[k])
    requires forall k :: b <= k < e ==> IsSpace(s[k])
    ensures RuleLine(s[..e])
  {
    assert RuleShape(s[..e], a, b);
  }

  lemma RulesBetween(s: seq<char>, a: nat, b: nat)
    requires a <= |s| && b == RuleRun(s[a..])
    ensures forall k :: a <= k < a + b ==> RuleChar(s[k])
  {
    RuleRunSpec(s[a..]);
    assert forall k :: a <= k < a + b ==> s[k] == s[a..][k - a];
  }

  lemma TrailingSpaces(s: seq<char>, c: nat, u: seq<char>, t: nat)
    requires c <= |s| && u == s[c..] && LastStop(u, SpaceRun(u)) == Some(t)
    ensures c + t <= |s| && forall k :: c <= k < c + t ==> IsSpace(s[k])
  {
    assert forall k :: c <= k < c + t ==> s[k] == u[k - c];
  }

  /** `src.replace(/^\s*[-*_]{3,}\s*$/gm, "<hr/>")`; after a match, `^` is judged by the
      last character the match consumed. */
  function HrPass(s: seq<char>, bol: bool): seq<char>
    decreases |s|
  {
    if s == [] then []
    else if bol then HrAtLine(s)
    else [s[0]] + HrPass(s[1..], IsLineTerminator(s[0]))
  }

  function HrAtLine(s: seq<char>): seq<char>
    requires s != []
    decreases |s|, 0
  {
    var e := HrMatch(s);
    if e > 0 then "<hr/>" + HrPass(s[e..], IsLineTerminator(s[e - 1]))
    else [s[0]] + HrPass(s[1..], IsLineTerminator(s[0]))
  }

  function Rules(s: seq<char>): seq<char>
  {
    HrPass(s, true)
  }

  /** A text that is whitespace, three or more rule characters in any mixture, and
      whitespace (line breaks included) is one horizontal rule. */
  lemma RuleLineIsRule(w1: seq<char>, d: seq<char>, w2: seq<char>)
    requires AllSpace(w1) && AllSpace(w2)
    requires |d| >= 3 && forall k :: 0 <= k < |d| ==> RuleChar(d[k])
    ensures Rules(w1 + d + w2) == "<hr/>"
  {
    var s := w1 + d + w2;
    assert !IsSpace(d[0]);
    SpaceRunPrefix(w1, d + w2);
    assert s == w1 + (d + w2);
    assert s[|w1|..] == d + w2;
    RuleRunPrefix(d, w2);
    assert s[|w1| + |d|..] == w2;
    SpaceRunAll(w2);
    assert LastStop(w2, |w2|) == Some(|w2|);
    assert HrMatch(s) == |s|;
    assert s[|s|..] == [];
    assert HrPass(s, true) == "<hr/>" + HrPass([], IsLineTerminator(s[|s| - 1]));
  }

  lemma {:induction false} RuleRunPrefix(d: seq<char>, y: seq<char>)
    requires (forall k :: 0 <= k < |d| ==> RuleChar(d[k])) && (y == [] || !RuleChar(y[0]))
    ensures RuleRun(d + y) == |d|
    decreases |d|
  {
    if d != [] {
      assert (d + y)[1..] == d[1..] + y;
      RuleRunPrefix(d[1..], y);
    } else {
      assert d + y == y;
    }
  }

  lemma {:induction false} SpaceRunAll(w: seq<char>)
    requires AllSpace(w)
    ensures SpaceRun(w) == |w|
    decreases |w|
  {
    if w != [] {
      SpaceRunAll(w[1..]);
    }
  }

  // ---------------------------------------------------------------- rules among other lines

  /** A text the rule pass finishes within: it is empty, or it ends with a line terminator
      after a character that is neither whitespace nor a rule character. Otherwise a match
      of `^\s*[-*_]{3,}\s*$` could run on past its end: from a blank last line into the next
      line, or from a rule line at its end over the line breaks after it. */
  predicate RuleClosed(x: seq<char>)
  {
    x == [] || (|x| >= 2 && IsLineTerminator(x[|x| - 1]) && !IsSpace(x[|x| - 2]) && !RuleChar(x[|x| - 2]))
  }

  /** A rule-closed text, or what is left of one at a position the rule pass reaches while
      scanning it, with `bol` telling whether a line starts there. */
  predicate RuleClosedAt(x: seq<char>, bol: bool)
  {
    (x == [] && bol) || (|x| == 1 && IsLineTerminator(x[0]) && !bol) || (|x| >= 2 && RuleClosed(x))
  }

  /** The line that `z` starts holds more than whitespace. */
  predicate InkedLine(z: seq<char>)
  {
    !AllSpace(z[..LineLen(z)])
  }

  lemma {:induction false} RuleRunCat(x: seq<char>, y: seq<char>)
    requires x != [] && !RuleChar(x[|x| - 1])
    ensures RuleRun(x + y) == RuleRun(x) < |x|
    decreases |x|
  {
    if RuleChar(x[0]) {
      assert (x + y)[1..] == x[1..] + y;
      RuleRunCat(x[1..], y);
    }
  }

  lemma {:induction false} LastStopCat(u: seq<char>, y: seq<char>, t: nat)
    requires t < |u|
    ensures LastStop(u + y, t) == LastStop(u, t)
    decreases t
  {
    assert (u + y)[t] == u[t];
    if t > 0 {
      LastStopCat(u, y, t - 1);
    }
  }

  /** Two texts whose leading whitespace, run of rule characters and backtracked trailing
      whitespace agree have the same rule match. */
  lemma HrMatchSame(s: seq<char>, p: seq<char>, a: nat, b: nat)
    requires a == SpaceRun(s) && a == SpaceRun(p)
    requires b == RuleRun(s[a..]) && b == RuleRun(p[a..])
    requires b >= 3 ==> LastStop(s[a + b..], SpaceRun(s[a + b..])) == LastStop(p[a + b..], SpaceRun(p[a + b..]))
    ensures HrMatch(s) == HrMatch(p)
  {
    HrMatchBy(s, a, b);
    HrMatchBy(p, a, b);
  }

  /** What `HrMatch` makes of the parts it scans. */
  function StopOf(o: Option<nat>, c: nat): nat
  {
    match o
    case None => 0
    case Some(t) => c + t
  }

  lemma HrMatchBy(s: seq<char>, a: nat, b: nat)
    requires a == SpaceRun(s) && b == RuleRun(s[a..])
    ensures HrMatch(s) == if b < 3 then 0 else StopOf(LastStop(s[a + b..], SpaceRun(s[a + b..])), a + b)
  {
  }

  lemma HrMatchBound(p: seq<char>, a: nat, b: nat)
    requires p != [] && a == SpaceRun(p) && b == RuleRun(p[a..])
    requires b >= 3 ==> SpaceRun(p[a + b..]) < |p[a + b..]|
    ensures HrMatch(p) < |p|
  {
    HrMatchBy(p, a, b);
    if b >= 3 {
      var u := p[a + b..];
      match LastStop(u, SpaceRun(u))
      case None =>
      case Some(t) =>
        assert t < |u|;
    }
  }

  /** A rule match that starts inside a rule-closed text ends inside it. */
  lemma HrMatchCat(pre: seq<char>, y: seq<char>)
    requires |pre| >= 2 && RuleClosed(pre)
    ensures HrMatch(pre + y) == HrMatch(pre) < |pre|
  {
    var s := pre + y;
    assert !AllSpace(pre) by {
      assert !IsSpace(pre[|pre| - 2]);
    }
    SpaceRunCat(pre, y);
    var a := SpaceRun(pre);
    var x := pre[a..];
    DropCat(pre, y, a);
    assert x[|x| - 1] == pre[|pre| - 1];
    RuleRunCat(x, y);
    var b := RuleRun(x);
    if b >= 3 {
      TrailInside(pre, y, a, b);
    }
    HrMatchSame(s, pre, a, b);
    HrMatchBound(pre, a, b);
  }

  /** The trailing whitespace after a run of rule characters inside a rule-closed text ends
      inside it. */
  lemma TrailInside(pre: seq<char>, y: seq<char>, a: nat, b: nat)
    requires |pre| >= 2 && RuleClosed(pre) && a <= |pre| && b == RuleRun(pre[a..]) && b >= 3
    ensures a + b <= |pre| - 2
    ensures (pre + y)[a + b..] == pre[a + b..] + y && SpaceRun(pre[a + b..]) < |pre[a + b..]|
    ensures LastStop(pre[a + b..] + y, SpaceRun(pre[a + b..] + y)) == LastStop(pre[a + b..], SpaceRun(pre[a + b..]))
  {
    RulesBetween(pre, a, b);
    var u := pre[a + b..];
    DropCat(pre, y, a + b);
    assert u[|pre| - 2 - (a + b)] == pre[|pre| - 2];
    SpaceRunCat(u, y);
    LastStopCat(u, y, SpaceRun(u));
  }

  /** The rule pass works on a rule-closed text and on what follows it separately. */
  lemma {:induction false} HrSplit(pre: seq<char>, y: seq<char>, bol: bool)
    requires RuleClosedAt(pre, bol)
    ensures HrPass(pre + y, bol) == HrPass(pre, bol) + HrPass(y, true)
    decreases |pre|, 1
  {
    if pre == [] {
      assert pre + y == y;
    } else if |pre| == 1 {
      HrSplitBreak(pre, y);
    } else {
      HrMatchCat(pre, y);
      if bol && HrMatch(pre) > 0 {
        HrSplitRule(pre, y);
      } else {
        HrSplitPlain(pre, y, bol);
      }
    }
  }

  /** A lone line break in the middle of a line is copied, and a line starts after it. */
  lemma HrSplitBreak(pre: seq<char>, y: seq<char>)
    requires |pre| == 1 && IsLineTerminator(pre[0])
    ensures HrPass(pre + y, false) == HrPass(pre, false) + HrPass(y, true)
  {
    Uncons(pre, y, []);
    assert pre[1..] == [] && pre[1..] + y == y;
    assert HrPass(pre, false) == pre;
  }

  lemma {:induction false} HrSplitRule(pre: seq<char>, y: seq<char>)
    requires |pre| >= 2 && RuleClosed(pre) && 0 < HrMatch(pre) < |pre| && HrMatch(pre + y) == HrMatch(pre)
    ensures HrPass(pre + y, true) == HrPass(pre, true) + HrPass(y, true)
    decreases |pre|, 0
  {
    var e := HrMatch(pre);
    var b := IsLineTerminator(pre[e - 1]);
    DropCat(pre, y, e);
    RestRuleClosed(pre, e);
    HrSplit(pre[e..], y, b);
    Assoc("<hr/>", HrPass(pre[e..], b), HrPass(y, true));
  }

  lemma {:induction false} HrSplitPlain(pre: seq<char>, y: seq<char>, bol: bool)
    requires |pre| >= 2 && RuleClosed(pre) && (bol ==> HrMatch(pre) == 0 && HrMatch(pre + y) == 0)
    ensures HrPass(pre + y, bol) == HrPass(pre, bol) + HrPass(y, true)
    decreases |pre|, 0
  {
    var b := IsLineTerminator(pre[0]);
    Uncons(pre, y, []);
    RestRuleClosed(pre, 1);
    HrSplit(pre[1..], y, b);
    Assoc([pre[0]], HrPass(pre[1..], b), HrPass(y, true));
  }

  lemma RestRuleClosed(pre: seq<char>, e: nat)
    requires |pre| >= 2 && RuleClosed(pre) && 1 <= e < |pre|
    ensures RuleClosedAt(pre[e..], IsLineTerminator(pre[e - 1]))
  {
    var x := pre[e..];
    if e == |pre| - 1 {
      assert x == [pre[|pre| - 1]] && pre[e - 1] == pre[|pre| - 2];
    } else {
      assert x[|x| - 1] == pre[|pre| - 1] && x[|x| - 2] == pre[|pre| - 2];
    }
  }

  /** `LastStop` from `t` back to a line terminator at `c` finds `c` when none lies between. */
  lemma {:induction false} LastStopAt(u: seq<char>, c: nat, t: nat)
    requires c <= t < |u| && IsLineTerminator(u[c])
    requires forall k :: c < k <= t ==> !IsLineTerminator(u[k])
    ensures LastStop(u, t) == Some(c)
    decreases t
  {
    if t > c {
      LastStopAt(u, c, t - 1);
    }
  }

  lemma {:induction false} SpaceRunOver(w: seq<char>, z: seq<char>)
    requires AllSpace(w)
    ensures SpaceRun(w + z) == |w| + SpaceRun(z)
    decreases |w|
  {
    if w != [] {
      assert (w + z)[1..] == w[1..] + z;
      SpaceRunOver(w[1..], z);
    } else {
      assert w + z == z;
    }
  }

  /** The trailing `\s*$` after a rule line that a line break and a line that is not blank
      follow stops before that line break. */
  lemma StopBeforeBreak(w2: seq<char>, t: char, z: seq<char>)
    requires AllSpace(w2) && NoTerminator(w2) && IsLineTerminator(t) && InkedLine(z)
    ensures var u := w2 + [t] + z; LastStop(u, SpaceRun(u)) == Some(|w2|)
  {
    var u := w2 + [t] + z;
    var c := SpaceRun(z);
    assert c < LineLen(z) by {
      assert forall i :: 0 <= i < LineLen(z) ==> z[..LineLen(z)][i] == z[i];
    }
    SpaceRunOver(w2 + [t], z);
    assert forall k :: |w2| < k <= |w2| + 1 + c ==> u[k] == z[k - |w2| - 1];
    LastStopAt(u, |w2|, |w2| + 1 + c);
  }

  /** Where a rule line ends: before what follows it, after a character that is no line
      terminator. */
  lemma RuleLineTail(w1: seq<char>, d: seq<char>, w2: seq<char>, t: char, z: seq<char>)
    requires NoTerminator(w2) && |d| >= 1 && !IsLineTerminator(d[|d| - 1])
    ensures var s := w1 + (d + (w2 + [t] + z)); var e := |w1| + |d| + |w2|;
      0 < e <= |s| && s[e..] == [t] + z && !IsLineTerminator(s[e - 1])
  {
    var s := w1 + (d + (w2 + [t] + z));
    var e := |w1| + |d| + |w2|;
    assert s[e..] == [t] + z;
    if w2 == [] {
      assert s[e - 1] == d[|d| - 1];
    } else {
      assert s[e - 1] == w2[|w2| - 1];
    }
  }

  lemma HrMatchAt(s: seq<char>, a: nat, b: nat, t: nat)
    requires a == SpaceRun(s) && b == RuleRun(s[a..]) && b >= 3
    requires LastStop(s[a + b..], SpaceRun(s[a + b..])) == Some(t)
    ensures HrMatch(s) == a + b + t
  {
    HrMatchBy(s, a, b);
  }

  /** A rule line that a line break and a line that is not blank follow: the rule pass makes
      it `<hr/>`, keeps the line break and goes on with the next line. */
  lemma RuleLineThen(w1: seq<char>, d: seq<char>, w2: seq<char>, t: char, z: seq<char>)
    requires AllSpace(w1) && AllSpace(w2) && NoTerminator(w2)
    requires |d| >= 3 && forall k :: 0 <= k < |d| ==> RuleChar(d[k])
    requires IsLineTerminator(t) && InkedLine(z)
    ensures HrPass(w1 + (d + (w2 + [t] + z)), true) == "<hr/>" + [t] + Rules(z)
  {
    var u := w2 + [t] + z;
    RuleLinePieces(w1, d, w2, t, z);
    RuleAt(w1 + (d + u), d + u, u, |w2|, |w1| + |d| + |w2|, t, z);
  }

  /** `s` opens with a rule line read off its parts: leading whitespace, then `r`, whose run
      of rule characters `u` follows; the match stops `c` characters into `u`, at `e`, and
      the line break `t` and the rest `z` come next. */
  predicate RuleLineAt(s: seq<char>, r: seq<char>, u: seq<char>, c: nat, e: nat, t: char, z: seq<char>)
  {
    SpaceRun(s) <= |s| && s[SpaceRun(s)..] == r
    && 3 <= RuleRun(r) <= |r| && r[RuleRun(r)..] == u
    && LastStop(u, SpaceRun(u)) == Some(c) && e == SpaceRun(s) + RuleRun(r) + c
    && 0 < e <= |s| && s[e..] == [t] + z && !IsLineTerminator(s[e - 1]) && IsLineTerminator(t)
  }

  /** How the rule match reads such a line. */
  lemma RuleLinePieces(w1: seq<char>, d: seq<char>, w2: seq<char>, t: char, z: seq<char>)
    requires AllSpace(w1) && AllSpace(w2) && NoTerminator(w2)
    requires |d| >= 3 && forall k :: 0 <= k < |d| ==> RuleChar(d[k])
    requires IsLineTerminator(t) && InkedLine(z)
    ensures var u := w2 + [t] + z; RuleLineAt(w1 + (d + u), d + u, u, |w2|, |w1| + |d| + |w2|, t, z)
  {
    var u := w2 + [t] + z;
    var r := d + u;
    assert r[0] == d[0] && !IsSpace(d[0]);
    SpaceRunPrefix(w1, r);
    assert (w1 + r)[|w1|..] == r;
    assert u[0] == if w2 == [] then t else w2[0];
    RuleRunPrefix(d, u);
    assert r[|d|..] == u;
    StopBeforeBreak(w2, t, z);
    RuleLineTail(w1, d, w2, t, z);
  }

  /** The rule pass at a rule line that a line break ends. */
  lemma RuleAt(s: seq<char>, r: seq<char>, u: seq<char>, c: nat, e: nat, t: char, z: seq<char>)
    requires RuleLineAt(s, r, u, c, e, t, z)
    ensures HrPass(s, true) == "<hr/>" + [t] + Rules(z)
  {
    HrMatchOf(s, r, u, c);
    HrAtRule(s, e, t, z);
  }

  /** The rule match of a text read off its parts: leading whitespace, then `r`, whose run
      of rule characters `u` follows. */
  lemma HrMatchOf(s: seq<char>, r: seq<char>, u: seq<char>, c: nat)
    requires SpaceRun(s) <= |s| && s[SpaceRun(s)..] == r
    requires 3 <= RuleRun(r) <= |r| && r[RuleRun(r)..] == u
    requires LastStop(u, SpaceRun(u)) == Some(c)
    ensures HrMatch(s) == SpaceRun(s) + RuleRun(r) + c
  {
    var a, b := SpaceRun(s), RuleRun(r);
    assert s[a + b..] == u;
    HrMatchAt(s, a, b, c);
  }

  /** The rule pass at a rule match that a line break ends. */
  lemma HrAtRule(s: seq<char>, e: nat, t: char, z: seq<char>)
    requires 0 < e <= |s| && HrMatch(s) == e && s[e..] == [t] + z && !IsLineTerminator(s[e - 1])
    requires IsLineTerminator(t)
    ensures HrPass(s, true) == "<hr/>" + [t] + Rules(z)
  {
    var v := [t] + z;
    assert v[0] == t && v[1..] == z;
    assert HrPass(v, false) == [t] + HrPass(z, true);
    assert HrAtLine(s) == "<hr/>" + HrPass(v, false);
    Assoc("<hr/>", [t], Rules(z));
  }

  /** A rule line between a rule-closed text and a line break followed by a line that is not
      blank becomes `<hr/>`, and the texts around it are rewritten as if it were not there. */
  lemma RuleAmongLines(pre: seq<char>, w1: seq<char>, d: seq<char>, w2: seq<char>, t: char, z: seq<char>)
    requires RuleClosed(pre)
    requires AllSpace(w1) && AllSpace(w2) && NoTerminator(w2)
    requires |d| >= 3 && forall k :: 0 <= k < |d| ==> RuleChar(d[k])
    requires IsLineTerminator(t) && InkedLine(z)
    ensures Rules(pre + w1 + d + w2 + [t] + z) == Rules(pre) + "<hr/>" + [t] + Rules(z)
  {
    var y := w1 + (d + (w2 + [t] + z));
    RuleLineGroups(pre, w1, d, w2, [t], z);
    HrSplit(pre, y, true);
    RuleLineThen(w1, d, w2, t, z);
    Assoc(Rules(pre), "<hr/>" + [t], Rules(z));
    Assoc(Rules(pre), "<hr/>", [t]);
  }

  lemma RuleLineGroups(pre: seq<char>, w1: seq<char>, d: seq<char>, w2: seq<char>, b: seq<char>, z: seq<char>)
    ensures pre + w1 + d + w2 + b + z == pre + (w1 + (d + (w2 + b + z)))
  {
    Append4(pre, w1, d, w2 + b, z);
    Assoc(w1, d, w2 + b);
    Assoc(d, w2 + b, z);
    Assoc(w1, d + (w2 + b), z);
    Assoc(w2, b, z);
    Assoc(d, w2, b);
    Assoc(w1 + d, w2, b);
    Assoc(pre + w1 + d, w2, b);
  }

  // ---------------------------------------------------------------- lists

  /** `- ` or `* ` at index `k`. */
  predicate MarkerAt(s: seq<char>, k: int)
  {
    0 <= k && k + 2 <= |s| && (s[k] == '-' || s[k] == '*') && s[k + 1] == ' '
  }

  /** Length of the match of `^(?:- |\* )(.*(?:\n(?:- |\* ).*)*)` at the start of `s`:
      the run of consecutive marker lines joined by `\n`. */
  function ChainLen(s: seq<char>): (e: nat)
    requires MarkerAt(s, 0)
    ensures 2 <= e <= |s| && (e == |s| || IsLineTerminator(s[e]))
    decreases |s|
  {
    var e := 2 + LineLen(s[2..]);
    if e < |s| && s[e] == '\n' && MarkerAt(s, e + 1) then e + 1 + ChainLen(s[e + 1..]) else e
  }

  /** `m.split(/\n/)`. */
  function SplitLines(m: seq<char>): (ls: seq<seq<char>>)
    ensures |ls| >= 1
    decreases |m|
  {
    match FirstIndex(m, '\n')
    case None => [m]
    case Some(k) => [m[..k]] + SplitLines(m[k + 1..])
  }

  /** `l.replace(/^(?:- |\* )/, "")`. */
  function StripMarker(l: seq<char>): seq<char>
  {
    if MarkerAt(l, 0) then l[2..] else l
  }

  /** `.map((l) => …trim()).map((t) => `<li>${t}</li>`).join("")`. */
  function Items(ls: seq<seq<char>>): seq<char>
  {
    if ls == [] then [] else "<li>" + Trim(StripMarker(ls[0])) + "</li>" + Items(ls[1..])
  }

  /** The list replacement of app.js:161-168; a match ends before a line terminator, so the
      next position is not a line start. */
  function ListPass(s: seq<char>, bol: bool): seq<char>
    decreases |s|
  {
    if s == [] then []
    else if bol && MarkerAt(s, 0) then
      var e := ChainLen(s);
      "<ul>" + Items(SplitLines(s[..e])) + "</ul>" + ListPass(s[e..], false)
    else [s[0]] + ListPass(s[1..], IsLineTerminator(s[0]))
  }

  function Lists(s: seq<char>): seq<char>
  {
    ListPass(s, true)
  }

  /** A marker line: `- ` or `* `, then text without a line break. */
  predicate MarkerLine(l: seq<char>)
  {
    MarkerAt(l, 0) && NoTerminator(l)
  }

  /** The intended list: one `<li>` per line, holding the line without its marker, trimmed. */
  function ListOf(ls: seq<seq<char>>): seq<char>
    requires forall i :: 0 <= i < |ls| ==> MarkerLine(ls[i])
  {
    "<ul>" + ItemsOf(ls) + "</ul>"
  }

  function ItemsOf(ls: seq<seq<char>>): seq<char>
    requires forall i :: 0 <= i < |ls| ==> MarkerLine(ls[i])
  {
    if ls == [] then []
    else
      assert MarkerLine(ls[0]);
      "<li>" + Trim(ls[0][2..]) + "</li>" + ItemsOf(ls[1..])
  }

  /** The text after a run of marker lines does not continue the run. */
  predicate EndsRun(tail: seq<char>)
  {
    tail == [] || (IsLineTerminator(tail[0]) && !(tail[0] == '\n' && MarkerAt(tail, 1)))
  }

  /** The chain match covers exactly the run of marker lines. */
  lemma {:induction false} ChainCoversRun(ls: seq<seq<char>>, tail: seq<char>)
    requires |ls| >= 1 && forall i :: 0 <= i < |ls| ==> MarkerLine(ls[i])
    requires EndsRun(tail)
    ensures MarkerAt(JoinLines(ls) + tail, 0)
    ensures ChainLen(JoinLines(ls) + tail) == |JoinLines(ls)|
    decreases |ls|
  {
    if |ls| == 1 {
      ChainLastLine(ls[0], tail);
    } else {
      var more := JoinLines(ls[1..]) + tail;
      ChainCoversRun(ls[1..], tail);
      ChainNextLine(ls[0], more);
      assert JoinLines(ls) + tail == ls[0] + ("\n" + more);
      assert |JoinLines(ls)| == |ls[0]| + 1 + |JoinLines(ls[1..])|;
    }
  }

  lemma ChainLastLine(l: seq<char>, tail: seq<char>)
    requires MarkerLine(l) && EndsRun(tail)
    ensures MarkerAt(l + tail, 0) && ChainLen(l + tail) == |l|
  {
    var s := l + tail;
    LineAfterMarker(l, tail);
    if |l| < |s| {
      CatAt(l, tail);
      assert MarkerAt(s, |l| + 1) ==> MarkerAt(tail, 1);
    }
  }

  lemma ChainNextLine(l: seq<char>, more: seq<char>)
    requires MarkerLine(l) && MarkerAt(more, 0)
    ensures MarkerAt(l + ("\n" + more), 0)
    ensures ChainLen(l + ("\n" + more)) == |l| + 1 + ChainLen(more)
  {
    var y := "\n" + more;
    var s := l + y;
    LineAfterMarker(l, y);
    CatAt(l, y);
    assert y[1..] == more;
    assert s[|l| + 1] == more[0] && s[|l| + 2] == more[1];
    ChainStep(s, |l|);
  }

  /** The marker line `l` is the first line of `l + y` when `y` starts a new line. */
  lemma LineAfterMarker(l: seq<char>, y: seq<char>)
    requires MarkerLine(l) && (y == [] || IsLineTerminator(y[0]))
    ensures MarkerAt(l + y, 0) && 2 + LineLen((l + y)[2..]) == |l|
  {
    var x := l[2..];
    assert (l + y)[2..] == x + y;
    assert NoTerminator(x) by {
      forall k | 0 <= k < |x| ensures !IsLineTerminator(x[k]) {
        assert x[k] == l[k + 2];
      }
    }
    LineLenPrefix(x, y);
  }

  /** What follows `a` in `a + b`. */
  lemma CatAt(a: seq<char>, b: seq<char>)
    requires b != []
    ensures (a + b)[|a|] == b[0] && (a + b)[|a| + 1..] == b[1..]
  {
  }

  /** One more marker line after the first continues the chain. */
  lemma ChainStep(s: seq<char>, e: nat)
    requires MarkerAt(s, 0) && e == 2 + LineLen(s[2..])
    requires e < |s| && s[e] == '\n' && MarkerAt(s, e + 1)
    ensures ChainLen(s) == e + 1 + ChainLen(s[e + 1..])
  {
  }

  lemma {:induction false} LineLenPrefix(x: seq<char>, y: seq<char>)
    requires NoTerminator(x) && (y == [] || IsLineTerminator(y[0]))
    ensures LineLen(x + y) == |x|
    decreases |x|
  {
    if x != [] {
      assert (x + y)[1..] == x[1..] + y;
      LineLenPrefix(x[1..], y);
    } else {
      assert x + y == y;
    }
  }

  /** Splitting the joined run on `\n` gives the lines back. */
  lemma {:induction false} SplitJoinLines(ls: seq<seq<char>>)
    requires |ls| >= 1 && forall i :: 0 <= i < |ls| ==> '\n' !in ls[i]
    ensures SplitLines(JoinLines(ls)) == ls
    decreases |ls|
  {
    if |ls| == 1 {
      assert FirstIndex(ls[0], '\n').None?;
    } else {
      SplitJoinLines(ls[1..]);
      var m := JoinLines(ls);
      assert m == ls[0] + ['\n'] + JoinLines(ls[1..]);
      FirstIndexAfter(ls[0], '\n', JoinLines(ls[1..]));
      assert m[..|ls[0]|] == ls[0] && m[|ls[0]| + 1..] == JoinLines(ls[1..]);
      assert ls == [ls[0]] + ls[1..];
    }
  }

  lemma {:induction false} ItemsOfMarkerLines(ls: seq<seq<char>>)
    requires forall i :: 0 <= i < |ls| ==> MarkerLine(ls[i])
    ensures Items(ls) == ItemsOf(ls)
    decreases |ls|
  {
    if ls != [] {
      ItemsOfMarkerLines(ls[1..]);
    }
  }

  /** A maximal run of `- ` / `* ` lines becomes one `<ul>` with exactly one `<li>` per line,
      marker removed and text trimmed; the line break after the run and the rest of the text
      are left to the rest of the scan. */
  lemma ListRun(ls: seq<seq<char>>, tail: seq<char>)
    requires |ls| >= 1 && forall i :: 0 <= i < |ls| ==> MarkerLine(ls[i])
    requires EndsRun(tail)
    ensures ListPass(JoinLines(ls) + tail, true) == ListOf(ls) + ListPass(tail, false)
  {
    var s := JoinLines(ls) + tail;
    ChainCoversRun(ls, tail);
    var e := |JoinLines(ls)|;
    assert s[..e] == JoinLines(ls) && s[e..] == tail;
    forall i | 0 <= i < |ls| ensures '\n' !in ls[i] {
      assert MarkerLine(ls[i]);
    }
    SplitJoinLines(ls);
    ItemsOfMarkerLines(ls);
  }

  /** A text that is a run of marker lines and nothing else is one list. */
  lemma WholeList(ls: seq<seq<char>>)
    requires |ls| >= 1 && forall i :: 0 <= i < |ls| ==> MarkerLine(ls[i])
    ensures Lists(JoinLines(ls)) == ListOf(ls)
  {
    ListRun(ls, []);
    assert JoinLines(ls) + [] == JoinLines(ls);
  }
}
