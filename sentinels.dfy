/** The placeholder tokens `<i>` that stand for extracted code blocks between
    the extraction (app.js:149-152) and the re-injection (app.js:184-187), and the facts
    about them that let each intermediate stage be shown to leave them alone. */
module Sentinels {
  import opened Text

  /** `` + decimal index + ``, as the replacement callback at app.js:150-151 writes it. */
  function Token(n: nat): (t: seq<char>)
    ensures |t| >= 3 && t[0] == Sentinel && t[|t| - 1] == Sentinel
  {
    [Sentinel] + Decimal(n) + [Sentinel]
  }

  /** Number of decimal digits in `s` from index `i` on. */
  function DigitsFrom(s: seq<char>, i: nat): (n: nat)
    requires i <= |s|
    ensures i + n <= |s|
    decreases |s| - i
  {
    if i == |s| || !IsDigit(s[i]) then 0 else 1 + DigitsFrom(s, i + 1)
  }

  /** Length of the token `\d+` that starts at index `i` of `s`, or 0 when none does. */
  function TokenAt(s: seq<char>, i: nat): (n: nat)
    requires i <= |s|
    ensures n == 0 || (3 <= n && i + n <= |s| && s[i] == Sentinel && s[i + n - 1] == Sentinel)
  {
    if i + 3 <= |s| && s[i] == Sentinel then
      var k := DigitsFrom(s, i + 1);
      if k >= 1 && i + 1 + k < |s| && s[i + 1 + k] == Sentinel then 2 + k else 0
    else 0
  }

  /** Length of the token that starts `s`, or 0 when none does.
      This is exactly what the pattern at app.js:185 matches at the start of `s`. */
  function TokenLen(s: seq<char>): (n: nat)
    ensures n == 0 || (3 <= n <= |s| && s[0] == Sentinel && s[n - 1] == Sentinel)
  {
    TokenAt(s, 0)
  }

  predicate TokenChar(c: char)
  {
    c == Sentinel || IsDigit(c)
  }

  /** From index `i` on, every sentinel character opens a complete token. */
  predicate WellFormedFrom(s: seq<char>, i: nat)
    requires i <= |s|
    decreases |s| - i
  {
    if i == |s| then true
    else if s[i] == Sentinel then TokenAt(s, i) > 0 && WellFormedFrom(s, i + TokenAt(s, i))
    else WellFormedFrom(s, i + 1)
  }

  /** Every sentinel character of `s` opens a complete token: the shape the extraction leaves. */
  predicate WellFormed(s: seq<char>)
  {
    WellFormedFrom(s, 0)
  }

  /** The digit strings of the tokens of `s` from index `i` on. */
  function TokensFrom(s: seq<char>, i: nat): seq<seq<char>>
    requires i <= |s|
    decreases |s| - i
  {
    if i == |s| then []
    else if TokenAt(s, i) > 0 then [s[i + 1..i + TokenAt(s, i) - 1]] + TokensFrom(s, i + TokenAt(s, i))
    else TokensFrom(s, i + 1)
  }

  /** The digit strings of the tokens of `s`, left to right, as the re-injection scan finds them. */
  function Tokens(s: seq<char>): seq<seq<char>>
  {
    TokensFrom(s, 0)
  }

  /** A split point that does not fall inside a token. */
  predicate Boundary(s: seq<char>, p: int)
  {
    0 <= p <= |s| && (p == 0 || p == |s| || !TokenChar(s[p - 1]) || !TokenChar(s[p]))
  }

  // The scans above read `s` by index; the lemmas below relate a scan from index `i + j`
  // of `s` to the same scan from index `j` of the suffix `s[i..]`.

  lemma {:induction false} DigitsShift(s: seq<char>, i: nat, j: nat)
    requires i + j <= |s|
    ensures DigitsFrom(s, i + j) == DigitsFrom(s[i..], j)
    decreases |s| - i - j
  {
    if i + j < |s| {
      assert s[i..][j] == s[i + j];
      if IsDigit(s[i + j]) {
        DigitsShift(s, i, j + 1);
      }
    }
  }

  lemma TokenAtShift(s: seq<char>, i: nat, j: nat)
    requires i + j <= |s|
    ensures TokenAt(s, i + j) == TokenAt(s[i..], j)
  {
    if i + j + 3 <= |s| {
      assert s[i..][j] == s[i + j];
      DigitsShift(s, i, j + 1);
      var k := DigitsFrom(s, i + j + 1);
      if i + j + 1 + k < |s| {
        assert s[i..][j + 1 + k] == s[i + j + 1 + k];
      }
    }
  }

  lemma {:induction false} WellFormedShift(s: seq<char>, i: nat, j: nat)
    requires i + j <= |s|
    ensures WellFormedFrom(s, i + j) == WellFormedFrom(s[i..], j)
    decreases |s| - i - j
  {
    if i + j < |s| {
      assert s[i..][j] == s[i + j];
      TokenAtShift(s, i, j);
      var l := TokenAt(s, i + j);
      if s[i + j] == Sentinel {
        if l > 0 {
          WellFormedShift(s, i, j + l);
        }
      } else {
        WellFormedShift(s, i, j + 1);
      }
    }
  }

  lemma {:induction false} TokensShift(s: seq<char>, i: nat, j: nat)
    requires i + j <= |s|
    ensures TokensFrom(s, i + j) == TokensFrom(s[i..], j)
    decreases |s| - i - j
  {
    if i + j < |s| {
      TokenAtShift(s, i, j);
      var l := TokenAt(s, i + j);
      if l > 0 {
        DigitsOfShift(s, i, j, l);
        TokensShift(s, i, j + l);
      } else {
        TokensShift(s, i, j + 1);
      }
    }
  }

  lemma DigitsOfShift(s: seq<char>, i: nat, j: nat, l: nat)
    requires 2 <= l && i + j + l <= |s|
    ensures s[i..][j + 1..j + l - 1] == s[i + j + 1..i + j + l - 1]
  {
  }

  lemma {:induction false} DigitsConcat(a: seq<char>, b: seq<char>, i: nat)
    requires i <= |a| && i + DigitsFrom(a, i) < |a|
    ensures DigitsFrom(a + b, i) == DigitsFrom(a, i)
    decreases |a| - i
  {
    assert (a + b)[i] == a[i];
    if IsDigit(a[i]) {
      DigitsConcat(a, b, i + 1);
    }
  }

  lemma {:induction false} DigitsPrefix(s: seq<char>, i: nat, p: nat)
    requires i <= p <= |s| && i + DigitsFrom(s, i) < p
    ensures DigitsFrom(s[..p], i) == DigitsFrom(s, i)
    decreases p - i
  {
    assert s[..p][i] == s[i];
    if IsDigit(s[i]) {
      DigitsPrefix(s, i + 1, p);
    }
  }

  /** The digits counted are digits, and the run stops at a character that is not one. */
  lemma {:induction false} DigitsSpec(s: seq<char>, i: nat)
    requires i <= |s|
    ensures forall k :: i <= k < i + DigitsFrom(s, i) ==> IsDigit(s[k])
    ensures i + DigitsFrom(s, i) < |s| ==> !IsDigit(s[i + DigitsFrom(s, i)])
    decreases |s| - i
  {
    if i < |s| && IsDigit(s[i]) {
      DigitsSpec(s, i + 1);
    }
  }

  /** A run of digits `s[i..j]` followed by a character that is not one. */
  lemma {:induction false} DigitsUpTo(s: seq<char>, i: nat, j: nat)
    requires i <= j < |s| && !IsDigit(s[j])
    requires forall k :: i <= k < j ==> IsDigit(s[k])
    ensures DigitsFrom(s, i) == j - i
    decreases j - i
  {
    if i < j {
      DigitsUpTo(s, i + 1, j);
    }
  }

  lemma TokenLenConcat(a: seq<char>, b: seq<char>)
    requires TokenLen(a) > 0
    ensures TokenLen(a + b) == TokenLen(a)
  {
    var k := DigitsFrom(a, 1);
    DigitsConcat(a, b, 1);
    assert (a + b)[0] == a[0] && (a + b)[1 + k] == a[1 + k];
  }

  lemma TokenLenOfToken(n: nat, v: seq<char>)
    ensures TokenLen(Token(n) + v) == |Token(n)|
  {
    var t := Token(n);
    var d := Decimal(n);
    assert forall k :: 1 <= k < 1 + |d| ==> t[k] == d[k - 1];
    DigitsUpTo(t, 1, 1 + |d|);
    TokenLenConcat(t, v);
  }

  /** A token's text: its digits between the two sentinels. */
  lemma TokenParts(n: nat)
    ensures Token(n)[1..|Token(n)| - 1] == Decimal(n)
    ensures forall k :: 0 <= k < |Token(n)| ==> TokenChar(Token(n)[k])
  {
  }

  lemma {:induction false} PlainFrom(x: seq<char>, i: nat)
    requires i <= |x| && forall k :: i <= k < |x| ==> x[k] != Sentinel
    ensures WellFormedFrom(x, i) && TokensFrom(x, i) == []
    decreases |x| - i
  {
    if i < |x| {
      PlainFrom(x, i + 1);
    }
  }

  /** Text without any sentinel is well formed and holds no token. */
  lemma PlainText(x: seq<char>)
    requires Sentinel !in x
    ensures WellFormed(x) && Tokens(x) == []
  {
    PlainFrom(x, 0);
  }

  lemma UnfoldToken(s: seq<char>)
    requires TokenLen(s) > 0
    ensures WellFormed(s) <==> WellFormed(s[TokenLen(s)..])
    ensures Tokens(s) == [s[1..TokenLen(s) - 1]] + Tokens(s[TokenLen(s)..])
  {
    var l := TokenLen(s);
    WellFormedShift(s, l, 0);
    TokensShift(s, l, 0);
  }

  lemma UnfoldPlain(s: seq<char>)
    requires s != [] && s[0] != Sentinel
    ensures WellFormed(s) <==> WellFormed(s[1..])
    ensures Tokens(s) == Tokens(s[1..])
  {
    WellFormedShift(s, 1, 0);
    TokensShift(s, 1, 0);
  }

  /** A copied character outside any token followed by a well-formed text. */
  lemma GluePlain(c: char, y: seq<char>)
    requires c != Sentinel && WellFormed(y)
    ensures WellFormed([c] + y) && Tokens([c] + y) == Tokens(y)
  {
    UnfoldPlain([c] + y);
    assert ([c] + y)[1..] == y;
  }

  /** A token written in front of a well-formed text. */
  lemma TokenThen(n: nat, y: seq<char>)
    requires WellFormed(y)
    ensures WellFormed(Token(n) + y) && Tokens(Token(n) + y) == [Decimal(n)] + Tokens(y)
  {
    var t := Token(n) + y;
    TokenLenOfToken(n, y);
    var l := |Token(n)|;
    assert t[l..] == y;
    assert t[1..l - 1] == Decimal(n);
    UnfoldToken(t);
  }

  /** Gluing two well-formed strings creates no token and loses none. */
  lemma {:induction false} Concat(a: seq<char>, b: seq<char>)
    requires WellFormed(a) && WellFormed(b)
    ensures WellFormed(a + b) && Tokens(a + b) == Tokens(a) + Tokens(b)
    decreases |a|, 1
  {
    if a == [] {
      assert a + b == b;
    } else if a[0] == Sentinel {
      ConcatAtToken(a, b);
    } else {
      ConcatAtPlain(a, b);
    }
  }

  lemma {:induction false} ConcatAtToken(a: seq<char>, b: seq<char>)
    requires WellFormed(a) && WellFormed(b) && a != [] && a[0] == Sentinel
    ensures WellFormed(a + b) && Tokens(a + b) == Tokens(a) + Tokens(b)
    decreases |a|, 0
  {
    var l := TokenLen(a);
    UnfoldToken(a);
    TokenAhead(a, b);
    Concat(a[l..], b);
    Assoc([a[1..l - 1]], Tokens(a[l..]), Tokens(b));
  }

  /** A token at the front of `a` is also the token at the front of `a + b`. */
  lemma TokenAhead(a: seq<char>, b: seq<char>)
    requires TokenLen(a) > 0
    ensures WellFormed(a + b) <==> WellFormed(a[TokenLen(a)..] + b)
    ensures Tokens(a + b) == [a[1..TokenLen(a) - 1]] + Tokens(a[TokenLen(a)..] + b)
  {
    var l := TokenLen(a);
    TokenLenConcat(a, b);
    assert (a + b)[l..] == a[l..] + b;
    CatParts(a, b, 1, l - 1);
    UnfoldToken(a + b);
  }

  lemma {:induction false} ConcatAtPlain(a: seq<char>, b: seq<char>)
    requires WellFormed(a) && WellFormed(b) && a != [] && a[0] != Sentinel
    ensures WellFormed(a + b) && Tokens(a + b) == Tokens(a) + Tokens(b)
    decreases |a|, 0
  {
    UnfoldPlain(a);
    var ab := a + b;
    assert ab[0] == a[0];
    assert ab[1..] == a[1..] + b;
    Concat(a[1..], b);
    UnfoldPlain(ab);
  }

  lemma Concat3(a: seq<char>, b: seq<char>, c: seq<char>)
    requires WellFormed(a) && WellFormed(b) && WellFormed(c)
    ensures WellFormed(a + b + c) && Tokens(a + b + c) == Tokens(a) + Tokens(b) + Tokens(c)
  {
    Concat(a, b);
    Concat(a + b, c);
  }

  /** Concatenation with sentinel-free mark-up on both sides. */
  lemma Wrap(a: seq<char>, x: seq<char>, b: seq<char>)
    requires Sentinel !in a && Sentinel !in b && WellFormed(x)
    ensures WellFormed(a + x + b) && Tokens(a + x + b) == Tokens(x)
  {
    PlainText(a);
    PlainText(b);
    Concat3(a, x, b);
  }

  /** Positions strictly inside a token hold token characters on both sides. */
  lemma TokenInterior(s: seq<char>, p: int)
    ensures TokenLen(s) > 0 && 0 < p < TokenLen(s) ==> TokenChar(s[p - 1]) && TokenChar(s[p])
  {
    if TokenLen(s) > 0 && 0 < p < TokenLen(s) {
      DigitsSpec(s, 1);
    }
  }

  /** Cutting a well-formed string at a boundary gives two well-formed halves. */
  lemma {:induction false} Split(s: seq<char>, p: int)
    requires WellFormed(s) && Boundary(s, p)
    ensures WellFormed(s[..p]) && WellFormed(s[p..])
    ensures Tokens(s) == Tokens(s[..p]) + Tokens(s[p..])
    decreases |s|, 2
  {
    if p == 0 {
      assert s[..p] == [] && s[p..] == s;
    } else if s[0] == Sentinel {
      SplitAtToken(s, p);
    } else {
      SplitAtPlain(s, p);
    }
  }

  lemma {:induction false} SplitAtPlain(s: seq<char>, p: int)
    requires WellFormed(s) && Boundary(s, p) && p > 0 && s != [] && s[0] != Sentinel
    ensures WellFormed(s[..p]) && WellFormed(s[p..])
    ensures Tokens(s) == Tokens(s[..p]) + Tokens(s[p..])
    decreases |s|, 1
  {
    UnfoldPlain(s);
    SplitSuffix(s, 1, p);
    PrefixAtPlain(s, p);
  }

  lemma PrefixAtPlain(s: seq<char>, p: int)
    requires 0 < p <= |s| && s[0] != Sentinel
    ensures WellFormed(s[..p]) <==> WellFormed(s[1..p])
    ensures Tokens(s[..p]) == Tokens(s[1..p])
  {
    var a := s[..p];
    assert a[0] == s[0];
    assert a[1..] == s[1..p];
    UnfoldPlain(a);
  }

  lemma {:induction false} SplitAtToken(s: seq<char>, p: int)
    requires WellFormed(s) && Boundary(s, p) && p > 0 && s != [] && s[0] == Sentinel
    ensures WellFormed(s[..p]) && WellFormed(s[p..])
    ensures Tokens(s) == Tokens(s[..p]) + Tokens(s[p..])
    decreases |s|, 1
  {
    var l := TokenLen(s);
    TokenInterior(s, p);
    SplitTail(s, p);
    PrefixAtToken(s, p);
  }

  lemma {:induction false} SplitTail(s: seq<char>, p: int)
    requires WellFormed(s) && Boundary(s, p) && TokenLen(s) > 0 && TokenLen(s) <= p
    ensures WellFormed(s[TokenLen(s)..p]) && WellFormed(s[p..])
    ensures Tokens(s) == [s[1..TokenLen(s) - 1]] + Tokens(s[TokenLen(s)..p]) + Tokens(s[p..])
    decreases |s|, 0
  {
    var l := TokenLen(s);
    UnfoldToken(s);
    SplitSuffix(s, l, p);
    Assoc([s[1..l - 1]], Tokens(s[l..p]), Tokens(s[p..]));
  }

  /** `Split` on a suffix, restated on slices of the whole text. */
  lemma SplitSuffix(s: seq<char>, l: int, p: int)
    requires 0 <= l <= p <= |s| && WellFormed(s[l..]) && Boundary(s, p)
    ensures WellFormed(s[l..p]) && WellFormed(s[p..])
    ensures Tokens(s[l..]) == Tokens(s[l..p]) + Tokens(s[p..])
    decreases |s| - l, 3
  {
    SuffixCut(s, l, p);
    Split(s[l..], p - l);
  }

  lemma SuffixCut(s: seq<char>, l: int, p: int)
    requires 0 <= l <= p <= |s| && Boundary(s, p)
    ensures Boundary(s[l..], p - l)
    ensures s[l..][..p - l] == s[l..p] && s[l..][p - l..] == s[p..]
  {
  }

  lemma PrefixAtToken(s: seq<char>, p: int)
    requires TokenLen(s) > 0 && TokenLen(s) <= p <= |s|
    ensures WellFormed(s[..p]) <==> WellFormed(s[TokenLen(s)..p])
    ensures Tokens(s[..p]) == [s[1..TokenLen(s) - 1]] + Tokens(s[TokenLen(s)..p])
  {
    var l := TokenLen(s);
    var a := s[..p];
    TokenLenPrefix(s, p);
    assert a[l..] == s[l..p];
    assert a[1..l - 1] == s[1..l - 1];
    UnfoldToken(a);
  }

  lemma TokenLenPrefix(s: seq<char>, p: int)
    requires TokenLen(s) > 0 && TokenLen(s) <= p <= |s|
    ensures TokenLen(s[..p]) == TokenLen(s)
  {
    var k := DigitsFrom(s, 1);
    DigitsPrefix(s, 1, p);
    assert s[..p][0] == s[0] && s[..p][1 + k] == s[1 + k];
  }

  /** Three-way cut `x[..i] + x[i..j] + x[j..]` at two boundaries. */
  lemma Split3(s: seq<char>, i: int, j: int)
    requires WellFormed(s) && Boundary(s, i) && Boundary(s, j) && i <= j
    ensures WellFormed(s[..i]) && WellFormed(s[i..j]) && WellFormed(s[j..])
    ensures Tokens(s) == Tokens(s[..i]) + Tokens(s[i..j]) + Tokens(s[j..])
  {
    Split(s, j);
    assert Boundary(s[..j], i);
    Split(s[..j], i);
    assert s[..j][..i] == s[..i] && s[..j][i..] == s[i..j];
  }
}
