/** Character classes and small string helpers shared by the renderer and the note store.
    The classes follow the JavaScript regular-expression definitions the source relies on. */
module Text {

  datatype Option<T> = None | Some(value: T)

  /** The private-use character the source wraps around code-block indices. */
  const Sentinel: char := '\U{E000}'

  /** JavaScript line terminators: what `.` refuses and what `^`/`$` see under the `m` flag. */
  predicate IsLineTerminator(c: char)
  {
    c == '\n' || c == '\r' || c == '\U{2028}' || c == '\U{2029}'
  }

  /** JavaScript `\s`, which is also the set `String.prototype.trim` removes. */
  predicate IsSpace(c: char)
  {
    c == '\t' || c == '\n' || c == '\U{0B}' || c == '\U{0C}' || c == '\r' || c == ' '
    || c == '\U{A0}' || c == '\U{1680}' || ('\U{2000}' <= c <= '\U{200A}')
    || c == '\U{2028}' || c == '\U{2029}' || c == '\U{202F}' || c == '\U{205F}'
    || c == '\U{3000}' || c == '\U{FEFF}'
  }

  /** JavaScript `\d`. */
  predicate IsDigit(c: char)
  {
    '0' <= c <= '9'
  }

  /** Concatenation is associative; stated once so that longer proofs need not re-derive it
      element by element. */
  lemma Assoc<T>(a: seq<T>, b: seq<T>, c: seq<T>)
    ensures a + (b + c) == (a + b) + c
  {
  }

  /** Six pieces appended to `a` one at a time, or all at once. */
  lemma Append6<T>(a: seq<T>, b: seq<T>, c: seq<T>, d: seq<T>, e: seq<T>, f: seq<T>, g: seq<T>)
    ensures a + b + c + d + e + f + g == a + (b + c + d + e + f + g)
  {
    Assoc(a, b + c + d + e + f, g);
    Assoc(a, b + c + d + e, f);
    Assoc(a, b + c + d, e);
    Assoc(a, b + c, d);
    Assoc(a, b, c);
  }

  /** Where the enclosed text and the rest sit in `[c] + x + [c] + b`. */
  lemma Enclosed<T>(c: T, x: seq<T>, b: seq<T>)
    ensures var t := [c] + x + [c] + b;
      t[0] == c && t[1..] == x + [c] + b && t[1..1 + |x|] == x && t[1 + |x| + 1..] == b
  {
    var t := [c] + x + [c] + b;
    assert t[1..] == x + [c] + b;
    assert t[1..][..|x|] == x && t[1..][|x| + 1..] == b;
  }

  /** Four pieces appended to `a` one at a time, or all at once. */
  lemma Append4<T>(a: seq<T>, b: seq<T>, c: seq<T>, d: seq<T>, e: seq<T>)
    ensures a + b + c + d + e == a + (b + c + d + e)
  {
    Assoc(a, b + c + d, e);
    Assoc(a, b + c, d);
    Assoc(a, b, c);
  }

  /** Six pieces read as two groups of three. */
  lemma Regroup<T>(a: seq<T>, b: seq<T>, c: seq<T>, d: seq<T>, e: seq<T>, f: seq<T>)
    ensures a + b + c + d + e + f == (a + b + c) + (d + e + f)
  {
    Assoc(a + b + c, d + e, f);
    Assoc(a + b + c, d, e);
  }

  /** `x + y` read as its first element and the rest, and the same step backwards. */
  lemma Uncons<T>(x: seq<T>, y: seq<T>, r: seq<T>)
    requires x != []
    ensures (x + y)[0] == x[0] && (x + y)[1..] == x[1..] + y
    ensures [x[0]] + (x[1..] + r) == x + r
  {
  }

  /** Slicing a suffix of `s` is slicing `s`. */
  lemma SliceOfDrop<T>(s: seq<T>, i: int, j: int)
    requires 0 <= i <= j <= |s|
    ensures s[i..][..j - i] == s[i..j] && s[i..][j - i..] == s[j..]
  {
  }

  /** Slices of `a + b` that lie in `a`, and what follows `a`. */
  lemma CatParts<T>(a: seq<T>, b: seq<T>, i: int, j: int)
    requires 0 <= i <= j <= |a|
    ensures (a + b)[i..j] == a[i..j] && (a + b)[|a|..] == b
  {
  }

  /** `s` holds no line terminator: it lies within one line. */
  predicate NoTerminator(s: seq<char>)
  {
    forall k :: 0 <= k < |s| ==> !IsLineTerminator(s[k])
  }

  /** Cutting `a + b` inside `a`. */
  lemma DropCat<T>(a: seq<T>, b: seq<T>, i: int)
    requires 0 <= i <= |a|
    ensures (a + b)[i..] == a[i..] + b && (a + b)[..i] == a[..i]
    ensures 0 < i ==> (a + b)[i - 1] == a[i - 1]
  {
  }

  lemma NoTerminatorCat(a: seq<char>, b: seq<char>)
    requires NoTerminator(a) && NoTerminator(b)
    ensures NoTerminator(a + b)
  {
    forall k | 0 <= k < |a + b| ensures !IsLineTerminator((a + b)[k]) {
      if k >= |a| { assert (a + b)[k] == b[k - |a|]; }
    }
  }

  predicate AllSpace(s: seq<char>)
  {
    forall k :: 0 <= k < |s| ==> IsSpace(s[k])
  }

  /** Length of the longest prefix of `s` made of whitespace (what a greedy `\s*` takes). */
  function SpaceRun(s: seq<char>): (n: nat)
    ensures n <= |s|
    ensures forall k :: 0 <= k < n ==> IsSpace(s[k])
    ensures n < |s| ==> !IsSpace(s[n])
  {
    if s == [] || !IsSpace(s[0]) then 0 else 1 + SpaceRun(s[1..])
  }

  /** Length of the longest prefix of `s` without a line terminator (what a greedy `.*` takes). */
  function LineLen(s: seq<char>): (n: nat)
    ensures n <= |s|
    ensures forall k :: 0 <= k < n ==> !IsLineTerminator(s[k])
    ensures n < |s| ==> IsLineTerminator(s[n])
  {
    if s == [] || IsLineTerminator(s[0]) then 0 else 1 + LineLen(s[1..])
  }

  /** Length of the longest prefix of `s` made of decimal digits (what a greedy `\d+` takes). */
  function DigitRun(s: seq<char>): (n: nat)
    ensures n <= |s|
    ensures forall k :: 0 <= k < n ==> IsDigit(s[k])
    ensures n < |s| ==> !IsDigit(s[n])
  {
    if s == [] || !IsDigit(s[0]) then 0 else 1 + DigitRun(s[1..])
  }

  /** Length of the longest suffix of `s` made of whitespace. */
  function TrailingSpace(s: seq<char>): (n: nat)
    ensures n <= |s|
    ensures forall k :: |s| - n <= k < |s| ==> IsSpace(s[k])
    ensures n < |s| ==> !IsSpace(s[|s| - n - 1])
  {
    if s == [] || !IsSpace(s[|s| - 1]) then 0 else 1 + TrailingSpace(s[..|s| - 1])
  }

  /** `String.prototype.trim`: the result is the middle of `s`, with only whitespace cut off
      at either end, and it neither starts nor ends with whitespace. */
  function Trim(s: seq<char>): (r: seq<char>)
    ensures exists a, b :: 0 <= a <= b <= |s| && r == s[a..b]
                           && (forall k :: 0 <= k < a ==> IsSpace(s[k]))
                           && (forall k :: b <= k < |s| ==> IsSpace(s[k]))
    ensures r != [] ==> !IsSpace(r[0]) && !IsSpace(r[|r| - 1])
  {
    var a := SpaceRun(s);
    var u := s[a..];
    var t := TrailingSpace(u);
    assert t < |u| ==> !IsSpace(u[0]);
    var r := u[..|u| - t];
    assert r == s[a..a + |u| - t];
    r
  }

  /** ASCII part of `String.prototype.toLowerCase`. */
  function LowerChar(c: char): (d: char)
    ensures 'A' <= c <= 'Z' ==> d as int == c as int + 32
    ensures !('A' <= c <= 'Z') ==> d == c
  {
    if 'A' <= c <= 'Z' then (c as int + 32) as char else c
  }

  function Lower(s: seq<char>): (r: seq<char>)
    ensures |r| == |s|
    ensures forall k :: 0 <= k < |s| ==> r[k] == LowerChar(s[k])
  {
    if s == [] then [] else [LowerChar(s[0])] + Lower(s[1..])
  }

  /** The first index of `c` in `s`. */
  function FirstIndex(s: seq<char>, c: char): (r: Option<nat>)
    ensures r.Some? ==> r.value < |s| && s[r.value] == c && c !in s[..r.value]
    ensures r.None? ==> c !in s
  {
    if s == [] then None
    else if s[0] == c then Some(0)
    else match FirstIndex(s[1..], c)
      case None => None
      case Some(k) =>
        assert s[..k + 1] == [s[0]] + s[1..][..k];
        Some(k + 1)
  }

  /** The first `c` after a text without `c` is the one that ends it. */
  lemma {:induction false} FirstIndexAfter(x: seq<char>, c: char, b: seq<char>)
    requires c !in x
    ensures FirstIndex(x + [c] + b, c) == Some(|x|)
    decreases |x|
  {
    if x != [] {
      var s := x + [c] + b;
      assert s[0] == x[0] && s[1..] == x[1..] + [c] + b;
      FirstIndexAfter(x[1..], c, b);
    } else {
      assert x + [c] + b == [c] + b;
    }
  }

  /** `Array.prototype.join("\n")`. */
  function JoinLines(ls: seq<seq<char>>): seq<char>
  {
    if ls == [] then [] else if |ls| == 1 then ls[0] else ls[0] + "\n" + JoinLines(ls[1..])
  }

  /** `q` occurs in `h` at index `i`. */
  predicate OccursAt(h: seq<char>, q: seq<char>, i: int)
  {
    0 <= i && i + |q| <= |h| && h[i..i + |q|] == q
  }

  /** `String.prototype.includes`. */
  function Contains(h: seq<char>, q: seq<char>): (b: bool)
    ensures b <==> exists i :: OccursAt(h, q, i)
  {
    if |q| > |h| then
      assert forall i :: !OccursAt(h, q, i);
      false
    else if h[..|q|] == q then
      assert OccursAt(h, q, 0);
      true
    else
      var b := Contains(h[1..], q);
      if b then
        var i :| OccursAt(h[1..], q, i);
        assert h[1..][i..i + |q|] == h[i + 1..i + 1 + |q|];
        assert OccursAt(h, q, i + 1);
        true
      else
        forall i | OccursAt(h, q, i) ensures i >= 1 && OccursAt(h[1..], q, i - 1) {
          assert h[1..][i - 1..i - 1 + |q|] == h[i..i + |q|];
        }
        false
  }

  /** Decimal digits of `n`, as `${n}` prints a non-negative integer: no leading zero. */
  function Decimal(n: nat): (r: seq<char>)
    ensures |r| >= 1
    ensures forall k :: 0 <= k < |r| ==> IsDigit(r[k])
    ensures |r| > 1 ==> r[0] != '0'
    decreases n
  {
    if n < 10 then [('0' as int + n) as char]
    else Decimal(n / 10) + [('0' as int + n % 10) as char]
  }

  /** The number a run of decimal digits denotes. */
  function ParseDecimal(s: seq<char>): nat
  {
    if s == [] then 0
    else ParseDecimal(s[..|s| - 1]) * 10 + (if IsDigit(s[|s| - 1]) then s[|s| - 1] as int - '0' as int else 0)
  }

  lemma {:induction false} ParseDecimalOfDecimal(n: nat)
    ensures ParseDecimal(Decimal(n)) == n
    decreases n
  {
    var d := Decimal(n);
    if n >= 10 {
      ParseDecimalOfDecimal(n / 10);
      assert d[..|d| - 1] == Decimal(n / 10);
    }
  }

  lemma DecimalInjective(m: nat, n: nat)
    requires Decimal(m) == Decimal(n)
    ensures m == n
  {
    ParseDecimalOfDecimal(m);
    ParseDecimalOfDecimal(n);
  }
}
