/** Fenced-code extraction (app.js:148-152): every match of the lazy pattern
    ```` ```([\s\S]*?)``` ```` is pushed onto the `blocks` table and replaced by the
    token for its index. */
module Fences {
  import opened Text
  import opened Sentinels

  /** Three backticks start at index `k`. */
  predicate FenceAt(s: seq<char>, k: int)
  {
    0 <= k && k + 3 <= |s| && s[k] == '`' && s[k + 1] == '`' && s[k + 2] == '`'
  }

  /** The first fence of `s`: what the lazy `[\s\S]*?` stops at. */
  function FindFence(s: seq<char>): (r: Option<nat>)
    ensures r.Some? ==> FenceAt(s, r.value) && forall k :: 0 <= k < r.value ==> !FenceAt(s, k)
    ensures r.None? ==> forall k :: !FenceAt(s, k)
  {
    if |s| < 3 then None
    else if FenceAt(s, 0) then Some(0)
    else match FindFence(s[1..])
      case None =>
        assert forall k :: FenceAt(s, k) ==> k == 0 || FenceAt(s[1..], k - 1);
        None
      case Some(j) =>
        assert forall k :: 0 <= k < j + 1 && FenceAt(s, k) ==> k == 0 || FenceAt(s[1..], k - 1);
        Some(j + 1)
  }

  /** The rewritten text and the table of code bodies. */
  datatype Extraction = Extraction(text: seq<char>, blocks: seq<seq<char>>)

  /** The global replacement, scanning from the left; `n` is the length of the table so far,
      so the next block gets token `n`. An opening fence with no closing fence after it is
      not a match and stays in the text. */
  function ExtractFrom(s: seq<char>, n: nat): (e: Extraction)
    decreases |s|
  {
    if s == [] then Extraction([], [])
    else if FenceAt(s, 0) && FindFence(s[3..]).Some? then
      var j := FindFence(s[3..]).value;
      var rest := ExtractFrom(s[3 + j + 3..], n + 1);
      Extraction(Token(n) + rest.text, [s[3..3 + j]] + rest.blocks)
    else
      var rest := ExtractFrom(s[1..], n);
      Extraction([s[0]] + rest.text, rest.blocks)
  }

  /** `src.replace(/```([\s\S]*?)```/g, …)` with the empty table. */
  function Extract(s: seq<char>): Extraction
  {
    ExtractFrom(s, 0)
  }

  /** Puts the fences back: each token is replaced by the next table entry between fences. */
  function Restore(t: seq<char>, bs: seq<seq<char>>): seq<char>
    decreases |t|
  {
    if t == [] then []
    else if TokenLen(t) > 0 && bs != [] then "```" + bs[0] + "```" + Restore(t[TokenLen(t)..], bs[1..])
    else [t[0]] + Restore(t[1..], bs)
  }

  /** Extraction loses nothing: restoring the fences around the stored bodies gives back the
      text, so the i-th stored body is the inner text of the i-th fence pair. */
  lemma {:induction false} RestoreExtract(s: seq<char>, n: nat)
    requires Sentinel !in s
    ensures Restore(ExtractFrom(s, n).text, ExtractFrom(s, n).blocks) == s
    decreases |s|, 1
  {
    if s == [] {
    } else if FenceAt(s, 0) && FindFence(s[3..]).Some? {
      RestoreExtractMatch(s, n);
    } else {
      assert Sentinel !in s[1..];
      RestoreExtract(s[1..], n);
      var rest := ExtractFrom(s[1..], n);
      var t := [s[0]] + rest.text;
      assert ExtractFrom(s, n) == Extraction(t, rest.blocks);
      assert TokenLen(t) == 0;
      assert t[1..] == rest.text;
      assert Restore(t, rest.blocks) == [s[0]] + Restore(rest.text, rest.blocks);
      assert s == [s[0]] + s[1..];
    }
  }

  lemma {:induction false} RestoreExtractMatch(s: seq<char>, n: nat)
    requires Sentinel !in s && FenceAt(s, 0) && FindFence(s[3..]).Some?
    ensures Restore(ExtractFrom(s, n).text, ExtractFrom(s, n).blocks) == s
    decreases |s|, 0
  {
    var j := FindFence(s[3..]).value;
    var u := s[3 + j + 3..];
    var b := s[3..3 + j];
    assert Sentinel !in u;
    RestoreExtract(u, n + 1);
    var rest := ExtractFrom(u, n + 1);
    ExtractAtFence(s, n, j);
    RestoreToken(n, rest.text, b, rest.blocks);
    FencedPieces(s, j);
  }

  /** A token with a table entry left is put back as that entry between fences. */
  lemma RestoreToken(n: nat, y: seq<char>, b: seq<char>, bs: seq<seq<char>>)
    ensures Restore(Token(n) + y, [b] + bs) == "```" + b + "```" + Restore(y, bs)
  {
    var t := Token(n) + y;
    TokenLenOfToken(n, y);
    assert t[TokenLen(t)..] == y;
    assert ([b] + bs)[1..] == bs;
  }

  lemma FencedPieces(s: seq<char>, j: nat)
    requires FenceAt(s, 0) && FenceAt(s, 3 + j)
    ensures s == "```" + s[3..3 + j] + "```" + s[3 + j + 3..]
  {
    FenceSlice(s, 0);
    FenceSlice(s, 3 + j);
    assert s == s[..3] + s[3..3 + j] + s[3 + j..3 + j + 3] + s[3 + j + 3..];
  }

  lemma FenceSlice(s: seq<char>, k: int)
    requires FenceAt(s, k)
    ensures s[k..k + 3] == "```"
  {
  }

  /** Each stored body is the shortest possible: it contains no fence of its own. */
  lemma {:induction false} BlocksHoldNoFence(s: seq<char>, n: nat)
    ensures forall i, k :: 0 <= i < |ExtractFrom(s, n).blocks| ==> !FenceAt(ExtractFrom(s, n).blocks[i], k)
    decreases |s|
  {
    if s == [] {
    } else if FenceAt(s, 0) && FindFence(s[3..]).Some? {
      var j := FindFence(s[3..]).value;
      BlocksHoldNoFence(s[3 + j + 3..], n + 1);
      var b := s[3..3 + j];
      forall k ensures !FenceAt(b, k) {
        if FenceAt(b, k) {
          assert FenceAt(s[3..], k);
        }
      }
    } else {
      BlocksHoldNoFence(s[1..], n);
    }
  }

  /** `Decimal(n)`, ..., `Decimal(n + m - 1)`: the token texts a run of `m` extractions writes. */
  function Indices(n: nat, m: nat): (r: seq<seq<char>>)
    ensures |r| == m && forall i :: 0 <= i < m ==> r[i] == Decimal(n + i)
    decreases m
  {
    if m == 0 then [] else [Decimal(n)] + Indices(n + 1, m - 1)
  }

  /** The extracted text is well formed and its tokens number the table entries in order. */
  lemma {:induction false} ExtractedTokens(s: seq<char>, n: nat)
    requires Sentinel !in s
    ensures WellFormed(ExtractFrom(s, n).text)
    ensures Tokens(ExtractFrom(s, n).text) == Indices(n, |ExtractFrom(s, n).blocks|)
    decreases |s|, 1
  {
    if s == [] {
    } else if FenceAt(s, 0) && FindFence(s[3..]).Some? {
      ExtractedTokensMatch(s, n);
    } else {
      assert Sentinel !in s[1..];
      ExtractedTokens(s[1..], n);
      var rest := ExtractFrom(s[1..], n);
      GluePlain(s[0], rest.text);
    }
  }

  lemma {:induction false} ExtractedTokensMatch(s: seq<char>, n: nat)
    requires Sentinel !in s && FenceAt(s, 0) && FindFence(s[3..]).Some?
    ensures WellFormed(ExtractFrom(s, n).text)
    ensures Tokens(ExtractFrom(s, n).text) == Indices(n, |ExtractFrom(s, n).blocks|)
    decreases |s|, 0
  {
    var j := FindFence(s[3..]).value;
    var u := s[3 + j + 3..];
    assert Sentinel !in u;
    ExtractedTokens(u, n + 1);
    var rest := ExtractFrom(u, n + 1);
    TokenThen(n, rest.text);
    ExtractAtFence(s, n, j);
    assert Indices(n, 1 + |rest.blocks|) == [Decimal(n)] + Indices(n + 1, |rest.blocks|);
  }

  /** A fence pair becomes the next token and the next table entry. */
  lemma ExtractAtFence(s: seq<char>, n: nat, j: nat)
    requires FenceAt(s, 0) && FindFence(s[3..]) == Some(j)
    ensures var rest := ExtractFrom(s[3 + j + 3..], n + 1);
      ExtractFrom(s, n) == Extraction(Token(n) + rest.text, [s[3..3 + j]] + rest.blocks)
  {
  }

  /** Two fences that do not overlap. */
  predicate HasFencePair(s: seq<char>)
  {
    exists i, j | 0 <= i && i + 3 <= j < |s| :: FenceAt(s, i) && FenceAt(s, j)
  }

  /** An opening fence without a closing one is never matched: text with no complete fence
      pair comes out unchanged, with an empty table. */
  lemma {:induction false} UnclosedFenceStaysLiteral(s: seq<char>, n: nat)
    ensures !HasFencePair(s) ==> ExtractFrom(s, n) == Extraction(s, [])
    decreases |s|
  {
    if s == [] {
    } else if FenceAt(s, 0) && FindFence(s[3..]).Some? {
      var j := FindFence(s[3..]).value;
      assert FenceAt(s, 3 + j);
      assert HasFencePair(s);
    } else {
      UnclosedFenceStaysLiteral(s[1..], n);
      if !HasFencePair(s) {
        forall i, j | FenceAt(s[1..], i) && FenceAt(s[1..], j) && j >= i + 3
          ensures FenceAt(s, i + 1) && FenceAt(s, j + 1)
        {
        }
        assert s == [s[0]] + s[1..];
      }
    }
  }

  /** The replacement takes every complete fence pair: none is left in the text it writes.
      A fence the scan passes over has no closing fence after it, and tokens hold no
      backtick. */
  lemma {:induction false} ExtractTakesEveryPair(s: seq<char>, n: nat)
    ensures !HasFencePair(ExtractFrom(s, n).text)
    decreases |s|
  {
    if s == [] {
    } else if FenceAt(s, 0) && FindFence(s[3..]).Some? {
      var j := FindFence(s[3..]).value;
      ExtractTakesEveryPair(s[3 + j + 3..], n + 1);
      NoPairAfterMatch(s, n, j);
    } else if FenceAt(s, 0) {
      NoPairAfterLoneFence(s);
      UnclosedFenceStaysLiteral(s, n);
    } else {
      ExtractTakesEveryPair(s[1..], n);
      TicksBack(s, n, 3);
      NoPairAfterPlain(s, n);
    }
  }

  lemma NoPairAfterMatch(s: seq<char>, n: nat, j: nat)
    requires FenceAt(s, 0) && FindFence(s[3..]) == Some(j)
    requires !HasFencePair(ExtractFrom(s[3 + j + 3..], n + 1).text)
    ensures !HasFencePair(ExtractFrom(s, n).text)
  {
    var rest := ExtractFrom(s[3 + j + 3..], n + 1);
    ExtractAtFence(s, n, j);
    TokenHasNoTick(n);
    FencesBehind(Token(n), rest.text);
  }

  lemma NoPairAfterLoneFence(s: seq<char>)
    requires |s| >= 3 && FindFence(s[3..]).None?
    ensures !HasFencePair(s)
  {
    forall i, j | 0 <= i && i + 3 <= j < |s| && FenceAt(s, i) && FenceAt(s, j)
      ensures FenceAt(s[3..], j - 3)
    {
    }
  }

  lemma NoPairAfterPlain(s: seq<char>, n: nat)
    requires s != [] && !FenceAt(s, 0)
    requires !HasFencePair(ExtractFrom(s[1..], n).text)
    requires Ticks(ExtractFrom(s, n).text, 3) ==> Ticks(s, 3)
    ensures !HasFencePair(ExtractFrom(s, n).text)
  {
    var rest := ExtractFrom(s[1..], n);
    var t := [s[0]] + rest.text;
    assert ExtractFrom(s, n).text == t;
    assert !Ticks(s, 3);
    assert !FenceAt(t, 0);
    forall i, j | 0 <= i && i + 3 <= j < |t| && FenceAt(t, i) && FenceAt(t, j)
      ensures i >= 1 && FenceAt(rest.text, i - 1) && FenceAt(rest.text, j - 1)
    {
    }
  }

  /** The first `k` characters are backticks. */
  predicate Ticks(x: seq<char>, k: nat)
  {
    k <= |x| && forall i :: 0 <= i < k ==> x[i] == '`'
  }

  /** Backticks at the head of the extracted text were at the head of the input already,
      since a match writes a sentinel first. */
  lemma {:induction false} TicksBack(s: seq<char>, n: nat, k: nat)
    ensures Ticks(ExtractFrom(s, n).text, k) ==> Ticks(s, k)
    decreases k
  {
    var t := ExtractFrom(s, n).text;
    if k > 0 && Ticks(t, k) {
      MatchWritesSentinel(s, n);
      var rest := ExtractFrom(s[1..], n);
      assert t == [s[0]] + rest.text;
      assert Ticks(rest.text, k - 1) by {
        assert forall i :: 0 <= i < k - 1 ==> rest.text[i] == t[i + 1];
      }
      TicksBack(s[1..], n, k - 1);
      assert forall i :: 1 <= i < k ==> s[i] == s[1..][i - 1];
    }
  }

  /** A match writes a sentinel first. */
  lemma MatchWritesSentinel(s: seq<char>, n: nat)
    ensures FenceAt(s, 0) && FindFence(s[3..]).Some? ==> ExtractFrom(s, n).text[0] == Sentinel
  {
  }

  /** A token holds no backtick. */
  lemma TokenHasNoTick(n: nat)
    ensures '`' !in Token(n)
  {
    var d := Decimal(n);
    assert Token(n) == [Sentinel] + d + [Sentinel];
    assert '`' !in d;
  }

  /** A fence behind a prefix without backticks is a fence of what follows the prefix. */
  lemma FencesBehind(a: seq<char>, y: seq<char>)
    requires '`' !in a
    ensures forall k :: FenceAt(a + y, k) ==> k >= |a| && FenceAt(y, k - |a|)
  {
    forall k | FenceAt(a + y, k)
      ensures k >= |a| && FenceAt(y, k - |a|)
    {
      assert (a + y)[k] == '`';
    }
  }
}
