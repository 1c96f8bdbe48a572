/** The first stage of `mdToHtml` (app.js:143-147): an empty note renders as the empty string,
    anything else is HTML-escaped by three global replacements, `&` first. */
module Escaping {
  import opened Text

  /** `s.replace(/c/g, rep)` for a one-character pattern. */
  function ReplaceChar(s: seq<char>, c: char, rep: seq<char>): seq<char>
  {
    if s == [] then []
    else (if s[0] == c then rep else [s[0]]) + ReplaceChar(s[1..], c, rep)
  }

  /** A replacement that does not write `c` leaves no `c`, and one with no `c` to replace
      changes nothing. */
  lemma {:induction false} ReplaceCharSpec(s: seq<char>, c: char, rep: seq<char>)
    ensures c !in rep ==> c !in ReplaceChar(s, c, rep)
    ensures c !in s ==> ReplaceChar(s, c, rep) == s
  {
    if s != [] {
      ReplaceCharSpec(s[1..], c, rep);
      assert c !in s ==> c !in s[1..];
      Uncons(s, [], ReplaceChar(s[1..], c, rep));
      assert s[1..] + [] == s[1..] && s + [] == s;
    }
  }

  lemma {:induction false} ReplaceCharConcat(a: seq<char>, b: seq<char>, c: char, rep: seq<char>)
    ensures ReplaceChar(a + b, c, rep) == ReplaceChar(a, c, rep) + ReplaceChar(b, c, rep)
  {
    if a != [] {
      assert (a + b)[1..] == a[1..] + b;
      ReplaceCharConcat(a[1..], b, c, rep);
    } else {
      assert a + b == b;
    }
  }

  /** The three replacements of app.js:145-147, in the source's order. */
  function Escape(s: seq<char>): seq<char>
  {
    ReplaceChar(ReplaceChar(ReplaceChar(s, '&', "&amp;"), '<', "&lt;"), '>', "&gt;")
  }

  /** What one input character becomes. */
  function EscapeChar(c: char): seq<char>
  {
    if c == '&' then "&amp;" else if c == '<' then "&lt;" else if c == '>' then "&gt;" else [c]
  }

  /** The reference escaper: every character is replaced on its own. */
  function EscapeEach(s: seq<char>): seq<char>
  {
    if s == [] then [] else EscapeChar(s[0]) + EscapeEach(s[1..])
  }

  /** Because `&` is replaced first, the three passes never touch each other's output:
      the pipeline equals the character-by-character escaper, so each `&` of the input
      becomes exactly one `&amp;` and nothing is escaped twice. */
  lemma {:induction false} EscapeIsCharwise(s: seq<char>)
    ensures Escape(s) == EscapeEach(s)
  {
    if s != [] {
      var x, t := s[0], s[1..];
      assert s == [x] + t;
      EscapeIsCharwise(t);
      EscapeSplit([x], t);
      EscapeOne(x);
    }
  }

  /** The three passes distribute over concatenation. */
  lemma EscapeSplit(a: seq<char>, b: seq<char>)
    ensures Escape(a + b) == Escape(a) + Escape(b)
  {
    ReplaceCharConcat(a, b, '&', "&amp;");
    var a1, a2 := ReplaceChar(a, '&', "&amp;"), ReplaceChar(b, '&', "&amp;");
    ReplaceCharConcat(a1, a2, '<', "&lt;");
    var b1, b2 := ReplaceChar(a1, '<', "&lt;"), ReplaceChar(a2, '<', "&lt;");
    ReplaceCharConcat(b1, b2, '>', "&gt;");
  }

  /** One character goes through the three passes as the reference escaper says. */
  lemma EscapeOne(x: char)
    ensures Escape([x]) == EscapeChar(x)
  {
    var a := ReplaceChar([x], '&', "&amp;");
    assert [x][1..] == [];
    assert a == (if x == '&' then "&amp;" else [x]) by {
      assert a == (if x == '&' then "&amp;" else [x]) + ReplaceChar([], '&', "&amp;");
    }
    if x == '&' {
      ReplaceCharSpec(a, '<', "&lt;");
      ReplaceCharSpec(a, '>', "&gt;");
    } else {
      var b := ReplaceChar([x], '<', "&lt;");
      assert b == (if x == '<' then "&lt;" else [x]) + ReplaceChar([], '<', "&lt;");
      if x == '<' {
        ReplaceCharSpec(b, '>', "&gt;");
      } else {
        assert ReplaceChar([x], '>', "&gt;") == (if x == '>' then "&gt;" else [x]) + ReplaceChar([], '>', "&gt;");
      }
    }
  }

  lemma {:induction false} EscapeEachConcat(a: seq<char>, b: seq<char>)
    ensures EscapeEach(a + b) == EscapeEach(a) + EscapeEach(b)
  {
    if a != [] {
      assert (a + b)[1..] == a[1..] + b;
      EscapeEachConcat(a[1..], b);
    } else {
      assert a + b == b;
    }
  }

  /** One of the three entities the escaper writes starts at index `k` of `t`. */
  predicate EntityAt(t: seq<char>, k: int)
  {
    OccursAt(t, "&amp;", k) || OccursAt(t, "&lt;", k) || OccursAt(t, "&gt;", k)
  }

  /** The escaped text holds no raw `<` or `>`, and every `&` in it begins an entity. */
  lemma {:induction false} EscapedIsSafe(s: seq<char>)
    ensures '<' !in Escape(s) && '>' !in Escape(s)
    ensures forall k :: 0 <= k < |Escape(s)| && Escape(s)[k] == '&' ==> EntityAt(Escape(s), k)
  {
    EscapeIsCharwise(s);
    EscapeEachSafe(s);
  }

  lemma OccursAtShift(h: seq<char>, t: seq<char>, q: seq<char>, j: int)
    requires OccursAt(t, q, j)
    ensures OccursAt(h + t, q, |h| + j)
  {
    assert (h + t)[|h| + j..|h| + j + |q|] == t[j..j + |q|];
  }

  lemma {:induction false} EscapeEachSafe(s: seq<char>)
    ensures '<' !in EscapeEach(s) && '>' !in EscapeEach(s)
    ensures forall k :: 0 <= k < |EscapeEach(s)| && EscapeEach(s)[k] == '&' ==> EntityAt(EscapeEach(s), k)
  {
    if s != [] {
      EscapeEachSafe(s[1..]);
      var h, t := EscapeChar(s[0]), EscapeEach(s[1..]);
      var r := h + t;
      forall k | 0 <= k < |r| && r[k] == '&' ensures EntityAt(r, k) {
        if k < |h| {
          assert k == 0 && r[..|h|] == h;
        } else {
          var j := k - |h|;
          assert t[j] == '&';
          if OccursAt(t, "&amp;", j) { OccursAtShift(h, t, "&amp;", j); }
          else if OccursAt(t, "&lt;", j) { OccursAtShift(h, t, "&lt;", j); }
          else { OccursAtShift(h, t, "&gt;", j); }
        }
      }
    }
  }

  /** Reads the three entities back; every other character stands for itself. */
  function Unescape(t: seq<char>): seq<char>
  {
    if t == [] then []
    else if |t| >= 5 && t[..5] == "&amp;" then ['&'] + Unescape(t[5..])
    else if |t| >= 4 && t[..4] == "&lt;" then ['<'] + Unescape(t[4..])
    else if |t| >= 4 && t[..4] == "&gt;" then ['>'] + Unescape(t[4..])
    else [t[0]] + Unescape(t[1..])
  }

  /** The escaper loses nothing: unescaping its output gives the note back. */
  lemma {:induction false} UnescapeEscape(s: seq<char>)
    ensures Unescape(Escape(s)) == s
  {
    EscapeIsCharwise(s);
    UnescapeEscapeEach(s);
  }

  lemma {:induction false} UnescapeEscapeEach(s: seq<char>)
    ensures Unescape(EscapeEach(s)) == s
  {
    if s != [] {
      UnescapeEscapeEach(s[1..]);
      var h, t := EscapeChar(s[0]), EscapeEach(s[1..]);
      var r := h + t;
      assert r[|h|..] == t;
      if s[0] == '&' {
        assert r[..5] == "&amp;";
      } else if s[0] == '<' {
        assert r[..4] == "&lt;";
        assert |r| >= 5 ==> r[..5] != "&amp;" by { assert r[1] != "&amp;"[1]; }
      } else if s[0] == '>' {
        assert r[..4] == "&gt;";
        assert |r| >= 5 ==> r[..5] != "&amp;" by { assert r[1] != "&amp;"[1]; }
        assert r[..4] != "&lt;" by { assert r[1] != "&lt;"[1]; }
      } else {
        assert r[0] == s[0];
        assert |r| >= 5 ==> r[..5] != "&amp;" by { assert |r| >= 5 ==> r[..5][0] == r[0]; }
        assert |r| >= 4 ==> r[..4] != "&lt;" by { assert |r| >= 4 ==> r[..4][0] == r[0]; }
        assert |r| >= 4 ==> r[..4] != "&gt;" by { assert |r| >= 4 ==> r[..4][0] == r[0]; }
        assert r[1..] == t;
      }
    }
  }

  /** Escaping adds no private-use sentinel and keeps every one already there. */
  lemma {:induction false} EscapeKeepsSentinelFree(s: seq<char>)
    ensures Sentinel in Escape(s) <==> Sentinel in s
  {
    EscapeIsCharwise(s);
    EscapeEachKeeps(s, Sentinel);
  }

  /** The double quote is not among the escaped characters: a `"` of the note reaches the
      markup as it is, and escaping writes none of its own. */
  lemma EscapeKeepsQuotes(s: seq<char>)
    ensures '"' in Escape(s) <==> '"' in s
    ensures Escape("\"") == "\""
  {
    EscapeIsCharwise(s);
    EscapeEachKeeps(s, '"');
    EscapeOne('"');
  }

  /** A character that neither is escaped nor occurs in an entity is kept, and none is added. */
  lemma {:induction false} EscapeEachKeeps(s: seq<char>, c: char)
    requires c !in "&<>;amplgt"
    ensures c in EscapeEach(s) <==> c in s
  {
    if s != [] {
      EscapeEachKeeps(s[1..], c);
      assert s == [s[0]] + s[1..];
    }
  }
}
