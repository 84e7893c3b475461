/**
 * The scanner is local: a token is decided by the bytes it covers, except that an
 * ampersand looks ahead for the rest of a character reference.
 */
module Locality {
  import opened Php
  import opened Markup

  /* ----- one token ----- */

  lemma RegionSwap(x: string, tail: string, other: string, closer: string)
    requires x != "" && closer != "" && tail != ""
    requires RegionLen(x + tail, closer) <= |x|
    ensures RegionLen(x + other, closer) == RegionLen(x + tail, closer)
  {
    StrposInPrefix(x, tail, closer);
    StrposInPrefix(x, other, closer);
  }

  /** Following bytes can only complete a reference that is still open at the end of `x`. */
  lemma EntityInPrefix(x: string, y: string)
    ensures EntityLen(x + y) == EntityLen(x) || (EntityLen(x) == 0 && EntityLen(x + y) > |x|)
  {
    var v, w := Window(x), Window(x + y);
    assert w == v + w[|v|..];
    StrposInPrefix(v, w[|v|..], ";");
    var p, q := Strpos(v, ";", 0), Strpos(w, ";", 0);
    if p >= 1 {
      assert v[1..p] == w[1..p];
    }
  }

  lemma CommentOpener(s: string)
    ensures StartsWith(s, "<!--")
            <==> |s| >= 4 && s[0] == '<' && s[1] == '!' && s[2] == '-' && s[3] == '-'
  {
    if |s| >= 4 {
      var h := s[0..4];
      assert h[0] == s[0] && h[1] == s[1] && h[2] == s[2] && h[3] == s[3];
    }
  }

  /** Four bytes, or a `>` before them, settle whether a comment opens. */
  lemma OpenerInPrefix(x: string, y: string)
    requires |x| >= 4 || Strpos(x, ">", 0) != -1
    ensures StartsWith(x + y, "<!--") <==> StartsWith(x, "<!--")
  {
    hide *;
    CommentOpener(x);
    CommentOpener(x + y);
    var p := Strpos(x, ">", 0);
    if |x| < 4 {
      StrposByte(x, '>');
      assert (x + y)[p] == '>';
    } else {
      var z := x + y;
      assert z[0] == x[0] && z[1] == x[1] && z[2] == x[2] && z[3] == x[3];
    }
  }

  lemma LexSwapComment(x: string, tail: string, other: string)
    requires x != "" && tail != "" && x[0] == '<' && StartsWith(x + tail, "<!--")
    requires |LexAngle(x + tail).raw| <= |x|
    ensures LexAngle(x + other) == LexAngle(x + tail)
  {
    var n := CommentLen(x + tail);
    OpenerInPrefix(x, tail);
    OpenerInPrefix(x, other);
    RegionSwap(x, tail, other, "-->");
    assert (x + tail)[..n] == x[..n] == (x + other)[..n];
  }

  lemma LexSwapTag(x: string, tail: string, other: string)
    requires x != "" && tail != "" && x[0] == '<' && !StartsWith(x + tail, "<!--")
    requires |LexAngle(x + tail).raw| <= |x|
    ensures LexAngle(x + other) == LexAngle(x + tail)
  {
    var n := RegionLen(x + tail, ">");
    StrposInPrefix(x, tail, ">");
    OpenerInPrefix(x, tail);
    OpenerInPrefix(x, other);
    RegionSwap(x, tail, other, ">");
    assert (x + tail)[..n] == x[..n] == (x + other)[..n];
  }

  /** The bytes of `y` complete an open reference that `x` starts with, and the decoder reads it as something else. */
  predicate Completes(x: string, y: string, rules: Rules) {
    EntityLen(x + y) > |x| && Decodes((x + y)[..EntityLen(x + y)], rules)
  }

  /** The scanner takes the reference for what it decodes to, and not byte by byte. */
  predicate Decodes(reference: string, rules: Rules) {
    rules.entity(reference) != reference && rules.entity(reference) != ""
  }

  lemma LexSwapText(x: string, tail: string, other: string, rules: Rules)
    requires x != ""
    requires |LexText(x + tail, rules).raw| <= |x|
    requires !Completes(x, other, rules)
    ensures LexText(x + other, rules) == LexText(x + tail, rules)
  {
    hide EntityLen;
    EntityInPrefix(x, tail);
    EntityInPrefix(x, other);
    var n := EntityLen(x);
    assert (x + tail)[..1] == x[..1] == (x + other)[..1];
    assert (x + tail)[..n] == x[..n] == (x + other)[..n];
  }

  /** What follows a token can be exchanged without changing it. */
  lemma LexSwap(x: string, tail: string, other: string, rules: Rules)
    requires x != "" && tail != ""
    requires |Lex(x + tail, rules).raw| <= |x|
    requires !Completes(x, other, rules)
    ensures Lex(x + other, rules) == Lex(x + tail, rules)
  {
    hide LexAngle, LexText, RegionLen, EntityLen, Completes;
    assert (x + tail)[0] == x[0] == (x + other)[0];
    if x[0] == '<' {
      if StartsWith(x + tail, "<!--") {
        LexSwapComment(x, tail, other);
      } else {
        LexSwapTag(x, tail, other);
      }
    } else if rules.shortcodes && x[0] == '[' {
      RegionSwap(x, tail, other, "]");
      var n := RegionLen(x + tail, "]");
      assert (x + tail)[..n] == x[..n] == (x + other)[..n];
    } else if IsBlank(x[0]) {
      assert (x + tail)[..1] == x[..1] == (x + other)[..1];
    } else {
      LexSwapText(x, tail, other, rules);
    }
  }

  /* ----- the whole source ----- */

  /** A boundary splits the token list. */
  lemma {:induction false} TokensSplit(a: string, x: string, rules: Rules)
    requires Boundary(a + x, |a|, rules)
    ensures Tokens(a + x, rules) == Tokens(a, rules) + Tokens(x, rules)
    decreases |a|
  {
    hide Lex;
    if a == "" {
      assert a + x == x;
      assert Tokens(a, rules) + Tokens(x, rules) == Tokens(x, rules);
    } else if x == "" {
      assert a + x == a;
      assert Tokens(a, rules) + Tokens(x, rules) == Tokens(a, rules);
    } else {
      var t := Lex(a + x, rules);
      var n := |t.raw|;
      assert a + "" == a;
      assert !Completes(a, "", rules);
      LexSwap(a, x, "", rules);
      assert (a + x)[n..] == a[n..] + x;
      TokensSplit(a[n..], x, rules);
      assert [t] + (Tokens(a[n..], rules) + Tokens(x, rules)) == ([t] + Tokens(a[n..], rules)) + Tokens(x, rules);
    }
  }

  lemma EntityBytes(s: string, k: nat)
    requires 1 <= k < EntityLen(s)
    ensures IsAlnum(s[k]) || s[k] == '#' || s[k] == ';'
  {
    var n := EntityLen(s);
    if k < n - 1 {
      assert s[1..n - 1][k - 1] == s[k];
    }
  }

  /* ----- tiling ----- */

  lemma {:induction false} SizeOfConcat(a: seq<Token>, b: seq<Token>)
    ensures Size(a + b) == Size(a) + Size(b)
    decreases |b|
  {
    if b == [] {
      assert a + b == a;
    } else {
      SizeOfConcat(a, b[..|b| - 1]);
      assert (a + b)[..|a + b| - 1] == a + b[..|b| - 1];
    }
  }

  lemma {:induction false} SourceOfConcat(a: seq<Token>, b: seq<Token>)
    ensures Source(a + b) == Source(a) + Source(b)
    decreases |b|
  {
    if b == [] {
      assert a + b == a;
      assert Source(a) + "" == Source(a);
    } else {
      var front, t := b[..|b| - 1], b[|b| - 1];
      SourceOfConcat(a, front);
      assert (a + b)[..|a + b| - 1] == a + front;
      assert Source(a) + Source(front) + t.raw == Source(a) + (Source(front) + t.raw);
    }
  }

  lemma SizeOfOne(t: Token)
    ensures Size([t]) == |t.raw| && Source([t]) == t.raw
  {
    assert [t][..0] == [];
    assert Source([]) + t.raw == t.raw;
  }

  /** The tokens tile the source: no byte is lost, repeated or moved. */
  lemma {:induction false} TokensTile(s: string, rules: Rules)
    ensures Source(Tokens(s, rules)) == s
    ensures Size(Tokens(s, rules)) == |s|
    decreases |s|
  {
    hide Lex;
    if s == "" {
    } else {
      var t := Lex(s, rules);
      var rest := s[|t.raw|..];
      TokensTile(rest, rules);
      SizeOfOne(t);
      SizeOfConcat([t], Tokens(rest, rules));
      SourceOfConcat([t], Tokens(rest, rules));
      assert s == t.raw + rest;
    }
  }

  lemma ConsInjective(t: Token, ts: seq<Token>, u: Token, us: seq<Token>)
    requires [t] + ts == [u] + us
    ensures t == u && ts == us
  {
    assert ([t] + ts)[0] == t && ([t] + ts)[1..] == ts && ([u] + us)[1..] == us;
  }

  /** Every cut of the token list is a boundary ... */
  lemma {:induction false} CutIsBoundary(s: string, front: seq<Token>, back: seq<Token>, rules: Rules)
    requires Tokens(s, rules) == front + back
    ensures Size(front) <= |s| && Boundary(s, Size(front), rules) && Tokens(s[Size(front)..], rules) == back
    decreases |s|
  {
    hide Lex;
    if front == [] {
      assert front + back == back && s[0..] == s;
    } else {
      var t, rest := front[0], front[1..];
      assert front + back == [t] + (rest + back);
      assert |Tokens(s, rules)| > 0;
      ConsInjective(Lex(s, rules), Tokens(s[|Lex(s, rules).raw|..], rules), t, rest + back);
      CutIsBoundary(s[|t.raw|..], rest, back, rules);
      SizeOfOne(t);
      SizeOfConcat([t], rest);
      assert front == [t] + rest;
      assert s[|t.raw| + Size(rest)..] == s[|t.raw|..][Size(rest)..];
    }
  }

  /** ... and its two sides are the tokens of the two parts. */
  lemma CutAtToken(s: string, m: nat, rules: Rules)
    requires m <= |Tokens(s, rules)|
    ensures var b := Size(Tokens(s, rules)[..m]);
            && b <= |s|
            && Boundary(s, b, rules)
            && Tokens(s[..b], rules) == Tokens(s, rules)[..m]
            && Tokens(s[b..], rules) == Tokens(s, rules)[m..]
  {
    hide Lex, Tokens, Boundary, Size;
    var toks := Tokens(s, rules);
    var b := Size(toks[..m]);
    assert toks == toks[..m] + toks[m..];
    CutIsBoundary(s, toks[..m], toks[m..], rules);
    assert s[..b] + s[b..] == s;
    TokensSplit(s[..b], s[b..], rules);
    assert toks == Tokens(s[..b], rules) + toks[m..];
    assert |Tokens(s[..b], rules)| == m;
  }
}
