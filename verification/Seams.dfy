/**
 * Joining two stretches of source: when the tokens of the whole are the tokens of the parts, and
 * what happens when a character reference forms across the seam.
 */
module Seams {
  import opened Php
  import opened Markup
  import opened Locality

  /* ----- closed stretches ----- */

  /** A comment, tag or shortcode opens here and is not closed in the rest of `s`. */
  predicate OpenRegion(s: string, rules: Rules)
    requires s != ""
  {
    if s[0] == '<' then Strpos(s, if StartsWith(s, "<!--") then "-->" else ">", 0) == -1
    else rules.shortcodes && s[0] == '[' && Strpos(s, "]", 0) == -1
  }

  /** Every comment, tag and shortcode that opens in `s` is closed in it. */
  predicate Closed(s: string, rules: Rules)
    decreases |s|
  {
    s == "" || (!OpenRegion(s, rules) && Closed(s[|Lex(s, rules).raw|..], rules))
  }

  /** A token other than an open region does not change when more follows, unless that completes a reference. */
  lemma LexExtend(x: string, y: string, rules: Rules)
    requires x != "" && !OpenRegion(x, rules) && !Completes(x, y, rules)
    ensures Lex(x + y, rules) == Lex(x, rules)
  {
    hide LexText, EntityLen, Completes, CommentKind, TagName;
    assert (x + y)[0] == x[0];
    if x[0] == '<' {
      if StartsWith(x, "<!--") {
        OpenerInPrefix(x, y);
        StrposInPrefix(x, y, "-->");
        assert (x + y)[..CommentLen(x)] == x[..CommentLen(x)];
      } else {
        OpenerInPrefix(x, y);
        StrposInPrefix(x, y, ">");
        assert (x + y)[..RegionLen(x, ">")] == x[..RegionLen(x, ">")];
      }
    } else if rules.shortcodes && x[0] == '[' {
      StrposInPrefix(x, y, "]");
      assert (x + y)[..RegionLen(x, "]")] == x[..RegionLen(x, "]")];
    } else if IsBlank(x[0]) {
      assert (x + y)[..1] == x[..1];
    } else {
      assert x + "" == x;
      LexSwapText(x, "", y, rules);
    }
  }

  /** A token that stops before the end of the source closes its region. */
  lemma StoppedIsClosed(x: string, tail: string, rules: Rules)
    requires x != "" && tail != "" && |Lex(x + tail, rules).raw| <= |x|
    ensures !OpenRegion(x, rules)
  {
    hide LexText, EntityLen, CommentKind, TagName;
    assert (x + tail)[0] == x[0];
    if x[0] == '<' {
      if StartsWith(x + tail, "<!--") {
        StrposInPrefix(x, tail, "-->");
      } else {
        StrposInPrefix(x, tail, ">");
      }
      OpenerInPrefix(x, tail);
    } else if rules.shortcodes && x[0] == '[' {
      StrposInPrefix(x, tail, "]");
    }
  }

  /** Whatever ends at a token boundary with more to follow is closed. */
  lemma {:induction false} BoundaryIsClosed(a: string, tail: string, rules: Rules)
    requires Boundary(a + tail, |a|, rules) && tail != ""
    ensures Closed(a, rules)
    decreases |a|
  {
    hide Lex, OpenRegion;
    if a == "" {
    } else {
      var n := |Lex(a + tail, rules).raw|;
      StoppedIsClosed(a, tail, rules);
      assert a + "" == a && !Completes(a, "", rules);
      LexSwap(a, tail, "", rules);
      assert (a + tail)[n..] == a[n..] + tail;
      BoundaryIsClosed(a[n..], tail, rules);
    }
  }

  /* ----- joining ----- */

  /** The `&` at `j` starts a reference that only `y` completes, and the decoder reads as something else. */
  predicate SeamAt(a: string, y: string, rules: Rules, j: int) {
    0 <= j < |a| && a[j] == '&' && Completes(a[j..], y, rules)
  }

  /** No reference forms across the seam between `a` and `y`. */
  predicate NoSeam(a: string, y: string, rules: Rules) {
    forall j :: 0 <= j < |a| ==> !SeamAt(a, y, rules, j)
  }

  lemma CompletesAtAmpersand(a: string, y: string, rules: Rules)
    requires a != "" && Completes(a, y, rules)
    ensures SeamAt(a, y, rules, 0)
  {
    assert a[0..] == a && (a + y)[0] == a[0];
  }

  lemma SeamOfRest(a: string, y: string, rules: Rules, n: nat, j: int)
    requires n <= |a|
    ensures SeamAt(a[n..], y, rules, j - n) <==> j >= n && SeamAt(a, y, rules, j)
  {
    if n <= j < |a| {
      assert a[n..][j - n..] == a[j..];
    }
  }

  /** Without one the tokens of the whole are those of the parts. */
  lemma {:induction false} Joined(a: string, y: string, rules: Rules)
    requires Closed(a, rules) && NoSeam(a, y, rules)
    ensures Tokens(a + y, rules) == Tokens(a, rules) + Tokens(y, rules)
    decreases |a|
  {
    hide Lex, OpenRegion, SeamAt, Completes;
    if a == "" {
      assert a + y == y;
      assert Tokens(a, rules) + Tokens(y, rules) == Tokens(y, rules);
    } else {
      var t := Lex(a, rules);
      var n := |t.raw|;
      if Completes(a, y, rules) {
        CompletesAtAmpersand(a, y, rules);
      }
      LexExtend(a, y, rules);
      assert (a + y)[n..] == a[n..] + y;
      forall j | 0 <= j < |a[n..]|
        ensures !SeamAt(a[n..], y, rules, j)
      {
        SeamOfRest(a, y, rules, n, j + n);
      }
      Joined(a[n..], y, rules);
      assert [t] + (Tokens(a[n..], rules) + Tokens(y, rules)) == ([t] + Tokens(a[n..], rules)) + Tokens(y, rules);
    }
  }

  /** The first byte of `y` decides whether a reference can form at all. */
  lemma SeamSafe(a: string, y: string, rules: Rules)
    requires y == "" || !(IsAlnum(y[0]) || y[0] == '#' || y[0] == ';')
    ensures NoSeam(a, y, rules)
  {
    forall j | 0 <= j < |a|
      ensures !SeamAt(a, y, rules, j)
    {
      var s, d := a[j..] + y, |a| - j;
      if EntityLen(s) > d {
        EntityBytes(s, d);
      }
    }
  }

  /* ----- a reference across the seam ----- */

  /** Bytes that stand for themselves, one token each. */
  function Bytes(s: string): (toks: seq<Token>)
    ensures |toks| == |s| && forall k :: 0 <= k < |s| ==> toks[k] == Token(Raw(s[k]), [s[k]])
  {
    if s == "" then [] else [Token(Raw(s[0]), [s[0]])] + Bytes(s[1..])
  }

  predicate ReferenceByte(c: char) {
    IsAlnum(c) || c == '#' || c == ';'
  }

  lemma LexReferenceByte(s: string, rules: Rules)
    requires s != "" && ReferenceByte(s[0])
    ensures Lex(s, rules) == Token(Raw(s[0]), [s[0]])
  {
    assert EntityLen(s) == 0;
    assert s[..1] == [s[0]];
  }

  lemma {:induction false} ReferenceTail(s: string, x: string, rules: Rules)
    requires forall k :: 0 <= k < |s| ==> ReferenceByte(s[k])
    ensures Tokens(s + x, rules) == Bytes(s) + Tokens(x, rules)
    decreases |s|
  {
    hide Lex, ReferenceByte;
    if s == "" {
      assert s + x == x;
      assert Bytes(s) + Tokens(x, rules) == Tokens(x, rules);
    } else {
      assert (s + x)[0] == s[0];
      LexReferenceByte(s + x, rules);
      assert (s + x)[1..] == s[1..] + x;
      ReferenceTail(s[1..], x, rules);
      assert [Token(Raw(s[0]), [s[0]])] + (Bytes(s[1..]) + Tokens(x, rules)) == Bytes(s) + Tokens(x, rules);
    }
  }

  /** The token of a reference that stands at the head. */
  function ReferenceToken(reference: string, rules: Rules): Token {
    var decoded := rules.entity(reference);
    Token(if AllBlankOrNbsp(decoded) then SpaceEntity else Entity(decoded), reference)
  }

  lemma HeadReference(s: string, rules: Rules)
    requires EntityLen(s) > 0 && Decodes(s[..EntityLen(s)], rules)
    ensures var n := EntityLen(s);
            Tokens(s, rules) == [ReferenceToken(s[..n], rules)] + Tokens(s[n..], rules)
  {
    hide AllBlankOrNbsp;
    assert s[0] == '&';
  }

  lemma ReferencePart(s: string, i: nat, j: nat)
    requires 1 <= i <= j <= EntityLen(s)
    ensures forall k :: 0 <= k < |s[i..j]| ==> ReferenceByte(s[i..j][k])
  {
    hide EntityLen;
    forall k | 0 <= k < j - i
      ensures ReferenceByte(s[i..j][k])
    {
      EntityBytes(s, i + k);
    }
  }

  lemma SeamHead(a: string, y: string, rules: Rules)
    requires SeamAt(a, y, rules, 0)
    ensures var n := EntityLen(a + y);
            var k := n - |a|;
            && 0 < k <= |y| && (a + y)[..n] == a + y[..k] && Decodes(a + y[..k], rules)
            && Tokens(a, rules) == Bytes(a)
            && Tokens(a + y, rules) == [ReferenceToken(a + y[..k], rules)] + Tokens(y[k..], rules)
            && Tokens(y, rules) == Bytes(y[..k]) + Tokens(y[k..], rules)
  {
    hide EntityLen, ReferenceToken, ReferenceByte, Tokens, Decodes;
    assert a[0..] == a;
    var s, n := a + y, EntityLen(a + y);
    var k := n - |a|;
    assert s[..n] == a + y[..k] && s[n..] == y[k..];
    HeadReference(s, rules);
    OpenReference(a, y, rules);
    ReferencePart(s, 1, |a|);
    assert s[1..|a|] == a[1..];
    ReferenceTail(a[1..], "", rules);
    assert a[1..] + "" == a[1..];
    ReferencePart(s, |a|, n);
    assert s[|a|..n] == y[..k];
    ReferenceTail(y[..k], y[k..], rules);
    assert y[..k] + y[k..] == y;
    BytesCons(a, rules);
  }

  lemma BytesCons(a: string, rules: Rules)
    requires a != ""
    ensures Bytes(a) == [Token(Raw(a[0]), [a[0]])] + (Bytes(a[1..]) + Tokens("", rules))
  {
    assert Bytes(a[1..]) + Tokens("", rules) == Bytes(a[1..]);
  }

  /** Until it is completed, the ampersand is a byte like any other. */
  lemma OpenReference(a: string, y: string, rules: Rules)
    requires a != "" && a[0] == '&' && EntityLen(a + y) > |a|
    ensures Tokens(a, rules) == [Token(Raw('&'), ['&'])] + Tokens(a[1..], rules)
  {
    EntityInPrefix(a, y);
    assert a[..1] == ['&'];
  }

  /** A region token is closed by a byte that no reference contains. */
  lemma SeamOutsideToken(a: string, y: string, rules: Rules, j: nat)
    requires a != "" && !OpenRegion(a, rules) && SeamAt(a, y, rules, j)
    ensures j == 0 || |Lex(a, rules).raw| <= j
  {
    hide Lex, Completes, OpenRegion;
    var n := |Lex(a, rules).raw|;
    if 0 < j < n {
      TokenEnd(a, rules, j);
      if n - 1 > j {
        SeamByte(a, y, rules, j, n - 1);
      }
    }
  }

  lemma SeamByte(a: string, y: string, rules: Rules, j: nat, i: nat)
    requires SeamAt(a, y, rules, j) && j < i < |a|
    ensures ReferenceByte(a[i])
  {
    assert (a[j..] + y)[i - j] == a[i];
    EntityBytes(a[j..] + y, i - j);
  }

  /** A token of several bytes holds no ampersand after its first byte, or it is a region and ends in its closer. */
  lemma TokenEnd(s: string, rules: Rules, j: nat)
    requires s != "" && !OpenRegion(s, rules) && 0 < j < |Lex(s, rules).raw| && s[j] == '&'
    ensures var c := s[|Lex(s, rules).raw| - 1]; c == '>' || c == ']'
  {
    hide LexText, CommentKind, TagName, Strpos;
    if s[0] == '<' {
      if StartsWith(s, "<!--") { RegionEnds(s, "-->"); } else { RegionEnds(s, ">"); }
    } else if rules.shortcodes && s[0] == '[' {
      RegionEnds(s, "]");
    } else if !IsBlank(s[0]) {
      EntityTokenBytes(s, rules, j);
    }
  }

  lemma RegionEnds(s: string, closer: string)
    requires s != "" && closer != "" && Strpos(s, closer, 0) != -1
    ensures s[RegionLen(s, closer) - 1] == closer[|closer| - 1]
  {
    var p := Strpos(s, closer, 0);
    assert s[p..p + |closer|][|closer| - 1] == s[p + |closer| - 1];
  }

  lemma EntityTokenBytes(s: string, rules: Rules, j: nat)
    requires s != "" && 0 < j < |s| && s[j] == '&'
    ensures |LexText(s, rules).raw| <= j
  {
    hide AllBlankOrNbsp, EntityLen;
    OneAmpersand(s, j);
  }

  /**
   * With a reference across the seam, everything else is as in the parts: the bytes of the
   * reference are single bytes in the parts and one token in the whole.
   */
  lemma {:induction false} SeamTokens(a: string, y: string, rules: Rules, j: nat)
    returns (front: seq<Token>, w: string, k: nat)
    requires Closed(a, rules) && SeamAt(a, y, rules, j)
    ensures 0 < k <= |y| && w == a[j..] + y[..k] && Decodes(w, rules) && |w| >= 4
    ensures EntityLen(w) == |w|
    ensures Tokens(a, rules) == front + Bytes(a[j..])
    ensures Tokens(y, rules) == Bytes(y[..k]) + Tokens(y[k..], rules)
    ensures Tokens(a + y, rules) == front + [ReferenceToken(w, rules)] + Tokens(y[k..], rules)
    decreases |a|
  {
    hide Lex, OpenRegion, Completes, Decodes, ReferenceToken;
    if j == 0 {
      hide Tokens;
      front, w, k := SeamAtHead(a, y, rules);
    } else {
      var n := |Lex(a, rules).raw|;
      SeamOutsideToken(a, y, rules, j);
      SeamOfRest(a, y, rules, n, j);
      hide SeamAt, ReferenceByte;
      var rest;
      rest, w, k := SeamTokens(a[n..], y, rules, j - n);
      SeamStep(a, y, rules, j);
      hide Tokens;
      front := [Lex(a, rules)] + rest;
      ConsConcat(Lex(a, rules), rest, Bytes(a[j..]));
      ConsConcat(Lex(a, rules), rest + [ReferenceToken(w, rules)], Tokens(y[k..], rules));
      ConsConcat(Lex(a, rules), rest, [ReferenceToken(w, rules)]);
    }
  }

  /** A token before the seam is the same in the part and in the whole. */
  lemma SeamStep(a: string, y: string, rules: Rules, j: nat)
    requires a != "" && !OpenRegion(a, rules) && SeamAt(a, y, rules, j) && |Lex(a, rules).raw| <= j
    ensures var n := |Lex(a, rules).raw|;
            && a[n..][j - n..] == a[j..]
            && Tokens(a, rules) == [Lex(a, rules)] + Tokens(a[n..], rules)
            && Tokens(a + y, rules) == [Lex(a, rules)] + Tokens(a[n..] + y, rules)
  {
    hide Lex, OpenRegion, EntityLen, Tokens;
    var n := |Lex(a, rules).raw|;
    NotTwoSeams(a, y, rules, j);
    LexExtend(a, y, rules);
    hide SeamAt, Completes;
    TokensCons(a, rules);
    TokensCons(a + y, rules);
    assert (a + y)[n..] == a[n..] + y;
  }

  lemma TokensCons(s: string, rules: Rules)
    requires s != ""
    ensures Tokens(s, rules) == [Lex(s, rules)] + Tokens(s[|Lex(s, rules).raw|..], rules)
  {
  }

  lemma ConsConcat(t: Token, a: seq<Token>, b: seq<Token>)
    ensures [t] + (a + b) == [t] + a + b
  {
  }

  lemma SeamAtHead(a: string, y: string, rules: Rules) returns (front: seq<Token>, w: string, k: nat)
    requires SeamAt(a, y, rules, 0)
    ensures 0 < k <= |y| && w == a[0..] + y[..k] && Decodes(w, rules) && |w| >= 4
    ensures EntityLen(w) == |w|
    ensures Tokens(a, rules) == front + Bytes(a[0..])
    ensures Tokens(y, rules) == Bytes(y[..k]) + Tokens(y[k..], rules)
    ensures Tokens(a + y, rules) == front + [ReferenceToken(w, rules)] + Tokens(y[k..], rules)
  {
    hide Tokens, ReferenceToken, Decodes, EntityLen;
    SeamHead(a, y, rules);
    assert a[0..] == a;
    front, k := [], EntityLen(a + y) - |a|;
    w := a + y[..k];
    ReferenceAlone(a + y);
    assert front + Bytes(a) == Bytes(a);
    assert front + [ReferenceToken(w, rules)] + Tokens(y[k..], rules)
           == [ReferenceToken(w, rules)] + Tokens(y[k..], rules);
  }

  lemma ReferenceAlone(s: string)
    requires EntityLen(s) > 0
    ensures EntityLen(s[..EntityLen(s)]) == EntityLen(s)
  {
    var n := EntityLen(s);
    assert s == s[..n] + s[n..];
    EntityInPrefix(s[..n], s[n..]);
  }

  /** A reference holds no second ampersand. */
  lemma NotTwoSeams(a: string, y: string, rules: Rules, j: nat)
    requires 0 < j && SeamAt(a, y, rules, j)
    ensures !Completes(a, y, rules)
  {
    assert (a + y)[j] == '&';
    OneAmpersand(a + y, j);
  }

  lemma OneAmpersand(s: string, j: nat)
    requires 0 < j < |s| && s[j] == '&'
    ensures EntityLen(s) <= j
  {
    if EntityLen(s) > j {
      EntityBytes(s, j);
    }
  }
}
