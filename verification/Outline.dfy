/**
 * The structure of a page: its block tags, comments, block delimiters and shortcodes, in order.
 * A stretch keeps the structure of whatever follows it exactly when it closes what it opens.
 */
module Outline {
  import opened Php
  import opened Markup
  import opened Locality
  import opened Seams

  /** Block tags, comments, block delimiters and shortcodes, in order, with their source text. */
  function Structure(toks: seq<Token>): seq<Token> {
    if toks == [] then [] else
      var t := toks[|toks| - 1];
      Structure(toks[..|toks| - 1]) + if t.kind.IsStructural() then [t] else []
  }

  lemma {:induction false} StructureOfConcat(a: seq<Token>, b: seq<Token>)
    ensures Structure(a + b) == Structure(a) + Structure(b)
    decreases |b|
  {
    if b == [] {
      assert a + b == a;
      assert Structure(a) + [] == Structure(a);
    } else {
      var front := b[..|b| - 1];
      StructureOfConcat(a, front);
      assert (a + b)[..|a + b| - 1] == a + front;
      var last := if b[|b| - 1].kind.IsStructural() then [b[|b| - 1]] else [];
      assert Structure(a) + Structure(front) + last == Structure(a) + (Structure(front) + last);
    }
  }

  lemma {:induction false} NoStructure(toks: seq<Token>)
    requires forall j :: 0 <= j < |toks| ==> !toks[j].kind.IsStructural()
    ensures Structure(toks) == []
  {
    if toks == [] {
    } else {
      NoStructure(toks[..|toks| - 1]);
    }
  }

  lemma BytesHaveNone(w: string)
    ensures Structure(Bytes(w)) == []
  {
    hide Bytes, Structure;
    NoStructure(Bytes(w));
  }

  lemma NoneBetween(a: seq<Token>, b: seq<Token>, c: seq<Token>)
    requires Structure(b) == []
    ensures Structure(a + b + c) == Structure(a) + Structure(c)
  {
    hide Structure;
    StructureOfConcat(a + b, c);
    StructureOfConcat(a, b);
    assert Structure(a) + [] == Structure(a);
  }

  /** A closed stretch leaves the structure of what follows as it is, whatever the decoder makes of the seam. */
  lemma ClosedKeepsStructure(s: string, y: string, rules: Rules)
    requires Closed(s, rules)
    ensures Structure(Tokens(s + y, rules)) == Structure(Tokens(s, rules)) + Structure(Tokens(y, rules))
  {
    hide Tokens, Closed, SeamAt, Bytes, Decodes, Structure, ReferenceToken;
    if NoSeam(s, y, rules) {
      Joined(s, y, rules);
      StructureOfConcat(Tokens(s, rules), Tokens(y, rules));
    } else {
      var j :| 0 <= j < |s| && SeamAt(s, y, rules, j);
      var front, w, k := SeamTokens(s, y, rules, j);
      var rest := Tokens(y[k..], rules);
      BytesHaveNone(s[j..]);
      BytesHaveNone(y[..k]);
      ReferenceHasNone(w, rules);
      NoneBetween(front, [ReferenceToken(w, rules)], rest);
      StructureOfConcat(front, Bytes(s[j..]));
      StructureOfConcat(Bytes(y[..k]), rest);
      assert Structure(front) + [] == Structure(front) && [] + Structure(rest) == Structure(rest);
    }
  }

  lemma ReferenceHasNone(w: string, rules: Rules)
    ensures Structure([ReferenceToken(w, rules)]) == []
  {
    hide AllBlankOrNbsp;
    NoStructure([ReferenceToken(w, rules)]);
  }

  /* ----- an open stretch ----- */

  /** Where the region starts that `s` leaves open, and its tokens before it. */
  lemma {:induction false} OpenAt(s: string, y: string, rules: Rules) returns (i: nat, front: seq<Token>)
    requires !Closed(s, rules)
    requires y != "" && y[0] == '<'
    ensures i < |s| && OpenRegion(s[i..], rules)
    ensures Tokens(s, rules) == front + [Lex(s[i..], rules)]
    ensures Tokens(s + y, rules) == front + Tokens(s[i..] + y, rules)
    decreases |s|
  {
    hide Lex, OpenRegion, Tokens, Completes, SeamAt;
    if OpenRegion(s, rules) {
      i, front := 0, [];
      assert s[0..] == s;
      OpenTakesAll(s, rules);
      assert front + [Lex(s, rules)] == [Lex(s, rules)];
      assert front + Tokens(s + y, rules) == Tokens(s + y, rules);
    } else {
      var n := |Lex(s, rules).raw|;
      var j, rest := OpenAt(s[n..], y, rules);
      i, front := j + n, [Lex(s, rules)] + rest;
      assert s[n..][j..] == s[i..];
      TokensStep(s, y, rules);
      ConsConcat(Lex(s, rules), rest, [Lex(s[i..], rules)]);
      ConsConcat(Lex(s, rules), rest, Tokens(s[i..] + y, rules));
    }
  }

  lemma TokensStep(s: string, y: string, rules: Rules)
    requires s != "" && !OpenRegion(s, rules) && y != "" && y[0] == '<'
    ensures var n := |Lex(s, rules).raw|;
            && Tokens(s, rules) == [Lex(s, rules)] + Tokens(s[n..], rules)
            && Tokens(s + y, rules) == [Lex(s, rules)] + Tokens(s[n..] + y, rules)
  {
    hide Lex, OpenRegion, Tokens, Completes, SeamAt;
    NotBeforeTag(s, y, rules);
    LexExtend(s, y, rules);
    TokensCons(s, rules);
    TokensCons(s + y, rules);
    var n := |Lex(s, rules).raw|;
    assert (s + y)[n..] == s[n..] + y;
  }

  lemma NotBeforeTag(s: string, y: string, rules: Rules)
    requires s != "" && y != "" && y[0] == '<'
    ensures !Completes(s, y, rules)
  {
    hide SeamAt;
    SeamSafe(s, y, rules);
    if Completes(s, y, rules) {
      CompletesAtAmpersand(s, y, rules);
    }
  }

  lemma OpenTakesAll(s: string, rules: Rules)
    requires s != "" && OpenRegion(s, rules)
    ensures |Lex(s, rules).raw| == |s| && Lex(s, rules).kind.IsSkip()
    ensures Tokens(s, rules) == [Lex(s, rules)]
  {
    hide TagName, CommentKind, Strpos, Tokens;
    CommentOpener(s);
    TokensCons(s, rules);
    NoTokens(rules);
    assert s[|s|..] == "";
  }

  /** `<`, and no `>` before the last byte. */
  predicate TagShaped(y: string) {
    y != "" && y[0] == '<' && Strpos(y, ">", 0) == |y| - 1
  }

  /** A tag closes an open region with its last byte, or leaves it open: either way it is swallowed. */
  lemma RegionTakesTag(s: string, y: string, closer: string)
    requires TagShaped(y) && (closer == ">" || closer == "-->") && Strpos(s, closer, 0) == -1
    ensures RegionLen(s + y, closer) == |s| + |y|
  {
    hide Strpos;
    var all := s + y;
    var p := Strpos(all, closer, 0);
    if p != -1 {
      StrposInPrefix(s, y, closer);
      var e := p + |closer|;
      assert all[e - 1] == all[p..e][|closer| - 1] == '>';
      assert y[e - 1 - |s|] == '>';
      FirstCloser(y, e - 1 - |s|);
    }
  }

  lemma FirstCloser(y: string, k: nat)
    requires TagShaped(y) && k < |y| && y[k] == '>'
    ensures k == |y| - 1
  {
    hide Strpos;
    assert y[k..k + 1] == ">";
    assert OccursAt(y, ">", k);
  }

  lemma ShortcodeTakesTag(s: string, y: string)
    requires y != "" && ']' !in y && Strpos(s, "]", 0) == -1
    ensures RegionLen(s + y, "]") == |s + y|
  {
    hide Strpos;
    StrposNone(s, ']');
    if Strpos(s + y, "]", 0) != -1 {
      StrposByte(s + y, ']');
    }
  }

  lemma {:induction false} SkipSpaceExtend(t: string, y: string)
    requires y != "" && y[0] == '<'
    ensures SkipRegexSpace(t + y) == SkipRegexSpace(t) + y
  {
    if t == "" {
      assert t + y == y;
    } else {
      assert (t + y)[0] == t[0] && (t + y)[1..] == t[1..] + y;
      if IsRegexSpace(t[0]) {
        SkipSpaceExtend(t[1..], y);
      }
    }
  }

  lemma {:induction false} NameRunExtend(u: string, y: string)
    requires y != "" && y[0] == '<'
    ensures NameRun(u + y) == NameRun(u)
  {
    if u == "" {
      assert u + y == y;
    } else {
      assert (u + y)[0] == u[0] && (u + y)[1..] == u[1..] + y;
      NameRunExtend(u[1..], y);
    }
  }

  lemma NameExtend(s: string, y: string)
    requires s != "" && y != "" && y[0] == '<'
    ensures TagName(s + y) == TagName(s)
  {
    hide NameRun, SkipRegexSpace, Lower;
    var all := s + y;
    var t := if |s| > 1 && s[1] == '/' then s[2..] else s[1..];
    assert (if |all| > 1 && all[1] == '/' then all[2..] else all[1..]) == t + y;
    SkipSpaceExtend(t, y);
    NameRunExtend(SkipRegexSpace(t), y);
  }

  /** A tag after an open region is swallowed by it, unless the region is a shortcode that the tag closes. */
  lemma OpenSwallows(s: string, y: string, rules: Rules)
    requires s != "" && OpenRegion(s, rules) && TagShaped(y) && (s[0] == '[' ==> ']' !in y)
    ensures var t := Lex(s + y, rules);
            && |t.raw| == |s| + |y| && t.kind.IsSkip()
            && (t.kind.IsStructural() <==> Lex(s, rules).kind.IsStructural())
  {
    hide LexAngle, Strpos;
    assert (s + y)[0] == s[0];
    if s[0] == '<' {
      AngleSwallows(s, y);
    } else {
      ShortcodeTakesTag(s, y);
    }
  }

  lemma AngleSwallows(s: string, y: string)
    requires s != "" && s[0] == '<' && OpenRegion(s, Rules(false, t => t)) && TagShaped(y)
    ensures var t := LexAngle(s + y);
            |t.raw| == |s| + |y| && (t.kind.IsStructural() <==> LexAngle(s).kind.IsStructural())
  {
    hide TagName, CommentKind, Strpos, StartsWith;
    SameOpener(s, y);
    if StartsWith(s, "<!--") {
      RegionTakesTag(s, y, "-->");
    } else {
      RegionTakesTag(s, y, ">");
      NameExtend(s, y);
      assert (s + y)[..|s| + |y|] == s + y && s[..|s|] == s;
    }
  }

  lemma SameOpener(s: string, y: string)
    requires s != "" && y != "" && y[0] == '<'
    ensures StartsWith(s + y, "<!--") <==> StartsWith(s, "<!--")
  {
    hide StartsWith;
    CommentOpener(s);
    CommentOpener(s + y);
    assert (s + y)[|s|] == '<';
  }

  /** What is left of an open stretch when a tag follows it: the same tokens, but for the bytes of the last. */
  lemma OpenThenTag(s: string, y: string, rules: Rules) returns (front: seq<Token>, open: Token, swallowed: Token)
    requires !Closed(s, rules) && TagShaped(y) && (OpenShortcode(s, rules) ==> ']' !in y)
    ensures Tokens(s, rules) == front + [open] && Tokens(s + y, rules) == front + [swallowed]
    ensures open.kind.IsSkip() && swallowed.kind.IsSkip()
    ensures swallowed.kind.IsStructural() <==> open.kind.IsStructural()
  {
    hide Lex, OpenRegion, Tokens, Closed, Strpos;
    var i;
    i, front := OpenAt(s, y, rules);
    var rest := s[i..];
    open, swallowed := Lex(rest, rules), Lex(rest + y, rules);
    OpenTakesAll(rest, rules);
    LastOpens(rest, front, open, rules);
    OpenSwallows(rest, y, rules);
    TokensCons(rest + y, rules);
    assert (rest + y)[|swallowed.raw|..] == "";
    NoTokens(rules);
    assert [swallowed] + [] == [swallowed];
  }

  /** The region that `s` leaves open is a shortcode. */
  predicate OpenShortcode(s: string, rules: Rules) {
    var toks := Tokens(s, rules);
    !Closed(s, rules) && toks != [] && toks[|toks| - 1].kind.Shortcode?
  }

  lemma LastOpens(rest: string, front: seq<Token>, open: Token, rules: Rules)
    requires rest != "" && open == Lex(rest, rules) && OpenRegion(rest, rules)
    ensures (front + [open])[|front + [open]| - 1] == open
    ensures rest[0] == '[' ==> open.kind.Shortcode?
  {
    hide LexAngle, LexText;
  }

  lemma NoTokens(rules: Rules)
    ensures Tokens("", rules) == []
  {
  }

  const PARAGRAPH := "<p>"

  lemma ParagraphShape()
    ensures TagShaped(PARAGRAPH) && ']' !in PARAGRAPH
  {
    StrposFirst(PARAGRAPH, '>', 2);
  }

  lemma StructureOne(t: Token)
    ensures Structure([t]) == if t.kind.IsStructural() then [t] else []
  {
    assert [t][..0] == [];
  }

  lemma ParagraphStructure(rules: Rules)
    ensures |Structure(Tokens(PARAGRAPH, rules))| == 1
  {
    hide Lex;
    var t := Lex(PARAGRAPH, rules);
    ParagraphToken(rules);
    assert PARAGRAPH[|t.raw|..] == "";
    assert Tokens(PARAGRAPH, rules) == [t] + Tokens("", rules) == [t];
    StructureOne(t);
  }

  lemma ParagraphToken(rules: Rules)
    ensures Lex(PARAGRAPH, rules).raw == PARAGRAPH && Lex(PARAGRAPH, rules).kind.BlockTag?
  {
    hide Strpos, NameRun;
    CommentOpener(PARAGRAPH);
    ParagraphShape();
    ParagraphName();
  }

  lemma ParagraphName()
    ensures TagName(PARAGRAPH) == "p" && "p" !in INLINE_TAGS
  {
    assert PARAGRAPH[1..] == "p>" && SkipRegexSpace("p>") == "p>";
    assert "p>"[1..] == ">" && NameRun(">") == "" && NameRun("p>") == ['p'] + "";
    assert Lower("p") == ['p'] + Lower("p"[1..]);
  }

  /**
   * A stretch is closed if and only if it leaves the structure of everything that may follow it
   * as it is: otherwise a single tag after it is lost.
   */
  lemma ClosedIsExact(s: string, rules: Rules)
    ensures Closed(s, rules)
            <==> forall y :: Structure(Tokens(s + y, rules))
                             == Structure(Tokens(s, rules)) + Structure(Tokens(y, rules))
    ensures !Closed(s, rules) ==>
              |Structure(Tokens(s + PARAGRAPH, rules))|
              < |Structure(Tokens(s, rules)) + Structure(Tokens(PARAGRAPH, rules))|
  {
    hide Tokens, Closed, Structure, Lex, OpenRegion;
    if Closed(s, rules) {
      forall y
        ensures Structure(Tokens(s + y, rules)) == Structure(Tokens(s, rules)) + Structure(Tokens(y, rules))
      {
        ClosedKeepsStructure(s, y, rules);
      }
    } else {
      ParagraphShape();
      var front, open, swallowed := OpenThenTag(s, PARAGRAPH, rules);
      StructureOfConcat(front, [open]);
      StructureOfConcat(front, [swallowed]);
      StructureOne(open);
      StructureOne(swallowed);
      ParagraphStructure(rules);
    }
  }
}
