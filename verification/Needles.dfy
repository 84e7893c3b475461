/** When normalising a passage twice is normalising it once. */
module Needles {
  import opened Php
  import opened Markup
  import opened Locality
  import opened Projection
  import opened Rendering
  import opened Seams
  import opened Spacing
  import opened PlainSplice
  import T = Text

  /** Text that a reader of markup takes as it stands. */
  predicate NormalForm(v: string, rules: Rules) {
    v == "" || (Collapsed(v) && Literal(v, rules.(shortcodes := false)))
  }

  /** A character reference that is decoded does not show an ampersand, unless that is all it shows. */
  ghost predicate AmpersandLaw(rules: Rules) {
    forall reference :: EntityLen(reference) == |reference| > 0 && Decodes(reference, rules) ==>
      '&' !in rules.entity(reference) || rules.entity(reference) == "&"
  }

  function Ampersands(s: string): nat {
    if s == "" then 0 else Ampersands(s[..|s| - 1]) + if s[|s| - 1] == '&' then 1 else 0
  }

  lemma {:induction false} AmpersandsConcat(x: string, y: string)
    ensures Ampersands(x + y) == Ampersands(x) + Ampersands(y)
    decreases |y|
  {
    if y == "" {
      assert x + y == x;
    } else {
      AmpersandsConcat(x, y[..|y| - 1]);
      assert (x + y)[..|x + y| - 1] == x + y[..|y| - 1];
    }
  }

  lemma {:induction false} NoAmpersands(s: string)
    ensures Ampersands(s) == 0 <==> '&' !in s
  {
    if s == "" {
    } else {
      NoAmpersands(s[..|s| - 1]);
      assert s == s[..|s| - 1] + [s[|s| - 1]];
    }
  }

  /* ----- what a token costs and what it shows ----- */

  /** What `Lex` makes of source outside shortcodes, as far as sizes are concerned. */
  predicate Sized(t: Token) {
    match t.kind
    case Raw(b) => t.raw == [b] && b != '<' && !IsBlank(b)
    case Space => |t.raw| == 1
    case SpaceEntity => |t.raw| >= 4 && Ampersands(t.raw) >= 1
    case Entity(bytes) => |t.raw| >= 4 && Ampersands(t.raw) >= 1 && (Ampersands(bytes) == 0 || bytes == "&")
    case InlineTag(_) => |t.raw| >= 2
    case _ => |t.raw| >= 1
  }

  lemma ReferenceSize(reference: string)
    requires reference != "" && reference[0] == '&'
    ensures Ampersands(reference) >= 1
  {
    NoAmpersands(reference);
    assert reference[0] in reference;
  }

  lemma LexSized(s: string, rules: Rules)
    requires s != "" && !rules.shortcodes && AmpersandLaw(rules)
    ensures Sized(Lex(s, rules))
  {
    hide LexAngle, LexText, Sized, AmpersandLaw;
    if s[0] == '<' {
      AngleSized(s);
    } else if IsBlank(s[0]) {
      BlankSized(s[..1]);
    } else {
      TextSized(s, rules);
    }
  }

  lemma BlankSized(raw: string)
    requires |raw| == 1
    ensures Sized(Token(Space, raw))
  {
  }

  lemma TextSized(s: string, rules: Rules)
    requires s != "" && s[0] != '<' && !IsBlank(s[0]) && AmpersandLaw(rules)
    ensures Sized(LexText(s, rules))
  {
    hide AllBlankOrNbsp, EntityLen, AmpersandLaw, Ampersands, IsBlank;
    var n := EntityLen(s);
    if n > 0 && Decodes(s[..n], rules) {
      ReferenceAlone(s);
      ReferenceSize(s[..n]);
      DecodedAmpersands(s[..n], rules);
    }
  }

  lemma DecodedAmpersands(reference: string, rules: Rules)
    requires AmpersandLaw(rules) && EntityLen(reference) == |reference| > 0 && Decodes(reference, rules)
    ensures Ampersands(rules.entity(reference)) == 0 || rules.entity(reference) == "&"
  {
    hide EntityLen, Ampersands;
    NoAmpersands(rules.entity(reference));
  }

  lemma AngleSized(s: string)
    requires s != "" && s[0] == '<'
    ensures Sized(LexAngle(s))
  {
    hide Strpos, NameRun, SkipRegexSpace, CommentKind;
    if !StartsWith(s, "<!--") && RegionLen(s, ">") == 1 {
      NamelessTag(s[..1]);
    }
  }

  lemma NamelessTag(raw: string)
    requires |raw| == 1
    ensures TagName(raw) == "" && "" !in INLINE_TAGS
  {
    assert raw[1..] == "";
  }

  predicate AllSized(toks: seq<Token>) {
    forall k :: 0 <= k < |toks| ==> Sized(toks[k])
  }

  lemma {:induction false} TokensSized(s: string, rules: Rules)
    requires !rules.shortcodes && AmpersandLaw(rules)
    ensures AllSized(Tokens(s, rules))
    decreases |s|
  {
    hide Lex, Sized, AmpersandLaw;
    if s == "" {
    } else {
      LexSized(s, rules);
      TokensSized(s[|Lex(s, rules).raw|..], rules);
    }
  }

  /** A token that takes one byte of source. */
  predicate OneByte(t: Token) {
    t.kind.Raw? || t.kind.Space? || (t.kind.IsStructural() && |t.raw| == 1)
  }

  predicate AllOneByte(toks: seq<Token>) {
    forall k :: 0 <= k < |toks| ==> OneByte(toks[k])
  }

  /** Bytes shown and a space still to come. */
  function Used(t: Text): nat {
    |t.bytes| + if t.pending then 1 else 0
  }

  /**
   * The text shows no more ampersands than the source has; if it shows as many it is no longer
   * than the source; and if it is as long, every token is one byte of it.
   */
  predicate Balanced(t: Text, source: string, toks: seq<Token>) {
    && Ampersands(t.bytes) <= Ampersands(source)
    && (Ampersands(t.bytes) == Ampersands(source) ==>
          Used(t) <= |source| && (Used(t) == |source| ==> AllOneByte(toks)))
  }

  lemma OneByteSnoc(front: seq<Token>, last: Token)
    ensures AllOneByte(front + [last]) <==> AllOneByte(front) && OneByte(last)
  {
    hide OneByte;
    assert (front + [last])[|front|] == last;
    assert forall k :: 0 <= k < |front| ==> (front + [last])[k] == front[k];
  }

  lemma OneAmpersandAtMost(b: char)
    ensures Ampersands([b]) == (if b == '&' then 1 else 0) && Ampersands(" ") == 0 && Ampersands("&") == 1
  {
    assert [b][..0] == "" && " "[..0] == "" && "&"[..0] == "";
  }

  lemma BalancedStep(t: Text, source: string, front: seq<Token>, last: Token)
    requires Balanced(t, source, front) && Sized(last)
    ensures Balanced(TextStep(t, last.kind), source + last.raw, front + [last])
  {
    hide Ampersands, AllOneByte;
    OneByteSnoc(front, last);
    AmpersandsConcat(source, last.raw);
    AmpersandsConcat(t.bytes, " ");
    var own := OwnBytes(last.kind);
    AmpersandsConcat(Spaced(t), own);
    OneAmpersandAtMost(if last.kind.Raw? then last.kind.byte else ' ');
  }

  lemma {:induction false} Balance(toks: seq<Token>)
    requires AllSized(toks)
    ensures Balanced(TextRun(toks, START), Source(toks), toks)
  {
    if toks == [] {
    } else {
      hide Sized, Balanced, TextStep, TextRun;
      var front, last := toks[..|toks| - 1], toks[|toks| - 1];
      Balance(front);
      BalancedStep(TextRun(front, START), Source(front), front, last);
      TextRunSnoc(front, last, START);
      assert front + [last] == toks;
    }
  }

  /* ----- text that reads as itself ----- */

  /** Shown bytes that come from single bytes. */
  predicate Clear(s: string) {
    forall k :: 0 <= k < |s| ==> s[k] != '<' && (IsBlank(s[k]) ==> s[k] == ' ')
  }

  lemma {:induction false} ClearRun(toks: seq<Token>)
    requires AllSized(toks) && forall k :: 0 <= k < |toks| ==> !toks[k].kind.Entity?
    ensures Clear(TextRun(toks, START).bytes)
  {
    if toks == [] {
    } else {
      hide IsBlank;
      var front, last := toks[..|toks| - 1], toks[|toks| - 1];
      ClearRun(front);
      assert Sized(last);
    }
  }

  /** Single bytes without a tag read as themselves. */
  lemma {:induction false} OneByteIsLiteral(v: string, rules: Rules)
    requires !rules.shortcodes && '<' !in v && AllOneByte(Tokens(v, rules))
    ensures Literal(v, rules)
    decreases |v|
  {
    if v == "" {
    } else {
      var t := Lex(v, rules);
      hide Lex;
      assert Tokens(v, rules)[0] == t;
      HeadIsLiteral(v, rules);
      var rest := Tokens(v[1..], rules);
      assert Tokens(v, rules)[1..] == rest;
      forall k | 0 <= k < |rest|
        ensures OneByte(rest[k])
      {
        assert rest[k] == Tokens(v, rules)[k + 1];
      }
      OneByteIsLiteral(v[1..], rules);
      LiteralCons(v, rules);
    }
  }

  lemma HeadIsLiteral(v: string, rules: Rules)
    requires !rules.shortcodes && v != "" && '<' !in v && OneByte(Lex(v, rules))
    ensures LiteralAt(v, rules, 0) && |Lex(v, rules).raw| == 1
  {
    hide AllBlankOrNbsp, EntityLen;
    assert v[0..] == v && v[0] in v;
    if EntityLen(v) > 0 {
      assert v[0] == '&';
    }
  }

  lemma LiteralCons(v: string, rules: Rules)
    requires v != "" && LiteralAt(v, rules, 0) && Literal(v[1..], rules)
    ensures Literal(v, rules)
  {
    forall k | 0 <= k < |v|
      ensures LiteralAt(v, rules, k)
    {
      if k > 0 {
        assert v[1..][k - 1..] == v[k..];
        assert LiteralAt(v[1..], rules, k - 1);
      }
    }
  }

  /** Trimming takes a part out. */
  lemma TrimPart(s: string) returns (i: nat)
    ensures i + |Trim(s)| <= |s| && Trim(s) == s[i..i + |Trim(s)|]
    ensures |Trim(s)| == |s| ==> Trim(s) == s
  {
    hide IsBlank, Ltrim, Rtrim;
    var l := Ltrim(s);
    i := |s| - |l|;
    assert l[..|Trim(s)|] == s[i..i + |Trim(s)|];
  }

  /** Trimmed text that shows itself is in normal form. */
  lemma ShowsItself(v: string, rules: Rules)
    requires !rules.shortcodes && AmpersandLaw(rules) && Trim(Visible(v, rules)) == v && v != ""
    ensures Collapsed(v) && Literal(v, rules)
  {
    hide Tokens, Visible, Trim, Literal, AmpersandLaw, AllOneByte, AllSized, TextRun, IsBlank, Adjacent, Ampersands;
    var toks := Tokens(v, rules);
    TokensSized(v, rules);
    TokensTile(v, rules);
    Balance(toks);
    VisibleIsTextRun(v, rules);
    var _ := TrimPart(Visible(v, rules));
    TrimAmpersands(Visible(v, rules));
    assert Visible(v, rules) == v;
    OneByteKinds(toks);
    ClearRun(toks);
    NoAngle(v);
    OneByteIsLiteral(v, rules);
    SingleSpaces(toks);
    TrimEdges(v);
  }

  lemma TrimAmpersands(s: string)
    ensures Ampersands(Trim(s)) <= Ampersands(s)
  {
    hide Trim, Ampersands;
    var n := |Trim(s)|;
    var i := TrimPart(s);
    AmpersandsConcat(s[..i], s[i..i + n]);
    AmpersandsConcat(s[..i] + s[i..i + n], s[i + n..]);
    assert s == s[..i] + s[i..i + n] + s[i + n..];
  }

  lemma OneByteKinds(toks: seq<Token>)
    requires AllOneByte(toks)
    ensures forall k :: 0 <= k < |toks| ==> !toks[k].kind.Entity? && !toks[k].kind.SpaceEntity?
  {
  }

  lemma NoAngle(v: string)
    requires Clear(v)
    ensures '<' !in v
  {
  }

  lemma TrimEdges(v: string)
    requires v != "" && Clear(v) && !Adjacent(v) && Trim(v) == v
    ensures Collapsed(v)
  {
    forall k | 0 <= k < |v| && IsBlank(v[k])
      ensures v[k] == ' ' && (k + 1 < |v| ==> !IsBlank(v[k + 1]))
    {
      if k + 1 < |v| {
        NoTwoBlanks(v, k);
      }
    }
  }

  lemma NoTwoBlanks(v: string, k: nat)
    requires Clear(v) && !Adjacent(v) && k + 1 < |v| && IsBlank(v[k])
    ensures !IsBlank(v[k + 1])
  {
    assert v[k] == ' ';
  }

  /** Without whitespace entities no two spaces show in a row. */
  lemma SingleSpaces(toks: seq<Token>)
    requires AllSized(toks) && forall k :: 0 <= k < |toks| ==> !toks[k].kind.Entity? && !toks[k].kind.SpaceEntity?
    ensures !Adjacent(TextRun(toks, START).bytes)
  {
    hide TextRun, Adjacent, IsBlank, Waiting;
    forall k | 0 <= k < |toks|
      ensures ' ' !in OwnBytes(toks[k].kind) && toks[k].raw != ""
    {
      assert Sized(toks[k]);
      SpaceIsBlank();
    }
    SpacedRun(toks);
  }

  lemma SpaceIsBlank()
    ensures IsBlank(' ')
  {
  }

  /* ----- the theorem ----- */

  lemma NormalIsFixed(v: string, rules: Rules)
    requires NormalForm(v, rules)
    ensures T.Needle(v, rules) == v
  {
    hide Literal, Collapsed, Visible;
    if v == "" {
      T.EmptyFindHasNoNeedle(rules);
    } else {
      LiteralNeedle(v, rules);
    }
  }

  /** For every passage: normalising it again changes nothing exactly if its needle is in normal form. */
  lemma IdempotentIff(f: string, rules: Rules)
    requires AmpersandLaw(rules)
    ensures T.Needle(T.Needle(f, rules), rules) == T.Needle(f, rules) <==> NormalForm(T.Needle(f, rules), rules)
  {
    hide NormalForm, AmpersandLaw;
    var v := T.Needle(f, rules);
    if NormalForm(v, rules) {
      NormalIsFixed(v, rules);
    } else if T.Needle(v, rules) == v {
      FixedIsNormal(v, rules);
    }
  }

  lemma FixedIsNormal(v: string, rules: Rules)
    requires AmpersandLaw(rules) && T.Needle(v, rules) == v
    ensures NormalForm(v, rules)
  {
    hide Literal, Collapsed, Visible, Trim;
    if v != "" {
      ShowsItself(v, rules.(shortcodes := false));
    }
  }

  /** A passage without tags and ampersands, whatever its whitespace, needs normalising once only. */
  lemma PlainIsIdempotent(f: string, rules: Rules)
    requires Plain(f, rules.(shortcodes := false))
    ensures NormalForm(T.Needle(f, rules), rules)
    ensures T.Needle(T.Needle(f, rules), rules) == T.Needle(f, rules)
  {
    PlainNeedle(f, rules.(shortcodes := false));
    hide T.Needle, NormalForm;
    NeedleIs(f, rules);
    NormalIsFixed(T.Needle(f, rules), rules);
  }

  lemma NeedleIs(f: string, rules: Rules)
    ensures T.Needle(f, rules) == T.Needle(f, rules.(shortcodes := false))
    ensures NormalForm(T.Needle(f, rules), rules) <==> NormalForm(T.Needle(f, rules), rules.(shortcodes := false))
  {
    assert rules.(shortcodes := false).(shortcodes := false) == rules.(shortcodes := false);
  }

  lemma PlainNeedle(f: string, rules: Rules)
    requires Plain(f, rules) && !rules.shortcodes
    ensures NormalForm(T.Needle(f, rules), rules)
  {
    hide Visible, Trim, IsBlank, Adjacent, Tokens, TextRun, Literal;
    assert rules.(shortcodes := false) == rules;
    var vis, v := Visible(f, rules), T.Needle(f, rules);
    PlainIsLiteral(f, rules);
    LiteralTokens(f, rules);
    var toks := Tokens(f, rules);
    BytesOfPlain(f, toks);
    ClearRun(toks);
    SingleSpaces(toks);
    VisibleIsTextRun(f, rules);
    NoAmpersandRun(toks);
    if v != "" {
      var i := TrimPart(vis);
      PartOfClear(vis, i, v);
      TrimTwice(vis);
      TrimEdges(v);
      PlainIsLiteral(v, rules);
    }
  }

  lemma BytesOfPlain(f: string, toks: seq<Token>)
    requires |toks| == |f| && forall k :: 0 <= k < |f| ==> toks[k] == ByteToken(f[k])
    requires forall k :: 0 <= k < |f| ==> f[k] != '<' && f[k] != '&'
    ensures AllSized(toks)
    ensures forall k :: 0 <= k < |toks| ==> toks[k].kind.Space? || (toks[k].kind.Raw? && toks[k].kind.byte != '&')
  {
    hide IsBlank;
  }

  lemma {:induction false} NoAmpersandRun(toks: seq<Token>)
    requires forall k :: 0 <= k < |toks| ==> toks[k].kind.Space? || (toks[k].kind.Raw? && toks[k].kind.byte != '&')
    ensures forall k :: 0 <= k < |TextRun(toks, START).bytes| ==> TextRun(toks, START).bytes[k] != '&'
  {
    if toks == [] {
    } else {
      NoAmpersandRun(toks[..|toks| - 1]);
    }
  }

  lemma PartOfClear(s: string, i: nat, part: string)
    requires i + |part| <= |s| && part == s[i..i + |part|]
    requires Clear(s) && !Adjacent(s) && forall k :: 0 <= k < |s| ==> s[k] != '&'
    ensures Clear(part) && !Adjacent(part) && forall k :: 0 <= k < |part| ==> part[k] != '<' && part[k] != '&'
  {
    hide IsBlank;
    assert forall k :: 0 <= k < |part| ==> part[k] == s[i + k];
    if Adjacent(part) {
      AdjacentPart(s, i, part);
    }
  }

  lemma AdjacentPart(s: string, i: nat, part: string)
    requires i + |part| <= |s| && part == s[i..i + |part|] && Adjacent(part)
    ensures Adjacent(s)
  {
    var k :| 0 <= k < |part| - 1 && part[k] == ' ' && part[k + 1] == ' ';
    assert s[i + k] == ' ' && s[i + k + 1] == ' ';
  }

  lemma TrimTwice(s: string)
    ensures Trim(Trim(s)) == Trim(s)
  {
    var v := Trim(s);
    assert Ltrim(v) == v && Rtrim(v) == v;
  }
}
