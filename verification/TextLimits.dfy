/** Concrete inputs on which the simpler claims about the projection fail. */
module TextLimits {
  import opened Php
  import opened Markup
  import opened Locality
  import opened Projection
  import opened Rendering
  import opened Seams
  import opened Outline
  import opened SpliceLaws
  import opened PlainSplice
  import opened Spacing
  import opened Needles
  import opened Ink
  import E = Edges
  import T = Text

  /** A decoder that knows one reference. */
  function Knows(reference: string, decoded: string): Rules {
    Rules(false, s => if s == reference then decoded else s)
  }

  /* ----- reading short sources ----- */

  /** `&`, letters and `;` are a character reference. */
  lemma NamedReference(s: string, n: nat)
    requires 4 <= n <= 13 && n <= |s| && s[0] == '&' && s[n - 1] == ';'
    requires forall k :: 1 <= k < n - 1 ==> IsLetter(s[k])
    ensures EntityLen(s) == n
  {
    var w := Window(s);
    assert forall k :: 0 <= k < n ==> w[k] == s[k];
    StrposFirst(w, ';', n - 1);
    var b := w[1..n - 1];
    assert forall k :: 0 <= k < |b| ==> b[k] == s[k + 1];
    assert IsEntityBody(b);
  }

  lemma LexOne(s: string, rules: Rules)
    requires s != "" && LiteralAt(s, rules, 0)
    ensures Tokens(s, rules) == [ByteToken(s[0])] + Tokens(s[1..], rules)
  {
    hide Lex;
    LexLiteral(s, rules);
    ByteTokenIsByte(s[0]);
  }

  lemma LexNamed(reference: string, s: string, rules: Rules)
    requires EntityLen(reference + s) == |reference| > 0 && Decodes(reference, rules) && !rules.shortcodes
    ensures Tokens(reference + s, rules) == [ReferenceToken(reference, rules)] + Tokens(s, rules)
  {
    hide EntityLen, ReferenceToken, Decodes;
    var all := reference + s;
    assert all[..|reference|] == reference && all[|reference|..] == s;
    HeadReference(all, rules);
  }

  lemma NotBlank(c: char, rest: string)
    requires !IsBlank(c) && c < '\U{A0}'
    ensures !AllBlankOrNbsp([c] + rest)
  {
    assert ([c] + rest)[0] == c;
  }

  lemma SoleByte(s: string, c: char, i: nat)
    requires i < |s| && s[i] == c && forall k :: 0 <= k < |s| && s[k] == c ==> k == i
    ensures T.Sole(s, [c], i)
  {
    assert s[i..i + 1] == [c];
    forall k | OccursAt(s, [c], k)
      ensures k == i
    {
      assert s[k..k + 1][0] == s[k];
    }
  }

  lemma NoReference(s: string, rules: Rules)
    requires forall k :: 0 <= k < |s| ==> s[k] != '<' && s[k] != ';'
    requires !rules.shortcodes
    ensures Literal(s, rules)
  {
    forall k | 0 <= k < |s|
      ensures LiteralAt(s, rules, k)
    {
      assert forall i :: 0 <= i < |s[k..]| ==> s[k..][i] == s[k + i];
      NoSemicolon(s[k..]);
    }
  }

  lemma NoSemicolon(s: string)
    requires forall k :: 0 <= k < |s| ==> s[k] != ';'
    ensures EntityLen(s) == 0
  {
  }

  lemma ReferenceTokens(reference: string, rules: Rules)
    requires EntityLen(reference) == |reference| > 0 && Decodes(reference, rules) && !rules.shortcodes
    requires !AllBlankOrNbsp(rules.entity(reference))
    ensures Tokens(reference, rules) == [Token(Entity(rules.entity(reference)), reference)]
  {
    hide EntityLen, AllBlankOrNbsp, Decodes;
    assert reference + "" == reference;
    LexNamed(reference, "", rules);
    var t := Token(Entity(rules.entity(reference)), reference);
    assert Tokens("", rules) == [] && [t] + [] == [t];
  }

  lemma EntityPairs(decoded: string, reference: string)
    ensures var toks := [Token(Entity(decoded), reference)];
            Run(toks).pairs == Spread(decoded, 0, |reference|) && SkipsOf(toks) == []
  {
    hide Spread, Run, SkipsOf, Size, Step, SkipOf;
    var t := Token(Entity(decoded), reference);
    EmptyRun(Knows("", ""));
    OnlyOne(t);
    RunSnoc([], t);
    FirstStep(decoded, reference);
  }

  lemma OnlyOne(t: Token)
    ensures [] + [t] == [t]
  {
  }

  lemma FirstStep(decoded: string, reference: string)
    ensures var t := Token(Entity(decoded), reference);
            && Step(Cursor(-1, []), t, 0).pairs == Spread(decoded, 0, |reference|)
            && [] + SkipOf(t, 0) == []
  {
    hide Spread;
    var ps := Spread(decoded, 0, |reference|);
    assert [] + ps == ps;
  }

  /** A reference on its own shows what it stands for, every byte of it with the span of the whole. */
  lemma ReferenceShows(reference: string, rules: Rules)
    requires EntityLen(reference) == |reference| > 0 && Decodes(reference, rules) && !rules.shortcodes
    requires !AllBlankOrNbsp(rules.entity(reference))
    ensures Visible(reference, rules) == rules.entity(reference)
    ensures Pairs(reference, rules) == Spread(rules.entity(reference), 0, |reference|)
    ensures Skips(reference, rules) == []
  {
    hide EntityLen, AllBlankOrNbsp, Decodes, Tokens, Run, SkipsOf, Spread;
    ReferenceTokens(reference, rules);
    EntityPairs(rules.entity(reference), reference);
    var shown, decoded := Visible(reference, rules), rules.entity(reference);
    assert |shown| == |decoded| && forall k :: 0 <= k < |shown| ==> shown[k] == decoded[k];
  }

  /* ----- structure ----- */

  lemma ParagraphSource(rules: Rules)
    ensures Tokens("a" + PARAGRAPH, rules) == [Token(Raw('a'), "a"), Lex(PARAGRAPH, rules)]
  {
    hide Lex;
    var s := "a" + PARAGRAPH;
    ALetter(s, rules);
    LexOne(s, rules);
    assert s[1..] == PARAGRAPH;
    ParagraphToken(rules);
    TokensCons(PARAGRAPH, rules);
    assert PARAGRAPH[|Lex(PARAGRAPH, rules).raw|..] == "";
    assert Tokens("", rules) == [];
  }

  lemma ALetter(s: string, rules: Rules)
    requires s != "" && s[0] == 'a'
    ensures LiteralAt(s, rules, 0)
  {
    assert s[0..] == s;
  }

  lemma ParagraphPairs(rules: Rules)
    ensures Pairs("a" + PARAGRAPH, rules) == [Pair('a', 0, 1)] && Visible("a" + PARAGRAPH, rules) == "a"
    ensures |Skips("a" + PARAGRAPH, rules)| == 1 && Skips("a" + PARAGRAPH, rules)[0].start == 1
  {
    ParagraphSource(rules);
    ParagraphToken(rules);
    hide Lex, Tokens;
    EmptyRun(rules);
    var a, p := Token(Raw('a'), "a"), Lex(PARAGRAPH, rules);
    assert [] + [a] == [a] && [a] + [p] == [a, p];
    RunSnoc([], a);
    RunSnoc([a], p);
    assert Run([a]).pairs == [Pair('a', 0, 1)];
  }

  /**
   * On the source `a<p>` the code accepts every replacement of the `a`.  If that leaves something
   * open, the `<p>` of the page is gone.
   */
  lemma OpenReplacementLosesStructure(replacement: string, rules: Rules)
    ensures var source := "a" + PARAGRAPH;
            var o := T.Edit(source, "a", replacement, rules);
            && o == T.Replaced(replacement + PARAGRAPH)
            && (!Closed(replacement, rules) ==>
                  |Structure(Tokens(o.result, rules))|
                  < |Structure(Tokens(replacement, rules))| + |Structure(Tokens(source, rules))|)
  {
    var source := "a" + PARAGRAPH;
    ParagraphPairs(rules);
    SingleLetterNeedle(rules);
    LetterInA();
    hide Visible, Pairs, Skips, Tokens, Closed, T.Needle, Structure, Strpos;
    HitSpanA(source, replacement, rules);
    if !Closed(replacement, rules) {
      ClosedIsExact(replacement, rules);
      SourceStructure(rules);
    }
  }

  lemma SingleLetterNeedle(rules: Rules)
    ensures T.Needle("a", rules) == "a"
  {
    hide Visible;
    LetterIsPlain(rules.(shortcodes := false));
    LiteralNeedle("a", rules);
  }

  lemma LetterIsPlain(rules: Rules)
    ensures Literal("a", rules) && Collapsed("a")
  {
    PlainIsLiteral("a", rules);
  }

  lemma LetterInA()
    ensures Strpos("a", "a", 0) == 0 && Strpos("a", "a", 1) == -1
  {
    StrposFirst("a", 'a', 0);
  }

  lemma HitSpanA(source: string, replacement: string, rules: Rules)
    requires source == "a" + PARAGRAPH && Visible(source, rules) == "a" && T.Needle("a", rules) == "a"
    requires Pairs(source, rules) == [Pair('a', 0, 1)]
    requires |Skips(source, rules)| == 1 && Skips(source, rules)[0].start == 1
    requires Strpos("a", "a", 0) == 0 && Strpos("a", "a", 1) == -1
    ensures T.Edit(source, "a", replacement, rules) == T.Replaced(replacement + PARAGRAPH)
  {
    hide Visible, Pairs, Skips, T.Needle, Strpos;
    var skips := Skips(source, rules);
    T.WorstIsExact(skips, 0, 1);
    assert source[..0] == "" && source[1..] == PARAGRAPH;
    assert "" + replacement + PARAGRAPH == replacement + PARAGRAPH;
  }

  lemma SourceStructure(rules: Rules)
    ensures |Structure(Tokens("a" + PARAGRAPH, rules))| == |Structure(Tokens(PARAGRAPH, rules))|
  {
    ParagraphSource(rules);
    ParagraphStructure(rules);
    ParagraphToken(rules);
    hide Lex, Tokens, Structure;
    var a, p := Token(Raw('a'), "a"), Lex(PARAGRAPH, rules);
    assert [a] + [p] == [a, p];
    StructureOfConcat([a], [p]);
    StructureOne(a);
    StructureOne(p);
  }

  /* ----- a reference at the seam ----- */

  /**
   * The page `&aX` shows itself.  Replacing X by `b;` is accepted and completes a character
   * reference: the page does not read `&ab;` afterwards but whatever the reference stands for.
   */
  lemma SeamEntityChangesText()
    ensures var rules := Knows("&ab;", "Z");
            var o := T.Edit("&aX", "X", "b;", rules);
            && Visible("&aX", rules) == "&aX"
            && o == T.Replaced("&ab;") && Visible(o.result, rules) == "Z"
            && SeamAt("&a", "b;", rules, 0)
  {
    hide Visible, SeamAt, T.Edit;
    SeamEdit(Knows("&ab;", "Z"));
    SeamReads(Knows("&ab;", "Z"));
  }

  lemma SeamReads(rules: Rules)
    requires rules == Knows("&ab;", "Z")
    ensures Visible("&ab;", rules) == "Z" && SeamAt("&a", "b;", rules, 0)
  {
    hide Visible, EntityLen, AllBlankOrNbsp, SeamAt;
    NamedReference("&ab;", 4);
    NotBlank('Z', "");
    assert ['Z'] + "" == "Z";
    ReferenceShows("&ab;", rules);
    SeamThere(rules);
  }

  lemma SeamThere(rules: Rules)
    requires EntityLen("&ab;") == 4 && Decodes("&ab;", rules)
    ensures SeamAt("&a", "b;", rules, 0)
  {
    hide EntityLen, Decodes;
    assert "&a"[0..] == "&a" && "&a" + "b;" == "&ab;" && "&ab;"[..4] == "&ab;";
  }

  lemma SeamEdit(rules: Rules)
    requires !rules.shortcodes
    ensures Visible("&aX", rules) == "&aX" && T.Edit("&aX", "X", "b;", rules) == T.Replaced("&ab;")
  {
    assert rules.(shortcodes := false) == rules;
    hide Visible, Literal, EntityLen, Collapsed, T.Edit, T.Sole, T.Contains;
    NoReference("&aX", rules);
    NoReference("X", rules);
    ThreeCollapsed();
    LiteralVisible("&aX", rules);
    SoleInSource();
    LiteralIsStringReplace("&aX", "X", "b;", rules);
  }

  /** Where the X stands in the two sources of these examples, and what comes of replacing it. */
  lemma SoleInSource()
    ensures T.Sole("&aX", "X", 2) && "&aX"[..2] + "b;" + "&aX"[2 + |"X"|..] == "&ab;"
    ensures T.Sole("a X b", "X", 2) && "a X b"[..2] + "" + "a X b"[2 + |"X"|..] == "a  b"
  {
    SoleByte("&aX", 'X', 2);
    SoleByte("a X b", 'X', 2);
  }

  lemma ThreeCollapsed()
    ensures Collapsed("&aX") && Collapsed("X")
  {
  }

  /* ----- a hit inside an entity ----- */

  /**
   * The reference `&fjlig;` shows two letters.  Replacing the first of them is accepted and
   * removes both.
   */
  lemma UnalignedHit(replacement: string)
    ensures var rules := Knows("&fjlig;", "fj");
            && Visible("&fjlig;", rules) == "fj" && T.Needle("f", rules) == "f"
            && T.Edit("&fjlig;", "f", replacement, rules) == T.Replaced(replacement)
            && !Aligned(Pairs("&fjlig;", rules), 0, 1)
  {
    var rules := Knows("&fjlig;", "fj");
    assert rules.(shortcodes := false) == rules;
    hide Visible, Literal, EntityLen, AllBlankOrNbsp, Pairs, Skips, Strpos, T.Needle;
    NamedReference("&fjlig;", 7);
    NotBlank('f', "j");
    assert ['f'] + "j" == "fj";
    ReferenceShows("&fjlig;", rules);
    NoReference("f", rules);
    LetterF();
    LiteralNeedle("f", rules);
    SpreadTwo();
    WholeReplaced(replacement, rules);
  }

  lemma LetterF()
    ensures Collapsed("f") && Strpos("fj", "f", 0) == 0 && Strpos("fj", "f", 1) == -1
  {
    StrposFirst("fj", 'f', 0);
    assert "fj"[1..2] == "j";
  }

  lemma SpreadTwo()
    ensures Spread("fj", 0, 7) == [Pair('f', 0, 7), Pair('j', 0, 7)]
  {
  }

  lemma WholeReplaced(replacement: string, rules: Rules)
    requires Visible("&fjlig;", rules) == "fj" && T.Needle("f", rules) == "f" && Skips("&fjlig;", rules) == []
    requires Pairs("&fjlig;", rules) == [Pair('f', 0, 7), Pair('j', 0, 7)]
    requires Strpos("fj", "f", 0) == 0 && Strpos("fj", "f", 1) == -1
    ensures T.Edit("&fjlig;", "f", replacement, rules) == T.Replaced(replacement)
  {
    hide Visible, Pairs, Skips, T.Needle, Strpos, T.Splice;
    PlainCut("&fjlig;", replacement, 0, 7);
    assert "&fjlig;"[..0] + replacement + "&fjlig;"[7..] == replacement;
  }

  /* ----- two failures that cancel ----- */

  /** A decoder that knows two references, one of which it makes longer. */
  const STRETCHING := Rules(false, s => if s == "&fjlig;" then "fj" else if s == "&ab;" then "&ab;j" else s)

  const CUT_REFERENCE := "&a" + "&fjlig;"

  /**
   * The hit cuts one reference, which takes its `j` away, and another that forms at the seam
   * shows a `j` more than it has: the text is as it should be, and neither condition holds.
   */
  lemma TwoFailuresCancel()
    ensures T.Admissible(CUT_REFERENCE, "f", STRETCHING, 2) && |Pairs(CUT_REFERENCE, STRETCHING)| == 4
    ensures T.Needle("f", STRETCHING) == "f"
    ensures !Aligned(Pairs(CUT_REFERENCE, STRETCHING), 2, 1)
    ensures SwappedText(CUT_REFERENCE, "f", "b;", STRETCHING, 2)
    ensures SeamAt("&a", "b;", STRETCHING, 0) && NoInnerSpace(STRETCHING)
    ensures !Tight(Tokens(T.Edit(CUT_REFERENCE, "f", "b;", STRETCHING).Result(), STRETCHING))
  {
    hide Visible, Pairs, Skips, Tokens, T.Needle, T.Edit, SeamAt, Tight, NoInnerSpace, T.Admissible, T.Sole;
    CutReferenceShows();
    StretchedShows();
    FNeedle();
    CutReferenceEdit();
    StretchingHasNoSpace();
    var vis := "&afj";
    assert vis[..2] + "b;" + vis[2 + 1..] == "&ab;j";
  }

  lemma FNeedle()
    ensures T.Needle("f", STRETCHING) == "f" && Visible("b;", STRETCHING) == "b;"
  {
    var rules := STRETCHING;
    assert rules.(shortcodes := false) == rules;
    hide Visible, Literal, EntityLen, T.Needle, Collapsed;
    NoReference("f", rules);
    LetterF();
    LiteralNeedle("f", rules);
    BSemicolon();
    LiteralVisible("b;", rules);
  }

  lemma BSemicolon()
    ensures Literal("b;", STRETCHING) && Collapsed("b;")
  {
    PlainIsLiteral("b;", STRETCHING);
  }

  lemma CutReferenceTokens()
    ensures Tokens(CUT_REFERENCE, STRETCHING)
            == [] + [ByteToken('&')] + [ByteToken('a')] + [Token(Entity("fj"), "&fjlig;")]
  {
    hide Tokens, EntityLen, AllBlankOrNbsp, ByteToken;
    var rules, s := STRETCHING, CUT_REFERENCE;
    Ampersands(s);
    LexOne(s, rules);
    assert s[1..] == "a" + "&fjlig;" && s[1..][1..] == "&fjlig;";
    ALetter(s[1..], rules);
    LexOne(s[1..], rules);
    NamedReference("&fjlig;", 7);
    NotBlank('f', "j");
    assert ['f'] + "j" == "fj";
    ReferenceTokens("&fjlig;", rules);
  }

  lemma Ampersands(s: string)
    requires s == CUT_REFERENCE
    ensures EntityLen(s) == 0 && s[0..] == s
  {
    StrposFirst(s, ';', 8);
    assert Window(s) == s && s[1..8][1] == '&';
  }

  lemma TwoBytesRun()
    ensures var toks := [] + [ByteToken('&')] + [ByteToken('a')];
            Run(toks) == Cursor(-1, [Pair('&', 0, 1), Pair('a', 1, 2)]) && SkipsOf(toks) == [] && Size(toks) == 2
  {
    hide Run, SkipsOf, Size;
    EmptyRun(STRETCHING);
    RunSnoc([], ByteToken('&'));
    RunSnoc([] + [ByteToken('&')], ByteToken('a'));
  }

  lemma CutReferenceShows()
    ensures Pairs(CUT_REFERENCE, STRETCHING) == [Pair('&', 0, 1), Pair('a', 1, 2), Pair('f', 2, 9), Pair('j', 2, 9)]
    ensures Skips(CUT_REFERENCE, STRETCHING) == [] && Visible(CUT_REFERENCE, STRETCHING) == "&afj"
  {
    hide Tokens, Run, SkipsOf, Size, ByteToken;
    CutReferenceTokens();
    TwoBytesRun();
    var front, fj := [] + [ByteToken('&')] + [ByteToken('a')], Token(Entity("fj"), "&fjlig;");
    RunSnoc(front, fj);
    SpreadThree();
  }

  lemma SpreadThree()
    ensures Spread("fj", 2, 9) == [Pair('f', 2, 9), Pair('j', 2, 9)]
  {
  }

  lemma StretchedShows()
    ensures Visible("&ab;", STRETCHING) == "&ab;j" && SeamAt("&a", "b;", STRETCHING, 0)
    ensures !Tight(Tokens("&ab;", STRETCHING))
  {
    hide Visible, EntityLen, AllBlankOrNbsp, SeamAt, Tokens;
    NamedReference("&ab;", 4);
    NotBlank('&', "ab;j");
    assert ['&'] + "ab;j" == "&ab;j";
    ReferenceShows("&ab;", STRETCHING);
    ReferenceTokens("&ab;", STRETCHING);
    SeamThere(STRETCHING);
    assert Tokens("&ab;", STRETCHING)[0] == Token(Entity("&ab;j"), "&ab;");
  }

  lemma CutReferenceEdit()
    requires Pairs(CUT_REFERENCE, STRETCHING) == [Pair('&', 0, 1), Pair('a', 1, 2), Pair('f', 2, 9), Pair('j', 2, 9)]
    requires Skips(CUT_REFERENCE, STRETCHING) == [] && Visible(CUT_REFERENCE, STRETCHING) == "&afj"
    requires T.Needle("f", STRETCHING) == "f"
    ensures T.Admissible(CUT_REFERENCE, "f", STRETCHING, 2)
    ensures T.Edit(CUT_REFERENCE, "f", "b;", STRETCHING) == T.Replaced("&ab;")
  {
    hide Pairs, Skips, Visible, T.Needle, T.Edit;
    SoleByte("&afj", 'f', 2);
    assert T.Unblocked(CUT_REFERENCE, STRETCHING, 2, 9);
    T.ExactDecision(CUT_REFERENCE, "f", "b;", STRETCHING);
    assert CUT_REFERENCE[..2] + "b;" + CUT_REFERENCE[9..] == "&ab;";
  }

  lemma StretchingHasNoSpace()
    ensures NoInnerSpace(STRETCHING)
  {
    hide EntityLen, AllBlankOrNbsp;
    forall reference | EntityLen(reference) == |reference| > 0
      ensures ' ' !in STRETCHING.entity(reference)
    {
      ReferenceHasNoSpace(reference);
    }
  }

  /* ----- a space at an edge ----- */

  /**
   * Removing the X of `a X b` is accepted, and the two spaces around it become one: the edges of
   * the empty replacement do not fit there.
   */
  lemma EdgeLosesSpace(rules: Rules)
    ensures Visible("a X b", rules) == "a X b"
    ensures T.Edit("a X b", "X", "", rules) == T.Replaced("a  b") && Visible("a  b", rules) == "a b"
    ensures !E.Fits(TextRun(Tokens("a ", rules), START), [], Tokens(" b", rules))
  {
    hide Visible, Literal, Collapsed, T.Edit, T.Sole, T.Contains, TextRun, E.Fits, Tokens;
    XIsLiteral(rules);
    LiteralVisible("a X b", rules);
    SoleInSource();
    LiteralIsStringReplace("a X b", "X", "", rules);
    EdgeTokens(rules);
    EdgeRuns(rules);
    VisibleIsTextRun("a  b", rules);
    EdgesDoNotFit();
  }

  lemma XIsLiteral(rules: Rules)
    ensures Literal("a X b", rules) && Literal("X", rules.(shortcodes := false))
    ensures Collapsed("a X b") && Collapsed("X")
  {
    PlainIsLiteral("a X b", rules);
    PlainIsLiteral("X", rules.(shortcodes := false));
  }

  const LETTER_A := Token(Raw('a'), "a")
  const LETTER_B := Token(Raw('b'), "b")
  const BLANK := Token(Space, " ")

  lemma EdgeTokens(rules: Rules)
    ensures Tokens("a ", rules) == [LETTER_A, BLANK] && Tokens(" b", rules) == [BLANK, LETTER_B]
    ensures Tokens("a  b", rules) == [LETTER_A, BLANK, BLANK, LETTER_B]
  {
    hide Lex, Tokens;
    PlainCons("b", rules);
    PlainCons(" b", rules);
    PlainCons("  b", rules);
    PlainCons("a  b", rules);
    PlainCons(" ", rules);
    PlainCons("a ", rules);
    NoTokens(rules);
    assert "b"[1..] == "" && " b"[1..] == "b" && "  b"[1..] == " b" && "a  b"[1..] == "  b" && " "[1..] == "";
    assert "a "[1..] == " ";
  }

  lemma PlainCons(s: string, rules: Rules)
    requires s != "" && s[0] != '<' && s[0] != '[' && s[0] != '&'
    ensures Tokens(s, rules) == [ByteToken(s[0])] + Tokens(s[1..], rules)
  {
    hide Lex, Tokens;
    assert s[0..] == s;
    LexOne(s, rules);
  }

  lemma EdgeRuns(rules: Rules)
    ensures TextRun([LETTER_A, BLANK], START) == Text(true, "a")
    ensures TextRun([LETTER_A, BLANK, BLANK, LETTER_B], START).bytes == "a b"
  {
    hide TextRun;
    TextRunOne(LETTER_A, START);
    TextRunSnoc([LETTER_A], BLANK, START);
    TextRunSnoc([LETTER_A] + [BLANK], BLANK, START);
    TextRunSnoc([LETTER_A] + [BLANK] + [BLANK], LETTER_B, START);
    assert [LETTER_A] + [BLANK] == [LETTER_A, BLANK];
    assert [LETTER_A] + [BLANK] + [BLANK] + [LETTER_B] == [LETTER_A, BLANK, BLANK, LETTER_B];
  }

  lemma EdgesDoNotFit()
    ensures !E.Fits(Text(true, "a"), [], [BLANK, LETTER_B])
  {
  }

  /* ----- spaces ----- */

  const NBSP := "\U{C2}\U{A0}"

  /** Whitespace does not always collapse: a blank and then a no-break space show as two spaces. */
  lemma TwoSpaces()
    ensures Visible("a &nbsp;b", Knows("&nbsp;", NBSP)) == "a  b"
  {
    var rules := Knows("&nbsp;", NBSP);
    hide EntityLen, Tokens, IsBlank, Visible, ByteToken;
    var s := "a &nbsp;b";
    ALetter(s, rules);
    LexOne(s, rules);
    assert s[1..] == " &nbsp;b" && " &nbsp;b"[1..] == "&nbsp;" + "b";
    ABlank(" &nbsp;b", rules);
    LexOne(" &nbsp;b", rules);
    NbspToken(rules);
    BToken(rules);
    TwoSpacesShow(s, rules);
  }

  lemma NbspToken(rules: Rules)
    requires rules == Knows("&nbsp;", NBSP)
    ensures Tokens("&nbsp;" + "b", rules) == [Token(SpaceEntity, "&nbsp;")] + Tokens("b", rules)
  {
    hide EntityLen, Tokens;
    NamedReference("&nbsp;" + "b", 6);
    LexNamed("&nbsp;", "b", rules);
    NbspIsSpace();
  }

  lemma BToken(rules: Rules)
    requires !rules.shortcodes
    ensures Tokens("b", rules) == [ByteToken('b')] + []
  {
    hide Lex, ByteToken;
    NoReference("b", rules);
    assert LiteralAt("b", rules, 0);
    LexOne("b", rules);
    assert "b"[1..] == "" && Tokens("", rules) == [];
  }

  lemma ABlank(s: string, rules: Rules)
    requires s != "" && s[0] == ' '
    ensures LiteralAt(s, rules, 0)
  {
    assert s[0..] == s;
  }

  lemma NbspIsSpace()
    ensures AllBlankOrNbsp(NBSP)
  {
  }

  lemma TwoSpacesShow(s: string, rules: Rules)
    requires Tokens(s, rules)
             == [ByteToken('a')] + ([ByteToken(' ')] + ([Token(SpaceEntity, "&nbsp;")] + ([ByteToken('b')] + [])))
    ensures Visible(s, rules) == "a  b"
  {
    hide Tokens, Visible;
    var a, space, nbsp, b := ByteToken('a'), ByteToken(' '), Token(SpaceEntity, "&nbsp;"), ByteToken('b');
    assert Tokens(s, rules) == [] + [a] + [space] + [nbsp] + [b];
    VisibleIsTextRun(s, rules);
    TextRunSnoc([] + [a] + [space] + [nbsp], b, START);
    TextRunSnoc([] + [a] + [space], nbsp, START);
    TextRunSnoc([] + [a], space, START);
    TextRunSnoc([], a, START);
  }

  /** This decoder is one of those that `SpacesAreExact` speaks of, which finds the two spaces. */
  lemma TwoSpacesFound()
    ensures var rules := Knows("&nbsp;", NBSP);
            && NoInnerSpace(rules)
            && Adjacent(Visible("a &nbsp;b", rules)) && Doubled(Tokens("a &nbsp;b", rules))
  {
    hide Visible, Tokens, Doubled, EntityLen;
    var rules := Knows("&nbsp;", NBSP);
    forall reference | EntityLen(reference) == |reference| > 0
      ensures AllBlankOrNbsp(rules.entity(reference)) || ' ' !in rules.entity(reference)
    {
      NbspIsSpace();
      ReferenceHasNoSpace(reference);
    }
    TwoSpaces();
    assert "a  b"[1] == ' ' && "a  b"[2] == ' ';
    SpacesAreExact("a &nbsp;b", rules);
  }

  lemma ReferenceHasNoSpace(reference: string)
    requires EntityLen(reference) == |reference| > 0
    ensures ' ' !in reference
  {
    forall k | 0 <= k < |reference|
      ensures reference[k] != ' '
    {
      if k > 0 {
        EntityBytes(reference, k);
      }
    }
  }

  /* ----- needles ----- */

  /** Normalising a passage twice is not normalising it once: `&lt;` becomes `<`, which opens a tag. */
  lemma NeedleNotIdempotent()
    ensures var rules := Knows("&lt;", "<");
            T.Needle("&lt;", rules) == "<" && !NormalForm("<", rules) && T.Needle("<", rules) != "<"
  {
    var rules := Knows("&lt;", "<");
    assert rules.(shortcodes := false) == rules;
    hide Visible, EntityLen, AllBlankOrNbsp;
    NamedReference("&lt;", 4);
    NotBlank('<', "");
    assert ['<'] + "" == "<";
    ReferenceShows("&lt;", rules);
    TrimWhole("<");
    KnowsOne("&lt;", "<");
    assert !LiteralAt("<", rules, 0);
    IdempotentIff("&lt;", rules);
  }

  lemma TrimWhole(s: string)
    requires s != "" && !IsBlank(s[0]) && !IsBlank(s[|s| - 1])
    ensures Trim(s) == s
  {
  }

  lemma KnowsOne(reference: string, decoded: string)
    requires '&' !in decoded || decoded == "&"
    ensures AmpersandLaw(Knows(reference, decoded))
  {
  }

  /** Nor without any tag: two spaces are one the second time. */
  lemma SpacesNotIdempotent()
    ensures var rules := Knows("&nbsp;", NBSP);
            T.Needle("a &nbsp;b", rules) == "a  b" && !NormalForm("a  b", rules) && T.Needle("a  b", rules) != "a  b"
  {
    hide Visible, AmpersandLaw, Trim, Collapsed, Literal, T.Needle;
    TwoSpaces();
    NeedleOf("a &nbsp;b", Knows("&nbsp;", NBSP), "a  b");
    KnowsOne("&nbsp;", NBSP);
    NotCollapsed();
    IdempotentIff("a &nbsp;b", Knows("&nbsp;", NBSP));
  }

  lemma NeedleOf(f: string, rules: Rules, shown: string)
    requires !rules.shortcodes && Visible(f, rules) == shown
    requires shown != "" && !IsBlank(shown[0]) && !IsBlank(shown[|shown| - 1])
    ensures T.Needle(f, rules) == shown
  {
    hide Visible;
    assert rules.(shortcodes := false) == rules;
    TrimWhole(shown);
  }

  lemma NotCollapsed()
    ensures !Collapsed("a  b")
  {
    assert "a  b"[1] == ' ' && "a  b"[2] == ' ';
  }
}
