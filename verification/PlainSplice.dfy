/** The splice theorem for plain replacement text, where its side conditions are easy to see. */
module PlainSplice {
  import opened Php
  import opened Markup
  import opened Locality
  import opened Projection
  import opened Rendering
  import opened Seams
  import opened Outline
  import opened SpliceLaws
  import E = Edges
  import T = Text

  /** No byte of `s` opens a tag, an entity or (where they are read) a shortcode. */
  predicate Plain(s: string, rules: Rules) {
    forall k :: 0 <= k < |s| ==> s[k] != '<' && s[k] != '&' && !(rules.shortcodes && s[k] == '[')
  }

  /** Every byte of `s` reads as itself: as `Plain`, but a `&` is no harm where no reference is decoded. */
  predicate Literal(s: string, rules: Rules) {
    forall k :: 0 <= k < |s| ==> LiteralAt(s, rules, k)
  }

  predicate LiteralAt(s: string, rules: Rules, k: nat)
    requires k < |s|
  {
    && s[k] != '<' && !(rules.shortcodes && s[k] == '[')
    && var n := EntityLen(s[k..]); (n > 0 ==> !Decodes(s[k..][..n], rules))
  }

  lemma PlainIsLiteral(s: string, rules: Rules)
    requires Plain(s, rules)
    ensures Literal(s, rules)
  {
    forall k | 0 <= k < |s|
      ensures LiteralAt(s, rules, k)
    {
      assert s[k..][0] == s[k];
    }
  }

  lemma LiteralRest(s: string, rules: Rules)
    requires s != "" && Literal(s, rules)
    ensures Literal(s[1..], rules)
  {
    forall k | 0 <= k < |s| - 1
      ensures LiteralAt(s[1..], rules, k)
    {
      assert s[1..][k..] == s[k + 1..];
      assert LiteralAt(s, rules, k + 1);
    }
  }

  /** Whitespace is single spaces, and none of it at an edge. */
  predicate Collapsed(s: string) {
    && s != "" && !IsBlank(s[0]) && !IsBlank(s[|s| - 1])
    && forall k :: 0 <= k < |s| && IsBlank(s[k]) ==> s[k] == ' ' && (k + 1 < |s| ==> !IsBlank(s[k + 1]))
  }

  function ByteToken(c: char): Token {
    Token(if IsBlank(c) then Space else Raw(c), [c])
  }

  lemma LexLiteral(s: string, rules: Rules)
    requires s != "" && LiteralAt(s, rules, 0)
    ensures Lex(s, rules) == ByteToken(s[0])
  {
    hide IsBlank, EntityLen, AllBlankOrNbsp;
    assert s[0..] == s;
    assert s[..1] == [s[0]];
  }

  /** Literal text is read byte by byte. */
  lemma {:induction false} LiteralTokens(s: string, rules: Rules)
    requires Literal(s, rules)
    ensures Closed(s, rules)
    ensures |Tokens(s, rules)| == |s|
    ensures forall k :: 0 <= k < |s| ==> Tokens(s, rules)[k] == ByteToken(s[k])
    decreases |s|
  {
    hide Lex, ByteToken, EntityLen;
    if s == "" {
    } else {
      var rest := s[1..];
      assert LiteralAt(s, rules, 0);
      LexLiteral(s, rules);
      assert |ByteToken(s[0]).raw| == 1 by { ByteTokenIsByte(s[0]); }
      LiteralRest(s, rules);
      LiteralTokens(rest, rules);
      assert Tokens(s, rules) == [ByteToken(s[0])] + Tokens(rest, rules);
    }
  }

  /** Plain text has no ampersand that what follows could complete. */
  lemma PlainNoSeam(s: string, b: string, rules: Rules)
    requires Plain(s, rules)
    ensures NoSeam(s, b, rules)
  {
    hide Completes;
  }

  lemma ByteTokenIsByte(c: char)
    ensures ByteToken(c).raw == [c] && !ByteToken(c).kind.IsStructural()
  {
  }

  /** What is visible of the first `k` bytes of collapsed text. */
  function Read(s: string, k: nat): Text
    requires k <= |s|
  {
    if k > 0 && IsBlank(s[k - 1]) then Text(true, s[..k - 1]) else Text(false, s[..k])
  }

  lemma ReadStep(s: string, k: nat)
    requires Collapsed(s) && 0 < k <= |s|
    ensures TextStep(Read(s, k - 1), ByteToken(s[k - 1]).kind) == Read(s, k)
  {
    hide IsBlank;
    if k > 1 && IsBlank(s[k - 2]) {
      assert s[..k] == s[..k - 2] + " " + [s[k - 1]];
    } else {
      assert s[..k] == s[..k - 1] + [s[k - 1]];
    }
  }

  lemma {:induction false} CollapsedRun(s: string, toks: seq<Token>, k: nat)
    requires Collapsed(s) && k <= |s| == |toks|
    requires forall j :: 0 <= j < |s| ==> toks[j] == ByteToken(s[j])
    ensures TextRun(toks[..k], START) == Read(s, k)
  {
    if k == 0 {
    } else {
      hide Collapsed, ByteToken, Read, TextStep;
      CollapsedRun(s, toks, k - 1);
      ReadStep(s, k);
      assert toks[..k][..k - 1] == toks[..k - 1];
    }
  }

  /** Literal collapsed text is its own visible text, closed and without structure. */
  lemma LiteralVisible(s: string, rules: Rules)
    requires Literal(s, rules) && Collapsed(s)
    ensures Visible(s, rules) == s
    ensures Closed(s, rules)
    ensures Structure(Tokens(s, rules)) == []
  {
    hide Tokens, TextRun, Structure, Literal;
    LiteralTokens(s, rules);
    var toks := Tokens(s, rules);
    CollapsedRun(s, toks, |s|);
    assert toks[..|s|] == toks && s[..|s|] == s;
    VisibleIsTextRun(s, rules);
    forall j | 0 <= j < |toks|
      ensures !toks[j].kind.IsStructural()
    {
      ByteTokenIsByte(s[j]);
    }
    NoStructure(toks);
  }

  /** It starts and ends with text, so no space comes or goes at its edges. */
  lemma LiteralFits(cut: Cut, s: string, rules: Rules)
    requires Literal(s, rules) && Collapsed(s)
    ensures EdgesFit(cut, s, rules) && E.Plainish(Tokens(s, rules))
  {
    hide Tokens, TextRun, Literal;
    LiteralTokens(s, rules);
    var toks := Tokens(s, rules);
    assert toks[0].kind.IsText() && toks[|toks| - 1].kind.IsText();
    assert E.FirstText(toks) == 0 && E.AfterText(toks) == |toks|;
  }

  /** A literal collapsed passage is its own needle. */
  lemma LiteralNeedle(s: string, rules: Rules)
    requires Literal(s, rules.(shortcodes := false)) && Collapsed(s)
    ensures T.Needle(s, rules) == s
  {
    hide Visible;
    LiteralVisible(s, rules.(shortcodes := false));
    assert Ltrim(s) == s && Rtrim(s) == s;
  }

  /**
   * Replacing an aligned hit by plain collapsed text: the structure is untouched, the removed
   * slice was the needle, and the page reads as before with that one occurrence swapped if and
   * only if no character reference that the decoder changes forms at the left seam.  If so, the
   * new text is found again by `contains`.
   */
  lemma PlainSpliceTheorem(source: string, find: string, replacement: string, rules: Rules, at: nat)
    requires T.Admissible(source, find, rules, at)
    requires Plain(replacement, rules) && Collapsed(replacement)
    ensures 0 < |T.Needle(find, rules)| <= |Pairs(source, rules)| - at
    ensures T.Edit(source, find, replacement, rules).Replaced?
    ensures Structure(Tokens(T.Edit(source, find, replacement, rules).Result(), rules))
            == Structure(Tokens(source, rules))
    ensures Visible(replacement, rules) == replacement
    ensures Aligned(Pairs(source, rules), at, |T.Needle(find, rules)|) ==>
              && var cut := Hit(source, find, rules, at);
              && Visible(cut.hit, rules) == T.Needle(find, rules)
              && (SwappedText(source, find, replacement, rules, at)
                  <==> NoSeam(cut.before, replacement + cut.after, rules))
              && (SwappedText(source, find, replacement, rules, at)
                  ==> T.Contains(T.Edit(source, find, replacement, rules).Result(), replacement, rules))
  {
    hide *;
    var cut := Hit(source, find, rules, at);
    PlainIsLiteral(replacement, rules);
    LiteralVisible(replacement, rules);
    LiteralFits(cut, replacement, rules);
    PlainNoSeam(replacement, cut.after, rules);
    PlainWithout(replacement, rules);
    SpliceTheorem(source, find, replacement, rules, at);
    StructureTheorem(source, find, replacement, rules, at);
    EditIsSplice(source, find, replacement, rules, at);
    NothingAdded(Structure(Tokens(cut.before, rules)));
    if Aligned(Pairs(source, rules), at, |T.Needle(find, rules)|) && SwappedText(source, find, replacement, rules, at) {
      var vis := Visible(source, rules);
      LiteralNeedle(replacement, rules);
      SwappedIs(source, find, replacement, rules, at);
      FoundAgain(T.Edit(source, find, replacement, rules).Result(), replacement, rules,
                 vis[..at], vis[at + |T.Needle(find, rules)|..]);
    }
  }

  lemma PlainWithout(s: string, rules: Rules)
    requires Plain(s, rules)
    ensures Literal(s, rules.(shortcodes := false))
  {
    PlainIsLiteral(s, rules.(shortcodes := false));
  }

  lemma FoundAgain(result: string, passage: string, rules: Rules, front: string, back: string)
    requires T.Needle(passage, rules) == passage && Collapsed(passage)
    requires Visible(result, rules) == front + passage + back
    ensures T.Contains(result, passage, rules)
  {
    hide T.Needle, Visible;
    var vis := Visible(result, rules);
    assert vis[|front|..|front| + |passage|] == passage;
    assert OccursAt(vis, passage, |front|);
  }

  /** No reference can form at the left seam unless the replacement starts like one goes on. */
  lemma PlainSeamSafe(before: string, replacement: string, after: string, rules: Rules)
    requires replacement != "" && !(IsAlnum(replacement[0]) || replacement[0] == '#' || replacement[0] == ';')
    ensures NoSeam(before, replacement + after, rules)
  {
    SeamSafe(before, replacement + after, rules);
  }

  /* ----- on literal text, the engine is plain string replacement ----- */

  /** Every byte stands for itself. */
  function Identity(s: string, k: nat): (ps: seq<Pair>)
    requires k <= |s|
    ensures |ps| == k && forall j :: 0 <= j < k ==> ps[j] == Pair(s[j], j, j + 1)
  {
    if k == 0 then [] else Identity(s, k - 1) + [Pair(s[k - 1], k - 1, k)]
  }

  /** The scanner after `k` bytes of collapsed text: a blank is pending, or all bytes are out. */
  function Scanned(s: string, k: nat): Cursor
    requires k <= |s|
  {
    if k > 0 && IsBlank(s[k - 1]) then Cursor(k - 1, Identity(s, k - 1)) else Cursor(-1, Identity(s, k))
  }

  lemma ScannedStep(s: string, k: nat)
    requires Collapsed(s) && 0 < k <= |s|
    ensures Step(Scanned(s, k - 1), ByteToken(s[k - 1]), k - 1) == Scanned(s, k)
  {
    hide IsBlank;
  }

  lemma {:induction false} CollapsedScan(s: string, toks: seq<Token>, k: nat)
    requires Collapsed(s) && k <= |s| == |toks|
    requires forall j :: 0 <= j < |s| ==> toks[j] == ByteToken(s[j])
    ensures Size(toks[..k]) == k && Run(toks[..k]) == Scanned(s, k) && SkipsOf(toks[..k]) == []
  {
    if k > 0 {
      hide Collapsed, Scanned, Step, ByteToken;
      CollapsedScan(s, toks, k - 1);
      ScannedStep(s, k);
      ByteTokenIsByte(s[k - 1]);
      NoSkip(s[k - 1]);
      assert toks[..k][..k - 1] == toks[..k - 1];
    } else {
      ScannedNothing(s);
    }
  }

  lemma ScannedNothing(s: string)
    ensures Scanned(s, 0) == Cursor(-1, [])
  {
  }

  lemma NoSkip(c: char)
    ensures !ByteToken(c).kind.IsSkip()
  {
  }

  lemma LiteralPairs(s: string, rules: Rules)
    requires Literal(s, rules) && Collapsed(s)
    ensures Pairs(s, rules) == Identity(s, |s|) && Skips(s, rules) == []
  {
    hide Tokens, Run, SkipsOf, Size, ByteToken, Literal;
    LiteralTokens(s, rules);
    CollapsedScan(s, Tokens(s, rules), |s|);
    assert Tokens(s, rules)[..|s|] == Tokens(s, rules);
  }

  lemma PlainEdit(source: string, find: string, replacement: string, rules: Rules, at: nat)
    requires Visible(source, rules) == source && T.Needle(find, rules) == find != "" && Skips(source, rules) == []
    requires at == Strpos(source, find, 0) && Strpos(source, find, at + 1) == -1 && at + |find| <= |source|
    requires Pairs(source, rules)[at].start == at && Pairs(source, rules)[at + |find| - 1].end == at + |find|
    ensures T.Edit(source, find, replacement, rules)
            == T.Replaced(source[..at] + replacement + source[at + |find|..])
  {
    hide Visible, T.Needle, Pairs, Skips, Strpos, OccursAt, T.Splice;
    PlainCut(source, replacement, at, at + |find|);
  }

  lemma PlainRefused(source: string, find: string, replacement: string, rules: Rules)
    requires Visible(source, rules) == source && T.Needle(find, rules) == find != ""
    requires var at := Strpos(source, find, 0); at == -1 || Strpos(source, find, at + 1) != -1
    ensures T.Edit(source, find, replacement, rules).Refused?
  {
    hide Visible, T.Needle, Pairs, Skips, Strpos, OccursAt, T.Splice;
  }

  lemma HitSpan(source: string, find: string, at: int)
    requires find != "" && OccursAt(source, find, at)
    ensures 0 <= at && at + |find| <= |source|
    ensures Identity(source, |source|)[at].start == at && Identity(source, |source|)[at + |find| - 1].end == at + |find|
  {
  }

  lemma PlainCut(source: string, replacement: string, start: int, end: int)
    requires 0 <= start < end <= |source|
    ensures T.Splice(source, replacement, [], start, end) == T.Replaced(source[..start] + replacement + source[end..])
  {
  }

  lemma PlainContains(source: string, find: string, rules: Rules)
    requires Visible(source, rules) == source && T.Needle(find, rules) == find != ""
    ensures T.Contains(source, find, rules) <==> Strpos(source, find, 0) != -1
  {
    hide Visible, T.Needle;
  }

  /**
   * On literal collapsed text the whole machinery is plain string replacement: a passage is
   * accepted exactly where it occurs once, and the bytes of that occurrence are exchanged.
   */
  lemma LiteralIsStringReplace(source: string, find: string, replacement: string, rules: Rules)
    requires Literal(source, rules) && Collapsed(source)
    requires Literal(find, rules.(shortcodes := false)) && Collapsed(find)
    ensures T.Edit(source, find, replacement, rules).Replaced? <==> exists at :: T.Sole(source, find, at)
    ensures forall at :: T.Sole(source, find, at) ==>
              T.Edit(source, find, replacement, rules)
              == T.Replaced(source[..at] + replacement + source[at + |find|..])
    ensures T.Contains(source, find, rules) <==> exists at :: OccursAt(source, find, at)
  {
    hide Visible, T.Needle, T.Edit, Collapsed, Literal, Pairs, Skips, Closed, Structure, Strpos, T.Contains, Identity;
    LiteralVisible(source, rules);
    LiteralNeedle(find, rules);
    LiteralPairs(source, rules);
    CollapsedIsSome(find);
    T.SoleByTwoSearches(source, find);
    var at := Strpos(source, find, 0);
    if at == -1 || Strpos(source, find, at + 1) != -1 {
      PlainRefused(source, find, replacement, rules);
    } else {
      HitSpan(source, find, at);
      PlainEdit(source, find, replacement, rules, at);
    }
    PlainContains(source, find, rules);
  }

  lemma CollapsedIsSome(s: string)
    requires Collapsed(s)
    ensures s != ""
  {
  }
}
