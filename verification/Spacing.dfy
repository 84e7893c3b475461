/** When whitespace collapses to one space in the visible text, and when it does not. */
module Spacing {
  import opened Markup
  import opened Projection
  import opened Rendering
  import opened Seams
  import opened Edges
  import ScannerLaws

  /** Two spaces in a row. */
  predicate Adjacent(s: string) {
    exists k {:trigger s[k]} :: 0 <= k < |s| - 1 && s[k] == ' ' && s[k + 1] == ' '
  }

  predicate EndsInSpace(s: string) { s != "" && s[|s| - 1] == ' ' }

  lemma AdjacentConcat(x: string, y: string)
    ensures Adjacent(x + y) <==> Adjacent(x) || Adjacent(y) || (EndsInSpace(x) && y != "" && y[0] == ' ')
  {
    var z := x + y;
    if Adjacent(x) {
      var k :| 0 <= k < |x| - 1 && x[k] == ' ' && x[k + 1] == ' ';
      assert z[k] == ' ' && z[k + 1] == ' ';
    }
    if Adjacent(y) {
      var k :| 0 <= k < |y| - 1 && y[k] == ' ' && y[k + 1] == ' ';
      assert z[|x| + k] == ' ' && z[|x| + k + 1] == ' ';
    }
    if EndsInSpace(x) && y != "" && y[0] == ' ' {
      assert z[|x| - 1] == ' ' && z[|x|] == ' ';
    }
    if Adjacent(z) {
      var k :| 0 <= k < |z| - 1 && z[k] == ' ' && z[k + 1] == ' ';
      if k + 1 < |x| {
        assert x[k] == ' ' && x[k + 1] == ' ';
      } else if k >= |x| {
        assert y[k - |x|] == ' ' && y[k - |x| + 1] == ' ';
      }
    }
  }

  /** The decoder puts no space into the text of a character reference, unless that is whitespace altogether. */
  ghost predicate NoInnerSpace(rules: Rules) {
    forall reference :: EntityLen(reference) == |reference| > 0 ==>
      AllBlankOrNbsp(rules.entity(reference)) || ' ' !in rules.entity(reference)
  }

  predicate SpaceFree(toks: seq<Token>) {
    forall k :: 0 <= k < |toks| ==> ' ' !in OwnBytes(toks[k].kind)
  }

  lemma LexSpaceFree(s: string, rules: Rules)
    requires s != "" && NoInnerSpace(rules)
    ensures ' ' !in OwnBytes(Lex(s, rules).kind)
  {
    hide AllBlankOrNbsp, EntityLen, NoInnerSpace, LexAngle;
    var n := EntityLen(s);
    if n > 0 {
      ReferenceAlone(s);
      TextOfReference(s[..n], rules);
    }
  }

  lemma TextOfReference(reference: string, rules: Rules)
    requires NoInnerSpace(rules) && EntityLen(reference) == |reference| > 0
    ensures AllBlankOrNbsp(rules.entity(reference)) || ' ' !in rules.entity(reference)
  {
    hide AllBlankOrNbsp, EntityLen;
  }

  lemma {:induction false} TokensSpaceFree(s: string, rules: Rules)
    requires NoInnerSpace(rules)
    ensures SpaceFree(Tokens(s, rules))
    decreases |s|
  {
    hide Lex, NoInnerSpace;
    if s == "" {
    } else {
      LexSpaceFree(s, rules);
      TokensSpaceFree(s[|Lex(s, rules).raw|..], rules);
    }
  }

  /* ----- read off the tokens ----- */

  /** Something is shown, and whitespace has come after it. */
  predicate Waiting(toks: seq<Token>) {
    !NoText(toks) && !NoGap(toks[AfterText(toks)..])
  }

  /** A whitespace entity at `m` came upon waiting whitespace. */
  predicate Flushes(toks: seq<Token>, m: int) {
    0 <= m < |toks| && toks[m].kind.SpaceEntity? && Waiting(toks[..m])
  }

  /** After that comes text, or another whitespace entity. */
  predicate Doubled(toks: seq<Token>) {
    exists m, l :: 0 <= m < l < |toks| && Flushes(toks, m) && (toks[l].kind.IsText() || toks[l].kind.SpaceEntity?)
  }

  /** A whitespace entity came upon waiting whitespace, and no text has come since. */
  predicate Hung(toks: seq<Token>) {
    exists m :: 0 <= m < |toks| && Flushes(toks, m) && NoText(toks[m..])
  }

  lemma FlushesSnoc(front: seq<Token>, last: Token, m: int)
    ensures Flushes(front + [last], m)
            <==> Flushes(front, m) || (m == |front| && last.kind.SpaceEntity? && Waiting(front))
    ensures Flushes(front, m) ==> 0 <= m < |front|
  {
    hide Waiting;
    var toks := front + [last];
    if 0 <= m <= |front| {
      assert toks[..m] == front[..m];
    }
    assert front[..|front|] == front;
  }

  lemma WaitingSnoc(front: seq<Token>, last: Token)
    ensures Waiting(front + [last])
            <==> !last.kind.IsText() && (Waiting(front) || (Gap(last.kind) && !NoText(front)))
  {
    var toks := front + [last];
    assert toks[..|front|] == front;
    assert forall k :: 0 <= k < |front| ==> toks[k] == front[k];
    if last.kind.IsText() {
      assert AfterText(toks) == |toks| && toks[|toks|..] == [];
    } else {
      var i := AfterText(front);
      assert AfterText(toks) == i;
      assert toks[i..] == front[i..] + [last];
      GapSnoc(front[i..], last);
      TextSnoc(front, last);
    }
  }

  lemma GapSnoc(front: seq<Token>, last: Token)
    ensures NoGap(front + [last]) <==> NoGap(front) && !Gap(last.kind)
  {
    assert (front + [last])[|front|] == last;
    assert forall k :: 0 <= k < |front| ==> (front + [last])[k] == front[k];
  }

  lemma TextSnoc(front: seq<Token>, last: Token)
    ensures NoText(front + [last]) <==> NoText(front) && !last.kind.IsText()
  {
    assert (front + [last])[|front|] == last;
    assert forall k :: 0 <= k < |front| ==> (front + [last])[k] == front[k];
  }

  lemma HungSnoc(front: seq<Token>, last: Token)
    ensures Hung(front + [last])
            <==> !last.kind.IsText() && (Hung(front) || (last.kind.SpaceEntity? && Waiting(front)))
  {
    hide Waiting, Flushes, NoText;
    var toks := front + [last];
    if Hung(toks) {
      var m :| 0 <= m < |toks| && Flushes(toks, m) && NoText(toks[m..]);
      FlushesSnoc(front, last, m);
      if m < |front| {
        assert toks[m..] == front[m..] + [last];
        TextSnoc(front[m..], last);
      } else {
        assert toks[m..] == [] + [last];
        TextSnoc([], last);
      }
    }
    if Hung(front) {
      var m :| 0 <= m < |front| && Flushes(front, m) && NoText(front[m..]);
      FlushesSnoc(front, last, m);
      assert toks[m..] == front[m..] + [last];
      TextSnoc(front[m..], last);
    }
    if last.kind.SpaceEntity? && Waiting(front) {
      FlushesSnoc(front, last, |front|);
      NothingShown();
      TextSnoc([], last);
      assert toks[|front|..] == [] + [last];
    }
  }

  lemma NothingShown()
    ensures NoText([])
  {
  }

  lemma DoubledSnoc(front: seq<Token>, last: Token)
    ensures Doubled(front + [last])
            <==> Doubled(front) || (Hung(front) && (last.kind.IsText() || last.kind.SpaceEntity?))
  {
    hide Waiting, Flushes;
    var toks := front + [last];
    if Doubled(toks) {
      var m, l :| 0 <= m < l < |toks| && Flushes(toks, m) && (toks[l].kind.IsText() || toks[l].kind.SpaceEntity?);
      FlushesSnoc(front, last, m);
      if l < |front| {
        assert front[l] == toks[l];
      } else if !NoText(front[m..]) {
        var k :| 0 <= k < |front[m..]| && front[m..][k].kind.IsText();
        TextAfterFlush(front, m, m + k);
      }
    }
    if Doubled(front) {
      var m, l :| 0 <= m < l < |front| && Flushes(front, m) && (front[l].kind.IsText() || front[l].kind.SpaceEntity?);
      FlushesSnoc(front, last, m);
      assert toks[l] == front[l];
    }
    if Hung(front) && (last.kind.IsText() || last.kind.SpaceEntity?) {
      var m :| 0 <= m < |front| && Flushes(front, m) && NoText(front[m..]);
      FlushesSnoc(front, last, m);
      assert toks[|front|] == last;
    }
  }

  lemma TextAfterFlush(toks: seq<Token>, m: nat, k: nat)
    requires Flushes(toks, m) && m <= k < |toks| && toks[k].kind.IsText()
    ensures Doubled(toks)
  {
    assert m < k;
  }

  /** What the text ends in and whether it has two spaces in a row, read off the tokens. */
  predicate SpacedAs(t: Text, toks: seq<Token>) {
    && (t.bytes != "" <==> !NoText(toks))
    && (t.pending && t.bytes != "" <==> Waiting(toks))
    && (EndsInSpace(t.bytes) <==> Hung(toks))
    && (Hung(toks) ==> Waiting(toks))
    && (Adjacent(t.bytes) <==> Doubled(toks))
  }

  lemma SpacedStep(t: Text, front: seq<Token>, last: Token)
    requires SpacedAs(t, front) && ' ' !in OwnBytes(last.kind)
    requires last.kind.Entity? ==> last.kind.bytes != ""
    ensures SpacedAs(TextStep(t, last.kind), front + [last])
  {
    hide NoText, Waiting, Hung, Doubled, Adjacent;
    TextSnoc(front, last);
    WaitingSnoc(front, last);
    HungSnoc(front, last);
    DoubledSnoc(front, last);
    var own := OwnBytes(last.kind);
    AdjacentConcat(t.bytes, " ");
    AdjacentConcat(Spaced(t), own);
    OneSpace();
    if own != "" {
      NotAdjacent(own);
      assert own[0] in own && own[|own| - 1] in own;
    }
  }

  lemma OneSpace()
    ensures !Adjacent(" ")
  {
  }

  lemma NotAdjacent(s: string)
    requires ' ' !in s
    ensures !Adjacent(s)
  {
  }

  lemma TextRunSnoc(front: seq<Token>, last: Token, t: Text)
    ensures TextRun(front + [last], t) == TextStep(TextRun(front, t), last.kind)
  {
    assert (front + [last])[..|front|] == front;
  }

  lemma {:induction false} SpacedRun(toks: seq<Token>)
    requires SpaceFree(toks) && ScannerLaws.Lexed(toks)
    ensures SpacedAs(TextRun(toks, START), toks)
  {
    if toks == [] {
      NothingYet();
    } else {
      hide SpacedAs, OwnBytes, TextStep, TextRun;
      var front, last := toks[..|toks| - 1], toks[|toks| - 1];
      FrontIsSuch(toks);
      hide SpaceFree, ScannerLaws.Lexed;
      SpacedRun(front);
      SpacedStep(TextRun(front, START), front, last);
      TextRunSnoc(front, last, START);
      assert front + [last] == toks;
    }
  }

  lemma FrontIsSuch(toks: seq<Token>)
    requires toks != [] && SpaceFree(toks) && ScannerLaws.Lexed(toks)
    ensures SpaceFree(toks[..|toks| - 1]) && ScannerLaws.Lexed(toks[..|toks| - 1])
    ensures ' ' !in OwnBytes(toks[|toks| - 1].kind)
    ensures toks[|toks| - 1].kind.Entity? ==> toks[|toks| - 1].kind.bytes != ""
  {
    hide OwnBytes;
  }

  lemma NothingYet()
    ensures SpacedAs(TextRun([], START), [])
  {
  }

  /**
   * Whitespace of any length and kind shows as one space, except that two spaces in a row show
   * exactly where a whitespace entity follows other whitespace after some visible byte, and
   * text or another whitespace entity comes later.
   */
  lemma SpacesAreExact(source: string, rules: Rules)
    requires NoInnerSpace(rules)
    ensures Adjacent(Visible(source, rules)) <==> Doubled(Tokens(source, rules))
  {
    hide Tokens, TextRun, Adjacent, Doubled, Hung, Waiting, NoText, Visible, NoInnerSpace;
    TokensSpaceFree(source, rules);
    ScannerLaws.TokensLexed(source, rules);
    SpacedRun(Tokens(source, rules));
    VisibleIsTextRun(source, rules);
  }

}
