/** Inline formatting is invisible to the search: adding it changes neither the text nor the decision. */
module InlineInvariance {
  import opened Php
  import opened Markup
  import opened Locality
  import opened Projection
  import opened ScannerLaws
  import opened Rendering
  import opened Seams
  import opened Outline
  import opened SpliceLaws
  import E = Edges
  import T = Text

  /** One complete inline tag, such as `<b>` or `</strong>`. */
  predicate InlineMarkup(tag: string) {
    && tag != "" && tag[0] == '<'
    && Strpos(tag, ">", 0) == |tag| - 1
    && !StartsWith(tag, "<!--")
    && TagName(tag) in INLINE_TAGS
  }

  lemma LexInline(tag: string, b: string, rules: Rules)
    requires InlineMarkup(tag)
    ensures Lex(tag + b, rules) == Token(InlineTag(TagName(tag)), tag)
  {
    hide TagName, Strpos;
    StrposInPrefix(tag, b, ">");
    OpenerInPrefix(tag, b);
    assert (tag + b)[..|tag|] == tag;
    StrposByte(tag, '>');
  }

  /**
   * A place between two tokens.  At the end of a source that leaves a shortcode open, the tag
   * must not close it.
   */
  predicate Between(a: string, tag: string, b: string, rules: Rules) {
    Boundary(a + b, |a|, rules) && (b == "" && OpenShortcode(a, rules) ==> ']' !in tag)
  }

  lemma InsertedTokens(a: string, tag: string, b: string, rules: Rules)
    requires InlineMarkup(tag) && Boundary(a + b, |a|, rules) && Closed(a, rules)
    ensures Tokens(a + b, rules) == Tokens(a, rules) + Tokens(b, rules)
    ensures Tokens(a + tag + b, rules)
            == Tokens(a, rules) + ([Token(InlineTag(TagName(tag)), tag)] + Tokens(b, rules))
  {
    hide Lex, TagName, Closed, NoSeam;
    TokensSplit(a, b, rules);
    LexInline(tag, b, rules);
    assert (tag + b)[|tag|..] == b;
    assert Tokens(tag + b, rules) == [Token(InlineTag(TagName(tag)), tag)] + Tokens(b, rules);
    hide Tokens, Boundary;
    assert a + (tag + b) == a + tag + b;
    SeamSafe(a, tag + b, rules);
    Joined(a, tag + b, rules);
  }

  /* ----- the same bytes, from the same tokens ----- */

  /** The token list with one inline tag inserted before token `i`. */
  function Inserted(toks: seq<Token>, i: nat, tag: Token): (all: seq<Token>)
    requires i <= |toks|
    ensures |all| == |toks| + 1
  {
    toks[..i] + ([tag] + toks[i..])
  }

  /** Where token `j` of the original stands after the insertion. */
  function Shift(i: nat, j: nat): nat {
    if j < i then j else j + 1
  }

  lemma InsertedPrefix(toks: seq<Token>, i: nat, tag: Token, j: nat)
    requires i <= |toks| && j <= |toks| + 1
    ensures j <= i ==> Inserted(toks, i, tag)[..j] == toks[..j]
    ensures j > i ==> Inserted(toks, i, tag)[..j] == toks[..i] + [tag] + toks[i..j - 1]
  {
  }

  lemma InlineStep(front: seq<Token>, tag: Token, back: seq<Token>)
    requires tag.kind.InlineTag?
    ensures TextRun(front + [tag] + back, START) == TextRun(front + back, START)
  {
    TextRunConcat(front + [tag], back, START);
    TextRunConcat(front, [tag], START);
    TextRunConcat(front, back, START);
    TextRunOne(tag, TextRun(front, START));
  }

  /** After as many original tokens, as many bytes are visible. */
  lemma InsertedCount(toks: seq<Token>, i: nat, tag: Token, j: nat)
    requires i <= |toks| && j <= |toks| + 1 && tag.kind.InlineTag?
    ensures var j0 := if j <= i then j else j - 1;
            |Run(Inserted(toks, i, tag)[..j]).pairs| == |Run(toks[..j0]).pairs|
  {
    hide Run, TextRun, Inserted;
    var all := Inserted(toks, i, tag);
    InsertedPrefix(toks, i, tag, j);
    if j > i {
      InlineStep(toks[..i], tag, toks[i..j - 1]);
      assert toks[..i] + toks[i..j - 1] == toks[..j - 1];
      AbsRun(all[..j]);
      AbsRun(toks[..j - 1]);
    }
  }

  /** Only one token can have emitted byte `k`. */
  lemma EmitterUnique(toks: seq<Token>, m: nat, n: nat, k: nat)
    requires m < |toks| && n < |toks|
    requires |Run(toks[..m]).pairs| <= k < |Run(toks[..m + 1]).pairs|
    requires |Run(toks[..n]).pairs| <= k < |Run(toks[..n + 1]).pairs|
    ensures m == n
  {
    hide Run;
    if m < n {
      assert toks[..n][..m + 1] == toks[..m + 1];
      RunExtends(toks[..n], m + 1);
    } else if n < m {
      assert toks[..m][..n + 1] == toks[..n + 1];
      RunExtends(toks[..m], n + 1);
    }
  }

  /** A textual byte is owned by the same token after the insertion. */
  lemma OwnerShifts(toks: seq<Token>, i: nat, tag: Token, m: nat, n: nat, k: nat)
    requires i <= |toks| && tag.kind.InlineTag? && m < |toks| && n < |Inserted(toks, i, tag)|
    requires |Run(toks[..m]).pairs| <= k < |Run(toks[..m + 1]).pairs|
    requires |Run(Inserted(toks, i, tag)[..n]).pairs| <= k < |Run(Inserted(toks, i, tag)[..n + 1]).pairs|
    ensures n == Shift(i, m)
  {
    hide Run;
    InsertedCount(toks, i, tag, Shift(i, m));
    InsertedCount(toks, i, tag, Shift(i, m) + 1);
    EmitterUnique(Inserted(toks, i, tag), Shift(i, m), n, k);
  }

  /* ----- the same decision ----- */

  predicate Free(toks: seq<Token>, m: nat, k: nat)
    requires k <= |toks|
  {
    forall j :: m <= j < k ==> !toks[j].kind.IsStructural()
  }

  /** The guard on skipped regions, read off the tokens of the hit. */
  lemma UnblockedIffFree(source: string, rules: Rules, m: nat, k: nat)
    requires m < k <= |Tokens(source, rules)|
    ensures T.Unblocked(source, rules, Size(Tokens(source, rules)[..m]), Size(Tokens(source, rules)[..k]))
            <==> Free(Tokens(source, rules), m, k)
  {
    hide Size, Tokens, SkipsOf, T.Unblocked, Lexed;
    var toks := Tokens(source, rules);
    if !Free(toks, m, k) {
      var j :| m <= j < k && toks[j].kind.IsStructural();
      StructureBlocks(source, rules, m, k, j);
    } else if !T.Unblocked(source, rules, Size(toks[..m]), Size(toks[..k])) {
      var _ := BlockerToken(source, rules, m, k);
    }
  }

  lemma BlockerToken(source: string, rules: Rules, m: nat, k: nat) returns (j: nat)
    requires m < k <= |Tokens(source, rules)|
    requires !T.Unblocked(source, rules, Size(Tokens(source, rules)[..m]), Size(Tokens(source, rules)[..k]))
    ensures m <= j < k && Tokens(source, rules)[j].kind.IsStructural()
  {
    hide Size, Tokens, SkipsOf, Lexed;
    var toks := Tokens(source, rules);
    var q :| 0 <= q < |SkipsOf(toks)| && T.Blocks(SkipsOf(toks)[q], Size(toks[..m]), Size(toks[..k]));
    j := SkipOwner(toks, q);
    if j < m {
      OffsetsGrow(toks, j + 1, m);
    } else if k <= j {
      OffsetsGrow(toks, k, j);
    }
  }

  lemma ShiftFree(toks: seq<Token>, i: nat, tag: Token, m: nat, k: nat)
    requires i <= |toks| && tag.kind.InlineTag? && m < k <= |toks|
    ensures Free(toks, m, k) <==> Free(Inserted(toks, i, tag), Shift(i, m), Shift(i, k - 1) + 1)
  {
    var all := Inserted(toks, i, tag);
    forall j | 0 <= j < |toks|
      ensures all[Shift(i, j)] == toks[j]
    {
    }
    if Free(toks, m, k) {
      forall j | Shift(i, m) <= j < Shift(i, k - 1) + 1
        ensures !all[j].kind.IsStructural()
      {
        if j < i {
          assert all[j] == toks[j];
        } else if j > i {
          assert all[j] == toks[j - 1];
        }
      }
    } else {
      var j :| m <= j < k && toks[j].kind.IsStructural();
      assert all[Shift(i, j)].kind.IsStructural();
    }
  }

  /** Two sources whose tokens differ by one inline tag judge every hit alike. */
  lemma SameGuard(source: string, result: string, rules: Rules, i: nat, tag: Token, at: nat, n: nat)
    requires i <= |Tokens(source, rules)| && tag.kind.InlineTag?
    requires Tokens(result, rules) == Inserted(Tokens(source, rules), i, tag)
    requires 0 < n && at + n <= |Pairs(source, rules)| == |Pairs(result, rules)|
    requires Pairs(source, rules)[at].byte != ' ' && Pairs(source, rules)[at + n - 1].byte != ' '
    requires Pairs(result, rules)[at].byte != ' ' && Pairs(result, rules)[at + n - 1].byte != ' '
    ensures T.Unblocked(source, rules, Pairs(source, rules)[at].start, Pairs(source, rules)[at + n - 1].end)
            <==> T.Unblocked(result, rules, Pairs(result, rules)[at].start, Pairs(result, rules)[at + n - 1].end)
  {
    hide Run, Size, Tokens, T.Unblocked, Inserted, Lexed, Aligned, Flushed;
    var toks, all := Tokens(source, rules), Tokens(result, rules);
    TokensLexed(source, rules);
    TokensLexed(result, rules);
    var m, k := HitOwners(toks, at, n);
    var m', k' := HitOwners(all, at, n);
    OwnerShifts(toks, i, tag, m, m', at);
    OwnerShifts(toks, i, tag, k - 1, k' - 1, at + n - 1);
    UnblockedIffFree(source, rules, m, k);
    UnblockedIffFree(result, rules, m', k');
    ShiftFree(toks, i, tag, m, k);
  }

  lemma HitOwners(toks: seq<Token>, at: nat, n: nat) returns (m: nat, k: nat)
    requires Lexed(toks) && 0 < n && at + n <= |Run(toks).pairs|
    requires Run(toks).pairs[at].byte != ' ' && Run(toks).pairs[at + n - 1].byte != ' '
    ensures m < k <= |toks|
    ensures Run(toks).pairs[at].start == Size(toks[..m])
    ensures Run(toks).pairs[at + n - 1].end == Size(toks[..k])
    ensures |Run(toks[..m]).pairs| <= at < |Run(toks[..m + 1]).pairs|
    ensures |Run(toks[..k - 1]).pairs| <= at + n - 1 < |Run(toks[..k]).pairs|
  {
    hide Run, Size;
    m := TextOwner(toks, at);
    var last := TextOwner(toks, at + n - 1);
    k := last + 1;
    OwnersInOrder(toks, m, at, last, at + n - 1);
  }

  lemma ClosedVisible(a: string, tag: string, b: string, rules: Rules)
    requires InlineMarkup(tag) && Boundary(a + b, |a|, rules) && Closed(a, rules)
    ensures Visible(a + tag + b, rules) == Visible(a + b, rules)
  {
    hide Tokens, TextRun, Visible, Boundary, TagName, Strpos, Closed;
    var inline := Token(InlineTag(TagName(tag)), tag);
    InsertedTokens(a, tag, b, rules);
    InlineStep(Tokens(a, rules), inline, Tokens(b, rules));
    assert Tokens(a, rules) + ([inline] + Tokens(b, rules)) == Tokens(a, rules) + [inline] + Tokens(b, rules);
    VisibleIsTextRun(a + b, rules);
    VisibleIsTextRun(a + tag + b, rules);
  }

  lemma ClosedGuard(a: string, tag: string, b: string, rules: Rules, find: string, at: int)
    requires InlineMarkup(tag) && Boundary(a + b, |a|, rules) && Closed(a, rules)
    ensures T.Admissible(a + b, find, rules, at) <==> T.Admissible(a + tag + b, find, rules, at)
  {
    hide Tokens, Visible, Boundary, Closed, TagName, Strpos, T.Needle, T.Unblocked, Pairs;
    ClosedVisible(a, tag, b, rules);
    InsertedTokens(a, tag, b, rules);
    var source, result, needle := a + b, a + tag + b, T.Needle(find, rules);
    if needle != "" && T.Sole(Visible(source, rules), needle, at) {
      var vis := Visible(source, rules);
      var w := vis[at..at + |needle|];
      assert w[0] == vis[at] && w[|needle| - 1] == vis[at + |needle| - 1];
      var i, inline := |Tokens(a, rules)|, Token(InlineTag(TagName(tag)), tag);
      assert Inserted(Tokens(source, rules), i, inline) == Tokens(result, rules);
      SameGuard(source, result, rules, i, inline, at, |needle|);
    }
  }

  /* ----- at the end of an open source ----- */

  predicate Clear(skips: seq<Skip>, start: int, end: int) {
    forall j :: 0 <= j < |skips| ==> !T.Blocks(skips[j], start, end)
  }

  lemma UnblockedIsClear(source: string, rules: Rules, start: int, end: int)
    ensures T.Unblocked(source, rules, start, end) <==> Clear(SkipsOf(Tokens(source, rules)), start, end)
  {
    hide SkipsOf, Tokens;
    var skips := SkipsOf(Tokens(source, rules));
    assert Skips(source, rules) == skips;
    assert T.Unblocked(source, rules, start, end)
           <==> forall j :: 0 <= j < |skips| ==> !T.Blocks(skips[j], start, end);
  }

  /** A last token that is skipped touches no hit, whatever its bytes are. */
  lemma LastSkip(front: seq<Token>, last: Token, start: int, end: int)
    requires last.kind.IsSkip() && 0 <= start < end <= Size(front)
    ensures Clear(SkipsOf(front + [last]), start, end) <==> Clear(SkipsOf(front), start, end)
  {
    hide Run, SkipsOf, Size;
    RunSnoc(front, last);
    var all, skips := SkipsOf(front + [last]), SkipsOf(front);
    assert all == skips + [Skip(Size(front), Size(front) + |last.raw|, last.kind)];
    assert forall j :: 0 <= j < |skips| ==> all[j] == skips[j];
    assert !T.Blocks(all[|skips|], start, end);
  }

  lemma SwallowedText(front: seq<Token>, open: Token, swallowed: Token)
    requires open.kind.IsSkip() && swallowed.kind.IsSkip()
    requires swallowed.kind.IsStructural() <==> open.kind.IsStructural()
    ensures TextRun(front + [open], START) == TextRun(front + [swallowed], START)
  {
    hide TextRun;
    TextRunConcat(front, [open], START);
    TextRunConcat(front, [swallowed], START);
    TextRunOne(open, TextRun(front, START));
    TextRunOne(swallowed, TextRun(front, START));
  }

  lemma OpenVisible(a: string, tag: string, rules: Rules)
    requires InlineMarkup(tag) && !Closed(a, rules) && (OpenShortcode(a, rules) ==> ']' !in tag)
    ensures Visible(a + tag, rules) == Visible(a, rules)
  {
    hide Tokens, TextRun, Visible, TagName, Strpos, Closed, OpenShortcode;
    var front, open, swallowed := OpenThenTag(a, tag, rules);
    SwallowedText(front, open, swallowed);
    VisibleIsTextRun(a, rules);
    VisibleIsTextRun(a + tag, rules);
  }

  lemma OpenGuard(a: string, tag: string, rules: Rules, find: string, at: int)
    requires InlineMarkup(tag) && !Closed(a, rules) && (OpenShortcode(a, rules) ==> ']' !in tag)
    ensures T.Admissible(a, find, rules, at) <==> T.Admissible(a + tag, find, rules, at)
  {
    hide Tokens, Visible, TagName, Strpos, Closed, OpenShortcode, T.Needle, Run, Size, T.Unblocked, Lexed;
    OpenVisible(a, tag, rules);
    var needle := T.Needle(find, rules);
    if needle != "" && T.Sole(Visible(a, rules), needle, at) {
      var front, open, swallowed := OpenThenTag(a, tag, rules);
      TokensLexed(a, rules);
      LexedFront(front, open);
      RunSane(front);
      RunSnoc(front, open);
      var ps, last := Run(front).pairs, at + |needle| - 1;
      LastPairs(front, open);
      LastPairs(front, swallowed);
      assert last > at ==> InOrder(ps[at], ps[last]);
      SwallowedGuard(a, a + tag, rules, front, open, swallowed, ps[at].start, ps[last].end);
    }
  }

  lemma SwallowedGuard(a: string, b: string, rules: Rules, front: seq<Token>, open: Token, swallowed: Token,
                       start: int, end: int)
    requires Tokens(a, rules) == front + [open] && Tokens(b, rules) == front + [swallowed]
    requires open.kind.IsSkip() && swallowed.kind.IsSkip() && 0 <= start < end <= Size(front)
    ensures T.Unblocked(a, rules, start, end) <==> T.Unblocked(b, rules, start, end)
  {
    hide Tokens, SkipsOf, Size, Clear, T.Unblocked;
    UnblockedIsClear(a, rules, start, end);
    UnblockedIsClear(b, rules, start, end);
    LastSkip(front, open, start, end);
    LastSkip(front, swallowed, start, end);
  }

  lemma LastPairs(front: seq<Token>, last: Token)
    requires last.kind.IsSkip()
    ensures Run(front + [last]).pairs == Run(front).pairs
  {
    hide Run;
    RunSnoc(front, last);
  }

  lemma LexedFront(front: seq<Token>, last: Token)
    requires Lexed(front + [last])
    ensures Lexed(front)
  {
    assert forall k :: 0 <= k < |front| ==> (front + [last])[k] == front[k];
  }

  /* ----- the theorem ----- */

  lemma InlineVisible(a: string, tag: string, b: string, rules: Rules)
    requires InlineMarkup(tag) && Between(a, tag, b, rules)
    ensures Visible(a + tag + b, rules) == Visible(a + b, rules)
  {
    hide Visible, InlineMarkup, Boundary, Closed, OpenShortcode;
    if Closed(a, rules) {
      ClosedVisible(a, tag, b, rules);
    } else {
      EndOnly(a, b, rules);
      OpenVisible(a, tag, rules);
      assert a + tag + b == a + tag && a + b == a;
    }
  }

  lemma EndOnly(a: string, b: string, rules: Rules)
    requires Boundary(a + b, |a|, rules) && !Closed(a, rules)
    ensures b == ""
  {
    hide Boundary, Closed;
    if b != "" {
      BoundaryIsClosed(a, b, rules);
    }
  }

  lemma InlineGuard(a: string, tag: string, b: string, rules: Rules, find: string, at: int)
    requires InlineMarkup(tag) && Between(a, tag, b, rules)
    ensures T.Admissible(a + b, find, rules, at) <==> T.Admissible(a + tag + b, find, rules, at)
  {
    hide T.Admissible, InlineMarkup, Boundary, Closed, OpenShortcode;
    if Closed(a, rules) {
      ClosedGuard(a, tag, b, rules, find, at);
    } else {
      EndOnly(a, b, rules);
      OpenGuard(a, tag, rules, find, at);
      assert a + tag + b == a + tag && a + b == a;
    }
  }

  /**
   * Inserting an inline tag between two tokens, or at the end of any source unless it closes a
   * shortcode there, leaves the visible text as it was, so the same passages are found, at the
   * same place, and the same replacements are accepted or refused.
   */
  lemma InlineMarkupInvariance(a: string, tag: string, b: string, rules: Rules, find: string, replacement: string)
    requires InlineMarkup(tag) && Between(a, tag, b, rules)
    ensures Visible(a + tag + b, rules) == Visible(a + b, rules)
    ensures T.Contains(a + tag + b, find, rules) <==> T.Contains(a + b, find, rules)
    ensures T.Edit(a + tag + b, find, replacement, rules).Replaced?
            <==> T.Edit(a + b, find, replacement, rules).Replaced?
  {
    hide Visible, InlineMarkup, Between, T.Needle, T.Admissible, T.Edit, Strpos;
    InlineVisible(a, tag, b, rules);
    forall at: int
      ensures T.Admissible(a + b, find, rules, at) <==> T.Admissible(a + tag + b, find, rules, at)
    {
      InlineGuard(a, tag, b, rules, find, at);
    }
    T.ExactDecision(a + b, find, replacement, rules);
    T.ExactDecision(a + tag + b, find, replacement, rules);
  }

  /* ----- a tag that closes a shortcode ----- */

  /** What follows the bracket that closes the shortcode. */
  function AfterBracket(tag: string): string
    requires ']' in tag
  {
    var k := Strpos(tag, "]", 0);
    if k == -1 then "" else tag[k + 1..]
  }

  lemma BracketAt(tag: string)
    requires ']' in tag
    ensures 0 <= Strpos(tag, "]", 0) < |tag|
  {
    if Strpos(tag, "]", 0) == -1 {
      StrposNone(tag, ']');
    } else {
      StrposByte(tag, ']');
    }
  }

  lemma {:induction false} TextGrows(toks: seq<Token>, t: Text)
    requires Lexed(toks)
    ensures |TextRun(toks, t).bytes| >= |t.bytes|
    ensures !E.NoText(toks) ==> |TextRun(toks, t).bytes| > |t.bytes|
  {
    if toks == [] {
    } else {
      var front, last := toks[..|toks| - 1], toks[|toks| - 1];
      assert toks == front + [last];
      LexedFront(front, last);
      TextGrows(front, t);
      assert last.kind.Entity? ==> last.kind.bytes != "";
      assert E.NoText(front) && !last.kind.IsText() ==> E.NoText(toks);
    }
  }

  /** Token by token: the shortcode ends at the bracket, and what is left of the tag is read on its own. */
  lemma ClosedShortcode(a: string, tag: string, rules: Rules) returns (front: seq<Token>, short: Token)
    requires InlineMarkup(tag) && OpenShortcode(a, rules) && ']' in tag
    ensures short.kind.Shortcode?
    ensures TextRun(Tokens(a, rules), START) == TextStep(TextRun(front, START), Shortcode)
    ensures Tokens(a + tag, rules) == front + [short] + Tokens(AfterBracket(tag), rules)
  {
    hide Lex, Tokens, Strpos, TagName, OpenRegion, TextRun, Closed;
    BracketAt(tag);
    var i;
    i, front := OpenAt(a, tag, rules);
    var rest := a[i..];
    short := Lex(rest + tag, rules);
    assert Tokens(a, rules)[|front|] == Lex(rest, rules);
    TextRunConcat(front, [Lex(rest, rules)], START);
    TextRunOne(Lex(rest, rules), TextRun(front, START));
    ShortcodeEnds(rest, tag, rules);
    TokensCons(rest + tag, rules);
    assert front + ([short] + Tokens(AfterBracket(tag), rules)) == front + [short] + Tokens(AfterBracket(tag), rules);
  }

  lemma ShortcodeEnds(rest: string, tag: string, rules: Rules)
    requires rest != "" && OpenRegion(rest, rules) && Lex(rest, rules).kind.Shortcode? && ']' in tag
    ensures var t := Lex(rest + tag, rules);
            t.kind.Shortcode? && (rest + tag)[|t.raw|..] == AfterBracket(tag)
  {
    hide TagName, CommentKind, LexText, Strpos;
    assert (rest + tag)[0] == rest[0];
    BracketAt(tag);
    var k := Strpos(tag, "]", 0);
    StrposNone(rest, ']');
    FirstOnly(tag, k);
    var all := rest + tag;
    assert all[|rest| + k] == tag[k];
    assert forall j :: 0 <= j < |rest| + k ==> all[j] == if j < |rest| then rest[j] else tag[j - |rest|];
    StrposFirst(all, ']', |rest| + k);
  }

  lemma FirstOnly(tag: string, k: int)
    requires k == Strpos(tag, "]", 0) && 0 <= k < |tag|
    ensures tag[k] == ']' && forall j :: 0 <= j < k ==> tag[j] != ']'
  {
    hide Strpos;
    StrposByte(tag, ']');
    forall j | 0 <= j < k
      ensures tag[j] != ']'
    {
      assert tag[j..j + 1] == [tag[j]];
      assert tag[j] == ']' ==> OccursAt(tag, "]", j);
    }
  }

  /**
   * A tag that closes the shortcode a source leaves open changes the visible text, unless what is
   * left of it shows nothing.
   */
  lemma ClosingTagIsExact(a: string, tag: string, rules: Rules)
    requires InlineMarkup(tag) && OpenShortcode(a, rules) && ']' in tag
    ensures var rest := Tokens(AfterBracket(tag), rules);
            Visible(a + tag, rules) == Visible(a, rules)
            <==> E.NoText(rest) && (E.NoSpaceEntity(rest) || Visible(a, rules) == "")
  {
    hide Tokens, TextRun, Visible, InlineMarkup, OpenShortcode, AfterBracket, Lexed, E.NoText, E.NoSpaceEntity;
    var rest := Tokens(AfterBracket(tag), rules);
    var front, short := ClosedShortcode(a, tag, rules);
    VisibleIsTextRun(a, rules);
    VisibleIsTextRun(a + tag, rules);
    TextRunConcat(front + [short], rest, START);
    TextRunConcat(front, [short], START);
    TextRunOne(short, TextRun(front, START));
    TokensLexed(AfterBracket(tag), rules);
    var t := TextRun(front + [short], START);
    if E.NoText(rest) {
      E.TextlessRun(rest, t);
    } else {
      TextGrows(rest, t);
    }
  }

  /** The tag `<b ]>` after `x[y`: the page shows a `>` that was not there. */
  lemma BracketInTag()
    ensures var rules := Rules(true, s => s);
            && InlineMarkup("<b ]>") && OpenShortcode("x[y", rules)
            && Visible("x[y" + "<b ]>", rules) != Visible("x[y", rules)
  {
    var rules := Rules(true, s => s);
    hide Visible, InlineMarkup, OpenShortcode, Tokens;
    BracketTag();
    BracketSource(rules);
    BracketRest(rules);
    ClosingTagIsExact("x[y", "<b ]>", rules);
  }

  lemma BracketTag()
    ensures InlineMarkup("<b ]>") && ']' in "<b ]>" && AfterBracket("<b ]>") == ">"
  {
    var tag := "<b ]>";
    StrposFirst(tag, '>', 4);
    StrposFirst(tag, ']', 3);
    CommentOpener(tag);
    assert tag[3] == ']' && tag[4..] == ">";
    assert tag[1..] == "b ]>" && SkipRegexSpace("b ]>") == "b ]>" && "b ]>"[1..] == " ]>";
    assert NameRun(" ]>") == "" && NameRun("b ]>") == ['b'] + "";
    assert NameRun("b ]>") == "b" && Lower("b"[1..]) == "" && Lower("b") == "b";
    assert TagName(tag) == "b";
    assert INLINE_TAGS[2] == "b";
  }

  lemma BracketSource(rules: Rules)
    requires rules.shortcodes
    ensures OpenShortcode("x[y", rules)
  {
    hide Strpos;
    var s, open := "x[y", "[y";
    NoBracket();
    assert EntityLen(s) == 0 && s[..1] == "x" && s[1..] == open;
    assert Lex(s, rules) == Token(Raw('x'), "x");
    assert Lex(open, rules) == Token(Shortcode, open[..2]) && open[2..] == "";
    TokensCons(s, rules);
    TokensCons(open, rules);
    NoTokens(rules);
    assert OpenRegion(open, rules) && !Closed(open, rules) && !Closed(s, rules);
  }

  lemma NoBracket()
    ensures Strpos("[y", "]", 0) == -1
  {
    var s := "[y";
    if Strpos(s, "]", 0) != -1 {
      StrposByte(s, ']');
    }
  }

  lemma BracketRest(rules: Rules)
    ensures !E.NoText(Tokens(">", rules))
  {
    assert ">"[..1] == ">" && EntityLen(">") == 0;
    assert Lex(">", rules) == Token(Raw('>'), ">");
    TokensCons(">", rules);
    assert Tokens(">", rules)[0].kind.IsText();
  }
}
