/** What a successful replacement does to the visible text and to the structure of the page. */
module SpliceLaws {
  import opened Php
  import opened Markup
  import opened Locality
  import opened Projection
  import opened ScannerLaws
  import opened Rendering
  import opened Seams
  import opened SeamText
  import opened Outline
  import E = Edges
  import T = Text

  /* ----- composing visible text ----- */

  /** The visible text before a solid stretch that follows `a`. */
  function Lead(a: string, rules: Rules): string {
    Spaced(TextRun(Tokens(a, rules), START))
  }

  /** The visible text after it. */
  function Trail(b: string, rules: Rules): string {
    Tail(Tokens(b, rules), false).bytes
  }

  /** Both cuts of `a + m + b` are token boundaries. */
  predicate Parts(a: string, m: string, b: string, rules: Rules) {
    Boundary(a + (m + b), |a|, rules) && Boundary(m + b, |m|, rules)
  }

  lemma PartsTokens(a: string, m: string, b: string, rules: Rules)
    requires Parts(a, m, b, rules)
    ensures Tokens(a + m + b, rules) == Tokens(a, rules) + Tokens(m, rules) + Tokens(b, rules)
  {
    hide Tokens, Boundary;
    assert a + (m + b) == a + m + b;
    TokensSplit(a, m + b, rules);
    TokensSplit(m, b, rules);
    assert Tokens(a, rules) + (Tokens(m, rules) + Tokens(b, rules))
        == Tokens(a, rules) + Tokens(m, rules) + Tokens(b, rules);
  }

  lemma PartsVisible(a: string, m: string, b: string, rules: Rules)
    requires Parts(a, m, b, rules) && Solid(Tokens(m, rules))
    ensures Visible(a + m + b, rules) == Lead(a, rules) + Visible(m, rules) + Trail(b, rules)
    ensures Visible(m, rules) != ""
  {
    hide Tokens, Parts, TextRun, Tail, Visible, Solid, Spaced;
    var ta, tm, tb := Tokens(a, rules), Tokens(m, rules), Tokens(b, rules);
    PartsTokens(a, m, b, rules);
    VisibleIsTextRun(a + m + b, rules);
    VisibleIsTextRun(m, rules);
    TextRunConcat(ta + tm, tb, START);
    TextRunConcat(ta, tm, START);
    SolidRun(tm, TextRun(ta, START));
    StartedRun(tb, false, Lead(a, rules) + Visible(m, rules));
  }

  /* ----- what a hit covers ----- */

  /** The hit does not start or stop inside the bytes of one entity. */
  predicate Aligned(ps: seq<Pair>, at: nat, n: nat)
    requires 0 < n && at + n <= |ps|
  {
    && (at > 0 ==> ps[at - 1].start != ps[at].start)
    && (at + n < |ps| ==> ps[at + n].start != ps[at + n - 1].start)
  }

  /** Tokens `m` .. `k - 1` are what a hit covers; alignment says they emit nothing but the hit. */
  lemma HitTokens(toks: seq<Token>, at: nat, n: nat) returns (m: nat, k: nat)
    requires Lexed(toks) && 0 < n && at + n <= |Run(toks).pairs|
    requires Run(toks).pairs[at].byte != ' ' && Run(toks).pairs[at + n - 1].byte != ' '
    ensures m < k <= |toks|
    ensures toks[m].kind.IsText() && toks[k - 1].kind.IsText()
    ensures Run(toks).pairs[at].start == Size(toks[..m])
    ensures Run(toks).pairs[at + n - 1].end == Size(toks[..k])
    ensures |Flushed(Run(toks[..m]), Size(toks[..m]))| <= at && at + n <= |Run(toks[..k]).pairs|
    ensures Aligned(Run(toks).pairs, at, n)
            <==> |Flushed(Run(toks[..m]), Size(toks[..m]))| == at && |Run(toks[..k]).pairs| == at + n
  {
    hide Run, Size, Flushed;
    m := TextOwner(toks, at);
    var last := TextOwner(toks, at + n - 1);
    k := last + 1;
    if at > |Flushed(Run(toks[..m]), Size(toks[..m]))| {
      TextOwnerSpan(toks, m, at - 1);
    } else if at > 0 {
      EarlierPair(toks, m, at - 1);
    }
    if at + n < |Run(toks[..k]).pairs| {
      TextOwnerSpan(toks, last, at + n);
    } else if at + n < |Run(toks).pairs| {
      OffsetAfter(toks, last);
      LaterPair(toks, k, at + n);
    }
    OwnersInOrder(toks, m, at, last, at + n - 1);
  }

  lemma EarlierPair(toks: seq<Token>, m: nat, k: nat)
    requires Lexed(toks) && m < |toks| && toks[m].kind.IsText()
    requires k < |Flushed(Run(toks[..m]), Size(toks[..m]))|
    ensures k < |Run(toks).pairs| && Run(toks).pairs[k].start < Size(toks[..m])
  {
    hide Run, Size, Flushed;
    RunSane(toks[..m]);
    FlushSane(Run(toks[..m]), Size(toks[..m]));
    OffsetAfter(toks, m);
    RunExtends(toks, m + 1);
  }

  /** Every pair from index `base` on, and the pending run if any, starts at `floor` or later. */
  predicate StartsFrom(c: Cursor, base: nat, floor: int) {
    && (c.pending < 0 || c.pending >= floor)
    && forall q :: base <= q < |c.pairs| ==> c.pairs[q].start >= floor
  }

  lemma StepStartsFrom(c: Cursor, t: Token, at: nat, base: nat, floor: int)
    requires StartsFrom(c, base, floor) && floor <= at
    ensures StartsFrom(Step(c, t, at), base, floor)
  {
    assert StartsFrom(Cursor(-1, Flushed(c, at)), base, floor);
  }

  lemma {:induction false} LaterPairs(toks: seq<Token>, k: nat)
    requires 0 < k <= |toks| && toks[k - 1].kind.IsText()
    ensures StartsFrom(Run(toks), |Run(toks[..k]).pairs|, Size(toks[..k]))
  {
    if k == |toks| {
      assert toks[..k] == toks;
    } else {
      hide Run, Size, StartsFrom;
      var front, t := toks[..|toks| - 1], toks[|toks| - 1];
      assert front[..k] == toks[..k];
      LaterPairs(front, k);
      OffsetsGrow(front, k, |front|);
      RunSnoc(front, t);
      assert toks == front + [t];
      StepStartsFrom(Run(front), t, Size(front), |Run(toks[..k]).pairs|, Size(toks[..k]));
    }
  }

  lemma LaterPair(toks: seq<Token>, k: nat, q: nat)
    requires 0 < k <= |toks| && toks[k - 1].kind.IsText() && toks[k - 1].raw != ""
    requires |Run(toks[..k]).pairs| <= q < |Run(toks).pairs|
    ensures Run(toks).pairs[q].start > Size(toks[..k - 1])
  {
    hide Run, Size;
    LaterPairs(toks, k);
    OffsetAfter(toks, k - 1);
  }

  lemma OwnersInOrder(toks: seq<Token>, m: nat, k: nat, n: nat, l: nat)
    requires m < |toks| && n < |toks| && k <= l
    requires |Flushed(Run(toks[..m]), Size(toks[..m]))| <= k
    requires l < |Run(toks[..n + 1]).pairs|
    ensures m <= n
  {
    if n < m {
      assert toks[..m][..n + 1] == toks[..n + 1];
      RunExtends(toks[..m], n + 1);
      hide Run, Size;
    }
  }

  /** Cutting the source before token `m` and before token `k`. */
  lemma HitCut(source: string, rules: Rules, m: nat, k: nat)
    requires m < k <= |Tokens(source, rules)|
    requires var toks := Tokens(source, rules); toks[m].kind.IsText() && toks[k - 1].kind.IsText()
    ensures var toks := Tokens(source, rules);
            var start, end := Size(toks[..m]), Size(toks[..k]);
            && start <= end <= |source|
            && Tokens(source[..start], rules) == toks[..m]
            && Tokens(source[start..end], rules) == toks[m..k]
            && Tokens(source[end..], rules) == toks[k..]
            && Parts(source[..start], source[start..end], source[end..], rules)
            && Solid(toks[m..k])
  {
    hide Size, Tokens, Boundary, Solid, Lexed;
    var toks := Tokens(source, rules);
    var start, end := Size(toks[..m]), Size(toks[..k]);
    OffsetsGrow(toks, m, k);
    CutAtToken(source, m, rules);
    CutAtToken(source, k, rules);
    var head, rest := source[..end], source[start..];
    CutAtToken(head, m, rules);
    assert toks[..k][..m] == toks[..m];
    assert head[..start] == source[..start] && head[start..] == source[start..end];
    assert toks[..k][m..] == toks[m..k];
    assert toks[..m] + toks[m..k] == toks[..k];
    SizeOfConcat(toks[..m], toks[m..k]);
    CutAtToken(rest, k - m, rules);
    assert toks[m..][..k - m] == toks[m..k];
    assert rest == source[start..end] + source[end..];
    assert source[..start] + (source[start..end] + source[end..]) == source;
    TextIsSolid(source, rules, m, k);
  }

  lemma TextIsSolid(source: string, rules: Rules, m: nat, k: nat)
    requires m < k <= |Tokens(source, rules)|
    requires Tokens(source, rules)[m].kind.IsText() && Tokens(source, rules)[k - 1].kind.IsText()
    ensures Solid(Tokens(source, rules)[m..k])
  {
    hide Tokens;
    TokensLexed(source, rules);
    assert Tokens(source, rules)[m..k][0] == Tokens(source, rules)[m];
  }

  lemma LeadLength(a: string, rules: Rules, toks: seq<Token>)
    requires Tokens(a, rules) == toks
    ensures |Lead(a, rules)| == |Flushed(Run(toks), Size(toks))|
  {
    hide Run, Size, Tokens, TextRun;
    AbsRun(toks);
  }

  lemma SolidLength(toks: seq<Token>, m: nat, k: nat)
    requires m < k <= |toks| && Solid(toks[m..k])
    ensures |Run(toks[..k]).pairs|
            == |Flushed(Run(toks[..m]), Size(toks[..m]))| + |TextRun(toks[m..k], START).bytes|
  {
    hide Run, Size, TextRun, Solid;
    AbsRun(toks[..m]);
    AbsRun(toks[..k]);
    assert toks[..k] == toks[..m] + toks[m..k];
    TextRunConcat(toks[..m], toks[m..k], START);
    SolidRun(toks[m..k], TextRun(toks[..m], START));
  }

  /* ----- structure ----- */

  lemma PartsStructure(a: string, m: string, b: string, rules: Rules)
    requires Parts(a, m, b, rules)
    ensures Structure(Tokens(a + m + b, rules))
            == Structure(Tokens(a, rules)) + Structure(Tokens(m, rules)) + Structure(Tokens(b, rules))
  {
    hide Tokens, Parts, Structure;
    PartsTokens(a, m, b, rules);
    StructureOfConcat(Tokens(a, rules) + Tokens(m, rules), Tokens(b, rules));
    StructureOfConcat(Tokens(a, rules), Tokens(m, rules));
  }

  lemma StructureBlocks(source: string, rules: Rules, m: nat, k: nat, i: nat)
    requires m <= i < k <= |Tokens(source, rules)|
    requires Tokens(source, rules)[i].kind.IsStructural()
    ensures !T.Unblocked(source, rules, Size(Tokens(source, rules)[..m]), Size(Tokens(source, rules)[..k]))
  {
    hide Size, Tokens, SkipsOf;
    var toks := Tokens(source, rules);
    TokensLexed(source, rules);
    SkipRecorded(toks, i);
    OffsetAfter(toks, i);
    OffsetsGrow(toks, m, i);
    OffsetsGrow(toks, i + 1, k);
    var q :| 0 <= q < |SkipsOf(toks)|
             && SkipsOf(toks)[q] == Skip(Size(toks[..i]), Size(toks[..i + 1]), toks[i].kind);
    assert T.Blocks(Skips(source, rules)[q], Size(toks[..m]), Size(toks[..k]));
  }

  /** The guard on skipped regions means that the removed slice holds no structure at all. */
  lemma UnblockedHasNoStructure(source: string, rules: Rules, m: nat, k: nat)
    requires m < k <= |Tokens(source, rules)|
    requires T.Unblocked(source, rules, Size(Tokens(source, rules)[..m]), Size(Tokens(source, rules)[..k]))
    ensures Structure(Tokens(source, rules)[m..k]) == []
  {
    hide Size, Tokens, Structure, T.Unblocked;
    var toks := Tokens(source, rules);
    forall j | 0 <= j < k - m
      ensures !toks[m..k][j].kind.IsStructural()
    {
      if toks[m + j].kind.IsStructural() {
        StructureBlocks(source, rules, m, k, m + j);
      }
    }
    NoStructure(toks[m..k]);
  }

  /**
   * A hit cuts the source into three parts at token boundaries.  The middle part holds no
   * structure if the hit is unblocked, and on its own projects to the matched bytes exactly
   * when the hit is aligned.
   */
  lemma HitParts(source: string, rules: Rules, at: nat, n: nat)
    requires 0 < n && at + n <= |Pairs(source, rules)|
    requires Pairs(source, rules)[at].byte != ' ' && Pairs(source, rules)[at + n - 1].byte != ' '
    ensures var start, end := Pairs(source, rules)[at].start, Pairs(source, rules)[at + n - 1].end;
            && 0 <= start < end <= |source|
            && Parts(source[..start], source[start..end], source[end..], rules)
            && Solid(Tokens(source[start..end], rules))
            && (T.Unblocked(source, rules, start, end) ==> Structure(Tokens(source[start..end], rules)) == [])
            && |Lead(source[..start], rules)| <= at
            && at + n <= |Lead(source[..start], rules)| + |Visible(source[start..end], rules)|
            && (Aligned(Pairs(source, rules), at, n)
                <==> |Lead(source[..start], rules)| == at && |Visible(source[start..end], rules)| == n)
  {
    hide Run, Size, Tokens, Flushed, Lead, Parts, Solid, Visible, Aligned, T.Unblocked, Structure, Lexed;
    var toks := Tokens(source, rules);
    TokensLexed(source, rules);
    var m, k := HitTokens(toks, at, n);
    HitCut(source, rules, m, k);
    T.HitInBounds(source, rules, at, n);
    var start, end := Size(toks[..m]), Size(toks[..k]);
    LeadLength(source[..start], rules, toks[..m]);
    SolidLength(toks, m, k);
    VisibleIsTextRun(source[start..end], rules);
    if T.Unblocked(source, rules, start, end) {
      UnblockedHasNoStructure(source, rules, m, k);
    }
  }

  /* ----- the splice theorem ----- */

  /** The source cut at the mapped span of a hit. */
  datatype Cut = Cut(before: string, hit: string, after: string)

  function CutSpan(source: string, start: int, end: int): (c: Cut)
    requires 0 <= start < end <= |source|
    ensures source == c.before + c.hit + c.after && c.hit != ""
    ensures |c.before| == start && |c.before + c.hit| == end
  {
    Cut(source[..start], source[start..end], source[end..])
  }

  /** The cut around the one admissible occurrence of the passage. */
  ghost function Hit(source: string, find: string, rules: Rules, at: nat): Cut
    requires T.Admissible(source, find, rules, at)
  {
    hide Pairs, T.Needle, Visible;
    AdmissibleBytes(source, find, rules, at);
    T.HitInBounds(source, rules, at, |T.Needle(find, rules)|);
    CutSpan(source, Pairs(source, rules)[at].start, Pairs(source, rules)[at + |T.Needle(find, rules)| - 1].end)
  }

  /** No space comes or goes at an edge of the replacement. */
  predicate EdgesFit(cut: Cut, replacement: string, rules: Rules) {
    E.Fits(TextRun(Tokens(cut.before, rules), START), Tokens(replacement, rules), Tokens(cut.after, rules))
  }

  lemma EditIsSplice(source: string, find: string, replacement: string, rules: Rules, at: nat)
    requires T.Admissible(source, find, rules, at)
    ensures var cut := Hit(source, find, rules, at);
            && T.Edit(source, find, replacement, rules) == T.Replaced(cut.before + replacement + cut.after)
            && Parts(cut.before, cut.hit, cut.after, rules)
            && Solid(Tokens(cut.hit, rules))
            && Structure(Tokens(cut.hit, rules)) == []
  {
    hide Pairs, Visible, T.Needle, Parts, Structure, Tokens, Solid, Lead, T.Unblocked, T.Edit, Aligned, T.Sole;
    AdmissibleBytes(source, find, rules, at);
    T.ExactDecision(source, find, replacement, rules);
    HitParts(source, rules, at, |T.Needle(find, rules)|);
  }

  lemma BeforeIsClosed(cut: Cut, rules: Rules)
    requires Parts(cut.before, cut.hit, cut.after, rules) && cut.hit != ""
    ensures Closed(cut.before, rules)
  {
    hide Boundary, Closed;
    BoundaryIsClosed(cut.before, cut.hit + cut.after, rules);
  }

  /**
   * Whatever the alignment of the hit and whatever forms at the seams, replacement markup that
   * closes what it opens keeps the ordered structure of the page, with its own in the place of
   * the hit.
   */
  lemma StructureTheorem(source: string, find: string, replacement: string, rules: Rules, at: nat)
    requires T.Admissible(source, find, rules, at) && Closed(replacement, rules)
    ensures var cut := Hit(source, find, rules, at);
            && Structure(Tokens(source, rules))
               == Structure(Tokens(cut.before, rules)) + Structure(Tokens(cut.after, rules))
            && Structure(Tokens(T.Edit(source, find, replacement, rules).Result(), rules))
               == Structure(Tokens(cut.before, rules)) + Structure(Tokens(replacement, rules))
                  + Structure(Tokens(cut.after, rules))
  {
    var cut := Hit(source, find, rules, at);
    hide *;
    EditIsSplice(source, find, replacement, rules, at);
    HitIsCut(source, find, rules, at);
    PartsStructure(cut.before, cut.hit, cut.after, rules);
    BeforeIsClosed(cut, rules);
    ClosedParts(cut.before, replacement, cut.after, rules);
    NothingAdded(Structure(Tokens(cut.before, rules)));
  }

  lemma NothingAdded(toks: seq<Token>)
    ensures toks + [] == toks
  {
  }

  /** The structure of three stretches, the first two of them closed. */
  lemma ClosedParts(a: string, m: string, b: string, rules: Rules)
    requires Closed(a, rules) && Closed(m, rules)
    ensures Structure(Tokens(a + m + b, rules))
            == Structure(Tokens(a, rules)) + Structure(Tokens(m, rules)) + Structure(Tokens(b, rules))
  {
    hide *;
    ClosedKeepsStructure(m, b, rules);
    ClosedKeepsStructure(a, m + b, rules);
    assert a + (m + b) == a + m + b;
    var x, y, z := Structure(Tokens(a, rules)), Structure(Tokens(m, rules)), Structure(Tokens(b, rules));
    assert x + (y + z) == x + y + z;
  }

  lemma HitIsCut(source: string, find: string, rules: Rules, at: nat)
    requires T.Admissible(source, find, rules, at)
    ensures var cut := Hit(source, find, rules, at); source == cut.before + cut.hit + cut.after && cut.hit != ""
    ensures T.Edit(source, find, "", rules).Replaced?
  {
    hide Pairs, Visible, T.Needle, T.Edit, T.Sole, T.Unblocked;
    T.ExactDecision(source, find, "", rules);
  }

  /** What is read where the replacement stands, seam by seam and edge by edge. */
  lemma ResultShows(cut: Cut, replacement: string, rules: Rules)
    requires Closed(cut.before, rules) && Closed(replacement, rules) && E.Plainish(Tokens(replacement, rules))
    ensures var text := Visible(cut.before + replacement + cut.after, rules);
            var swapped := Lead(cut.before, rules) + Visible(replacement, rules) + Trail(cut.after, rules);
            var left := NoSeam(cut.before, replacement + cut.after, rules);
            var right := NoSeam(replacement, cut.after, rules);
            && (left && right ==> (text == swapped <==> EdgesFit(cut, replacement, rules)))
            && (right && EdgesFit(cut, replacement, rules) ==> (text == swapped <==> left))
            && (left && EdgesFit(cut, replacement, rules) ==> (text == swapped <==> right))
  {
    hide Tokens, TextRun, Closed, NoSeam, E.Plainish, E.Fits, Tail, Spaced, Visible;
    var a, r, b := Tokens(cut.before, rules), Tokens(replacement, rules), Tokens(cut.after, rules);
    var t := TextRun(a, START);
    TokensLexed(replacement, rules);
    TokensLexed(cut.after, rules);
    hide Lexed;
    E.FitsIsExact(t, r, b);
    VisibleIsTextRun(replacement, rules);
    VisibleIsTextRun(cut.before + replacement + cut.after, rules);
    assert cut.before + (replacement + cut.after) == cut.before + replacement + cut.after;
    SeamIsExact(replacement, cut.after, rules, t);
    SeamIsExact(cut.before, replacement + cut.after, rules, START);
    TextRunConcat(a, Tokens(replacement + cut.after, rules), START);
    if NoSeam(replacement, cut.after, rules) {
      Joined(replacement, cut.after, rules);
    }
  }

  /**
   * The visible text after a replacement, for every decoder and all replacement markup that
   * closes what it opens.  Exactly the one occurrence is swapped if the hit is aligned, no
   * reference forms at a seam, and no space comes or goes at an edge; and each of these decides,
   * given the others.  Two failures can cancel (`TextLimits.TwoFailuresCancel`), but only through
   * a reference that shows more bytes than it has (`Ink.SwapIsExact`).  The removed slice is the
   * needle if and only if the hit is aligned.
   */
  lemma SpliceTheorem(source: string, find: string, replacement: string, rules: Rules, at: nat)
    requires T.Admissible(source, find, rules, at)
    requires Closed(replacement, rules) && E.Plainish(Tokens(replacement, rules))
    ensures 0 < |T.Needle(find, rules)| <= |Pairs(source, rules)| - at
    ensures Aligned(Pairs(source, rules), at, |T.Needle(find, rules)|)
            <==> Visible(Hit(source, find, rules, at).hit, rules) == T.Needle(find, rules)
    ensures var cut := Hit(source, find, rules, at);
            var swapped := SwappedText(source, find, replacement, rules, at);
            var aligned := Aligned(Pairs(source, rules), at, |T.Needle(find, rules)|);
            var left := NoSeam(cut.before, replacement + cut.after, rules);
            var right := NoSeam(replacement, cut.after, rules);
            var fits := EdgesFit(cut, replacement, rules);
            && (left && right && fits ==> (swapped <==> aligned))
            && (aligned && left && right ==> (swapped <==> fits))
            && (aligned && right && fits ==> (swapped <==> left))
            && (aligned && left && fits ==> (swapped <==> right))
  {
    AdmissibleBytes(source, find, rules, at);
    hide *;
    SpliceCore(source, find, replacement, rules, at);
  }

  /** The result reads like the source with the one occurrence of the needle exchanged. */
  ghost predicate SwappedText(source: string, find: string, replacement: string, rules: Rules, at: nat)
    requires at + |T.Needle(find, rules)| <= |Pairs(source, rules)|
  {
    Visible(T.Edit(source, find, replacement, rules).Result(), rules)
    == Visible(source, rules)[..at] + Visible(replacement, rules)
       + Visible(source, rules)[at + |T.Needle(find, rules)|..]
  }

  lemma SpliceCore(source: string, find: string, replacement: string, rules: Rules, at: nat)
    requires T.Admissible(source, find, rules, at)
    requires Closed(replacement, rules) && E.Plainish(Tokens(replacement, rules))
    requires 0 < |T.Needle(find, rules)| <= |Pairs(source, rules)| - at
    requires OccursAt(Visible(source, rules), T.Needle(find, rules), at)
    ensures Aligned(Pairs(source, rules), at, |T.Needle(find, rules)|)
            <==> Visible(Hit(source, find, rules, at).hit, rules) == T.Needle(find, rules)
    ensures var cut := Hit(source, find, rules, at);
            var swapped := SwappedText(source, find, replacement, rules, at);
            var aligned := Aligned(Pairs(source, rules), at, |T.Needle(find, rules)|);
            var left := NoSeam(cut.before, replacement + cut.after, rules);
            var right := NoSeam(replacement, cut.after, rules);
            var fits := EdgesFit(cut, replacement, rules);
            && (left && right && fits ==> (swapped <==> aligned))
            && (aligned && left && right ==> (swapped <==> fits))
            && (aligned && right && fits ==> (swapped <==> left))
            && (aligned && left && fits ==> (swapped <==> right))
  {
    var cut := Hit(source, find, rules, at);
    hide *;
    HitIsCut(source, find, rules, at);
    EditIsSplice(source, find, replacement, rules, at);
    BeforeIsClosed(cut, rules);
    PartsVisible(cut.before, cut.hit, cut.after, rules);
    ResultShows(cut, replacement, rules);
    HitLengths(source, find, rules, at);
    SwapText(Lead(cut.before, rules), Visible(cut.hit, rules), Trail(cut.after, rules),
             Visible(replacement, rules), T.Needle(find, rules), at);
    SwappedIs(source, find, replacement, rules, at);
  }

  lemma SwappedIs(source: string, find: string, replacement: string, rules: Rules, at: nat)
    requires at + |T.Needle(find, rules)| <= |Pairs(source, rules)|
    ensures SwappedText(source, find, replacement, rules, at)
            <==> Visible(T.Edit(source, find, replacement, rules).Result(), rules)
                 == Visible(source, rules)[..at] + Visible(replacement, rules)
                    + Visible(source, rules)[at + |T.Needle(find, rules)|..]
  {
    hide Visible, T.Edit, T.Needle, Pairs;
  }

  lemma HitLengths(source: string, find: string, rules: Rules, at: nat)
    requires T.Admissible(source, find, rules, at)
    requires 0 < |T.Needle(find, rules)| <= |Pairs(source, rules)| - at
    ensures var cut, n := Hit(source, find, rules, at), |T.Needle(find, rules)|;
            && |Lead(cut.before, rules)| <= at
            && at + n <= |Lead(cut.before, rules)| + |Visible(cut.hit, rules)|
            && (Aligned(Pairs(source, rules), at, n)
                <==> |Lead(cut.before, rules)| == at && |Visible(cut.hit, rules)| == n)
  {
    hide Pairs, Visible, T.Needle, Parts, Structure, Tokens, Solid, Lead, T.Unblocked, Aligned, T.Sole;
    AdmissibleBytes(source, find, rules, at);
    HitParts(source, rules, at, |T.Needle(find, rules)|);
  }

  lemma AdmissibleBytes(source: string, find: string, rules: Rules, at: int)
    requires T.Admissible(source, find, rules, at)
    ensures var ps, needle := Pairs(source, rules), T.Needle(find, rules);
            && needle != "" && 0 <= at && at + |needle| <= |ps|
            && OccursAt(Visible(source, rules), needle, at)
            && ps[at].byte != ' ' && ps[at + |needle| - 1].byte != ' '
  {
    hide Pairs, Visible, T.Needle, T.Unblocked;
    var vis, needle := Visible(source, rules), T.Needle(find, rules);
    var w := vis[at..at + |needle|];
    assert w[0] == vis[at] && w[|needle| - 1] == vis[at + |needle| - 1];
  }

  /** Replacing `mid` inside `lead + mid + trail`, compared with replacing the hit at `at`. */
  lemma SwapText(lead: string, mid: string, trail: string, other: string, needle: string, at: nat)
    requires OccursAt(lead + mid + trail, needle, at)
    requires |lead| <= at && at + |needle| <= |lead| + |mid|
    ensures var vis := lead + mid + trail;
            var swapped := vis[..at] + other + vis[at + |needle|..];
            && ((|lead| == at && |mid| == |needle|) <==> mid == needle)
            && ((|lead| == at && |mid| == |needle|) <==> lead + other + trail == swapped)
  {
    var vis := lead + mid + trail;
    if |lead| == at && |mid| == |needle| {
      assert vis[at..at + |needle|] == mid;
      assert vis[..at] == lead && vis[at + |needle|..] == trail;
    } else {
      assert |mid| > |needle|;
      assert |lead + other + trail| != |vis[..at] + other + vis[at + |needle|..]|;
    }
  }
}
