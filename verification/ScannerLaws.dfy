/** Invariants of the scanner: order of the spans, and which token each visible byte came from. */
module ScannerLaws {
  import opened Markup
  import opened Locality
  import opened Projection

  predicate Lexed(toks: seq<Token>) {
    forall k :: 0 <= k < |toks| ==> toks[k].raw != "" && (toks[k].kind.Entity? ==> toks[k].kind.bytes != "")
  }

  lemma {:induction false} TokensLexed(s: string, rules: Rules)
    ensures Lexed(Tokens(s, rules))
    decreases |s|
  {
    hide Lex;
    if s == "" {
    } else {
      TokensLexed(s[|Lex(s, rules).raw|..], rules);
    }
  }

  /* ----- spans ----- */

  /** Two visible bytes either come from consecutive stretches of source or from one entity. */
  predicate InOrder(p: Pair, q: Pair) {
    p.end <= q.start || (p.start == q.start && p.end == q.end)
  }

  predicate SpansOrdered(ps: seq<Pair>, size: int) {
    && (forall k :: 0 <= k < |ps| ==> 0 <= ps[k].start < ps[k].end <= size)
    && (forall k, l :: 0 <= k < l < |ps| ==> InOrder(ps[k], ps[l]))
  }

  predicate CursorSane(c: Cursor, size: int) {
    && -1 <= c.pending
    && (c.pending >= 0 ==> c.pending < size)
    && (c.pending >= 0 ==> forall k :: 0 <= k < |c.pairs| ==> c.pairs[k].end <= c.pending)
    && SpansOrdered(c.pairs, size)
  }

  lemma AppendOrdered(ps: seq<Pair>, qs: seq<Pair>, start: int, end: int)
    requires SpansOrdered(ps, start) && 0 <= start < end
    requires forall k :: 0 <= k < |qs| ==> qs[k].start == start && qs[k].end == end
    ensures SpansOrdered(ps + qs, end)
  {
  }

  lemma FlushSane(c: Cursor, at: nat)
    requires CursorSane(c, at)
    ensures SpansOrdered(Flushed(c, at), at)
  {
    if c.pending >= 0 {
      assert SpansOrdered(c.pairs, c.pending);
      AppendOrdered(c.pairs, [Pair(' ', c.pending, at)], c.pending, at);
    }
  }

  lemma StepSane(c: Cursor, t: Token, at: nat)
    requires CursorSane(c, at) && t.raw != ""
    ensures CursorSane(Step(c, t, at), at + |t.raw|)
  {
    hide Flushed;
    var f, end := Flushed(c, at), at + |t.raw|;
    FlushSane(c, at);
    if t.kind.Entity? {
      AppendOrdered(f, Spread(t.kind.bytes, at, end), at, end);
    } else if t.kind.Raw? {
      AppendOrdered(f, [Pair(t.kind.byte, at, end)], at, end);
    }
  }

  lemma {:induction false} RunSane(toks: seq<Token>)
    requires Lexed(toks)
    ensures CursorSane(Run(toks), Size(toks))
  {
    if toks == [] {
    } else {
      var front := toks[..|toks| - 1];
      RunSane(front);
      StepSane(Run(front), toks[|toks| - 1], Size(front));
    }
  }

  /** Offsets grow along the token list. */
  lemma {:induction false} OffsetsGrow(toks: seq<Token>, m: nat, n: nat)
    requires m <= n <= |toks|
    ensures Size(toks[..m]) <= Size(toks[..n]) <= Size(toks)
  {
    assert toks[..n] == toks[..m] + toks[m..n];
    SizeOfConcat(toks[..m], toks[m..n]);
    assert toks == toks[..n] + toks[n..];
    SizeOfConcat(toks[..n], toks[n..]);
  }

  lemma OffsetAfter(toks: seq<Token>, m: nat)
    requires m < |toks|
    ensures Size(toks[..m + 1]) == Size(toks[..m]) + |toks[m].raw|
    ensures Run(toks[..m + 1]) == Step(Run(toks[..m]), toks[m], Size(toks[..m]))
  {
    assert toks[..m + 1] == toks[..m] + [toks[m]];
    RunSnoc(toks[..m], toks[m]);
  }

  /* ----- which token a visible byte came from ----- */

  lemma StepExtends(c: Cursor, t: Token, at: nat)
    ensures c.pairs <= Step(c, t, at).pairs
  {
  }

  lemma {:induction false} RunExtends(toks: seq<Token>, m: nat)
    requires m <= |toks|
    ensures Run(toks[..m]).pairs <= Run(toks).pairs
  {
    if m == |toks| {
      assert toks[..m] == toks;
    } else {
      var front := toks[..|toks| - 1];
      assert front[..m] == toks[..m];
      RunExtends(front, m);
      StepExtends(Run(front), toks[|toks| - 1], Size(front));
    }
  }

  /** The token that was read when visible byte `k` was appended. */
  lemma {:induction false} Emitter(toks: seq<Token>, k: nat) returns (m: nat)
    requires k < |Run(toks).pairs|
    ensures m < |toks|
    ensures |Run(toks[..m]).pairs| <= k < |Run(toks[..m + 1]).pairs|
  {
    assert |toks| > 0;
    hide Run;
    var front := toks[..|toks| - 1];
    if k < |Run(front).pairs| {
      m := Emitter(front, k);
      assert front[..m] == toks[..m] && front[..m + 1] == toks[..m + 1];
    } else {
      m := |toks| - 1;
      assert toks[..m + 1] == toks;
    }
  }

  /** A byte that is not a space is the text of its token: its span is the token. */
  lemma TextOwner(toks: seq<Token>, k: nat) returns (m: nat)
    requires k < |Run(toks).pairs| && Run(toks).pairs[k].byte != ' '
    ensures m < |toks| && toks[m].kind.IsText()
    ensures Run(toks).pairs[k].start == Size(toks[..m])
    ensures Run(toks).pairs[k].end == Size(toks[..m + 1])
    ensures |Flushed(Run(toks[..m]), Size(toks[..m]))| <= k < |Run(toks[..m + 1]).pairs|
  {
    hide Run, Size;
    m := Emitter(toks, k);
    OffsetAfter(toks, m);
    RunExtends(toks, m + 1);
    assert Run(toks).pairs[k] == Run(toks[..m + 1]).pairs[k];
  }

  /** The bytes a token emits all carry its span. */
  lemma TextOwnerSpan(toks: seq<Token>, m: nat, k: nat)
    requires m < |toks| && toks[m].kind.IsText()
    requires |Flushed(Run(toks[..m]), Size(toks[..m]))| <= k < |Run(toks[..m + 1]).pairs|
    ensures k < |Run(toks).pairs|
    ensures Run(toks).pairs[k].start == Size(toks[..m]) && Run(toks).pairs[k].end == Size(toks[..m + 1])
  {
    hide Run, Size;
    OffsetAfter(toks, m);
    RunExtends(toks, m + 1);
  }

  /* ----- skipped regions ----- */

  lemma {:induction false} SkipOwner(toks: seq<Token>, j: nat) returns (m: nat)
    requires j < |SkipsOf(toks)|
    ensures m < |toks| && toks[m].kind.IsSkip()
    ensures SkipsOf(toks)[j] == Skip(Size(toks[..m]), Size(toks[..m + 1]), toks[m].kind)
    ensures j == |SkipsOf(toks[..m])|
  {
    var front := toks[..|toks| - 1];
    if j < |SkipsOf(front)| {
      m := SkipOwner(front, j);
      assert front[..m] == toks[..m] && front[..m + 1] == toks[..m + 1];
    } else {
      m := |toks| - 1;
      assert toks[..m + 1] == toks;
    }
  }

  /** Conversely every skip token is recorded. */
  lemma {:induction false} SkipRecorded(toks: seq<Token>, m: nat)
    requires m < |toks| && toks[m].kind.IsSkip()
    ensures Skip(Size(toks[..m]), Size(toks[..m + 1]), toks[m].kind) in SkipsOf(toks)
  {
    var front := toks[..|toks| - 1];
    if m == |toks| - 1 {
      assert toks[..m + 1] == toks;
      assert SkipsOf(toks)[|SkipsOf(front)|] == Skip(Size(front), Size(toks), toks[m].kind);
    } else {
      assert front[..m] == toks[..m] && front[..m + 1] == toks[..m + 1];
      SkipRecorded(front, m);
    }
  }

  lemma {:induction false} SkipsGrow(toks: seq<Token>, m: nat)
    requires m <= |toks|
    ensures SkipsOf(toks[..m]) <= SkipsOf(toks)
  {
    if m == |toks| {
      assert toks[..m] == toks;
    } else {
      var front := toks[..|toks| - 1];
      assert front[..m] == toks[..m];
      SkipsGrow(front, m);
    }
  }

  lemma SkipsDisjoint(toks: seq<Token>, i: nat, j: nat)
    requires Lexed(toks) && i < j < |SkipsOf(toks)|
    ensures 0 <= SkipsOf(toks)[i].start < SkipsOf(toks)[i].end <= SkipsOf(toks)[j].start
  {
    hide SkipsOf, Size, Run;
    var m := SkipOwner(toks, i);
    var n := SkipOwner(toks, j);
    OffsetAfter(toks, m);
    if n < m {
      assert toks[..m][..n] == toks[..n];
      SkipsGrow(toks[..m], n);
    }
    OffsetsGrow(toks, m + 1, n);
  }

  predicate Overlap(p: Pair, s: Skip) {
    p.start < s.end && s.start < p.end
  }

  /** A visible byte that overlaps a skipped region is a collapsed space. */
  lemma OverlapIsSpace(toks: seq<Token>, k: nat, j: nat)
    requires k < |Run(toks).pairs| && j < |SkipsOf(toks)|
    requires Overlap(Run(toks).pairs[k], SkipsOf(toks)[j])
    ensures Run(toks).pairs[k].byte == ' '
  {
    hide SkipsOf, Size, Run;
    if Run(toks).pairs[k].byte != ' ' {
      var m := TextOwner(toks, k);
      var n := SkipOwner(toks, j);
      if m < n {
        OffsetsGrow(toks, m + 1, n);
      } else if n < m {
        OffsetsGrow(toks, n + 1, m);
      }
    }
  }

  predicate SkipsOrdered(ss: seq<Skip>, size: int) {
    && (forall j :: 0 <= j < |ss| ==> 0 <= ss[j].start < ss[j].end <= size)
    && (forall i, j :: 0 <= i < j < |ss| ==> ss[i].end <= ss[j].start)
  }

  predicate OnlySpacesOverlap(ps: seq<Pair>, ss: seq<Skip>) {
    forall k, j :: 0 <= k < |ps| && 0 <= j < |ss| && Overlap(ps[k], ss[j]) ==> ps[k].byte == ' '
  }

  lemma RunSkipsOrdered(toks: seq<Token>)
    requires Lexed(toks)
    ensures SkipsOrdered(SkipsOf(toks), Size(toks))
  {
    hide SkipsOf, Size, Run;
    forall j | 0 <= j < |SkipsOf(toks)|
      ensures 0 <= SkipsOf(toks)[j].start < SkipsOf(toks)[j].end <= Size(toks)
    {
      var m := SkipOwner(toks, j);
      OffsetAfter(toks, m);
      OffsetsGrow(toks, m + 1, |toks|);
    }
    forall i, j | 0 <= i < j < |SkipsOf(toks)|
      ensures SkipsOf(toks)[i].end <= SkipsOf(toks)[j].start
    {
      SkipsDisjoint(toks, i, j);
    }
  }

  /** The scanner invariant, for every source and every decoder. */
  lemma ScannerInvariant(source: string, rules: Rules)
    ensures SpansOrdered(Pairs(source, rules), |source|)
    ensures SkipsOrdered(Skips(source, rules), |source|)
    ensures OnlySpacesOverlap(Pairs(source, rules), Skips(source, rules))
  {
    hide SkipsOf, Size, Run, Tokens;
    var toks := Tokens(source, rules);
    TokensLexed(source, rules);
    TokensTile(source, rules);
    RunSane(toks);
    RunSkipsOrdered(toks);
    forall k, j | 0 <= k < |Run(toks).pairs| && 0 <= j < |SkipsOf(toks)|
           && Overlap(Run(toks).pairs[k], SkipsOf(toks)[j])
      ensures Run(toks).pairs[k].byte == ' '
    {
      OverlapIsSpace(toks, k, j);
    }
  }
}
