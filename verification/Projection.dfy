/**
 * The normalised projection of text.php: visible bytes, each with the source span it came
 * from, and the skipped regions.  `Project` is the scanning loop; `Run` replays the same
 * bookkeeping over the token list, and the invariants are proved about `Run`.
 */
module Projection {
  import opened Php
  import opened Markup
  import opened Locality

  datatype Pair = Pair(byte: char, start: int, end: int)

  datatype Skip = Skip(start: int, end: int, kind: Kind)

  /** `pending` is the start of a whitespace run awaiting its space, or -1. */
  datatype Cursor = Cursor(pending: int, pairs: seq<Pair>)

  function Flushed(c: Cursor, at: nat): seq<Pair> {
    if c.pending >= 0 && c.pairs != [] then c.pairs + [Pair(' ', c.pending, at)] else c.pairs
  }

  /** Every byte of one decoded entity carries the span of the whole entity. */
  function Spread(bytes: string, start: int, end: int): (ps: seq<Pair>)
    ensures |ps| == |bytes|
    ensures forall k :: 0 <= k < |ps| ==> ps[k] == Pair(bytes[k], start, end)
  {
    if bytes == "" then [] else [Pair(bytes[0], start, end)] + Spread(bytes[1..], start, end)
  }

  function Step(c: Cursor, t: Token, at: nat): Cursor {
    match t.kind
    case InlineTag(_) => c
    case SpaceEntity => Cursor(at, Flushed(c, at))
    case Entity(bytes) => Cursor(-1, Flushed(c, at) + Spread(bytes, at, at + |t.raw|))
    case Raw(b) => Cursor(-1, Flushed(c, at) + [Pair(b, at, at + |t.raw|)])
    case _ => if c.pending < 0 then c.(pending := at) else c
  }

  function Run(toks: seq<Token>): Cursor {
    if toks == [] then Cursor(-1, []) else
      var front := toks[..|toks| - 1];
      Step(Run(front), toks[|toks| - 1], Size(front))
  }

  function SkipOf(t: Token, at: nat): seq<Skip> {
    if t.kind.IsSkip() then [Skip(at, at + |t.raw|, t.kind)] else []
  }

  function SkipsOf(toks: seq<Token>): seq<Skip> {
    if toks == [] then [] else
      var front, t := toks[..|toks| - 1], toks[|toks| - 1];
      SkipsOf(front) + SkipOf(t, Size(front))
  }

  function BytesOf(ps: seq<Pair>): (s: string)
    ensures |s| == |ps|
    ensures forall k :: 0 <= k < |ps| ==> s[k] == ps[k].byte
  {
    if ps == [] then "" else [ps[0].byte] + BytesOf(ps[1..])
  }

  function Pairs(source: string, rules: Rules): seq<Pair> {
    Run(Tokens(source, rules)).pairs
  }

  function Visible(source: string, rules: Rules): (text: string)
    ensures |text| == |Pairs(source, rules)|
    ensures forall k :: 0 <= k < |text| ==> text[k] == Pairs(source, rules)[k].byte
  {
    BytesOf(Pairs(source, rules))
  }

  function Skips(source: string, rules: Rules): seq<Skip> {
    SkipsOf(Tokens(source, rules))
  }

  /* ----- the scanning loop ----- */

  function RegionEnd(source: string, closer: string, i: nat): int {
    var close := Strpos(source, closer, i);
    if close == -1 then |source| else close + |closer|
  }

  /** `strpos($source, closer, $i)` gives the end of the region that starts at `i`. */
  lemma RegionAt(source: string, i: nat, closer: string)
    requires i < |source| && closer != ""
    ensures RegionEnd(source, closer, i) == i + RegionLen(source[i..], closer)
  {
    StrposInSuffix(source, closer, i);
  }

  lemma OpenerAt(source: string, i: nat)
    requires i < |source|
    ensures OccursAt(source, "<!--", i) <==> StartsWith(source[i..], "<!--")
  {
    if i + 4 <= |source| {
      assert source[i..][0..4] == source[i..i + 4];
    }
  }

  lemma CommentTokenAt(source: string, i: nat, rules: Rules)
    requires i < |source| && OccursAt(source, "<!--", i)
    ensures var end := RegionEnd(source, "-->", i);
            && i + 4 <= end <= |source|
            && Lex(source[i..], rules) == Token(CommentKind(source[i..end]), source[i..end])
  {
    hide CommentKind, Strpos;
    var s := source[i..];
    OpenerAt(source, i);
    CommentOpener(s);
    RegionAt(source, i, "-->");
    assert s[..CommentLen(s)] == source[i..i + CommentLen(s)];
  }

  lemma TagTokenAt(source: string, i: nat, rules: Rules)
    requires i < |source| && source[i] == '<' && !OccursAt(source, "<!--", i)
    ensures var end := RegionEnd(source, ">", i);
            && i < end <= |source|
            && var name := TagName(source[i..end]);
               Lex(source[i..], rules)
               == Token(if name in INLINE_TAGS then InlineTag(name) else BlockTag(name), source[i..end])
  {
    hide TagName, Strpos;
    var s := source[i..];
    OpenerAt(source, i);
    RegionAt(source, i, ">");
    assert s[..RegionLen(s, ">")] == source[i..i + RegionLen(s, ">")];
  }

  lemma ShortcodeTokenAt(source: string, i: nat, rules: Rules)
    requires i < |source| && source[i] == '[' && rules.shortcodes
    ensures var end := RegionEnd(source, "]", i);
            i < end <= |source| && Lex(source[i..], rules) == Token(Shortcode, source[i..end])
  {
    hide Strpos;
    var s := source[i..];
    RegionAt(source, i, "]");
    assert s[..RegionLen(s, "]")] == source[i..i + RegionLen(s, "]")];
  }

  lemma TextTokenAt(source: string, i: nat, rules: Rules)
    requires i < |source| && source[i] != '<' && !(rules.shortcodes && source[i] == '[')
    ensures IsBlank(source[i]) ==> Lex(source[i..], rules) == Token(Space, [source[i]])
    ensures var n := EntityLen(source[i..]);
            var entity := source[i..i + n];
            var decoded := rules.entity(entity);
            !IsBlank(source[i]) ==>
              Lex(source[i..], rules)
              == if n == 0 || decoded == entity || decoded == "" then Token(Raw(source[i]), [source[i]])
                 else if AllBlankOrNbsp(decoded) then Token(SpaceEntity, entity)
                 else Token(Entity(decoded), entity)
  {
    hide EntityLen, AllBlankOrNbsp;
    var s := source[i..];
    assert s[..1] == [source[i]];
    assert s[..EntityLen(s)] == source[i..i + EntityLen(s)];
  }

  lemma EmptyRun(rules: Rules)
    ensures Size([]) == 0 && Run([]) == Cursor(-1, []) && SkipsOf([]) == [] && Tokens("", rules) == []
  {
  }

  lemma RunSnoc(toks: seq<Token>, t: Token)
    ensures Run(toks + [t]) == Step(Run(toks), t, Size(toks))
    ensures SkipsOf(toks + [t]) == SkipsOf(toks) + SkipOf(t, Size(toks))
    ensures Size(toks + [t]) == Size(toks) + |t.raw|
  {
    assert (toks + [t])[..|toks|] == toks;
  }

  lemma AdvanceTokens(source: string, i: nat, done: seq<Token>, rules: Rules)
    requires i < |source|
    requires done + Tokens(source[i..], rules) == Tokens(source, rules)
    ensures var t := Lex(source[i..], rules);
            (done + [t]) + Tokens(source[i + |t.raw|..], rules) == Tokens(source, rules)
  {
    var t := Lex(source[i..], rules);
    assert source[i..][|t.raw|..] == source[i + |t.raw|..];
    assert Tokens(source[i..], rules) == [t] + Tokens(source[i + |t.raw|..], rules);
  }

  /** One turn of the scanning loop: the branches, in the order the code tests them. */
  method ScanOne(source: string, i: nat, rules: Rules, c: Cursor, skips: seq<Skip>)
    returns (next: nat, c': Cursor, skips': seq<Skip>)
    requires i < |source| && c.pending >= -1
    ensures c'.pending >= -1
    ensures i < next <= |source| && Lex(source[i..], rules).raw == source[i..next]
    ensures c' == Step(c, Lex(source[i..], rules), i)
    ensures skips' == skips + SkipOf(Lex(source[i..], rules), i)
  {
    hide TagName, CommentKind, EntityLen, AllBlankOrNbsp, Lex, IsBlank, Strpos, OccursAt;
    var pending, pairs := c.pending, c.pairs;
    skips' := skips;
    if OccursAt(source, "<!--", i) {
      CommentTokenAt(source, i, rules);
      next := RegionEnd(source, "-->", i);
      skips' := skips + [Skip(i, next, CommentKind(source[i..next]))];
      if pending < 0 { pending := i; }
    } else if source[i] == '<' {
      TagTokenAt(source, i, rules);
      next := RegionEnd(source, ">", i);
      var name := TagName(source[i..next]);
      var inline := name in INLINE_TAGS;
      skips' := skips + [Skip(i, next, if inline then InlineTag(name) else BlockTag(name))];
      if !inline && pending < 0 { pending := i; }
    } else if rules.shortcodes && source[i] == '[' {
      ShortcodeTokenAt(source, i, rules);
      next := RegionEnd(source, "]", i);
      skips' := skips + [Skip(i, next, Shortcode)];
      if pending < 0 { pending := i; }
    } else if IsBlank(source[i]) {
      TextTokenAt(source, i, rules);
      if pending < 0 { pending := i; }
      next := i + 1;
    } else {
      next, c' := ScanText(source, i, rules, c);
      return;
    }
    c' := Cursor(pending, pairs);
  }

  /** Everything that is not a region or a blank: flush the pending space, then emit. */
  method ScanText(source: string, i: nat, rules: Rules, c: Cursor) returns (next: nat, c': Cursor)
    requires i < |source| && !IsBlank(source[i])
    requires source[i] != '<' && !(rules.shortcodes && source[i] == '[')
    requires c.pending >= -1
    ensures c'.pending >= -1
    ensures i < next <= |source| && Lex(source[i..], rules).raw == source[i..next]
    ensures !Lex(source[i..], rules).kind.IsSkip()
    ensures c' == Step(c, Lex(source[i..], rules), i)
  {
    hide EntityLen, AllBlankOrNbsp, Lex, IsBlank;
    TextTokenAt(source, i, rules);
    var pending, pairs := c.pending, c.pairs;
    if pending >= 0 {
      if pairs != [] {
        pairs := pairs + [Pair(' ', pending, i)];
      }
      pending := -1;
    }
    var n := EntityLen(source[i..]);
    var entity := source[i..i + n];
    var decoded := rules.entity(entity);
    if n != 0 && decoded != entity && decoded != "" {
      if AllBlankOrNbsp(decoded) {
        pending := i;
      } else {
        pairs := EmitEntity(pairs, decoded, i, i + n);
      }
      next := i + n;
    } else {
      pairs := pairs + [Pair(source[i], i, i + 1)];
      next := i + 1;
    }
    c' := Cursor(pending, pairs);
  }

  method Project(source: string, rules: Rules) returns (text: string, pairs: seq<Pair>, skips: seq<Skip>)
    ensures pairs == Pairs(source, rules)
    ensures skips == Skips(source, rules)
    ensures text == Visible(source, rules)
  {
    hide Lex, Step, Run, SkipsOf, SkipOf, Size, Tokens, BytesOf;
    var c := Cursor(-1, []);
    skips := [];
    var i := 0;
    ghost var done: seq<Token> := [];
    assert source[0..] == source;
    assert done + Tokens(source, rules) == Tokens(source, rules);
    EmptyRun(rules);
    while i < |source|
      invariant 0 <= i <= |source| && Size(done) == i
      invariant done + Tokens(source[i..], rules) == Tokens(source, rules)
      invariant c == Run(done) && c.pending >= -1
      invariant skips == SkipsOf(done)
      decreases |source| - i
    {
      ghost var t := Lex(source[i..], rules);
      AdvanceTokens(source, i, done, rules);
      RunSnoc(done, t);
      i, c, skips := ScanOne(source, i, rules, c, skips);
      done := done + [t];
    }
    assert source[i..] == "";
    assert done + [] == done;
    pairs := c.pairs;
    text := JoinBytes(pairs);
  }

  method EmitEntity(pairs: seq<Pair>, decoded: string, start: int, end: int) returns (out: seq<Pair>)
    ensures out == pairs + Spread(decoded, start, end)
  {
    out := pairs;
    ghost var all := Spread(decoded, start, end);
    for k := 0 to |decoded|
      invariant out == pairs + all[..k]
    {
      assert all[..k + 1] == all[..k] + [all[k]];
      out := out + [Pair(decoded[k], start, end)];
    }
  }

  method JoinBytes(pairs: seq<Pair>) returns (text: string)
    ensures text == BytesOf(pairs)
  {
    text := "";
    for k := 0 to |pairs|
      invariant text == BytesOf(pairs)[..k]
    {
      text := text + [pairs[k].byte];
    }
  }
}
