/** What a replacement changes, counted in the bytes that are not spaces: when the splice is exact. */
module Ink {
  import opened Markup
  import opened Locality
  import opened Projection
  import opened ScannerLaws
  import opened Rendering
  import opened Seams
  import opened SeamText
  import opened Spacing
  import opened SpliceLaws
  import E = Edges
  import T = Text

  /** A text without its spaces. */
  function Ink(s: string): string {
    if s == "" then "" else Ink(s[..|s| - 1]) + (if s[|s| - 1] == ' ' then "" else [s[|s| - 1]])
  }

  lemma {:induction false} InkConcat(x: string, y: string)
    ensures Ink(x + y) == Ink(x) + Ink(y)
    decreases |y|
  {
    if y == "" {
      assert x + y == x;
    } else {
      InkConcat(x, y[..|y| - 1]);
      assert (x + y)[..|x + y| - 1] == x + y[..|y| - 1];
    }
  }

  lemma {:induction false} InkOfSolid(s: string)
    requires ' ' !in s
    ensures Ink(s) == s
  {
    if s == "" {
    } else {
      InkOfSolid(s[..|s| - 1]);
      assert s == s[..|s| - 1] + [s[|s| - 1]];
    }
  }

  /** A text that starts or ends with something else than a space has ink. */
  lemma HasInk(s: string)
    requires s != "" && (s[0] != ' ' || s[|s| - 1] != ' ')
    ensures Ink(s) != ""
  {
    if s[|s| - 1] == ' ' {
      assert s == [s[0]] + s[1..];
      InkConcat([s[0]], s[1..]);
      InkOfSolid([s[0]]);
    }
  }

  /* ----- ink comes from the tokens, and from nothing between them ----- */

  /** The bytes that the tokens show of their own. */
  function Own(toks: seq<Token>): string {
    if toks == [] then "" else Own(toks[..|toks| - 1]) + OwnBytes(toks[|toks| - 1].kind)
  }

  lemma {:induction false} OwnConcat(a: seq<Token>, b: seq<Token>)
    ensures Own(a + b) == Own(a) + Own(b)
    decreases |b|
  {
    if b == [] {
      assert a + b == a;
    } else {
      OwnConcat(a, b[..|b| - 1]);
      assert (a + b)[..|a + b| - 1] == a + b[..|b| - 1];
    }
  }

  lemma OwnOne(t: Token)
    ensures Own([t]) == OwnBytes(t.kind)
  {
    assert [t][..0] == [];
  }

  lemma OwnNone()
    ensures Own([]) == "" && Ink("") == ""
  {
  }

  lemma {:induction false} OwnOfBytes(s: string)
    ensures Own(Bytes(s)) == s
  {
    hide Own;
    if s == "" {
      OwnNone();
    } else {
      OwnOfBytes(s[1..]);
      OwnConcat([Token(Raw(s[0]), [s[0]])], Bytes(s[1..]));
      OwnOne(Token(Raw(s[0]), [s[0]]));
      assert s == [s[0]] + s[1..];
    }
  }

  lemma InkOfStep(t: Text, k: Kind)
    requires ' ' !in OwnBytes(k)
    ensures Ink(TextStep(t, k).bytes) == Ink(t.bytes) + OwnBytes(k)
  {
    InkOfSpaced(t);
    InkConcat(Spaced(t), OwnBytes(k));
    InkOfSolid(OwnBytes(k));
  }

  lemma InkOfSpaced(t: Text)
    ensures Ink(Spaced(t)) == Ink(t.bytes)
  {
    InkConcat(t.bytes, " ");
    assert " "[..0] == "";
  }

  lemma {:induction false} InkOfRun(toks: seq<Token>, t: Text)
    requires SpaceFree(toks)
    ensures Ink(TextRun(toks, t).bytes) == Ink(t.bytes) + Own(toks)
  {
    hide Ink, OwnBytes, TextStep;
    if toks == [] {
    } else {
      var front := toks[..|toks| - 1];
      InkOfRun(front, t);
      InkOfStep(TextRun(front, t), toks[|toks| - 1].kind);
    }
  }

  lemma SameRest(x: string, y: string, z: string)
    requires x + y == x + z
    ensures y == z
  {
    assert y == (x + y)[|x|..] == (x + z)[|x|..] == z;
  }

  lemma InkShown(s: string, rules: Rules)
    requires NoInnerSpace(rules)
    ensures Ink(Visible(s, rules)) == Own(Tokens(s, rules)) == Ink(Lead(s, rules)) == Ink(Trail(s, rules))
  {
    hide Visible, TextRun, Tokens, Tail, NoInnerSpace, Spaced;
    var toks := Tokens(s, rules);
    TokensSpaceFree(s, rules);
    VisibleIsTextRun(s, rules);
    InkOfRun(toks, START);
    InkOfSpaced(TextRun(toks, START));
    InkOfRun(toks, Text(false, "x"));
    StartedRun(toks, false, "x");
    InkConcat("x", Tail(toks, false).bytes);
    SameRest(Ink("x"), Own(toks), Ink(Tail(toks, false).bytes));
    assert Ink("") == "";
  }

  /* ----- what a reference at a seam does to the ink ----- */

  /** No reference shows more bytes than it has. */
  predicate Tight(toks: seq<Token>) {
    forall k :: 0 <= k < |toks| ==> |OwnBytes(toks[k].kind)| <= |toks[k].raw|
  }

  /** The ink of two stretches and of the whole, with `reference` across the seam and `shown` in its place. */
  datatype Shape = Shape(front: string, left: string, right: string, shown: string, back: string)

  ghost predicate ShapeOf(a: string, y: string, rules: Rules, f: Shape) {
    && Own(Tokens(a, rules)) == f.front + f.left
    && Own(Tokens(y, rules)) == f.right + f.back
    && Own(Tokens(a + y, rules)) == f.front + f.shown + f.back
    && f.shown != f.left + f.right
    && |f.right| <= |Tokens(y, rules)| && Tokens(y, rules)[..|f.right|] == Bytes(f.right)
  }

  lemma SeamShape(a: string, y: string, rules: Rules) returns (f: Shape)
    requires Closed(a, rules) && !NoSeam(a, y, rules)
    ensures ShapeOf(a, y, rules, f)
    ensures Tight(Tokens(a + y, rules)) ==> |f.shown| <= |f.left| + |f.right| && Tight(Tokens(y, rules))
  {
    hide Tokens, Closed, SeamAt, Bytes, Decodes, Own, EntityLen, Tight, AllBlankOrNbsp;
    var j :| 0 <= j < |a| && SeamAt(a, y, rules, j);
    var front, w, k := SeamTokens(a, y, rules, j);
    var rest, token := Tokens(y[k..], rules), ReferenceToken(w, rules);
    f := Shape(Own(front), a[j..], y[..k], OwnBytes(token.kind), Own(rest));
    OwnConcat(front, Bytes(a[j..]));
    OwnOfBytes(a[j..]);
    OwnConcat(Bytes(y[..k]), rest);
    OwnOfBytes(y[..k]);
    OwnConcat(front + [token], rest);
    OwnConcat(front, [token]);
    OwnOne(token);
    ShownIsOther(w, rules);
    assert (Bytes(y[..k]) + rest)[..k] == Bytes(y[..k]);
    if Tight(Tokens(a + y, rules)) {
      TightParts(front, token, rest);
      TightBytes(y[..k], rest);
    }
  }

  lemma ShownIsOther(w: string, rules: Rules)
    requires |w| >= 4 && Decodes(w, rules)
    ensures OwnBytes(ReferenceToken(w, rules).kind) != w
  {
  }

  lemma TightParts(front: seq<Token>, token: Token, rest: seq<Token>)
    requires Tight(front + [token] + rest)
    ensures |OwnBytes(token.kind)| <= |token.raw| && Tight(rest)
  {
    var all := front + [token] + rest;
    assert all[|front|] == token;
    assert forall k :: 0 <= k < |rest| ==> rest[k] == all[|front| + 1 + k];
  }

  lemma TightBytes(s: string, rest: seq<Token>)
    requires Tight(rest)
    ensures Tight(Bytes(s) + rest)
  {
    hide Bytes;
    var all := Bytes(s) + rest;
    assert forall k :: 0 <= k < |s| ==> all[k] == Token(Raw(s[k]), [s[k]]);
    assert forall k :: |s| <= k < |all| ==> all[k] == rest[k - |s|];
  }

  lemma TightSuffix(a: seq<Token>, b: seq<Token>)
    requires Tight(a + b)
    ensures Tight(b)
  {
    assert forall k :: 0 <= k < |b| ==> b[k] == (a + b)[|a| + k];
  }

  /** Two stretches have together the ink they have one after the other iff no reference forms between them. */
  lemma InkOfSeam(a: string, y: string, rules: Rules)
    requires Closed(a, rules) && Tight(Tokens(a + y, rules))
    ensures Tight(Tokens(y, rules))
    ensures |Own(Tokens(a + y, rules))| <= |Own(Tokens(a, rules))| + |Own(Tokens(y, rules))|
    ensures Own(Tokens(a + y, rules)) == Own(Tokens(a, rules)) + Own(Tokens(y, rules)) <==> NoSeam(a, y, rules)
  {
    hide Tokens, Closed, NoSeam, Own, Tight, Bytes;
    if NoSeam(a, y, rules) {
      Joined(a, y, rules);
      OwnConcat(Tokens(a, rules), Tokens(y, rules));
      TightSuffix(Tokens(a, rules), Tokens(y, rules));
    } else {
      var f := SeamShape(a, y, rules);
      Exchanged(f);
    }
  }

  lemma Exchanged(f: Shape)
    requires f.shown != f.left + f.right
    ensures f.front + f.shown + f.back != (f.front + f.left) + (f.right + f.back)
  {
    assert (f.front + f.left) + (f.right + f.back) == f.front + (f.left + f.right) + f.back;
    Between(f.front, f.shown, f.left + f.right, f.back);
  }

  /** Bytes before a seam are the same in the whole and in the part. */
  lemma BytesBeforeSeam(m: string, b: string, rules: Rules, v: string)
    requires Closed(m, rules) && !NoSeam(m, b, rules)
    requires |v| <= |Tokens(m + b, rules)| && Tokens(m + b, rules)[..|v|] == Bytes(v)
    ensures v <= Own(Tokens(m, rules))
  {
    hide Tokens, Closed, SeamAt, Bytes, Decodes, Own, EntityLen, ReferenceToken;
    var j :| 0 <= j < |m| && SeamAt(m, b, rules, j);
    var front, w, k := SeamTokens(m, b, rules, j);
    var rest, token := Tokens(b[k..], rules), ReferenceToken(w, rules);
    var all := front + [token] + rest;
    NotAByte(w, rules);
    assert all[|front|] == token;
    if |front| < |v| {
      ByteAt(all, v, |front|);
    }
    assert all[..|v|] == front[..|v|];
    assert front == front[..|v|] + front[|v|..];
    OwnConcat(front[..|v|], front[|v|..]);
    OwnOfBytes(v);
    OwnConcat(front, Bytes(m[j..]));
    Prefixes(v, Own(front[|v|..]), Own(Bytes(m[j..])));
  }

  lemma ByteAt(toks: seq<Token>, v: string, k: nat)
    requires k < |v| <= |toks| && toks[..|v|] == Bytes(v)
    ensures toks[k].kind.Raw?
  {
    hide Bytes;
    assert toks[k] == toks[..|v|][k];
  }

  lemma NotAByte(w: string, rules: Rules)
    ensures !ReferenceToken(w, rules).kind.Raw?
  {
  }

  lemma Prefixes(v: string, x: string, y: string)
    ensures v <= v + x + y
  {
  }

  /** Both seams at once: they cannot cancel. */
  lemma InkOfSeams(a: string, m: string, b: string, rules: Rules)
    requires Closed(a, rules) && Closed(m, rules) && Tight(Tokens(a + m + b, rules))
    ensures var all := Own(Tokens(a + m + b, rules));
            var parts := Own(Tokens(a, rules)) + Own(Tokens(m, rules)) + Own(Tokens(b, rules));
            && |all| <= |parts|
            && (all == parts ==> NoSeam(a, m + b, rules) && NoSeam(m, b, rules))
  {
    hide Tokens, Closed, NoSeam, Own, Tight, Bytes;
    var y := m + b;
    assert a + m + b == a + y;
    InkOfSeam(a, y, rules);
    InkOfSeam(m, b, rules);
    var oa, om, ob, oy := Own(Tokens(a, rules)), Own(Tokens(m, rules)), Own(Tokens(b, rules)), Own(Tokens(y, rules));
    if Own(Tokens(a + y, rules)) == oa + om + ob {
      if NoSeam(a, y, rules) {
        SameRest(oa, oy, om + ob);
      } else if !NoSeam(m, b, rules) {
        var f := SeamShape(a, y, rules);
        BytesBeforeSeam(m, b, rules, f.right);
        NoCancelling(f, om, ob);
      }
    }
  }

  lemma NoCancelling(f: Shape, m: string, b: string)
    requires f.shown != f.left + f.right && |f.shown| <= |f.left| + |f.right|
    requires f.right <= m && |f.right| + |f.back| <= |m| + |b|
    ensures f.front + f.shown + f.back != (f.front + f.left) + m + b
  {
    if f.front + f.shown + f.back == (f.front + f.left) + m + b {
      Cancelled(f, m, b);
    }
  }

  lemma Cancelled(f: Shape, m: string, b: string)
    requires |f.shown| <= |f.left| + |f.right|
    requires f.right <= m && |f.right| + |f.back| <= |m| + |b|
    requires f.front + f.shown + f.back == (f.front + f.left) + m + b
    ensures f.shown == f.left + f.right
  {
    var all, n := f.front + f.shown + f.back, |f.front|;
    assert |f.shown| == |f.left + f.right|;
    assert all[n..n + |f.shown|] == f.shown;
    assert ((f.front + f.left) + m + b)[n..n + |f.shown|] == f.left + m[..|f.right|];
  }

  /* ----- what a hit that cuts an entity does to the ink ----- */

  lemma SolidEdges(toks: seq<Token>)
    requires Lexed(toks) && Solid(toks) && SpaceFree(toks)
    ensures var s := TextRun(toks, START).bytes; s != "" && s[0] != ' ' && s[|s| - 1] != ' '
  {
    hide TextRun, Tail;
    var first, last := OwnBytes(toks[0].kind), OwnBytes(toks[|toks| - 1].kind);
    var tail := Tail(toks[1..], false).bytes;
    assert first != "" && first[0] in first && last != "" && last[|last| - 1] in last;
    SolidStep(toks, START);
    assert Spaced(START) + first + tail == first + tail;
    var front := toks[..|toks| - 1];
    assert toks == front + [toks[|toks| - 1]];
    TextRunConcat(front, [toks[|toks| - 1]], START);
    TextRunOne(toks[|toks| - 1], TextRun(front, START));
  }

  /** The text with the hit exchanged has more ink than its parts if the hit cuts an entity, and theirs if not. */
  lemma InkOfSwap(lead: string, mid: string, trail: string, other: string, n: nat, at: nat)
    requires |lead| <= at && at + n <= |lead| + |mid| && n > 0
    requires mid[0] != ' ' && mid[|mid| - 1] != ' '
    ensures var vis := lead + mid + trail;
            var swapped := Ink(vis[..at] + other + vis[at + n..]);
            var parts := Ink(lead) + Ink(other) + Ink(trail);
            if |lead| == at && |mid| == n then swapped == parts else |swapped| > |parts|
  {
    hide Ink;
    var vis := lead + mid + trail;
    var x, y := mid[..at - |lead|], mid[at - |lead| + n..];
    assert vis[..at] == lead + x;
    assert vis[at + n..] == y + trail;
    InkConcat(lead + x + other, y + trail);
    assert lead + x + other + (y + trail) == (lead + x) + other + (y + trail);
    InkConcat(lead + x, other);
    InkConcat(lead, x);
    InkConcat(y, trail);
    if x != "" { HasInk(x); }
    if y != "" { HasInk(y); }
    OwnNone();
  }

  /* ----- the splice is exact ----- */

  /** The hit on its own starts and ends with ink. */
  lemma HitEdges(source: string, find: string, rules: Rules, at: nat)
    requires T.Admissible(source, find, rules, at) && NoInnerSpace(rules)
    ensures var mid := Visible(Hit(source, find, rules, at).hit, rules);
            mid != "" && mid[0] != ' ' && mid[|mid| - 1] != ' '
  {
    hide *;
    var cut := Hit(source, find, rules, at);
    EditIsSplice(source, find, "", rules, at);
    TokensLexed(cut.hit, rules);
    TokensSpaceFree(cut.hit, rules);
    SolidEdges(Tokens(cut.hit, rules));
    VisibleIsTextRun(cut.hit, rules);
  }

  lemma PartsOfSplice(source: string, find: string, replacement: string, rules: Rules, at: nat)
    requires T.Admissible(source, find, rules, at) && NoInnerSpace(rules)
    requires 0 < |T.Needle(find, rules)| <= |Pairs(source, rules)| - at
    ensures var cut, n := Hit(source, find, rules, at), |T.Needle(find, rules)|;
            var swapped := Ink(Visible(source, rules)[..at] + Visible(replacement, rules)
                               + Visible(source, rules)[at + n..]);
            var parts := Own(Tokens(cut.before, rules)) + Own(Tokens(replacement, rules))
                         + Own(Tokens(cut.after, rules));
            if Aligned(Pairs(source, rules), at, n) then swapped == parts else |swapped| > |parts|
  {
    hide *;
    var cut := Hit(source, find, rules, at);
    HitIsCut(source, find, rules, at);
    EditIsSplice(source, find, replacement, rules, at);
    PartsVisible(cut.before, cut.hit, cut.after, rules);
    HitLengths(source, find, rules, at);
    HitEdges(source, find, rules, at);
    InkOfParts(cut, replacement, rules, |T.Needle(find, rules)|, at);
  }

  lemma InkOfParts(cut: Cut, replacement: string, rules: Rules, n: nat, at: nat)
    requires NoInnerSpace(rules) && n > 0
    requires var lead, mid := Lead(cut.before, rules), Visible(cut.hit, rules);
             && |lead| <= at && at + n <= |lead| + |mid| && mid[0] != ' ' && mid[|mid| - 1] != ' '
    ensures var lead, mid := Lead(cut.before, rules), Visible(cut.hit, rules);
            var vis := lead + mid + Trail(cut.after, rules);
            var swapped := Ink(vis[..at] + Visible(replacement, rules) + vis[at + n..]);
            var parts := Own(Tokens(cut.before, rules)) + Own(Tokens(replacement, rules))
                         + Own(Tokens(cut.after, rules));
            if |lead| == at && |mid| == n then swapped == parts else |swapped| > |parts|
  {
    hide *;
    InkShown(cut.before, rules);
    InkShown(replacement, rules);
    InkShown(cut.after, rules);
    InkOfSwap(Lead(cut.before, rules), Visible(cut.hit, rules), Trail(cut.after, rules), Visible(replacement, rules),
              n, at);
  }

  /**
   * Where no reference shows more bytes than it has, two failures cannot cancel: exactly the one
   * occurrence is swapped in the visible text if and only if the hit is aligned, no reference
   * forms at a seam, and the edges fit, all three together.
   */
  lemma SwapIsExact(source: string, find: string, replacement: string, rules: Rules, at: nat)
    requires T.Admissible(source, find, rules, at)
    requires Closed(replacement, rules) && E.Plainish(Tokens(replacement, rules))
    requires NoInnerSpace(rules) && Tight(Tokens(T.Edit(source, find, replacement, rules).Result(), rules))
    ensures 0 < |T.Needle(find, rules)| <= |Pairs(source, rules)| - at
    ensures var cut := Hit(source, find, rules, at);
            SwappedText(source, find, replacement, rules, at)
            <==> && Aligned(Pairs(source, rules), at, |T.Needle(find, rules)|)
                 && NoSeam(cut.before, replacement + cut.after, rules) && NoSeam(replacement, cut.after, rules)
                 && EdgesFit(cut, replacement, rules)
  {
    SpliceTheorem(source, find, replacement, rules, at);
    hide *;
    if SwappedText(source, find, replacement, rules, at) {
      NothingCancels(source, find, replacement, rules, at);
    }
  }

  lemma NothingCancels(source: string, find: string, replacement: string, rules: Rules, at: nat)
    requires T.Admissible(source, find, rules, at) && Closed(replacement, rules) && NoInnerSpace(rules)
    requires Tight(Tokens(T.Edit(source, find, replacement, rules).Result(), rules))
    requires 0 < |T.Needle(find, rules)| <= |Pairs(source, rules)| - at
    requires SwappedText(source, find, replacement, rules, at)
    ensures var cut := Hit(source, find, rules, at);
            && Aligned(Pairs(source, rules), at, |T.Needle(find, rules)|)
            && NoSeam(cut.before, replacement + cut.after, rules) && NoSeam(replacement, cut.after, rules)
  {
    hide *;
    var cut := Hit(source, find, rules, at);
    EditIsSplice(source, find, replacement, rules, at);
    HitIsCut(source, find, rules, at);
    BeforeIsClosed(cut, rules);
    SwappedIs(source, find, replacement, rules, at);
    ResultIs(source, find, replacement, rules, at);
    PartsOfSplice(source, find, replacement, rules, at);
    InkShown(cut.before + replacement + cut.after, rules);
    InkOfSeams(cut.before, replacement, cut.after, rules);
  }

  lemma ResultIs(source: string, find: string, replacement: string, rules: Rules, at: nat)
    requires T.Admissible(source, find, rules, at)
    ensures var cut := Hit(source, find, rules, at);
            T.Edit(source, find, replacement, rules).Result() == cut.before + replacement + cut.after
  {
    hide T.Admissible, Hit, T.Edit;
    EditIsSplice(source, find, replacement, rules, at);
  }
}
