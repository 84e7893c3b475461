/**
 * What the engine is for: a page whose text is written with character references is searched and
 * edited as it reads.
 */
module Passages {
  import opened Php
  import opened Markup
  import opened Projection
  import opened ScannerLaws
  import opened Rendering
  import opened Seams
  import opened PlainSplice
  import opened Grammar
  import T = Text

  /** Text as it is written: bytes that stand for themselves, and character references. */
  datatype Piece = Byte(c: char) | Ref(reference: string)

  function AsWritten(p: Piece): string {
    match p case Byte(c) => [c] case Ref(w) => w
  }

  function AsRead(p: Piece, rules: Rules): string {
    match p case Byte(c) => [c] case Ref(w) => rules.entity(w)
  }

  function Written(ps: seq<Piece>): string {
    if ps == [] then "" else Written(ps[..|ps| - 1]) + AsWritten(ps[|ps| - 1])
  }

  function Rendered(ps: seq<Piece>, rules: Rules): string {
    if ps == [] then "" else Rendered(ps[..|ps| - 1], rules) + AsRead(ps[|ps| - 1], rules)
  }

  /** No byte opens anything, and each reference is one that stands for something visible. */
  predicate Proper(p: Piece, rules: Rules) {
    match p
    case Byte(c) => c != '<' && c != '&' && !(rules.shortcodes && c == '[')
    case Ref(w) => IsReference(w) && rules.entity(w) != w && !ShowsNothing(rules.entity(w))
  }

  predicate AllProper(ps: seq<Piece>, rules: Rules) {
    forall k :: 0 <= k < |ps| ==> Proper(ps[k], rules)
  }

  lemma OneMore(ps: seq<Piece>, p: Piece, rules: Rules)
    ensures Written(ps + [p]) == Written(ps) + AsWritten(p)
    ensures Rendered(ps + [p], rules) == Rendered(ps, rules) + AsRead(p, rules)
  {
    hide AsWritten, AsRead;
    assert (ps + [p])[..|ps|] == ps && (ps + [p])[|ps|] == p;
  }

  lemma {:induction false} Concat(a: seq<Piece>, b: seq<Piece>, rules: Rules)
    ensures Written(a + b) == Written(a) + Written(b)
    ensures Rendered(a + b, rules) == Rendered(a, rules) + Rendered(b, rules)
    decreases |b|
  {
    if b == [] {
      assert a + b == a;
      NoPieces(rules);
      NothingMore(Written(a));
      NothingMore(Rendered(a, rules));
    } else {
      hide Written, Rendered, AsWritten, AsRead;
      var front, last := b[..|b| - 1], b[|b| - 1];
      Concat(a, front, rules);
      OneMore(a + front, last, rules);
      OneMore(front, last, rules);
      LastMore(a, b);
      Regrouped(Written(a), Written(front), AsWritten(last));
      Regrouped(Rendered(a, rules), Rendered(front, rules), AsRead(last, rules));
    }
  }

  lemma NoPieces(rules: Rules)
    ensures Written([]) == "" && Rendered([], rules) == ""
  {
  }

  lemma NothingMore(s: string)
    ensures s + "" == s
  {
  }

  lemma LastMore(a: seq<Piece>, b: seq<Piece>)
    requires b != []
    ensures a + b == a + b[..|b| - 1] + [b[|b| - 1]] && b == b[..|b| - 1] + [b[|b| - 1]]
  {
  }

  lemma Regrouped(x: string, y: string, z: string)
    ensures x + y + z == x + (y + z)
  {
  }

  lemma OnePiece(p: Piece, rules: Rules)
    ensures Written([p]) == AsWritten(p) && Rendered([p], rules) == AsRead(p, rules)
  {
    OneMore([], p, rules);
    assert [] + [p] == [p];
  }

  /* ----- piece by piece, token by token ----- */

  function PieceToken(p: Piece, rules: Rules): Token {
    match p case Byte(c) => ByteToken(c) case Ref(w) => Token(Entity(rules.entity(w)), w)
  }

  function PieceTokens(ps: seq<Piece>, rules: Rules): (toks: seq<Token>)
    ensures |toks| == |ps| && forall k :: 0 <= k < |ps| ==> toks[k] == PieceToken(ps[k], rules)
  {
    seq(|ps|, k requires 0 <= k < |ps| => PieceToken(ps[k], rules))
  }

  lemma LexPiece(p: Piece, rest: string, rules: Rules)
    requires Proper(p, rules)
    ensures AsWritten(p) != "" && Lex(AsWritten(p) + rest, rules) == PieceToken(p, rules)
    ensures PieceToken(p, rules).raw == AsWritten(p)
  {
    hide IsReference, EntityLen, ShowsNothing, AllBlankOrNbsp, ByteToken;
    var s := AsWritten(p) + rest;
    match p {
      case Byte(c) =>
        assert s[0] == c && s[0..] == s;
        NoAmpersand(s);
        LexLiteral(s, rules);
        ByteTokenIsByte(c);
      case Ref(w) =>
        LexReference(w, rest, rules);
    }
  }

  lemma NoAmpersand(s: string)
    requires s != "" && s[0] != '&'
    ensures EntityLen(s) == 0
  {
  }

  lemma LexReference(w: string, rest: string, rules: Rules)
    requires IsReference(w) && rules.entity(w) != w && !ShowsNothing(rules.entity(w))
    ensures w != "" && Lex(w + rest, rules) == Token(Entity(rules.entity(w)), w)
  {
    hide EntityLen, AllBlankOrNbsp, DecimalBody, HexBody, NamedBody, ShowsNothing;
    assert (w + rest)[..|w|] == w && (w + rest)[0] == '&';
    ReferenceIsExact(w + rest, |w|);
    ShowsNothingIs(rules.entity(w));
    EmptyShowsNothing();
  }

  lemma EmptyShowsNothing()
    ensures ShowsNothing("")
  {
  }

  lemma FirstPiece(p: Piece, rest: seq<Piece>, rules: Rules)
    requires Proper(p, rules)
    ensures Tokens(Written([p] + rest), rules) == [PieceToken(p, rules)] + Tokens(Written(rest), rules)
  {
    hide Lex, PieceToken, Proper, AsWritten, Written, Tokens;
    Concat([p], rest, rules);
    OnePiece(p, rules);
    LexPiece(p, Written(rest), rules);
    var s := AsWritten(p) + Written(rest);
    assert s[|AsWritten(p)|..] == Written(rest);
    TokensCons(s, rules);
  }

  lemma PieceTokensCons(p: Piece, rest: seq<Piece>, rules: Rules)
    ensures PieceTokens([p] + rest, rules) == [PieceToken(p, rules)] + PieceTokens(rest, rules)
  {
  }

  /** The source is read piece by piece. */
  lemma {:induction false} PiecesAreTokens(ps: seq<Piece>, rules: Rules)
    requires AllProper(ps, rules)
    ensures Tokens(Written(ps), rules) == PieceTokens(ps, rules)
    decreases |ps|
  {
    hide PieceToken, Proper, Written, PieceTokens, Tokens;
    if ps == [] {
      NothingWritten(rules);
      assert PieceTokens(ps, rules) == [];
    } else {
      var p, rest := ps[0], ps[1..];
      assert ps == [p] + rest;
      FirstPiece(p, rest, rules);
      PieceTokensCons(p, rest, rules);
      assert forall k :: 0 <= k < |rest| ==> rest[k] == ps[k + 1];
      PiecesAreTokens(rest, rules);
    }
  }

  lemma NothingWritten(rules: Rules)
    ensures Written([]) == "" && Tokens("", rules) == []
  {
  }

  /* ----- what is shown ----- */

  /** What the scanner holds after `n` pieces. */
  function Held(ps: seq<Piece>, n: nat, rules: Rules): Text
    requires n <= |ps|
  {
    if n > 0 && ps[n - 1].Byte? && IsBlank(ps[n - 1].c) then Text(true, Rendered(ps[..n - 1], rules))
    else Text(false, Rendered(ps[..n], rules))
  }

  /** The text up to a piece, the piece, and what follows. */
  lemma RenderedAt(ps: seq<Piece>, n: nat, rules: Rules)
    requires n < |ps|
    ensures var all, before := Rendered(ps, rules), Rendered(ps[..n], rules);
            && Rendered(ps[..n + 1], rules) == before + AsRead(ps[n], rules)
            && Rendered(ps[..n + 1], rules) <= all
  {
    hide Rendered, AsRead;
    assert ps[..n + 1] == ps[..n] + [ps[n]];
    Concat(ps[..n], [ps[n]], rules);
    OnePiece(ps[n], rules);
    assert ps == ps[..n + 1] + ps[n + 1..];
    Concat(ps[..n + 1], ps[n + 1..], rules);
  }

  /** A blank byte of collapsed text is one space, with something before it and after it. */
  lemma BlankByte(ps: seq<Piece>, n: nat, rules: Rules)
    requires Collapsed(Rendered(ps, rules)) && n < |ps| && ps[n].Byte? && IsBlank(ps[n].c)
    ensures ps[n].c == ' ' && Rendered(ps[..n], rules) != ""
    ensures Rendered(ps[..n + 1], rules) == Rendered(ps[..n], rules) + " "
    ensures n + 1 < |ps| && AsRead(ps[n + 1], rules) != "" ==> !IsBlank(AsRead(ps[n + 1], rules)[0])
  {
    hide Rendered, IsBlank;
    RenderedAt(ps, n, rules);
    var all, k := Rendered(ps, rules), |Rendered(ps[..n], rules)|;
    assert all[k] == ps[n].c;
    if n + 1 < |ps| && AsRead(ps[n + 1], rules) != "" {
      RenderedAt(ps, n + 1, rules);
      assert all[k + 1] == AsRead(ps[n + 1], rules)[0];
    }
  }

  /** With its pending space, what is held is the text so far. */
  lemma HeldShows(ps: seq<Piece>, n: nat, rules: Rules)
    requires Collapsed(Rendered(ps, rules)) && n <= |ps|
    ensures Spaced(Held(ps, n, rules)) == Rendered(ps[..n], rules)
  {
    hide Rendered, IsBlank, Collapsed;
    if n > 0 && ps[n - 1].Byte? && IsBlank(ps[n - 1].c) {
      BlankByte(ps, n - 1, rules);
    }
  }

  lemma HeldStep(ps: seq<Piece>, n: nat, rules: Rules)
    requires Collapsed(Rendered(ps, rules)) && n < |ps|
    ensures TextStep(Held(ps, n, rules), PieceToken(ps[n], rules).kind) == Held(ps, n + 1, rules)
  {
    hide Rendered, IsBlank, Collapsed;
    HeldShows(ps, n, rules);
    RenderedAt(ps, n, rules);
    if n > 0 && ps[n - 1].Byte? && IsBlank(ps[n - 1].c) {
      BlankByte(ps, n - 1, rules);
    }
  }

  lemma {:induction false} PiecesRun(ps: seq<Piece>, n: nat, rules: Rules)
    requires Collapsed(Rendered(ps, rules)) && n <= |ps|
    ensures TextRun(PieceTokens(ps, rules)[..n], START) == Held(ps, n, rules)
  {
    hide Collapsed, PieceToken, Held, TextStep;
    if n == 0 {
      HeldFirst(ps, rules);
    } else {
      PiecesRun(ps, n - 1, rules);
      HeldStep(ps, n - 1, rules);
      assert PieceTokens(ps, rules)[..n][..n - 1] == PieceTokens(ps, rules)[..n - 1];
    }
  }

  lemma HeldFirst(ps: seq<Piece>, rules: Rules)
    ensures Held(ps, 0, rules) == START
  {
    assert ps[..0] == [];
  }

  /** Collapsed text written in pieces shows as it reads, and nothing in it is skipped. */
  lemma PiecesShow(ps: seq<Piece>, rules: Rules)
    requires AllProper(ps, rules) && Collapsed(Rendered(ps, rules))
    ensures Visible(Written(ps), rules) == Rendered(ps, rules)
    ensures Skips(Written(ps), rules) == []
  {
    hide Tokens, Visible, Collapsed, TextRun, Held, Written, Rendered, SkipsOf, PieceToken, Proper;
    var toks := PieceTokens(ps, rules);
    PiecesAreTokens(ps, rules);
    VisibleIsTextRun(Written(ps), rules);
    PiecesRun(ps, |ps|, rules);
    assert toks[..|ps|] == toks && ps[..|ps|] == ps;
    LastIsShown(ps, rules);
    NoneSkipped(ps, rules, |ps|);
  }

  lemma LastIsShown(ps: seq<Piece>, rules: Rules)
    requires Collapsed(Rendered(ps, rules))
    ensures Held(ps, |ps|, rules).bytes == Rendered(ps, rules)
  {
    hide Rendered, IsBlank;
    assert ps[..|ps|] == ps;
    if ps != [] && ps[|ps| - 1].Byte? {
      RenderedAt(ps, |ps| - 1, rules);
    }
  }

  lemma {:induction false} NoneSkipped(ps: seq<Piece>, rules: Rules, n: nat)
    requires n <= |ps|
    ensures SkipsOf(PieceTokens(ps, rules)[..n]) == []
  {
    if n == 0 {
    } else {
      NoneSkipped(ps, rules, n - 1);
      assert PieceTokens(ps, rules)[..n][..n - 1] == PieceTokens(ps, rules)[..n - 1];
    }
  }

  /* ----- it is found, and replaced, as it reads ----- */

  /**
   * A passage is found in such a page exactly if it is in the text as it reads, and replaced
   * exactly if it is there once.
   */
  lemma FoundAsItReads(ps: seq<Piece>, find: string, replacement: string, rules: Rules)
    requires AllProper(ps, rules) && Collapsed(Rendered(ps, rules))
    ensures var needle := T.Needle(find, rules);
            && (T.Contains(Written(ps), find, rules)
                <==> needle != "" && exists at :: OccursAt(Rendered(ps, rules), needle, at))
            && (T.Edit(Written(ps), find, replacement, rules).Replaced?
                <==> needle != "" && exists at :: T.Sole(Rendered(ps, rules), needle, at))
  {
    hide Visible, Collapsed, Written, Rendered, Proper, Pairs, Skips, T.Needle, T.Edit, Strpos, T.Sole;
    PiecesShow(ps, rules);
    var source, needle := Written(ps), T.Needle(find, rules);
    T.ExactDecision(source, find, replacement, rules);
    if needle != "" {
      if at :| T.Sole(Rendered(ps, rules), needle, at) {
        assert T.Admissible(source, find, rules, at);
      }
      assert Strpos(Rendered(ps, rules), needle, 0) != -1
        ==> OccursAt(Rendered(ps, rules), needle, Strpos(Rendered(ps, rules), needle, 0));
      if exists at :: OccursAt(Rendered(ps, rules), needle, at) {
        SomewhereIsFromStart(Rendered(ps, rules), needle);
      }
    }
  }

  lemma SomewhereIsFromStart(hay: string, needle: string)
    requires exists at :: OccursAt(hay, needle, at)
    ensures Strpos(hay, needle, 0) != -1
  {
    hide Strpos;
    var at :| OccursAt(hay, needle, at);
  }

  lemma {:induction false} SizeOfPieces(ps: seq<Piece>, rules: Rules, n: nat)
    requires n <= |ps| && AllProper(ps, rules)
    ensures Size(PieceTokens(ps, rules)[..n]) == |Written(ps[..n])|
  {
    hide PieceToken, Proper, AsWritten;
    if n == 0 {
    } else {
      SizeOfPieces(ps, rules, n - 1);
      assert PieceTokens(ps, rules)[..n][..n - 1] == PieceTokens(ps, rules)[..n - 1];
      assert ps[..n][..n - 1] == ps[..n - 1];
      LexPiece(ps[n - 1], "", rules);
    }
  }

  /** The byte `k` of the text, if it is of piece `n` and no space, has the span of that piece. */
  lemma SpanOfByte(ps: seq<Piece>, rules: Rules, n: nat, k: nat)
    requires AllProper(ps, rules) && Collapsed(Rendered(ps, rules)) && n < |ps|
    requires |Rendered(ps[..n], rules)| <= k < |Rendered(ps[..n + 1], rules)|
    requires ps[n].Byte? ==> !IsBlank(ps[n].c)
    ensures k < |Pairs(Written(ps), rules)|
    ensures Pairs(Written(ps), rules)[k].start == |Written(ps[..n])|
    ensures Pairs(Written(ps), rules)[k].end == |Written(ps[..n + 1])|
  {
    hide Tokens, Collapsed, Written, Rendered, Run, Size, TextRun, Held, Flushed, Proper, BytesOf;
    var toks := PieceTokens(ps, rules);
    PiecesAreTokens(ps, rules);
    SizeOfPieces(ps, rules, n);
    SizeOfPieces(ps, rules, n + 1);
    PiecesRun(ps, n, rules);
    PiecesRun(ps, n + 1, rules);
    HeldShows(ps, n, rules);
    AbsRun(toks[..n]);
    AbsRun(toks[..n + 1]);
    FlushedLength(Run(toks[..n]), Size(toks[..n]));
    HeldByText(ps, n, rules);
    TextOwnerSpan(toks, n, k);
  }

  lemma FlushedLength(c: Cursor, at: nat)
    ensures |Flushed(c, at)| == |Spaced(Abs(c))|
  {
    hide BytesOf;
  }

  lemma HeldByText(ps: seq<Piece>, n: nat, rules: Rules)
    requires n < |ps| && (ps[n].Byte? ==> !IsBlank(ps[n].c))
    ensures Held(ps, n + 1, rules) == Text(false, Rendered(ps[..n + 1], rules))
    ensures PieceToken(ps[n], rules).kind.IsText()
  {
  }

  /**
   * The passage that the pieces `mid` read as, sought as it reads: those pieces are replaced, and
   * all that is written before and after them stays.
   */
  lemma PiecesReplaced(a: seq<Piece>, mid: seq<Piece>, b: seq<Piece>, find: string, replacement: string, rules: Rules)
    requires AllProper(a + mid + b, rules) && Collapsed(Rendered(a + mid + b, rules)) && mid != []
    requires T.Needle(find, rules) == Rendered(mid, rules) != ""
    requires T.Sole(Rendered(a + mid + b, rules), Rendered(mid, rules), |Rendered(a, rules)|)
    ensures T.Edit(Written(a + mid + b), find, replacement, rules) == T.Replaced(Written(a) + replacement + Written(b))
  {
    hide Visible, Collapsed, Written, Rendered, Proper, Pairs, Skips, T.Needle, T.Edit, T.Sole, IsBlank;
    var ps, at := a + mid + b, |Rendered(a, rules)|;
    PiecesShow(ps, rules);
    assert T.Admissible(Written(ps), find, rules, at);
    T.ExactDecision(Written(ps), find, replacement, rules);
    var m, k := |a|, |a| + |mid| - 1;
    CutPieces(a, mid, b, rules);
    EdgePieces(mid, rules);
    ProperShows(mid[0], rules);
    ProperShows(mid[|mid| - 1], rules);
    RenderedAt(ps, m, rules);
    RenderedAt(ps, k, rules);
    SpanOfByte(ps, rules, m, at);
    SpanOfByte(ps, rules, k, at + |Rendered(mid, rules)| - 1);
  }

  lemma EdgePieces(mid: seq<Piece>, rules: Rules)
    requires mid != [] && Rendered(mid, rules) != ""
    requires !IsBlank(Rendered(mid, rules)[0]) && !IsBlank(Rendered(mid, rules)[|Rendered(mid, rules)| - 1])
    ensures mid[0].Byte? ==> !IsBlank(mid[0].c)
    ensures mid[|mid| - 1].Byte? ==> !IsBlank(mid[|mid| - 1].c)
  {
    hide IsBlank, Rendered;
    assert mid == [mid[0]] + mid[1..] && mid == mid[..|mid| - 1] + [mid[|mid| - 1]];
    Concat([mid[0]], mid[1..], rules);
    Concat(mid[..|mid| - 1], [mid[|mid| - 1]], rules);
    OnePiece(mid[0], rules);
    OnePiece(mid[|mid| - 1], rules);
  }

  lemma ProperShows(p: Piece, rules: Rules)
    requires Proper(p, rules)
    ensures AsRead(p, rules) != ""
  {
    EmptyShowsNothing();
  }

  lemma CutPieces(a: seq<Piece>, mid: seq<Piece>, b: seq<Piece>, rules: Rules)
    requires mid != []
    ensures var ps := a + mid + b;
            && ps[..|a|] == a && ps[|a|] == mid[0] && ps[|a| + |mid| - 1] == mid[|mid| - 1]
            && ps[..|a| + |mid|] == a + mid
            && Rendered(a + mid, rules) == Rendered(a, rules) + Rendered(mid, rules)
            && Written(ps) == Written(a) + Written(mid) + Written(b)
            && Written(a + mid) == Written(a) + Written(mid)
  {
    hide Written, Rendered;
    Concat(a + mid, b, rules);
    Concat(a, mid, rules);
  }

  /* ----- a page with an apostrophe ----- */

  /** Text in which every byte stands for itself. */
  function Plainly(s: string): seq<Piece> {
    seq(|s|, k requires 0 <= k < |s| => Byte(s[k]))
  }

  lemma {:induction false} PlainlyIs(s: string, rules: Rules)
    ensures Written(Plainly(s)) == s && Rendered(Plainly(s), rules) == s
  {
    if s == "" {
    } else {
      var front := s[..|s| - 1];
      PlainlyIs(front, rules);
      assert Plainly(s)[..|s| - 1] == Plainly(front);
      assert s == front + [s[|s| - 1]];
    }
  }

  const APOSTROPHE := "\U{E2}\U{80}\U{99}"
  const DECODER := Rules(false, s => if s == "&#8217;" then "\U{E2}\U{80}\U{99}" else s)

  /** The apostrophe of `Bob&#8217;s shop` is found as the three bytes it is on the rendered page. */
  lemma ApostropheIsFound(replacement: string)
    ensures T.Edit("Bob&#8217;s shop", "Bob" + APOSTROPHE + "s", replacement, DECODER)
            == T.Replaced(replacement + " shop")
  {
    hide T.Edit, T.Needle, T.Sole, Written, Rendered, Collapsed, Proper;
    var bob, s, shop := Plainly("Bob"), Plainly("s"), Plainly(" shop");
    var mid, find := bob + [Ref("&#8217;")] + s, "Bob" + APOSTROPHE + "s";
    PlainlyIs("Bob", DECODER);
    PlainlyIs("s", DECODER);
    PlainlyIs(" shop", DECODER);
    OnePiece(Ref("&#8217;"), DECODER);
    Joined3(bob, [Ref("&#8217;")], s, DECODER);
    Joined3([], mid, shop, DECODER);
    NoPieces(DECODER);
    assert "" + ("Bob" + "&#8217;" + "s") + " shop" == "Bob&#8217;s shop";
    assert "" + find + " shop" == find + " shop" && "" + replacement + " shop" == replacement + " shop";
    assert Rendered([] + mid + shop, DECODER) == find + " shop" && Rendered(mid, DECODER) == find;
    ShopIsProper([] + mid + shop);
    ShopText();
    PiecesReplaced([], mid, shop, find, replacement, DECODER);
  }

  lemma Joined3(a: seq<Piece>, b: seq<Piece>, c: seq<Piece>, rules: Rules)
    ensures Written(a + b + c) == Written(a) + Written(b) + Written(c)
    ensures Rendered(a + b + c, rules) == Rendered(a, rules) + Rendered(b, rules) + Rendered(c, rules)
  {
    hide Written, Rendered;
    Concat(a + b, c, rules);
    Concat(a, b, rules);
  }

  lemma ShopIsProper(ps: seq<Piece>)
    requires ps == [] + (Plainly("Bob") + [Ref("&#8217;")] + Plainly("s")) + Plainly(" shop")
    ensures AllProper(ps, DECODER)
  {
    var w := "&#8217;";
    assert w[1..|w| - 1] == "#8217";
    assert APOSTROPHE[1] == '\U{80}';
    assert Proper(Ref(w), DECODER);
    forall k | 0 <= k < |ps|
      ensures Proper(ps[k], DECODER)
    {
      assert ps[k] == if k < 3 then Byte("Bob"[k]) else if k == 3 then Ref(w) else if k == 4 then Byte('s')
                      else Byte(" shop"[k - 5]);
    }
  }

  lemma ShopText()
    ensures var find := "Bob" + APOSTROPHE + "s";
            && T.Needle(find, DECODER) == find && Collapsed(find + " shop") && T.Sole(find + " shop", find, 0)
  {
    var find := "Bob" + APOSTROPHE + "s";
    hide T.Needle, Literal;
    PlainIsLiteral(find, DECODER.(shortcodes := false));
    LiteralNeedle(find, DECODER);
    var all := find + " shop";
    assert all[0..7] == find;
    forall k | OccursAt(all, find, k)
      ensures k == 0
    {
      assert all[k..k + 7][0] == all[k];
    }
  }
}
