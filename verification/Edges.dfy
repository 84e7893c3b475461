/**
 * When a stretch of markup can stand between two others without a space coming or going at its
 * edges.
 */
module Edges {
  import opened Markup
  import opened ScannerLaws
  import opened Rendering

  /** Leaves whitespace pending: a blank, a block boundary, a comment, a shortcode. */
  predicate Gap(k: Kind) { !k.IsText() && !k.InlineTag? }

  predicate NoText(toks: seq<Token>) {
    forall k :: 0 <= k < |toks| ==> !toks[k].kind.IsText()
  }

  predicate NoGap(toks: seq<Token>) {
    forall k :: 0 <= k < |toks| ==> !Gap(toks[k].kind)
  }

  predicate NoSpaceEntity(toks: seq<Token>) {
    forall k :: 0 <= k < |toks| ==> !toks[k].kind.SpaceEntity?
  }

  /** The first token that shows something, or the end. */
  function FirstText(toks: seq<Token>): (i: nat)
    ensures i <= |toks| && NoText(toks[..i]) && (i < |toks| ==> toks[i].kind.IsText())
  {
    if toks == [] || toks[0].kind.IsText() then 0 else
      var i := FirstText(toks[1..]);
      assert toks[..i + 1] == [toks[0]] + toks[1..][..i];
      i + 1
  }

  /** Just after the last token that shows something, or 0. */
  function AfterText(toks: seq<Token>): (i: nat)
    ensures i <= |toks| && NoText(toks[i..]) && (i > 0 ==> toks[i - 1].kind.IsText())
  {
    if toks == [] || toks[|toks| - 1].kind.IsText() then |toks| else
      var i := AfterText(toks[..|toks| - 1]);
      assert toks[i..] == toks[..|toks| - 1][i..] + [toks[|toks| - 1]];
      i
  }

  lemma TextInside(toks: seq<Token>)
    requires !NoText(toks)
    ensures FirstText(toks) < AfterText(toks)
  {
    var k :| 0 <= k < |toks| && toks[k].kind.IsText();
    hide FirstText, AfterText, NoText;
    NotBefore(toks, FirstText(toks), k);
    NotAfter(toks, AfterText(toks), k);
  }

  lemma NotBefore(toks: seq<Token>, i: nat, k: nat)
    requires i <= |toks| && k < |toks| && NoText(toks[..i]) && toks[k].kind.IsText()
    ensures i <= k
  {
    assert forall j :: 0 <= j < i ==> toks[..i][j] == toks[j];
  }

  lemma NotAfter(toks: seq<Token>, i: nat, k: nat)
    requires i <= |toks| && k < |toks| && NoText(toks[i..]) && toks[k].kind.IsText()
    ensures k < i
  {
    assert forall j :: i <= j < |toks| ==> toks[i..][j - i] == toks[j];
  }

  /* ----- a stretch without text ----- */

  lemma {:induction false} TextlessRun(toks: seq<Token>, t: Text)
    requires NoText(toks)
    ensures var u := TextRun(toks, t);
            && (t.bytes == "" ==> u.bytes == "")
            && (u.pending <==> t.pending || !NoGap(toks))
            && (NoSpaceEntity(toks) ==> u.bytes == t.bytes)
            && t.bytes <= u.bytes
            && (t.bytes != "" && !NoSpaceEntity(toks) ==> |u.bytes| >= |Spaced(t)|)
  {
    if toks == [] {
    } else {
      var front, last := toks[..|toks| - 1], toks[|toks| - 1];
      TextlessRun(front, t);
      assert toks == front + [last];
      assert NoGap(toks) <==> NoGap(front) && !Gap(last.kind);
      assert NoSpaceEntity(toks) <==> NoSpaceEntity(front) && !last.kind.SpaceEntity?;
    }
  }

  /** What stands before the first text of a replacement adds no space after `t`. */
  predicate LeftFits(t: Text, pre: seq<Token>) {
    t.bytes == "" || NoGap(pre) || (t.pending && NoSpaceEntity(pre))
  }

  lemma LeftIsExact(t: Text, pre: seq<Token>)
    requires NoText(pre)
    ensures |Spaced(t)| <= |Spaced(TextRun(pre, t))|
    ensures Spaced(TextRun(pre, t)) == Spaced(t) <==> LeftFits(t, pre)
  {
    hide TextRun;
    TextlessRun(pre, t);
    GapsAndEntities(pre);
  }

  lemma GapsAndEntities(toks: seq<Token>)
    ensures NoGap(toks) ==> NoSpaceEntity(toks)
  {
  }

  /** The stretch takes in a space that is pending before it: it starts with whitespace, or shows nothing. */
  predicate Opens(toks: seq<Token>) {
    toks == [] || (toks[0].kind.InlineTag? && Opens(toks[1..])) || (Gap(toks[0].kind) && !toks[0].kind.SpaceEntity?)
  }

  lemma TailOfRun(toks: seq<Token>, t: Text)
    requires t.bytes != ""
    ensures TextRun(toks, t).bytes == t.bytes + Tail(toks, t.pending).bytes
  {
    hide TextRun, Tail;
    StartedRun(toks, t.pending, t.bytes);
  }

  lemma {:induction false} OpensFrom(toks: seq<Token>, y: string)
    requires y != ""
    ensures TextRun(toks, Text(true, y)).bytes == TextRun(toks, Text(false, y)).bytes <==> Opens(toks)
    ensures |TextRun(toks, Text(true, y)).bytes| >= |TextRun(toks, Text(false, y)).bytes|
  {
    hide TextRun, Tail;
    if toks == [] {
      NothingRuns(Text(true, y));
      NothingRuns(Text(false, y));
    } else {
      var first, rest := toks[0], toks[1..];
      assert toks == [first] + rest;
      TextRunConcat([first], rest, Text(true, y));
      TextRunConcat([first], rest, Text(false, y));
      TextRunOne(first, Text(true, y));
      TextRunOne(first, Text(false, y));
      if first.kind.InlineTag? {
        OpensFrom(rest, y);
      } else {
        TailOfRun(rest, TextStep(Text(true, y), first.kind));
        TailOfRun(rest, TextStep(Text(false, y), first.kind));
      }
    }
  }

  lemma NothingRuns(t: Text)
    ensures TextRun([], t) == t
  {
  }

  lemma OpensIsExact(toks: seq<Token>)
    ensures Tail(toks, true).bytes == Tail(toks, false).bytes <==> Opens(toks)
    ensures |Tail(toks, true).bytes| >= |Tail(toks, false).bytes|
  {
    hide TextRun, Tail, Opens;
    OpensFrom(toks, "x");
    TailOfRun(toks, Text(true, "x"));
    TailOfRun(toks, Text(false, "x"));
    var p, q := Tail(toks, true).bytes, Tail(toks, false).bytes;
    assert ("x" + p)[1..] == p && ("x" + q)[1..] == q;
  }

  /** What stands after the last text of a replacement adds no space before `toks`. */
  predicate RightFits(post: seq<Token>, toks: seq<Token>) {
    NoGap(post) || Opens(toks)
  }

  /* ----- a replacement between two stretches ----- */

  /** What `toks` shows between a text `t` and the tokens `b`, if no space comes or goes. */
  function Swapped(t: Text, toks: seq<Token>, b: seq<Token>): string {
    Spaced(t) + TextRun(toks, START).bytes + Tail(b, false).bytes
  }

  lemma RunOfParts(t: Text, pre: seq<Token>, core: seq<Token>, post: seq<Token>)
    requires Solid(core) && NoText(pre) && NoText(post)
    ensures TextRun(pre + core + post, t)
            == Text(!NoGap(post), Spaced(TextRun(pre, t)) + TextRun(core, START).bytes + Tail(post, false).bytes)
  {
    hide TextRun, Tail, Solid, Spaced;
    var x := TextRun(core, START).bytes;
    TextRunConcat(pre + core, post, t);
    TextRunConcat(pre, core, t);
    SolidRun(core, TextRun(pre, t));
    var y := Spaced(TextRun(pre, t)) + x;
    StartedRun(post, false, y);
    TextlessRun(post, Text(false, y));
  }

  lemma RunOfAll(t: Text, pre: seq<Token>, core: seq<Token>, post: seq<Token>, b: seq<Token>)
    requires Solid(core) && NoText(pre) && NoText(post)
    ensures TextRun(pre + core + post + b, t).bytes
            == Spaced(TextRun(pre, t)) + TextRun(core, START).bytes + Tail(post, false).bytes
               + Tail(b, !NoGap(post)).bytes
  {
    hide TextRun, Tail, Solid, Spaced;
    TextRunConcat(pre + core + post, b, t);
    RunOfParts(t, pre, core, post);
    SolidShows(core);
    TailOfRun(b, TextRun(pre + core + post, t));
  }

  lemma SolidShows(core: seq<Token>)
    requires Solid(core)
    ensures TextRun(core, START).bytes != ""
  {
    hide TextRun;
    SolidRun(core, START);
  }

  lemma Wider(a: string, a': string, mid: string, z: string, z': string)
    requires |a| <= |a'| && |z| <= |z'|
    ensures a' + mid + z' == a + mid + z <==> a' == a && z' == z
  {
    if a' + mid + z' == a + mid + z {
      SameEnds(a, a', mid, z, z');
    }
  }

  lemma SameEnds(a: string, a': string, mid: string, z: string, z': string)
    requires |a| <= |a'| && |z| <= |z'| && a' + mid + z' == a + mid + z
    ensures a' == a && z' == z
  {
    assert |a'| == |a| && |z'| == |z|;
    assert a' == (a' + mid + z')[..|a|] == (a + mid + z)[..|a|] == a;
    assert z' == (a' + mid + z')[|a| + |mid|..] == (a + mid + z)[|a| + |mid|..] == z;
  }

  /** A replacement with text in it: a space comes or goes at an edge unless both edges fit. */
  lemma EdgesAreExact(t: Text, pre: seq<Token>, core: seq<Token>, post: seq<Token>, b: seq<Token>)
    requires Solid(core) && NoText(pre) && NoText(post)
    ensures TextRun(pre + core + post + b, t).bytes == Swapped(t, pre + core + post, b)
            <==> LeftFits(t, pre) && RightFits(post, b)
  {
    hide TextRun, Tail, Solid, LeftFits, Opens;
    RunOfAll(t, pre, core, post, b);
    RunOfParts(START, pre, core, post);
    TextlessRun(pre, START);
    LeftIsExact(t, pre);
    OpensIsExact(b);
    var mid := TextRun(core, START).bytes + Tail(post, false).bytes;
    var z := Tail(b, !NoGap(post)).bytes;
    Wider(Spaced(t), Spaced(TextRun(pre, t)), mid, Tail(b, false).bytes, z);
    assert Spaced(TextRun(pre, START)) == "";
    EdgeStrings(Spaced(t), Spaced(TextRun(pre, t)), TextRun(core, START).bytes, Tail(post, false).bytes,
                Tail(b, false).bytes, z);
  }

  lemma EdgeStrings(a: string, a': string, x: string, p: string, z: string, z': string)
    ensures a' + x + p + z' == a' + (x + p) + z' && a + ("" + x + p) + z == a + (x + p) + z
  {
    assert "" + x + p == x + p;
  }

  /* ----- a replacement that shows nothing ----- */

  /** A whitespace entity follows other whitespace. */
  predicate SpaceAfterGap(b: seq<Token>) {
    b != [] && var front := b[..|b| - 1];
               SpaceAfterGap(front) || (b[|b| - 1].kind.SpaceEntity? && !NoGap(front))
  }

  /** Nothing of `b` shows as a space before its first text. */
  predicate Quiet(b: seq<Token>) {
    if NoText(b) then !SpaceAfterGap(b) else NoGap(b[..FirstText(b)])
  }

  lemma {:induction false} QuietTextless(b: seq<Token>, y: string)
    requires NoText(b) && y != ""
    ensures TextRun(b, Text(false, y)).bytes == y <==> !SpaceAfterGap(b)
  {
    if b == [] {
    } else {
      var front := b[..|b| - 1];
      assert NoText(front);
      QuietTextless(front, y);
      TextlessRun(front, Text(false, y));
      hide NoGap, NoText;
    }
  }

  lemma TailFrom(b: seq<Token>)
    ensures TextRun(b, Text(false, "x")).bytes == "x" + Tail(b, false).bytes
    ensures TextRun(b, Text(false, "x")).bytes == "x" <==> Tail(b, false).bytes == ""
  {
    hide TextRun, Tail;
    TailOfRun(b, Text(false, "x"));
    assert ("x" + Tail(b, false).bytes)[1..] == Tail(b, false).bytes;
  }

  /** At the start of what is visible. */
  lemma QuietIsExact(b: seq<Token>, pending: bool)
    requires Lexed(b)
    ensures TextRun(b, Text(pending, "")).bytes == Tail(b, false).bytes <==> Quiet(b)
  {
    hide TextRun, Tail, FirstText;
    if NoText(b) {
      TailFrom(b);
      TextlessRun(b, Text(pending, ""));
      QuietTextless(b, "x");
    } else {
      QuietBeforeText(b, FirstText(b), pending);
    }
  }

  lemma QuietBeforeText(b: seq<Token>, i: nat, pending: bool)
    requires Lexed(b) && i < |b| && NoText(b[..i]) && b[i].kind.IsText()
    ensures TextRun(b, Text(pending, "")).bytes == Tail(b, false).bytes <==> NoGap(b[..i])
  {
    hide TextRun, Tail, NoText, NoGap;
    var pre, rest, x := b[..i], b[i..], Text(false, "x");
    assert b == pre + rest && Lexed(rest);
    hide Lexed;
    TextRunConcat(pre, rest, Text(pending, ""));
    TextRunConcat(pre, rest, x);
    TextlessRun(pre, Text(pending, ""));
    LeftIsExact(x, pre);
    StartsWithText(rest, TextRun(pre, Text(pending, "")));
    StartsWithText(rest, TextRun(pre, x));
    TailFrom(b);
    QuietStrings(Spaced(TextRun(pre, x)), OwnBytes(rest[0].kind) + Tail(rest[1..], false).bytes, Tail(b, false).bytes);
  }

  lemma QuietStrings(s: string, z: string, tail: string)
    requires s + z == "x" + tail && |s| >= 1
    ensures "" + z == tail <==> s == "x"
  {
    assert (s + z)[..1] == s[..1] && ("x" + tail)[..1] == "x";
    assert (s + z)[1..] == s[1..] + z && ("x" + tail)[1..] == tail;
    assert |tail| == |s| - 1 + |z|;
    assert |s| == 1 ==> s[1..] + z == z && s[..1] == s;
  }

  lemma StartsWithText(toks: seq<Token>, t: Text)
    requires toks != [] && toks[0].kind.IsText() && Lexed(toks)
    ensures TextRun(toks, t).bytes == Spaced(t) + (OwnBytes(toks[0].kind) + Tail(toks[1..], false).bytes)
  {
    hide TextRun, Tail;
    var first, rest := toks[0], toks[1..];
    assert toks == [first] + rest;
    TextRunConcat([first], rest, t);
    TextRunOne(first, t);
    TailOfRun(rest, TextStep(t, first.kind));
    assert Spaced(t) + OwnBytes(first.kind) + Tail(rest, false).bytes
        == Spaced(t) + (OwnBytes(first.kind) + Tail(rest, false).bytes);
  }

  /** Does nothing come or go around a replacement that shows nothing itself? */
  predicate HiddenFits(t: Text, toks: seq<Token>, b: seq<Token>) {
    if t.bytes == "" then Quiet(b)
    else if NoGap(toks) then !(t.pending && Opens(b))
    else t.pending != Opens(b)
  }

  lemma HiddenIsExact(t: Text, toks: seq<Token>, b: seq<Token>)
    requires NoText(toks) && NoSpaceEntity(toks) && Lexed(b)
    ensures TextRun(toks + b, t).bytes == Swapped(t, toks, b) <==> HiddenFits(t, toks, b)
  {
    hide TextRun, Tail, Quiet, Opens, Lexed;
    TextRunConcat(toks, b, t);
    TextlessRun(toks, t);
    TextlessRun(toks, START);
    var u := TextRun(toks, t);
    assert Swapped(t, toks, b) == Spaced(t) + Tail(b, false).bytes;
    if t.bytes == "" {
      QuietIsExact(b, u.pending);
      assert "" + Tail(b, false).bytes == Tail(b, false).bytes;
    } else {
      TailOfRun(b, u);
      OpensIsExact(b);
      PendingShows(b);
      HiddenStrings(t.bytes, Tail(b, true).bytes, Tail(b, false).bytes);
    }
  }

  /** A space that is not taken in is shown before everything else. */
  lemma PendingShows(b: seq<Token>)
    ensures !Opens(b) ==> Tail(b, true).bytes == " " + Tail(b, false).bytes
  {
    hide TextRun, Tail;
    PendingShowsFrom(b, "x");
    TailOfRun(b, Text(true, "x"));
    TailOfRun(b, Text(false, "x"));
    TailOfRun(b, Text(false, "x "));
    if !Opens(b) {
      var p, q := Tail(b, true).bytes, Tail(b, false).bytes;
      assert "x" + " " == "x ";
      assert ("x" + p)[1..] == p && ("x " + q)[1..] == " " + q;
    }
  }

  lemma {:induction false} PendingShowsFrom(toks: seq<Token>, y: string)
    requires y != ""
    ensures !Opens(toks) ==> TextRun(toks, Text(true, y)).bytes == TextRun(toks, Text(false, y + " ")).bytes
  {
    hide TextRun;
    if toks == [] {
    } else {
      var first, rest := toks[0], toks[1..];
      assert toks == [first] + rest;
      TextRunConcat([first], rest, Text(true, y));
      TextRunConcat([first], rest, Text(false, y + " "));
      TextRunOne(first, Text(true, y));
      TextRunOne(first, Text(false, y + " "));
      if first.kind.InlineTag? {
        PendingShowsFrom(rest, y);
      }
    }
  }

  lemma HiddenStrings(y: string, p: string, q: string)
    ensures y + p == y + q <==> p == q
    ensures y + p == y + " " + q <==> p == " " + q
    ensures p == q ==> y + p != y + " " + q
  {
    assert (y + p)[|y|..] == p && (y + q)[|y|..] == q && (y + " " + q)[|y|..] == " " + q;
  }

  /* ----- every replacement ----- */

  /** No space comes or goes where `toks` stands between the text `t` and the tokens `b`. */
  predicate Fits(t: Text, toks: seq<Token>, b: seq<Token>) {
    if NoText(toks) then HiddenFits(t, toks, b)
    else LeftFits(t, toks[..FirstText(toks)]) && RightFits(toks[AfterText(toks)..], b)
  }

  /** The replacement shows something, or at least has no whitespace entity in it. */
  predicate Plainish(toks: seq<Token>) {
    !NoText(toks) || NoSpaceEntity(toks)
  }

  lemma FitsIsExact(t: Text, toks: seq<Token>, b: seq<Token>)
    requires Lexed(toks) && Lexed(b) && Plainish(toks)
    ensures TextRun(toks + b, t).bytes == Swapped(t, toks, b) <==> Fits(t, toks, b)
  {
    hide TextRun, Swapped, LeftFits, RightFits, HiddenFits, NoSpaceEntity, FirstText, AfterText;
    if NoText(toks) {
      hide NoText, Lexed;
      HiddenIsExact(t, toks, b);
    } else {
      TextInside(toks);
      ShownIsExact(t, toks, FirstText(toks), AfterText(toks), b);
    }
  }

  lemma ShownIsExact(t: Text, toks: seq<Token>, i: nat, j: nat, b: seq<Token>)
    requires i < j <= |toks| && toks[i].kind.IsText() && toks[j - 1].kind.IsText()
    requires Lexed(toks) && NoText(toks[..i]) && NoText(toks[j..])
    ensures TextRun(toks + b, t).bytes == Swapped(t, toks, b) <==> LeftFits(t, toks[..i]) && RightFits(toks[j..], b)
  {
    hide TextRun, Swapped, LeftFits, RightFits, NoText;
    var core := toks[i..j];
    assert core[0] == toks[i] && core[|core| - 1] == toks[j - 1];
    assert toks == toks[..i] + core + toks[j..];
    assert Solid(core);
    hide Solid, Lexed;
    EdgesAreExact(t, toks[..i], core, toks[j..], b);
  }
}
