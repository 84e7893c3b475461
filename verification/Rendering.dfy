/** How visible text composes: the projection of a source cut at token boundaries. */
module Rendering {
  import opened Markup
  import opened Projection

  /** The scanner's bookkeeping without positions. */
  datatype Text = Text(pending: bool, bytes: string)

  function Spaced(t: Text): string {
    if t.pending && t.bytes != "" then t.bytes + " " else t.bytes
  }

  function TextStep(t: Text, k: Kind): Text {
    match k
    case InlineTag(_) => t
    case SpaceEntity => Text(true, Spaced(t))
    case Entity(bytes) => Text(false, Spaced(t) + bytes)
    case Raw(b) => Text(false, Spaced(t) + [b])
    case _ => t.(pending := true)
  }

  function TextRun(toks: seq<Token>, t: Text): Text {
    if toks == [] then t else TextStep(TextRun(toks[..|toks| - 1], t), toks[|toks| - 1].kind)
  }

  const START := Text(false, "")

  lemma {:induction false} BytesOfConcat(a: seq<Pair>, b: seq<Pair>)
    ensures BytesOf(a + b) == BytesOf(a) + BytesOf(b)
  {
    hide BytesOf;
    assert forall k :: 0 <= k < |a + b| ==> BytesOf(a + b)[k] == (BytesOf(a) + BytesOf(b))[k];
  }

  function Abs(c: Cursor): Text {
    Text(c.pending >= 0, BytesOf(c.pairs))
  }

  lemma AbsStep(c: Cursor, t: Token, at: nat)
    ensures Abs(Step(c, t, at)) == TextStep(Abs(c), t.kind)
  {
    hide BytesOf;
    var f := Flushed(c, at);
    BytesOfConcat(c.pairs, [Pair(' ', c.pending, at)]);
    assert BytesOf([Pair(' ', c.pending, at)]) == " ";
    assert BytesOf(f) == Spaced(Abs(c));
    match t.kind {
      case Entity(bytes) =>
        BytesOfConcat(f, Spread(bytes, at, at + |t.raw|));
        assert BytesOf(Spread(bytes, at, at + |t.raw|)) == bytes;
      case Raw(b) =>
        BytesOfConcat(f, [Pair(b, at, at + |t.raw|)]);
        assert BytesOf([Pair(b, at, at + |t.raw|)]) == [b];
      case _ =>
    }
  }

  lemma {:induction false} AbsRun(toks: seq<Token>)
    ensures Abs(Run(toks)) == TextRun(toks, START)
  {
    if toks == [] {
    } else {
      var front := toks[..|toks| - 1];
      AbsRun(front);
      AbsStep(Run(front), toks[|toks| - 1], Size(front));
    }
  }

  lemma VisibleIsTextRun(s: string, rules: Rules)
    ensures Visible(s, rules) == TextRun(Tokens(s, rules), START).bytes
  {
    AbsRun(Tokens(s, rules));
  }

  lemma {:induction false} TextRunConcat(a: seq<Token>, b: seq<Token>, t: Text)
    ensures TextRun(a + b, t) == TextRun(b, TextRun(a, t))
    decreases |b|
  {
    if b == [] {
      assert a + b == a;
    } else {
      var front := b[..|b| - 1];
      TextRunConcat(a, front, t);
      assert (a + b)[..|a + b| - 1] == a + front;
    }
  }

  lemma TextRunOne(tok: Token, t: Text)
    ensures TextRun([tok], t) == TextStep(t, tok.kind)
  {
    assert [tok][..0] == [];
  }

  /* ----- once something is visible, what follows no longer depends on what it was ----- */

  function TailStep(t: Text, k: Kind): Text {
    var spaced := if t.pending then t.bytes + " " else t.bytes;
    match k
    case InlineTag(_) => t
    case SpaceEntity => Text(true, spaced)
    case Entity(bytes) => Text(false, spaced + bytes)
    case Raw(b) => Text(false, spaced + [b])
    case _ => t.(pending := true)
  }

  function Tail(toks: seq<Token>, pending: bool): Text {
    if toks == [] then Text(pending, "") else TailStep(Tail(toks[..|toks| - 1], pending), toks[|toks| - 1].kind)
  }

  lemma TailOfStarted(y: string, t: Text, k: Kind)
    requires y != ""
    ensures TextStep(Text(t.pending, y + t.bytes), k) == Text(TailStep(t, k).pending, y + TailStep(t, k).bytes)
  {
    assert y + t.bytes + " " == y + (t.bytes + " ");
    match k {
      case Entity(bytes) =>
        assert y + t.bytes + bytes == y + (t.bytes + bytes);
        assert y + (t.bytes + " ") + bytes == y + (t.bytes + " " + bytes);
      case Raw(b) =>
        assert y + t.bytes + [b] == y + (t.bytes + [b]);
        assert y + (t.bytes + " ") + [b] == y + (t.bytes + " " + [b]);
      case _ =>
    }
  }

  lemma {:induction false} StartedRun(toks: seq<Token>, pending: bool, y: string)
    requires y != ""
    ensures TextRun(toks, Text(pending, y)) == Text(Tail(toks, pending).pending, y + Tail(toks, pending).bytes)
  {
    if toks == [] {
      assert y + "" == y;
    } else {
      var front := toks[..|toks| - 1];
      StartedRun(front, pending, y);
      TailOfStarted(y, Tail(front, pending), toks[|toks| - 1].kind);
    }
  }

  /* ----- a stretch that starts and ends with visible bytes ----- */

  /** The stretch starts and ends with a token that has text of its own. */
  predicate Solid(toks: seq<Token>) {
    && toks != []
    && toks[0].kind.IsText() && toks[|toks| - 1].kind.IsText()
    && (toks[0].kind.Entity? ==> toks[0].kind.bytes != "")
  }

  function OwnBytes(k: Kind): string {
    match k case Entity(bytes) => bytes case Raw(b) => [b] case _ => ""
  }

  lemma SolidStep(toks: seq<Token>, t: Text)
    requires Solid(toks)
    ensures TextRun(toks, t) == Text(false, Spaced(t) + OwnBytes(toks[0].kind) + Tail(toks[1..], false).bytes)
  {
    var first, rest := toks[0], toks[1..];
    assert toks == [first] + rest;
    TextRunConcat([first], rest, t);
    TextRunOne(first, t);
    StartedRun(rest, false, Spaced(t) + OwnBytes(first.kind));
  }

  /** A solid stretch contributes its own visible text, whatever precedes it. */
  lemma SolidRun(toks: seq<Token>, t: Text)
    requires Solid(toks)
    ensures TextRun(toks, t) == Text(false, Spaced(t) + TextRun(toks, START).bytes)
    ensures TextRun(toks, START).bytes != "" && !TextRun(toks, START).pending
  {
    assert Spaced(START) == "";
    hide TextRun, Tail, Spaced;
    SolidStep(toks, t);
    SolidStep(toks, START);
    var own, tail := OwnBytes(toks[0].kind), Tail(toks[1..], false).bytes;
    assert Spaced(t) + own + tail == Spaced(t) + (own + tail);
  }
}
