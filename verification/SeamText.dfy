/** What a character reference that forms across a seam does to the visible text. */
module SeamText {
  import opened Markup
  import opened Locality
  import opened Rendering
  import opened Seams

  lemma {:induction false} BytesConcat(u: string, v: string)
    ensures Bytes(u + v) == Bytes(u) + Bytes(v)
  {
    hide Bytes;
    var all, parts := Bytes(u + v), Bytes(u) + Bytes(v);
    assert forall k :: 0 <= k < |all| ==> all[k] == parts[k];
  }

  /** Bytes that stand for themselves are shown as they are, after a pending space. */
  lemma {:induction false} BytesRun(w: string, t: Text)
    requires w != ""
    ensures TextRun(Bytes(w), t) == Text(false, Spaced(t) + w)
    decreases |w|
  {
    hide Bytes;
    var toks, n := Bytes(w), |w|;
    if n == 1 {
      assert toks == [Token(Raw(w[0]), [w[0]])];
      TextRunOne(toks[0], t);
      assert w == [w[0]];
    } else {
      BytesFront(w);
      BytesRun(w[..n - 1], t);
      assert Spaced(t) + w[..n - 1] + [w[n - 1]] == Spaced(t) + w;
    }
  }

  lemma BytesFront(w: string)
    requires |w| > 0
    ensures Bytes(w)[..|w| - 1] == Bytes(w[..|w| - 1])
  {
    hide Bytes;
    var front := w[..|w| - 1];
    assert forall k :: 0 <= k < |front| ==> Bytes(w)[k] == Bytes(front)[k];
  }

  /** A pending space before a stretch shows as one space at most. */
  lemma {:induction false} PendingCosts(toks: seq<Token>)
    ensures var p, q := Tail(toks, true), Tail(toks, false);
            && (q.pending ==> p.pending)
            && |q.bytes| <= |p.bytes|
            && |p.bytes| + (if p.pending then 1 else 0) <= |q.bytes| + (if q.pending then 1 else 0) + 1
  {
    if toks == [] {
    } else {
      PendingCosts(toks[..|toks| - 1]);
    }
  }

  /** From any state a stretch shows no more than it shows after something visible. */
  lemma {:induction false} ShownAtMost(toks: seq<Token>, t: Text)
    ensures |TextRun(toks, t).bytes| <= |t.bytes| + |Tail(toks, t.pending).bytes|
    ensures TextRun(toks, t).pending == Tail(toks, t.pending).pending
  {
    if toks == [] {
    } else {
      ShownAtMost(toks[..|toks| - 1], t);
    }
  }

  /** Bytes read as one reference, against the same bytes read one by one. */
  lemma ReferenceShowsOther(front: Text, w: string, rest: seq<Token>, rules: Rules)
    requires |w| >= 4 && Decodes(w, rules)
    ensures TextRun(rest, TextStep(front, ReferenceToken(w, rules).kind)).bytes
            != TextRun(rest, Text(false, Spaced(front) + w)).bytes
  {
    hide TextRun, Tail, AllBlankOrNbsp;
    var decoded := rules.entity(w);
    StartedRun(rest, false, Spaced(front) + w);
    if ReferenceToken(w, rules).kind.SpaceEntity? {
      ShownAtMost(rest, Text(true, Spaced(front)));
      PendingCosts(rest);
    } else {
      StartedRun(rest, false, Spaced(front) + decoded);
      Between(Spaced(front), w, decoded, Tail(rest, false).bytes);
    }
  }

  lemma Between(x: string, u: string, v: string, z: string)
    requires u != v
    ensures x + u + z != x + v + z
  {
    if x + u + z == x + v + z {
      Cancel(x, u, v, z);
    }
  }

  lemma Cancel(x: string, u: string, v: string, z: string)
    requires x + u + z == x + v + z
    ensures u == v
  {
    assert |u| == |v|;
    assert u == (x + u + z)[|x|..|x| + |u|] == (x + v + z)[|x|..|x| + |v|] == v;
  }

  /**
   * For every decoder: two stretches show together what they show one after the other if and
   * only if no reference that the decoder changes forms across the seam.
   */
  lemma SeamIsExact(a: string, y: string, rules: Rules, t: Text)
    requires Closed(a, rules)
    ensures TextRun(Tokens(a + y, rules), t).bytes == TextRun(Tokens(a, rules) + Tokens(y, rules), t).bytes
            <==> NoSeam(a, y, rules)
  {
    hide Tokens, TextRun, Closed, SeamAt, Bytes, Decodes, ReferenceToken, Spaced, TextStep;
    if NoSeam(a, y, rules) {
      Joined(a, y, rules);
    } else {
      var j :| 0 <= j < |a| && SeamAt(a, y, rules, j);
      var front, w, k := SeamTokens(a, y, rules, j);
      var rest, token := Tokens(y[k..], rules), ReferenceToken(w, rules);
      TextRunConcat(front + [token], rest, t);
      TextRunConcat(front, [token], t);
      TextRunOne(token, TextRun(front, t));
      BytesConcat(a[j..], y[..k]);
      Regroup(front, Bytes(a[j..]), Bytes(y[..k]), rest);
      TextRunConcat(front + Bytes(w), rest, t);
      TextRunConcat(front, Bytes(w), t);
      BytesRun(w, TextRun(front, t));
      ReferenceShowsOther(TextRun(front, t), w, rest, rules);
    }
  }

  lemma Regroup(a: seq<Token>, b: seq<Token>, c: seq<Token>, d: seq<Token>)
    ensures (a + b) + (c + d) == a + (b + c) + d
  {
  }
}
