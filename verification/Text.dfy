/** Replacing a passage of visible text inside markup: `replace` and `contains` of text.php. */
module Text {
  import opened Php
  import opened Markup
  import opened Projection
  import ScannerLaws

  datatype Error = EmptyFind | NoVisibleText | NotFound | Ambiguous | Spans(region: Kind)

  datatype Outcome = Replaced(result: string) | Refused(source: string, error: Error) {
    /** The `result` field of the returned array: a refusal hands the source back. */
    function Result(): string { if Replaced? then result else source }
  }

  /** Needles are projected by the same rules, but never treat `[...]` as a shortcode. */
  function Needle(find: string, rules: Rules): (n: string)
    ensures n == "" || (!IsBlank(n[0]) && !IsBlank(n[|n| - 1]))
  {
    Trim(Visible(find, rules.(shortcodes := false)))
  }

  predicate Contains(source: string, find: string, rules: Rules) {
    Needle(find, rules) != "" && Strpos(Visible(source, rules), Needle(find, rules), 0) != -1
  }

  /* ----- the safety check ----- */

  /** Does a skipped region that is not inline formatting overlap [start, end)? */
  predicate Blocks(s: Skip, start: int, end: int) {
    s.kind.IsStructural() && s.end > start && s.start < end
  }

  /** Significance of a region for the reader of the error message: smaller is reported first. */
  function Rank(k: Kind): nat {
    match k
    case Shortcode => 0
    case BlockDelimiter => 1
    case Comment => 2
    case _ => 3
  }

  /** The most significant blocking region; of several equally significant ones, the last. */
  function Worst(skips: seq<Skip>, start: int, end: int): Option<Kind> {
    if skips == [] then None else
      var w, s := Worst(skips[..|skips| - 1], start, end), skips[|skips| - 1];
      if !Blocks(s, start, end) then w
      else if w.Some? && Rank(w.value) < Rank(s.kind) then w
      else Some(s.kind)
  }

  lemma {:induction false} WorstIsExact(skips: seq<Skip>, start: int, end: int)
    ensures Worst(skips, start, end).None? <==> forall j :: 0 <= j < |skips| ==> !Blocks(skips[j], start, end)
    ensures var w := Worst(skips, start, end);
            w.Some? ==>
              && (exists j :: 0 <= j < |skips| && Blocks(skips[j], start, end) && skips[j].kind == w.value)
              && forall j :: 0 <= j < |skips| && Blocks(skips[j], start, end) ==> Rank(w.value) <= Rank(skips[j].kind)
  {
    if skips == [] {
    } else {
      var front := skips[..|skips| - 1];
      WorstIsExact(front, start, end);
      assert forall j :: 0 <= j < |front| ==> skips[j] == front[j];
      var w := Worst(front, start, end);
      if w.Some? {
        var j :| 0 <= j < |front| && Blocks(front[j], start, end) && front[j].kind == w.value;
        assert skips[j].kind == w.value;
      }
    }
  }

  predicate Blocked(skips: seq<Skip>, start: int, end: int, kind: Kind -> bool) {
    exists j :: 0 <= j < |skips| && Blocks(skips[j], start, end) && kind(skips[j].kind)
  }

  /** A shortcode is reported before a block delimiter, that before a comment, and that before a tag. */
  lemma MostTelling(skips: seq<Skip>, start: int, end: int)
    ensures var w := Worst(skips, start, end);
            if Blocked(skips, start, end, (k: Kind) => k.Shortcode?) then w == Some(Shortcode)
            else if Blocked(skips, start, end, (k: Kind) => k.BlockDelimiter?) then w == Some(BlockDelimiter)
            else if Blocked(skips, start, end, (k: Kind) => k.Comment?) then w == Some(Comment)
            else if Blocked(skips, start, end, (k: Kind) => k.BlockTag?) then w.Some? && w.value.BlockTag?
            else w == None
  {
    hide Worst, Blocks;
    WorstIsExact(skips, start, end);
    forall j | 0 <= j < |skips| && Blocks(skips[j], start, end)
      ensures skips[j].kind.IsStructural()
    {
      BlockIsStructural(skips[j], start, end);
    }
  }

  lemma BlockIsStructural(s: Skip, start: int, end: int)
    requires Blocks(s, start, end)
    ensures s.kind.IsStructural()
  {
  }

  /** The last blocking region of one rank: what one slot of `$found` holds after the loop. */
  function LastOf(skips: seq<Skip>, rank: nat, start: int, end: int): Option<Kind> {
    if skips == [] then None else
      var s := skips[|skips| - 1];
      if Blocks(s, start, end) && Rank(s.kind) == rank then Some(s.kind)
      else LastOf(skips[..|skips| - 1], rank, start, end)
  }

  lemma {:induction false} WorstIsFirstSlot(skips: seq<Skip>, start: int, end: int)
    ensures Worst(skips, start, end)
            == var l := r => LastOf(skips, r, start, end);
               if l(0).Some? then l(0) else if l(1).Some? then l(1) else if l(2).Some? then l(2) else l(3)
    ensures forall r :: LastOf(skips, r, start, end).Some? ==> Rank(LastOf(skips, r, start, end).value) == r
  {
    if skips == [] {
    } else {
      WorstIsFirstSlot(skips[..|skips| - 1], start, end);
    }
  }

  method SpansUnsafeRegion(skips: seq<Skip>, start: int, end: int) returns (blocker: Option<Kind>)
    ensures blocker == Worst(skips, start, end)
  {
    var found: map<nat, Kind> := map[];
    for i := 0 to |skips|
      invariant forall r :: r in found <==> LastOf(skips[..i], r, start, end).Some?
      invariant forall r :: r in found ==> found[r] == LastOf(skips[..i], r, start, end).value
    {
      var s := skips[i];
      assert skips[..i + 1][..i] == skips[..i];
      if !(s.end <= start || s.start >= end) && !s.kind.InlineTag? && s.kind.IsSkip() {
        found := found[Rank(s.kind) := s.kind];
      }
    }
    assert skips[..|skips|] == skips;
    WorstIsFirstSlot(skips, start, end);
    for r := 0 to 4
      invariant forall q :: 0 <= q < r ==> q !in found
    {
      if r in found { return Some(found[r]); }
    }
    return None;
  }

  /* ----- replace and contains ----- */

  lemma HitInBounds(source: string, rules: Rules, at: nat, n: nat)
    requires 0 < n && at + n <= |Pairs(source, rules)|
    ensures 0 <= Pairs(source, rules)[at].start < Pairs(source, rules)[at + n - 1].end <= |source|
  {
    hide Pairs;
    ScannerLaws.ScannerInvariant(source, rules);
    var ps := Pairs(source, rules);
    if n > 1 {
      assert ScannerLaws.InOrder(ps[at], ps[at + n - 1]);
    }
  }

  /** What `replace` returns, as one expression. */
  function Edit(source: string, find: string, replacement: string, rules: Rules): Outcome {
    hide Visible, Pairs, Skips, Needle, Worst;
    var vis, needle := Visible(source, rules), Needle(find, rules);
    var at := Strpos(vis, needle, 0);
    if find == "" then Refused(source, EmptyFind)
    else if needle == "" then Refused(source, NoVisibleText)
    else if at == -1 then Refused(source, NotFound)
    else if Strpos(vis, needle, at + 1) != -1 then Refused(source, Ambiguous)
    else
      HitInBounds(source, rules, at, |needle|);
      Splice(source, replacement, Skips(source, rules),
             Pairs(source, rules)[at].start, Pairs(source, rules)[at + |needle| - 1].end)
  }

  function Splice(source: string, replacement: string, skips: seq<Skip>, start: int, end: int): Outcome
    requires 0 <= start < end <= |source|
  {
    var blocker := Worst(skips, start, end);
    if blocker.Some? then Refused(source, Spans(blocker.value))
    else Replaced(source[..start] + replacement + source[end..])
  }

  method Replace(source: string, find: string, replacement: string, rules: Rules) returns (o: Outcome)
    ensures o == Edit(source, find, replacement, rules)
  {
    hide Visible, Pairs, Skips, Worst, Trim, Strpos, OccursAt;
    if find == "" { return Refused(source, EmptyFind); }
    var rendered, pairs, skips := Project(source, rules);
    var plain, _, _ := Project(find, rules.(shortcodes := false));
    var needle := Trim(plain);
    assert needle == Needle(find, rules);
    hide Needle;
    if needle == "" { return Refused(source, NoVisibleText); }
    var at := Strpos(rendered, needle, 0);
    if at == -1 { return Refused(source, NotFound); }
    assert 0 <= at && at + |needle| <= |rendered| by { HitIsInside(rendered, needle); }
    if Strpos(rendered, needle, at + 1) != -1 { return Refused(source, Ambiguous); }
    HitInBounds(source, rules, at, |needle|);
    var start, end := pairs[at].start, pairs[at + |needle| - 1].end;
    var blocker := SpansUnsafeRegion(skips, start, end);
    if blocker.Some? { return Refused(source, Spans(blocker.value)); }
    return Replaced(source[..start] + replacement + source[end..]);
  }

  lemma HitIsInside(vis: string, needle: string)
    ensures Strpos(vis, needle, 0) != -1 ==> 0 <= Strpos(vis, needle, 0) <= |vis| - |needle|
  {
  }

  method CheckContains(source: string, find: string, rules: Rules) returns (found: bool)
    ensures found == Contains(source, find, rules)
  {
    var plain, _, _ := Project(find, rules.(shortcodes := false));
    var needle := Trim(plain);
    if needle == "" { return false; }
    var rendered, _, _ := Project(source, rules);
    return Strpos(rendered, needle, 0) != -1;
  }

  /* ----- the decision is exact ----- */

  /** `needle` occurs in `vis` at `at` and nowhere else, counting overlapping occurrences. */
  ghost predicate Sole(vis: string, needle: string, at: int) {
    OccursAt(vis, needle, at) && forall k :: OccursAt(vis, needle, k) ==> k == at
  }

  predicate Unblocked(source: string, rules: Rules, start: int, end: int) {
    forall j :: 0 <= j < |Skips(source, rules)| ==> !Blocks(Skips(source, rules)[j], start, end)
  }

  /** The condition under which a hit at `at` may be spliced. */
  ghost predicate Admissible(source: string, find: string, rules: Rules, at: int) {
    var needle, ps := Needle(find, rules), Pairs(source, rules);
    && needle != ""
    && Sole(Visible(source, rules), needle, at)
    && Unblocked(source, rules, ps[at].start, ps[at + |needle| - 1].end)
  }

  lemma EmptyFindHasNoNeedle(rules: Rules)
    ensures Needle("", rules) == ""
  {
  }

  lemma SoleByTwoSearches(vis: string, needle: string)
    requires needle != ""
    ensures var at := Strpos(vis, needle, 0);
            (at != -1 && Strpos(vis, needle, at + 1) == -1) <==> exists k :: Sole(vis, needle, k)
    ensures forall k :: Sole(vis, needle, k) ==> k == Strpos(vis, needle, 0)
  {
    var at := Strpos(vis, needle, 0);
    if at != -1 && Strpos(vis, needle, at + 1) == -1 {
      assert Sole(vis, needle, at);
    }
  }

  /**
   * `replace` succeeds exactly on the admissible inputs, splices exactly the mapped span, and
   * otherwise returns the source unchanged.
   */
  lemma ExactDecision(source: string, find: string, replacement: string, rules: Rules)
    ensures Edit(source, find, replacement, rules).Replaced?
            <==> exists at :: Admissible(source, find, rules, at)
    ensures forall at :: Admissible(source, find, rules, at) ==>
              var ps, n := Pairs(source, rules), |Needle(find, rules)|;
              && 0 <= ps[at].start < ps[at + n - 1].end <= |source|
              && Edit(source, find, replacement, rules)
                 == Replaced(source[..ps[at].start] + replacement + source[ps[at + n - 1].end..])
    ensures Edit(source, find, replacement, rules).Refused?
            ==> Edit(source, find, replacement, rules).Result() == source
  {
    hide Needle, Pairs, Skips, Visible, Worst, Strpos;
    var vis, needle := Visible(source, rules), Needle(find, rules);
    EmptyFindHasNoNeedle(rules);
    if needle != "" {
      SoleByTwoSearches(vis, needle);
      var at := Strpos(vis, needle, 0);
      if at != -1 {
        HitInBounds(source, rules, at, |needle|);
        var ps := Pairs(source, rules);
        WorstIsExact(Skips(source, rules), ps[at].start, ps[at + |needle| - 1].end);
        if Edit(source, find, replacement, rules).Replaced? {
          assert Admissible(source, find, rules, at);
        }
      }
    }
  }

  /** Which reason a refusal gives. */
  lemma WhyRefused(source: string, find: string, replacement: string, rules: Rules)
    requires Edit(source, find, replacement, rules).Refused?
    ensures var why := Edit(source, find, replacement, rules).error;
            var vis, needle := Visible(source, rules), Needle(find, rules);
            && (why == EmptyFind <==> find == "")
            && (why == NoVisibleText <==> find != "" && needle == "")
            && (why == NotFound <==> needle != "" && forall k :: !OccursAt(vis, needle, k))
            && (why == Ambiguous
                <==> needle != "" && exists j, k :: j != k && OccursAt(vis, needle, j) && OccursAt(vis, needle, k))
            && (why.Spans? <==> needle != "" && exists k :: Sole(vis, needle, k))
  {
    hide Visible, Needle, Pairs, Skips, Worst, Strpos;
    EmptyFindHasNoNeedle(rules);
    var vis, needle := Visible(source, rules), Needle(find, rules);
    if needle != "" {
      SoleByTwoSearches(vis, needle);
      var at := Strpos(vis, needle, 0);
      if at != -1 {
        assert OccursAt(vis, needle, at);
        var next := Strpos(vis, needle, at + 1);
        if next != -1 {
          assert OccursAt(vis, needle, next);
        }
      }
    }
  }
}
