/** `Lvx_Patch::build`: from a content patch to a new builder state, or a refusal. */
module Patch {
  import opened Php
  import opened Tree
  import opened Builders

  datatype Replacement = Replacement(find: string, replace: string)

  /** A content patch; `None` is a key that is not set. */
  datatype ContentPatch = ContentPatch(
    bodyHtml: Option<string>, bodyReplace: Option<Replacement>, bodyAppend: Option<string>,
    title: Option<string>, seo: map<string, string>)

  datatype PatchError =
    | WouldDestroyLayout(b: Builder)
    | ReplaceFailed(b: Builder, why: Error)
    | NowhereToAppend(b: Builder, why: Error)

  datatype Built =
    | Built(builder: Builder, state: State, appended: seq<string>, native: bool)
    | Failed(builder: Builder, state: State, error: PatchError)

  /** `build` as the code runs it: three optional steps over one state. */
  method Build(post: Post, patch: ContentPatch, ids: Ids, host: Host) returns (r: Built)
    ensures r == Compute(post, patch, ids, host)
  {
    hide Read, Builders.Replace, Append, ForPost;
    var builder := ForPost(post);
    var state := Read(builder, post);
    var appended: seq<string> := [];
    var native := true;
    if patch.bodyHtml.Some? {
      if state.content.None? {
        return Failed(builder, state, WouldDestroyLayout(builder));
      }
      state := state.(content := patch.bodyHtml);
    }
    if patch.bodyReplace.Some? {
      var replaced := Builders.Replace(builder, state, patch.bodyReplace.value.find, patch.bodyReplace.value.replace,
                                       host);
      if replaced.Bad? {
        return Failed(builder, state, ReplaceFailed(builder, replaced.error));
      }
      state := replaced.state;
    }
    if patch.bodyAppend.Some? {
      var html := patch.bodyAppend.value;
      var added := Append(builder, state, html, ids, host);
      if added.Ok? {
        state := added.state;
      } else if RendersTheContent(builder) {
        appended := appended + [html];
        native := false;
      } else {
        return Failed(builder, state, NowhereToAppend(builder, added.error));
      }
    }
    return Built(builder, state, appended, native);
  }

  /** The state once the body and the replacement of the patch are in, if both are accepted. */
  function BeforeAppend(b: Builder, start: State, patch: ContentPatch, host: Host): Result {
    if patch.bodyHtml.Some? && start.content.None? then Bad(start, NoContent)
    else
      var s := if patch.bodyHtml.Some? then start.(content := patch.bodyHtml) else start;
      if patch.bodyReplace.None? then Ok(s)
      else
        var r := Builders.Replace(b, s, patch.bodyReplace.value.find, patch.bodyReplace.value.replace, host);
        if r.Ok? then r else Bad(s, r.error)
  }

  function Compute(post: Post, patch: ContentPatch, ids: Ids, host: Host): Built {
    var b := ForPost(post);
    var start := Read(b, post);
    match BeforeAppend(b, start, patch, host)
    case Bad(s, e) =>
      Failed(b, s, if patch.bodyHtml.Some? && start.content.None? then WouldDestroyLayout(b) else ReplaceFailed(b, e))
    case Ok(s) =>
      if patch.bodyAppend.None? then Built(b, s, [], true)
      else
        var html := patch.bodyAppend.value;
        match Append(b, s, html, ids, host)
        case Ok(t) => Built(b, t, [], true)
        case Bad(_, e) =>
          if RendersTheContent(b) then Built(b, s, [html], false) else Failed(b, s, NowhereToAppend(b, e))
  }

  /* ----- what the adapters keep ----- */

  /** The body is null exactly on the builders that keep their layout elsewhere, through every step. */
  lemma NullBodyStaysNull(b: Builder, post: Post, s: State, find: string, replacement: string,
                          html: string, ids: Ids, host: Host)
    ensures Read(b, post).content.None? <==> !InContent(b)
    ensures (s.content.None? <==> !InContent(b)) ==>
              (Builders.Replace(b, s, find, replacement, host).state.content.None? <==> !InContent(b))
    ensures (s.content.None? <==> !InContent(b)) ==>
              (Append(b, s, html, ids, host).state.content.None? <==> !InContent(b))
  {
  }

  /* ----- no silent append ----- */

  const SECTION_HTML: Path := [Name("elements"), Index(0), Name("elements"), Index(0), Name("settings"), Name("html")]
  const ELEMENT_TEXT: Path := [Name("settings"), Name("text")]

  /** `after` is `before` with one new last entry, under a key of its own, that holds `html` at `p`. */
  predicate PushedLast(before: seq<Item>, after: seq<Item>, p: Path, html: string) {
    && |after| == |before| + 1 && after[..|before|] == before
    && IndexOf(before, after[|before|].key) == -1
    && At(after[|before|].value, p) == Some(Str(html))
  }

  /** `after` is `before` without its trailing whitespace, a blank line, and the block inside `open` and `close`. */
  predicate WrittenLast(before: string, after: string, open: string, html: string, close: string) {
    var kept := |after| - |"\n\n" + open + html + close|;
    && 0 <= kept <= |before|
    && after == before[..kept] + "\n\n" + open + html + close
    && (forall k :: kept <= k < |before| ==> IsBlank(before[k]))
  }

  /** The block is the last thing in the builder's own content, and everything before it was there. */
  ghost predicate Placed(b: Builder, s: State, t: State, html: string, host: Host) {
    if InContent(b) then
      t.meta == s.meta && t.content.Some? && WrittenLast(ContentOf(s), t.content.value, Opening(b), html, Closing(b))
    else if b.Elementor? then
      var tree := ElementorTree(s, host);
      t.content == s.content && tree.Some? && tree.value.Arr?
      && exists after ::
           MetaOf(t, ELEMENTOR_META) == Str(host.json.encode(Arr(after)))
           && PushedLast(tree.value.items, after, SECTION_HTML, html)
    else
      b.Bricks? && t.content == s.content
      && MetaOf(s, BRICKS_META).Arr? && MetaOf(t, BRICKS_META).Arr?
      && PushedLast(MetaOf(s, BRICKS_META).items, MetaOf(t, BRICKS_META).items, ELEMENT_TEXT, html)
  }

  lemma {:induction false} NextIndexFresh(items: seq<Item>)
    ensures forall i :: 0 <= i < |items| && items[i].key.Index? ==> items[i].key.n < NextIndex(items)
    ensures IndexOf(items, Index(NextIndex(items))) == -1
  {
    if items == [] {
    } else {
      NextIndexFresh(items[1..]);
      assert forall i :: 0 < i < |items| ==> items[i] == items[1..][i - 1];
    }
  }

  lemma {:induction false} IndexOfConcat(a: seq<Item>, b: seq<Item>, k: Key)
    ensures IndexOf(a + b, k)
            == if IndexOf(a, k) != -1 then IndexOf(a, k)
               else if IndexOf(b, k) != -1 then |a| + IndexOf(b, k) else -1
  {
    var c := a + b;
    var i, j, r := IndexOf(a, k), IndexOf(b, k), IndexOf(c, k);
    assert forall n :: 0 <= n < |a| ==> c[n] == a[n];
    assert forall n :: 0 <= n < |b| ==> c[|a| + n] == b[n];
    if i != -1 {
      assert c[i].key == k;
    } else if j != -1 {
      assert c[|a| + j].key == k;
      assert r < |a| ==> r == -1;
      assert b[r - |a|].key == k;
    }
  }

  lemma AssignGet(s: State, key: string, v: Node)
    ensures MetaOf(s.(meta := Assign(s.meta, Name(key), v)), key) == v
  {
    var i := IndexOf(s.meta, Name(key));
    if i == -1 {
      IndexOfConcat(s.meta, [Item(Name(key), v)], Name(key));
    } else {
      IndexOfUpdate(s.meta, i, v, Name(key));
    }
  }

  lemma FieldAt(fs: seq<(string, Node)>, i: nat)
    requires i < |fs| && forall j :: 0 <= j < i ==> fs[j].0 != fs[i].0
    ensures Child(Arr(Fields(fs)), Name(fs[i].0)) == Some(fs[i].1)
  {
    var items := Fields(fs);
    assert items[i].key == Name(fs[i].0);
    assert forall j :: 0 <= j < i ==> items[j].key == Name(fs[j].0);
  }

  lemma AtField(fs: seq<(string, Node)>, i: nat, p: Path)
    requires i < |fs| && forall j :: 0 <= j < i ==> fs[j].0 != fs[i].0
    ensures At(Arr(Fields(fs)), [Name(fs[i].0)] + p) == At(fs[i].1, p)
  {
    FieldAt(fs, i);
    assert ([Name(fs[i].0)] + p)[1..] == p;
  }

  lemma AtOnly(v: Node, p: Path)
    ensures At(Arr(List([v])), [Index(0)] + p) == At(v, p)
  {
    assert List([v])[0] == Item(Index(0), v);
    assert ([Index(0)] + p)[1..] == p;
  }

  lemma BricksHolds(html: string, ids: Ids)
    ensures At(BricksElement(html, ids), ELEMENT_TEXT) == Some(Str(html))
  {
    var settings := [("text", Str(html))];
    var element := [("id", Str(ids.outer)), ("name", Str("text-basic")), ("parent", Num(0.0)),
      ("children", Arr([])), ("settings", Arr(Fields(settings)))];
    AtField(settings, 0, []);
    AtField(element, 4, [Name("text")]);
    assert [Name("settings")] + [Name("text")] == ELEMENT_TEXT;
    assert [Name("text")] + [] == [Name("text")];
  }

  lemma SectionHolds(html: string, ids: Ids)
    ensures At(ElementorSection(html, ids), SECTION_HTML) == Some(Str(html))
  {
    var settings := [("html", Str(html))];
    var widget := [("id", Str(ids.widget)), ("elType", Str("widget")),
      ("widgetType", Str("html")), ("settings", Arr(Fields(settings))), ("elements", Arr([]))];
    var column := [("id", Str(ids.column)), ("elType", Str("column")),
      ("settings", Arr(Fields([("_column_size", Num(100.0)), ("_inline_size", Null)]))),
      ("elements", Arr(List([Arr(Fields(widget))])))];
    var section := [("id", Str(ids.outer)), ("elType", Str("section")), ("settings", Obj([])),
      ("elements", Arr(List([Arr(Fields(column))])))];
    var p1 := [Name("html")];
    var p2 := [Name("settings")] + p1;
    var p3 := [Name("elements")] + ([Index(0)] + p2);
    AtField(settings, 0, []);
    assert [Name("html")] + [] == p1;
    AtField(widget, 3, p1);
    AtOnly(Arr(Fields(widget)), p2);
    AtField(column, 3, [Index(0)] + p2);
    AtOnly(Arr(Fields(column)), p3);
    AtField(section, 3, [Index(0)] + p3);
    assert [Name("elements")] + ([Index(0)] + p3) == SECTION_HTML;
    assert ElementorSection(html, ids) == Arr(Fields(section));
  }

  /** A field of the only child, and of the only grandchild. */
  lemma FieldInside(outer: seq<(string, Node)>, inner: seq<(string, Node)>, i: nat)
    requires |outer| == 4 && outer[3] == ("elements", Arr(List([Arr(Fields(inner))])))
    requires forall j :: 0 <= j < 3 ==> outer[j].0 != "elements"
    requires i < |inner| && forall j :: 0 <= j < i ==> inner[j].0 != inner[i].0
    ensures At(Arr(Fields(outer)), [Name("elements"), Index(0), Name(inner[i].0)]) == Some(inner[i].1)
  {
    hide Fields, List, Child;
    FieldAt(inner, i);
    AtKey(Arr(Fields(inner)), Name(inner[i].0));
    AtOnly(Arr(Fields(inner)), [Name(inner[i].0)]);
    AtField(outer, 3, [Index(0)] + [Name(inner[i].0)]);
    assert [Name("elements")] + ([Index(0)] + [Name(inner[i].0)]) == [Name("elements"), Index(0), Name(inner[i].0)];
  }

  lemma WidgetInside(outer: seq<(string, Node)>, mid: seq<(string, Node)>, inner: seq<(string, Node)>, i: nat)
    requires |outer| == 4 && outer[3] == ("elements", Arr(List([Arr(Fields(mid))])))
    requires |mid| == 4 && mid[3] == ("elements", Arr(List([Arr(Fields(inner))])))
    requires forall j :: 0 <= j < 3 ==> outer[j].0 != "elements" && mid[j].0 != "elements"
    requires i < |inner| && forall j :: 0 <= j < i ==> inner[j].0 != inner[i].0
    ensures At(Arr(Fields(outer)), [Name("elements"), Index(0), Name("elements"), Index(0), Name(inner[i].0)])
            == Some(inner[i].1)
  {
    hide Fields, List, Child;
    FieldInside(mid, inner, i);
    var p := [Name("elements"), Index(0), Name(inner[i].0)];
    AtOnly(Arr(Fields(mid)), p);
    AtField(outer, 3, [Index(0)] + p);
    assert [Name("elements")] + ([Index(0)] + p)
           == [Name("elements"), Index(0), Name("elements"), Index(0), Name(inner[i].0)];
  }

  lemma AtKey(node: Node, k: Key)
    ensures At(node, [k]) == Child(node, k)
  {
    if Child(node, k).Some? {
      assert [k][1..] == [];
    }
  }

  /** The appended section is one: with a column in it, and in that an HTML widget. */
  lemma SectionShape(html: string, ids: Ids)
    ensures var section := ElementorSection(html, ids);
            && Child(section, Name("elType")) == Some(Str("section"))
            && At(section, [Name("elements"), Index(0), Name("elType")]) == Some(Str("column"))
            && At(section, [Name("elements"), Index(0), Name("elements"), Index(0), Name("elType")])
               == Some(Str("widget"))
            && At(section, [Name("elements"), Index(0), Name("elements"), Index(0), Name("widgetType")])
               == Some(Str("html"))
  {
    var settings := [("html", Str(html))];
    var widget := [("id", Str(ids.widget)), ("elType", Str("widget")),
      ("widgetType", Str("html")), ("settings", Arr(Fields(settings))), ("elements", Arr([]))];
    var column := [("id", Str(ids.column)), ("elType", Str("column")),
      ("settings", Arr(Fields([("_column_size", Num(100.0)), ("_inline_size", Null)]))),
      ("elements", Arr(List([Arr(Fields(widget))])))];
    var section := [("id", Str(ids.outer)), ("elType", Str("section")), ("settings", Obj([])),
      ("elements", Arr(List([Arr(Fields(column))])))];
    assert ElementorSection(html, ids) == Arr(Fields(section));
    hide Fields, List, Child, At, ElementorSection;
    FieldAt(section, 1);
    FieldInside(section, column, 1);
    WidgetInside(section, column, widget, 1);
    WidgetInside(section, column, widget, 2);
  }

  /** And the appended element is a text element at the root. */
  lemma ElementShape(html: string, ids: Ids)
    ensures var element := BricksElement(html, ids);
            && Child(element, Name("name")) == Some(Str("text-basic"))
            && Child(element, Name("parent")) == Some(Num(0.0)) && Child(element, Name("children")) == Some(Arr([]))
  {
    var element := [("id", Str(ids.outer)), ("name", Str("text-basic")), ("parent", Num(0.0)),
      ("children", Arr([])), ("settings", Arr(Fields([("text", Str(html))])))];
    assert BricksElement(html, ids) == Arr(Fields(element));
    hide Fields, Child, BricksElement;
    FieldAt(element, 1);
    FieldAt(element, 2);
    FieldAt(element, 3);
  }

  lemma PushIsLast(items: seq<Item>, v: Node, p: Path, html: string)
    requires At(v, p) == Some(Str(html))
    ensures PushedLast(items, Push(items, v), p, html)
  {
    NextIndexFresh(items);
  }

  lemma RtrimIsKept(before: string, open: string, html: string, close: string)
    ensures WrittenLast(before, Rtrim(before) + "\n\n" + (open + html + close), open, html, close)
  {
    var kept := Rtrim(before);
    assert kept + "\n\n" + (open + html + close) == kept + "\n\n" + open + html + close;
  }

  /** A native append keeps the content and puts the block last in it. */
  lemma AppendPlaces(b: Builder, s: State, html: string, ids: Ids, host: Host)
    requires Append(b, s, html, ids, host).Ok?
    ensures Placed(b, s, Append(b, s, html, ids, host).state, html, host)
  {
    hide ElementorSection, BricksElement, Push, Assign, WrittenLast, PushedLast, At, MetaOf;
    if InContent(b) {
      hide Opening, Closing;
      RtrimIsKept(ContentOf(s), Opening(b), html, Closing(b));
    } else if b.Elementor? {
      var items := ElementorTree(s, host).value.items;
      SectionHolds(html, ids);
      PushIsLast(items, ElementorSection(html, ids), SECTION_HTML, html);
      AssignGet(s, ELEMENTOR_META, Str(host.json.encode(Arr(Push(items, ElementorSection(html, ids))))));
    } else {
      var items := MetaOf(s, BRICKS_META).items;
      BricksHolds(html, ids);
      PushIsLast(items, BricksElement(html, ids), ELEMENT_TEXT, html);
      AssignGet(s, BRICKS_META, Arr(Push(items, BricksElement(html, ids))));
    }
  }

  /** Can the builder take a block into its own content? */
  predicate AppendsNatively(b: Builder, s: State, host: Host) {
    InContent(b) || (b.Elementor? && ElementorTree(s, host).Some?) || (b.Bricks? && MetaOf(s, BRICKS_META).Arr?)
  }

  /**
   * A successful build with a block to append never loses it: the block is placed last in the
   * builder's own content, or it is handed on for `the_content` on a builder that runs it.
   * What was null stays null.
   */
  lemma NoSilentAppend(post: Post, patch: ContentPatch, ids: Ids, host: Host)
    requires patch.bodyAppend.Some? && Compute(post, patch, ids, host).Built?
    ensures var r := Compute(post, patch, ids, host);
            var s := BeforeAppend(r.builder, Read(r.builder, post), patch, host);
            && r.builder == ForPost(post) && s.Ok?
            && (if r.native
                then r.appended == [] && Placed(r.builder, s.state, r.state, patch.bodyAppend.value, host)
                else r.appended == [patch.bodyAppend.value] && RendersTheContent(r.builder) && r.state == s.state)
            && (r.native <==> AppendsNatively(r.builder, s.state, host))
            && (r.state.content.None? <==> Read(r.builder, post).content.None?)
  {
    hide Placed, Read, Builders.Replace, MetaOf, ForPost;
    var b := ForPost(post);
    var start := Read(b, post);
    var s := BeforeAppend(b, start, patch, host).state;
    if Append(b, s, patch.bodyAppend.value, ids, host).Ok? {
      AppendPlaces(b, s, patch.bodyAppend.value, ids, host);
    }
    KindThroughBuild(b, post, patch, ids, host);
  }

  lemma KindThroughBuild(b: Builder, post: Post, patch: ContentPatch, ids: Ids, host: Host)
    requires patch.bodyAppend.Some?
    ensures var s := BeforeAppend(b, Read(b, post), patch, host);
            s.Ok? ==>
              && (s.state.content.None? <==> Read(b, post).content.None?)
              && (Append(b, s.state, patch.bodyAppend.value, ids, host).state.content.None? <==> s.state.content.None?)
  {
    hide Builders.Replace, Read, Append;
    var start := Read(b, post);
    var s := if patch.bodyHtml.Some? then start.(content := patch.bodyHtml) else start;
    var find := if patch.bodyReplace.Some? then patch.bodyReplace.value.find else "";
    var replacement := if patch.bodyReplace.Some? then patch.bodyReplace.value.replace else "";
    NullBodyStaysNull(b, post, s, find, replacement, "", ids, host);
    var o := BeforeAppend(b, start, patch, host);
    NullBodyStaysNull(b, post, o.state, "", "", patch.bodyAppend.value, ids, host);
  }

  /**
   * A build is refused exactly when a full body is asked for where there is none, when the
   * replacement is refused, or when a block has neither a native place nor `the_content`.
   */
  lemma BuildDecision(post: Post, patch: ContentPatch, ids: Ids, host: Host)
    ensures var b := ForPost(post);
            var s := BeforeAppend(b, Read(b, post), patch, host);
            Compute(post, patch, ids, host).Built?
            <==> s.Ok? && (patch.bodyAppend.None? || AppendsNatively(b, s.state, host) || RendersTheContent(b))
    ensures Compute(post, patch, ids, host).Built? && patch.bodyHtml.Some? ==> InContent(ForPost(post))
    ensures ForPost(post).OxygenBuilder? && patch.bodyAppend.Some? ==> Compute(post, patch, ids, host).Failed?
  {
    hide Builders.Replace, MetaOf, ForPost;
  }
}
