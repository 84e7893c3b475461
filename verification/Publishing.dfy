/** What a publish that completes leaves on the page, and what staging makes of a computed change. */
module Publishing {
  import opened Php
  import opened Tree
  import opened Slashes
  import opened Builders
  import opened Patch
  import opened Store
  import opened Undo
  import T = Text
  import Oxygen

  /* ----- blocks ----- */

  /** The recorded blocks after the blocks of one instruction were added one by one. */
  function Blocks(m: seq<Item>, id: string, htmls: seq<string>): seq<Item> {
    if htmls == [] then m else
      var n := |htmls| - 1;
      UnslashItems(Assign(Blocks(m, id, htmls[..n]), BlockKey(id, n), Str(htmls[n])))
  }

  lemma {:induction false} BlocksEffect(p: Page, id: string, htmls: seq<string>, n: nat, wp: Wp)
    requires n <= |htmls|
    ensures WroteAll(p, BlockWrites(id, htmls)[..n], wp) == p.(appended := Blocks(p.appended, id, htmls[..n]))
  {
    hide WroteAll, BlockKey, Assign, UnslashItems;
    var ws := BlockWrites(id, htmls);
    if n == 0 {
      assert ws[..0] == [];
      NothingWrote(p, wp);
    } else {
      BlocksEffect(p, id, htmls, n - 1, wp);
      WroteSnoc(p, ws, n - 1, wp);
      assert htmls[..n][..n - 1] == htmls[..n - 1];
    }
  }

  lemma AllBlocks(p: Page, id: string, htmls: seq<string>, wp: Wp)
    ensures WroteAll(p, BlockWrites(id, htmls), wp) == p.(appended := Blocks(p.appended, id, htmls))
  {
    hide WroteAll, BlockKey, Blocks;
    BlocksEffect(p, id, htmls, |htmls|, wp);
    assert BlockWrites(id, htmls)[..|htmls|] == BlockWrites(id, htmls) && htmls[..|htmls|] == htmls;
  }

  /* ----- the stretches of a publish ----- */

  /** A publish that completes, as its five stretches of writes. */
  lemma PublishInSteps(p: Page, c: Change, req: Request, cut: nat, wp: Wp)
    requires ChangeOf(p, req, wp) == Some(c) && cut >= |PublishWrites(p, req, wp)|
    ensures var p1 := WroteAll(p, SnapshotWrites(p, c, req.id), wp);
            var p2 := WroteAll(p1, PostWrites(c.state, c.patch.title, c.titleTaken), wp);
            var p3 := WroteAll(p2, MetaWrites(c.builder, c.state.meta), wp);
            var p4 := WroteAll(p3, BlockWrites(req.id, c.appended), wp);
            Publish(p, req, cut, wp) == WroteAll(p4, [SetSeo(c.patch.seo), ClearStaged], wp)
  {
    hide PostWrites, MetaWrites, BlockWrites, WroteAll, SnapshotWrites, ChangeOf;
    var id := req.id;
    var snap, post := SnapshotWrites(p, c, id), PostWrites(c.state, c.patch.title, c.titleTaken);
    var metas, blocks := MetaWrites(c.builder, c.state.meta), BlockWrites(id, c.appended);
    var end := [SetSeo(c.patch.seo), ClearStaged];
    var all := snap + (post + (metas + (blocks + end)));
    assert all == PublishWrites(p, req, wp);
    assert Cut(all, cut) == all;
    WroteConcat(p, snap, post + (metas + (blocks + end)), wp);
    var p1 := WroteAll(p, snap, wp);
    WroteConcat(p1, post, metas + (blocks + end), wp);
    var p2 := WroteAll(p1, post, wp);
    WroteConcat(p2, metas, blocks + end, wp);
    WroteConcat(WroteAll(p2, metas, wp), blocks, end, wp);
  }

  lemma SnapshotOnly(p: Page, c: Change, id: string, wp: Wp)
    ensures var q := WroteAll(p, SnapshotWrites(p, c, id), wp); q == p.(backup := q.backup)
  {
    var ws := SnapshotWrites(p, c, id);
    if ws != [] {
      assert ws[1..] == [];
    }
  }

  /** Is the title of the patch written? */
  predicate TitleWritten(c: Change) {
    c.patch.title.Some? && (c.state.content.Some? || c.titleTaken)
  }

  lemma PostEffect(p: Page, c: Change, wp: Wp)
    ensures var q := WroteAll(p, PostWrites(c.state, c.patch.title, c.titleTaken), wp);
            && q == p.(content := q.content, title := q.title)
            && q.content == (if c.state.content.Some? then wp.Field(c.state.content.value) else p.content)
            && q.title == (if TitleWritten(c) then wp.Field(c.patch.title.value) else p.title)
  {
    var ws := PostWrites(c.state, c.patch.title, c.titleTaken);
    if ws != [] {
      assert ws[1..] == [];
    }
  }

  lemma EndEffect(p: Page, fields: map<string, string>, wp: Wp)
    ensures WroteAll(p, [SetSeo(fields), ClearStaged], wp) == p.(seo := p.seo + fields, staged := None)
  {
    WroteSnoc(p, [SetSeo(fields), ClearStaged], 0, wp);
    WroteSnoc(p, [SetSeo(fields), ClearStaged], 1, wp);
    NothingWrote(p, wp);
    assert [SetSeo(fields), ClearStaged][..2] == [SetSeo(fields), ClearStaged];
    assert [SetSeo(fields), ClearStaged][..0] == [];
  }

  /** `q` has each of these values as persisting leaves it, and every other meta value as in `p`. */
  ghost predicate Persisted(p: Page, q: Page, b: Builder, m: seq<Item>)
    requires NamedDistinct(m)
  {
    && (forall i :: 0 <= i < |m| ==> m[i].key.s in q.meta && q.meta[m[i].key.s] == Kept(b, m[i].key.s, m[i].value))
    && (forall k: string :: (forall i :: 0 <= i < |m| ==> m[i].key.s != k) ==> GetMeta(q.meta, k) == GetMeta(p.meta, k))
  }

  lemma PersistedElsewhere(p: Page, q: Page, o: Page, s: Page, b: Builder, m: seq<Item>)
    requires NamedDistinct(m) && Persisted(p, q, b, m) && o.meta == p.meta && s.meta == q.meta
    ensures Persisted(o, s, b, m)
  {
  }

  /** The page after a publish that completes. */
  lemma Completed(p: Page, c: Change, req: Request, cut: nat, wp: Wp)
    requires ChangeOf(p, req, wp) == Some(c) && NamedDistinct(c.state.meta) && cut >= |PublishWrites(p, req, wp)|
    ensures var q := Publish(p, req, cut, wp);
            && q.staged.None? && q.seo == p.seo + c.patch.seo
            && q.content == (if c.state.content.Some? then wp.Field(c.state.content.value) else p.content)
            && q.title == (if TitleWritten(c) then wp.Field(c.patch.title.value) else p.title)
            && Persisted(p, q, c.builder, c.state.meta)
            && q.appended == Blocks(p.appended, req.id, c.appended)
  {
    hide PublishWrites, Publish, PostWrites, MetaWrites, BlockWrites, WroteAll, SnapshotWrites,
         Kept, GetMeta, ChangeOf, Blocks;
    PublishInSteps(p, c, req, cut, wp);
    var p1 := WroteAll(p, SnapshotWrites(p, c, req.id), wp);
    SnapshotOnly(p, c, req.id, wp);
    var p2 := WroteAll(p1, PostWrites(c.state, c.patch.title, c.titleTaken), wp);
    PostEffect(p1, c, wp);
    var p3 := WroteAll(p2, MetaWrites(c.builder, c.state.meta), wp);
    PersistEffect(p2, c.builder, c.state.meta, |c.state.meta|, wp);
    MetaWritesAll(c.builder, c.state.meta);
    assert Persisted(p2, p3, c.builder, c.state.meta);
    hide Persisted;
    AllBlocks(p3, req.id, c.appended, wp);
    EndEffect(WroteAll(p3, BlockWrites(req.id, c.appended), wp), c.patch.seo, wp);
    PersistedElsewhere(p2, p3, p, Publish(p, req, cut, wp), c.builder, c.state.meta);
  }

  /** A publish that completes, on a builder that keeps its layout in one meta value. */
  lemma OneMetaCompleted(p: Page, c: Change, req: Request, cut: nat, key: string, v: Node, wp: Wp)
    requires ChangeOf(p, req, wp) == Some(c) && c.state == State(None, [Item(Name(key), v)])
    requires cut >= |PublishWrites(p, req, wp)|
    ensures var q := Publish(p, req, cut, wp);
            && q.staged.None? && q.content == p.content && q.appended == Blocks(p.appended, req.id, c.appended)
            && key in q.meta && q.meta[key] == Kept(c.builder, key, v)
            && forall k: string :: k != key ==> GetMeta(q.meta, k) == GetMeta(p.meta, k)
  {
    hide ChangeOf, Publish, PublishWrites, Kept, Blocks, GetMeta;
    var m := c.state.meta;
    assert m[0].key.s == key;
    Completed(p, c, req, cut, wp);
  }

  /* ----- the shape of a computed change ----- */

  lemma AssignNamed(m: seq<Item>, k: string, v: Node)
    requires NamedDistinct(m)
    ensures NamedDistinct(Assign(m, Name(k), v))
  {
  }

  lemma UnsetNamed(m: seq<Item>, k: string)
    requires NamedDistinct(m)
    ensures NamedDistinct(Unset(m, Name(k)))
  {
  }

  lemma UnslashNamed(m: seq<Item>)
    requires NamedDistinct(m)
    ensures NamedDistinct(UnslashItems(m))
  {
    hide Unslash, UnslashItems;
    forall i | 0 <= i < |m|
      ensures UnslashItems(m)[i].key == m[i].key
    {
      UnslashItemAt(m, i);
    }
  }

  lemma ReplaceNamed(b: Builder, s: State, find: string, replacement: string, host: Host)
    requires NamedDistinct(s.meta)
    ensures NamedDistinct(Builders.Replace(b, s, find, replacement, host).state.meta)
  {
    hide Assign, Unset, NamedDistinct, MetaOf, T.Edit, Tree.Edit, ElementorTree, Oxygen.DecodeJson, AsString, Truthy,
         ContentOf, TextRules, AddLayers;
    forall k: string, v: Node
      ensures NamedDistinct(Assign(s.meta, Name(k), v))
    {
      AssignNamed(s.meta, k, v);
    }
    match b {
      case Elementor =>
        if ElementorTree(s, host).Some? {
          var tree := Tree.Edit(ElementorTree(s, host).value, find, replacement, host.entity).data;
          AssignNamed(s.meta, ELEMENTOR_META, Str(host.json.encode(tree)));
        }
      case OxygenBuilder =>
        var (decoded, depth) := Oxygen.DecodeJson(AsString(MetaOf(s, JSON_META)), host.json);
        if decoded.Some? {
          var tree := Tree.Edit(decoded.value, find, replacement, host.entity).data;
          var meta := Assign(s.meta, Name(JSON_META), Str(AddLayers(host.json.encode(tree), depth)));
          AssignNamed(s.meta, JSON_META, Str(AddLayers(host.json.encode(tree), depth)));
          UnsetNamed(meta, SHORT_META);
        }
      case _ =>
    }
  }

  lemma AppendNamed(b: Builder, s: State, html: string, ids: Ids, host: Host)
    requires NamedDistinct(s.meta)
    ensures NamedDistinct(Append(b, s, html, ids, host).state.meta)
  {
    hide Assign, NamedDistinct, MetaOf, ElementorSection, BricksElement, Push;
    forall k: string, v: Node
      ensures NamedDistinct(Assign(s.meta, Name(k), v))
    {
      AssignNamed(s.meta, k, v);
    }
  }

  /** A computed change writes each meta key once and hands on at most one block. */
  lemma ComputedShape(post: Post, patch: ContentPatch, ids: Ids, host: Host)
    requires Compute(post, patch, ids, host).Built?
    ensures NamedDistinct(Compute(post, patch, ids, host).state.meta) && |Compute(post, patch, ids, host).appended| <= 1
  {
    hide ForPost, Read, Builders.Replace, Append, NamedDistinct;
    var b := ForPost(post);
    var start := Read(b, post);
    ReadShape(b, post);
    var s := if patch.bodyHtml.Some? then start.(content := patch.bodyHtml) else start;
    if patch.bodyReplace.Some? {
      ReplaceNamed(b, s, patch.bodyReplace.value.find, patch.bodyReplace.value.replace, host);
    }
    if patch.bodyAppend.Some? {
      AppendNamed(b, BeforeAppend(b, start, patch, host).state, patch.bodyAppend.value, ids, host);
    }
  }

  /** What a publish of the record writes. */
  function StagedChange(r: Staged, titleTaken: bool): Change {
    Change(r.builder, r.state, r.appended, r.patch, titleTaken)
  }

  /** What staging makes: its title is the title of its patch, and the rest is as in a computed change. */
  predicate FromStaging(r: Staged) {
    r.title == r.patch.title.GetOr("") && NamedDistinct(r.state.meta) && |r.appended| <= 1
  }

  lemma StageMakesSuch(p: Page, req: Request, token: string, now: int, wp: Wp)
    requires Compute(PostOf(p), req.patch, req.ids, wp.host).Built?
    ensures Stage(p, req, token, now, wp).staged.Some? && FromStaging(Stage(p, req, token, now, wp).staged.value)
  {
    hide Compute, NamedDistinct;
    ComputedShape(PostOf(p), req.patch, req.ids, wp.host);
    UnslashNamed(Compute(PostOf(p), req.patch, req.ids, wp.host).state.meta);
    assert StripSlashes("") == "";
  }
}
