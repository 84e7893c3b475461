/** The preview overlay: what the filters serve for a staged page, and what publishing makes of it. */
module Preview {
  import opened Php
  import opened Tree
  import opened Slashes
  import opened Builders
  import opened Patch
  import opened Store
  import opened Undo
  import opened Publishing
  import C = Connector
  import CrashRedo

  /* ----- the filters ----- */

  function ViewContent(p: Page, active: bool): string {
    if active && p.staged.Some? && p.staged.value.state.content.Some? then p.staged.value.state.content.value
    else p.content
  }

  function ViewMeta(p: Page, key: string, active: bool): Node {
    if active && p.staged.Some? && MetaOf(p.staged.value.state, key) != Null
    then MetaOf(p.staged.value.state, key) else GetMeta(p.meta, key)
  }

  function ViewTitle(p: Page, active: bool): string {
    if active && p.staged.Some? && !IsEmpty(p.staged.value.title) then p.staged.value.title else p.title
  }

  function OneValue(v: Node): Node {
    Arr([Item(Index(0), v)])
  }

  function Htmls(blocks: seq<Item>): seq<string> {
    seq(|blocks|, i requires 0 <= i < |blocks| => AsString(blocks[i].value))
  }

  /** The blocks that `append_blocks` renders after the content, in order. */
  function ViewBlocks(p: Page, active: bool): seq<string> {
    Htmls(p.appended) + if active && p.staged.Some? then p.staged.value.appended else []
  }

  /** Does this request open the preview? */
  predicate Opens(p: Page, token: string, now: int) {
    && !IsEmpty(token) && p.staged.Some? && !IsEmpty(p.staged.value.token)
    && token == p.staged.value.token
    && (p.staged.value.expires == 0 || now <= p.staged.value.expires)
  }

  /** One request: `detect` may switch the overlay on, the filters read it. */
  class Viewer {
    const site: C.Site
    var active: bool

    constructor (site: C.Site)
      ensures this.site == site && !active
    {
      this.site := site;
      active := false;
    }

    method Detect(token: string, now: int)
      modifies this`active
      ensures active == (old(active) || Opens(site.Now(), token, now))
    {
      if IsEmpty(token) { return; }
      if site.staged.None? || IsEmpty(site.staged.value.token) { return; }
      var record := site.staged.value;
      if record.token != token { return; }
      if record.expires != 0 && now > record.expires { return; }
      active := true;
    }

    method FilterContent(content: string) returns (r: string)
      ensures r == ViewContent(site.Now().(content := content), active)
    {
      if !active || site.staged.None? { return content; }
      var s := site.staged.value.state;
      return if s.content.Some? then s.content.value else content;
    }

    /** With `single` the value itself is asked for, otherwise the list of the values of the key. */
    method FilterMeta(value: Node, key: string, single: bool) returns (r: Node)
      ensures single ==> r == ViewMeta(site.Now().(meta := site.meta[key := value]), key, active)
      ensures !single && value == OneValue(GetMeta(site.meta, key)) ==> r == OneValue(ViewMeta(site.Now(), key, active))
      ensures !single ==> r == value || (active && r == OneValue(ViewMeta(site.Now(), key, true)))
    {
      if !active || site.staged.None? { return value; }
      var staged := MetaOf(site.staged.value.state, key);
      if staged == Null { return value; }
      return if single then staged else OneValue(staged);
    }

    method FilterTitle(title: string) returns (r: string)
      ensures r == ViewTitle(site.Now().(title := title), active)
    {
      if !active || site.staged.None? { return title; }
      return if IsEmpty(site.staged.value.title) then title else site.staged.value.title;
    }

    method AppendBlocks(content: string) returns (r: string)
      ensures r == Rendered(content, ViewBlocks(site.Now(), active))
    {
      var blocks := Htmls(site.appended);
      blocks := blocks + if active && site.staged.Some? then site.staged.value.appended else [];
      r := content;
      for i := 0 to |blocks|
        invariant r == Rendered(content, blocks[..i])
      {
        assert blocks[..i + 1][..i] == blocks[..i];
        r := r + "\n" + blocks[i];
      }
      assert blocks[..|blocks|] == blocks;
    }
  }

  /** The content and each block on a line of its own. */
  function Rendered(content: string, blocks: seq<string>): string {
    if blocks == [] then content else Rendered(content, blocks[..|blocks| - 1]) + "\n" + blocks[|blocks| - 1]
  }

  /** Two blocks come after the content, each after a line break. */
  lemma RenderedIs(content: string, first: string, second: string)
    ensures Rendered(content, []) == content && Rendered(content, [first]) == content + "\n" + first
    ensures Rendered(content, [first, second]) == content + "\n" + first + "\n" + second
  {
    assert [first][..0] == [] && [first, second][..1] == [first];
  }

  /* ----- staging ----- */

  /** Staging shows nothing to anybody without the token, and to its holder for fourteen days. */
  lemma StagingIsInvisible(p: Page, req: Request, token: string, now: int, wp: Wp, key: string, other: string,
                           later: int)
    ensures var q := Stage(p, req, token, now, wp);
            && q == p.(staged := q.staged)
            && ViewContent(q, false) == ViewContent(p, false) && ViewMeta(q, key, false) == ViewMeta(p, key, false)
            && ViewTitle(q, false) == ViewTitle(p, false) && ViewBlocks(q, false) == ViewBlocks(p, false)
    ensures Compute(PostOf(p), req.patch, req.ids, wp.host).Built? && now + TTL != 0 && !IsEmpty(token) ==>
              (Opens(Stage(p, req, token, now, wp), other, later) <==> other == token && later <= now + 14 * 86400)
  {
    hide Compute, UnslashState, UnslashPatch;
  }

  /* ----- preview agrees with publish ----- */

  /** The staged title is shown by the preview exactly as the page will have it. */
  predicate TitleShown(p: Page, c: Change, wp: Wp) {
    match c.patch.title
    case None => true
    case Some(t) =>
      if IsEmpty(t) then TitleWritten(c) ==> wp.filter(t) == p.title
      else if TitleWritten(c) then '\\' !in t && wp.filter(t) == t
      else t == p.title
  }

  /** The blocks are shown as they will be: the key of the new one is free, and no backslash is lost. */
  predicate BlocksShown(blocks: seq<Item>, id: string, htmls: seq<string>)
    requires |htmls| <= 1
  {
    htmls == [] ||
    (&& IndexOf(blocks, BlockKey(id, 0)) == -1
     && '\\' !in htmls[0]
     && forall i :: 0 <= i < |blocks| ==> '\\' !in AsString(blocks[i].value))
  }

  lemma StringKept(v: Node)
    ensures AsString(Unslash(v)) == AsString(v) <==> '\\' !in AsString(v)
  {
    if v.Str? {
      StripFixed(v.s);
    }
  }

  lemma HtmlsAgree(m: seq<Item>, id: string, htmls: seq<string>)
    requires |htmls| <= 1
    ensures Htmls(m) + htmls == Htmls(Blocks(m, id, htmls)) <==> BlocksShown(m, id, htmls)
  {
    hide BlockKey, AsString, Unslash, IndexOf;
    if htmls == [] {
      assert Htmls(m) + htmls == Htmls(m);
    } else {
      var k, html := BlockKey(id, 0), htmls[0];
      assert htmls[..0] == [] && htmls == [html];
      CrashRedo.PutAt(m, k, html);
      StripFixed(html);
      BlockString(html);
      var q := Blocks(m, id, htmls);
      if IndexOf(m, k) == -1 {
        forall j | 0 <= j < |m|
          ensures Htmls(q)[j] == Htmls(m)[j] <==> '\\' !in AsString(m[j].value)
        {
          StringKept(m[j].value);
        }
        NewLast(Htmls(m), html, Htmls(q));
      }
    }
  }

  lemma BlockString(html: string)
    ensures AsString(Str(StripSlashes(html))) == StripSlashes(html)
  {
  }

  lemma NewLast(a: seq<string>, html: string, q: seq<string>)
    requires |q| == |a| + 1
    ensures a + [html] == q <==> q[|a|] == html && forall j :: 0 <= j < |a| ==> q[j] == a[j]
  {
    var all := a + [html];
    assert all[|a|] == html && forall j :: 0 <= j < |a| ==> all[j] == a[j];
  }

  /**
   * What the preview serves against what the page holds after the publish, item by item: each
   * agrees exactly under a condition on the record, the page before, and the filters.
   */
  lemma PreviewAgrees(p: Page, r: Staged, req: Request, cut: nat, wp: Wp)
    requires AddsNoBackslash(wp)
    requires p.staged == Some(r) && FromStaging(r) && cut >= |PublishWrites(p, req, wp)|
    ensures var q := Publish(p, req, cut, wp);
            && (ViewContent(p, true) == ViewContent(q, false)
                <==> (r.state.content.Some? ==>
                        '\\' !in r.state.content.value && wp.filter(r.state.content.value) == r.state.content.value))
            && (ViewTitle(p, true) == ViewTitle(q, false) <==> TitleShown(p, StagedChange(r, req.titleTaken), wp))
            && (ViewBlocks(p, true) == ViewBlocks(q, false) <==> BlocksShown(p.appended, req.id, r.appended))
    ensures forall k :: MetaOf(r.state, k) != Null ==>
              (ViewMeta(p, k, true) == ViewMeta(Publish(p, req, cut, wp), k, false)
               <==> (r.builder.Elementor? && k == ELEMENTOR_META && MetaOf(r.state, k).Str?)
                    || NoBackslash(MetaOf(r.state, k)))
    ensures forall k :: IndexOf(r.state.meta, Name(k)) == -1 ==>
              ViewMeta(p, k, true) == ViewMeta(Publish(p, req, cut, wp), k, false)
  {
    var c, q := StagedChange(r, req.titleTaken), Publish(p, req, cut, wp);
    assert ChangeOf(p, req, wp) == Some(c);
    Completed(p, c, req, cut, wp);
    hide Publish, PublishWrites, ChangeOf, Blocks, BlockKey, NamedDistinct, Unslash, BlocksShown;
    ContentAgrees(r.state.content, p, q, wp);
    TitleAgrees(p, c, q, r.title, wp);
    HtmlsAgree(p.appended, req.id, r.appended);
    assert ViewBlocks(q, false) == Htmls(q.appended) + [] == Htmls(q.appended);
    MetaAgrees(p, q, r);
  }

  lemma ContentAgrees(content: Option<string>, p: Page, q: Page, wp: Wp)
    requires AddsNoBackslash(wp)
    requires q.content == if content.Some? then wp.Field(content.value) else p.content
    ensures content.Some? ==>
              (content.value == q.content <==> '\\' !in content.value && wp.filter(content.value) == content.value)
  {
    if content.Some? {
      FilteredIsKept(content.value, StripSlashes(content.value), wp.filter);
    }
  }

  lemma TitleAgrees(p: Page, c: Change, q: Page, shown: string, wp: Wp)
    requires AddsNoBackslash(wp) && shown == c.patch.title.GetOr("")
    requires q.title == if TitleWritten(c) then wp.Field(c.patch.title.value) else p.title
    ensures (if IsEmpty(shown) then p.title else shown) == q.title <==> TitleShown(p, c, wp)
  {
    if c.patch.title.Some? {
      var t := c.patch.title.value;
      FilteredIsKept(t, StripSlashes(t), wp.filter);
      if IsEmpty(t) {
        StripFixed(t);
      }
    }
  }

  lemma MetaAgrees(p: Page, q: Page, r: Staged)
    requires p.staged == Some(r) && q.staged.None? && NamedDistinct(r.state.meta)
    requires Persisted(p, q, r.builder, r.state.meta)
    ensures forall k :: MetaOf(r.state, k) != Null ==>
              (ViewMeta(p, k, true) == ViewMeta(q, k, false)
               <==> (r.builder.Elementor? && k == ELEMENTOR_META && MetaOf(r.state, k).Str?)
                    || NoBackslash(MetaOf(r.state, k)))
    ensures forall k :: IndexOf(r.state.meta, Name(k)) == -1 ==> ViewMeta(p, k, true) == ViewMeta(q, k, false)
  {
    hide Kept, NoBackslash;
    var m := r.state.meta;
    forall k | MetaOf(r.state, k) != Null
      ensures ViewMeta(p, k, true) == ViewMeta(q, k, false)
              <==> (r.builder.Elementor? && k == ELEMENTOR_META && MetaOf(r.state, k).Str?)
                   || NoBackslash(MetaOf(r.state, k))
    {
      var i := IndexOf(m, Name(k));
      assert m[i].key.s == k;
      PersistKeeps(r.builder, k, m[i].value);
    }
  }

  /** So it is for every record that staging leaves: the hypotheses on it hold. */
  lemma StagedPreviewAgrees(p: Page, req: Request, token: string, now: int, later: Request, cut: nat, wp: Wp)
    requires AddsNoBackslash(wp) && Compute(PostOf(p), req.patch, req.ids, wp.host).Built?
    requires cut >= |PublishWrites(Stage(p, req, token, now, wp), later, wp)|
    ensures var s := Stage(p, req, token, now, wp);
            && s.staged.Some? && FromStaging(s.staged.value)
            && var r := s.staged.value;
               var q := Publish(s, later, cut, wp);
            && (ViewContent(s, true) == ViewContent(q, false)
                <==> (r.state.content.Some? ==>
                        '\\' !in r.state.content.value && wp.filter(r.state.content.value) == r.state.content.value))
            && (ViewTitle(s, true) == ViewTitle(q, false) <==> TitleShown(s, StagedChange(r, later.titleTaken), wp))
            && (ViewBlocks(s, true) == ViewBlocks(q, false) <==> BlocksShown(p.appended, later.id, r.appended))
  {
    hide *;
    StageMakesSuch(p, req, token, now, wp);
    StageKeepsPage(p, req, token, now, wp);
    var s := Stage(p, req, token, now, wp);
    PreviewAgrees(s, s.staged.value, later, cut, wp);
    StagedShape(s.staged.value);
  }

  lemma StageKeepsPage(p: Page, req: Request, token: string, now: int, wp: Wp)
    ensures var s := Stage(p, req, token, now, wp); s == p.(staged := s.staged)
  {
    hide Compute, UnslashState, UnslashPatch;
  }

  lemma StagedShape(r: Staged)
    requires FromStaging(r)
    ensures |r.appended| <= 1
  {
  }
}
