/**
 * Publishing a change by way of a preview, against publishing it at once: the staged record is
 * written to the meta store like any other value, and loses one layer of slashes there.
 */
module StageFirst {
  import opened Php
  import opened Tree
  import opened Slashes
  import opened Builders
  import opened Patch
  import opened Store
  import opened Undo
  import opened Publishing
  import CrashRedo

  /** The value is persisted alike whether or not it was staged before. */
  predicate StagingKeeps(b: Builder, key: string, v: Node) {
    if b.Elementor? && key == ELEMENTOR_META && v.Str? then NoBackslash(v) else NoBackslash(Unslash(v))
  }

  /** Elementor's own slashing comes too late for a value that was staged. */
  lemma StagedValue(b: Builder, key: string, v: Node)
    ensures Kept(b, key, Unslash(v)) == Kept(b, key, v) <==> StagingKeeps(b, key, v)
  {
    if b.Elementor? && key == ELEMENTOR_META && v.Str? {
      StripAdd(v.s);
      StripAdd(StripSlashes(v.s));
      UnslashFixed(v);
    } else {
      UnslashFixed(Unslash(v));
    }
  }

  /** A field of the post that the filters keep when it is published at once. */
  lemma StagedField(s: string, wp: Wp)
    requires AddsNoBackslash(wp) && wp.filter(StripSlashes(s)) == StripSlashes(s)
    ensures wp.Field(StripSlashes(s)) == wp.Field(s) <==> '\\' !in StripSlashes(s)
  {
    FilteredIsKept(StripSlashes(s), StripSlashes(StripSlashes(s)), wp.filter);
  }

  lemma StagedBlocks(m: seq<Item>, id: string, htmls: seq<string>)
    requires |htmls| <= 1
    ensures Blocks(m, id, UnslashAll(htmls)) == Blocks(m, id, htmls)
            <==> (htmls == [] || '\\' !in StripSlashes(htmls[0]))
  {
    hide BlockKey, UnslashItems, Unslash, Assign, IndexOf;
    if htmls == [] {
      assert UnslashAll(htmls) == [];
    } else {
      var k, html, staged := BlockKey(id, 0), htmls[0], StripSlashes(htmls[0]);
      assert htmls == [html] && UnslashAll(htmls) == [staged];
      CrashRedo.OneBlockPut(m, id, [html]);
      CrashRedo.OneBlockPut(m, id, [staged]);
      CrashRedo.PutAt(m, k, html);
      CrashRedo.PutAt(m, k, staged);
      StripFixed(staged);
      var a, b := CrashRedo.Put(m, k, html), CrashRedo.Put(m, k, staged);
      assert |a| == |b|;
      if staged == StripSlashes(staged) {
        assert forall j :: 0 <= j < |a| ==> a[j] == b[j];
      }
    }
  }

  /** The change that a publish writes after staging. */
  lemma StagedWrites(p: Page, req: Request, token: string, now: int, wp: Wp)
    requires p.staged.None? && Compute(PostOf(p), req.patch, req.ids, wp.host).Built?
    ensures var s := Stage(p, req, token, now, wp);
            var d := ChangeOf(p, req, wp);
            && s == p.(staged := s.staged) && d.Some?
            && NamedDistinct(d.value.state.meta) && NamedDistinct(UnslashState(d.value.state).meta)
            && |d.value.appended| <= 1 && d.value.titleTaken == req.titleTaken
            && ChangeOf(s, req, wp)
               == Some(Change(d.value.builder, UnslashState(d.value.state), UnslashAll(d.value.appended),
                              UnslashPatch(d.value.patch), req.titleTaken))
  {
    hide Compute, NamedDistinct, UnslashItems;
    ComputedShape(PostOf(p), req.patch, req.ids, wp.host);
    UnslashNamed(Compute(PostOf(p), req.patch, req.ids, wp.host).state.meta);
  }

  /** The new title, if one is written, is the same where a layer of slashes more does not matter. */
  ghost predicate TitleAlike(p: Page, c: Change, direct: Page, staged: Page, wp: Wp) {
    if !(c.patch.title.Some? && (c.state.content.Some? || c.titleTaken)) then
      direct.title == p.title && staged.title == p.title
    else
      var title := c.patch.title.value;
      && direct.title == wp.Field(title)
      && (wp.filter(StripSlashes(title)) == StripSlashes(title) ==>
            (staged.title == direct.title <==> '\\' !in StripSlashes(title)))
  }

  /** The SEO fields of the patch are written both ways, and each is the same iff it has no backslash. */
  predicate SeoAlike(p: Page, fields: map<string, string>, direct: Page, staged: Page) {
    && staged.seo.Keys == direct.seo.Keys == p.seo.Keys + fields.Keys
    && (forall k :: k in fields ==>
          direct.seo[k] == fields[k] && (staged.seo[k] == direct.seo[k] <==> '\\' !in fields[k]))
    && (forall k :: k in p.seo && k !in fields ==> staged.seo[k] == p.seo[k] && direct.seo[k] == p.seo[k])
  }

  /**
   * The page that is published by way of a preview, against the page that is published at once,
   * item by item.  They agree exactly where one layer of slashes more does not matter; for
   * Elementor, whose JSON is slashed on the way in only when it is persisted, that is where the
   * JSON has no backslash at all.
   */
  lemma StageThenPublish(p: Page, req: Request, token: string, now: int, cut: nat, wp: Wp)
    requires AddsNoBackslash(wp)
    requires p.staged.None? && Compute(PostOf(p), req.patch, req.ids, wp.host).Built?
    requires cut >= |PublishWrites(p, req, wp)| && cut >= |PublishWrites(Stage(p, req, token, now, wp), req, wp)|
    ensures ChangeOf(p, req, wp).Some? && |ChangeOf(p, req, wp).value.appended| <= 1
    ensures var c := ChangeOf(p, req, wp).value;
            var direct, staged := Publish(p, req, cut, wp), Publish(Stage(p, req, token, now, wp), req, cut, wp);
            && (c.state.content.None? ==> staged.content == direct.content)
            && (c.state.content.Some?
                && wp.filter(StripSlashes(c.state.content.value)) == StripSlashes(c.state.content.value) ==>
                  (staged.content == direct.content <==> '\\' !in StripSlashes(c.state.content.value)))
            && (staged.appended == direct.appended
                <==> (c.appended == [] || '\\' !in StripSlashes(c.appended[0])))
    ensures var c := ChangeOf(p, req, wp).value;
            var direct, staged := Publish(p, req, cut, wp), Publish(Stage(p, req, token, now, wp), req, cut, wp);
            && c.patch == req.patch && TitleAlike(p, c, direct, staged, wp)
            && SeoAlike(p, req.patch.seo, direct, staged)
    ensures var m, b := ChangeOf(p, req, wp).value.state.meta, ChangeOf(p, req, wp).value.builder;
            var direct, staged := Publish(p, req, cut, wp), Publish(Stage(p, req, token, now, wp), req, cut, wp);
            && NamedDistinct(m)
            && (forall i :: 0 <= i < |m| ==>
                  (GetMeta(staged.meta, m[i].key.s) == GetMeta(direct.meta, m[i].key.s)
                   <==> StagingKeeps(b, m[i].key.s, m[i].value)))
            && (forall k: string :: (forall i :: 0 <= i < |m| ==> m[i].key.s != k)
                  ==> GetMeta(staged.meta, k) == GetMeta(direct.meta, k))
  {
    StagedWrites(p, req, token, now, wp);
    var s := Stage(p, req, token, now, wp);
    var c, d := ChangeOf(p, req, wp).value, ChangeOf(s, req, wp).value;
    var direct, staged := Publish(p, req, cut, wp), Publish(s, req, cut, wp);
    hide Compute, Publish, PublishWrites, ChangeOf, Stage, Blocks, Unslash, UnslashItems, NamedDistinct, UnslashPatch;
    Completed(p, c, req, cut, wp);
    Completed(s, d, req, cut, wp);
    StagedBlocks(p.appended, req.id, c.appended);
    if c.state.content.Some? && wp.filter(StripSlashes(c.state.content.value)) == StripSlashes(c.state.content.value) {
      StagedField(c.state.content.value, wp);
    }
    StagedMeta(p, direct, s, staged, c.builder, c.state.meta);
    StagedTitle(p, c, d, direct, staged, wp);
    StagedSeo(p, req.patch, direct, staged);
  }

  lemma StagedTitle(p: Page, c: Change, d: Change, direct: Page, staged: Page, wp: Wp)
    requires AddsNoBackslash(wp)
    requires d.patch == UnslashPatch(c.patch) && d.titleTaken == c.titleTaken && d.state == UnslashState(c.state)
    requires direct.title == (if TitleWritten(c) then wp.Field(c.patch.title.value) else p.title)
    requires staged.title == (if TitleWritten(d) then wp.Field(d.patch.title.value) else p.title)
    ensures TitleAlike(p, c, direct, staged, wp)
  {
    hide UnslashItems;
    if TitleWritten(c) && wp.filter(StripSlashes(c.patch.title.value)) == StripSlashes(c.patch.title.value) {
      StagedField(c.patch.title.value, wp);
    }
  }

  lemma StagedSeo(p: Page, patch: ContentPatch, direct: Page, staged: Page)
    requires direct.seo == p.seo + patch.seo && staged.seo == p.seo + UnslashPatch(patch).seo
    ensures SeoAlike(p, patch.seo, direct, staged)
  {
    forall k | k in patch.seo
      ensures StripSlashes(patch.seo[k]) == patch.seo[k] <==> '\\' !in patch.seo[k]
    {
      StripFixed(patch.seo[k]);
    }
    hide StripSlashes;
  }

  lemma StagedMeta(p: Page, direct: Page, s: Page, staged: Page, b: Builder, m: seq<Item>)
    requires NamedDistinct(m) && NamedDistinct(UnslashItems(m)) && s.meta == p.meta
    requires Persisted(p, direct, b, m) && Persisted(s, staged, b, UnslashItems(m))
    ensures forall i :: 0 <= i < |m| ==>
              (GetMeta(staged.meta, m[i].key.s) == GetMeta(direct.meta, m[i].key.s)
               <==> StagingKeeps(b, m[i].key.s, m[i].value))
    ensures forall k: string :: (forall i :: 0 <= i < |m| ==> m[i].key.s != k)
              ==> GetMeta(staged.meta, k) == GetMeta(direct.meta, k)
  {
    hide Unslash, UnslashItems, Kept, StagingKeeps;
    var u := UnslashItems(m);
    forall i | 0 <= i < |m|
      ensures u[i] == Item(m[i].key, Unslash(m[i].value))
      ensures Kept(b, m[i].key.s, Unslash(m[i].value)) == Kept(b, m[i].key.s, m[i].value)
              <==> StagingKeeps(b, m[i].key.s, m[i].value)
    {
      UnslashItemAt(m, i);
      StagedValue(b, m[i].key.s, m[i].value);
    }
  }
}
