/**
 * Where redoing a publish stops being harmless: once the staged record is cleared, a publish
 * that is delivered again computes its change anew, on the page that already has it.
 */
module Redelivery {
  import opened Php
  import opened Slashes
  import opened Builders
  import opened Patch
  import opened Store
  import opened Tree
  import opened Publishing
  import C = CrashRedo
  import Oxygen

  /** The patch asks for one more block and nothing else in the body. */
  predicate AppendOnly(patch: ContentPatch) {
    patch.bodyHtml.None? && patch.bodyReplace.None? && patch.bodyAppend.Some? && patch.title.None?
  }

  function Appended(b: Builder, content: string, html: string): string {
    Rtrim(content) + "\n\n" + Wrapped(b, html)
  }

  lemma AppendOnlyChange(p: Page, req: Request, wp: Wp)
    requires p.staged.None? && AppendOnly(req.patch) && InContent(ForPost(PostOf(p)))
    ensures var b := ForPost(PostOf(p));
            ChangeOf(p, req, wp)
            == Some(Change(b, State(Some(Appended(b, p.content, req.patch.bodyAppend.value)), []), [],
                           req.patch, req.titleTaken))
  {
    hide ForPost, Wrapped, Rtrim;
  }

  /** Without a staged record a publish of one more block writes it after what is there, whatever that is. */
  lemma AppendsOnce(p: Page, req: Request, cut: nat, wp: Wp)
    requires p.staged.None? && AppendOnly(req.patch) && InContent(ForPost(PostOf(p)))
    requires cut >= |PublishWrites(p, req, wp)|
    ensures var q := Publish(p, req, cut, wp);
            && q.content == wp.Field(Appended(ForPost(PostOf(p)), p.content, req.patch.bodyAppend.value))
            && q.title == p.title && q.appended == p.appended && q.staged.None?
            && forall k: string :: GetMeta(q.meta, k) == GetMeta(p.meta, k)
  {
    hide ForPost, Wrapped, PublishWrites, Publish, ChangeOf, Rtrim, InContent, Appended;
    AppendOnlyChange(p, req, wp);
    Completed(p, ChangeOf(p, req, wp).value, req, cut, wp);
  }

  lemma {:induction false} RtrimOfConcat(x: string, y: string)
    ensures Rtrim(x + y) == if Rtrim(y) == "" then Rtrim(x) else x + Rtrim(y)
    decreases |y|
  {
    if y == "" {
      assert x + y == x;
    } else if IsBlank(y[|y| - 1]) {
      RtrimOfConcat(x, y[..|y| - 1]);
      assert (x + y)[..|x + y| - 1] == x + y[..|y| - 1];
    }
  }

  lemma {:induction false} RtrimAgain(s: string)
    ensures Rtrim(Rtrim(s)) == Rtrim(s)
  {
  }

  lemma AppendedAgain(b: Builder, content: string, html: string)
    ensures var once := Appended(b, content, html);
            Appended(b, once, html) == once <==> Rtrim(Wrapped(b, html)) == ""
  {
    hide Wrapped, Rtrim;
    var kept, block := Rtrim(content), Wrapped(b, html);
    var once := Appended(b, content, html);
    RtrimOfConcat(kept + "\n\n", block);
    if Rtrim(block) == "" {
      BlankLine();
      RtrimOfConcat(kept, "\n\n");
      RtrimAgain(content);
    } else {
      assert |Appended(b, once, html)| > |once|;
    }
  }

  lemma BlankLine()
    ensures Rtrim("\n\n") == ""
  {
    assert "\n\n"[..1] == "\n" && "\n"[..0] == "";
  }

  /**
   * A native append delivered a second time, after the first delivery completed, leaves the body
   * alone if and only if the block it writes is nothing but whitespace; otherwise the block is
   * on the page twice.
   */
  lemma SecondDelivery(p: Page, q: Page, req: Request, cut: nat, wp: Wp)
    requires p.staged.None? && AppendOnly(req.patch) && InContent(ForPost(PostOf(p)))
    requires q == Publish(p, req, cut, wp) && ForPost(PostOf(q)) == ForPost(PostOf(p))
    requires cut >= |PublishWrites(p, req, wp)| && cut >= |PublishWrites(q, req, wp)|
    requires Keeps(wp, Once(p, req))
             && Keeps(wp, Appended(ForPost(PostOf(p)), Once(p, req), req.patch.bodyAppend.value))
    ensures var b, html := ForPost(PostOf(p)), req.patch.bodyAppend.value;
            && Publish(q, req, cut, wp).content == Appended(b, q.content, html)
            && (Publish(q, req, cut, wp).content == q.content <==> Rtrim(Wrapped(b, html)) == "")
  {
    hide ForPost, Publish, PublishWrites, Appended, Wrapped;
    StripFixed(Once(p, req));
    AppendsOnce(p, req, cut, wp);
    StripFixed(Appended(ForPost(PostOf(p)), q.content, req.patch.bodyAppend.value));
    AppendsOnce(q, req, cut, wp);
    AppendedAgain(ForPost(PostOf(p)), p.content, req.patch.bodyAppend.value);
  }

  /** The store and the filters leave the text as it is. */
  predicate Keeps(wp: Wp, text: string) {
    '\\' !in text && wp.filter(text) == text
  }

  /** The body after the first delivery. */
  function Once(p: Page, req: Request): string
    requires AppendOnly(req.patch)
  {
    Appended(ForPost(PostOf(p)), p.content, req.patch.bodyAppend.value)
  }

  /* ----- any number of deliveries, on every other builder that takes a block in ----- */

  /** The page after deliveries that all complete. */
  function Deliveries(p: Page, reqs: seq<Request>, wp: Wp): Page {
    if reqs == [] then p else
      var q, req := Deliveries(p, reqs[..|reqs| - 1], wp), reqs[|reqs| - 1];
      Publish(q, req, |PublishWrites(q, req, wp)|, wp)
  }

  lemma {:induction false} FirstFound(bs: seq<Builder>, p: Post)
    requires FirstOf(bs, p) != Classic
    ensures Detects(FirstOf(bs, p), p)
  {
    hide Detects;
    if bs == [] {
    } else if !Detects(bs[0], p) {
      FirstFound(bs[1..], p);
    }
  }

  lemma {:induction false} StaysFirst(bs: seq<Builder>, p: Post, q: Post, b: Builder)
    requires FirstOf(bs, p) == b != Classic && Detects(b, q)
    requires forall x :: x != b ==> (Detects(x, q) <==> Detects(x, p))
    ensures FirstOf(bs, q) == b
  {
    hide Detects;
    if bs == [] {
    } else if bs[0] != b {
      StaysFirst(bs[1..], p, q, b);
    }
  }

  /** The meta value in which a builder keeps its layout. */
  function LayoutKey(b: Builder): string {
    if b.Bricks? then BRICKS_META else if b.Elementor? then ELEMENTOR_META else BEAVER_META
  }

  /** Writing the layout does not change the builder of the page, as long as it is still detected. */
  lemma SameBuilder(p: Post, q: Post, b: Builder)
    requires ForPost(p) == b && Detects(b, q) && (b.Bricks? || b.Elementor? || b.Beaver?)
    requires q.content == p.content
    requires forall k: string :: k != LayoutKey(b) ==> GetMeta(q.meta, k) == GetMeta(p.meta, k)
    ensures ForPost(q) == b
  {
    hide AsString, Truthy, GetMeta, FirstOf, Strpos;
    forall x | x != b
      ensures Detects(x, q) <==> Detects(x, p)
    {
    }
    StaysFirst(ORDER, p, q, b);
  }

  lemma AssignOnly(k: string, v: Node, w: Node)
    ensures IndexOf([Item(Name(k), v)], Name(k)) == 0
    ensures Assign([Item(Name(k), v)], Name(k), w) == [Item(Name(k), w)]
  {
  }

  /* ----- Bricks ----- */

  /** The elements of a Bricks page. */
  function Elements(p: Page): Option<seq<Item>> {
    match GetMeta(p.meta, BRICKS_META) case Arr(items) => Some(items) case _ => None
  }

  predicate BricksPage(p: Page) {
    p.staged.None? && ForPost(PostOf(p)).Bricks? && Elements(p).Some?
  }

  lemma BricksChange(p: Page, req: Request, wp: Wp)
    requires BricksPage(p) && AppendOnly(req.patch)
    ensures var v := Arr(Push(Elements(p).value, BricksElement(req.patch.bodyAppend.value, req.ids)));
            ChangeOf(p, req, wp)
            == Some(Change(Bricks, State(None, [Item(Name(BRICKS_META), v)]), [], req.patch, req.titleTaken))
  {
    hide ForPost, BricksElement, Push, Assign;
    var items := Elements(p).value;
    AssignOnly(BRICKS_META, Arr(items), Arr(Push(items, BricksElement(req.patch.bodyAppend.value, req.ids))));
  }

  /** A delivery appends an element, whatever the block and whatever is there already. */
  lemma BricksDelivery(p: Page, req: Request, wp: Wp)
    requires BricksPage(p) && AppendOnly(req.patch)
    ensures var q := Publish(p, req, |PublishWrites(p, req, wp)|, wp);
            && BricksPage(q)
            && Elements(q).value
               == UnslashItems(Push(Elements(p).value, BricksElement(req.patch.bodyAppend.value, req.ids)))
  {
    hide ForPost, PublishWrites, Publish, ChangeOf, BricksElement, Detects, UnslashItems;
    BricksChange(p, req, wp);
    var c := ChangeOf(p, req, wp).value;
    OneMetaCompleted(p, c, req, |PublishWrites(p, req, wp)|, BRICKS_META, c.state.meta[0].value, wp);
    var q := Publish(p, req, |PublishWrites(p, req, wp)|, wp);
    BricksDetected(PostOf(q));
    SameBuilder(PostOf(p), PostOf(q), Bricks);
  }

  lemma BricksDetected(p: Post)
    requires GetMeta(p.meta, BRICKS_META).Arr? && GetMeta(p.meta, BRICKS_META).items != []
    ensures Detects(Bricks, p)
  {
  }

  /** So each of any number of deliveries leaves one more element, blank or not: never twice the same page. */
  lemma {:induction false} BricksDeliveries(p: Page, reqs: seq<Request>, wp: Wp)
    requires BricksPage(p) && forall r :: r in reqs ==> AppendOnly(r.patch)
    ensures var q := Deliveries(p, reqs, wp);
            BricksPage(q) && |Elements(q).value| == |Elements(p).value| + |reqs|
  {
    hide BricksPage, Elements, PublishWrites, Publish, BricksElement, UnslashItems;
    if reqs == [] {
    } else {
      var front, last := reqs[..|reqs| - 1], reqs[|reqs| - 1];
      BricksDeliveries(p, front, wp);
      var q := Deliveries(p, front, wp);
      BricksDelivery(q, last, wp);
      }
  }

  /* ----- Elementor ----- */

  /** The tree of an Elementor page, if its JSON can be read. */
  function Sections(p: Page, wp: Wp): Option<seq<Item>> {
    match wp.host.json.decode(AsString(GetMeta(p.meta, ELEMENTOR_META)))
    case Some(Arr(items)) => Some(items)
    case _ => None
  }

  predicate ElementorPage(p: Page, wp: Wp) {
    p.staged.None? && ForPost(PostOf(p)).Elementor? && Sections(p, wp).Some?
  }

  /** The sections after some deliveries. */
  function Grown(items: seq<Item>, reqs: seq<Request>): seq<Item> {
    if reqs == [] then items else
      var last := reqs[|reqs| - 1];
      Push(Grown(items, reqs[..|reqs| - 1]), ElementorSection(last.patch.bodyAppend.GetOr(""), last.ids))
  }

  /** The tree survives encoding and decoding. */
  predicate Survives(items: seq<Item>, json: Oxygen.Json) {
    json.decode(json.encode(Arr(items))) == Some(Arr(items))
  }

  lemma ElementorChange(p: Page, req: Request, wp: Wp)
    requires ElementorPage(p, wp) && AppendOnly(req.patch)
    ensures var tree := Arr(Push(Sections(p, wp).value, ElementorSection(req.patch.bodyAppend.value, req.ids)));
            ChangeOf(p, req, wp)
            == Some(Change(Elementor, State(None, [Item(Name(ELEMENTOR_META), Str(wp.host.json.encode(tree)))]), [],
                           req.patch, req.titleTaken))
  {
    hide ElementorSection, Push, ForPost, Assign;
    ElementorHasJson(PostOf(p));
    var tree := Arr(Push(Sections(p, wp).value, ElementorSection(req.patch.bodyAppend.value, req.ids)));
    AssignOnly(ELEMENTOR_META, Str(AsString(GetMeta(p.meta, ELEMENTOR_META))), Str(wp.host.json.encode(tree)));
  }

  lemma ElementorHasJson(p: Post)
    requires ForPost(p).Elementor?
    ensures Detects(Elementor, p)
  {
    FirstFound(ORDER, p);
  }

  lemma ElementorDelivery(p: Page, req: Request, wp: Wp)
    requires ElementorPage(p, wp) && AppendOnly(req.patch) && wp.host.json.decode("").None?
    requires Survives(Push(Sections(p, wp).value, ElementorSection(req.patch.bodyAppend.value, req.ids)), wp.host.json)
    ensures var q := Publish(p, req, |PublishWrites(p, req, wp)|, wp);
            && ElementorPage(q, wp)
            && Sections(q, wp).value
               == Push(Sections(p, wp).value, ElementorSection(req.patch.bodyAppend.value, req.ids))
  {
    hide ForPost, PublishWrites, Publish, ChangeOf, ElementorSection, Push, Detects;
    ElementorChange(p, req, wp);
    var c := ChangeOf(p, req, wp).value;
    var json := c.state.meta[0].value;
    OneMetaCompleted(p, c, req, |PublishWrites(p, req, wp)|, ELEMENTOR_META, json, wp);
    PersistKeeps(Elementor, ELEMENTOR_META, json);
    var q := Publish(p, req, |PublishWrites(p, req, wp)|, wp);
    ElementorHasJson(PostOf(p));
    ElementorDetected(PostOf(p), PostOf(q));
    SameBuilder(PostOf(p), PostOf(q), Elementor);
  }

  lemma ElementorDetected(p: Post, q: Post)
    requires Detects(Elementor, p) && AsString(GetMeta(q.meta, ELEMENTOR_META)) != ""
    requires forall k: string :: k != ELEMENTOR_META ==> GetMeta(q.meta, k) == GetMeta(p.meta, k)
    ensures Detects(Elementor, q)
  {
  }

  /** Likewise, as long as the trees survive encoding and decoding: one more section each time. */
  lemma {:induction false} ElementorDeliveries(p: Page, reqs: seq<Request>, wp: Wp)
    requires ElementorPage(p, wp) && wp.host.json.decode("").None?
    requires forall r :: r in reqs ==> AppendOnly(r.patch)
    requires forall n :: 0 < n <= |reqs| ==> Survives(Grown(Sections(p, wp).value, reqs[..n]), wp.host.json)
    ensures var q := Deliveries(p, reqs, wp);
            ElementorPage(q, wp) && Sections(q, wp).value == Grown(Sections(p, wp).value, reqs)
    ensures |Grown(Sections(p, wp).value, reqs)| == |Sections(p, wp).value| + |reqs|
  {
    hide ElementorPage, Sections, PublishWrites, Publish, ElementorSection, Survives;
    if reqs == [] {
    } else {
      var front, last := reqs[..|reqs| - 1], reqs[|reqs| - 1];
      assert forall n :: 0 < n <= |front| ==> front[..n] == reqs[..n];
      ElementorDeliveries(p, front, wp);
      assert reqs[..|reqs|] == reqs;
      ElementorDelivery(Deliveries(p, front, wp), last, wp);
    }
  }

  /* ----- Beaver, which hands the block on ----- */

  lemma BeaverChange(p: Page, req: Request, wp: Wp)
    requires p.staged.None? && ForPost(PostOf(p)).Beaver? && AppendOnly(req.patch)
    ensures ChangeOf(p, req, wp)
            == Some(Change(Beaver, State(None, [Item(Name(BEAVER_META), GetMeta(p.meta, BEAVER_META))]),
                           [req.patch.bodyAppend.value], req.patch, req.titleTaken))
  {
    hide ForPost;
  }

  lemma BeaverDelivery(p: Page, req: Request, wp: Wp)
    requires p.staged.None? && ForPost(PostOf(p)).Beaver? && AppendOnly(req.patch)
    ensures var q := Publish(p, req, |PublishWrites(p, req, wp)|, wp);
            && q.staged.None? && ForPost(PostOf(q)).Beaver?
            && q.appended == C.Put(p.appended, BlockKey(req.id, 0), req.patch.bodyAppend.value)
  {
    hide ForPost, PublishWrites, Publish, ChangeOf, Detects, C.Put, BlockKey;
    BeaverChange(p, req, wp);
    var c := ChangeOf(p, req, wp).value;
    OneMetaCompleted(p, c, req, |PublishWrites(p, req, wp)|, BEAVER_META, c.state.meta[0].value, wp);
    OneBlock(p.appended, req.id, req.patch.bodyAppend.value);
    var q := Publish(p, req, |PublishWrites(p, req, wp)|, wp);
    BeaverDetected(PostOf(p), PostOf(q));
    SameBuilder(PostOf(p), PostOf(q), Beaver);
  }

  lemma BeaverDetected(p: Post, q: Post)
    requires ForPost(p).Beaver? && forall k: string :: k != BEAVER_META ==> GetMeta(q.meta, k) == GetMeta(p.meta, k)
    ensures Detects(Beaver, q)
  {
    FirstFound(ORDER, p);
  }

  lemma OneBlock(m: seq<Item>, id: string, html: string)
    ensures Blocks(m, id, [html]) == C.Put(m, BlockKey(id, 0), html)
  {
    assert [html][..0] == [];
  }

  /**
   * A block that is handed on goes under the key of its instruction, so a second delivery does
   * not add another: it leaves the recorded blocks alone if and only if the others have settled.
   */
  lemma BeaverSecondDelivery(p: Page, req: Request, wp: Wp)
    requires p.staged.None? && ForPost(PostOf(p)).Beaver? && AppendOnly(req.patch)
    ensures var once, twice := Deliveries(p, [req], wp), Deliveries(p, [req, req], wp);
            && |twice.appended| == |once.appended|
            && (twice.appended == once.appended <==> C.Calm(p.appended, BlockKey(req.id, 0)))
  {
    hide ForPost, PublishWrites, Publish, C.Put, BlockKey, C.Calm;
    assert [req, req][..1] == [req] && [req][..0] == [];
    assert Deliveries(p, [], wp) == p;
    BeaverDelivery(p, req, wp);
    var once := Deliveries(p, [req], wp);
    BeaverDelivery(once, req, wp);
    C.PutAgain(p.appended, BlockKey(req.id, 0), req.patch.bodyAppend.value);
    C.PutAt(p.appended, BlockKey(req.id, 0), req.patch.bodyAppend.value);
    C.PutAt(once.appended, BlockKey(req.id, 0), req.patch.bodyAppend.value);
  }
}
