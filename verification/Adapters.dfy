/**
 * What the builder adapters make of a patch: which builder owns a page, where its text is, and
 * what a build stores there.
 */
module Adapters {
  import opened Php
  import opened Tree
  import opened Slashes
  import opened Builders
  import opened Patch
  import opened Store
  import opened Publishing
  import Markup
  import P = PlainSplice
  import T = Text
  import Oxygen

  /* ----- PHP values ----- */

  /** What PHP takes for false, and what it makes of a value as a string. */
  lemma CastsAre(v: Node)
    ensures Truthy(v) <==> v !in {Null, Bool(false), Num(0.0), Str(""), Str("0"), Arr([])}
    ensures AsString(Null) == "" && AsString(Bool(true)) == "1" && AsString(Bool(false)) == ""
    ensures v.Arr? ==> AsString(v) == "Array"
    ensures v.Str? ==> AsString(v) == v.s
  {
  }

  /** `$a[] = v` takes the integer after the largest there is (`Patch.NextIndexFresh`), or 0. */
  lemma {:induction false} PushedKey(items: seq<Item>)
    ensures NextIndex(items) == 0 || exists i :: 0 <= i < |items| && items[i].key == Index(NextIndex(items) - 1)
  {
    if items == [] {
    } else {
      PushedKey(items[1..]);
      var rest := items[1..];
      if NextIndex(items) == NextIndex(rest) != 0 {
        var i :| 0 <= i < |rest| && rest[i].key == Index(NextIndex(rest) - 1);
        assert items[i + 1] == rest[i];
      }
    }
  }

  /* ----- which builder owns the page ----- */

  /** The first builder that claims the post, from the most specific to the fallback. */
  function Owner(p: Post): Builder {
    var meta := p.meta;
    if GetMeta(meta, "_elementor_edit_mode") == Str("builder") && AsString(GetMeta(meta, "_elementor_data")) != ""
    then Elementor
    else if GetMeta(meta, "_et_pb_use_builder") == Str("on") then Divi
    else if Truthy(GetMeta(meta, "_fl_builder_enabled")) then Beaver
    else if (GetMeta(meta, "_bricks_page_content_2").Arr? && GetMeta(meta, "_bricks_page_content_2") != Arr([]))
            || GetMeta(meta, "_bricks_editor_mode") == Str("bricks")
    then Bricks
    else if AsString(GetMeta(meta, "ct_builder_json")) != "" || AsString(GetMeta(meta, "ct_builder_shortcodes")) != ""
    then OxygenBuilder
    else if GetMeta(meta, "_wpb_vc_js_status") == Str("true") || Strpos(p.content, "[vc_row", 0) != -1 then WPBakery
    else if Strpos(p.content, "<!-- wp:", 0) != -1 then Gutenberg
    else Classic
  }

  lemma FirstStep(b: Builder, bs: seq<Builder>, p: Post)
    ensures FirstOf([b] + bs, p) == if Detects(b, p) then b else FirstOf(bs, p)
  {
    assert ([b] + bs)[1..] == bs;
  }

  lemma OwnerIsFirst(p: Post)
    ensures ForPost(p) == Owner(p)
  {
    hide FirstOf, AsString, Truthy, GetMeta, Strpos;
    FirstStep(Elementor, [Divi, Beaver, Bricks, OxygenBuilder, WPBakery, Gutenberg, Classic], p);
    FirstStep(Divi, [Beaver, Bricks, OxygenBuilder, WPBakery, Gutenberg, Classic], p);
    FirstStep(Beaver, [Bricks, OxygenBuilder, WPBakery, Gutenberg, Classic], p);
    FirstStep(Bricks, [OxygenBuilder, WPBakery, Gutenberg, Classic], p);
    FirstStep(OxygenBuilder, [WPBakery, Gutenberg, Classic], p);
    FirstStep(WPBakery, [Gutenberg, Classic], p);
    FirstStep(Gutenberg, [Classic], p);
    FirstStep(Classic, [], p);
    OrderIs();
    assert [Classic] + [] == [Classic];
  }

  lemma OrderIs()
    ensures ORDER == [Elementor] + [Divi, Beaver, Bricks, OxygenBuilder, WPBakery, Gutenberg, Classic]
    ensures [Divi, Beaver, Bricks, OxygenBuilder, WPBakery, Gutenberg, Classic]
            == [Divi] + [Beaver, Bricks, OxygenBuilder, WPBakery, Gutenberg, Classic]
    ensures [Beaver, Bricks, OxygenBuilder, WPBakery, Gutenberg, Classic]
            == [Beaver] + [Bricks, OxygenBuilder, WPBakery, Gutenberg, Classic]
    ensures [Bricks, OxygenBuilder, WPBakery, Gutenberg, Classic]
            == [Bricks] + [OxygenBuilder, WPBakery, Gutenberg, Classic]
    ensures [OxygenBuilder, WPBakery, Gutenberg, Classic] == [OxygenBuilder] + [WPBakery, Gutenberg, Classic]
    ensures [WPBakery, Gutenberg, Classic] == [WPBakery] + [Gutenberg, Classic]
    ensures [Gutenberg, Classic] == [Gutenberg] + [Classic]
  {
  }

  /* ----- builders that keep their content in the body ----- */

  /** The body with a block after it, as each of these builders wants it written. */
  function WithBlock(b: Builder, body: string, block: Option<string>): string {
    if block.None? then body
    else
      Rtrim(body) + "\n\n" +
      match b
      case Gutenberg => "<!-- wp:html -->\n" + block.value + "\n<!-- /wp:html -->"
      case Divi =>
        "[et_pb_section admin_label=\"Livesov\"][et_pb_row][et_pb_column type=\"4_4\"][et_pb_text]"
        + block.value + "[/et_pb_text][/et_pb_column][/et_pb_row][/et_pb_section]"
      case WPBakery => "[vc_row][vc_column][vc_column_text]" + block.value + "[/vc_column_text][/vc_column][/vc_row]"
      case _ => block.value
  }

  lemma WrappedIs(b: Builder, body: string, html: string)
    requires InContent(b)
    ensures Rtrim(body) + "\n\n" + Wrapped(b, html) == WithBlock(b, body, Some(html))
  {
    if b.Classic? {
      assert "" + html + "" == html;
    }
  }

  /** The passage of the patch is looked for with shortcodes on the two shortcode builders. */
  function BodyEdit(b: Builder, body: string, r: Replacement, host: Host): T.Outcome {
    T.Edit(body, r.find, r.replace, Markup.Rules(b == Divi || b == WPBakery, host.entity))
  }

  /**
   * On these builders the new body is the body of the patch, or else the post's; with the passage
   * replaced in it, which must be accepted; and with the block after it.
   */
  lemma BodyBuild(post: Post, patch: ContentPatch, ids: Ids, host: Host)
    requires Owner(post) in {Divi, WPBakery, Gutenberg, Classic}
    ensures var b, start := Owner(post), if patch.bodyHtml.Some? then patch.bodyHtml.value else post.content;
            Compute(post, patch, ids, host)
            == if patch.bodyReplace.None? then
                 Built(b, State(Some(WithBlock(b, start, patch.bodyAppend)), []), [], true)
               else
                 match BodyEdit(b, start, patch.bodyReplace.value, host)
                 case Refused(_, why) => Failed(b, State(Some(start), []), ReplaceFailed(b, InText(why)))
                 case Replaced(body) => Built(b, State(Some(WithBlock(b, body, patch.bodyAppend)), []), [], true)
  {
    OwnerIsFirst(post);
    hide ForPost, Owner, T.Edit, Wrapped, WithBlock, Rtrim;
    var b := ForPost(post);
    forall body | patch.bodyAppend.Some?
      ensures Rtrim(body) + "\n\n" + Wrapped(b, patch.bodyAppend.value) == WithBlock(b, body, patch.bodyAppend)
    {
      WrappedIs(b, body, patch.bodyAppend.value);
    }
    forall body: string
      ensures WithBlock(b, body, None) == body
    {
      NoBlock(b, body);
    }
  }

  lemma NoBlock(b: Builder, body: string)
    ensures WithBlock(b, body, None) == body
  {
  }

  /* ----- what is never edited in a tree ----- */

  const PLUMBING: seq<string> := [
    "id", "_id", "elid", "url", "link", "href", "src", "image", "css", "class", "classes", "type", "eltype",
    "widgettype", "name", "parent", "_element_id", "ct_id", "ct_parent", "template", "slug"]

  /** A key is plumbing if it is one of these, in capitals or not. */
  lemma SkippableIs(k: Key)
    ensures Skippable(k) <==> k.Name? && exists i :: 0 <= i < |PLUMBING| && SameButCase(k.s, PLUMBING[i])
  {
    hide Lower, SameButCase;
    if k.Name? {
      var keys := PLUMBING;
      assert keys == SKIP_KEYS;
      forall i | 0 <= i < |keys|
        ensures Lower(k.s) == keys[i] <==> SameButCase(k.s, keys[i])
      {
        SmallLetters(i);
        LowerIs(k.s, keys[i]);
      }
    }
  }

  lemma SmallLetters(i: nat)
    requires i < |PLUMBING|
    ensures forall k :: 0 <= k < |PLUMBING[i]| ==> !('A' <= PLUMBING[i][k] <= 'Z')
  {
  }

  /** In a tree `[...]` is text: a string that reads as itself shows a passage exactly if it is in it. */
  lemma BracketsAreText(s: string, find: string, entity: string -> string)
    requires P.Literal(s, Markup.Rules(false, entity)) && P.Collapsed(s)
    requires P.Literal(find, Markup.Rules(false, entity)) && P.Collapsed(find)
    ensures Shows(find, entity)(s) <==> exists at :: OccursAt(s, find, at)
  {
    hide P.Literal, P.Collapsed, T.Contains, OccursAt;
    var rules := Markup.Rules(false, entity);
    assert rules.(shortcodes := false) == rules;
    P.LiteralIsStringReplace(s, find, "", rules);
  }

  /** No replacement touches an element's type, a widget's type or a link target. */
  lemma TypesAndLinksKept(data: Node, find: string, replacement: string, entity: string -> string, q: Path, i: nat)
    requires Wf(data) && i < |q| && q[i] in {Name("elType"), Name("widgetType"), Name("url")}
    ensures Leaf(Tree.Edit(data, find, replacement, entity).data, q) == Leaf(data, q)
  {
    hide Leaf, Tree.Edit, Wf, Skippable;
    SkippableIs(q[i]);
    assert SameButCase("elType", PLUMBING[12]) && SameButCase("widgetType", PLUMBING[13]);
    assert SameButCase("url", PLUMBING[3]);
    PlumbingKept(data, find, replacement, entity, q);
  }

  /* ----- builders that keep a tree ----- */

  predicate KeepsTree(b: Builder) { b == Elementor || b == Beaver || b == Bricks }

  /** The key under which the tree of the page is stored. */
  function TreeKey(b: Builder): string {
    if b == Elementor then "_elementor_data" else if b == Beaver then "_fl_builder_data" else "_bricks_page_content_2"
  }

  function OnlyArray(v: Option<Node>): Option<Node> {
    if v.Some? && v.value.Arr? then v else None
  }

  /** The tree that a stored value is read as. */
  function TreeOf(b: Builder, v: Node, host: Host): Option<Node> {
    if b == Elementor then if AsString(v) == "" then None else OnlyArray(host.json.decode(AsString(v)))
    else if b == Beaver then OnlyArray(Some(host.unserialize(v)))
    else OnlyArray(Some(v))
  }

  /** The tree of the page. */
  function PageTree(b: Builder, post: Post, host: Host): Option<Node> {
    TreeOf(b, GetMeta(post.meta, TreeKey(b)), host)
  }

  /** The value that a tree is handed to the store as. */
  function StoredTree(b: Builder, tree: Node, host: Host): Node {
    if b == Elementor then Str(host.json.encode(tree)) else tree
  }

  function OneMeta(key: string, v: Node): State {
    State(None, [Item(Name(key), v)])
  }

  lemma AssignOne(key: string, v: Node, w: Node)
    ensures MetaOf(OneMeta(key, v), key) == v
    ensures Assign(OneMeta(key, v).meta, Name(key), w) == OneMeta(key, w).meta
  {
    assert IndexOf([Item(Name(key), v)], Name(key)) == 0;
  }

  /** What is read for such a page: one value, of the tree there is. */
  lemma ReadTree(b: Builder, post: Post, host: Host)
    requires KeepsTree(b)
    ensures var v := GetMeta(post.meta, TreeKey(b));
            Read(b, post) == OneMeta(TreeKey(b), if b == Elementor then Str(AsString(v)) else v)
  {
  }

  /** A state with one value in it, and the answer of the adapter to a replacement. */
  lemma ReplaceInTree(b: Builder, v: Node, r: Replacement, host: Host)
    requires KeepsTree(b) && (b == Elementor ==> v.Str?)
    ensures var s, tree := OneMeta(TreeKey(b), v), TreeOf(b, v, host);
            Builders.Replace(b, s, r.find, r.replace, host)
            == if tree.None? then Bad(s, Unreadable)
               else
                 match Tree.Edit(tree.value, r.find, r.replace, host.entity)
                 case Untouched(_, why) => Bad(s, InTree(why))
                 case Edited(edited) => Ok(OneMeta(TreeKey(b), StoredTree(b, edited, host)))
  {
    hide Tree.Edit, Assign, MetaOf;
    forall w: Node
      ensures Assign(OneMeta(TreeKey(b), v).meta, Name(TreeKey(b)), w) == OneMeta(TreeKey(b), w).meta
    {
      AssignOne(TreeKey(b), v, w);
    }
    AssignOne(TreeKey(b), v, v);
  }

  /** The tree with one more entry at its end. */
  function Longer(b: Builder, tree: Node, html: string, ids: Ids): Node
    requires tree.Arr?
  {
    Arr(Push(tree.items, if b == Elementor then ElementorSection(html, ids) else BricksElement(html, ids)))
  }

  /** A block goes into the tree on Elementor and Bricks; where it cannot, Elementor and Beaver hand it on. */
  lemma AppendToTree(b: Builder, v: Node, html: string, ids: Ids, host: Host)
    requires KeepsTree(b) && (b == Elementor ==> v.Str?)
    ensures var s, tree := OneMeta(TreeKey(b), v), TreeOf(b, v, host);
            Append(b, s, html, ids, host)
            == if b == Beaver then Bad(s, NoNativeAppend)
               else if tree.None? then Bad(s, Unreadable)
               else Ok(OneMeta(TreeKey(b), StoredTree(b, Longer(b, tree.value, html, ids), host)))
  {
    hide Assign, MetaOf, ElementorSection, BricksElement, Push;
    forall w: Node
      ensures Assign(OneMeta(TreeKey(b), v).meta, Name(TreeKey(b)), w) == OneMeta(TreeKey(b), w).meta
    {
      AssignOne(TreeKey(b), v, w);
    }
    AssignOne(TreeKey(b), v, v);
  }

  /** What a build makes of the value that stands for the tree once the passage is replaced. */
  function Finished(b: Builder, v: Node, block: Option<string>, ids: Ids, host: Host): Built {
    var s := OneMeta(TreeKey(b), v);
    if block.None? then Built(b, s, [], true)
    else if b == Beaver || (b == Elementor && TreeOf(b, v, host).None?) then Built(b, s, [block.value], false)
    else if TreeOf(b, v, host).None? then Failed(b, s, NowhereToAppend(b, Unreadable))
    else
      var longer := Longer(b, TreeOf(b, v, host).value, block.value, ids);
      Built(b, OneMeta(TreeKey(b), StoredTree(b, longer, host)), [], true)
  }

  /** The value as it is read from the page. */
  function ReadValue(b: Builder, post: Post): Node {
    var v := GetMeta(post.meta, TreeKey(b));
    if b == Elementor then Str(AsString(v)) else v
  }

  /** The value with the passage of the patch replaced in its tree, if there is one to replace. */
  function ReplacedValue(b: Builder, v: Node, patch: ContentPatch, host: Host): Result {
    if patch.bodyReplace.None? then Ok(OneMeta(TreeKey(b), v))
    else if TreeOf(b, v, host).None? then Bad(OneMeta(TreeKey(b), v), Unreadable)
    else
      var r := patch.bodyReplace.value;
      match Tree.Edit(TreeOf(b, v, host).value, r.find, r.replace, host.entity)
      case Untouched(_, why) => Bad(OneMeta(TreeKey(b), v), InTree(why))
      case Edited(edited) => Ok(OneMeta(TreeKey(b), StoredTree(b, edited, host)))
  }

  lemma BeforeTreeAppend(b: Builder, v: Node, patch: ContentPatch, host: Host)
    requires KeepsTree(b) && (b == Elementor ==> v.Str?) && patch.bodyHtml.None?
    ensures BeforeAppend(b, OneMeta(TreeKey(b), v), patch, host) == ReplacedValue(b, v, patch, host)
  {
    hide Tree.Edit, Builders.Replace, TreeKey, TreeOf;
    if patch.bodyReplace.Some? {
      ReplaceInTree(b, v, patch.bodyReplace.value, host);
    }
  }

  /**
   * On these builders a full body is refused; a replacement is accepted exactly if it is accepted
   * in the tree of the page, and then the edited tree is stored; and a block goes after that.
   */
  lemma TreeBuild(post: Post, patch: ContentPatch, ids: Ids, host: Host)
    requires KeepsTree(Owner(post))
    ensures var b, v := Owner(post), ReadValue(Owner(post), post);
            Compute(post, patch, ids, host)
            == if patch.bodyHtml.Some? then Failed(b, OneMeta(TreeKey(b), v), WouldDestroyLayout(b))
               else if patch.bodyReplace.None? then Finished(b, v, patch.bodyAppend, ids, host)
               else if PageTree(b, post, host).None?
               then Failed(b, OneMeta(TreeKey(b), v), ReplaceFailed(b, Unreadable))
               else
                 var r := patch.bodyReplace.value;
                 match Tree.Edit(PageTree(b, post, host).value, r.find, r.replace, host.entity)
                 case Untouched(_, why) => Failed(b, OneMeta(TreeKey(b), v), ReplaceFailed(b, InTree(why)))
                 case Edited(edited) => Finished(b, StoredTree(b, edited, host), patch.bodyAppend, ids, host)
  {
    OwnerIsFirst(post);
    var b, v := ForPost(post), ReadValue(ForPost(post), post);
    ReadTree(b, post, host);
    SameTree(b, post, host);
    if patch.bodyHtml.None? {
      BeforeTreeAppend(b, v, patch, host);
      if patch.bodyReplace.None? {
        FinishTree(b, v, patch.bodyAppend, ids, host);
      } else if PageTree(b, post, host).Some? {
        var r := patch.bodyReplace.value;
        var o := Tree.Edit(PageTree(b, post, host).value, r.find, r.replace, host.entity);
        if o.Edited? {
          FinishTree(b, StoredTree(b, o.data, host), patch.bodyAppend, ids, host);
        }
      }
    }
    hide ForPost, Owner, Tree.Edit, Read, BeforeAppend, Append, TreeKey, TreeOf, Finished, PageTree;
  }

  /** The last step of a build, from the value the tree is stored as. */
  lemma FinishTree(b: Builder, v: Node, block: Option<string>, ids: Ids, host: Host)
    requires KeepsTree(b) && (b == Elementor ==> v.Str?)
    ensures Finished(b, v, block, ids, host)
            == if block.None? then Built(b, OneMeta(TreeKey(b), v), [], true)
               else
                 match Append(b, OneMeta(TreeKey(b), v), block.value, ids, host)
                 case Ok(t) => Built(b, t, [], true)
                 case Bad(_, e) =>
                   if RendersTheContent(b) then Built(b, OneMeta(TreeKey(b), v), [block.value], false)
                   else Failed(b, OneMeta(TreeKey(b), v), NowhereToAppend(b, e))
  {
    if block.Some? {
      AppendToTree(b, v, block.value, ids, host);
    }
    hide TreeKey, TreeOf, Append, Longer;
  }

  lemma SameTree(b: Builder, post: Post, host: Host)
    ensures TreeOf(b, ReadValue(b, post), host) == PageTree(b, post, host)
  {
  }

  /* ----- Oxygen ----- */

  function JsonOf(post: Post): string { AsString(GetMeta(post.meta, "ct_builder_json")) }
  function ShortOf(post: Post): string { AsString(GetMeta(post.meta, "ct_builder_shortcodes")) }

  function Filled(key: string, s: string): seq<Item> {
    if s == "" then [] else [Item(Name(key), Str(s))]
  }

  function OxygenState(json: string, short: string): State {
    State(None, Filled("ct_builder_json", json) + Filled("ct_builder_shortcodes", short))
  }

  lemma OxygenRead(post: Post)
    ensures Read(OxygenBuilder, post) == OxygenState(JsonOf(post), ShortOf(post))
  {
  }

  const JSON_KEY := Name("ct_builder_json")
  const SHORT_KEY := Name("ct_builder_shortcodes")

  lemma OxygenKeys(json: string, short: string)
    ensures var m := OxygenState(json, short).meta;
            && |m| == (if json == "" then 0 else 1) + (if short == "" then 0 else 1)
            && IndexOf(m, JSON_KEY) == (if json == "" then -1 else 0)
            && IndexOf(m, SHORT_KEY) == (if short == "" then -1 else |m| - 1)
            && (json != "" ==> m[0] == Item(JSON_KEY, Str(json)))
            && (short != "" ==> m[|m| - 1] == Item(SHORT_KEY, Str(short)))
  {
    hide IndexOf;
    assert JSON_KEY.s[11] != SHORT_KEY.s[11];
    var m := OxygenState(json, short).meta;
    assert json != "" ==> m[0].key == JSON_KEY;
    assert short != "" ==> m[|m| - 1].key == SHORT_KEY;
    assert forall i :: 0 <= i < |m| && m[i].key == JSON_KEY ==> json != "" && i == 0;
    assert forall i :: 0 <= i < |m| && m[i].key == SHORT_KEY ==> short != "" && i == |m| - 1;
  }

  /** `unset` takes the one entry out and leaves the others as they are. */
  lemma UnsetIs(m: seq<Item>, key: Key, j: nat)
    requires j < |m|
    ensures |Unset(m, key)| == if IndexOf(m, key) == -1 then |m| else |m| - 1
    ensures IndexOf(m, key) == -1 || j < IndexOf(m, key) ==> Unset(m, key)[j] == m[j]
    ensures IndexOf(m, key) != -1 && j > IndexOf(m, key) ==> Unset(m, key)[j - 1] == m[j]
  {
  }

  lemma OxygenMeta(json: string, short: string)
    ensures var s := OxygenState(json, short);
            && MetaOf(s, "ct_builder_json") == (if json == "" then Null else Str(json))
            && MetaOf(s, "ct_builder_shortcodes") == (if short == "" then Null else Str(short))
  {
    hide IndexOf, OxygenState;
    OxygenKeys(json, short);
  }

  lemma OxygenSetJson(json: string, short: string, v: Node)
    requires json != ""
    ensures Unset(Assign(OxygenState(json, short).meta, JSON_KEY, v), SHORT_KEY) == [Item(JSON_KEY, v)]
  {
    hide IndexOf, OxygenState;
    OxygenKeys(json, short);
    var m := OxygenState(json, short).meta;
    IndexOfUpdate(m, 0, v, SHORT_KEY);
    assert m[0 := Item(JSON_KEY, v)][..1] == [Item(JSON_KEY, v)];
  }

  lemma OxygenSetShort(json: string, short: string, v: Node)
    requires short != ""
    ensures Assign(OxygenState(json, short).meta, SHORT_KEY, v)
            == Filled("ct_builder_json", json) + [Item(SHORT_KEY, v)]
  {
    hide IndexOf, OxygenState;
    OxygenKeys(json, short);
    var m := OxygenState(json, short).meta;
    assert m[|m| - 1 := Item(SHORT_KEY, v)] == Filled("ct_builder_json", json) + [Item(SHORT_KEY, v)];
  }

  /** The JSON is edited if there is any, and its shortcode copy dropped; else the shortcodes are. */
  function OxygenReplaced(json: string, short: string, r: Replacement, host: Host): Result {
    var s := OxygenState(json, short);
    if json != "" && json != "0" then
      var (tree, depth) := Oxygen.DecodeJson(json, host.json);
      if tree.None? then Bad(s, Unreadable)
      else
        match Tree.Edit(tree.value, r.find, r.replace, host.entity)
        case Untouched(_, why) => Bad(s, InTree(why))
        case Edited(edited) => Ok(OneMeta("ct_builder_json", Str(AddLayers(host.json.encode(edited), depth))))
    else if short != "" && short != "0" then
      match T.Edit(short, r.find, r.replace, Markup.Rules(true, host.entity))
      case Refused(_, why) => Bad(s, InText(why))
      case Replaced(result) =>
        Ok(State(None, Filled("ct_builder_json", json) + [Item(Name("ct_builder_shortcodes"), Str(result))]))
    else Bad(s, NoContent)
  }

  lemma ReplaceInOxygen(json: string, short: string, r: Replacement, host: Host)
    ensures var a := Builders.Replace(OxygenBuilder, OxygenState(json, short), r.find, r.replace, host);
            var o := OxygenReplaced(json, short, r, host);
            (a.Ok? <==> o.Ok?) && (a.Ok? ==> a == o) && (a.Bad? ==> a.error == o.error)
  {
    hide Tree.Edit, T.Edit, Assign, Unset, MetaOf, Oxygen.DecodeJson, AddLayers, OxygenState, Filled;
    OxygenMeta(json, short);
    OxygenHasNoBody(json, short);
    forall v: Node | json != ""
      ensures Unset(Assign(OxygenState(json, short).meta, JSON_KEY, v), SHORT_KEY) == [Item(JSON_KEY, v)]
    {
      OxygenSetJson(json, short, v);
    }
    forall v: Node | short != ""
      ensures Assign(OxygenState(json, short).meta, SHORT_KEY, v)
              == Filled("ct_builder_json", json) + [Item(SHORT_KEY, v)]
    {
      OxygenSetShort(json, short, v);
    }
  }

  lemma OxygenHasNoBody(json: string, short: string)
    ensures OxygenState(json, short).content.None?
  {
  }

  /** Oxygen takes no full body and no block; a replacement is edited in where its text is. */
  lemma OxygenBuild(post: Post, patch: ContentPatch, ids: Ids, host: Host)
    requires Owner(post) == OxygenBuilder
    ensures var s := OxygenState(JsonOf(post), ShortOf(post));
            var o := if patch.bodyReplace.None? then Ok(s)
                     else OxygenReplaced(JsonOf(post), ShortOf(post), patch.bodyReplace.value, host);
            Compute(post, patch, ids, host)
            == if patch.bodyHtml.Some? then Failed(OxygenBuilder, s, WouldDestroyLayout(OxygenBuilder))
               else if o.Bad? then Failed(OxygenBuilder, s, ReplaceFailed(OxygenBuilder, o.error))
               else if patch.bodyAppend.Some?
               then Failed(OxygenBuilder, o.state, NowhereToAppend(OxygenBuilder, NoNativeAppend))
               else Built(OxygenBuilder, o.state, [], true)
  {
    OwnerIsFirst(post);
    OxygenRead(post);
    OxygenHasNoBody(JsonOf(post), ShortOf(post));
    if patch.bodyReplace.Some? {
      ReplaceInOxygen(JsonOf(post), ShortOf(post), patch.bodyReplace.value, host);
    }
    hide ForPost, Owner, Read, OxygenState, OxygenReplaced, Builders.Replace, JsonOf, ShortOf;
  }

  /* ----- the edited tree, on the page ----- */

  /** `edited` is `tree` with the one string at `p` spliced, and nothing else changed. */
  predicate OneLeafEdited(tree: Node, edited: Node, p: Path, r: Replacement, entity: string -> string) {
    && Clean(p) && At(tree, p).Some? && At(tree, p).value.Str?
    && (var o := T.Edit(At(tree, p).value.s, r.find, r.replace, Markup.Rules(false, entity));
        o.Replaced? && At(edited, p) == Some(Str(o.result)))
    && Blank(edited) == Blank(tree)
  }

  ghost predicate OnlyThere(tree: Node, edited: Node, p: Path) {
    forall q :: q != p ==> Leaf(edited, q) == Leaf(tree, q)
  }

  lemma EditedIs(tree: Node, r: Replacement, entity: string -> string)
    requires Wf(tree) && Tree.Edit(tree, r.find, r.replace, entity).Edited?
    ensures var edited := Tree.Edit(tree, r.find, r.replace, entity).data;
            exists p :: OneLeafEdited(tree, edited, p, r, entity) && OnlyThere(tree, edited, p)
  {
    hide Tree.Edit, T.Edit, Wf, Blank, Leaf, At, Shows;
    TreeEditDecision(tree, r.find, r.replace, entity);
    var p :| Accepted(tree, p, r.find, r.replace, entity);
    OnlyPlaceIsString(tree, p, r.find, entity);
    TreeEditFrame(tree, p, r.find, r.replace, entity);
    var edited := Tree.Edit(tree, r.find, r.replace, entity).data;
    assert OneLeafEdited(tree, edited, p, r, entity) && OnlyThere(tree, edited, p);
  }

  /** The patch asks for one replacement and nothing else in the body. */
  predicate ReplaceOnly(patch: ContentPatch) {
    patch.bodyHtml.None? && patch.bodyReplace.Some? && patch.bodyAppend.None?
  }

  /**
   * A replacement that is published on a page of one of the tree builders: the page then reads as
   * the edited tree, as long as that comes back from where it is stored.
   */
  lemma TreePublished(p: Page, req: Request, cut: nat, tree: Node, edited: Node, wp: Wp)
    requires p.staged.None? && KeepsTree(Owner(PostOf(p))) && ReplaceOnly(req.patch)
    requires PageTree(Owner(PostOf(p)), PostOf(p), wp.host) == Some(tree)
    requires var r := req.patch.bodyReplace.value; Tree.Edit(tree, r.find, r.replace, wp.host.entity) == Edited(edited)
    requires cut >= |PublishWrites(p, req, wp)|
    requires var b, stored := Owner(PostOf(p)), StoredTree(Owner(PostOf(p)), edited, wp.host);
             TreeOf(b, stored, wp.host) == Some(edited) && (b == Elementor || NoBackslash(stored))
    ensures PageTree(Owner(PostOf(p)), PostOf(Publish(p, req, cut, wp)), wp.host) == Some(edited)
  {
    hide Owner, TreeOf, Publish, PublishWrites, Tree.Edit, Kept, NoBackslash, TreeKey, Blocks;
    var b := Owner(PostOf(p));
    var stored := StoredTree(b, edited, wp.host);
    TreeBuild(PostOf(p), req.patch, req.ids, wp.host);
    var c := Change(b, OneMeta(TreeKey(b), stored), [], req.patch, req.titleTaken);
    assert ChangeOf(p, req, wp) == Some(c);
    hide ChangeOf, PageTree;
    OneMetaCompleted(p, c, req, cut, TreeKey(b), stored, wp);
    PersistKeeps(b, TreeKey(b), stored);
    TreeKeyIs(b);
    ReadBack(b, PostOf(Publish(p, req, cut, wp)), stored, wp.host);
  }

  lemma TreeKeyIs(b: Builder)
    ensures b == Elementor ==> TreeKey(b) == ELEMENTOR_META
  {
  }

  lemma ReadBack(b: Builder, post: Post, v: Node, host: Host)
    requires TreeKey(b) in post.meta && post.meta[TreeKey(b)] == v
    ensures PageTree(b, post, host) == TreeOf(b, v, host)
  {
  }

  /** On the other builders the page's body is the edited body, as the filters leave it. */
  lemma BodyPublished(p: Page, req: Request, cut: nat, wp: Wp)
    requires p.staged.None? && Owner(PostOf(p)) in {Divi, WPBakery, Gutenberg, Classic} && ReplaceOnly(req.patch)
    requires BodyEdit(Owner(PostOf(p)), p.content, req.patch.bodyReplace.value, wp.host).Replaced?
    requires cut >= |PublishWrites(p, req, wp)|
    ensures Publish(p, req, cut, wp).content
            == wp.Field(BodyEdit(Owner(PostOf(p)), p.content, req.patch.bodyReplace.value, wp.host).result)
  {
    hide Owner, BodyEdit, Publish, PublishWrites, Blocks;
    BodyBuild(PostOf(p), req.patch, req.ids, wp.host);
    NoBlock(Owner(PostOf(p)), BodyEdit(Owner(PostOf(p)), p.content, req.patch.bodyReplace.value, wp.host).result);
    Completed(p, ChangeOf(p, req, wp).value, req, cut, wp);
  }

  /** Oxygen's JSON is edited at the depth it was read at, and reads as the edited tree once it is published. */
  lemma OxygenPublished(p: Page, req: Request, cut: nat, tree: Node, depth: nat, edited: Node, wp: Wp)
    requires p.staged.None? && Owner(PostOf(p)) == OxygenBuilder && ReplaceOnly(req.patch)
    requires JsonOf(PostOf(p)) != "0" && JsonOf(PostOf(p)) != ""
    requires Oxygen.DecodeJson(JsonOf(PostOf(p)), wp.host.json) == (Some(tree), depth)
    requires var r := req.patch.bodyReplace.value; Tree.Edit(tree, r.find, r.replace, wp.host.entity) == Edited(edited)
    requires cut >= |PublishWrites(p, req, wp)| && Oxygen.JsonLaws(wp.host.json)
    requires wp.host.json.decode(wp.host.json.encode(edited)) == Some(edited)
    requires depth > 0 || '\\' !in wp.host.json.encode(edited)
    ensures var q := Publish(p, req, cut, wp);
            && Oxygen.DecodeJson(JsonOf(PostOf(q)), wp.host.json)
               == (Some(edited), if depth > 0 then depth - 1 else 0)
            && ShortOf(PostOf(q)) == ShortOf(PostOf(p))
  {
    var json := wp.host.json;
    hide Oxygen.DecodeJson, Oxygen.JsonLaws, Owner, Tree.Edit, Publish, PublishWrites, GetMeta;
    OxygenStored(p, req, cut, tree, depth, edited, wp);
    EditedReadsBack(JsonOf(PostOf(p)), tree, depth, edited, req.patch.bodyReplace.value, wp.host);
  }

  lemma OxygenStored(p: Page, req: Request, cut: nat, tree: Node, depth: nat, edited: Node, wp: Wp)
    requires p.staged.None? && Owner(PostOf(p)) == OxygenBuilder && ReplaceOnly(req.patch)
    requires JsonOf(PostOf(p)) != "0" && JsonOf(PostOf(p)) != ""
    requires Oxygen.DecodeJson(JsonOf(PostOf(p)), wp.host.json) == (Some(tree), depth)
    requires var r := req.patch.bodyReplace.value; Tree.Edit(tree, r.find, r.replace, wp.host.entity) == Edited(edited)
    requires cut >= |PublishWrites(p, req, wp)|
    ensures var q := Publish(p, req, cut, wp);
            && JsonOf(PostOf(q)) == StripSlashes(AddLayers(wp.host.json.encode(edited), depth))
            && ShortOf(PostOf(q)) == ShortOf(PostOf(p))
  {
    hide Publish, PublishWrites, Tree.Edit, Kept, Blocks, Oxygen.DecodeJson, AddLayers, OxygenState, Owner, ReplaceOnly,
         JsonOf, ShortOf;
    var stored := Str(AddLayers(wp.host.json.encode(edited), depth));
    OxygenChange(p, req, tree, depth, edited, wp);
    var c := Change(OxygenBuilder, OneMeta("ct_builder_json", stored), [], req.patch, req.titleTaken);
    hide ChangeOf;
    OneMetaCompleted(p, c, req, cut, "ct_builder_json", stored, wp);
    KeptOxygen(stored.s);
    var q := Publish(p, req, cut, wp);
    assert JSON_KEY.s[11] != SHORT_KEY.s[11];
    assert GetMeta(q.meta, "ct_builder_shortcodes") == GetMeta(p.meta, "ct_builder_shortcodes");
    OxygenReadsBack(PostOf(q), stored.s);
    SameShort(PostOf(p), PostOf(q));
  }

  lemma OxygenReadsBack(post: Post, s: string)
    requires "ct_builder_json" in post.meta && post.meta["ct_builder_json"] == Str(StripSlashes(s))
    ensures JsonOf(post) == StripSlashes(s)
  {
  }

  lemma SameShort(p: Post, q: Post)
    requires GetMeta(q.meta, "ct_builder_shortcodes") == GetMeta(p.meta, "ct_builder_shortcodes")
    ensures ShortOf(q) == ShortOf(p)
  {
  }

  lemma OxygenChange(p: Page, req: Request, tree: Node, depth: nat, edited: Node, wp: Wp)
    requires p.staged.None? && Owner(PostOf(p)) == OxygenBuilder && ReplaceOnly(req.patch)
    requires JsonOf(PostOf(p)) != "0" && JsonOf(PostOf(p)) != ""
    requires Oxygen.DecodeJson(JsonOf(PostOf(p)), wp.host.json) == (Some(tree), depth)
    requires var r := req.patch.bodyReplace.value; Tree.Edit(tree, r.find, r.replace, wp.host.entity) == Edited(edited)
    ensures var stored := Str(AddLayers(wp.host.json.encode(edited), depth));
            ChangeOf(p, req, wp)
            == Some(Change(OxygenBuilder, OneMeta("ct_builder_json", stored), [], req.patch, req.titleTaken))
  {
    hide Compute, Tree.Edit, Oxygen.DecodeJson, AddLayers, OxygenState, Owner, JsonOf, ShortOf, OneMeta;
    OxygenBuild(PostOf(p), req.patch, req.ids, wp.host);
  }

  lemma KeptOxygen(s: string)
    ensures Kept(OxygenBuilder, "ct_builder_json", Str(s)) == Str(StripSlashes(s))
  {
  }

  lemma EditedReadsBack(raw: string, tree: Node, depth: nat, edited: Node, r: Replacement, host: Host)
    requires Oxygen.JsonLaws(host.json) && Oxygen.DecodeJson(raw, host.json) == (Some(tree), depth)
    requires Tree.Edit(tree, r.find, r.replace, host.entity) == Edited(edited)
    requires host.json.decode(host.json.encode(edited)) == Some(edited)
    requires depth > 0 || '\\' !in host.json.encode(edited)
    ensures var stored := StripSlashes(AddLayers(host.json.encode(edited), depth));
            Oxygen.DecodeJson(stored, host.json) == (Some(edited), if depth > 0 then depth - 1 else 0)
  {
    hide Tree.Edit, Oxygen.Peel;
    Oxygen.EditRoundTrip(raw, r.find, r.replace, host.entity, host.json);
    Oxygen.EditedTree(raw, r.find, r.replace, host.entity, host.json);
    var enc := host.json.encode(edited);
    if depth > 0 {
      StripAdd(AddLayers(enc, depth - 1));
      Oxygen.WrittenIsReadBack(edited, depth - 1, host.json);
    } else {
      StripFixed(enc);
    }
  }
}
