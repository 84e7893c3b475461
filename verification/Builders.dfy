/** The eight builder adapters: where the content lives, and how to replace and append in it. */
module Builders {
  import opened Php
  import opened Tree
  import Markup
  import T = Text
  import Oxygen
  import Slashes

  datatype Builder = Elementor | Divi | Beaver | Bricks | OxygenBuilder | WPBakery | Gutenberg | Classic

  /** What the adapters see of a post. */
  datatype Post = Post(content: string, title: string, meta: map<string, Node>)

  /** `['post_content' => string|null, 'meta' => [key => value]]` */
  datatype State = State(content: Option<string>, meta: seq<Item>)

  /** The library functions the adapters call. */
  datatype Host = Host(entity: string -> string, json: Oxygen.Json, unserialize: Node -> Node)

  datatype Error =
    | InText(text: T.Error)
    | InTree(tree: TreeError)
    | Unreadable
    | NoContent
    | NoNativeAppend

  /** The arrays `['ok' => …, 'state' => …, 'error' => …]` of the adapters. */
  datatype Result = Ok(state: State) | Bad(state: State, error: Error)

  const ELEMENTOR_META := "_elementor_data"
  const BEAVER_META := "_fl_builder_data"
  const BRICKS_META := "_bricks_page_content_2"
  const JSON_META := "ct_builder_json"
  const SHORT_META := "ct_builder_shortcodes"

  /* ----- PHP values ----- */

  /** `get_post_meta($id, $key, true)`: an absent key reads as the empty string. */
  function GetMeta(meta: map<string, Node>, key: string): Node {
    if key in meta then meta[key] else Str("")
  }

  /** The `(string)` cast, on what a meta value can be: a string or unserialized data. */
  function AsString(v: Node): string {
    match v
    case Str(s) => s
    case Bool(b) => if b then "1" else ""
    case Arr(_) => "Array"
    case _ => ""
  }

  /** The `(bool)` cast. */
  predicate Truthy(v: Node) {
    match v
    case Null => false
    case Bool(b) => b
    case Num(r) => r != 0.0
    case Str(s) => !IsEmpty(s)
    case Arr(items) => items != []
    case Obj(_) => true
  }

  /** `$state['meta'][$key]`, or null when it is not set. */
  function MetaOf(s: State, key: string): Node {
    var i := IndexOf(s.meta, Name(key));
    if i == -1 then Null else s.meta[i].value
  }

  /** `$m[$key] = $value` on an ordered array: in place, or as a new last entry. */
  function Assign(m: seq<Item>, key: Key, value: Node): seq<Item> {
    var i := IndexOf(m, key);
    if i == -1 then m + [Item(key, value)] else m[i := Item(key, value)]
  }

  function Unset(m: seq<Item>, key: Key): seq<Item> {
    var i := IndexOf(m, key);
    if i == -1 then m else m[..i] + m[i + 1..]
  }

  /** The integer key that `$a[] = …` uses: one more than the largest, or 0. */
  function NextIndex(items: seq<Item>): nat {
    if items == [] then 0
    else
      var rest, k := NextIndex(items[1..]), items[0].key;
      if k.Index? && k.n + 1 > rest then k.n + 1 else rest
  }

  function Push(items: seq<Item>, v: Node): seq<Item> {
    items + [Item(Index(NextIndex(items)), v)]
  }

  function List(vs: seq<Node>): (items: seq<Item>)
    ensures |items| == |vs|
  {
    seq(|vs|, i requires 0 <= i < |vs| => Item(Index(i), vs[i]))
  }

  function Fields(fs: seq<(string, Node)>): seq<Item> {
    seq(|fs|, i requires 0 <= i < |fs| => Item(Name(fs[i].0), fs[i].1))
  }

  /* ----- detect ----- */

  predicate Detects(b: Builder, p: Post) {
    match b
    case Elementor =>
      GetMeta(p.meta, "_elementor_edit_mode") == Str("builder") && AsString(GetMeta(p.meta, ELEMENTOR_META)) != ""
    case Divi => GetMeta(p.meta, "_et_pb_use_builder") == Str("on")
    case Beaver => Truthy(GetMeta(p.meta, "_fl_builder_enabled"))
    case Bricks =>
      var d := GetMeta(p.meta, BRICKS_META);
      (d.Arr? && d.items != []) || GetMeta(p.meta, "_bricks_editor_mode") == Str("bricks")
    case OxygenBuilder =>
      AsString(GetMeta(p.meta, JSON_META)) != "" || AsString(GetMeta(p.meta, SHORT_META)) != ""
    case WPBakery =>
      GetMeta(p.meta, "_wpb_vc_js_status") == Str("true") || Strpos(p.content, "[vc_row", 0) != -1
    case Gutenberg => Strpos(p.content, "<!-- wp:", 0) != -1
    case Classic => true
  }

  const ORDER: seq<Builder> := [Elementor, Divi, Beaver, Bricks, OxygenBuilder, WPBakery, Gutenberg, Classic]

  /** The first adapter, most specific first, that claims the post. */
  function ForPost(p: Post): Builder {
    FirstOf(ORDER, p)
  }

  function FirstOf(bs: seq<Builder>, p: Post): Builder {
    if bs == [] then Classic else if Detects(bs[0], p) then bs[0] else FirstOf(bs[1..], p)
  }

  /* ----- the adapters ----- */

  predicate InContent(b: Builder) { b.Classic? || b.Gutenberg? || b.Divi? || b.WPBakery? }

  predicate Shortcodes(b: Builder) { b.Divi? || b.WPBakery? }

  /** Does the builder's front end run `the_content`? */
  predicate RendersTheContent(b: Builder) { !b.OxygenBuilder? && !b.Bricks? }

  function Read(b: Builder, p: Post): State {
    match b
    case Elementor => State(None, [Item(Name(ELEMENTOR_META), Str(AsString(GetMeta(p.meta, ELEMENTOR_META))))])
    case Beaver => State(None, [Item(Name(BEAVER_META), GetMeta(p.meta, BEAVER_META))])
    case Bricks => State(None, [Item(Name(BRICKS_META), GetMeta(p.meta, BRICKS_META))])
    case OxygenBuilder =>
      var json, short := AsString(GetMeta(p.meta, JSON_META)), AsString(GetMeta(p.meta, SHORT_META));
      State(None,
            (if json != "" then [Item(Name(JSON_META), Str(json))] else [])
            + (if short != "" then [Item(Name(SHORT_META), Str(short))] else []))
    case _ => State(Some(p.content), [])
  }

  function TextRules(b: Builder, host: Host): Markup.Rules {
    Markup.Rules(Shortcodes(b), host.entity)
  }

  function ContentOf(s: State): string {
    s.content.GetOr("")
  }

  function ElementorTree(s: State, host: Host): Option<Node> {
    var raw := AsString(MetaOf(s, ELEMENTOR_META));
    if raw == "" then None
    else match host.json.decode(raw)
      case Some(Arr(items)) => Some(Arr(items))
      case _ => None
  }

  /** Edit the decoded tree `data` and store what `store` makes of the result. */
  function ReplaceTree(s: State, data: Node, find: string, replacement: string, host: Host,
                       store: Node -> State): Result
  {
    match Tree.Edit(data, find, replacement, host.entity)
    case Edited(tree) => Ok(store(tree))
    case Untouched(_, error) => Bad(s, InTree(error))
  }

  function StoreOxygen(s: State, depth: nat, host: Host): Node -> State {
    tree =>
      var meta := Assign(s.meta, Name(JSON_META), Str(Slashes.AddLayers(host.json.encode(tree), depth)));
      s.(meta := Unset(meta, Name(SHORT_META)))
  }

  function Replace(b: Builder, s: State, find: string, replacement: string, host: Host): Result {
    match b
    case Elementor =>
      (match ElementorTree(s, host)
       case None => Bad(s, Unreadable)
       case Some(tree) =>
         ReplaceTree(s, tree, find, replacement, host,
                     t => s.(meta := Assign(s.meta, Name(ELEMENTOR_META), Str(host.json.encode(t))))))
    case Beaver =>
      var data := host.unserialize(MetaOf(s, BEAVER_META));
      if !data.Arr? then Bad(s, Unreadable)
      else ReplaceTree(s, data, find, replacement, host, t => s.(meta := Assign(s.meta, Name(BEAVER_META), t)))
    case Bricks =>
      var data := MetaOf(s, BRICKS_META);
      if !data.Arr? then Bad(s, Unreadable)
      else ReplaceTree(s, data, find, replacement, host, t => s.(meta := Assign(s.meta, Name(BRICKS_META), t)))
    case OxygenBuilder =>
      if Truthy(MetaOf(s, JSON_META)) then
        (match Oxygen.DecodeJson(AsString(MetaOf(s, JSON_META)), host.json)
         case (None, _) => Bad(s, Unreadable)
         case (Some(tree), depth) => ReplaceTree(s, tree, find, replacement, host, StoreOxygen(s, depth, host)))
      else if Truthy(MetaOf(s, SHORT_META)) then
        (match T.Edit(AsString(MetaOf(s, SHORT_META)), find, replacement, Markup.Rules(true, host.entity))
         case Replaced(r) => Ok(s.(meta := Assign(s.meta, Name(SHORT_META), Str(r))))
         case Refused(source, error) => Bad(s.(meta := Assign(s.meta, Name(SHORT_META), Str(source))), InText(error)))
      else Bad(s, NoContent)
    case _ =>
      (match T.Edit(ContentOf(s), find, replacement, TextRules(b, host))
       case Replaced(r) => Ok(s.(content := Some(r)))
       case Refused(source, error) => Bad(s.(content := Some(source)), InText(error)))
  }

  /** What an adapter writes around an appended block. */
  function Opening(b: Builder): string {
    match b
    case Gutenberg => "<!-- wp:html -->\n"
    case Divi => "[et_pb_section admin_label=\"Livesov\"][et_pb_row][et_pb_column type=\"4_4\"][et_pb_text]"
    case WPBakery => "[vc_row][vc_column][vc_column_text]"
    case _ => ""
  }

  function Closing(b: Builder): string {
    match b
    case Gutenberg => "\n<!-- /wp:html -->"
    case Divi => "[/et_pb_text][/et_pb_column][/et_pb_row][/et_pb_section]"
    case WPBakery => "[/vc_column_text][/vc_column][/vc_row]"
    case _ => ""
  }

  function Wrapped(b: Builder, html: string): string {
    Opening(b) + html + Closing(b)
  }

  /** Random element ids, drawn by the caller. */
  datatype Ids = Ids(outer: string, column: string, widget: string)

  function ElementorSection(html: string, ids: Ids): Node {
    Arr(Fields([("id", Str(ids.outer)), ("elType", Str("section")), ("settings", Obj([])),
      ("elements", Arr(List([Arr(Fields([("id", Str(ids.column)), ("elType", Str("column")),
        ("settings", Arr(Fields([("_column_size", Num(100.0)), ("_inline_size", Null)]))),
        ("elements", Arr(List([Arr(Fields([("id", Str(ids.widget)), ("elType", Str("widget")),
          ("widgetType", Str("html")), ("settings", Arr(Fields([("html", Str(html))]))),
          ("elements", Arr([]))]))])))]))])))]))
  }

  function BricksElement(html: string, ids: Ids): Node {
    Arr(Fields([("id", Str(ids.outer)), ("name", Str("text-basic")), ("parent", Num(0.0)),
      ("children", Arr([])), ("settings", Arr(Fields([("text", Str(html))])))]))
  }

  function Append(b: Builder, s: State, html: string, ids: Ids, host: Host): Result {
    match b
    case Elementor =>
      (match ElementorTree(s, host)
       case Some(Arr(items)) =>
         var tree := Arr(Push(items, ElementorSection(html, ids)));
         Ok(s.(meta := Assign(s.meta, Name(ELEMENTOR_META), Str(host.json.encode(tree)))))
       case _ => Bad(s, Unreadable))
    case Bricks =>
      (match MetaOf(s, BRICKS_META)
       case Arr(items) =>
         Ok(s.(meta := Assign(s.meta, Name(BRICKS_META), Arr(Push(items, BricksElement(html, ids))))))
       case _ => Bad(s, Unreadable))
    case Beaver => Bad(s, NoNativeAppend)
    case OxygenBuilder => Bad(s, NoNativeAppend)
    case _ => Ok(s.(content := Some(Rtrim(ContentOf(s)) + "\n\n" + Wrapped(b, html))))
  }
}
