/** Oxygen's stored JSON: peel the slashing until it parses, and put the same layers back. */
module Oxygen {
  import opened Php
  import opened Tree
  import opened Slashes

  /** `json_decode(…, true)` and `wp_json_encode`, as the host provides them. */
  datatype Json = Json(decode: string -> Option<Node>, encode: Node -> string)

  const BOM := "\U{EF}\U{BB}\U{BF}"

  function WithoutBom(s: string): string {
    if StartsWith(s, BOM) then s[|BOM|..] else s
  }

  /** A backslash before the first quote: never the case in JSON text (RFC 8259, sections 2 and 7). */
  predicate SlashedOutside(s: string) {
    s != "" && s[0] != '\"' && (s[0] == '\\' || SlashedOutside(s[1..]))
  }

  /** Does the value hold a string anywhere? */
  predicate HasString(v: Node)
    decreases v, 1
  {
    match v
    case Str(_) => true
    case Arr(items) => HasStringItems(items)
    case Obj(items) => HasStringItems(items)
    case _ => false
  }

  predicate HasStringItems(items: seq<Item>)
    decreases items, 0
  {
    items != [] && ((assert items[0].value < items[0]; HasString(items[0].value)) || HasStringItems(items[1..]))
  }

  /** What JSON promises of text that parses: it is not slashed outside its strings, has no byte order
      mark, gives distinct keys, and has a quote in it if it gives a string. */
  ghost predicate JsonLaws(json: Json) {
    forall s :: json.decode(s).Some? ==>
      && !SlashedOutside(s) && !StartsWith(s, BOM)
      && Wf(json.decode(s).value) && (HasString(json.decode(s).value) ==> '\"' in s)
  }

  /** The peeling loop of `decode_json`, from layer `d` on. */
  function Peel(raw: string, d: nat, json: Json): (Option<Node>, nat)
    decreases 4 - d
  {
    if d > 3 then (None, 0)
    else
      var v := json.decode(StripLayers(raw, d));
      if v.Some? && v.value.Arr? then (v, d) else Peel(raw, d + 1, json)
  }

  function DecodeJson(raw: string, json: Json): (Option<Node>, nat) {
    Peel(WithoutBom(raw), 0, json)
  }

  lemma {:induction false} StripLayersSnoc(s: string, d: nat)
    ensures StripLayers(s, d + 1) == StripSlashes(StripLayers(s, d))
    decreases d
  {
    if d == 0 {
    } else {
      StripLayersSnoc(StripSlashes(s), d - 1);
    }
  }

  method Decode(raw: string, json: Json) returns (tree: Option<Node>, depth: nat)
    ensures (tree, depth) == DecodeJson(raw, json)
  {
    var text := WithoutBom(raw);
    depth := 0;
    while depth <= 3
      invariant depth <= 4
      invariant Peel(text, depth, json) == DecodeJson(raw, json)
    {
      var candidate := text;
      for i := 0 to depth
        invariant candidate == StripLayers(text, i)
      {
        StripLayersSnoc(text, i);
        candidate := StripSlashes(candidate);
      }
      tree := json.decode(candidate);
      if tree.Some? && tree.value.Arr? { return; }
      depth := depth + 1;
    }
    return None, 0;
  }

  /** `wp_json_encode`, then as many rounds of `addslashes` as were peeled off. */
  method Encode(tree: Node, depth: nat, json: Json) returns (encoded: string)
    ensures encoded == AddLayers(json.encode(tree), depth)
  {
    encoded := json.encode(tree);
    for i := 0 to depth
      invariant encoded == AddLayers(json.encode(tree), i)
    {
      encoded := AddSlashes(encoded);
    }
  }

  /* ----- the round trip ----- */

  /** One round of slashing puts a backslash before the first quote. */
  lemma {:induction false} AddSlashesOutside(s: string)
    requires '\"' in s
    ensures SlashedOutside(AddSlashes(s)) && '\"' in AddSlashes(s)
  {
    var a := AddSlashes(s[1..]);
    if NeedsSlash(s[0]) {
      var h := if s[0] == '\0' then "\\0" else ['\\', s[0]];
      assert AddSlashes(s) == h + a && (h + a)[0] == '\\';
      if s[0] == '\"' {
        assert (h + a)[1] == '\"';
      } else {
        AddSlashesOutside(s[1..]);
        assert a == (h + a)[2..];
      }
    } else {
      AddSlashesOutside(s[1..]);
      assert AddSlashes(s) == [s[0]] + a && ([s[0]] + a)[1..] == a;
    }
  }

  lemma {:induction false} LayersSlashedOutside(s: string, d: nat)
    requires '\"' in s
    ensures '\"' in AddLayers(s, d)
    ensures d > 0 ==> SlashedOutside(AddLayers(s, d))
  {
    if d == 0 {
    } else {
      LayersSlashedOutside(s, d - 1);
      AddSlashesOutside(AddLayers(s, d - 1));
    }
  }

  lemma AddSlashesBom(s: string)
    ensures StartsWith(AddSlashes(s), BOM) ==> StartsWith(s, BOM)
  {
    var t := AddSlashes(s);
    if |t| >= 3 {
      var h := t[0..3];
      assert h[0] == t[0] && h[1] == t[1] && h[2] == t[2];
    }
    if StartsWith(t, BOM) {
      FirstBytes(s, 3);
      assert s[0..3] == BOM;
    }
  }

  /** Bytes that are not escaped come through in place. */
  lemma {:induction false} FirstBytes(s: string, n: nat)
    requires n <= |AddSlashes(s)|
    requires forall k :: 0 <= k < n ==> AddSlashes(s)[k] != '\\'
    ensures n <= |s| && s[..n] == AddSlashes(s)[..n]
  {
    if n == 0 {
    } else {
      FirstByte(s);
      hide AddSlashes;
      var a := AddSlashes(s[1..]);
      forall k | 0 <= k < n - 1
        ensures a[k] != '\\'
      {
        assert a[k] == AddSlashes(s)[k + 1];
      }
      FirstBytes(s[1..], n - 1);
      assert AddSlashes(s)[..n] == [s[0]] + a[..n - 1];
      assert s[..n] == [s[0]] + s[1..][..n - 1];
    }
  }

  lemma FirstByte(s: string)
    requires AddSlashes(s) != "" && AddSlashes(s)[0] != '\\'
    ensures s != "" && AddSlashes(s) == [s[0]] + AddSlashes(s[1..])
  {
    assert !NeedsSlash(s[0]);
  }

  lemma {:induction false} LayersBom(s: string, d: nat)
    requires !StartsWith(s, BOM)
    ensures !StartsWith(AddLayers(s, d), BOM)
  {
    if d == 0 {
    } else {
      LayersBom(s, d - 1);
      AddSlashesBom(AddLayers(s, d - 1));
    }
  }

  lemma {:induction false} PeelSlashed(enc: string, d: nat, k: nat, json: Json)
    requires JsonLaws(json) && k <= d <= 3
    requires '\"' in enc && json.decode(enc).Some? && json.decode(enc).value.Arr?
    ensures Peel(AddLayers(enc, d), k, json) == (json.decode(enc), d)
    decreases d - k
  {
    PeelLayers(enc, d, k);
    if k < d {
      LayersSlashedOutside(enc, d - k);
      PeelSlashed(enc, d, k + 1, json);
    }
  }

  /** A tree written at depth `d` is read back as the same tree at the same depth. */
  lemma WrittenIsReadBack(tree: Node, d: nat, json: Json)
    requires JsonLaws(json) && d <= 3 && tree.Arr? && HasString(tree)
    requires json.decode(json.encode(tree)) == Some(tree)
    ensures DecodeJson(AddLayers(json.encode(tree), d), json) == (Some(tree), d)
  {
    var enc := json.encode(tree);
    LayersBom(enc, d);
    PeelSlashed(enc, d, 0, json);
  }

  lemma {:induction false} StringAt(v: Node, p: Path)
    requires At(v, p).Some? && At(v, p).value.Str?
    ensures HasString(v)
    decreases |p|
  {
    if p == [] {
    } else {
      var i := IndexOf(v.items, p[0]);
      StringAt(v.items[i].value, p[1..]);
      StringInItem(v.items, i);
    }
  }

  lemma {:induction false} StringInItem(items: seq<Item>, i: nat)
    requires i < |items| && HasString(items[i].value)
    ensures HasStringItems(items)
  {
    if i == 0 {
    } else {
      StringInItem(items[1..], i - 1);
    }
  }

  lemma {:induction false} PeelFinds(raw: string, d: nat, json: Json)
    ensures var (tree, depth) := Peel(raw, d, json);
            tree.Some? ==> depth <= 3 && json.decode(StripLayers(raw, depth)) == tree && tree.value.Arr?
    decreases 4 - d
  {
    if d <= 3 {
      PeelFinds(raw, d + 1, json);
    }
  }

  /** An edited tree is an array with a string in it, as the one it was made from. */
  lemma EditedTree(raw: string, find: string, replacement: string, entity: string -> string, json: Json)
    requires JsonLaws(json) && DecodeJson(raw, json).0.Some?
    requires Tree.Edit(DecodeJson(raw, json).0.value, find, replacement, entity).Edited?
    ensures var tree := Tree.Edit(DecodeJson(raw, json).0.value, find, replacement, entity).data;
            tree.Arr? && HasString(tree)
    ensures DecodeJson(raw, json).1 <= 3
  {
    PeelFinds(WithoutBom(raw), 0, json);
    var (before, depth) := DecodeJson(raw, json);
    hide Tree.Edit, Peel, JsonLaws;
    DecodedIsWf(WithoutBom(raw), depth, json);
    TreeEditDecision(before.value, find, replacement, entity);
    var p :| Accepted(before.value, p, find, replacement, entity);
    TreeEditFrame(before.value, p, find, replacement, entity);
    var tree := Tree.Edit(before.value, find, replacement, entity).data;
    StringAt(tree, p);
    assert tree.Arr? by { assert Blank(before.value).Arr? && Blank(tree).Arr?; }
  }

  /**
   * Editing the tree that a stored value decodes to and writing it back with the recorded
   * layers gives a value that decodes to the edited tree at the same depth.
   */
  lemma EditRoundTrip(raw: string, find: string, replacement: string, entity: string -> string, json: Json)
    requires JsonLaws(json) && DecodeJson(raw, json).0.Some?
    requires Tree.Edit(DecodeJson(raw, json).0.value, find, replacement, entity).Edited?
    requires var tree := Tree.Edit(DecodeJson(raw, json).0.value, find, replacement, entity).data;
             json.decode(json.encode(tree)) == Some(tree)
    ensures var (before, depth) := DecodeJson(raw, json);
            var tree := Tree.Edit(before.value, find, replacement, entity).data;
            DecodeJson(AddLayers(json.encode(tree), depth), json) == (Some(tree), depth)
  {
    hide Tree.Edit, DecodeJson, JsonLaws;
    EditedTree(raw, find, replacement, entity, json);
    var (before, depth) := DecodeJson(raw, json);
    WrittenIsReadBack(Tree.Edit(before.value, find, replacement, entity).data, depth, json);
  }

  /** A byte order mark in front of the text makes no difference. */
  lemma BomIsIgnored(s: string, json: Json)
    requires !StartsWith(s, BOM)
    ensures DecodeJson("\U{EF}\U{BB}\U{BF}" + s, json) == DecodeJson(s, json)
  {
    var raw := BOM + s;
    assert raw[0..3] == BOM && raw[3..] == s;
  }

  lemma DecodedIsWf(raw: string, depth: nat, json: Json)
    requires JsonLaws(json) && json.decode(StripLayers(raw, depth)).Some?
    ensures Wf(json.decode(StripLayers(raw, depth)).value)
  {
  }

  /* ----- through the store ----- */

  /** Every escape in the text is `\/`, which JSON may write but need not (RFC 8259, section 7). */
  predicate OnlySlashEscapes(s: string) {
    s == "" || (if s[0] == '\\' then |s| > 1 && s[1] == '/' && OnlySlashEscapes(s[2..]) else OnlySlashEscapes(s[1..]))
  }

  /** The text with `/` written as it is. */
  function PlainSlashes(s: string): string {
    if s == "" then ""
    else if s[0] == '\\' && |s| > 1 then (if s[1] == '/' then "/" else s[..2]) + PlainSlashes(s[2..])
    else [s[0]] + PlainSlashes(s[1..])
  }

  lemma {:induction false} StripIsPlain(s: string)
    requires OnlySlashEscapes(s)
    ensures StripSlashes(s) == PlainSlashes(s)
    decreases |s|
  {
    if s == "" {
    } else if s[0] == '\\' {
      StripIsPlain(s[2..]);
    } else {
      StripIsPlain(s[1..]);
    }
  }

  /**
   * The meta store unslashes once more on the way in.  So a value written at depth `d > 0` is
   * kept one layer shallower, and still read back as the same tree.  At depth 0 the text itself
   * is kept exactly when it contains no backslash; the tree is read back also when its only
   * escapes are those of `/`.
   */
  lemma StoredLayers(tree: Node, d: nat, json: Json)
    requires JsonLaws(json) && d <= 3 && tree.Arr? && HasString(tree)
    requires json.decode(json.encode(tree)) == Some(tree)
    requires json.decode(PlainSlashes(json.encode(tree))) == json.decode(json.encode(tree))
    ensures d > 0 ==> DecodeJson(StripSlashes(AddLayers(json.encode(tree), d)), json) == (Some(tree), d - 1)
    ensures d == 0 ==> (StripSlashes(AddLayers(json.encode(tree), d)) == json.encode(tree)
                        <==> '\\' !in json.encode(tree))
    ensures d == 0 && OnlySlashEscapes(json.encode(tree)) ==>
              DecodeJson(StripSlashes(json.encode(tree)), json) == (Some(tree), 0)
  {
    var enc := json.encode(tree);
    if d > 0 {
      StripAdd(AddLayers(enc, d - 1));
      WrittenIsReadBack(tree, d - 1, json);
    } else {
      StripFixed(enc);
      if OnlySlashEscapes(enc) {
        StripIsPlain(enc);
        ReadAtOnce(PlainSlashes(enc), tree, json);
      }
    }
  }

  lemma ReadAtOnce(s: string, tree: Node, json: Json)
    requires JsonLaws(json) && json.decode(s) == Some(tree) && tree.Arr?
    ensures DecodeJson(s, json) == (Some(tree), 0)
  {
    hide SlashedOutside, Wf, HasString;
  }

  const BROKEN_LINE := "[\"a\\nb\"]"
  const JOINED_LINE := "[\"anb\"]"

  /** At depth 0 another escape is lost, and the tree with it: a line break in a text becomes an `n`. */
  lemma EscapeIsLost(json: Json)
    requires JsonLaws(json)
    requires json.decode(BROKEN_LINE) == Some(Arr([Item(Index(0), Str("a\nb"))]))
    requires json.decode(JOINED_LINE) == Some(Arr([Item(Index(0), Str("anb"))]))
    ensures DecodeJson(BROKEN_LINE, json) == (json.decode(BROKEN_LINE), 0)
    ensures DecodeJson(StripSlashes(BROKEN_LINE), json) == (json.decode(JOINED_LINE), 0)
    ensures json.decode(BROKEN_LINE) != json.decode(JOINED_LINE)
  {
    hide JsonLaws, DecodeJson;
    StripBroken();
    ReadAtOnce(BROKEN_LINE, json.decode(BROKEN_LINE).value, json);
    ReadAtOnce(JOINED_LINE, json.decode(JOINED_LINE).value, json);
    assert "a\nb"[1] != "anb"[1];
  }

  lemma StripBroken()
    ensures StripSlashes(BROKEN_LINE) == JOINED_LINE
  {
    var s := BROKEN_LINE;
    assert s[1..] == "\"a\\nb\"]" && s[1..][1..] == "a\\nb\"]" && s[1..][1..][1..] == "\\nb\"]";
    assert "\\nb\"]"[2..] == "b\"]" && "b\"]"[1..] == "\"]" && "\"]"[1..] == "]" && "]"[1..] == "";
    assert StripSlashes("]") == "]" && StripSlashes("\"]") == "\"]" && StripSlashes("b\"]") == "b\"]";
    assert StripSlashes("\\nb\"]") == "nb\"]" && StripSlashes("a\\nb\"]") == "anb\"]";
    assert StripSlashes("\"a\\nb\"]") == "\"anb\"]";
  }
}
