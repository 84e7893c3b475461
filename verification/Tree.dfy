/** `Lvx_Tree`: editing the one string of a builder's nested data that shows a passage. */
module Tree {
  import opened Php
  import opened Markup
  import T = Text

  /** A PHP array key.  PHP turns the string "7" into the integer 7, so a key has one form only. */
  datatype Key = Index(n: int) | Name(s: string)

  datatype Item = Item(key: Key, value: Node)

  /** A decoded value: scalars, strings, PHP arrays (ordered) and objects. */
  datatype Node =
    | Null
    | Bool(b: bool)
    | Num(r: real)
    | Str(s: string)
    | Arr(items: seq<Item>)
    | Obj(items: seq<Item>)
  {
    predicate IsContainer() { Arr? || Obj? }
  }

  type Path = seq<Key>

  const SKIP_KEYS: seq<string> := [
    "id", "_id", "elid", "url", "link", "href", "src", "image", "css",
    "class", "classes", "type", "eltype", "widgettype", "name", "parent",
    "_element_id", "ct_id", "ct_parent", "template", "slug"]

  /** Plumbing keys; an integer key never spells one of them. */
  predicate Skippable(k: Key) {
    k.Name? && Lower(k.s) in SKIP_KEYS
  }

  predicate Clean(p: Path) {
    forall i :: 0 <= i < |p| ==> !Skippable(p[i])
  }

  /* ----- addressing ----- */

  function IndexOf(items: seq<Item>, k: Key): (i: int)
    ensures -1 <= i < |items|
    ensures i >= 0 ==> items[i].key == k && forall j :: 0 <= j < i ==> items[j].key != k
    ensures i == -1 ==> forall j :: 0 <= j < |items| ==> items[j].key != k
  {
    if items == [] then -1
    else if items[0].key == k then 0
    else
      var r := IndexOf(items[1..], k);
      if r == -1 then -1 else r + 1
  }

  function Child(node: Node, k: Key): Option<Node> {
    if node.IsContainer() && IndexOf(node.items, k) != -1 then Some(node.items[IndexOf(node.items, k)].value) else None
  }

  function At(node: Node, p: Path): Option<Node> {
    if p == [] then Some(node)
    else match Child(node, p[0])
      case None => None
      case Some(c) => At(c, p[1..])
  }

  /** The tree with `leaf` at `p`; a path that leads nowhere changes nothing. */
  function Put(node: Node, p: Path, leaf: Node): Node
    decreases |p|
  {
    if p == [] then leaf
    else if !node.IsContainer() || IndexOf(node.items, p[0]) == -1 then node
    else
      var i := IndexOf(node.items, p[0]);
      node.(items := node.items[i := Item(p[0], Put(node.items[i].value, p[1..], leaf))])
  }

  /** Keys are distinct in every array and object, as PHP guarantees. */
  predicate Wf(node: Node)
    decreases node, 1
  {
    node.IsContainer() ==> WfItems(node.items)
  }

  predicate WfItems(items: seq<Item>)
    decreases items, 0
  {
    items != [] ==>
      && IndexOf(items[1..], items[0].key) == -1
      && (assert items[0].value < items[0]; Wf(items[0].value))
      && WfItems(items[1..])
  }

  /* ----- collecting the candidates ----- */

  predicate Eligible(node: Node, p: Path, shows: string -> bool) {
    Clean(p) && At(node, p).Some? && At(node, p).value.Str? && shows(At(node, p).value.s)
  }

  /** What the walk appends to `$hits`. */
  function Collected(node: Node, path: Path, shows: string -> bool): seq<Path>
    decreases node, 1
  {
    match node
    case Str(s) => if shows(s) then [path] else []
    case Arr(items) => CollectedItems(items, path, shows)
    case Obj(items) => CollectedItems(items, path, shows)
    case _ => []
  }

  function CollectedItem(item: Item, path: Path, shows: string -> bool): seq<Path>
    decreases item, 0
  {
    if Skippable(item.key) then [] else Collected(item.value, path + [item.key], shows)
  }

  function CollectedItems(items: seq<Item>, path: Path, shows: string -> bool): seq<Path>
    decreases items, 0
  {
    if items == [] then [] else CollectedItem(items[0], path, shows) + CollectedItems(items[1..], path, shows)
  }

  /** Every candidate lies below the node it was found from ... */
  lemma {:induction false} CollectedBelow(node: Node, path: Path, shows: string -> bool, p: Path)
    requires p in Collected(node, path, shows)
    ensures path <= p
    decreases node, 1
  {
    if node.IsContainer() {
      CollectedItemsBelow(node.items, path, shows, p);
    }
  }

  lemma {:induction false} CollectedItemBelow(item: Item, path: Path, shows: string -> bool, p: Path)
    requires p in CollectedItem(item, path, shows)
    ensures |path| < |p| && path <= p && p[|path|] == item.key
    decreases item, 0
  {
    var head := path + [item.key];
    CollectedBelow(item.value, head, shows, p);
    assert head[|path|] == item.key && head[..|path|] == path;
  }

  /** ... under one of its keys. */
  lemma {:induction false} CollectedItemsBelow(items: seq<Item>, path: Path, shows: string -> bool, p: Path)
    requires p in CollectedItems(items, path, shows)
    ensures |path| < |p| && path <= p && IndexOf(items, p[|path|]) != -1
    decreases items, 0
  {
    if p in CollectedItem(items[0], path, shows) {
      CollectedItemBelow(items[0], path, shows, p);
    } else {
      CollectedItemsBelow(items[1..], path, shows, p);
    }
  }

  lemma EligibleBelow(node: Node, q: Path, shows: string -> bool)
    requires node.IsContainer()
    ensures Eligible(node, q, shows)
            <==> q != [] && !Skippable(q[0]) && Child(node, q[0]).Some?
                 && Eligible(Child(node, q[0]).value, q[1..], shows)
  {
    if q != [] {
      assert forall i :: 0 < i < |q| ==> q[i] == q[1..][i - 1];
      assert Clean(q) <==> !Skippable(q[0]) && Clean(q[1..]);
    }
  }

  lemma {:induction false} CollectedIff(node: Node, path: Path, q: Path, shows: string -> bool)
    requires Wf(node)
    ensures path + q in Collected(node, path, shows) <==> Eligible(node, q, shows)
    decreases node, 1
  {
    if node.IsContainer() {
      CollectedItemsIff(node.items, path, q, shows);
      EligibleBelow(node, q, shows);
    } else {
      assert path + q == path <==> q == [];
    }
  }

  predicate EligibleItem(item: Item, q: Path, shows: string -> bool) {
    q != [] && !Skippable(q[0]) && item.key == q[0] && Eligible(item.value, q[1..], shows)
  }

  lemma {:induction false} CollectedItemIff(item: Item, path: Path, q: Path, shows: string -> bool)
    requires Wf(item.value)
    ensures path + q in CollectedItem(item, path, shows) <==> EligibleItem(item, q, shows)
    decreases item, 0
  {
    hide Collected, Eligible;
    if q != [] && q[0] == item.key {
      assert path + q == (path + [item.key]) + q[1..];
      CollectedIff(item.value, path + [item.key], q[1..], shows);
    } else if path + q in CollectedItem(item, path, shows) {
      CollectedItemBelow(item, path, shows, path + q);
    }
  }

  lemma {:induction false} CollectedItemsIff(items: seq<Item>, path: Path, q: Path, shows: string -> bool)
    requires WfItems(items)
    ensures path + q in CollectedItems(items, path, shows)
            <==> q != [] && IndexOf(items, q[0]) != -1 && EligibleItem(items[IndexOf(items, q[0])], q, shows)
    decreases items, 0
  {
    if items == [] {
    } else {
      hide EligibleItem, CollectedItem, Wf;
      CollectedItemIff(items[0], path, q, shows);
      CollectedItemsIff(items[1..], path, q, shows);
      InConcat(CollectedItem(items[0], path, shows), CollectedItems(items[1..], path, shows), path + q);
      if q != [] && q[0] != items[0].key {
        NotThisItem(items[0], q, shows);
      }
    }
  }

  lemma InConcat(a: seq<Path>, b: seq<Path>, p: Path)
    ensures p in a + b <==> p in a || p in b
  {
  }

  lemma NotThisItem(item: Item, q: Path, shows: string -> bool)
    requires q != [] && q[0] != item.key
    ensures !EligibleItem(item, q, shows)
  {
  }

  predicate Distinct(ps: seq<Path>) {
    forall i, j :: 0 <= i < j < |ps| ==> ps[i] != ps[j]
  }

  lemma DistinctConcat(a: seq<Path>, b: seq<Path>)
    requires Distinct(a) && Distinct(b) && forall p :: p in a ==> p !in b
    ensures Distinct(a + b)
  {
    var c := a + b;
    forall i, j | 0 <= i < j < |c|
      ensures c[i] != c[j]
    {
      if i < |a| <= j {
        assert c[i] == a[i] && c[j] == b[j - |a|] && a[i] in a;
      } else if |a| <= i {
        assert c[i] == b[i - |a|] && c[j] == b[j - |a|];
      }
    }
  }

  lemma RepeatedIsNotDistinct(ps: seq<Path>, p: Path)
    requires |ps| > 1 && forall i :: 0 <= i < |ps| ==> ps[i] == p
    ensures !Distinct(ps)
  {
    assert ps[0] == ps[1];
  }

  /** No candidate is collected twice. */
  lemma {:induction false} CollectedDistinct(node: Node, path: Path, shows: string -> bool)
    requires Wf(node)
    ensures Distinct(Collected(node, path, shows))
    decreases node, 1
  {
    if node.IsContainer() {
      CollectedItemsDistinct(node.items, path, shows);
    }
  }

  lemma {:induction false} CollectedItemsDistinct(items: seq<Item>, path: Path, shows: string -> bool)
    requires WfItems(items)
    ensures Distinct(CollectedItems(items, path, shows))
    decreases items, 0
  {
    if items == [] {
    } else {
      assert items[0].value < items[0];
      CollectedDistinct(items[0].value, path + [items[0].key], shows);
      CollectedItemsDistinct(items[1..], path, shows);
      var a, b := CollectedItem(items[0], path, shows), CollectedItems(items[1..], path, shows);
      assert Distinct(a);
      hide Collected, CollectedItem, CollectedItems, Wf, Distinct;
      forall p | p in a
        ensures p !in b
      {
        CollectedItemBelow(items[0], path, shows, p);
        if p in b {
          CollectedItemsBelow(items[1..], path, shows, p);
        }
      }
      DistinctConcat(a, b);
    }
  }

  /* ----- rebuilding the tree ----- */

  /** The scalar at the end of `p`, if `p` leads to one. */
  function Leaf(node: Node, p: Path): Option<Node> {
    if At(node, p).Some? && !At(node, p).value.IsContainer() then At(node, p) else None
  }

  /** The tree with every string emptied: its shape, keys, order and other scalars. */
  function Blank(node: Node): Node
    decreases node, 1
  {
    match node
    case Str(_) => Str("")
    case Arr(items) => Arr(BlankItems(items))
    case Obj(items) => Obj(BlankItems(items))
    case _ => node
  }

  function BlankItems(items: seq<Item>): (r: seq<Item>)
    ensures |r| == |items|
    decreases items, 0
  {
    if items == [] then [] else
      assert items[0].value < items[0];
      [Item(items[0].key, Blank(items[0].value))] + BlankItems(items[1..])
  }

  lemma {:induction false} BlankItemAt(items: seq<Item>, i: nat)
    requires i < |items|
    ensures BlankItems(items)[i] == Item(items[i].key, Blank(items[i].value))
  {
    if i == 0 {
    } else {
      BlankItemAt(items[1..], i - 1);
    }
  }

  lemma {:induction false} IndexOfUpdate(items: seq<Item>, i: nat, v: Node, k: Key)
    requires i < |items|
    ensures IndexOf(items[i := Item(items[i].key, v)], k) == IndexOf(items, k)
  {
    var other := items[i := Item(items[i].key, v)];
    var a, b := IndexOf(items, k), IndexOf(other, k);
    assert forall j :: 0 <= j < |items| ==> other[j].key == items[j].key;
    if a != -1 {
      assert other[a].key == k;
    }
    if b != -1 {
      assert items[b].key == k;
    }
  }

  lemma BlankUpdate(items: seq<Item>, i: nat, v: Node)
    requires i < |items| && Blank(v) == Blank(items[i].value)
    ensures BlankItems(items[i := Item(items[i].key, v)]) == BlankItems(items)
  {
    hide Blank, BlankItems;
    var other := items[i := Item(items[i].key, v)];
    forall j | 0 <= j < |items|
      ensures BlankItems(other)[j] == BlankItems(items)[j]
    {
      BlankItemAt(items, j);
      BlankItemAt(other, j);
    }
  }

  lemma {:induction false} PutShape(node: Node, p: Path, leaf: Node)
    requires At(node, p).Some? && Blank(At(node, p).value) == Blank(leaf)
    ensures Blank(Put(node, p, leaf)) == Blank(node)
    decreases |p|
  {
    if p == [] {
    } else {
      var i := IndexOf(node.items, p[0]);
      PutShape(node.items[i].value, p[1..], leaf);
      BlankUpdate(node.items, i, Put(node.items[i].value, p[1..], leaf));
    }
  }

  lemma {:induction false} PutThere(node: Node, p: Path, leaf: Node)
    requires At(node, p).Some?
    ensures At(Put(node, p, leaf), p) == Some(leaf)
    decreases |p|
  {
    if p == [] {
    } else {
      var i := IndexOf(node.items, p[0]);
      PutThere(node.items[i].value, p[1..], leaf);
      IndexOfUpdate(node.items, i, Put(node.items[i].value, p[1..], leaf), p[0]);
    }
  }

  lemma LeafBelow(node: Node, q: Path)
    requires q != []
    ensures Leaf(node, q) == if Child(node, q[0]).Some? then Leaf(Child(node, q[0]).value, q[1..]) else None
  {
  }

  /** One level of `Put`: the named child is rebuilt, every other child is kept. */
  lemma PutChild(node: Node, p: Path, leaf: Node, k: Key)
    requires p != [] && Child(node, p[0]).Some?
    ensures Child(Put(node, p, leaf), k)
            == if k == p[0] then Some(Put(Child(node, p[0]).value, p[1..], leaf)) else Child(node, k)
  {
    var i := IndexOf(node.items, p[0]);
    var v := Put(node.items[i].value, p[1..], leaf);
    IndexOfUpdate(node.items, i, v, k);
  }

  /** Nothing else changes: every other leaf of the tree is where and what it was. */
  lemma {:induction false} PutElsewhere(node: Node, p: Path, leaf: Node, q: Path)
    requires At(node, p).Some? && At(node, p).value.Str? && leaf.Str? && q != p
    ensures Leaf(Put(node, p, leaf), q) == Leaf(node, q)
    decreases |p|
  {
    if p != [] && q != [] {
      PutChild(node, p, leaf, q[0]);
      LeafBelow(node, q);
      LeafBelow(Put(node, p, leaf), q);
      if q[0] == p[0] {
        assert q == [q[0]] + q[1..] && p == [p[0]] + p[1..];
        PutElsewhere(Child(node, p[0]).value, p[1..], leaf, q[1..]);
      }
    }
  }

  /* ----- Lvx_Tree::replace ----- */

  datatype TreeError = NotInTree | InSeveral(n: nat) | NotApplied

  datatype TreeOutcome = Edited(data: Node) | Untouched(data: Node, error: TreeError)

  /** The tree walk never treats `[...]` as a shortcode. */
  function Shows(find: string, entity: string -> string): string -> bool {
    s => T.Contains(s, find, Rules(false, entity))
  }

  function Edit(data: Node, find: string, replacement: string, entity: string -> string): TreeOutcome {
    var hits := Collected(data, [], Shows(find, entity));
    if |hits| == 0 then Untouched(data, NotInTree)
    else if |hits| > 1 then Untouched(data, InSeveral(|hits|))
    else EditAt(data, hits[0], find, replacement, entity)
  }

  function EditAt(data: Node, p: Path, find: string, replacement: string, entity: string -> string): TreeOutcome {
    match At(data, p)
    case Some(Str(s)) =>
      (match T.Edit(s, find, replacement, Rules(false, entity))
       case Replaced(r) => Edited(Put(data, p, Str(r)))
       case Refused(_, _) => Untouched(data, NotApplied))
    case _ => Untouched(data, NotApplied)
  }

  /** `p` is the one place of the tree that shows the passage. */
  ghost predicate OnlyPlace(data: Node, p: Path, find: string, entity: string -> string) {
    && Eligible(data, p, Shows(find, entity))
    && forall q :: Eligible(data, q, Shows(find, entity)) ==> q == p
  }

  lemma HitsAreEligible(data: Node, find: string, entity: string -> string)
    requires Wf(data)
    ensures var hits := Collected(data, [], Shows(find, entity));
            && (forall q: Path :: q in hits <==> Eligible(data, q, Shows(find, entity)))
            && (|hits| == 1 ==> OnlyPlace(data, hits[0], find, entity))
            && (forall p :: OnlyPlace(data, p, find, entity) ==> hits == [p])
  {
    hide Collected, Eligible, Wf;
    var shows := Shows(find, entity);
    var hits := Collected(data, [], shows);
    forall q: Path
      ensures q in hits <==> Eligible(data, q, shows)
    {
      CollectedIff(data, [], q, shows);
      assert [] + q == q;
    }
    CollectedDistinct(data, [], shows);
    forall p | OnlyPlace(data, p, find, entity)
      ensures hits == [p]
    {
      assert p in hits;
      assert forall i :: 0 <= i < |hits| ==> hits[i] in hits;
      hide Distinct;
      if |hits| > 1 {
        RepeatedIsNotDistinct(hits, p);
      }
    }
  }

  /** `p` is the only place that shows the passage, and the splice into its string is accepted. */
  ghost predicate Accepted(data: Node, p: Path, find: string, replacement: string, entity: string -> string) {
    && OnlyPlace(data, p, find, entity)
    && T.Edit(At(data, p).value.s, find, replacement, Rules(false, entity)).Replaced?
  }

  lemma OnlyPlaceIsString(data: Node, p: Path, find: string, entity: string -> string)
    requires OnlyPlace(data, p, find, entity)
    ensures Clean(p) && At(data, p).Some? && At(data, p).value.Str?
  {
  }

  lemma SoleHit(data: Node, find: string, entity: string -> string)
    requires Wf(data)
    ensures |Collected(data, [], Shows(find, entity))| == 1
            ==> OnlyPlace(data, Collected(data, [], Shows(find, entity))[0], find, entity)
    ensures forall p :: OnlyPlace(data, p, find, entity) ==> Collected(data, [], Shows(find, entity)) == [p]
  {
    hide *;
    HitsAreEligible(data, find, entity);
  }

  /** The edit succeeds exactly when there is such a place; otherwise the tree comes back as it was. */
  lemma TreeEditDecision(data: Node, find: string, replacement: string, entity: string -> string)
    requires Wf(data)
    ensures Edit(data, find, replacement, entity).Edited?
            <==> exists p :: Accepted(data, p, find, replacement, entity)
    ensures Edit(data, find, replacement, entity).Untouched? ==> Edit(data, find, replacement, entity).data == data
  {
    hide Collected, Wf, Put, Shows, T.Edit, At, OnlyPlace;
    SoleHit(data, find, entity);
    var hits := Collected(data, [], Shows(find, entity));
    if |hits| == 1 {
      OnlyPlaceIsString(data, hits[0], find, entity);
      if Edit(data, find, replacement, entity).Edited? {
        assert Accepted(data, hits[0], find, replacement, entity);
      }
    }
  }

  /** Why an edit is refused: no place shows the passage, or several, or the splice into the one is refused. */
  lemma WhyUntouched(data: Node, find: string, replacement: string, entity: string -> string)
    requires Wf(data) && Edit(data, find, replacement, entity).Untouched?
    ensures var why, shows := Edit(data, find, replacement, entity).error, Shows(find, entity);
            && (why == NotInTree <==> forall q: Path :: !Eligible(data, q, shows))
            && (why.InSeveral? <==> exists p, q :: p != q && Eligible(data, p, shows) && Eligible(data, q, shows))
            && (why.InSeveral? ==>
                  forall ps :: Distinct(ps) && (forall q: Path :: q in ps <==> Eligible(data, q, shows))
                    ==> why.n == |ps|)
  {
    hide Collected, Eligible, Wf, Shows, EditAt;
    var hits := Collected(data, [], Shows(find, entity));
    HitsAreEligible(data, find, entity);
    CollectedDistinct(data, [], Shows(find, entity));
    if |hits| == 0 {
      assert forall q: Path :: q in hits <==> Eligible(data, q, Shows(find, entity));
    } else {
      assert hits[0] in hits;
      if |hits| > 1 {
        assert hits[1] in hits && hits[0] != hits[1];
      }
    }
    forall ps | Distinct(ps) && forall q: Path :: q in ps <==> Eligible(data, q, Shows(find, entity))
      ensures |hits| == |ps|
    {
      SameLength(hits, ps);
    }
    if |hits| == 1 {
      EditAtRefuses(data, hits, find, replacement, entity);
    }
  }

  lemma EditAtRefuses(data: Node, hits: seq<Path>, find: string, replacement: string, entity: string -> string)
    requires |hits| == 1 && EditAt(data, hits[0], find, replacement, entity).Untouched?
    ensures EditAt(data, hits[0], find, replacement, entity).error == NotApplied
  {
  }

  /** Two lists without repetition of the same paths are as long. */
  lemma {:induction false} SameLength(a: seq<Path>, b: seq<Path>)
    requires Distinct(a) && Distinct(b) && forall p :: p in a <==> p in b
    ensures |a| == |b|
  {
    SetSize(a);
    SetSize(b);
    assert (set p | p in a) == (set p | p in b);
  }

  lemma {:induction false} SetSize(ps: seq<Path>)
    requires Distinct(ps)
    ensures |set p | p in ps| == |ps|
  {
    if ps == [] {
      assert (set p | p in ps) == {};
    } else {
      var front, last := ps[..|ps| - 1], ps[|ps| - 1];
      assert last !in front;
      SetSize(front);
      assert (set p | p in ps) == (set p | p in front) + {last};
    }
  }

  /**
   * On success the one leaf holds the spliced text, every other leaf is unchanged, no key on
   * the way to it is plumbing, and the shape of the tree is the same.
   */
  lemma TreeEditFrame(data: Node, p: Path, find: string, replacement: string, entity: string -> string)
    requires Wf(data) && Accepted(data, p, find, replacement, entity)
    ensures Clean(p) && Edit(data, find, replacement, entity).Edited?
    ensures var tree := Edit(data, find, replacement, entity).data;
            && At(tree, p) == Some(Str(T.Edit(At(data, p).value.s, find, replacement, Rules(false, entity)).Result()))
            && Blank(tree) == Blank(data)
            && forall q :: q != p ==> Leaf(tree, q) == Leaf(data, q)
  {
    hide Collected, Wf, Put, Blank, Leaf, Shows, T.Edit, Clean, At, OnlyPlace;
    SoleHit(data, find, entity);
    OnlyPlaceIsString(data, p, find, entity);
    EditAtFrame(data, p, Str(T.Edit(At(data, p).value.s, find, replacement, Rules(false, entity)).result));
  }

  lemma EditAtFrame(data: Node, p: Path, leaf: Node)
    requires At(data, p).Some? && At(data, p).value.Str? && leaf.Str?
    ensures At(Put(data, p, leaf), p) == Some(leaf)
    ensures Blank(Put(data, p, leaf)) == Blank(data)
    ensures forall q :: q != p ==> Leaf(Put(data, p, leaf), q) == Leaf(data, q)
  {
    PutThere(data, p, leaf);
    PutShape(data, p, leaf);
    forall q | q != p
      ensures Leaf(Put(data, p, leaf), q) == Leaf(data, q)
    {
      PutElsewhere(data, p, leaf, q);
    }
  }

  /** Nothing under a plumbing key changes, whatever the outcome. */
  lemma PlumbingKept(data: Node, find: string, replacement: string, entity: string -> string, q: Path)
    requires Wf(data) && !Clean(q)
    ensures Leaf(Edit(data, find, replacement, entity).data, q) == Leaf(data, q)
  {
    hide Wf, Leaf, At, Collected, Put, Blank, Edit, Accepted, Clean;
    TreeEditDecision(data, find, replacement, entity);
    if Edit(data, find, replacement, entity).Edited? {
      var p :| Accepted(data, p, find, replacement, entity);
      TreeEditFrame(data, p, find, replacement, entity);
    }
  }

  /* ----- the walks, as the code runs them ----- */

  lemma CollectStep(items: seq<Item>, i: nat, path: Path, shows: string -> bool)
    requires i < |items|
    ensures CollectedItems(items[i..], path, shows)
            == CollectedItem(items[i], path, shows) + CollectedItems(items[i + 1..], path, shows)
  {
    assert items[i..][1..] == items[i + 1..];
  }

  /** Fills `hits` while walking the data. */
  method Collect(node: Node, find: string, entity: string -> string, path: Path, hits: seq<Path>)
    returns (hits': seq<Path>)
    ensures hits' == hits + Collected(node, path, Shows(find, entity))
    decreases node
  {
    hide T.Contains, CollectedItems;
    hits' := hits;
    if node.Str? {
      var found := T.CheckContains(node.s, find, Rules(false, entity));
      if found { hits' := hits' + [path]; }
    } else if node.IsContainer() {
      var items := node.items;
      ghost var shows := Shows(find, entity);
      hide Shows;
      assert items[0..] == items;
      for i := 0 to |items|
        invariant hits' + CollectedItems(items[i..], path, shows) == hits + CollectedItems(items, path, shows)
      {
        assert items[i] in items && items[i].value < items[i];
        CollectStep(items, i, path, shows);
        if !Skippable(items[i].key) {
          hits' := Collect(items[i].value, find, entity, path + [items[i].key], hits');
        }
      }
      assert items[|items|..] == [];
      NothingCollected(path, shows);
    }
  }

  lemma NothingCollected(path: Path, shows: string -> bool)
    ensures CollectedItems([], path, shows) == []
  {
  }

  /** Is `path` on the way to `target`, or `target` itself? */
  predicate PrefixOf(path: Path, target: Path) {
    |path| <= |target| && forall i :: 0 <= i < |path| ==> target[i] == path[i]
  }

  /** The spliced text of the string that `path` leads to, if there is one and it is accepted. */
  function Spliced(node: Node, path: Path, find: string, replacement: string,
                   entity: string -> string): Option<string>
  {
    match At(node, path)
    case Some(Str(s)) =>
      (match T.Edit(s, find, replacement, Rules(false, entity)) case Replaced(r) => Some(r) case Refused(_, _) => None)
    case _ => None
  }

  function Rebuilt(node: Node, path: Path, leaf: Option<string>): Node {
    match leaf case None => node case Some(r) => Put(node, path, Str(r))
  }

  lemma {:induction false} WfUnique(items: seq<Item>, k: Key)
    requires WfItems(items)
    ensures forall i :: 0 <= i < |items| && items[i].key == k ==> i == IndexOf(items, k)
  {
    if items == [] {
    } else {
      WfUnique(items[1..], k);
      forall i | 0 <= i < |items| && items[i].key == k
        ensures i == IndexOf(items, k)
      {
        if i > 0 {
          assert items[1..][i - 1].key == k;
        }
      }
    }
  }

  lemma {:induction false} WfItemAt(items: seq<Item>, i: nat)
    requires WfItems(items) && i < |items|
    ensures Wf(items[i].value)
  {
    if i == 0 {
    } else {
      WfItemAt(items[1..], i - 1);
    }
  }

  /** Rebuilding below a child is rebuilding that child. */
  lemma RebuiltBelow(node: Node, i: nat, rest: Path, find: string, replacement: string, entity: string -> string)
    requires node.IsContainer() && rest != [] && i < |node.items| && i == IndexOf(node.items, rest[0])
    ensures var below := Spliced(node.items[i].value, rest[1..], find, replacement, entity);
            && Spliced(node, rest, find, replacement, entity) == below
            && Rebuilt(node, rest, below).IsContainer()
            && Rebuilt(node, rest, below)
               == node.(items := node.items[i := Item(rest[0], Rebuilt(node.items[i].value, rest[1..], below))])
  {
    hide T.Edit;
    assert node.items == node.items[i := Item(rest[0], node.items[i].value)];
  }

  lemma NothingBelow(node: Node, rest: Path, find: string, replacement: string, entity: string -> string)
    requires if rest == [] then !node.Str? else Child(node, rest[0]).None?
    ensures Spliced(node, rest, find, replacement, entity) == None
  {
  }

  /** Rebuilds the branch that leads to `target`, entry by entry. */
  method Apply(node: Node, target: Path, find: string, replacement: string, entity: string -> string,
               path: Path, applied: bool)
    returns (node': Node, applied': bool)
    requires Wf(node) && path <= target
    ensures var leaf := Spliced(node, target[|path|..], find, replacement, entity);
            node' == Rebuilt(node, target[|path|..], leaf) && applied' == (applied || leaf.Some?)
    decreases node
  {
    ghost var rest := target[|path|..];
    ghost var leaf := Spliced(node, rest, find, replacement, entity);
    node', applied' := node, applied;
    if path == target && node.Str? {
      var o := T.Replace(node.s, find, replacement, Rules(false, entity));
      if o.Replaced? {
        node', applied' := Str(o.result), true;
      }
    } else if node.IsContainer() {
      hide T.Edit, T.Contains;
      ghost var at := if rest == [] then -1 else IndexOf(node.items, rest[0]);
      if at == -1 {
        NothingBelow(node, rest, find, replacement, entity);
      } else {
        RebuiltBelow(node, at, rest, find, replacement, entity);
        WfUnique(node.items, rest[0]);
      }
      hide Rebuilt, Spliced, Put, At, Wf, WfItems;
      for i := 0 to |node.items|
        invariant node'.IsContainer() && (node.Arr? <==> node'.Arr?)
        invariant at == -1 || i <= at ==> node' == node && applied' == applied
        invariant 0 <= at < i ==> node' == Rebuilt(node, rest, leaf) && applied' == (applied || leaf.Some?)
      {
        var k, v := node.items[i].key, node.items[i].value;
        var p := path + [k];
        assert i == at ==> PrefixOf(p, target);
        if PrefixOf(p, target) {
          assert target[|path|] == p[|path|] == k;
          assert p == target[..|p|] && target[|p|..] == rest[1..];
          assert node.items[i] in node.items && v < node.items[i];
          WfBelow(node, i);
          var v';
          v', applied' := Apply(v, target, find, replacement, entity, p, applied');
          node' := node'.(items := node'.items[i := Item(k, v')]);
        }
      }
    } else {
      NothingBelow(node, rest, find, replacement, entity);
    }
  }

  lemma WfBelow(node: Node, i: nat)
    requires Wf(node) && node.IsContainer() && i < |node.items|
    ensures Wf(node.items[i].value)
  {
    WfItemAt(node.items, i);
  }

  /** `Lvx_Tree::replace`: collect the places, insist on exactly one, rebuild the tree there. */
  method Replace(data: Node, find: string, replacement: string, entity: string -> string) returns (o: TreeOutcome)
    requires Wf(data)
    ensures o == Edit(data, find, replacement, entity)
  {
    var hits := Collect(data, find, entity, [], []);
    assert hits == Collected(data, [], Shows(find, entity));
    if |hits| == 0 { return Untouched(data, NotInTree); }
    if |hits| > 1 { return Untouched(data, InSeveral(|hits|)); }
    var tree, applied := Apply(data, hits[0], find, replacement, entity, [], false);
    assert hits[0][0..] == hits[0];
    if !applied { return Untouched(tree, NotApplied); }
    return Edited(tree);
  }
}
