/** WordPress slashing: `addslashes`, `stripslashes`, and what the meta store does on the way in. */
module Slashes {
  import opened Tree

  /** The bytes `addslashes` escapes. */
  predicate NeedsSlash(c: char) {
    c == '\'' || c == '\"' || c == '\\' || c == '\0'
  }

  function AddSlashes(s: string): string {
    if s == "" then ""
    else (if s[0] == '\0' then "\\0" else if NeedsSlash(s[0]) then ['\\', s[0]] else [s[0]]) + AddSlashes(s[1..])
  }

  /** `\x` becomes `x`, `\0` becomes NUL, and a lone backslash at the end is dropped. */
  function StripSlashes(s: string): string
    decreases |s|
  {
    if s == "" then ""
    else if s[0] != '\\' then [s[0]] + StripSlashes(s[1..])
    else if |s| == 1 then ""
    else [if s[1] == '0' then '\0' else s[1]] + StripSlashes(s[2..])
  }

  /** A quote of either kind, a backslash and NUL are escaped, and nothing else. */
  lemma SlashedAre(c: char, s: string)
    ensures AddSlashes([c] + s)
            == (match c case '\'' => "\\'" case '\"' => "\\\"" case '\\' => "\\\\" case '\0' => "\\0" case _ => [c])
               + AddSlashes(s)
  {
    assert ([c] + s)[1..] == s;
  }

  /** Slashing then unslashing is the identity on every string. */
  lemma {:induction false} StripAdd(s: string)
    ensures StripSlashes(AddSlashes(s)) == s
  {
    if s == "" {
    } else {
      StripAdd(s[1..]);
      var a := AddSlashes(s[1..]);
      if NeedsSlash(s[0]) {
        var h := if s[0] == '\0' then "\\0" else ['\\', s[0]];
        assert AddSlashes(s) == h + a && (h + a)[2..] == a;
      } else {
        assert AddSlashes(s) == [s[0]] + a && ([s[0]] + a)[1..] == a;
      }
    }
  }

  lemma {:induction false} StripShortens(s: string)
    ensures |StripSlashes(s)| <= |s|
    ensures '\\' in s ==> |StripSlashes(s)| < |s|
    decreases |s|
  {
    if s == "" {
    } else {
      if s[0] != '\\' {
        StripShortens(s[1..]);
        assert '\\' in s ==> '\\' in s[1..];
      } else if |s| > 1 {
        StripShortens(s[2..]);
      }
    }
  }

  /** Unslashing leaves a string alone exactly when there is no backslash in it. */
  lemma {:induction false} StripFixed(s: string)
    ensures StripSlashes(s) == s <==> '\\' !in s
    decreases |s|
  {
    StripShortens(s);
    if '\\' !in s && s != "" {
      StripFixed(s[1..]);
    }
  }

  function Backslashes(s: string): nat {
    if s == "" then 0 else (if s[0] == '\\' then 1 else 0) + Backslashes(s[1..])
  }

  lemma {:induction false} NoBackslashes(s: string)
    ensures Backslashes(s) == 0 <==> '\\' !in s
  {
    if s == "" {
    } else {
      NoBackslashes(s[1..]);
      assert s == [s[0]] + s[1..];
    }
  }

  /** Unslashing removes a backslash if there is one. */
  lemma {:induction false} StripRemoves(s: string)
    ensures Backslashes(StripSlashes(s)) <= Backslashes(s)
    ensures '\\' in s ==> Backslashes(StripSlashes(s)) < Backslashes(s)
    decreases |s|
  {
    if s == "" {
    } else if s[0] != '\\' {
      StripRemoves(s[1..]);
      assert '\\' in s ==> '\\' in s[1..];
      assert ([s[0]] + StripSlashes(s[1..]))[1..] == StripSlashes(s[1..]);
    } else if |s| > 1 {
      StripRemoves(s[2..]);
      var c := if s[1] == '0' then '\0' else s[1];
      assert ([c] + StripSlashes(s[2..]))[1..] == StripSlashes(s[2..]);
      assert s[1..][1..] == s[2..];
    }
  }

  /** Text that is unslashed, perhaps twice, and then put through a filter that adds no backslash. */
  lemma FilteredIsKept(s: string, t: string, filter: string -> string)
    requires t == StripSlashes(s) || t == StripSlashes(StripSlashes(s))
    requires Backslashes(filter(t)) <= Backslashes(t)
    ensures filter(t) == s <==> '\\' !in s && filter(s) == s
  {
    StripFixed(s);
    StripFixed(StripSlashes(s));
    StripRemoves(s);
    StripRemoves(StripSlashes(s));
  }

  /* ----- several layers ----- */

  function AddLayers(s: string, d: nat): string {
    if d == 0 then s else AddSlashes(AddLayers(s, d - 1))
  }

  function StripLayers(s: string, d: nat): string
    decreases d
  {
    if d == 0 then s else StripLayers(StripSlashes(s), d - 1)
  }

  lemma {:induction false} PeelLayers(s: string, d: nat, k: nat)
    requires k <= d
    ensures StripLayers(AddLayers(s, d), k) == AddLayers(s, d - k)
  {
    if k == 0 {
    } else {
      StripAdd(AddLayers(s, d - 1));
      PeelLayers(s, d - 1, k - 1);
    }
  }

  /* ----- values ----- */

  /** `wp_unslash` on a meta value: every string inside it, not the keys. */
  function Unslash(v: Node): Node
    decreases v, 1
  {
    match v
    case Str(s) => Str(StripSlashes(s))
    case Arr(items) => Arr(UnslashItems(items))
    case Obj(items) => Obj(UnslashItems(items))
    case _ => v
  }

  function UnslashItems(items: seq<Item>): (r: seq<Item>)
    ensures |r| == |items|
    decreases items, 0
  {
    if items == [] then [] else
      assert items[0].value < items[0];
      [Item(items[0].key, Unslash(items[0].value))] + UnslashItems(items[1..])
  }

  /** No string of the value contains a backslash. */
  predicate NoBackslash(v: Node)
    decreases v, 1
  {
    match v
    case Str(s) => '\\' !in s
    case Arr(items) => NoBackslashItems(items)
    case Obj(items) => NoBackslashItems(items)
    case _ => true
  }

  predicate NoBackslashItems(items: seq<Item>)
    decreases items, 0
  {
    items != [] ==> (assert items[0].value < items[0]; NoBackslash(items[0].value)) && NoBackslashItems(items[1..])
  }

  /** The store keeps a value exactly when no string of it has a backslash. */
  lemma {:induction false} UnslashFixed(v: Node)
    ensures Unslash(v) == v <==> NoBackslash(v)
    decreases v, 1
  {
    match v {
      case Str(s) => StripFixed(s);
      case Arr(items) => UnslashItemsFixed(items);
      case Obj(items) => UnslashItemsFixed(items);
      case _ =>
    }
  }

  lemma {:induction false} UnslashItemsFixed(items: seq<Item>)
    ensures UnslashItems(items) == items <==> NoBackslashItems(items)
    decreases items, 0
  {
    if items == [] {
    } else {
      assert items[0].value < items[0];
      UnslashFixed(items[0].value);
      UnslashItemsFixed(items[1..]);
      assert items == [items[0]] + items[1..];
      assert UnslashItems(items)[0] == Item(items[0].key, Unslash(items[0].value));
      assert UnslashItems(items)[1..] == UnslashItems(items[1..]);
    }
  }

  lemma {:induction false} UnslashItemAt(items: seq<Item>, i: nat)
    requires i < |items|
    ensures UnslashItems(items)[i] == Item(items[i].key, Unslash(items[i].value))
  {
    if i == 0 {
    } else {
      UnslashItemAt(items[1..], i - 1);
    }
  }

  lemma {:induction false} NoBackslashItemAt(items: seq<Item>)
    ensures NoBackslashItems(items) <==> forall i :: 0 <= i < |items| ==> NoBackslash(items[i].value)
  {
    if items == [] {
    } else {
      NoBackslashItemAt(items[1..]);
      assert forall i :: 0 < i < |items| ==> items[i] == items[1..][i - 1];
    }
  }

  /** Bytes in all the strings of a value. */
  function Bulk(v: Node): nat
    decreases v, 1
  {
    match v
    case Str(s) => |s|
    case Arr(items) => BulkItems(items)
    case Obj(items) => BulkItems(items)
    case _ => 0
  }

  function BulkItems(items: seq<Item>): nat
    decreases items, 0
  {
    if items == [] then 0 else
      assert items[0].value < items[0];
      Bulk(items[0].value) + BulkItems(items[1..])
  }

  lemma {:induction false} UnslashShrinks(v: Node)
    ensures Bulk(Unslash(v)) <= Bulk(v)
    ensures !NoBackslash(v) ==> Bulk(Unslash(v)) < Bulk(v)
    decreases v, 1
  {
    match v {
      case Str(s) => StripShortens(s);
      case Arr(items) => UnslashItemsShrinks(items);
      case Obj(items) => UnslashItemsShrinks(items);
      case _ =>
    }
  }

  lemma {:induction false} UnslashItemsShrinks(items: seq<Item>)
    ensures BulkItems(UnslashItems(items)) <= BulkItems(items)
    ensures !NoBackslashItems(items) ==> BulkItems(UnslashItems(items)) < BulkItems(items)
    decreases items, 0
  {
    if items == [] {
    } else {
      assert items[0].value < items[0];
      UnslashShrinks(items[0].value);
      UnslashItemsShrinks(items[1..]);
      assert UnslashItems(items)[0].value == Unslash(items[0].value);
      assert UnslashItems(items)[1..] == UnslashItems(items[1..]);
    }
  }

  /** Going through the store twice keeps a value under the same condition as going through it once. */
  lemma UnslashTwice(v: Node)
    ensures Unslash(Unslash(v)) == v <==> NoBackslash(v)
  {
    UnslashFixed(v);
    UnslashShrinks(v);
    UnslashShrinks(Unslash(v));
  }
}
