/** The PHP string primitives the connector plugin relies on.  One `char` stands for one byte. */
module Php {

  datatype Option<+T> = None | Some(value: T) {
    function GetOr(default: T): T { if Some? then value else default }
  }

  /* ----- strpos ----- */

  predicate OccursAt(hay: string, needle: string, k: int) {
    0 <= k && k + |needle| <= |hay| && hay[k..k + |needle|] == needle
  }

  /** `strpos`: the first occurrence at or after `from`, or -1 for PHP's `false`. */
  function Strpos(hay: string, needle: string, from: nat): (r: int)
    ensures r == -1 || OccursAt(hay, needle, r)
    ensures r != -1 ==> from <= r && forall k :: from <= k < r ==> !OccursAt(hay, needle, k)
    ensures r == -1 ==> forall k :: from <= k ==> !OccursAt(hay, needle, k)
    decreases |hay| - from
  {
    if from + |needle| > |hay| then -1
    else if OccursAt(hay, needle, from) then from
    else Strpos(hay, needle, from + 1)
  }

  lemma StrposByte(s: string, c: char)
    requires Strpos(s, [c], 0) != -1
    ensures Strpos(s, [c], 0) < |s| && s[Strpos(s, [c], 0)] == c
  {
    var p := Strpos(s, [c], 0);
    assert s[p..p + 1] == [c];
  }

  lemma StrposFirst(s: string, c: char, p: nat)
    requires p < |s| && s[p] == c && forall j :: 0 <= j < p ==> s[j] != c
    ensures Strpos(s, [c], 0) == p
  {
    hide Strpos;
    assert s[p..p + 1] == [c];
    assert OccursAt(s, [c], p);
    StrposByte(s, c);
  }

  lemma StrposNone(s: string, c: char)
    requires Strpos(s, [c], 0) == -1
    ensures forall j :: 0 <= j < |s| ==> s[j] != c
  {
    hide Strpos;
    forall j | 0 <= j < |s|
      ensures !(s[j] == c)
    {
      assert s[j..j + 1] == [s[j]];
      assert s[j] == c ==> OccursAt(s, [c], j);
    }
  }

  predicate StartsWith(s: string, prefix: string) {
    OccursAt(s, prefix, 0)
  }

  /** Searching a suffix from its start is searching the whole string from that offset. */
  lemma StrposInSuffix(s: string, needle: string, i: nat)
    requires i <= |s|
    ensures Strpos(s, needle, i) == if Strpos(s[i..], needle, 0) == -1 then -1 else i + Strpos(s[i..], needle, 0)
  {
    var r := Strpos(s[i..], needle, 0);
    forall k | 0 <= k
      ensures OccursAt(s[i..], needle, k) <==> OccursAt(s, needle, i + k)
    {
      if k + |needle| <= |s| - i {
        assert s[i..][k..k + |needle|] == s[i + k..i + k + |needle|];
      }
    }
    var q := Strpos(s, needle, i);
    if q != -1 {
      assert OccursAt(s[i..], needle, q - i);
    }
    if r != -1 {
      assert OccursAt(s, needle, i + r);
    }
  }

  lemma OccursInPrefix(x: string, y: string, needle: string, k: int)
    requires k + |needle| <= |x|
    ensures OccursAt(x, needle, k) <==> OccursAt(x + y, needle, k)
  {
    if 0 <= k {
      assert (x + y)[k..k + |needle|] == x[k..k + |needle|];
    }
  }

  /** A hit inside a prefix is found there whatever follows the prefix, and no other hit ends inside it. */
  lemma StrposInPrefix(x: string, y: string, needle: string)
    ensures Strpos(x, needle, 0) != -1 ==> Strpos(x + y, needle, 0) == Strpos(x, needle, 0)
    ensures Strpos(x, needle, 0) == -1 && Strpos(x + y, needle, 0) != -1
            ==> Strpos(x + y, needle, 0) + |needle| > |x|
  {
    var p, q := Strpos(x, needle, 0), Strpos(x + y, needle, 0);
    if p != -1 {
      OccursInPrefix(x, y, needle, p);
      OccursInPrefix(x, y, needle, q);
    } else if q != -1 && q + |needle| <= |x| {
      OccursInPrefix(x, y, needle, q);
    }
  }

  /* ----- trim ----- */

  /** The bytes `trim` strips by default; also the whitespace of the projection. */
  predicate IsBlank(c: char) {
    c == ' ' || c == '\t' || c == '\n' || c == '\r' || c == '\0' || c == '\U{0B}'
  }

  function Ltrim(s: string): (r: string)
    ensures r == "" || !IsBlank(r[0])
    ensures |r| <= |s| && r == s[|s| - |r|..]
    ensures forall k :: 0 <= k < |s| - |r| ==> IsBlank(s[k])
  {
    if s != "" && IsBlank(s[0]) then Ltrim(s[1..]) else s
  }

  function Rtrim(s: string): (r: string)
    ensures r == "" || !IsBlank(r[|r| - 1])
    ensures |r| <= |s| && r == s[..|r|]
    ensures forall k :: |r| <= k < |s| ==> IsBlank(s[k])
  {
    if s != "" && IsBlank(s[|s| - 1]) then Rtrim(s[..|s| - 1]) else s
  }

  function Trim(s: string): (r: string)
    ensures r == "" || (!IsBlank(r[0]) && !IsBlank(r[|r| - 1]))
  {
    Rtrim(Ltrim(s))
  }

  /** `strtolower` (ASCII). */
  function Lower(s: string): (r: string)
    ensures |r| == |s|
  {
    if s == "" then "" else [LowerChar(s[0])] + Lower(s[1..])
  }

  function LowerChar(c: char): char {
    if 'A' <= c <= 'Z' then c + 32 as char else c
  }

  /** `s` is `w` but for the case of its letters; `w` is in small letters. */
  predicate SameButCase(s: string, w: string) {
    |s| == |w| && forall k :: 0 <= k < |w| ==> s[k] == w[k] || ('A' <= s[k] <= 'Z' && s[k] as int + 32 == w[k] as int)
  }

  lemma {:induction false} LowerAt(s: string, k: nat)
    requires k < |s|
    ensures Lower(s)[k] == if 'A' <= s[k] <= 'Z' then s[k] + 32 as char else s[k]
  {
    if k > 0 {
      LowerAt(s[1..], k - 1);
    }
  }

  lemma LowerIs(s: string, w: string)
    requires forall k :: 0 <= k < |w| ==> !('A' <= w[k] <= 'Z')
    ensures Lower(s) == w <==> SameButCase(s, w)
  {
    hide Lower;
    if |s| == |w| {
      forall k | 0 <= k < |w|
        ensures Lower(s)[k] == w[k] <==> s[k] == w[k] || ('A' <= s[k] <= 'Z' && s[k] as int + 32 == w[k] as int)
      {
        LowerAt(s, k);
      }
    }
  }

  /** PHP's `empty` on a string. */
  predicate IsEmpty(s: string) {
    s == "" || s == "0"
  }
}
