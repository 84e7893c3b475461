/**
 * What each token of the markup is, spelt out: character references, tags, comments, shortcodes
 * and whitespace.
 */
module Grammar {
  import opened Php
  import opened Markup

  /* ----- character references ----- */

  predicate IsDecimalDigit(c: char) { '0' <= c <= '9' }
  predicate IsHexDigit(c: char) { '0' <= c <= '9' || 'a' <= c <= 'f' || 'A' <= c <= 'F' }
  predicate IsAsciiLetter(c: char) { 'a' <= c <= 'z' || 'A' <= c <= 'Z' }

  /** `#` and one to seven digits. */
  predicate DecimalBody(b: string) {
    2 <= |b| <= 8 && b[0] == '#' && forall k :: 1 <= k < |b| ==> IsDecimalDigit(b[k])
  }

  /** `#x` or `#X` and one to six hexadecimal digits. */
  predicate HexBody(b: string) {
    3 <= |b| <= 8 && b[0] == '#' && b[1] in {'x', 'X'} && forall k :: 2 <= k < |b| ==> IsHexDigit(b[k])
  }

  /** A letter and one to ten letters or digits. */
  predicate NamedBody(b: string) {
    && 2 <= |b| <= 11 && IsAsciiLetter(b[0])
    && forall k :: 1 <= k < |b| ==> IsAsciiLetter(b[k]) || IsDecimalDigit(b[k])
  }

  predicate IsReference(w: string) {
    && |w| >= 4 && w[0] == '&' && w[|w| - 1] == ';'
    && (DecimalBody(w[1..|w| - 1]) || HexBody(w[1..|w| - 1]) || NamedBody(w[1..|w| - 1]))
  }

  lemma BodyIs(b: string)
    ensures IsEntityBody(b) <==> DecimalBody(b) || HexBody(b) || NamedBody(b)
  {
  }

  lemma NoSemicolonInBody(b: string)
    requires DecimalBody(b) || HexBody(b) || NamedBody(b)
    ensures |b| <= 11 && forall k :: 0 <= k < |b| ==> b[k] != ';'
  {
  }

  lemma Inside(s: string, n: nat)
    requires 2 <= n <= |s|
    ensures s[..n][1..n - 1] == s[1..n - 1]
  {
  }

  /** A source starts with a reference of length `n` exactly if its first `n` bytes are one. */
  lemma ReferenceIsExact(s: string, n: nat)
    requires n > 0
    ensures EntityLen(s) == n <==> n <= |s| && IsReference(s[..n])
  {
    hide IsEntityBody, DecimalBody, HexBody, NamedBody, Strpos;
    if EntityLen(s) == n {
      Inside(s, n);
      BodyIs(s[1..n - 1]);
    }
    if n <= |s| && IsReference(s[..n]) {
      Inside(s, n);
      var b := s[1..n - 1];
      BodyIs(b);
      NoSemicolonInBody(b);
      var w := Window(s);
      assert forall k :: 0 <= k < n ==> w[k] == s[k];
      assert forall k :: 1 <= k < n - 1 ==> s[k] == b[k - 1];
      assert s[n - 1] == s[..n][n - 1] && s[0] == s[..n][0];
      StrposFirst(w, ';', n - 1);
      assert w[1..n - 1] == b;
    }
  }

  /** The three forms, with anything after them. */
  lemma ReferenceForms(body: string, rest: string)
    requires DecimalBody(body) || HexBody(body) || NamedBody(body)
    ensures EntityLen("&" + body + ";" + rest) == |body| + 2
  {
    hide DecimalBody, HexBody, NamedBody, EntityLen;
    var s, n := "&" + body + ";" + rest, |body| + 2;
    assert s[..n] == "&" + body + ";";
    assert s[..n][1..n - 1] == body;
    assert |body| >= 2 by { BodyLength(body); }
    ReferenceIsExact(s, n);
  }

  lemma BodyLength(b: string)
    requires DecimalBody(b) || HexBody(b) || NamedBody(b)
    ensures |b| >= 2
  {
  }

  /** Nothing else is a reference. */
  lemma NoOtherReference(s: string)
    ensures EntityLen(s) == 0 <==> forall n :: 0 < n <= |s| ==> !IsReference(s[..n])
  {
    hide EntityLen, IsReference;
    forall n | 0 < n <= |s|
      ensures EntityLen(s) == n <==> IsReference(s[..n])
    {
      ReferenceIsExact(s, n);
    }
    if EntityLen(s) > 0 {
      ReferenceIsExact(s, EntityLen(s));
    }
  }

  /* ----- tags ----- */

  /** The tags that carry formatting only. */
  const FORMATTING: seq<string> := [
    "a", "abbr", "b", "bdi", "bdo", "br", "cite", "code", "data", "del", "dfn", "em", "i", "ins", "kbd", "mark", "q",
    "s", "samp", "small", "span", "strong", "sub", "sup", "time", "u", "var", "wbr"]

  predicate FormatsOnly(name: string) {
    exists i :: 0 <= i < |FORMATTING| && SameButCase(name, FORMATTING[i])
  }

  lemma FormatsIsInline(name: string)
    ensures FormatsOnly(name) <==> Lower(name) in INLINE_TAGS
  {
    hide Lower, SameButCase;
    var tags := FORMATTING;
    assert tags == INLINE_TAGS;
    forall i | 0 <= i < |tags|
      ensures Lower(name) == tags[i] <==> SameButCase(name, tags[i])
    {
      SmallLetters(i);
      LowerIs(name, tags[i]);
    }
  }

  lemma SmallLetters(i: nat)
    requires i < |FORMATTING|
    ensures forall k :: 0 <= k < |FORMATTING[i]| ==> !('A' <= FORMATTING[i][k] <= 'Z')
  {
  }

  predicate IsNameByte(c: char) { IsAsciiLetter(c) || IsDecimalDigit(c) || c == ':' || c == '-' }

  predicate IsTagSpace(c: char) { c in {' ', '\t', '\n', '\r', '\U{0B}', '\U{0C}'} }

  /** A tag as it is written: perhaps a slash, perhaps spaces, and then a name that starts with a letter. */
  datatype Opening = Opening(slash: bool, spaces: string, name: string) {
    predicate Valid() {
      && (forall k :: 0 <= k < |spaces| ==> IsTagSpace(spaces[k]))
      && name != "" && IsAsciiLetter(name[0]) && forall k :: 0 <= k < |name| ==> IsNameByte(name[k])
    }

    function Text(): string { "<" + (if slash then "/" else "") + spaces + name }
  }

  lemma {:induction false} NameRunIs(name: string, rest: string)
    requires forall k :: 0 <= k < |name| ==> IsNameByte(name[k])
    requires rest == "" || !IsNameByte(rest[0])
    ensures NameRun(name + rest) == name
  {
    if name == "" {
      assert name + rest == rest;
    } else {
      assert (name + rest)[1..] == name[1..] + rest;
      NameRunIs(name[1..], rest);
    }
  }

  lemma {:induction false} SkipSpaces(spaces: string, rest: string)
    requires forall k :: 0 <= k < |spaces| ==> IsTagSpace(spaces[k])
    requires rest == "" || !IsTagSpace(rest[0])
    ensures SkipRegexSpace(spaces + rest) == rest
  {
    if spaces == "" {
      assert spaces + rest == rest;
    } else {
      assert (spaces + rest)[1..] == spaces[1..] + rest;
      SkipSpaces(spaces[1..], rest);
    }
  }

  /** The name of a tag is what stands after `<`, `</` and spaces, in small letters. */
  lemma NameIs(o: Opening, rest: string)
    requires o.Valid() && (rest == "" || !IsNameByte(rest[0]))
    ensures TagName(o.Text() + rest) == Lower(o.name)
  {
    hide Lower, NameRun, SkipRegexSpace;
    var raw, after := o.Text() + rest, o.spaces + (o.name + rest);
    assert raw == "<" + (if o.slash then "/" else "") + after;
    assert after[0] == (if o.spaces == "" then o.name[0] else o.spaces[0]);
    assert (if o.slash then raw[2..] else raw[1..]) == after;
    assert (o.name + rest)[0] == o.name[0];
    SkipSpaces(o.spaces, o.name + rest);
    NameRunIs(o.name, rest);
  }

  /** Without a letter there, the tag has no name. */
  lemma NoName(slash: bool, spaces: string, rest: string)
    requires forall k :: 0 <= k < |spaces| ==> IsTagSpace(spaces[k])
    requires rest == "" || (!IsAsciiLetter(rest[0]) && !IsTagSpace(rest[0]))
    requires !slash && spaces == "" && rest != "" ==> rest[0] != '/'
    ensures TagName("<" + (if slash then "/" else "") + spaces + rest) == ""
  {
    hide NameRun, SkipRegexSpace;
    var raw, after := "<" + (if slash then "/" else "") + spaces + rest, spaces + rest;
    assert raw == "<" + (if slash then "/" else "") + after;
    assert after != "" ==> after[0] == (if spaces == "" then rest[0] else spaces[0]);
    assert (if slash then raw[2..] else raw[1..]) == after;
    SkipSpaces(spaces, rest);
  }

  /** The first `n` bytes end with the first `closer`, or are all there is. */
  ghost predicate ClosesAt(s: string, closer: string, n: nat) {
    && n <= |s|
    && (forall k :: 0 <= k && k + |closer| < n ==> !OccursAt(s, closer, k))
    && if n >= |closer| && OccursAt(s, closer, n - |closer|) then true
       else n == |s| && forall k :: !OccursAt(s, closer, k)
  }

  lemma RegionIs(s: string, closer: string)
    requires s != "" && closer != ""
    ensures ClosesAt(s, closer, RegionLen(s, closer))
  {
  }

  /* ----- one token ----- */

  predicate IsWhite(c: char) { c in {' ', '\t', '\n', '\r', '\0', '\U{0B}'} }

  /** Whitespace, or the bytes of no-break spaces. */
  predicate ShowsNothing(s: string) {
    forall k :: 0 <= k < |s| ==> IsWhite(s[k]) || s[k] == '\U{C2}' || s[k] == '\U{A0}'
  }

  /** `wp:` or `/wp:` stands in a comment at `k`. */
  predicate BlockMark(raw: string, k: nat) {
    || (k + 3 <= |raw| - 3 && raw[k..k + 3] == "wp:")
    || (k + 4 <= |raw| - 3 && raw[k..k + 4] == "/wp:")
  }

  /** A comment is a block delimiter if that is the first thing in it. */
  predicate Delimits(raw: string) {
    exists k :: 4 <= k <= |raw| && BlockMark(raw, k) && forall i :: 4 <= i < k && i < |raw| ==> IsWhite(raw[i])
  }

  /** The token at the head of `s`. */
  ghost predicate IsToken(s: string, rules: Rules, t: Token)
    requires s != ""
  {
    var n := |t.raw|;
    && 0 < n <= |s| && t.raw == s[..n]
    && if s[..Min(4, |s|)] == "<!--" then
         ClosesAt(s, "-->", n) && t.kind == if Delimits(t.raw) then BlockDelimiter else Comment
       else if s[0] == '<' then
         ClosesAt(s, ">", n)
         && (if FormatsOnly(TagName(t.raw)) then t.kind == InlineTag(TagName(t.raw))
             else t.kind == BlockTag(TagName(t.raw)))
       else if s[0] == '[' && rules.shortcodes then
         ClosesAt(s, "]", n) && t.kind == Shortcode
       else if IsWhite(s[0]) then
         n == 1 && t.kind == Space
       else if exists r :: 0 < r <= |s| && IsReference(s[..r]) && rules.entity(s[..r]) !in {s[..r], ""} then
         IsReference(t.raw)
         && t.kind == if ShowsNothing(rules.entity(t.raw)) then SpaceEntity else Entity(rules.entity(t.raw))
       else
         n == 1 && t.kind == Raw(s[0])
  }

  function Min(a: nat, b: nat): nat { if a < b then a else b }

  lemma StartsWithComment(s: string)
    requires s != ""
    ensures StartsWith(s, "<!--") <==> s[..Min(4, |s|)] == "<!--"
  {
    if |s| >= 4 {
      assert s[0..4] == s[..4];
    }
  }

  lemma WhiteIsBlank(c: char)
    ensures IsWhite(c) <==> IsBlank(c)
  {
  }

  lemma ShowsNothingIs(s: string)
    ensures ShowsNothing(s) <==> AllBlankOrNbsp(s)
  {
  }

  /** Two references at one place are the same. */
  lemma OneReference(s: string, m: nat, n: nat)
    requires 0 < m <= |s| && 0 < n <= |s| && IsReference(s[..m]) && IsReference(s[..n])
    ensures m == n
  {
    hide EntityLen, IsReference;
    ReferenceIsExact(s, m);
    ReferenceIsExact(s, n);
  }

  lemma CommentIs(raw: string)
    requires |raw| >= 4
    ensures CommentKind(raw) == if Delimits(raw) then BlockDelimiter else Comment
  {
    hide BlockMark, Ltrim, StartsWith, IsWhite;
    var inner := if |raw| < 7 then "" else raw[4..|raw| - 3];
    var l := Ltrim(inner);
    var k := 4 + |inner| - |l|;
    FirstMark(raw, inner, k);
    if exists j :: 4 <= j <= |raw| && BlockMark(raw, j) && forall i :: 4 <= i < j && i < |raw| ==> IsWhite(raw[i]) {
      var j :| 4 <= j <= |raw| && BlockMark(raw, j) && forall i :: 4 <= i < j && i < |raw| ==> IsWhite(raw[i]);
      OnlyMark(raw, inner, k, j);
    }
  }

  /** After the leading whitespace the mark is there or not. */
  lemma FirstMark(raw: string, inner: string, k: nat)
    requires |raw| >= 4 && inner == (if |raw| < 7 then "" else raw[4..|raw| - 3])
    requires k == 4 + |inner| - |Ltrim(inner)|
    ensures 4 <= k <= |raw| && forall i :: 4 <= i < k && i < |raw| ==> IsWhite(raw[i])
    ensures BlockMark(raw, k) <==> StartsWith(Ltrim(inner), "wp:") || StartsWith(Ltrim(inner), "/wp:")
  {
    hide Ltrim;
    var l := Ltrim(inner);
    forall i | 4 <= i < k
      ensures IsWhite(raw[i])
    {
      assert inner[i - 4] == raw[i];
    }
    if |l| >= 3 {
      assert l[0..3] == raw[k..k + 3];
    }
    if |l| >= 4 {
      assert l[0..4] == raw[k..k + 4];
    }
  }

  lemma MarkIsNotWhite(raw: string, k: nat)
    requires BlockMark(raw, k)
    ensures k < |raw| - 3 && !IsWhite(raw[k])
  {
    if k + 3 <= |raw| - 3 && raw[k..k + 3] == "wp:" {
      assert raw[k] == raw[k..k + 3][0];
    } else {
      assert raw[k] == raw[k..k + 4][0];
    }
  }

  /** A mark after nothing but whitespace is the one after the leading whitespace. */
  lemma OnlyMark(raw: string, inner: string, k: nat, j: nat)
    requires |raw| >= 4 && inner == (if |raw| < 7 then "" else raw[4..|raw| - 3])
    requires k == 4 + |inner| - |Ltrim(inner)|
    requires 4 <= j <= |raw| && BlockMark(raw, j) && forall i :: 4 <= i < j && i < |raw| ==> IsWhite(raw[i])
    ensures j == k
  {
    hide BlockMark, Ltrim;
    MarkIsNotWhite(raw, j);
    FirstMark(raw, inner, k);
    if k < |raw| - 3 {
      AfterWhite(raw, inner, k);
    }
  }

  lemma AfterWhite(raw: string, inner: string, k: nat)
    requires |raw| >= 4 && inner == (if |raw| < 7 then "" else raw[4..|raw| - 3])
    requires k == 4 + |inner| - |Ltrim(inner)| && k < |raw| - 3
    ensures !IsWhite(raw[k])
  {
    var l := Ltrim(inner);
    assert l[0] == inner[k - 4] == raw[k];
  }

  lemma AngleIs(s: string)
    requires s != "" && s[0] == '<' && !StartsWith(s, "<!--")
    ensures var t := LexAngle(s);
            && ClosesAt(s, ">", |t.raw|)
            && (if FormatsOnly(TagName(t.raw)) then t.kind == InlineTag(TagName(t.raw))
                else t.kind == BlockTag(TagName(t.raw)))
  {
    hide TagName, FormatsOnly, RegionLen;
    RegionIs(s, ">");
    var raw := s[..RegionLen(s, ">")];
    NameIsLower(raw);
    FormatsIsInline(TagName(raw));
  }

  lemma {:induction false} LowerTwice(s: string)
    ensures Lower(Lower(s)) == Lower(s)
  {
    if s == "" {
    } else {
      LowerTwice(s[1..]);
    }
  }

  lemma NameIsLower(raw: string)
    requires raw != ""
    ensures Lower(TagName(raw)) == TagName(raw)
  {
    hide SkipRegexSpace, NameRun, Lower;
    var t := if |raw| > 1 && raw[1] == '/' then raw[2..] else raw[1..];
    LowerTwice(NameRun(SkipRegexSpace(t)));
    LowerTwice("");
    EmptyLower();
  }

  lemma EmptyLower()
    ensures Lower("") == ""
  {
  }

  lemma TextIs(s: string, rules: Rules)
    requires s != ""
    ensures var t := LexText(s, rules);
            if exists r :: 0 < r <= |s| && IsReference(s[..r]) && rules.entity(s[..r]) !in {s[..r], ""} then
              IsReference(t.raw)
              && t.kind == if ShowsNothing(rules.entity(t.raw)) then SpaceEntity else Entity(rules.entity(t.raw))
            else |t.raw| == 1 && t.kind == Raw(s[0])
  {
    hide EntityLen, IsReference, AllBlankOrNbsp, ShowsNothing;
    var n := EntityLen(s);
    forall r | 0 < r <= |s|
      ensures IsReference(s[..r]) <==> n == r
    {
      ReferenceIsExact(s, r);
    }
    ShowsNothingIs(rules.entity(s[..n]));
  }

  /** The lexer finds the token that stands there. */
  lemma TokenIsExact(s: string, rules: Rules)
    requires s != ""
    ensures IsToken(s, rules, Lex(s, rules))
  {
    hide LexText, IsReference, ShowsNothing, FormatsOnly, TagName, ClosesAt, Delimits, CommentKind, RegionLen,
         EntityLen;
    StartsWithComment(s);
    WhiteIsBlank(s[0]);
    if s[0] == '<' {
      if StartsWith(s, "<!--") {
        RegionIs(s, "-->");
        CommentIs(s[..CommentLen(s)]);
      } else {
        AngleIs(s);
      }
    } else if rules.shortcodes && s[0] == '[' {
      RegionIs(s, "]");
    } else {
      TextIs(s, rules);
    }
  }
}
