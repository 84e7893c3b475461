/** Tokens of builder markup: what the scanner of text.php recognises at one offset. */
module Markup {
  import opened Php

  /** `entity` stands for `html_entity_decode`; every result below holds for every decoder. */
  datatype Rules = Rules(shortcodes: bool, entity: string -> string)

  datatype Kind =
    | Comment
    | BlockDelimiter
    | BlockTag(name: string)
    | InlineTag(name: string)
    | Shortcode
    | Space
    | SpaceEntity
    | Entity(bytes: string)
    | Raw(byte: char)
  {
    /** Does the token put bytes of its own into the visible text? */
    predicate IsText() { Raw? || Entity? }

    /** Does the scanner record the token as a skipped region? */
    predicate IsSkip() { Comment? || BlockDelimiter? || BlockTag? || InlineTag? || Shortcode? }

    /** A region a replacement must never swallow. */
    predicate IsStructural() { IsSkip() && !InlineTag? }
  }

  datatype Token = Token(kind: Kind, raw: string)

  /* ----- lexical classes ----- */

  const INLINE_TAGS: seq<string> := [
    "a", "abbr", "b", "bdi", "bdo", "br", "cite", "code", "data", "del",
    "dfn", "em", "i", "ins", "kbd", "mark", "q", "s", "samp", "small",
    "span", "strong", "sub", "sup", "time", "u", "var", "wbr"]

  predicate IsDigit(c: char) { '0' <= c <= '9' }
  predicate IsHex(c: char) { IsDigit(c) || 'a' <= c <= 'f' || 'A' <= c <= 'F' }
  predicate IsLetter(c: char) { 'a' <= c <= 'z' || 'A' <= c <= 'Z' }
  predicate IsAlnum(c: char) { IsLetter(c) || IsDigit(c) }

  /** `\s` of a regular expression: unlike `IsBlank` it has form feed and no NUL. */
  predicate IsRegexSpace(c: char) {
    c == ' ' || c == '\t' || c == '\n' || c == '\r' || c == '\U{0B}' || c == '\U{0C}'
  }

  function SkipRegexSpace(s: string): string {
    if s != "" && IsRegexSpace(s[0]) then SkipRegexSpace(s[1..]) else s
  }

  function NameRun(s: string): string {
    if s != "" && (IsAlnum(s[0]) || s[0] == ':' || s[0] == '-') then [s[0]] + NameRun(s[1..]) else ""
  }

  /** The lower-cased name matched by `^</?\s*([a-zA-Z][a-zA-Z0-9:-]*)`, or "". */
  function TagName(raw: string): string
    requires raw != ""
  {
    var t := if |raw| > 1 && raw[1] == '/' then raw[2..] else raw[1..];
    var u := SkipRegexSpace(t);
    if u != "" && IsLetter(u[0]) then Lower(NameRun(u)) else ""
  }

  /* ----- entities ----- */

  const WINDOW: nat := 16

  function Window(s: string): string {
    if |s| <= WINDOW then s else s[..WINDOW]
  }

  /** What may stand between `&` and `;`. */
  predicate IsEntityBody(b: string) {
    || (2 <= |b| <= 8 && b[0] == '#' && forall k :: 1 <= k < |b| ==> IsDigit(b[k]))
    || (3 <= |b| <= 8 && b[0] == '#' && (b[1] == 'x' || b[1] == 'X') && forall k :: 2 <= k < |b| ==> IsHex(b[k]))
    || (2 <= |b| <= 11 && IsLetter(b[0]) && forall k :: 1 <= k < |b| ==> IsAlnum(b[k]))
  }

  /** Length of the character reference at the head of `s`, or 0. */
  function EntityLen(s: string): (n: nat)
    ensures n <= |s|
    ensures n != 0 ==> n >= 4 && s[0] == '&' && s[n - 1] == ';' && IsEntityBody(s[1..n - 1])
  {
    var w := Window(s);
    var semi := Strpos(w, ";", 0);
    if s != "" && s[0] == '&' && semi >= 1 && IsEntityBody(w[1..semi]) then
      assert w[semi..semi + 1] == ";" && w[semi] == ';';
      assert w[1..semi] == s[1..semi];
      semi + 1
    else 0
  }

  /** `trim($decoded, " \t\n\r\0\x0B\xC2\xA0") === ''` */
  predicate AllBlankOrNbsp(s: string) {
    forall k :: 0 <= k < |s| ==> IsBlank(s[k]) || s[k] == '\U{C2}' || s[k] == '\U{A0}'
  }

  /* ----- one token ----- */

  /** End of a region closed by `closer`; an unclosed region runs to the end of the source. */
  function RegionLen(s: string, closer: string): (n: nat)
    requires s != "" && closer != ""
    ensures n <= |s|
    ensures n > 0
  {
    var close := Strpos(s, closer, 0);
    if close == -1 then |s| else close + |closer|
  }

  function CommentKind(raw: string): (k: Kind)
    requires |raw| >= 4
    ensures k.Comment? || k.BlockDelimiter?
  {
    var inner := Ltrim(if |raw| < 7 then "" else raw[4..|raw| - 3]);
    if StartsWith(inner, "wp:") || StartsWith(inner, "/wp:") then BlockDelimiter else Comment
  }

  /** A comment or a tag. */
  function LexAngle(s: string): (t: Token)
    requires s != "" && s[0] == '<'
    ensures 0 < |t.raw| <= |s| && t.raw == s[..|t.raw|]
    ensures t.kind.IsSkip()
  {
    if StartsWith(s, "<!--") then
      var raw := s[..CommentLen(s)];
      Token(CommentKind(raw), raw)
    else
      var raw := s[..RegionLen(s, ">")];
      var name := TagName(raw);
      Token(if name in INLINE_TAGS then InlineTag(name) else BlockTag(name), raw)
  }

  /** A character reference or a single byte. */
  function LexText(s: string, rules: Rules): (t: Token)
    requires s != ""
    ensures 0 < |t.raw| <= |s| && t.raw == s[..|t.raw|]
    ensures t.kind.SpaceEntity? || t.kind.IsText()
    ensures t.kind.Entity? ==> t.kind.bytes != ""
    ensures t.kind.Raw? ==> t.raw == [t.kind.byte]
  {
    var n := EntityLen(s);
    var decoded := rules.entity(s[..n]);
    if n == 0 || decoded == s[..n] || decoded == "" then Token(Raw(s[0]), s[..1])
    else if AllBlankOrNbsp(decoded) then Token(SpaceEntity, s[..n])
    else Token(Entity(decoded), s[..n])
  }

  /** The token at the head of a non-empty rest of the source. */
  function Lex(s: string, rules: Rules): (t: Token)
    requires s != ""
    ensures 0 < |t.raw| <= |s| && t.raw == s[..|t.raw|]
    ensures t.kind.Entity? ==> t.kind.bytes != ""
    ensures t.kind.Raw? ==> t.raw == [t.kind.byte]
  {
    if s[0] == '<' then LexAngle(s)
    else if rules.shortcodes && s[0] == '[' then Token(Shortcode, s[..RegionLen(s, "]")])
    else if IsBlank(s[0]) then Token(Space, s[..1])
    else LexText(s, rules)
  }

  function CommentLen(s: string): (n: nat)
    requires StartsWith(s, "<!--")
    ensures 4 <= n <= |s|
    ensures n == RegionLen(s, "-->")
  {
    var n := RegionLen(s, "-->");
    assert n >= 4 by {
      assert s[0..4] == "<!--";
      assert s[0] == '<' && s[1] == '!';
      var close := Strpos(s, "-->", 0);
      assert !OccursAt(s, "-->", 0);
    }
    n
  }

  /* ----- the whole source ----- */

  function Tokens(s: string, rules: Rules): seq<Token>
    decreases |s|
  {
    if s == "" then [] else
      var t := Lex(s, rules);
      [t] + Tokens(s[|t.raw|..], rules)
  }

  /** Is `b` an offset at which the scanner starts a token (or stops)? */
  predicate Boundary(s: string, b: int, rules: Rules)
    decreases |s|
  {
    b == 0 || (s != "" && |Lex(s, rules).raw| <= b
               && Boundary(s[|Lex(s, rules).raw|..], b - |Lex(s, rules).raw|, rules))
  }

  /** Bytes covered by a run of tokens. */
  function Size(toks: seq<Token>): nat {
    if toks == [] then 0 else Size(toks[..|toks| - 1]) + |toks[|toks| - 1].raw|
  }

  function Source(toks: seq<Token>): (s: string)
    ensures |s| == Size(toks)
  {
    if toks == [] then "" else Source(toks[..|toks| - 1]) + toks[|toks| - 1].raw
  }
}
