/**
 * The character-level combinators both query grammars are built from
 * (the `nom` parsers `multispace0/1`, `tag`, `tag_no_case`, `alpha1`,
 * `alphanumeric1`), the property-name token, and the UTF-8 byte length
 * the length limit is measured in.
 */
module Lexer {

  /** Outcome of one parser step. `NoMatch` is nom's recoverable error
      (an enclosing `alt` tries its next branch, `many0` stops);
      `Failure` is nom's unrecoverable error, raised by `cut`. */
  datatype ParseResult<+T> = Matched(value: T, rest: string) | NoMatch | Failure

  // Character classes (nom's `AsChar` on `char` is ASCII-only).

  predicate IsAlpha(c: char) {
    ('a' <= c <= 'z') || ('A' <= c <= 'Z')
  }

  predicate IsDigit(c: char) {
    '0' <= c <= '9'
  }

  /** Characters allowed after the first letter of a property name. */
  predicate IsNameChar(c: char) {
    IsAlpha(c) || IsDigit(c) || c == '_' || c == '-' || c == '.' || c == '/' || c == ':'
  }

  /** The characters `multispace0` and `multispace1` consume. */
  predicate IsSpace(c: char) {
    c == ' ' || c == '\t' || c == '\r' || c == '\n'
  }

  /** ASCII lower-casing; every other character is left alone. */
  function Lower(c: char): (r: char)
    ensures IsAlpha(c) ==> IsAlpha(r) && 'a' <= r <= 'z'
    ensures !IsAlpha(c) ==> r == c
  {
    if 'A' <= c <= 'Z' then (c as int - 'A' as int + 'a' as int) as char else c
  }

  function LowerAll(s: string): (r: string)
    ensures |r| == |s|
  {
    seq(|s|, i requires 0 <= i < |s| => Lower(s[i]))
  }

  // Whitespace.

  /** `multispace0`: drop every leading whitespace character. */
  function SkipSpace(s: string): (r: string)
    ensures |r| <= |s|
    ensures r == s[|s| - |r|..]
    ensures r == [] || !IsSpace(r[0])
    ensures forall i | 0 <= i < |s| - |r| :: IsSpace(s[i])
  {
    if |s| > 0 && IsSpace(s[0]) then SkipSpace(s[1..]) else s
  }

  /** Whitespace before a non-blank text is skipped entirely. */
  lemma {:induction false} SkipSpacePrefix(w: string, x: string)
    requires forall i | 0 <= i < |w| :: IsSpace(w[i])
    requires x == [] || !IsSpace(x[0])
    ensures SkipSpace(w + x) == x
    decreases |w|
  {
    if w != [] {
      assert (w + x)[1..] == w[1..] + x;
      SkipSpacePrefix(w[1..], x);
    } else {
      assert w + x == x;
    }
  }

  /** `multispace1`: at least one whitespace character, then all of them. */
  function Space1(s: string): (r: ParseResult<()>)
    ensures r.Matched? <==> |s| > 0 && IsSpace(s[0])
    ensures r.Matched? ==> r.rest == SkipSpace(s) && |r.rest| < |s|
    ensures !r.Failure?
  {
    if |s| > 0 && IsSpace(s[0]) then Matched((), SkipSpace(s)) else NoMatch
  }

  // Literal tags.

  /** `tag(t)`: the exact text `t`. */
  function Tag(t: string, s: string): (r: ParseResult<()>)
    ensures r.Matched? <==> t <= s
    ensures r.Matched? ==> r.rest == s[|t|..]
    ensures !r.Failure?
  {
    if t <= s then Matched((), s[|t|..]) else NoMatch
  }

  /** `kw` starts `s`, comparing ASCII letters without regard to case
      (`kw` itself is lower case). */
  predicate PrefixNoCase(kw: string, s: string) {
    |kw| <= |s| && (kw == [] || (Lower(s[0]) == kw[0] && PrefixNoCase(kw[1..], s[1..])))
  }

  /** The characterisation through lower-casing. */
  lemma {:induction false} PrefixNoCaseLower(kw: string, s: string)
    ensures PrefixNoCase(kw, s) <==> |kw| <= |s| && LowerAll(s[..|kw|]) == kw
  {
    if |kw| <= |s| && kw != [] {
      PrefixNoCaseLower(kw[1..], s[1..]);
      assert LowerAll(s[..|kw|]) == [Lower(s[0])] + LowerAll(s[1..][..|kw| - 1]);
      assert kw == [kw[0]] + kw[1..];
    }
  }

  /** `tag_no_case(kw)` for a lower-case ASCII keyword `kw`. */
  function TagNoCase(kw: string, s: string): (r: ParseResult<()>)
    ensures r.Matched? <==> PrefixNoCase(kw, s)
    ensures r.Matched? ==> |kw| <= |s| && r.rest == s[|kw|..]
    ensures !r.Failure?
  {
    if PrefixNoCase(kw, s) then Matched((), s[|kw|..]) else NoMatch
  }

  // Property names.

  const Keywords: set<string> := {"not", "and", "xor", "or"}

  /** `name` spells `kw` up to ASCII case. */
  predicate EqualNoCase(name: string, kw: string) {
    |name| == |kw| && PrefixNoCase(kw, name)
  }

  /** The verify step of `parse_property`: the lower-cased name is one of
      the four keywords. */
  predicate IsKeyword(name: string) {
    EqualNoCase(name, "not") || EqualNoCase(name, "and")
    || EqualNoCase(name, "xor") || EqualNoCase(name, "or")
  }

  lemma IsKeywordLower(name: string)
    ensures IsKeyword(name) <==> LowerAll(name) in Keywords
  {
    assert name[..|name|] == name;
    PrefixNoCaseLower("not", name);
    PrefixNoCaseLower("and", name);
    PrefixNoCaseLower("xor", name);
    PrefixNoCaseLower("or", name);
  }

  /** Length of the longest prefix of `s` made of name characters. */
  function NameRun(s: string): (n: nat)
    ensures n <= |s|
    ensures forall i | 0 <= i < n :: IsNameChar(s[i])
    ensures n < |s| ==> !IsNameChar(s[n])
  {
    if |s| > 0 && IsNameChar(s[0]) then 1 + NameRun(s[1..]) else 0
  }

  /** The property names the grammar accepts, stated character by character. */
  predicate ValidName(name: string) {
    && |name| > 0
    && IsAlpha(name[0])
    && (forall i | 0 <= i < |name| :: IsNameChar(name[i]))
    && !IsKeyword(name)
  }

  /** `parse_property`: `alpha1` followed by `many0` of name characters,
      recognised as one token, rejected when it is a keyword. The token is
      the longest run available; a keyword is not retried shorter. */
  function ParseProperty(s: string): (r: ParseResult<string>)
    ensures r.Matched? ==> ValidName(r.value) && s == r.value + r.rest
    ensures r.Matched? ==> r.rest == [] || !IsNameChar(r.rest[0])
    ensures !r.Failure?
  {
    if |s| > 0 && IsAlpha(s[0]) then
      var k := 1 + NameRun(s[1..]);
      if IsKeyword(s[..k]) then NoMatch
      else
        assert s == s[..k] + s[k..];
        Matched(s[..k], s[k..])
    else NoMatch
  }

  /** `validate_property_name`: the whole input is one property token. */
  function ValidatePropertyName(s: string): (ok: bool)
    ensures ok <==> ValidName(s)
  {
    ValidNameParsesWhole(s);
    var r := ParseProperty(s);
    r.Matched? && r.rest == []
  }

  /** A valid name followed by anything that cannot extend it is read back
      as exactly that name. */
  lemma PropertyOfName(name: string, t: string)
    requires ValidName(name)
    requires t == [] || !IsNameChar(t[0])
    ensures ParseProperty(name + t) == Matched(name, t)
  {
    var s := name + t;
    NameRunOfName(name[1..], t);
    assert s[1..] == name[1..] + t;
    var k := 1 + NameRun(s[1..]);
    assert k == |name|;
    assert s[..k] == name;
    assert s[k..] == t;
  }

  lemma ValidNameParsesWhole(s: string)
    ensures ValidName(s) ==> ParseProperty(s) == Matched(s, [])
    ensures ParseProperty(s).Matched? && ParseProperty(s).rest == [] ==> ValidName(s)
  {
    var r := ParseProperty(s);
    if r.Matched? && r.rest == [] {
      assert s == r.value + [] == r.value;
    }
    if ValidName(s) {
      PropertyOfName(s, []);
      assert s + [] == s;
    }
  }

  lemma {:induction false} NameRunOfName(body: string, t: string)
    requires forall i | 0 <= i < |body| :: IsNameChar(body[i])
    requires t == [] || !IsNameChar(t[0])
    ensures NameRun(body + t) == |body|
    decreases |body|
  {
    if |body| == 0 {
      assert body + t == t;
    } else {
      assert (body + t)[1..] == body[1..] + t;
      NameRunOfName(body[1..], t);
    }
  }

  // Length limit.

  /** Number of bytes the UTF-8 encoding of `c` takes. */
  function Utf8Width(c: char): (w: nat)
    ensures 1 <= w <= 4
    ensures w == 1 <==> c as int < 0x80
  {
    if c as int < 0x80 then 1
    else if c as int < 0x800 then 2
    else if c as int < 0x10000 then 3
    else 4
  }

  /** `str::len`: the length of `s` in UTF-8 bytes. */
  function Utf8Len(s: string): (n: nat)
    ensures |s| <= n <= 4 * |s|
  {
    if s == [] then 0 else Utf8Width(s[0]) + Utf8Len(s[1..])
  }
}
