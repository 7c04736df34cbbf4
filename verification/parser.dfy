/**
 * The library's recursive-descent query grammar (`Expression::parse`):
 *
 *   property      = letter { letter | digit | _ - . / : }, not a keyword
 *   operation(op) = term ws+ op ws+ term { ws+ op ws+ term }
 *   inverted      = ( "not" ws+ | "!" ) term
 *   wrapped       = "(" ws* subexpression ws* ")"
 *   term          = inverted | wrapped | property
 *   subexpression = ws* ( operation(and) | operation(or) | operation(xor)
 *                       | operation(-) | term ) ws*
 *   expression    = ws* "*" ws* | subexpression
 *
 * Keywords are matched case-insensitively. Every function takes the
 * remaining input and returns what nom returns; termination is measured
 * by the remaining length, then by the position of the rule in the list.
 */
module Parser {
  import opened Wrappers
  import opened Lexer
  import opened Expressions

  /** Longest accepted input, in UTF-8 bytes. */
  const MaxLength: nat := 2048

  /** Why `Expression::parse` rejected its input. The variant names are
      the source's (`InputStringToolLong` included); nom's message text
      carried by `Invalid` is not modelled. */
  datatype ParseError = Invalid | InvalidEndOfInput(rest: string) | InputStringToolLong

  /** What a term can start with: the letter of a name or of `not`, an
      opening parenthesis, or `!`. */
  predicate StartsTerm(s: string) {
    |s| > 0 && (IsAlpha(s[0]) || s[0] == '(' || s[0] == '!')
  }

  /** The prefix of `parse_inverted`: `not` followed by whitespace, or `!`. */
  function NotPrefix(s: string): (r: ParseResult<()>)
    ensures r.Matched? <==> (PrefixNoCase("not", s) && |s| > 3 && IsSpace(s[3])) || (|s| > 0 && s[0] == '!')
    ensures r.Matched? ==> StartsTerm(s) && |r.rest| < |s|
    ensures !r.Failure?
  {
    var kw := TagNoCase("not", s);
    if kw.Matched? && Space1(kw.rest).Matched? then Space1(kw.rest) else Tag("!", s)
  }

  /** `parse_inverted`: the term after the prefix is mandatory (`cut`), and
      the result is `Expression::not` of it, so a double negation cancels. */
  function ParseInverted(s: string): (r: ParseResult<Expression>)
    decreases |s|, 2
    ensures r.Matched? ==> Parsable(r.value) && |r.rest| < |s|
    ensures !r.NoMatch? ==> StartsTerm(s)
  {
    var p := NotPrefix(s);
    if p.Matched? then
      var t := ParseTerm(p.rest);
      if t.Matched? then Matched(Negate(t.value), t.rest) else Failure
    else NoMatch
  }

  /** `parse_wrapped`: the subexpression is mandatory (`cut`); a missing
      closing parenthesis is a recoverable mismatch. */
  function ParseWrapped(s: string): (r: ParseResult<Expression>)
    decreases |s|, 1
    ensures r.Matched? ==> Parsable(r.value) && |r.rest| < |s|
    ensures !r.NoMatch? ==> |s| > 0 && s[0] == '('
  {
    if Tag("(", s).Matched? then
      var inner := ParseSubexpression(SkipSpace(s[1..]));
      if inner.Matched? then
        var t := SkipSpace(inner.rest);
        if Tag(")", t).Matched? then Matched(inner.value, t[1..]) else NoMatch
      else Failure
    else NoMatch
  }

  /** `parse_term`: the first of inverted, wrapped and property that applies. */
  function ParseTerm(s: string): (r: ParseResult<Expression>)
    decreases |s|, 3
    ensures r.Matched? ==> Parsable(r.value) && |r.rest| < |s|
    ensures !r.NoMatch? ==> StartsTerm(s)
  {
    var inverted := ParseInverted(s);
    if !inverted.NoMatch? then inverted
    else
      var wrapped := ParseWrapped(s);
      if !wrapped.NoMatch? then wrapped
      else
        var name := ParseProperty(s);
        if name.Matched? then Matched(Property(name.value), name.rest) else NoMatch
  }

  /** `repeated_op`: whitespace, the keyword, whitespace, one more term. */
  function RepeatOnce(op: Operator, s: string): (r: ParseResult<Expression>)
    decreases |s|, 4
    ensures r.Matched? ==> Parsable(r.value) && |r.rest| < |s|
    ensures !r.NoMatch? ==> |s| > 0 && IsSpace(s[0])
  {
    var a := Space1(s);
    if a.Matched? then
      var b := TagNoCase(Keyword(op), a.rest);
      if b.Matched? then
        var c := Space1(b.rest);
        if c.Matched? then ParseTerm(c.rest) else NoMatch
      else NoMatch
    else NoMatch
  }

  /** `many0(repeated_op(op))`: as many repetitions as match; a mismatch
      ends the list, a failure propagates. */
  function ParseMany(op: Operator, s: string): (r: ParseResult<seq<Expression>>)
    decreases |s|, 5
    ensures !r.NoMatch?
    ensures r.Matched? ==> |r.rest| <= |s| && forall i | 0 <= i < |r.value| :: Parsable(r.value[i])
  {
    var once := RepeatOnce(op, s);
    if once.NoMatch? then Matched([], s)
    else if once.Failure? then Failure
    else
      var more := ParseMany(op, once.rest);
      if more.Matched? then
        AllParsableCons(once.value, more.value);
        Matched([once.value] + more.value, more.rest)
      else Failure
  }

  lemma AllParsableCons(x: Expression, xs: seq<Expression>)
    requires Parsable(x) && forall i | 0 <= i < |xs| :: Parsable(xs[i])
    ensures forall i | 0 <= i < |[x] + xs| :: Parsable(([x] + xs)[i])
  {
  }

  /** `op(keyword)`: a term followed by at least one repetition (`many1`). */
  function ParseOperation(op: Operator, s: string): (r: ParseResult<Expression>)
    decreases |s|, 6
    ensures r.Matched? ==> Parsable(r.value) && |r.rest| < |s|
    ensures r.Matched? ==> r.value.Node? && r.value.op == op
    ensures !r.NoMatch? ==> StartsTerm(s)
  {
    var lhs := ParseTerm(s);
    if !lhs.Matched? then lhs
    else
      var first := RepeatOnce(op, lhs.rest);
      if !first.Matched? then first
      else
        var more := ParseMany(op, first.rest);
        if more.Matched? then
          NodeOfTerms(op, lhs.value, first.value, more.value);
          Matched(Node(op, [lhs.value, first.value] + more.value), more.rest)
        else Failure
  }

  lemma NodeOfTerms(op: Operator, a: Expression, b: Expression, cs: seq<Expression>)
    requires Parsable(a) && Parsable(b)
    requires forall i | 0 <= i < |cs| :: Parsable(cs[i])
    ensures Parsable(Node(op, [a, b] + cs))
  {
    var all := [a, b] + cs;
    forall i | 0 <= i < |all| ensures Parsable(all[i]) {
      if i >= 2 { assert all[i] == cs[i - 2]; }
    }
  }

  /** `parse_subexpression`: the first operation that matches, else a single
      term, padded by whitespace; nothing matching is a failure (`cut`). */
  function ParseSubexpression(s: string): (r: ParseResult<Expression>)
    decreases |s|, 8
    ensures r.Matched? ==> Parsable(r.value) && |r.rest| < |s|
    ensures !r.NoMatch?
  {
    var t := SkipSpace(s);
    var found := Alternatives(t);
    if found.Matched? then Matched(found.value, SkipSpace(found.rest)) else Failure
  }

  /** The `alt` inside `parse_subexpression`, in its order of branches. */
  function Alternatives(t: string): (r: ParseResult<Expression>)
    decreases |t|, 7
    ensures r.Matched? ==> Parsable(r.value) && |r.rest| < |t|
    ensures !r.NoMatch? <==> StartsTerm(t) && !ParseTerm(t).NoMatch?
  {
    OrElse(ParseOperation(And, t),
    OrElse(ParseOperation(Or, t),
    OrElse(ParseOperation(Xor, t),
    OrElse(ParseOperation(Sub, t),
    ParseTerm(t)))))
  }

  /** `alt` of two branches: the second is consulted only on a mismatch. */
  function OrElse<T>(first: ParseResult<T>, second: ParseResult<T>): (r: ParseResult<T>)
    ensures r == first || (first.NoMatch? && r == second)
  {
    if first.NoMatch? then second else first
  }

  /** `parse_root`: a `*` surrounded by optional whitespace. */
  function ParseRoot(s: string): (r: ParseResult<Expression>)
    ensures r.Matched? <==> (var t := SkipSpace(s); t != [] && t[0] == '*')
    ensures r.Matched? ==> r.value == Root && r.rest == SkipSpace(SkipSpace(s)[1..])
    ensures !r.Failure?
  {
    var t := SkipSpace(s);
    if Tag("*", t).Matched? then Matched(Root, SkipSpace(t[1..])) else NoMatch
  }

  /** `parse_expression`: the root query, else a subexpression. */
  function ParseExpression(s: string): (r: ParseResult<Expression>)
    ensures r.Matched? ==> IsQuery(r.value)
    ensures !r.NoMatch?
  {
    var root := ParseRoot(s);
    if root.Matched? then root else ParseSubexpression(s)
  }

  /** `Expression::parse`: over-long input is refused before parsing,
      unconsumed input is reported, and a parser error becomes `Invalid`. */
  function Parse(input: string): (r: Result<Expression, ParseError>)
    ensures r == Err(InputStringToolLong) <==> Utf8Len(input) > MaxLength
    ensures r.Ok? ==> IsQuery(r.value) && Serializable(r.value) && Executable(r.value)
    ensures r.Err? && r.error.InvalidEndOfInput? ==> |r.error.rest| > 0
  {
    if Utf8Len(input) > MaxLength then Err(InputStringToolLong)
    else
      var e := ParseExpression(input);
      if e.Matched? then
        ParsableIsSerializable(e.value);
        if e.rest == [] then Ok(e.value) else Err(InvalidEndOfInput(e.rest))
      else Err(Invalid)
  }
}
