/**
 * The older server's recursive-descent query grammar (`Expression::parse`
 * of `src/expression.rs`):
 *
 *   property      = letter { letter | digit | _ - . / : }, not a keyword
 *   operation(op) = term ws+ op ws+ term
 *   inverted      = ( "not" ws+ | "!" ) term
 *   wrapped       = "(" ws* subexpression ws* ")"
 *   term          = inverted | wrapped | property
 *   subexpression = ws* ( operation(and) | operation(or) | operation(xor)
 *                       | term ) ws*
 *   expression    = ws* "*" ws* | subexpression
 *
 * The property, whitespace and negation-prefix recognisers are the same
 * combinators as the library's and are shared with its model.
 */
module LegacyParser {
  import opened Wrappers
  import opened Lexer
  import P = Parser
  import opened LegacyExpressions

  /** Why `Expression::parse` rejected its input; nom's message text
      carried by `ParserError` is not modelled. */
  datatype LegacyParseError = ParserError | InvalidEndOfInput(rest: string) | InputStringToolLong

  /** `parse_inverted`: the term after the prefix is mandatory (`cut`), and
      the negation is kept as written. */
  function ParseInverted(s: string): (r: ParseResult<Query>)
    decreases |s|, 2
    ensures r.Matched? ==> LegacyParsable(r.value) && |r.rest| < |s|
    ensures !r.NoMatch? ==> P.StartsTerm(s)
  {
    var p := P.NotPrefix(s);
    if p.Matched? then
      var t := ParseTerm(p.rest);
      if t.Matched? then Matched(Not(t.value), t.rest) else Failure
    else NoMatch
  }

  /** `parse_wrapped`: the subexpression is mandatory (`cut`); a missing
      closing parenthesis is a recoverable mismatch. */
  function ParseWrapped(s: string): (r: ParseResult<Query>)
    decreases |s|, 1
    ensures r.Matched? ==> LegacyParsable(r.value) && |r.rest| < |s|
    ensures !r.NoMatch? ==> |s| > 0 && s[0] == '('
  {
    if Tag("(", s).Matched? then
      var inner := ParseSubexpression(SkipSpace(s[1..]));
      if inner.Matched? then
        var t := SkipSpace(inner.rest);
        if Tag(")", t).Matched? then Matched(inner.value, t[1..]) else NoMatch
      else Failure
    else NoMatch
  }

  /** `parse_term`: the first of inverted, wrapped and property that applies. */
  function ParseTerm(s: string): (r: ParseResult<Query>)
    decreases |s|, 3
    ensures r.Matched? ==> LegacyParsable(r.value) && |r.rest| < |s|
    ensures !r.NoMatch? ==> P.StartsTerm(s)
  {
    var inverted := ParseInverted(s);
    if !inverted.NoMatch? then inverted
    else
      var wrapped := ParseWrapped(s);
      if !wrapped.NoMatch? then wrapped
      else
        var name := ParseProperty(s);
        if name.Matched? then Matched(Property(name.value), name.rest) else NoMatch
  }

  /** The `multispace1 tag_no_case(op) multispace1` between the two terms
      of an operation. */
  function Connector(op: Connective, s: string): (r: ParseResult<()>)
    ensures r.Matched? ==> |r.rest| < |s|
    ensures !r.Failure?
  {
    var a := Space1(s);
    if a.Matched? then
      var b := TagNoCase(Word(op), a.rest);
      if b.Matched? then Space1(b.rest) else NoMatch
    else NoMatch
  }

  /** `parse_and_operation`, `parse_or_operation`, `parse_xor_operation`:
      exactly two terms around the keyword; any error of a part is the
      error of the whole. */
  function ParseOperation(op: Connective, s: string): (r: ParseResult<Query>)
    decreases |s|, 4
    ensures r.Matched? ==> LegacyParsable(r.value) && |r.rest| < |s|
    ensures r.Matched? ==> r.value.Binary? && r.value.op == op
    ensures !r.NoMatch? ==> P.StartsTerm(s)
  {
    var lhs := ParseTerm(s);
    if !lhs.Matched? then lhs
    else
      var c := Connector(op, lhs.rest);
      if c.Matched? then
        var rhs := ParseTerm(c.rest);
        if rhs.Matched? then Matched(Binary(op, lhs.value, rhs.value), rhs.rest) else rhs
      else NoMatch
  }

  /** The `alt` inside `parse_subexpression`, in its order of branches. */
  function Alternatives(t: string): (r: ParseResult<Query>)
    decreases |t|, 5
    ensures r.Matched? ==> LegacyParsable(r.value) && |r.rest| < |t|
    ensures !r.NoMatch? <==> P.StartsTerm(t) && !ParseTerm(t).NoMatch?
  {
    P.OrElse(ParseOperation(Conjunction, t),
    P.OrElse(ParseOperation(Disjunction, t),
    P.OrElse(ParseOperation(Exclusive, t),
    ParseTerm(t))))
  }

  /** `parse_subexpression`: the first operation that matches, else a
      single term, padded by whitespace; nothing matching is a failure
      (`cut`). */
  function ParseSubexpression(s: string): (r: ParseResult<Query>)
    decreases |s|, 6
    ensures r.Matched? ==> LegacyParsable(r.value) && |r.rest| < |s|
    ensures !r.NoMatch?
  {
    var t := SkipSpace(s);
    var found := Alternatives(t);
    if found.Matched? then Matched(found.value, SkipSpace(found.rest)) else Failure
  }

  /** `parse_root`: the library's rule for a `*` surrounded by optional
      whitespace, producing the older `Root`. */
  function ParseRoot(s: string): (r: ParseResult<Query>)
    ensures r.Matched? <==> (var t := SkipSpace(s); t != [] && t[0] == '*')
    ensures r.Matched? ==> r.value == Root && r.rest == SkipSpace(SkipSpace(s)[1..])
    ensures !r.Failure?
  {
    var root := P.ParseRoot(s);
    if root.Matched? then Matched(Root, root.rest) else NoMatch
  }

  /** `parse_expression`: the root query, else a subexpression. */
  function ParseExpression(s: string): (r: ParseResult<Query>)
    ensures r.Matched? ==> r.value == Root || LegacyParsable(r.value)
    ensures !r.NoMatch?
  {
    var root := ParseRoot(s);
    if root.Matched? then root else ParseSubexpression(s)
  }

  /** `Expression::parse`: over-long input is refused before parsing,
      unconsumed input is reported, and a parser error becomes
      `ParserError`. */
  function Parse(input: string): (r: Result<Query, LegacyParseError>)
    ensures r == Err(InputStringToolLong) <==> Utf8Len(input) > P.MaxLength
    ensures r.Ok? ==> r.value == Root || LegacyParsable(r.value)
    ensures r.Err? && r.error.InvalidEndOfInput? ==> |r.error.rest| > 0
  {
    if Utf8Len(input) > P.MaxLength then Err(InputStringToolLong)
    else
      var e := ParseExpression(input);
      if e.Matched? then
        if e.rest == [] then Ok(e.value) else Err(InvalidEndOfInput(e.rest))
      else Err(ParserError)
  }
}
