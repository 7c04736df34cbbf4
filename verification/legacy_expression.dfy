/**
 * The older server's query AST (`src/expression.rs`): strictly binary
 * operations, a negation that is kept as written, and a canonical text
 * form that parenthesises every operand.
 */
module LegacyExpressions {
  import opened Lexer

  /** The three binary operators. The source spells them as three enum
      variants with identical shape; here they share one `Binary`. */
  datatype Connective = Conjunction | Disjunction | Exclusive

  /** `Expression` of the older grammar. */
  datatype Query =
    | Root
    | Property(name: string)
    | Binary(op: Connective, lhs: Query, rhs: Query)
    | Not(inner: Query)

  /** The operator keyword as written by `serialize` (lower case). */
  function Word(op: Connective): (w: string)
    ensures 2 <= |w| <= 3 && IsAlpha(w[0])
  {
    match op
    case Conjunction => "and"
    case Disjunction => "or"
    case Exclusive => "xor"
  }

  /** The keywords differ in their first character. */
  lemma WordsDiffer(a: Connective, b: Connective)
    requires a != b
    ensures Word(a)[0] != Word(b)[0]
  {
  }

  /** The queries the grammar produces below the top level: valid
      property names and no `*`. */
  predicate LegacyParsable(e: Query) {
    match e
    case Root => false
    case Property(n) => ValidName(n)
    case Binary(_, l, r) => LegacyParsable(l) && LegacyParsable(r)
    case Not(x) => LegacyParsable(x)
  }

  /** A group: the text in parentheses. */
  function Group(s: string): string {
    "(" + s + ")"
  }

  /** A keyword between single blanks. */
  function Spaced(w: string): string {
    " " + w + " "
  }

  /** `serialize`: `*`, the bare name, `not (…)`, or both operands
      parenthesised around the keyword. */
  function Serialize(e: Query): (s: string)
    ensures LegacyParsable(e) ==> |s| > 0 && (IsAlpha(s[0]) || s[0] == '(')
  {
    match e
    case Root => "*"
    case Property(name) => name
    case Not(x) => "not " + Group(Serialize(x))
    case Binary(op, l, r) => Group(Serialize(l)) + Spaced(Word(op)) + Group(Serialize(r))
  }
}
