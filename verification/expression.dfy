/**
 * The boolean query AST of the library (`Expression`), its canonical
 * text form (`serialize`), and the operator impls that build flattened
 * nodes (`&`, `|`, `^`, `-`, `!`).
 */
module Expressions {
  import opened Lexer

  /** The four n-ary operators. The source spells them as four enum
      variants with identical shape; here they share one `Node`. */
  datatype Operator = And | Or | Xor | Sub

  /** A query: the whole index (`*`), one property, an n-ary operation
      over an ordered list of operands, or a negation. */
  datatype Expression =
    | Root
    | Property(name: string)
    | Node(op: Operator, children: seq<Expression>)
    | Not(inner: Expression)

  /** The operator keyword as written by `serialize` (lower case). */
  function Keyword(op: Operator): (kw: string)
    ensures |kw| > 0 && !IsSpace(kw[0])
  {
    match op
    case And => "and"
    case Or => "or"
    case Xor => "xor"
    case Sub => "-"
  }

  /** The keywords differ in their first character, so a separator of one
      operator never starts a separator of another. */
  lemma KeywordsDiffer(a: Operator, b: Operator)
    requires a != b
    ensures Keyword(a)[0] != Keyword(b)[0]
  {
  }

  /** The text `join` puts between two operands. */
  function Separator(op: Operator): string {
    " " + Keyword(op) + " "
  }

  // Shapes.

  /** Every node has an operand: `join` and `serialize` index `[0]`. */
  predicate Serializable(e: Expression) {
    match e
    case Root => true
    case Property(_) => true
    case Not(x) => Serializable(x)
    case Node(_, cs) => |cs| >= 1 && forall i | 0 <= i < |cs| :: Serializable(cs[i])
  }

  /** `execute` indexes `[0]` of `And` and `Sub` nodes; `Or` and `Xor` may
      be empty. */
  predicate Executable(e: Expression) {
    match e
    case Root => true
    case Property(_) => true
    case Not(x) => Executable(x)
    case Node(op, cs) =>
      && ((op == And || op == Sub) ==> |cs| >= 1)
      && forall i | 0 <= i < |cs| :: Executable(cs[i])
  }

  /** The expressions the grammar produces below the top level: valid
      property names, nodes of at least two operands, no `*`, and no
      negation directly under a negation (`Expression::not` unwraps it). */
  predicate Parsable(e: Expression) {
    match e
    case Root => false
    case Property(n) => ValidName(n)
    case Not(x) => !x.Not? && Parsable(x)
    case Node(_, cs) => |cs| >= 2 && forall i | 0 <= i < |cs| :: Parsable(cs[i])
  }

  /** The expressions `Expression::parse` can return. */
  predicate IsQuery(e: Expression) {
    e == Root || Parsable(e)
  }

  lemma ParsableIsSerializable(e: Expression)
    requires IsQuery(e)
    ensures Serializable(e) && Executable(e)
  {
    match e
    case Root =>
    case Property(_) =>
    case Not(x) => ParsableIsSerializable(x);
    case Node(_, cs) =>
      forall i | 0 <= i < |cs| ensures Serializable(cs[i]) && Executable(cs[i]) {
        ParsableIsSerializable(cs[i]);
      }
  }

  // Canonical text.

  /** `serialize`: `*`, the bare name, `not (…)`, or the operands joined by
      the operator keyword inside one pair of parentheses. */
  function Serialize(e: Expression): (s: string)
    requires Serializable(e)
    decreases e, 3
    ensures Parsable(e) ==> |s| > 0 && (IsAlpha(s[0]) || s[0] == '(')
  {
    match e
    case Root => "*"
    case Property(name) => name
    case Not(x) => "not (" + Serialize(x) + ")"
    case Node(op, cs) => Join(op, cs)
  }

  /** `join`: a single operand is written bare, several are parenthesised. */
  function Join(op: Operator, cs: seq<Expression>): (s: string)
    requires |cs| >= 1 && forall i | 0 <= i < |cs| :: Serializable(cs[i])
    decreases cs, 2
    ensures |cs| > 1 ==> |s| >= 2 && s[0] == '(' && s[|s| - 1] == ')'
    ensures |cs| == 1 ==> s == Serialize(cs[0])
  {
    if |cs| > 1 then "(" + Body(op, cs) + ")" else Serialize(cs[0])
  }

  /** The operands joined by the separator, without the parentheses. */
  function Body(op: Operator, cs: seq<Expression>): string
    requires |cs| >= 1 && forall i | 0 <= i < |cs| :: Serializable(cs[i])
    decreases cs, 1
  {
    Serialize(cs[0]) + Tail(op, cs[1..])
  }

  /** The separator-prefixed rendering of each operand after the first. */
  function Tail(op: Operator, ds: seq<Expression>): string
    requires forall i | 0 <= i < |ds| :: Serializable(ds[i])
    decreases ds, 0
  {
    if ds == [] then [] else Separator(op) + Serialize(ds[0]) + Tail(op, ds[1..])
  }

  // Builders.

  /** `impl Not for Expression`: negating a negation unwraps it. */
  function Negate(e: Expression): (r: Expression)
    ensures Parsable(e) ==> Parsable(r)
  {
    match e
    case Not(x) => x
    case _ => Not(e)
  }

  /** `!!e == e` for every query the grammar produces. */
  lemma NegateTwice(e: Expression)
    requires !(e.Not? && e.inner.Not?)
    ensures Negate(Negate(e)) == e
  {
  }

  /** The operands an expression contributes to a node of kind `op`:
      its own children when it is such a node, itself otherwise. */
  function Operands(op: Operator, e: Expression): seq<Expression> {
    if e.Node? && e.op == op then e.children else [e]
  }

  /** `impl BitAnd/BitOr/BitXor/Sub for Expression`: combining two
      expressions with `op` flattens operands that already are `op` nodes.
      When both are, the right-hand operands come first. */
  function Combine(op: Operator, l: Expression, r: Expression): (c: Expression)
    ensures c.Node? && c.op == op
    ensures multiset(c.children) == multiset(Operands(op, l)) + multiset(Operands(op, r))
  {
    var leftSame := l.Node? && l.op == op;
    var rightSame := r.Node? && r.op == op;
    if leftSame && rightSame then Node(op, r.children + l.children)
    else if leftSame then Node(op, l.children + [r])
    else if rightSame then Node(op, [l] + r.children)
    else Node(op, [l, r])
  }

  /** The `-` builder with only the left operand flattened: `(a - b) - c`
      is `a - b - c`, while `a - (b - c)` keeps its right operand whole. */
  function Subtract(l: Expression, r: Expression): (c: Expression)
    ensures c == Node(Sub, Operands(Sub, l) + [r])
  {
    if l.Node? && l.op == Sub then Node(Sub, l.children + [r])
    else assert [l] + [r] == [l, r]; Node(Sub, [l, r])
  }
}
