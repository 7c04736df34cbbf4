/**
 * What the library's query grammar promises about its own output and
 * about a few shapes of input: the canonical text of any query parses
 * back to that query, one operator repeated gives one flat node, mixing
 * operators without parentheses stops at the second operator, and the
 * two spellings of negation agree and cancel in pairs.
 */
module RoundTrip {
  import opened Wrappers
  import opened Lexer
  import opened Expressions
  import opened Parser

  /** What may follow a term: anything that cannot extend a property name. */
  predicate Boundary(t: string) {
    t == [] || !IsNameChar(t[0])
  }

  /** What may follow a subexpression written by `serialize`: nothing, or
      the closing parenthesis of the enclosing group. */
  predicate Closing(u: string) {
    u == [] || u[0] == ')'
  }

  // Text facts, kept free of parser terms.

  lemma LowerOfKeywordChar(c: char, k: char)
    requires k == 'n' || k == 'o' || k == 't'
    requires Lower(c) == k
    ensures IsAlpha(c)
  {
  }

  predicate LowerWord(kw: string) {
    forall i | 0 <= i < |kw| :: Lower(kw[i]) == kw[i]
  }

  lemma KeywordIsLower(op: Operator)
    ensures LowerWord(Keyword(op))
  {
  }

  lemma SeparatorShape(op: Operator, x: string)
    ensures Separator(op) + x == " " + (Keyword(op) + (" " + x))
  {
  }

  /** `multispace1` on one blank followed by a non-blank. */
  lemma SpaceThen(y: string)
    requires y == [] || !IsSpace(y[0])
    ensures Space1(" " + y) == Matched((), y)
  {
    assert (" " + y)[1..] == y;
  }

  lemma {:induction false} PrefixNoCaseSelf(kw: string, y: string)
    requires LowerWord(kw)
    ensures PrefixNoCase(kw, kw + y)
  {
    if kw != [] {
      assert (kw + y)[1..] == kw[1..] + y;
      PrefixNoCaseSelf(kw[1..], y);
    }
  }

  /** `tag_no_case` on text that starts with the lower-case keyword. */
  lemma TagNoCaseOn(kw: string, y: string)
    requires LowerWord(kw)
    ensures TagNoCase(kw, kw + y) == Matched((), y)
  {
    PrefixNoCaseSelf(kw, y);
    assert (kw + y)[|kw|..] == y;
  }

  /** `tag_no_case` fails when the first characters already differ. */
  lemma TagNoCaseFirst(kw: string, s: string)
    requires |kw| > 0 && |s| > 0 && Lower(s[0]) != kw[0]
    ensures TagNoCase(kw, s).NoMatch?
  {
  }

  // Prefix facts.

  lemma ConcatParts(n: string, t: string)
    ensures (n + t)[..|n|] == n
    ensures |t| > 0 ==> (n + t)[|n|] == t[0]
  {
  }

  /** A property name never starts a negation, even one beginning `not`. */
  lemma NotPrefixOfName(n: string, t: string)
    requires ValidName(n) && Boundary(t)
    ensures NotPrefix(n + t).NoMatch?
  {
    var s := n + t;
    if TagNoCase("not", s).Matched? {
      PrefixNoCaseLower("not", s);
      var low := LowerAll(s[..3]);
      forall i | 0 <= i < 3 ensures IsAlpha(s[i]) {
        assert low[i] == Lower(s[i]);
        LowerOfKeywordChar(s[i], "not"[i]);
      }
      if |n| == 3 {
        ConcatParts(n, t);
        PrefixNoCaseLower("not", n);
        assert false;
      } else if |n| < 3 {
        ConcatParts(n, t);
        assert false;
      } else {
        assert s[3] == n[3];
        assert s[3..][0] == s[3];
        assert Space1(s[3..]).NoMatch?;
      }
    }
    assert s[0] == n[0];
    assert Tag("!", s).NoMatch?;
  }

  /** `not` and one space, followed by a non-blank, is a negation prefix. */
  lemma NotPrefixOfNot(w: string)
    requires w == [] || !IsSpace(w[0])
    ensures NotPrefix("not " + w) == Matched((), w)
  {
    TagNoCaseOn("not", " " + w);
    assert "not " + w == "not" + (" " + w);
    SpaceThen(w);
  }

  /** A character other than `n`, `N` and `!` does not start a negation. */
  lemma NotPrefixOfOther(s: string)
    requires |s| > 0 && Lower(s[0]) != 'n' && s[0] != '!'
    ensures NotPrefix(s).NoMatch?
  {
    TagNoCaseFirst("not", s);
  }

  /** `!` followed by a term is a negation prefix as well. */
  lemma NotPrefixOfBang(w: string)
    ensures NotPrefix("!" + w) == Matched((), w)
  {
    TagNoCaseFirst("not", "!" + w);
    assert ("!" + w)[1..] == w;
  }

  /** A term starts with a letter, `(` or `!`. */
  lemma TermStart(s: string)
    requires ParseTerm(s).Matched?
    ensures |s| > 0 && (IsAlpha(s[0]) || s[0] == '(' || s[0] == '!')
  {
    if |s| > 0 && !IsAlpha(s[0]) && s[0] != '(' && s[0] != '!' {
      NotPrefixOfOther(s);
      assert false;
    }
  }

  // Grammar steps used by the round trip.

  /** A property name followed by a boundary is read as that property. */
  lemma PropertyTerm(n: string, t: string)
    requires ValidName(n) && Boundary(t)
    ensures ParseTerm(n + t) == Matched(Property(n), t)
  {
    NotPrefixOfName(n, t);
    PropertyOfName(n, t);
  }

  lemma NoSpaceStart(x: string, y: string)
    requires |x| > 0 && !IsSpace(x[0])
    ensures SkipSpace(x + y) == x + y && (x + y)[0] == x[0]
  {
  }

  lemma ParenShape(inner: string, t: string)
    ensures ("(" + inner + ")" + t)[1..] == inner + (")" + t)
    ensures Tag("(", "(" + inner + ")" + t).Matched?
    ensures SkipSpace(")" + t) == ")" + t
    ensures Tag(")", ")" + t) == Matched((), t)
  {
    assert (")" + t)[1..] == t;
  }

  lemma WrappedOf(s: string, inner: string, e: Expression, close: string)
    requires Tag("(", s).Matched? && SkipSpace(s[1..]) == inner
    requires ParseSubexpression(inner) == Matched(e, close)
    requires SkipSpace(close) == close && Tag(")", close).Matched?
    ensures ParseWrapped(s) == Matched(e, close[1..])
  {
  }

  lemma WrappedStep(inner: string, e: Expression, t: string)
    requires |inner| > 0 && !IsSpace(inner[0])
    requires ParseSubexpression(inner + (")" + t)) == Matched(e, ")" + t)
    ensures ParseWrapped("(" + inner + ")" + t) == Matched(e, t)
  {
    ParenShape(inner, t);
    NoSpaceStart(inner, ")" + t);
    WrappedOf("(" + inner + ")" + t, inner + (")" + t), e, ")" + t);
  }

  lemma TermOfWrapped(s: string)
    requires |s| > 0 && s[0] == '('
    ensures ParseTerm(s) == ParseWrapped(s)
  {
    assert ParseInverted(s) == NoMatch by {
      NotPrefixOfOther(s);
    }
  }

  /** A parenthesised subexpression that runs up to its `)` is a term. */
  lemma ParenTerm(inner: string, e: Expression, t: string)
    requires |inner| > 0 && !IsSpace(inner[0])
    requires ParseSubexpression(inner + (")" + t)) == Matched(e, ")" + t)
    ensures ParseTerm("(" + inner + ")" + t) == Matched(e, t)
  {
    WrappedStep(inner, e, t);
    TermOfWrapped("(" + inner + ")" + t);
  }

  lemma InvertedStep(w: string)
    requires NotPrefix(w).Matched? && ParseTerm(NotPrefix(w).rest).Matched?
    ensures ParseTerm(w) == Matched(Negate(ParseTerm(NotPrefix(w).rest).value), ParseTerm(NotPrefix(w).rest).rest)
  {
  }

  /** The prefix `not ` applied to a term negates it (`Expression::not`). */
  lemma NegatedTerm(w: string)
    requires ParseTerm(w).Matched?
    ensures ParseTerm("not " + w) == Matched(Negate(ParseTerm(w).value), ParseTerm(w).rest)
  {
    TermStart(w);
    NotPrefixOfNot(w);
    InvertedStep("not " + w);
  }

  /** One separator of `op` and a term: one step of `many0`. */
  lemma RepeatStep(op: Operator, x: string, d: Expression, rest: string)
    requires |x| > 0 && !IsSpace(x[0])
    requires ParseTerm(x) == Matched(d, rest)
    ensures RepeatOnce(op, Separator(op) + x) == Matched(d, rest)
  {
    var kw := Keyword(op);
    SeparatorShape(op, x);
    SpaceThen(kw + (" " + x));
    KeywordIsLower(op);
    TagNoCaseOn(kw, " " + x);
    SpaceThen(x);
  }

  /** A separator of another operator is not a repetition of `op`. */
  lemma OtherSeparator(op: Operator, other: Operator, x: string)
    requires op != other
    ensures RepeatOnce(op, Separator(other) + x).NoMatch?
  {
    var kw := Keyword(other);
    SeparatorShape(other, x);
    SpaceThen(kw + (" " + x));
    KeywordsDiffer(op, other);
    KeywordIsLower(other);
    TagNoCaseFirst(Keyword(op), kw + (" " + x));
  }

  /** Only whitespace can start a repetition. */
  lemma NoRepeatAtClosing(op: Operator, u: string)
    requires Closing(u)
    ensures RepeatOnce(op, u).NoMatch?
  {
  }

  /** A term with nothing repeatable after it is no operation. */
  lemma NoOperation(op: Operator, s: string)
    requires ParseTerm(s).Matched? && RepeatOnce(op, ParseTerm(s).rest).NoMatch?
    ensures ParseOperation(op, s).NoMatch?
  {
  }

  /** The first term, one required repetition and the `many0` list. */
  lemma OperationStep(op: Operator, s: string)
    requires ParseTerm(s).Matched?
    requires RepeatOnce(op, ParseTerm(s).rest).Matched?
    requires ParseMany(op, RepeatOnce(op, ParseTerm(s).rest).rest).Matched?
    ensures ParseOperation(op, s)
         == Matched(Node(op, [ParseTerm(s).value, RepeatOnce(op, ParseTerm(s).rest).value]
                             + ParseMany(op, RepeatOnce(op, ParseTerm(s).rest).rest).value),
                    ParseMany(op, RepeatOnce(op, ParseTerm(s).rest).rest).rest)
  {
  }

  /** A repetition followed by the rest of the list. */
  lemma ManyStep(op: Operator, s: string)
    requires RepeatOnce(op, s).Matched?
    requires ParseMany(op, RepeatOnce(op, s).rest).Matched?
    ensures ParseMany(op, s)
         == Matched([RepeatOnce(op, s).value] + ParseMany(op, RepeatOnce(op, s).rest).value,
                    ParseMany(op, RepeatOnce(op, s).rest).rest)
  {
  }

  /** When no operation matches, the subexpression is the lone term. */
  lemma AlternativesTerm(t: string)
    requires forall op: Operator :: ParseOperation(op, t).NoMatch?
    ensures Alternatives(t) == ParseTerm(t)
  {
    assert ParseOperation(And, t).NoMatch? && ParseOperation(Or, t).NoMatch?;
    assert ParseOperation(Xor, t).NoMatch? && ParseOperation(Sub, t).NoMatch?;
  }

  /** When only `op`'s operation applies, the subexpression is it. */
  lemma AlternativesPick(op: Operator, t: string)
    requires !ParseOperation(op, t).NoMatch?
    requires forall other: Operator :: other != op ==> ParseOperation(other, t).NoMatch?
    ensures Alternatives(t) == ParseOperation(op, t)
  {
    match op
    case And =>
    case Or => assert ParseOperation(And, t).NoMatch?;
    case Xor => assert ParseOperation(And, t).NoMatch? && ParseOperation(Or, t).NoMatch?;
    case Sub =>
      assert ParseOperation(And, t).NoMatch? && ParseOperation(Or, t).NoMatch?;
      assert ParseOperation(Xor, t).NoMatch?;
  }

  /** A subexpression starting with a non-blank. */
  lemma SubexpressionStep(s: string)
    requires |s| > 0 && !IsSpace(s[0]) && Alternatives(s).Matched?
    ensures ParseSubexpression(s) == Matched(Alternatives(s).value, SkipSpace(Alternatives(s).rest))
  {
  }

  /** `Tail` is empty or starts with the separator's blank. */
  lemma TailStart(op: Operator, ds: seq<Expression>)
    requires forall i | 0 <= i < |ds| :: Serializable(ds[i])
    ensures ds != [] ==> |Tail(op, ds)| > 0 && Tail(op, ds)[0] == ' '
  {
  }

  /** Serialized queries other than `*` start with a letter or `(`. */
  lemma SerializedStart(e: Expression)
    requires Parsable(e)
    ensures Serializable(e) && |Serialize(e)| > 0 && !IsSpace(Serialize(e)[0]) && Serialize(e)[0] != '*'
  {
    ParsableIsSerializable(e);
  }

  // Text shapes of the canonical form.

  lemma NotText(x: Expression, t: string)
    requires Serializable(x)
    ensures Serialize(Not(x)) + t == "not " + ("(" + Serialize(x) + ")" + t)
  {
  }

  lemma NodeText(op: Operator, cs: seq<Expression>, t: string)
    requires |cs| >= 2 && forall i | 0 <= i < |cs| :: Serializable(cs[i])
    ensures Serialize(Node(op, cs)) + t == "(" + Body(op, cs) + ")" + t
  {
  }

  lemma BodySplit(op: Operator, cs: seq<Expression>, u: string)
    requires |cs| >= 1 && forall i | 0 <= i < |cs| :: Serializable(cs[i])
    ensures Body(op, cs) + u == Serialize(cs[0]) + (Tail(op, cs[1..]) + u)
  {
  }

  lemma TailSplit(op: Operator, ds: seq<Expression>, u: string)
    requires |ds| >= 1 && forall i | 0 <= i < |ds| :: Serializable(ds[i])
    ensures Tail(op, ds) + u == Separator(op) + (Serialize(ds[0]) + (Tail(op, ds[1..]) + u))
  {
    SeparatorShape(op, Serialize(ds[0]) + (Tail(op, ds[1..]) + u));
  }

  lemma BodyStart(op: Operator, cs: seq<Expression>, u: string)
    requires |cs| >= 1 && forall i | 0 <= i < |cs| :: Parsable(cs[i])
    ensures forall i | 0 <= i < |cs| :: Serializable(cs[i])
    ensures |Body(op, cs) + u| > 0 && (Body(op, cs) + u)[0] == Serialize(cs[0])[0]
    ensures !IsSpace(Serialize(cs[0])[0]) && Serialize(cs[0])[0] != '*'
  {
    forall i | 0 <= i < |cs| ensures Serializable(cs[i]) {
      ParsableIsSerializable(cs[i]);
    }
    SerializedStart(cs[0]);
  }

  // One case of the round trip each, given the results for the parts.

  lemma ParenOfSerialized(x: Expression, t: string)
    requires Parsable(x) && Serializable(x)
    requires ParseSubexpression(Serialize(x) + (")" + t)) == Matched(x, ")" + t)
    ensures ParseTerm("(" + Serialize(x) + ")" + t) == Matched(x, t)
  {
    SerializedStart(x);
    ParenTerm(Serialize(x), x, t);
  }

  lemma NotOfParen(x: Expression, t: string)
    requires Parsable(Not(x)) && Serializable(x)
    requires ParseTerm("(" + Serialize(x) + ")" + t) == Matched(x, t)
    ensures ParseTerm("not " + ("(" + Serialize(x) + ")" + t)) == Matched(Not(x), t)
  {
    NegatedTerm("(" + Serialize(x) + ")" + t);
  }

  lemma NotOfText(x: Expression, t: string)
    requires Parsable(Not(x)) && Serializable(x)
    requires ParseTerm("not " + ("(" + Serialize(x) + ")" + t)) == Matched(Not(x), t)
    ensures ParseTerm(Serialize(Not(x)) + t) == Matched(Not(x), t)
  {
    NotText(x, t);
  }

  lemma NotOfSubexpression(x: Expression, t: string)
    requires Parsable(Not(x)) && Serializable(x)
    requires ParseSubexpression(Serialize(x) + (")" + t)) == Matched(x, ")" + t)
    ensures ParseTerm("not " + ("(" + Serialize(x) + ")" + t)) == Matched(Not(x), t)
  {
    ParenOfSerialized(x, t);
    NotOfParen(x, t);
  }

  lemma NotCase(x: Expression, t: string)
    requires Parsable(Not(x)) && Serializable(x)
    requires ParseSubexpression(Serialize(x) + (")" + t)) == Matched(x, ")" + t)
    ensures ParseTerm(Serialize(Not(x)) + t) == Matched(Not(x), t)
  {
    NotOfSubexpression(x, t);
    NotOfText(x, t);
  }

  lemma NodeCase(op: Operator, cs: seq<Expression>, t: string)
    requires Serializable(Node(op, cs)) && Parsable(Node(op, cs))
    requires ParseSubexpression(Body(op, cs) + (")" + t)) == Matched(Node(op, cs), SkipSpace(")" + t))
    ensures ParseTerm(Serialize(Node(op, cs)) + t) == Matched(Node(op, cs), t)
  {
    ParenShape(Body(op, cs), t);
    BodyStart(op, cs, []);
    assert Body(op, cs) + [] == Body(op, cs);
    ParenTerm(Body(op, cs), Node(op, cs), t);
    NodeText(op, cs, t);
  }

  lemma SubexpressionCase(e: Expression, u: string)
    requires Parsable(e) && Serializable(e) && Closing(u)
    requires ParseTerm(Serialize(e) + u) == Matched(e, u)
    ensures ParseSubexpression(Serialize(e) + u) == Matched(e, u)
  {
    SerializedStart(e);
    NoSpaceStart(Serialize(e), u);
    TermAlone(Serialize(e) + u, e, u);
  }

  /** A term followed by nothing or `)` is the whole subexpression. */
  lemma TermAlone(s: string, e: Expression, u: string)
    requires |s| > 0 && !IsSpace(s[0]) && Closing(u)
    requires ParseTerm(s) == Matched(e, u)
    ensures ParseSubexpression(s) == Matched(e, u)
  {
    forall op: Operator ensures ParseOperation(op, s).NoMatch? {
      NoRepeatAtClosing(op, u);
      NoOperation(op, s);
    }
    AlternativesTerm(s);
    SubexpressionStep(s);
    assert SkipSpace(u) == u;
  }

  /** The operation of `op` over the text `x0 + sep + x1 + more`. */
  lemma OperationCase(op: Operator, s: string, c0: Expression, rest: string,
                      x: string, c1: Expression, more: string, ds: seq<Expression>, u: string)
    requires ParseTerm(s) == Matched(c0, rest)
    requires rest == Separator(op) + x && |x| > 0 && !IsSpace(x[0])
    requires ParseTerm(x) == Matched(c1, more)
    requires ParseMany(op, more) == Matched(ds, u)
    ensures ParseOperation(op, s) == Matched(Node(op, [c0, c1] + ds), u)
  {
    RepeatStep(op, x, c1, more);
    OperationStep(op, s);
  }

  lemma OtherOperations(op: Operator, s: string, c0: Expression, rest: string, x: string)
    requires ParseTerm(s) == Matched(c0, rest) && rest == Separator(op) + x
    ensures forall other: Operator :: other != op ==> ParseOperation(other, s).NoMatch?
  {
    forall other: Operator | other != op ensures ParseOperation(other, s).NoMatch? {
      OtherSeparator(other, op, x);
      NoOperation(other, s);
    }
  }

  lemma SubexpressionOfOperation(op: Operator, s: string, e: Expression, u: string)
    requires |s| > 0 && !IsSpace(s[0])
    requires ParseOperation(op, s) == Matched(e, u)
    requires forall other: Operator :: other != op ==> ParseOperation(other, s).NoMatch?
    ensures ParseSubexpression(s) == Matched(e, SkipSpace(u))
  {
    AlternativesPick(op, s);
    SubexpressionStep(s);
  }

  /** The text of two or more operands, cut at the first separator. */
  lemma BodyShape(op: Operator, cs: seq<Expression>, u: string)
    requires |cs| >= 2 && Serializable(Node(op, cs)) && Parsable(Node(op, cs))
    ensures Body(op, cs) + u == Serialize(cs[0]) + (Tail(op, cs[1..]) + u)
    ensures Tail(op, cs[1..]) + u == Separator(op) + (Serialize(cs[1]) + (Tail(op, cs[2..]) + u))
    ensures |Serialize(cs[1]) + (Tail(op, cs[2..]) + u)| > 0
    ensures !IsSpace((Serialize(cs[1]) + (Tail(op, cs[2..]) + u))[0])
  {
    BodySplit(op, cs, u);
    assert cs[1..][1..] == cs[2..];
    TailSplit(op, cs[1..], u);
    SerializedStart(cs[1]);
    NoSpaceStart(Serialize(cs[1]), Tail(op, cs[2..]) + u);
  }

  lemma BodyFirstTerm(op: Operator, cs: seq<Expression>, u: string)
    requires |cs| >= 2 && Serializable(Node(op, cs))
    requires ParseTerm(Serialize(cs[0]) + (Tail(op, cs[1..]) + u)) == Matched(cs[0], Tail(op, cs[1..]) + u)
    ensures ParseTerm(Body(op, cs) + u) == Matched(cs[0], Tail(op, cs[1..]) + u)
  {
    BodySplit(op, cs, u);
  }

  lemma TailShape(op: Operator, cs: seq<Expression>, u: string)
    requires |cs| >= 2 && Serializable(Node(op, cs)) && Parsable(Node(op, cs))
    ensures Tail(op, cs[1..]) + u == Separator(op) + (Serialize(cs[1]) + (Tail(op, cs[2..]) + u))
    ensures |Serialize(cs[1]) + (Tail(op, cs[2..]) + u)| > 0
    ensures !IsSpace((Serialize(cs[1]) + (Tail(op, cs[2..]) + u))[0])
  {
    assert cs[1..][1..] == cs[2..];
    TailSplit(op, cs[1..], u);
    SerializedStart(cs[1]);
    NoSpaceStart(Serialize(cs[1]), Tail(op, cs[2..]) + u);
  }

  lemma TailRepeat(op: Operator, cs: seq<Expression>, u: string)
    requires |cs| >= 2 && Serializable(Node(op, cs)) && Parsable(Node(op, cs))
    requires ParseTerm(Serialize(cs[1]) + (Tail(op, cs[2..]) + u)) == Matched(cs[1], Tail(op, cs[2..]) + u)
    ensures RepeatOnce(op, Tail(op, cs[1..]) + u) == Matched(cs[1], Tail(op, cs[2..]) + u)
  {
    TailShape(op, cs, u);
    RepeatStep(op, Serialize(cs[1]) + (Tail(op, cs[2..]) + u), cs[1], Tail(op, cs[2..]) + u);
  }

  lemma BodyOperationMatches(op: Operator, cs: seq<Expression>, u: string)
    requires |cs| >= 2 && Serializable(Node(op, cs)) && Parsable(Node(op, cs))
    requires ParseTerm(Serialize(cs[0]) + (Tail(op, cs[1..]) + u)) == Matched(cs[0], Tail(op, cs[1..]) + u)
    requires ParseTerm(Serialize(cs[1]) + (Tail(op, cs[2..]) + u)) == Matched(cs[1], Tail(op, cs[2..]) + u)
    requires ParseMany(op, Tail(op, cs[2..]) + u) == Matched(cs[2..], u)
    ensures ParseOperation(op, Body(op, cs) + u) == Matched(Node(op, [cs[0], cs[1]] + cs[2..]), u)
  {
    BodyFirstTerm(op, cs, u);
    TailRepeat(op, cs, u);
    OperationStep(op, Body(op, cs) + u);
  }

  lemma BodyOthersMismatch(op: Operator, cs: seq<Expression>, u: string)
    requires |cs| >= 2 && Serializable(Node(op, cs)) && Parsable(Node(op, cs))
    requires ParseTerm(Serialize(cs[0]) + (Tail(op, cs[1..]) + u)) == Matched(cs[0], Tail(op, cs[1..]) + u)
    ensures forall other: Operator :: other != op ==> ParseOperation(other, Body(op, cs) + u).NoMatch?
  {
    BodyShape(op, cs, u);
    OtherOperations(op, Body(op, cs) + u, cs[0], Tail(op, cs[1..]) + u,
                    Serialize(cs[1]) + (Tail(op, cs[2..]) + u));
  }

  lemma BodyOperation(op: Operator, cs: seq<Expression>, u: string)
    requires |cs| >= 2 && Serializable(Node(op, cs)) && Parsable(Node(op, cs))
    requires ParseTerm(Serialize(cs[0]) + (Tail(op, cs[1..]) + u)) == Matched(cs[0], Tail(op, cs[1..]) + u)
    requires ParseTerm(Serialize(cs[1]) + (Tail(op, cs[2..]) + u)) == Matched(cs[1], Tail(op, cs[2..]) + u)
    requires ParseMany(op, Tail(op, cs[2..]) + u) == Matched(cs[2..], u)
    ensures ParseOperation(op, Body(op, cs) + u) == Matched(Node(op, cs), u)
    ensures forall other: Operator :: other != op ==> ParseOperation(other, Body(op, cs) + u).NoMatch?
  {
    BodyOperationMatches(op, cs, u);
    FirstTwo(cs);
    BodyOthersMismatch(op, cs, u);
  }

  lemma FirstTwo<T>(cs: seq<T>)
    requires |cs| >= 2
    ensures [cs[0], cs[1]] + cs[2..] == cs
  {
  }

  lemma FirstOne<T>(cs: seq<T>)
    requires |cs| >= 1
    ensures [cs[0]] + cs[1..] == cs
  {
  }

  lemma BodyCase(op: Operator, cs: seq<Expression>, u: string)
    requires |cs| >= 2 && Serializable(Node(op, cs)) && Parsable(Node(op, cs))
    requires ParseTerm(Serialize(cs[0]) + (Tail(op, cs[1..]) + u)) == Matched(cs[0], Tail(op, cs[1..]) + u)
    requires ParseTerm(Serialize(cs[1]) + (Tail(op, cs[2..]) + u)) == Matched(cs[1], Tail(op, cs[2..]) + u)
    requires ParseMany(op, Tail(op, cs[2..]) + u) == Matched(cs[2..], u)
    ensures ParseSubexpression(Body(op, cs) + u) == Matched(Node(op, cs), SkipSpace(u))
  {
    BodyOperation(op, cs, u);
    BodyStart(op, cs, u);
    SubexpressionOfOperation(op, Body(op, cs) + u, Node(op, cs), u);
  }

  /** One separator-prefixed term in front of a `many0` list. */
  lemma ManyOf(op: Operator, x: string, d: Expression, more: string, ds: seq<Expression>, u: string)
    requires |x| > 0 && !IsSpace(x[0])
    requires ParseTerm(x) == Matched(d, more)
    requires ParseMany(op, more) == Matched(ds, u)
    ensures ParseMany(op, Separator(op) + x) == Matched([d] + ds, u)
  {
    RepeatStep(op, x, d, more);
    ManyStep(op, Separator(op) + x);
  }

  lemma ManyCase(op: Operator, ds: seq<Expression>, u: string)
    requires |ds| >= 1 && forall i | 0 <= i < |ds| :: Parsable(ds[i]) && Serializable(ds[i])
    requires ParseTerm(Serialize(ds[0]) + (Tail(op, ds[1..]) + u)) == Matched(ds[0], Tail(op, ds[1..]) + u)
    requires ParseMany(op, Tail(op, ds[1..]) + u) == Matched(ds[1..], u)
    ensures ParseMany(op, Tail(op, ds) + u) == Matched(ds, u)
  {
    var more := Tail(op, ds[1..]) + u;
    SerializedStart(ds[0]);
    NoSpaceStart(Serialize(ds[0]), more);
    ManyOf(op, Serialize(ds[0]) + more, ds[0], more, ds[1..], u);
    TailSplit(op, ds, u);
    FirstOne(ds);
  }

  // The round trip, by induction over the query.

  /** The canonical text of a query, followed by a boundary, reads back as
      that query in term position. */
  lemma {:induction false} TermRoundTrip(e: Expression, t: string)
    requires Parsable(e) && Boundary(t)
    ensures Serializable(e) && ParseTerm(Serialize(e) + t) == Matched(e, t)
    decreases e, 1
  {
    ParsableIsSerializable(e);
    match e
    case Property(n) =>
      PropertyTerm(n, t);
    case Not(x) =>
      SubexpressionRoundTrip(x, ")" + t);
      NotCase(x, t);
    case Node(op, cs) =>
      NoRepeatAtClosing(op, ")" + t);
      BodyRoundTrip(op, cs, ")" + t);
      NodeCase(op, cs, t);
  }

  /** The canonical text of a query, followed by nothing or by `)`, reads
      back as that query in subexpression position. */
  lemma {:induction false} SubexpressionRoundTrip(e: Expression, u: string)
    requires Parsable(e) && Closing(u)
    ensures Serializable(e) && ParseSubexpression(Serialize(e) + u) == Matched(e, u)
    decreases e, 2
  {
    ParsableIsSerializable(e);
    TermRoundTrip(e, u);
    SubexpressionCase(e, u);
  }

  /** Two or more operands joined by `op`, followed by a boundary that does
      not continue the chain, read back as the one flat `op` node. */
  lemma {:induction false} BodyRoundTrip(op: Operator, cs: seq<Expression>, u: string)
    requires |cs| >= 2 && forall i | 0 <= i < |cs| :: Parsable(cs[i])
    requires Boundary(u) && RepeatOnce(op, u).NoMatch?
    ensures Serializable(Node(op, cs))
    ensures ParseSubexpression(Body(op, cs) + u) == Matched(Node(op, cs), SkipSpace(u))
    decreases cs, 3
  {
    ParsableIsSerializable(Node(op, cs));
    var c0, c1, tail, ds := cs[0], cs[1], cs[1..], cs[2..];
    TailStart(op, tail);
    TermRoundTrip(c0, Tail(op, tail) + u);
    TailStart(op, ds);
    TermRoundTrip(c1, Tail(op, ds) + u);
    ManyRoundTrip(op, ds, u);
    BodyCase(op, cs, u);
  }

  /** The separator-prefixed operands read back as the `many0` list. */
  lemma {:induction false} ManyRoundTrip(op: Operator, ds: seq<Expression>, u: string)
    requires forall i | 0 <= i < |ds| :: Parsable(ds[i])
    requires Boundary(u) && RepeatOnce(op, u).NoMatch?
    ensures forall i | 0 <= i < |ds| :: Serializable(ds[i])
    ensures ParseMany(op, Tail(op, ds) + u) == Matched(ds, u)
    decreases ds, 0
  {
    forall i | 0 <= i < |ds| ensures Serializable(ds[i]) {
      ParsableIsSerializable(ds[i]);
    }
    if ds != [] {
      TailStart(op, ds[1..]);
      TermRoundTrip(ds[0], Tail(op, ds[1..]) + u);
      ManyRoundTrip(op, ds[1..], u);
      ManyCase(op, ds, u);
    } else {
      assert Tail(op, ds) + u == u;
    }
  }

  // Whole queries.

  /** Text that does not start with blank or `*` is no root query. */
  lemma RootNoMatch(s: string)
    requires |s| > 0 && !IsSpace(s[0]) && s[0] != '*'
    ensures ParseRoot(s).NoMatch?
  {
  }

  /** Outside the root query, `Expression::parse` is the subexpression
      followed by the check for unconsumed input. */
  lemma ParseOfSubexpression(s: string)
    requires Utf8Len(s) <= MaxLength
    requires ParseRoot(s).NoMatch? && ParseSubexpression(s).Matched?
    ensures Parse(s) == if ParseSubexpression(s).rest == [] then Ok(ParseSubexpression(s).value)
                        else Err(InvalidEndOfInput(ParseSubexpression(s).rest))
  {
  }

  /** `Expression::parse` of text that starts like a term. */
  lemma ParseOfText(s: string, e: Expression, rest: string)
    requires |s| > 0 && !IsSpace(s[0]) && s[0] != '*' && Utf8Len(s) <= MaxLength
    requires ParseSubexpression(s) == Matched(e, rest)
    ensures Parse(s) == if rest == [] then Ok(e) else Err(InvalidEndOfInput(rest))
  {
    RootNoMatch(s);
    ParseOfSubexpression(s);
  }

  /** The text `*` is the root query. */
  lemma RootText()
    ensures Parse("*") == Ok(Root)
  {
    PaddedRoot("", "");
    assert "" + "*" + "" == "*";
    assert Utf8Len("*") == 1;
  }

  /** A `*` with whitespace on either side is the root query, unless the
      text is over-long. */
  lemma PaddedRoot(w1: string, w2: string)
    requires forall i | 0 <= i < |w1| :: IsSpace(w1[i])
    requires forall i | 0 <= i < |w2| :: IsSpace(w2[i])
    ensures Parse(w1 + "*" + w2)
         == if Utf8Len(w1 + "*" + w2) > MaxLength then Err(InputStringToolLong) else Ok(Root)
  {
    RootPadding(w1, w2);
    RootMatched(w1 + "*" + w2);
  }

  lemma RootPadding(w1: string, w2: string)
    requires forall i | 0 <= i < |w1| :: IsSpace(w1[i])
    requires forall i | 0 <= i < |w2| :: IsSpace(w2[i])
    ensures ParseRoot(w1 + "*" + w2) == Matched(Root, [])
  {
    assert w1 + "*" + w2 == w1 + ("*" + w2);
    SkipSpacePrefix(w1, "*" + w2);
    assert ("*" + w2)[1..] == w2 && w2 == w2 + [];
    SkipSpacePrefix(w2, []);
  }

  lemma RootMatched(s: string)
    requires ParseRoot(s) == Matched(Root, [])
    ensures Parse(s) == if Utf8Len(s) > MaxLength then Err(InputStringToolLong) else Ok(Root)
  {
  }


  /** `serialize` then `Expression::parse` gives back the query, provided the
      canonical text is within the length limit. */
  lemma SerializeParses(e: Expression)
    requires IsQuery(e)
    requires Serializable(e) && Utf8Len(Serialize(e)) <= MaxLength
    ensures Parse(Serialize(e)) == Ok(e)
  {
    if e == Root {
      RootText();
    } else {
      var s := Serialize(e);
      SerializedStart(e);
      SubexpressionRoundTrip(e, []);
      assert s + [] == s;
      ParseOfText(s, e, []);
    }
  }

  /** Parsing the canonical text of a parsed query gives the same query
      (`Expression::parse(e.serialize()) == e`). */
  lemma ParseSerializeRoundTrip(input: string)
    requires Parse(input).Ok?
    requires Utf8Len(Serialize(Parse(input).value)) <= MaxLength
    ensures Parse(Serialize(Parse(input).value)) == Parse(input)
  {
    SerializeParses(Parse(input).value);
  }

  /** A term with nothing after it is a whole subexpression. */
  lemma TermSubexpression(s: string)
    requires ParseTerm(s).Matched? && ParseTerm(s).rest == []
    ensures |s| > 0 && !IsSpace(s[0]) && s[0] != '*'
    ensures ParseSubexpression(s) == Matched(ParseTerm(s).value, [])
  {
    var e := ParseTerm(s).value;
    assert StartsTerm(s);
    assert ParseTerm(s) == Matched(e, []);
    TermAlone(s, e, []);
  }

  /** A query that is one term, with nothing after it, is that term. */
  lemma SingleTerm(s: string)
    requires ParseTerm(s).Matched? && ParseTerm(s).rest == []
    requires Utf8Len(s) <= MaxLength
    ensures Parse(s) == Ok(ParseTerm(s).value)
  {
    TermSubexpression(s);
    ParseOfText(s, ParseTerm(s).value, []);
  }

  /** Operands joined by one repeated operator parse to a single flat node
      listing them in order. */
  lemma ChainIsFlat(op: Operator, cs: seq<Expression>)
    requires |cs| >= 2 && forall i | 0 <= i < |cs| :: Parsable(cs[i])
    requires Serializable(Node(op, cs)) && Utf8Len(Body(op, cs)) <= MaxLength
    ensures Parse(Body(op, cs)) == Ok(Node(op, cs))
  {
    var s := Body(op, cs);
    BodyAlone(op, cs);
    BodyStart(op, cs, []);
    assert s + [] == s;
    ParseOfText(s, Node(op, cs), []);
  }

  /** The body of a chain, with nothing after it, is one whole subexpression. */
  lemma BodyAlone(op: Operator, cs: seq<Expression>)
    requires |cs| >= 2 && forall i | 0 <= i < |cs| :: Parsable(cs[i])
    requires Serializable(Node(op, cs))
    ensures ParseSubexpression(Body(op, cs)) == Matched(Node(op, cs), [])
  {
    var s := Body(op, cs);
    NoRepeatAtClosing(op, []);
    assert SkipSpace([]) == [];
    BodyRoundTrip(op, cs, []);
    assert s + [] == s;
  }

  /** The separator of another operator, as `multispace0` leaves it. */
  lemma SeparatorSkipped(other: Operator, x: string)
    ensures SkipSpace(Separator(other) + x) == Keyword(other) + " " + x
    ensures Boundary(Separator(other) + x)
  {
    var kw := Keyword(other);
    SeparatorShape(other, x);
    SpaceThen(kw + (" " + x));
    assert kw + (" " + x) == kw + " " + x;
  }

  lemma MixedChainSubexpression(op: Operator, other: Operator, cs: seq<Expression>, d: Expression)
    requires op != other
    requires |cs| >= 2 && forall i | 0 <= i < |cs| :: Parsable(cs[i])
    requires Parsable(d) && Serializable(Node(op, cs)) && Serializable(d)
    ensures ParseSubexpression(Body(op, cs) + (Separator(other) + Serialize(d)))
         == Matched(Node(op, cs), Keyword(other) + " " + Serialize(d))
  {
    var u := Separator(other) + Serialize(d);
    OtherSeparator(op, other, Serialize(d));
    SeparatorSkipped(other, Serialize(d));
    BodyRoundTrip(op, cs, u);
  }

  lemma MixedChainText(op: Operator, other: Operator, cs: seq<Expression>, d: Expression)
    requires |cs| >= 2 && forall i | 0 <= i < |cs| :: Parsable(cs[i])
    requires Serializable(Node(op, cs)) && Serializable(d)
    ensures Body(op, cs) + (Separator(other) + Serialize(d)) == Body(op, cs) + Separator(other) + Serialize(d)
    ensures var s := Body(op, cs) + Separator(other) + Serialize(d);
            |s| > 0 && !IsSpace(s[0]) && s[0] != '*'
  {
    BodyStart(op, cs, Separator(other) + Serialize(d));
  }

  /** A second operator in an unparenthesised chain is not consumed: the
      parse stops and reports the input from that operator on. */
  lemma MixedChainStops(op: Operator, other: Operator, cs: seq<Expression>, d: Expression)
    requires op != other
    requires |cs| >= 2 && forall i | 0 <= i < |cs| :: Parsable(cs[i])
    requires Parsable(d)
    requires Serializable(Node(op, cs)) && Serializable(d)
    requires Utf8Len(Body(op, cs) + Separator(other) + Serialize(d)) <= MaxLength
    ensures Parse(Body(op, cs) + Separator(other) + Serialize(d))
         == Err(InvalidEndOfInput(Keyword(other) + " " + Serialize(d)))
  {
    MixedChainSubexpression(op, other, cs, d);
    MixedChainText(op, other, cs, d);
    ParseOfText(Body(op, cs) + Separator(other) + Serialize(d), Node(op, cs), Keyword(other) + " " + Serialize(d));
  }

  /** Negation the way the prefix rule applies it. */
  lemma InvertedOf(w: string)
    requires NotPrefix(w).Matched?
    ensures ParseTerm(w)
         == var t := ParseTerm(NotPrefix(w).rest);
            if t.Matched? then Matched(Negate(t.value), t.rest) else Failure
  {
  }

  lemma NestedNegation(w: string)
    requires ParseTerm(w).Matched?
    ensures ParseTerm("not " + ("not " + w)) == ParseTerm(w)
  {
    NegatedTerm(w);
    NegatedTerm("not " + w);
    NegateTwice(ParseTerm(w).value);
  }

  lemma NotNotText(w: string)
    ensures "not " + ("not " + w) == "not not " + w
  {
  }

  /** Two negations cancel: `not not x` reads as `x`. */
  lemma DoubleNegation(w: string)
    requires ParseTerm(w).Matched?
    ensures ParseTerm("not not " + w) == ParseTerm(w)
  {
    NestedNegation(w);
    NotNotText(w);
  }

  /** `!` is the same negation as `not `. */
  lemma BangIsNot(w: string)
    requires w == [] || !IsSpace(w[0])
    ensures ParseTerm("!" + w) == ParseTerm("not " + w)
  {
    NotPrefixOfNot(w);
    NotPrefixOfBang(w);
    InvertedOf("!" + w);
    InvertedOf("not " + w);
  }

  lemma FourNotsText(w: string)
    ensures "not not " + ("not not " + w) == "not not not not " + w
  {
  }

  /** Four negations of a term leave the term. */
  lemma FourNegationsOf(w: string)
    requires ParseTerm(w).Matched?
    ensures ParseTerm("not not not not " + w) == ParseTerm(w)
  {
    DoubleNegation(w);
    DoubleNegation("not not " + w);
    FourNotsText(w);
  }

  lemma FooTerm()
    ensures ParseTerm("foo") == Matched(Property("foo"), [])
  {
    assert ValidName("foo");
    PropertyTerm("foo", []);
    assert "foo" + [] == "foo";
  }

  lemma FourNegationsText()
    ensures "not not not not " + "foo" == "not not not not foo"
  {
  }

  /** Four negations of a property leave the property. */
  lemma FourNegations()
    ensures Parse("not not not not foo") == Ok(Property("foo"))
  {
    FooTerm();
    FourNegationsOf("foo");
    FourNegationsText();
    SingleTerm("not not not not foo");
  }

  /** `!!foo` reads as `foo`: the two negations cancel. */
  lemma DoubleBang()
    ensures Parse("!!foo") == Ok(Property("foo"))
  {
    FooTerm();
    assert "!" + "foo" == "!foo" && "!" + "!foo" == "!!foo";
    NotPrefixOfBang("foo");
    InvertedOf("!foo");
    NotPrefixOfBang("!foo");
    InvertedOf("!!foo");
    SingleTerm("!!foo");
  }

  lemma BlankSubexpression(s: string)
    requires forall i | 0 <= i < |s| :: IsSpace(s[i])
    ensures ParseRoot(s).NoMatch? && ParseSubexpression(s).Failure?
  {
    assert SkipSpace(s) == [];
    assert ParseTerm([]) == NoMatch;
    AlternativesTerm([]);
  }

  /** Empty or blank input is not a query. */
  lemma BlankRejected(s: string)
    requires forall i | 0 <= i < |s| :: IsSpace(s[i])
    requires Utf8Len(s) <= MaxLength
    ensures Parse(s) == Err(Invalid)
  {
    BlankSubexpression(s);
  }

  /** A lone property name is a complete subexpression. */
  lemma NameSubexpression(n: string)
    requires ValidName(n)
    ensures ParseSubexpression(n) == Matched(Property(n), [])
  {
    PropertyTerm(n, []);
    assert n + [] == n;
    forall op: Operator ensures ParseOperation(op, n).NoMatch? {
      NoRepeatAtClosing(op, []);
      NoOperation(op, n);
    }
    AlternativesTerm(n);
    SubexpressionStep(n);
  }

  lemma WrappedUnclosed(s: string, inner: string, e: Expression)
    requires Tag("(", s).Matched? && SkipSpace(s[1..]) == inner
    requires ParseSubexpression(inner) == Matched(e, [])
    ensures ParseWrapped(s) == NoMatch
  {
  }

  lemma OpenShape(n: string)
    requires ValidName(n)
    ensures Tag("(", "(" + n).Matched? && SkipSpace(("(" + n)[1..]) == n
  {
    assert ("(" + n)[1..] == n;
  }

  lemma UnclosedWrapped(n: string)
    requires ValidName(n)
    ensures ParseWrapped("(" + n) == NoMatch
  {
    NameSubexpression(n);
    OpenShape(n);
    WrappedUnclosed("(" + n, n, Property(n));
  }

  lemma UnclosedTerm(n: string)
    requires ValidName(n)
    ensures ParseTerm("(" + n) == NoMatch
  {
    UnclosedWrapped(n);
    TermOfWrapped("(" + n);
  }

  /** A group without its closing parenthesis is rejected as invalid. */
  lemma UnclosedGroupRejected(n: string)
    requires ValidName(n) && Utf8Len("(" + n) <= MaxLength
    ensures Parse("(" + n) == Err(Invalid)
  {
    UnclosedSubexpression(n);
    FailureRejected("(" + n);
  }

  lemma UnclosedSubexpression(n: string)
    requires ValidName(n)
    ensures ParseRoot("(" + n).NoMatch? && ParseSubexpression("(" + n).Failure?
  {
    var s := "(" + n;
    UnclosedTerm(n);
    AlternativesTerm(s);
    RootNoMatch(s);
  }

  /** A parser error outside the root query is reported as `Invalid`. */
  lemma FailureRejected(s: string)
    requires Utf8Len(s) <= MaxLength
    requires ParseRoot(s).NoMatch? && ParseSubexpression(s).Failure?
    ensures Parse(s) == Err(Invalid)
  {
  }
}
