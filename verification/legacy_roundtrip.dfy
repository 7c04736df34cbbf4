/**
 * What the older server's grammar promises: the canonical text of any
 * query it can produce parses back to that query, negations are kept as
 * written (four `not`s give four nested negations), and an operation has
 * exactly two operands, so a second operator without parentheses is left
 * over as unconsumed input.
 */
module LegacyRoundTrip {
  import opened Wrappers
  import opened Lexer
  import P = Parser
  import RT = RoundTrip
  import opened LegacyExpressions
  import opened LegacyParser

  /** Text that starts with a non-blank. */
  predicate Solid(s: string) {
    |s| > 0 && !IsSpace(s[0])
  }

  // Text shapes of `serialize`.

  lemma NotText(x: Query, t: string)
    ensures Serialize(Not(x)) + t == "not " + (Group(Serialize(x)) + t)
  {
  }

  lemma BinaryText(op: Connective, l: Query, r: Query, u: string)
    ensures Serialize(Binary(op, l, r)) + u
         == Group(Serialize(l)) + (Spaced(Word(op)) + (Group(Serialize(r)) + u))
  {
    Regroup(Group(Serialize(l)), Spaced(Word(op)), Group(Serialize(r)), u);
  }

  lemma Regroup(a: string, b: string, c: string, u: string)
    ensures a + b + c + u == a + (b + (c + u))
  {
  }

  lemma GroupText(inner: string, t: string)
    ensures Group(inner) + t == "(" + (inner + (")" + t))
    ensures (Group(inner) + t)[0] == '('
  {
  }

  lemma SpacedText(w: string, y: string)
    ensures Spaced(w) + y == " " + (w + (" " + y))
  {
  }

  lemma ClosingIsBoundary(u: string)
    requires RT.Closing(u)
    ensures RT.Boundary(u) && SkipSpace(u) == u
  {
    if u != [] {
      assert !IsSpace(u[0]) && !IsNameChar(u[0]);
    }
  }

  // The connector between two operands.

  lemma WordIsLower(op: Connective)
    ensures RT.LowerWord(Word(op))
  {
  }

  /** One blank, the keyword of `op` and one blank before a non-blank. */
  lemma ConnectorOf(op: Connective, y: string)
    requires Solid(y)
    ensures Connector(op, Spaced(Word(op)) + y) == Matched((), y)
  {
    SpacedText(Word(op), y);
    RT.SpaceThen(Word(op) + (" " + y));
    WordIsLower(op);
    RT.TagNoCaseOn(Word(op), " " + y);
    RT.SpaceThen(y);
  }

  /** The keyword of another operator does not connect. */
  lemma ConnectorOther(other: Connective, op: Connective, y: string)
    requires other != op
    ensures Connector(other, Spaced(Word(op)) + y).NoMatch?
  {
    SpacedText(Word(op), y);
    RT.SpaceThen(Word(op) + (" " + y));
    WordsDiffer(other, op);
    RT.TagNoCaseFirst(Word(other), Word(op) + (" " + y));
  }

  /** Nothing, or a closing parenthesis, does not connect. */
  lemma ConnectorAtClosing(op: Connective, u: string)
    requires RT.Closing(u)
    ensures Connector(op, u).NoMatch?
  {
  }

  // Grammar steps.

  /** A group in term position: the subexpression inside, then `)`. */
  lemma WrappedTerm(inner: string, e: Query, t: string)
    requires Solid(inner)
    requires ParseSubexpression(inner + (")" + t)) == Matched(e, ")" + t)
    ensures ParseTerm(Group(inner) + t) == Matched(e, t)
  {
    var s := "(" + inner + ")" + t;
    GroupText(inner, t);
    RT.ParenShape(inner, t);
    RT.NoSpaceStart(inner, ")" + t);
    RT.NotPrefixOfOther(s);
    assert ParseWrapped(s) == Matched(e, t);
  }

  /** A property name followed by a boundary is read as that property. */
  lemma PropertyTerm(n: string, t: string)
    requires ValidName(n) && RT.Boundary(t)
    ensures ParseTerm(n + t) == Matched(Property(n), t)
  {
    RT.NotPrefixOfName(n, t);
    assert (n + t)[0] == n[0];
    PropertyOfName(n, t);
  }

  /** `not ` before a term negates that term and nothing more. */
  lemma NegatedTerm(w: string)
    requires w == [] || !IsSpace(w[0])
    requires ParseTerm(w).Matched?
    ensures ParseTerm("not " + w) == Matched(Not(ParseTerm(w).value), ParseTerm(w).rest)
  {
    RT.NotPrefixOfNot(w);
  }

  /** A term that no connector follows is the whole subexpression. */
  lemma LoneTerm(s: string, e: Query, u: string)
    requires Solid(s) && ParseTerm(s) == Matched(e, u)
    requires forall c: Connective :: Connector(c, u).NoMatch?
    ensures ParseSubexpression(s) == Matched(e, SkipSpace(u))
  {
    assert Alternatives(s) == ParseTerm(s);
  }

  /** A subexpression that is a single term, ending at `)` or at the end. */
  lemma TermSubexpression(s: string, e: Query, u: string)
    requires Solid(s)
    requires ParseTerm(s) == Matched(e, u) && RT.Closing(u)
    ensures ParseSubexpression(s) == Matched(e, u)
  {
    forall c: Connective ensures Connector(c, u).NoMatch? {
      ConnectorAtClosing(c, u);
    }
    LoneTerm(s, e, u);
    ClosingIsBoundary(u);
  }

  /** The left group, the connector of `op`, and the right group. */
  lemma OperationMatches(op: Connective, s: string, l: Query, y: string, r: Query, u: string)
    requires ParseTerm(s) == Matched(l, Spaced(Word(op)) + y)
    requires Solid(y) && ParseTerm(y) == Matched(r, u)
    ensures ParseOperation(op, s) == Matched(Binary(op, l, r), u)
  {
    ConnectorOf(op, y);
  }

  lemma OperationOthers(op: Connective, s: string, l: Query, y: string)
    requires ParseTerm(s) == Matched(l, Spaced(Word(op)) + y)
    ensures forall other: Connective :: other != op ==> ParseOperation(other, s).NoMatch?
  {
    forall other: Connective | other != op ensures ParseOperation(other, s).NoMatch? {
      ConnectorOther(other, op, y);
    }
  }

  /** The `alt` of operations picks the one whose keyword follows. */
  lemma AlternativesPick(op: Connective, s: string)
    requires ParseOperation(op, s).Matched?
    requires forall other: Connective :: other != op ==> ParseOperation(other, s).NoMatch?
    ensures Alternatives(s) == ParseOperation(op, s)
  {
    match op
    case Conjunction =>
    case Disjunction =>
      assert ParseOperation(Conjunction, s).NoMatch?;
    case Exclusive =>
      assert ParseOperation(Conjunction, s).NoMatch?;
      assert ParseOperation(Disjunction, s).NoMatch?;
  }

  /** An operation is the whole subexpression; the blanks after it are
      skipped. */
  lemma OperationSubexpression(op: Connective, s: string, l: Query, y: string, r: Query, u: string)
    requires Solid(s)
    requires ParseTerm(s) == Matched(l, Spaced(Word(op)) + y)
    requires Solid(y) && ParseTerm(y) == Matched(r, u)
    ensures ParseSubexpression(s) == Matched(Binary(op, l, r), SkipSpace(u))
  {
    OperationMatches(op, s, l, y, r, u);
    OperationOthers(op, s, l, y);
    AlternativesPick(op, s);
  }

  // One case of the round trip each, given the results for the parts.

  lemma ParenCase(e: Query, t: string)
    requires LegacyParsable(e)
    requires ParseSubexpression(Serialize(e) + (")" + t)) == Matched(e, ")" + t)
    ensures ParseTerm(Group(Serialize(e)) + t) == Matched(e, t)
  {
    WrappedTerm(Serialize(e), e, t);
  }

  lemma PropertyCase(n: string, u: string)
    requires ValidName(n) && RT.Closing(u)
    ensures ParseSubexpression(Serialize(Property(n)) + u) == Matched(Property(n), u)
  {
    ClosingIsBoundary(u);
    PropertyTerm(n, u);
    TermSubexpression(n + u, Property(n), u);
  }

  lemma NotCase(x: Query, u: string)
    requires LegacyParsable(x) && RT.Closing(u)
    requires ParseTerm(Group(Serialize(x)) + u) == Matched(x, u)
    ensures ParseSubexpression(Serialize(Not(x)) + u) == Matched(Not(x), u)
  {
    var w := Group(Serialize(x)) + u;
    GroupText(Serialize(x), u);
    NegatedSubexpression(w, x, u);
    NotText(x, u);
  }

  /** A negated term with nothing or `)` after it is a whole subexpression. */
  lemma NegatedSubexpression(w: string, x: Query, u: string)
    requires Solid(w) && RT.Closing(u)
    requires ParseTerm(w) == Matched(x, u)
    ensures ParseSubexpression("not " + w) == Matched(Not(x), u)
  {
    NegatedTerm(w);
    TermSubexpression("not " + w, Not(x), u);
  }

  /** Two groups around the keyword of `op`, followed by nothing or `)`. */
  lemma GroupsCase(op: Connective, sl: string, sr: string, l: Query, r: Query, u: string)
    requires RT.Closing(u)
    requires ParseTerm(Group(sl) + (Spaced(Word(op)) + (Group(sr) + u)))
          == Matched(l, Spaced(Word(op)) + (Group(sr) + u))
    requires ParseTerm(Group(sr) + u) == Matched(r, u)
    ensures ParseSubexpression(Group(sl) + (Spaced(Word(op)) + (Group(sr) + u))) == Matched(Binary(op, l, r), u)
  {
    var y := Group(sr) + u;
    var s := Group(sl) + (Spaced(Word(op)) + y);
    assert Solid(s) && Solid(y) && SkipSpace(u) == u by {
      GroupText(sl, Spaced(Word(op)) + y);
      GroupText(sr, u);
      ClosingIsBoundary(u);
    }
    OperationSubexpression(op, s, l, y, r, u);
  }

  lemma BinaryCase(op: Connective, l: Query, r: Query, u: string)
    requires RT.Closing(u)
    requires ParseTerm(Group(Serialize(l)) + (Spaced(Word(op)) + (Group(Serialize(r)) + u)))
          == Matched(l, Spaced(Word(op)) + (Group(Serialize(r)) + u))
    requires ParseTerm(Group(Serialize(r)) + u) == Matched(r, u)
    ensures ParseSubexpression(Serialize(Binary(op, l, r)) + u) == Matched(Binary(op, l, r), u)
  {
    GroupsCase(op, Serialize(l), Serialize(r), l, r, u);
    BinaryText(op, l, r, u);
  }

  // The round trip, by induction over the query.

  /** The canonical text of a query, in parentheses, reads back as that
      query in term position, whatever follows. */
  lemma {:induction false} ParenRoundTrip(e: Query, t: string)
    requires LegacyParsable(e)
    ensures ParseTerm(Group(Serialize(e)) + t) == Matched(e, t)
    decreases e, 1
  {
    SubexpressionRoundTrip(e, ")" + t);
    ParenCase(e, t);
  }

  /** The canonical text of a query, followed by nothing or by `)`, reads
      back as that query in subexpression position. */
  lemma {:induction false} SubexpressionRoundTrip(e: Query, u: string)
    requires LegacyParsable(e) && RT.Closing(u)
    ensures ParseSubexpression(Serialize(e) + u) == Matched(e, u)
    decreases e, 0
  {
    match e
    case Property(n) =>
      PropertyCase(n, u);
    case Not(x) =>
      ParenRoundTrip(x, u);
      NotCase(x, u);
    case Binary(op, l, r) =>
      ParenRoundTrip(l, Spaced(Word(op)) + (Group(Serialize(r)) + u));
      ParenRoundTrip(r, u);
      BinaryCase(op, l, r, u);
  }

  // Whole queries.

  /** Text that a term, not the root query, may start with. */
  predicate Starts(s: string) {
    Solid(s) && s[0] != '*'
  }

  lemma RootNoMatch(s: string)
    requires Starts(s)
    ensures ParseRoot(s).NoMatch?
  {
  }

  /** `Expression::parse` of text that starts like a term. */
  lemma ParseOfText(s: string, e: Query, rest: string)
    requires Starts(s) && Utf8Len(s) <= P.MaxLength
    requires ParseSubexpression(s) == Matched(e, rest)
    ensures Parse(s) == if rest == [] then Ok(e) else Err(InvalidEndOfInput(rest))
  {
    RootNoMatch(s);
  }

  lemma RootText()
    ensures Parse("*") == Ok(Root)
  {
    PaddedRoot("", "");
    assert "" + "*" + "" == "*";
    assert Utf8Len("*") == 1;
  }

  /** A `*` with whitespace on either side is the root query, unless the
      text is over-long. */
  lemma PaddedRoot(w1: string, w2: string)
    requires forall i | 0 <= i < |w1| :: IsSpace(w1[i])
    requires forall i | 0 <= i < |w2| :: IsSpace(w2[i])
    ensures Parse(w1 + "*" + w2)
         == if Utf8Len(w1 + "*" + w2) > P.MaxLength then Err(InputStringToolLong) else Ok(Root)
  {
    RootPadding(w1, w2);
    RootMatched(w1 + "*" + w2);
  }

  lemma RootPadding(w1: string, w2: string)
    requires forall i | 0 <= i < |w1| :: IsSpace(w1[i])
    requires forall i | 0 <= i < |w2| :: IsSpace(w2[i])
    ensures ParseRoot(w1 + "*" + w2) == Matched(Root, [])
  {
    RT.RootPadding(w1, w2);
  }

  lemma RootMatched(s: string)
    requires ParseRoot(s) == Matched(Root, [])
    ensures Parse(s) == if Utf8Len(s) > P.MaxLength then Err(InputStringToolLong) else Ok(Root)
  {
  }



  /** `serialize` then `Expression::parse` gives back the query, provided
      the canonical text is within the length limit. */
  lemma SerializeParses(e: Query)
    requires e == Root || LegacyParsable(e)
    requires Utf8Len(Serialize(e)) <= P.MaxLength
    ensures Parse(Serialize(e)) == Ok(e)
  {
    if e == Root {
      RootText();
    } else {
      WholeText(e);
      ParseOfText(Serialize(e), e, []);
    }
  }

  /** The canonical text alone is one whole subexpression. */
  lemma WholeText(e: Query)
    requires LegacyParsable(e)
    ensures Starts(Serialize(e))
    ensures ParseSubexpression(Serialize(e)) == Matched(e, [])
  {
    var s := Serialize(e);
    SubexpressionRoundTrip(e, []);
    assert s + [] == s;
  }

  /** Parsing the canonical text of a parsed query gives the same query. */
  lemma ParseSerializeRoundTrip(input: string)
    requires Parse(input).Ok?
    requires Utf8Len(Serialize(Parse(input).value)) <= P.MaxLength
    ensures Parse(Serialize(Parse(input).value)) == Parse(input)
  {
    SerializeParses(Parse(input).value);
  }

  /** Different queries have different canonical texts. */
  lemma SerializeInjective(a: Query, b: Query)
    requires a == Root || LegacyParsable(a)
    requires b == Root || LegacyParsable(b)
    requires Utf8Len(Serialize(a)) <= P.MaxLength
    requires Serialize(a) == Serialize(b)
    ensures a == b
  {
    SerializeParses(a);
    SerializeParses(b);
  }

  // Shapes of input.

  /** A single term with nothing after it is the whole query. */
  lemma SingleTerm(s: string)
    requires ParseTerm(s).Matched? && ParseTerm(s).rest == []
    requires Utf8Len(s) <= P.MaxLength
    ensures Parse(s) == Ok(ParseTerm(s).value)
  {
    var e := ParseTerm(s).value;
    if |s| == 0 || IsSpace(s[0]) || s[0] == '*' {
      RT.NotPrefixOfOther(s);
      assert false;
    }
    TermSubexpression(s, e, []);
    ParseOfText(s, e, []);
  }

  /** A valid name on its own is a whole term. */
  lemma LoneNameTerm(n: string)
    requires ValidName(n)
    ensures ParseTerm(n) == Matched(Property(n), [])
  {
    PropertyTerm(n, []);
    assert n + [] == n;
  }

  lemma FourNotsText()
    ensures "not " + ("not " + ("not " + ("not " + "foo"))) == "not not not not foo"
  {
  }

  /** Negations are kept as written: `not not not not foo` is four nested
      negations of `foo`, not `foo` itself. */
  lemma FourNegations()
    ensures Parse("not not not not foo") == Ok(Not(Not(Not(Not(Property("foo"))))))
  {
    FourNotsTerm();
    SingleTerm("not not not not foo");
  }

  lemma FourNotsTerm()
    ensures ParseTerm("not not not not foo") == Matched(Not(Not(Not(Not(Property("foo"))))), [])
  {
    assert ValidName("foo");
    LoneNameTerm("foo");
    FourNotsOf("foo");
    FourNotsText();
  }

  /** Four `not ` prefixes wrap a term in four negations. */
  lemma FourNotsOf(w: string)
    requires w == [] || !IsSpace(w[0])
    requires ParseTerm(w).Matched?
    ensures ParseTerm("not " + ("not " + ("not " + ("not " + w))))
         == Matched(Not(Not(Not(Not(ParseTerm(w).value)))), ParseTerm(w).rest)
  {
    var w1 := "not " + w;
    var w2 := "not " + w1;
    var w3 := "not " + w2;
    NegatedTerm(w);
    NegatedTerm(w1);
    NegatedTerm(w2);
    NegatedTerm(w3);
  }

  /** `!` is the same negation as `not `. */
  lemma BangIsNot(w: string)
    requires w == [] || !IsSpace(w[0])
    ensures ParseTerm("!" + w) == ParseTerm("not " + w)
  {
    RT.NotPrefixOfNot(w);
    RT.NotPrefixOfBang(w);
  }

  lemma LeftOverText(op: Connective, a: string, b: string, x: string)
    ensures a + " " + Word(op) + " " + b + " " + x == a + (Spaced(Word(op)) + (b + (" " + x)))
  {
  }

  lemma SkipOneSpace(x: string)
    requires Solid(x)
    ensures SkipSpace(" " + x) == x
  {
    assert (" " + x)[1..] == x;
  }

  lemma NameStart(a: string, t: string)
    requires ValidName(a)
    ensures Starts(a + t)
  {
    assert (a + t)[0] == a[0];
  }

  lemma SpacedStart(w: string, y: string)
    ensures RT.Boundary(Spaced(w) + y)
  {
    assert (Spaced(w) + y)[0] == ' ';
  }

  lemma LeftOverSubexpression(op: Connective, a: string, b: string, x: string)
    requires ValidName(a) && ValidName(b)
    requires Solid(x)
    ensures ParseSubexpression(a + (Spaced(Word(op)) + (b + (" " + x))))
         == Matched(Binary(op, Property(a), Property(b)), x)
  {
    var y := b + (" " + x);
    var rest := Spaced(Word(op)) + y;
    SpacedStart(Word(op), y);
    PropertyTerm(a, rest);
    PropertyTerm(b, " " + x);
    NameStart(a, rest);
    NameStart(b, " " + x);
    OperationSubexpression(op, a + rest, Property(a), y, Property(b), " " + x);
    SkipOneSpace(x);
  }

  /** An operation takes exactly two operands: after `a op b`, whatever
      follows the blanks is left unconsumed and the query is rejected
      (`foo and bar and`, `foo and bar or baz`). */
  lemma SecondOperatorLeftOver(op: Connective, a: string, b: string, x: string)
    requires ValidName(a) && ValidName(b)
    requires Solid(x)
    requires Utf8Len(a + " " + Word(op) + " " + b + " " + x) <= P.MaxLength
    ensures Parse(a + " " + Word(op) + " " + b + " " + x) == Err(InvalidEndOfInput(x))
  {
    var s := a + (Spaced(Word(op)) + (b + (" " + x)));
    assert a + " " + Word(op) + " " + b + " " + x == s by {
      LeftOverText(op, a, b, x);
    }
    assert Starts(s) && ParseSubexpression(s) == Matched(Binary(op, Property(a), Property(b)), x) by {
      NameStart(a, Spaced(Word(op)) + (b + (" " + x)));
      LeftOverSubexpression(op, a, b, x);
    }
    ParseOfText(s, Binary(op, Property(a), Property(b)), x);
  }

  /** Nothing follows the keyword, so no operation connects. */
  lemma DanglingConnector(c: Connective, op: Connective)
    ensures Connector(c, " " + Word(op)).NoMatch?
  {
    RT.SpaceThen(Word(op));
    assert Word(op) + [] == Word(op);
    if c == op {
      WordIsLower(op);
      RT.TagNoCaseOn(Word(op), []);
    } else {
      WordsDiffer(c, op);
      RT.TagNoCaseFirst(Word(c), Word(op));
    }
  }

  lemma NoConnectorDangling(op: Connective)
    ensures forall c: Connective :: Connector(c, " " + Word(op)).NoMatch?
  {
    forall c: Connective ensures Connector(c, " " + Word(op)).NoMatch? {
      DanglingConnector(c, op);
    }
  }

  lemma DanglingTerm(op: Connective, a: string)
    requires ValidName(a)
    ensures ParseTerm(a + (" " + Word(op))) == Matched(Property(a), " " + Word(op))
    ensures Solid(a + (" " + Word(op)))
  {
    var u := " " + Word(op);
    assert u[0] == ' ';
    PropertyTerm(a, u);
    NameStart(a, u);
  }

  lemma DanglingSubexpression(op: Connective, a: string)
    requires ValidName(a)
    ensures ParseSubexpression(a + (" " + Word(op))) == Matched(Property(a), Word(op))
  {
    DanglingTerm(op, a);
    NoConnectorDangling(op);
    SpacedLoneTerm(a + (" " + Word(op)), Property(a), Word(op));
  }

  /** A term followed by one blank and a word that no connector reads. */
  lemma SpacedLoneTerm(s: string, e: Query, w: string)
    requires Solid(s) && Solid(w) && ParseTerm(s) == Matched(e, " " + w)
    requires forall c: Connective :: Connector(c, " " + w).NoMatch?
    ensures ParseSubexpression(s) == Matched(e, w)
  {
    LoneTerm(s, e, " " + w);
    SkipOneSpace(w);
  }

  /** An operator with no right operand is left unconsumed (`foo and`,
      `foo or`). */
  lemma MissingRightOperand(op: Connective, a: string)
    requires ValidName(a)
    requires Utf8Len(a + " " + Word(op)) <= P.MaxLength
    ensures Parse(a + " " + Word(op)) == Err(InvalidEndOfInput(Word(op)))
  {
    var s := a + (" " + Word(op));
    assert a + " " + Word(op) == s;
    assert Starts(s) && ParseSubexpression(s) == Matched(Property(a), Word(op)) by {
      NameStart(a, " " + Word(op));
      DanglingSubexpression(op, a);
    }
    ParseOfText(s, Property(a), Word(op));
  }

  lemma AllBlank(s: string)
    requires forall i | 0 <= i < |s| :: IsSpace(s[i])
    ensures SkipSpace(s) == []
  {
    var r := SkipSpace(s);
    if r != [] {
      assert false;
    }
  }

  /** Nothing is not a term. */
  lemma EmptyTerm()
    ensures ParseTerm([]).NoMatch?
  {
    assert P.NotPrefix([]).NoMatch?;
    assert ParseProperty([]).NoMatch?;
  }

  lemma EmptyAlternatives()
    ensures Alternatives([]).NoMatch?
  {
    EmptyTerm();
  }

  /** Blank input is a parser error. */
  lemma BlankRejected(s: string)
    requires forall i | 0 <= i < |s| :: IsSpace(s[i])
    requires Utf8Len(s) <= P.MaxLength
    ensures Parse(s) == Err(ParserError)
  {
    BlankSubexpression(s);
    FailureRejected(s);
  }

  /** A parser error outside the root query is reported as `ParserError`. */
  lemma FailureRejected(s: string)
    requires Utf8Len(s) <= P.MaxLength
    requires ParseRoot(s).NoMatch? && ParseSubexpression(s).Failure?
    ensures Parse(s) == Err(ParserError)
  {
    assert ParseExpression(s).Failure?;
  }

  lemma BlankSubexpression(s: string)
    requires forall i | 0 <= i < |s| :: IsSpace(s[i])
    ensures ParseRoot(s).NoMatch? && ParseSubexpression(s).Failure?
  {
    AllBlank(s);
    EmptyAlternatives();
  }
}
