/**
 * The query cases of the library's index tests: three properties over
 * the ids 1 to 9, and the bitmap each query executes to, derived from
 * the meaning of `execute` rather than by unfolding its folds.
 */
module IndexCases {
  import opened Wrappers
  import opened Ordering
  import opened Expressions
  import opened Indexes
  import opened Queries
  import Algebra
  import Parser
  import RoundTrip

  /** The index of the tests. */
  function Sample(): (idx: Index)
    ensures idx.Keys == {"foo", "bar", "baz"}
  {
    map["foo" := {1, 2, 3, 4, 9}, "bar" := {1, 3, 5, 6, 7}, "baz" := {4, 6, 8, 9}]
  }

  /** Every id from 1 to 9 is set somewhere, and nothing else is. */
  lemma SampleRoot()
    ensures RootOf(Sample()) == {1, 2, 3, 4, 5, 6, 7, 8, 9}
  {
    var idx := Sample();
    var all: set<Id> := {1, 2, 3, 4, 5, 6, 7, 8, 9};
    forall b | b in all ensures b in RootOf(idx) {
      if b in idx["foo"] { assert idx["foo"] <= RootOf(idx); }
      else if b in idx["bar"] { assert idx["bar"] <= RootOf(idx); }
      else { assert idx["baz"] <= RootOf(idx); }
    }
  }

  /** A query without missing properties executes to `s` when `s` holds
      exactly the ids the query holds for. */
  lemma ExecutesTo(e: Expression, s: Bitmap)
    requires Executable(e) && FirstMissing(Sample(), e).None?
    requires forall b: Id :: b in s <==> Holds(Sample(), e, b)
    ensures Execute(Sample(), e) == Ok(s)
  {
    ExecuteMeaning(Sample(), e);
    var v := Execute(Sample(), e).value;
    assert forall b :: b in v <==> b in s;
    assert v == s;
  }

  function Foo(): Expression { Property("foo") }
  function Bar(): Expression { Property("bar") }
  function Baz(): Expression { Property("baz") }

  /** The ids each property of the sample holds for. */
  lemma PropertiesHold(b: Id)
    ensures Holds(Sample(), Foo(), b) <==> b in {1, 2, 3, 4, 9}
    ensures Holds(Sample(), Bar(), b) <==> b in {1, 3, 5, 6, 7}
    ensures Holds(Sample(), Baz(), b) <==> b in {4, 6, 8, 9}
  {
  }

  /** `not foo` is every id of the index that `foo` lacks. */
  lemma NotFoo()
    ensures Execute(Sample(), Not(Foo())) == Ok({5, 6, 7, 8})
  {
    SampleRoot();
    ExecutesTo(Not(Foo()), {5, 6, 7, 8});
  }

  /** `foo and not bar`. */
  lemma FooAndNotBar()
    ensures Execute(Sample(), Node(And, [Foo(), Not(Bar())])) == Ok({2, 4, 9})
  {
    var e := Node(And, [Foo(), Not(Bar())]);
    SampleRoot();
    assert [Foo(), Not(Bar())][1..] == [Not(Bar())];
    forall b: Id ensures b in {2, 4, 9} <==> Holds(Sample(), e, b) {
      Algebra.PairHolds(Sample(), And, Foo(), Not(Bar()), b);
      PropertiesHold(b);
    }
    ExecutesTo(e, {2, 4, 9});
  }

  /** `foo xor bar`. */
  lemma FooXorBar()
    ensures Execute(Sample(), Node(Xor, [Foo(), Bar()])) == Ok({2, 4, 5, 6, 7, 9})
  {
    var e := Node(Xor, [Foo(), Bar()]);
    assert [Foo(), Bar()][1..] == [Bar()];
    forall b: Id ensures b in {2, 4, 5, 6, 7, 9} <==> Holds(Sample(), e, b) {
      Algebra.PairHolds(Sample(), Xor, Foo(), Bar(), b);
      PropertiesHold(b);
    }
    ExecutesTo(e, {2, 4, 5, 6, 7, 9});
  }

  /** The tests' own route for `foo xor bar`: the text parses to the
      two-operand `xor` node, which executes as above. */
  lemma ParsedFooXorBar()
    ensures Parser.Parse("foo xor bar") == Ok(Node(Xor, [Foo(), Bar()]))
    ensures Execute(Sample(), Parser.Parse("foo xor bar").value) == Ok({2, 4, 5, 6, 7, 9})
  {
    var cs := [Foo(), Bar()];
    XorText();
    assert Lexer.ValidName("foo") && Lexer.ValidName("bar");
    assert Parsable(cs[0]) && Parsable(cs[1]);
    RoundTrip.ChainIsFlat(Xor, cs);
    FooXorBar();
  }

  /** `foo xor bar` is the canonical body of that node. */
  lemma XorText()
    ensures Serializable(Node(Xor, [Foo(), Bar()]))
    ensures Body(Xor, [Foo(), Bar()]) == "foo xor bar"
  {
    assert [Foo(), Bar()][1..] == [Bar()];
    assert [Bar()][1..] == [];
  }

  /** `baz - foo - bar`: what `baz` holds and neither other does. */
  lemma BazMinusFooMinusBar()
    ensures Execute(Sample(), Node(Sub, [Baz(), Foo(), Bar()])) == Ok({8})
  {
    var e := Node(Sub, [Baz(), Foo(), Bar()]);
    assert FirstMissing(Sample(), e).None?;
    ExecutesTo(e, {8});
  }

  /** `foo - (bar and baz) - (foo xor bar)`. */
  function Nested(): Expression {
    Node(Sub, [Foo(), Node(And, [Bar(), Baz()]), Node(Xor, [Foo(), Bar()])])
  }

  /** Every property `Nested()` names is in the index. */
  lemma NestedDefined()
    ensures FirstMissing(Sample(), Nested()).None?
  {
    var both, either := Node(And, [Bar(), Baz()]), Node(Xor, [Foo(), Bar()]);
    assert [Bar(), Baz()][1..] == [Baz()] && [Foo(), Bar()][1..] == [Bar()];
    assert FirstMissing(Sample(), both).None? && FirstMissing(Sample(), either).None?;
    assert [Foo(), both, either][1..] == [both, either] && [both, either][1..] == [either];
    assert FirstMissingOf(Sample(), [either]).None?;
    assert FirstMissingOf(Sample(), [both, either]).None?;
  }

  /** `Nested()` holds for `b` when `foo` does and neither `bar and baz`
      nor `foo xor bar` does. */
  lemma NestedHolds(b: Id)
    ensures Holds(Sample(), Nested(), b) <==> b in {1, 3}
  {
    var both, either := Node(And, [Bar(), Baz()]), Node(Xor, [Foo(), Bar()]);
    Algebra.SubHolds(Sample(), [Foo(), both, either], b);
    assert [Foo(), both, either][1..] == [both, either];
    assert Algebra.SomeHolds(Sample(), [both, either], b) <==> Holds(Sample(), both, b) || Holds(Sample(), either, b) by {
      assert [both, either][0] == both && [both, either][1] == either;
    }
    Algebra.PairHolds(Sample(), And, Bar(), Baz(), b);
    Algebra.PairHolds(Sample(), Xor, Foo(), Bar(), b);
    PropertiesHold(b);
  }

  /** The nested subtraction keeps 1 and 3. */
  lemma NestedSubtraction()
    ensures Execute(Sample(), Nested()) == Ok({1, 3})
  {
    NestedDefined();
    forall b: Id ensures b in {1, 3} <==> Holds(Sample(), Nested(), b) {
      NestedHolds(b);
    }
    ExecutesTo(Nested(), {1, 3});
  }

  /** An unknown property is an error naming it, even inside an operation. */
  lemma UnknownProperty()
    ensures Execute(Sample(), Node(Or, [Foo(), Property("unknown")]))
         == Err(PropertyDoesNotExist("unknown"))
  {
    var missing := Property("unknown");
    assert "unknown" !in Sample();
    assert ExecuteAll(Sample(), [missing]) == Err(PropertyDoesNotExist("unknown"));
    assert [Foo(), missing][1..] == [missing];
    assert ExecuteAll(Sample(), [Foo(), missing]) == Err(PropertyDoesNotExist("unknown"));
  }
}
