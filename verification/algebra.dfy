/**
 * What the expression builders (`&`, `|`, `^`, `-`) mean once executed.
 * Flattening an operand that already is a node of the same operator is
 * harmless for the associative and commutative operators; for `-` it is
 * not, and the builder as written changes the result of a query.
 */
module Algebra {
  import opened Wrappers
  import opened Ordering
  import opened Expressions
  import opened Indexes
  import opened Queries

  /** Both executions fail, or both succeed with the same bitmap. */
  predicate SameResult(a: Result<Bitmap, IndexError>, b: Result<Bitmap, IndexError>) {
    a.Ok? == b.Ok? && (a.Ok? ==> a.value == b.value)
  }

  /** Queries defined alike and holding for the same ids execute alike. */
  lemma SameMeaning(idx: Index, c: Expression, n: Expression)
    requires Executable(c) && Executable(n)
    requires FirstMissing(idx, c).None? <==> FirstMissing(idx, n).None?
    requires forall b :: Holds(idx, c, b) <==> Holds(idx, n, b)
    ensures SameResult(Execute(idx, c), Execute(idx, n))
  {
    ExecuteMeaning(idx, c);
    ExecuteMeaning(idx, n);
  }

  // Operand lists.

  predicate AllDefined(idx: Index, cs: seq<Expression>) {
    forall i | 0 <= i < |cs| :: FirstMissing(idx, cs[i]).None?
  }

  predicate AllHold(idx: Index, cs: seq<Expression>, b: Id) {
    forall i | 0 <= i < |cs| :: Holds(idx, cs[i], b)
  }

  predicate SomeHolds(idx: Index, cs: seq<Expression>, b: Id) {
    exists i | 0 <= i < |cs| :: Holds(idx, cs[i], b)
  }

  lemma {:induction false} NoneMissingOf(idx: Index, cs: seq<Expression>)
    ensures FirstMissingOf(idx, cs).None? <==> AllDefined(idx, cs)
    decreases |cs|
  {
    if cs != [] {
      NoneMissingOf(idx, cs[1..]);
      assert forall i | 1 <= i < |cs| :: cs[i] == cs[1..][i - 1];
    }
  }

  predicate AllExecutable(cs: seq<Expression>) {
    forall i | 0 <= i < |cs| :: Executable(cs[i])
  }

  /** The positions of `xs + ys`: those of `xs`, then those of `ys`. */
  lemma AppendIndexes(xs: seq<Expression>, ys: seq<Expression>)
    ensures forall i | 0 <= i < |xs| :: (xs + ys)[i] == xs[i]
    ensures forall i | 0 <= i < |ys| :: (xs + ys)[|xs| + i] == ys[i]
    ensures forall e :: e in xs + ys <==> e in xs || e in ys
  {
  }

  lemma AllExecutableAppend(xs: seq<Expression>, ys: seq<Expression>)
    ensures AllExecutable(xs + ys) <==> AllExecutable(xs) && AllExecutable(ys)
  {
    AppendIndexes(xs, ys);
    if AllExecutable(xs + ys) {
      forall i | 0 <= i < |ys| ensures Executable(ys[i]) {
        assert ys[i] == (xs + ys)[|xs| + i];
      }
    }
  }

  lemma AllDefinedAppend(idx: Index, xs: seq<Expression>, ys: seq<Expression>)
    ensures AllDefined(idx, xs + ys) <==> AllDefined(idx, xs) && AllDefined(idx, ys)
  {
    AppendIndexes(xs, ys);
    if AllDefined(idx, xs + ys) {
      forall i | 0 <= i < |ys| ensures FirstMissing(idx, ys[i]).None? {
        assert ys[i] == (xs + ys)[|xs| + i];
      }
    }
  }

  lemma AllHoldAppend(idx: Index, xs: seq<Expression>, ys: seq<Expression>, b: Id)
    ensures AllHold(idx, xs + ys, b) <==> AllHold(idx, xs, b) && AllHold(idx, ys, b)
  {
    AppendIndexes(xs, ys);
    if AllHold(idx, xs + ys, b) {
      forall i | 0 <= i < |ys| ensures Holds(idx, ys[i], b) {
        assert ys[i] == (xs + ys)[|xs| + i];
      }
    }
  }

  lemma SomeHoldsAppend(idx: Index, xs: seq<Expression>, ys: seq<Expression>, b: Id)
    ensures SomeHolds(idx, xs + ys, b) <==> SomeHolds(idx, xs, b) || SomeHolds(idx, ys, b)
  {
    AppendIndexes(xs, ys);
    if SomeHolds(idx, ys, b) {
      var i :| 0 <= i < |ys| && Holds(idx, ys[i], b);
      assert (xs + ys)[|xs| + i] == ys[i];
    }
  }

  lemma {:induction false} HoldsOddlyAppend(idx: Index, xs: seq<Expression>, ys: seq<Expression>, b: Id)
    ensures HoldsOddly(idx, xs + ys, b) == (HoldsOddly(idx, xs, b) != HoldsOddly(idx, ys, b))
    decreases |xs|
  {
    if xs == [] {
      assert xs + ys == ys;
    } else {
      assert (xs + ys)[1..] == xs[1..] + ys;
      HoldsOddlyAppend(idx, xs[1..], ys, b);
    }
  }

  /** A node is defined exactly when all its operands are. */
  lemma NodeDefined(idx: Index, op: Operator, cs: seq<Expression>)
    ensures FirstMissing(idx, Node(op, cs)).None? <==> AllDefined(idx, cs)
  {
    NoneMissingOf(idx, cs);
  }

  /** The operands `e` contributes are all defined exactly when `e` is. */
  lemma OperandsDefined(idx: Index, op: Operator, e: Expression)
    ensures AllDefined(idx, Operands(op, e)) <==> FirstMissing(idx, e).None?
  {
    if e.Node? && e.op == op {
      NodeDefined(idx, op, e.children);
    } else {
      assert Operands(op, e)[0] == e;
    }
  }

  lemma OperandsHoldAnd(idx: Index, e: Expression, b: Id)
    ensures AllHold(idx, Operands(And, e), b) <==> Holds(idx, e, b)
  {
    if !(e.Node? && e.op == And) {
      assert Operands(And, e)[0] == e;
    }
  }

  lemma OperandsHoldOr(idx: Index, e: Expression, b: Id)
    ensures SomeHolds(idx, Operands(Or, e), b) <==> Holds(idx, e, b)
  {
    if !(e.Node? && e.op == Or) {
      assert Operands(Or, e)[0] == e;
    }
  }

  lemma OperandsHoldXor(idx: Index, e: Expression, b: Id)
    ensures HoldsOddly(idx, Operands(Xor, e), b) == Holds(idx, e, b)
  {
    if !(e.Node? && e.op == Xor) {
      assert Operands(Xor, e)[1..] == [];
    }
  }

  // The builders.

  /** The operand list of a flattened node: the right operand's first when
      both operands are nodes of the operator, the left one's otherwise. */
  lemma CombineShape(op: Operator, l: Expression, r: Expression)
    ensures var both := l.Node? && l.op == op && r.Node? && r.op == op;
            Combine(op, l, r) == Node(op, if both then Operands(op, r) + Operands(op, l)
                                          else Operands(op, l) + Operands(op, r))
  {
  }

  lemma OperandsExecutable(op: Operator, e: Expression)
    requires Executable(e)
    ensures AllExecutable(Operands(op, e))
  {
  }

  lemma CombineExecutable(op: Operator, l: Expression, r: Expression)
    requires Executable(l) && Executable(r)
    ensures Executable(Combine(op, l, r))
  {
    var ls, rs := Operands(op, l), Operands(op, r);
    CombineShape(op, l, r);
    OperandsExecutable(op, l);
    OperandsExecutable(op, r);
    AllExecutableAppend(ls, rs);
    AllExecutableAppend(rs, ls);
  }

  /** A flattened node is defined exactly when both operands are. */
  lemma CombineDefined(idx: Index, op: Operator, l: Expression, r: Expression)
    ensures FirstMissing(idx, Combine(op, l, r)).None?
        <==> FirstMissing(idx, l).None? && FirstMissing(idx, r).None?
  {
    var ls, rs := Operands(op, l), Operands(op, r);
    CombineShape(op, l, r);
    NodeDefined(idx, op, Combine(op, l, r).children);
    AllDefinedAppend(idx, ls, rs);
    AllDefinedAppend(idx, rs, ls);
    OperandsDefined(idx, op, l);
    OperandsDefined(idx, op, r);
  }

  lemma PairDefined(idx: Index, op: Operator, l: Expression, r: Expression)
    ensures FirstMissing(idx, Node(op, [l, r])).None?
        <==> FirstMissing(idx, l).None? && FirstMissing(idx, r).None?
  {
    NodeDefined(idx, op, [l, r]);
    assert [l, r][0] == l && [l, r][1] == r;
    assert AllDefined(idx, [l, r]) <==> FirstMissing(idx, l).None? && FirstMissing(idx, r).None?;
  }

  lemma CombineHoldsAnd(idx: Index, l: Expression, r: Expression, b: Id)
    ensures Holds(idx, Combine(And, l, r), b) <==> Holds(idx, l, b) && Holds(idx, r, b)
  {
    var ls, rs := Operands(And, l), Operands(And, r);
    CombineShape(And, l, r);
    AllHoldAppend(idx, ls, rs, b);
    AllHoldAppend(idx, rs, ls, b);
    OperandsHoldAnd(idx, l, b);
    OperandsHoldAnd(idx, r, b);
  }

  lemma CombineHoldsOr(idx: Index, l: Expression, r: Expression, b: Id)
    ensures Holds(idx, Combine(Or, l, r), b) <==> Holds(idx, l, b) || Holds(idx, r, b)
  {
    var ls, rs := Operands(Or, l), Operands(Or, r);
    CombineShape(Or, l, r);
    SomeHoldsAppend(idx, ls, rs, b);
    SomeHoldsAppend(idx, rs, ls, b);
    OperandsHoldOr(idx, l, b);
    OperandsHoldOr(idx, r, b);
  }

  lemma CombineHoldsXor(idx: Index, l: Expression, r: Expression, b: Id)
    ensures Holds(idx, Combine(Xor, l, r), b) <==> Holds(idx, l, b) != Holds(idx, r, b)
  {
    var ls, rs := Operands(Xor, l), Operands(Xor, r);
    CombineShape(Xor, l, r);
    HoldsOddlyAppend(idx, ls, rs, b);
    HoldsOddlyAppend(idx, rs, ls, b);
    OperandsHoldXor(idx, l, b);
    OperandsHoldXor(idx, r, b);
  }

  /** `&`, `|` and `^` hold for an id exactly when the plain two-operand
      node does. */
  lemma CombineHolds(idx: Index, op: Operator, l: Expression, r: Expression, b: Id)
    requires op != Sub
    ensures Holds(idx, Combine(op, l, r), b) <==> Holds(idx, Node(op, [l, r]), b)
  {
    PairHolds(idx, op, l, r, b);
    match op
    case And => CombineHoldsAnd(idx, l, r, b);
    case Or => CombineHoldsOr(idx, l, r, b);
    case Xor => CombineHoldsXor(idx, l, r, b);
  }

  /** What the plain two-operand node means. */
  lemma PairHolds(idx: Index, op: Operator, l: Expression, r: Expression, b: Id)
    ensures Holds(idx, Node(op, [l, r]), b) <==> match op
      case And => Holds(idx, l, b) && Holds(idx, r, b)
      case Or => Holds(idx, l, b) || Holds(idx, r, b)
      case Xor => Holds(idx, l, b) != Holds(idx, r, b)
      case Sub => Holds(idx, l, b) && !Holds(idx, r, b)
  {
    var cs := [l, r];
    assert cs[0] == l && cs[1] == r && cs[1..] == [r] && [r][1..] == [];
    assert HoldsOddly(idx, [r], b) == Holds(idx, r, b);
  }

  /** `impl BitAnd/BitOr/BitXor for Expression`: the flattened node executes
      like the plain two-operand node. */
  lemma CombineExecutes(idx: Index, op: Operator, l: Expression, r: Expression)
    requires op != Sub && Executable(l) && Executable(r)
    ensures Executable(Combine(op, l, r))
    ensures SameResult(Execute(idx, Combine(op, l, r)), Execute(idx, Node(op, [l, r])))
  {
    CombineExecutable(op, l, r);
    CombineDefined(idx, op, l, r);
    PairDefined(idx, op, l, r);
    forall b ensures Holds(idx, Combine(op, l, r), b) <==> Holds(idx, Node(op, [l, r]), b) {
      CombineHolds(idx, op, l, r, b);
    }
    SameMeaning(idx, Combine(op, l, r), Node(op, [l, r]));
  }

  lemma SubtractExecutable(l: Expression, r: Expression)
    requires Executable(l) && Executable(r)
    ensures Executable(Subtract(l, r))
  {
    var ls := Operands(Sub, l);
    OperandsExecutable(Sub, l);
    AllExecutableAppend(ls, [r]);
  }

  lemma SubtractDefined(idx: Index, l: Expression, r: Expression)
    ensures FirstMissing(idx, Subtract(l, r)).None?
        <==> FirstMissing(idx, l).None? && FirstMissing(idx, r).None?
  {
    var ls := Operands(Sub, l);
    NodeDefined(idx, Sub, ls + [r]);
    AllDefinedAppend(idx, ls, [r]);
    OperandsDefined(idx, Sub, l);
    assert [r][0] == r;
  }

  /** A subtraction holds for the ids its first operand holds for and none
      of the others does. */
  lemma SubHolds(idx: Index, cs: seq<Expression>, b: Id)
    requires |cs| > 0
    ensures Holds(idx, Node(Sub, cs), b) <==> Holds(idx, cs[0], b) && !SomeHolds(idx, cs[1..], b)
  {
    if SomeHolds(idx, cs[1..], b) {
      var i :| 0 <= i < |cs| - 1 && Holds(idx, cs[1..][i], b);
      assert cs[1..][i] == cs[i + 1];
    }
  }

  lemma SubtractHolds(idx: Index, l: Expression, r: Expression, b: Id)
    requires Executable(l)
    ensures Holds(idx, Subtract(l, r), b) <==> Holds(idx, l, b) && !Holds(idx, r, b)
  {
    if l.Node? && l.op == Sub {
      assert Subtract(l, r) == Node(Sub, l.children + [r]);
      ExtendedSubHolds(idx, l.children, r, b);
    } else {
      assert Subtract(l, r) == Node(Sub, [l, r]);
      PairHolds(idx, Sub, l, r, b);
    }
  }

  /** Appending `r` to a subtraction also excludes the ids `r` holds for. */
  lemma ExtendedSubHolds(idx: Index, ls: seq<Expression>, r: Expression, b: Id)
    requires |ls| > 0
    ensures Holds(idx, Node(Sub, ls + [r]), b) <==> Holds(idx, Node(Sub, ls), b) && !Holds(idx, r, b)
  {
    var cs := ls + [r];
    SubHolds(idx, cs, b);
    SubHolds(idx, ls, b);
    assert cs[0] == ls[0] && cs[1..] == ls[1..] + [r];
    SomeHoldsAppend(idx, ls[1..], [r], b);
    assert [r][0] == r;
  }

  lemma SubtractExecutes(idx: Index, l: Expression, r: Expression)
    requires Executable(l) && Executable(r)
    ensures Executable(Subtract(l, r))
    ensures SameResult(Execute(idx, Subtract(l, r)), Execute(idx, Node(Sub, [l, r])))
  {
    SubtractExecutable(l, r);
    SubtractDefined(idx, l, r);
    PairDefined(idx, Sub, l, r);
    forall b ensures Holds(idx, Subtract(l, r), b) <==> Holds(idx, Node(Sub, [l, r]), b) {
      SubtractHolds(idx, l, r, b);
      PairHolds(idx, Sub, l, r, b);
    }
    SameMeaning(idx, Subtract(l, r), Node(Sub, [l, r]));
  }

  /** `impl Sub for Expression` as written splices the right operand's
      operands into the subtraction, so `a - (b - c)` executes as
      `a - b - c`: an id all three properties hold is dropped by the
      spliced query and kept by the intended one. */
  lemma CombineSubtractDiffers(idx: Index, a: string, b: string, c: string, x: Id)
    requires a in idx && b in idx && c in idx
    requires x in idx[a] && x in idx[b] && x in idx[c]
    ensures var l, r := Property(a), Node(Sub, [Property(b), Property(c)]);
            && Executable(Combine(Sub, l, r)) && Executable(Node(Sub, [l, r]))
            && Execute(idx, Combine(Sub, l, r)).Ok? && x !in Execute(idx, Combine(Sub, l, r)).value
            && Execute(idx, Node(Sub, [l, r])).Ok? && x in Execute(idx, Node(Sub, [l, r])).value
  {
    SplicedShape(a, b, c);
    SplicedDrops(idx, a, b, c, x);
    IntendedKeeps(idx, a, b, c, x);
  }

  /** The builder splices `a - (b - c)` into `a - b - c`; both shapes run. */
  lemma SplicedShape(a: string, b: string, c: string)
    ensures var pa, pb, pc := Property(a), Property(b), Property(c);
            && Combine(Sub, pa, Node(Sub, [pb, pc])) == Node(Sub, [pa, pb, pc])
            && Executable(Node(Sub, [pa, pb, pc]))
            && Executable(Node(Sub, [pa, Node(Sub, [pb, pc])]))
  {
    var pa, pb, pc := Property(a), Property(b), Property(c);
    Spliced(pa, pb, pc);
    TripleExecutable(Sub, pa, pb, pc);
    PairExecutable(Sub, pb, pc);
    PairExecutable(Sub, pa, Node(Sub, [pb, pc]));
  }

  lemma Spliced(x: Expression, y: Expression, z: Expression)
    requires !(x.Node? && x.op == Sub)
    ensures Combine(Sub, x, Node(Sub, [y, z])) == Node(Sub, [x, y, z])
  {
    assert [x] + [y, z] == [x, y, z];
  }

  lemma PairExecutable(op: Operator, x: Expression, y: Expression)
    requires Executable(x) && Executable(y)
    ensures Executable(Node(op, [x, y]))
  {
  }

  lemma TripleExecutable(op: Operator, x: Expression, y: Expression, z: Expression)
    requires Executable(x) && Executable(y) && Executable(z)
    ensures Executable(Node(op, [x, y, z]))
  {
  }
  lemma SplicedDrops(idx: Index, a: string, b: string, c: string, x: Id)
    requires a in idx && b in idx && c in idx && x in idx[b]
    ensures var e := Node(Sub, [Property(a), Property(b), Property(c)]);
            Execute(idx, e).Ok? && x !in Execute(idx, e).value
  {
    ExecuteAllThree(idx, Property(a), Property(b), Property(c));
    DifferenceMeaning(idx[a], [idx[b], idx[c]], x);
  }

  lemma IntendedKeeps(idx: Index, a: string, b: string, c: string, x: Id)
    requires a in idx && b in idx && c in idx
    requires x in idx[a] && x in idx[c]
    ensures var e := Node(Sub, [Property(a), Node(Sub, [Property(b), Property(c)])]);
            Execute(idx, e).Ok? && x in Execute(idx, e).value
  {
    var inner := Node(Sub, [Property(b), Property(c)]);
    ExecuteAllTwo(idx, Property(b), Property(c));
    DifferenceMeaning(idx[b], [idx[c]], x);
    ExecuteAllTwo(idx, Property(a), inner);
    DifferenceMeaning(idx[a], [Execute(idx, inner).value], x);
  }

  lemma ExecuteAllOne(idx: Index, x: Expression)
    requires Executable(x) && Execute(idx, x).Ok?
    ensures ExecuteAll(idx, [x]) == Ok([Execute(idx, x).value])
  {
    assert [x][1..] == [];
    assert [Execute(idx, x).value] + [] == [Execute(idx, x).value];
  }

  lemma ExecuteAllTwo(idx: Index, x: Expression, y: Expression)
    requires Executable(x) && Executable(y)
    requires Execute(idx, x).Ok? && Execute(idx, y).Ok?
    ensures ExecuteAll(idx, [x, y]) == Ok([Execute(idx, x).value, Execute(idx, y).value])
  {
    assert [x, y][1..] == [y];
    ExecuteAllOne(idx, y);
    assert [Execute(idx, x).value] + [Execute(idx, y).value] == [Execute(idx, x).value, Execute(idx, y).value];
  }

  lemma ExecuteAllThree(idx: Index, x: Expression, y: Expression, z: Expression)
    requires Executable(x) && Executable(y) && Executable(z)
    requires Execute(idx, x).Ok? && Execute(idx, y).Ok? && Execute(idx, z).Ok?
    ensures ExecuteAll(idx, [x, y, z])
         == Ok([Execute(idx, x).value, Execute(idx, y).value, Execute(idx, z).value])
  {
    assert [x, y, z][1..] == [y, z];
    ExecuteAllTwo(idx, y, z);
    var u, v, w := Execute(idx, x).value, Execute(idx, y).value, Execute(idx, z).value;
    assert [u] + [v, w] == [u, v, w];
  }
}
