/**
 * `Index::execute`: evaluating a query over the index, and the boolean
 * meaning it must have for every id, stated independently of the folds
 * the source computes it with.
 */
module Queries {
  import opened Wrappers
  import opened Ordering
  import opened Expressions
  import opened Indexes

  /** `index::Error`. */
  datatype IndexError = PropertyDoesNotExist(name: string)

  // The folds over the operand bitmaps.

  /** The `and_inplace` loop: intersect every bitmap into `acc`, in order. */
  function Intersection(acc: Bitmap, ss: seq<Bitmap>): (r: Bitmap)
    ensures r <= acc
  {
    if ss == [] then acc else Intersection(acc * ss[0], ss[1..])
  }

  /** The `andnot_inplace` loop: subtract every bitmap from `acc`, in order. */
  function Difference(acc: Bitmap, ss: seq<Bitmap>): (r: Bitmap)
    ensures r <= acc
  {
    if ss == [] then acc else Difference(acc - ss[0], ss[1..])
  }

  /** `Bitmap::fast_or`: the union of every bitmap (empty for none). */
  function Union(ss: seq<Bitmap>): Bitmap {
    if ss == [] then {} else ss[0] + Union(ss[1..])
  }

  /** `Bitmap::fast_xor`: the iterated symmetric difference (empty for none). */
  function SymmetricDifference(ss: seq<Bitmap>): (r: Bitmap)
    ensures r <= Union(ss)
  {
    if ss == [] then {} else var t := SymmetricDifference(ss[1..]); (ss[0] - t) + (t - ss[0])
  }

  /** Whether an odd number of the bitmaps hold `b`. */
  predicate OddlyHeld(ss: seq<Bitmap>, b: Id) {
    if ss == [] then false else (b in ss[0]) != OddlyHeld(ss[1..], b)
  }

  /** The bitmap an n-ary node combines its operands' bitmaps into. */
  function Combined(op: Operator, ss: seq<Bitmap>): Bitmap
    requires (op == And || op == Sub) ==> |ss| >= 1
  {
    match op
    case And => Intersection(ss[0], ss[1..])
    case Or => Union(ss)
    case Xor => SymmetricDifference(ss)
    case Sub => Difference(ss[0], ss[1..])
  }

  // Execution.

  /** `Index::execute`: an unknown property is an error, an operation
      executes its operands in order and stops at the first error, and `Not`
      is the root minus its operand. */
  function Execute(idx: Index, e: Expression): (r: Result<Bitmap, IndexError>)
    requires Executable(e)
    decreases e, 1
    ensures r.Ok? <==> FirstMissing(idx, e).None?
    ensures r.Err? ==> r.error == PropertyDoesNotExist(FirstMissing(idx, e).value)
    ensures r.Err? ==> r.error.name !in idx
  {
    match e
    case Root => Ok(RootOf(idx))
    case Property(n) => if n in idx then Ok(idx[n]) else Err(PropertyDoesNotExist(n))
    case Not(x) =>
      var s :- Execute(idx, x);
      Ok(RootOf(idx) - s)
    case Node(op, cs) =>
      var ss :- ExecuteAll(idx, cs);
      Ok(Combined(op, ss))
  }

  /** The operands executed left to right, or the first error. */
  function ExecuteAll(idx: Index, cs: seq<Expression>): (r: Result<seq<Bitmap>, IndexError>)
    requires forall i | 0 <= i < |cs| :: Executable(cs[i])
    decreases cs, 0
    ensures r.Ok? ==> |r.value| == |cs|
    ensures r.Ok? <==> FirstMissingOf(idx, cs).None?
    ensures r.Err? ==> r.error == PropertyDoesNotExist(FirstMissingOf(idx, cs).value)
    ensures r.Err? ==> r.error.name !in idx
  {
    if cs == [] then Ok([])
    else
      var s :- Execute(idx, cs[0]);
      var ss :- ExecuteAll(idx, cs[1..]);
      Ok([s] + ss)
  }

  // The meaning of a query.

  /** The first property, left to right, the index does not have. */
  function FirstMissing(idx: Index, e: Expression): (r: Option<string>)
    decreases e, 1
  {
    match e
    case Root => None
    case Property(n) => if n in idx then None else Some(n)
    case Not(x) => FirstMissing(idx, x)
    case Node(_, cs) => FirstMissingOf(idx, cs)
  }

  function FirstMissingOf(idx: Index, cs: seq<Expression>): Option<string>
    decreases cs, 0
  {
    if cs == [] then None
    else var m := FirstMissing(idx, cs[0]); if m.Some? then m else FirstMissingOf(idx, cs[1..])
  }

  /** Whether id `b` satisfies the query: `*` holds for every id of the
      index, `and` for all operands, `or` for some, `xor` for an odd number,
      `-` for the first and none of the others, `not` for the ids of the
      index its operand does not hold for. */
  predicate Holds(idx: Index, e: Expression, b: Id)
    decreases e, 1
  {
    match e
    case Root => b in RootOf(idx)
    case Property(n) => n in idx && b in idx[n]
    case Not(x) => b in RootOf(idx) && !Holds(idx, x, b)
    case Node(And, cs) => forall i | 0 <= i < |cs| :: Holds(idx, cs[i], b)
    case Node(Or, cs) => exists i | 0 <= i < |cs| :: Holds(idx, cs[i], b)
    case Node(Xor, cs) => HoldsOddly(idx, cs, b)
    case Node(Sub, cs) => |cs| > 0 && Holds(idx, cs[0], b) && forall i | 1 <= i < |cs| :: !Holds(idx, cs[i], b)
  }

  predicate HoldsOddly(idx: Index, cs: seq<Expression>, b: Id)
    decreases cs, 0
  {
    if cs == [] then false else Holds(idx, cs[0], b) != HoldsOddly(idx, cs[1..], b)
  }

  /** `s` is exactly the set of ids of the index that satisfy `e`. */
  predicate Denotes(idx: Index, e: Expression, s: Bitmap) {
    s <= RootOf(idx) && forall b :: b in s <==> Holds(idx, e, b)
  }

  // The folds compute what they are named after.

  lemma {:induction false} IntersectionMeaning(acc: Bitmap, ss: seq<Bitmap>, b: Id)
    ensures b in Intersection(acc, ss) <==> b in acc && forall i | 0 <= i < |ss| :: b in ss[i]
    decreases |ss|
  {
    if ss != [] {
      IntersectionMeaning(acc * ss[0], ss[1..], b);
      assert forall i | 1 <= i < |ss| :: ss[i] == ss[1..][i - 1];
    }
  }

  lemma {:induction false} DifferenceMeaning(acc: Bitmap, ss: seq<Bitmap>, b: Id)
    ensures b in Difference(acc, ss) <==> b in acc && forall i | 0 <= i < |ss| :: b !in ss[i]
    decreases |ss|
  {
    if ss != [] {
      DifferenceMeaning(acc - ss[0], ss[1..], b);
      assert forall i | 1 <= i < |ss| :: ss[i] == ss[1..][i - 1];
    }
  }

  lemma {:induction false} UnionMeaning(ss: seq<Bitmap>, b: Id)
    ensures b in Union(ss) <==> exists i | 0 <= i < |ss| :: b in ss[i]
    decreases |ss|
  {
    if ss != [] {
      UnionMeaning(ss[1..], b);
      assert forall i | 1 <= i < |ss| :: ss[i] == ss[1..][i - 1];
    }
  }

  lemma {:induction false} SymmetricDifferenceMeaning(ss: seq<Bitmap>, b: Id)
    ensures b in SymmetricDifference(ss) <==> OddlyHeld(ss, b)
    decreases |ss|
  {
    if ss != [] {
      SymmetricDifferenceMeaning(ss[1..], b);
    }
  }

  // Execution agrees with the meaning.

  /** The operands' bitmaps, in order, each denoting its operand. */
  predicate DenotesAll(idx: Index, cs: seq<Expression>, ss: seq<Bitmap>) {
    |ss| == |cs| && forall i | 0 <= i < |cs| :: Denotes(idx, cs[i], ss[i])
  }

  /** `execute` fails exactly when the query names a missing property, and
      then reports the first one; otherwise its bitmap is the set of ids of
      the index the query holds for. */
  lemma {:induction false} ExecuteMeaning(idx: Index, e: Expression)
    requires Executable(e)
    ensures Execute(idx, e).Ok? <==> FirstMissing(idx, e).None?
    ensures Execute(idx, e).Err? ==> Execute(idx, e).error == PropertyDoesNotExist(FirstMissing(idx, e).value)
    ensures Execute(idx, e).Ok? ==> Denotes(idx, e, Execute(idx, e).value)
    decreases e, 1
  {
    match e
    case Root =>
    case Property(n) =>
    case Not(x) => ExecuteMeaning(idx, x);
    case Node(op, cs) =>
      ExecuteAllMeaning(idx, cs);
      var r := ExecuteAll(idx, cs);
      if r.Ok? {
        NodeMeaning(idx, op, cs, r.value);
      }
  }

  lemma {:induction false} ExecuteAllMeaning(idx: Index, cs: seq<Expression>)
    requires forall i | 0 <= i < |cs| :: Executable(cs[i])
    ensures ExecuteAll(idx, cs).Ok? <==> FirstMissingOf(idx, cs).None?
    ensures ExecuteAll(idx, cs).Err? ==> ExecuteAll(idx, cs).error == PropertyDoesNotExist(FirstMissingOf(idx, cs).value)
    ensures ExecuteAll(idx, cs).Ok? ==> DenotesAll(idx, cs, ExecuteAll(idx, cs).value)
    decreases cs, 0
  {
    if cs != [] {
      ExecuteMeaning(idx, cs[0]);
      ExecuteAllMeaning(idx, cs[1..]);
      var r := ExecuteAll(idx, cs);
      if r.Ok? {
        DenotesCons(idx, cs, r.value);
      }
    }
  }

  lemma DenotesCons(idx: Index, cs: seq<Expression>, ss: seq<Bitmap>)
    requires |cs| > 0 && |ss| == |cs|
    requires Denotes(idx, cs[0], ss[0]) && DenotesAll(idx, cs[1..], ss[1..])
    ensures DenotesAll(idx, cs, ss)
  {
    forall i | 1 <= i < |cs| ensures Denotes(idx, cs[i], ss[i]) {
      assert cs[i] == cs[1..][i - 1] && ss[i] == ss[1..][i - 1];
    }
  }

  /** Combining operand bitmaps that denote the operands denotes the node. */
  lemma NodeMeaning(idx: Index, op: Operator, cs: seq<Expression>, ss: seq<Bitmap>)
    requires Executable(Node(op, cs)) && DenotesAll(idx, cs, ss)
    ensures Denotes(idx, Node(op, cs), Combined(op, ss))
  {
    match op
    case And => AndMeaning(idx, cs, ss);
    case Or => OrMeaning(idx, cs, ss);
    case Xor => XorMeaning(idx, cs, ss);
    case Sub => SubMeaning(idx, cs, ss);
  }

  lemma AndMeaning(idx: Index, cs: seq<Expression>, ss: seq<Bitmap>)
    requires |cs| >= 1 && DenotesAll(idx, cs, ss)
    ensures Denotes(idx, Node(And, cs), Intersection(ss[0], ss[1..]))
  {
    forall b ensures b in Intersection(ss[0], ss[1..]) <==> Holds(idx, Node(And, cs), b) {
      IntersectionMeaning(ss[0], ss[1..], b);
      assert forall i | 1 <= i < |ss| :: ss[i] == ss[1..][i - 1];
    }
  }

  lemma SubMeaning(idx: Index, cs: seq<Expression>, ss: seq<Bitmap>)
    requires |cs| >= 1 && DenotesAll(idx, cs, ss)
    ensures Denotes(idx, Node(Sub, cs), Difference(ss[0], ss[1..]))
  {
    forall b ensures b in Difference(ss[0], ss[1..]) <==> Holds(idx, Node(Sub, cs), b) {
      DifferenceMeaning(ss[0], ss[1..], b);
      assert forall i | 1 <= i < |ss| :: ss[i] == ss[1..][i - 1];
    }
  }

  lemma OrMeaning(idx: Index, cs: seq<Expression>, ss: seq<Bitmap>)
    requires DenotesAll(idx, cs, ss)
    ensures Denotes(idx, Node(Or, cs), Union(ss))
  {
    forall b ensures b in Union(ss) <==> Holds(idx, Node(Or, cs), b) {
      UnionMeaning(ss, b);
    }
  }

  lemma XorMeaning(idx: Index, cs: seq<Expression>, ss: seq<Bitmap>)
    requires DenotesAll(idx, cs, ss)
    ensures Denotes(idx, Node(Xor, cs), SymmetricDifference(ss))
  {
    forall b ensures b in SymmetricDifference(ss) <==> Holds(idx, Node(Xor, cs), b) {
      SymmetricDifferenceMeaning(ss, b);
      OddlyHeldMeaning(idx, cs, ss, b);
    }
    OrMeaning(idx, cs, ss);
  }

  lemma {:induction false} OddlyHeldMeaning(idx: Index, cs: seq<Expression>, ss: seq<Bitmap>, b: Id)
    requires DenotesAll(idx, cs, ss)
    ensures OddlyHeld(ss, b) == HoldsOddly(idx, cs, b)
    decreases |cs|
  {
    if cs != [] {
      assert DenotesAll(idx, cs[1..], ss[1..]) by {
        forall i | 0 <= i < |cs| - 1 ensures Denotes(idx, cs[1..][i], ss[1..][i]) {
          assert cs[1..][i] == cs[i + 1] && ss[1..][i] == ss[i + 1];
        }
      }
      OddlyHeldMeaning(idx, cs[1..], ss[1..], b);
    }
  }
}
