/**
 * The older server's evaluator for `boolean_expression::Expr<String>`
 * queries over a root bitmap and a map of facets, and its rendering of a
 * query as an SQLite filter. `Const` never reaches either function: the
 * parser that builds these expressions cannot produce it.
 */
module BitmapExpressions {
  import opened Wrappers
  import opened Ordering
  import opened Indexes

  /** `boolean_expression::Expr<String>`. */
  datatype Expr =
    | Const(value: bool)
    | Terminal(key: string)
    | Not(inner: Expr)
    | And(lhs: Expr, rhs: Expr)
    | Or(lhs: Expr, rhs: Expr)

  /** The `CribleError` variant the evaluator returns. */
  datatype CribleError = FacetDoesNotExist(key: string)

  /** No `Const` anywhere in the expression. */
  predicate NoConst(e: Expr) {
    match e
    case Const(_) => false
    case Terminal(_) => true
    case Not(x) => NoConst(x)
    case And(l, r) => NoConst(l) && NoConst(r)
    case Or(l, r) => NoConst(l) && NoConst(r)
  }

  /** The facet names an expression mentions. */
  function Terminals(e: Expr): set<string> {
    match e
    case Const(_) => {}
    case Terminal(k) => {k}
    case Not(x) => Terminals(x)
    case And(l, r) => Terminals(l) + Terminals(r)
    case Or(l, r) => Terminals(l) + Terminals(r)
  }

  /** `apply_expression`. A conjunction with a negated side subtracts
      instead of building the complement: both sides negated give
      `root - (x | y)`, one side negated gives `other - negated`. Operands
      are evaluated in the source's order, so the first missing facet met
      is the one reported; with a negated left side that is the right
      side's. */
  function Apply(root: Bitmap, facets: map<string, Bitmap>, e: Expr): (r: Result<Bitmap, CribleError>)
    requires NoConst(e)
    decreases e
    ensures r.Ok? <==> Terminals(e) <= facets.Keys
    ensures r.Err? ==> r.error.key in Terminals(e) && r.error.key !in facets
  {
    match e
    case Terminal(k) =>
      if k in facets then Ok(facets[k]) else Err(FacetDoesNotExist(k))
    case Not(x) =>
      var v :- Apply(root, facets, x);
      Ok(root - v)
    case And(l, r) =>
      NoConstInner(l);
      NoConstInner(r);
      if l.Not? && r.Not? then
        var a :- Apply(root, facets, l.inner);
        var b :- Apply(root, facets, r.inner);
        Ok(root - (a + b))
      else if l.Not? || r.Not? then
        var other :- Apply(root, facets, if l.Not? then r else l);
        var negated :- Apply(root, facets, if l.Not? then l.inner else r.inner);
        Ok(other - negated)
      else
        var a :- Apply(root, facets, l);
        var b :- Apply(root, facets, r);
        Ok(a * b)
    case Or(l, r) =>
      var a :- Apply(root, facets, l);
      var b :- Apply(root, facets, r);
      Ok(a + b)
  }

  lemma NoConstInner(e: Expr)
    requires NoConst(e)
    ensures e.Not? ==> NoConst(e.inner)
  {
  }

  /** The meaning of a query, one id at a time, with `Not` as the
      complement within the root. */
  predicate Member(root: Bitmap, facets: map<string, Bitmap>, e: Expr, b: Id) {
    match e
    case Const(v) => v
    case Terminal(k) => k in facets && b in facets[k]
    case Not(x) => b in root && !Member(root, facets, x, b)
    case And(l, r) => Member(root, facets, l, b) && Member(root, facets, r, b)
    case Or(l, r) => Member(root, facets, l, b) || Member(root, facets, r, b)
  }

  /** Every facet lies within the root, as when the root is the union of
      the facets. */
  predicate WithinRoot(root: Bitmap, facets: map<string, Bitmap>) {
    forall k | k in facets :: facets[k] <= root
  }

  /** The evaluator fails exactly when the query names a missing facet,
      and reports one; within the root, its subtraction shortcuts compute
      the complement-based meaning (De Morgan's laws relative to the root). */
  lemma {:induction false} ApplyMeaning(root: Bitmap, facets: map<string, Bitmap>, e: Expr)
    requires NoConst(e)
    ensures Apply(root, facets, e).Ok? <==> Terminals(e) <= facets.Keys
    ensures Apply(root, facets, e).Err? ==>
              var k := Apply(root, facets, e).error.key; k in Terminals(e) && k !in facets
    ensures WithinRoot(root, facets) && Apply(root, facets, e).Ok? ==>
              Apply(root, facets, e).value <= root
              && forall b :: b in Apply(root, facets, e).value <==> Member(root, facets, e, b)
    decreases e
  {
    match e
    case Terminal(k) =>
    case Not(x) =>
      ApplyMeaning(root, facets, x);
    case And(l, r) =>
      ApplyMeaning(root, facets, l);
      ApplyMeaning(root, facets, r);
      if l.Not? { ApplyMeaning(root, facets, l.inner); }
      if r.Not? { ApplyMeaning(root, facets, r.inner); }
    case Or(l, r) =>
      ApplyMeaning(root, facets, l);
      ApplyMeaning(root, facets, r);
  }

  /** Both sides negated: the shortcut is exactly `not (x or y)`, errors
      included. */
  lemma DeMorgan(root: Bitmap, facets: map<string, Bitmap>, x: Expr, y: Expr)
    requires NoConst(x) && NoConst(y)
    ensures Apply(root, facets, And(Not(x), Not(y))) == Apply(root, facets, Not(Or(x, y)))
  {
  }

  /** With a negated left side the right side is evaluated first, so its
      missing facet is the one reported. */
  lemma NegatedLeftReportsRight(root: Bitmap, facets: map<string, Bitmap>, x: Expr, y: Expr)
    requires NoConst(x) && NoConst(y) && !y.Not?
    requires Apply(root, facets, y).Err?
    ensures Apply(root, facets, And(Not(x), y)) == Err(Apply(root, facets, y).error)
  {
  }

  // SQLite filters.

  /** `to_sqlite_filter`. */
  function SqliteFilter(e: Expr): (s: string)
    requires NoConst(e)
    ensures |s| > 0
  {
    match e
    case Not(x) => "~(" + SqliteFilter(x) + ")"
    case Terminal(k) => "facet = '" + k + "'"
    case And(l, r) => "(" + SqliteFilter(l) + ") and (" + SqliteFilter(r) + ")"
    case Or(l, r) => "(" + SqliteFilter(l) + ") or (" + SqliteFilter(r) + ")"
  }

  /** No facet name holds a single quote, so each rendered name ends at the
      next quote. */
  predicate QuoteFree(e: Expr) {
    match e
    case Const(_) => true
    case Terminal(k) => '\'' !in k
    case Not(x) => QuoteFree(x)
    case And(l, r) => QuoteFree(l) && QuoteFree(r)
    case Or(l, r) => QuoteFree(l) && QuoteFree(r)
  }

  /** Length of the prefix of `s` before its first single quote. */
  function QuoteAt(s: string): (n: nat)
    ensures n <= |s|
    ensures forall i | 0 <= i < n :: s[i] != '\''
    ensures n < |s| ==> s[n] == '\''
  {
    if |s| == 0 || s[0] == '\'' then 0 else 1 + QuoteAt(s[1..])
  }

  const TerminalOpen: string := "facet = '"
  const AndSep: string := ") and ("
  const OrSep: string := ") or ("

  predicate HasPrefix(s: string, p: string) {
    |p| <= |s| && s[..|p|] == p
  }

  /** Reads one rendered filter from the front of `s`: the inverse of
      `SqliteFilter` on quote-free expressions. */
  function ReadFilter(s: string): (r: Option<(Expr, string)>)
    ensures r.Some? ==> |r.value.1| < |s|
    decreases |s|, 0
  {
    if HasPrefix(s, TerminalOpen) then ReadKey(s[|TerminalOpen|..])
    else if HasPrefix(s, "~(") then ReadNegation(s[2..])
    else if HasPrefix(s, "(") then ReadPair(s[1..])
    else None
  }

  /** A facet name and its closing quote. */
  function ReadKey(s: string): (r: Option<(Expr, string)>)
    ensures r.Some? ==> |r.value.1| < |s|
  {
    var n := QuoteAt(s);
    if n < |s| then Some((Terminal(s[..n]), s[n + 1..])) else None
  }

  /** The operand of `~(` and its closing parenthesis. */
  function ReadNegation(s: string): (r: Option<(Expr, string)>)
    ensures r.Some? ==> |r.value.1| < |s|
    decreases |s|, 1
  {
    match ReadFilter(s)
    case None => None
    case Some((x, t)) => if HasPrefix(t, ")") then Some((Not(x), t[1..])) else None
  }

  /** Two operands after `(`, joined by `) and (` or `) or (`, and the
      closing parenthesis. */
  function ReadPair(s: string): (r: Option<(Expr, string)>)
    ensures r.Some? ==> |r.value.1| < |s|
    decreases |s|, 1
  {
    match ReadFilter(s)
    case None => None
    case Some((l, t)) =>
      var sep := if HasPrefix(t, AndSep) then AndSep else if HasPrefix(t, OrSep) then OrSep else [];
      if sep == [] then None
      else
        match ReadFilter(t[|sep|..])
        case None => None
        case Some((r, u)) =>
          if HasPrefix(u, ")") then Some((if sep == AndSep then And(l, r) else Or(l, r), u[1..]))
          else None
  }

  /** The rendering reads back: a quote-free query is recovered from its
      filter, whatever follows it. */
  lemma {:induction false} FilterReadsBack(e: Expr, t: string)
    requires NoConst(e) && QuoteFree(e)
    ensures ReadFilter(SqliteFilter(e) + t) == Some((e, t))
    decreases e
  {
    match e
    case Terminal(k) => TerminalStep(k, t);
    case Not(x) =>
      FilterReadsBack(x, ")" + t);
      NotStep(SqliteFilter(x), x, t);
    case And(l, r) =>
      FilterReadsBack(l, AndSep + SqliteFilter(r) + ")" + t);
      FilterReadsBack(r, ")" + t);
      PairStep(SqliteFilter(l), SqliteFilter(r), l, r, AndSep, t);
    case Or(l, r) =>
      FilterReadsBack(l, OrSep + SqliteFilter(r) + ")" + t);
      FilterReadsBack(r, ")" + t);
      PairStep(SqliteFilter(l), SqliteFilter(r), l, r, OrSep, t);
  }

  /** Distinct quote-free queries render to distinct filters. */
  lemma FilterInjective(a: Expr, b: Expr)
    requires NoConst(a) && QuoteFree(a) && NoConst(b) && QuoteFree(b)
    requires SqliteFilter(a) == SqliteFilter(b)
    ensures a == b
  {
    FilterReadsBack(a, []);
    FilterReadsBack(b, []);
    assert SqliteFilter(a) + [] == SqliteFilter(a);
    assert SqliteFilter(b) + [] == SqliteFilter(b);
  }

  lemma TerminalStep(k: string, t: string)
    requires '\'' !in k
    ensures ReadFilter("facet = '" + k + "'" + t) == Some((Terminal(k), t))
  {
    var s := "facet = '" + k + "'" + t;
    assert HasPrefix(s, TerminalOpen);
    var rest := s[|TerminalOpen|..];
    assert rest == k + ("'" + t);
    QuoteAtOf(k, "'" + t);
    assert rest[..|k|] == k && rest[|k| + 1..] == t;
  }

  lemma {:induction false} QuoteAtOf(k: string, t: string)
    requires '\'' !in k && 0 < |t| && t[0] == '\''
    ensures QuoteAt(k + t) == |k|
    decreases |k|
  {
    if k != [] {
      assert (k + t)[1..] == k[1..] + t;
      QuoteAtOf(k[1..], t);
    }
  }

  lemma NotStep(fx: string, x: Expr, t: string)
    requires ReadFilter(fx + (")" + t)) == Some((x, ")" + t))
    ensures ReadFilter("~(" + fx + ")" + t) == Some((Not(x), t))
  {
    var s := "~(" + fx + ")" + t;
    assert s[0] == '~' && !HasPrefix(s, TerminalOpen);
    assert HasPrefix(s, "~(");
    assert s[2..] == fx + (")" + t);
    assert HasPrefix(")" + t, ")") && (")" + t)[1..] == t;
  }

  lemma PairStep(fl: string, fr: string, l: Expr, r: Expr, sep: string, t: string)
    requires sep == AndSep || sep == OrSep
    requires ReadFilter(fl + (sep + fr + ")" + t)) == Some((l, sep + fr + ")" + t))
    requires ReadFilter(fr + (")" + t)) == Some((r, ")" + t))
    ensures ReadFilter("(" + fl + sep + fr + ")" + t)
              == Some((if sep == AndSep then And(l, r) else Or(l, r), t))
  {
    var s := "(" + fl + sep + fr + ")" + t;
    PairText(fl, sep, fr, t);
    OpenParen(s, fl + (sep + fr + ")" + t));
    PairRest(fl, fr, l, r, sep, t);
  }

  lemma PairText(fl: string, sep: string, fr: string, t: string)
    ensures "(" + fl + sep + fr + ")" + t == "(" + (fl + (sep + fr + ")" + t))
  {
  }

  lemma OpenParen(s: string, rest: string)
    requires s == "(" + rest
    ensures ReadFilter(s) == ReadPair(rest)
  {
    assert s[0] == '(' && !HasPrefix(s, TerminalOpen) && !HasPrefix(s, "~(");
    assert HasPrefix(s, "(") && s[1..] == rest;
  }

  lemma PairRest(fl: string, fr: string, l: Expr, r: Expr, sep: string, t: string)
    requires sep == AndSep || sep == OrSep
    requires ReadFilter(fl + (sep + fr + ")" + t)) == Some((l, sep + fr + ")" + t))
    requires ReadFilter(fr + (")" + t)) == Some((r, ")" + t))
    ensures ReadPair(fl + (sep + fr + ")" + t))
              == Some((if sep == AndSep then And(l, r) else Or(l, r), t))
  {
    SeparatorStep(fr, sep, t);
    assert HasPrefix(")" + t, ")") && (")" + t)[1..] == t;
  }

  lemma SeparatorStep(fr: string, sep: string, t: string)
    requires sep == AndSep || sep == OrSep
    ensures var u := sep + fr + ")" + t;
            (if HasPrefix(u, AndSep) then AndSep else if HasPrefix(u, OrSep) then OrSep else []) == sep
            && u[|sep|..] == fr + (")" + t)
  {
    var u := sep + fr + ")" + t;
    assert u[..|sep|] == sep;
    if sep == OrSep {
      assert u[2] == 'o' && AndSep[2] == 'a';
    }
  }
}
