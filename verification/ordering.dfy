/**
 * The two orders the engine sorts by: Rust's `Ord` on `String` (byte-wise
 * lexicographic, which on UTF-8 text is the lexicographic order of code
 * points) and the numeric order of `u32` ids. A bitmap iterates its ids in
 * ascending order, and `sort_unstable` puts names in ascending order; both
 * are modelled as the sorted enumeration of a finite set.
 */
module Ordering {

  /** The ids a bitmap holds: `u32`. */
  type Id = x: int | 0 <= x < 0x1_0000_0000

  // Ids.

  predicate IdsAscending(s: seq<Id>) {
    forall i, j | 0 <= i < j < |s| :: s[i] < s[j]
  }

  /** Every non-empty finite set of ids has a least element. */
  lemma {:induction false} LeastIdExists(s: set<Id>)
    requires s != {}
    ensures exists m :: m in s && forall x | x in s :: m <= x
    decreases s
  {
    var y :| y in s;
    var r := s - {y};
    assert s == r + {y};
    if r != {} {
      LeastIdExists(r);
      var m :| m in r && forall x | x in r :: m <= x;
      LeastOfAdded(r, y, m);
    } else {
      assert forall x | x in s :: x == y;
    }
  }

  lemma LeastOfAdded(r: set<Id>, y: Id, m: Id)
    requires m in r && forall x | x in r :: m <= x
    ensures var w := if y < m then y else m;
            w in r + {y} && forall x | x in r + {y} :: w <= x
  {
  }

  /** Every non-empty finite set of ids has a greatest element. */
  lemma {:induction false} GreatestIdExists(s: set<Id>)
    requires s != {}
    ensures exists m :: m in s && forall x | x in s :: x <= m
    decreases s
  {
    var y :| y in s;
    var r := s - {y};
    assert s == r + {y};
    if r != {} {
      GreatestIdExists(r);
      var m :| m in r && forall x | x in r :: x <= m;
      GreatestOfAdded(r, y, m);
    } else {
      assert forall x | x in s :: x == y;
    }
  }

  lemma GreatestOfAdded(r: set<Id>, y: Id, m: Id)
    requires m in r && forall x | x in r :: x <= m
    ensures var w := if m < y then y else m;
            w in r + {y} && forall x | x in r + {y} :: x <= w
  {
  }

  /** `Bitmap::minimum`. */
  function Least(s: set<Id>): (m: Id)
    requires s != {}
    ensures m in s && forall x | x in s :: m <= x
  {
    LeastIdExists(s);
    var m :| m in s && forall x | x in s :: m <= x;
    m
  }

  /** `Bitmap::maximum`. */
  function Greatest(s: set<Id>): (m: Id)
    requires s != {}
    ensures m in s && forall x | x in s :: x <= m
  {
    GreatestIdExists(s);
    var m :| m in s && forall x | x in s :: x <= m;
    m
  }

  /** `Bitmap::to_vec` / `iter`: the ids in ascending order. */
  function IdList(s: set<Id>): (r: seq<Id>)
    ensures IdsAscending(r)
    ensures forall x :: x in r <==> x in s
    ensures |r| == |s|
    decreases s
  {
    if s == {} then []
    else
      var m := Least(s);
      var tail := IdList(s - {m});
      [m] + tail
  }

  /** `Bitmap::of`: the set of a list of ids, duplicates collapsed. */
  function IdSet(ids: seq<Id>): (s: set<Id>)
    ensures forall x :: x in s <==> x in ids
  {
    set x | x in ids
  }

  /** Listing a set and collecting it again gives the set back. */
  lemma IdSetOfList(s: set<Id>)
    ensures IdSet(IdList(s)) == s
  {
  }

  // Names.

  /** `a < b` on Rust strings. */
  predicate Less(a: string, b: string)
    decreases |a|
  {
    |b| > 0 && (|a| == 0 || a[0] < b[0] || (a[0] == b[0] && Less(a[1..], b[1..])))
  }

  lemma {:induction false} LessIrreflexive(a: string)
    ensures !Less(a, a)
    decreases |a|
  {
    if |a| > 0 {
      LessIrreflexive(a[1..]);
    }
  }

  lemma {:induction false} LessTransitive(a: string, b: string, c: string)
    requires Less(a, b) && Less(b, c)
    ensures Less(a, c)
    decreases |a|
  {
    if |a| > 0 && a[0] == b[0] && b[0] == c[0] {
      LessTransitive(a[1..], b[1..], c[1..]);
    }
  }

  lemma {:induction false} LessTotal(a: string, b: string)
    ensures a == b || Less(a, b) || Less(b, a)
    decreases |a|
  {
    if |a| > 0 && |b| > 0 && a[0] == b[0] {
      LessTotal(a[1..], b[1..]);
      if a[1..] == b[1..] {
        assert a == [a[0]] + a[1..] && b == [b[0]] + b[1..];
      }
    }
  }

  lemma LessAsymmetric()
    ensures forall a, b :: Less(a, b) ==> !Less(b, a)
  {
    forall a, b | Less(a, b) ensures !Less(b, a) {
      if Less(b, a) {
        LessTransitive(a, b, a);
        LessIrreflexive(a);
      }
    }
  }

  predicate NamesAscending(s: seq<string>) {
    forall i, j | 0 <= i < j < |s| :: Less(s[i], s[j])
  }

  /** Every non-empty finite set of names has a least element. */
  lemma {:induction false} LeastNameExists(s: set<string>)
    requires s != {}
    ensures exists m :: m in s && forall x | x in s && x != m :: Less(m, x)
    decreases s
  {
    var y :| y in s;
    var r := s - {y};
    assert s == r + {y};
    if r != {} {
      LeastNameExists(r);
      var m :| m in r && forall x | x in r && x != m :: Less(m, x);
      LeastNameOfAdded(r, y, m);
    } else {
      assert forall x | x in s :: x == y;
    }
  }

  lemma LeastNameOfAdded(r: set<string>, y: string, m: string)
    requires m in r && forall x | x in r && x != m :: Less(m, x)
    ensures var w := if Less(y, m) then y else m;
            w in r + {y} && forall x | x in r + {y} && x != w :: Less(w, x)
  {
    LessTotal(y, m);
    if Less(y, m) {
      forall x | x in r && x != y ensures Less(y, x) {
        if x != m { LessTransitive(y, m, x); }
      }
    }
  }

  /** The least of a non-empty finite set of names. */
  function LeastName(s: set<string>): (m: string)
    requires s != {}
    ensures m in s && forall x | x in s && x != m :: Less(m, x)
  {
    LeastNameExists(s);
    LessAsymmetric();
    var m :| m in s && forall x | x in s && x != m :: Less(m, x);
    m
  }

  /** `sort_unstable` of a list of distinct names. */
  function NameList(s: set<string>): (r: seq<string>)
    ensures NamesAscending(r)
    ensures forall x :: x in r <==> x in s
    ensures |r| == |s|
    decreases s
  {
    if s == {} then []
    else
      var m := LeastName(s);
      var tail := NameList(s - {m});
      [m] + tail
  }
}
