/**
 * The library's `Index`: a map from property name to a bitmap of `u32`
 * ids, with point and bulk updates of bits, per-id listing and rewriting
 * of properties, per-property intersection counts and summary statistics.
 * Every `&mut self` operation is a function from the old index to the new
 * one (paired with the returned flag where the source returns one).
 */
module Indexes {
  import opened Wrappers
  import opened Ordering

  /** A croaring `Bitmap`, as the set of ids it holds. */
  type Bitmap = set<Id>

  /** `Index(HashMap<String, Bitmap>)`. */
  type Index = map<string, Bitmap>

  /** `Index::root`: the union of every property's bitmap. */
  function RootOf(idx: Index): (r: Bitmap)
    ensures forall p | p in idx :: idx[p] <= r
    ensures forall b | b in r :: exists p | p in idx :: b in idx[p]
  {
    set p, b | p in idx && b in idx[p] :: b
  }

  /** The bitmap `entry(p).or_insert_with(Bitmap::create)` starts from. */
  function Get(idx: Index, p: string): Bitmap {
    if p in idx then idx[p] else {}
  }

  // Operations on individual bits.

  /** `Index::set`: adds `b` to `p`, creating `p` when it is missing, and
      reports whether the bit was not already set. */
  function Set(idx: Index, p: string, b: Id): (r: (Index, bool))
    ensures r.1 <==> !(p in idx && b in idx[p])
    ensures r.0.Keys == idx.Keys + {p} && b in r.0[p]
    ensures forall q | q in idx && q != p :: r.0[q] == idx[q]
    ensures r.0[p] - {b} == Get(idx, p) - {b}
  {
    var before := Get(idx, p);
    (idx[p := before + {b}], b !in before)
  }

  /** `Index::set_many`: adds every listed id to `p`, creating `p`. */
  function SetMany(idx: Index, p: string, bits: seq<Id>): (r: Index)
    ensures r.Keys == idx.Keys + {p}
    ensures forall b :: b in r[p] <==> b in Get(idx, p) || b in bits
    ensures forall q | q in idx && q != p :: r[q] == idx[q]
  {
    idx[p := Get(idx, p) + IdSet(bits)]
  }

  /** `Index::set_all`: adds the listed ids to every existing property. */
  function SetAll(idx: Index, bits: seq<Id>): (r: Index)
    ensures r.Keys == idx.Keys
    ensures forall q | q in idx :: forall b :: b in r[q] <==> b in idx[q] || b in bits
  {
    var mask := IdSet(bits);
    map q | q in idx :: idx[q] + mask
  }

  /** `Index::unset`: removes `b` from `p` when `p` exists, and reports
      whether the bit was there. A missing property is not created. */
  function Unset(idx: Index, p: string, b: Id): (r: (Index, bool))
    ensures r.1 <==> p in idx && b in idx[p]
    ensures r.0.Keys == idx.Keys
    ensures p in idx ==> b !in r.0[p] && r.0[p] + {b} == idx[p] + {b}
    ensures forall q | q in idx && q != p :: r.0[q] == idx[q]
  {
    if p in idx then (idx[p := idx[p] - {b}], b in idx[p]) else (idx, false)
  }

  /** `Index::unset_many`: removes the listed ids from `p` when it exists. */
  function UnsetMany(idx: Index, p: string, bits: seq<Id>): (r: Index)
    ensures r.Keys == idx.Keys
    ensures p in idx ==> forall b :: b in r[p] <==> b in idx[p] && b !in bits
    ensures forall q | q in idx && q != p :: r[q] == idx[q]
  {
    if p in idx then idx[p := idx[p] - IdSet(bits)] else idx
  }

  /** `Index::unset_all` (`unset_all_bits` in the older crate): removes the
      listed ids from every property. */
  function UnsetAll(idx: Index, bits: seq<Id>): (r: Index)
    ensures r.Keys == idx.Keys
    ensures forall q | q in idx :: forall b :: b in r[q] <==> b in idx[q] && b !in bits
  {
    var mask := IdSet(bits);
    map q | q in idx :: idx[q] - mask
  }

  // Operations on all properties for one id.

  /** The names of the properties holding `b`. */
  function WithBit(idx: Index, b: Id): set<string> {
    set p | p in idx && b in idx[p]
  }

  /** `Index::get_properties_with_bit`: the names of the properties holding
      `b`, sorted, each once. */
  function GetPropertiesWithBit(idx: Index, b: Id): (r: seq<string>)
    ensures NamesAscending(r)
    ensures forall p :: p in r <==> p in idx && b in idx[p]
  {
    NameList(WithBit(idx, b))
  }

  /** `Index::set_properties_with_bit`: every existing property gets `b`
      exactly when its name is listed; no property is created. The flag
      says whether some bitmap changed (every property is visited: the
      update comes before `|| changed`). */
  function SetPropertiesWithBit(idx: Index, b: Id, ps: seq<string>): (r: (Index, bool))
    ensures r.0.Keys == idx.Keys
    ensures forall q | q in idx :: (b in r.0[q] <==> q in ps) && r.0[q] - {b} == idx[q] - {b}
  {
    var updated := map q | q in idx :: if q in ps then idx[q] + {b} else idx[q] - {b};
    (updated, exists q | q in idx :: (q in ps) != (b in idx[q]))
  }

  // Summary.

  /** `Index::cardinalities`: for each property whose name starts with the
      prefix (every property without one), the size of its intersection
      with `src`; properties with an empty intersection are left out. */
  function Cardinalities(idx: Index, src: Bitmap, prefix: Option<string>): (r: map<string, nat>)
    ensures forall p :: p in r <==> p in idx && (prefix.None? || prefix.value <= p) && src * idx[p] != {}
    ensures forall p | p in r :: r[p] == |src * idx[p]| && r[p] > 0
  {
    map p | p in idx && (prefix.None? || prefix.value <= p) && |src * idx[p]| > 0 :: |src * idx[p]|
  }

  /** `Stats`: cardinality, least and greatest id of a bitmap. */
  datatype Stats = Stats(cardinality: nat, minimum: Option<Id>, maximum: Option<Id>)

  /** `Stats::default()`. */
  const NoStats := Stats(0, None, None)

  /** `impl From<&Bitmap> for Stats`. */
  function BitmapStats(bm: Bitmap): (r: Stats)
    ensures r.cardinality == |bm|
    ensures r.minimum.None? <==> bm == {}
    ensures r.maximum.None? <==> bm == {}
    ensures r.minimum.Some? ==> r.minimum.value in bm && forall b | b in bm :: r.minimum.value <= b
    ensures r.maximum.Some? ==> r.maximum.value in bm && forall b | b in bm :: b <= r.maximum.value
  {
    if bm == {} then NoStats else Stats(|bm|, Some(Least(bm)), Some(Greatest(bm)))
  }

  /** `impl From<&Index> for Stats`: the statistics of `root()`. */
  function IndexStats(idx: Index): (r: Stats)
    ensures r.cardinality == |RootOf(idx)|
    ensures r.minimum.None? <==> RootOf(idx) == {}
    ensures r.maximum.None? <==> RootOf(idx) == {}
    ensures r.minimum.Some? ==> r.minimum.value in RootOf(idx) && forall b | b in RootOf(idx) :: r.minimum.value <= b
    ensures r.maximum.Some? ==> r.maximum.value in RootOf(idx) && forall b | b in RootOf(idx) :: b <= r.maximum.value
  {
    BitmapStats(RootOf(idx))
  }

  /** `Index::stats` of the older crate: the default for an index without
      properties, else the statistics of `root()`. */
  function LegacyStats(idx: Index): (r: Stats)
    ensures |idx| == 0 ==> r == NoStats
    ensures r == IndexStats(idx)
  {
    if |idx| == 0 then
      assert idx == map[];
      StatsOfNothing();
      NoStats
    else BitmapStats(RootOf(idx))
  }

  // Laws of the updates.

  /** The flag `set` returns says exactly whether the index changed. */
  lemma SetReportsChange(idx: Index, p: string, b: Id)
    ensures Set(idx, p, b).1 <==> Set(idx, p, b).0 != idx
  {
    var r := Set(idx, p, b);
    if !r.1 {
      assert idx[p] + {b} == idx[p];
      assert r.0 == idx;
    } else if p in idx {
      assert b !in idx[p] && b in r.0[p];
    } else {
      assert p in r.0;
    }
  }

  /** The flag `unset` returns says exactly whether the index changed. */
  lemma UnsetReportsChange(idx: Index, p: string, b: Id)
    ensures Unset(idx, p, b).1 <==> Unset(idx, p, b).0 != idx
  {
    var r := Unset(idx, p, b);
    if r.1 {
      assert b in idx[p] && b !in r.0[p];
    } else if p in idx {
      assert r.0[p] == idx[p];
      assert r.0 == idx;
    }
  }

  /** Setting a bit that is already set changes nothing. */
  lemma SetIdempotent(idx: Index, p: string, b: Id)
    ensures var once := Set(idx, p, b).0;
            Set(once, p, b) == (once, false)
  {
    var once := Set(idx, p, b).0;
    assert once[p := once[p] + {b}] == once;
  }

  /** `unset` undoes a `set` that changed something on an existing property. */
  lemma UnsetUndoesSet(idx: Index, p: string, b: Id)
    requires p in idx && b !in idx[p]
    ensures Unset(Set(idx, p, b).0, p, b) == (idx, true)
  {
    var once := Set(idx, p, b).0;
    assert once[p] - {b} == idx[p];
    assert once[p := once[p] - {b}] == idx;
  }

  /** `unset_many` on a missing property leaves the index unchanged. */
  lemma UnsetManyMissing(idx: Index, p: string, bits: seq<Id>)
    requires p !in idx
    ensures UnsetMany(idx, p, bits) == idx
  {
  }

  /** After `set`, the root holds the new id besides the old ones. */
  lemma RootAfterSet(idx: Index, p: string, b: Id)
    ensures RootOf(Set(idx, p, b).0) == RootOf(idx) + {b}
  {
    var r := Set(idx, p, b).0;
    forall x | x in RootOf(r) ensures x in RootOf(idx) + {b} {
      var q :| q in r && x in r[q];
      if q != p { assert x in idx[q]; } else if x != b { assert x in idx[p]; }
    }
  }

  /** `set_all` on a non-empty index adds the mask to the root. */
  lemma RootAfterSetAll(idx: Index, bits: seq<Id>)
    requires |idx| > 0
    ensures RootOf(SetAll(idx, bits)) == RootOf(idx) + IdSet(bits)
  {
    var r := SetAll(idx, bits);
    var q :| q in idx;
    assert IdSet(bits) <= r[q];
    forall x | x in RootOf(r) ensures x in RootOf(idx) + IdSet(bits) {
      var k :| k in r && x in r[k];
      if x !in bits { assert x in idx[k]; }
    }
  }

  /** `unset_all` removes the mask from the root. */
  lemma RootAfterUnsetAll(idx: Index, bits: seq<Id>)
    ensures RootOf(UnsetAll(idx, bits)) == RootOf(idx) - IdSet(bits)
  {
    var r := UnsetAll(idx, bits);
    forall x | x in RootOf(idx) - IdSet(bits) ensures x in RootOf(r) {
      var k :| k in idx && x in idx[k];
      assert x in r[k];
    }
  }

  /** `set_properties_with_bit` followed by `get_properties_with_bit` lists
      exactly the listed names that are properties of the index. */
  lemma SetThenGetPropertiesWithBit(idx: Index, b: Id, ps: seq<string>)
    ensures forall p :: p in GetPropertiesWithBit(SetPropertiesWithBit(idx, b, ps).0, b)
                   <==> p in idx && p in ps
  {
  }

  /** The flag `set_properties_with_bit` returns says exactly whether the
      index changed. */
  lemma SetPropertiesWithBitReportsChange(idx: Index, b: Id, ps: seq<string>)
    ensures SetPropertiesWithBit(idx, b, ps).1 <==> SetPropertiesWithBit(idx, b, ps).0 != idx
  {
    var r := SetPropertiesWithBit(idx, b, ps);
    if r.1 {
      var q :| q in idx && (q in ps) != (b in idx[q]);
      assert (b in r.0[q]) != (b in idx[q]);
    } else {
      forall q | q in idx ensures r.0[q] == idx[q] {
        assert (q in ps) == (b in idx[q]);
      }
      assert r.0 == idx;
    }
  }

  /** Rewriting the same list twice changes nothing the second time. */
  lemma SetPropertiesWithBitIdempotent(idx: Index, b: Id, ps: seq<string>)
    ensures var once := SetPropertiesWithBit(idx, b, ps).0;
            SetPropertiesWithBit(once, b, ps) == (once, false)
  {
    var once := SetPropertiesWithBit(idx, b, ps).0;
    SetPropertiesWithBitReportsChange(once, b, ps);
    var twice := SetPropertiesWithBit(once, b, ps).0;
    forall q | q in once ensures twice[q] == once[q] {
      assert (b in twice[q]) == (b in once[q]);
    }
    assert twice == once;
  }

  // Laws of the summaries.

  /** A prefix narrows the unprefixed counts to the matching names. */
  lemma CardinalitiesNarrow(idx: Index, src: Bitmap, pre: string)
    ensures var all := Cardinalities(idx, src, None);
            Cardinalities(idx, src, Some(pre)) == map p | p in all && pre <= p :: all[p]
  {
  }

  /** The empty prefix selects every property. */
  lemma CardinalitiesEmptyPrefix(idx: Index, src: Bitmap)
    ensures Cardinalities(idx, src, Some([])) == Cardinalities(idx, src, None)
  {
  }

  /** Counting against the root gives every non-empty property its size. */
  lemma CardinalitiesOfRoot(idx: Index)
    ensures Cardinalities(idx, RootOf(idx), None) == map p | p in idx && idx[p] != {} :: |idx[p]|
  {
    forall p | p in idx ensures RootOf(idx) * idx[p] == idx[p] { }
  }

  /** Statistics of an empty bitmap and of an empty index are the default. */
  lemma StatsOfNothing()
    ensures BitmapStats({}) == NoStats
    ensures IndexStats(map[]) == NoStats
  {
    assert RootOf(map[]) == {};
  }

  /** The least id never exceeds the greatest. */
  lemma StatsOrdered(bm: Bitmap)
    requires bm != {}
    ensures BitmapStats(bm).minimum.value <= BitmapStats(bm).maximum.value
  {
  }

  /** The older `stats` agrees with the library's `From<&Index>`: an index
      without properties has an empty root. */
  lemma LegacyStatsAgree(idx: Index)
    ensures LegacyStats(idx) == IndexStats(idx)
  {
    if |idx| == 0 {
      assert idx == map[];
      StatsOfNothing();
    }
  }
}
