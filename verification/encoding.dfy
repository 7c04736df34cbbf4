/**
 * Index encodings. The wire formats are abstract: ndjson is a sequence of
 * lines, each empty or one `{property, values}` record, and bincode is the
 * intermediate list of `(property, bytes)` pairs that bincode serialises.
 * Bitmap (de)serialisation is an abstract codec, assumed to read back what
 * it writes.
 */
module Encoding {
  import opened Wrappers
  import opened Ordering
  import opened Lexer
  import opened Indexes

  /** `Encoder`. */
  datatype Encoder = Json | Bin

  /** The record-level variants of `encoding::Error`. */
  datatype EncodingError =
    | DuplicateProperty(name: string)
    | InvalidProperty(name: string)
    | InvalidBitmap(name: string)
    | UnknownEncoder(name: string)

  /** The names `Encoder::from_str` accepts for each encoder. */
  function EncoderNames(enc: Encoder): set<string> {
    match enc
    case Bin => {"", "bin", "crible"}
    case Json => {"json", "ndjson", "ljson"}
  }

  /** `Encoder::from_str`. */
  function EncoderOf(s: string): (r: Result<Encoder, EncodingError>)
    ensures forall enc :: r == Ok(enc) <==> s in EncoderNames(enc)
    ensures r.Err? ==> r.error == UnknownEncoder(s)
  {
    if s == "" || s == "bin" || s == "crible" then Ok(Bin)
    else if s == "json" || s == "ndjson" || s == "ljson" then Ok(Json)
    else Err(UnknownEncoder(s))
  }

  // ndjson.

  /** `JsonLineRecordIn` / `JsonLineRecordOut`. */
  datatype JsonRecord = JsonRecord(property: string, values: seq<Id>)

  /** One line of an ndjson stream. */
  datatype JsonLine = EmptyLine | RecordLine(record: JsonRecord)

  /** The records of a stream, empty lines dropped. */
  function Records(lines: seq<JsonLine>): (recs: seq<JsonRecord>)
    ensures |recs| <= |lines|
  {
    if lines == [] then []
    else match lines[0]
      case EmptyLine => Records(lines[1..])
      case RecordLine(rec) => [rec] + Records(lines[1..])
  }

  /** A stream with one line per record. */
  function AsLines(recs: seq<JsonRecord>): (lines: seq<JsonLine>)
    ensures |lines| == |recs|
    ensures forall i | 0 <= i < |recs| :: lines[i] == RecordLine(recs[i])
  {
    seq(|recs|, i requires 0 <= i < |recs| => RecordLine(recs[i]))
  }

  /** `decode_ndjson_line`: the property must be a valid name that the
      index does not hold yet. */
  function DecodeNdjsonLine(idx: Index, rec: JsonRecord): (r: Result<Index, EncodingError>)
    ensures r.Ok? <==> ValidatePropertyName(rec.property) && rec.property !in idx
    ensures !ValidatePropertyName(rec.property) ==> r == Err(InvalidProperty(rec.property))
    ensures ValidatePropertyName(rec.property) && rec.property in idx ==>
              r == Err(DuplicateProperty(rec.property))
    ensures r.Ok? ==> r.value == idx[rec.property := IdSet(rec.values)]
  {
    if !ValidatePropertyName(rec.property) then Err(InvalidProperty(rec.property))
    else if rec.property in idx then Err(DuplicateProperty(rec.property))
    else
      assert Get(idx, rec.property) + IdSet(rec.values) == IdSet(rec.values);
      Ok(SetMany(idx, rec.property, rec.values))
  }

  /** The loop of `decode_ndjson`, from a partly built index. */
  function DecodeNdjsonFrom(idx: Index, lines: seq<JsonLine>): (r: Result<Index, EncodingError>)
    decreases |lines|
    ensures r.Ok? ==> idx.Keys <= r.value.Keys && forall p | p in idx :: r.value[p] == idx[p]
    ensures r.Ok? ==> forall p | p in r.value && p !in idx :: ValidatePropertyName(p)
    ensures r.Err? ==> r.error.InvalidProperty? || r.error.DuplicateProperty?
  {
    if lines == [] then Ok(idx)
    else match lines[0]
      case EmptyLine => DecodeNdjsonFrom(idx, lines[1..])
      case RecordLine(rec) =>
        var next :- DecodeNdjsonLine(idx, rec);
        DecodeNdjsonFrom(next, lines[1..])
  }

  /** `decode_ndjson`. */
  function DecodeNdjson(lines: seq<JsonLine>): (r: Result<Index, EncodingError>)
    ensures r.Ok? ==> forall p | p in r.value :: ValidatePropertyName(p)
    ensures r.Err? ==> r.error.InvalidProperty? || r.error.DuplicateProperty?
  {
    DecodeNdjsonFrom(map[], lines)
  }

  /** The same loop over records alone. */
  function DecodeRecords(idx: Index, recs: seq<JsonRecord>): (r: Result<Index, EncodingError>)
    decreases |recs|
  {
    if recs == [] then Ok(idx)
    else
      var next :- DecodeNdjsonLine(idx, recs[0]);
      DecodeRecords(next, recs[1..])
  }

  /** `encode_ndjson`: one record per property, sorted by name (see
      `EncodeNdjsonSorted`), each with its ids in ascending order. */
  function EncodeNdjson(idx: Index): (recs: seq<JsonRecord>)
    ensures |recs| == |idx|
    ensures forall i | 0 <= i < |recs| ::
              recs[i].property in idx && recs[i].values == IdList(idx[recs[i].property])
    ensures forall i, j | 0 <= i < j < |recs| :: Less(recs[i].property, recs[j].property)
  {
    var names := NameList(idx.Keys);
    var recs := JsonRecordsOf(idx, names);
    assert forall i | 0 <= i < |recs| :: recs[i].property == names[i];
    recs
  }

  /** The ndjson records list every property once, in ascending order. */
  lemma EncodeNdjsonSorted(idx: Index)
    ensures forall i, j | 0 <= i < j < |EncodeNdjson(idx)| ::
              Less(EncodeNdjson(idx)[i].property, EncodeNdjson(idx)[j].property)
    ensures forall p | p in idx :: exists i | 0 <= i < |EncodeNdjson(idx)| :: EncodeNdjson(idx)[i].property == p
  {
    var names, recs := NameList(idx.Keys), EncodeNdjson(idx);
    assert forall i | 0 <= i < |recs| :: recs[i].property == names[i];
    forall p | p in idx ensures exists i | 0 <= i < |recs| :: recs[i].property == p {
      var i :| 0 <= i < |names| && names[i] == p;
    }
  }

  /** The ndjson records of the listed properties, in the listed order. */
  function JsonRecordsOf(idx: Index, names: seq<string>): (recs: seq<JsonRecord>)
    requires forall i | 0 <= i < |names| :: names[i] in idx
    ensures |recs| == |names|
    ensures forall i | 0 <= i < |recs| ::
              recs[i].property == names[i] && recs[i].values == IdList(idx[names[i]])
    decreases |names|
  {
    if names == [] then []
    else
      [JsonRecord(names[0], IdList(idx[names[0]]))] + JsonRecordsOf(idx, names[1..])
  }

  /** The records a decoder accepts from a start with keys `seen`: valid
      names, none already present, none repeated. */
  predicate Acceptable(seen: set<string>, recs: seq<JsonRecord>) {
    && (forall i | 0 <= i < |recs| ::
          ValidatePropertyName(recs[i].property) && recs[i].property !in seen)
    && (forall i, j | 0 <= i < j < |recs| :: recs[i].property != recs[j].property)
  }

  /** The names of a list of records. */
  function PropertiesOf(recs: seq<JsonRecord>): (ps: set<string>)
    ensures forall p :: p in ps <==> exists i | 0 <= i < |recs| :: recs[i].property == p
  {
    set i | 0 <= i < |recs| :: recs[i].property
  }

  lemma AcceptableCons(seen: set<string>, recs: seq<JsonRecord>)
    requires |recs| > 0
    ensures Acceptable(seen, recs) <==>
              && ValidatePropertyName(recs[0].property) && recs[0].property !in seen
              && Acceptable(seen + {recs[0].property}, recs[1..])
  {
    var p, rest := recs[0].property, recs[1..];
    if ValidatePropertyName(p) && p !in seen && Acceptable(seen + {p}, rest) {
      forall i, j | 0 <= i < j < |recs| ensures recs[i].property != recs[j].property {
        if i > 0 { assert recs[i] == rest[i - 1] && recs[j] == rest[j - 1]; }
        else { assert recs[j] == rest[j - 1]; }
      }
      forall i | 0 <= i < |recs|
        ensures ValidatePropertyName(recs[i].property) && recs[i].property !in seen
      {
        if i > 0 { assert recs[i] == rest[i - 1]; }
      }
    }
    if Acceptable(seen, recs) {
      forall i | 0 <= i < |rest| ensures rest[i].property != p {
        assert rest[i] == recs[i + 1];
      }
      forall i, j | 0 <= i < j < |rest| ensures rest[i].property != rest[j].property {
        assert rest[i] == recs[i + 1] && rest[j] == recs[j + 1];
      }
    }
  }

  /** Empty lines are skipped. */
  lemma {:induction false} EmptyLinesSkipped(idx: Index, lines: seq<JsonLine>)
    ensures DecodeNdjsonFrom(idx, lines) == DecodeRecords(idx, Records(lines))
    decreases |lines|
  {
    if lines != [] {
      match lines[0]
      case EmptyLine =>
        EmptyLinesSkipped(idx, lines[1..]);
      case RecordLine(rec) =>
        var recs := [rec] + Records(lines[1..]);
        assert recs[0] == rec && recs[1..] == Records(lines[1..]);
        var step := DecodeNdjsonLine(idx, rec);
        if step.Ok? {
          EmptyLinesSkipped(step.value, lines[1..]);
        }
    }
  }

  /** Decoding records succeeds exactly on acceptable records, and then
      adds each record's ids under its name and nothing else. */
  lemma {:induction false} DecodeRecordsMeaning(idx: Index, recs: seq<JsonRecord>)
    ensures DecodeRecords(idx, recs).Ok? <==> Acceptable(idx.Keys, recs)
    ensures DecodeRecords(idx, recs).Ok? ==>
              var out := DecodeRecords(idx, recs).value;
              && out.Keys == idx.Keys + PropertiesOf(recs)
              && (forall p | p in idx :: out[p] == idx[p])
              && (forall i | 0 <= i < |recs| :: out[recs[i].property] == IdSet(recs[i].values))
    decreases |recs|
  {
    if recs != [] {
      var p, rest := recs[0].property, recs[1..];
      AcceptableCons(idx.Keys, recs);
      if ValidatePropertyName(p) && p !in idx {
        var next := idx[p := IdSet(recs[0].values)];
        assert next.Keys == idx.Keys + {p};
        DecodeRecordsMeaning(next, rest);
        if DecodeRecords(idx, recs).Ok? {
          DecodedCons(idx, recs, DecodeRecords(idx, recs).value);
        }
      }
    }
  }

  lemma DecodedCons(idx: Index, recs: seq<JsonRecord>, out: Index)
    requires |recs| > 0 && recs[0].property !in idx
    requires var next := idx[recs[0].property := IdSet(recs[0].values)];
             && out.Keys == next.Keys + PropertiesOf(recs[1..])
             && (forall p | p in next :: out[p] == next[p])
             && (forall i | 0 <= i < |recs[1..]| :: out[recs[1..][i].property] == IdSet(recs[1..][i].values))
    ensures out.Keys == idx.Keys + PropertiesOf(recs)
    ensures forall p | p in idx :: out[p] == idx[p]
    ensures forall i | 0 <= i < |recs| :: out[recs[i].property] == IdSet(recs[i].values)
  {
    var rest := recs[1..];
    forall i | 0 <= i < |recs| ensures out[recs[i].property] == IdSet(recs[i].values) {
      if i > 0 { assert recs[i] == rest[i - 1]; }
    }
    forall q ensures q in PropertiesOf(recs) <==> q == recs[0].property || q in PropertiesOf(rest) {
      if q in PropertiesOf(recs) && q != recs[0].property {
        var i :| 0 <= i < |recs| && recs[i].property == q;
        assert rest[i - 1] == recs[i];
      }
      if q in PropertiesOf(rest) {
        var i :| 0 <= i < |rest| && rest[i].property == q;
        assert recs[i + 1] == rest[i];
      }
    }
  }

  /** Properties are sorted, so no two records share a name. */
  lemma NamesDistinct(recs: seq<JsonRecord>)
    requires forall i, j | 0 <= i < j < |recs| :: Less(recs[i].property, recs[j].property)
    ensures forall i, j | 0 <= i < j < |recs| :: recs[i].property != recs[j].property
  {
    forall i, j | 0 <= i < j < |recs| ensures recs[i].property != recs[j].property {
      if recs[i].property == recs[j].property {
        LessIrreflexive(recs[i].property);
      }
    }
  }

  /** Decoding a stream holding one line per record reads those records. */
  lemma RecordsOfLines(recs: seq<JsonRecord>)
    ensures Records(AsLines(recs)) == recs
    decreases |recs|
  {
    if recs != [] {
      assert AsLines(recs)[1..] == AsLines(recs[1..]);
      RecordsOfLines(recs[1..]);
    }
  }

  /** ndjson round trip: an index whose names are all valid decodes back
      from its encoding. */
  lemma NdjsonRoundTrip(idx: Index)
    requires forall p | p in idx :: ValidatePropertyName(p)
    ensures DecodeNdjson(AsLines(EncodeNdjson(idx))) == Ok(idx)
  {
    var recs := EncodeNdjson(idx);
    RecordsOfLines(recs);
    EmptyLinesSkipped(map[], AsLines(recs));
    EncodedListsIndex(idx);
    EncodedDecodes(idx, recs);
  }

  /** The ndjson records list each property once with its ids. */
  predicate ListsIndex(idx: Index, recs: seq<JsonRecord>) {
    && (forall i | 0 <= i < |recs| ::
          recs[i].property in idx && IdSet(recs[i].values) == idx[recs[i].property])
    && (forall i, j | 0 <= i < j < |recs| :: recs[i].property != recs[j].property)
    && (forall p | p in idx :: exists i | 0 <= i < |recs| :: recs[i].property == p)
  }

  lemma EncodedListsIndex(idx: Index)
    ensures ListsIndex(idx, EncodeNdjson(idx))
  {
    var recs := EncodeNdjson(idx);
    EncodeNdjsonSorted(idx);
    NamesDistinct(recs);
    forall i | 0 <= i < |recs| ensures IdSet(recs[i].values) == idx[recs[i].property] {
      IdSetOfList(idx[recs[i].property]);
    }
  }

  /** Records that list an index with valid names decode to it. */
  lemma EncodedDecodes(idx: Index, recs: seq<JsonRecord>)
    requires forall p | p in idx :: ValidatePropertyName(p)
    requires ListsIndex(idx, recs)
    ensures DecodeRecords(map[], recs) == Ok(idx)
  {
    assert Acceptable({}, recs);
    DecodeRecordsMeaning(map[], recs);
    var out := DecodeRecords(map[], recs).value;
    assert out.Keys == idx.Keys by {
      forall p | p in idx ensures p in PropertiesOf(recs) {
        var i :| 0 <= i < |recs| && recs[i].property == p;
      }
    }
    forall p | p in idx ensures out[p] == idx[p] {
      var i :| 0 <= i < |recs| && recs[i].property == p;
    }
    SameIndex(out, idx);
  }

  /** Two indexes with the same names and the same bitmaps are equal. */
  lemma SameIndex(a: Index, b: Index)
    requires a.Keys == b.Keys && forall p | p in b :: a[p] == b[p]
    ensures a == b
  {
  }

  /** An empty index encodes to no lines, and a stream with no record
      decodes to the empty index. */
  lemma NdjsonEmpty(idx: Index, lines: seq<JsonLine>)
    requires forall i | 0 <= i < |lines| :: lines[i] == EmptyLine
    ensures EncodeNdjson(idx) == [] <==> idx == map[]
    ensures DecodeNdjson(lines) == Ok(map[])
  {
    if idx != map[] {
      var p :| p in idx;
      assert |idx| > 0;
    }
    assert Records(lines) == [] by { NoRecords(lines); }
    EmptyLinesSkipped(map[], lines);
  }

  lemma {:induction false} NoRecords(lines: seq<JsonLine>)
    requires forall i | 0 <= i < |lines| :: lines[i] == EmptyLine
    ensures Records(lines) == []
    decreases |lines|
  {
    if lines != [] {
      NoRecords(lines[1..]);
    }
  }

  /** A repeated valid property is refused, whatever precedes it. */
  lemma NdjsonDuplicate(recs: seq<JsonRecord>, i: nat, j: nat)
    requires i < j < |recs| && recs[i].property == recs[j].property
    ensures DecodeNdjson(AsLines(recs)).Err?
  {
    RecordsOfLines(recs);
    EmptyLinesSkipped(map[], AsLines(recs));
    DecodeRecordsMeaning(map[], recs);
  }

  // bincode.

  type Byte = x: int | 0 <= x < 256

  /** One element of `BincodeIntermediate`. */
  datatype BinRecord = BinRecord(property: string, bytes: seq<Byte>)

  /** croaring's `serialize` and `try_deserialize`. */
  datatype BitmapCodec = BitmapCodec(serialize: Bitmap -> seq<Byte>, deserialize: seq<Byte> -> Option<Bitmap>)

  /** The codec reads back every bitmap it writes. */
  ghost predicate Lawful(codec: BitmapCodec) {
    forall bm :: codec.deserialize(codec.serialize(bm)) == Some(bm)
  }

  /** `decode_bincode_intermediate`, from a partly built index: a repeated
      property is refused before its bytes are read. */
  function DecodeBincodeFrom(codec: BitmapCodec, idx: Index, recs: seq<BinRecord>): (r: Result<Index, EncodingError>)
    decreases |recs|
    ensures r.Ok? ==> idx.Keys <= r.value.Keys && forall p | p in idx :: r.value[p] == idx[p]
    ensures r.Err? ==> r.error.DuplicateProperty? || r.error.InvalidBitmap?
    ensures r.Err? && r.error.InvalidBitmap? ==> r.error.name !in idx
  {
    if recs == [] then Ok(idx)
    else
      var p := recs[0].property;
      if p in idx then Err(DuplicateProperty(p))
      else match codec.deserialize(recs[0].bytes)
        case None => Err(InvalidBitmap(p))
        case Some(bm) => DecodeBincodeFrom(codec, idx[p := bm], recs[1..])
  }

  function DecodeBincode(codec: BitmapCodec, recs: seq<BinRecord>): (r: Result<Index, EncodingError>)
    ensures r.Err? ==> r.error.DuplicateProperty? || r.error.InvalidBitmap?
  {
    DecodeBincodeFrom(codec, map[], recs)
  }

  /** `encode_bincode_intermediate`: one record per property, sorted by
      name (see `EncodeBincodeSorted`), holding the serialised bitmap. */
  function EncodeBincode(codec: BitmapCodec, idx: Index): (recs: seq<BinRecord>)
    ensures |recs| == |idx|
    ensures forall i | 0 <= i < |recs| ::
              recs[i].property in idx && recs[i].bytes == codec.serialize(idx[recs[i].property])
    ensures forall i, j | 0 <= i < j < |recs| :: Less(recs[i].property, recs[j].property)
  {
    var names := NameList(idx.Keys);
    var recs := BinRecordsOf(codec, idx, names);
    assert forall i | 0 <= i < |recs| :: recs[i].property == names[i];
    recs
  }

  /** The bincode records list every property once, in ascending order. */
  lemma EncodeBincodeSorted(codec: BitmapCodec, idx: Index)
    ensures forall i, j | 0 <= i < j < |EncodeBincode(codec, idx)| ::
              Less(EncodeBincode(codec, idx)[i].property, EncodeBincode(codec, idx)[j].property)
    ensures forall p | p in idx ::
              exists i | 0 <= i < |EncodeBincode(codec, idx)| :: EncodeBincode(codec, idx)[i].property == p
  {
    var names, recs := NameList(idx.Keys), EncodeBincode(codec, idx);
    assert forall i | 0 <= i < |recs| :: recs[i].property == names[i];
    forall p | p in idx ensures exists i | 0 <= i < |recs| :: recs[i].property == p {
      var i :| 0 <= i < |names| && names[i] == p;
    }
  }

  /** The bincode records of the listed properties, in the listed order. */
  function BinRecordsOf(codec: BitmapCodec, idx: Index, names: seq<string>): (recs: seq<BinRecord>)
    requires forall i | 0 <= i < |names| :: names[i] in idx
    ensures |recs| == |names|
    ensures forall i | 0 <= i < |recs| ::
              recs[i].property == names[i] && recs[i].bytes == codec.serialize(idx[names[i]])
    decreases |names|
  {
    if names == [] then []
    else [BinRecord(names[0], codec.serialize(idx[names[0]]))] + BinRecordsOf(codec, idx, names[1..])
  }

  /** The records the bincode decoder accepts from a start with keys
      `seen`: readable bytes, no name already present or repeated. */
  predicate Readable(codec: BitmapCodec, seen: set<string>, recs: seq<BinRecord>) {
    && (forall i | 0 <= i < |recs| ::
          codec.deserialize(recs[i].bytes).Some? && recs[i].property !in seen)
    && (forall i, j | 0 <= i < j < |recs| :: recs[i].property != recs[j].property)
  }

  lemma ReadableCons(codec: BitmapCodec, seen: set<string>, recs: seq<BinRecord>)
    requires |recs| > 0
    ensures Readable(codec, seen, recs) <==>
              && codec.deserialize(recs[0].bytes).Some? && recs[0].property !in seen
              && Readable(codec, seen + {recs[0].property}, recs[1..])
  {
    var p, rest := recs[0].property, recs[1..];
    if codec.deserialize(recs[0].bytes).Some? && p !in seen && Readable(codec, seen + {p}, rest) {
      forall i, j | 0 <= i < j < |recs| ensures recs[i].property != recs[j].property {
        if i > 0 { assert recs[i] == rest[i - 1] && recs[j] == rest[j - 1]; }
        else { assert recs[j] == rest[j - 1]; }
      }
      forall i | 0 <= i < |recs|
        ensures codec.deserialize(recs[i].bytes).Some? && recs[i].property !in seen
      {
        if i > 0 { assert recs[i] == rest[i - 1]; }
      }
    }
    if Readable(codec, seen, recs) {
      forall i | 0 <= i < |rest| ensures rest[i].property != p {
        assert rest[i] == recs[i + 1];
      }
      forall i, j | 0 <= i < j < |rest| ensures rest[i].property != rest[j].property {
        assert rest[i] == recs[i + 1] && rest[j] == recs[j + 1];
      }
    }
  }

  /** Bincode decoding succeeds exactly on readable records, and then
      adds each record's bitmap under its name and nothing else. */
  lemma {:induction false} DecodeBincodeMeaning(codec: BitmapCodec, idx: Index, recs: seq<BinRecord>)
    ensures DecodeBincodeFrom(codec, idx, recs).Ok? <==> Readable(codec, idx.Keys, recs)
    ensures DecodeBincodeFrom(codec, idx, recs).Ok? ==>
              var out := DecodeBincodeFrom(codec, idx, recs).value;
              && out.Keys == idx.Keys + (set i | 0 <= i < |recs| :: recs[i].property)
              && (forall p | p in idx :: out[p] == idx[p])
              && (forall i | 0 <= i < |recs| :: Some(out[recs[i].property]) == codec.deserialize(recs[i].bytes))
    decreases |recs|
  {
    if recs != [] {
      var p, rest := recs[0].property, recs[1..];
      ReadableCons(codec, idx.Keys, recs);
      if p !in idx && codec.deserialize(recs[0].bytes).Some? {
        var next := idx[p := codec.deserialize(recs[0].bytes).value];
        var r := DecodeBincodeFrom(codec, idx, recs);
        assert r == DecodeBincodeFrom(codec, next, rest);
        assert next.Keys == idx.Keys + {p};
        DecodeBincodeMeaning(codec, next, rest);
        if r.Ok? {
          DecodedBinCons(codec, idx, recs, r.value);
        }
      }
    }
  }

  lemma DecodedBinCons(codec: BitmapCodec, idx: Index, recs: seq<BinRecord>, out: Index)
    requires |recs| > 0 && recs[0].property !in idx && codec.deserialize(recs[0].bytes).Some?
    requires var next := idx[recs[0].property := codec.deserialize(recs[0].bytes).value];
             var rest := recs[1..];
             && out.Keys == next.Keys + (set i | 0 <= i < |rest| :: rest[i].property)
             && (forall p | p in next :: out[p] == next[p])
             && (forall i | 0 <= i < |rest| :: Some(out[rest[i].property]) == codec.deserialize(rest[i].bytes))
    ensures out.Keys == idx.Keys + (set i | 0 <= i < |recs| :: recs[i].property)
    ensures forall p | p in idx :: out[p] == idx[p]
    ensures forall i | 0 <= i < |recs| :: Some(out[recs[i].property]) == codec.deserialize(recs[i].bytes)
  {
    var rest := recs[1..];
    forall i | 0 <= i < |recs| ensures Some(out[recs[i].property]) == codec.deserialize(recs[i].bytes) {
      if i > 0 { assert recs[i] == rest[i - 1]; }
    }
    var all := set i | 0 <= i < |recs| :: recs[i].property;
    var tail := set i | 0 <= i < |rest| :: rest[i].property;
    forall q ensures q in all <==> q == recs[0].property || q in tail {
      if q in all && q != recs[0].property {
        var i :| 0 <= i < |recs| && recs[i].property == q;
        assert rest[i - 1] == recs[i];
      }
      if q in tail {
        var i :| 0 <= i < |rest| && rest[i].property == q;
        assert recs[i + 1] == rest[i];
      }
    }
  }

  /** Bincode round trip: with a lawful codec every index decodes back
      from its encoding. */
  lemma BincodeRoundTrip(codec: BitmapCodec, idx: Index)
    requires Lawful(codec)
    ensures DecodeBincode(codec, EncodeBincode(codec, idx)) == Ok(idx)
  {
    var recs := EncodeBincode(codec, idx);
    BinEncodedReadable(codec, idx);
    DecodeBincodeMeaning(codec, map[], recs);
    var out := DecodeBincodeFrom(codec, map[], recs).value;
    BinEncodedProperties(codec, idx);
    BinEncodedValues(codec, idx, out);
    SameIndex(out, idx);
  }

  lemma BinEncodedReadable(codec: BitmapCodec, idx: Index)
    requires Lawful(codec)
    ensures Readable(codec, {}, EncodeBincode(codec, idx))
  {
    var recs := EncodeBincode(codec, idx);
    EncodeBincodeSorted(codec, idx);
    forall i, j | 0 <= i < j < |recs| ensures recs[i].property != recs[j].property {
      if recs[i].property == recs[j].property {
        LessIrreflexive(recs[i].property);
      }
    }
  }

  lemma BinEncodedProperties(codec: BitmapCodec, idx: Index)
    ensures (set i | 0 <= i < |EncodeBincode(codec, idx)| :: EncodeBincode(codec, idx)[i].property) == idx.Keys
  {
    var recs := EncodeBincode(codec, idx);
    EncodeBincodeSorted(codec, idx);
    var ps := set i | 0 <= i < |recs| :: recs[i].property;
    forall p | p in idx ensures p in ps {
      var i :| 0 <= i < |recs| && recs[i].property == p;
    }
  }

  lemma BinEncodedValues(codec: BitmapCodec, idx: Index, out: Index)
    requires Lawful(codec) && out.Keys == idx.Keys
    requires forall i | 0 <= i < |EncodeBincode(codec, idx)| ::
               Some(out[EncodeBincode(codec, idx)[i].property]) == codec.deserialize(EncodeBincode(codec, idx)[i].bytes)
    ensures forall p | p in idx :: out[p] == idx[p]
  {
    var recs := EncodeBincode(codec, idx);
    EncodeBincodeSorted(codec, idx);
    forall p | p in idx ensures out[p] == idx[p] {
      var i :| 0 <= i < |recs| && recs[i].property == p;
    }
  }

  /** Decoding reads the records in order: when every record before `j`
      is accepted, record `j` is refused as a duplicate if its name is
      already taken, whatever its bytes, and otherwise as an invalid
      bitmap if its bytes do not read. */
  lemma {:induction false} BincodeStopsAt(codec: BitmapCodec, idx: Index, recs: seq<BinRecord>, j: nat)
    requires j < |recs| && Readable(codec, idx.Keys, recs[..j])
    ensures var p := recs[j].property;
            (p in idx || exists i | 0 <= i < j :: recs[i].property == p) ==>
              DecodeBincodeFrom(codec, idx, recs) == Err(DuplicateProperty(p))
    ensures var p := recs[j].property;
            (p !in idx && (forall i | 0 <= i < j :: recs[i].property != p)
             && codec.deserialize(recs[j].bytes).None?) ==>
              DecodeBincodeFrom(codec, idx, recs) == Err(InvalidBitmap(p))
    decreases j
  {
    if j > 0 {
      var prefix, rest := recs[..j], recs[1..];
      ReadableCons(codec, idx.Keys, prefix);
      assert prefix[0] == recs[0] && prefix[1..] == rest[..j - 1];
      var q := recs[0].property;
      var next := idx[q := codec.deserialize(recs[0].bytes).value];
      assert next.Keys == idx.Keys + {q};
      BincodeStopsAt(codec, next, rest, j - 1);
      assert rest[j - 1] == recs[j];
      assert forall i | 1 <= i < j :: recs[i] == rest[i - 1];
      if exists i | 0 <= i < j :: recs[i].property == recs[j].property {
        var i :| 0 <= i < j && recs[i].property == recs[j].property;
        if i > 0 { assert rest[i - 1].property == recs[j].property; }
      }
    }
  }

  /** A record whose bytes the codec cannot read is refused, naming its
      property, when it is the first record that is not accepted. */
  lemma BincodeInvalidBitmap(codec: BitmapCodec, recs: seq<BinRecord>, j: nat)
    requires j < |recs| && Readable(codec, {}, recs[..j])
    requires forall i | 0 <= i < j :: recs[i].property != recs[j].property
    requires codec.deserialize(recs[j].bytes).None?
    ensures DecodeBincode(codec, recs) == Err(InvalidBitmap(recs[j].property))
  {
    BincodeStopsAt(codec, map[], recs, j);
  }

  /** A property repeated after accepted records is refused as a
      duplicate, before its bytes are read. */
  lemma BincodeDuplicateNamed(codec: BitmapCodec, recs: seq<BinRecord>, i: nat, j: nat)
    requires i < j < |recs| && recs[i].property == recs[j].property
    requires Readable(codec, {}, recs[..j])
    ensures DecodeBincode(codec, recs) == Err(DuplicateProperty(recs[j].property))
  {
    BincodeStopsAt(codec, map[], recs, j);
  }

  /** A repeated property is refused. */
  lemma BincodeDuplicate(codec: BitmapCodec, recs: seq<BinRecord>, i: nat, j: nat)
    requires i < j < |recs| && recs[i].property == recs[j].property
    ensures DecodeBincode(codec, recs).Err?
  {
    DecodeBincodeMeaning(codec, map[], recs);
  }
}
