# crible query engine, modelled in Dafny

crible is an index of named bitmaps ("properties"), each holding a set of
`u32` element ids, plus a small boolean query language over them. This
project models the engine of the repository as pure Dafny functions and
proves what its code and its tests promise:

- **Index** (`Indexes`, `Queries`): the `Index` map from property name to
  bitmap. Its operations are point and bulk updates of bits, per-id listing
  and rewriting of properties, query execution, per-property intersection
  counts and `Stats`. The model follows the library crate
  (crible-lib/src/index.rs). The older server crate's `Index` (src/index.rs)
  is a subset of it:
  - `set`, `set_many`, `unset`, `unset_many`, `get_properties_with_bit`,
    `execute` and `cardinalities` have the same bodies.
  - Its bulk clear is named `unset_all_bits` and has the body of the
    library's `unset_all`.
  - It has no `set_all`, `Index::of` or `inner`.
  - Its `set_properties_with_bit` takes `&[String]` instead of any
    `T: AsRef<str>`. Both compare names as strings, so the model covers
    both.
  - Its `stats` is modelled on its own, as `Indexes.LegacyStats`.
- **Query grammar** (`Lexer`, `Expressions`, `Parser`, `RoundTrip`): the
  library's nom grammar with flattened n-ary `and`/`or`/`xor`/`-`, the
  canonical `serialize`, and the `&`/`|`/`^`/`-`/`!` builders.
- **Index test cases** (`IndexCases`): the library's query tests on a
  three-property index, each derived from the meaning of execution.
- **Builder semantics** (`Algebra`): what the flattening builders mean once
  executed.
- **Older grammar** (`LegacyExpressions`, `LegacyParser`,
  `LegacyRoundTrip`): the server crate's strictly binary grammar, in which
  `not` is kept as written.
- **Encodings** (`Encoding`): encoder names, and the record level of the
  ndjson and bincode index formats.
- **Facet evaluator** (`BitmapExpressions`): the older server's
  `apply_expression` over `boolean_expression::Expr`, and `to_sqlite_filter`.

Modelling choices:

- A croaring `Bitmap` is a `set<Id>`, where `Id` is the `u32` range.
- An `Index` is a `map<string, Bitmap>`.
- Every `&mut self` operation is a function from the old index to the new
  one, paired with the flag the source returns.
- A nom parser is a function from the remaining input to `Matched(value,
  rest)`, `NoMatch` (a recoverable error, so `alt` tries the next branch) or
  `Failure` (an error raised under `cut`).
- Input length is measured in UTF-8 bytes, as Rust's `str::len` does.
- The four n-ary operator variants share one `Node(op, children)`
  constructor. The three binary variants of the older grammar share one
  `Binary(op, lhs, rhs)`.

Two facts about execution shape the model:

- Executing a query that names an unknown property fails with
  `PropertyDoesNotExist` (crible-lib/src/index.rs:365-368).
- The older `src/index.rs` executes the n-ary expression type: it indexes
  `inner[0]` and handles `Sub`, which the older binary `src/expression.rs`
  does not define. Its `execute` is therefore modelled by the library's
  `Queries.Execute`.

## Model

| member | source | states |
|---|---|---|
| Indexes.RootOf | crible-lib/src/index.rs:82-103 | the root contains every property's bitmap and nothing that no property holds |
| Indexes.Set | crible-lib/src/index.rs:130-147 | returns true exactly when the bit was not set (a missing property counts as empty); the property exists afterwards and holds the bit; no other property and no other bit changes |
| Indexes.SetReportsChange | src/index.rs:72-77 | the flag `set` returns is true exactly when the index changed |
| Indexes.SetIdempotent | crible-lib/src/index.rs:137-138 | setting a bit a second time returns false and changes nothing |
| Indexes.SetMany | crible-lib/src/index.rs:149-165 | the property afterwards holds its old ids plus the listed ones and is created if missing; other properties are untouched |
| Indexes.SetAll | crible-lib/src/index.rs:167-189 | every existing property gains the listed ids; no property is created |
| Indexes.RootAfterSetAll | crible-lib/src/index.rs:184-189 | on a non-empty index the root gains exactly the listed ids |
| Indexes.Unset | crible-lib/src/index.rs:191-206 | returns true exactly when the property exists and held the bit; never creates a property; the bit is gone afterwards; nothing else changes |
| Indexes.UnsetReportsChange | src/index.rs:86-88 | the flag `unset` returns is true exactly when the index changed |
| Indexes.UnsetUndoesSet | crible-lib/src/index.rs:196-202 | on an existing property without the bit, `unset` after `set` restores the index and returns true |
| Indexes.UnsetMany | crible-lib/src/index.rs:208-224 | an existing property loses exactly the listed ids; the key set and other properties are unchanged |
| Indexes.UnsetManyMissing | crible-lib/src/index.rs:220-224 | `unset_many` on a missing property leaves the index unchanged |
| Indexes.UnsetAll | crible-lib/src/index.rs:226-248 | every property loses exactly the listed ids; the key set is unchanged |
| Indexes.RootAfterUnsetAll | src/index.rs:96-101 | removing ids from every property removes exactly those ids from the root |
| Indexes.RootAfterSet | crible-lib/src/index.rs:142-147 | after `set` the root is the old root plus the new id |
| Indexes.GetPropertiesWithBit | crible-lib/src/index.rs:252-280 | the result is strictly ascending and lists exactly the properties holding the bit |
| Indexes.SetPropertiesWithBit | crible-lib/src/index.rs:282-311 | each existing property holds the bit exactly when it is listed; no property is created; no other bit changes |
| Indexes.SetPropertiesWithBitReportsChange | src/index.rs:122-134 | the flag returned is true exactly when some bitmap changed |
| Indexes.SetThenGetPropertiesWithBit | crible-lib/src/index.rs:295-296 | listing the bit after rewriting it gives exactly the listed names the index has |
| Indexes.SetPropertiesWithBitIdempotent | crible-lib/src/index.rs:298-311 | rewriting the same list a second time returns false and changes nothing |
| Indexes.Cardinalities | crible-lib/src/index.rs:431-466 | a property is reported exactly when its name starts with the prefix (any name without one) and its intersection with the source is non-empty; the count is that intersection's size |
| Indexes.CardinalitiesNarrow | crible-lib/src/index.rs:421-429 | the prefixed counts are the unprefixed counts restricted to the matching names |
| Indexes.CardinalitiesEmptyPrefix | crible-lib/src/index.rs:436-450 | the empty prefix selects every property |
| Indexes.CardinalitiesOfRoot | crible-lib/src/index.rs:455-466 | counting against the root reports every non-empty property with its own size |
| Indexes.BitmapStats | crible-lib/src/index.rs:484-505 | cardinality is the size; minimum and maximum are absent exactly for the empty bitmap and are otherwise the least and greatest id |
| Indexes.IndexStats | crible-lib/src/index.rs:507-517 | an index's statistics are those of its root: its number of ids, and its least and greatest id, both absent exactly when the root is empty |
| Indexes.StatsOfNothing | crible-lib/src/index.rs:563-566 | an empty bitmap and an empty index both give the default statistics |
| Indexes.StatsOrdered | crible-lib/src/index.rs:497-505 | the minimum never exceeds the maximum |
| Indexes.LegacyStats | src/index.rs:44-50 | an index without properties gives the default statistics, and every index gets the statistics of its root, the same as the library's `From<&Index>` |
| Indexes.LegacyStatsAgree | src/index.rs:44-50 | the older `stats` equals the library's `From<&Index>` on every index |
| Ordering.NameList | crible-lib/src/index.rs:277-279 | the sorted listing of a set of names is strictly ascending and holds exactly that set |
| Ordering.IdList | crible-lib/src/encoding.rs:149-152 | a bitmap's `to_vec` is strictly ascending and holds exactly its ids |
| Ordering.LessTransitive | crible-lib/src/encoding.rs:146-147 | the order names are sorted by is transitive |
| Ordering.LessTotal | crible-lib/src/encoding.rs:146-147 | any two distinct names are ordered one way or the other |
| Ordering.Least | crible-lib/src/index.rs:501 | the least id is in the bitmap and below every other |
| Ordering.Greatest | crible-lib/src/index.rs:502 | the greatest id is in the bitmap and above every other |
| Queries.ExecuteMeaning | crible-lib/src/index.rs:362-401 | `execute` fails exactly when the query names a missing property, and then reports the first such property left to right; otherwise it returns exactly the ids of the index the query holds for (`*` all, `and` all operands, `or` some, `xor` an odd number, `-` the first and no other, `not` the root minus the operand) |
| Queries.Execute | crible-lib/src/index.rs:362-401 | succeeds exactly when every property the query names is in the index; otherwise the error is `PropertyDoesNotExist` of the first missing property left to right |
| Queries.ExecuteAllMeaning | crible-lib/src/index.rs:377-383 | executing operands in order fails at the first missing property; otherwise each result denotes its operand |
| Queries.NodeMeaning | src/index.rs:145-173 | combining the operands' results gives exactly the ids the n-ary node holds for |
| Queries.IntersectionMeaning | crible-lib/src/index.rs:369-376 | the `and_inplace` fold keeps exactly the ids in the first bitmap and every later one |
| Queries.DifferenceMeaning | crible-lib/src/index.rs:391-397 | the `andnot_inplace` fold keeps exactly the ids of the first bitmap that no later one holds |
| Queries.UnionMeaning | crible-lib/src/index.rs:377-383 | `fast_or` holds exactly the ids some bitmap holds |
| Queries.SymmetricDifferenceMeaning | crible-lib/src/index.rs:384-390 | `fast_xor` holds exactly the ids an odd number of bitmaps hold |
| IndexCases.SampleRoot | crible-lib/src/index.rs:539 | on the test index, `*` executes to the ids 1 to 9 |
| IndexCases.PropertiesHold | crible-lib/src/index.rs:554-558 | `foo`, `bar` and `baz` of the test index hold for their listed ids |
| IndexCases.NotFoo | crible-lib/src/index.rs:541 | `not foo` executes to 5, 6, 7, 8 |
| IndexCases.FooAndNotBar | crible-lib/src/index.rs:547 | `foo and not bar` executes to 2, 4, 9 |
| IndexCases.FooXorBar | crible-lib/src/index.rs:546 | `foo xor bar` executes to 2, 4, 5, 6, 7, 9 |
| IndexCases.ParsedFooXorBar | crible-lib/src/index.rs:546-559 | the text `foo xor bar` parses to the two-operand `xor` node, and executing the parsed query gives 2, 4, 5, 6, 7, 9 |
| IndexCases.BazMinusFooMinusBar | crible-lib/src/index.rs:552 | `baz - foo - bar` executes to 8 |
| IndexCases.NestedDefined | crible-lib/src/index.rs:551 | every property `foo - (bar and baz) - (foo xor bar)` names is in the test index |
| IndexCases.NestedHolds | crible-lib/src/index.rs:551 | `foo - (bar and baz) - (foo xor bar)` holds exactly for 1 and 3 |
| IndexCases.NestedSubtraction | crible-lib/src/index.rs:551 | `foo - (bar and baz) - (foo xor bar)` executes to 1, 3 |
| IndexCases.UnknownProperty | crible-lib/src/index.rs:337-339 | a query naming a property the index lacks fails with `PropertyDoesNotExist` naming it, even inside an `or` |
| IndexCases.ExecutesTo | crible-lib/src/index.rs:362-401 | a query with no missing property executes to the set of exactly the ids it holds for |
| Lexer.ParseProperty | crible-lib/src/expression.rs:53-76 | a match is a valid name that is a prefix of the input and is not followed by a name character |
| Lexer.ValidatePropertyName | crible-lib/src/expression.rs:78-80 | accepts exactly a letter followed by letters, digits or `_-./:`, other than `not`/`and`/`xor`/`or` in any case |
| Lexer.ValidNameParsesWhole | crible-lib/src/expression.rs:360-383 | `parse_property` consumes the whole input exactly when the input is a valid name |
| Lexer.PropertyOfName | crible-lib/src/expression.rs:53-76 | a valid name followed by a non-name character parses as that name with the rest left over |
| Lexer.IsKeywordLower | crible-lib/src/expression.rs:72 | the keyword test is membership of the lower-cased name in the keyword list |
| Lexer.SkipSpace | crible-lib/src/expression.rs:160-170 | `multispace0` drops exactly the leading whitespace |
| Lexer.TagNoCase | crible-lib/src/expression.rs:95-96 | matches exactly when the keyword is a case-insensitive prefix, consuming its length |
| Lexer.Utf8Len | crible-lib/src/expression.rs:231 | the byte length of the input lies between its number of characters and four times that |
| Parser.ParseInverted | crible-lib/src/expression.rs:134-139 | a match produces a parsable expression from strictly less input |
| Parser.NotPrefix | crible-lib/src/expression.rs:135-136 | the prefix matches exactly `not` in any case followed by whitespace, or `!`; it consumes input and never fails |
| Parser.ParseWrapped | crible-lib/src/expression.rs:141-153 | the rule applies only at a `(`; a match is parsable from strictly less input |
| Parser.ParseTerm | crible-lib/src/expression.rs:155-157 | the rule applies only at a letter, `(` or `!`; a match is parsable from strictly less input |
| Parser.RepeatOnce | crible-lib/src/expression.rs:93-100 | a repetition applies only at whitespace; a match is parsable from strictly less input |
| Parser.Alternatives | crible-lib/src/expression.rs:159-171 | the `alt` of operations and term applies exactly when the term rule applies, hence only at a letter, `(` or `!` |
| Parser.ParseMany | crible-lib/src/expression.rs:93-112 | `many1` of the repeated operator never mismatches silently, and every operand it returns is parsable |
| Parser.ParseOperation | crible-lib/src/expression.rs:102-132 | a match is a node of that operator, parsable, from strictly less input |
| Parser.ParseSubexpression | crible-lib/src/expression.rs:159-171 | under `cut`, the rule either matches a parsable expression or fails; it never mismatches |
| Parser.OrElse | crible-lib/src/expression.rs:162-168 | `alt` returns the first branch unless it mismatched, and then the second |
| Parser.ParseRoot | crible-lib/src/expression.rs:173-175 | the rule matches exactly when the first non-whitespace character is `*`, yields `Root`, and leaves what follows the whitespace after it; it never fails |
| Parser.ParseExpression | crible-lib/src/expression.rs:177-186 | a match is `*` or a parsable expression |
| Parser.Parse | crible-lib/src/expression.rs:230-245 | returns `InputStringToolLong` exactly when the input exceeds 2048 bytes; a result is `*` or a parsable, serialisable, executable expression; leftover input is never empty |
| RoundTrip.TermRoundTrip | crible-lib/src/expression.rs:155-157 | a parsable expression's text, followed by a boundary, parses back as a term to itself |
| RoundTrip.SubexpressionRoundTrip | crible-lib/src/expression.rs:159-171 | a parsable expression's text, followed by a closing context, parses back as a subexpression to itself |
| RoundTrip.SerializeParses | crible-lib/src/expression.rs:254-266 | `parse(serialize(e)) == e` for every query the grammar produces |
| RoundTrip.ParseSerializeRoundTrip | crible-lib/src/expression.rs:478-481 | `parse(serialize(parse(s))) == parse(s)` for every accepted input |
| RoundTrip.ParseOfText | crible-lib/src/expression.rs:234-243 | a subexpression match becomes the result when nothing is left, and `InvalidEndOfInput(rest)` otherwise |
| RoundTrip.RootText | crible-lib/src/expression.rs:173-175 | `*` parses to `Root` |
| RoundTrip.PaddedRoot | crible-lib/src/expression.rs:173-175 | a `*` with whitespace on either side parses to `Root`, unless the text exceeds 2048 bytes |
| RoundTrip.ChainIsFlat | crible-lib/src/expression.rs:392-397 | a chain of one operator parses to a single flat node with its operands in order |
| RoundTrip.MixedChainStops | crible-lib/src/expression.rs:453 | a chain continued by another operator leaves that operator and its operand as `InvalidEndOfInput` |
| RoundTrip.DoubleNegation | crible-lib/src/expression.rs:336-345 | `not not x` parses as a term exactly like `x` |
| RoundTrip.BangIsNot | crible-lib/src/expression.rs:390-391 | `!x` parses as a term exactly like `not x` |
| RoundTrip.FourNegations | crible-lib/src/expression.rs:399 | `not not not not foo` parses to the bare property `foo` |
| RoundTrip.DoubleBang | crible-lib/src/index.rs:542 | `!!foo` parses to the bare property `foo` |
| RoundTrip.SingleTerm | crible-lib/src/expression.rs:386-387 | an input that is one whole term parses to that term |
| RoundTrip.NameSubexpression | crible-lib/src/expression.rs:386 | a valid name alone is a subexpression that consumes it all |
| RoundTrip.BlankRejected | crible-lib/src/expression.rs:444 | an empty or blank query is rejected as `Invalid` |
| RoundTrip.UnclosedGroupRejected | crible-lib/src/expression.rs:141-153 | a `(` followed by a lone name and no `)` is rejected as `Invalid` |
| Expressions.KeywordsDiffer | crible-lib/src/expression.rs:261-264 | the separators of two different operators start differently |
| Expressions.Negate | crible-lib/src/expression.rs:336-345 | negation keeps an expression parsable |
| Expressions.NegateTwice | crible-lib/src/expression.rs:336-345 | negating twice gives back any expression without a double negation |
| Expressions.Serialize | crible-lib/src/expression.rs:254-266 | the text of a parsable expression starts with a letter or `(` |
| Expressions.Join | crible-lib/src/expression.rs:211-227 | one operand is written as its own text; several are enclosed in one pair of parentheses |
| Expressions.ParsableIsSerializable | crible-lib/src/expression.rs:210-227 | every query the grammar produces can be serialised and executed |
| Expressions.Combine | crible-lib/src/expression.rs:276-334 | the builder's node has the operator, and its operands are those of both sides as a multiset |
| Algebra.CombineExecutes | crible-lib/src/expression.rs:276-319 | `l & r`, `l \| r` and `l ^ r` succeed or fail together with the plain two-operand node, with the same ids on success |
| Algebra.CombineDefined | crible-lib/src/expression.rs:276-334 | a built node names a missing property exactly when one of its sides does |
| Algebra.PairHolds | crible-lib/src/index.rs:369-397 | a two-operand node holds as conjunction, disjunction, exclusive or, or difference of its sides |
| Algebra.CombineSubtractDiffers | crible-lib/src/expression.rs:321-334 | the `-` builder as written makes `a - (b - c)` drop an id all three properties hold, which the intended difference keeps |
| Algebra.SubtractExecutes | crible-lib/src/expression.rs:321-334 | the corrected `-` builder executes to the same result as the plain two-operand difference |
| Algebra.SubtractHolds | crible-lib/src/expression.rs:321-334 | the corrected `l - r` holds exactly where `l` holds and `r` does not |
| Encoding.EncoderOf | crible-lib/src/encoding.rs:93-103 | accepts exactly `""`/`bin`/`crible` as `Bin` and `json`/`ndjson`/`ljson` as `Json`; anything else is `UnknownEncoder` of the name |
| Encoding.DecodeNdjsonLine | crible-lib/src/encoding.rs:117-131 | a record is accepted exactly when its name is valid and new, and adds that property with its ids; an invalid name is `InvalidProperty`, a repeated one `DuplicateProperty` |
| Encoding.DecodeNdjsonFrom | crible-lib/src/encoding.rs:133-143 | the loop only adds properties to the index it starts from, each under a valid name, and fails only with `InvalidProperty` or `DuplicateProperty` |
| Encoding.DecodeNdjson | crible-lib/src/encoding.rs:133-143 | every property of a decoded index has a valid name; an error is `InvalidProperty` or `DuplicateProperty` |
| Encoding.EmptyLinesSkipped | crible-lib/src/encoding.rs:133-143 | decoding a stream is decoding its records with empty lines dropped |
| Encoding.DecodeRecordsMeaning | crible-lib/src/encoding.rs:133-143 | decoding succeeds exactly when every name is valid and unseen, and then adds one property per record |
| Encoding.EncodeNdjson | crible-lib/src/encoding.rs:145-157 | one record per property, strictly ascending by name, each carrying that property's ids in ascending order |
| Encoding.EncodeNdjsonSorted | crible-lib/src/encoding.rs:218-222 | the records are strictly ascending by name and list every property |
| Encoding.NdjsonRoundTrip | crible-lib/src/encoding.rs:247-257 | an index whose names are all valid decodes back from its ndjson encoding |
| Encoding.NdjsonEmpty | crible-lib/src/encoding.rs:224-237 | only the empty index encodes to nothing, and a stream without records decodes to the empty index |
| Encoding.NdjsonDuplicate | crible-lib/src/encoding.rs:124-130 | a stream repeating a property is rejected |
| Encoding.EncodeBincode | crible-lib/src/encoding.rs:186-194 | one record per property, strictly ascending by name, carrying the serialised bitmap |
| Encoding.EncodeBincodeSorted | crible-lib/src/encoding.rs:187-192 | the records are strictly ascending by name and list every property |
| Encoding.DecodeBincodeMeaning | crible-lib/src/encoding.rs:161-179 | decoding succeeds exactly when every name is unseen and every bitmap reads back, and then adds one property per record |
| Encoding.DecodeBincodeFrom | crible-lib/src/encoding.rs:161-179 | the loop only adds properties to the index it starts from; it fails only with `DuplicateProperty` or `InvalidBitmap`, and never reports `InvalidBitmap` for a name already present |
| Encoding.DecodeBincode | crible-lib/src/encoding.rs:161-184 | an error is `DuplicateProperty` or `InvalidBitmap` |
| Encoding.BincodeRoundTrip | crible-lib/src/encoding.rs:259-280 | with a codec that reads back what it writes, every index decodes back from its bincode records |
| Encoding.BincodeInvalidBitmap | crible-lib/src/encoding.rs:163-168 | when every record before it is accepted, a record with a new name and unreadable bytes is rejected as `InvalidBitmap` of its property |
| Encoding.BincodeDuplicateNamed | crible-lib/src/encoding.rs:163-176 | when every record before it is accepted, a record repeating an earlier name is rejected as `DuplicateProperty` of that name, whatever its bytes |
| Encoding.BincodeStopsAt | crible-lib/src/encoding.rs:161-179 | from a partly built index, the first record that is not accepted decides the error: `DuplicateProperty` when its name is taken, checked before its bytes, and otherwise `InvalidBitmap` when its bytes do not read |
| Encoding.BincodeDuplicate | crible-lib/src/encoding.rs:173-175 | a stream with a repeated property is rejected, whatever precedes the repetition |
| BitmapExpressions.ApplyMeaning | src/expressions.rs:58-85 | evaluation fails exactly when a facet is missing, and names one; when every facet lies within the root, the result is exactly the ids the query holds for, with `not` as the complement within the root |
| BitmapExpressions.Apply | src/expressions.rs:58-85 | succeeds exactly when every facet the query mentions is in the facet map; an error names a facet the query mentions and the map lacks |
| BitmapExpressions.DeMorgan | src/expressions.rs:71-74 | `not x and not y` evaluates exactly like `not (x or y)`, errors included |
| BitmapExpressions.NegatedLeftReportsRight | src/expressions.rs:75-78 | with a negated left side, an error of the right side is the one reported |
| BitmapExpressions.SqliteFilter | src/expressions.rs:88-104 | the rendered filter is never empty |
| BitmapExpressions.FilterReadsBack | src/expressions.rs:88-104 | a query whose facet names have no quote is read back from its filter, whatever follows it |
| BitmapExpressions.FilterInjective | src/expressions.rs:88-104 | two such queries with the same filter are equal |
| LegacyExpressions.WordsDiffer | src/expression.rs:229-243 | the three operator keywords start with different letters |
| LegacyExpressions.Serialize | src/expression.rs:224-245 | the text of a parsable query starts with a letter or `(` |
| LegacyParser.ParseInverted | src/expression.rs:104-109 | a match is a parsable query from strictly less input |
| LegacyParser.ParseWrapped | src/expression.rs:111-123 | the rule applies only at a `(`; a match is parsable from strictly less input |
| LegacyParser.ParseTerm | src/expression.rs:125-127 | the rule applies only at a letter, `(` or `!`; a match is parsable from strictly less input |
| LegacyParser.Alternatives | src/expression.rs:129-140 | the `alt` of operations and term applies exactly when the term rule applies, hence only at a letter, `(` or `!` |
| LegacyParser.Connector | src/expression.rs:82-83 | the keyword between blanks never fails, and consumes input when it matches |
| LegacyParser.ParseOperation | src/expression.rs:80-102 | a match is a binary query of that operator from strictly less input |
| LegacyParser.ParseSubexpression | src/expression.rs:129-140 | under `cut`, the rule either matches a parsable query or fails |
| LegacyParser.ParseRoot | src/expression.rs:142-144 | the rule matches exactly when the first non-whitespace character is `*`, yields `Root`, and leaves what follows the whitespace after it; it never fails |
| LegacyParser.ParseExpression | src/expression.rs:146-154 | a match is `*` or a parsable query |
| LegacyParser.Parse | src/expression.rs:178-193 | returns `InputStringToolLong` exactly when the input exceeds 2048 bytes; a result is `*` or a parsable query; leftover input is never empty |
| LegacyRoundTrip.PaddedRoot | src/expression.rs:142-144 | a `*` with whitespace on either side parses to `Root`, unless the text exceeds 2048 bytes |
| LegacyRoundTrip.ParenRoundTrip | src/expression.rs:111-127 | a parenthesised serialised query parses back as a term to itself |
| LegacyRoundTrip.SubexpressionRoundTrip | src/expression.rs:129-140 | a serialised query, followed by a closing context, parses back as a subexpression to itself |
| LegacyRoundTrip.SerializeParses | src/expression.rs:224-245 | `parse(serialize(e)) == e` for every query the older grammar produces |
| LegacyRoundTrip.ParseSerializeRoundTrip | src/expression.rs:404-407 | `parse(serialize(parse(s))) == parse(s)` for every accepted input |
| LegacyRoundTrip.SerializeInjective | src/expression.rs:222-223 | two queries with the same canonical text are equal |
| LegacyRoundTrip.FourNegations | src/expression.rs:318-323 | `not not not not foo` parses to four nested negations |
| LegacyRoundTrip.BangIsNot | src/expression.rs:288-289 | `!x` parses as a term exactly like `not x` |
| LegacyRoundTrip.SingleTerm | src/expression.rs:284-289 | an input that is one whole term parses to that term |
| LegacyRoundTrip.SecondOperatorLeftOver | src/expression.rs:382 | after one binary operation, a further operator and operand are left over as `InvalidEndOfInput` |
| LegacyRoundTrip.MissingRightOperand | src/expression.rs:374-375 | an operator without a right operand is left over as `InvalidEndOfInput` |
| LegacyRoundTrip.BlankRejected | src/expression.rs:373 | an empty or blank query is rejected as `ParserError` |

## Left out

- The HTTP server, CLI, `RwLock` wrappers, executor thread pool, storage backends and utilities: they are I/O, concurrency and foreign libraries around the engine.
- The pest-driven `parse_expression`/`parse_pair` of `src/expressions.rs`: its grammar file `logic.pest` is not part of this model. `BitmapExpressions` takes `Expr` values as given.
- `get_property`, `set_property`, `delete_property`, `clear`, `len`, `is_empty` and `Index::of`: direct map accesses with nothing to prove beyond Dafny's map laws.
- croaring's internal layout and the speed of `fast_or`/`fast_xor`: a bitmap is the set of its ids.
- The byte layouts of JSON and bincode, and their I/O and `serde` errors: the formats are sequences of records. Bitmap (de)serialisation is a pair of functions assumed to read back what they write (`Encoding.Lawful`).
- `Encoding.BincodeRoundTrip`: holds only for a codec that reads back what it writes, because croaring's `serialize`/`try_deserialize` are not modelled.
- The `Invalid(String)` and `ParserError(String)` payloads: nom's error message text is not modelled, only the variant.
- `tag_no_case` and `to_lowercase` are modelled for ASCII letters only. Non-ASCII letters can never appear in a keyword or a property name, so no accepted or rejected input changes.
- `Indexes.Cardinalities`: counts are unbounded naturals, not `u64` (a `u32` id set never holds more than 2^32 ids).
- `RoundTrip.SerializeParses`, `RoundTrip.ParseSerializeRoundTrip`, `LegacyRoundTrip.SerializeParses`, `LegacyRoundTrip.ParseSerializeRoundTrip` and `LegacyRoundTrip.SerializeInjective`: they require the canonical text to fit in 2048 bytes. `serialize` adds parentheses, so a query accepted near the limit can serialise to text that `parse` refuses as too long.
- `LegacyExpressions.Serialize` and `Expressions.Serialize` state only the first character of the text. Their content is pinned down by the round-trip lemmas rather than by a second definition.
- Parser.ParseInverted, Parser.ParseWrapped, Parser.ParseTerm, Parser.RepeatOnce, Parser.ParseMany, Parser.ParseOperation, Parser.Alternatives, Parser.ParseSubexpression, Parser.ParseExpression, LegacyParser.ParseInverted, LegacyParser.ParseWrapped, LegacyParser.ParseTerm, LegacyParser.ParseOperation, LegacyParser.Alternatives, LegacyParser.ParseSubexpression and LegacyParser.ParseExpression: their contracts state only the shape of a match, the characters a rule can start at, and that input is consumed. Which texts each rule accepts, and what it produces from them, is stated by the `RoundTrip` and `LegacyRoundTrip` lemmas.
- `Expressions.Serializable` and `Expressions.Executable` exclude empty nodes. In the source, `execute` on an empty `And` or `Sub` and `serialize` on any empty node panic, because they index element 0 (crible-lib/src/index.rs:370,392 and crible-lib/src/expression.rs:216,225).
- Algebra.CombineExecutes: states that the built node and the plain pair succeed or fail together, not that they report the same missing property. When both sides are nodes of the operator, the builder puts the right operands first, so the first missing property met can differ.
- Encoding.DecodeBincode, Encoding.DecodeBincodeFrom, Encoding.DecodeNdjson and Encoding.DecodeNdjsonFrom: their own contracts state only the kinds of error and that properties are only added. What they accept and produce is stated by `Encoding.DecodeBincodeMeaning`, `Encoding.DecodeRecordsMeaning`, `Encoding.EmptyLinesSkipped` and the round trips.
- Queries.Execute: its own contract states when it succeeds and which property it reports. The ids it returns are stated by `Queries.ExecuteMeaning`.
- BitmapExpressions.Apply: its own contract states when it succeeds and which facet it reports. The ids it returns are stated by `BitmapExpressions.ApplyMeaning`.
- BitmapExpressions.SqliteFilter: its own contract states only that the filter is not empty. The rendering is pinned down by `BitmapExpressions.FilterReadsBack` and `BitmapExpressions.FilterInjective`.
- Expressions.Join: its own contract states only where the parentheses go. The separators and operand texts inside are pinned down by `RoundTrip.ChainIsFlat` and the round trips.
- The older server's `execute` is not modelled separately: it is the library's `Queries.Execute` on the n-ary expression.

## Findings

| source | as written | input that shows it | evidently intended | confidence | as-written member | corrected member |
|---|---|---|---|---|---|---|
| crible-lib/src/expression.rs:321-334 | `impl Sub for Expression` flattens a `Sub` right operand like the associative operators: `l - Sub(r)` becomes `Sub([l] ++ r)`, and `Sub(l) - Sub(r)` becomes `Sub(r ++ l)` | `a - (b - c)` with an id held by `a`, `b` and `c`: the built query is `a - b - c` and drops the id, while `a - (b - c)` keeps it | flatten only the left operand, so that `l - r` always means "in `l` and not in `r`" | not executed | Algebra.CombineSubtractDiffers | Algebra.SubtractExecutes |
