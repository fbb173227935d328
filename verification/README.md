# Dojo and Katana: codecs, transaction pool, settlement messaging

This project models four parts of the repository in Dafny and proves what they promise.

* **Cairo types and their codecs** (`crates/dojo/types`): felts as numbers modulo the Starknet prime, the
  byte-pattern decoding of signed integers, the unpacking of bit-packed storage words against the on-chain packer,
  the felt and JSON codecs of the recursive type tree, the parser of raw schemas, structural differences, and the
  explicit-stack iterator. Modules `Felts`, `SignedFelts`, `Bits`, `Packing`, `Primitives`, `Schema`, `FeltCodec`,
  `ByteArrays`, `FeltRoundTrip`, `FeltReads`, `FeltComplete`, `FeltSpelling`, `FeltStops`, `FeltLeaves`, `FeltCanonical`,
  `FeltPanics`, `FeltCodecLoops`, `Radix`, `JsonCodec`, `JsonForms`, `JsonLoads`, `JsonPanics`, `JsonCodecLoops`, `Codecs`,
  `FieldLookup`, `Remainders`, `SchemaDiff`, `SchemaPatch`, `SchemaIter`, `SchemaParser`, `SchemaGrammar`,
  `SchemaParserLoops`.
* **The transaction pool** (`crates/katana/pool`): the ordered set whose comparison never answers `Equal`, the pool,
  its subscriptions and its streams as classes, and the concurrent protocol as a state machine in which each locked
  region is one step. Modules `PoolOrder`, `PoolStreams`, `TransactionPool`, `PoolProtocol`, `PoolFifo`,
  `PoolTiming`, `PoolPolling`, `PoolPriorities`, `PoolOverlap`.
* **Settlement messaging** (`crates/katana/messaging`): the block cursor as a state machine with a growing head, one
  gather in flight and requests that fail, and the polling service as a class whose polls are runs of that machine.
  Modules `Messaging`, `MessagingService`.
* **Canonical encodings** (`crates/katana/primitives`): the state-diff preimage, short strings and continuation tokens.
  Modules `StateDiff`, `ShortStrings`, `Tokens`.

`Wrappers`, `Sequences` and `Selections` hold what the components share.

A Rust function that may return an error or panic has an `Outcome` with `Ok`, `Err` and `Panic`, or a `Status`. A
`&mut` argument of a recursive function is an in-out parameter, since borrows do not alias; an object whose methods
update its fields is a class. Functions state what is computed; the methods in the `Loops` modules and in the classes do
it step by step and are proved to give the same.

## What turned out not to hold

* `serialize` writes the payloads of all enum options and `deserialize` reads one. The felt round trip therefore holds if
  and only if, along the chosen options, every option that is not chosen is zero-width (`FeltRoundTripIff`;
  `OtherPayloadIsLeftOver` gives an enum of two bytes that fails).
* The off-chain `unpack` masks every field, while the chain stores and returns a 251-bit field whole. The unpacker
  undoes the packer if and only if every value is below two to the size of its field (`UnpackInvertsPack`); the largest
  felt is truncated (`FullFeltIsTruncated`), though the on-chain unpacker gives it back (`ChainUnpackInvertsPack`).
* A successful `deserialize` need not be complete: it also succeeds when the felts run out (`TruncatedReadSucceeds`).
  `ReadIsCompleteIff` says exactly when the result is a full value.
* `diff` is not idempotent, and not a sufficient patch, in the presence of tuples, whose differing elements lose their
  positions (`TupleDifferenceIsNotIdempotent`, `NoOverlaySuffices`). The exact conditions, `Stable` and `Patchable`, are
  said of the two types alone; tuple-free types meet both (`TupleFreeDiffIsAPatch`).
* A value does not always come back from its JSON: namesake members share one entry, and an earlier option of the chosen
  name is loaded instead (`JsonRoundTripIff`).
* An array schema is accepted only if its item takes one felt: the unit type or a byte array (`ParseArrayAccepts`). An enum
  option's type is taken whole only if it says its own length (`OptionIsTakenIff`).
* The state-diff preimage does not tell deployed contracts from replaced ones: another update has the same preimage if and
  only if there is such a contract and every deployed address is below every replaced one (`AmbiguousIff`).
* Overlapping pool calls can make a stream yield a transaction twice (`OverlapYieldsTwice`) and against the order of
  submission (`OverlapReorders`); `SettledStreamsYieldAll`, `OrderIsKeptIff` and `OrderedHoweverPolledIff` say exactly
  when.
* A gather may cover `max + 2` blocks, although the comment beside the code counts the first block in (`RangeBounds`). A
  cursor configured more than one block past the head is pulled back to it, so that blocks before the configured start are
  gathered (`StartIsRespectedIff`).

## Model

| member | source | states |
|---|---|---|
| SignedFelts.SignedDecodingIsExact | crates/dojo/types/src/primitive_conversion.rs:25-60 | for every width of 1 to 16 bytes and every felt `x`, decoding gives `v` if and only if `v` is in the signed range and `x` is `v` modulo the prime; `None` otherwise |
| Packing.Unpack | crates/dojo/types/src/packing.rs:60-98 | the reversing, popping and mask-building loop computes the specification on all inputs, errors and panic included |
| Packing.BuildMask | crates/dojo/types/src/packing.rs:84-87 | the bit-by-bit loop builds two to the size, less one |
| Packing.Extract | crates/dojo/types/src/packing.rs:84-89 | shifting and masking a word gives the `size` bits that start at `offset` |
| Packing.UnpackInvertsPack | crates/dojo/types/src/packing.rs:60-98 | for every layout of sizes up to 251 and storable values, packing succeeds with the computed number of words, unpacking gives each value modulo its field, and gives the values themselves if and only if each is below two to its size |
| Packing.FullFeltIsTruncated | crates/dojo/types/src/packing.rs:84-91 | the largest felt in a 251-bit field survives the on-chain pair but not the off-chain unpacker |
| Packing.ChainUnpackInvertsPack | crates/dojo/core/src/storage/packing.cairo:50-137 | the on-chain unpacker undoes the on-chain packer on every storable value |
| Packing.UnpackFailsIffWordsRunOut | crates/dojo/types/src/packing.rs:60-82 | unpacking fails exactly when there are fewer words than the packed size, which is at least one, and then with `UnpackingEntityError` |
| Packing.UnpackWide | crates/dojo/types/src/packing.rs:60-98 | what becomes of a layout with a size past 251, wherever it stands: out of range past 255, missing words, a word of its own, and the panic of a field behind it |
| Packing.SlotsStayInWords | crates/dojo/core/src/storage/packing.cairo:29-48 | no field straddles a word of 251 bits, and no slot lies past the computed number of words |
| Packing.SlotsAreDisjoint | crates/dojo/core/src/storage/packing.cairo:71-105 | the bit ranges of two fields do not overlap and follow the order of the layout |
| Packing.SlotsAreTight | crates/dojo/core/src/storage/packing.cairo:29-105 | the first field starts the first word; each next one follows at once, or starts a new word exactly if it does not fit |
| Packing.LastSlotIsInLastWord | crates/dojo/core/src/storage/packing.cairo:29-48 | the computed number of words is what the fields reach |
| Packing.UnpackReadsSlots | crates/dojo/types/src/packing.rs:68-95 | each unpacked value is the content of its field's slot |
| Primitives.RoundTrip | crates/dojo/types/src/primitive.rs:219-401 | every set primitive of every kind is read back from its felts, whatever follows, leaving exactly what follows |
| Primitives.DecodingIsExact | crates/dojo/types/src/primitive.rs:219-336 | a felt decodes to `v` if and only if `v` is in the range of the kind and the felt is its image; a boolean is true for one and false for every other felt |
| Primitives.RangesSpelled | crates/dojo/types/src/primitive.rs:30-48 | the values of each kind: integers of 1 to 32 bytes in two's complement or unsigned, zero and one, the whole field |
| Bits.PrimeSpelled | crates/dojo/types/src/primitive.rs:6 | the field has 2^251 + 17 * 2^192 + 1 elements |
| FeltRoundTrip.FeltRoundTripIff | crates/dojo/types/src/schema.rs:127-235 | for every template, value of that shape and tail, reading what was written gives the value and leaves the tail, if and only if the options that are not chosen are zero-width |
| FeltSpelling.WrittenReadsBack | crates/dojo/types/src/schema.rs:179-235 | for every template, value of that shape and tail, and whatever options it has: the option byte and the chosen payload of each enum, with the felts of everything else, are read back as the value and leave the tail |
| FeltSpelling.ReadIffSpelled | crates/dojo/types/src/schema.rs:179-235 | for every template and all felts: a read gives a value in full and leaves the rest if and only if the value is one of the template and the felts before the rest spell it, by a relation that does not mention the reader: exact for each primitive, one option byte and its payload, the length and the items |
| FeltStops.StopsIff | crates/dojo/types/src/schema.rs:179-235 | for every type and all felts: how a read fails, with which error or panic, at which part, and what felts it leaves |
| FeltLeaves.LeavesReadBack | crates/dojo/types/src/schema.rs:127-177 | whatever is written is the leaves of the type one after the other, the payloads of all options included: read back leaf by leaf it gives them all |
| FeltLeaves.FirstLeafDecides | crates/dojo/types/src/schema.rs:127-177 | what is not written fails by its first leaf that is unset, or that has no encoding, and with that error |
| FeltRoundTrip.OtherPayloadIsLeftOver | crates/dojo/types/src/schema.rs:140-208 | an enum of two bytes whose second payload is written, not read, and left in front of the tail |
| FeltRoundTrip.ReadsBack | crates/dojo/types/src/schema.rs:179-235 | the direction of the round trip that holds, through nested structs, tuples, arrays, enums and byte arrays |
| FeltRoundTrip.ReadLeavesSuffix | crates/dojo/types/src/schema.rs:179-235 | whatever the outcome, what is left of the felts is a suffix of the input |
| FeltRoundTrip.ReadTakesWidth | crates/dojo/types/src/schema.rs:179-235 | reading a value takes exactly the felts its chosen options account for |
| FeltRoundTrip.SerializedWidth | crates/dojo/types/src/schema.rs:127-177 | what is written is at least that long, and that long only if nothing else is written |
| FeltReads.ReadKeepsShape | crates/dojo/types/src/schema.rs:179-235 | whatever the outcome, the type keeps its shape: only primitive values, enum choices, byte arrays and the items after an array's template change |
| FeltReads.ArrayIsReadAsTuple | crates/dojo/types/src/schema.rs:209-226 | an array is read as a tuple of as many copies of its last item as the length felt says, which replace it: the same outcome, the same felts left, and on success the same items |
| FeltReads.UnsetIsTemplate | crates/dojo/types/src/schema.rs:214-226 | an unset schema is a template the reader can fill without panicking on an empty array |
| ByteArrays.CodecExists | crates/dojo/types/src/schema.rs:227-232 | what is assumed of the codec of byte arrays can be met: one that writes a length first meets all of it |
| FeltComplete.ReadIsCompleteIff | crates/dojo/types/src/schema.rs:179-235 | for every template, set or unset, and every successful read, whether or not it used up the felts: the result is a full value if and only if the felts cover the part of it the template had no values for; if they cover its width, it is a full value and exactly that was taken; otherwise nothing is left |
| FeltComplete.UnreachedIsKept | crates/dojo/types/src/schema.rs:180-193 | when the felts run out after some fields, the fields that follow keep the values they had |
| FeltComplete.UnreachedItemsAreKept | crates/dojo/types/src/schema.rs:180-213 | the same for the items of a tuple |
| FeltComplete.RereadLosesValue | crates/dojo/types/src/schema.rs:180-208 | a successful read over a full value need not leave one: an enum is switched to an option whose byte is not given |
| FeltComplete.TruncatedReadSucceeds | crates/dojo/types/src/schema.rs:180-183 | two bytes asked for and one given: the read succeeds and leaves the second unset |
| FeltComplete.UnreadTextLooksComplete | crates/dojo/types/src/schema.rs:227-232 | the width alone would not decide: an unread byte array passes for an empty one |
| FeltComplete.ReadIsLocal | crates/dojo/types/src/schema.rs:179-235 | a read does not depend on the felts it leaves: without them it gives the same value and leaves nothing of them |
| FeltCanonical.RewriteIff | crates/dojo/types/src/schema.rs:127-235 | writing what a complete read gave reproduces the felts it took if and only if only chosen options carry felts, booleans were 0 or 1, 256-bit halves below 2^128 and byte arrays as encoded |
| FeltPanics.ReadCanPanicIff | crates/dojo/types/src/schema.rs:194-226 | some input makes `deserialize` panic if and only if a read can get to an enum without an option for every byte or to an array without an item |
| FeltCodecLoops.SerializeInner | crates/dojo/types/src/schema.rs:130-172 | the recursive writer that extends one vector appends exactly the specified felts, or stops at the same error or panic |
| FeltCodecLoops.DeserializeInPlace | crates/dojo/types/src/schema.rs:179-235 | the in-place reader leaves the specified type, felts and outcome, also when it fails half way |
| FeltCodecLoops.DeserializeAllCopies | crates/dojo/types/src/schema.rs:214-226 | the loop that clones the item template once per element pushes the specified items |
| JsonCodec.PrimitiveRoundTrip | crates/dojo/types/src/schema.rs:340-467 | every set primitive is loaded back from its JSON, numbers, decimal and hexadecimal strings alike |
| JsonForms.JsonShows | crates/dojo/types/src/schema.rs:340-382 | the JSON of every type: for each primitive its sort and its text digit by digit, shortest and in lower case, 64 digits for 256 bits; one entry per member name, for the last of the name; one entry for the chosen option; one element per item; and the one error exactly if something written is unset |
| JsonLoads.LoadedIff | crates/dojo/types/src/schema.rs:385-507 | for every type and every JSON: the loader succeeds and leaves `r` if and only if `r` is what each part should hold, by a relation that does not mention the loader: numbers cut to their width, texts by what their digits denote, members by their entries, the option by the first entry, items by place |
| JsonLoads.StopsIff | crates/dojo/types/src/schema.rs:385-507 | for every type and every JSON: the load fails, as a mismatch or in a panic, exactly at the first part that does not load |
| JsonCodec.JsonRoundTrip | crates/dojo/types/src/schema.rs:338-507 | a value whose namesake members are equal and whose chosen options have no earlier namesake has a JSON that loads back to it, whatever its template |
| JsonCodec.JsonRoundTripIff | crates/dojo/types/src/schema.rs:338-507 | every value of every template has a JSON, and it loads back to the value if and only if each member that is not the last of its name is what the last one's JSON loads as, and no chosen option has an earlier namesake |
| JsonCodec.SharedTemplatesIff | crates/dojo/types/src/schema.rs:338-507 | where namesake members share a template, that is so if and only if they are equal and no chosen option has an earlier namesake |
| JsonCodec.NamesakeMembersCollide | crates/dojo/types/src/schema.rs:359-365 | the condition on members is needed: two namesakes share one JSON entry |
| JsonPanics.LoadCanPanicIff | crates/dojo/types/src/schema.rs:385-507 | some JSON makes the loader panic if and only if a load can get to a 256-bit integer or to an array without an item, options found by the first of their name and namesake members loaded from one entry |
| JsonPanics.U256PanicsIff | crates/dojo/types/src/schema.rs:443-447 | a string for a 256-bit integer panics unless it is 64 hexadecimal digits after its prefixes |
| JsonCodecLoops.FillFromJson | crates/dojo/types/src/schema.rs:385-507 | the in-place loader leaves the specified type and outcome |
| Codecs.CodecsAgree | crates/dojo/types/src/schema.rs:127-507 | where both codecs apply they give back the same value |
| SchemaParser.ParseUndoesEncode | crates/dojo/types/src/packing.rs:101-305 | for every schema of primitives, structs, enums, tuples, byte arrays and one-felt arrays, with any attributes, whose option types say their length where the parser looks for it, parsing its encoding gives the type it stands for, key flags included |
| SchemaParser.OptionIsTakenIff | crates/dojo/types/src/packing.rs:237-252 | the type of an enum option is taken whole, and nothing else, if and only if its second felt, or the felt after a one-felt type, is its length less one |
| SchemaParser.ParsedIsUnset | crates/dojo/types/src/packing.rs:101-305 | whatever parses has no value set and exactly one item per array |
| SchemaGrammar.ParsesIffDescribed | crates/dojo/types/src/packing.rs:101-305 | for all felts: the parser gives a type if and only if the felts describe it, names, lengths, attributes, the key flag and felts that are ignored included |
| SchemaGrammar.FailsIff | crates/dojo/types/src/packing.rs:101-305 | for all felts: the parser fails with an error, or panics, exactly by the first thing wrong with the felts: too few, a bad name, a number out of range, an unknown primitive or tag, a slice that reaches past the end |
| SchemaGrammar.PrimitivesBySpelling | crates/dojo/types/src/packing.rs:128-141 | a simple type is accepted exactly for the felts of the sixteen names, each given as a number |
| SchemaGrammar.ParseCanPanicIff | crates/dojo/types/src/packing.rs:101-126 | so some schema with a given tag makes it panic if and only if the tag is one it knows other than that of byte arrays |
| SchemaParser.ParseArrayAccepts | crates/dojo/types/src/packing.rs:287-302 | an array schema is accepted if and only if it has two felts and the item is the unit type or a byte array |
| SchemaParser.KeyAttributeSpelled | crates/dojo/types/src/packing.rs:206 | the constant compared with is the felt of the short string `key` |
| SchemaParserLoops.ParseStructFrom | crates/dojo/types/src/packing.rs:143-185 | the parser of structs computes the specification, errors and panics included |
| SchemaParserLoops.ParseMembersFrom | crates/dojo/types/src/packing.rs:168-182 | the loop over an index and an offset reads the members that follow one another in the slice |
| SchemaParserLoops.ParseMemberFrom | crates/dojo/types/src/packing.rs:187-210 | a member is its name, whether `key` is among its attributes, and the type in the rest of the slice |
| SchemaParserLoops.ParseEnumFrom | crates/dojo/types/src/packing.rs:212-255 | the parser of enums computes the specification |
| SchemaParserLoops.ParseOptionsFrom | crates/dojo/types/src/packing.rs:237-252 | the loop reads the options that follow one another, the length taken one felt into the type |
| SchemaParserLoops.ParseTupleFrom | crates/dojo/types/src/packing.rs:257-285 | the parser of tuples computes the specification; no felt at all is the unit type |
| SchemaParserLoops.ParseItemsFrom | crates/dojo/types/src/packing.rs:269-282 | the loop reads the items that follow one another |
| SchemaParserLoops.ParseArrayFrom | crates/dojo/types/src/packing.rs:287-302 | the parser of arrays computes the specification |
| SchemaParserLoops.ParseTypeOf | crates/dojo/types/src/packing.rs:101-126 | the dispatch computes the specification, each call on a strictly shorter slice |
| SchemaDiff.DiffPanicsIff | crates/dojo/types/src/schema.rs:238-335 | `diff` panics if and only if it reaches a pair of different kinds |
| SchemaDiff.DiffDecidesSubsumption | crates/dojo/types/src/schema.rs:238-335 | there is no difference if and only if every member and option of the first occurs by name in the second, recursively, with equal leaves, tuples included |
| SchemaDiff.CoveredIff | crates/dojo/types/src/schema.rs:238-335 | without any condition on names, there is no difference if and only if the second type covers the first, taking the first field of each name |
| SchemaDiff.DifferenceIsRemainder | crates/dojo/types/src/schema.rs:238-335 | `diff` returns `d` if and only if the first type is not covered and `d` is its remainder over the second, a relation on the three types alone |
| Remainders.NotInSelects | crates/dojo/types/src/schema.rs:295-301 | of tuples of different lengths, exactly the elements that do not occur in the other are kept, in order |
| SchemaDiff.WhollyNewIff | crates/dojo/types/src/schema.rs:238-335 | the difference is the whole first type if and only if nothing of it is in the second |
| SchemaDiff.DiffIdempotentIff | crates/dojo/types/src/schema.rs:238-335 | a difference is its own difference if and only if, in every tuple reached, no element is covered and each is stable, or no remainder reappears in the other tuple, or, cut to the other's length, it is wholly new |
| SchemaDiff.TupleDifferenceIsNotIdempotent | crates/dojo/types/src/schema.rs:294-308 | a tuple of three bytes whose difference has a smaller difference |
| SchemaPatch.PatchSufficesIff | crates/dojo/types/src/schema.rs:238-335 | laid over the second type field by field, the difference leaves the first without a difference, if and only if in every differing tuple no element is covered by its partner or, at unequal lengths, shared |
| SchemaPatch.NoOverlaySuffices | crates/dojo/types/src/schema.rs:294-308 | whatever way of laying a difference over the second type: it fails for one of two tuples of bytes that have the same difference |
| SchemaPatch.TupleFreeDiffIsAPatch | crates/dojo/types/src/schema.rs:238-335 | for comparable tuple-free types with distinct names, a difference is idempotent and a sufficient patch |
| SchemaPatch.DifferenceIsPartOfFirst | crates/dojo/types/src/schema.rs:238-293 | without tuples, a difference keeps the name and chosen option of the first type and is itself subsumed by it |
| SchemaIter.TyIter.Next | crates/dojo/types/src/schema.rs:518-534 | popping and pushing yields the head of what the stack has yet to yield and leaves the rest |
| SchemaIter.TyIter.Collect | crates/dojo/types/src/schema.rs:510-535 | the iteration ends and yields all of it, with total stacked size as the measure |
| SchemaIter.VisitReversesPostorder | crates/dojo/types/src/schema.rs:510-535 | the order is the postorder of the tree backwards: right-to-left preorder |
| SchemaIter.VisitReachesPath | crates/dojo/types/src/schema.rs:518-534 | every type at the end of a path through structs and enums is visited |
| SchemaIter.VisitedHasPath | crates/dojo/types/src/schema.rs:518-534 | and nothing else is |
| SchemaIter.VisitsOncePerPosition | crates/dojo/types/src/schema.rs:510-535 | the traversal follows a list of paths without repetition, each leading to the type visited, and the list holds every path there is |
| PoolOrder.InsertIsStable | crates/katana/pool/src/tx.rs:97-109 | a new transaction lands after everything not behind it in priority, ties included; the set stays sorted and loses nothing |
| PoolOrder.WithoutKeepsOrder | crates/katana/pool/src/pool.rs:214-218 | removal keeps the order: what is left stands at ascending places of what was there, ties included |
| PoolOrder.InsertAllSorts | crates/katana/pool/src/subscription.rs:53-63 | a batch put into an empty set comes out as a stable sort of it, nothing lost |
| PoolOrder.StableSortUnique | crates/katana/pool/src/tx.rs:97-109 | sortedness and the order within each priority determine the sequence, so there is one stable sort |
| PoolOrder.TipsDescend | crates/katana/pool/src/ordering.rs:86-114 | under tip ordering a batch comes out with higher tips first, equal tips in the order they came in |
| PoolOrder.SubmissionsAscend | crates/katana/pool/src/ordering.rs:50-57 | under submission ordering it comes out with earlier submissions first |
| PoolOrder.InsertLast | crates/katana/pool/src/ordering.rs:35-57 | a transaction with the latest submission number is appended |
| PoolStreams.Subscription.PollNext | crates/katana/pool/src/subscription.rs:39-70 | the first of the buffer; or the first of the stable sort of all the channel holds, the others being buffered and the channel empty; or what the channel says; the loop ends within two iterations |
| PoolStreams.Subscription.Drain | crates/katana/pool/src/subscription.rs:53-62 | the inner loop empties the channel into the ordered set |
| PoolStreams.PendingTransactions.PollNext | crates/katana/pool/src/pending.rs:29-36 | the snapshot first, then the subscription, which stays untouched until then |
| PoolStreams.YieldsSortedBatches | crates/katana/pool/src/subscription.rs:39-70 | over every sequence of sends and polls, what was sent is cut into batches in order, and what comes out is each batch's stable sort before the next batch's |
| PoolStreams.SubscriptionConserves | crates/katana/pool/src/subscription.rs:39-70 | at all times yielded, buffered and queued transactions together are the ones sent |
| TransactionPool.SweepRetains | crates/katana/pool/src/pool.rs:67-110 | at each round of the reverse loop the untried part is untouched and the rest are exactly the connected senders, as a multiset |
| TransactionPool.TriesEachOnce | crates/katana/pool/src/pool.rs:67-110 | every sender of any list is tried exactly once, last first |
| TransactionPool.OfferHashToAll | crates/katana/pool/src/pool.rs:67-91 | the loop leaves the specified list, and each listener that is connected and not full has the hash |
| TransactionPool.OfferTxToAll | crates/katana/pool/src/pool.rs:93-110 | the loop leaves the specified list, and each connected subscriber has the transaction, once, at the end of its queue |
| TransactionPool.Pool.NotifyListener | crates/katana/pool/src/pool.rs:67-91 | the same for the pool's listeners, everything else unchanged |
| TransactionPool.Pool.NotifySubscribers | crates/katana/pool/src/pool.rs:93-110 | the same for the pool's subscribers, everything else unchanged |
| TransactionPool.Pool.AddTransaction | crates/katana/pool/src/pool.rs:136-183 | a valid transaction gets the next submission number or its own tip, joins the set behind all that do not go after it, and is announced to all; an invalid or dependent one and a failed validation each give their own error and change nothing |
| TransactionPool.Pool.Subscribe | crates/katana/pool/src/pool.rs:118-123 | a new empty channel joins the subscribers |
| TransactionPool.Pool.PendingTransactions | crates/katana/pool/src/pool.rs:185-191 | the stream has a fresh subscription and the sorted content of the pool |
| TransactionPool.Pool.Get | crates/katana/pool/src/pool.rs:198-205 | the first transaction with that hash in the pool's order, or none if there is none |
| TransactionPool.Pool.Contains | crates/katana/pool/src/pool.rs:194-196 | whether some pooled transaction has that hash |
| TransactionPool.Pool.RemoveTransactions | crates/katana/pool/src/pool.rs:214-218 | exactly the transactions with a listed hash go, the order stays |
| PoolProtocol.RunKeepsInv | crates/katana/pool/src/pool.rs:93-123 | every run of every interleaving keeps: the pool sorted with ties in order of insertion, holding each inserted and unremoved transaction once; each snapshot and each channel holding exactly what its times call for |
| PoolProtocol.TiesGoByInsertion | crates/katana/pool/src/tx.rs:97-109 | in every run, under either ordering and under every add and remove, the pool and every snapshot are in order of priority with ties in order of insertion |
| PoolPriorities.HigherTipsFirst | crates/katana/pool/src/ordering.rs:78-119 | under tip ordering, in every run, the pool and every snapshot list transactions by descending tip, equal tips in order of insertion |
| PoolPriorities.DrainedTipsDescend | crates/katana/pool/src/subscription.rs:39-70 | and so does every batch of a run's transactions that a stream drains |
| PoolPriorities.EarlierCallsFirst | crates/katana/pool/src/ordering.rs:35-57 | under submission ordering, in every run, the pool and every snapshot list transactions in the order of the calls that took their numbers |
| PoolProtocol.NoTransactionLost | crates/katana/pool/src/pool.rs:136-191 | in every run, an inserted transaction is, for each open stream, in its snapshot, removed before it, still to be notified, or sent |
| PoolProtocol.SentIsConserved | crates/katana/pool/src/subscription.rs:39-70 | in every run, what a stream was sent is yielded, buffered or in the channel, and nothing is received before the snapshot is used up |
| PoolProtocol.YieldedAtMostTwice | crates/katana/pool/src/pool.rs:136-191 | no stream yields a transaction more than twice, and twice only if its insertion precedes the snapshot and its notification follows the subscription |
| PoolProtocol.SettledStreamsYieldAll | crates/katana/pool/src/pool.rs:185-191 | a settled stream has yielded everything not removed before its snapshot, and twice exactly in that case |
| PoolFifo.EndToEndFifo | crates/katana/pool/src/ordering.rs:35-57 | in every run where pool calls do not overlap, a stream yields strictly ascending submissions and, once settled, each transaction not removed before its snapshot exactly once |
| PoolFifo.SequentialRunsKeepOrder | crates/katana/pool/src/pending.rs:29-36 | in such runs everything a stream has, from snapshot to channel, is ascending |
| PoolTiming.OrderIsKeptIff | crates/katana/pool/src/subscription.rs:39-70 | in every run, overlapping or not, a stream that has used up what it got has yielded in strictly ascending order of submission if and only if its snapshot took only submissions before those it was sent, and each submission it was sent was received before a later one was popped |
| PoolTiming.NotifiedInOrderIsInTime | crates/katana/pool/src/pool.rs:93-116 | where notifications follow the order of submission, the second condition holds however the stream is polled |
| PoolTiming.RunKeepsTimes | crates/katana/pool/src/subscription.rs:39-70 | in every run, nothing is popped before it is received, and what is popped goes no later than anything else received by then |
| PoolPolling.OrderedHoweverPolledIff | crates/katana/pool/src/pool.rs:93-191 | in every run of a first-in-first-out pool: however a stream is polled among the same other steps, it yields in order of submission once it has used up what it got, if and only if its snapshot took only submissions before those it was sent and the notifications came in order of submission |
| PoolPolling.EagerRun | crates/katana/pool/src/subscription.rs:39-70 | for every run there is one that differs only in the polls of a stream, in which it yields everything exactly as it was sent |
| PoolPolling.RunsAreAlike | crates/katana/pool/src/pending.rs:29-36 | polling a stream changes nothing else: runs with the same other steps end alike but for times and what the polls took |
| PoolOverlap.OverlapYieldsTwice | crates/katana/pool/src/pool.rs:145-191 | a run in which a stream subscribed between insertion and notification yields the transaction twice |
| PoolOverlap.OverlapReorders | crates/katana/pool/src/pool.rs:145-155 | a run in which the later submission is yielded first |
| PoolOverlap.AddIsThreeSteps | crates/katana/pool/src/pool.rs:145-155 | without interleaving, the three steps of an addition come to what the pool class states: the pool, the priorities, the pruned subscribers, and every stream as it was or with one more message |
| PoolOverlap.PollIsARun | crates/katana/pool/src/subscription.rs:39-70 | every poll of the subscription class, buffer and channel empty or not, is a run of receive steps and a pop, or of none |
| Messaging.RangeBounds | crates/katana/messaging/src/ethereum.rs:124-129 | a range ends at or before the head and has at most `max + 2` blocks, exactly that many if and only if the head is `max + 1` past its start |
| Messaging.CursorRegressesIff | crates/katana/messaging/src/starknet.rs:101-111 | a success does not take the cursor back if and only if it was at most one past the head, and moves it on if and only if it was not past the head |
| Messaging.BlocksCoveredOnce | crates/katana/messaging/src/service.rs:56-153 | in every run with a growing head and any failures, the pool holds exactly the messages of the blocks from the start to the cursor, in order; the ranges are consecutive and bounded; the gather in flight starts at the cursor |
| Messaging.EachBlockInOneRange | crates/katana/messaging/src/service.rs:131-138 | a block lies in one successful range if it is between the start and the cursor, and in none otherwise |
| Messaging.OnlySuccessMoves | crates/katana/messaging/src/service.rs:139-147 | failures and all other steps leave cursor, pool and ranges as they were |
| Messaging.HeadIsReached | crates/katana/messaging/src/ethereum.rs:115-147 | a head that stands still is reached in no more successes than the remaining blocks over `max + 1`, rounded up |
| Messaging.SuccessesProgress | crates/katana/messaging/src/starknet.rs:84-134 | until then each success covers `max + 1` blocks |
| Messaging.StartIsRespectedIff | crates/katana/messaging/src/starknet.rs:101-104 | no run takes the cursor before the configured start if and only if that was at most one past the head |
| Messaging.StartAheadIsPulledBack | crates/katana/messaging/src/starknet.rs:101-104 | otherwise the first gather takes it to one past the head |
| Messaging.SovereignGathersNothing | crates/katana/messaging/src/service.rs:101 | without a settlement chain no message is ever gathered |
| MessagingService.Service.PollNext | crates/katana/messaging/src/service.rs:117-153 | one poll, for every tick, reply and state: a gather is started by a tick, goes on while a reply is missing with the head it was told, ends with a failed one, panics in Starknet mode if the fetch fails, and once all has come reports the last block asked for, 200 past the first, or the head if that is at most 201 past it, puts exactly the converted messages in the pool and moves the cursor behind it; and it is a run of the machine |
| MessagingService.Service.PollGather | crates/katana/messaging/src/service.rs:56-103 | height first, then events; the same errors, early return and panic as the three messengers |
| MessagingService.FetchEvents | crates/katana/messaging/src/starknet.rs:35-76 | the pages are followed until one has no token; the result is all their events that have a block number, in order, or a failure if a request fails, and is outstanding as long as every page so far asks for another |
| MessagingService.LastPageDecides | crates/katana/messaging/src/starknet.rs:35-76 | the first page that does not ask for another decides: outstanding, failed, or the last, and then exactly the events with a block number are fetched, in order |
| MessagingService.PagesMakeTruthful | crates/katana/messaging/src/starknet.rs:35-76 | if complete page sequences hold the events of their range, fetching them is what the service's guarantees rest on |
| MessagingService.PushNumbered | crates/katana/messaging/src/ethereum.rs:96-105 | exactly the events that have a block number are pushed |
| MessagingService.CollectMessages | crates/katana/messaging/src/ethereum.rs:131-144 | exactly the events that convert are collected, in order |
| StateDiff.PreimageDecodes | crates/katana/primitives/src/state.rs:60-105 | the nested length-prefixed list can be decoded, whatever follows it |
| StateDiff.PreimageSections | crates/katana/primitives/src/state.rs:60-105 | what is hashed, section by section: the short string STARKNET_STATE_DIFF0, the number of deployed and replaced contracts and both lists, the declared classes, the deprecated ones, one and zero, the storage, the nonces, each behind its count |
| StateDiff.ContractPlace | crates/katana/primitives/src/state.rs:77-83 | in the storage, each contract stands right after those before it: its address, the number of its entries, and each entry's key and value at its place |
| StateDiff.FlatPlace | crates/katana/primitives/src/state.rs:64-75 | in a list of pairs, each pair stands at twice its index |
| StateDiff.PreimageEqualIff | crates/katana/primitives/src/state.rs:60-105 | two updates have the same preimage if and only if they agree once deployed and replaced contracts are merged, and are equal if also the deployed counts agree |
| StateDiff.AmbiguousIff | crates/katana/primitives/src/state.rs:60-66 | exactly when another update shares the preimage |
| StateDiff.Len | crates/katana/primitives/src/state.rs:34-49 | the accumulated count determines, with two list lengths, the length of the preimage |
| ShortStrings.FromStr | crates/katana/primitives/src/cairo.rs:65-82 | a string is taken over unchanged if and only if it is ASCII of at most 31 characters; otherwise the error says whether it is not ASCII or too long |
| ShortStrings.TryFrom | crates/katana/primitives/src/cairo.rs:112-143 | the loop over the bytes computes the specification, its three errors included |
| ShortStrings.TryFromErrors | crates/katana/primitives/src/cairo.rs:112-143 | which error a felt gives: too long from 2^248 on; else the first byte that is not ASCII, or is a NUL after a character, decides; and without one none |
| ShortStrings.ShortStringBijection | crates/katana/primitives/src/cairo.rs:65-143 | a felt is accepted with string `s` if and only if `s` is NUL-free ASCII of at most 31 characters and the felt is its encoding |
| Tokens.TokenRoundTrip | crates/katana/primitives/src/event.rs:42-62 | every continuation token parses back from its display |
| Tokens.DisplaySpelled | crates/katana/primitives/src/event.rs:58-62 | a token is displayed as its three numbers, in the shortest hexadecimal digits, in lower case, with commas between |
| Tokens.ParseIff | crates/katana/primitives/src/event.rs:42-55 | a text is a token exactly if it is three 64-bit hexadecimal numbers with commas between; the error says whether the parts or the numbers are wrong |
| Tokens.ForkedIff | crates/katana/primitives/src/event.rs:80-93 | a text that starts with FK_ is the rest of it, forked; every other is native or fails as such |
| Tokens.MaybeForkedRoundTrip | crates/katana/primitives/src/event.rs:80-111 | so does every native or forked token |
| Tokens.DisplayInjective | crates/katana/primitives/src/event.rs:80-111 | no two tokens are displayed alike; a native one never looks forked |

## Left out

- Poseidon, Pedersen, Keccak and transaction hashes: only what is hashed is modelled.
- `Ty::ByteArray` rests on the cainome library, which is not part of this model: its codec is a parameter assumed lawful,
  and where it matters bounded by its input and blind to what it does not take. Such a codec exists (`CodecExists`).
- Library behaviour taken as documented: `crypto_bigint` prints 64 hexadecimal digits, `parse_cairo_short_string` reads
  a felt as `ShortString` does, `Felt::from_str` reads prefixed hexadecimal or decimal digits, `BTreeSet` places elements by
  the answers of `cmp` alone.
- Integer overflow: the FiFo counter, block numbers and lengths do not wrap; sizes of collections are bounded where the
  source converts them.
- JSON numbers are integers, and an object is a list of entries with distinct keys; floating-point JSON is not modelled.
- The encoder in `SchemaParser` is reconstructed from what the parser reads.
- SchemaParser.ParseUndoesEncode: leaves out option types and array items the parser cannot take, as `OptionIsTakenIff` and
  `ParseArrayAccepts` state exactly.
- PoolStreams.Subscription.PollNext: a channel never reports `Pending` while it holds messages; the cooperative budget of the
  runtime is not modelled in the class, while the protocol lets a drain stop at any point.
- TransactionPool.Listener: a listener is full at a fixed capacity; the extra slot per sender of the channel library is not
  modelled.
- The validator's verdict, the provider's answers and the timer's ticks are inputs; wakers, timestamps and logging are
  left out.
- The conversion of settlement events into L1 handler transactions is a parameter, and so are its panics on malformed logs.
- Settlement blocks are final: reorganisations are not modelled.
- `to_numeric`, `from_numeric`, SQL types and values, `Display` of types, struct lookup by name, `TxId` neighbours.
- Command line, build scripts, RPC servers, the trie, the executor and task management.
