# corecbor: a Dafny model of the CBOR codec, EDHOC, AES-CCM and AES Key Wrap

This project models the core of corecbor and proves what it is for.

* **CBOR codec** (RFC 8949). `Encoding` and `Decoding` say, for every value, every input and
  every set of options, which bytes are appended, which value and offset are returned, and
  which error arises where. `Encoder`, `Decoder`, `Preorder` and `Cursor` carry the loops,
  the reused buffers, the hash index, the hand-inlined paths and the cursor of the original,
  each proved to do just that. About these functions the project proves one round-trip
  theorem for all modes, canonical form, prefix freedom, independence of entry order,
  agreement with Appendix C of RFC 8949, non-malleability of strict input, last-write-wins
  maps of either form, the key order of RFC 8949 in the bytes, and that skipping, sequences,
  chunked reading and decoding into the slabs of an arena follow decoding.
  The definitions themselves are tied to what RFC 8949, RFC 3629 and the code's own test
  vectors say: byte by byte, number by number, and in literal answers.
* **AES Key Wrap** (RFC 3394) and **AES-CCM** (RFC 3610) over an arbitrary block cipher:
  unwrapping and opening succeed on exactly what wrapping and sealing produce.
* **EDHOC**: both state machines over abstract primitives, with the codec and the CCM above.
  Honest runs agree; arbitrary runs are safe; and for a party that completes, one of the runs
  that took place is a run of its peer with the same transcript and keys, unless the signature
  it verified was sent out in none of them, or the hash collides.

## Where to start

| file | about |
|---|---|
| `Bytes`, `Wire`, `Floats`, `Values`, `KeyOrder` | bytes, heads, exact float narrowing, values, key order |
| `Octets`, `CborFormat`, `Utf8`, `MapKeys` | what bytes, heads, floats, text and keys are, apart from the code |
| `CcmFormat`, `AesKwFormat`, `EdhocFormat` | the blocks, registers and bytes of the constructions and of EDHOC |
| `KnownAnswers` | literal answers in both directions, one input for each error |
| `Encoding`, `Decoding` | the codec as functions |
| `RoundTrip`, `Canonical`, `Reordering` | decoding what was encoded; canonical encodings |
| `WellFormed`, `Guarantees`, `NonMalleable`, `MapAssembly`, `Locality` | decoding any input |
| `Sorting`, `Encoder`, `Preorder`, `Decoder`, `Cursor`, `Sequences` | the code as it runs |
| `Arena`, `ArenaMemory`, `ArenaDecoding` | slabs, what their slices mean, decoding into them |
| `Counterexamples` | one concrete input for each expectation that fails |
| `Blocks`, `AesKw`, `Ccm` | the symmetric constructions |
| `EdhocMessages`, `EdhocKeys`, `EdhocAuth`, `Edhoc`, `EdhocParties` | EDHOC messages, keys, calls, objects |
| `EdhocAgreement`, `EdhocRuns` | honest runs; all runs |
| `EdhocTranscripts`, `EdhocPeers`, `EdhocConsistency` | what hashes and derivations commit to; agreement of the two ends |

`dafny verify dfyconfig.toml` checks everything.

## What turned out to need a condition

The code does not meet some expectations on all inputs. Each time the exact condition is
proved, and `Counterexamples` has an input.

* Decoding an encoding returns the normal form exactly on the values that `RoundTrip.Fits`
  describes. Not among them: a root tag 55799, which is stripped (rfc8949/decode.go:722,
  `Counterexamples.RootTagIsStripped`); simple values 20 to 31
  (`Counterexamples.SimpleIsRefused`); floats whose bit pattern is a small integer, which
  `RejectNonShortest` refuses (rfc8949/decode.go:133, `Counterexamples.HalfZeroIsRefused`);
  keys that `valuesEqual` identifies (`Counterexamples.ZeroKeysAreOne`).
* Inlined short strings skip the string limit, so they agree with the general path exactly
  if they are within it (`MapAssembly.ElementIsValue`, `MapAssembly.KeyIsValue`,
  `Counterexamples.ElementEscapesLimit`).
* Elements of arrays, and keys and values of maps that are not sorted, skip the UTF-8 check
  of the encoder (`Canonical.ArrayEncodes`, `Canonical.MapEncodes`,
  `Counterexamples.ElementEscapesCheck`).
* The hash index makes the same map as the scan exactly if equal keys hash alike, and with the
  duplicate check also where both refuse the map (`MapAssembly.IndexIsScan`); it does so under
  every hash exactly if equal keys have the same bytes (`MapAssembly.EveryIndexIsScan`). A map
  of 17 pairs with an integer key in two lengths shows that they need not, and passes the
  duplicate check (`Counterexamples.IndexMissesDuplicate`).
* Strict input is canonical up to three exceptions: additional information 31 on the major
  types 0, 1 and 6 (`Counterexamples.OpenEndedInteger`), half-precision floats
  (`Counterexamples.HalfIsWidened`), and a leading tag 55799
  (`NonMalleable.StrictInputIsItsEncoding`).
* A precomputed order agrees with the encoder on all maps that the encoder sorts and on those
  of at most one entry, but for one entry whose key, or whose value after a key that encodes, is
  text that fails the UTF-8 check. An encoder that does not sort writes the rearranged map,
  unless the first value that fails is such text (`Preorder.PreorderedIsEncoding`,
  `Counterexamples.SingletonEscapesCheck`).
* What a decoder with default rejections accepts is exactly what is well-formed and within its
  limits (`WellFormed.AcceptedExactly`), but for strings of less than 24 bytes, which elements do
  not check (`Counterexamples.ElementEscapesLimit`), for open-ended maps, in which equal keys
  count once (`Counterexamples.OpenMapCountsKeys`), and for root tags, which do not nest.
* After a key was found, leaving the map before its value is consumed gets to the end of the
  map exactly if the map has a length (`Cursor.ExitAfterFind`, `Counterexamples.ExitRunsPast`).
* The search for a map key compares the bytes of text keys: for the empty key it also stops at the
  reserved initial bytes 7c to 7e (`MapKeys.MatchIsDecodedText`,
  `Counterexamples.EmptyKeyIsFoundEarly`).
* The 32-bit block counter of CCM repeats from 2^32 blocks on (`Ccm.CounterWraps`); a length
  field of more than four bytes admits such messages (`Ccm.CountersAreDistinct`).
* An initiator always computes on the curve of its first suite, so an honest run succeeds
  exactly if the responder lists that suite (`EdhocAgreement.HonestRunNeedsFirstSuite`,
  `EdhocAgreement.SecondSuiteIsNotEnough`).
* TH_2 takes message_1 without a frame, so equal inputs have equal message_1, G_Y and C_R
  exactly if the two message_1 have one length; they need not where bytes follow the last
  item of message_1, which the decoder ignores (`EdhocTranscripts.Input2IsInjective`,
  `EdhocTranscripts.TH2IsNotInjective`, `EdhocTranscripts.ShortInputsCollide`).

## Where the code and its documentation differ

The model follows the code.

* The engineering requirements promise that every value `ModePermissive` accepts survives a
  round trip; that holds exactly for the values that fit (`Canonical.PermissiveRoundTrip`).
* They promise that the deterministic modes normalise NaN; `ModeCTAP2` keeps the payload
  (`Canonical.NaNsAreNormalised`, `Counterexamples.NaNsStayApart`). They give `ModeCanonical`
  the bytewise order; the code sorts by length first (encoder.go:109-112,
  `Counterexamples.ModesOrderDifferently`).
* The comment on computeTH2 hashes a hash of message_1; the code hashes message_1 itself
  (edhoc/keyschedule.go:20-24). The comment on connection identifiers names -24 to 23; the
  code writes 0 to 23 as integers (edhoc/message.go:219-226).
* The arena is documented to hold tag contents; decodeTag does not use it
  (rfc8949/arena.go:8-10).

## Model

| member | source | states |
|---|---|---|
| `Wire.ParseWrittenHead` | wire/head.go:69-105 | a written head parses back to its major type, argument and length at any offset and whatever follows, and counts as shortest |
| `Wire.ShortestHeadIsWritten` | wire/head.go:109-122 | a parsed head that counts as shortest is byte for byte the head that is written for its major type and argument |
| `Octets.BigEndian` | wire/head.go:44-57 | byte i of a big-endian string of k bytes is byte k-1-i of the number, counted from the lowest |
| `CborFormat.WrittenHead` | wire/head.go:44-57 | a head is one byte 32*major + argument below 24, or 32*major + 24, 25, 26, 27 and the argument in one, two, four or eight bytes, each spelled out |
| `CborFormat.ReadHead` | wire/head.go:69-105 | every head, shortest or not, is read as its major type and the number its 0, 1, 2, 4 or 8 argument bytes spell; one that is not whole has length 0 |
| `CborFormat.InitialByteDecides` | rfc8949/decode.go:119-157 | every decoded value is of the kind its initial byte announces, with the integer, length, tag number, simple value or float that stands there, and ends where that says |
| `CborFormat.FloatForms` | rfc8949/encode.go:175-219 | a float is written if it is finite or that is not asked for, as the number it is: nine bytes in one mode, the fewest of three, five and nine in the deterministic modes, and its own bits otherwise |
| `Floats.EncodeFloat16Exact` | wire/float16.go:43-103 | a double narrows to a half h if and only if h denotes the same number with the same sign; every NaN and only a NaN gives 7e00 |
| `Floats.NarrowSound` | wire/float16.go:112-117 | the single a double narrows to denotes the same number |
| `Floats.NarrowComplete` | wire/float16.go:112-117 | every double that some single denotes is recognised, and narrows to that single |
| `Floats.HalfToDouble` | wire/float16.go:15-37 | the double of a half denotes the same number, subnormals and both zeros included |
| `Floats.ShortestWireIsExactAndMinimal` | rfc8949/encode.go:211-219 | the emitted float denotes the value; it is a half exactly if some half does, and a double exactly if neither a half nor a single does |
| `Floats.ShortestWireStable` | rfc8949/encode.go:211-219 | re-encoding the decoded shortest float gives the same bytes, and every NaN becomes 7e00 |
| `KeyOrder.ComparesAgree` | rfc8949/encode.go:300-313 | the early test of the first byte in the sort comparison changes nothing: it is the comparison of the precomputed order |
| `KeyOrder.ComparesAsOrdered` | rfc8949/encode.go:300-313 | both comparisons are negative exactly if the first key is before the second in the order of RFC 8949, bytewise (a proper prefix, or the smaller byte at the first difference) or shorter first, and zero exactly on equal keys |
| `KeyOrder.LeqTotalOrder` | rfc8949/encode.go:300-313 | both key orders are those orders or equality, and total orders on byte strings |
| `KeyOrder.SortedOrderCorrect` | rfc8949/encode.go:298-313 | the order entries are written in is a permutation of the entries along which every key is before the next in that order, or equal to it |
| `Sorting.SortFunc` | rfc8949/encode.go:300-313 | sorting a prefix of an array in place leaves the stably sorted prefix and does not touch the rest |
| `Sorting.SortedIndices` | rfc8949/encode.go:298-313 | sorting key entries by comparing their keys orders their indices as the specification of the key order says |
| `Encoder.Encode` | rfc8949/encode.go:87-173 | appends exactly the specified bytes and returns the specified error on every value and every option, partial output included, independent of the cache and its old contents; the `used` flag is restored on every exit |
| `Encoder.EncodeArray` | rfc8949/encode.go:106-138 | the loop over array elements, with text unchecked, is the specified list of elements |
| `Encoder.EncodeUnsorted` | rfc8949/encode.go:223-264 | the loop over the entries of an unsorted map is the specified list of entries |
| `Encoder.EncodeMap` | rfc8949/encode.go:221-333 | head, then entries in their own or in key order, with the state taken from the cache or the pool and given back |
| `Encoder.FillKeys` | rfc8949/encode.go:283-296 | the key buffer and the entries mark exactly the encoded keys, or the first key error is returned |
| `Encoder.EncodeSorted` | rfc8949/encode.go:277-332 | filling, sorting and writing through the reused buffers gives the specified ordered entries, whatever the buffers held |
| `Encoder.SortStateCache.Get` | rfc8949/encode.go:40-47 | the state is handed out once and with an empty key buffer; while it is in use there is none |
| `RoundTrip.FaithfulItem` | rfc8949/decode.go:119-157 | at every position and depth, for every encode mode and all decode options: the decoder ends exactly after the encoding and returns the normal form of the value if and only if the value fits the options |
| `Canonical.DecodeOfEncode` | rfc8949/decode.go:111-113 | decoding an encoding followed by anything consumes the encoding, and yields the normal form if and only if the value fits |
| `Canonical.EncodingsArePrefixFree` | rfc8949/encode.go:87-173 | no encoding that fits is a proper prefix of another, and equal encodings have equal normal forms |
| `Canonical.PermissiveRoundTrip` | rfc8949/decode.go:111-113 | in permissive mode, with any of its options, decoding returns the very value if and only if the value fits |
| `Canonical.EncodeOfNormalForm` | rfc8949/encode.go:87-173 | the normal form encodes to the same bytes, and is its own normal form |
| `Canonical.EncodingsAreCanonical` | rfc8949/encode.go:87-173 | two values that fit are written alike if and only if they have the same normal form |
| `Canonical.EntryOrderIsIrrelevant` | rfc8949/encode.go:221-333 | with distinct written keys, permuting the entries of one map changes neither its encoding nor its normal form, in both sort modes |
| `Reordering.EntryOrderIsIrrelevantWithin` | rfc8949/encode.go:221-333 | the same for values that are equal up to the order of entries in all their maps, at every depth, in keys and in values |
| `Canonical.KeyOrderIsUnique` | rfc8949/encode.go:298-313 | entries with distinct written keys have only one sorted arrangement |
| `Canonical.AnySortWritesTheSame` | rfc8949/encode.go:298-332 | with distinct written keys every sorting algorithm gives the same bytes |
| `Canonical.MapEncodes` | rfc8949/encode.go:221-333 | a map encodes exactly if its entries do, with text checked only where the map is sorted, and then to its head and the entries in written order |
| `Canonical.WrittenInOrder` | rfc8949/encode.go:221-333 | the bytes of a sorted map are its head and its entries in an order in which every written key is before the next in the order of RFC 8949, or equal to it |
| `Canonical.ArrayEncodes` | rfc8949/encode.go:106-138 | an array encodes exactly if its elements do, text unchecked, and then to its head and the elements one after another |
| `Canonical.NaNsAreNormalised` | encoder.go:94-119 | a deterministic mode that admits NaN writes all NaNs alike if and only if it uses the shortest float |
| `Preorder.PrecomputeMapOrder` | rfc8949/preorder.go:20-52 | returns the encoded keys and their indices in key order, or the first key error |
| `Preorder.EncodeMapPreordered` | rfc8949/preorder.go:54-65 | appends the head and, along the order, each key and the encoding of the value it belongs to |
| `Preorder.PreorderedIsDeterministic` | rfc8949/preorder.go:54-65 | for maps the deterministic encoder sorts, precomputing and encoding along the order equals deterministic encoding: bytes and errors, on every input |
| `Preorder.PreorderedIsEncoding` | rfc8949/preorder.go:54-65 | for every encoder and every map: an order exists if and only if every key encodes; a map that the encoder sorts, or of at most one entry, comes out along its order as the encoder writes it (bytes, error, and the bytes before an error) if and only if it is not a single entry whose key, or whose value after a key that encodes, is text failing the checked UTF-8 test, with the one further case in which only the outcome agrees; an encoder that does not sort gives the encoding of the map rearranged in the order if and only if the first value that fails is not such text |
| `Decoder.Decode` | rfc8949/decode.go:111-113 | returns the specified value and offset, or the specified error kind and offset, on every input and all options |
| `Decoder.DecodeValue` | rfc8949/decode.go:119-157 | the dispatch on the head, as specified |
| `Decoder.DecodeChunks` | rfc8949/decode.go:186-223 | the loop over the chunks of an indefinite-length string, with its limits on one chunk and on their sum |
| `Decoder.DecodeText` | rfc8949/decode.go:225-256 | definite and indefinite text, with the UTF-8 check and its error offset |
| `Utf8.ValidTextIsUnicode` | rfc8949/decode.go:225-256 | a string counts as valid text if and only if it is the UTF-8 encoding of some Unicode scalar values |
| `Decoder.DecodeInlineInteger` | rfc8949/decode.go:339-398 | the hand-inlined head of an integer element gives the same value, offset and error as the specified element |
| `Decoder.DecodeElement` | rfc8949/decode.go:331-470 | an array element with all its inlined paths is the specified element |
| `Decoder.DecodeArray` | rfc8949/decode.go:301-472 | definite and indefinite arrays: counts, depth, element by element |
| `Decoder.DecodeKey` | rfc8949/decode.go:537-571 | a map key with its inlined path is the specified key |
| `Decoder.DecodeDefiniteMap` | rfc8949/decode.go:502-589 | the loop over the pairs, with the hash index above the threshold, is the specified list of insertions |
| `Decoder.DecodeIndefiniteMap` | rfc8949/decode.go:591-632 | the pairs up to the break, looked up by scan |
| `Values.ValuesEqualIsSameKey` | rfc8949/decode.go:675-712 | two keys are equal if and only if they are the same integer, string or simple value, or floats of one width, neither NaN, that denote the same number or zeros; containers and tags never |
| `Decoder.MapInsert` | rfc8949/decode.go:634-673 | insertion through the hash index, or by scan, gives the value to the first entry with the same key (and hash, in the index), refuses it with the duplicate check, and appends an entry if there is none; the index stays exact |
| `Decoder.KeyDedup.Add` | rfc8949/decode.go:18-28 | the index lists, for every hash, exactly the positions added under it |
| `Decoder.HashKey` | rfc8949/decode.go:30-37 | the loop computes the 64-bit FNV-1a hash |
| `Decoder.DecodeTag` | rfc8949/decode.go:714-734 | tags: unknown tag check, stripping of the self-described tag, depth |
| `MapAssembly.ElementIsValue` | rfc8949/decode.go:403-440 | the inlined element path equals the general one if and only if no short string there is longer than the string limit |
| `MapAssembly.KeyIsValue` | rfc8949/decode.go:537-560 | the same for the inlined key path |
| `MapAssembly.AcceptingMapIsLastWrite` | rfc8949/decode.go:634-673 | without the duplicate check the entries are the first occurrences of the keys, in order, each with the last value of its key, where keys are the same by what they are |
| `MapKeys.DecodedMapIsLastWrite` | rfc8949/decode.go:502-589 | a decoded map has one entry for each of its keys, with the last value, in the order of the first occurrences, unless the index was used and one key stands there in different bytes; with the duplicate check no key stands there twice |
| `MapKeys.DiscreteMapRoundTrip` | rfc8949/decode.go:502-589 | an encoded map whose keys are integers, strings or simple values comes back if and only if it is within the limits, its entries come back, and its keys are different |
| `MapAssembly.RejectingMapIsDistinct` | rfc8949/decode.go:634-673 | with the duplicate check a map is refused if and only if two keys are the same, and otherwise is what it is without |
| `MapAssembly.IndexIsScan` | rfc8949/decode.go:634-673 | for every hash function: the index makes the same map as the scan if and only if equal keys hash alike; with the duplicate check the two agree if and only if equal keys hash alike or some two equal keys do, so that both refuse the map |
| `MapAssembly.EveryIndexIsScan` | rfc8949/decode.go:634-673 | the index makes the same map as the scan under every hash function if and only if equal keys have the same bytes |
| `MapAssembly.DecodedMapIsAssembly` | rfc8949/decode.go:502-632 | a definite or indefinite map decodes if and only if its pairs can be read, their assembly is not refused and an indefinite one keeps the limit on its keys; it is then that assembly, and the only other errors are the duplicate key and, without a count, the limit |
| `MapAssembly.DecodedMapKeepsLast` | rfc8949/decode.go:502-673 | in every map that decodes the entries are the first occurrences of the keys, each with the last value of its key; without the index no two keys are equal; with the duplicate check the entries are the pairs, and no two are the same |
| `WellFormed.AcceptedIsWellFormed` | rfc8949/decode.go:111-113 | whatever is accepted is well-formed by Appendix C of RFC 8949 up to the one leniency for additional information 31, and exactly its extent is consumed |
| `WellFormed.WellFormedIsAccepted` | rfc8949/decode.go:111-113 | with default rejections every lenient well-formed item within the limits is accepted and its extent consumed |
| `WellFormed.AcceptedExactly` | rfc8949/decode.go:111-113 | with default rejections, a string limit of at least 23, and no open-ended map that could hold more pairs than the limit, an input is accepted if and only if the value behind its root tags 55799 is well-formed, up to the leniency, and within the limits; exactly its extent is consumed |
| `WellFormed.AppendixCIsAccepted` | rfc8949/decode.go:111-113 | in particular every Appendix C item within the limits |
| `Guarantees.DecodedIsGuaranteed` | rfc8949/decode.go:119-157 | a decoded value respects nesting, counts and string lengths, and the rejections of invalid text, unknown tags, non-finite floats, null keys and, in maps of up to 16 entries, equal keys; the rejections of lengths and of long heads are about bytes and part of the strict input below |
| `NonMalleable.StrictInputIsItsEncoding` | rfc8949/decode.go:119-157 | under strict options an accepted input is the permissive encoding of its value if and only if it is well-formed by Appendix C, without half-precision floats, and does not begin with the self-described tag |
| `NonMalleable.StrictInputsAreUnique` | rfc8949/decode.go:119-157 | so no two such inputs decode to the same value |
| `Locality.DecodeIsLocal` | rfc8949/decode.go:111-113 | a successful decode depends only on the bytes it consumes |
| `Locality.LocalValue` | rfc8949/decode.go:119-157 | the same bytes at any other offset of any other source decode to the same value |
| `Sequences.EncodeSequence` | sequence.go:51-60 | appends the items one after the other up to the first error |
| `Sequences.DecodeSequence` | sequence.go:63-75 | returns all items of the input, or the first error |
| `Sequences.SequenceRoundTrip` | sequence.go:51-75 | an encoded sequence decodes to the normal forms of its items if and only if every item fits |
| `Sequences.BufferedReader.DecodeFromBuffered` | rfc8949/stream_decode.go:55-82 | whatever the reader returns, in any pieces and with errors beside or instead of bytes: the item at the front of the bytes up to the first error that comes without bytes, every other byte stays pending; if there is none, those bytes are gone and the error of the reader is reported only if there were none |
| `Sequences.DrainStream` | rfc8949/stream_decode.go:55-82 | repeated reads yield the items of the bytes delivered up to that error, and end with it if and only if those bytes are a sequence |
| `Cursor.SkipFollowsDecode` | rfc8949/cursor.go:287-351 | wherever an item decodes, under any options, skipping consumes the same bytes |
| `Cursor.SkipFollowsCursorDecode` | rfc8949/cursor.go:96-104 | the cursor skips as far as it would decode |
| `Cursor.ExtentIsSkipped` | rfc8949/cursor.go:287-351 | skipping consumes the extent of every well-formed item |
| `Cursor.Cursor.Advance` | rfc8949/cursor.go:287-351 | the recursive skip moves the cursor as specified, also where it fails |
| `Cursor.Cursor.Skip` | rfc8949/cursor.go:74-81 | returns the number of bytes skipped and charges the top frame; on failure no frame is charged |
| `Cursor.Cursor.RawBytes` | rfc8949/cursor.go:85-92 | returns exactly the bytes skipped |
| `Cursor.Cursor.DecodeItem` | rfc8949/cursor.go:96-104 | decodes at the position, moves past the item and charges the top frame, or changes nothing |
| `Cursor.Cursor.Enter` | rfc8949/cursor.go:142-164 | moves past the head and pushes the frame of that head, or changes nothing |
| `Cursor.Cursor.Exit` | rfc8949/cursor.go:186-199 | skips what is left of the container and pops its frame |
| `Cursor.Cursor.FindMapKey` | rfc8949/cursor.go:205-258 | moves as the specified search says, and only changes the top frame |
| `Cursor.EnterKeepsDecodedEnd` | rfc8949/cursor.go:142-164 | after entering a container that decodes, the rest of it ends where the decoder is after it |
| `Cursor.ItemKeepsEnd` | rfc8949/cursor.go:260-285 | consuming an item keeps that end |
| `Cursor.PairKeepsEnd` | rfc8949/cursor.go:260-285 | consuming a whole pair of a map keeps that end and the key boundary |
| `Cursor.FindsFirstKey` | rfc8949/cursor.go:205-258 | from a key boundary the search stops at the value of the first remaining definite text key that equals the target, with the frame counted down; behind that value the rest of the map still ends where it did; it reports failure at the end of the map if and only if there is no such key |
| `MapKeys.MatchIsDecodedText` | rfc8949/cursor.go:205-258 | the search stops at exactly the items that decode to the text and are not in chunks, and for the empty text also at three reserved initial bytes |
| `Cursor.ExitAfterFind` | rfc8949/cursor.go:186-199 | leaving a well-formed map at a found value gets to the end of the map if and only if the map has a length |
| `Arena.Slab.Alloc` | rfc8949/arena.go:40-53 | the buffers afterwards are the buffers before and one more of the requested size, disjoint from all others since the last reset, across growth |
| `Arena.Slab.Grow` | rfc8949/arena.go:56-69 | a new slab leaves handed-out buffers where they are |
| `Arena.Slab.Store` | rfc8949/arena.go:40-53 | storing through one slice changes that buffer and no other |
| `Arena.Arena.AllocPairs` | rfc8949/arena.go:56-69 | in an arena of both slabs: one more buffer of pairs, all else as it was |
| `Arena.Arena.Reset` | rfc8949/arena.go:33-36 | no buffers are left, and the slabs still hold what they held |
| `ArenaDecoding.DecodeIn` | rfc8949/decode.go:111-113 | decoding into the slabs of an arena, whatever they hold and however they grow: same errors and offsets, a cell whose slices denote the value decoding without an arena returns, and every slice handed out before unchanged |
| `ArenaDecoding.DecodeItemsIn` | rfc8949/decode.go:315-470 | the loop that stores the elements into the slice of an array, while nested containers allocate from the same slab, leaves a slice that denotes the specified items |
| `ArenaDecoding.DecodePairsIn` | rfc8949/decode.go:527-589 | the loop over the pairs of a map in the slice it was given leaves a slice that denotes the specified entries |
| `ArenaDecoding.InsertIn` | rfc8949/decode.go:634-673 | an insertion replaces a value in place or appends to the slot behind the entries, never outside the slice of the map |
| `ArenaDecoding.Read` | rfc8949/arena.go:10-12 | following the slices of a cell through the slabs as they are reaches the value it denotes |
| `ArenaMemory.CellKeeps` | rfc8949/arena.go:33-69 | what a cell denotes depends on no slice but those it refers to |
| `ArenaMemory.OlderValuesStay` | rfc8949/arena.go:33-69 | a value decoded before, and not given up by a reset, denotes the same after any further decoding |
| `ArenaMemory.InsertDenotes` | rfc8949/decode.go:634-673 | inserting references into a map is inserting what they denote, or refusing the same duplicates |
| `AesKw.Wrap` | cose/internal/aeskw/aeskw.go:19-68 | the nested loops over the registers compute the wrapped key, with the length and key errors in order; it is what the shifting registers of RFC 3394 hold after 6n steps from A = a6a6a6a6a6a6a6a6 |
| `AesKw.Unwrap` | cose/internal/aeskw/aeskw.go:72-125 | the loops in reverse compute the unwrapped key or the integrity error |
| `AesKw.StepsInverse` | cose/internal/aeskw/aeskw.go:72-125 | the steps are undone in reverse order, both ways round |
| `AesKw.UnwrapIsExact` | cose/internal/aeskw/aeskw.go:72-125 | for every block permutation, unwrapping x yields p if and only if wrapping p yields x |
| `AesKw.WrapIsInjective` | cose/internal/aeskw/aeskw.go:19-68 | different key data wraps to different strings |
| `AesKw.BothDescriptionsAgree` | cose/internal/aeskw/aeskw.go:19-68 | the indexed rounds compute what the shifting description of section 2.2.1 of RFC 3394 computes |
| `AesKwFormat.WrapIsShifting` | cose/internal/aeskw/aeskw.go:19-68 | key data wrap to x if and only if they are two or more halves and x is A and the registers after 6n shifting steps from A = a6a6a6a6a6a6a6a6 |
| `AesKwFormat.UnwrapIsShifting` | cose/internal/aeskw/aeskw.go:72-125 | unwrapping yields the key data from exactly these x |
| `AesKwFormat.PlainWrap` | cose/internal/aeskw/aeskw.go:19-68 | where encryption is the identity, sixteen bytes wrap to a6a6a6a6a6a6a6aa and themselves |
| `Ccm.Seal` | edhoc/internal/aesccm/ccm.go:50-69 | appends the sealing: counter mode over the plaintext, then the masked tag |
| `Ccm.Open` | edhoc/internal/aesccm/ccm.go:71-107 | appends the plaintext or fails, with every length check |
| `Ccm.OpenIsExact` | edhoc/internal/aesccm/ccm.go:71-107 | opening yields p if and only if the lengths are admissible and the ciphertext is the sealing of p |
| `Ccm.ComputeTag` | edhoc/internal/aesccm/ccm.go:121-151 | the tag is the CBC fold over the formatted string |
| `CcmFormat.FirstBlockLayout` | edhoc/internal/aesccm/ccm.go:121-151 | the first authenticated block: additional data in bit 6, (M - 2) / 2 in bits 5 to 3, L - 1 in bits 2 to 0, then the nonce and the length |
| `CcmFormat.BodyLayout` | edhoc/internal/aesccm/ccm.go:121-151 | behind it the additional data behind their length in one of three spelled-out forms, and the plaintext, each filled up with zeros |
| `CcmFormat.CounterLayout` | edhoc/internal/aesccm/ccm.go:224-233 | byte j of the message is masked by L - 1, the nonce and the number of its block from 1, the tag by number 0 |
| `CcmFormat.PacketVector1` | edhoc/internal/aesccm/ccm.go:50-69 | packet vector 1 of RFC 3610 for any block cipher: its formatted and counter blocks as literal bytes, and what they are sealed to |
| `Octets.XorByteIsBitwise` | edhoc/internal/aesccm/ccm.go:235-239 | the exclusive or of two bytes is the one byte whose bits are set where theirs differ |
| `Ccm.CbcAad` | edhoc/internal/aesccm/ccm.go:153-194 | the additional data is absorbed with its length form, block by block |
| `Ccm.CbcPlaintext` | edhoc/internal/aesccm/ccm.go:196-204 | the plaintext is absorbed with zero padding, block by block |
| `Ccm.CtrInto` | edhoc/internal/aesccm/ccm.go:207-220 | the nested loops xor the keystream in place |
| `Ccm.CtrBlock` | edhoc/internal/aesccm/ccm.go:224-233 | a keystream block is the encryption of flags, nonce and counter |
| `Ccm.FormatIsPrefixFree` | edhoc/internal/aesccm/ccm.go:121-151 | no formatted string is a prefix of another: it determines nonce, plaintext and additional data across the three length forms |
| `Ccm.LengthPrefixIsPrefixFree` | edhoc/internal/aesccm/ccm.go:153-194 | the 2, 6 and 10-byte length forms are a prefix code |
| `Ccm.CountersAreDistinct` | edhoc/internal/aesccm/ccm.go:207-220 | the counter blocks of a message and of its tag are pairwise different if and only if the message has fewer than 2^32 blocks |
| `Ccm.SmallLengthFieldsNeverWrap` | edhoc/internal/aesccm/ccm.go:224-233 | with a length field of at most four bytes they always are |
| `EdhocMessages.DecodeSuites` | edhoc/message.go:77-102 | the loop that fills the suites accepts an integer or a non-empty array of integers and nothing else |
| `EdhocMessages.SuitesRoundTrip` | edhoc/message.go:66-75 | encoded suites decode to themselves and leave the rest |
| `EdhocMessages.ConnectionIDRoundTrip` | edhoc/message.go:228-241 | a connection identifier comes back if and only if it is within the string limit |
| `EdhocMessages.Message1RoundTrip` | edhoc/message.go:104-142 | message_1 comes back, with its first suite selected |
| `EdhocMessages.Message2RoundTrip` | edhoc/message.go:163-194 | message_2 comes back |
| `EdhocMessages.DecodeOneOfEncode` | edhoc/message.go:243-252 | an item that is its own normal form comes back, with the rest, if and only if it fits the default limits |
| `EdhocFormat.KdfIsDerived` | edhoc/keyschedule.go:61-76 | for a 32-byte hash, the key derivation returns the front of the expansion of 83 5820 hash, 60 + the length of the label, label, length |
| `EdhocFormat.DerivationBytes` | edhoc/keyschedule.go:61-76 | the ten inputs of a session as literal bytes, label by label |
| `EdhocFormat.Message2Derivations` | edhoc/responder.go:162-216 | CIPHERTEXT_2 is sealed and opened under the key, nonce and MAC derived with exactly the labels K_2e, IV_2e and MAC_2 over TH_2, AES-CCM with 8-byte tags, 81 5820 TH_2 as additional data, around a signature over that MAC |
| `EdhocFormat.Message3Derivations` | edhoc/initiator.go:291-345 | the same for CIPHERTEXT_3 with K_3e, IV_3e and MAC_3 over TH_3 |
| `EdhocFormat.Message4Derivations` | edhoc/responder.go:263-290 | message_4 seals nothing under K_4 and IV_4 over TH_4, and is accepted exactly if it seals something under them |
| `EdhocFormat.OscoreDerivations` | edhoc/context.go:40-60 | the OSCORE context: 16 bytes of OSCORE_Master_Secret and 8 of OSCORE_Master_Salt over TH_4, the own identifier for sending and the peer's for receiving |
| `EdhocFormat.ExportIsDerived` | edhoc/context.go:31-38 | an export is the front of the expansion of 84, TH_4, EDHOC_Exporter_ and the number, context and length in CBOR |
| `EdhocFormat.DecimalDenotes` | edhoc/context.go:31-38 | the number in that label is written in base ten, without leading zeros, behind a sign if negative |
| `EdhocFormat.SignStructForm` | edhoc/initiator.go:347-354 | what is signed is 84 6a Signature1, then credential, hash and MAC as byte strings |
| `EdhocFormat.IdCredForm` | edhoc/initiator.go:356-360 | the credential is the token as a byte string, or a1 04 and the raw public key |
| `EdhocFormat.HashForms` | edhoc/keyschedule.go:22-31 | TH_2 hashes message_1, the framed share and the identifier, TH_3 and TH_4 the framed hash and ciphertext, as literal bytes |
| `EdhocFormat.MessageForms` | edhoc/message.go:41-64 | message_1 and message_2 as literal bytes: method, suites, share, identifier; share, identifier, ciphertext |
| `EdhocFormat.ConnectionIDForm` | edhoc/message.go:221-226 | an identifier of one byte below 24 is that byte, any other a byte string |
| `EdhocFormat.SuiteForms` | edhoc/ciphersuite.go:35-54 | suites 0 and 2 are supported, with 16-byte keys, 8-byte tags, 13-byte nonces, and X25519 and P-256 |
| `EdhocFormat.IdentifierForms` | edhoc/initiator.go:60-88 | a new session has the configured identifier or one random byte modulo 24, and suites 0 or 2 only |
| `EdhocAuth.KdfInfoIsInjective` | edhoc/keyschedule.go:61-76 | the key derivation input determines transcript hash, label and length |
| `EdhocAuth.SignStructIsInjective` | edhoc/initiator.go:347-354 | the signed data determines credential, transcript hash and MAC |
| `EdhocAuth.TranscriptInputIsInjective` | edhoc/keyschedule.go:34-41 | the input of TH_3 and TH_4 determines the previous hash and the ciphertext |
| `EdhocAuth.AuthIsAccepted` | edhoc/initiator.go:238-289 | what an honest party signs, its peer accepts after decoding and re-encoding the credential |
| `EdhocKeys.OpenUndoesSeal` | edhoc/initiator.go:211-236 | on one channel, opening yields a plaintext if and only if it was sealed there |
| `EdhocParties.Initiator.New` | edhoc/initiator.go:60-88 | constructs the specified session or fails in the specified order |
| `EdhocParties.Initiator.CreateMessage1` | edhoc/initiator.go:90-117 | fields and result as specified |
| `EdhocParties.Initiator.ProcessMessage2` | edhoc/initiator.go:119-166 | fields and result as specified on every path, including those that fail half way |
| `EdhocParties.Responder.New` | edhoc/responder.go:58-85 | constructs the specified session; every configured suite must be supported |
| `EdhocParties.Responder.NegotiateSuite` | edhoc/responder.go:151-160 | the nested search loops find the specified suite |
| `EdhocParties.Responder.ProcessMessage1` | edhoc/responder.go:87-149 | fields and result as specified on every path |
| `EdhocParties.Responder.ProcessMessage3` | edhoc/responder.go:218-259 | fields and result as specified; a failure changes nothing |
| `EdhocAgreement.NegotiatedIsFirst` | edhoc/responder.go:151-160 | the negotiated suite is the first proposed one that the responder lists, if there is one |
| `EdhocAgreement.HonestRunSucceeds` | edhoc/responder.go:218-259 | if the responder lists the initiator's first suite, every honest run succeeds and both sides hold the same transcript hashes and keys and each other's connection identifiers |
| `EdhocAgreement.HonestRunNeedsFirstSuite` | edhoc/responder.go:87-149 | an honest run succeeds if and only if the responder lists the initiator's first suite |
| `EdhocAgreement.HonestRunAgrees` | edhoc/context.go:40-60 | after an honest run all exports agree, the OSCORE contexts mirror each other, and message_4 is accepted |
| `EdhocAgreement.Message4IsAccepted` | edhoc/initiator.go:170-209 | message_4 of a party with the same key and transcript is accepted |
| `EdhocRuns.OpenedIsAuthentic` | edhoc/responder.go:218-259 | opening and checking succeed if and only if the ciphertext seals, under the keys of the session, a credential and a signature of the peer over its re-encoding, the transcript hash and the MAC |
| `EdhocRuns.Message4IsExact` | edhoc/initiator.go:170-209 | message_4 is accepted if and only if the session is complete and the message seals something under its keys and transcript; a complete session accepts the one it would send |
| `EdhocRuns.InitiatorPhaseAdvances` | edhoc/initiator.go:119-166 | over any run the phase never goes back, and a complete session never changes |
| `EdhocRuns.CompleteInitiatorIsAuthenticated` | edhoc/initiator.go:119-166 | over any calls with any bytes: a complete initiator has accepted an authentic message_2 over its own transcript, and before that every export fails |
| `EdhocRuns.FailedInitiatorCallsAreHarmless` | edhoc/initiator.go:119-166 | leaving out the failed calls of a run does not change the session it ends in |
| `EdhocRuns.ResponderPhaseAdvances` | edhoc/responder.go:218-259 | over any run the phase never goes back, and the session changes only with it |
| `EdhocRuns.CompleteResponderIsAuthenticated` | edhoc/responder.go:218-259 | a complete responder has answered a message_1 and later accepted an authentic message_3 over that answer, and before that every export fails |
| `EdhocRuns.FailedResponderCallsAreHarmless` | edhoc/responder.go:87-149 | leaving out the failed calls of a run does not change the session it ends in |
| `EdhocTranscripts.Message1IsLocal` | edhoc/message.go:104-142 | message_1 decodes by its four items, whatever stands behind them |
| `EdhocTranscripts.Input2IsInjective` | edhoc/keyschedule.go:22-31 | equal inputs of TH_2 have equal message_1, G_Y and C_R if and only if the two message_1 have one length, in particular if both end with their last item; and message_1 that decode, decode alike in any case |
| `EdhocTranscripts.TH2IsNotInjective` | edhoc/keyschedule.go:22-31 | every message_1 that decodes has companions, with bytes behind the last item, that have the same content and, with other shares and identifiers, the same TH_2 under every hash |
| `EdhocTranscripts.DerivationsAreSeparated` | edhoc/keyschedule.go:61-76 | although the three PRKs are equal, two key derivations of one session or of any two have the same input if and only if they are the same derivation over the same transcript hash |
| `EdhocTranscripts.ExportsAreSeparated` | edhoc/keyschedule.go:78-85 | the input of an export determines transcript hash, label number, context and length |
| `EdhocTranscripts.ExportsAreNotDerivations` | edhoc/keyschedule.go:78-85 | no export has the input of a key derivation |
| `EdhocConsistency.HonestVerifies` | edhoc/responder.go:292-343 | the plaintext an honest party makes verifies at its peer over exactly the data that party has signed, and over nothing else |
| `EdhocPeers.CompleteInitiatorHasPeer` | edhoc/initiator.go:119-166 | for any set of runs that took place and any run of an initiator: if it is complete and the signature it has verified was sent out in one of those runs, by the peer, then one of them, of the peer, has answered with the same TH_2; and either it has the same content of message_1, the same bytes of message_1, G_Y and C_R exactly if nothing follows in its message_1, and then, where shares commute, the same keys and mirrored connection identifiers, or two named hash inputs collide |
| `EdhocPeers.CompleteResponderHasPeer` | edhoc/responder.go:218-259 | the same for a responder: one of the runs that took place, of the peer, is complete as initiator with the same TH_3, TH_2 and CIPHERTEXT_2, and so with the same messages and keys, or two named hash inputs collide |
| `EdhocPeers.MatchedRunsExport` | edhoc/context.go:16-21 | two complete ends with one TH_3 and the same keys, as agreement leaves them, have the same TH_4 if and only if the responder has accepted the CIPHERTEXT_3 the initiator has sent, or two named inputs collide; with the same TH_4 all exports are equal, the OSCORE contexts are mirrored, and message_4 of the one is accepted by the other |
| `EdhocConsistency.HonestRunIsNotForged` | edhoc/responder.go:218-259 | the two runs of every honest handshake, each given what the other sends, end complete in the two sessions of that handshake, and the signature each has verified was sent out in the other one |
| `EdhocAgreement.SecondSuiteIsNotEnough` | edhoc/responder.go:151-160 | an initiator that proposes suites 0 and 2 fails with a responder that supports suite 2, although the two have a suite in common |
| `KnownAnswers.UnsignedIntegers` | vectors_test.go:20-31 | nine integers and their bytes, in both directions |
| `KnownAnswers.NegativeIntegers` | vectors_test.go:33-37 | four negative integers and their bytes, in both directions |
| `KnownAnswers.Strings` | vectors_test.go:39-47 | byte and text strings and their bytes, in both directions |
| `KnownAnswers.SimpleValues` | vectors_test.go:49-53 | false, true, null, undefined and two simple values and their bytes, in both directions |
| `KnownAnswers.Containers` | vectors_test.go:55-64 | arrays, the empty map and a tag and their bytes, in both directions |
| `KnownAnswers.HalfFloats` | vectors_test.go:66-70 | four floats of three bytes, in both directions |
| `KnownAnswers.SingleFloat` | vectors_test.go:72-73 | 100000.0 in five bytes, from a single and from a double |
| `KnownAnswers.DoubleFloat` | vectors_test.go:75-76 | 1.1 in nine bytes, in both directions |
| `KnownAnswers.OneInOtherModes` | encoder.go:94-119 | 1.0 in the CTAP2, permissive and canonical modes |
| `KnownAnswers.OpenEndedItems` | vectors_test.go:78-81 | chunks are joined in order, and a break ends an array |
| `KnownAnswers.TwoTextKeys` | rfc8949/encode.go:221-333 | { "a": 1, "b": 2 }: both keys are kept, and both deterministic modes write a before b |
| `KnownAnswers.MalformedInputs` | rfc8949/decode.go:119-157 | five inputs that no options admit, with error and offset |
| `KnownAnswers.RefusedByOption` | error_catalog_test.go:19-78 | one input for each of five options, with error and offset |
| `KnownAnswers.RefusedByLimit` | error_catalog_test.go:110-138 | one input for each limit, with error and offset |
| `KnownAnswers.DefaultLimits` | rfc8949/decode.go:90-109 | the limits that hold when none is set: 256, 1048576 and 16777216 |
| `KnownAnswers.RefusedValues` | rfc8949/encode.go:87-173 | what the encoder refuses, and what its options admit |
| `KnownAnswers.HashVectors` | rfc8949/decode.go:30-37 | the offset basis of FNV-1a and the hash of one byte |
| `Counterexamples.RootTagIsStripped` | rfc8949/decode.go:714-734 | an encoding that does not decode to its value: the tag 55799 around 0 |
| `Counterexamples.SimpleIsRefused` | rfc8949/decode.go:749-756 | another: simple value 24, refused under all options |
| `Counterexamples.HalfZeroIsRefused` | rfc8949/decode.go:131-135 | another: the shortest 0.0 under RejectNonShortest |
| `Counterexamples.ZeroKeysAreOne` | rfc8949/decode.go:675-712 | another: a map with the keys 0.0 and -0.0 |
| `Counterexamples.ElementEscapesLimit` | rfc8949/decode.go:403-440 | a string over the limit that is refused alone and accepted as an element |
| `Counterexamples.OpenMapCountsKeys` | rfc8949/decode.go:591-632 | an open-ended map of three pairs with one key is accepted under a limit of two |
| `Counterexamples.ElementEscapesCheck` | rfc8949/encode.go:106-138 | invalid text that is refused alone and written as an element |
| `Counterexamples.SingletonEscapesCheck` | rfc8949/preorder.go:20-52 | a map of one entry that the encoder writes and whose order cannot be precomputed |
| `Counterexamples.IndexMissesDuplicate` | rfc8949/decode.go:502-673 | with the duplicate check on, a map of 17 pairs with the key 1 in one byte and in two is accepted, with the key 1 twice; a map of these two pairs is refused |
| `Counterexamples.OpenEndedInteger` | rfc8949/decode.go:119-157 | the byte 1f is accepted as 0 under strict options |
| `Counterexamples.HalfIsWidened` | rfc8949/decode.go:119-157 | the half 1.0 is accepted under strict options and written back in nine bytes |
| `Counterexamples.ExitRunsPast` | rfc8949/cursor.go:186-199 | in an open-ended map of one pair, leaving after the search runs past the break |
| `Counterexamples.EmptyKeyIsFoundEarly` | rfc8949/cursor.go:205-258 | the search for the empty key stops at the byte 7c, which the decoder refuses |
| `Counterexamples.ModesOrderDifferently` | encoder.go:94-119 | two keys that ModeCoreDeterministic and ModeCanonical write in different orders |
| `Counterexamples.NaNsStayApart` | encoder.go:94-119 | ModeCTAP2 with non-finite floats admitted does not write all NaNs alike |
| `EdhocTranscripts.ShortInputsCollide` | edhoc/keyschedule.go:22-31 | a shortest pair of inputs with one TH_2, under every hash |

## Left out

- Cursor.SkipItem: arguments that do not fit an int stop with the outcome `Oversized`; what the conversion `int(h.Arg)` leads to there (rfc8949/cursor.go:307) is not modelled. On input that decodes it does not occur.
- Cursor.Cursor.Advance: the same outcome `Oversized` in place of the converted argument.
- Cursor.Cursor.Enter: the same; it stands for EnterArray and EnterMap, which differ in the expected major type only, and entering does not charge the enclosing frame, so statements about frames are about one level.
- Cursor.Cursor.FindMapKey: the same outcome `Oversized` for a key whose length does not fit an int.
- Kind, AtBreak and AtEnd of the cursor, which read one byte or one field.
- Sorting.SortFunc: slices.SortFunc is an unstable sort of the Go library; the model sorts stably. With distinct encoded keys the result is the same; with equal encoded keys the order of their values is that of a stable sort.
- Floats.HalfToDouble: the payload and sign of NaNs follow the Go library on the usual platforms (math.NaN for a half, quieting on conversion of a single); no theorem depends on them.
- Decoding.Decode: memory budget, zero-copy strings, string interning and the pools are left out; they do not change the value. Offsets are unbounded integers, so sums of lengths do not overflow.
- Encoding.Enc: values with a kind outside the declared ones are left out; a tag without inner value is a tag around the invalid value. The buffer pool of Encoder.Encode (encoder.go:77-90) is left out.
- ArenaDecoding.DecodeIn: a value in an arena is a cell of its own type, not the type `Value`; small strings and the inlined element paths are those of `Decoding`, and open-ended containers grow in lists, as in the original they grow outside the arena. What a value decoded before a reset turns into afterwards is not stated.
- Sequences.BufferedReader.DecodeFromBuffered: the reader returns a finite list of deliveries and then end of file. DecodeFrom, which drops what follows the item, and Stream, which reports a truncated last item as the end, are left out.
- Ccm.Seal: destination and input are values, so overlapping buffers are left out. A panic on an overlong plaintext is a precondition here and the error `Panicked` in EDHOC.
- EdhocKeys.HonestCrypto: AES, SHA-256, HKDF, ECDH and signatures are abstract functions with the algebraic laws named there; keys are byte strings, randomness is a parameter.
- EdhocKeys.PeerKey: the extraction of a key from a CWT credential is an abstract function.
- EdhocKeys.AuthPlaintext: every signing failure counts as an unsupported signer type.
- EdhocAgreement.HonestRunSucceeds: token credentials are taken to be at most 65000 bytes, which leaves room for the signature in a message of two length bytes.
- EdhocPeers.CompleteInitiatorHasPeer: the hypothesis is about the one signature the run has verified; that signatures are hard to forge, and hashes hard to collide, is not a statement about functions and not made. CIPHERTEXT_3 enters no signature, so that the two ends have the same one is not claimed; `EdhocPeers.MatchedRunsExport` says what depends on it.
- EdhocPeers.Limits: bounds the lengths of hashes, shares and configured parts by what the decoder takes.
- Edhoc.Export: a negative length, on which the original panics, is excluded by the type.
- Reflection-based marshalling, raw messages, the stream writer, size estimates and homogeneous arrays.
- COSE apart from AES Key Wrap, CWT, EAT, diagnostic notation, the registries and the commands.
