# Proofs about the codecs of the Conflux C++ SDK

The SDK turns transactions, contract calls and addresses into bytes and text and back. This project models five pieces of it in
Dafny 4.11 and proves what they are for, over all inputs:

* **RLP** (`libdevcore/RLP.cpp`, `RLP.h`). `RLPStream` writes list headers late: when the last item of a list arrives, it moves
  bytes already written and puts a header in front of them, and this can cascade. The class is proved to refine a machine that
  holds trees, so a finished run has written the encoding of Appendix B of the Ethereum Yellow Paper (`RlpTree`, `RlpWriter`,
  `RlpBuilder`). The strict reader is its two-sided inverse (`RlpReader`, `RlpRoundTrip`), both in plain bytes (`RlpBytes`),
  through windows, iterators and the indexing cache of `operator[]` (`RlpCursor`, `RlpIndex`), for integers (`RlpInt`), and for
  the transaction that is signed (`TransactionRlp`).
* **Contract ABI** (`libcfxcore/abi`). Sizes, the two-pass encoder and the sequential decoder (`AbiParam`, `AbiEncoder`,
  `AbiDecoder`) are compared with each other (`AbiLayout`, `AbiRoundTrip`, `AbiLost`), and the encoder is proved injective
  (`AbiInjective`). It is compared with the section "Formal Specification of the Encoding" of the Solidity ABI specification
  (`AbiSolidity`), the decoder with one that follows the offsets (`AbiReference`); what any bytes decode to is in `AbiBytes`,
  calls with their selector in `AbiFunction`. Where the code departs from the specification, the exact condition is proved.
* **CIP-37 addresses** (`libcfxcore/types/cfxaddress`): bit regrouping for all widths (`Cip37Convert`), the checksum register and
  the errors it detects (`Cip37Polymod`), the residue (`Cip37Checksum`), the alphabet and the parts of a text (`Cip37Text`),
  network numbers (`Cip37Network`), the address itself (`Cip37Address`), the texts it accepts and what it makes of them
  (`Cip37Reading`), the comparison of addresses (`Cip37Equality`), accepted texts that are not what the library prints
  (`Cip37Examples`), and an address from its bytes to its text (`Cip37Vector`).
* **RIPEMD-160** (`libdevcrypto/Hash.cpp`): blocks and padding around a compression function that is a parameter (`Ripemd160`).
* **JSON strings and trees** (`utils/json_spirit`): escaping (`JsonEscape`) and the stack machine that builds values (`JsonTree`,
  `JsonBuilder`), and why its pointers stay good (`JsonPointers`).

Objects that change are classes (`RLPStream`, `RlpIterator`, `RLP` with its cache, `Address`, `SemanticActions`), arrays that are
filled in place are arrays, loops are loops; each is proved against a specification function, and the theorems are about those.
Exceptions are results (`Outcome`, `Result`, `Option`, `Attempt`, `Parsed`). `Numbers` holds positional numbers,
on which all of it rests.
`dafny verify dfyconfig.toml` checks the project.

## Where the code and its description differ

The model follows the code. Each of these is a theorem for all inputs, given with a concrete input where it shows.

* The comment on `RLP::operator[]` promises a null RLP for anything but a list. Strings are indexed too (`StringsAreIndexedToo`, at
  `82 05 06` `TwoBytesAreTwoItems`); only an empty payload gives the null RLP everywhere (`NullExactlyWhenEmpty`).
* An access that fails leaves the cache of `operator[]` half moved, so that an item that was served before throws (`At`,
  `GoodItemIsLost`).
* Iterating a list that does not fill its data never meets `end()` (`EndIsReached`, at `c1 05 00` `SpareByteHidesTheEnd`).
* Strict `toInt` reads an integer whose payload is cut short as 0, since `payload()` is then empty (`StrictIntsAreEncodings`, at
  `82 05` `CutShortReadsAsZero`).
* `ParamSet::getSize` counts an offset word for static fixed arrays wider than a word, which `encode` writes inline. Offsets behind
  such a member are wrong (`SizeIsExactWhenTight`, `OffsetWords`, `NestedStaticArrayMisplacesOffsets`).
* Every tuple calls itself dynamic, so a tuple without dynamic parts is not encoded as Solidity does it (`ConformsExactly`,
  `StaticTupleGetsOffset`).
* A dynamic `ParamArrayFix` reads a length that was never written, and empty arrays do not decode (`RestorableExactly`,
  `DynamicFixedArraysAreLost` at `string[1]`, `EmptyArraysAreLost`).
* The length check of `decodeBytes` wraps around, so that a length near 2^64 passes for a range that is none (`BytesBreak`,
  `HugeLengthBreaks`).
* `ParamFactory::make` takes the name of a fixed array for that of its innermost element, or throws (`FixedArrayNamesAreCut`).
* CIP-37 leaves i, l, o and q out of the alphabet; in a body they, and any other character, read as a (`StrangersReadAsA`,
  `StrangerIsAccepted`).
* The version byte and the padding bits of a base32 address are not checked (`ReadIsFromHex`, `WrongVersionIsAccepted`).
* `Address::operator==` compares the right operand's body with itself, so that addresses of different bytes can be equal
  (`SameExactly`, `TwoUsersCompareEqual`).
* `convert` does not mask symbols wider than the input width (`WideSymbolTaken`, `SameWidthIsIdentity`, `WideSymbolsSpill`).
* Texts of a network such as netx make `NewFromBase32` throw, and any network but cfx and cfxtest that does not begin with net has
  the number 0 (`AcceptedIsResidue`, `NumbersAreShared`).
* `ripemd160` keeps the size in 32 bits: of a longer message only the first bytes count (`Hash`, `ShortMessages`).
* `\uXXXX` above one byte loses its high digits in a `std::string` (`CodePointsAreCut`).

## Model

| member | source | states |
|---|---|---|
| Numbers.BytesRequired | libdevcore/CommonData.h:195-202 | the counting loop gives the byte length: `n < 256^k` exactly when it is at most `k` (`ByteLengthAtMost`) |
| Numbers.ByteLengthAtMost | libdevcore/CommonData.h:195-202 | a number fits `k` bytes exactly when its byte length is at most `k` |
| Numbers.ToBigEndian | libdevcore/CommonData.h:106-115 | a collection of fixed size, overwritten from the back, holds the low-order bytes of the value and zeros before them |
| Numbers.FromBigEndian | libdevcore/CommonData.h:120-127 | the fold over the bytes is the number they write in base 256 |
| Numbers.HighByteFirst | libdevcore/CommonData.h:120-127 | the first byte counts most: b before k bytes adds b * 256^k |
| Numbers.ToCompactBigEndian | libdevcore/CommonData.h:137-146 | as many bytes as the value needs, and at least the minimum asked for |
| Numbers.MinBytesValue | libdevcore/CommonData.h:106-146 | reading the compact form gives the number back |
| Numbers.MinBytesOfValue | libdevcore/CommonData.h:117-146 | a byte string is the compact form of its number exactly when it has no leading zero |
| RlpWriter.RLPStream.MakeGap | libdevcore/RLP.cpp:241-243 | resize and memmove: the bytes before `p` stay, those from `p` on are found further right |
| RlpWriter.RLPStream.InsertListHeader | libdevcore/RLP.cpp:235-254 | closing the list at `p` turns the output into what was before `p` and the Yellow Paper encoding of a list with the bytes behind `p` as payload; it fails only for a payload of 2^64 bytes or more |
| RlpWriter.RLPStream.NoteAppended | libdevcore/RLP.cpp:221-258 | the loop over m_listStack does to output and stack what counting items on nested lists does (`Noted`), and fails when that fails; the loop ends because every further turn has popped a frame |
| RlpWriter.RLPStream.AppendRaw | libdevcore/RLP.cpp:214-219 | the bytes are written and counted as so many items |
| RlpWriter.RLPStream.PushInt | libdevcore/RLP.h:434-440 | the loop that writes from the back leaves the shortest big-endian form |
| RlpWriter.RLPStream.PushCount | libdevcore/RLP.cpp:326-333 | header byte and length of a payload of 56 bytes or more; the failure for a length of the length that does not fit |
| RlpWriter.RLPStream.AppendListPayload | libdevcore/RLP.cpp:270-278 | a payload already serialised becomes one list item |
| RlpWriter.RLPStream.AppendList | libdevcore/RLP.cpp:260-268 | zero items write an empty list, any other number opens a frame at the current end |
| RlpWriter.RLPStream.Append | libdevcore/RLP.cpp:280-299 | the encoding of the bytes, or with `_compact` of the bytes without leading zeros, counted as one item |
| RlpWriter.RLPStream.AppendBigint | libdevcore/RLP.cpp:301-324 | for every non-negative number with a byte length an `unsigned` holds: exactly what `append(bytes)` writes for its shortest big-endian form, single bytes and lengths of 56 and more included |
| RlpWriter.RLPStream.Out | libdevcore/RLP.h:418 | the output, refused while a list is open |
| RlpWriter.NotedTop | libdevcore/RLP.cpp:226-257 | counting into the innermost list: too many items fail, too few lower the count, the exact number closes the list and counts one item outside it |
| RlpBuilder.NotedKeeps | libdevcore/RLP.cpp:221-258 | closing lists keeps every open count positive and the starts of payloads in order and inside the output, and changes no byte before the start of an outer open list |
| RlpBuilder.CalledKeepsWellFormed | libdevcore/RLP.cpp:214-299 | every call that does not fail keeps that invariant |
| RlpBuilder.UnitAppendFits | libdevcore/RLP.cpp:228-229 | noting one item never finds a list too full; with fewer than 2^64 bytes to be written it does not fail at all |
| RlpBuilder.NotedRefines | libdevcore/RLP.cpp:221-258 | inserting headers late is adding the items to a tree, failures included |
| RlpBuilder.CallRefines | libdevcore/RLP.cpp:214-299 | each call on the byte machine is the same request on a machine that holds trees |
| RlpBuilder.RunRefines | libdevcore/RLP.cpp:214-299 | so is every run, step by step and failure by failure |
| RlpBuilder.CompleteRunEncodes | libdevcore/RLP.cpp:221-278 | a run of any calls that leaves no list open has written the encodings of the items it described, one after the other |
| RlpBuilder.ReplayEncodes | libdevcore/RLP.cpp:221-299 | announcing each list and appending its items on a fresh stream writes Appendix B of the Yellow Paper for every tree and leaves the stack empty |
| RlpBuilder.AppendVector | libdevcore/RLP.h:394-395 | the recursive client loop has the same effect from any state, inside open lists too |
| RlpBuilder.NextItem | libdevcore/RLP.cpp:221-258 | appending the k-th item of an open list either leaves it open with one item less to come or closes it as one item outside |
| RlpReader.Length | libdevcore/RLP.cpp:143-199 | the branches and loops of `length()` give the announced size or the exception of `LengthOf` |
| RlpReader.AcceptedIsCanonical | libdevcore/RLP.cpp:92-199 | whatever passes `requireGood` and `length` is, as far as it reaches, the canonical encoding of its payload: minimal length, no leading zero, no single byte in two |
| RlpReader.DataIsAccepted | libdevcore/RLP.cpp:92-199 | an encoded string is read back with its exact extent, whatever follows it |
| RlpReader.ListIsAccepted | libdevcore/RLP.cpp:92-199 | so is an encoded list |
| RlpBytes.StringBytes | libdevcore/RLP.cpp:280-299 | a string in plain bytes: itself if it is one byte below 128, behind 128 + length if it is shorter than 56, else behind 183 + k and its length in k bytes without a leading zero |
| RlpBytes.ListBytes | libdevcore/RLP.cpp:235-254 | a list likewise: behind 192 + length, or 247 + k and the length in k bytes |
| RlpBytes.ShortLengthsRead | libdevcore/RLP.cpp:143-154 | the length that a first byte up to 183, or from 192 to 247, announces, and the exception for 129 before a byte below 128 |
| RlpBytes.LongLengthsRead | libdevcore/RLP.cpp:155-199 | the length behind any other first byte, and which exception is thrown for a length cut short, a leading zero, less than 56, or more than 2^64 - 258 |
| RlpBytes.PayloadIs | libdevcore/RLP.h:304 | `payload()`: the bytes, nothing, or the exception |
| RlpBytes.GoodIs | libdevcore/RLP.cpp:103-141 | what `requireGood` and `isInt` throw for, and what `isInt` answers, for every first byte |
| RlpBytes.CompactedBytes | libdevcore/RLP.cpp:280-299 | `_compact` leaves out exactly the leading zeros: the same number, and the end of the same bytes |
| RlpBytes.ConstructByFlags | libdevcore/RLP.cpp:22-40 | the constructor for all flags: bytes to spare, bytes missing |
| RlpBytes.VeryStrictIsExact | libdevcore/RLP.cpp:22-40 | by default it takes the bytes of exactly one item |
| RlpRoundTrip.ParseOfEncode | libdevcore/RLP.cpp:22-67 | reading an encoding at every level gives the tree back |
| RlpRoundTrip.EncodeOfParse | libdevcore/RLP.cpp:22-67 | whatever is accepted at every level re-encodes to the same bytes |
| RlpRoundTrip.ReadsExactlyEncodings | libdevcore/RLP.cpp:103-212 | two-sided inverse: bytes are read as a tree exactly when they are its encoding and its payloads are below the reader's limit |
| RlpRoundTrip.EncodeInjective | libdevcore/RLP.cpp:221-299 | two readable trees never have one encoding |
| RlpCursor.RlpIterator.Next | libdevcore/RLP.cpp:41-52 | `operator++` on windows moves to the next item, or fails as `sizeAsEncoded` does; at the end it stands still |
| RlpCursor.Begin | libdevcore/RLP.cpp:54-67 | `begin()`: the first item of the payload, or the end for anything but a list |
| RlpCursor.ReadTree | libdevcore/RLP.h:181-194 | the recursive loop over iterators returns, on any bytes, what the strict parser returns, tree or failure |
| RlpCursor.ReadAndAdvance | libdevcore/RLP.cpp:41-52 | one turn of that loop takes one item off what is left of the payload |
| RlpIndex.BoundariesTile | libdevcore/RLP.cpp:201-212 | dropping one item after the other cuts a payload into consecutive items without a gap, each of positive size |
| RlpIndex.CountItems | libdevcore/RLP.cpp:201-212 | `items()` counts those cuts and fails exactly where they cannot be made; the loop ends since every item has a size of at least 1 |
| RlpIndex.OrbitVisits | libdevcore/RLP.cpp:41-67 | after k increments the iterator is at the k-th window of the tiling, and after the last it stands still |
| RlpIndex.EndIsReached | libdevcore/RLP.h:137-152 | the comparison with `end()` succeeds exactly from the last increment on, if the payload ends where the data does; with bytes to spare behind the list it never succeeds |
| RlpIndex.SpareByteHidesTheEnd | libdevcore/RLP.h:137-152 | at the list c1 05 with a byte to spare: no number of increments meets `end()` |
| RlpIndex.RLP.At | libdevcore/RLP.cpp:69-90 | `operator[]` on any item and after any accesses before, failed ones included: the i-th item, an empty window behind the last, or the exception of the first broken item, from that item on; two quirks of the cache are stated in `Answer` (an unused cache holds the largest index; after a failure the item before the broken one throws too) |
| RlpIndex.RLP.Advance | libdevcore/RLP.cpp:79-88 | one turn of the loop brings (m_lastIndex, m_lastEnd, m_lastItem) to the next item, or fails at a broken one and leaves the cache half moved |
| RlpIndex.RLP.Rewind | libdevcore/RLP.cpp:71-78 | going back sizes item 0 again, or fails and changes nothing |
| RlpIndex.GoodItemIsLost | libdevcore/RLP.cpp:79-89 | the witness: of a list whose second item is broken, item 0 is served, then the access to item 1 throws, and after it so does the access to item 0 |
| RlpIndex.BoundariesAreReach | libdevcore/RLP.cpp:201-212 | `items()` goes through the places that can be reached item by item, and fails exactly where the last of them is not the end, with the exception of the item there |
| RlpIndex.StringsAreIndexedToo | libdevcore/RLP.h:118-121 | the comment promises a null RLP for anything but a list; the code does not ask: a string and a list with the same payload, any payload, show the same bytes, or throw the same, at every index |
| RlpIndex.NullExactlyWhenEmpty | libdevcore/RLP.h:118-121 | of anything with a payload, every index gives the null RLP that the comment promises if and only if the payload is empty, and index 0 already decides |
| RlpIndex.TwoBytesAreTwoItems | libdevcore/RLP.cpp:69-90 | at the string 82 05 06: index 0 shows 05, index 1 shows 06, index 2 an empty window |
| RlpIndex.BoundariesOfEncoding | libdevcore/RLP.cpp:201-212 | in an encoded list the cuts are the ends of the items' encodings |
| RlpIndex.IndexOfEncoding | libdevcore/RLP.cpp:69-90 | item k of an encoded list is the encoding of its k-th element |
| RlpIndex.ItemOfEncoding | libdevcore/RLP.cpp:69-90 | the same as a function of bytes: item k of an encoded list, and none past the last |
| RlpIndex.ItemIsServed | libdevcore/RLP.cpp:69-90 | that function is what `operator[]` serves |
| RlpInt.IsIntMeansMinimal | libdevcore/RLP.cpp:116-141 | on an item, whatever follows it, `isInt` holds exactly for strings that are the shortest form of their number |
| RlpInt.IntByFlags | libdevcore/RLP.h:252-274 | on an item, `toInt` for all flags: when it returns a number, what is left of it in the type, when it returns 0, and when it throws |
| RlpInt.StrictInt | libdevcore/RLP.h:252-274 | on an item, whatever follows it, strict `toInt` returns the number of a shortest form that fits the type, and throws for everything else |
| RlpInt.PartialInt | libdevcore/RLP.h:252-274 | where no item is all there it throws, but for an integer whose payload is cut short, which reads as 0 |
| RlpInt.CutShortReadsAsZero | libdevcore/RLP.h:252-274 | the witness: 82 05 reads as 0 |
| RlpInt.StrictIntsAreEncodings | libdevcore/RLP.h:252-274 | on any bytes: strict `toInt` gives n if and only if the bytes begin with what `append(bigint)` writes for n and n fits the type, or n is 0 and the bytes are an integer cut short |
| TransactionRlp.StreamUnsigned | libcfxcore/TransactionBase.cpp:29-40 | the nine fields appended in order are the list of docs/transaction.md, from any state of the stream; which item is which field is stated by `UnsignedReads` |
| TransactionRlp.StreamRLP | libcfxcore/TransactionBase.cpp:24-46 | with a signature the outer list has that list as item 0, then v, r and s; the frames it opened are closed |
| TransactionRlp.Serialise | libcfxcore/TransactionBase.cpp:24-61 | a fresh stream ends with no open list; its bytes, read back with `operator[]` and strict `toInt`, give every field, and v, r and s, at its place |
| TransactionRlp.UnsignedReads | libcfxcore/TransactionBase.cpp:29-40 | item 0 reads as the nonce, 1 the gas price, 2 the gas, 4 the value, 5 the storage limit, 6 the epoch height, 7 the chain id; items 3 and 8 hold the receiver, empty but in a call, and the data; there is no item 9 |
| TransactionRlp.SignedReads | libcfxcore/TransactionBase.cpp:24-46 | in the signed form that list is item 0, and items 1, 2 and 3 read as v, r and s |
| TransactionRlp.HashedBytesAreItemZero | libcfxcore/TransactionBase.cpp:13-46 | the bytes hashed for signing are what `operator[](0)` shows of the signed transaction |
| TransactionRlp.UnsignedDeterminesFields | libcfxcore/TransactionBase.cpp:29-40 | two unsigned encodings agree exactly when all fields do, call or creation included; the receiver counts only in a call |
| AbiParam.GetSetSize | libcfxcore/abi/Parameters.cpp:70-82 | the loop with its offset words and final padding |
| AbiParam.GetHeadSize | libcfxcore/abi/Parameters.cpp:84-94 | the loop over the heads |
| AbiEncoder.EncodeUInt256 | libcfxcore/abi/ValueEncoder.cpp:47-49 | the shortest bytes of the number (one zero byte for 0), padded on the left, are its 32-byte word; a larger number is cut to its value modulo 2^256 first |
| AbiEncoder.PaddedOnLeft | libcfxcore/abi/ValueEncoder.cpp:38-45 | at least 32 bytes that read as the same number |
| AbiEncoder.WordReads | libcfxcore/abi/ValueEncoder.cpp:47-49 | the word reads as the number modulo 2^256 |
| AbiEncoder.EncodeBytes | libcfxcore/abi/Bytes.cpp:15-22 | length word, bytes, zeros to the next word (`BytesThenZeros` reads them) |
| AbiEncoder.EncodeFixedBytes | libcfxcore/abi/Bytes.cpp:48-53 | bytes and zeros to the next word (`BytesThenZeros` reads them) |
| AbiEncoder.BytesThenZeros | libcfxcore/abi/Bytes.cpp:15-53 | what is written for bytes, strings and `bytesN` is the bytes and then zeros, byte by byte, and as a number theirs times a power of 256 |
| AbiEncoder.EncodeArray | libcfxcore/abi/Array.cpp:36-40 | length word and members |
| AbiEncoder.Encode | libcfxcore/abi/Array.cpp:36-101 | what `encode` of every class appends, and that it changes nothing before |
| AbiEncoder.EncodeSet | libcfxcore/abi/Parameters.cpp:96-137 | both passes over a set |
| AbiEncoder.FirstPass | libcfxcore/abi/Parameters.cpp:98-120 | heads, with the running dynamicOffset |
| AbiEncoder.SecondPass | libcfxcore/abi/Parameters.cpp:123-137 | tails |
| AbiBytes.WideBytesGoBehind | libcfxcore/abi/Parameters.cpp:101-137 | a `bytesN` wider than a word gets an offset and goes behind the heads |
| AbiBytes.DynamicTypesExample | libcfxcore/abi/Parameters.cpp:96-137 | f(0x123, [0x456, 0x789], "1234567890", "Hello, world!") is encoded in the nine words that the Solidity ABI specification gives and tests/test_main.cpp expects |
| AbiLayout.SizeIsLengthPlusGap | libcfxcore/abi/Parameters.cpp:70-82 | `getSize` is the encoded length plus 32 bytes for every static fixed array wider than a word that is a member of a set, at every depth |
| AbiLayout.SizeIsExactWhenTight | libcfxcore/abi/Parameters.cpp:70-137 | so it is exact if and only if there is no such member; it is never too small, and all encodings are whole words |
| AbiLayout.HeadSizeIsLengthPlusGap | libcfxcore/abi/Parameters.cpp:84-120 | the first pass writes `getHeadSize` bytes, less what those members are counted too wide |
| AbiLayout.OffsetWords | libcfxcore/abi/Parameters.cpp:96-137 | every offset word is found in its head and every tail where it should be; the word exceeds the true distance by the gap of the heads and of the tails before |
| AbiLayout.NestedStaticArrayMisplacesOffsets | libcfxcore/abi/Parameters.cpp:101-104 | uint256[2][2] before a string: the tail starts after 160 bytes, the offset says 224 |
| AbiSolidity.ConformsExactly | libcfxcore/abi/Parameters.cpp:96-137 | `encode` writes the formal encoding of the Solidity ABI specification if and only if no dynamic member has a wrong offset before it and no tuple without dynamic parts is a member, at every depth |
| AbiSolidity.LeavesAgree | libcfxcore/abi/Bytes.cpp:15-53 | values without members are always written as specified, the zeros behind bytes included |
| AbiSolidity.SetConformsExactly | libcfxcore/abi/Parameters.cpp:96-137 | the same for the parameters of a function |
| AbiSolidity.PassesAgree | libcfxcore/abi/Parameters.cpp:101-137 | pass by pass, for any excess of the running offset |
| AbiSolidity.NotShorter | libcfxcore/abi/Parameters.cpp:96-137 | the code never writes less than the specification, and as much exactly when it agrees on what is dynamic |
| AbiSolidity.StaticTupleGetsOffset | libcfxcore/abi/Parameters.cpp:96-137 | the witness: a struct of one number inside another is written with an offset word that the specification does not have |
| AbiDecoder.DecodeLength | libcfxcore/abi/Array.cpp:44-66 | the length word is refused beyond size_t, for an empty template and for one with more elements; otherwise the template grows to it by what `make` gives for the type name of the first element, which may be nothing, or an exception |
| AbiDecoder.DecodeBytes | libcfxcore/abi/Bytes.cpp:24-46 | with the sum of its check in size_t: the bytes, the refusal, or an invalid range |
| AbiDecoder.LengthCheckPasses | libcfxcore/abi/Bytes.cpp:36-39 | that check lets through exactly what lies in the data, and every length for which the sum wraps around |
| AbiDecoder.BytesBreak | libcfxcore/abi/Bytes.cpp:24-46 | so decoding bytes reaches an invalid range exactly when the length word is a size_t whose sum with the offset is none |
| AbiDecoder.HugeLengthBreaks | libcfxcore/abi/Bytes.cpp:24-46 | the witness: the length word 2^64 - 1 |
| AbiDecoder.FixedArrayNamesAreCut | libcfxcore/abi/ParamFactory.cpp:51-114 | `make` looks at the beginning of the name of a fixed array: bytes4[2] gives a bytes4, uint24[2] a uint24, uint256[2] and bytes[2] throw, bool[2] and string[2] give nothing |
| AbiDecoder.OwnClassesThrow | libcfxcore/abi/ParamFactory.cpp:21-29 | for fixed arrays of unsigned numbers it throws exactly at the widths 8, 16, 32, 64 and 256 |
| AbiDecoder.Decode | libcfxcore/abi/Array.cpp:42-143 | `decode` of every class, on any bytes a vector holds: filled parameter and new offset, false, or an exception or invalid range, as the specification function `Decoded` says |
| AbiDecoder.DecodeSet | libcfxcore/abi/Parameters.cpp:161-185 | both passes of `ParamSet::decode` |
| AbiDecoder.DecodeHeads | libcfxcore/abi/Parameters.cpp:162-175 | static members are filled, offset words read and dropped |
| AbiDecoder.DecodeTails | libcfxcore/abi/Parameters.cpp:176-184 | dynamic members in order, wherever the offset has come to |
| AbiBytes.WordsDecode | libcfxcore/abi/ParamNumber.h:22-60 | any 32 bytes decode as a number: to their last bytes, as many as the type has, and to a bool as whether any is not zero |
| AbiBytes.BytesDecode | libcfxcore/abi/Bytes.cpp:24-46 | bytes and strings decode to as many bytes as the length word says, whatever stands behind them or nothing |
| AbiBytes.FixedBytesDecode | libcfxcore/abi/Bytes.cpp:55-71 | `bytesN` takes its N bytes; of what it held, only bytes past N stay |
| AbiBytes.TooShortIsRefused | libcfxcore/abi/Bytes.cpp:24-61 | data that ends before a word or before N bytes is refused |
| AbiRoundTrip.Restores | libcfxcore/abi/Array.cpp:36-143 | at any offset, inside any bytes, a fitting template is filled with the value that was encoded and the offset stops right behind it |
| AbiRoundTrip.SetRestores | libcfxcore/abi/Parameters.cpp:161-185 | the same for sets |
| AbiRoundTrip.DecodedUses | libcfxcore/abi/Array.cpp:42-74 | on any bytes: no decoded value has an empty array, and the offset has moved by what the value uses, the length word of a dynamic fixed array included |
| AbiRoundTrip.RestorableExactly | libcfxcore/abi/Array.cpp:42-143 | an encoded value can be restored by some template, with the offset right behind it, if and only if it has no empty array and no dynamic fixed array |
| AbiLost.EmptyArraysAreLost | libcfxcore/abi/Array.cpp:42-74 | no template decodes any bytes, to any end offset, to a value with an empty array in it |
| AbiLost.EmptyArrayIsLost | libcfxcore/abi/Array.cpp:54-58 | the witness: no template decodes the length word 0 as an empty array, wherever it ends |
| AbiLost.DynamicFixedArraysAreLost | libcfxcore/abi/Array.cpp:110-143 | an encoded fixed array of dynamic elements is restored by no template, wherever it ends, unless `make` gives a null pointer for its elements: the first offset word is taken for a count, and the template grows to 32 times as many elements |
| AbiLost.DynamicFixedArrayIsLost | libcfxcore/abi/Array.cpp:110-143 | the witness: no template restores `string[1]` holding an empty string, wherever it ends |
| AbiLost.StructArrayEndsTooFar | libcfxcore/abi/Array.cpp:110-143 | the exception: a fixed array of one empty struct is restored, with the offset one word too far |
| AbiLost.DecodedMade | libcfxcore/abi/ParamFactory.cpp:51-114 | `make` gives the same for a decoded value as for the template it was decoded into |
| AbiLost.BreaksForCause | libcfxcore/abi/Bytes.cpp:24-46 | decoding throws, or uses an invalid range, only if a word of the data is a length whose sum with its place exceeds size_t, or the template has an array that `make` throws at |
| AbiInjective.EncodingTells | libcfxcore/abi/Parameters.cpp:96-137 | two encodings of one type, with any bytes behind them, are equal only if the values are and the bytes behind; empty arrays, dynamic fixed arrays and misplaced offsets included |
| AbiInjective.SetTells | libcfxcore/abi/Parameters.cpp:96-137 | the same for the parameters of a function |
| AbiInjective.CallDataTells | libcfxcore/abi/Function.cpp:28-32 | of one function, call data begins other call data exactly when the arguments are the same |
| AbiReference.RefReads | libcfxcore/abi/Parameters.cpp:96-137 | following offsets recovers every value of every type from its specified encoding, empty arrays and dynamic fixed arrays included |
| AbiReference.BlankFits | libcfxcore/abi/ParamFactory.cpp:51-114 | a template made from the type alone, with one element in each array, fits a value if and only if the value has no empty array and no dynamic fixed array, and no array of two or more whose element type `make` does not know |
| AbiReference.MakesBlank | libcfxcore/abi/ParamFactory.cpp:51-114 | `make` on the name of a type gives a blank parameter of that type if and only if the type is elementary, or an array of such at any depth |
| AbiReference.DecodersAgree | libcfxcore/abi/Parameters.cpp:161-185 | on conforming encodings at any offset, and for every fitting template, the decoder that drops the offset words returns what one that follows them returns: the value encoded |
| AbiReference.BlankDecodes | libcfxcore/abi/ParamFactory.cpp:51-114 | the same for the template that the type alone gives, under exactly the conditions of `BlankFits` |
| AbiReference.ArraysOfStructsDecode | libcfxcore/abi/Array.cpp:42-74 | two structs in an array decode by a template of two structs, where the one made from the type does not fit |
| AbiReference.PlainValuesConform | libcfxcore/abi/Parameters.cpp:96-137 | every value without those wide static members and without static tuples as members is encoded as specified |
| AbiFunction.EncodeCall | libcfxcore/abi/Function.cpp:28-32 | selector and arguments |
| AbiFunction.DecodeInput | libcfxcore/abi/Function.cpp:46-62 | four bytes are read as a padded parameter, the offset goes back 28, then the arguments |
| AbiFunction.CallsRoundTrip | libcfxcore/abi/Function.cpp:28-62 | call data restores the arguments at any offset, unaligned after four bytes; call data with another selector is refused |
| Cip37Convert.Convert | libcfxcore/types/cfxaddress/lib.cpp:10-30 | for all widths and any bytes: what the 16-bit accumulator makes of them (`Converted`); on symbols of the input width no bit is lost and the result is the same bits regrouped, completed with zeros when symbols get narrower and cut off otherwise; wider than 8 gives nothing |
| Cip37Convert.ConvertedIsRegroup | libcfxcore/types/cfxaddress/lib.cpp:10-30 | that second half for the function: on symbols of the input width, accumulator and byte casts included, it is the regrouping of the number they write |
| Cip37Convert.WideSymbolTaken | libcfxcore/types/cfxaddress/lib.cpp:15-17 | one turn on a symbol wider than the input width: the bits above the width are or-ed into the pending bits, so that it is taken like its low bits if and only if those bits are pending already |
| Cip37Convert.SameWidthIsIdentity | libcfxcore/types/cfxaddress/lib.cpp:10-30 | for equal widths `convert` returns any bytes unchanged, so symbols come out too wide exactly where they went in too wide |
| Cip37Convert.WideSymbolsSpill | libcfxcore/types/cfxaddress/lib.cpp:15-22 | the witness: 32 as a five-bit symbol comes out as 32 |
| Cip37Convert.Drain | libcfxcore/types/cfxaddress/lib.cpp:19-24 | the inner loop, on any accumulator |
| Cip37Convert.NarrowAndBack | libcfxcore/types/cfxaddress/lib.cpp:10-30 | regrouping to narrower symbols and back is the identity, for all widths and every length; `convert(convert(b,8,5),5,8) == b` |
| Cip37Convert.ThereAndBack | libcfxcore/types/cfxaddress/lib.cpp:10-30 | regrouping to wider symbols and back is the identity exactly when the bits cut off are fewer than a symbol and zero |
| Cip37Polymod.Polymod | libcfxcore/types/cfxaddress/lib.cpp:40-54 | the loop computes the checksum of `Step`; the register never has more than 40 bits |
| Cip37Polymod.StepXor | libcfxcore/types/cfxaddress/lib.cpp:42-51 | one turn is linear over GF(2) |
| Cip37Polymod.StepInjective | libcfxcore/types/cfxaddress/lib.cpp:43-51 | only the zero register shifts to zero |
| Cip37Polymod.SameChecksum | libcfxcore/types/cfxaddress/lib.cpp:40-54 | inputs of one length have one checksum exactly when their difference, run through the register, ends at zero |
| Cip37Polymod.BurstsAreDetected | libcfxcore/types/cfxaddress/lib.cpp:40-54 | inputs of any length that differ only in at most eight consecutive symbols have the same checksum only if they are equal |
| Cip37Polymod.WindowsAreDetected | libcfxcore/types/cfxaddress/lib.cpp:40-54 | the same by positions |
| Cip37Polymod.NineCanCollide | libcfxcore/types/cfxaddress/lib.cpp:40-54 | eight is exact: any nine consecutive 5-bit symbols of any input can be changed without changing the checksum |
| Cip37Polymod.MiddleDecides | libcfxcore/types/cfxaddress/lib.cpp:40-54 | of two inputs that agree in front and behind, only the difference between decides, by itself, whether their checksums agree |
| Cip37Checksum.Uint64ToBytes | libcfxcore/types/cfxaddress/lib.cpp:56-62 | byte 7 - i is the number shifted right by 8i |
| Cip37Checksum.Packs | libcfxcore/types/cfxaddress/lib.cpp:40-54 | over the first eight symbols the register only packs them, as digits to base 32 |
| Cip37Checksum.ResidueIsZero | libcfxcore/types/cfxaddress/checksum.cpp:13-37 | for every prefix and body: eight symbols make the register end at zero if and only if they are the ones CalcChecksum returns |
| Cip37Checksum.CalcChecksum | libcfxcore/types/cfxaddress/checksum.cpp:13-37 | the assembled input, the 40-bit result split into eight 5-bit symbols, and that polymod over prefix, separator, body and checksum is zero |
| Cip37Text.AlphabetHolds | libcfxcore/types/cfxaddress/body.cpp:13 | the alphabet is the letters a to z without i, l, o and q, and the digits |
| Cip37Text.AlphabetOrder | libcfxcore/types/cfxaddress/body.cpp:13 | in ascending order, letters before digits |
| Cip37Text.LetterAt | libcfxcore/types/cfxaddress/body.cpp:13 | so the letter of each of the 32 symbols is determined |
| Cip37Text.CaseIs | libcfxcore/common/util/string_util.cpp:50-70 | lower and upper case of every letter, and that no other character changes |
| Cip37Text.BuildIndex | libcfxcore/types/cfxaddress/body.cpp:17-23 | the map holds the alphabet and every letter's place |
| Cip37Text.LetterOfIndex | libcfxcore/types/cfxaddress/body.cpp:25-32 | a character is written back as itself exactly when it is in the alphabet; any other reads as the letter a does |
| Cip37Text.BodySymbols | libcfxcore/types/cfxaddress/body.cpp:25-32 | the symbols of a text, missing characters entered into the map with 0; `LetterAt` gives the letters |
| Cip37Text.BitsToString | libcfxcore/types/cfxaddress/body.cpp:51-56 | the letters of the symbols, which `LetterAt` gives |
| Cip37Text.LettersOfIndices | libcfxcore/types/cfxaddress/body.cpp:25-56 | a text survives reading and writing exactly when all its characters are in the alphabet |
| Cip37Text.SplitString | libcfxcore/common/util/string_util.cpp:11-23 | the loop over find and substr |
| Cip37Text.UnsplitParts | libcfxcore/common/util/string_util.cpp:11-23 | the parts with the separators between them are the text |
| Cip37Network.NumberThereAndBack | libcfxcore/types/cfxaddress/network_type.cpp:21-53 | every uint32_t network number is read back from the text printed for it, numbers of 2^31 and more, which print with a minus sign, included |
| Cip37Network.TextsAre | libcfxcore/types/cfxaddress/network_type.cpp:21-31 | 1029 prints as cfx and 1 as cfxtest, and every other number begins with net |
| Cip37Network.StoiReads | libcfxcore/types/cfxaddress/network_type.cpp:47-53 | `std::stoi` on blanks, a sign or none, digits and any rest: the number, or the exception outside int |
| Cip37Network.StoiThrows | libcfxcore/types/cfxaddress/network_type.cpp:47-53 | and it throws where no digit follows blanks and sign |
| Cip37Network.StoiOfPrinted | libcfxcore/types/cfxaddress/network_type.cpp:47-53 | `std::stoi` on what `%d` prints gives the int back |
| Cip37Network.NumbersAreShared | libcfxcore/types/cfxaddress/network_type.cpp:38-53 | not the other way round: a text that begins otherwise reads as 0, as net0 does, and for netx `std::stoi` throws |
| Cip37Address.Address.constructor | libcfxcore/types/cfxaddress/address.cpp:14-17 | an address built from bytes and a network number |
| Cip37Address.Address.NewFromBytes | libcfxcore/types/cfxaddress/address.cpp:64-79 | all fields, for every number of bytes and every network number; hex and number are read back as they were given |
| Cip37Address.Address.NewFromBase32 | libcfxcore/types/cfxaddress/address.cpp:81-119 | accepts exactly the texts that `Read` accepts and then holds their fields and network number; throws, with the fields set, for a network whose number `std::stoi` does not find; a text that it refuses before it reads the body changes nothing but the network, and no refused text changes hex or number |
| Cip37Address.Address.GetBase32Address | libcfxcore/types/cfxaddress/address.cpp:161-168 | network, body and checksum as text |
| Cip37Address.Address.GetVerboseBase32Address | libcfxcore/types/cfxaddress/address.cpp:169-177 | the same with the type |
| Cip37Address.Address.Equals | libcfxcore/types/cfxaddress/address.cpp:144-155 | holds exactly when network, type and checksum agree; the body is compared with itself |
| Cip37Address.HexThereAndBack | libcfxcore/types/cfxaddress/body.cpp:33-46 | the body keeps version byte and address bytes, for every number of bytes |
| Cip37Address.TypeIs | libcfxcore/types/cfxaddress/address_type.cpp:27-46 | the type and its text for every first byte, and for twenty zeros |
| Cip37Address.VersionsAre | libcfxcore/types/cfxaddress/version_byte.cpp:12-19 | the version byte of each of the eight sizes, and 0 for all others |
| Cip37Address.PrintedIsAccepted | libcfxcore/types/cfxaddress/address.cpp:64-177 | an address built from any bytes, on every network, prints two texts that are both accepted and read back the same in every field |
| Cip37Vector.VectorPrints | libcfxcore/types/cfxaddress/address.cpp:64-177 | the address of tests/test_main.cpp: 1a3d17aab67a48abb1d39e059b5391b64a91d530 prints as cfx:aard4f7m037evm7v4stang4xwg5ezeszga3rd40n8w, with and without the type, and both are read back |
| Cip37Reading.AcceptedIsResidue | libcfxcore/types/cfxaddress/address.cpp:81-119 | a text is not rejected exactly when it is of one case, has two or three parts and eight characters or more in the last, names the type of its bytes if it names one, ends in eight letters of the alphabet, and makes the register over prefix, separator and all symbols end at zero; it is then accepted exactly when its network has a number |
| Cip37Reading.WindowErrorsAreRejected | libcfxcore/types/cfxaddress/address.cpp:81-119 | two texts of one network, of two parts or of three, whose last parts differ only within eight consecutive characters: if neither is rejected their symbols are the same, so within the alphabet at most one is not rejected |
| Cip37Reading.PrintsWhatItRead | libcfxcore/types/cfxaddress/address.cpp:81-177 | an accepted text is printed back, in lower case, exactly when its body keeps to the alphabet: by the short form if it has two parts and by the verbose form if it has three |
| Cip37Reading.StrangersReadAsA | libcfxcore/types/cfxaddress/body.cpp:25-32 | an a in the body of a text may be replaced by any character outside the alphabet but the separator, if the text stays in one case, without changing the verdict or a field |
| Cip37Examples.StrangerIsAccepted | libcfxcore/types/cfxaddress/address.cpp:81-119 | the witness: a text with an i for its third body letter is accepted, as the address of the text without |
| Cip37Reading.ReadIsFromHex | libcfxcore/types/cfxaddress/address.cpp:74-119 | an accepted address is the address of its own bytes exactly when the version byte says their number and the padding bits are fewer than five and zero; neither is checked |
| Cip37Reading.OrdinaryIsFromHex | libcfxcore/types/cfxaddress/address.cpp:74-119 | for texts of the ordinary 42 symbols: exactly when the version byte is zero and the last symbol of the body a multiple of four |
| Cip37Examples.WrongVersionIsAccepted | libcfxcore/types/cfxaddress/address.cpp:81-119 | the witness: a text with the version byte of 192 bits is accepted for twenty bytes, and is not the address of these |
| Cip37Reading.TypeMayBeLeftOut | libcfxcore/types/cfxaddress/address.cpp:88-107 | when a text with the type is accepted, so is the one without, with the same fields |
| Cip37Equality.SameExactly | libcfxcore/types/cfxaddress/address.cpp:144-155 | addresses built from any two byte strings compare equal exactly when networks and types agree and the registers over their bodies end alike; for byte strings of one length, exactly when the difference of the bodies vanishes in the register |
| Cip37Equality.CloseAddressesDiffer | libcfxcore/types/cfxaddress/address.cpp:144-155 | addresses whose bodies differ only within eight consecutive symbols compare equal only if their bytes are equal |
| Cip37Equality.TwoUsersCompareEqual | libcfxcore/types/cfxaddress/address.cpp:144-155 | the witness: two user addresses of different bytes that compare equal, on every network |
| Ripemd160.TakeChunk | libdevcrypto/Hash.cpp:398-402 | sixteen little-endian words of a block |
| Ripemd160.DwordIs | libdevcrypto/Hash.cpp:52-56 | shifting and or-ing four bytes adds them up |
| Ripemd160.PutByte | libdevcrypto/Hash.cpp:339-346 | xor with a shifted byte puts it at the first free place of the block |
| Ripemd160.PutTail | libdevcrypto/Hash.cpp:337-346 | the rest of the message, a one bit and zeros |
| Ripemd160.PutLength | libdevcrypto/Hash.cpp:354-356 | the two words of the length in bits |
| Ripemd160.MDfinish | libdevcrypto/Hash.cpp:332-360 | compression folded over the rest of the message and its padding, in one block or, for more than 55 bytes, two |
| Ripemd160.Absorb | libdevcrypto/Hash.cpp:396-404 | the loop over whole blocks, on a size cut down to 32 bits |
| Ripemd160.Hash | libdevcrypto/Hash.cpp:384-419 | for every input: the compression folded over message ++ 0x80 ++ zeros ++ 64-bit length of its first size mod 2^32 bytes, words spelled lowest byte first; `HashShowsStart` gives the words it begins with |
| Ripemd160.HashShowsStart | libdevcrypto/Hash.cpp:121-130 | a compression that changes nothing shows what MDinit sets, spelled: 01 23 45 67 89 ab cd ef fe dc ba 98 76 54 32 10 f0 e1 d2 c3, for every message |
| Ripemd160.HashShowsLastBlock | libdevcrypto/Hash.cpp:332-360 | a compression that returns five words of its block shows those bytes of the last block of the padded message |
| Ripemd160.PaddingIs | libdevcrypto/Hash.cpp:332-360 | 0x80, as few zeros as will do, and in the last eight bytes the length in bits, lowest byte first |
| Ripemd160.HashedBlock | libdevcrypto/Hash.cpp:396-404 | a message is compressed block by block from its beginning |
| Ripemd160.ShortMessages | libdevcrypto/Hash.cpp:393 | exactly below 2^32 bytes the whole message is hashed |
| Ripemd160.PaddingIsInjective | libdevcrypto/Hash.cpp:332-360 | different messages stay different when padded |
| JsonEscape.NonPrintableToString | utils/json_spirit/json_spirit_writer_template.h:28-41 | four hexadecimal digits, written from the last to the first |
| JsonEscape.AddEscChar | utils/json_spirit/json_spirit_writer_template.h:43-58 | the characters with an escape of their own |
| JsonEscape.AddEscChars | utils/json_spirit/json_spirit_writer_template.h:60-89 | every character escaped in order; what is written reads back as the string, whichever characters print |
| JsonEscape.AppendEscChar | utils/json_spirit/json_spirit_reader_template.h:84-120 | the meaning of an escape is appended and the iterator stops on its last character, never past the end |
| JsonEscape.SubstituteEscChars | utils/json_spirit/json_spirit_reader_template.h:122-156 | the loop over substr_start and i computes the unescaped string for every input, malformed escapes included; what each escape means is in the rows below |
| JsonEscape.EscapesAreRead | utils/json_spirit/json_spirit_reader_template.h:84-156 | unescaping undoes escaping, for every string and every choice of what prints |
| JsonEscape.EscapesAre | utils/json_spirit/json_spirit_writer_template.h:28-89 | what is written for every character: seven by name, the printable ones as they are, the others as four upper-case digits |
| JsonEscape.ShortEscapesRead | utils/json_spirit/json_spirit_reader_template.h:84-120 | what every escape of one character reads as, the slash included; any other is dropped |
| JsonEscape.UnicodeEscapesRead | utils/json_spirit/json_spirit_reader_template.h:53-82 | every spelling of every number by u and four hexadecimal digits, each in either case, reads as its low byte |
| JsonEscape.HexEscapesRead | utils/json_spirit/json_spirit_reader_template.h:53-69 | every spelling of every byte by x and two hexadecimal digits reads as that byte |
| JsonEscape.CodePointsAreCut | utils/json_spirit/json_spirit_reader_template.h:70-82 | a code point reads back as its low byte |
| JsonEscape.WrittenStringsEnd | utils/json_spirit/json_spirit_writer_template.h:43-89 | no quote inside an escaped string ends it |
| JsonTree.LastPairWins | utils/json_spirit/json_spirit_value.h:167-170 | under Config_map a name means what its last pair says |
| JsonTree.ItemsInOrder | utils/json_spirit/json_spirit_reader_template.h:329-345 | element i of an array is the value of its i-th item |
| JsonTree.PairsInOrder | utils/json_spirit/json_spirit_reader_template.h:329-345 | under Config_vector pair i of an object is its i-th pair |
| JsonTree.NamesOfObject | utils/json_spirit/json_spirit_value.h:167-170 | under Config_map an object has the names of its pairs, and no others |
| JsonBuilder.EveryEventKeepsPath | utils/json_spirit/json_spirit_reader_template.h:293-345 | in any order of events, as long as nothing breaks: stack_ is the path from the root to the parent of current_p_ |
| JsonBuilder.BreaksWhen | utils/json_spirit/json_spirit_reader_template.h:240-345 | an event breaks exactly for a value or a name where the current value can take none, and for an end without a begin |
| JsonBuilder.ValueReplays | utils/json_spirit/json_spirit_reader_template.h:302-345 | the events of a value inside an open array or object add exactly that value, under the name that was pending when it began, and leave pointer and stack as they were |
| JsonBuilder.TextIsRebuilt | utils/json_spirit/json_spirit_reader_template.h:196-345 | replaying the events of any text builds its value under either configuration |
| JsonPointers.EventKeepsAbove | utils/json_spirit/json_spirit_reader_template.h:293-345 | no event, in any state, changes the length or the names of a container above the current value |
| JsonPointers.RunKeepsAbove | utils/json_spirit/json_spirit_reader_template.h:293-345 | nor does any run of events that stays at a value or inside it, for the containers above that value |
| JsonPointers.SizesStay | utils/json_spirit/json_spirit_reader_template.h:302-345 | from the begin of an array or object to its end, at every event between, the containers above it have the lengths and names they had when it began, and the pointers pushed then are still on the stack: no vector they point into has moved its elements |
| JsonBuilder.SemanticActions.constructor | utils/json_spirit/json_spirit_reader_template.h:206-210 | no current value, empty stack |
| JsonBuilder.SemanticActions.AddToCurrentValue | utils/json_spirit/json_spirit_reader_template.h:329-345 | first value, array element or object member, and the pointer to it |
| JsonBuilder.SemanticActions.BeginCompoundValue | utils/json_spirit/json_spirit_reader_template.h:302-317 | the old current value goes on the stack, the new one is current |
| JsonBuilder.SemanticActions.EndCompoundValue | utils/json_spirit/json_spirit_reader_template.h:319-327 | back to the parent, except at the root |
| JsonBuilder.SemanticActions.NewNameOf | utils/json_spirit/json_spirit_reader_template.h:240-245 | the pending name |
| JsonBuilder.Replay | utils/json_spirit/json_spirit_reader_template.h:196-353 | the object ends with the value of the text, the root current and the stack empty |

## Left out

- Encode: signed integers (`ParamInt8` to `ParamInt256`, `ParamIntN`) are not modelled; their meaning lies in Boost.Multiprecision. `uint256_t` is a natural below 2^256.
- Decode: where the source uses an invalid range or throws, the model says so and stops. Sums of an offset and the size of a static parameter do not wrap in the model; with a first offset inside the data they do not in the source.
- Restores: parameters are values. That an array's elements are shared pointers, so that one object could be a member twice, is not captured.
- BlankFits: `ParamFactory::make` is modelled on what stands for a type name, a parameter of the type, and not on strings. Running out of memory while a template grows is not modelled.
- ConformsExactly: `bytesN` values longer than a word and encodings of 2^256 bytes or more are excluded.
- Convert: an output width of 0, with which the loop of the source does not end, is excluded.
- NewFromBase32: a last part of 8 to 11 characters, on which the source reads behind the end of a vector, is excluded by `Defined`.
- NewFromBytes: the empty byte string, on which the source does the same, is excluded.
- GetBase32Address: the 128-byte buffer of sprintf is not modelled.
- The regular expressions and the hexadecimal text form in `Address::New`.
- RLPStream after an exception: only `Valid` is kept.
- AppendBigint: numbers of 2^32 bytes or more, whose byte length does not fit an `unsigned`, are excluded.
- TransactionBase: hashing, signing, sender recovery and their caches (keccak and secp256k1 are foreign libraries). The field types are those of docs/transaction.md; TransactionBase.h is not part of this model.
- AbiFunction: the selector is any four bytes; keccak and the type string it hashes are not modelled.
- Ripemd160: MDcompress is a parameter; nothing is claimed about its rounds.
- SemanticActions: pointers are paths from the root. What `JsonPointers` shows is that no container they lead through changes its length; that a vector moves its elements only then is the C++ library's promise. The Boost.Spirit grammar, numbers in text, and the writer's layout are left out.
- JsonEscape: strings of bytes only, not std::wstring; the locale of iswprint is a parameter.
- HTTP and JSON-RPC clients, key stores, logging, hex helpers, bloom filters and currency arithmetic: plumbing, foreign libraries or easy members.
