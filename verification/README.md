# A verified model of protobuf-c

protobuf-c packs and unpacks messages in the wire format of Protocol Buffers, driven by descriptors that a code
generator writes, and comes with a small RPC layer: a buffer of fragments, framed requests and responses, and a
dispatcher of file descriptors and timers. Below these lie macros for red-black trees and for linked lists. This
project models that code in Dafny and proves what it keeps, what it computes, and where it departs from what it is
meant to do.

* **Messages.** `Base128` has the integers of the wire format, `Wire` the descriptors, messages and a simple
  recursive encoding, `Decoder` a simple decoder: records are cut off the front and applied in order. `Packing`,
  `PackedSize`, `InPlacePack` and `StreamPack` are the three packers of protobuf-c.c, proved equal to the encoding.
  `Scanning`, `ScanPass`, `ArrayPass`, `Parsing` and `Unpack` are its two-pass unpacker with slabs and an allocator
  that may refuse any request (`Memory`), proved equal to the decoder and free of leaks. `Framing`, `RoundTrip`,
  `Concatenation`, `Counting`, `RequiredFields`, `Defaults` and `Unwrapping` hold the theorems about the encoding and
  the decoder; `WireBytes` and `WireReads` say in plain bytes what both do with single fields of every type.
* **Tables.** `RangeTables` has the tables of number ranges that the code generator writes, and their search.
* **Trees and lists.** `RedBlackTree`, with its lemmas on values in `TreeLinks`, `TreeColours`, `TreeEdits`,
  `TreeTurns` and `TreeMeaning`, and `MergeSort`.
* **RPC.** `DataBuffer`, `Frames`, `RpcServer`, `ClosureTable`, `Deliveries`, `RpcClient`, `Dispatch` and `Timers`.

A message in a C struct is a value of `Wire`; a message that is being unpacked is a value of `Memory` that knows the
blocks it owns. Tree nodes, list nodes and buffer fragments live in a memory of one map for every field that the
macros or functions assign, so that an assignment in the source is an assignment to that map. A float is the word
that holds its bits. Where the source combines disjoint groups of bits by shifting and or-ing, the model adds
multiples of powers of two. `Whole` in `Basics` marks a predicate that the verifier is to prove in one piece.

## Model

| member | source | states |
|---|---|---|
| Base128.SizesAgree32 | src/google/protobuf-c/protobuf-c.c:246-277 | The size branches for 32-bit values give the length of the base-128 form, at most 5 bytes, and 10 for a negative int32, which is extended to 64 bits. |
| Base128.SizesAgree64 | src/google/protobuf-c/protobuf-c.c:301-318 | The size branches for 64-bit values give the length of the base-128 form, at most 10 bytes. |
| Base128.TagSizeAgrees | src/google/protobuf-c/protobuf-c.c:228-240 | The size of a tag is that of the field number with the wire type in its low three bits. |
| Base128.ZigzagBijection | src/google/protobuf-c/protobuf-c.c:280-286 | The zigzag code and its inverse undo each other, and the signed 32-bit and 64-bit ranges are exactly what has codes of that width. |
| Base128.ZigzagOrder | src/google/protobuf-c/protobuf-c.c:280-286 | Codes grow with the magnitude, and of two opposite numbers the negative one comes first; with the bijection this determines the code. |
| Base128.ParseUint32IsVal | src/google/protobuf-c/protobuf-c.c:1626-1644 | Parsing a number of any length gives the value of its groups modulo 2 to the 32. |
| Base128.ParseUint64 | src/google/protobuf-c/protobuf-c.c:1670-1687 | The same for 64 bits and up to ten bytes, by the loop of the source. |
| Base128.ParsingInverts | src/google/protobuf-c/protobuf-c.c:1626-1649 | Parsing undoes writing for every 32-bit number, also when it was sign-extended. |
| Base128.FixedRoundTrip | src/google/protobuf-c/protobuf-c.c:643-672 | Reading a fixed-width word undoes writing it. |
| Base128.FixedBack | src/google/protobuf-c/protobuf-c.c:1659-1668 | Writing what was read of fixed-width bytes gives the bytes again. |
| Base128.FixedBytes32 | src/google/protobuf-c/protobuf-c.c:643-656 | The four bytes of a word hold its bits eight by eight, the low ones first. |
| Base128.FixedFollows | src/google/protobuf-c/protobuf-c.c:657-672 | In a longer word the bytes of the upper bits follow; bits that have no room are lost. |
| Base128.ParseBoolean | src/google/protobuf-c/protobuf-c.c:1709-1716 | A boolean is true exactly if any of its groups is not 0. |
| Base128.ScanVarint | src/google/protobuf-c/protobuf-c.c:1872-1883 | The length of the number at the front, or 0 if none ends within ten bytes. |
| Packing.VarintUnique | src/google/protobuf-c/protobuf-c.c:542-568 | A base-128 form that does not end in a zero group is the one that the packer writes for its value. |
| Packing.Uint32Pack | src/google/protobuf-c/protobuf-c.c:542-568 | Writes exactly the base-128 form at its place, and nothing else in the buffer changes. |
| Packing.Int32Pack | src/google/protobuf-c/protobuf-c.c:573-588 | A negative number is written as the ten bytes of its 64-bit two's complement. |
| Packing.Uint64Pack | src/google/protobuf-c/protobuf-c.c:600-629 | The split into halves and the straddling byte write exactly the base-128 form. |
| Packing.FixedPack | src/google/protobuf-c/protobuf-c.c:643-672 | The word is written low byte first, and nothing else changes. |
| Packing.BooleanPack | src/google/protobuf-c/protobuf-c.c:680-684 | Writes one byte, 0 or 1. |
| Packing.TagPack | src/google/protobuf-c/protobuf-c.c:742-748 | The tag with its wire type or-ed into the first byte is the base-128 form of both together. |
| Packing.MoveBytes | src/google/protobuf-c/protobuf-c.c:722-737 | Moving bytes up over themselves by the overlap-safe copy leaves them whole at their new place. |
| PackedSize.WordSizeAgrees | src/google/protobuf-c/protobuf-c.c:343-396 | The size counted for a number of any type is the length of its payload. |
| PackedSize.RequiredFieldSize | src/google/protobuf-c/protobuf-c.c:343-396 | The size of a singular field is the length of its record, sub-messages included. |
| PackedSize.RepeatedFieldSize | src/google/protobuf-c/protobuf-c.c:426-503 | The size of a repeated field, packed or not, is the length of its records. |
| PackedSize.GetPackedSize | src/google/protobuf-c/protobuf-c.c:516-537 | The size of a message is the length of its encoding. |
| InPlacePack.PrefixGuess | src/google/protobuf-c/protobuf-c.c:906-1021 | The length prefix guessed from the least possible payload is right or one byte short. |
| InPlacePack.GuessIsClose | src/google/protobuf-c/protobuf-c.c:906-1021 | The guess made for a packed field of any type is never too long and at most one byte short. |
| InPlacePack.PrefixedMessagePack | src/google/protobuf-c/protobuf-c.c:722-737 | Writing a sub-message behind a one-byte guess and moving it gives the length and the encoding, in place. |
| InPlacePack.PackedFieldPack | src/google/protobuf-c/protobuf-c.c:915-1005 | Writing a packed payload behind the guess and moving it by one byte if needed gives the record. |
| InPlacePack.RepeatedFieldPack | src/google/protobuf-c/protobuf-c.c:906-1021 | A repeated field is written as its records. |
| InPlacePack.MessagePack | src/google/protobuf-c/protobuf-c.c:1033-1064 | Packing writes exactly the encoding into a buffer that is large enough, returns its length, and changes no other byte. |
| WireBytes.SmallSigned | src/google/protobuf-c/protobuf-c.c:280-298 | A sint32 or sint64 field of id 1 is packed as 08 and one byte: 0 as 00, -1 as 01, 1 as 02, and so on up to a magnitude of 63. |
| WireBytes.SmallNumber | src/google/protobuf-c/protobuf-c.c:751-808 | Small numbers of the other varint types, byte by byte; a boolean that is not 0 is written as 1. |
| WireBytes.TwoByteNumber | src/google/protobuf-c/protobuf-c.c:542-568 | 300 is packed as 08 ac 02 in every type without zigzag. |
| WireBytes.MinusOne | src/google/protobuf-c/protobuf-c.c:573-588 | An int32 or int64 of -1 takes nine bytes of ff and a last one of 01. |
| WireBytes.LargestWord | src/google/protobuf-c/protobuf-c.c:751-808 | The largest uint32 or enum value takes five bytes: an enum is not sign-extended. |
| WireBytes.FixedWords | src/google/protobuf-c/protobuf-c.c:643-656 | A fixed32, sfixed32 or float field of id 1 has the key 0d, and its bytes follow low byte first. |
| WireBytes.WideFixedWords | src/google/protobuf-c/protobuf-c.c:657-672 | A 64-bit one has the key 09, and the bytes of its lower half come first. |
| WireBytes.ShortString | src/google/protobuf-c/protobuf-c.c:696-710 | A string has the key 0a, its length up to the first NUL, and the bytes before that. |
| WireBytes.ShortBytes | src/google/protobuf-c/protobuf-c.c:713-719 | Bytes have the same key, their length, and all of them. |
| WireBytes.NestedNumber | src/google/protobuf-c/protobuf-c.c:722-737 | A sub-message has the same key, the length of its encoding, and that. |
| WireBytes.TwoNumbers | src/google/protobuf-c/protobuf-c.c:906-1021 | Two elements, packed behind one key and length, and not packed behind a key each. |
| WireBytes.OptionalMember | src/google/protobuf-c/protobuf-c.c:812-831 | An optional member is left out exactly if its has-flag is false or its pointer is NULL or that of the default. |
| WireBytes.FieldsInOrder | src/google/protobuf-c/protobuf-c.c:1033-1064 | Fields are written in the order of the descriptor, and unknown ones behind them. |
| WireBytes.LongKey | src/google/protobuf-c/protobuf-c.c:742-748 | The key of a field number from 16 to 2047 in its two bytes. |
| StreamPack.BufferSimple.Append | src/google/protobuf-c/protobuf-c.c:197-220 | Bytes are appended; the array is replaced exactly when they do not fit, and the scratch array is not freed. |
| StreamPack.PackedPayloadLength | src/google/protobuf-c/protobuf-c.c:1194-1257 | The payload length computed beforehand is the length of the payload that is appended. |
| StreamPack.PackToBuffer | src/google/protobuf-c/protobuf-c.c:1412-1435 | Packing to a buffer appends exactly the encoding, the bytes that packing in place writes. |
| RangeTables.WriteIntRanges | src/google/protobuf/compiler/c/c_helpers.cc:295-338 | The generated table covers the values, range by range, and a new range starts exactly at a gap. |
| RangeTables.NumberValues | src/google/protobuf/compiler/c/c_enum.cc:153-166 | Values that occur twice share the index of the first, in ascending order. |
| RangeTables.UniquifiedAreFirst | src/google/protobuf/compiler/c/c_enum.cc:153-166 | The values kept are the first of each number. |
| RangeTables.EnumRanges | src/google/protobuf/compiler/c/c_enum.cc:181-216 | The ranges written for an enum, by another loop, form a table of the same kind. |
| RangeTables.IntRangeLookup | src/google/protobuf-c/protobuf-c.c:1445-1480 | The binary search gives the index of the value, or -1, among the values up to the end of the range that wraps around. |
| RangeTables.LookupIsRightIff | src/google/protobuf-c/protobuf-c.c:1445-1480 | The search is right for every number exactly if the largest int is not among the values. |
| Scanning.LookupField | src/google/protobuf-c/protobuf-c.c:2207-2228 | The last field or a search of the table give the same field as a search of the descriptor. |
| Scanning.ParseTagAndWiretype | src/google/protobuf-c/protobuf-c.c:1483-1511 | The tag and wire type are those of the key at the front, or there is no key of at most five bytes. |
| Scanning.ScanLengthPrefixedData | src/google/protobuf-c/protobuf-c.c:1527-1555 | The length of a prefixed payload as the code computes it, with its sum taken in 32 bits. |
| Framing.LengthIsRightIff | src/google/protobuf-c/protobuf-c.c:1546-1554 | That length is right exactly if prefix and announced length add up to at most 2 to the 32. |
| Framing.WrappedMessage | src/google/protobuf-c/protobuf-c.c:1546-1554 | Six bytes that announce 2 to the 32 less one: the scan accepts four bytes of payload where there is no record. |
| Framing.LexFlatten | src/google/protobuf-c/protobuf-c.c:2200-2308 | Cutting the bytes of any good records gives those records back. |
| Framing.LexConcat | src/google/protobuf-c/protobuf-c.c:2200-2308 | Cutting two byte strings one after the other gives the records of both. |
| Framing.LexIsOk | src/google/protobuf-c/protobuf-c.c:2200-2308 | Every record that is cut carries exactly one payload of its wire type, and takes two bytes or more. |
| Unwrapping.DecodedIsUnwrapped | src/google/protobuf-c/protobuf-c.c:1546-1554 | In bytes that decode no announced length wraps around, at any depth. |
| Unwrapping.PackedIsUnwrapped | src/google/protobuf-c/protobuf-c.c:1546-1554 | Nor does one in anything that was packed. |
| Scanning.SlabbedSize | src/google/protobuf-c/protobuf-c.c:2285-2308 | Slabs that double in size hold the records that they should, as a function of how many there are. |
| ScanPass.ScanStateStep | src/google/protobuf-c/protobuf-c.c:2230-2330 | One more record keeps the invariant of the scan: bitmap, counts of elements and of unknown records. |
| ScanPass.ScanAll | src/google/protobuf-c/protobuf-c.c:2196-2334 | The scan pass stores all records of the data and counts their elements; it fails only if the data does not decode or a request was refused. |
| Counting.MaxB128Numbers | src/google/protobuf-c/protobuf-c.c:1558-1565 | Counts the bytes with a clear top bit. |
| Counting.CountPackedElements | src/google/protobuf-c/protobuf-c.c:1574-1623 | The count of a packed run, or that it cannot be one. |
| Counting.CountedIsParsed | src/google/protobuf-c/protobuf-c.c:1574-1623 | What is counted is the number of elements that the run is parsed into. |
| Counting.CountingAgrees | src/google/protobuf-c/protobuf-c.c:2310-2334 | After any number of records each repeated field has as many elements as were counted, and never more than in all. |
| Counting.CountsMatch | src/google/protobuf-c/protobuf-c.c:2310-2334 | The same for the records of any data in which no length wraps around. |
| ArrayPass.AllocateArrays | src/google/protobuf-c/protobuf-c.c:2336-2381 | Every array has the room that was counted; a refused request leaves a message that can be released. |
| Parsing.ParsePackedRepeated | src/google/protobuf-c/protobuf-c.c:1886-2024 | A packed run is parsed into the slots that were counted for it, exactly as the decoder parses it. |
| Unpack.ParseScanned | src/google/protobuf-c/protobuf-c.c:2035-2067 | One record does to the message in memory what it does to the decoded one, and the blocks owned are accounted for. |
| Unpack.ParseAll | src/google/protobuf-c/protobuf-c.c:2383-2399 | Replaying the slabs gives what applying the records in order gives. |
| Unpack.UnpackMessage | src/google/protobuf-c/protobuf-c.c:2146-2428 | For every input in which no length wraps around and every pattern of refused requests: the decoded message, owning exactly its blocks, or nothing, having released all, and then only if the input does not decode or a request was refused; if none is refused, the message exactly if the input decodes. |
| Defaults.AbsentIsDefault | src/google/protobuf-c/protobuf-c.c:2074-2129 | Whatever bytes decode, a field that none of their records is for holds the default of the descriptor, a string by its pointer, or 0, NULL or nothing; its has-flag is false. |
| Defaults.AbsentInMemory | src/google/protobuf-c/protobuf-c.c:2074-2129 | So it is in the message that the unpacker allocates: the pointer is that of the default or NULL, the number is the default or 0, the length is 0. |
| Defaults.NothingIsDefaults | src/google/protobuf-c/protobuf-c.c:2146-2428 | No bytes at all unpack to a message of defaults, exactly if the check for required fields lets it pass. |
| Defaults.FiveByDefault | src/google/protobuf-c/protobuf-c.c:2080-2096 | A number with the default 5 is 5 in that message. |
| WireReads.OtherWireType | src/google/protobuf-c/protobuf-c.c:1718-1838 | No field but a boolean takes a record of another wire type than its own, told by number. |
| WireReads.AnyBoolean | src/google/protobuf-c/protobuf-c.c:1770-1772 | A boolean takes a record of any wire type and is true if some low seven bits of it are not 0. |
| WireReads.AnyNumber | src/google/protobuf-c/protobuf-c.c:1626-1687 | A number of at most ten bytes is read modulo 2 to its width, however long its form. |
| WireReads.TwoInARun | src/google/protobuf-c/protobuf-c.c:1886-2024 | A packed run is read into a repeated field of numbers in order, whether that is declared as packed or not. |
| WireReads.OneForAPackedField | src/google/protobuf-c/protobuf-c.c:2058-2063 | So is a single record. |
| WireReads.RunsThatFail | src/google/protobuf-c/protobuf-c.c:1574-1623 | A run of booleans is refused exactly if some byte is above 1, and one of fixed words exactly if a part of a word is left over. |
| WireReads.OtherTag | src/google/protobuf-c/protobuf-c.c:2041-2050 | A record for no field is kept with its tag, wire type and payload. |
| WireReads.NoEnd | src/google/protobuf-c/protobuf-c.c:2241-2256 | A number that does not end within ten bytes makes the scan fail. |
| Memory.FreeUnpacked | src/google/protobuf-c/protobuf-c.c:2432-2498 | Releases every block that the message owns, each once, and no other. |
| RequiredFields.ReportedIsMissing | src/google/protobuf-c/protobuf-c.c:2361-2370 | A field that is reported missing was not scanned. |
| RequiredFields.CheckIsCompleteIff | src/google/protobuf-c/protobuf-c.c:2177-2180 | The check finds every missing required field exactly if each of them is first in its group of eight and has its bitmap byte to itself. |
| RequiredFields.MissingFieldAccepted | src/google/protobuf-c/protobuf-c.c:2361-2370 | Two bytes that are accepted for a descriptor with two required fields though the second is missing. |
| RoundTrip.MessageRoundTrip | src/google/protobuf-c/protobuf-c.c:2146-2428 | Unpacking what was packed gives the message, with the members that were not packed as initialized, booleans as 0 or 1 and strings cut at their first NUL. |
| Defaults.UnpackedAsDefault | src/google/protobuf-c/protobuf-c.c:2146-2428 | A member that was not packed comes back as the default of the descriptor, or as 0, NULL or nothing, with a false has-flag. |
| RoundTrip.RoundTripExact | src/google/protobuf-c/protobuf-c.c:2146-2428 | It gives the very message exactly if it is canonical in these respects. |
| RoundTrip.PackAgain | src/google/protobuf-c/protobuf-c.c:1033-1064 | Packing what was unpacked gives the same bytes again. |
| Concatenation.ConcatenationMerges | src/google/protobuf-c/protobuf-c.c:2146-2428 | Unpacking two messages one after the other: repeated and unknown fields are appended, of the others the later one wins. |
| Concatenation.ConcatenationIsUnwrapped | src/google/protobuf-c/protobuf-c.c:1546-1554 | No length in the two together wraps around, so that the unpacker gives that message. |
| RedBlackTree.Tree.Search | src/google/protobuf-c/gskrbtreemacros.h:135-166 | The descent finds the equal node, or the link at the only place where the new node keeps the order. |
| RedBlackTree.Tree.MendInsertion | src/google/protobuf-c/gskrbtreemacros.h:183-233 | The fixup restores the colours and black heights, and turns the new node inwards exactly if it is an inner grandchild below a red parent whose sibling is not red. |
| RedBlackTree.Tree.Insert | src/google/protobuf-c/gskrbtreemacros.h:135-235 | The node is put at its place in the order and the tree stays valid, or the equal node is reported and nothing changes; what lies to the left of the new node is told from the old tree. |
| RedBlackTree.Tree.Remove | src/google/protobuf-c/gskrbtreemacros.h:237-378 | The node, and no other, leaves the order; the tree stays valid and the node's links are cleared. |
| RedBlackTree.Tree.MendRemoval | src/google/protobuf-c/gskrbtreemacros.h:291-372 | The fixup pays a missing black at any place. |
| RedBlackTree.Tree.RotateLeft | src/google/protobuf-c/gskrbtreemacros.h:482-500 | A rotation keeps order, links and counts, and is the rewriting that TreeLinks.Rotated spells out. |
| RedBlackTree.Tree.FixCountAndUp | src/google/protobuf-c/gskrbtreemacros.h:961-981 | Recomputing counts up the path makes every count right. |
| RedBlackTree.Tree.Next | src/google/protobuf-c/gskrbtreemacros.h:502-526 | The node of the next rank, or none after the last. |
| RedBlackTree.Tree.First | src/google/protobuf-c/gskrbtreemacros.h:530-537 | The first node in the order. |
| RedBlackTree.Tree.LookupComparator | src/google/protobuf-c/gskrbtreemacros.h:380-397 | A node equal to the key, or none exactly if there is none. |
| RedBlackTree.Tree.InfimumComparator | src/google/protobuf-c/gskrbtreemacros.h:399-418 | The last node at or before the key. |
| RedBlackTree.Tree.SupremumComparator | src/google/protobuf-c/gskrbtreemacros.h:452-470 | The first node at or after the key. |
| RedBlackTree.Tree.GetByIndex | src/google/protobuf-c/gskrbtreemacros.h:867-893 | The node of that rank, by the subtree counts. |
| RedBlackTree.Tree.GetNodeIndex | src/google/protobuf-c/gskrbtreemacros.h:894-912 | The rank of a node, by the subtree counts: the inverse of GetByIndex. |
| RedBlackTree.Tree.ValidMeans | src/google/protobuf-c/gskrbtreemacros.h:1-135 | The links of a valid tree spell out a red-black tree in the usual sense, with the nodes in order and a height of at most twice the logarithm of their number. |
| TreeMeaning.RedBlackHeight | src/google/protobuf-c/gskrbtreemacros.h:1-135 | A tree without red pairs and with equal black heights has logarithmic height. |
| TreeTurns.LinkedTurns | src/google/protobuf-c/gskrbtreemacros.h:183-233 | A new leaf of rank k is turned inwards exactly if the node of rank k - 1 is red, is a left child without a right one and has no red sibling, or is not red and has only a red right child. |
| MergeSort.Lists.MergeNonemptyLists | src/google/protobuf-c/gsklistmacros.h:355-391 | Relinking merges two lists, on ties from the first. |
| MergeSort.Lists.StackSort | src/google/protobuf-c/gsklistmacros.h:110-201 | The list is sorted stably by relinking, with a stack of floor(log2(ceil(n/2))) + 1 slots or more: every access to the stack is within its size. |
| MergeSort.Lists.ListSort | src/google/protobuf-c/gsklistmacros.h:341-352 | The same for a doubly linked list, whose prev links and last node are right again. |
| MergeSort.StableSortIsUnique | src/google/protobuf-c/gsklistmacros.h:110-201 | There is only one stable sort of a list, so the result is determined. |
| DataBuffer.Buffer.Append | src/google/protobuf-c/protobuf-c-data-buffer.c:176-208 | The bytes are appended over as many fragments as they take; fragments of other buffers do not change. |
| DataBuffer.Buffer.Read | src/google/protobuf-c/protobuf-c-data-buffer.c:313-348 | Takes bytes off the front, as many as are wanted or there are. |
| DataBuffer.Buffer.Peek | src/google/protobuf-c/protobuf-c-data-buffer.c:367-393 | Reads the same bytes and leaves the buffer as it is. |
| DataBuffer.Buffer.ReadLine | src/google/protobuf-c/protobuf-c-data-buffer.c:408-440 | Takes the first line without its newline, if there is a whole one. |
| DataBuffer.Buffer.Discard | src/google/protobuf-c/protobuf-c-data-buffer.c:519-547 | Drops bytes off the front. |
| DataBuffer.Buffer.Reset | src/google/protobuf-c/protobuf-c-data-buffer.c:696-708 | Empties the buffer. |
| DataBuffer.Buffer.IndexOf | src/google/protobuf-c/protobuf-c-data-buffer.c:733-749 | The place of the first such byte over all fragments, or -1. |
| DataBuffer.Buffer.Drain | src/google/protobuf-c/protobuf-c-data-buffer.c:847-873 | All fragments of one buffer go behind those of another. |
| DataBuffer.Buffer.Transfer | src/google/protobuf-c/protobuf-c-data-buffer.c:921-958 | The first bytes of one buffer go to the end of another, whole fragments without copying. |
| Frames.ParseContinues | src/google/protobuf-c/protobuf-c-rpc.c:1149-1200 | Requests parsed so far do not depend on what comes later, and parsing goes on with what was left. |
| Frames.StreamParses | src/google/protobuf-c/protobuf-c-rpc.c:458-510 | A stream of requests parses into those requests. |
| Frames.PackedIsAccepted | src/google/protobuf-c/protobuf-c-rpc.c:1149-1200 | The server accepts every request whose message a client has packed, and no length wraps around in it. |
| Frames.AcceptedMeans | src/google/protobuf-c/protobuf-c-rpc.c:1167-1196 | Refused are exactly the requests for a method that the service does not have and those whose message does not unpack. |
| Frames.FramesInBytes | src/google/protobuf-c/protobuf-c-rpc.c:458-510 | A request and a response, byte by byte: each word of their headers in its place, little-endian. |
| Frames.ReadyIsRightIff | src/google/protobuf-c/protobuf-c-rpc.c:1161-1165 | The test for a whole frame is right whatever has arrived exactly if the announced length plus the header's is below 2 to the 32. |
| Frames.SegmentationMatters | src/google/protobuf-c/protobuf-c-rpc.c:1161-1165 | A header for which what is read depends on how much has arrived. |
| RpcServer.Connection.HandleReadable | src/google/protobuf-c/protobuf-c-rpc.c:1120-1218 | After any bytes, exactly the requests of the stream so far have been invoked, and the connection is open exactly if none was bad. |
| RpcServer.Serve | src/google/protobuf-c/protobuf-c-rpc.c:1120-1218 | However a stream is cut into reads, the same requests are invoked and the same is refused, if no length wraps around in a header or a message that the server comes to. |
| RpcServer.Connection.Respond | src/google/protobuf-c/protobuf-c-rpc.c:1027-1117 | The bytes that go out start with 00 00 00 00 for a message and with 01 00 00 00 and an empty payload for NULL; the other words read back as the method index, the length and the id of the request, which no longer waits, and the packed message follows. |
| ClosureTable.TakeFirst | src/google/protobuf-c/protobuf-c-rpc.c:458-510 | Taking the first free slot keeps the free list and owes one more callback. |
| ClosureTable.GiveBack | src/google/protobuf-c/protobuf-c-rpc.c:604-609 | Giving back a slot in use keeps the free list and owes that callback no more. |
| ClosureTable.Grown | src/google/protobuf-c/protobuf-c-rpc.c:417-443 | The doubled table is right again, with the new slots before the old free ones. |
| Deliveries.TurnsSettle | src/google/protobuf-c/protobuf-c-rpc.c:557-614 | Reading responses calls the closures of the responses in the bytes, in order, each with the unpacked message; if each has a closure that waits and unpacks, the client stays connected with no whole response left; otherwise the first that has not ends the connection, and the others get NULL. |
| Deliveries.NullCallsTell | src/google/protobuf-c/protobuf-c-rpc.c:204-212 | On a failure exactly the closures that wait are called, in the order of the table, with NULL. |
| Deliveries.TurnsContinue | src/google/protobuf-c/protobuf-c-rpc.c:557-614 | However the bytes of responses are cut into reads, they lead to the same calls and the same state. |
| Deliveries.MessageArrives | src/google/protobuf-c/protobuf-c-rpc.c:557-614 | A message that was packed into a response to a waiting id reaches its caller as unpacking gives it back, and no length wraps around. |
| Deliveries.FailureArrives | src/google/protobuf-c/protobuf-c-rpc.c:566-593 | A response that says that the service failed is delivered as a message without fields, unless a required one is reported missing. |
| RpcClient.Client.EnqueueRequest | src/google/protobuf-c/protobuf-c-rpc.c:458-510 | The request goes out with a free id, whose slot holds the closure; the table doubles only if it is full, and no other slot changes. |
| RpcClient.Client.HandleResponse | src/google/protobuf-c/protobuf-c-rpc.c:557-614 | If no length wraps around: without a whole response in hand nothing changes; a response to an id that waits is taken from the bytes, unpacked by that method's type and delivered, and its slot is free; any other, or one that does not unpack, ends the connection. |
| RpcClient.Client.HandleReadable | src/google/protobuf-c/protobuf-c-rpc.c:524-614 | The client holds what all the turns over the bytes in hand and the new ones lead to: callbacks, table and bytes left. |
| RpcClient.Client.ClientFailed | src/google/protobuf-c/protobuf-c-rpc.c:135-213 | The waiting closures are called with NULL, in the order of the table, and nobody else; both buffers are empty. |
| RpcClient.Client.Destroy | src/google/protobuf-c/protobuf-c-rpc.c:668-722 | The same on destruction, which waits for a pending name lookup. |
| RpcClient.Client.Invoke | src/google/protobuf-c/protobuf-c-rpc.c:634-665 | An invocation is put on the stream under the id that its caller waits for, or answered at once with NULL if the client has failed. |
| RpcClient.Step | src/google/protobuf-c/protobuf-c-rpc.c:135-722 | Where each event leads from each state in which it can happen: the requests of the connection, the table, the bytes in hand and the callbacks, and whom it adds to the callers. |
| RpcClient.Run | src/google/protobuf-c/protobuf-c-rpc.c:135-722 | Over every run of events, which of them happened follows from the states passed through; nobody is called more often than it invoked, and when the client is not connected everybody has been called exactly once for each invocation. |
| RpcClient.StatesOfRun | src/google/protobuf-c/protobuf-c-rpc.c:183-198 | In every run a client that reconnects by itself waits after a failure and another one stays failed; after its destruction nothing changes any more. |
| RpcClient.OneCall | src/google/protobuf-c/protobuf-c-rpc.c:135-722 | In every run that connects, invokes once and reads a response with id 1 the request goes out with that id and the message of the response reaches the caller. |
| Dispatch.Registry.WatchFd | src/google/protobuf-c/protobuf-c-dispatch.c:464-531 | What is wanted of the descriptor is recorded and logged, once for each descriptor; array and map stay inverse. |
| Dispatch.Registry.FdClosed | src/google/protobuf-c/protobuf-c-dispatch.c:542-556 | The descriptor is forgotten; the log stays right exactly if it had no entry or the last one, and otherwise keeps an index for it and a misplaced entry. |
| Dispatch.Registry.ClearChanges | src/google/protobuf-c/protobuf-c-dispatch.c:662-673 | The log is emptied; its assertion holds at every step exactly for a log whose entries are all in their places. |
| Dispatch.Registry.DispatchClears | src/google/protobuf-c/protobuf-c-dispatch.c:606-609 | The same loop without assertions; only descriptors that the log names lose their index. |
| Dispatch.PlacesAreWanted | src/google/protobuf-c/protobuf-c-dispatch.c:340-361 | The array holds what is wanted, once each, and the map is its inverse. |
| Dispatch.LogTells | src/google/protobuf-c/protobuf-c-dispatch.c:363-377 | A right log has one entry at most for a descriptor, and applying it leads from the interest at the last clear to the present one. |
| Dispatch.ClosedLog | src/google/protobuf-c/protobuf-c-dispatch.c:418-435 | Deallocating an entry leaves a right log exactly if there was none, or it was the last. |
| Dispatch.RunAll | src/google/protobuf-c/protobuf-c-dispatch.c:464-673 | Over every run of watches, closes and clears, what is wanted is what the events say; the log is right at the end exactly if the last close, like all before it, was of a descriptor without an entry or with the last one, which the events alone decide. |
| Dispatch.LeaveStale | src/google/protobuf-c/protobuf-c-dispatch.c:418-435 | After any other close and the end of the round the descriptor has an index into an empty log, so that another close reads before the first entry. |
| Dispatch.WatchStale | src/google/protobuf-c/protobuf-c-dispatch.c:464-531 | And a watch of it leaves no entry in the log. |
| Dispatch.CloseOfTwo | src/google/protobuf-c/protobuf-c-dispatch.c:418-435 | Two watches, a close of the first and a clear come to that state. |
| TreeTurns.TurnsAfterFirst | src/google/protobuf-c/protobuf-c-dispatch.c:807-810 | After the first node a new one is turned inwards exactly if the first is red and has no sibling, or is black and has a child. |
| RedBlackTree.Tree.OnLeftSpine | src/google/protobuf-c/protobuf-c-dispatch.c:807-810 | The path test passes exactly if nothing before the node lies outside its own subtree. |
| Timers.TimerQueue.AddTimer | src/google/protobuf-c/protobuf-c-dispatch.c:780-818 | The timer is put in its place by time; the time that is told stays that of the first timer, the least number of microseconds, except in a case that is told from the old tree, and then it is the new timer's and not the least. |
| Timers.BeforeMeans | src/google/protobuf-c/protobuf-c-dispatch.c:177-187 | Times are in the order of their microseconds in all. |
| Timers.MillisAfterMeans | src/google/protobuf-c/protobuf-c-dispatch.c:820-836 | The time so many milliseconds later, with less than a second of microseconds. |
| Timers.TimerQueue.AddBetween | src/google/protobuf-c/protobuf-c-dispatch.c:807-816 | Adding a timer between two others always tells the wrong time. |
| Timers.TellsTwenty | src/google/protobuf-c/protobuf-c-dispatch.c:807-816 | The times 10, 30 and 20: told is 20. |
| Timers.TimerQueue.RemoveTimer | src/google/protobuf-c/protobuf-c-dispatch.c:839-865 | The time told stays that of the first timer, the least one; removing a timer whose time was told instead mends it. |
| Timers.TimerQueue.FireTimers | src/google/protobuf-c/protobuf-c-dispatch.c:627-655 | Exactly the timers that are due are taken out, in order: in microseconds those are at most now and all that are left are later, and the least of these is told. |
| Timers.FiresOne | src/google/protobuf-c/protobuf-c-dispatch.c:627-655 | Two timers of the same second: at 10.5 only that of 10.2 is fired, and 10.7 is told. |

## Findings

Where the code does not do what it is meant to, the model follows the code, and the exact condition is proved.

* **Lengths that wrap around.** `scan_length_prefixed_data` adds the prefix length to the announced length in 32 bits
  (protobuf-c.c:1546-1554). `Framing.WrappedMessage` has six bytes where the sum comes to 4. The scan is right
  exactly if the sum is at most 2 to the 32 (`Framing.LengthIsRightIff`). The theorems on unpacking are stated for
  input in which no record wraps around, `Framing.Unwrapped`, which can be decided on the bytes; everything that
  decodes and everything that was packed is such input. `Framing.Wraps` names the inputs that are not covered.
* **Frames that wrap around.** Both sides of the RPC compare what has arrived with a 32-bit sum of the header's
  size and the announced length (protobuf-c-rpc.c:1164 and 573). The test is right exactly
  below 2 to the 32 (`Frames.ReadyIsRightIff`); otherwise what is read depends on the segmentation
  (`Frames.SegmentationMatters`).
* **Failed services.** The client reads the status word of a response and never looks at it (protobuf-c-rpc.c:566-593),
  so that a caller is not told that the service failed but gets a message without fields, or its connection fails if
  the type has a required field that is reported missing (`Deliveries.FailureArrives`).
* **Missing required fields.** `!REQUIRED_FIELD_BITMAP_IS_SET (f)` negates a byte of the bitmap before it takes the
  bit, and the byte is taken modulo 16 (protobuf-c.c:2177-2180 and 2363-2364). `RequiredFields.CheckIsCompleteIff` says
  for which descriptors the check still finds every missing field; `RequiredFields.MissingFieldAccepted` is a message
  without a required field that is accepted.
* **The largest int.** `int_range_lookup` computes the end of a range in int (protobuf-c.c:1445-1480). If the largest
  int is in the table the end wraps around and that range is not found (`RangeTables.LookupIsRightIff`).
* **The log of changes.** `deallocate_change_index` corrects the map entry of the descriptor that goes away and not
  of the one whose entry moves (protobuf-c-dispatch.c:430-433). Which closes are safe is `Dispatch.SafeToClose`; what
  the others lead to is in `Dispatch.Registry.FdClosed`, `Dispatch.LeaveStale` and `Dispatch.WatchStale`. After such
  a close the assertion of `protobuf_c_dispatch_clear_changes` fails, as its precondition `Placed` does not hold.
* **The time of the first timer.** `protobuf_c_dispatch_add_timer` tests that no step up from the new node comes from
  a right child, which also holds of a node that has the first one in its own left subtree
  (protobuf-c-dispatch.c:807-810). `Timers.TimerQueue.TellsLate` is the exact condition on the tree before.
* **Sub-messages.** A later sub-message replaces an earlier one in concatenated input, where the Protocol Buffers
  encoding merges the two; `Concatenation.ConcatenationMerges` states what the code does.

## Left out

- Unpack.UnpackMessage: says nothing of input in which a length wraps around, where the code copies from memory that
  the model does not have; Framing.WrappedMessage shows such an input.
- RpcServer.Serve: says nothing of streams in which a length wraps around, in a header, for which it would be false,
  or in a message, of which the unpacker is not known to make the same.
- RpcClient.Client.HandleResponse: of a response in which a length wraps around it only says that the client stays
  valid and that the callbacks grow; what was never written to the block that the response is read into is arbitrary.
- Refused requests for memory in the RPC layer, which does not check for them.
- Dispatch.Registry.FdClosed: requires that the log is not empty if the descriptor has an index into it; in a state
  where that fails the code reads outside of the log.
- RpcClient.Client.Invoke: says nothing of invocations before the connection is made, for which the code uses the
  closure table of a connection that does not exist yet, or after the client has been destroyed and freed.
- Timers.TimerQueue.AddTimer: times with a second or more of microseconds are ordered by seconds first, as in the code.
- RpcClient.Client.HandleReadable: callbacks that invoke the client again, while it is at work, are not modelled.
- The size of an allocation: a request names a number of elements, and only whether it is zero matters.
- Lengths of 2 to the 32 and more: preconditions keep packed sizes and inputs below, as the code truncates them.
- Default values of message type and big-endian machines; floats and doubles are the words that hold their bits.
- Message structs in place: a message that is being unpacked is a value in local variables, not a struct in memory.
- Mirrored branches of the tree fixups are separate methods, as in the macros, over lemmas that are stated once.
- GSK_RBTREE_PREV and GSK_RBTREE_LAST, the mirror images of the modelled NEXT and FIRST.
- The list macros for reversing and inserting, the queue macros, and qsort in the code generator, whose result is a
  precondition: they would add easy members.
- The substring searches, string conversions and printing of the data buffer, its recycling bin, and its system calls.
- The callbacks of the dispatcher, the poll call, idle functions and re-entrant calls; events are sets of flags.
- Connecting, name lookup and the listening socket of the RPC layer beyond their results; threads, proxied responses
  and requests whose connection is gone.
- The rest of the code generator, whose output is text.
