# Verified models of the bencode stack, the KRPC ping messages and the nodes.dat parser

This project models two stateful byte-level parsers of the repository and proves what their clients
rely on.

**The bencode stack.** `ben.h` appends encoded values to a growing buffer. `benr.c` reads them back
without copying: a cursor tokenizer, a skipper that finds the end of a container only by counting
markers, and lazy list and dict iterators whose containers carry a length that is only an upper bound.
`benp.c` is a second tokenizer for the same grammar. `bt_dht.c` writes and reads KRPC messages on top.
The encoding is that of BEP 3, section "bencoding"; the messages are those of BEP 5, sections "KRPC
Protocol" and "ping".

**The nodes.dat parser.** `nodes_dat.c` is fed a file in chunks of any size, keeps a partial header and
a partial record between calls, and appends contacts to a linked list through a pointer to the last
`next` field. Callers may take the list away at any time. `peer.c` frees lists.

## How the model is built

The C files change cursors, buffers, counters and lists in place, and so do the classes here. Each such
method is proved against a function of its inputs or of the old state, and the promises are lemmas about
those functions.

| file | content |
|---|---|
| `ByteString`, `Numerals` | bytes, machine widths, decimal numerals |
| `BencodeTree`, `BencodeText` | values, the encoding of BEP 3, what `ben.h` writes for the same values, and the characters of either |
| `Ben` | `ben.h` as a class |
| `BenrToken`, `BenrSkip`, `BenrIter` | `benr_next`, `ctx_adv_container` and the iterators as functions on positions |
| `TokenTable` | both tokenizers and the failure codes as tables over characters |
| `BenrRoundTrip`, `BenrBounds` | round trip, prefix freedom, locality, cost |
| `BenrSyntax`, `BenrParse`, `BenrClosed` | what is accepted and what it means, as an inductive syntax; what the end of a walk says about the container |
| `BenrReemit`, `BenrCanonical` | writing back what was read |
| `BenrCode`, `BenrClient` | `benr.c` as classes with loops, and clients walking whole values |
| `Benp`, `BenpCode` | `benp.c`, lockstep with `benr.c`, tiling of the input |
| `Krpc`, `KrpcScan`, `KrpcMeaning`, `KrpcPing`, `BtDht` | the message half of `bt_dht.c`: the parser, when it ends, what it makes of a datagram, the ping messages |
| `NodesDat`, `NodesDatRun`, `NodesDatTheorems`, `NodesDatFile` | the parser as a function on states, the one-shot reading of a file, whole runs, a file writer |
| `NodesDatPlain` | files, versions, errors and return values in plain byte arithmetic |
| `NodesDatCode`, `NodesDatSession` | `nodes_dat.c` and `peer.c` on a heap with allocation and release, and a client like `nd_reader.c` |

Addresses are offsets into a byte sequence. `size_t` and `uintmax_t` have 64 bits and their wrap-around is
written out (`% U64`); `int` results that carry a byte count go through `ToInt32`. Bytes of 128 and above
are no digits. A buffer is shorter than the address space (`Cursor.Valid`), as every C object is.

## Where the code differs from what its documentation promises

The model follows the code.

- `ben_string` stops at a zero byte (ben.h:37). Round trips hold exactly for values without zero bytes;
  this covers random 20-byte node ids (`PingSurvivesIffNulFree`).
- The iterators report an error or the end of the input as success without moving (benr.c:243-244,
  benr.c:264-266), so the loop of `krpc_msg_parse` never ends on such input. `ParseHangsIff` says exactly when.
- A dictionary that ends in a key without a value is read as if the key were not there (benr.c:275-279,
  `DanglingKeyIsDropped`). If that key is a container, its end passes for the dictionary's: the walk ends
  although the dictionary need not be closed (`ReadDictIsClosedIff`).
- `krpc_msg_parse` returns -1 on every path and looks up "q" for responses too (bt_dht.c:273-281).
- The closed form at benr.h:28 is not the sum above it (`ClosedFormIffTiny`).
- nodes_dat.h:92-95 says a completed parse returns less than the length; it returns the whole length when the
  file ends with the chunk (`CallReturns`).
- A completed record loop writes neither `nr_consumed` nor `cur_e_pos` back (nodes_dat.c:219-222), so bytes fed
  later are parsed again (`LateFeedIff`, `LateFeedDuplicates`).
- nodes_dat.h:23 says the version field is always 2; the code also accepts a 12-byte header with version 0.
- nodes_dat_dump.py:39 reads the two ports in the other order; the model follows nodes_dat.h:30-31.

## Model

| member | source | states |
|---|---|---|
| Numerals.DecimalOfNumeral | ben.h:34-43 | the digits printf writes for a number read back as that number |
| Numerals.NumeralOfDecimal | ben.h:34-43 | printf reproduces a digit string if and only if it is non-empty and has no redundant leading zero |
| BencodeTree.EmittedIffNulFree | ben.h:34-38 | the emitter never writes more than the BEP 3 encoding, and writes the encoding itself exactly when no string holds a zero byte |
| BencodeTree.TextsCollideIff | ben.h:34-38 | a text is written like some other text if and only if it has a byte behind its first zero byte |
| BencodeTree.NulTextsCollide | ben.h:34-38 | the smallest two such texts |
| BencodeTree.LessIff | ben.h:8-10 | keys are compared at their first differing byte, a proper prefix first: the order in which the ping messages keep their keys |
| BencodeText.IntegerText | ben.h:40-43 | an integer is written as the characters "i", "-" exactly if it is negative, its decimal digits and "e" |
| BencodeText.StringText | ben.h:34-38 | a string is written as its length in decimal, ":" and its bytes before the first zero byte |
| BencodeText.ListText | ben.h:24-32 | a list is written as "l", its items and "e" |
| BencodeText.DictText | ben.h:14-22 | a dictionary is written as "d", its entries and "e" |
| BencodeText.ItemsText | ben.h:14-43 | items follow one another in order with nothing in between |
| BencodeText.EntriesText | ben.h:14-43 | so do entries, each a key and then its value |
| Ben.DarrayChar.DictBegin | ben.h:14-17 | appends exactly the opening byte of a dictionary |
| Ben.DarrayChar.DictEnd | ben.h:19-22 | appends exactly the end marker |
| Ben.DarrayChar.ListBegin | ben.h:24-27 | appends exactly the opening byte of a list |
| Ben.DarrayChar.ListEnd | ben.h:29-32 | appends exactly the end marker |
| Ben.DarrayChar.String | ben.h:34-38 | appends length, colon and the payload up to its first zero byte |
| Ben.DarrayChar.Integer | ben.h:40-43 | appends the decimal encoding of any 64-bit integer |
| Ben.DarrayChar.StringC | ben.h:45-48 | appends the complete encoding of a C string |
| Ben.DarrayChar.Write | ben.h:14-48 | a whole value written with these calls, children in order; it is the BEP 3 encoding iff the value holds no zero byte |
| BenrToken.ScanUintMeaning | benr.c:35-69 | the digit loop stops at a position with a value iff a digit run before the terminator ends there and reads that value modulo 2^64 |
| BenrToken.ScanNumeral | benr.c:35-69 | the printed digits of every number are read back as that number modulo 2^64 |
| BenrToken.IntegerRoundTrip | benr.c:82-105 | the encoding of an integer of any size is read as that integer reduced to 64 bits: the integer itself iff it is in the 64-bit range, minimum included |
| BenrToken.TextRoundTrip | benr.c:135-171 | the encoding of any string shorter than 2^64 yields the slice holding its payload and the position behind it |
| BenrToken.NextLocal | benr.c:71-172 | a token is decided by the bytes it spans: other bytes behind it and other bounds change at most a container's length bound |
| TokenTable.TableIsExact | benr.c:71-172 | on every input benr_next reports exactly what a table over the characters says, which runs digits through no loop and wraps at 18446744073709551616 |
| TokenTable.NextEventByTable | benp.c:65-151 | benp_next reports what the corresponding table of events says |
| TokenTable.ReadsInteger | benr.c:82-105 | both tokenizers read the text "i", optional "-", any digits, "e" as that number reduced to 64 bits |
| TokenTable.ReadsMarker | benr.c:106-134 | both read "l", "d" and "e" as the opening of a list, that of a dictionary and an end |
| TokenTable.KnownInteger | benr-api-test.c:41-47 | the text "i-42561e" is read as -42561 |
| TokenTable.KindCodes | benr.h:49-78 | the numbers of enum benr_kind |
| TokenTable.InitByTable | benr.c:174-190 | benr_init reports the first token by the same table, except for "e", which it reports as an unexpected byte at the start |
| BenrSkip.SkipIffFirstClosing | benr.c:216-241 | the skipper succeeds at a position iff the bytes up to it tokenize to a sequence that brings the depth from 1 to 0 for the first time at its end |
| BenrSkip.SkipFailsIffStuck | benr.c:216-241 | it fails with a code iff tokenizing stops while the container is still open, and the code is that of the error found or of an unexpected end |
| TokenTable.SkipFailsWith | benr.c:216-241 | the code, from -7 to -11, is that of the characters at which tokenizing stops with the container open; -8 at the end of the input |
| BenrSkip.SkipLandsPastMatchingEnd | benr.c:216-241 | on any encoded list or dict, integers of any size included, it lands just past the matching end marker |
| BenrSkip.SkipLocal | benr.c:216-241 | it looks at nothing beyond where it lands |
| BenrSkip.SkipSplit | benr.c:216-241 | closing several levels is closing the inner ones and going on from there, failure codes included |
| BenrSkip.SkipBounds | benr.c:216-241 | on every input at most len+1 tokens are taken and the depth never exceeds its start plus the bytes left |
| BenrSkip.DepthBound | benr.c:216-241 | over any tokens the depth changes by no more than the bytes they take |
| BenrIter.ListNextOverTree | benr.c:245-262 | one list step over any encoded child, integers of any size included, ends right behind it |
| BenrIter.DictNextOverEntry | benr.c:267-297 | one dict step over any encoded entry yields its key and value and ends right behind it |
| TokenTable.ListStops | benr.c:245-262 | exactly when a list iterator returns a negative value, which one, and where it then stands |
| TokenTable.DictStops | benr.c:267-297 | the same for a dict iterator |
| BenrIter.ReadTree | benr.c:174-330 | the walk of an encoded value yields that value and moves cursors over exactly Work bytes, re-scans included |
| BenrRoundTrip.RoundTrip | benr.c:71-297 | any emittable value without zero bytes, followed by anything, is read back whole |
| BenrRoundTrip.RoundTripIffNulFree | ben.h:34-38 | an emittable value comes back from its own bytes if and only if none of its strings holds a zero byte |
| BenrRoundTrip.ListIteration | benr.c:243-262 | the k-th call yields the k-th child and stops behind it; the call after the last child reports the end behind the end marker |
| BenrRoundTrip.DictIteration | benr.c:264-297 | the same for entries, key and value together |
| BenrRoundTrip.EndIsReportedOnce | benr.c:243-266 | after the end has been reported, a further call reports success with no token |
| BenrRoundTrip.SplitsUniquely | ben.h:14-43 | values written back to back with anything split in one way only |
| BenrRoundTrip.PrefixFree | ben.h:14-43 | no value's bytes begin those of another value |
| BenrBounds.ListNextInside | benr.c:245-262 | inside any balanced level a list step stays inside it, and is the same step whatever follows the level and wherever the buffer ends |
| BenrBounds.DictNextInside | benr.c:267-297 | the same for dict steps, container keys included |
| BenrBounds.LooseBoundIsHarmless | benr.h:90-98 | walking a container under a loose length bound finds the same items at the same cost as in a buffer cut at its end marker |
| BenrBounds.TrailingBytesAreIrrelevant | benr.h:90-98 | replacing every byte behind the end marker changes nothing |
| BenrBounds.TraversalCost | benr.h:12-32 | a full traversal of any balanced N-byte container moves cursors over at most N^2/4 bytes, and with the opening byte no more than the sum 2+4+...+N |
| BenrBounds.BoundAttained | benr.h:12-32 | nested lists attain N^2/4 exactly |
| BenrBounds.ClosedFormIffTiny | benr.h:27-28 | the printed closed form equals the sum if and only if N is at most 2 |
| BenrReemit.ReemitInteger | benr.c:82-105 | ben_integer reproduces an integer token iff its text is canonical and in range |
| BenrReemit.ReemitString | benr.c:135-171 | ben_string reproduces a string token iff its length is canonical and its payload has no zero byte |
| BenrSyntax.ReadNode | benr.c:71-330 | the bytes of any syntax node, followed by anything, are read as the node's value, or not at all if it has none |
| BenrSyntax.SameNode | benr.c:71-172 | no bytes begin with two different nodes: the syntax is unambiguous |
| BenrSyntax.EntriesIffPairs | benr.c:267-297 | nodes are read as given entries iff they are these entries two by two, then nothing, one string or number, or an empty container and anything |
| BenrParse.ReadsIffSyntax | benr.c:71-330 | on every byte string: a walk through the iterators reads a value iff the bytes begin with a node of that value |
| BenrParse.SkipsIffSyntax | benr.c:216-241 | the skipper lands at a position iff nodes and one end marker fill the bytes up to it |
| BenrClosed.ListWalkIsSkip | benr.c:216-262 | on every input a list iterator reports its end where the skipper lands, and fails with the skipper's code otherwise |
| BenrClosed.DictWalkSkips | benr.c:216-297 | on every input, where a dict iterator reports its end the skipper is still as many levels deep as keys were containers; failure codes agree |
| BenrClosed.DictEndsIffClosed | benr.c:264-297 | the reported end is that of the dictionary iff no key was a container; in a closed dictionary the end is always reported, within it |
| BenrClosed.ReadListIsClosed | benr.c:243-262 | a list whose children can all be read is closed, where its walk ends |
| BenrClosed.ReadDictIsClosedIff | benr.c:264-297 | a dictionary whose entries can all be read is closed, where its walk ends, iff the last call did not find a container in key position |
| BenrClosed.UnclosedDictIsRead | benr.c:270-279 | the smallest dictionary that is read although it is never closed |
| BenrClosed.DanglingKeyIsDropped | benr.c:270-279 | an end marker in place of all that the last call of a readable walk finds gives the same entries: a last key without a value, of any kind, is dropped |
| BenrCanonical.RewriteIffCanonical | benr.c:71-297 | reading any value and writing it back reproduces its bytes iff every token was canonical and no dictionary, the outermost included, ends in a key without a value |
| BenrCode.Cursor.InitUint | benr.c:35-69 | the loop on a local cursor computes the specified scan and commits only on success |
| BenrCode.Cursor.NextToken | benr.c:71-172 | token and cursor are the specified ones and those of the character table; errors leave the cursor alone |
| BenrCode.Cursor.AdvContainer | benr.c:216-241 | result and cursor are those of the specified skip, the 64-bit depth counter notwithstanding, within len+1 tokens |
| BenrCode.BenrInit | benr.c:174-190 | the first token, but never an end marker: "e" becomes an unexpected byte at data |
| BenrCode.ListIter.NextItem | benr.c:245-262 | item, result and iterator position are the specified ones; the out-parameter is untouched on a negative result |
| BenrCode.DictIter.NextPair | benr.c:267-297 | the same for pairs |
| BenrCode.WalkValue | benr.c:299-330 | recursive iteration through the iterators and accessors yields the specified tree and cost |
| BenrClient.WriteThenWalk | benr.c:71-330 | writing a value and walking the buffer gives the value back; with nothing behind it, iff it holds no zero byte |
| Benp.SameToken | benp.c:32-151 | on every byte string both tokenizers agree in kind, value, slice and cursor |
| Benp.Lockstep | benp.c:65-151 | they stay in step for any number of calls |
| Benp.Tiling | benp.c:65-151 | draining cuts a prefix of the input into non-empty adjacent spans with payloads inside, the whole input iff it ends in DONE |
| BenpCode.Context.Uint | benp.c:32-63 | the loop computes the specified scan and commits only on success |
| BenpCode.Context.NextEv | benp.c:65-151 | event and cursor are the specified ones and those of the character table |
| BenpCode.Drain | benp.c:65-151 | calling until DONE or an error terminates and collects exactly the specified tiles |
| KrpcScan.ScanHangsIff | bt_dht.c:218-262 | the loop never ends, every call returning 0, iff some call finds an error or the end of the input where a key should start |
| KrpcScan.HangsIffTokensSpin | bt_dht.c:218-262 | which is the case iff a single pass over the tokens gets stuck where a key or a value should start |
| KrpcScan.HangsIffOneLevelOpen | bt_dht.c:218-262 | it hangs only if the tokenizer gets stuck with one level open beside those opened by container keys; with no such keys, exactly then |
| KrpcScan.ClosedDictNeverHangs | bt_dht.c:218-262 | a dictionary that is closed somewhere never hangs the loop, whatever its keys and values are |
| KrpcScan.ParseHangsIff | bt_dht.c:198-262 | on every datagram: the parser hangs iff the datagram is a dictionary and that pass gets stuck |
| KrpcScan.UnclosedDictHangs | bt_dht.c:218-262 | the one-byte datagram that never lets the scan end |
| KrpcMeaning.MessageSlots | bt_dht.c:215-262 | on every input each of the seven notable slots ends up with the last entry under its letter, or the loop never ends; values need not be readable, keys need not be strings |
| KrpcMeaning.ParseMeaning | bt_dht.c:198-282 | on every datagram: no dictionary, never ends, or type and query kind depend only on the last "y" and the last "q" |
| KrpcMeaning.ParseByName | bt_dht.c:146-282 | in the literal names of BEP 5: the last "y" being "q", "r" or "e" gives the type; for queries and responses only, the last "q" being "ping", "find_node", "get_peers" or "announce_peer" gives the query kind, which any other leaves alone |
| KrpcMeaning.ParseRefuses | bt_dht.c:198-208 | a datagram that does not begin with "d" returns -1 and leaves the message alone |
| KrpcMeaning.TopsOfNodes | bt_dht.c:218-262 | the entries the loop sees in a closed dictionary, from its syntax: a container in key position is entered, not skipped |
| KrpcMeaning.ParseClosed | bt_dht.c:198-282 | the parser on every datagram that begins with a closed dictionary, from its syntax, unreadable values and odd keys included |
| KrpcMeaning.ParseEmitted | bt_dht.c:198-282 | in particular every emitted dictionary without zero bytes is parsed from its last "y" and "q" values, whatever follows it |
| KrpcMeaning.ParseEmittedByName | bt_dht.c:146-282 | emitted dictionaries against the same literal names |
| KrpcMeaning.OrderIsIrrelevant | bt_dht.c:198-282 | without duplicate string keys, permuting the entries changes nothing, whatever their values contain |
| KrpcPing.PingKeysAscend | bt_dht.c:289-337 | keys of both messages ascend strictly at every level |
| KrpcPing.PingBytes | doc/bep_0005.rst:281-287 | the query is byte for byte the packet of BEP 5 |
| KrpcPing.PingResponseBytes | doc/bep_0005.rst:290-293 | the response is byte for byte the packet of BEP 5, the identifier under "r" |
| KrpcPing.PingWritten | bt_dht.c:289-314 | the bytes of the query as written, for identifiers with zero bytes too |
| KrpcPing.PingResponseWritten | bt_dht.c:316-337 | the bytes of the response as written |
| KrpcPing.PingIsRecognized | bt_dht.c:289-314 | for identifiers without zero bytes the query is one canonical dictionary, parsed as a ping query, with "t" read back |
| KrpcPing.PingResponseIsRecognized | bt_dht.c:316-337 | the response likewise, parsed as a response; the query kind stays what it was |
| KrpcPing.PingSurvivesIffNulFree | bt_dht.c:284-337 | either message survives its own bytes iff neither identifier holds a zero byte |
| BtDht.KrpcMsg.ParseQueryKind | bt_dht.c:146-169 | sets the query kind for the four known names and leaves it alone otherwise |
| BtDht.ScanEntries | bt_dht.c:210-262 | the loop collects the specified slots or is found to spin |
| BtDht.KrpcMsg.ParseMessage | bt_dht.c:198-282 | outcome and message fields are the specified ones |
| BtDht.GenPing | bt_dht.c:289-314 | the calls append exactly the emitted ping query, stated in literal bytes |
| BtDht.GenPingResponse | bt_dht.c:316-337 | the calls append exactly the emitted response, stated in literal bytes |
| NodesDatRun.RecordsMeaning | nodes_dat.c:176-219 | the record loop makes the contacts of the chopped stream, and stops where chopping stops |
| NodesDatRun.HeaderMeaning | nodes_dat.c:96-139 | the two-stage header is complete exactly when the bytes so far contain one, with its version and count, whatever the division |
| NodesDatPlain.HeaderPlain | nodes_dat.c:96-139 | the header in plain byte arithmetic: which words are tested, and where version and count stand |
| NodesDatPlain.ContactsPlain | nodes_dat.c:37-93 | the contacts of any bytes: as many 25-byte or 34-byte records as fit, up to the declared number, each field from its literal offset |
| NodesDatRun.RecordsStep | nodes_dat.c:163-223 | one call behind the header advances the payload read so far by its bytes |
| NodesDatTheorems.Simulation | nodes_dat.c:141-223 | unless an allocation fails, header fields, error and contacts between calls are those of the bytes fed so far, and so are counters and partial record until the file is complete; from then on the counters are those of an earlier point of the payload |
| NodesDatTheorems.ChunkingInvariance | nodes_dat.c:97-223 | however a stream is divided and drained, version, count and contacts are those of the file read in one go |
| NodesDatPlain.VersionRule | nodes_dat.c:163-174 | for any calls on a file with a 12-byte header: a version word other than 0 and 2 means error -22 and no contact, 0 or 2 means no error unless an allocation fails |
| NodesDatPlain.OldVersionRule | nodes_dat.c:97-118 | a file that begins with a non-zero word has version 0 and declares that many records |
| NodesDatPlain.RefusalIsReturned | nodes_dat.c:163-174 | the call that completes a refused header returns -22, and so does every later one |
| NodesDatPlain.ErrorIsReturned | nodes_dat.c:146-147 | after any error every later call returns that error and changes nothing |
| NodesDatTheorems.DivisionIsInvisible | nodes_dat.c:97-223 | two divisions of the same bytes, chunks of any size, give the same contacts, header fields and error; also the same counts if these fit the int |
| NodesDatTheorems.ByteConservation | nodes_dat.c:97-223 | until the file is complete the bytes fed are header, whole records and buffered part; counts that fit the int add up to the bytes fed, or to the declared size once complete |
| NodesDatTheorems.CallReturns | nodes_dat.h:92-95 | a call returns the whole length unless the file ends inside the chunk, and then what was missing |
| NodesDatPlain.FailingCallReturns | nodes_dat.c:191-204 | the call in which an allocation fails returns the bytes up to the end of the last record made, and resets the buffer position |
| NodesDatTheorems.MemoryExactly | nodes_dat.c:191-211 | a run fails for lack of memory iff more records have arrived than allocations were left, and the contacts delivered are the first of the file in every case |
| NodesDatTheorems.FailureIsFinal | nodes_dat.c:146-147 | after any error nothing is delivered, counted or allocated any more, whatever is fed and drained |
| NodesDatTheorems.FailureKeepsFirst | nodes_dat.c:146-147 | after a failed allocation the contacts stay the first ones of the file, however much of it arrives later |
| NodesDatTheorems.DrainingIsNeutral | nodes_dat.c:226-232 | lists taken at any points concatenate to the list of an undisturbed run, failing allocations included |
| NodesDatTheorems.LateFeedIff | nodes_dat.c:219-222 | a call behind a complete file has no effect iff the file declares no records |
| NodesDatTheorems.LateFeedDuplicates | nodes_dat.c:219-222 | a one-record file followed by its record yields the contact twice |
| NodesDatFile.EntryRoundTrip | nodes_dat.c:37-63 | a stored contact is decoded from its nd_entry bytes |
| NodesDatFile.EntryV0RoundTrip | nodes_dat.c:65-93 | the same for nd_entry_v0, the missing fields zero |
| NodesDatFile.AnyDivisionReadsV2 | nodes_dat.c:97-223 | contacts written as a version-2 file come back from any division of it into chunks of any size |
| NodesDatFile.AnyDivisionReadsV0 | nodes_dat.c:97-223 | the same for version-0 files |
| NodesDatCode.FreeKadPeers | peer.c:6-13 | the loop frees exactly the nodes of the list, each while it is allocated |
| NodesDatCode.NdParseCtx.constructor | nodes_dat.c:17-32 | the initial state, with an empty list |
| NodesDatCode.NdParseCtx.ParseHeader | nodes_dat.c:96-139 | header fields and count are the specified ones |
| NodesDatCode.NdParseCtx.Append | nodes_dat.c:207-209 | the tail pointer addresses the final next field of an acyclic list before and after |
| NodesDatCode.NdParseCtx.TakeRecord | nodes_dat.c:180-210 | fills the record buffer and appends a node iff that completes it and memory suffices |
| NodesDatCode.NdParseCtx.RecordLoop | nodes_dat.c:176-219 | buffer, counters and new nodes are those of the specified loop |
| NodesDatCode.NdParseCtx.Process | nodes_dat.c:141-223 | new state and result are the specified ones; new nodes are allocated, appended and nowhere else |
| NodesDatCode.NdParseCtx.TakePeers | nodes_dat.c:226-232 | hands the whole list over and leaves an empty one |
| NodesDatCode.NdParseCtx.Destroy | nodes_dat.c:235-240 | frees exactly the nodes still held |
| NodesDatSession.Session.FeedChunk | nodes_dat.c:141-223 | every live node stays owned exactly once: by the context or by one taken list |
| NodesDatSession.Session.DrainList | nodes_dat.c:226-232 | ownership of the list moves to the client |
| NodesDatSession.Session.Close | peer.c:6-13 | destroying the context and freeing every taken list releases every node exactly once |
| NodesDatSession.RunSession | nd_reader.c:26-67 | any calls in any order leak nothing and free nothing twice; when nothing is fed behind the end of the file they deliver its first contacts, as many as memory allows |

## Left out

- BtDht.ScanEntries: a scan that never ends is the result `None` of the first iteration that moves nothing, because a method here must terminate; `KrpcScan.ScanHangsIff` ties that result to the calls that return 0 for ever.
- NodesDatTheorems.CallReturns: chunks longer than INT_MAX, whose count no longer fits the `int` that is returned; the functions keep the truncation, and only statements about returned counts exclude such chunks.
- Walks of a whole value are clients of the iterators; `benr.c` itself has no function that makes one.
- The allocator is a number of allocations that still succeed; `errno` is taken to be ENOMEM when one fails.
- Storage of the growing buffer behind `ben.h`, and `printf` beyond the formats used: the buffer is a byte sequence.
- Errors of the tokenizer other than their kind and data, and diagnostics printed by `bt_dht.c`.
- The fields of a KRPC message that no code fills: transaction id, error and the argument unions.
- Timers, sockets, address lookup, random identifiers and the main programs: input and output.
- Buckets and the routing table of `bt_dht.c`: declared, but no code operates on them.
- `kademlia.c`, `cfg_json.c`, `emule_kad.c`, `hornet.c`, `byte_stream.h`, `mule_ec.h`, `peer_store.h`: stubs and declarations.
- The socket address structures of a contact: address bytes and port numbers stand for them.
- Contents of a node after it has been freed: nothing is known of them, and no code here reads them.
