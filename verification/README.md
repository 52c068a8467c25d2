# xnu-uboot-arm32: codecs and parsers, modelled and proved

A Dafny model of the data-handling core of the boot loader, with proofs:

- **QuickLZ 1.5.0**, compressor and decompressor, levels 1 and 3 (`QuickLz*.dfy`, `ControlWords.dfy`).
- **LZSS** decoder and **Adler-32** checksum (`Lzss.dfy`, `Adler32.dfy`).
- **JSDT**, the device tree in a JSON dialect: tokenizer, token walker, device tree builder, flat
  block (`Jsmn*.dfy`, `JsDeviceTree.dfy`, `JsWalker.dfy`, `Jsdt*.dfy`, `DeviceTreeBuilder.dfy`,
  `FlatTree.dfy`, `FlatWriter.dfy`, `Strtoul.dfy`).
- **XML property lists**: in-place parser, tag pool, interned strings (`Plist*.dfy`).

Code that works by updating buffers, tables and records is modelled by methods over arrays and
classes; each is proved against a specification function, and what the source promises is proved
about that function. `dafny verify dfyconfig.toml` checks everything.

## How the proofs are organised

**QuickLZ.** A text is cut into a list of tokens, literals and matches (`QuickLzTokens`). `Parse`
says which token each level's compressor chooses at every place; `Codes` gives each token its
bytes; `ControlWords.Layout` arranges them in groups of 31 behind control words. The compressors
are proved to write the layout of the parse, or to give up exactly where the source's ratio test
says so. The decoders are proved memory-safe on arbitrary bytes (at level 1 with a full table),
and, with a layout in front of them, to follow it token by token. What joins the two is
`Resolves`: every match can be resolved from the decoder's own output. At level 3 the offset is in
the stream. At level 1 only a hash is, and `QuickLz1.TableAgreement` shows that the decoder's
table, rebuilt from its output and up to three bytes behind it, points at bytes equal to those the
compressor matched, even in runs of one byte, where the two tables hold different places.
`QuickLz.RoundTrip1` and `RoundTrip3` are the result: for every accepted size, with both headers,
stored or compressed. A round trip alone would allow a compressor that finds nothing, so the choices
are pinned down as well: the bits of the hash (`QuickLzHash`), what the tables hold, when there is
a match and how long it is (`MatchIff`, `MatchIsBest`, `LiteralOnlyWhenFar`), and when a text is
stored (`StoredIff1`).

**LZSS.** The ring is related to an unbounded history (`Mirrors`); `DecompressLzss` returns the
expansion of the token list over that history. The eighteen cells that the source leaves unset
start with an arbitrary ghost content, and `OutputDetermined` gives the exact condition under
which it does not matter.

**JSDT.** `Jsmn.Run` is a tokenizer with an explicit stack of open brackets; `JsmnTree.Flat` lists
such a stack as a token array. `JsmnPrint` says what a text may look like, down to its characters,
and which trees it must give; `JsmnAccept.AcceptedExactly` shows that these texts and no others
are accepted, `OutcomeExplained` how each of the others is refused. The source's parser, which has
no stack, is proved to keep its array equal to that listing, its `toksuper` being the open token of
greatest index. The walker is proved against a recursive reading of the trees (`NodeContent`), the
builder's counters against counts of the tree under the root. `FlatWriter.PutTree` says what
flattening does to a buffer, for names of any length; it is `FlatTree.Block` when names stay in
place, which a reader inverts. `Jsdt.JsdtToBlock` composes the stages. `JsdtPrint` writes device
trees as texts and shows that parsing builds the tree that was written, byte by byte in its values.

**Property lists.** `Plist.ParseNext` is the parser as a function of the text; `Plist.Print`
prints documents, and `ParsePrinted` relates the two; `PlistFile` does the same for files, whole
and cut short. The parser that runs is proved to agree with that function although it writes
terminators into its own input: everything from the resume position on is still the original text.
Tags live in a pool of cells with the free list threaded through it; `Held` trees say which cells a
tag occupies. `TagPool.Valid` holds in every state between two calls, and `Conservation` reads off
what it means.

## What turned out otherwise than expected

- The build of the tokenizer with parent links is not equivalent to the scanning one: it passes over
  a closing bracket when nothing is open but some token has been read. `JsmnLinks.AcceptsMore` gives
  such a text and `JsmnLinks.SameUnlessUnmatched` the exact condition.
- `decompress_lzss` reads ring cells that were never set for some streams. `Lzss.OutputDetermined`
  says which, and `Lzss.ReadsUnsetCells` gives one.
- `jsmn_comment_length` runs past the end of a text with an unterminated comment; the model has a
  separate outcome, `RunsOff`, for it. `Jsmn.RunsOffExactly` says when it occurs and
  `Jsmn.SlashRunsOff` gives the shortest text.
- When data of a property list contains other tags, the string kept ends at the first of them, with
  its closing bracket dropped. `Plist.TextIsWhole` gives the exact condition under which it is
  kept whole, `Plist.TextIsCut` a text that loses its end.
- Names of device tree properties are copied whole, also when they are longer than their field. The
  announced size and the advance still agree, but the flattened tree reads back exactly when all
  names fit (`FlatWriter.ReadBackExactly`, `DeviceTreeBuilder.LongNameLost`), and the flattener
  writes behind the announced size exactly when a name reaches there (`FlatWriter.PassesExactly`,
  `DeviceTreeBuilder.LongNameOverruns`).
- A level-1 decoder with fewer than 4096 buckets decodes every stream of its compressor, but not
  every stream names a bucket it has (`QuickLz1.FullTableNeeded`).

## Model

| member | source | states |
|---|---|---|
| `ControlWords.LayoutConcat` | `compressed/quicklz.c:279-284` | full groups of 31 tokens can be written one after another: the stream of a concatenation is the concatenation of the streams |
| `ControlWords.CollectingFull` | `compressed/quicklz.c:261-273` | the sentinel reaches the low bit of the control word exactly when 31 flags have been shifted in |
| `ControlWords.CollectingPush` | `compressed/quicklz.c:310-358` | shifting one flag into the word collected so far gives the word of the longer group |
| `ControlWords.CollectedWord` | `compressed/quicklz.c:543-546` | shifting an unfinished word down to its sentinel gives the word the decoder must find: flags from the low end, padding, sentinel on top |
| `ControlWords.WordBits` | `compressed/quicklz.c:281-281` | bit j of a stored control word is the flag of token j of its group, and the bit above all flags is set |
| `ControlWords.Reload` | `compressed/quicklz.c:572-580` | at the end of a group with tokens left, four bytes are there to be read and are the control word of the next group |
| `ControlWords.Advance` | `compressed/quicklz.c:589-596` | the low bit tells whether the next token is a match, its bytes stand at the read position, and behind them and the shifted word the stream goes on |
| `ControlWords.BetweenGroups` | `compressed/quicklz.c:572-572` | with tokens left, the word is 1 exactly between two groups |
| `QuickLzTokens.SameFetch` | `compressed/quicklz.c:292-304` | two fetches differ in nothing exactly when the three bytes at both places agree |
| `QuickLzTokens.ExtentLongest` | `compressed/quicklz.c:329-337` | a match is as long as the bytes agree, up to 255 bytes and to four bytes before the end |
| `QuickLzTokens.TokensLeft` | `compressed/quicklz.c:549-585` | as many tokens are left as bytes, up to four, so the last four bytes are literals |
| `QuickLzHash.HashBits` | `compressed/quicklz.c:86-93` | with 2^k buckets, bit i of a place's hash is set exactly when bits i and i + 12 of its three bytes, the first one lowest, differ |
| `QuickLzCopy.MemcpyUp` | `compressed/quicklz.c:205-212` | each byte copied equals the byte at the source, those written by the copy itself included; nothing else is written |
| `QuickLzCopy.MemcpyUpWords` | `compressed/quicklz.c:213-221` | the four-byte copy with stride three gives the same n bytes when the distance is at least three, and writes at most three bytes more, or four bytes when n is 0 |
| `QuickLzCopy.CopyMatch` | `compressed/quicklz.c:671-675` | on either path the match is copied, and what is written behind it lies within the four bytes that a match leaves free |
| `QuickLzCopy.CopyAgrees` | `compressed/quicklz.c:675-676` | an overlapping copy within an output that agrees with the text extends the agreement over the whole match |
| `QuickLzWriter.FastWrite` | `compressed/quicklz.c:131-156` | the bytes are the little-endian digits of the value and no others are touched |
| `QuickLzWriter.Writer.constructor` | `compressed/quicklz.c:259-261` | an empty stream with room for its first control word |
| `QuickLzWriter.Writer.NextWord` | `compressed/quicklz.c:279-283` | completes the group: what is written so far is the layout of the tokens so far, and a new group is open |
| `QuickLzWriter.Writer.PutLiteral` | `compressed/quicklz.c:354-358` | the open group grows by a literal |
| `QuickLzWriter.Writer.PutMatch` | `compressed/quicklz.c:310-313` | the open group grows by a match whose body is the given number of low bytes |
| `QuickLzWriter.Writer.Finish` | `compressed/quicklz.c:543-546` | the whole output is the layout of all tokens |
| `QuickLzWriter.BudgetBound` | `compressed/quicklz.c:275-277` | output that passed every give-up test is at most 128 bytes longer than the text, and at most 16 for texts under 216 bytes |
| `QuickLzProgress.GivesUpIff` | `compressed/quicklz.c:276-277` | the give-up test on lengths written is the one on the layout of the tokens |
| `QuickLzProgress.Boundary` | `compressed/quicklz.c:273-285` | at a full word the compressor gives up exactly when the layout of the parse says so; otherwise a new group is open |
| `QuickLzProgress.Close` | `compressed/quicklz.c:543-549` | the result is the layout length, but at least nine bytes |
| `QuickLz1.FarAgreement` | `compressed/quicklz.c:678-697` | a position more than two bytes back is in the decoder's lagging table whenever it is in the compressor's |
| `QuickLz1.RunAgreement` | `compressed/quicklz.c:304-304` | in a run of one byte the decoder's table holds the position three back, where the compressor's holds one back |
| `QuickLz1.RunCopies` | `compressed/quicklz.c:56-61` | in such a run, copying from three back gives the same bytes as copying from one back |
| `QuickLz1.TableAgreement` | `compressed/quicklz.c:291-304` | for every match of the parse, the decoder's table entry points at output that reproduces the matched bytes; beyond distance two both tables hold the same place, in a run they hold places two apart |
| `QuickLz1.ParseResolves` | `compressed/quicklz.c:667-676` | every parse of a text can be followed by a decoder that has only its own output, and stays three bytes back and four from the end |
| `QuickLz1.LatestIsLast` | `compressed/quicklz.c:291-296` | a bucket holds the last place, among the starts of the tokens so far, whose three bytes have this hash, and is empty only if there is none |
| `QuickLz1.MatchIff` | `compressed/quicklz.c:271-304` | the parse has a match exactly when eleven bytes are left and the bucket holds a place with the same three bytes that lies three or more back, or one back when the last three tokens are literals and the three bytes behind and four from here on are one letter |
| `QuickLz1.MatchTaken` | `compressed/quicklz.c:306-347` | every match names the hash of its own place and goes on as long as the bytes agree, up to 255 bytes and to the last four of the text |
| `QuickLz1.CodeDigits` | `compressed/quicklz.c:309-346` | the first two bytes of a match are its hash times 16 plus length less two, or plus 0 with the length in a third byte, from length 18 on |
| `QuickLz1.ReadsWhatWasCoded` | `compressed/quicklz.c:595-609` | the decoder reads hash, length and width of every level-1 match as they were coded, long form included |
| `QuickLz1.FullTableNeeded` | `compressed/quicklz.c:597-598` | every token that can be read names a bucket of the table exactly when the table has 4096 of them |
| `QuickLz1Compress.CompressState.Reset` | `compressed/quicklz.c:64-75` | no bucket holds a position; the caches are left as they were |
| `QuickLz1Compress.CompressState.Exchange` | `compressed/quicklz.c:291-296` | returns the latest earlier position with this hash, tells whether its bytes are the same, and enters the current one |
| `QuickLz1Compress.CheckSame` | `compressed/quicklz.c:56-61` | true exactly when all n following bytes equal the first |
| `QuickLz1Compress.MatchLength` | `compressed/quicklz.c:306-337` | the longest agreement under the cap, although the cap is only tested from the seventh byte on |
| `QuickLz1Compress.FetchSlide` | `compressed/quicklz.c:362-362` | shifting in one byte gives the three bytes at the next position |
| `QuickLz1Compress.Decide` | `compressed/quicklz.c:304-304` | a match is taken exactly when the parse allows it |
| `QuickLz1Compress.Step` | `compressed/quicklz.c:286-365` | one round adds exactly the token that the parse chooses at this place |
| `QuickLz1Compress.MainLoop` | `compressed/quicklz.c:271-507` | follows the parse up to the last eleven bytes, or stops exactly where the parse gives up |
| `QuickLz1Compress.Tail` | `compressed/quicklz.c:508-541` | the remaining bytes become literals, with at most one more control word |
| `QuickLz1Compress.CompressCore` | `compressed/quicklz.c:255-550` | 0 exactly when some control-word boundary past the middle finds the output too long; otherwise the whole parse laid out; never more than 391 bytes longer than the text, 20 for texts under 216 bytes |
| `QuickLzReader.BitlutCountsZeros` | `compressed/quicklz.c:561-561` | the table counts the zero flags at the low end, four at most |
| `QuickLzReader.LiteralRun` | `compressed/quicklz.c:685-695` | a run of zero flags is that many literals, and copying them at once is decoding them one by one |
| `QuickLzReader.CopyLiterals` | `compressed/quicklz.c:685-695` | four bytes are copied at once and as many count as there are zero flags; on a compressor's stream these continue the text |
| `QuickLzReader.FetchStaysInside` | `compressed/quicklz.c:582-587` | before the tail the four-byte fetch of a compressor's stream stays inside it |
| `QuickLzReader.OnlyLiteralsLeft` | `compressed/quicklz.c:700-717` | a literal inside the last eleven bytes is followed by literals only |
| `QuickLzReader.CopyTail` | `compressed/quicklz.c:702-717` | the tail copy completes the text without looking at the control words |
| `QuickLzReader.LoadWord` | `compressed/quicklz.c:572-580` | fails exactly when a word is due and the stream has no four bytes left; a word read lies inside the stream; on a compressor's stream there is no failure |
| `QuickLz1Decompress.UpdateHashUpto` | `compressed/quicklz.c:245-252` | enters every place up to the limit, keeping the table that of the tokens decoded so far |
| `QuickLz1Decompress.MatchRound` | `compressed/quicklz.c:589-682` | on any stream, given a full table, what is copied stays inside the output and four bytes from its end; on a compressor's stream the match decodes to the text, with a table of any size |
| `QuickLz1Decompress.LiteralRound` | `compressed/quicklz.c:685-698` | decodes the run of literals and keeps the table in step, never more than three bytes behind |
| `QuickLz1Decompress.DecompressCore` | `compressed/quicklz.c:552-727` | any bytes, given a full table: stays inside stream and output, returns 0 or the size; a stream that spells a text is never refused and yields the text, with a table of any size and either way of copying matches |
| `QuickLz3.SlotFilled` | `compressed/quicklz.c:394-396` | a slot below the counter holds a position with this hash, so the wrapping counter never exposes a pointer that was not set |
| `QuickLz3.CountIsSize` | `compressed/quicklz.c:419-434` | the number of a place in its bucket is the number of all earlier places with this hash, those inside matches included |
| `QuickLz3.SlotIsLast` | `compressed/quicklz.c:419-434` | pointer k holds the last place entered whose number in the bucket is k modulo the number of pointers, and none only if there is none |
| `QuickLz3.CandidateIff` | `compressed/quicklz.c:381-398` | a pointer is a candidate exactly when it is below the eight-bit counter and holds a place three or more back with the same three bytes |
| `QuickLz3.BestIsBest` | `compressed/quicklz.c:381-418` | the search returns a candidate taken at its full length that no other candidate beats in length, or in nearness at equal length; none exactly when there is no candidate |
| `QuickLz3.CandidateExtent` | `compressed/quicklz.c:382-405` | a candidate lies more than two bytes back and its agreement is the longest under the cap |
| `QuickLz3.MatchIsBest` | `compressed/quicklz.c:381-437` | every match of the parse is a candidate that none beats, less than 131071 bytes back, taken as long as the bytes agree, up to 255 bytes and to the last four of the text |
| `QuickLz3.LiteralOnlyWhenFar` | `compressed/quicklz.c:424-476` | where the parse has a literal although some pointer is a candidate, a candidate that agrees at least as long lies 131071 bytes back or more |
| `QuickLz3.ParseResolves` | `compressed/quicklz.c:664-676` | every token of the parse, whatever the counters did, copies earlier output more than two bytes back and ends four bytes before the end |
| `QuickLz3.ReadForm1` | `compressed/quicklz.c:439-443` | the one-byte form reads back |
| `QuickLz3.ReadForm2` | `compressed/quicklz.c:444-449` | the two-byte form of length three reads back |
| `QuickLz3.ReadForm3` | `compressed/quicklz.c:450-455` | the two-byte form of lengths up to 18 reads back |
| `QuickLz3.ReadForm4` | `compressed/quicklz.c:457-462` | the three-byte form of lengths up to 33 reads back |
| `QuickLz3.ReadForm5` | `compressed/quicklz.c:463-468` | the four-byte form reads back and is not taken for the three-byte form |
| `QuickLz3.ReadsWhatWasCoded` | `compressed/quicklz.c:630-664` | the decoder reads offset, length and width of every level-3 match as they were coded |
| `QuickLz3.CodeIsShortest` | `compressed/quicklz.c:439-468` | no stored number that reads back as the same match takes fewer bytes |
| `QuickLz3Compress.RemainderOfCounter` | `compressed/quicklz.c:419-421` | an eight-bit counter selects the same slot as an unbounded one |
| `QuickLz3Compress.CompressState.Enter` | `compressed/quicklz.c:431-434` | the table after entering one more position |
| `QuickLz3Compress.FindMatch` | `compressed/quicklz.c:381-418` | the loop over the slots finds the best match as the parse defines it |
| `QuickLz3Compress.EnterInside` | `compressed/quicklz.c:429-434` | every position inside a match is entered too |
| `QuickLz3Compress.Step` | `compressed/quicklz.c:367-475` | one round adds exactly the token that the parse chooses |
| `QuickLz3Compress.CompressCore` | `compressed/quicklz.c:255-550` | 0 exactly on giving up; otherwise the whole parse laid out, with the same length bounds as level 1 |
| `QuickLz3Decompress.MatchRound` | `compressed/quicklz.c:630-676` | on any stream the copy stays inside the output; on a compressor's stream it decodes to the text |
| `QuickLz3Decompress.DecompressCore` | `compressed/quicklz.c:552-727` | memory-safe on any bytes, and inverts every stream that spells a text |
| `QuickLz.HeaderReads` | `compressed/quicklz.c:177-200` | the three size readers return what was written, with the three-byte and with the nine-byte header |
| `QuickLz.HeaderFlags` | `compressed/quicklz.c:786-801` | the first byte is 0100LLHC in binary: the level, the long header from 216 bytes on, and whether the text is compressed |
| `QuickLz.WriteHeader` | `compressed/quicklz.c:786-801` | the header bytes, flags included, and nothing behind them |
| `QuickLz.Compress1` | `compressed/quicklz.c:729-807` | 0 exactly for sizes it does not accept; otherwise at most 400 bytes more than the text, in the format the decoder reads, stored exactly when the parse gives up |
| `QuickLz.Compress3` | `compressed/quicklz.c:729-807` | the same at level 3 |
| `QuickLz.Packed1Reads` | `compressed/quicklz.c:809-824` | a level-1 container passes everything the decoder demands of its input |
| `QuickLz.Packed3Reads` | `compressed/quicklz.c:809-824` | a level-3 container passes everything the decoder demands of its input |
| `QuickLz.StoredIff1` | `compressed/quicklz.c:273-277` | a container says "stored" exactly when, at a multiple of 31 tokens past the middle of the text and before its last eleven bytes, the stream was longer than 31 parts in 32 of the text read; its length is that of header and text, or of header and stream, which has nine bytes or more |
| `QuickLz.StoredIff3` | `compressed/quicklz.c:273-277` | the same at level 3 |
| `QuickLz.Decompress1` | `compressed/quicklz.c:809-847` | any readable input, given a full table: 0 or the announced size, nothing written behind it; a container yields its text with a table of any size |
| `QuickLz.Decompress3` | `compressed/quicklz.c:809-847` | the same at level 3 |
| `QuickLz.RoundTrip1` | `compressed/quicklz.c:729-847` | decompressing what level 1 compressed gives back every accepted text, stored or compressed, for every number of buckets up to 4096, with either way of copying matches, whatever the memory held before |
| `QuickLz.RoundTrip3` | `compressed/quicklz.c:729-847` | the same at level 3, for every number of hash values and every number of pointers that divides 256 |
| `Lzss.ReferenceCell` | `compressed/lzss.c:130-133` | the ring cell of a reference is the byte at distance ((r - i - 1) mod 4096) + 1 in the output, during an overlapping copy and across the ring's end too |
| `Lzss.ReferenceReads` | `compressed/lzss.c:108-133` | byte k of a reference is the last output byte written to ring cell (start + k) mod 4096, where the output starts in cell 4078; a space when none was written there, and arbitrary in the cells from 4078 on |
| `Lzss.ArmedTest` | `compressed/lzss.c:118-120` | the high byte counts the eight flags: the test bit is set exactly while some are left, and the low bit is the next one |
| `Lzss.CopyReference` | `compressed/lzss.c:130-137` | the copy through the ring is the copy out of the history |
| `Lzss.NextFlag` | `compressed/lzss.c:118-121` | fetches a flag byte exactly when the eight are used up, and stops when there is none |
| `Lzss.NextToken` | `compressed/lzss.c:122-138` | one token through ring and output is one step of the expansion; a token cut off by the end of the input is dropped |
| `Lzss.DecompressLzss` | `compressed/lzss.c:102-142` | for every input and every content of the 18 unset cells, the output is the history-based expansion of the token list |
| `Lzss.PackUndone` | `compressed/lzss.c:117-131` | every token list laid out with a flag byte per eight tokens is read back as that list |
| `Lzss.FlagsLowestFirst` | `compressed/lzss.c:117-122` | of the tokens behind a flag byte, number k is a literal exactly when bit k is set |
| `Lzss.ExpansionBound` | `compressed/lzss.c:117-141` | 17 times the output length is at most 144 times the input length |
| `Lzss.UnsetIrrelevant` | `compressed/lzss.c:113-115` | streams that keep away from the unset cells give the same output whatever these hold |
| `Lzss.OutputDetermined` | `compressed/lzss.c:113-133` | the output is determined by the input exactly when no reference reads an unset cell |
| `Lzss.ReadsUnsetCells` | `compressed/lzss.c:113-133` | a stream whose reference reads an unset cell |
| `Adler32.ChecksumIsWeightedSum` | `compressed/lzss.c:41-64` | reducing after every byte, as section 9 of RFC 1950 defines the checksum, gives the position-weighted sum modulo 65521 in the high half and the plain sum in the low half |
| `Adler32.DeferredFits` | `compressed/lzss.c:31-33` | after at most 5000 bytes without reduction both sums are below 2^32 |
| `Adler32.Do16` | `compressed/lzss.c:35-39` | sixteen unrolled steps are sixteen steps, without overflow |
| `Adler32.Adler32` | `compressed/lzss.c:41-64` | the checksum with deferred reduction is the one reduced after every byte, for every buffer and length |
| `JsmnTree.AttachLeaf` | `serialize/jsmn.c:127-149` | counting a child at the innermost open bracket and appending its token lists the tree with that leaf attached |
| `JsmnTree.PushFlat` | `serialize/jsmn.c:211-224` | a new open token becomes the innermost open bracket |
| `JsmnTree.PopFlat` | `serialize/jsmn.c:252-275` | closing a bracket changes only the end of its token, and the next open one further left is innermost |
| `JsmnTree.SuperIsLastOpen` | `serialize/jsmn.c:253-275` | the innermost open bracket is the open token of greatest index, so scanning backwards is popping a stack |
| `Jsmn.ParseIsForest` | `serialize/jsmn.c:174-310` | the tokens of a successful parse are the pre-order listing of well nested trees, each size the number of direct children |
| `Jsmn.RunNested` | `serialize/jsmn.c:174-310` | whatever the text and however the parse ends, what was read so far is well nested |
| `Jsmn.NestedOrdered` | `serialize/jsmn.c:174-310` | starts strictly increase, and of two tokens the later lies inside the earlier or behind it |
| `Jsmn.RunSize` | `serialize/jsmn.c:174-310` | never more tokens than characters |
| `Jsmn.EnoughRoom` | `serialize/jsmn.c:38-45` | with as many tokens as characters memory does not run out |
| `Jsmn.CapacityIndependent` | `serialize/jsmn.c:38-51` | a parse that does not run out of tokens gives the same result, position and tokens at every larger capacity |
| `Jsmn.CommentEndIsFirst` | `serialize/jsmn.c:162-168` | the scan finds the first end of the comment, and leaves the text exactly when no place ends it |
| `Jsmn.RunsOffExactly` | `serialize/jsmn.c:186-195` | a parse leaves the text exactly when it comes to a slash behind which nothing ends a comment |
| `Jsmn.SlashRunsOff` | `serialize/jsmn.c:162-168` | a text of one slash is such a text |
| `JsmnPrint.PrintedRead` | `serialize/jsmn.c:56-310` | a text of documents (objects, arrays, strings in either quote with their escapes, primitives, children signs), with any blanks, commas, colons and comments between them, is accepted with as many tokens as it has documents, and gives the trees at the places printed |
| `JsmnPrint.PrintedShown` | `serialize/jsmn.c:174-310` | each tree of a printed text has the kind of its document and cuts exactly the characters printed for it out of the text, with trees for all that is inside |
| `JsmnPrint.TooFewTokens` | `serialize/jsmn.c:38-45` | with fewer tokens than documents a printed text runs out of them |
| `JsmnFlaws.FlawedRefused` | `serialize/jsmn.c:72-151` | behind any printed text, with any brackets open: an early end and an unended string are reported as partial; a bracket that closes nothing or the wrong one, an escape or a character that is not allowed as invalid; an unended comment leaves the text |
| `JsmnAccept.OutcomeExplained` | `serialize/jsmn.c:56-310` | every text is a printed text or has one of these flaws behind one, and the outcome says which |
| `JsmnAccept.AcceptedExactly` | `serialize/jsmn.c:56-310` | the texts accepted are exactly the printed ones |
| `JsmnParser.CommentLength` | `serialize/jsmn.c:162-168` | the length up to and with the slash of the first comment end, or none exactly when there is no comment end |
| `JsmnParser.Parser.ParsePrimitive` | `serialize/jsmn.c:67-105` | the primitive up to the next delimiter, or the state unchanged with the right error |
| `JsmnParser.Parser.ParseString` | `serialize/jsmn.c:110-160` | the string up to its own kind of quote, escapes skipped, or the state unchanged with the right error |
| `JsmnParser.Parser.CloseBracket` | `serialize/jsmn.c:252-275` | the two backward scans pop the stack of open brackets, or fail exactly on a mismatch or an empty stack |
| `JsmnParser.Parser.Parse` | `serialize/jsmn.c:174-310` | the flat parser gives outcome, position, tokens and innermost bracket of the machine with an explicit stack |
| `JsmnAccept.ParsePrintedText` | `serialize/jsmn.c:174-310` | run on a printed text, the parser succeeds exactly when the array has a token for every document, and then lists their trees in it |
| `JsmnLinks.LinksStayInside` | `serialize/jsmn.c:232-250` | behind the innermost open bracket parent links lead back to it and never past it, and its own link leads to the next open one |
| `JsmnLinks.PopParents` | `serialize/jsmn.c:232-250` | closing a bracket changes no parent |
| `JsmnLinks.CloseBracket` | `serialize/jsmn.c:232-250` | the first open token on the chain of parents is the one the scan finds |
| `JsmnLinks.SameUnlessUnmatched` | `serialize/jsmn.c:232-275` | the build with links behaves as the scanning one exactly when the latter does not stop at a closing bracket with tokens read and nothing open |
| `JsmnLinks.AcceptedAlike` | `serialize/jsmn.c:232-275` | every text the scanning build accepts gets the same result from the build with links |
| `JsmnLinks.AcceptsMore` | `serialize/jsmn.c:238-249` | a text that the build with links accepts and the scanning one rejects |
| `JsmnLinks.Parse` | `serialize/jsmn.c:174-310` | the parser with links gives the result of its machine, and every token the index of its enclosing bracket |
| `FlatTree.BlockReadBack` | `device_tree/device_tree.c:272-301` | reading a flat block gives back the tree, its properties and children in order, whatever follows the block |
| `FlatTree.PropertyFields` | `device_tree/device_tree.c:284-292` | a property whose name fits: the name and zeros in 32 bytes, the length in four, lowest first, the value, and zeros up to a multiple of four |
| `FlatTree.BlockFields` | `device_tree/device_tree.c:24-29` | a node: the number of its properties and of its children in four bytes each, the properties, the children |
| `FlatTree.ReadNodeFits` | `device_tree/device_tree.c:31-39` | whatever the bytes, a tree read from them has names that end inside their fields |
| `FlatTree.FittingInSlots` | `device_tree/device_tree.c:31-39` | names that fit their fields stay within their properties |
| `FlatWriter.BlockLength` | `device_tree/device_tree.c:320-322` | the flat block of every tree has exactly the size that node count, property count and padded value sizes announce |
| `FlatWriter.ReachBound` | `device_tree/device_tree.c:285-292` | a tree reaches the end of its block, and no further when every name stays within its property |
| `FlatWriter.PutTreeWithin` | `device_tree/device_tree.c:272-301` | flattening a tree changes nothing beyond its reach, for names of any length |
| `FlatWriter.PutTreeEnd` | `device_tree/device_tree.c:285-292` | when a tree reaches past its block, the last byte it reaches is written: the terminator of a name |
| `FlatWriter.PassesExactly` | `device_tree/device_tree.c:320-336` | behind the announced size of a buffer without zeros there, something is written exactly when the tree reaches past its block |
| `FlatWriter.PutTreeBlock` | `device_tree/device_tree.c:272-301` | into a cleared stretch, flattening writes the block when every name stays within its property |
| `FlatWriter.ReadBackExactly` | `device_tree/device_tree.c:285-292` | for names of any length, what was flattened into a cleared stretch reads back exactly when every name fits its field with a terminator |
| `DeviceTreeBuilder.PropertyEffect` | `device_tree/device_tree.c:123-139` | a property added to a node of a tree adds its cost to the tree's counts and leaves other trees alone |
| `DeviceTreeBuilder.ChildEffect` | `device_tree/device_tree.c:175-183` | a child added to a node of a tree adds one node to its counts and leaves other trees alone |
| `DeviceTreeBuilder.DeviceTree.constructor` | `device_tree/device_tree.c:206-222` | one node named "/", counted |
| `DeviceTreeBuilder.DeviceTree.AddProperty` | `device_tree/device_tree.c:85-142` | the property comes last in its node, and the counters stay those of the tree |
| `DeviceTreeBuilder.DeviceTree.AddChild` | `device_tree/device_tree.c:144-191` | the child comes first in its parent's list, named when a name is given, and the counters stay those of the tree |
| `DeviceTreeBuilder.DeviceTree.FlattenInto` | `device_tree/device_tree.c:311-342` | in the caller's buffer, for names of any length with room for their copies: the announced size is that of the block; every byte of the buffer is given; it is the block when names stay within their properties, it reads back exactly when all names fit, and something is written behind it exactly when a name reaches there |
| `DeviceTreeBuilder.DeviceTree.Flatten` | `device_tree/device_tree.c:311-342` | the same in a new buffer of the announced size, for trees that do not reach past it |
| `DeviceTreeBuilder.LongNameOverruns` | `device_tree/device_tree.c:287-322` | a tree built with one property of a 40-character name, and the five bytes that flattening it writes behind the announced size |
| `DeviceTreeBuilder.LongNameLost` | `device_tree/device_tree.c:31-39` | a tree built with one property of a 32-character name, whose block does not read back |
| `DeviceTreeBuilder.FlattenNodes` | `device_tree/device_tree.c:272-301` | advances by exactly the size of the block of the tree under a node and leaves exactly the bytes that the tree puts into the buffer, for names of any length |
| `Strtoul.DigitsSaturate` | `main/strol.c:74-95` | a digit string is read as its value, cut off at 2^32 - 1 |
| `Strtoul.NumberRead` | `main/strol.c:42-101` | a number printed in base 2, 8, 10 or 16, after blanks and with or without a sign, reads back: negated modulo 2^32 under a minus sign, and as 2^32 - 1 when it does not fit |
| `JsDeviceTree.NestedSound` | `main/JS_device_tree.c:189-303` | a well nested forest has every token inside the text and brackets exactly around arrays and objects |
| `JsDeviceTree.PairedTokens` | `main/JS_device_tree.c:289-298` | objects of even size in the token array are objects of even size in the trees |
| `JsDeviceTree.MeaningIff` | `main/JS_device_tree.c:87-303` | a tree describes a node exactly when it is an object of pairs: a string and a string, primitive or array of such, or a children sign and an array of nodes |
| `JsDeviceTree.GrownTwice` | `device_tree/device_tree.c:127-180` | contents added one after another: properties in order, the later children in front |
| `JsDeviceTree.GrownChild` | `main/JS_device_tree.c:73-78` | filling a new child adds that child's tree and nothing else |
| `JsWalker.Context.MeasureArray` | `main/JS_device_tree.c:94-109` | the size of a data array's bytes, or the error exactly when an element is neither string nor primitive |
| `JsWalker.Context.FillArray` | `main/JS_device_tree.c:116-147` | the bytes of the array: strings with terminator, numbers as 32-bit words |
| `JsWalker.Context.ParseDataArray` | `main/JS_device_tree.c:87-148` | the error exactly on an unfit element; otherwise the bytes and the tokens used |
| `JsWalker.Context.WalkChildren` | `main/JS_device_tree.c:63-85` | adds one child per element, in reverse order, counts their objects, and uses exactly the array's tokens |
| `JsWalker.Context.ParseInNode` | `main/JS_device_tree.c:189-274` | one key with its value: a property, or children; the tokens used are those of the pair |
| `JsWalker.Context.BuildNode` | `main/JS_device_tree.c:276-303` | the error exactly when the subtree describes no node; otherwise the subtree's token count, its properties in order, its children reversed, one node counted per object |
| `Jsdt.Tokenize` | `main/JS_device_tree.c:340-356` | the retry loop ends, never short of tokens, with the result of unlimited room |
| `Jsdt.ParseJsdt` | `main/JS_device_tree.c:326-386` | succeeds exactly on documents that describe a tree, and builds that tree below the named root |
| `JsdtPrint.TextMeans` | `main/JS_device_tree.c:189-303` | a device tree written as text, in any gaps and quotes and with numbers in any base, is accepted and means that tree |
| `JsdtPrint.ChildrenReversed` | `main/JS_device_tree.c:73-78` | the children of a node are the nodes of its text in reverse order |
| `JsdtPrint.NodesCounted` | `main/JS_device_tree.c:276-303` | the object tokens of a written node are as many as the nodes of its tree |
| `JsdtPrint.NumberPlain` | `serialize/jsmn.c:72-87` | a number printed in any base may stand as a primitive |
| `JsdtPrint.ParseWritten` | `main/JS_device_tree.c:326-386` | parsing a written device tree builds it below a root named "/": properties in order, each number as four bytes with its 32-bit value, lowest first, each string as its characters and a zero, arrays as the bytes of their elements in a row; and counts its nodes |
| `Jsdt.JsdtIntoBuffer` | `main/JS_device_tree.c:305-386` | from text to flat block in a buffer with room for all names: the block has the size of the described tree, every byte is given, and it reads back as that tree exactly when all names fit |
| `Jsdt.JsdtToBlock` | `main/JS_device_tree.c:305-386` | the same in a buffer of the announced size, for trees that do not reach past it |
| `Plist.Names` | `serialize/xml_plist.c:118-175` | each printed name is recognised as its own kind, and each end tag as none |
| `Plist.ContentFound` | `serialize/xml_plist.c:441-460` | clean data up to its own end tag is read whole |
| `Plist.TextIsWhole` | `serialize/xml_plist.c:429-457` | data before its end tag is kept whole exactly when no tag begins in it |
| `Plist.TextIsCut` | `serialize/xml_plist.c:429-457` | a key with another tag in it, and what is kept of it |
| `Plist.NumberContent` | `serialize/xml_plist.c:324-327` | a 32-bit number survives printing, in any base, and strtoul |
| `Plist.ParsePrinted` | `serialize/xml_plist.c:112-271` | parsing a printed document anywhere in a text, empty lists as one tag or two and integers in any base, gives it with every list reversed, and uses exactly the printed characters |
| `Plist.ListPrinted` | `serialize/xml_plist.c:185-230` | the printed items of a dictionary or array come back reversed, in front of those already read; the list ends at the first header or unknown tag |
| `Plist.RoundTrip` | `serialize/xml_plist.c:112-271` | the same for a whole text, whatever clean text stands between the tags and whatever follows |
| `Plist.KeyWithout` | `serialize/xml_plist.c:235-271` | a key before a header or an unknown tag has nothing below it |
| `Plist.EmptyInteger` | `serialize/xml_plist.c:313-315` | an integer that a tag follows at once stops the machine |
| `Plist.FlipTwice` | `serialize/xml_plist.c:203-205` | reversing every list twice gives the document again, so nothing is lost |
| `Plist.LookupTakesLast` | `serialize/xml_plist.c:55-75` | of several equal keys in a dictionary the last one of the document is found |
| `PlistFile.FirstDictionary` | `serialize/xml_plist.c:83-107` | a file of headers, unknown tags and printed documents that are no dictionaries, then a printed dictionary, then anything, gives that dictionary with its lists reversed, and is parsed up to its end |
| `PlistFile.NothingToGive` | `serialize/xml_plist.c:95-103` | without a dictionary before the text ends, such a file is refused |
| `PlistFile.DocumentCut` | `serialize/xml_plist.c:418-427` | a printed document that the text ends within, wherever, is refused |
| `PlistFile.FileCut` | `serialize/xml_plist.c:95-103` | a file that ends anywhere before its first dictionary does is refused |
| `PlistScan.GetNextTag` | `serialize/xml_plist.c:410-433` | finds the next tag of the uncut text and writes one terminator, at its closing bracket |
| `PlistScan.FixDataMatchingTag` | `serialize/xml_plist.c:441-460` | finds the matching end tag, leaves the data as a C string, and leaves everything before the data and from the returned position on as it was |
| `PlistSymbols.SymbolList.FindSymbol` | `serialize/xml_plist.c:615-633` | the entry holding the string, or none exactly when no entry holds it |
| `PlistSymbols.SymbolList.NewSymbol` | `serialize/xml_plist.c:549-583` | the string is counted once more; strings stay distinct and counts positive |
| `PlistSymbols.SymbolList.FreeSymbol` | `serialize/xml_plist.c:588-610` | the string is counted once less and leaves the list with its last count |
| `PlistPool.CountIsMultiplicity` | `serialize/xml_plist.c:550-610` | in a list of distinct strings each count is the string's multiplicity |
| `PlistPool.Linking` | `serialize/xml_plist.c:203-205` | linking a tag just read in front of a list touches neither the list nor anything else in use |
| `PlistPool.Freeing` | `serialize/xml_plist.c:513-525` | freeing what is below a tag, what follows it, and the tag itself takes away exactly these cells and their strings |
| `PlistPool.Undone` | `serialize/xml_plist.c:208-219` | tags gained and then freed leave the tags in use and the counted strings as they were |
| `PlistTags.TagPool.Conservation` | `serialize/xml_plist.c:465-501` | in every valid state free and live tags add up to 4096 per block, and each string's count is the number of live tags naming it |
| `PlistTags.FreshBlock` | `serialize/xml_plist.c:484-492` | a new block is cleared and linked in order |
| `PlistTags.TagPool.NewTag` | `serialize/xml_plist.c:469-501` | takes the head of the free list, after adding a block exactly when the list is empty; tags in use do not change |
| `PlistTags.TagPool.XMLFreeTag` | `serialize/xml_plist.c:506-529` | in a valid state every tree in use can be freed and the state stays valid: the tag with all that is below and behind it goes back to the free list, and its strings, but no integers, are given up |
| `PlistTags.TagPool.CanFree` | `serialize/xml_plist.c:506-515` | in every valid state a stored tree can be freed: every string it names is counted |
| `PlistParser.XMLParseNextTag` | `serialize/xml_plist.c:112-180` | parsing in place gives what the parser of texts gives, writes nothing before its start, leaves the rest of the text uncut, and adds exactly the tags returned to those in use, none on failure |
| `PlistParser.ParsePrintedDocument` | `serialize/xml_plist.c:112-271` | a document printed into the buffer is parsed in place: exactly its characters are taken and the pool gains the document with its lists reversed |
| `PlistParser.ParseTagList` | `serialize/xml_plist.c:185-230` | a list in reverse order of the text; on an error inside it everything read is freed again |
| `PlistParser.ParseTagKey` | `serialize/xml_plist.c:235-271` | the key's string, still whole after its value has been parsed, and the one tag that follows |
| `PlistParser.ParseTagLeaf` | `serialize/xml_plist.c:276-384` | string, integer, data and date tags, and the panic on an empty integer |
| `PlistParser.XMLParseFile` | `serialize/xml_plist.c:83-107` | the first dictionary; all other tags are freed again, and without a dictionary nothing is left in use |
| `PlistParser.ParsePrintedFile` | `serialize/xml_plist.c:83-107` | a printed file in its buffer: with a dictionary, the parser stands at its end and the pool has gained it alone, lists reversed; without one it fails and the pool has gained nothing |
| `PlistParser.XMLGetProperty` | `serialize/xml_plist.c:55-75` | the tag below the first stored key of that name, a null tag if there is none or the tag is no dictionary |

## Left out

- QuickLZ level 2, streaming buffers, and of the unaligned 32-bit paths all but the decoder's memcpy_up: the target is a 32-bit ARM that does not use them.
- quicklz.h is not part of this model: the numbers of hash values and pointers are parameters, at level 1 up to the 4096 buckets that its twelve-bit field can name, at level 3 with pointers dividing 256. Masking a hash with the number less one is modelled as the remainder, which is the same for powers of two. Bounds checks are on, as with QLZ_MEMORY_SAFE.
- Pointers are modelled as offsets into their buffer, a null position in the level-1 table as -1; the level-1 decoder's `hash_counter`, which nothing reads, is not modelled.
- QuickLz1Decompress.DecompressCore: the last positions are entered into the table after the tail, as in the source, but nothing is claimed about the table after the return, because it is not read again.
- `qlz_get_setting`: returns constants.
- Lzss.DecompressLzss: the output buffer must have room for the expansion, which the source leaves to its caller; the encoder's structures at compressed/lzss.c:85-99 are unused there.
- Device tree: the free pools and the `next` and `last_prop` links of nodes and properties are sequences and indices here; parents belong to the tree and nothing is freed. `DT__Finalize`, `DT__FreeNode`, `DT__FreeProperty`, searching and printing are not modelled.
- Device tree counters are unbounded integers; wrap-around at 2^32 would need more than 4 GB of tree.
- DeviceTreeBuilder.DeviceTree.Flatten: demands that the copies of all names stay in the buffer of the announced size; FlattenInto takes a buffer of the caller's and demands room for them there. The call with no buffer, for the size alone, is not modelled.
- FlatTree.BlockReadBack: needs names of at most 31 characters and counts and lengths of at most 32 bits, as the format has no room for more.
- QuickLz1Decompress.MatchRound: with fewer than 4096 buckets an arbitrary stream may name a bucket that is not there, so that streams not known to spell a text need the full table.
- Jsdt.ParseJsdt: documents without any token and objects of odd size are excluded by the precondition `Walkable`; the walker would read tokens that the tokenizer did not write.
- The JSMN_STRICT build of the tokenizer, and printing and host builds everywhere.
- JsmnLinks.TakeCharacter writes a new token's parent after the token is complete, where the source writes it while filling the token.
- xml.h is not part of this model: the tag names are those of property lists ("plist ", "dict", "key", "string", "integer", "data", "date", "false/", "true/", "array").
- Property lists: an interned string stands for the pointer to it, since strings are distinct; the symbol list is a sequence. Allocation always succeeds.
- PlistParser.XMLParseNextTag: after a panic, which does not return, nothing is said about the tags that were in the making.
- main/XML_device_tree.c, main/loader.c, main/mach_boot.c, main/memory.c, mach-o/ and image3/: boot commands, hardware shutdown and flat walks over records.
