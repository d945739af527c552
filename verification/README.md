# tlog, modelled and verified in Dafny

tlog writes events as binary values and reads, cuts, rewrites, prints and stores them. The format follows sections 3,
3.1 and 3.2.2 of RFC 8949. This project models the parts of tlog that build and transform those bytes in mutable
buffers, and the parts that several threads or processes work on at once, and proves what they are for.
`dafny verify dfyconfig.toml` checks all of it.

A wire value is a tree (`Wire.Value`) with one encoding (`Wire.Enc`). The tree keeps the width of every head, so that
it stands for exactly one byte string. Methods work on bytes as the Go code does and are proved against functions on
trees; what those functions mean is then proved as lemmas. Where a method and its specification use one function, such
as the width of a float or the key of a header, lemmas state it on its own, in bytes and numbers (the files named
Tables, and single lemmas beside the theorems).

| file | what it models |
|---|---|
| Wire, Framing, Decodable | the format: heads, trees, encoding, `readTag`, where values end, and that encodings are prefix-free and uniquely decodable |
| FormatTables | the format in numbers: heads, specials, floats and values byte by byte |
| Indices | `skip` on int64 indices that wrap around, and when it finds the ends of values |
| Reader | the stream reader: a buffer that is compacted and grown, fed by a source that delivers in arbitrary portions |
| Recovery | what the reader makes of events it cannot read |
| Slices | slices that share an array: `append` and copies |
| Rules, Rewriter, RewriterTheorems | the rewriter and the key renamer, with the path slice all calls share |
| Storage, Agent | the agent's streams, chains of files, blocks and history-dependent compressor |
| ValueEncoder, ValueTheorems, ValueTables | the encoder of program values over a cyclic heap; which fields are left out, and each kind in bytes |
| Events, Labels, Logger, Calls, EventTables, Threads | building events, the in-place label shift, the logger, its calls, what stands under which key of their events, and threads that share it |
| Slog, SlogTables | the slog handler: prefixes with open maps, copied for handlers derived from it; what it writes, in bytes |
| Decimal, Duration, DurationTheorems | printing durations in a digit buffer |
| FileNames, Rotation, Removal | rotated files and their removal in the background |
| SafeStrings, JsonText, Json, JsonGrammar, TextTables | escaping, the JSON converter with a parser that undoes it, which lines are JSON by RFC 8259, and escapes, UTF-8 and JSON in bytes |
| ReReader, Ids | following a growing file; span ids as text |

## What the proofs found

The code is modelled as it is. Where a property holds only under a condition, the condition is proved exact or a
lemma gives an input that breaks the property:

- the rewriter drops semantic tags that are not under a map key, so it is the identity exactly on trees without such
  tags (`RewriterTheorems.IdentityWithoutRules`, `TagInArrayIsDropped`), and removing an entry from a map of
  definite length gives a wrong count, so that `skip` asks for more bytes (`ResultWellFormed`, `RemovalBreaksCount`);
- `skip` adds announced string lengths to an int64 index. It finds the ends of values exactly when no string it meets
  announces a negative length, or one that ends past the largest int64 (`Indices.AgreesIffNoneStrays`). A length
  before 2^63 that ends after it gives bad format instead of a request for more (`OverflowIsBadFormat`); a negative one
  takes the index back to any place (`AnyIndexBefore`), and inside an array `skip` may then never return
  (`NeverReturns`). After a number, a string of indefinite length makes `WriteTo` write empty values until the writer
  refuses (`StreamReader.EmptyForever`); alone, it is taken for a request for more (`AsksForMore`);
- a self-reference, which any cyclic argument is encoded with, is a bad special to the stream reader; and an event with
  an odd number of self-appending arguments in key places swallows all that follows it. The reader sees the events of a
  run up to the first such, and no further (`Threads.ReaderSeesTheRun`, `SelfRefStopsTheReader`, `OddKeySwallows`,
  `ValueTheorems.ReadableIffNoReturn`);
- in the agent the flag for a new block is declared again inside its condition, so only the first block of a file gets
  an index entry: all blocks are indexed exactly when there is one (agent/agent.go:230 and 241-247,
  `Agents.IndexedIffOneBlock`), and a file of two is soon written (`TwoBlockFile`);
- the value encoder keeps visited addresses without their types, so a pointer to the first field of a struct that is
  being written becomes a self-reference, although the heap has no cycle (`ValueTheorems.FirstFieldIsCut`);
- an argument list whose values stand where keys belong can need more label tags than the gap holds, and then the
  write position would pass the read position (`Labels.AppendLabels`, `GapCanBeTooSmall`);
- an argument that appends itself in a key's place breaks the key-value alternation (`Events.ItemsArePairs`);
- a named slog group announces one pair for each member, and is well-formed exactly when the members give as
  many pairs as there are members (`Slog.TreeValidIffBalanced`, `MiscountedGroup`);
- past the padded width, file names no longer sort as their numbers, and a late removal takes the file being written
  (`FileNames.NamesSortIffFit`, `Removal.WidthMatters`); a name in which prefix and suffix overlap makes the name
  parser slice out of bounds (`FileNames.PanicsIffOverlap`);
- a negative integer below -2^63 is printed as another number in JSON (`JsonConverter.NegatedIsExact`);
- the quoted form of a string is a JSON string exactly when the string is UTF-8 and JSON has a letter for each of its
  control bytes (`SafeStrings.JsonIffPlainUtf8`); so a line is JSON exactly when that is so of all strings and keys
  of the event (`JsonGrammar.LineIsJsonIff`);
- parsing an id of more than 32 digits indexes past its end (`Ids.IDFromString`, `OneDigitMore`).

## Model

| member | source | states |
|---|---|---|
| Wire.BigEndianRoundTrip | tlwire/reader.go:186-242 | the bytes of a head's argument, most significant first, give the argument back |
| Wire.StreamUnlessForeign | tlwire/reader.go:133-149 | a tree of the full format is one the stream reader knows if and only if it holds no self-reference, hidden value or missing one |
| Wire.StreamIsFull | tlwire/reader.go:133-149 | every tree in the specials the stream reader knows is one of the full format |
| FormatTables.ShortHeadRead | tlwire/reader.go:186-239 | a head with its argument in the first byte, or without one: the number of the major type is the first byte divided by 32, and what each of the 32 low values says |
| FormatTables.LongHeadRead | tlwire/reader.go:205-241 | a head with one, two, four or eight argument bytes: the sum they give, most significant first, as an int64, or a request for more |
| FormatTables.SpecialEnds | tlwire/reader.go:133-157 | for each of the 32 first bytes of a special: it ends there, behind a float's payload, asks for more, or is a bad special |
| FormatTables.FloatEnds | tlwire/reader.go:140-147 | floats behind the bytes F8, F9, FA and FB end after one, two, four and eight bytes, whatever follows; those are the encodings of floats |
| FormatTables.HeadsThatFit | tlwire/reader.go:201-236 | the arguments below 24, 2^8, 2^16, 2^32 and 2^64 fit the heads of the five widths |
| FormatTables.ValidTrees | tlwire/reader.go:94-157 | which trees are well-formed, kind by kind, in numbers |
| FormatTables.HeadWritten | tlwire/wire.go:17-43 | the bytes of a head of each width, for every major type and argument |
| FormatTables.ShortestHead | tlwire/wire.go:17-43 | the head that is written for a number or a length is the shortest, byte by byte |
| FormatTables.ValuesWritten | tlwire/wire.go:17-63 | numbers, strings, arrays, maps and tags in bytes |
| FormatTables.SpecialsWritten | tlwire/wire.go:46-63 | the specials in bytes |
| Framing.SkipExact | tlwire/reader.go:94-157 | where a well-formed value is encoded, `skip` returns its end, whatever bytes follow |
| Framing.SkipStable | tlwire/reader.go:94-157 | any answer other than "need more" stays the same when more bytes arrive |
| Framing.SkipOnPrefix | tlwire/reader.go:94-157 | on a prefix of a readable buffer the answer is the same end, or "need more": never bad format, never a short success |
| Indices.AgreesIffNoneStrays | tlwire/reader.go:94-157 | with int64 indices, the answer is that value's end, or the right error or request for more, if and only if no string met announces a negative length or an end past the largest int64; the buffer is shorter than 2^63 - 8 |
| Indices.IndexOnPrefix | tlwire/reader.go:94-157 | of a value that ends within the range of indices, cut anywhere: its end once it is there, before that a request for more |
| Indices.StringIndex | tlwire/reader.go:106-107 | where a string's head takes the index, for every announced length |
| Indices.AnyIndexBefore | tlwire/reader.go:106-107 | for every place before a string's data there is a length that takes the index back to it |
| Indices.OverflowIsBadFormat | tlwire/reader.go:75-107 | nine bytes for which the answer is bad format where it should be a request for more |
| Indices.NeverReturns | tlwire/reader.go:108-131 | two bytes on which `skip` does not return, however many turns it is given |
| Framing.SkipShift | tlwire/reader.go:94-157 | the answer does not depend on where in the buffer the value lies |
| Framing.PrefixFree | tlwire/reader.go:94-157 | no encoding is a proper prefix of another |
| Framing.ReadTagExact | tlwire/reader.go:186-242 | a head is read back: major type, argument as an int64, and where it ends |
| Framing.Arrive | tlwire/reader.go:94-157 | what the decoder finds where a value of each kind is encoded |
| Decodable.UniquelyDecodable | tlwire/wire.go:17-63 | two well-formed values whose encodings start the same bytes are the same value |
| StreamReader.Source.Read | tlwire/reader.go:159-184 | a source delivers the stream in the portions of any plan, reports end of file with or after the last bytes, and fails exactly at the failing steps of the plan |
| StreamReader.Reader.compact | tlwire/reader.go:159-184 | unreturned bytes move to the front; the stream offset of the front is kept |
| StreamReader.Reader.grow | tlwire/reader.go:159-184 | room for eight more bytes at least, contents kept |
| StreamReader.Reader.more | tlwire/reader.go:159-184 | one read, which fails exactly if the source does, extends the buffer; buffered and unread bytes together stay the same |
| StreamReader.Reader.readTag | tlwire/reader.go:186-242 | the argument loop on the buffer computes the head |
| StreamReader.Reader.skip | tlwire/reader.go:94-157 | for any bytes, the loop over a moving int64 index computes the index returned, or has not returned in the turns it was given |
| StreamReader.Reader.skipRead | tlwire/reader.go:75-92 | for any bytes: reads until the buffer's answer is an end or an error, fails exactly at the source's first failure, and leaves the pending bytes as they were; if no string strays, that is the end of the next value, the end of a stream that has none, or its error, and before a failure no value had been delivered in full |
| StreamReader.Reader.ReadOne | tlwire/reader.go:29-39 | for any bytes: returned and pending bytes make up the stream, and the offset advances by what was returned, unless the end lies before the start, which panics; it fails exactly at the source's first failure; if no string strays, exactly the next value is returned |
| StreamReader.Reader.WriteTo | tlwire/reader.go:57-73 | for any bytes: what was written and what is pending make up the stream, and it fails exactly at the first failure of the source or the writer; if no string strays, one write per value, in order, up to the end of the stream or the first error, and every value delivered before a failed read is written; from a string that ends where it starts, empty values until the writer refuses |
| StreamReader.FramesAndTail | tlwire/reader.go:57-73 | frames and tail of a stream make up the stream |
| StreamReader.FramesOfValues | tlwire/reader.go:57-107 | values followed by a strict prefix of one more are cut into exactly those values, and, if they end within the range of indices, no string strays anywhere |
| StreamReader.EmptyForever | tlwire/reader.go:29-107 | two bytes from which a value and then as many empty ones are written as the writer takes |
| StreamReader.AsksForMore | tlwire/reader.go:75-92 | one byte, delivered in any way, that is taken for a request for more until the stream ends, or the source fails if it does |
| StreamReader.ValuesCutOff | tlwire/reader.go:57-73 | whatever `WriteTo` cut off such a stream is a prefix of its values, all of them when it stopped for lack of bytes |
| StreamReader.CopyFrames | tlwire/reader.go:57-73 | from any source that does not fail, `WriteTo` writes exactly the stream's frames, leaves its tail, and ends without error if and only if the tail lacks bytes |
| StreamReader.CopyValues | tlwire/reader.go:57-73 | for values and part of one more, in any portions: exactly the values are written, one by one, and the part is left at the end of the stream, without error |
| Recovery.ForeignIsBad | tlwire/reader.go:133-149 | where a tree with such a special is encoded, `skip` reports a bad special, whatever follows |
| Recovery.BreakTaken | tlwire/reader.go:108-131 | in a map whose last key has no value, the break is taken for it and the loop goes on behind the map |
| Recovery.FramesStop | tlwire/reader.go:57-157 | of any events, the reader cuts off those before the first it cannot read; there it stops, at a bad special if there is one from there on, and else asking for more |
| Rules.CmpOrder | convert/rewriter.go:238-258 | the comparison of paths is a total order |
| Rules.BytesAtDifference | convert/rewriter.go:238-258 | byte strings are ordered by the first byte in which they differ, a prefix before what it is a prefix of |
| Rules.PathsAtDifference | convert/rewriter.go:238-258 | paths are ordered by the first element in which they differ, a prefix before what it is a prefix of |
| Rules.cmp | convert/rewriter.go:238-258 | the loop computes that order |
| Rules.KeyRenamer.Append | convert/rewriter.go:171-177 | rules stay sorted and none is lost or added |
| Rules.KeyRenamer.search | convert/rewriter.go:179-184 | binary search finds the first rule not before the path |
| Rules.KeyRenamer.find | convert/rewriter.go:179-192 | the lookup is that of a linear scan |
| Rules.LookupPermuted | convert/rewriter.go:171-192 | with distinct paths the order in which rules were appended does not matter to the lookup |
| Slices.Append | convert/rewriter.go:69-155 | in place or in a new array, the slice is extended and the shorter one keeps its elements |
| Slices.Copy | ext/tlslog/slog.go:89 | a slice with the same elements in an array of its own |
| Rewriting.AppendPath | convert/rewriter.go:69-155 | appending to a shared path slice gives the longer path and leaves the shorter one as it was |
| Rewriting.Rewriter.applyRule | convert/rewriter.go:179-228 | the renamer writes the renamed entry or nothing, or leaves the value to the rewriter |
| Rewriting.Rewriter.Rewrite | convert/rewriter.go:69-155 | the bytes written are the encoding of the rewritten tree, the end is the value's end, and the caller's path is intact |
| Rewriting.Rewriter.rewriteElements | convert/rewriter.go:91-122 | the loop over elements writes the rewritten elements in order |
| Rewriting.Rewriter.rewriteElement | convert/rewriter.go:91-122 | one element is rewritten under its own path from the root, which may lie in the array of the container's path and leaves that intact |
| Rewriting.Rewriter.Write | convert/rewriter.go:56-67 | one value in, its rewriting out; nothing for empty input |
| RewriterTheorems.IdentityWithoutRules | convert/rewriter.go:69-155 | without rules the output is the input if and only if every semantic tag sits under a map key |
| RewriterTheorems.UntouchedValue | convert/rewriter.go:69-155 | a value no rule touches comes out as it is, or shorter if it has tags elsewhere |
| RewriterTheorems.TagInArrayIsDropped | convert/rewriter.go:91-126 | a tagged element of an array loses its tag |
| RewriterTheorems.EntryWithRule | convert/rewriter.go:179-228 | the first rule on the way down the tags of an entry renames its key, or removes the entry, and keeps the value |
| RewriterTheorems.EntryWithoutRule | convert/rewriter.go:69-155 | an entry without a rule keeps key, tags and order, and its value is rewritten inside |
| RewriterTheorems.RuleOrderIrrelevant | convert/rewriter.go:171-228 | the rewriting does not depend on the order of the rules |
| RewriterTheorems.ResultWellFormed | convert/rewriter.go:69-155 | for every rule set: the result is well-formed if and only if the keys that are renamed fit and no entry or element is removed from a container of definite length |
| RewriterTheorems.RemovedIsGone | convert/rewriter.go:179-228 | a value leaves nothing behind exactly when the first rule on the way down its tags removes |
| RewriterTheorems.RemovalBreaksCount | convert/rewriter.go:194-197 | a rule that removes the only entry of a map of one gives bytes on which `skip` asks for more |
| RewriterTheorems.CopyFloat | convert/rewriter.go:127-154 | the rewriter copies a float of each width with its whole payload, and nothing behind it |
| RewriterTheorems.RuleUnderArray | convert/rewriter.go:96-98 | the step into an array is the byte 80: a rule that removes there takes all the elements |
| RewriterTheorems.RenamedEntry | convert/rewriter.go:199-228 | a renamed entry in bytes: a text of the prefix and the new name, or else the old one, and the value as it was |
| Storage.DecodeFile | agent/agent.go:201-267 | a file of blocks, each compressed from an empty history and padded, decodes to the payloads in order |
| Storage.LawfulCodecExists | agent/agent.go:201-267 | the assumptions on the compressor can be met |
| Agents.File.put | agent/agent.go:241-267 | a frame is appended; only the first frame of a file is indexed |
| Agents.File.padFile | agent/agent.go:309-343 | the file is padded with zeros to the block size, whether by truncating or by writing |
| Agents.Agent.file | agent/agent.go:174-199 | the stream found is the one with these labels, though the checksum is compared first; streams keep distinct labels |
| Agents.Agent.chooseFile | agent/agent.go:212-222 | a new file exactly when there is none, its partition is another, or it is not empty and its size with the compressed payload is over the limit; then the history is empty |
| Agents.Agent.writeFrame | agent/agent.go:224-267 | a new block when the frame does not fit this one; the frame is compressed again after a reset |
| Agents.Agent.writeFile | agent/agent.go:201-267 | the payload is added to the stream's chain: to a new file exactly when the partition or the size calls for one, to a new block exactly when the block size does |
| Agents.Agent.writeAlone | agent/agent.go:201-267 | writing to one stream leaves the others, and their files, as they are |
| Agents.Agent.Write | agent/agent.go:102-128 | a message is logged once under its labels, or refused when its header cannot be parsed |
| Agents.ChainDecodes | agent/agent.go:201-267 | decoding a chain of files block by block and file by file gives its payloads |
| Agents.BlockAligned | agent/agent.go:224-267 | the block being written starts at a multiple of the block size; it is over the size only with a single frame |
| Agents.RunDecodes | agent/agent.go:102-267 | in every state a run can reach, a stream's files decode to exactly what was written under its labels, in order, and the timestamp in every payload of a file falls in the file's time partition |
| Agents.IndexedIffOneBlock | agent/agent.go:224-267 | the index has one entry, for the first block: every block is indexed if and only if there is one block |
| Agents.FileSize | agent/agent.go:212-263 | in every valid file: with two payloads in its last block it is within the size limit, and with two blocks over it by less than a block and its last frame |
| Agents.FilesAreFilled | agent/agent.go:201-222 | in every state a run can reach, a file follows another of its partition only if that file's size with its first payload, compressed as it would have been there, is over the limit |
| Agents.TwoBlockFile | agent/agent.go:102-267 | two messages by which a file gets a second block that is not in its index |
| ValueEncoder.Encoder.appendValue | tlwire/encoder_value.go:131-139 | the bytes are the encoding of the value's tree |
| ValueEncoder.Encoder.appendRaw | tlwire/encoder_value.go:141-262 | terminates on every finite heap in which slices and maps do not contain themselves, restores the set of visited pointers, and writes the tree met below them |
| ValueEncoder.Encoder.appendElements | tlwire/encoder_value.go:141-262 | slices and maps announce their length and write their elements in order |
| ValueEncoder.Encoder.appendStructFields | tlwire/encoder_value.go:264-315 | fields in order, zero ones left out where asked (which ones those are: `ValueTables.FieldLeftOut`), embedded structs in place |
| ValueTheorems.TreeValid | tlwire/encoder_value.go:141-315 | whatever the heap, the result is one well-formed value of the full format |
| ValueTheorems.SelfRefIffReturn | tlwire/encoder_value.go:141-262 | a self-reference is written if and only if some walk through the pointers comes to an address twice, or to one on the path already |
| ValueTheorems.MetAgainMeansSelfRef | tlwire/encoder_value.go:141-262 | a pointer whose address is met again on the path is written as a self-reference |
| ValueTheorems.SelfRefMeansMetAgain | tlwire/encoder_value.go:141-262 | a self-reference stands for a pointer whose address is met again on the path |
| ValueTheorems.SharedInFull | tlwire/encoder_value.go:141-262 | if addresses can be ranked so that pointers lead to lower ones, every occurrence of a shared node is written in full |
| ValueTheorems.WrittenInFullIff | tlwire/encoder_value.go:141-262 | a value is written in full, as on its own, if and only if no walk from it comes to an address twice or to one on the path |
| ValueTheorems.ReadableIffNoReturn | tlwire/encoder_value.go:141-262 | the stream reader can read an encoded value if and only if no walk through its pointers comes to an address twice |
| ValueTheorems.FirstFieldIsCut | tlwire/encoder_value.go:198-212 | a pointer to the first field of the struct around it is written as a self-reference, though no walk comes to a pointer twice |
| ValueTables.FieldLeftOut | tlwire/encoder_value.go:281-295 | a field is left out if and only if it is marked so and is the zero of its kind, for each kind; arrays and structs if all their parts would be |
| ValueTables.FieldWritten | tlwire/encoder_value.go:297-311 | otherwise its name and its value are written, with the byte C7 between them if it is marked as hexadecimal; of an embedded struct the fields |
| ValueTables.FieldsInOrder | tlwire/encoder_value.go:281-312 | fields are written in their order |
| ValueTables.LeafWritten | tlwire/encoder_value.go:173-262 | texts, numbers, booleans, byte strings, functions, addresses, and nil, repeated and dangling pointers in bytes |
| ValueTables.ContainerWritten | tlwire/encoder_value.go:182-274 | slices, arrays, maps and structs in bytes; pointers and interfaces are what they lead to |
| ValueTables.ElementWritten | tlwire/encoder_value.go:225-240 | each element is written as on its own, in its place |
| Events.appendKVs | wire.go:115-174 | the bytes appended are the encoding of the keys and values the arguments stand for |
| Events.appendValue | wire.go:138-171 | tags, then the value they end at, or undefined when there is none |
| Events.ItemsArePairs | wire.go:115-203 | the items are well-formed, and alternate keys and values if and only if no self-appending argument stands in a key's place |
| Events.OddItemsIff | wire.go:115-174 | there is a key without a value if and only if an odd number of arguments append themselves in a key's place |
| Events.StreamItemsIff | wire.go:115-203 | the items are of the stream format if and only if the trees among the arguments are, those formatted as text apart |
| Labels.moveDown | wire.go:60-89 | the in-place move of overlapping bytes |
| Labels.movePair | wire.go:71-86 | a key and its value move down, the value with the label tag in front unless it has one; it overruns exactly when the gap is used up |
| Labels.AppendLabels | wire.go:60-89 | the earlier bytes stay, and every value carries the label tag once; the write position passes the read position if and only if more tags are missing than the gap holds |
| Labels.GapSuffices | wire.go:60-89 | for string keys the gap always suffices |
| Labels.GapCanBeTooSmall | wire.go:60-89 | for four integers in place of keys it does not |
| Labels.LabelledTwice | wire.go:60-89 | labelled values are not labelled again |
| EventTables.LabelWritten | wire.go:71-86 | a label in bytes: CA between key and value, unless the value starts with it |
| EventTables.FirstKey | wire.go:115-203 | the key of a pair: an argument that is no text leaves it missing, an empty text is filled in by the kind of the value, and ids, levels, kinds and tags in its place are items of their own |
| EventTables.AfterKey | wire.go:115-174 | a key is followed by its value and that by the next pair |
| EventTables.ValueWritten | wire.go:138-171 | each kind of argument as a value, in bytes, and how many arguments it takes |
| Loggers.Logger.message | tlog.go:141-195 | one write: an event of header, argument pairs and current labels |
| Loggers.Logger.newspan | tlog.go:197-254 | one write: the start event of a span (what it says: `EventTables.StartUnder`) |
| Loggers.Logger.Finish | tlog.go:256-297 | one write: the finish event of a span (`EventTables.FinishUnder`) |
| Loggers.Logger.LogEvent | tlog.go:338-386 | one write: an event of the given pairs, with the span if there is one |
| Loggers.Logger.SetLabels | tlog.go:303-312 | the labels of later events are those of the arguments, tagged, for arguments whose missing tags fit the gap |
| Calls.HeaderIsGood | tlog.go:141-386 | the header of every kind of event is well-formed pairs |
| Calls.LabelsAreGood | wire.go:60-89 | labels made from well-formed pairs are well-formed pairs |
| Calls.NewLabelsAreGood | tlog.go:303-312 | the labels a call sets are well-formed pairs, unless an argument appends itself in a key's place |
| Calls.EventIsPairsIff | tlog.go:141-386 | the event of a call is well-formed, and alternates keys and values up to its end if and only if no argument of the call appends itself in a key's place |
| Calls.EventReadableIff | tlog.go:141-386 | the stream reader can read a call's event if and only if the call's trees and the labels are of the stream format and the keys without values even out |
| Calls.LabelsReadableIff | tlog.go:303-312 | new labels are well formed, and of the stream format if and only if the trees among the arguments are |
| EventTables.KeysWritten | tlog.go:84-95 | the keys in bytes |
| EventTables.Make | tlog.go:141-386 | what each call gives the writer, in bytes: BF, the items that the four lemmas below look keys up in, FF |
| EventTables.StartUnder | tlog.go:197-254 | looked up in the event that starts a span: `_s` is its id, `_t` the time, `_c` the caller, `_k` the letter s, `_p` the parent's id if and only if that is not zero, `_m` the name if there is one; any other key is an argument's or a label's |
| EventTables.MessageUnder | tlog.go:141-195 | in a message: `_s` the span's id if that is not zero, `_t` the time, `_c` the caller, `_m` the text |
| EventTables.FinishUnder | tlog.go:256-297 | in the event that finishes a span: `_s` its id, `_t` the time, `_k` the letter f, `_e` the time since the start |
| EventTables.EventUnder | tlog.go:338-386 | in an event of arguments only: `_s` the span's id if that is not zero |
| EventTables.StartInBytes | tlog.go:215-243 | the header of the event that starts a span, in bytes, pair after pair |
| EventTables.MessageInBytes | tlog.go:153-186 | the header of a message, in bytes |
| EventTables.FinishInBytes | tlog.go:269-288 | the header of the event that finishes a span, in bytes |
| Threads.StepKeepsInv | tlog.go:141-386 | every step of every thread keeps the invariant: the buffer holds a known part of one event while the lock is held |
| Threads.EventsOfRun | tlog.go:141-386 | at every moment of every interleaving the writer was given exactly the events of a sequential schedule, with the labels in force |
| Threads.EventOfCall | tlog.go:141-312 | in a sequence of calls, a call's event ends in exactly the labels set last before it, none if none were set, and is in its place among the events |
| Threads.WholeEventsInOrder | tlog.go:141-386 | whatever calls the threads make, with good arguments: the writer is given whole events only, each one map of alternating keys and values that ends in the labels in force, in the order of a sequential schedule |
| Threads.ProgramOrder | tlog.go:141-386 | in that schedule each thread's calls are in program order |
| Threads.MutualExclusion | tlog.go:141-195 | at most one thread is between taking and releasing the lock |
| Threads.ReaderSeesTheRun | tlwire/reader.go:57-157 | at every moment of every run of any calls, the stream reader cuts what was written into exactly the events before the first that its arguments or labels make unreadable: all of them if and only if all are readable |
| Threads.CopyTheRun | tlwire/reader.go:57-73 | the reader itself, given what was written at any moment of any run, in any portions, passes on exactly those events, and ends with bad format if and only if a special unknown to it follows them |
| Threads.SelfRefStopsTheReader | tlwire/encoder_value.go:194-195 | an event with a self-reference, at which the reader finds a bad special |
| Threads.OddKeySwallows | wire.go:115-136 | an event with one self-appending argument, after which the reader asks for more however many events follow |
| Slog.Handler.attr | ext/tlslog/slog.go:125-160 | an attribute appends its items: nothing, a pair, a named group with its announced count, or the members of an unnamed one |
| Slog.Handler.Handle | ext/tlslog/slog.go:35-79 | one write: header, the nested items, the labels at the outer level, everything closed |
| Slog.Handler.WithAttributes | ext/tlslog/slog.go:81-105 | the child has its parent's prefix and the attributes, in an array of its own; the parent's buffer and prefix are as before |
| Slog.FamilyHandles | ext/tlslog/slog.go:35-105 | a handler and a child derived from it, used in turns, each write their own events |
| Slog.Handler.WithinGroup | ext/tlslog/slog.go:107-123 | the child's prefix, in an array of its own, leaves one more map open |
| Slog.PrefixIsOpen | ext/tlslog/slog.go:35-123 | a prefix leaves exactly `depth` maps open: attributes and that many breaks give the nested tree |
| Slog.TreeValidIffBalanced | ext/tlslog/slog.go:125-160 | the nested items are well-formed if and only if every named group holds one pair for each member |
| Slog.EventValidIffBalanced | ext/tlslog/slog.go:35-160 | the whole event that `Handle` writes is one well-formed value if and only if every named group, of the handler or the record, holds one pair for each member |
| Slog.MiscountedGroup | ext/tlslog/slog.go:125-160 | with a member left out, the pair after the group is read as part of it |
| SlogTables.RecordUnder | ext/tlslog/slog.go:43-62 | looked up in the event: `_t` the time, `_c` the caller, `_m` the message, `_l` a quarter of the level without its fraction, unless the level is zero |
| SlogTables.RecordInBytes | ext/tlslog/slog.go:43-62 | the header of a record, in bytes |
| SlogTables.AttrWritten | ext/tlslog/slog.go:125-160 | an attribute, a group and an unnamed group in bytes |
| SlogTables.AttrsInOrder | ext/tlslog/slog.go:64-66 | attributes are written in their order |
| SlogTables.DerivedWritten | ext/tlslog/slog.go:81-123 | what comes after a handler's attributes follows them, and what comes after its group is inside it |
| Durations.AppendDuration | console.go:910-1036 | the text appended is the duration's text |
| Durations.writeDigits | console.go:967-974 | the digits stand right-aligned in the buffer, which is never overrun |
| Durations.round | console.go:976-985 | the fourth digit is rounded away with carries, into the spare leading zero if need be |
| Durations.findUnit | console.go:987-993 | the unit is the largest thousand that fits the rounded digits |
| Durations.blank | console.go:995-1000 | exactly the places before the first digit become spaces |
| Durations.putPoint | console.go:1004-1022 | the point and the digit after it, unless that is a zero |
| Durations.layout | console.go:1002-1036 | the text is the padded, signed number with its unit |
| Durations.add | console.go:927-951 | one group unless it would be a leading zero or a third one; the second is rounded |
| Durations.width | console.go:1056-1066 | the number of decimal digits |
| DurationTheorems.DurationReadsBack | console.go:910-1036 | read back, the text is within one unit of its last place below 99s (half a unit with three digits), and within half of the second unit from 99s on |
| DurationTheorems.ShortIsNear | console.go:962-1022 | the digits kept are within one unit of the last place they can show |
| DurationTheorems.LeadIsNear | console.go:976-985 | rounding to three digits moves the duration by at most half of the third |
| DurationTheorems.UnitsInBytes | console.go:953-1025 | the names of the units and their sizes in nanoseconds |
| DurationTheorems.DurationInNumbers | console.go:910-1036 | read back, the text is exact below a microsecond, within a tenth below 99s, and from there within half a second, half a minute from an hour on and half an hour from a day on |
| DurationTheorems.AtTheLimit | console.go:917-1036 | the texts of 99s and of a nanosecond less |
| DurationTheorems.Alignment | console.go:995-1036 | three columns before the unit, and the sign next to the first digit, in three texts |
| DurationTheorems.RoundedUp | console.go:936-1022 | no tenth that is a zero, and halves rounded up, in three texts |
| FileNames.NamesSortIffFit | rotating/file.go:147-149 | names of all numbers up to a bound sort as the numbers if and only if the bound fits the padded width |
| FileNames.NameOrder | rotating/file.go:147-149 | names of two numbers that fit compare as the numbers |
| FileNames.NameReadsBack | rotating/file.go:256-269 | a name made from a number that fits is parsed as that number |
| FileNames.DigitsInBytes | rotating/file.go:256-269 | the characters that are digits, and their values |
| FileNames.LastDigit | rotating/file.go:147-149 | the last character written for a number |
| FileNames.DigitsThenRest | rotating/file.go:262-268 | between prefix and suffix the digits at the front are read, as many as the format is wide, whatever follows them |
| FileNames.PanicsIffOverlap | rotating/file.go:256-262 | parsing a name slices out of bounds exactly when prefix and suffix overlap in it |
| FileNames.OverlapExists | rotating/file.go:256-262 | such a name, for a common pattern |
| Rotation.Directory.ReadDir | rotating/file.go:212-216 | a directory is listed in the order of names |
| Rotation.findMaxNum | rotating/file.go:212-232 | the highest number among the names |
| Rotation.File.rotate | rotating/file.go:137-181 | the next number, an empty file whose name was not in use, and a removal started when there is a limit |
| Rotation.File.Write | rotating/file.go:107-128 | the payload goes whole into the current file, or into a new one exactly when none is open or a file that is not empty would pass the size limit or has passed the age limit; payloads keep their order, other files are untouched; a file passes the size limit only with a single non-empty payload |
| Rotation.File.Rotate | rotating/file.go:130-135 | a new file, and no payload lost or added |
| Rotation.File.Close | rotating/file.go:318-330 | no file is open, and the next write begins one |
| Removal.matchingFiles | rotating/file.go:234-254 | the names with a number, in order |
| Removal.filesToRemove | rotating/file.go:271-316 | the past files up to and including the newest that breaks a limit; an error exactly when a file looked at is unknown |
| Removal.removeOld | rotating/file.go:183-210 | exactly the planned files are removed; none if one of the files looked at is unknown |
| Removal.PastIsBefore | rotating/file.go:271-276 | the past files are those whose names are before the given one |
| Removal.KeptWithinLimits | rotating/file.go:283-313 | from any kept file on, the sizes are within their limit, and so are the file's age and the number of files, unless the file was changed no longer ago than the protecting age |
| Removal.NewestVictim | rotating/file.go:283-313 | the newest file to go: the sizes from it on pass their limit, or it is not within the protecting age, and is over the age limit or has too many files from it on; an unknown time of change is long ago for the one and now for the other |
| Removal.ProtectedStay | rotating/file.go:300-302 | without a limit on sizes, files within the protecting age stay however many they are |
| Removal.FailedSearch | rotating/file.go:286-291 | a search fails only at a file it cannot look at, all newer ones being within the limits |
| Removal.RotateStep | rotating/file.go:130-181 | a rotation of the file is a `Begin` step of the state machine, the first one from an initial state |
| Removal.WriteSteps | rotating/file.go:107-128 | a write to the file is an `Append` step, after a `Begin` step exactly when a file is due |
| Removal.RemovalIsSafe | rotating/file.go:137-210 | in every interleaving of writing, rotating and removing, while numbers fit the width: no file numbered at or after the one that started a removal is taken, and at most one removal is under way |
| Removal.GoneWasPlanned | rotating/file.go:183-210 | in every run, a file of the log that is gone was among the victims of a plan made earlier |
| Removal.LatestFilesRemain | rotating/file.go:107-210 | at every moment of such a run the files left are the latest ones, each with its payloads whole, so that in number order they give the end of what was written; every earlier one was planned to be removed, and without limits all are there and give all that was written |
| Removal.WidthMatters | rotating/file.go:271-276 | at the first number that does not fit, a run in which the file being written is the next to be removed |
| SafeStrings.AppendSafeString | low/safeadd.go:13-66 | the loop appends the escaped form, piece by piece |
| SafeStrings.AppendQuoteString | low/safeadd.go:76-82 | the quoted form |
| SafeStrings.ReadSafe | low/safeadd.go:13-66 | escaping can be undone for every byte string, and reading stops at the closing quote |
| SafeStrings.SafeInjective | low/safeadd.go:13-66 | different strings are escaped differently |
| SafeStrings.QuotedEnds | low/safeadd.go:76-82 | the quoted form ends exactly at its last quote |
| SafeStrings.SafeIsUtf8 | low/safeadd.go:13-66 | the escaped form is well-formed UTF-8 (section 4 of RFC 3629), even for invalid input |
| SafeStrings.JsonIffPlainUtf8 | low/safeadd.go:8-66 | the quoted form is a JSON string (section 7 of RFC 8259) if and only if the string is UTF-8 and its control bytes are among `\b`, `\t`, `\n`, `\f`, `\r` |
| SafeStrings.SafeIsOneLine | low/safeadd.go:32-33 | no line feed is left |
| TextTables.ByteEscaped | low/safeadd.go:17-48 | each byte below 80 in its escaped form |
| TextTables.ByteInHex | low/safeadd.go:54-58 | a byte that starts no UTF-8 sequence: a backslash, x and two digits |
| TextTables.CodePointFound | low/safeadd.go:54-61 | the encoding of every code point (section 3 of RFC 3629) is found whole, and from 80 on written as it is |
| TextTables.FoundIsCodePoint | low/safeadd.go:54-61 | whatever is found to be a UTF-8 sequence is the encoding of a code point |
| JsonText.ParsePrint | convert/json.go:133-293 | the text of a JSON value parses back to the value and leaves what follows |
| JsonText.PrintIsOneLine | convert/json.go:133-293 | the text of a value holds no line feed |
| JsonConverter.ConvertKey | convert/json.go:133-159 | a string key becomes its quoted form |
| JsonConverter.ConvertValue | convert/json.go:161-293 | the text of the value's meaning is appended and the offset is the value's end |
| JsonConverter.convertItems | convert/json.go:194-229 | elements are separated by commas and counted or ended by a break |
| JsonConverter.Write | convert/json.go:70-131 | one write of one line per event, or an error and no write when an event is not a map |
| JsonConverter.LinesAreTheEvents | convert/json.go:70-131 | the lines parse back to what the events mean, in order, with exactly one line feed each |
| JsonConverter.LengthFormIsLost | convert/json.go:194-229 | definite and indefinite length give the same text |
| TextTables.WordAsText | convert/json.go:262-271 | F5 is printed as true, F4 as false and any other special as null |
| TextTables.LeafAsText | convert/json.go:165-193 | numbers are printed in decimal and strings between quotes; other tags do not show |
| TextTables.ContainerAsText | convert/json.go:194-229 | arrays between brackets, objects between braces |
| TextTables.ItemsAsText | convert/json.go:197-227 | items separated by commas, in objects each behind its quoted key and a colon |
| TextTables.LinesAsText | convert/json.go:114-117 | each event is a line of its own |
| JsonGrammar.ValueEndPrinted | convert/json.go:133-293 | by the grammar of RFC 8259 the text of a value is one JSON value, and what follows is left, if and only if all its strings and keys are UTF-8 with JSON's control letters |
| JsonGrammar.LineIsJsonIff | convert/json.go:70-131 | the line of an event is a JSON text if and only if that is so of the event's strings and keys |
| JsonConverter.NegatedIsExact | convert/json.go:165-168 | integers are printed as themselves, negative ones if and only if they fit an int64 |
| FileFollower.ReReader.Read | tlio/readers.go:56-88 | the position is the file's; while the file only grows, what was returned is exactly its bytes from the start; after it shrank reading restarts at zero |
| Ids.FormatTo | id.go:148-211 | as much of the id's text as there is room for, nothing else touched |
| Ids.IDFromString | id.go:63-96 | the digits packed up to the first bad byte, with the error for too few, and out of bounds for more than 32 |
| Ids.FullTextParses | id.go:63-211 | every id is parsed back from its full text in every format |
| Ids.OneDigitMore | id.go:63-96 | an id's text with one digit more indexes past the id |
| Ids.CutTextParses | id.go:63-211 | a text cut short after any number of characters is too short, with exactly the digits it holds, and the number of whole bytes reported |
| Ids.TextInBytes | id.go:162-208 | two digits for each byte of the id, in their places, in either case |
| Ids.DashesInText | id.go:187-191 | the dashes of a UUID |
| Ids.ZeroInText | id.go:148-160 | the zero id is 32 underscores in the visible style |
| Ids.NibblesInBytes | id.go:63-85 | the bytes that count as digits, and their values |
| Ids.DigitsParsed | id.go:87-90 | of 32 digits, every two are a byte, the first its high half |

## Left out

- `nikand.dev/go/cbor` is not part of this model: its emitter and iterator are taken to follow section 3 of RFC 8949, shortest heads, in the grammar that adds None, Hidden and SelfRef to the stream reader's specials. The number of None, 19, is an assumption that only its own encoding depends on.
- `nikand.dev/go/hacked/low`, `eazy`, `loc` and `hfmt` are not part of this model: the compressor is a function of history and payload with a matching decoder, whose frames hold a non-zero byte; formatted values and callers are parameters.
- Indices.SkipIndex: only sums with announced lengths wrap around; in a buffer of 2^63 - 8 bytes or more, those with the widths of heads and floats would too.
- StreamReader.Reader.skip: turns and calls are counted, so that a search that does not return is one that is unfinished for every count; the stack is unbounded.
- StreamReader.Reader.ReadOne: returns a copy, where the original returns a slice of the buffer that the next read overwrites.
- `Reader.Read`, `NewTailWriter` and `DeLabels`: their counts or assumptions give no framing contract to prove.
- Rewriting.Rewriter.applyRule: a nested rewriter and a fallback of the key renamer are not modelled.
- Rewriting.Rewriter.Write: empty input with a rule for the empty path, for which the original looks for a value that is not there.
- Rewriting.Rewriter.Rewrite: input is one well-formed value with string keys; errors and panics on other input, a nested rule, a fallback and rewriters other than the key renamer are not modelled.
- Agents.Agent.Write: header parsing, checksum and time truncation are function parameters; I/O errors and reopening a file under an existing name are not modelled.
- Agents.Agent.writeFile: file names and directories are not modelled.
- ValueEncoder.Encoder.appendRaw: slices and maps are values, so those that contain themselves without a pointer, on which the original recurses without end, cannot be stated; custom encoders, self-encoding values, errors, Stringers and IsZero methods are not modelled, and floats are opaque trees; reflection is a plain datatype.
- Events.appendValue: raw messages as values are not modelled.
- Events.appendKVs: raw messages and custom appenders inject arbitrary bytes and are not modelled; neither are empty tag lists.
- Labels.AppendLabels: the arguments encode to well-formed values in whole pairs; the gap is taken to be as long as asked for.
- Threads.ReaderSeesTheRun: as for `SetLabels`, whose arguments give as many values as keys and no more missing tags than the gap holds.
- Loggers.Logger.SetLabels: arguments that give a key without a value, on which the original indexes past the buffer, and more missing tags than the gap holds, which would overrun (`Labels.AppendLabels`).
- Loggers.Logger.newspan: identifiers, clocks and callers are parameters.
- Threads.WholeEventsInOrder: write errors are ignored as the logger ignores them; the memory the buffer lives in is a value.
- Slog.Handler.attr: a value that resolves to a group only when asked is encoded by the original as a plain value, so here it is one, with the tree of what it resolves to.
- Durations.AppendDuration: the minimum int64 is left out, as negating it overflows and the digit loop then works on negative digits.
- Rotation.File.Write: open and write errors, the link to the latest file, and overflow of the size are not modelled; times are parameters.
- Rotation.File.rotate: names in the directory in which prefix and suffix overlap are left out, as the original panics on them.
- FileNames.NameReadsBack: formatted input is taken to read digits only; spaces, signs and base prefixes it accepts before them are not modelled.
- Removal.RemovalIsSafe: removals that fail are not modelled; what is found out about a file may be anything.
- `splitPattern` and `findPattern`: splitting a name pattern would only add easy members.
- JsonConverter.ConvertKey: keys that are not strings are not modelled.
- JsonConverter.Write: as for `ConvertKey` and `ConvertValue`, and without renaming.
- JsonConverter.ConvertValue: byte strings (base64), floats, and the tags that are formatted specially (time, id, caller) are not modelled; neither are key types other than strings, renaming, and the switches that turn escaping of keys or line feeds off.
- FileFollower.ReReader.Read: seeks do not fail; the hook called when the file shrank is not modelled.
- Console, Logfmt and Web layout, the wire dumper, network, database and command-line code: presentation and plumbing.
- `Logger.Write` passes raw bytes to the writer under the lock; it would only add an easy step.
- `tlio.MultiWriter` and other thin wrappers: only easy members.
