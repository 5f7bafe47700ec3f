# Verified models of Sequoia's stateful parts

A Dafny model of the code in this repository that keeps state while it processes data, and proofs
of what it is for.  `dafny verify dfyconfig.toml` checks everything.

**Packet trees** (`Packets`, `Paths`, `Splices`, `PacketPile`).  A pile is built from the packets
and depths that the parser yields, with a shortcut that stays in the current container.  It is
proved equal to inserting every packet from the root; building and listing depth-first are inverse
to each other.  `replace` is proved to be a splice of one container.

**Armor** (`CrcBits`, `Crc`, `Base64`, `Wrapping`, `ArmorWriter`, `Text`, `Dearmor`).  The streaming writer
with its stash, column counter, lazy header and table-driven checksum puts out the armor of the
payload however the payload is split into writes, and the armor can be read back.

**Cleartext signatures** (`Utf8`, `Cleartext`, `CleartextLaws`).  The loop that reads the text of a message,
proved over any stack of readers; and exactly when it gives back a dash-escaped text.

**Buffered readers** (`Source`, `Contract`, `Generic`, `Memory`, `Adapters`, `Stack`,
`DefaultMethods`, `Runs`).  The contract of the `BufferedReader` trait is a relation between what a
reader shows before and after a call.  `Memory`, `Generic` over an arbitrary source, and `Limitor`,
`Reserve` and `Dup` over any reader meet it, so every stack does; the default methods and whole runs
are proved from the contract alone.

**S-expressions** (`Output`, `Sexp`, `SexpReader`, `SexpGrammar`, `Decryption`).  Writer, lexer and
parser, their agreement in both directions, and the removal of the padding from a session key.

**The conversation with gpg-agent** (`DataLines`, `Assuan`, `Conversation`, `Agent`,
`AgentDecryption`, `AgentLaws`, `AgentServer`, `AgentReplies`, `AgentRuns`).  The Assuan client and
the two requests as resumable state machines over a transport that suspends, fragments and fails at
any point; when they get stuck, and that they end if the transport supplies enough.  A server that
reads the commands learns what was asked, and from the lines of one that answers comes the result.

**Key export** (`Residues`, `RsaDer`).  The numbers of an exported RSA key, up to the theorem that
they decrypt what was encrypted with the public key.

**Update manifests** (`Words`, `Manifest`).  Merging, serializing, and parsing from a source that
delivers fragments.

Objects that the code updates in place are classes here; their invariants and the meaning of each
method are stated against functions on values, and the laws are lemmas about these functions.
Foreign input is a script: `Source` for `io::Read`, two lists of events for the Assuan transport,
a list of packets and depths for the packet parser.  The theorems hold for all scripts, and for all
lists of packets in which the depth starts at zero and grows only by one, behind a container.

## Where the code does not do what one might expect

Each of these is proved: on which inputs it happens, and on which it does not.

- `data(0)` of `Generic` yields nothing even if bytes are buffered, and a stashed error is returned
  even if bytes are buffered (`StashBehindBytes`); the contract follows the code here, not the
  comments.  A call that consumes nothing yields the buffer if and only if it asks for something or
  nothing is buffered (`Generic.DataHelper`).
- A line of a cleartext message that starts with a dash outside ASCII needs no escape, but can be
  taken for the header of the signature (`EmDashIsTakenForHeader`; never for ASCII,
  `AsciiIsNoHeader`).
- A line of which nothing is left behind the quoting prefix makes a slice index run out of range,
  although the comment there says that lines shorter than the prefix are treated as empty.  So does,
  without any quoting, a last line that is just a dash and a space (`WhenOutOfRange`,
  `WhenReadingRunsOut`, `DashAtTheEndRunsOut`).
- A last line without a line break that is text by the same guards, escaped or not, loses its last
  byte to the line break it is given.  Nothing but blanks is lost if and only if that byte is a
  space or a tab (`LastLineIsCut`, and for whole messages `ReadsLastLine`).
- The padding of a session key may be shorter than section 7.2.2 of RFC 8017 demands, and its
  leading zero may be missing (`StricterStandard`); an empty block indexes an empty slice
  (`UnpadFails`).
- After a final response that ends a request, an error or an unexpected one, `Client::done` stays
  set (`WhenLeftDue`), and the next request on the same client takes it for the end of its first
  reply.  If the server answers every command, a request is in step with it if and only if the flag
  was not set when the request was made.  If it was, signing fails, and decryption ends in a
  protocol error and leaves the flag set again (`SigningInStep`, `DecryptionInStep`, `Sign`,
  `Decrypt`).
- A failed write ends a request and kills the connection.  The next request reaches an arm marked as
  unreachable if and only if it has an option or a keygrip to send (`Poll`, `SignAgain`,
  `PanicsOnceDead`).
- A trailing zero of the agent's answer is always taken for the safety zero, so that a string that
  ends in zero of its own is lost (`SafetyZeroIsSafe`).
- `rsa_private` panics if and only if `u` is zero or `p` or `q` is below two (`ExportPanics`), and
  the key it writes decrypts every number if and only if neither exponent is reduced to zero, or the
  private exponent is zero itself (`ExportedKeyDecrypts`).
- Reading a manifest gives up if and only if a read behind a passing header is interrupted, while
  the reads of the header are repeated (`Manifest.Parse`, `InterruptionsCompared`).

## Model

| member | source | states |
|---|---|---|
| `PacketPile.PacketPile.TryFrom` | openpgp/src/packet_pile.rs:532-628 | a stream whose first depth is not 0 is refused; a parser error is passed on; otherwise the pile is the reference tree of the whole stream |
| `PacketPile.ReadAll` | openpgp/src/packet_pile.rs:540-628 | the stay-or-descend shortcut, with its restarts from the root, yields the tree that inserting each packet from the root yields |
| `PacketPile.Descend` | openpgp/src/packet_pile.rs:568-583 | the walk from the root ends at the container on the rightmost path |
| `PacketPile.Push` | openpgp/src/packet_pile.rs:589-603 | pushing into the current container appends at the right depth and keeps the position valid |
| `PacketPile.BuiltStep` | openpgp/src/packet_pile.rs:560-566 | the depth grows by at most one a step, and each packet lands where the reference puts it |
| `Packets.ListingBuild` | openpgp/src/packet_pile.rs:525-628 | the depth-first listing of the built tree is the stream, depths included |
| `Packets.BuildListing` | openpgp/src/packet_pile.rs:525-628 | every tree is the one built from its listing, and its listing is a stream the parser could produce |
| `Packets.BuildListingBehind` | openpgp/src/packet_pile.rs:549-628 | reading the listing of a container behind any stream appends exactly the packets of that container, whole |
| `Packets.ListingGraft` | openpgp/src/packet_pile.rs:603-603 | appending to a container on the rightmost path extends the listing at its end |
| `Paths.PushAtRightmost` | openpgp/src/packet_pile.rs:568-603 | writing through the path of the current container is the same as inserting from the root |
| `PacketPile.PacketPile.PathRef` | openpgp/src/packet_pile.rs:265-284 | returns what the path leads to, step by step, or nothing |
| `PacketPile.PacketPile.Replace` | openpgp/src/packet_pile.rs:380-434 | exactly if the path leads through structured containers to enough packets, it returns the removed ones and the tree is the spliced tree; otherwise it fails and the tree is as it was |
| `Splices.WhenAccepts` | openpgp/src/packet_pile.rs:386-427 | which paths are accepted, by the packets that are found: those the path leads to, and the one before them, are there, and what encloses them is entered, which literal data and unknown packets are not |
| `Splices.AcceptsOne` | openpgp/src/packet_pile.rs:386-427 | a single packet can be replaced if and only if it is there and no packet around it is literal data or unknown |
| `Splices.ReplaceListing` | openpgp/src/packet_pile.rs:403-417 | one contiguous run of the depth-first listing is exchanged, content included, and nothing around it |
| `Splices.ReplaceConserves` | openpgp/src/packet_pile.rs:403-417 | no packet of the tree is lost or duplicated, as a multiset of packets with depths |
| `Splices.ReplaceBack` | openpgp/src/packet_pile.rs:403-417 | replacing back with the returned packets restores the original tree |
| `Splices.ReplacePaths` | openpgp/src/packet_pile.rs:380-434 | where each packet of the container, and everything in it, is found after the call |
| `Splices.ReplaceElsewhere` | openpgp/src/packet_pile.rs:380-434 | every packet outside the container is where and what it was; the enclosing packets change only in their content |
| `Paths.PacketAtPut` | openpgp/src/packet_pile.rs:265-284 | a path sees a written container if and only if it leads into it |
| `Crc24.LookupIsEightSteps` | openpgp/src/armor/crc.rs:52-56 | one table lookup agrees with eight bitwise steps on the low 24 bits, whatever the upper bits hold |
| `Crc24.BuildTable` | openpgp/src/armor/crc.rs:30-49 | the table built by doubling holds, for each octet, the result of eight bitwise steps |
| `Crc24.TableCombines` | openpgp/src/armor/crc.rs:41-43 | an entry between two powers of two is the combination of two earlier entries |
| `Crc24.EntryNext` | openpgp/src/armor/crc.rs:34-40 | the entry of the next power of two is one step further |
| `Crc24.ShiftsXor` | openpgp/src/armor/crc.rs:52-56 | stepping is linear |
| `Crc24.OctetsConcat` | openpgp/src/armor/crc.rs:28-58 | the checksum may be computed piece by piece |
| `Crc24.Crc.Update` | openpgp/src/armor/crc.rs:28-58 | the running value keeps standing for the checksum of everything seen |
| `Crc24.Crc.Finalize` | openpgp/src/armor/crc.rs:61-63 | yields the bitwise CRC-24 of section 6.1 of RFC 4880 of everything seen |
| `Crc24.KnownSums` | openpgp/src/armor/crc.rs:5-8 | the sum of nothing and of the letter a, in numbers |
| `Crc24.BigEndianDenotes` | openpgp/src/armor.rs:399-400 | the three octets denote the low 24 bits, the most significant octet first |
| `Base64.DecodeEncode` | openpgp/src/armor.rs:375-385 | decoding (section 6.4 of RFC 4880) inverts encoding, for every length mod 3 |
| `Base64.Alphabet` | openpgp/src/armor.rs:375-385 | the alphabet of section 6.3 of RFC 4880, by the codes of ASCII |
| `Base64.EncodeConcat` | openpgp/src/armor.rs:461-472 | whole groups can be encoded separately |
| `Base64.EncodeCharacters` | openpgp/src/armor.rs:461-472 | every character is a digit, but for exactly as much padding at the end as the length mod 3 demands |
| `Wrapping.WrappedIsBroken` | openpgp/src/armor.rs:413-420 | breaking eagerly after 64 columns and ending the last line gives the lines of the wrapped text |
| `Wrapping.BrokenAppend` | openpgp/src/armor.rs:474-485 | text that fits on the current line is appended to it, and the break follows exactly at column 64 |
| `Wrapping.WrappedColumns` | openpgp/src/armor.rs:413-420 | a line break follows exactly every 64 characters and the end of the text |
| `Wrapping.UnbrokenWrapped` | openpgp/src/armor.rs:413-420 | removing the line breaks gives back the text |
| `ArmorWriter.Writer.constructor` | openpgp/src/armor.rs:301-332 | the header is prepared, not written |
| `ArmorWriter.Writer.FinalizeHeaders` | openpgp/src/armor.rs:344-353 | the header goes out at most once |
| `ArmorWriter.Writer.FillStash` | openpgp/src/armor.rs:434-459 | a stash that was full keeps still; it is encoded only when there is more, and never holds more than three octets |
| `ArmorWriter.Writer.EncodeBlocks` | openpgp/src/armor.rs:461-485 | all whole groups are encoded and less than a group is left |
| `ArmorWriter.Writer.EmitLines` | openpgp/src/armor.rs:474-485 | encoded text goes out line by line, in order and complete |
| `ArmorWriter.Writer.Linebreak` | openpgp/src/armor.rs:413-420 | a break exactly at column 64; the column never exceeds it |
| `ArmorWriter.Writer.Write` | openpgp/src/armor.rs:424-495 | takes all octets; the sink holds the broken encoding of all whole groups but the stash |
| `ArmorWriter.Writer.FinishBody` | openpgp/src/armor.rs:368-396 | the body is the wrapped encoding of the whole payload |
| `ArmorWriter.Writer.Finalize` | openpgp/src/armor.rs:358-410 | the sink ends up with the armor of everything written, or untouched if nothing was written |
| `Dearmor.WriteInChunks` | openpgp/src/armor.rs:424-495 | the output does not depend on how the payload is split into writes, empty ones included |
| `Dearmor.ReadArmored` | openpgp/src/armor.rs:301-411 | a reader written from sections 6.2 to 6.4 of RFC 4880 recovers kind, header lines and payload, and accepts the sum as a number, for all payloads, kinds and one-line headers |
| `Dearmor.Labels` | openpgp/src/armor.rs:214-230 | each kind is known by the words in its header line, and the last line has the same words |
| `Dearmor.HeaderIsRead` | openpgp/src/armor.rs:324-329 | key and value of a header are read back from its line if the key has no colon |
| `Dearmor.EmptyArmor` | openpgp/src/armor.rs:398-406 | the armor of nothing, with its sum spelled out |
| `Cleartext.DashPrefix` | openpgp/src/armor.rs:1764-1806 | splits off exactly the leading characters of the category Dash Punctuation: what is split off is written of dashes only, and what is left does not start with one |
| `Utf8.FirstOfWritten` | openpgp/src/armor.rs:1767-1773 | each character is read back from what section 3 of RFC 3629 writes it as |
| `Utf8.WrittenFirst` | openpgp/src/armor.rs:1767-1773 | only what is written like that is read as a character |
| `Utf8.DashLengthSplits` | openpgp/src/armor.rs:1774-1805 | the dashes by their code points, whatever is behind them |
| `Cleartext.JudgeLine` | openpgp/src/armor.rs:1406-1473 | header, inconsistent quoting, text without escape and trailing blanks, or an index out of range, as the reference judges the line |
| `Cleartext.Trim` | openpgp/src/armor.rs:1456-1462 | what is left does not end in a space or tab, and nothing else was cut |
| `Cleartext.ReadLiteral` | openpgp/src/armor.rs:1396-1474 | over any stack of readers and on a stream without errors: the text, and the reader stands right behind the signature header |
| `CleartextLaws.JudgeQuoted` | openpgp/src/armor.rs:1406-1421 | a full quoting prefix makes no difference |
| `CleartextLaws.ReadsEscapedText` | openpgp/src/armor.rs:1396-1474 | a dash-escaped text, quoted or not, comes out with its trailing blanks removed and its line endings kept, if and only if no escaped line passes for a signature header |
| `CleartextLaws.HyphensMakeHeader` | openpgp/src/armor.rs:1426-1436 | hyphens in front of BEGIN PGP SIGNATURE make a header if and only if there are three or more |
| `CleartextLaws.HeaderLineIsHeader` | openpgp/src/armor.rs:1426-1436 | the header line as it is sent is taken for the header |
| `CleartextLaws.ReadsMessage` | openpgp/src/armor.rs:1396-1474 | a whole message with that header line: its text comes out, and reading goes on behind the line, if and only if no line passes for a header; always if the lines start in ASCII |
| `CleartextLaws.TrimmedOne` | openpgp/src/armor.rs:1458-1462 | just spaces and tabs are trimmed |
| `CleartextLaws.MissingPrefix` | openpgp/src/armor.rs:1414-1424 | which bytes of a quoting prefix may be missing |
| `CleartextLaws.AsciiIsNoHeader` | openpgp/src/armor.rs:1426-1436 | an escaped line whose first character is ASCII never passes for a signature header |
| `CleartextLaws.EmDashIsTakenForHeader` | openpgp/src/armor.rs:1426-1436 | a line that needs no escape by section 7.1 of RFC 4880, but starts with an em dash, cuts off the text |
| `CleartextLaws.WhenOutOfRange` | openpgp/src/armor.rs:1405-1455 | for every line, with a line break or without: an index runs out of range if and only if the quoting prefix passes and nothing, or only a dash and a space, is left behind it |
| `CleartextLaws.JudgeByGuards` | openpgp/src/armor.rs:1411-1436 | when exactly a line is refused for its quoting, and when it is taken for the header |
| `CleartextLaws.WhenReadingRunsOut` | openpgp/src/armor.rs:1396-1474 | reading a message runs out of range if and only if some line does and all lines before it are text |
| `CleartextLaws.DashAtTheEndRunsOut` | openpgp/src/armor.rs:1438-1455 | without any quoting, a text that ends in a dash and a space and no line break runs out of range |
| `CleartextLaws.LastLineIsCut` | openpgp/src/armor.rs:1438-1470 | a line of text without a line break, quoted and escaped or not, loses its last byte, and nothing but blanks if and only if that is a space or a tab |
| `CleartextLaws.ReadsLastLine` | openpgp/src/armor.rs:1396-1474 | what becomes of a message whose last line has no line break, for every text in front of it and every such line: refused, out of range, taken for the header, or cut, and when cutting it loses nothing |
| `GenericReader.Generic.Fill` | buffered-reader/src/generic.rs:153-184 | short reads, interrupts, errors and end of file: what was read is in place behind the buffered bytes, an error is stashed and not overwritten, the source is not polled after its end, and exactly so many reads are made as the wanted bytes take |
| `GenericReader.Generic.Install` | buffered-reader/src/generic.rs:186-200 | the swapped-in buffer shows the buffered and the new bytes, and no stale byte of the recycled buffer |
| `GenericReader.Generic.Replenish` | buffered-reader/src/generic.rs:136-201 | nothing is consumed, and enough is buffered unless the source ended or failed |
| `GenericReader.Generic.TakeError` | buffered-reader/src/generic.rs:122-126 | a stashed error is delivered once, in order, with the buffer untouched |
| `GenericReader.Generic.DataHelper` | buffered-reader/src/generic.rs:114-242 | meets the contract of each of the four calls it implements; a stashed error is returned first; a soft call fails if and only if one was stashed, or one came up in front of any byte, a hard one if and only if one was stashed or bytes are wanting; a request for nothing yields nothing, and a call that consumes nothing yields the buffer if and only if it asks for something or nothing is buffered |
| `GenericReader.StashBehindBytes` | buffered-reader/src/generic.rs:122-126 | a byte and an error behind it: the byte is yielded, then the error with the byte still buffered, then the byte again |
| `GenericReader.ReadsAhead` | buffered-reader/src/generic.rs:142-144 | a request for one byte reads ahead by 8 kilobytes or the preferred chunk size, twice |
| `GenericReader.Generic.Consume` | buffered-reader/src/generic.rs:272-293 | hands out the buffer as it was and moves on by the amount |
| `GenericReader.Joined` | buffered-reader/src/generic.rs:188-193 | copying the buffered bytes in front of those just read gives a contiguous piece of the stream |
| `Source.Source.Read` | buffered-reader/src/generic.rs:163-164 | an arbitrary source: whatever it delivers continues its stream, and each error is the next of its errors |
| `MemoryReader.Memory.Data` | buffered-reader/src/memory.rs:83-86 | the rest of the buffer |
| `MemoryReader.Memory.Consume` | buffered-reader/src/memory.rs:88-96 | meets the contract of consume |
| `MemoryReader.Memory.DataConsume` | buffered-reader/src/memory.rs:98-101 | meets the contract of data_consume |
| `MemoryReader.Memory.DataConsumeHard` | buffered-reader/src/memory.rs:103-108 | meets the contract of data_consume_hard, errors included |
| `MemoryReader.Memory.Read` | buffered-reader/src/memory.rs:69-75 | copies as much as fits and is left |
| `Adapters.LimitedIsExact` | buffered-reader/src/limitor.rs:63-122 | a limitor shows exactly the first `limit` unread and buffered bytes |
| `Adapters.ReservedIsExact` | buffered-reader/src/reserve.rs:73-123 | a reserve shows exactly all unread and buffered bytes but the last `reserve` |
| `Adapters.LimitedDataConsume` | buffered-reader/src/limitor.rs:94-104 | why a limitor meets the contract if its inner reader does, for every inner reader |
| `Adapters.LimitedDataConsumeHard` | buffered-reader/src/limitor.rs:106-118 | the same for hard requests within the limit |
| `Adapters.LimitedTooHard` | buffered-reader/src/limitor.rs:107-109 | a hard request beyond the limit fails as the contract demands |
| `Adapters.ReservedData` | buffered-reader/src/reserve.rs:85-94 | why a reserve meets the contract if its inner reader does |
| `Adapters.ReservedRead` | buffered-reader/src/reserve.rs:57-71 | why its `read` does |
| `Adapters.AheadDataConsume` | buffered-reader/src/dup.rs:105-111 | why a dup meets the contract without consuming |
| `Stack.Limitor.Data` | buffered-reader/src/limitor.rs:73-85 | meets the contract on the limited stream; the end of the frame stays put |
| `Stack.Limitor.Consume` | buffered-reader/src/limitor.rs:87-92 | meets the contract on the limited stream; the end of the frame stays put |
| `Stack.Limitor.DataConsume` | buffered-reader/src/limitor.rs:94-104 | meets the contract on the limited stream; the end of the frame stays put |
| `Stack.Limitor.DataConsumeHard` | buffered-reader/src/limitor.rs:106-118 | meets the contract on the limited stream; the end of the frame stays put |
| `Stack.Limitor.Read` | buffered-reader/src/limitor.rs:53-61 | meets the contract on the limited stream; the end of the frame stays put |
| `Stack.Limitor.Consummated` | buffered-reader/src/limitor.rs:120-122 | exactly if the inner reader stands at the end of the frame; then nothing is left to read and nothing is buffered |
| `Stack.Reserve.Data` | buffered-reader/src/reserve.rs:85-94 | meets the contract on the stream without the reserve |
| `Stack.Reserve.Consume` | buffered-reader/src/reserve.rs:96-113 | meets the contract on the stream without the reserve |
| `Stack.Reserve.DataConsume` | buffered-reader/src/reserve.rs:115-118 | meets the contract on the stream without the reserve |
| `Stack.Reserve.DataConsumeHard` | buffered-reader/src/reserve.rs:120-123 | meets the contract on the stream without the reserve |
| `Stack.Reserve.Read` | buffered-reader/src/reserve.rs:57-71 | meets the contract on the stream without the reserve |
| `Stack.Dup.Data` | buffered-reader/src/dup.rs:91-95 | meets the contract on the whole stream; the inner reader consumes nothing |
| `Stack.Dup.Consume` | buffered-reader/src/dup.rs:97-103 | meets the contract on the whole stream; the inner reader consumes nothing |
| `Stack.Dup.DataConsume` | buffered-reader/src/dup.rs:105-111 | meets the contract on the whole stream; the inner reader consumes nothing |
| `Stack.Dup.DataConsumeHard` | buffered-reader/src/dup.rs:113-119 | meets the contract on the whole stream; the inner reader consumes nothing |
| `Stack.Dup.Read` | buffered-reader/src/dup.rs:70-82 | meets the contract on the whole stream; the inner reader consumes nothing |
| `Stack.Dup.Rewind` | buffered-reader/src/dup.rs:64-66 | the dup shows again what the inner reader shows |
| `Stack.BufferedReader.Data` | buffered-reader/src/lib.rs:380-380 | any finite stack of readers meets the contract of data |
| `Stack.BufferedReader.DefaultDataHard` | buffered-reader/src/lib.rs:406-415 | the default of data_hard meets its contract, from that of data |
| `Stack.BufferedReader.DataHard` | buffered-reader/src/lib.rs:406-415 | any finite stack of readers meets the contract of data_hard |
| `Stack.BufferedReader.Consume` | buffered-reader/src/lib.rs:524-524 | any finite stack of readers meets the contract of consume |
| `Stack.BufferedReader.DataConsume` | buffered-reader/src/lib.rs:573-574 | any finite stack of readers meets the contract of data_consume |
| `Stack.BufferedReader.DataConsumeHard` | buffered-reader/src/lib.rs:587-588 | any finite stack of readers meets the contract of data_consume_hard |
| `Stack.BufferedReader.Read` | buffered-reader/src/lib.rs:922-931 | any finite stack of readers meets the contract of read |
| `DefaultMethods.DataEof` | buffered-reader/src/lib.rs:448-485 | without errors it buffers and returns the whole rest, and consumes nothing; it terminates |
| `DefaultMethods.ReadTo` | buffered-reader/src/lib.rs:686-713 | the shortest prefix that ends in the terminal, or else everything; nothing is consumed |
| `DefaultMethods.UpToFound` | buffered-reader/src/lib.rs:686-713 | the reference is the prefix through the first terminal |
| `DefaultMethods.UpToMissing` | buffered-reader/src/lib.rs:686-713 | and everything if there is none |
| `DefaultMethods.BinarySearch` | buffered-reader/src/lib.rs:744-745 | finds exactly the terminals, since they are sorted |
| `DefaultMethods.FindTerminal` | buffered-reader/src/lib.rs:744-745 | the first terminal in the buffer |
| `DefaultMethods.DropUntil` | buffered-reader/src/lib.rs:721-759 | discards bytes that are no terminals, up to the first terminal or the end |
| `DefaultMethods.DropThrough` | buffered-reader/src/lib.rs:773-783 | discards through the first terminal and returns it; what happens at the end of file, by the flag |
| `DefaultMethods.Steal` | buffered-reader/src/lib.rs:790-797 | exactly the next bytes, or a clean failure |
| `DefaultMethods.StealEof` | buffered-reader/src/lib.rs:801-805 | exactly the whole rest |
| `DefaultMethods.DropEof` | buffered-reader/src/lib.rs:817-832 | discards everything, and tells whether there was anything |
| `DefaultMethods.Eof` | buffered-reader/src/lib.rs:599-601 | without errors, exactly if nothing is left |
| `Runs.RunConserves` | buffered-reader/src/generic.rs:114-293 | over any run of calls, bytes taken followed by bytes unread are the bytes unread at the start, and each error is reported once, in order |
| `Runs.CleanStepsSucceed` | buffered-reader/src/lib.rs:380-588 | once all errors are reported, the soft calls never fail and the hard ones fail exactly for want of bytes |
| `Runs.Drive` | buffered-reader/src/lib.rs:314-600 | any sequence of calls on any stack is such a run |
| `Sexp.SerializeString` | ipc/src/sexp.rs:386-395 | the sink grows by the wire form of the string, display hint included |
| `Sexp.Serialize` | ipc/src/sexp.rs:228-240 | the sink grows by the wire form of the expression, for any nesting |
| `SexpReader.Next` | ipc/src/sexp/parse/lexer.rs:73-144 | a token is taken off a nonempty front of the input, and the rest is what follows it |
| `SexpGrammar.LexemeWritten` | ipc/src/sexp/parse/lexer.rs:73-144 | what was taken off is the spelling of the token, unless a length has leading zeros |
| `SexpGrammar.TooLong` | ipc/src/sexp/parse/lexer.rs:73-144 | a length that does not fit into a machine word is no token |
| `SexpReader.NextRaw` | ipc/src/sexp/parse/lexer.rs:86-111 | a length-prefixed string is read back, whatever follows |
| `SexpReader.ReadEncode` | ipc/src/sexp.rs:228-240 | reading inverts writing, for arbitrary nesting, bytes and hints, and whatever follows |
| `SexpReader.UniquelyReadable` | ipc/src/sexp.rs:435-443 | equal serializations with remainders come from equal expressions and remainders |
| `SexpGrammar.KnownEncoding` | ipc/src/sexp.rs:228-240 | an expression with a list, a hint and strings, byte by byte |
| `SexpReader.RoundTrip` | ipc/src/sexp.rs:435-443 | parsing a serialized expression gives it back |
| `SexpGrammar.ReadsTokens` | ipc/src/sexp/parse/grammar.lalrpop:15-40 | the parser accepts exactly the token sequences of expressions, and yields the expression they spell |
| `SexpGrammar.EncodeIsTokens` | ipc/src/sexp.rs:228-240 | the writer writes the tokens of the expression |
| `SexpGrammar.RewritesCanonical` | ipc/src/sexp/parse/mod.rs:43-51 | an accepted input is reproduced by the writer if and only if no length in it has leading zeros |
| `Decryption.RemovePadding` | ipc/src/sexp.rs:84-113 | the loop over the slice computes the message, or the error, that the reference gives |
| `Decryption.UnpadPadded` | ipc/src/sexp.rs:84-113 | removing the padding inverts adding it, for every filler without zeros and every message, with or without the leading zero |
| `Decryption.UnpadIsExact` | ipc/src/sexp.rs:84-113 | a block yields a message if and only if it is that message padded |
| `Decryption.UnpadFails` | ipc/src/sexp.rs:84-113 | exactly which blocks fail with which error, and which index an empty slice |
| `Decryption.StricterStandard` | ipc/src/sexp.rs:84-113 | what section 7.2.2 of RFC 8017 accepts is exactly what is accepted here with a leading zero and eight bytes of filler, neither of which is checked |
| `Decryption.ReadsWrappedKey` | ipc/src/sexp.rs:52-143 | a wrapped key, written, read back and unpadded, gives the key |
| `Decryption.WhenFinished` | ipc/src/sexp.rs:57-133 | what becomes of every answer, by its shape, the algorithm and the padding flag |
| `DataLines.BuildRequest` | ipc/src/assuan/mod.rs:160-188 | the text of the data lines is that of the recursive reference |
| `DataLines.LinesAreRead` | ipc/src/assuan/mod.rs:165-186 | a server that undoes the escapes and joins the lines gets the data back |
| `DataLines.RequestIsReadable` | ipc/src/assuan/mod.rs:160-188 | for every input: no line exceeds the maximum length, and the lines carry the input |
| `DataLines.EscapesThree` | ipc/src/assuan/mod.rs:174-183 | exactly the percent sign, line feed and carriage return are escaped |
| `DataLines.RequestIsRead` | ipc/src/assuan/mod.rs:160-188 | a server that takes no bare carriage return reads the data back from the whole request |
| `DataLines.RequestIsFull` | ipc/src/assuan/mod.rs:171-171 | a line is broken only where the next byte might not fit |
| `Assuan.HeldBack` | ipc/src/assuan/mod.rs:287-317 | an incomplete line stays pending until its end arrives |
| `Assuan.Client.Send` | ipc/src/assuan/mod.rs:107-133 | a command is accepted exactly by an idle client; a busy one refuses; a dead one reaches the unreachable arm |
| `AgentServer.HeardIsUnderstood` | ipc/src/assuan/mod.rs:119-127 | a server that splits the text at line breaks reads the commands one by one |
| `Assuan.Client.SendData` | ipc/src/assuan/mod.rs:160-189 | the data request is accepted like a command |
| `Assuan.Client.PollWrite` | ipc/src/assuan/mod.rs:244-273 | each write event leads to its outcome: a command is written completely before its responses are looked for, stays pending, or the connection is dead |
| `Assuan.Client.TakeLine` | ipc/src/assuan/mod.rs:287-299 | the next line of the server, and whether the responses end behind it |
| `Assuan.Client.PollRead` | ipc/src/assuan/mod.rs:305-322 | a read extends the pending bytes, or ends or breaks the connection |
| `Assuan.Client.PollNext` | ipc/src/assuan/mod.rs:243-323 | what was yielded and what is still to come always add up to the items that the server output stands for; it is pending if and only if the write is suspended or no line, end or failure can be read at once, and each time that uses up a suspension of the transport, unless a script is at its end; it terminates |
| `AgentLaws.FragmentsDoNotMatter` | ipc/src/assuan/mod.rs:243-323 | suspended reads and the fragments the bytes arrive in do not change the server output |
| `AgentLaws.EndsAreFinal` | ipc/src/assuan/mod.rs:275-298 | on an open connection the responses end exactly behind each final response, and at the start exactly if the client believes one was already seen |
| `AgentReplies.LinesYield` | ipc/src/assuan/mod.rs:287-299 | what the lines of a server become: an item each, and an end behind each that is OK, ERR or INQUIRE |
| `AgentReplies.RepliesYield` | ipc/src/assuan/mod.rs:275-299 | lines that spell replies are yielded as these replies |
| `Agent.CollectOptions` | ipc/src/gnupg.rs:366-407 | the options, reversed, in the order GnuPG uses |
| `Agent.PopOption` | ipc/src/gnupg.rs:402-406 | popping off the end restores the original order |
| `AgentServer.OptionsAreUnderstood` | ipc/src/gnupg.rs:366-407 | the server is told the terminal, its type, the display, its authority and the bus address, each if it is set, in this order |
| `Agent.SigningRequest.constructor` | ipc/src/gnupg.rs:424-434 | a request in its start state on any client, and what that client will yield to it |
| `Agent.SigningRequest.Transmit` | ipc/src/gnupg.rs:478-489 | the next command in the plan, issued when as many responses have ended as commands were issued |
| `Agent.SigningRequest.SendOption` | ipc/src/gnupg.rs:483-503 | the options go out in their original order |
| `Agent.Collect` | ipc/src/gnupg.rs:553-564 | what a response to PKSIGN adds to the data |
| `Agent.SigningRequest.Receive` | ipc/src/gnupg.rs:490-500 | a tolerable response is remembered, data in order; any other one ends the request with the right error |
| `Agent.SigningRequest.Advance` | ipc/src/gnupg.rs:502-570 | the end of the responses leads to the next command, or to the result |
| `Agent.WhenLeftDue` | ipc/src/gnupg.rs:468-573 | a request leaves its client owing an end of the responses if and only if a final response ended it, an error or an unexpected one, or it was owed before and nothing came |
| `Agent.SigningRequest.Launch` | ipc/src/gnupg.rs:477-488 | the first command goes out on an idle connection only; a busy one refuses, a dead one panics; without options and keygrip nothing is sent |
| `Agent.SigningRequest.Poll` | ipc/src/gnupg.rs:468-573 | keeps the invariant over any number of polls, suspended anywhere: the commands issued are a prefix of options, SIGKEY, SETHASH, PKSIGN, each issued after the responses to those before ended; every ending is explained by what was seen, and says whether an end is owed and the connection dead; it panics, or finds the client busy, if and only if it is the first poll, there is something to send and the connection is dead, or busy; it is pending only if the transport is suspended or does not supply enough |
| `Agent.SigningRequest.StarvedIsShort` | ipc/src/gnupg.rs:468-573 | a request that gets stuck for good lacks a write or a reply |
| `Agent.SigningRequest.BlockOn` | ipc/src/gnupg.rs:790-794 | if writes and replies are supplied, the request ends, with one poll more than the transport suspends at most |
| `AgentDecryption.Absorb` | ipc/src/gnupg.rs:704-719 | what a response adds to the data and the padding flag |
| `AgentDecryption.Decide` | ipc/src/gnupg.rs:725-733 | drops at most one trailing zero, and hands the rest to the parser |
| `AgentDecryption.DecryptionRequest.constructor` | ipc/src/gnupg.rs:589-600 | a request in its start state on any client, and what that client will yield to it |
| `AgentDecryption.DecryptionRequest.Receive` | ipc/src/gnupg.rs:640-719 | tolerates what the state expects, the inquiry for the ciphertext included; anything else ends the request with the right error |
| `AgentDecryption.DecryptionRequest.AnswerInquiry` | ipc/src/gnupg.rs:693-699 | the ciphertext goes out as data lines |
| `AgentDecryption.DecryptionRequest.Advance` | ipc/src/gnupg.rs:650-735 | the end of the responses leads to the next command, or to the result |
| `AgentDecryption.DecryptionRequest.Poll` | ipc/src/gnupg.rs:617-739 | keeps the invariant over any number of polls, suspended anywhere: the commands issued are a prefix of options, SETKEY, PKDECRYPT and the ciphertext data; every ending is explained by what was seen, and says whether an end is owed and the connection dead; when it panics, finds the client busy, or is pending, is as exact as for signing |
| `AgentDecryption.DecryptionRequest.StarvedIsShort` | ipc/src/gnupg.rs:617-739 | a request that gets stuck for good lacks a write or a reply |
| `AgentDecryption.DecryptionRequest.BlockOn` | ipc/src/gnupg.rs:821-825 | if writes and replies are supplied, the request ends, with one poll more than the transport suspends at most |
| `Conversation.CompleteIffReplied` | ipc/src/gnupg.rs:468-573 | a conversation completes with a reply if and only if the items start with one tolerable reply per command |
| `Conversation.OverIsOver` | ipc/src/gnupg.rs:468-573 | once a conversation is over, later output does not matter |
| `Conversation.PromptLast` | ipc/src/gnupg.rs:468-573 | the last item of a conversation that just ended is the one that ended it |
| `Conversation.PromptIsUnique` | ipc/src/gnupg.rs:468-573 | a conversation ends at one place of the output only |
| `Conversation.TranscriptIsPrompt` | ipc/src/gnupg.rs:468-573 | one tolerable reply per command ends the conversation with its very last item |
| `Conversation.PaddingIsLastWord` | ipc/src/gnupg.rs:709-712 | the padding flag is off if and only if the last PADDING status said 0 |
| `AgentLaws.SigningIsDetermined` | ipc/src/gnupg.rs:468-573 | two signing requests that see the same server output end the same, whatever the timing |
| `AgentLaws.DecryptionIsDetermined` | ipc/src/gnupg.rs:617-739 | two decryption requests that see the same server output end the same, whatever the timing |
| `AgentLaws.SigningSucceeds` | ipc/src/gnupg.rs:552-570 | on success all commands were issued, and the data parsed is that of the last reply, in order |
| `AgentServer.DigestIsUnderstood` | ipc/src/gnupg.rs:525-527 | the server reads algorithm and digest back from the SETHASH line |
| `AgentServer.SigningIsHeard` | ipc/src/gnupg.rs:478-546 | from the text of the commands the server learns options, key, algorithm and digest, and that a signature is wanted |
| `AgentServer.DecryptionIsHeard` | ipc/src/gnupg.rs:627-698 | from the text of the commands the server learns options and key, and the ciphertext from the answer to its inquiry |
| `AgentLaws.DecryptionSucceeds` | ipc/src/gnupg.rs:704-735 | on success all commands were issued, and data and padding flag are those of the last reply |
| `Assuan.OwesAnEnd` | ipc/src/assuan/mod.rs:275-281 | what a client yields next: the end of the responses first, if it believes that a final one was seen; then what the server still says |
| `AgentLaws.SigningInStep` | ipc/src/gnupg.rs:345-352 | on a server that answers every command, a signing request ends with its own last reply if and only if its client owed no end of responses when the request was made; otherwise it fails; either way it leaves none owed |
| `AgentLaws.DecryptionInStep` | ipc/src/gnupg.rs:356-363 | on such a server a decryption request finishes, with its own last reply, if and only if its client owed no end; otherwise it ends in a protocol error on the acknowledgement of SETKEY, and leaves an end owed again |
| `AgentRuns.Sign` | ipc/src/gnupg.rs:345-352 | on such a server, over a transport that does not fail but suspends and fragments at will, a signature is made to the end in boundedly many polls: it is what the last reply says, and all commands went out in order, if and only if no end was owed |
| `AgentRuns.Decrypt` | ipc/src/gnupg.rs:356-363 | the same for a decryption |
| `AgentReplies.SigningRepliesAnswer` | ipc/src/gnupg.rs:490-563 | OK to each command, and data behind the last, answer every command |
| `AgentReplies.DecryptionRepliesAnswer` | ipc/src/gnupg.rs:640-719 | OK to each option and to SETKEY, the inquiry, and data with or without a word on the padding answer every command |
| `AgentReplies.ReplyMeans` | ipc/src/gnupg.rs:709-716 | the data of such a reply is its pieces in order, and the flag is off exactly if the word is 0 |
| `AgentRuns.SignByLines` | ipc/src/gnupg.rs:345-352 | from the lines of such a server to the expression that its pieces spell |
| `AgentRuns.DecryptByLines` | ipc/src/gnupg.rs:356-363 | from the lines of such a server, inquiry included, to the verdict on its pieces |
| `AgentRuns.RecoverSessionKey` | ipc/src/gnupg.rs:356-363 | from these lines to the session key, for every filler, message and split into pieces |
| `AgentRuns.SignAgain` | ipc/src/gnupg.rs:345-352 | a second request on the client of one that ended: an end is owed to it exactly as the first one left it, and its first poll panics if and only if the first one ended on a dead connection and there is something to send |
| `AgentRuns.PanicsOnceDead` | ipc/src/assuan/mod.rs:255-258 | a connection whose first write fails: the first request is told so, and the next one panics |
| `SexpGrammar.LastByte` | ipc/src/sexp/parse/lexer.rs:73-144 | what a readable input ends in |
| `SexpGrammar.CutIsUnreadable` | ipc/src/sexp/parse/lexer.rs:73-144 | a string that is cut short by a byte cannot be read, however its lengths are spelled |
| `AgentLaws.SafetyZeroIsSafe` | ipc/src/gnupg.rs:724-730 | for every answer that can be read: with a safety zero it is read the same; without one it is lost if and only if it is a string that ends in zero, and kept otherwise |
| `AgentLaws.DecryptsAnswer` | ipc/src/gnupg.rs:723-734 | from the bytes of the agent to the session key, for every filler and message, with or without the safety zero |
| `RsaDer.CoefficientInverts` | openpgp-dsm/src/der.rs:170-177 | for u p = 1 mod q the division is exact and the coefficient is the inverse of q modulo p |
| `RsaDer.WhenCoefficientInverts` | openpgp-dsm/src/der.rs:170-177 | for any u: the coefficient is the inverse of q if and only if p divides what the division drops |
| `RsaDer.RecombineRecovers` | openpgp-dsm/src/der.rs:170-177 | recombination (section 5.1.2 of RFC 8017) with the coefficient recovers every number below p q |
| `RsaDer.ExponentReduces` | openpgp-dsm/src/der.rs:178-179 | the reduced exponent agrees with the private exponent for every base if and only if it is not reduced to zero |
| `RsaDer.ExportPanics` | openpgp-dsm/src/der.rs:176-179 | the checked subtractions, divisions and remainders panic if and only if u is zero or p or q is below two |
| `RsaDer.ExportedKeyDecrypts` | openpgp-dsm/src/der.rs:150-188 | for primes, decrypting with the exported numbers is raising to the private exponent, for every number, if and only if neither exponent is reduced to zero |
| `RsaDer.DecryptsEncrypted` | openpgp-dsm/src/der.rs:150-188 | the exported key decrypts every message encrypted with the public key |
| `Residues.Fermat` | openpgp-dsm/src/der.rs:178-179 | the little theorem of Fermat, by which the exponents may be reduced |
| `Manifest.Manifest.New` | net/src/updates.rs:38-55 | refused exactly if the end predates the start |
| `Manifest.Manifest.Insert` | net/src/updates.rs:107-109 | afterwards exactly those fingerprints are contained that were before or share the first four bytes |
| `Manifest.PrefixIsExact` | net/src/updates.rs:58-71 | fingerprints share a prefix if and only if they share their first four bytes |
| `Manifest.PrefixIsStored` | net/src/updates.rs:58-62 | a prefix is stored as the first four bytes of the fingerprint |
| `Manifest.Manifest.Merge` | net/src/updates.rs:112-120 | a new manifest with the merged value; it contains a fingerprint if and only if one of the two does |
| `Manifest.MergeLaws` | net/src/updates.rs:112-120 | merging is idempotent, commutative and associative, keeps the order of the epochs, and contains exactly the prefixes of both |
| `Manifest.MergedEpochs` | net/src/updates.rs:74-77 | the epochs of both are contained, and no others if and only if no gap lies between them |
| `Manifest.Manifest.Serialize` | net/src/updates.rs:123-134 | magic, epochs and prefixes in ascending order |
| `Manifest.AscendingIncreases` | net/src/updates.rs:129-131 | the prefixes go out in strictly increasing order, all of them |
| `Manifest.ReadExact` | net/src/updates.rs:138-139 | exactly the next bytes, whatever the fragments and interrupts, which are retried; or too few are left; or the next error |
| `Manifest.ParseEpoch` | net/src/updates.rs:251-255 | the next word of the stream |
| `Manifest.NextPrefix` | net/src/updates.rs:157-174 | four bytes in fragments, or why there are none; an interruption is told exactly |
| `Manifest.InterruptsNext` | net/src/updates.rs:160-160 | how one read moves a source towards an interruption behind a given number of bytes |
| `Manifest.ParsePrefixes` | net/src/updates.rs:154-174 | all words up to the end, whatever the fragments; a leftover of one to three bytes is always rejected; it gives up if and only if a read is interrupted before the source fails or ends |
| `Manifest.Parse` | net/src/updates.rs:137-181 | for every way the source delivers them, the result is what the bytes mean, or the first error; it is an interruption if and only if the header passes and a read behind it is interrupted |
| `Manifest.ParseSerialized` | net/src/updates.rs:137-181 | a serialized manifest is read back from every source that delivers it without errors, in whatever fragments, if and only if no read behind the header is interrupted |
| `Manifest.InterruptionsCompared` | net/src/updates.rs:137-181 | every manifest is lost to an interruption right behind the header, and to none in front of it or in the middle of it |
| `Manifest.DecodeEncoding` | net/src/updates.rs:123-181 | parsing inverts serializing |
| `Manifest.KnownEncoding` | net/src/updates.rs:123-134 | a manifest byte by byte |
| `Manifest.EncodingDecode` | net/src/updates.rs:123-181 | what is parsed serializes to the same bytes if and only if its prefixes were strictly increasing |
| `Manifest.ReserializedIncreases` | net/src/updates.rs:123-181 | whatever was parsed serializes with strictly increasing prefixes, and to the same meaning |
| `Manifest.WhenParsed` | net/src/updates.rs:137-181 | exactly which inputs are accepted |
| `Words.WordBytes` | net/src/updates.rs:246-248 | the word of its four bytes is the word |
| `Words.WordPlaces` | net/src/updates.rs:58-62 | the most significant byte comes first |
| `Words.BytesWord` | net/src/updates.rs:251-255 | the bytes of the word of four bytes are these bytes |

## Left out

- PacketPile.ReadAll: the mutable reference to the current container is a path here, and writing
  through it rebuilds the tree; aliasing of containers is not modelled.
- PacketPile.PacketPile.TryFrom: the packet parser is a list of depths and packets, opaque but for
  being a container or not; `path_ref_mut` and the body digests of containers are not modelled.
- ArmorWriter.Writer.Write: the sink cannot fail, and text is a sequence of characters, not UTF-8.
- Dearmor.ReadArmored: the reader is written from RFC 4880; the `Reader` of the armor module, with its
  tolerance for garbage and missing parts, is not modelled.
- Cleartext.ReadLiteral: packing the text into packets and parsing the signature are not modelled, and
  on a stream with errors still to come nothing is said about the text.
- DefaultMethods.DataEof: in front of an error of the source that is still to come it may return less
  than everything; the whole rest is promised only if no error is left. The same holds for
  `read_to`, `drop_until`, `drop_through`, `steal_eof`, `drop_eof` and `eof`.
- GenericReader.Generic.DataHelper: sizes are mathematical integers, so overflow of `usize` and the
  doubling of the chunk size near its limit are not modelled; a misbehaving `io::Read` that reports
  more bytes than fit is excluded.
- Stack.Limitor.Read: `u64` limits and the casts between them and `usize` are mathematical integers.
- Stack.BufferedReader.Read: cookies, `into_inner`, `get_mut`, `dump`, the big-endian readers and the
  File, Mmap, Zlib and Bzip2 readers are left out; dispatch is a datatype, not a trait.
- SexpReader.Next: error texts and offsets are left out; the generated LR parser is modelled as
  recursive descent on the same grammar.
- Decryption.RemovePadding: key unwrapping for ECDH stops at the shared point; `to_signature` and the
  construction of the ciphertext expression are not modelled.
- Assuan.Client.PollNext: the grammar of a response line is an arbitrary function from lines to
  responses; wakers, the socket and partial writes of a command are not modelled.
- Agent.SigningRequest.Poll: not polled again after it is done; the connection handshake, the keygrip
  computation and environment lookups are parameters.
- AgentDecryption.DecryptionRequest.Poll: as for signing; the ciphertext arrives as an expression.
- RsaDer.ExportedKeyDecrypts: conversion of big-endian numbers and DER encoding are foreign code and
  left out; so are the other key types of that file.
- Manifest.Parse: the result is the value of a manifest; epochs from clocks and strings, `epochs`,
  `since` and epoch arithmetic are left out.
- Network services, key servers, the DSM client, keyboxes and the rest of the repository are left out:
  they rest on remote calls or add only easy members.
