# InitWare: verified models of the journal, import, account and machine components

This project models seven components of InitWare and proves what they promise, for all inputs
and all runs.

- **Journal Export Format** (`ExportParser`, `SourceLayout`, `RemoteSources`, `UploadFates`,
  `SteadyUploads`, `HttpUpload`, `UploadExamples`, `JournalUpload`, `JournalWire`, `RoundTrip`). The sender
  serialises entries into buffers of any size and can stop at almost any byte. The receiver parses
  pushed bytes in place, in a buffer that grows, moves and shrinks, with vectors pointing into it.
  Memory is an array with a base address. Both sides are proved against one grammar, the sender also
  against an independent reader of its bytes, and together they return the entries that went in.
- **QCOW2 conversion** (`Qcow2`, `Qcow2Convert`, `Qcow2Image`, `Qcow2Format`), after the sections
  "Header" and "Cluster mapping" of QEMU's qcow2 image format specification. The raw file is what
  the words of the image lead to, byte by byte, and it is compared with the disk that the format
  defines.
- **User and group id allocator** (`UidRanges`, `Sysusers`, `Strv`, `SysusersFiles`). Two id
  spaces, one descending pool, several fall-back proposals, and the merge into the files.
- **Download jobs and image import** (`ImportJobs`, `ImportRaw`, `ImportVerify`). Callbacks arrive in
  any interleaving.
- **Machine registry** (`Machines`). Three indices, a collector queue and object lifetime.
- **Socket proxy** (`SocketProxy`) and **journal gateway reader** (`Gateway`). Byte streams over
  partial transfers.
- **Boot chart** (`Bootchart`). The tree walk and the ten largest consumers.

`Wrappers`, `Bytes` and `Numbers` hold options, byte strings and number encodings.

Objects that the C code updates in place are classes. Where a proof is about the meaning of
such an object, the methods say exactly what they do to the fields, and lemmas about snapshots
say what that means. The outside world (name service, `stat`, `splice`, `inflate`, digests, bus
replies, curl events, the allocator's choice of address) comes in through parameters, so every
statement holds for whatever it does.

## Where the code and its intent part

Each of these is stated exactly, with the condition under which the intended property holds.
Methods and lemmas named second show an input that gets there.

- The buffer shrink at the end of an entry compares the unread bytes with the size although the
  buffer still holds the consumed ones. The filled bytes can then exceed the buffer
  (`ShrinkCutsIff`); the size assertion fails next, which `HttpUpload` reports as `Crashed`.
  `VerdictIff` says when, `CrashingUpload` uploads such a stream.
- The limit on buffered bytes applies only while a line is incomplete and counts consumed bytes,
  so whether it strikes depends on how the stream is cut (`VerdictIff`, `CuttingDecides`).
  Neither happens to entries and chunks that are small together (`SteadyUpload`).
- Binary fields with an empty value, fields whose label starts with two underscores and fields
  without a label do not survive the trip (`FieldTripsIff`).
- The search for a free id wraps around below 0. If 0 is in the pool and every id is taken it
  never ends (`SearchPool`, `HangingSearch`).
- The safety check for group names looks at group items only and misses groups that user items
  bring along (`GroupUniqueIff`). A row written after loading is then doubled (`DoubledGroup`).
- gshadow is not among the files that are loaded. A row left over from a group that a group item
  creates makes the run write nothing (`Update`, `RefusedRun`); one left over from a group that a
  user item brings along is doubled (`GshadowUniqueIff`, `DoubledGshadow`).
- The conversion does not look at the name of a backing file. Clusters that are not allocated come
  out as zeroes, and the image converts without error (`HoldsDiskIff`, `LostBacking`).
- A status 304 after the body has begun violates the assertion that the image is not open
  (`MakeLocalCopy`, `LateNotModified`). A response 304 has no body, so this takes a transfer library
  that hands over body bytes before it reports that status. A header after the body violates the
  assertion that the job is analysing (`Handle`, `LateHeader`). Bodies of fewer than six bytes never
  succeed (`Download`).
- The check of the downloaded checksums looks at the first occurrence of the line only. A file that
  lists the image is refused if an earlier line ends in the same text (`AcceptsIff`,
  `ListedAndRefused`).
- The end of input from one side of a proxied connection closes its descriptor for both directions.
  Bytes toward a peer that only ended its sending half are lost exactly when they are still in the
  pipe then (`Run` of the connection, `HalfClosed`).
- A machine whose leader PID is not positive stays in the leader index after it is freed
  (`Free`, `DanglingLeader`).
- A freed machine takes its unit out of the index even if another machine holds the entry, and a
  machine that starts in a unit of another gets no entry. As long as no two machines carry one unit
  at the same time every started machine is found by its unit (`Run`, with the exact condition per
  step in `Free` and `Start`); otherwise one can be lost (`LostUnit`).
- A leader PID arrives as 32 unsigned bits and is kept as a `pid_t`. Starting a scope asserts that
  it is greater than 1 and asking for a unit that it is not negative, so requests and state files
  with other leaders end the daemon (`Aborts` in `Dispatch`, `Startup`, `AbortingLeader`).

## Model

| member | source | states |
|---|---|---|
| `Numbers.SafeAtolluOfDecimal` | lib/basic/util.c:531-547 | the number reader (base 0, sign, overflow, trailing characters) returns every 64-bit value that was printed in decimal |
| `Numbers.SafeAtolluSigned` | lib/basic/util.c:531-547 | a minus sign negates modulo 2^64, a plus sign changes nothing |
| `Numbers.SafeAtolluTooLarge` | lib/basic/util.c:531-547 | every number from 2^64 on is out of range |
| `Numbers.SafeAtolluTrailing` | lib/basic/util.c:531-547 | anything but a digit behind a number makes it invalid |
| `Numbers.SafeAtolluSpace` | lib/basic/util.c:531-547 | leading white space does not count, and no digits are no number |
| `Numbers.SafeAtolluHex` | lib/basic/util.c:531-547 | digits behind 0x or 0X are read in base 16 |
| `Numbers.SafeAtolluOctal` | lib/basic/util.c:531-547 | octal digits that begin with 0 are read in base 8 |
| `Numbers.DigitOfCharacter` | lib/basic/util.c:531-547 | the digits 0 to 9 and a to f, in either case, and their values |
| `Numbers.DigitsValueAt` | lib/basic/util.c:531-547 | digits are read by position: those in front weigh one power of the base more for each digit behind them |
| `Bytes.LittleEndianRoundTrip` | archive/journal-remote/journal-upload-journal.c:207-220 | a 64-bit length written least significant byte first is read back unchanged |
| `Bytes.FromLittleEndianInverse` | archive/journal-remote/journal-remote-parse.c:218-243 | eight length bytes are the encoding of exactly one length |
| `ExportParser.StepConsumes` | archive/journal-remote/journal-remote-parse.c:339-463 | a parser step that neither blocks nor fails consumes at least one byte, so draining ends |
| `ExportParser.StepFeed` | archive/journal-remote/journal-remote-parse.c:339-463 | bytes that arrive later change neither a step that was possible before nor its error |
| `ExportParser.DunderEffects` | archive/journal-remote/journal-remote-parse.c:283-337 | a line is metadata exactly when it begins with two underscores; the two timestamp names, spelled out, set their own timestamp to the number behind them or fail with its error, and no other line changes a timestamp |
| `ExportParser.AsciiAt` | archive/journal-remote/journal-remote-parse.c:283-337 | the names of the format stand for their ASCII bytes |
| `ExportParser.RunFeed` | archive/journal-remote/journal-remote-parse.c:339-463 | draining, then draining again with more bytes, gives the entries, error and state of draining once with all of them |
| `ExportParser.ChunkIndependence` | archive/journal-remote/journal-remote-parse.c:153-171 | for every split of a stream into pushes, draining after each push gives the entries, the error and the final state of the whole stream |
| `ExportParser.StreamRun` | archive/journal-remote/journal-remote-parse.c:339-463 | on every stream of the grammar (text lines, binary fields, blank lines) the drained entries and the error are those the grammar assigns to it, and without error nothing is left |
| `ExportParser.Sound` | archive/journal-remote/journal-remote-parse.c:339-463 | conversely, bytes that drain without error down to nothing are a stream of the grammar |
| `ExportParser.WholeEntriesIffEndsClean` | archive/journal-remote/journal-remote.c:557-570 | draining ends without error on an empty buffer between entries exactly when the bytes are a whole number of entries of the grammar and the parser finds no error in them |
| `SourceLayout.FieldsRebase` | archive/journal-remote/journal-remote-write.c:54-62 | after moving the buffer, the rebased vectors spell the same fields |
| `SourceLayout.FieldsFrame` | archive/journal-remote/journal-remote-write.c:22-33 | vectors into consumed bytes spell the same fields whatever happens to the bytes behind |
| `SourceLayout.GrownView` | archive/journal-remote/journal-remote-parse.c:75-87 | growing the buffer keeps its bytes, its invariant and the parser state it holds, wherever the allocator puts it |
| `SourceLayout.AppendedView` | archive/journal-remote/journal-remote-parse.c:153-171 | appending bytes is feeding them to the parser state; pending vectors and the scan position stay right |
| `SourceLayout.RebaseKeepsView` | archive/journal-remote/journal-remote-parse.c:75-87 | rebasing the vectors together with the buffer address does not change the parser state |
| `SourceLayout.TextEffectFollows` | archive/journal-remote/journal-remote-parse.c:345-397 | each way the line branch can leave buffer, vectors and timestamps is the corresponding parser step, error cases included |
| `SourceLayout.SizeEffectFollows` | archive/journal-remote/journal-remote-parse.c:399-414 | reading the length word is the corresponding step, including a zero length and one above the limit |
| `SourceLayout.SlidNameSpells` | archive/journal-remote/journal-remote-parse.c:433-441 | sliding the name over the length word makes name, equals sign and value contiguous, and keeps all earlier fields |
| `SourceLayout.DataEffectFollows` | archive/journal-remote/journal-remote-parse.c:416-444 | the data branch with its memmove is the corresponding step and keeps the buffer invariant |
| `SourceLayout.ClosingEffectFollows` | archive/journal-remote/journal-remote-parse.c:446-459 | the closing newline is required and consumed |
| `SourceLayout.ShrinkTargetBelowIff` | archive/journal-remote/journal-remote-parse.c:513-521 | the halving loop goes below a bound exactly when some number of halvings stays above 16 line chunks and twice the unread bytes and ends below the bound |
| `SourceLayout.ShrinkCutsIff` | archive/journal-remote/journal-remote-parse.c:501-530 | at the end of an entry the buffer no longer covers its bytes exactly when it is neither reset nor compacted and the loop goes below the filled bytes; never in a buffer of at most 16 line chunks |
| `SourceLayout.EntryProcessed` | archive/journal-remote/journal-remote-parse.c:465-533 | finishing a complete entry is the corresponding step: the fields are handed over once and the unread bytes stay |
| `RemoteSources.RemoteSource.constructor` | archive/journal-remote/journal-remote-parse.c:53-73 | a new source is empty and in the initial parser state |
| `RemoteSources.RemoteSource.IovwRebase` | archive/journal-remote/journal-remote-write.c:54-62 | every vector keeps its length and its distance to the buffer |
| `RemoteSources.RemoteSource.ReallocBuffer` | archive/journal-remote/journal-remote-parse.c:75-87 | content kept, size at least the request, vectors rebased |
| `SourceLayout.GreedySizeIs` | lib/basic/util.c:6917-6943 | the size that a buffer grows to: unchanged if it is enough, else twice the need, at least 64 |
| `RemoteSources.RemoteSource.PushData` | archive/journal-remote/journal-remote-parse.c:153-171 | the invariant holds and the parser state is the old one with the bytes fed; without a buffer and without data it reports failure |
| `RemoteSources.RemoteSource.GetLine` | archive/journal-remote/journal-remote-parse.c:89-151 | for a source that is pushed to: a line is the bytes up to the first newline, found although the scan starts where the last one stopped; otherwise only the scan position moves, or the limit on buffered bytes strikes |
| `RemoteSources.RemoteSource.FillFixedSize` | archive/journal-remote/journal-remote-parse.c:173-216 | for a source that is pushed to: a fixed amount is taken only when it is all there |
| `RemoteSources.RemoteSource.ProcessDataBlock` | archive/journal-remote/journal-remote-parse.c:416-444 | the in-place slide of the name and the new vector, exactly |
| `RemoteSources.RemoteSource.ProcessData` | archive/journal-remote/journal-remote-parse.c:339-463 | in every state process_data performs one step of the parser or blocks with the parser state unchanged |
| `RemoteSources.RemoteSource.Compact` | archive/journal-remote/journal-remote-parse.c:501-511 | resetting or moving down keeps the unread bytes; the move never overlaps |
| `RemoteSources.RemoteSource.ShrinkBuffer` | archive/journal-remote/journal-remote-parse.c:513-530 | the buffer is halved while the unread bytes fill less than half of it, as written |
| `RemoteSources.RemoteSource.ProcessSource` | archive/journal-remote/journal-remote-parse.c:465-533 | one step of the parser, a complete entry goes to the writer once, and the buffer invariant holds afterwards unless the shrink cut the buffer |
| `HttpUpload.Drain` | archive/journal-remote/journal-remote.c:531-555 | the loop ends with the fate that parser state and buffer sizes determine; the entries are those the parser finds, all of them unless the buffer is cut |
| `HttpUpload.ProcessHttpUpload` | archive/journal-remote/journal-remote.c:507-571 | a call hands over the entries completed by its bytes and its answer is the one their fate means: accepted, incomplete, the parser error, too long or the failed assertion |
| `HttpUpload.Upload` | archive/journal-remote/journal-remote.c:507-571 | for every split into calls the verdict is the one the fate of the chunks means; unless the buffer is cut the writer gets the entries of the whole stream, and otherwise a prefix |
| `HttpUpload.VerdictIff` | archive/journal-remote/journal-remote.c:507-571 | the size assertion fails exactly when, behind some call, some entry ends with a buffer that is neither reset nor compacted and shrinks below its bytes; the stream is refused as too long exactly when a line is incomplete behind DATA_SIZE_MAX buffered bytes, consumed ones included |
| `UploadFates.RoomStep` | archive/journal-remote/journal-remote-parse.c:465-533 | how one step moves offset, filled bytes and size, and exactly when it cuts the buffer |
| `UploadFates.FateRuns` | archive/journal-remote/journal-remote.c:531-555 | as far as a drain gets it is the run of the parser, with its error; it is too long only from DATA_SIZE_MAX bytes on and cut only above 16 line chunks |
| `UploadFates.CutIff` | archive/journal-remote/journal-remote-parse.c:501-530 | a drain is cut exactly when some point it reaches is a blank line whose shrink overhangs |
| `UploadFates.TooLongIff` | archive/journal-remote/journal-remote-parse.c:112-117 | a drain is too long exactly when some point it reaches waits for the end of a line with DATA_SIZE_MAX bytes buffered |
| `UploadFates.UploadRuns` | archive/journal-remote/journal-remote.c:507-571 | an upload that goes on is the run of the parser over the concatenated chunks, whatever the chunks |
| `UploadFates.UploadCutIff` | archive/journal-remote/journal-remote.c:507-571 | the condition for a whole upload: one chunk and one step behind it at which the buffer is cut |
| `UploadFates.UploadTooLongIff` | archive/journal-remote/journal-remote.c:507-571 | the same for the limit on buffered bytes |
| `SteadyUploads.FitsAhead` | archive/journal-remote/journal-remote-parse.c:339-463 | the bytes an entry takes up do not depend on how much of the stream has arrived |
| `SteadyUploads.SteadyDrain` | archive/journal-remote/journal-remote-parse.c:465-533 | consumed bytes in front of the current entry stay few against entries and buffer, so the buffer neither shrinks nor is cut |
| `SteadyUploads.SteadyPush` | archive/journal-remote/journal-remote-parse.c:153-171 | a push keeps the buffer within four times the sum of the largest entry and the largest chunk |
| `SteadyUploads.SteadyUpload` | archive/journal-remote/journal-remote.c:507-571 | entries of at most E bytes in chunks of at most C bytes with E + C within 4 line chunks are neither cut nor too long, however long the stream is |
| `SteadyUploads.SteadyStream` | archive/journal-remote/journal-remote.c:507-571 | the same for a stream that is given by the entries of the grammar |
| `UploadExamples.LongPushOverhangs` | archive/journal-remote/journal-remote-parse.c:513-530 | a push of 200000 bytes with a first entry of 110000 leaves a buffer of 100000 bytes said to hold 200000 |
| `UploadExamples.CrashingUpload` | archive/journal-remote/journal-remote-parse.c:513-530 | these bytes, uploaded in one call, fail the size assertion |
| `UploadExamples.SameStream` | archive/journal-remote/journal-remote-parse.c:112-117 | the two cuttings below are of one stream |
| `UploadExamples.CuttingDecides` | archive/journal-remote/journal-remote-parse.c:112-117 | one stream is accepted in one call and refused as too long in two |
| `JournalUpload.Snprintf` | archive/journal-remote/journal-upload-journal.c:34-47 | the bytes that fit and a terminating zero, and the length that was needed |
| `JournalUpload.PrintLine` | archive/journal-remote/journal-upload-journal.c:34-49 | a line that fits exactly loses its newline to the zero and gets it back; one that does not fit leaves nothing behind |
| `JournalUpload.Uploader.PrintHeader` | archive/journal-remote/journal-upload-journal.c:24-134 | the four header lines, each whole or not at all; that they are the names of the format with cursor, timestamps and boot id of the entry is HeaderRead |
| `JournalUpload.Uploader.CopyField` | archive/journal-remote/journal-upload-journal.c:158-181 | as much of the field as fits, with its newline only after its last byte |
| `JournalUpload.Uploader.StartBinary` | archive/journal-remote/journal-upload-journal.c:183-205 | the label line of a binary field, or an error for a field without label |
| `JournalUpload.Uploader.SizeBinary` | archive/journal-remote/journal-upload-journal.c:207-220 | the length word, whole or not at all |
| `JournalUpload.Uploader.WriteEntry` | archive/journal-remote/journal-upload-journal.c:14-238 | for every buffer and every place to resume from, what is written followed by what remains is what remained before; it stops only for lack of room, at the end of the entry, or at a field without label; JournalRead says what these bytes are, independently of how they are composed |
| `JournalUpload.Uploader.JournalInputCallback` | archive/journal-remote/journal-upload-journal.c:240-296 | the same for the whole journal: bytes handed out followed by what remains are what remained before; it gives up only when not even one piece fits or a label is missing, and closes the input exactly when it runs out of entries of a journal that is not followed |
| `RoundTrip.JournalMeaning` | archive/journal-remote/journal-upload-journal.c:14-238 | the canonical text of a journal is a stream of the grammar and means its entries, boot id first |
| `JournalWire.HeaderRead` | archive/journal-remote/journal-upload-journal.c:24-134 | the header of an entry, read line by line by an independent reader: __CURSOR= with its cursor, __REALTIME_TIMESTAMP= and __MONOTONIC_TIMESTAMP= with the decimal digits of its timestamps, _BOOT_ID= with its boot id |
| `JournalWire.JournalRead` | archive/journal-remote/journal-upload-journal.c:14-238 | the bytes of a journal, read by that reader, are its entries: header, then every field as a line, or as label, eight bytes of length and value, then a blank line |
| `JournalWire.SpellsUnique` | archive/journal-remote/journal-upload-journal.c:14-238 | no other bytes are read that way |
| `JournalWire.DecimalUnique` | archive/journal-remote/journal-upload-journal.c:51-101 | a number has one decimal spelling |
| `RoundTrip.RelayedAt` | archive/journal-remote/journal-remote-parse.c:339-463 | what a receiver gets of an entry: its timestamps, its boot id as first field, and its fields in order |
| `RoundTrip.OutReads` | archive/journal-remote/journal-upload-journal.c:240-296 | what was handed out so far is the beginning of bytes that the independent reader reads as the journal, and all of it when the last entry is done |
| `RoundTrip.ParseOfPrint` | archive/journal-remote/journal-remote-parse.c:339-463 | parsing the text of any sendable journal gives exactly its entries in order, with equal timestamps and fields, and ends on an entry boundary |
| `RoundTrip.RunCarriable` | archive/journal-remote/journal-remote-parse.c:339-463 | every field the parser ever produces has a label without newline and is no metadata |
| `RoundTrip.FieldTripsIff` | archive/journal-remote/journal-upload-journal.c:136-220 | a field comes back alone and unchanged exactly when its label has no newline and is no metadata and, if it is sent as binary, label and value are not empty and the value is within the limit |
| `RoundTrip.NeverAborts` | archive/journal-remote/journal-upload-journal.c:240-296 | a buffer with room for every piece that is not split is never refused; of a text field, which is split anywhere, nothing has to fit |
| `RoundTrip.Pump` | archive/journal-remote/journal-upload-journal.c:240-296 | for every sequence of buffer sizes the concatenated output begins bytes that the independent reader of the wire format reads as the journal, and is all of them once the last entry is done |
| `RoundTrip.Relay` | archive/journal-remote/journal-remote-parse.c:465-533 | sending through buffers of any sizes, cutting the bytes anywhere and receiving: accepted with exactly the sent entries unless the chunks are cut or too long; journals of any length arrive whole if their largest entry and chunk together stay within 4 line chunks; buffers with enough room never abort |
| `RoundTrip.DeliveredIff` | archive/journal-remote/journal-remote-parse.c:465-533 | when a delivery fails, exactly, and that it can fail in these two ways only |
| `RoundTrip.SmallEntriesArrive` | archive/journal-remote/journal-remote-parse.c:465-533 | a journal of any length whose largest entry and chunk stay within 4 line chunks waits at the end for nothing |
| `RoundTrip.Receive` | archive/journal-remote/journal-remote.c:507-571 | the receiving half for any cutting of a journal text |
| `RoundTrip.AnyPieces` | archive/journal-remote/journal-remote.c:507-571 | every way to cut a stream into non-empty pieces is one of the cuttings that the relay is proved for |
| `Qcow2.DecodeStandard` | archive/import/qcow2-util.c:184-200 | decoding inverts the specified Standard Cluster Descriptor; holes and zero clusters are not told apart |
| `Qcow2.DecodeCompressed` | archive/import/qcow2-util.c:168-183 | decoding inverts the specified Compressed Clusters Descriptor, and a compressed entry is refused in the first-level table |
| `Qcow2.CompressedSizeBounds` | archive/import/qcow2-util.c:168-200 | for every 64-bit table entry the compressed size lies between 1 byte and two clusters, and offsets lie below 2^62 |
| `Qcow2Convert.GuestOffsetExact` | archive/import/qcow2-util.c:311-312 | after verify_header the guest offset computed in 64 bits is the mathematical one and the cluster ends within 64 bits |
| `Qcow2Convert.GuestOffsetTight` | archive/import/qcow2-util.c:226-227 | with 2^25 table entries and 2 MB clusters the last cluster ends at 2^64 exactly; one entry more would start again at zero |
| `Qcow2Convert.GuestOffsetsDisjoint` | archive/import/qcow2-util.c:311-312 | different table positions describe disjoint guest clusters |
| `Qcow2Convert.ReadMapping` | archive/import/qcow2-util.c:82-158 | a cluster that can be read has exactly the cluster size, copied or inflated |
| `Qcow2Convert.Open` | archive/import/qcow2-util.c:203-288 | an image that opens has a header within the verified bounds and a complete first-level table |
| `Qcow2Convert.ClusterOfEntry` | archive/import/qcow2-util.c:290-312 | the cluster at quotient and remainder of the address is the one the two table indices reach, at the offset the loop computes |
| `Qcow2Convert.FilledCluster` | archive/import/qcow2-util.c:82-106 | writing a cluster puts it in place, keeps all others and reads as zero in between |
| `Qcow2Convert.FirstErrorStays` | archive/import/qcow2-util.c:290-333 | the first error decides, whatever comes behind it |
| `Qcow2Convert.CopyCluster` | archive/import/qcow2-util.c:82-106 | the source cluster ends up at the target offset or the error is the one of the failing call |
| `Qcow2Convert.DecompressCluster` | archive/import/qcow2-util.c:108-158 | the inflated cluster ends up at the target offset only if it has exactly the cluster size |
| `Qcow2Convert.ConvertEntry` | archive/import/qcow2-util.c:307-332 | one second-level entry: hole, copy, inflate or error |
| `Qcow2Convert.ConvertTable` | archive/import/qcow2-util.c:307-332 | all clusters of one table, up to the first error |
| `Qcow2Convert.ConvertL1Entry` | archive/import/qcow2-util.c:290-333 | one first-level entry: skipped table, unreadable table, or all its clusters |
| `Qcow2Convert.Qcow2Convert` | archive/import/qcow2-util.c:240-336 | it returns 0 exactly when the image opens and every cluster can be read and stored, otherwise the first error; on success the file has the size of the virtual disk (or reaches to its last cluster) and every byte is the one that the tables lead to at that address, zero where they lead nowhere, whatever the backing file holds; StandardCluster, CompressedCluster and ZeroCluster say which bytes these are, from the words of the image alone |
| `Qcow2Image.HeaderRead` | archive/import/qcow2-util.c:19-65 | the fields of the header are the big-endian words at the positions that the format gives them |
| `Qcow2Image.OpensIff` | archive/import/qcow2-util.c:203-288 | told by those words: an image opens exactly when magic, version, encryption, cluster size, disk size, table size, features and header length are acceptable and the first-level table lies inside the image |
| `Qcow2Image.OpenErrors` | archive/import/qcow2-util.c:203-288 | otherwise the first unacceptable word decides which error it is |
| `Qcow2Image.ShortImage` | archive/import/qcow2-util.c:255-262 | an image below 104 bytes cannot be read |
| `Qcow2Image.StandardCluster` | archive/import/qcow2-util.c:160-312 | whatever image: if word i of the first-level table points to a table and word j of that table to offset o, byte k of cluster i * 2^(bits-3) + j of the file is byte o + k of the image |
| `Qcow2Image.CompressedCluster` | archive/import/qcow2-util.c:108-183 | for a compressed word the cluster is what the packed bytes at its offset inflate to, in their number of sectors |
| `Qcow2Image.ZeroCluster` | archive/import/qcow2-util.c:184-200 | for a word without offset or with the zero flag the cluster reads as zeroes |
| `Qcow2Image.ZeroTable` | archive/import/qcow2-util.c:290-306 | the same for all clusters of a first-level word without table |
| `Qcow2Image.RestIsZero` | archive/import/qcow2-util.c:276-335 | the file is at least as long as the disk, and behind the last table there are only zeroes |
| `Qcow2Image.InheritedCluster` | archive/import/qcow2-util.c:160-201 | the disk of the format, told by the words of the image: a cluster whose word is empty has the bytes of the backing file, one with the zero flag has zeroes |
| `Qcow2Image.InheritedTable` | archive/import/qcow2-util.c:290-306 | clusters of a first-level word without table have the bytes of the backing file |
| `Qcow2Image.InheritedBehind` | archive/import/qcow2-util.c:290-306 | so have clusters behind the first-level table |
| `Qcow2Image.ConvertImage` | archive/import/qcow2-util.c:240-336 | the conversion into a new file: on success the four statements above hold of it, and an image that is not acceptable fails |
| `Qcow2Convert.VirtualDiskIff` | archive/import/qcow2-util.c:240-336 | the description of the converted file byte by byte determines it |
| `Qcow2Convert.RawImageOfQcow2` | archive/import/qcow2-util.c:338-351 | the outcome of a conversion is the raw image that the download stands for, or its error |
| `Qcow2Format.OriginOfCluster` | archive/import/qcow2-util.c:160-201 | what the conversion finds in a guest cluster, against what the format says of it: not allocated and flagged as zero become one |
| `Qcow2Format.HoldsDiskIff` | archive/import/qcow2-util.c:203-238 | after success the file is the disk of the format for every backing file exactly when the image names none or no cluster below the size is read from it |
| `Qcow2Format.RawImageIsFaithfulIff` | archive/import/qcow2-util.c:240-351 | the same for the raw image of a download; an image of another kind is its own |
| `Qcow2Format.NothingBroken` | archive/import/qcow2-util.c:290-333 | after success every cluster of the format could be read |
| `Qcow2Format.SizeIff` | archive/import/qcow2-util.c:276-335 | the file has the size of the disk exactly when no cluster with data ends behind it |
| `Qcow2Format.BackedConverts` | archive/import/qcow2-util.c:203-238 | an image of one cluster that is not allocated, over a backing file, converts without error |
| `Qcow2Format.LostBacking` | archive/import/qcow2-util.c:203-238 | the file that comes of it is not the disk of the format |
| `UidRanges.NextLower` | lib/basic/uid-range.c:171-202 | the largest pool member not above the candidate, if there is one; below 0 the candidate is the top |
| `UidRanges.Contains` | lib/basic/uid-range.c:204-217 | membership in the pool |
| `UidRanges.CandidateWraps` | lib/basic/uid-range.c:171-202 | below 0 the search goes on at the top of the 32-bit ids |
| `Sysusers.Allocator.SearchPool` | archive/sysusers/sysusers.c:992-1013 | the first usable id on the way down; no free id exactly when 0 is not in the pool and all ids below are taken; it never ends exactly when 0 is in the pool and all are taken |
| `Sysusers.HangingSearch` | archive/sysusers/sysusers.c:1160-1182 | with a pool of the id 0 alone, which is taken, adding a group does not end |
| `Sysusers.Allocator.FreeUid` | archive/sysusers/sysusers.c:783-828 | a user id passes exactly when no new user, no user of the file and no known user has it, and a group with that id bears the user's name |
| `Sysusers.Allocator.FreeGid` | archive/sysusers/sysusers.c:1032-1068 | a group id passes exactly when no new or known group or user has it |
| `Sysusers.Allocator.UidError` | archive/sysusers/sysusers.c:783-828 | a user id is in doubt exactly when the name service fails before it is found taken, with that error |
| `Sysusers.Allocator.GidError` | archive/sysusers/sysusers.c:1032-1068 | the same for a group id |
| `Sysusers.Allocator.FileOwners` | archive/sysusers/sysusers.c:842-897 | the ids that a file suggests: for a group the group of its own file, else of the file of the user id; for a user the owner of its own file, else the group of the file of the group id |
| `Sysusers.Allocator.ReadIdFromFile` | archive/sysusers/sysusers.c:842-897 | the first file that exists decides; its id counts if it is in the pool and not 0 |
| `Sysusers.Allocator.ChooseGid` | archive/sysusers/sysusers.c:1104-1182 | the first proposal that is not taken decides (suggested id, user id, owner of the file), otherwise the search; a chosen id is free |
| `Sysusers.Allocator.ChooseUid` | archive/sysusers/sysusers.c:937-1013 | the first proposal that is not taken decides (suggested id, owner of the file, group id), otherwise the search; a chosen id is free |
| `Sysusers.Allocator.AddGroup` | archive/sysusers/sysusers.c:1070-1197 | a known group adds nothing; a new one is listed under a free id; the invariant of the whole run is kept; it succeeds when the first proposal that counts is free, or without proposal and name service when the pool has a free id |
| `Sysusers.Allocator.SureIsDone` | archive/sysusers/sysusers.c:1104-1182 | a choice that cannot fail: a free proposal, or a free id in the pool with no name service to fail |
| `Sysusers.Allocator.AddUser` | archive/sysusers/sysusers.c:899-1030 | a known user adds nothing; a new one is listed under a free id and its group exists; the invariant is kept |
| `Sysusers.Allocator.ProcessUser` | archive/sysusers/sysusers.c:1207-1212 | group first, then user: each is listed exactly when it is new and its step succeeded; a user that fails leaves a new group listed; the group id is the one the proposals or the search decide on |
| `Sysusers.Allocator.ProcessGroup` | archive/sysusers/sysusers.c:1214-1237 | a group item hands its id and path to the user of the same name and does nothing else, or the group is added as by AddGroup |
| `Sysusers.Allocator.InvSafe` | archive/sysusers/sysusers.c:783-1197 | no new user id is in passwd, no new group id in group or passwd, an id used twice belongs to one name, a user id equal to an existing group id has its name, every new user's group id is that of the group of its name, and no name is created twice |
| `Sysusers.Allocator.ProcessGroups` | archive/sysusers/sysusers.c:2020-2021 | for every order of the group items: the invariant, no user touched, every group without user present unless it failed, and an item flagged exactly when it created its group; it stops early only at a search that does not end, which needs 0 in the pool |
| `Sysusers.Allocator.ProcessUsers` | archive/sysusers/sysusers.c:2023-2024 | for every order of the user items: the invariant, every user and its group present unless it failed; stopping early as above |
| `Sysusers.Allocator.Allocate` | archive/sysusers/sysusers.c:2020-2024 | both passes in any orders keep all of InvSafe, although failures are ignored |
| `Sysusers.Allocator.AddImplicit` | archive/sysusers/sysusers.c:1260-1331 | every group and member named by a membership line has an item, existing items stay |
| `Strv.MergeMembers` | archive/sysusers/sysusers.c:252-302 | the member list is the union, rewritten sorted and without duplicates only if someone was missing |
| `Strv.SortAscends` | lib/basic/strv.c:690-698 | sorting distinct strings gives a strictly ascending list of the same strings |
| `Strv.LessAt` | lib/basic/strv.c:682-698 | one string is before another exactly when it is a proper beginning of it or smaller at the first difference |
| `SysusersFiles.FirstWinsKeys` | archive/sysusers/sysusers.c:84-190 | every row of a file is known to its index |
| `SysusersFiles.FirstWinsValue` | archive/sysusers/sysusers.c:84-190 | the first row of a name, or of an id, decides |
| `SysusersFiles.Load` | archive/sysusers/sysusers.c:84-190 | both indices of a file after one pass |
| `SysusersFiles.WritePasswd` | archive/sysusers/sysusers.c:544-614 | it refuses exactly when a row has the name or id of a new user; otherwise all old rows in order, then one row per new user; MergedUserRows says what is in such a row |
| `SysusersFiles.PasswdStaysUnique` | archive/sysusers/sysusers.c:544-614 | merging adds no duplicate name and no duplicate user id |
| `SysusersFiles.LoadedPasswdNeverClashes` | archive/sysusers/sysusers.c:553-564 | the refusal cannot happen while the file is the one that was loaded |
| `SysusersFiles.UpdateShadowRow` | archive/sysusers/sysusers.c:643-663 | a row of a new user gets the date and takes the user off the list, others stay |
| `SysusersFiles.WriteShadow` | archive/sysusers/sysusers.c:634-695 | the new file is determined by the list as it was, although the list shrinks while the file is read |
| `SysusersFiles.ShadowCoversUsers` | archive/sysusers/sysusers.c:634-695 | every new user has a row, and none is appended for a name that already has one |
| `SysusersFiles.WriteGroup` | archive/sysusers/sysusers.c:397-460 | it refuses exactly when a row has the name of a new group item or a new group id; otherwise old rows in order with members merged in, then the new groups; it reports a change exactly when the rows differ |
| `SysusersFiles.GroupUniqueIff` | archive/sysusers/sysusers.c:415-425 | no duplicate id; a new group repeats the name of a row exactly when a user item brings that group along, which the check does not see |
| `SysusersFiles.LoadedGroupNeverClashes` | archive/sysusers/sysusers.c:415-425 | neither happens while the file is the one that was loaded |
| `ImportJobs.DetectNeedsSixBytes` | archive/import/import-job.c:408-421 | the decoder depends on the first six bytes only |
| `ImportJobs.DetectBySignature` | archive/import/import-job.c:393-426 | which decoder, byte by byte: FD 37 7A 58 5A 00 for xz, 1F 8B for gzip, BZh for bzip2, anything else is taken as it is |
| `ImportJobs.DecodedNext` | archive/import/import-job.c:265-348 | the output of a compressed body is the concatenation of what the decoder makes of each piece behind the pieces before it |
| `ImportJobs.ImportJob.constructor` | archive/import/import-job.c:669-699 | a new job is idle, empty, and has its limits |
| `ImportJobs.ImportJob.Finish` | archive/import/import-job.c:56-75 | the first call decides and notifies; done and failed never change again |
| `ImportJobs.ImportJob.LimitIsExact` | archive/import/import-job.c:246-254 | the wrap-around test and the limit test together accept exactly the sums within the limit |
| `ImportJobs.ImportJob.WriteUncompressed` | archive/import/import-job.c:187-233 | output is accepted exactly when it stays within the limit and the disk takes it; it is then appended and counted |
| `ImportJobs.ImportJob.WriteCompressed` | archive/import/import-job.c:235-353 | an accepted chunk reaches hash and decoder whole and in order, and the output is what the decoder makes of the chunks; one that exceeds the limit or the announced length is refused; without decoder it is accepted exactly when limits, length and disk admit it |
| `ImportJobs.ImportJob.CheckSizes` | archive/import/import-job.c:243-263 | a chunk passes exactly when the bytes received stay within the limit and the announced length |
| `ImportJobs.ImportJob.DetectCompression` | archive/import/import-job.c:393-474 | below six bytes nothing is fed; then everything received so far is, once |
| `ImportJobs.ImportJob.WriteCallback` | archive/import/import-job.c:476-528 | hash and decoder have seen exactly the received bytes, the counters are their lengths; a finished job takes no more; a body without decoder goes on exactly when target and hash open and limits, length and disk admit it |
| `ImportJobs.ImportJob.HeaderCallback` | archive/import/import-job.c:530-617 | a known entity tag completes the job; an announced length is kept if it can be read, and fails the job exactly when it is above the limit; an error of the last-modified line fails it |
| `ImportJobs.ImportJob.CurlOnFinished` | archive/import/import-job.c:77-185 | success exactly for status 304, or for a 2xx status of a running job whose announced length is complete; checksum of exactly the received bytes |
| `ImportJobs.ImportJob.Begin` | archive/import/import-job.c:701-778 | only an idle job starts |
| `ImportJobs.ImportJob.Download` | archive/import/import-job.c:476-528 | for every split of a body, a job that succeeds without an older download has hashed and decoded the concatenation, and stored it if it is uncompressed; a body below six bytes never succeeds |
| `ImportRaw.Handle` | archive/import/import-job.c:476-617 | a completed job is not changed by any callback and notifies no more; a header after the body is the one assertion that fails |
| `ImportRaw.RawImport.constructor` | archive/import/import-raw.c:484-550 | the jobs that the verification mode asks for, with 8 GB and 1 MB limits, started in turn up to the first that fails |
| `ImportRaw.RawImport.OnFinished` | archive/import/import-raw.c:347-429 | a failed job reports its error and nothing else happens; otherwise something happens only when all jobs are done |
| `ImportRaw.RawImport.Publish` | archive/import/import-raw.c:382-414 | the file is moved into place exactly when verification, conversion, protection and rename succeed, in this order; what verification demands of the jobs holds; VerifiedAnswers says which call of the verifier it is |
| `ImportRaw.RawImport.VerifiedAnswers` | archive/import/import-common.c:294-358 | the answer is 0 without verification, else that of the verifier about the digest of exactly the received bytes, the received checksums and, if signatures are asked for, the received signature |
| `ImportRaw.Codes` | archive/import/qcow2-util.c:203-336 | the error numbers that a failed conversion is reported with |
| `ImportRaw.RawImport.MaybeConvert` | archive/import/import-raw.c:188-239 | a QCOW2 image becomes the disk of its tables in a file of its own, anything else stays as it is, an image below four bytes fails; the error is that of the first failing step |
| `ImportRaw.RawImport.MakeLocalCopy` | archive/import/import-raw.c:241-329 | the assertion that the image is not open fails exactly when a 304 came after the body had begun |
| `ImportRaw.RawImport.Deliver` | archive/import/import-raw.c:347-429 | every callback of every job reaches that job and keeps the protocol invariant |
| `ImportRaw.RawImport.Run` | archive/import/import-raw.c:331-429 | for every interleaving of the callbacks the final path is written at most once, only when all jobs are done, never if a job failed, and in both verification modes only if the verifier accepted the digest of exactly the received bytes with the received checksums and signature; conversely, if the verifier refuses, nothing is written and its error is the one outcome; what is published for an uncompressed download is the raw image that the received bytes stand for, of a QCOW2 image the disk of the format exactly when it names no backing file or inherits nothing from it; each job has received what was delivered for it |
| `ImportRaw.RawImport.Consequences` | archive/import/import-raw.c:331-429 | the part of this that holds in every state |
| `ImportRaw.RawImport.DeliverAll` | archive/import/import-job.c:476-528 | every job gets exactly the bytes delivered for it, all of them while it is under way |
| `ImportVerify.AcceptsIff` | archive/import/import-common.c:328-338 | a file of checksums is accepted exactly when the first of its lines that ends in digest, blank, star and file name is nothing but that |
| `ImportVerify.VerifyIff` | archive/import/import-common.c:294-474 | verification succeeds exactly for a valid file name that is listed that way and, if there is a signature, when that is not empty and gpg accepts it |
| `ImportVerify.ListedAndRefused` | archive/import/import-common.c:330-338 | a file that lists the image behind a longer line with the same end is refused |
| `ImportVerify.PublishedIsListed` | archive/import/import-common.c:294-474 | in every state of an import: what is published is listed, with the digest of exactly the received bytes, in the file that was received, and signed if that was asked for; an image that is not listed ends with EBADMSG |
| `ImportRaw.LateHeader` | archive/import/import-job.c:530-549 | six bytes of a body, then a header line: the assertion that the job is analysing fails |
| `ImportRaw.LateNotModified` | archive/import/import-raw.c:241-329 | six bytes of a body, then status 304, with a local copy asked for: the assertion that the image is not open fails |
| `Machines.Manager.AddMachine` | archive/machine/machined-dbus.c:1154-1173 | an existing machine is returned, a new one is registered under its name |
| `Machines.AsPidWraps` | archive/machine/machined-dbus.c:195-250 | a PID as 32 bits: unchanged below 2^31, negative from there on |
| `Machines.CheckGcIff` | archive/machine/machine.c:466-481 | a machine is kept exactly when its job or its unit is active and, where that is asked, it was started |
| `Machines.Manager.Free` | archive/machine/machine.c:74-103 | the machine leaves name index, queue and unit; the leader index keeps a dangling entry exactly when the PID is not positive; if every started machine was found by its unit, that stays so exactly when none of them carries the unit of this one |
| `Machines.Manager.NoDangling` | archive/machine/machine.c:74-103 | with positive leader PIDs no index entry refers to a freed machine |
| `Machines.Manager.AddToGcQueue` | archive/machine/machine.c:483-493 | flag and queue agree, no machine is queued twice |
| `Machines.Manager.StartScope` | archive/machine/machine.c:332-376 | a unit is given at most once, and the unit index leads to machines that carry it; the assertion about the PID fails exactly for a machine without unit whose leader is at most 1 |
| `Machines.Manager.Start` | archive/machine/machine.c:378-412 | refused exactly when another machine has the leader; otherwise registered before the scope is started; success and the failed assertion, each exactly; a started machine has its unit and is found by its leader, and by its unit exactly when no other machine was |
| `Machines.Manager.MarkStarted` | archive/machine/machine.c:404-404 | every started machine is found by its unit exactly when that was so and the index leads to this one, which it does when units are not shared |
| `Machines.Manager.Stop` | archive/machine/machine.c:439-464 | the machine is queued and not started |
| `Machines.Manager.GcStep` | archive/machine/machined.c:267-275 | a round takes one machine off the queue for good although stopping queues it again |
| `Machines.Manager.Gc` | archive/machine/machined.c:260-276 | it ends with an empty queue, frees exactly the queued machines that the check gives up and touches no other; entries whose PID is not positive stay in the leader index; the unit index loses exactly the units of the freed machines, and while no two machines carry one unit every started one is found by its own |
| `Machines.Manager.CheckIdle` | archive/machine/machined.c:305-313 | of the queued machines exactly the started and active ones survive, the others stay; idle exactly when no machine is left |
| `Machines.Manager.CreateOrRegister` | archive/machine/machined-dbus.c:195-335 | accepted exactly for good arguments, a PID other than 1, a known caller if there is no PID, and a new name; the leader is the PID as pid_t, negative from 2^31 on |
| `Machines.Manager.CreateMachine` | archive/machine/machined-dbus.c:337-364 | success exactly for an accepted request with an ordinary and unused leader whose scope is granted; the machine then has that scope as its unit, and its job; a failed one leaves the machine to the collector; the daemon aborts exactly when the leader is unused and at most 1 |
| `Machines.Manager.RegisterMachine` | archive/machine/machined-dbus.c:382-419 | success exactly for an accepted request with an unused leader whose unit is known, with that unit; the daemon aborts exactly for a negative leader |
| `Machines.Manager.MatchJobRemoved` | archive/machine/machined-dbus.c:789-836 | the finished job is forgotten, the machine queued |
| `Machines.Manager.MatchUnitChanged` | archive/machine/machined-dbus.c:838-893 | the machine of the unit is queued |
| `Machines.Manager.MatchReloading` | archive/machine/machined-dbus.c:895-921 | after a reload every machine is queued |
| `Machines.Manager.TerminateMachine` | archive/machine/machined-dbus.c:437-460 | the machine is stopped and queued, its job is the one that stops the unit; the error is that of an unknown name or of the service manager |
| `Machines.Manager.GetMachineByPid` | archive/machine/machined-dbus.c:1130-1152 | a machine that is found is alive and carries the unit or the PID; a started machine is found by its leader, and by its unit whenever the index has the unit of every started machine |
| `Machines.Manager.Enumerate` | archive/machine/machined.c:97-146 | every state file has a machine with its unit, job and leader, queued and not started, and there is no other |
| `Machines.Manager.Startup` | archive/machine/machined.c:278-303 | exactly the machines whose unit or job is active are kept; of those with one leader one is found by it, and exactly that one is started if it has a unit or is granted a scope; it aborts only at a kept machine without unit whose leader is at most 1, and then always if no other has that leader |
| `Machines.Manager.Run` | archive/machine/machined.c:260-313 | from startup on, for every sequence of requests and signals: the registered names begin with those of the files of active machines and each event changes them as it has to; the invariant, no dangling entry when all leaders are processes, no failed assertion when they are ordinary ones, and every started machine found by its unit as long as no two machines carry one unit at the same time |
| `Machines.DanglingLeader` | archive/machine/machine.c:74-103 | a state file without leader for an active unit, then terminate and the idle check with the unit gone: the leader index leads to a freed machine |
| `Machines.LostUnit` | archive/machine/machine.c:82-85 | two machines are registered in one unit, the second is terminated and collected: the first is alive and started, and not found by its unit |
| `Machines.AbortingLeader` | archive/machine/machined-dbus.c:926-933 | a request with leader 2^31 ends the daemon |
| `SocketProxy.Channel.Fill` | archive/socket-proxy/socket-proxyd.c:167-172 | bytes read are appended to the pipe and counted |
| `SocketProxy.Channel.Drain` | archive/socket-proxy/socket-proxyd.c:183-188 | bytes written are the oldest in the pipe |
| `SocketProxy.TakeIn` | archive/socket-proxy/socket-proxyd.c:167-181 | the read half of a turn: what is taken grows by exactly the bytes that splice reports, at most what fits, and the source is closed, for both directions, exactly at its end |
| `SocketProxy.GiveOut` | archive/socket-proxy/socket-proxyd.c:183-196 | the write half of a turn: what is delivered grows by exactly as many of the oldest bytes in the pipe as splice reports |
| `SocketProxy.Shovel` | archive/socket-proxy/socket-proxyd.c:144-200 | for any partial transfers: taken grows by the concatenation of what the reads reported, delivered by the sum of what the writes reported, in order, within the pipe; every turn but the last moves something and in the last nothing can be moved any more; what is in the pipe toward a closed socket stays there |
| `SocketProxy.ShovelOnce` | archive/socket-proxy/socket-proxyd.c:160-199 | one turn moves exactly what splice says, and says whether it moved anything |
| `SocketProxy.HonestOnward` | archive/socket-proxy/socket-proxyd.c:144-200 | such a log continued by such a log is one |
| `SocketProxy.Connection.EnableEventSources` | archive/socket-proxy/socket-proxyd.c:251-294 | every transfer that is still possible has its poll interest set, and a full or an empty pipe wakes no one; refused exactly when an open socket without source would need one |
| `SocketProxy.Connection.TrafficCb` | archive/socket-proxy/socket-proxyd.c:204-249 | both directions are moved until quiet; then the connection ends exactly when one side is closed and nothing is pending toward the other, or both are closed, or on an error |
| `SocketProxy.Connection.Run` | archive/socket-proxy/socket-proxyd.c:204-249 | over any series of callbacks: taken and delivered grow by exactly what the reads and writes of all turns reported, in both directions; taken equals delivered plus pending, in order; at a regular end a side did not get everything exactly when it is closed with bytes toward it in the pipe, which nothing changes from then on |
| `SocketProxy.HalfClosed` | archive/socket-proxy/socket-proxyd.c:173-177 | a client that ends its sending half while bytes toward it are in the pipe never gets them, and the connection ends without an error |
| `Gateway.RequestMeta.Serialise` | archive/journal-remote/journal-gatewayd.c:189-222 | one more entry, the counters and the temporary file follow; a longer earlier entry leaves its tail behind without effect |
| `Gateway.RequestMeta.NextEntry` | archive/journal-remote/journal-gatewayd.c:139-223 | with and without follow: the next entry, after no more arrivals than it takes; or the end exactly when the limit is reached, the journal ends without follow or the entry is not the one of the cursor; or it waits, with follow and nothing to go to |
| `Gateway.RequestMeta.ReadEntries` | archive/journal-remote/journal-gatewayd.c:125-243 | for any position and buffer size the bytes are those of the stream at that position, and the offset is the size of the entries passed; with and without follow the stream begins at the entry the request leads to, in the journal as it is, or if there is none as it is once one has arrived |
| `Gateway.RequestMeta.EndIsListing` | archive/journal-remote/journal-gatewayd.c:139-223 | at the end the stream is the concatenation of the requested entries, cut after the requested number, in both modes; a request that follows ends only with exactly that number or in discrete mode |
| `Gateway.RequestMeta.ReadAll` | archive/journal-remote/journal-gatewayd.c:125-243 | for any sequence of buffer sizes at consecutive positions, in both modes, the pieces make up exactly that stream, from the entry the request leads to; every piece brings at least a byte; when it ends or waits everything was handed out |
| `Gateway.NextSkip` | lib/initware/syslog/sd-journal.c:938-967 | any number of single steps, as far as there are entries; head, tail and the entry of a cursor are found in either direction |
| `Gateway.Beginnings` | lib/initware/syslog/sd-journal.c:938-967 | where reading begins: from the head, from the tail and from a cursor, for every skip |
| `Gateway.ListingAtCursor` | archive/journal-remote/journal-gatewayd.c:139-223 | a request at the cursor of an entry lists that entry and those behind it |
| `Gateway.Parse` | archive/journal-remote/journal-gatewayd.c:471-485 | a discrete request needs a cursor and gets one entry; without cursor the reader starts at the head, or with a negative skip at the tail, whatever will be there |
| `Gateway.RequestMeta.Await` | archive/journal-remote/journal-gatewayd.c:144-169 | waiting goes on exactly as long as there is nothing to go to and batches arrive |
| `Gateway.TailDelivers` | lib/initware/syslog/sd-journal.c:748-753 | a request for the last two entries of an empty journal that it follows gets the last two of the first batch |
| `Bootchart.GetNextPs` | archive/bootchart/svg.c:963-992 | the first child, else the next sibling of the process or of its nearest ancestor that has one |
| `Bootchart.WalkTree` | archive/bootchart/svg.c:963-992 | inside every subtree the walk is the preorder and leaves to the successor of the subtree |
| `Bootchart.WalkIsDistinct` | archive/bootchart/svg.c:963-992 | a walk that ends meets no process twice |
| `Bootchart.Walk` | archive/bootchart/svg.c:1325-1326 | on every well-formed tree the loop ends and visits each linked process once, in preorder |
| `Bootchart.CascadeInsert` | archive/bootchart/svg.c:1327-1336 | in place: before the first smaller one, the last one drops out |
| `Bootchart.RankingIsStableSort` | archive/bootchart/svg.c:1325-1336 | the ranking is descending, holds exactly the positive amounts, and keeps ties in visit order |
| `Bootchart.InsertRefinesPlace` | archive/bootchart/svg.c:1327-1336 | the ten places with one process inserted are the first ten of the full ranking |
| `Bootchart.TopTen` | archive/bootchart/svg.c:1313-1343 | the list equals the stable sort of the positive amounts, cut after ten |
| `RemoteSources.RemoteSource.AppendBytes` | archive/journal-remote/journal-remote-parse.c:167-168 | the bytes go behind the filled ones, nothing else changes |
| `RemoteSources.RemoteSource.FindNewline` | archive/journal-remote/journal-remote-parse.c:103-110 | the first newline of a range, or its end |
| `RemoteSources.RemoteSource.IovwPut` | archive/journal-remote/journal-remote-write.c:22-33 | a field is appended, or refused at the field count limit |
| `RemoteSources.RemoteSource.ProcessTextLine` | archive/journal-remote/journal-remote-parse.c:361-396 | metadata line, text field, or name of a binary field whose newline becomes an equals sign |
| `RemoteSources.RemoteSource.ProcessLine` | archive/journal-remote/journal-remote-parse.c:345-397 | the line branch performs one parser step or blocks |
| `RemoteSources.RemoteSource.ProcessDataStart` | archive/journal-remote/journal-remote-parse.c:399-414 | the length word is taken, and refused above the limit |
| `RemoteSources.RemoteSource.Memmove` | archive/journal-remote/journal-remote-parse.c:434-434 | the name slides up by eight bytes, the rest stays |
| `RemoteSources.RemoteSource.ProcessDataFinish` | archive/journal-remote/journal-remote-parse.c:446-459 | the closing newline is taken, anything else is an error |
| `RemoteSources.RemoteSource.Shrink` | archive/journal-remote/journal-remote-parse.c:516-530 | the bytes below the new size are kept |
| `RemoteSources.RemoteSource.FinishEntry` | archive/journal-remote/journal-remote-parse.c:498-530 | vectors dropped, buffer reset or compacted and shrunk, unread bytes kept while they fit |
| `HttpUpload.Turn` | archive/journal-remote/journal-remote.c:532-554 | one round of the loop: one parser step, or the answer that ends the call |
| `HttpUpload.PushChunk` | archive/journal-remote/journal-remote.c:520-558 | a call with data continues the upload with the bytes seen so far, or ends it with an error |
| `HttpUpload.EndUpload` | archive/journal-remote/journal-remote.c:557-570 | the empty call decides about all bytes seen |
| `JournalUpload.Put` | archive/journal-remote/journal-upload-journal.c:169-170 | bytes copied into the buffer, the rest kept |
| `JournalUpload.Uploader.NewField` | archive/journal-remote/journal-upload-journal.c:136-156 | the next field and how it is to be sent, or the end of the entry |
| `JournalUpload.Uploader.Outro` | archive/journal-remote/journal-upload-journal.c:222-231 | the blank line that ends an entry, if there is room |
| `JournalUpload.Uploader.WriteRound` | archive/journal-remote/journal-upload-journal.c:22-237 | every state sends a piece of what remains, or stops for lack of room |
| `JournalUpload.Uploader.NextEntry` | archive/journal-remote/journal-upload-journal.c:255-277 | the next entry is started only after the last one is done; the input is closed exactly at the end of a journal that is not followed |
| `JournalUpload.Uploader.CallbackRound` | archive/journal-remote/journal-upload-journal.c:254-293 | one round of the callback keeps what was handed out and what remains together |
| `JournalUpload.Uploader.constructor` | archive/journal-remote/journal-upload-journal.c:312-326 | at the start the whole journal text remains |
| `Qcow2Convert.RawFile.Truncate` | archive/import/qcow2-util.c:276-281 | the file has the new length, new bytes are zero; lengths beyond 63 bits are refused |
| `Qcow2Convert.RawFile.Write` | archive/import/qcow2-util.c:99-103 | the bytes are stored at the offset, a gap reads as zero; what would end beyond 2^63 - 1 is an invalid argument |
| `Qcow2Convert.ConvertTables` | archive/import/qcow2-util.c:290-335 | over an empty file of the virtual size the loops leave the virtual disk or report the first error |
| `Sysusers.Item.constructor` | archive/sysusers/sysusers.c:1281-1288 | a new item has no ids and nothing to do |
| `Sysusers.Allocator.Search` | archive/sysusers/sysusers.c:992-1013 | the outcome of the search: an id that is free, no id, an error, or no end |
| `Sysusers.Allocator.PutGroup` | archive/sysusers/sysusers.c:1185-1193 | a new group with a free id is listed and the invariant kept |
| `Sysusers.Allocator.PutUser` | archive/sysusers/sysusers.c:1016-1024 | a new user with a free id and an existing group is listed and the invariant kept |
| `SysusersFiles.AppendUsers` | archive/sysusers/sysusers.c:587-614 | one row per new user behind the old ones, with the fields that MergedUserRows tells |
| `SysusersFiles.DropUser` | archive/sysusers/sysusers.c:651-653 | the user leaves the list and the invariant is kept |
| `SysusersFiles.UpdateShadow` | archive/sysusers/sysusers.c:643-663 | the first row of each new user gets the date; exactly the users without row remain |
| `SysusersFiles.PutGroupRow` | archive/sysusers/sysusers.c:252-302 | a row with its members merged in, equal to the old one if nothing changed |
| `SysusersFiles.AppendGroups` | archive/sysusers/sysusers.c:448-460 | one row per new group behind the old ones |
| `SysusersFiles.DuplicateIff` | archive/sysusers/sysusers.c:415-425 | per row: the same condition as in GroupUniqueIff |
| `SysusersFiles.NameIff` | archive/sysusers/sysusers.c:488-492 | a new group of a name that no group item creates comes from a user item of that name |
| `ImportJobs.ImportJob.WriteDecoded` | archive/import/import-job.c:274-298 | the pieces are appended in order, up to the first that is refused |
| `ImportJobs.ImportJob.DecodeChunk` | archive/import/import-job.c:265-348 | the decoder is fed the chunk whole, and uncompressed data passes unchanged |
| `ImportJobs.ImportJob.OpenDisk` | archive/import/import-job.c:355-390 | target and hash are opened empty |
| `ImportJobs.ImportJob.Accept` | archive/import/import-job.c:487-519 | received bytes are counted once, in whichever state they arrive |
| `ImportRaw.RawImport.FinishAll` | archive/import/import-raw.c:379-420 | the asserted open image is there; the first failing step is reported, and the image is published exactly when none fails |
| `ImportRaw.RawImport.JobFacts` | archive/import/import-job.c:77-185 | a job that succeeded by itself has the whole body, its checksum and its open target |
| `Machines.Manager.constructor` | archive/machine/machined.c:37-65 | an empty registry |
| `Machines.Manager.PutUnit` | archive/machine/machine.c:372-373 | an entry of the unit index is never replaced |
| `Machines.Manager.PopHead` | archive/machine/machined.c:267-269 | the head leaves the queue and loses its flag |
| `Machines.Manager.SetUnit` | archive/machine/machined-dbus.c:396-402 | the unit of a registered machine is set before it is indexed |
| `Machines.Manager.LoadMachine` | archive/machine/machine.c:251-330 | unit, job and leader come from the state file before anything is indexed |
| `Machines.Manager.AddStateFile` | archive/machine/machined.c:117-143 | one state file adds one queued machine |
| `Machines.Manager.StartAll` | archive/machine/machined.c:298-300 | for every order: exactly which machines are started, and when it aborts |
| `Machines.Manager.Dispatch` | archive/machine/machined-dbus.c:337-921 | every request and signal keeps the invariant and does what it is for: an accepted request has its machine, started or queued, a refused one changes nothing; the aborting ones exactly; positive leaders stay positive, and units that lead to their machines do while no unit is shared |
| `SocketProxy.Endpoint.Watch` | archive/socket-proxy/socket-proxyd.c:269-287 | an open socket is watched for exactly these events; refused exactly when it had no event source and the loop takes no new ones |
| `SocketProxy.Connection.constructor` | archive/socket-proxy/socket-proxyd.c:296-322 | both pipes are empty and every possible transfer is watched, unless the event loop takes no sources and the connection is given up |
| `Gateway.RequestMeta.constructor` | archive/journal-remote/journal-gatewayd.c:77-91 | nothing is serialised yet |
| `Gateway.RequestMeta.Arrive` | archive/journal-remote/journal-gatewayd.c:162-171 | entries that arrive while waiting do not change the stream so far |
| `Gateway.RequestMeta.Overwrite` | archive/journal-remote/journal-gatewayd.c:197-222 | the file begins with the new entry |
| `Gateway.RequestMeta.StreamLength` | archive/journal-remote/journal-gatewayd.c:189-190 | the offset and the size of the current entry add up to the length of the stream |
| `Gateway.RequestMeta.PieceOfStream` | archive/journal-remote/journal-gatewayd.c:225-242 | the bytes read from the file are those of the stream at that position |
| `Bootchart.Cascade` | archive/bootchart/svg.c:1331-1332 | everything from the place on moves down by one |
| `Bootchart.PlaceIsStable` | archive/bootchart/svg.c:1328-1329 | among equal amounts the newcomer is last |
| `SysusersFiles.PasswdMergeIsUnique` | archive/sysusers/sysusers.c:544-614 | a passwd file with unique names and ids stays so |
| `SysusersFiles.GroupMergeIsUnique` | archive/sysusers/sysusers.c:397-460 | a group file with unique names and ids stays so, if no row bears the name of a group that a user item brings along |
| `SysusersFiles.MergedUserExists` | archive/sysusers/sysusers.c:544-614 | a user that allocation settled has a row, or the name service knows it |
| `SysusersFiles.MergedUserRows` | archive/sysusers/sysusers.c:566-584 | every row added to passwd: the name of an item, password x, the user id that was allocated, the group id of the group of that name in the written group file or in the name service, the description, the home directory or /, and the shell /sbin/nologin, or /bin/sh for user id 0 |
| `SysusersFiles.MergedGroupHas` | archive/sysusers/sysusers.c:448-460 | the group that allocation gave a user has its id in the written group file, unless only the name service has it |
| `SysusersFiles.MergedShadow` | archive/sysusers/sysusers.c:643-695 | every row added to shadow has the name of a new user, the password !!, the date of the run and no limits; an old row of a new user gets the date and stays otherwise as it is |
| `SysusersFiles.MergedGroupExists` | archive/sysusers/sysusers.c:397-460 | a group that allocation settled has a row, or the name service knows it |
| `SysusersFiles.Update` | archive/sysusers/sysusers.c:2020-2028 | allocation and merge on the files that were loaded, for every order. Refused exactly when, no search being endless, a row of gshadow bears the name of a new group whose item did not fail and has no user item beside it. Otherwise written: rows only get members or are appended, for names that items ask for and no one knew; unique passwd and group files stay unique; every field of a row added to passwd, shadow, group or gshadow is told, a user's group id being that of its own group; every user and group item that did not fail is provided for |
| `SysusersFiles.MergeUpdates` | archive/sysusers/sysusers.c:387-614 | the merged tables: unique if they were, members merged, nothing added that was not asked for |
| `SysusersFiles.MergeProvides` | archive/sysusers/sysusers.c:387-614 | every user item that did not fail has its user and its group, every group item its group |
| `SysusersFiles.Prepare` | archive/sysusers/sysusers.c:1260-1331 | before the first item: both indices are those of the files, and there is an item for every configured name and every name in a membership line, and no other |
| `SysusersFiles.HonouredByUpdate` | archive/sysusers/sysusers.c:252-355 | every membership line: wherever the group has a row in group or gshadow the user is in it, and group and user exist if nothing failed |
| `SysusersFiles.Apply` | archive/sysusers/sysusers.c:1998-2028 | the whole run from files and configuration: written, refused or endless, each exactly as in Update, with the same fields; what is written honours every membership line; it ends when 0 is not in the pool |
| `SysusersFiles.WriteGshadow` | archive/sysusers/sysusers.c:470-532 | it refuses exactly when a row has the name of a group item that is to be created; otherwise old rows in order with members merged in, then one row per new group in the order of the group file; it reports a change exactly when the rows differ |
| `SysusersFiles.PutGshadowRow` | archive/sysusers/sysusers.c:304-355 | a row with its members merged in, equal to the old one if nothing changed |
| `SysusersFiles.AppendGshadow` | archive/sysusers/sysusers.c:515-527 | one row per new group behind the old ones |
| `SysusersFiles.GshadowUniqueIff` | archive/sysusers/sysusers.c:487-527 | unique names stay so exactly when no row bears the name of a group that a user item brings along |
| `SysusersFiles.MergedGshadow` | archive/sysusers/sysusers.c:470-532 | the merged gshadow against the merged group file |
| `SysusersFiles.ClashIffLeftOver` | archive/sysusers/sysusers.c:488-492 | the check of gshadow, told from the log of the group items |
| `SysusersFiles.RefusedRun` | archive/sysusers/sysusers.c:488-492 | a group item, no group and a row of gshadow left over from it: nothing is written |
| `SysusersFiles.DoubledGshadow` | archive/sysusers/sysusers.c:487-527 | a row left over from a group that a user item brings along: the merged gshadow has the name twice |
| `SysusersFiles.DoubledGroup` | archive/sysusers/sysusers.c:415-425 | a user item brings the group u along and a row of that name is written after loading: the merged file has u twice |
| `SocketProxy.Connection.ShovelBoth` | archive/socket-proxy/socket-proxyd.c:213-225 | both directions are moved until a turn is quiet |
| `Machines.Manager.FreeStarted` | archive/machine/machine.c:74-103 | freeing one machine leaves every other started machine findable by its leader |
| `SysusersFiles.MergeTables` | archive/sysusers/sysusers.c:387-614 | group, gshadow and passwd merged; refused exactly when gshadow has a row of a flagged group item |
| `Machines.Manager.StartOrQueue` | archive/machine/machined-dbus.c:346-363 | started, or queued for the collector |
| `Machines.Manager.QueueMachine` | archive/machine/machined.c:128-137 | the machine of a state file exists and is queued |

## Left out

- Journal receiver: active descriptors, out-of-memory paths and the recovery after a field is refused because the entry has too many. Entries are assumed to stay below the field count limit.
- Journal sender: failures of the journal calls, the cursor file and the statistics counter. The printable test is a parameter; only that it rejects newlines is used.
- RemoteSources.RemoteSource.GetLine: does not model reading from an active descriptor, only a source that is pushed to.
- RemoteSources.RemoteSource.FillFixedSize: does not model reading from an active descriptor, only a source that is pushed to.
- RemoteSources.RemoteSource.ProcessSource: does not model a writer that fails; the entry is then dropped and the buffer tidied up all the same.
- The vector size sum, which only feeds statistics and the compression choice.
- QCOW2: reserved bits of the descriptors (they are read as the code reads them), the copy-on-write clone that replaces a copy on btrfs, a full disk and file size limits below 2^63 - 1.
- Inflating, the digests, the download decoders and gpg are functions of their input. That the decoder loops end on trailing data is not modelled.
- Sysusers: parsing of the configuration, `uid_range_add` (the pool is assumed sorted and coalesced), the backup and rename of the files, and skipping files when there is nothing to add. The name service answers the same throughout a run.
- Sysusers.Allocator.AddUser: does not model that the description of a user known to the name service is replaced, because such a user is never written.
- Import jobs: sparse writing (the file content after the final truncation is modelled), failures of the digest library, times and attributes, progress reports. `import-tar.c` repeats the raw flow.
- Import verification: how the file name is taken from the URL, and the steps to run gpg, which is a function of signature and checksums.
- Machines: what an abort leaves behind, state files beyond name, unit, job and leader, creation replies, addresses, images and the login and terminal methods. Argument checks of the bus methods are one flag.
- Socket proxy: connecting, resolving and accepting; a callback ends when the modelled transfers block.
- Gateway: a cursor behind all entries is taken for the end of the journal as it is when the request comes in; entries that arrive later lie behind it.
- Gateway: the field reader, which repeats the entry reader without skipping, and request parsing. After the end of a stream the journal position is not used again and not modelled.
- Boot chart: drawing, sampling and the construction of the tree; amounts are real numbers.
- Not part of this model: the service manager (`cmd/schedulerd`: units, dependencies and job transactions), the system log daemon and its file format (`cmd/syslog`, `lib/initware/syslog`), sessions and seats (`cmd/session`), containers (`cmd/nspawn`), core dumps (`cmd/coredumpd`), the rules for temporary files (`archive/tmpfiles`), and the daemons that store a setting on request (`archive/hostname`, `archive/locale`, `archive/timedate`) or around a boot (`archive/random-seed`, `archive/rfkill`).
