# netbox capture ingestion, modelled and proved in Dafny

netbox reads packet captures: it merges any number of pcap files, plain or compressed, into one stream of packets
ordered by time. This project models that pipeline from the stream buffers up to the merge, in the imperative form the
library has (classes, fixed arrays, refill loops, a queue of pointers), and proves each class against a specification on
values, about which the properties over whole runs are then proved.

| layer | files | contents |
|---|---|---|
| merge | `Merge`, `MergeRuns`, `SortedMerge`, `MergeOrder`, `SelectionMerge`, `RoundRobin`, `PacketSource` | `PcapPacketSource` as a state machine, its runs, and the class on the heap |
| pcap | `PcapFormat`, `Reader` | header acceptance, record framing, time keys, a writer for the round trip, and `pcap::Reader` |
| streams | `FileStream`, `ReadAhead`, `GZipRefill`, `GZipStream`, `LzmaPump`, `LzmaStream`, `FileReader` | `std::ifstream`, the two decompressing stream buffers, `istream::read`, and `FileReader` |
| contract | `Decoders`, `DecoderRuns`, `SampleDecoder`, `Transparency` | what zlib and liblzma must do, sequences of their calls without any buffers, a run-length codec that does it, and the independence of the merge from compression |
| programs | `Drivers` | the loops of `examples/packet_source.cpp` and `examples/pcap_reader.cpp` |
| buffers | `Buffers` | `StaticBuffer` and `ConsumingBuffer` |

The foreign decompressors are parameters: a `Decoder` is a deterministic step function on an opaque memory image.
`Lawful` is all that is asked for bounds, accounting and termination, on any input bytes. The content theorems ask more
(`DecodesMembers`; `DecodesFiles` and `Recognises`, under which a file may be several streams, as with
`LZMA_CONCATENATED`), and `SampleDecoders.ContractIsMet` and `CapturesAreStored` show that all of it can be had for any
content. `rank` says that a decoder cannot go on for ever without input; liblzma's single permitted call without progress
is the case where the rank falls by one.

## What the proofs show about the code

- `addFile` tests the new reader, but the test never fails: a rejected header and even a missing file leave the reader
  on a default-constructed stream, whose state bits are clear. Such a file occupies a place in the storage and
  contributes no packet.
- With a snap length of zero the buffer's data pointer is null and every packet looks empty, so the file is dropped
  (`FileRoundTrip`, `NothingLostIff`).
- The merge key is a record's true time exactly when `ts_usec * 1000` does not wrap (`KeyIsTrueTimeIff`), and exactly
  then keys compare it by time with every other record that does not wrap (`TimeOrderIff`). Order by key is order by
  (seconds, nanoseconds) against all well-formed stamps exactly for a fraction below one second, or in the last second
  there is (`KeyOrderIff`).
- Equal keys do not come out file by file but in the order in which their packets became the heads of their files
  (`EqualKeysByArrival`), which for ordered files leaves one sequence only (`MergeIsTheStableMerge`): readers take turns,
  always in the same order (`EqualKeysTakeTurns`).
- For any files whatever, the output is what one gets by always delivering, of all files' current packets, the one of
  least key that has been current for longest (`MergeIsSelection`).
- The output is sorted exactly when every file is and no file is added whose first packet is older than the last one
  delivered (`SortedMergeOf`, `SortedRunIff`, `LateFileInput`).
- The done callback fires on every call that finds nothing (`CallbackRepeats`); it fires once under the `isDone` loop.
- Only the first member of a gzip file is delivered, although section 2.2 of RFC 1952 lets a file have several. A file of
  several members is delivered completely exactly when all members but the first are empty (`MembersDelivered`,
  `TwoMembersInput`). Of an xz file all streams are delivered (`StreamsDelivered`).
- Nothing that a decoder hands out is lost, whatever the bytes: both streams deliver the concatenated output of a sequence
  of decoder calls that shows the input in order (`GZipRefill.AllHandedOut`, `LzmaPump.AllHandedOut`). A cut gzip file thus
  lacks only what its missing bytes decode to (`CutMemberDelivered`, `CutMemberInput`).
- Reading an xz file ends cleanly exactly when the file is well-formed (`CleanEndIff`), and a cut file exactly when what is
  left of it is a file again, as between two streams (`CutFileDelivered`). Otherwise reading ends in an exception, which
  `istream::read` turns into `badbit`, and end of file is never reported. The loop of `pcap_reader.cpp` therefore hangs
  exactly on xz files that are not well-formed but from which an acceptable header can be read (`ReadCapture`,
  `HangingInput`); with the header lost, the reader stands on an empty default stream, and the loop ends.
- The `memcpy` in the gzip `underflow` copies between overlapping ranges, which is undefined behaviour, in the calls that
  report the end of a stream of more than 4092 decoded bytes whose last refill brought one, two or three of them, and in
  no others (`EmptyAreaOverlaps`, `ReadPastEnd`). A member that decodes to 4093 bytes is such an input (`OverlapInput`).
- A `ConsumingBuffer` opened on a `StaticBuffer`'s own memory still shows the buffer's contents after any consumes, for
  every memory, exactly when nothing was consumed or everything the first move wrote has been consumed as well
  (`SharedViewIntactIff`).

## Model

| member | source | states |
|---|---|---|
| PacketSources.PcapPacketSource.AddFile | netbox/PcapPacketSource.h:82-91 | Adding any file moves the source as the merge machine does, gives the file a place in the storage, and leaves queued packets and the one handed out last showing their records |
| PacketSources.PcapPacketSource.ReadNextPacket | netbox/PcapPacketSource.h:93-115 | Hands out the machine's next head as a pointer into its own reader's buffer, where the record's bytes are until the next call, or the empty packet and one callback |
| PacketSources.PcapPacketSource.ReturnToQueue | netbox/PcapPacketSource.h:123-131 | Queues the reader's next packet behind all keys that are not greater, or drops the reader for good at its first empty packet; no other reader's packets are touched |
| PacketSources.PcapPacketSource.FindUpperBound | netbox/PcapPacketSource.h:127-129 | The place where the multimap puts an equal key: behind the whole range |
| PacketSources.PcapPacketSource.WholeRun | netbox/PcapPacketSource.h:77-131 | Whatever calls came before, each file's deliveries are a prefix of its packets in order, and all of them once the source is done |
| Merge.UpperBound | netbox/PcapPacketSource.h:127-129 | No key before the place is greater, the key at the place is |
| Merge.RefillQueue | netbox/PcapPacketSource.h:123-131 | A refill keeps the queue sorted with each reader at most once, loses no head, and queues every reader that has a packet |
| Merge.ReadNextValid | netbox/PcapPacketSource.h:93-115 | Reading keeps the invariant: sorted queue, one place per reader, only finished readers stand nowhere |
| Merge.AddFileValid | netbox/PcapPacketSource.h:82-91 | Adding a file keeps the same invariant |
| Merge.PopIsMinimum | netbox/PcapPacketSource.h:112-114 | The packet handed out has a key not greater than any head left in the queue |
| Merge.InsertOfKey | netbox/PcapPacketSource.h:127-129 | An inserted head goes last among the heads of its key |
| MergeRuns.EveryRunAccounted | netbox/PcapPacketSource.h:77-131 | In every run, deliveries, queued heads and unread tails of each reader make up its file, and each key's heads leave in the order they came |
| MergeRuns.Interleaving | netbox/PcapPacketSource.h:77-131 | For any interleaving of the two calls: prefixes in order, nothing foreign, everything when done, and done exactly when everything was delivered and noticed |
| MergeRuns.TieFairness | netbox/PcapPacketSource.h:127-129 | Among equal keys no queued head is overtaken by one queued later |
| SortedMerge.SortedBetweenAdds | netbox/PcapPacketSource.h:93-131 | If every file is ordered, whatever is read until the next addFile is ordered |
| SortedMerge.SortedMergeOf | netbox/PcapPacketSource.h:77-131 | All files first: the output is each file's packets in file order, nothing else, and sorted exactly when all files are |
| MergeOrder.EqualKeysByArrival | netbox/PcapPacketSource.h:96-131 | For any files, packets of one key leave in the order: the files' first packets in addFile order, then delivery by delivery the next packet of the same file |
| MergeOrder.MergeIsTheStableMerge | netbox/PcapPacketSource.h:77-131 | A sequence is sorted, holds each file in order and nothing else, and has equal keys by arrival exactly if all files are ordered and it is what the merge delivers |
| SelectionMerge.MergeIsSelection | netbox/PcapPacketSource.h:77-131 | For any files, the sorted multimap delivers what a search of the files' current packets for the longest-waiting one of least key delivers |
| MergeOrder.SortedRunIff | netbox/PcapPacketSource.h:77-131 | A run that ends done has delivered a sorted sequence exactly when every file is ordered and none came with a first packet older than the last one delivered |
| MergeOrder.LateFileInput | netbox/PcapPacketSource.h:82-115 | A run over two ordered files, one of them late, with unsorted output |
| RoundRobin.EqualKeysTakeTurns | netbox/PcapPacketSource.h:96-131 | Ordered files deliver equal keys in rounds: no reader's next packet of a key comes before another reader's earlier turn, and each round keeps the order of the round before |
| SortedMerge.ReadNextPending | netbox/PcapPacketSource.h:93-115 | A call takes exactly one pending packet, or finds none and leaves the source done |
| SortedMerge.DriverCost | netbox/PcapPacketSource.h:77-115 | The isDone loop makes one call per pending packet and one more, and fires the callback once, from any reachable state |
| SortedMerge.CallbackRepeats | netbox/PcapPacketSource.h:100-110 | On a finished source every call comes back empty-handed again and changes nothing |
| Drivers.CountPackets | examples/packet_source.cpp:16-28 | The program counts every packet of every file, delivers them as the sorted merge orders them, and needs one extra call unless there is none |
| Drivers.ReadUntilEof | examples/pcap_reader.cpp:89-93 | Stopped after any number of calls, the loop has been shown a start of the packets of a lenient reading, and all of them after more calls than 16-byte blocks; by then it has ended, or never will |
| Drivers.ReadCapture | examples/pcap_reader.cpp:79-93 | On any file the program is shown exactly the packets of the lenient reading, in order, and ends unless the file is an ill-formed xz file with an acceptable header, on which it never ends |
| Drivers.NeverEofIff | netbox/utils/FileReader.h:101-110 | A reader never reports end of file exactly on those files |
| Drivers.NoEofAfterException | examples/pcap_reader.cpp:89-93 | A stream that ends in an exception reports end of file in no state it can reach |
| SampleDecoders.HangingInput | examples/pcap_reader.cpp:89-93 | Any supported capture, compressed and cut by one byte, hangs the program; cut inside its file header, it does not |
| Drivers.StrictIsPrefix | netbox/pcap/Reader.h:84-87 | What the merge takes from a file is a start of what a caller finds that goes on after an oversized record |
| Drivers.FileStrictIsPrefix | examples/pcap_reader.cpp:89-93 | What a merge takes from a file is a start of what the program finds in it |
| Drivers.LenientResumes | netbox/pcap/Reader.h:84-87 | On any bytes the program finds what a merge takes, and if that stopped at an oversized record, what is found behind that record's header |
| Drivers.LenientBody | examples/pcap_reader.cpp:89-93 | Of any file with a supported header the program finds what is found behind the header |
| Drivers.LenientRoundTrip | examples/pcap_reader.cpp:89-93 | Of a written file whose records fit, the program finds every record with its stamp, in order |
| Drivers.LenientOversize | netbox/pcap/Reader.h:84-87 | Of a written oversized record only the header is skipped: the program goes on in its data |
| PcapFormat.FileRoundTrip | netbox/pcap/Reader.h:63-138 | A written file reads back as its records up to the first that does not fit, or as nothing if its header is not supported or its snap length is zero |
| PcapFormat.NothingLostIff | netbox/pcap/Reader.h:63-138 | Nothing is lost exactly when header, snap length and record sizes allow it |
| PcapFormat.HeaderRoundTrip | netbox/pcap/Reader.h:98-138 | Exactly the supported headers are accepted, with the scale of their magic and the snap length as buffer size |
| PcapFormat.HeaderBytes | netbox/pcap/Reader.h:98-138 | Which 24 bytes are accepted, byte by byte: the two magics and their scales, a snap length up to 65535, link type 1 |
| PcapFormat.RecordRoundTrip | netbox/pcap/Reader.h:63-95 | A written record reads back field by field, with what follows it left unread, or is reported as oversized |
| PcapFormat.RecordBytes | netbox/pcap/Reader.h:63-95 | On any bytes: when a header is cut, a record oversized, or a packet found, which bytes are its fields, and how the fraction wraps |
| PcapFormat.FractionRoundTrip | netbox/pcap/Reader.h:75-82 | A written fraction reads back unchanged, or times 1000 modulo 2^32 |
| PcapFormat.Framing | netbox/pcap/Reader.h:63-95 | Packet k of any bytes lies 16 + caplen bytes per earlier packet further on, and no packet follows the last one |
| PcapFormat.FileFraming | netbox/pcap/Reader.h:63-138 | Packet k of any file with a supported header lies 24 bytes and 16 + caplen per earlier packet into the file |
| PcapFormat.Truncation | netbox/pcap/Reader.h:68-92 | Cutting any bytes anywhere leaves a prefix of the packets |
| PcapFormat.KeyOrder | netbox/PcapPacketSource.h:18-21 | For in-range fractions keys order as (seconds, nanoseconds) do, injectively |
| PcapFormat.KeyNeverOverflows | netbox/PcapPacketSource.h:18-21 | The 64-bit key never wraps |
| PcapFormat.KeyOrderIff | netbox/PcapPacketSource.h:18-21 | A record compares by key with all well-formed ones as its stamp does exactly when its fraction is in range or its second is the last one |
| PcapFormat.KeyOrderNeedsRange | netbox/PcapPacketSource.h:18-21 | Two stamps of different seconds with one key, when a fraction is out of range |
| PcapFormat.KeyIsTrueTimeIff | netbox/pcap/Reader.h:75-82 | The key is the record's true time exactly when scaling to nanoseconds does not wrap |
| PcapFormat.MixedFilesCompareByTime | netbox/pcap/Reader.h:75-82 | Records of microsecond and nanosecond files compare by key as by time if scaling does not wrap |
| PcapFormat.TimeOrderIff | netbox/pcap/Reader.h:75-82 | A record compares by time with all records that scale exactly if and only if it scales exactly itself |
| Readers.Reader.constructor | netbox/pcap/Reader.h:38-42 | Any file leaves a usable reader whose upcoming packets are the file's; a rejected one reads from an empty stream in good state |
| Readers.Reader.ReadFileHeader | netbox/pcap/Reader.h:98-137 | The first 24 bytes decide, and an accepted header leaves the stream right behind them |
| Readers.Reader.ReadNext | netbox/pcap/Reader.h:63-95 | One call does to the remaining bytes what the format says, in all four outcomes, and puts the data into the buffer's front |
| Readers.Reader.ReadPacket | netbox/pcap/Reader.h:63-95 | Seen from a caller that stops at the first empty packet: the next upcoming record, shown in the buffer, or none left |
| FileReaders.FileReader.Open | netbox/utils/FileReader.h:65-89 | The stream chosen by the file's kind delivers its content |
| FileReaders.FileReader.Default | netbox/utils/FileReader.h:56-60 | No bytes, yet good and usable |
| FileReaders.FileReader.Read | netbox/utils/FileReader.h:116-120 | The next n bytes of the content if there are as many, otherwise a short count and a stream that is neither good nor true as a condition |
| FileReaders.FileReader.AtTheEnd | netbox/utils/FileReader.h:101-110 | A stream that is not good has nothing left, and reports end of file unless its content ends in an exception |
| FileReaders.DecodedStream.CopyOut | netbox/utils/FileReader.h:116-120 | Copying from the get area and calling underflow in turn yields the buffer's bytes in order, whatever the refills |
| FileReaders.DecodedStream.Read | netbox/utils/FileReader.h:116-120 | A read counts all it could get, an exception counts nothing and sets badbit, a short read sets eofbit |
| GZipStreams.GZipStreamBuffer.Underflow | netbox/utils/GZipDecompressStream.h:55-75 | Shows the next byte or the end without losing any; a refill that succeeds started from a full or untouched get area, without overlap, and keeps min(4, taken) bytes for putback |
| GZipStreams.GZipStreamBuffer.EmptyAreaOverlaps | netbox/utils/GZipDecompressStream.h:61-65 | On an empty get area the memcpy overlaps exactly when more than 4092 bytes were taken and the last refill had one to three |
| GZipStreams.ReadPastEnd | netbox/utils/GZipDecompressStream.h:55-75 | Reading any stream past its end yields its decoded bytes, and a memcpy has overlapped exactly when their number says so |
| SampleDecoders.OverlapInput | netbox/utils/GZipDecompressStream.h:61-72 | A concrete family of files whose end makes the memcpy overlap |
| GZipStreams.GZipStreamBuffer.LoopInto | netbox/utils/GZipDecompressStream.h:86-99 | The do/while loop ends, for any lawful decoder and any bytes, and does what its specification says |
| GZipStreams.GZipStreamBuffer.UnzipFromStream | netbox/utils/GZipDecompressStream.h:86-112 | One refill: the loop, then the rewind of unused input after the end of a member |
| ReadAheads.ReadAhead.Fill | netbox/utils/GZipDecompressStream.h:78-84 | Reads the next block; what was read stays accounted as consumed or waiting |
| ReadAheads.ReadAhead.GiveBack | netbox/utils/GZipDecompressStream.h:103-109 | The unconsumed input is unread input again |
| GZipRefill.MemberDelivered | netbox/utils/GZipDecompressStream.h:55-112 | A gzip member delivers exactly its decoded bytes, however the decoder splits its work and whatever follows |
| GZipRefill.MembersDelivered | netbox/utils/GZipDecompressStream.h:86-112 | Of several members the first is delivered, which is everything exactly when the others are empty |
| SampleDecoders.TwoMembersInput | netbox/utils/GZipDecompressStream.h:86-112 | Two members of which only the first is delivered |
| GZipRefill.AllHandedOut | netbox/utils/GZipDecompressStream.h:86-112 | For any bytes, what is delivered is all that inflate hands out over a sequence of calls that shows it the bytes in order until it stops or they are used up |
| GZipRefill.CutMemberDelivered | netbox/utils/GZipDecompressStream.h:86-112 | A cut member gives a prefix of its decoded bytes, lacking only what the decoder's state makes of the missing bytes |
| SampleDecoders.CutMemberInput | netbox/utils/GZipDecompressStream.h:99-111 | A text cut inside a pair delivers everything before that pair |
| GZipRefill.RewindOnlyAtEnd | netbox/utils/GZipDecompressStream.h:103-109 | Unless a member has ended, a refill gives no input back |
| GZipRefill.FullRefills | netbox/utils/GZipDecompressStream.h:67-72 | On any bytes every refill has at most 4092 bytes, and all but the last have exactly that |
| GZipRefill.MemberConsumed | netbox/utils/GZipDecompressStream.h:103-109 | From the refill that ends the member on, for ever, the unread input is exactly what follows the member, and that refill comes within one more than the full ones |
| LzmaStreams.LzmaStreamBuffer.Underflow | netbox/utils/LZMADecompressStream.h:83-139 | Always returns: the next byte, the end, or an exception, without losing any byte; the end is sticky and the calls keep liblzma's protocol |
| LzmaStreams.LzmaStreamBuffer.PumpOut | netbox/utils/LZMADecompressStream.h:93-131 | The loop ends and does what its specification says |
| LzmaStreams.CallGoesOn | netbox/utils/LZMADecompressStream.h:94-127 | The calls form RUN* FINISH*: input left over is presented again, none is added after the first FINISH, RUN never comes without input |
| LzmaPump.FileDelivered | netbox/utils/LZMADecompressStream.h:83-139 | A well-formed xz file, of one stream or several, delivers exactly its decoded bytes and then a clean end |
| LzmaPump.CleanEndIff | netbox/utils/LZMADecompressStream.h:83-139 | Any bytes end cleanly exactly if they are a well-formed xz file, and what was delivered is what it decodes to |
| LzmaPump.AllHandedOut | netbox/utils/LZMADecompressStream.h:83-139 | For any bytes, what is delivered is all that lzma_code hands out over a sequence of calls that shows it the bytes in order, finishes only at their end, and goes on until it ends or fails; an exception is a failure |
| LzmaPump.StreamsDelivered | netbox/utils/LZMADecompressStream.h:26 | Two streams in one file deliver the bytes of both; cut between them, the file ends cleanly after the first |
| LzmaPump.CutFileDelivered | netbox/utils/LZMADecompressStream.h:115-119 | A file cut anywhere delivers a start of its bytes and throws exactly if what is left of it is not a file |
| Transparency.MergeIgnoresCompression | netbox/utils/FileReader.h:65-89 | Merging compressed captures delivers exactly what merging the plain ones delivers, where a gzip file counts as its first member and an xz file as all its streams |
| Transparency.CutCaptures | netbox/utils/FileReader.h:65-89 | A compressed capture cut anywhere contributes a prefix of its packets, those in all that the decoder hands out of what is there; an xz one ends in an exception exactly if what is left of it is not a file |
| Buffers.StaticBuffer.Prepare | netbox/StaticBuffer.h:66-72 | Fails exactly when the free space is too small |
| Buffers.StaticBuffer.Commit | netbox/StaticBuffer.h:75-78 | The prepared bytes join the contents at the end; committed bytes stay consumed bytes plus contents |
| Buffers.StaticBuffer.Consume | netbox/StaticBuffer.h:82-92 | The first n bytes leave and the rest moves to the front; the whole memory afterwards is stated |
| Buffers.ConsumingBuffer.Consume | netbox/ConsumingBuffer.h:48-52 | The view loses its first n bytes |
| Buffers.ConsumeBoth | netbox/ConsumingBuffer.h:48-52 | After any sequence of consumes the buffer and the view show the same contents, if the view has its own memory or, opened on the buffer's, is not reached by the moves; the whole memory is stated |
| Buffers.SharedViewIntactIff | netbox/StaticBuffer.h:82-92 | For any capacity, size and sequence of consumes, a view on the buffer's own memory shows its contents for every memory exactly under that condition |

## Left out

- The insides of zlib and liblzma: only their contract is modelled, and failure to construct a decoder is not.
- Builds without gzip or xz support, in which opening such a file throws.
- What corrupt compressed data decodes to is the decoder's own affair: bounds, accounting, termination, refill sizes and, for xz, how reading ends are proved for it.
- The loop of `pcap_reader.cpp` is stopped after a number of calls that the caller chooses, so that what it does without end can be stated; all results hold for every such number.
- Disk errors, big-endian hosts and threads: the host is little-endian and a stream ends only at its last byte.
- File-name suffixes: a `DiskFile` says how its file is read.
- Where the C++ standard leaves room, the model follows common library practice: an empty vector's `data()` is null, and a `read` interrupted by an exception counts nothing.
- What an overlapping `memcpy` leaves in the array: nothing is promised about it, nor about the putback zone after a failed refill.
- A done callback that calls back into the source: the callback is a counter.
- Move and swap mechanics of `FileReader`: `file_ = {}` is a fresh default stream.
- `thiszone`, versions and significant figures of the file header, which the reader does not use.
- Sockets, socket options, name resolution, protocol headers, address types and the ring-buffer example: accessors and system calls without state worth a proof.
