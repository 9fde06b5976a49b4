# P4-QUIC: a verified model of the length-aware QUIC classifier

The system classifies QUIC packets by Destination Connection ID (DCID) in a switch pipeline.
A 1-RTT packet does not carry the length of its DCID, so the switch learns the length from
Handshake packets, masks the speculative 20-byte extract to that length, hashes it to one of
2^17 buckets, and counts. An offline tool replays the same classification on a packet capture,
in parallel shards. This project models both, proves what each computes, and proves that they
agree.

The CRC-16 and CRC-32 functions are parameters (`Wire.Hashes`): every theorem holds for all
total functions in their place. Wire bytes are 8-bit vectors, so the bit tests and the 32-bit
mask operations are the ones of the source; counts are numbers whose 32- and 64-bit
wrap-around is written out (`Runs.Low32`, `Runs.Low64`).

## Layout

| file | content |
|---|---|
| `Wire.dfy`, `Bits.dfy`, `Hex.dfy`, `Tables.dfy`, `Sums.dfy` | bytes, hash inputs and padding; counter indices of different widths; hexadecimal; dictionaries with defaults; sums |
| `Mask.dfy` | the mask table and its five 32-bit ANDs |
| `IngressParser.dfy` | the parser state machine against a parse by absolute offsets |
| `Runs.dfy` | the meaning of a run: effective length, connection ID, bucket and totals, from the packet history alone |
| `Switch.dfy` | class `Ingress` with its arrays, kept equal to what the history determines |
| `History.dfy`, `Ordering.dfy` | theorems about the length register, arms and packet order |
| `Accounting.dfy` | theorems about the counting arrays, digests and occupancy |
| `Capture.dfy` | pcap and pcapng walks, frame parser, splitter |
| `CaptureWriter.dfy`, `FrameWriter.dfy` | captures and frames as a writer lays them out, and what the parsers find in them |
| `Offline.dfy` | learn phase, bucket phase, sharding and merging |
| `Accuracy.dfy` | the precision report |
| `Agreement.dfy`, `Parsers.dfy`, `Replay.dfy` | batch refines online: per packet and per run, per frame, and from a capture file |
| `Dump.dfy`, `CrossCheck.dfy` | register dump and loader; the comparison of switch and capture from end to end |
| `ControlPlane.dfy`, `LiveMonitor.dfy` | digest consumer and poll loop |
| `Generator.dfy` | the connection-ID generator as interleaved atomic steps |
| `ByteLog.dfy` | the client log folded into counter indices |
| `Witnesses.dfy` | concrete frames on which promises of the system fail, and a capture that meets the conditions of the comparison |

## Findings

Where the source promises more than its code does, the code is modelled as it is, and the exact
condition is proved.

- The offline tool says that it mirrors the switch exactly (`pcap_buckets.py:15-17`). Packet by
  packet the two hash the same bytes if and only if the DCID bytes between their two lengths are
  zero (`Agreement.PacketAgreesExactly`); a length over 20 counts as 0 on the switch and as 20
  offline. Over a capture whose frames both parsers read alike, this at every packet is exactly
  what makes the buckets equal under every CRC-32 (`Replay.CaptureAgreesExactly`). For every
  readable capture, the counts of all buckets are equal under every CRC-32 if and only if the two
  sides hash the same inputs equally often (`Replay.CaptureCountsExactly`). A Short that overtakes its Handshake
  is the simplest case that breaks it (`Witnesses.MirrorBreaks`). `Replay.BatchRefinesOnline`
  names conditions on a capture that guarantee it throughout.
- The switch parser skips VLAN tags, IP version and header length unchecked; the offline parser
  honours them. On all frames with given header fields the two read the same, if and only if the
  frame is untagged and, for UDP over IPv4, the version byte is 0x45 (`Parsers.GuardExactly`). A
  tag hides every packet from the switch and none from the offline tool (`Parsers.TagHidesPacket`);
  so do IP options, unless the options themselves hold port 443 (`Parsers.OptionsHidePacket`).
- The driver says that results depend only on the set of DCIDs (`run_overload.sh:10-13`). That
  holds of settled runs (`History.TimingFree`). For every run, all orders of its packets leave the
  same totals under every CRC-32 if and only if, for each Short under the length-aware arm and each
  Handshake with its flow key, the DCID bytes of the Short within the length of the Handshake are
  zero (`Ordering.OrderFreeExactly`). `History.SwapMatters` is the condition for one swap;
  `Witnesses.OrderVisible` gives two frames whose order shows.
- After a clear, nonzero entries are meant to be exactly the buckets with traffic
  (`bfrt_python/reset_counts.py:9-12`). An entry is nonzero if and only if its bucket's packets
  are not a multiple of 2^32 (`Accounting.OneDigestPerBucket`); 2^32 equal packets leave a zero
  (`Accounting.WrapsToZero`).
- The report presents a split as the sign of a learning bug (`pcap_buckets.py:33-35`). The tool
  can never report one: a bucket is a function of the connection ID it is filed under
  (`Accuracy.NoSplits`).
- The generator is meant to keep a connection in one bucket. Two overlapping first calls break
  this (`Generator.RaceSplitsBuckets`). A schedule of calls keeps to one bucket, whatever IDs are
  drawn and whatever the CRC, if and only if at most one call found no target and recorded its
  own, or IDs have length 0 (`Generator.ScheduleExactly`).
- The digest of a Short header carries length 20, so the monitor recomputes the switch's hash
  input if and only if the DCID bytes beyond the recalled length are zero
  (`ControlPlane.DigestAgreesExactly`, with `Witnesses.ShortDigestMisread`).
- The monitor labels a 10-bit index (`bfrt_python/quic_monitor.py:61`), the switch counts in a
  15-bit slot (`p4src/ingress.p4:219`). Two things can send a label astray. The index of the bucket
  that the monitor recomputed is the slot of that bucket if and only if the slot is within the
  width, for the script below 0x400 (`LiveMonitor.LabelledSlot`; `Witnesses.LabelMissesSlot` gives
  a frame of slot 0x400 whose label goes to slot 0). And for every packet, arm and history, slots
  within the width are labelled under every CRC-32 if and only if the DCID bytes between effective
  length and digest length are zero (`LiveMonitor.LabelIsCountedSlot`; `Witnesses.ShortLabelAstray`
  gives a Short of slot 1 whose label goes to slot 0). Slots beyond the width are never labelled
  and stay pending (`LiveMonitor.Monitor.Poll`), and a Long header of length 0 labels nothing
  (`LiveMonitor.ZeroLengthUnlabelled`). The monitor, the byte analysis and the counter fold
  (`Accounting.FoldAnyWidth`) take the width as a parameter.
- The comment at `p4src/ingress.p4:50` speaks of server-to-client packets; the register counts
  both directions, as modelled.

## Model

| member | source | states |
|---|---|---|
| Wire.PaddingCollision | pcap_buckets.py:71-73 | two legal connection IDs share a hash input iff one is the other extended by zero bytes |
| Wire.BucketIsLow17 | pcap_buckets.py:71-73 | a bucket is the low 17 bits of the CRC-32: each of the 2^17 values is kept as it is, and what lies above is dropped |
| Wire.KeyIsLow16 | p4src/ingress.p4:172-176 | a flow key is the low 16 bits of the CRC-16 of the 4-tuple |
| Mask.MaskingIsPadding | p4src/ingress.p4:108-144 | for every length and every 20-byte DCID the five slice ANDs give the first bytes followed by zeros; lengths over 20 mask to zero |
| Mask.LengthsAgree | p4src/ingress.p4:95-107 | two lengths give the same masked DCID iff the bytes they disagree about are all zero |
| IngressParser.Parse | p4src/ingress_parser.p4:12-84 | the state machine with its cursor finds the 4-tuple and the header at the absolute offsets of the wire format, or rejects or ignores the frame |
| IngressParser.FirstByteRestored | p4src/ingress.p4:150-167 | splitting the first byte into bit fields and concatenating them restores it; the Handshake test on fields is the offline test on the byte |
| IngressParser.EmitRestores | p4src/ingress_deparser.p4:15-28 | emitting the extracted header restores the bytes on the wire |
| Runs.HitsAreOccurrences | p4src/ingress.p4:215-221 | the unbounded total of a register entry is the number of packets classified into its bucket |
| Runs.StoreWraps | p4src/ingress.p4:48-57 | entries of the register wrap at 2^32, entries of the counters at 2^64 |
| Switch.Ingress.constructor | p4src/ingress.p4:48-62 | all arrays start at zero, for the empty history |
| Switch.Ingress.Process | p4src/ingress.p4:146-228 | one frame extends the history by what the parser saw; all arrays stay what the history determines; a digest is raised iff the 32-bit entry goes to 1 |
| Switch.Ingress.EffectiveLength | p4src/ingress.p4:196-206 | learn, recall and override yield the effective length of the history, and the length register stays the latest-Handshake table |
| Switch.Ingress.FlowId | p4src/ingress.p4:208-215 | masking and hashing yield the bucket of the leading bytes of the DCID |
| Switch.Ingress.CountQuic | p4src/ingress.p4:51-57 | the wrapping increment keeps every entry the total modulo 2^32 and returns the new value |
| Switch.Ingress.CountFlow | p4src/ingress.p4:48-48 | packet and byte counters of the low 15 bits of the bucket stay the totals modulo 2^64 |
| Switch.Ingress.SetForceLen | p4src/ingress.p4:79-93 | changing the arm changes no array |
| Switch.Ingress.Clear | bfrt_python/reset_counts.py:17-23 | clearing gives the state of the empty history and keeps the arm |
| Switch.DigestFields | p4src/ingress_deparser.p4:15-26 | the fields of a digest are the addresses, ports, first byte, length, version and DCID bytes of the frame; a Short has length 20 and no version |
| History.LearnedIsLatest | p4src/ingress.p4:62-77 | the length register holds the length of the latest Handshake with that flow key, or 0 if there was none |
| History.OnlyHandshakesTeach | p4src/ingress.p4:183-201 | what is learned depends on the Handshakes of the run alone |
| History.InertPackets | p4src/ingress.p4:183-201 | inserting or deleting packets other than Handshakes anywhere changes the length and the bucket of no other packet |
| History.ArmLeavesNoTrace | p4src/ingress.p4:196-206 | the schedule of arms has no influence on what is learned |
| History.ArmsRejoin | p4src/ingress.p4:203-215 | after any two schedules, a packet under the same arm gets the same bucket |
| History.ArmsAgree | plots/system_description.txt:141-144 | the length-aware and the naive arm hash the same bytes of a packet iff the DCID bytes past its length are zero |
| History.ForcedArm | p4src/ingress.p4:203-206 | a forced arm of 1 to 20 takes that many DCID bytes of every packet, whatever was learned |
| History.ArmsCoincide | plots/system_description.txt:141-144 | the two arms coincide on every run whose lengths are 20 and whose Shorts follow a Handshake |
| History.Settled | run_overload.sh:10-13 | in a settled run every packet is classified as if the final register contents had been there from the start |
| History.SettledExactly | run_overload.sh:10-13 | for every run, a packet is so classified under every CRC-32 iff the DCID bytes between the length recalled at the time and the final one are zero |
| History.TimingFree | run_overload.sh:10-13 | two settled orderings of the same packets end with the same totals everywhere and the same learned lengths |
| History.SwapMatters | run_overload.sh:10-13 | swapping a Short with its teaching Handshake leaves all totals alone under every CRC-32 iff the DCID bytes of the Short between the length known before and the length taught are zero |
| Ordering.OrderFreeExactly | run_overload.sh:10-13 | for every run, all orders of its packets leave the same totals in every array under every CRC-32 iff the DCID bytes of each Short within the length of each Handshake of its flow key are zero |
| Accounting.Conservation | p4src/ingress.p4:215-221 | the totals of each array add up to all packets or bytes processed |
| Accounting.StoredExactly | p4src/ingress.p4:48-57 | an array adds up to everything processed modulo its entry width, and exactly so iff no entry has wrapped, iff it is its totals |
| Accounting.SwitchSums | p4src/ingress.p4:48-57 | in every reachable state the three arrays add up to the number and the summed sizes of the packets of the history, modulo 2^32 and 2^64 |
| Accounting.VolumeIsBytes | p4src/ingress.p4:48-48 | what the byte counter receives is the sum of the packet sizes |
| Accounting.SlotMeans | p4src/ingress.p4:219-219 | a slot of the counter holds the number and the bytes of the packets whose bucket has its index as the low 15 bits |
| Accounting.CounterFold | p4src/ingress.p4:219-221 | the packets of a 15-bit counter slot are those of the four register entries that share its low bits |
| Accounting.FoldAnyWidth | p4src/ingress.p4:219-221 | the same for a counter of any width up to 17 bits |
| Accounting.CounterMatchesRegister | p4src/ingress.p4:42-57 | in every reachable state a counter slot equals the sum of its four register entries modulo 2^32 |
| Accounting.DigestCount | p4src/ingress.p4:221-224 | a bucket that received n packets raised exactly ceil(n / 2^32) digests |
| Accounting.DigestStep | p4src/ingress.p4:221-224 | that count grows exactly with the digests that the switch raises |
| Accounting.OneDigestPerBucket | bfrt_python/reset_counts.py:9-12 | in every reachable state an entry is nonzero iff its bucket's packets are not a multiple of 2^32, and it raised exactly one digest iff it received 1 to 2^32 packets; below 2^32 the entry is the count |
| Accounting.WrapsToZero | bfrt_python/reset_counts.py:9-12 | 2^32 copies of one Long packet leave a zero entry for a bucket with traffic |
| Accounting.OccupancyBound | p4src/ingress.p4:95-100 | occupied entries never exceed the distinct masked connection IDs |
| Accounting.RegisterOccupancy | plots/system_description.txt:115-118 | the same bound for the nonzero entries of the register itself |
| Accounting.TailsIrrelevant | p4src/ingress.p4:96-107 | runs that differ only beyond the effective length of each DCID have equal totals everywhere |
| Accounting.OrderDoesNotMatter | run_overload.sh:10-13 | two switches with the same packets in different settled orders hold the same arrays |
| Accounting.ArmsCountAlike | p4src/ingress.p4:79-93 | two switches with the same packets under different arms hold the same length register and the same sums |
| Capture.ParseFrame | pcap_buckets.py:115-138 | the VLAN loop and the branches for each link type find the datagram that the recursive description of the frame finds |
| FrameWriter.FrameFound | pcap_buckets.py:91-138 | an Ethernet frame written around a datagram yields its 4-tuple and the first 32 payload bytes iff it is on port 443 |
| FrameWriter.TaggedFrameFound | pcap_buckets.py:115-130 | the same behind any number of VLAN tags |
| FrameWriter.FrameParsed | p4src/ingress_parser.p4:12-84 | from a written frame the switch parser extracts the 4-tuple and the QUIC header at the start of the payload, or rejects a payload too short for it |
| Parsers.OtherLinkTypes | pcap_buckets.py:131-138 | a frame with its Ethernet header replaced by a cooked one, or removed from IPv4, yields the same row; other link types yield none |
| Capture.IterRange | pcap_buckets.py:206-252 | the walk yields exactly the rows of the records that start in the range, or fails iff it meets a block cut off by the end of the file |
| Capture.FaultExactly | pcap_buckets.py:236-238 | the reader fails exactly at a packet block less than 24 bytes before the end of the file |
| CaptureWriter.PcapRoundTrip | pcap_buckets.py:182-226 | for all frames, original lengths, time stamps and byte orders, the format of a written pcap file is recognized and the walk meets exactly the written frames at their offsets |
| CaptureWriter.CutRecord | pcap_buckets.py:219-223 | a record cut off anywhere ends the walk |
| CaptureWriter.PcapNgRoundTrip | pcap_buckets.py:158-250 | the same for a written pcapng file: byte order, interfaces, and every frame under the link type of its interface |
| Capture.VisitsSplit | pcap_buckets.py:206-252 | cutting a walk at a record boundary loses and repeats nothing |
| Capture.Detect | pcap_buckets.py:151-202 | format and interfaces are recognized; the splits are increasing record boundaries from first record to end of file, at most one range a job, each the first boundary past its threshold |
| Capture.RecognizedExactly | pcap_buckets.py:158-187 | which files are recognized, by their first bytes, and which are refused |
| Capture.ThresholdsDivide | pcap_buckets.py:164-190 | the thresholds divide the records into equal parts, from the first record to the end of the file |
| Capture.ShardsTile | pcap_buckets.py:217-250 | the ranges between consecutive splits, walked one after another, are one walk of the whole file |
| Offline.LearnPhase | pcap_buckets.py:278-286 | the loop computes the map of learned lengths |
| Offline.LearnedIsLast | pcap_buckets.py:278-286 | a 4-tuple is in that map iff it has a Handshake, with the length of its last one |
| Offline.LearnConcat | pcap_buckets.py:336-345 | merging shard maps in file order gives the map of the whole |
| Offline.Fold | pcap_buckets.py:263-272 | folding one DCID turns the tables of some datagrams into those of one more |
| Offline.BucketPhase | pcap_buckets.py:288-307 | the five tables and the skip count are those of the classified rows |
| Offline.EntryMeans | pcap_buckets.py:288-307 | which rows are skipped, which payload bytes are the connection ID, and which kind goes with which packet type or learned length |
| Offline.HandshakeTeaches | pcap_buckets.py:278-303 | a row teaches a length iff it is classified as a Handshake |
| Offline.SummaryConcat | pcap_buckets.py:347-356 | merging the tables of two shards gives the tables of their concatenation |
| Offline.Analyze | pcap_buckets.py:328-356 | for every capture and every job count the sharded run computes what one serial walk computes |
| Accuracy.NoSplits | pcap_buckets.py:360-360 | no connection ID is ever in two buckets |
| Accuracy.BucketsPartitionCids | pcap_buckets.py:359-361 | an ID is in the set of a bucket iff that bucket is all it was filed under; the sizes add up to the number of IDs, and no set is empty |
| Accuracy.PartitionMeans | pcap_buckets.py:359-361 | hence the sets of different buckets are disjoint and together hold every connection ID |
| Accuracy.SummaryIsSound | pcap_buckets.py:347-363 | splits are impossible, buckets partition the IDs element by element, at most 2^17 are occupied, and no packet is lost |
| Accuracy.Report | pcap_buckets.py:358-370 | separated equals the occupied buckets; accuracy times IDs is 100 times buckets, is 100 iff there is no collision, and is bounded by the register size |
| Accuracy.Evaluate | pcap_buckets.py:317-370 | the whole tool, for every capture and job count |
| Agreement.PacketAgreesExactly | pcap_buckets.py:14-24 | switch and offline tool hash the same bytes of a packet iff the DCID bytes between their lengths are zero |
| Agreement.RunAgreesExactly | pcap_buckets.py:14-24 | for every run and the rows paired with it, whatever its lengths, arms and order, the two sides assign the same buckets under every CRC-32 iff at each packet the DCID bytes between their lengths are zero |
| Agreement.CountsAgreeExactly | pcap_buckets.py:411-424 | for all rows and runs, the counts of all buckets agree under every CRC-32 iff both sides hash the same inputs equally often |
| Agreement.EarlyShort | pcap_buckets.py:304-306 | a Short before its own Handshake meets that condition iff its DCID bytes up to the length learned later are zero |
| Agreement.LearnMapTaught | pcap_buckets.py:278-286 | exactly the 4-tuples with a Handshake are learned, with a length that one of theirs carried |
| Agreement.RecallIsLookup | pcap_buckets.py:304-306 | under the conditions the register recalls, at every Short, what the complete offline map says |
| Agreement.SameBuckets | pcap_buckets.py:288-307 | both sides assign the same sequence of buckets |
| Agreement.RunsAgree | pcap_buckets.py:278-307 | the register totals of a run are the offline packet counts |
| Parsers.PlainFrame | pcap_buckets.py:91-138 | on a frame with plain header fields both parsers find the same 4-tuple and header, or both find nothing |
| Parsers.GuardExactly | p4src/ingress_parser.p4:12-84 | the parsers agree on all frames with given header fields iff these are plain: no tag, and version byte 0x45 if it is UDP over IPv4 |
| Parsers.TagHidesPacket | pcap_buckets.py:115-138 | inserting a VLAN tag hides any packet from the switch and leaves the offline row unchanged |
| Parsers.OptionsHidePacket | pcap_buckets.py:91-113 | inserting IP options leaves the offline row unchanged and hides the packet from the switch iff the options hold no port 443 |
| Replay.WalkPairs | pcap_buckets.py:206-252 | for frames that both parsers read alike, the rows of a capture and the history of the switch that saw them describe the same packets in step |
| Replay.PcapReplayed | pcap_buckets.py:206-226 | replaying a written pcap file shows the switch exactly the written frames |
| Replay.PcapNgReplayed | pcap_buckets.py:227-250 | the same for a written pcapng file |
| Replay.BatchRefinesOnline | p4src/ingress.p4:146-225 | for every comparable capture the offline count of every bucket is the number of packets that the switch puts there |
| Replay.CaptureAgreesExactly | pcap_buckets.py:14-24 | for every capture whose frames both parsers read alike, the rows and the switch history pair up, and the buckets are equal under every CRC-32 iff at each packet the DCID bytes between the two lengths are zero |
| Replay.CaptureCountsExactly | pcap_buckets.py:411-424 | for every readable capture, whatever its frames, the counts of switch and tool are equal under every CRC-32 iff both hash the same inputs equally often |
| Replay.Run | p4src/ingress.p4:146-228 | a fresh switch fed with frames has the history of those frames; a bucket with n packets raised ceil(n / 2^32) of the digests; the counters add up to the number and the bytes of the accepted frames |
| Replay.RegisterIsOfflineCount | pcap_buckets.py:411-415 | every register entry is the offline count modulo 2^32 |
| Dump.DecimalRoundTrip | bfrt_python/dump_buckets.py:65-66 | printing a natural number in decimal and parsing it gives it back |
| Dump.DumpRegister | bfrt_python/dump_buckets.py:40-67 | the text is the header and one row for each shown entry, sorted by index |
| Dump.SortedIsSort | bfrt_python/dump_buckets.py:48-48 | the rows are a permutation of the shown entries in ascending order |
| Dump.LoadSwitchBuckets | pcap_buckets.py:53-61 | lines are read in order, headers and blanks skipped, later rows win, a malformed number fails |
| Dump.RoundTrip | pcap_buckets.py:49-61 | loading the printed register gives exactly the shown entries with their totals |
| Dump.EntryComesBack | bfrt_python/dump_buckets.py:40-67 | an entry comes back iff its total over the pipes is positive and at least the minimum, with that total, and nothing else comes back |
| Dump.LoadBare | pcap_buckets.py:53-61 | a bucket without a numeric count is loaded with 0, and a line that names no bucket is skipped |
| Dump.LoadBlanks | pcap_buckets.py:53-61 | white space around bucket and count makes no difference |
| Dump.LoadSigned | pcap_buckets.py:53-61 | one minus sign negates a bucket, two make the loader fail |
| Dump.DumpExample | bfrt_python/dump_buckets.py:62-66 | the exact text of a register with one nonzero entry |
| CrossCheck.LoadedIsNonzero | bfrt_python/dump_buckets.py:40-67 | printing and loading a register gives its nonzero entries and nothing else |
| CrossCheck.CrossCheckClean | pcap_buckets.py:411-424 | capture, switch, dump and loader: the loaded switch buckets are the offline buckets whose count is not a multiple of 2^32, with counts equal modulo 2^32; none is on the switch side only |
| CrossCheck.CrossCheckSmall | pcap_buckets.py:411-424 | below 2^32 packets both sides have the same buckets with equal counts |
| ControlPlane.IntegerRendersAsBytes | bfrt_python/quic_monitor.py:57-57 | the zero-padded rendering of the 160-bit integer is the rendering of its bytes |
| ControlPlane.DigestAgreesExactly | bfrt_python/quic_monitor.py:53-60 | the monitor recomputes the switch's hash input iff the DCID bytes between effective length and digest length are zero |
| ControlPlane.DigestRoundTrip | bfrt_python/quic_monitor.py:53-62 | under the length-aware arm the monitor finds the bucket that the switch incremented, for Long headers of length 1 to 20 and Shorts of recalled length 20 |
| LiveMonitor.LabelledSlot | bfrt_python/quic_monitor.py:60-64 | for every index width, a digest labels the slot of its recomputed bucket iff that slot is within the width; at 10 bits iff it is below 0x400 |
| LiveMonitor.LabelIsCountedSlot | bfrt_python/quic_monitor.py:53-64 | for every packet with a nonzero length field, arm, history and width above 0: the digest labels the slot that the switch counted, provided it is within the width, under every CRC-32 iff the DCID bytes between effective length and digest length are zero; and then only within the width |
| LiveMonitor.ZeroLengthUnlabelled | bfrt_python/quic_monitor.py:55-56 | the digest of a packet labels nothing iff it is a Long header of length 0 |
| LiveMonitor.LabelNamesClient | bfrt_python/quic_monitor.py:57-78 | the label of a frame names as client the destination, downstream, if the source port is 443, and otherwise the source, upstream, with the leading DCID bytes in hexadecimal |
| LiveMonitor.ReplySameClient | bfrt_python/quic_monitor.py:71-78 | a packet and its reply have the same client and opposite directions |
| LiveMonitor.LabelsAreLatest | bfrt_python/quic_monitor.py:62-80 | an index is labelled iff some digest named it, with the content of the latest one |
| LiveMonitor.HighSlotsUnlabelled | bfrt_python/quic_monitor.py:60-64 | no digest ever labels a slot beyond the width of the index |
| LiveMonitor.DeltasTelescope | bfrt_python/quic_monitor.py:164-169 | over any polls, failed ones included, the deltas of an index add up to last value minus warm-up value |
| LiveMonitor.RatesMean | bfrt_python/quic_monitor.py:169-170 | rate times interval is the number of packets, and of megabits of 10^6 bits |
| LiveMonitor.StatMeans | bfrt_python/quic_monitor.py:164-173 | the figures of an index are its packet count and what it gained since it was last read, over the interval |
| LiveMonitor.MovedMeans | bfrt_python/quic_monitor.py:171-172 | an index is active iff its packets or bytes rose above the last values read |
| LiveMonitor.Group | bfrt_python/quic_monitor.py:195-212 | every connection has exactly the rates of its indices by direction, and connections plus pending add up to everything visible |
| LiveMonitor.Monitor.constructor | bfrt_python/quic_monitor.py:137-140 | the previous values start at the warm-up read |
| LiveMonitor.Monitor.OnDigest | bfrt_python/quic_monitor.py:47-83 | the label dictionaries always describe one digest, the latest of the index, and only indices within the width |
| LiveMonitor.Monitor.Measure | bfrt_python/quic_monitor.py:164-174 | rates are the deltas against the last value read; activity times move iff a delta is positive |
| LiveMonitor.Monitor.Poll | bfrt_python/quic_monitor.py:151-212 | one turn of the loop shows the recently active indices and groups them under their latest labels without loss; pending is what the unlabelled indices carry, among them every slot beyond the width |
| Generator.P4Bucket | go_perf/client/main.go:30-34 | copying into a zeroed buffer and hashing yields the bucket of the padded ID |
| Generator.StepKeepsInvariant | go_perf/client/main.go:60-98 | every atomic step of every call keeps all IDs in flight on target |
| Generator.OneBucketPerConnection | go_perf/client/main.go:60-110 | if the first successful call returned before another began, all returned IDs share the bucket of the delivered one, however calls interleave and reads fail |
| Generator.DisciplineAllows | go_perf/client/main.go:60-98 | that discipline restricts nothing but the beginning of a call while another is in progress and none has returned |
| Generator.FirstIsDelivered | go_perf/client/main.go:97-110 | in every history the first announced ID waits in the channel until it is received, then it is delivered, and nothing else ever is; Receive is enabled exactly in between |
| Generator.FirstCall | go_perf/client/main.go:60-110 | an undisturbed first call returns the ID it drew, makes its bucket the target, and firstCID receives that ID |
| Generator.CallProceeds | go_perf/client/main.go:60-98 | a failed read ends the call and returns nothing; an accepted ID is kept until it is returned; only Record sets the target |
| Generator.RaceSplitsBuckets | go_perf/client/main.go:63-77 | without that discipline any two IDs can be returned |
| Generator.OneBucketExactly | go_perf/client/main.go:60-98 | in every history without calls in flight the returned buckets are the recorded ones |
| Generator.OneRecordSuffices | go_perf/client/main.go:60-98 | at most one Record step keeps any history, calls in flight included, in one bucket |
| Generator.ScheduleExactly | go_perf/client/main.go:56-98 | for each length of IDs, a schedule keeps to one bucket for all drawn IDs and all CRCs iff at most one call found no target and recorded its own, or IDs are empty |
| ByteLog.ReadLines | analyze_bytes.py:67-81 | the loop computes the bucket and the volume of every flow |
| ByteLog.BucketIsLast | analyze_bytes.py:71-76 | a flow has a bucket iff some line names one, and then that of the last |
| ByteLog.BytesAreLast | analyze_bytes.py:77-81 | a flow has a volume iff some line reports one, and then that of the last |
| ByteLog.FlowMeans | analyze_bytes.py:83-98 | a complete flow has the bucket and the volume of its last lines, and its index is the low bits of that bucket |
| ByteLog.ListFlows | analyze_bytes.py:83-98 | every flow id is listed or warned about once, in ascending order, and the table adds up the listed ones |
| ByteLog.FoldWarnings | analyze_bytes.py:100-111 | one warning for each index where different 17-bit buckets meet, in order of first use, and no other |
| ByteLog.ParseClientLog | analyze_bytes.py:53-113 | complete flows listed once in order, incomplete ones warned about once in order, then the folds; bytes conserved per index and in all, for every counter width |
| Witnesses.OrderVisible | run_overload.sh:10-13 | two frames whose two orders leave different totals under some CRC-32 |
| Witnesses.MirrorBreaks | pcap_buckets.py:15-17 | a Short frame before its Handshake frame, to which switch and offline tool assign different buckets under some CRC-32 |
| Witnesses.ShortDigestMisread | bfrt_python/quic_monitor.py:53-60 | for every first Short with a nonzero DCID byte, a CRC-32 under which the monitor recomputes another bucket than the switch incremented |
| Witnesses.LabelMissesSlot | bfrt_python/quic_monitor.py:60-64 | a frame and a CRC-32 for which the switch counts slot 0x400 and the script labels slot 0 |
| Witnesses.ShortLabelAstray | bfrt_python/quic_monitor.py:53-64 | a Short frame and a CRC-32 for which the switch counts slot 1, within the width, and the script labels slot 0 |
| Witnesses.ConditionsMet | pcap_buckets.py:14-24 | a Handshake frame followed by its Short frame is a settled run and meets the conditions of the comparison |
| Witnesses.SmallCaptureComparable | pcap_buckets.py:14-24 | the capture of these two frames is comparable under all hash functions |

## Left out

- The internals of CRC-16 and CRC-32, and whether the hardware CRC equals the host CRC; both sides share one arbitrary function.
- The forwarding table, the egress pipeline, mirroring of packets that are not QUIC, and pipeline-stage placement.
- IngressParser.Parse: an extract past the end of a frame rejects the packet; what the hardware does with such packets is not modelled further.
- Parsers.GuardExactly: speaks of frames that the switch parser can extract; the offline tool also counts shorter ones.
- Capture.Detect: thresholds are real numbers, so rounding of the floating-point thresholds is not modelled.
- File opening, memory mapping and process pools: a capture is a byte sequence and a pool is an in-order map over ranges.
- Offline.Analyze: the default job count from the number of CPUs is a parameter, at least 1.
- Report formatting, the switch-only listing, and the bare comma-separated form of the switch argument.
- Dump.LoadSwitchBuckets: digits and white space are the ASCII ones; other Unicode digits are not modelled.
- LiveMonitor.Monitor.Poll: clock and counter reads are parameters; the CSV log, the printed tables, the CID-length column and the unused 17-bit label dictionary are not modelled, and client keys are address and port rather than text.
- LiveMonitor.Monitor.Measure: rates are real numbers, without floating-point rounding.
- Generator.OneBucketPerConnection: covers single-bucket mode; without it the generator returns random IDs and promises nothing.
- ByteLog.ParseClientLog: starts from the matches of the two patterns; the regular expressions and the rounding of megabytes are not modelled.
- The rank comparison and the report of the byte analysis, the plotting scripts, the topology and run scripts, and the perf client and server beyond the ID generator.
