# afl-transmit, modelled in Dafny

afl-transmit shares the progress of AFL fuzzers between machines. A
watchdog finds the fuzzers that run on the local machine. It then packs each
fuzzer's directory into a packet and sends the packet over TCP to a list of
peers, again and again. A packet carries four parts: the fuzzer's name, its
`fuzz_bitmap`, its `fuzzer_stats` and a tar archive of its `queue/`
directory. Each part is base64-encoded, the parts are joined with newlines,
and the result is DEFLATE-compressed. The receiver decompresses a packet,
splits and decodes it, and writes the files below its own output directory.
It is meant never to overwrite a file that is already there, but as written
it does (see Findings). Traffic and peer counters are kept alongside.

The model covers six parts of the program:

- the packer (`logistic/packer.go`);
- the unpacker (`logistic/unpacker.go`);
- the peer list (`net/sender.go`): reading it from a file and a flag,
  removing doubles and local addresses, and the two-pass broadcast;
- peer creation (`net/peer.go`);
- the counters (`stats/stats.go`);
- the watchdog (`watchdog/watchdog.go`).

Pure code becomes functions and lemmas. The code that changes state becomes
methods:

- The counters are a class `Stats.Counters`, whose methods update its fields.
- The peer list is the `peers` field of a class `Sender.Registry`.
- The loops of the source are `while` loops with invariants. Each loop is
  proved against a function that specifies it.

The filesystem is a value (`Files.Fs`) that holds:

- regular files;
- directories with their listings in listing order;
- a set of faulty paths, on which every operation fails with an error other
  than "does not exist".

The methods take the filesystem as an input and return the new one.

Three parts of the environment are inputs to the model:

- The network is an oracle. For each `SendToPeers` call, a set of accepted
  attempts says which `SendToPeer` calls (peer and pass) dial and write
  successfully. In the watch loop every packet of every pass meets a
  network state of its own.
- The addresses of the local interfaces are a list given as input.
- DEFLATE and tar are an abstract `Archive.Library` of functions. The
  round-trip laws the program relies on are stated as `Archive.Lawful`.
  The tar law covers only archives whose entry names are valid directory
  names (non-empty, without '/' or NUL), which are the only archives the
  packer writes; tar.Writer refuses a name holding NUL.
  `ArchiveWitness.WitnessIsLawful` shows that these laws can all hold at
  once, with a toy library whose archive format a small parser reads back.

The main results are these:

- **Round trip.** Base64 decoding inverts encoding (`Base64.DecodeEncode`).
- **Packet format.** A packet body splits back into exactly its four parts
  (`Packer.SplitFrame`).
- **Pack then unpack.** Packing a fuzzer directory and unpacking the packet
  on a fresh target recreates the fuzzer's files (`Unpacker.PackThenUnpack`).
  A fresh target is an existing, working directory with no regular file at
  or above it, in which the fuzzer's name is still free.
  - Every queue file comes back byte for byte.
  - `fuzz_bitmap` and `fuzzer_stats` come back followed by the NUL bytes that
    fill the last base64 group. This is because the unpacker writes the whole
    `DecodedLen` buffer, not just the bytes that were decoded.
- **Target below a file.** When the target is a regular file, stat of the
  fuzzer directory fails with ENOTDIR rather than "does not exist", so
  nothing is created or written and no error is reported
  (`Unpacker.UnpackBelowFile`).
- **Configured peers.** After `ReadPeers`, every peer of the sources appears
  exactly once, and no local one when removal is requested.
- **Broadcast counters.** The counters after a broadcast are stated exactly,
  with uint64 and uint8 wrap-around.
- **Watch loop.** `WatchFuzzers` sends exactly one packet per detected
  fuzzer per pass, and its effect on the counters is stated exactly.

Two places in the source do not do what their comments say. They are listed
under Findings. In each case the model keeps the code as written next to the
corrected version, and the rest of the model uses the corrected version.

## Model

| member | source | states |
|---|---|---|
| Stats.Counters.constructor | stats/stats.go:19 | the package counters start as the all-zero record |
| Stats.Counters.PushStat | stats/stats.go:32-36 | SentBytes, ReceivedBytes and RegisteredPeers grow by the pushed record's fields, wrapping at their width; AlivePeer is left alone |
| Stats.Counters.SetAlivePeers | stats/stats.go:39-41 | AlivePeer becomes n and nothing else changes |
| Stats.Add64Wraps | stats/stats.go:33-34 | a byte counter keeps the true sum exactly when it is below 2^64, and drops below its old value exactly when it wraps |
| Stats.PushZero | stats/stats.go:32-36 | pushing the zero record changes nothing |
| Stats.PushTwice | stats/stats.go:32-36 | two pushes equal one push of their field-wise wrapped sum |
| Stats.PushCommutes | stats/stats.go:32-36 | the order of pushes does not matter |
| Stats.PushKeepsAlivePeers | stats/stats.go:29-36 | PushStat ignores the AlivePeer field of what it is given |
| Stats.SetAlivePeersOnly | stats/stats.go:39-41 | SetAlivePeers changes only AlivePeer and is idempotent |
| Stats.SetAlivePeersLastWins | stats/stats.go:32-41 | only the last SetAlivePeers counts, and it commutes with PushStat |
| Stats.PushedTimesSent | stats/stats.go:33 | n pushes of SentBytes = x add n·x to SentBytes modulo 2^64 and change no other counter |
| Stats.PushedTimesAdd | stats/stats.go:32-36 | m pushes followed by n pushes are m + n pushes |
| Stats.PushedTimesKeepsAlivePeers | stats/stats.go:32-41 | any number of pushes commutes with SetAlivePeers |
| Stats.TimesIsProduct | stats/stats.go:33 | repeated addition of the same amount is multiplication |
| Bytes.TrimRightNul | logistic/unpacker.go:42 | the result is a prefix of s, does not end in NUL, and only NUL bytes were cut |
| Bytes.TrimRightNulPadding | logistic/unpacker.go:42 | trimming NUL padding off a name that does not end in NUL gives the name back |
| Base64.Encode | logistic/packer.go:34-35 | the encoding is EncodedLen(n) characters long and holds no newline |
| Base64.Digit | logistic/unpacker.go:37 | a decoded digit is the one the alphabet maps to that character |
| Base64.DigitOfAlphabet | logistic/unpacker.go:37 | every alphabet character decodes to its digit value |
| Base64.DecodeQuanta | logistic/unpacker.go:37 | decoding yields at most DecodedLen(n) bytes |
| Base64.DecodeInto | logistic/unpacker.go:36-38 | the buffer is DecodedLen(n) long, starts with the decoded bytes and is NUL after them |
| Base64.DecodedLenOfEncodedLen | logistic/unpacker.go:36 | the receiver's buffer for an encoding of n bytes is n plus fewer than three bytes long |
| Base64.DecodeEncode | logistic/unpacker.go:36-37 | decoding the encoding of any byte string gives it back |
| Base64.EncodeTestVectors | logistic/packer.go:34-35 | "f", "fo", "foo" and "foobar" encode to the vectors of section 10 of RFC 4648 |
| Base64.DecodeTestVectors | logistic/unpacker.go:37 | those vectors decode back to "f", "fo" and "foobar" |
| Base64.DecodeIntoEncode | logistic/unpacker.go:36-38 | the receiver's buffer for an encoded part holds the part followed by PaddingLen NUL bytes |
| Files.JoinPath | logistic/packer.go:56 | a joined path is dir, one separator and name |
| Files.JoinPathParts | logistic/packer.go:56 | a joined path splits back into dir, the separator and name |
| Files.Stat | logistic/unpacker.go:49-50 | a stat succeeds exactly for an existing path that is not faulty; it fails with "does not exist" exactly when nothing is at the path and no regular file lies above it (below a file it fails with ENOTDIR); it never fails with "exists" |
| Files.JoinBelowNoFile | logistic/unpacker.go:48-50 | a slash-free name joined below a path with no file at or above it has no file above it |
| Files.NoFileAboveKept | logistic/unpacker.go:59-62 | adding only files below a path keeps every file away from that path and its ancestors |
| Files.ParentWithin | logistic/unpacker.go:78-81 | the parent directory a write needs, for a path below a directory below top, lies below top too |
| Files.ReadFile | logistic/packer.go:57-61 | a read succeeds exactly for a regular, non-faulty file and yields its contents |
| Files.ReadDir | logistic/packer.go:73-77 | a listing succeeds exactly for a non-faulty directory and yields its names in listing order |
| Files.WriteFile | logistic/unpacker.go:78-81 | a write succeeds exactly when the path is not faulty, not a directory and its parent exists; it sets only that file, and a failed write changes nothing |
| Files.Mkdir | logistic/unpacker.go:97 | mkdir succeeds exactly when the path is free and its parent exists, and creates an empty directory |
| Files.MkdirAll | logistic/unpacker.go:52-56 | MkdirAll never touches files, keeps every directory, and on success the path is a directory |
| Files.TrimTrailingSlashes | watchdog/watchdog.go:33 | only trailing slashes are cut |
| Files.Base | watchdog/watchdog.go:33 | the base of a path is never empty |
| Files.BaseOfJoin | watchdog/watchdog.go:33 | the base of dir/name is name |
| Files.BaseHasNoSlash | watchdog/watchdog.go:33 | the base of a path that is not all slashes holds no slash |
| Files.ParentOfJoin | logistic/unpacker.go:78 | the parent of dir/name is dir and its leaf is name |
| Packer.FixedNames | logistic/packer.go:19-21 | fuzz_bitmap, fuzzer_stats and queue are valid, different directory entries |
| Packer.PackSingleFile | logistic/packer.go:55-64 | the part is the file's contents, or empty when the file cannot be read |
| Packer.Parts | logistic/packer.go:17-22 | a packet always has four parts |
| Packer.EntryNames | logistic/packer.go:88-89 | the header names of the entries, one per entry, in order |
| Packer.QueueEntriesSound | logistic/packer.go:80-105 | every queue entry is a listed, readable regular file stored under its bare name with mode 0600 |
| Packer.QueueEntriesComplete | logistic/packer.go:80-105 | every listed, readable regular file of queue/ gets an entry |
| Packer.QueueEntriesInListingOrder | logistic/packer.go:80-105 | the entries keep the order of the listing |
| Packer.QueueEntriesDistinct | logistic/packer.go:80-105 | a listing without repeated names gives entries without repeated names |
| Packer.PackQueueFiles | logistic/packer.go:67-112 | an unlistable queue/ gives nothing; otherwise the tar of exactly the entries above, in listing order |
| Packer.EncodedPartsAreNewlineFree | logistic/packer.go:33-45 | no encoded part contains the separator |
| Packer.SplitFrame | logistic/packer.go:32-46 | the packet body splits on newlines into exactly the encoded parts, in order |
| Packer.FrameHasThreeSeparators | logistic/packer.go:37-42 | a packet body holds exactly three newlines |
| Packer.PackFuzzer | logistic/packer.go:15-52 | the packet is the compressed newline-join of the four encoded parts; the compressor error path cannot be taken at BestCompression |
| Unpacker.UnpackSingleFileAsWritten | logistic/unpacker.go:68-82 | whenever the write can succeed the path holds the new data afterwards, even when a file was there before; otherwise nothing changes; other files, the directories and the faults are kept |
| Unpacker.AsWrittenAlwaysWrites | logistic/unpacker.go:71-78 | as written, the IsExist guard never fires and every call writes the file |
| Unpacker.AsWrittenOverwrites | logistic/unpacker.go:71-78 | as written, an existing fuzz_bitmap is overwritten |
| Unpacker.UnpackSingleFile | logistic/unpacker.go:68-82 | existing files are kept; the file is created, with the data, exactly when it did not exist and the write can succeed; nothing else changes |
| Unpacker.WriteEntries | logistic/unpacker.go:101-117 | writing the entries keeps every existing file, and every new file is queue/<entry name> |
| Unpacker.UnpackQueueDir | logistic/unpacker.go:85-118 | queue/ is created if missing, then every entry read before EOF or a bad header is written in archive order |
| Unpacker.UnpackedQueueWithin | logistic/unpacker.go:92-117 | every file the queue step creates lies below the fuzzer directory |
| Unpacker.QueueIntoFreeDir | logistic/unpacker.go:85-118 | into a free queue/ below an existing directory, every entry of an archive with distinct slash-free names is stored |
| Unpacker.WriteEntriesFresh | logistic/unpacker.go:101-117 | entries with distinct names written into free paths are all stored with their data |
| Unpacker.DecodeParts | logistic/unpacker.go:35-39 | every part is replaced by its DecodedLen-sized decode buffer |
| Unpacker.ReceivedParts | logistic/unpacker.go:24-39 | a packet is accepted exactly when its decompressed body splits into four parts |
| Unpacker.UnpackInto | logistic/unpacker.go:17-65 | decompress, four-part check, decode, slash check, fuzzer directory creation and three writes, with the error each step returns |
| Unpacker.UnpackErrorPaths | logistic/unpacker.go:28-56 | a wrong part count or a slash in the name changes nothing; a failed MkdirAll changes no file |
| Unpacker.UnpackKeepsExistingFiles | logistic/unpacker.go:59-62 | unpacking never changes or removes an existing file |
| Unpacker.UnpackWritesWithinFuzzerDir | logistic/unpacker.go:42-62 | every file unpacking creates lies below targetDir/<received fuzzer name> |
| Unpacker.ReceivedPacket | logistic/unpacker.go:24-39 | the receiver decodes a packet into the packed parts, each padded with NUL bytes to whole base64 groups |
| Unpacker.FreshFuzzerDir | logistic/unpacker.go:48-57 | on a fresh target the fuzzer directory is created empty |
| Unpacker.SingleFilesIntoEmptyDir | logistic/unpacker.go:60-61 | both single files are stored in an empty fuzzer directory, and queue/ beside them stays free |
| Unpacker.SentArchive | logistic/packer.go:80-111 | the padded archive part reads back as the packed entries, with distinct slash-free names |
| Unpacker.SingleFilesKeepNoFileAbove | logistic/unpacker.go:60-61 | writing the two single files puts no file at or above the fuzzer directory |
| Unpacker.UnpackOnFreshTarget | logistic/unpacker.go:47-64 | a received packet with a slash-free name, unpacked into a fresh target, reports no error and stores both single files and every queue entry with its data |
| Unpacker.WriteEntriesBelowFile | logistic/unpacker.go:101-117 | when no directory exists below top, no queue entry below top can be written and nothing changes |
| Unpacker.UnpackBelowFile | logistic/unpacker.go:47-64 | when the target is a regular file, the fuzzer directory stat fails with ENOTDIR, so nothing is created or written and no error is reported |
| Unpacker.PackThenUnpack | logistic/unpacker.go:17-65 | on a fresh target, the packet of a fuzzer directory unpacks without error; the single files come back NUL-padded and every queue file exactly |
| Peers.TrimLeftSpaceSpec | net/peer.go:23 | exactly the leading white space is removed |
| Peers.TrimRightSpaceSpec | net/peer.go:23 | exactly the trailing white space is removed |
| Peers.TrimSpaceTrims | net/peer.go:23 | the trimmed address is the middle of the input and neither starts nor ends with white space |
| Peers.TrimSpaceCutsSpace | net/peer.go:23 | everything cut off on either side is white space |
| Peers.TrimSpaceOfTrimmed | net/peer.go:23 | a string without white space at its ends is its own trim |
| Peers.TrimSpaceIdempotent | net/peer.go:23 | trimming twice trims nothing more |
| Peers.TrailingDigits | net/peer.go:13 | counts exactly the digits at the end of the string |
| Peers.HasPortSuffixMatches | net/peer.go:13 | the backwards scan agrees with the regular expression `:\d{0,5}$` on every string |
| Peers.DigitChar | net/peer.go:29 | a digit value prints as a decimal digit |
| Peers.Decimal | net/peer.go:29 | the %d form of a port is one to five decimal digits |
| Peers.DigitValue | net/peer.go:29 | a decimal digit has a value below ten |
| Peers.DecimalValueOfDecimal | net/peer.go:29 | the %d form reads back as the number |
| Peers.CreatePeer | net/peer.go:21-36 | the address begins with the trimmed input, and equals it exactly when the input already ends in a port suffix; otherwise the port is appended |
| Peers.CreatePeerAddress | net/peer.go:21-36 | the address is the trimmed input, unchanged when it matches the port regex and followed by ":<port>" otherwise |
| Peers.CreatePeerShape | net/peer.go:21-36 | a created address is non-empty, has no white space at its ends and always ends in a port suffix |
| Peers.CreatePeerIdempotent | net/peer.go:21-36 | creating a peer from a created peer's address changes nothing |
| Peers.AppendedPortMatches | net/peer.go:27-30 | ":" plus the printed port always matches the port regex |
| Peers.DigitIsNotSpace | net/peer.go:23-27 | no decimal digit is white space |
| Peers.TrailingDigitsAfter | net/peer.go:13 | the trailing digits of t + d are d when t does not end in a digit |
| Peers.ExampleDefaultPort | net/peer.go:27-30 | "10.0.0.5" becomes "10.0.0.5:4444" |
| Peers.ExampleExplicitPort | net/peer.go:27-30 | "10.0.0.5:1234" keeps its port |
| Peers.ExampleIpv6Literal | net/peer.go:26-27 | an unbracketed IPv6 literal " ::1 " is taken as host ":" with port 1 |
| Peers.ExampleBareColon | net/peer.go:13 | a bare trailing ':' counts as a port suffix |
| Peers.ExampleSixDigitPort | net/peer.go:13 | six digits are no port suffix, so the default port is appended after them |
| Sender.PeersOf | net/sender.go:169-172 | one peer per address, CreatePeer applied to each, in order |
| Sender.LinePeersCount | net/sender.go:115-123 | the peer file adds one peer per non-empty line |
| Sender.LinePeersComplete | net/sender.go:115-123 | every non-empty line yields its peer |
| Sender.LinePeersSound | net/sender.go:115-123 | every peer comes from a non-empty line |
| Sender.StringPeersCount | net/sender.go:129-134 | the -peers string adds one peer per comma-separated piece, empty pieces included, the k-th from the k-th piece |
| Sender.Registry.constructor | net/sender.go:14 | the peer list starts empty |
| Sender.Registry.ReadPeersFile | net/sender.go:104-126 | a readable file appends its line peers; an unreadable one reports an error and appends nothing |
| Sender.Registry.ReadPeersString | net/sender.go:129-134 | appends the peers of the comma-separated pieces |
| Sender.InnerPassAsWritten | net/sender.go:141-146 | the as-written inner pass keeps position i and never grows the list |
| Sender.RemoveDoubledAsWrittenSound | net/sender.go:137-148 | the as-written loop keeps every address, in order |
| Sender.RemoveDoubledAsWrittenKeepsADouble | net/sender.go:141-145 | as written, three copies of one address leave two |
| Sender.Registry.RemoveDoubledPeersAsWritten | net/sender.go:137-148 | the method follows the loop as written, index skip included |
| Sender.Registry.RemoveDoubledPeers | net/sender.go:137-148 | the list becomes the first occurrence of every address, in order |
| Seqs.DedupSpec | net/sender.go:137-148 | deduplication keeps every element and only those, each once |
| Seqs.DedupMember | net/sender.go:137-148 | every element the deduplicated list holds comes from the input |
| Seqs.DedupSubseq | net/sender.go:137-148 | the deduplicated list is a subsequence of the input, so the kept elements keep their order |
| Seqs.DedupFirstOccurrence | net/sender.go:137-148 | the kept elements come in order of first occurrence: whatever is listed before an element occurs in the input before every copy of it |
| Seqs.SplitLength | net/sender.go:115 | splitting yields one more piece than there are separators |
| Seqs.SplitJoin | logistic/unpacker.go:27 | splitting a join of separator-free parts gives the parts back |
| Seqs.JoinSplit | net/sender.go:115 | joining the pieces of a split gives the original back |
| Sender.Unlisted | net/sender.go:176-185 | filtering never lengthens the list |
| Sender.UnlistedMembers | net/sender.go:176-185 | the filter keeps exactly the peers that are not blacklisted |
| Sender.UnlistedSubseq | net/sender.go:176-185 | the filter keeps the order |
| Sender.UnlistedDistinct | net/sender.go:176-185 | a list without doubles stays without doubles |
| Sender.OnBlacklist | net/sender.go:177-184 | the scan finds a match exactly when the peer's address is blacklisted |
| Sender.Registry.RemoveLocalPeers | net/sender.go:151-186 | when the interfaces cannot be listed nothing changes; otherwise the peers on the blacklist are removed |
| Sender.GatheredMembers | net/sender.go:71-85 | the gathered peers are exactly those of the earlier list, the file if named and readable, and the string if given |
| Sender.ConfiguredPeers | net/sender.go:71-93 | the configured list holds every peer of its sources once and nothing else, minus the local ones when requested |
| Sender.Registry.ReadPeers | net/sender.go:71-101 | the list becomes the configured list and RegisteredPeers grows by its length as a uint8 |
| Sender.Tagged | net/sender.go:35-37 | one attempt per peer of a pass |
| Sender.TaggedAt | net/sender.go:35-37 | the k-th attempt of a pass goes to the k-th peer |
| Sender.Failures | net/sender.go:38-41 | the failures never outnumber the peers |
| Sender.FailuresMembers | net/sender.go:35-44 | the failed peers are exactly those whose attempt fails, in their order |
| Sender.SuccessesAndFailures | net/sender.go:35-44 | every attempt either succeeds or lands in the failures |
| Sender.AliveCountDelivered | net/sender.go:28-64 | the alive count is the number of peers that took the packet in either pass, so at most the number of peers |
| Sender.BroadcastCounters | net/sender.go:28-68 | after a broadcast, SentBytes grew by packet size times delivered peers modulo 2^64, and AlivePeer is that number as a uint8 |
| Sender.SendToPeer | net/peer.go:39-59 | success exactly when the attempt is accepted, and then the packet length is pushed as SentBytes |
| Sender.SendRound | net/sender.go:35-44 | one pass: attempts in order, failures collected, successes counted on in a uint8 and pushed |
| Sender.Registry.SendToPeers | net/sender.go:28-68 | first pass, pause only if something failed, retry pass over the failures; between the passes AlivePeer is the first-pass successes as a uint8, and at the end the counters are as stated above |
| Watchdog.CmdlinePath | watchdog/watchdog.go:59 | the cmdline path is out/name/cmdline |
| Watchdog.LocalFuzzers | watchdog/watchdog.go:57-73 | at most one directory per listed name |
| Watchdog.DetectLocalFuzzers | watchdog/watchdog.go:46-76 | nothing for an unlistable output directory; otherwise out/name for exactly the listed names whose cmdline stats, in listing order |
| Watchdog.LocalFuzzersMembers | watchdog/watchdog.go:57-73 | a directory is detected exactly when it is out/name for a listed name whose cmdline file stats |
| Watchdog.Joined | watchdog/watchdog.go:71 | out/name for every listed name, in order |
| Watchdog.LocalFuzzersInListingOrder | watchdog/watchdog.go:57-73 | the detected directories keep the listing order |
| Watchdog.DetectedNames | watchdog/watchdog.go:33 | a detected directory is out/Base(dir), its base is a listed valid name, and its cmdline stats |
| Watchdog.DetectedFuzzerUnpacks | watchdog/watchdog.go:33-34 | the packet of a detected fuzzer passes the receiver's checks on a fresh target |
| Watchdog.RoundPackets | watchdog/watchdog.go:31-38 | one packet per detected directory |
| Watchdog.RoundPacketsAt | watchdog/watchdog.go:31-38 | the k-th packet of a pass is the k-th directory packed under its base name |
| Watchdog.BroadcastsSnoc | watchdog/watchdog.go:31-38 | sending one more packet continues from the counters the earlier ones left |
| Watchdog.BroadcastsSent | watchdog/watchdog.go:31-38 | SentBytes grows, modulo 2^64, by the sum over the packets of each packet's length times the number of peers that took that packet |
| Watchdog.BroadcastsSentOnTop | watchdog/watchdog.go:31-38 | a pass sent on top of counters that already credited some bytes credits its own on top, modulo 2^64 |
| Watchdog.BroadcastsFields | watchdog/watchdog.go:31-38 | received bytes and registered peers stay; once anything was sent, AlivePeer is the number of peers that took the last packet |
| Watchdog.WatchedPackets | watchdog/watchdog.go:25-43 | passes times detected directories packets are sent |
| Watchdog.WatchedPacketsSound | watchdog/watchdog.go:26-42 | every packet belongs to a pass over the directories detected once before the loop |
| Watchdog.WatchedPacketsComplete | watchdog/watchdog.go:29-42 | every pass sends all of its packets |
| Watchdog.CountersAfterSent | watchdog/watchdog.go:29-42 | after any list of rounds, SentBytes is the starting value plus every round's bytes times the peers that took them, modulo 2^64 |
| Watchdog.CountersAfterFields | watchdog/watchdog.go:29-42 | rounds never change received bytes or registered peers; with no packet sent AlivePeer stays; when the last round sent packets it is the number of peers that took its last packet |
| Watchdog.WatchedRounds | watchdog/watchdog.go:29-42 | one round per pass |
| Watchdog.WatchedRoundsAt | watchdog/watchdog.go:29-42 | the c-th round is the c-th pass's packets over the detected directories, meeting that pass's network |
| Watchdog.WatchedStep | watchdog/watchdog.go:29-42 | one more pass broadcasts its packets on top of the counters the earlier passes left |
| Watchdog.WatchedAdvance | watchdog/watchdog.go:29-42 | after pass c the packets sent and the counters are those of passes 0..c |
| Watchdog.WatchedCountersSent | watchdog/watchdog.go:29-42 | over all passes SentBytes grows, modulo 2^64, by every packet's length times the number of peers that took that packet |
| Watchdog.WatchedCountersFields | watchdog/watchdog.go:29-42 | watching never changes received bytes or registered peers; AlivePeer is the number of peers that took the last packet of the last pass |
| Watchdog.SendFuzzer | watchdog/watchdog.go:32-37 | packs the directory under its base name and broadcasts that packet |
| Watchdog.WatchCycle | watchdog/watchdog.go:31-38 | one pass sends the packets of every local fuzzer in order, the k-th meeting the k-th network state, with the counters that follow |
| Watchdog.WatchFuzzers | watchdog/watchdog.go:25-43 | detects once, then sends exactly the watched packets, ending at the watched counters |

## Left out

- DEFLATE and tar are not modelled byte by byte. They are functions of an
  `Archive.Library`, and only the round trips the program relies on are
  assumed, as the precondition `Archive.Lawful`, and the tar law only for
  entry names the packer can produce. The decompression error is
  discarded by the source, so decompression is total.
- Write and close errors of the compressor and of the tar writer are
  ignored by the source, so they are not modelled.
- `net/crypt.go`, `net/listener.go` and `main.go` are not part of this
  model. This covers encryption, the TCP listener and flag parsing.
- `ServerPort` is defined in a file that is not part of this model. It is a
  parameter of type `Peers.Port`, whose decimal form has at most five digits.
- Network I/O (dial, write, close) is an oracle: the set of accepted
  attempts. A failed write is a failed attempt, and a successful write is
  taken to write the whole packet.
- Log output is left out. So is `PrintStats`, with its ticker and the
  humanized printing.
- `time.Sleep` in the sender and the watchdog is left out. The sender
  reports whether it would pause.
- Watchdog.WatchFuzzers: the source loops forever. The model runs one pass
  per element of a finite sequence of cycles. Each cycle fixes that pass's
  filesystem, and gives each packet of the pass its own network state. The
  filesystem does not change between two packets of one pass.
- Watchdog.SendFuzzer: `watchdog.go` line 34 assigns PackFuzzer's two
  results to one variable, which does not compile. The model sends the
  packet when packing succeeds, and in the model packing always succeeds.
- Sender.SendToPeer: `peer.go` declares no result, but `sender.go` tests
  one. The model returns success, as `sender.go` uses it.
- Sender.Registry.RemoveLocalPeers: enumerating interfaces is an input.
  - None stands for the failure of `net.Interfaces`.
  - The per-interface `Addrs` error only drops that interface's addresses,
    so it is absorbed into the input list.
  - Printing an IP is left out. The input holds the printed strings.
- Peer addresses are Dafny strings of characters. UTF-8 decoding of the
  peer file is left out.
- Base64.DecodeQuanta: decoding of malformed input is simplified.
  - Decoding stops at the first bad quantum.
  - Go's skipping of `\r` and `\n` is left out.
  - The receiver discards the decode error, so every decode yields a
    DecodedLen-sized buffer.
- Unpacker.UnpackInto: the source joins paths textually with
  `fmt.Sprintf("%s%c%s", …)`, as the model does. The model does not resolve
  a doubled or trailing slash the way the operating system does: each path
  string is a key of its own in `Files.Fs`. So a received name that is empty
  once its NUL bytes are trimmed gives a separate directory `t/`, created by
  MkdirAll, and files such as `t//fuzz_bitmap`, where the operating system
  finds `t` itself at `t/` and creates nothing. The same holds for a target
  directory that ends in a slash.
- Paths are compared textually. `..` and `.` are not resolved. So
  `Unpacker.UnpackWritesWithinFuzzerDir` speaks of textual prefixes, and a
  tar entry name holding `..` is not excluded by it.
- Directory listings come in the order the model's filesystem holds them.
  Go's `ReadDir` sorts by name, and the model does not impose that order.
- File modes (0700, 0755, 0644) are not modelled, apart from the 0600 written
  into tar headers. Sizes in tar headers are left to the abstract tar writer.

## Findings

| source | as written | input that shows it | evidently intended | confidence | as-written member | corrected member |
|---|---|---|---|---|---|---|
| logistic/unpacker.go:72-76 | the early return tests `os.IsExist` on the error of `os.Stat`; a stat of an existing file returns no error, so the guard never fires and existing files are overwritten | an existing `t/fuzz_bitmap` holding [1] and a packet carrying [2]: afterwards the file holds [2] | skip the write when the stat finds the file ("we won't overwrite it") | not executed | Unpacker.AsWrittenOverwrites | Unpacker.UnpackSingleFile |
| net/sender.go:141-145 | after removing the double at j the loop still increments j, so the peer moved into position j is never compared | three copies of one address: two remain | every address once, keeping the first | not executed | Sender.RemoveDoubledAsWrittenKeepsADouble | Sender.Registry.RemoveDoubledPeers |
