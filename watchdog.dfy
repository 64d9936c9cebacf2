/**
 * watchdog/watchdog.go: finds the fuzzers that run on this machine, then
 * over and over packs each of their directories and sends the packet to
 * every peer. A fuzzer counts as local when its directory holds a "cmdline"
 * file, which AFL writes only on the machine the fuzzer runs on.
 */
module Watchdog {
  import opened Wrappers
  import opened Seqs
  import opened Bytes
  import opened Files
  import opened Archive
  import opened Packer
  import opened Unpacker
  import opened Peers
  import opened Stats
  import opened Sender

  /** "cmdline" */
  const Cmdline: Name := [99, 109, 100, 108, 105, 110, 101]

  /** outputDirectory/name/cmdline, the file whose presence marks a local fuzzer. */
  function CmdlinePath(outputDirectory: Path, name: Name): (p: Path)
    ensures |p| == |outputDirectory| + |name| + 9
  {
    JoinPath(JoinPath(outputDirectory, name), Cmdline)
  }

  /** The stat of the cmdline file succeeds; "does not exist" and every other error both mean no. */
  predicate RunsLocally(fs: Fs, outputDirectory: Path, name: Name)
  {
    Files.Stat(fs, CmdlinePath(outputDirectory, name)) == Found
  }

  /** The directories of the listed fuzzers that run locally, in listing order. */
  function LocalFuzzers(fs: Fs, outputDirectory: Path, names: seq<Name>): (dirs: seq<Path>)
    ensures |dirs| <= |names|
  {
    if names == [] then []
    else
      var n := |names| - 1;
      LocalFuzzers(fs, outputDirectory, names[..n])
        + (if RunsLocally(fs, outputDirectory, names[n]) then [JoinPath(outputDirectory, names[n])] else [])
  }

  /** What detectLocalFuzzers finds: nothing at all when the output directory cannot be listed. */
  function Detected(fs: Fs, outputDirectory: Path): seq<Path>
  {
    match ReadDir(fs, outputDirectory)
    case None => []
    case Some(names) => LocalFuzzers(fs, outputDirectory, names)
  }

  /**
   * detectLocalFuzzers: lists the output directory and keeps
   * outputDirectory/name for every entry whose cmdline file stats.
   */
  method DetectLocalFuzzers(fs: Fs, outputDirectory: Path) returns (localFuzzers: seq<Path>)
    ensures ReadDir(fs, outputDirectory).None? ==> localFuzzers == []
    ensures ReadDir(fs, outputDirectory).Some? ==>
      localFuzzers == LocalFuzzers(fs, outputDirectory, ReadDir(fs, outputDirectory).value)
  {
    var filesInDir := ReadDir(fs, outputDirectory);
    if filesInDir.None? {
      return [];
    }
    var names := filesInDir.value;
    localFuzzers := [];
    var i := 0;
    while i < |names|
      invariant 0 <= i <= |names|
      invariant localFuzzers == LocalFuzzers(fs, outputDirectory, names[..i])
    {
      assert names[..i + 1][..i] == names[..i];
      var cmdlinePath := JoinPath(JoinPath(outputDirectory, names[i]), Cmdline);
      var statErr := Files.Stat(fs, cmdlinePath);
      if IsNotExist(statErr) {
        i := i + 1;
        continue;
      } else if statErr != Found {
        i := i + 1;
        continue;
      }
      var fullPath := JoinPath(outputDirectory, names[i]);
      localFuzzers := localFuzzers + [fullPath];
      i := i + 1;
    }
    assert names[..i] == names;
  }

  /** A directory is detected exactly when it is outputDirectory/name for a listed name whose cmdline stats. */
  lemma {:induction false} LocalFuzzersMembers(fs: Fs, outputDirectory: Path, names: seq<Name>)
    ensures forall d :: d in LocalFuzzers(fs, outputDirectory, names) <==>
      exists k :: 0 <= k < |names| && d == JoinPath(outputDirectory, names[k]) && RunsLocally(fs, outputDirectory, names[k])
  {
    if names != [] {
      var n := |names| - 1;
      LocalFuzzersMembers(fs, outputDirectory, names[..n]);
      forall d | exists k :: 0 <= k < |names| && d == JoinPath(outputDirectory, names[k]) && RunsLocally(fs, outputDirectory, names[k])
        ensures d in LocalFuzzers(fs, outputDirectory, names)
      {
        var k :| 0 <= k < |names| && d == JoinPath(outputDirectory, names[k]) && RunsLocally(fs, outputDirectory, names[k]);
        if k < n {
          assert names[..n][k] == names[k];
        }
      }
      forall d | d in LocalFuzzers(fs, outputDirectory, names)
        ensures exists k :: 0 <= k < |names| && d == JoinPath(outputDirectory, names[k]) && RunsLocally(fs, outputDirectory, names[k])
      {
        if d in LocalFuzzers(fs, outputDirectory, names[..n]) {
          var k :| 0 <= k < n && d == JoinPath(outputDirectory, names[..n][k]) && RunsLocally(fs, outputDirectory, names[..n][k]);
          assert names[..n][k] == names[k];
        } else {
          assert d == JoinPath(outputDirectory, names[n]) && RunsLocally(fs, outputDirectory, names[n]);
        }
      }
    }
  }

  /** outputDirectory/name for every listed name, in listing order. */
  function Joined(outputDirectory: Path, names: seq<Name>): (ps: seq<Path>)
    ensures |ps| == |names|
    ensures forall k :: 0 <= k < |names| ==> ps[k] == JoinPath(outputDirectory, names[k])
  {
    seq(|names|, k requires 0 <= k < |names| => JoinPath(outputDirectory, names[k]))
  }

  /** The detected directories keep the order of the listing. */
  lemma {:induction false} LocalFuzzersInListingOrder(fs: Fs, outputDirectory: Path, names: seq<Name>)
    ensures Subseq(LocalFuzzers(fs, outputDirectory, names), Joined(outputDirectory, names))
  {
    if names == [] {
    } else {
      var n := |names| - 1;
      LocalFuzzersInListingOrder(fs, outputDirectory, names[..n]);
      var x := JoinPath(outputDirectory, names[n]);
      var front := LocalFuzzers(fs, outputDirectory, names[..n]);
      SubseqSnoc(front, Joined(outputDirectory, names[..n]), x, RunsLocally(fs, outputDirectory, names[n]));
      assert LocalFuzzers(fs, outputDirectory, names) == if RunsLocally(fs, outputDirectory, names[n]) then front + [x] else front;
      assert Joined(outputDirectory, names) == Joined(outputDirectory, names[..n]) + [x];
    }
  }

  /**
   * When the listing holds only valid names, every detected directory is
   * outputDirectory/Base(dir), its base is a listed, valid name, and it holds
   * a cmdline file.
   */
  lemma DetectedNames(fs: Fs, outputDirectory: Path, d: Path)
    requires ReadDir(fs, outputDirectory).Some?
    requires forall n :: n in fs.dirs[outputDirectory] ==> ValidName(n)
    requires d in Detected(fs, outputDirectory)
    ensures Base(d) in fs.dirs[outputDirectory] && ValidName(Base(d))
    ensures d == JoinPath(outputDirectory, Base(d))
    ensures Files.Stat(fs, JoinPath(d, Cmdline)) == Found
  {
    var names := fs.dirs[outputDirectory];
    LocalFuzzersMembers(fs, outputDirectory, names);
    var k :| 0 <= k < |names| && d == JoinPath(outputDirectory, names[k]) && RunsLocally(fs, outputDirectory, names[k]);
    assert ValidName(names[k]);
    BaseOfJoin(outputDirectory, names[k]);
  }

  /**
   * A packet of a detected fuzzer passes the receiver's name check: unpacked
   * into a target directory that has no entry of that name yet, it reports
   * no error.
   */
  lemma DetectedFuzzerUnpacks(lib: Library, fs: Fs, outputDirectory: Path, d: Path, src: Fs, dst: Fs, targetDir: Path)
    requires Lawful(lib)
    requires ReadDir(fs, outputDirectory).Some?
    requires forall n :: n in fs.dirs[outputDirectory] ==> ValidName(n)
    requires d in Detected(fs, outputDirectory)
    requires WellFormedListing(src, JoinPath(d, QueueDir))
    requires FreshTarget(dst, targetDir, Base(d))
    ensures Unpacked(lib, Packet(lib, src, Base(d), d), targetDir, dst).1 == None
  {
    DetectedNames(fs, outputDirectory, d);
    PackThenUnpack(lib, src, Base(d), d, dst, targetDir);
  }

  /** The packets one pass over the local fuzzers sends, in order. */
  function RoundPackets(lib: Library, fs: Fs, dirs: seq<Path>): (packets: seq<Bytes>)
    ensures |packets| == |dirs|
  {
    if dirs == [] then []
    else
      var n := |dirs| - 1;
      RoundPackets(lib, fs, dirs[..n]) + [Packet(lib, fs, Base(dirs[n]), dirs[n])]
  }

  /** The k-th packet of a pass is the k-th directory packed under its base name, as the pass finds it. */
  lemma {:induction false} RoundPacketsAt(lib: Library, fs: Fs, dirs: seq<Path>)
    ensures forall k :: 0 <= k < |dirs| ==> RoundPackets(lib, fs, dirs)[k] == Packet(lib, fs, Base(dirs[k]), dirs[k])
  {
    if dirs != [] {
      var n := |dirs| - 1;
      var front := RoundPackets(lib, fs, dirs[..n]);
      var last := Packet(lib, fs, Base(dirs[n]), dirs[n]);
      assert RoundPackets(lib, fs, dirs) == front + [last];
      RoundPacketsAt(lib, fs, dirs[..n]);
      forall k | 0 <= k < |dirs|
        ensures RoundPackets(lib, fs, dirs)[k] == Packet(lib, fs, Base(dirs[k]), dirs[k])
      {
        if k < n {
          assert dirs[..n][k] == dirs[k];
          assert (front + [last])[k] == front[k];
        }
      }
    }
  }

  /** The counters after one SendToPeers call with packet, the attempts in accepted succeeding. */
  function Broadcast(current: Stat, packet: Bytes, peers: seq<Peer>, accepted: set<Attempt>): Stat
  {
    var alive := AliveCount(peers, accepted);
    WithAlivePeers(PushedTimes(current, SentStat(packet), alive), ToU8(alive))
  }

  /**
   * The network as each packet of a pass finds it: accepted(k) holds the
   * attempts that succeed for the k-th packet.
   */
  type Oracle = nat -> set<Attempt>

  /** The counters after each packet in turn was sent to the peers, the k-th packet meeting accepted(k). */
  function Broadcasts(current: Stat, packets: seq<Bytes>, peers: seq<Peer>, accepted: Oracle): Stat
  {
    if packets == [] then current
    else
      var n := |packets| - 1;
      Broadcast(Broadcasts(current, packets[..n], peers, accepted), packets[n], peers, accepted(n))
  }

  /** Broadcasting one more packet continues from the counters the earlier packets left. */
  lemma BroadcastsSnoc(current: Stat, packets: seq<Bytes>, packet: Bytes, peers: seq<Peer>, accepted: Oracle)
    ensures Broadcasts(current, packets + [packet], peers, accepted)
         == Broadcast(Broadcasts(current, packets, peers, accepted), packet, peers, accepted(|packets|))
  {
    assert (packets + [packet])[..|packets|] == packets;
  }

  /** The bytes credited to SentBytes: each packet's length once per peer that took that packet. */
  function SentTotal(packets: seq<Bytes>, peers: seq<Peer>, accepted: Oracle): nat
  {
    if packets == [] then 0
    else
      var n := |packets| - 1;
      SentTotal(packets[..n], peers, accepted) + Times(AliveCount(peers, accepted(n)), ToU64(|packets[n]|))
  }

  /**
   * Broadcasting packets adds, modulo 2^64, the length of every packet times
   * the number of peers that took that packet.
   */
  lemma {:induction false} BroadcastsSent(current: Stat, packets: seq<Bytes>, peers: seq<Peer>, accepted: Oracle)
    ensures Broadcasts(current, packets, peers, accepted).sentBytes
         == ToU64(current.sentBytes + SentTotal(packets, peers, accepted))
  {
    if packets != [] {
      var n := |packets| - 1;
      var alive := AliveCount(peers, accepted(n));
      var prev := Broadcasts(current, packets[..n], peers, accepted);
      var x := ToU64(|packets[n]|);
      var before := SentTotal(packets[..n], peers, accepted);
      BroadcastsSent(current, packets[..n], peers, accepted);
      assert SentStat(packets[n]) == Stat(x, 0, 0, 0);
      PushedTimesSent(prev, x, alive);
      var pushed := PushedTimes(prev, SentStat(packets[n]), alive);
      assert pushed.sentBytes == ToU64(prev.sentBytes + Times(alive, x));
      ToU64Add(current.sentBytes + before, Times(alive, x));
      assert Broadcasts(current, packets, peers, accepted) == WithAlivePeers(pushed, ToU8(alive));
    }
  }

  /**
   * Broadcasting leaves the received bytes and the registered peers alone,
   * and once anything was sent AlivePeer holds the number of peers that took
   * the last packet.
   */
  lemma {:induction false} BroadcastsFields(current: Stat, packets: seq<Bytes>, peers: seq<Peer>, accepted: Oracle)
    ensures var r := Broadcasts(current, packets, peers, accepted);
      && r.receivedBytes == current.receivedBytes
      && r.registeredPeers == current.registeredPeers
      && r.alivePeer == if packets == [] then current.alivePeer else ToU8(AliveCount(peers, accepted(|packets| - 1)))
  {
    if packets != [] {
      var n := |packets| - 1;
      var prev := Broadcasts(current, packets[..n], peers, accepted);
      BroadcastsFields(current, packets[..n], peers, accepted);
      PushedTimesSent(prev, ToU64(|packets[n]|), AliveCount(peers, accepted(n)));
    }
  }

  /**
   * One pass of the watch loop: the filesystem as the pass finds it, and for
   * each packet of the pass the attempts the peers accept, since every
   * SendToPeers call dials every peer afresh.
   */
  datatype Cycle = Cycle(fs: Fs, accepted: Oracle)

  /** The packets sent over the given passes, each pass over the same detected directories. */
  function WatchedPackets(lib: Library, cycles: seq<Cycle>, dirs: seq<Path>): (packets: seq<Bytes>)
    ensures |packets| == Times(|cycles|, |dirs|)
  {
    if cycles == [] then []
    else
      var n := |cycles| - 1;
      WatchedPackets(lib, cycles[..n], dirs) + RoundPackets(lib, cycles[n].fs, dirs)
  }

  /**
   * Detection happens once: every packet sent belongs to one pass over the
   * directories detected before the first pass.
   */
  lemma {:induction false} WatchedPacketsSound(lib: Library, cycles: seq<Cycle>, dirs: seq<Path>)
    ensures forall p :: p in WatchedPackets(lib, cycles, dirs) ==>
      exists c :: 0 <= c < |cycles| && p in RoundPackets(lib, cycles[c].fs, dirs)
  {
    if cycles != [] {
      var n := |cycles| - 1;
      WatchedPacketsSound(lib, cycles[..n], dirs);
      forall p | p in WatchedPackets(lib, cycles[..n], dirs)
        ensures exists c :: 0 <= c < |cycles| && p in RoundPackets(lib, cycles[c].fs, dirs)
      {
        var c :| 0 <= c < n && p in RoundPackets(lib, cycles[..n][c].fs, dirs);
        assert cycles[..n][c] == cycles[c];
      }
    }
  }

  /** Every pass sends all of its packets. */
  lemma {:induction false} WatchedPacketsComplete(lib: Library, cycles: seq<Cycle>, dirs: seq<Path>)
    ensures forall c, p :: 0 <= c < |cycles| && p in RoundPackets(lib, cycles[c].fs, dirs) ==>
      p in WatchedPackets(lib, cycles, dirs)
  {
    if cycles != [] {
      var n := |cycles| - 1;
      WatchedPacketsComplete(lib, cycles[..n], dirs);
      forall c, p | 0 <= c < |cycles| && p in RoundPackets(lib, cycles[c].fs, dirs)
        ensures p in WatchedPackets(lib, cycles, dirs)
      {
        if c < n {
          assert cycles[..n][c] == cycles[c];
          assert p in WatchedPackets(lib, cycles[..n], dirs);
        }
      }
    }
  }

  /** One pass as the counters see it: the packets sent and the network each of them meets. */
  datatype Round = Round(packets: seq<Bytes>, accepted: Oracle)

  /** The counters after the given rounds, each broadcasting its packets in turn. */
  function CountersAfter(current: Stat, rounds: seq<Round>, peers: seq<Peer>): Stat
  {
    if rounds == [] then current
    else
      var n := |rounds| - 1;
      Broadcasts(CountersAfter(current, rounds[..n], peers), rounds[n].packets, peers, rounds[n].accepted)
  }

  /** The bytes credited to SentBytes over the given rounds. */
  function RoundsTotal(rounds: seq<Round>, peers: seq<Peer>): nat
  {
    if rounds == [] then 0
    else
      var n := |rounds| - 1;
      RoundsTotal(rounds[..n], peers) + SentTotal(rounds[n].packets, peers, rounds[n].accepted)
  }

  /**
   * Over all rounds SentBytes grows, modulo 2^64, by every packet's length
   * times the number of peers that took that packet.
   */
  lemma {:induction false} CountersAfterSent(current: Stat, rounds: seq<Round>, peers: seq<Peer>)
    ensures CountersAfter(current, rounds, peers).sentBytes == ToU64(current.sentBytes + RoundsTotal(rounds, peers))
  {
    var after, total := CountersAfter(current, rounds, peers), RoundsTotal(rounds, peers);
    if rounds == [] {
      assert after == current && total == 0;
      ToU64OfU64(current.sentBytes);
    } else {
      var n := |rounds| - 1;
      CountersAfterSent(current, rounds[..n], peers);
      BroadcastsSentOnTop(current.sentBytes, RoundsTotal(rounds[..n], peers), CountersAfter(current, rounds[..n], peers),
                          rounds[n].packets, peers, rounds[n].accepted, after, total);
    }
    assert after.sentBytes == ToU64(current.sentBytes + total);
  }

  /** A round broadcast on top of counters that had already credited before bytes credits its own on top. */
  lemma {:induction false} BroadcastsSentOnTop(start: u64, before: nat, prev: Stat, packets: seq<Bytes>, peers: seq<Peer>, accepted: Oracle,
                                               after: Stat, total: nat)
    requires prev.sentBytes == ToU64(start + before)
    requires after == Broadcasts(prev, packets, peers, accepted)
    requires total == before + SentTotal(packets, peers, accepted)
    ensures after.sentBytes == ToU64(start + total)
  {
    BroadcastsSent(prev, packets, peers, accepted);
    ToU64Add(start + before, SentTotal(packets, peers, accepted));
  }

  /**
   * Rounds never change the received bytes or the registered peers, and
   * after a last round that sent anything AlivePeer is the number of peers
   * that took its last packet.
   */
  lemma {:induction false} CountersAfterFields(current: Stat, rounds: seq<Round>, peers: seq<Peer>)
    ensures var r := CountersAfter(current, rounds, peers);
      && r.receivedBytes == current.receivedBytes
      && r.registeredPeers == current.registeredPeers
      && ((forall k :: 0 <= k < |rounds| ==> rounds[k].packets == []) ==> r.alivePeer == current.alivePeer)
      && (rounds != [] && rounds[|rounds| - 1].packets != [] ==>
            var last := rounds[|rounds| - 1];
            r.alivePeer == ToU8(AliveCount(peers, last.accepted(|last.packets| - 1))))
  {
    if rounds != [] {
      var n := |rounds| - 1;
      CountersAfterFields(current, rounds[..n], peers);
      BroadcastsFields(CountersAfter(current, rounds[..n], peers), rounds[n].packets, peers, rounds[n].accepted);
      if forall k :: 0 <= k < |rounds| ==> rounds[k].packets == [] {
        forall k | 0 <= k < n
          ensures rounds[..n][k].packets == []
        {
          assert rounds[..n][k] == rounds[k];
        }
      }
    }
  }

  /** The rounds of the given passes over the detected directories. */
  function WatchedRounds(lib: Library, cycles: seq<Cycle>, dirs: seq<Path>): (rounds: seq<Round>)
    ensures |rounds| == |cycles|
  {
    if cycles == [] then []
    else
      var n := |cycles| - 1;
      WatchedRounds(lib, cycles[..n], dirs) + [Round(RoundPackets(lib, cycles[n].fs, dirs), cycles[n].accepted)]
  }

  /** The c-th round is the c-th pass's packets, meeting the c-th pass's network. */
  lemma {:induction false} WatchedRoundsAt(lib: Library, cycles: seq<Cycle>, dirs: seq<Path>, c: nat)
    requires c < |cycles|
    ensures WatchedRounds(lib, cycles, dirs)[c] == Round(RoundPackets(lib, cycles[c].fs, dirs), cycles[c].accepted)
  {
    var n := |cycles| - 1;
    var front := WatchedRounds(lib, cycles[..n], dirs);
    var last := Round(RoundPackets(lib, cycles[n].fs, dirs), cycles[n].accepted);
    assert WatchedRounds(lib, cycles, dirs) == front + [last];
    if c < n {
      WatchedRoundsAt(lib, cycles[..n], dirs, c);
      assert cycles[..n][c] == cycles[c];
      assert (front + [last])[c] == front[c];
    }
  }

  /** The counters after the given passes. */
  function WatchedCounters(current: Stat, lib: Library, cycles: seq<Cycle>, dirs: seq<Path>, peers: seq<Peer>): Stat
  {
    CountersAfter(current, WatchedRounds(lib, cycles, dirs), peers)
  }

  /** The bytes credited to SentBytes over the given passes. */
  function WatchedTotal(lib: Library, cycles: seq<Cycle>, dirs: seq<Path>, peers: seq<Peer>): nat
  {
    RoundsTotal(WatchedRounds(lib, cycles, dirs), peers)
  }

  /** One more pass broadcasts its packets on top of the counters the earlier passes left. */
  lemma {:induction false} WatchedStep(current: Stat, lib: Library, cycles: seq<Cycle>, dirs: seq<Path>, peers: seq<Peer>)
    requires cycles != []
    ensures var n := |cycles| - 1;
      WatchedCounters(current, lib, cycles, dirs, peers)
      == Broadcasts(WatchedCounters(current, lib, cycles[..n], dirs, peers), RoundPackets(lib, cycles[n].fs, dirs), peers, cycles[n].accepted)
  {
    var n := |cycles| - 1;
    var rounds := WatchedRounds(lib, cycles, dirs);
    assert rounds[..n] == WatchedRounds(lib, cycles[..n], dirs);
  }

  /** The watch loop's step: pass c adds its packets and its broadcasts to what passes 0..c-1 left. */
  lemma {:induction false} WatchedAdvance(current: Stat, lib: Library, cycles: seq<Cycle>, c: nat, dirs: seq<Path>, peers: seq<Peer>,
                                          sent: seq<Bytes>, prev: Stat, packets: seq<Bytes>, next: Stat)
    requires c < |cycles|
    requires sent == WatchedPackets(lib, cycles[..c], dirs)
    requires prev == WatchedCounters(current, lib, cycles[..c], dirs, peers)
    requires packets == RoundPackets(lib, cycles[c].fs, dirs)
    requires next == Broadcasts(prev, packets, peers, cycles[c].accepted)
    ensures sent + packets == WatchedPackets(lib, cycles[..c + 1], dirs)
    ensures next == WatchedCounters(current, lib, cycles[..c + 1], dirs, peers)
  {
    assert cycles[..c + 1][..c] == cycles[..c];
    WatchedStep(current, lib, cycles[..c + 1], dirs, peers);
  }

  /**
   * Over all passes SentBytes grows, modulo 2^64, by every packet's length
   * times the number of peers that took that packet.
   */
  lemma WatchedCountersSent(current: Stat, lib: Library, cycles: seq<Cycle>, dirs: seq<Path>, peers: seq<Peer>)
    ensures WatchedCounters(current, lib, cycles, dirs, peers).sentBytes
         == ToU64(current.sentBytes + WatchedTotal(lib, cycles, dirs, peers))
  {
    CountersAfterSent(current, WatchedRounds(lib, cycles, dirs), peers);
  }

  /**
   * Watching never changes the received bytes or the registered peers, and
   * once a pass sent anything AlivePeer is the number of peers that took the
   * last packet of the last pass.
   */
  lemma WatchedCountersFields(current: Stat, lib: Library, cycles: seq<Cycle>, dirs: seq<Path>, peers: seq<Peer>)
    ensures var r := WatchedCounters(current, lib, cycles, dirs, peers);
      && r.receivedBytes == current.receivedBytes
      && r.registeredPeers == current.registeredPeers
      && r.alivePeer == if cycles == [] || dirs == [] then current.alivePeer
                        else ToU8(AliveCount(peers, cycles[|cycles| - 1].accepted(|dirs| - 1)))
  {
    var rounds := WatchedRounds(lib, cycles, dirs);
    CountersAfterFields(current, rounds, peers);
    forall k | 0 <= k < |rounds|
      ensures rounds[k] == Round(RoundPackets(lib, cycles[k].fs, dirs), cycles[k].accepted)
    {
      WatchedRoundsAt(lib, cycles, dirs, k);
    }
  }

  /** The body of the watch loop for one directory: pack it under its base name and send the packet. */
  method SendFuzzer(lib: Library, fs: Fs, localFuzzDir: Path, registry: Registry, accepted: set<Attempt>, st: Counters)
    returns (packet: Bytes)
    modifies st
    ensures packet == Packet(lib, fs, Base(localFuzzDir), localFuzzDir)
    ensures st.Current() == Broadcast(old(st.Current()), packet, registry.peers, accepted)
  {
    var fuzzerName := Base(localFuzzDir);
    var packed := PackFuzzer(lib, fs, fuzzerName, localFuzzDir);
    packet := packed.value;
    var _, _, _ := registry.SendToPeers(packet, accepted, st);
  }

  /** One pass of the watch loop: pack every local fuzzer directory and send it to the peers. */
  method WatchCycle(lib: Library, fs: Fs, localFuzzers: seq<Path>, registry: Registry, accepted: Oracle, st: Counters)
    returns (packets: seq<Bytes>)
    modifies st
    ensures packets == RoundPackets(lib, fs, localFuzzers)
    ensures st.Current() == Broadcasts(old(st.Current()), packets, registry.peers, accepted)
  {
    packets := [];
    var k := 0;
    while k < |localFuzzers|
      invariant 0 <= k <= |localFuzzers|
      invariant packets == RoundPackets(lib, fs, localFuzzers[..k])
      invariant st.Current() == Broadcasts(old(st.Current()), packets, registry.peers, accepted)
    {
      var packet := SendFuzzer(lib, fs, localFuzzers[k], registry, accepted(k), st);
      BroadcastsSnoc(old(st.Current()), packets, packet, registry.peers, accepted);
      assert localFuzzers[..k + 1][..k] == localFuzzers[..k];
      packets := packets + [packet];
      k := k + 1;
    }
    assert localFuzzers[..k] == localFuzzers;
  }

  /**
   * WatchFuzzers: detects the local fuzzers once, then runs one pass of the
   * watch loop per given cycle.
   */
  method WatchFuzzers(lib: Library, outputDirectory: Path, initial: Fs, cycles: seq<Cycle>, registry: Registry, st: Counters)
    returns (sent: seq<Bytes>)
    modifies st
    ensures sent == WatchedPackets(lib, cycles, Detected(initial, outputDirectory))
    ensures st.Current() == WatchedCounters(old(st.Current()), lib, cycles, Detected(initial, outputDirectory), registry.peers)
  {
    var localFuzzers := DetectLocalFuzzers(initial, outputDirectory);
    sent := [];
    var c := 0;
    while c < |cycles|
      invariant 0 <= c <= |cycles|
      invariant sent == WatchedPackets(lib, cycles[..c], localFuzzers)
      invariant st.Current() == WatchedCounters(old(st.Current()), lib, cycles[..c], localFuzzers, registry.peers)
    {
      ghost var prev := st.Current();
      var packets := WatchCycle(lib, cycles[c].fs, localFuzzers, registry, cycles[c].accepted, st);
      WatchedAdvance(old(st.Current()), lib, cycles, c, localFuzzers, registry.peers, sent, prev, packets, st.Current());
      sent := sent + packets;
      c := c + 1;
    }
    assert cycles[..c] == cycles;
  }
}
