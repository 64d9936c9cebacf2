/**
 * net/sender.go: the list of peers, how it is read from a peer file and a
 * comma-separated flag, deduplicated and cleared of local addresses, and the
 * two-pass broadcast of a packet to every peer.
 *
 * The network is an oracle: accepted is the set of attempts whose dial and
 * write succeed, so Attempt(p, Retry) in accepted says that peer p takes the
 * whole packet when it is tried again after the pause.
 */
module Sender {
  import opened Wrappers
  import opened Seqs
  import opened Bytes
  import opened Peers
  import opened Stats

  // ---------------------------------------------------------------------
  // Reading peers
  // ---------------------------------------------------------------------

  /** One peer per piece, in order: CreatePeer applied to every piece. */
  function PeersOf(pieces: seq<string>, serverPort: Port): (r: seq<Peer>)
    ensures |r| == |pieces|
    ensures forall k :: 0 <= k < |r| ==> r[k] == CreatePeer(pieces[k], serverPort)
  {
    seq(|pieces|, k requires 0 <= k < |pieces| => CreatePeer(pieces[k], serverPort))
  }

  lemma PeersOfSnoc(pieces: seq<string>, i: nat, serverPort: Port)
    requires i < |pieces|
    ensures PeersOf(pieces[..i + 1], serverPort) == PeersOf(pieces[..i], serverPort) + [CreatePeer(pieces[i], serverPort)]
  {
    var a := PeersOf(pieces[..i + 1], serverPort);
    var b := PeersOf(pieces[..i], serverPort) + [CreatePeer(pieces[i], serverPort)];
    assert |a| == |b|;
    assert forall k :: 0 <= k < |a| ==> a[k] == b[k];
  }

  /** The peers of the lines of a peer file, skipping empty lines. */
  function LinePeers(lines: seq<string>, serverPort: Port): seq<Peer>
  {
    if lines == [] then []
    else
      var line := lines[|lines| - 1];
      LinePeers(lines[..|lines| - 1], serverPort) + (if |line| == 0 then [] else [CreatePeer(line, serverPort)])
  }

  lemma LinePeersStep(lines: seq<string>, i: nat, serverPort: Port)
    requires i < |lines|
    ensures LinePeers(lines[..i + 1], serverPort)
         == LinePeers(lines[..i], serverPort) + (if |lines[i]| == 0 then [] else [CreatePeer(lines[i], serverPort)])
  {
    assert lines[..i + 1][..i] == lines[..i];
  }

  /** The peers a peer file with these contents adds: one per non-empty line. */
  function FilePeers(contents: string, serverPort: Port): seq<Peer>
  {
    LinePeers(Split(contents, '\n'), serverPort)
  }

  /** The peers a -peers flag adds: one per comma-separated piece, empty pieces included. */
  function StringPeers(raw: string, serverPort: Port): seq<Peer>
  {
    PeersOf(Split(raw, ','), serverPort)
  }

  /** Every non-empty line gives one peer and empty lines give none. */
  lemma {:induction false} LinePeersCount(lines: seq<string>, serverPort: Port)
    ensures |LinePeers(lines, serverPort)| + Count(lines, []) == |lines|
  {
    if lines != [] {
      var n := |lines| - 1;
      var front := lines[..n];
      assert lines == front + [lines[n]];
      LinePeersCount(front, serverPort);
      CountAppend(front, [lines[n]], []);
    }
  }

  /** Every non-empty line yields its peer. */
  lemma {:induction false} LinePeersComplete(lines: seq<string>, serverPort: Port)
    ensures forall k :: 0 <= k < |lines| && |lines[k]| > 0 ==> CreatePeer(lines[k], serverPort) in LinePeers(lines, serverPort)
  {
    if lines != [] {
      var n := |lines| - 1;
      var front := lines[..n];
      LinePeersComplete(front, serverPort);
      forall k | 0 <= k < |lines| && |lines[k]| > 0
        ensures CreatePeer(lines[k], serverPort) in LinePeers(lines, serverPort)
      {
        if k < n {
          assert lines[k] == front[k];
        }
      }
    }
  }

  /** Every peer comes from a non-empty line. */
  lemma {:induction false} LinePeersSound(lines: seq<string>, serverPort: Port)
    ensures forall p :: p in LinePeers(lines, serverPort) ==>
      exists k :: 0 <= k < |lines| && |lines[k]| > 0 && p == CreatePeer(lines[k], serverPort)
  {
    if lines != [] {
      var n := |lines| - 1;
      var front := lines[..n];
      LinePeersSound(front, serverPort);
      forall p | p in LinePeers(lines, serverPort)
        ensures exists k :: 0 <= k < |lines| && |lines[k]| > 0 && p == CreatePeer(lines[k], serverPort)
      {
        if p in LinePeers(front, serverPort) {
          var k :| 0 <= k < n && |front[k]| > 0 && p == CreatePeer(front[k], serverPort);
          assert lines[k] == front[k];
        } else {
          assert |lines[n]| > 0 && p == CreatePeer(lines[n], serverPort);
        }
      }
    }
  }

  /** A peer string with c commas gives c + 1 peers, the k-th from the k-th piece. */
  lemma StringPeersCount(raw: string, serverPort: Port)
    ensures |StringPeers(raw, serverPort)| == Count(raw, ',') + 1
    ensures forall k :: 0 <= k < |StringPeers(raw, serverPort)| ==>
      StringPeers(raw, serverPort)[k] == CreatePeer(Split(raw, ',')[k], serverPort)
  {
    SplitLength(raw, ',');
  }

  // ---------------------------------------------------------------------
  // Removing doubles
  // ---------------------------------------------------------------------

  /**
   * The inner loop of removeDoubledPeers as written: j advances after a
   * removal too, so the peer that moved into position j is never compared.
   */
  function InnerPassAsWritten(s: seq<Peer>, i: nat, j: nat): (r: seq<Peer>)
    requires i < |s| && i < j <= |s| + 1
    ensures i < |r| <= |s|
    decreases |s| + 1 - j
  {
    if j >= |s| then s
    else if s[j].address == s[i].address then InnerPassAsWritten(Delete(s, j), i, j + 1)
    else InnerPassAsWritten(s, i, j + 1)
  }

  /** The outer loop of removeDoubledPeers as written, from position i on. */
  function RemoveDoubledAsWritten(s: seq<Peer>, i: nat): seq<Peer>
    requires i <= |s|
    decreases |s| - i
  {
    if i >= |s| then s
    else RemoveDoubledAsWritten(InnerPassAsWritten(s, i, i + 1), i + 1)
  }

  /** A removal in the as-written inner pass deletes a later copy of peer i. */
  lemma {:induction false} InnerPassAsWrittenKeepsFirsts(s: seq<Peer>, i: nat, j: nat, t: seq<Peer>)
    requires i < |s| && i < j <= |s| + 1
    requires Dedup(s) == Dedup(t) && Subseq(s, t)
    ensures Dedup(InnerPassAsWritten(s, i, j)) == Dedup(t)
    ensures Subseq(InnerPassAsWritten(s, i, j), t)
    decreases |s| + 1 - j
  {
    if j < |s| {
      if s[j].address == s[i].address {
        assert s[..j][i] == s[j];
        DedupDeleteLaterCopy(s, j);
        SubseqDelete(s, t, j);
        InnerPassAsWrittenKeepsFirsts(Delete(s, j), i, j + 1, t);
      } else {
        InnerPassAsWrittenKeepsFirsts(s, i, j + 1, t);
      }
    }
  }

  lemma {:induction false} RemoveDoubledAsWrittenKeepsFirsts(s: seq<Peer>, i: nat, t: seq<Peer>)
    requires i <= |s|
    requires Dedup(s) == Dedup(t) && Subseq(s, t)
    ensures Dedup(RemoveDoubledAsWritten(s, i)) == Dedup(t)
    ensures Subseq(RemoveDoubledAsWritten(s, i), t)
    decreases |s| - i
  {
    if i < |s| {
      InnerPassAsWrittenKeepsFirsts(s, i, i + 1, t);
      RemoveDoubledAsWrittenKeepsFirsts(InnerPassAsWritten(s, i, i + 1), i + 1, t);
    }
  }

  /**
   * What the as-written loop does get right: it only deletes later copies,
   * so every address survives, in its original order.
   */
  lemma RemoveDoubledAsWrittenSound(s: seq<Peer>)
    ensures Dedup(RemoveDoubledAsWritten(s, 0)) == Dedup(s)
    ensures Subseq(RemoveDoubledAsWritten(s, 0), s)
    ensures forall p :: p in s <==> p in RemoveDoubledAsWritten(s, 0)
  {
    SubseqRefl(s);
    RemoveDoubledAsWrittenKeepsFirsts(s, 0, s);
    DedupSpec(s);
    DedupSpec(RemoveDoubledAsWritten(s, 0));
  }

  /** Three copies of one address: the as-written loop leaves two of them. */
  lemma RemoveDoubledAsWrittenKeepsADouble()
    ensures var a := Peer("10.0.0.1:1337");
      RemoveDoubledAsWritten([a, a, a], 0) == [a, a] && !Distinct(RemoveDoubledAsWritten([a, a, a], 0))
  {
    var a := Peer("10.0.0.1:1337");
    assert Delete([a, a, a], 1) == [a, a];
    assert InnerPassAsWritten([a, a], 0, 2) == [a, a];
    assert InnerPassAsWritten([a, a, a], 0, 1) == [a, a];
    assert InnerPassAsWritten([a, a], 1, 2) == [a, a];
    assert RemoveDoubledAsWritten([a, a], 2) == [a, a];
    assert RemoveDoubledAsWritten([a, a], 1) == [a, a];
    assert [a, a][0] == [a, a][1];
  }

  /** No element before position i has a copy after it. */
  ghost predicate NoLaterCopies(s: seq<Peer>, i: int)
  {
    forall a, b :: 0 <= a < i && a < b < |s| ==> s[a] != s[b]
  }

  /** Deleting a position after i keeps the earlier positions free of later copies. */
  lemma NoLaterCopiesDelete(s: seq<Peer>, i: nat, j: nat)
    requires i < j < |s| && NoLaterCopies(s, i)
    ensures NoLaterCopies(Delete(s, j), i)
  {
    var t := Delete(s, j);
    forall a, b | 0 <= a < i && a < b < |t|
      ensures t[a] != t[b]
    {
      if b < j {
        assert t[b] == s[b];
      } else {
        assert t[b] == s[b + 1];
      }
    }
  }

  /** Deleting a copy of s[i] found at j keeps what the inner loop of the corrected dedup knows. */
  lemma RemoveLaterCopy(s: seq<Peer>, i: nat, j: nat)
    requires i < j < |s| && s[j].address == s[i].address
    requires NoLaterCopies(s, i)
    requires forall k :: i < k < j ==> s[k] != s[i]
    ensures Dedup(Delete(s, j)) == Dedup(s)
    ensures NoLaterCopies(Delete(s, j), i)
    ensures forall k :: i < k < j ==> Delete(s, j)[k] != Delete(s, j)[i]
  {
    assert s[..j][i] == s[j];
    DedupDeleteLaterCopy(s, j);
    NoLaterCopiesDelete(s, i, j);
  }

  /** Once nothing after position i repeats s[i], position i is done. */
  lemma NoLaterCopiesNext(s: seq<Peer>, i: nat)
    requires i < |s| && NoLaterCopies(s, i)
    requires forall k :: i < k < |s| ==> s[k] != s[i]
    ensures NoLaterCopies(s, i + 1)
  {
  }

  // ---------------------------------------------------------------------
  // Removing local peers
  // ---------------------------------------------------------------------

  /** s without the peers whose address is on the blacklist, in order. */
  function Unlisted(s: seq<Peer>, blacklist: seq<Peer>): (r: seq<Peer>)
    ensures |r| <= |s|
  {
    if s == [] then []
    else
      var p := s[|s| - 1];
      Unlisted(s[..|s| - 1], blacklist) + (if p in blacklist then [] else [p])
  }

  /** The filter keeps exactly the peers that are not blacklisted. */
  lemma {:induction false} UnlistedMembers(s: seq<Peer>, blacklist: seq<Peer>)
    ensures forall p :: p in Unlisted(s, blacklist) <==> p in s && p !in blacklist
  {
    if s != [] {
      var n := |s| - 1;
      UnlistedMembers(s[..n], blacklist);
      assert s == s[..n] + [s[n]];
    }
  }

  /** The filter keeps the order. */
  lemma {:induction false} UnlistedSubseq(s: seq<Peer>, blacklist: seq<Peer>)
    ensures Subseq(Unlisted(s, blacklist), s)
  {
    if s != [] {
      var n := |s| - 1;
      var front := Unlisted(s[..n], blacklist);
      UnlistedSubseq(s[..n], blacklist);
      SubseqSnoc(front, s[..n], s[n], s[n] !in blacklist);
      assert s == s[..n] + [s[n]];
      assert Unlisted(s, blacklist) == if s[n] !in blacklist then front + [s[n]] else front;
    }
  }

  /** A list without doubles stays without doubles. */
  lemma {:induction false} UnlistedDistinct(s: seq<Peer>, blacklist: seq<Peer>)
    requires Distinct(s)
    ensures Distinct(Unlisted(s, blacklist))
  {
    if s != [] {
      var n := |s| - 1;
      var front := Unlisted(s[..n], blacklist);
      assert Distinct(s[..n]);
      UnlistedDistinct(s[..n], blacklist);
      if s[n] !in blacklist {
        assert s[n] !in s[..n];
        UnlistedMembers(s[..n], blacklist);
        assert s[n] !in front;
        assert Unlisted(s, blacklist) == front + [s[n]];
      }
    }
  }

  /** Deleting a blacklisted peer does not change the filtered list. */
  lemma {:induction false} UnlistedDelete(s: seq<Peer>, j: nat, blacklist: seq<Peer>)
    requires j < |s| && s[j] in blacklist
    ensures Unlisted(Delete(s, j), blacklist) == Unlisted(s, blacklist)
    decreases |s|
  {
    var t := Delete(s, j);
    var n := |s| - 1;
    if j == n {
      assert t == s[..n];
    } else {
      assert t[..n - 1] == Delete(s[..n], j);
      UnlistedDelete(s[..n], j, blacklist);
      assert t[n - 1] == s[n];
    }
  }

  /** A list with no blacklisted peer is its own filtering. */
  lemma {:induction false} UnlistedOfClean(s: seq<Peer>, blacklist: seq<Peer>)
    requires forall k :: 0 <= k < |s| ==> s[k] !in blacklist
    ensures Unlisted(s, blacklist) == s
  {
    if s != [] {
      UnlistedOfClean(s[..|s| - 1], blacklist);
    }
  }

  // ---------------------------------------------------------------------
  // ReadPeers as a whole
  // ---------------------------------------------------------------------

  /** The peers collected from the peer file and the -peers string, appended to initial. */
  function Gathered(initial: seq<Peer>, peerFile: string, fileContents: Option<string>, peerString: string, serverPort: Port): seq<Peer>
  {
    var fromFile := if |peerFile| > 0 && fileContents.Some? then initial + FilePeers(fileContents.value, serverPort) else initial;
    if |peerString| > 0 then fromFile + StringPeers(peerString, serverPort) else fromFile
  }

  /** The peer list ReadPeers leaves behind, starting from initial. */
  function Configured(initial: seq<Peer>, peerFile: string, fileContents: Option<string>, peerString: string,
                      removeLocals: bool, localAddresses: Option<seq<string>>, serverPort: Port): seq<Peer>
  {
    var unique := Dedup(Gathered(initial, peerFile, fileContents, peerString, serverPort));
    if removeLocals && localAddresses.Some? then Unlisted(unique, PeersOf(localAddresses.value, serverPort)) else unique
  }

  /** Where a configured peer may come from. */
  ghost predicate Source(p: Peer, initial: seq<Peer>, peerFile: string, fileContents: Option<string>, peerString: string, serverPort: Port)
  {
    || p in initial
    || (|peerFile| > 0 && fileContents.Some? && p in FilePeers(fileContents.value, serverPort))
    || (|peerString| > 0 && p in StringPeers(peerString, serverPort))
  }

  lemma GatheredMembers(initial: seq<Peer>, peerFile: string, fileContents: Option<string>, peerString: string, serverPort: Port)
    ensures forall p :: p in Gathered(initial, peerFile, fileContents, peerString, serverPort) <==>
      Source(p, initial, peerFile, fileContents, peerString, serverPort)
  {
  }

  /**
   * ReadPeers registers every peer of its sources once, and nothing else,
   * except the local ones when removing them is requested and the
   * interfaces could be listed.
   */
  lemma ConfiguredPeers(initial: seq<Peer>, peerFile: string, fileContents: Option<string>, peerString: string,
                        removeLocals: bool, localAddresses: Option<seq<string>>, serverPort: Port)
    ensures var r := Configured(initial, peerFile, fileContents, peerString, removeLocals, localAddresses, serverPort);
      && Distinct(r)
      && forall p :: p in r <==>
           Source(p, initial, peerFile, fileContents, peerString, serverPort)
           && !(removeLocals && localAddresses.Some? && p in PeersOf(localAddresses.value, serverPort))
  {
    var gathered := Gathered(initial, peerFile, fileContents, peerString, serverPort);
    GatheredMembers(initial, peerFile, fileContents, peerString, serverPort);
    DedupSpec(gathered);
    if removeLocals && localAddresses.Some? {
      var blacklist := PeersOf(localAddresses.value, serverPort);
      UnlistedMembers(Dedup(gathered), blacklist);
      UnlistedDistinct(Dedup(gathered), blacklist);
    }
  }

  // ---------------------------------------------------------------------
  // Sending
  // ---------------------------------------------------------------------

  /** The first pass over all peers, or the retry pass over the failed ones. */
  datatype Pass = First | Retry

  /** One SendToPeer call. */
  datatype Attempt = Attempt(peer: Peer, pass: Pass)

  /** The calls made to the peers of ps in one pass, in order. */
  function Tagged(ps: seq<Peer>, pass: Pass): (r: seq<Attempt>)
    ensures |r| == |ps|
  {
    if ps == [] then [] else Tagged(ps[..|ps| - 1], pass) + [Attempt(ps[|ps| - 1], pass)]
  }

  /** The k-th call of a pass goes to the k-th peer of its list. */
  lemma {:induction false} TaggedAt(ps: seq<Peer>, pass: Pass, k: nat)
    requires k < |ps|
    ensures Tagged(ps, pass)[k] == Attempt(ps[k], pass)
  {
    if k < |ps| - 1 {
      TaggedAt(ps[..|ps| - 1], pass, k);
    }
  }

  /** The peers of ps whose attempt in this pass fails, in order. */
  function Failures(ps: seq<Peer>, accepted: set<Attempt>, pass: Pass): (r: seq<Peer>)
    ensures |r| <= |ps|
  {
    if ps == [] then []
    else
      var p := ps[|ps| - 1];
      Failures(ps[..|ps| - 1], accepted, pass) + (if Attempt(p, pass) in accepted then [] else [p])
  }

  /** How many attempts to the peers of ps succeed in this pass. */
  function Successes(ps: seq<Peer>, accepted: set<Attempt>, pass: Pass): nat
  {
    if ps == [] then 0
    else Successes(ps[..|ps| - 1], accepted, pass) + (if Attempt(ps[|ps| - 1], pass) in accepted then 1 else 0)
  }

  /** The failures are the peers whose attempt fails, in their order. */
  lemma {:induction false} FailuresMembers(ps: seq<Peer>, accepted: set<Attempt>, pass: Pass)
    ensures forall p :: p in Failures(ps, accepted, pass) <==> p in ps && Attempt(p, pass) !in accepted
    ensures Subseq(Failures(ps, accepted, pass), ps)
  {
    if ps != [] {
      var n := |ps| - 1;
      var front := Failures(ps[..n], accepted, pass);
      FailuresMembers(ps[..n], accepted, pass);
      assert ps == ps[..n] + [ps[n]];
      SubseqSnoc(front, ps[..n], ps[n], Attempt(ps[n], pass) !in accepted);
      assert Failures(ps, accepted, pass) == if Attempt(ps[n], pass) !in accepted then front + [ps[n]] else front;
    }
  }

  /** Every attempt either succeeds or lands in the failures. */
  lemma {:induction false} SuccessesAndFailures(ps: seq<Peer>, accepted: set<Attempt>, pass: Pass)
    ensures Successes(ps, accepted, pass) + |Failures(ps, accepted, pass)| == |ps|
  {
    if ps != [] {
      SuccessesAndFailures(ps[..|ps| - 1], accepted, pass);
    }
  }

  /** One more attempt of a pass: its record, and where its outcome is counted. */
  lemma PassStep(ps: seq<Peer>, i: nat, accepted: set<Attempt>, pass: Pass)
    requires i < |ps|
    ensures Failures(ps[..i + 1], accepted, pass) == Failures(ps[..i], accepted, pass) + (if Attempt(ps[i], pass) in accepted then [] else [ps[i]])
    ensures Successes(ps[..i + 1], accepted, pass) == Successes(ps[..i], accepted, pass) + (if Attempt(ps[i], pass) in accepted then 1 else 0)
    ensures Tagged(ps[..i + 1], pass) == Tagged(ps[..i], pass) + [Attempt(ps[i], pass)]
  {
    assert ps[..i + 1][..i] == ps[..i];
  }

  /** A uint8 increment of a truncated count is the truncated successor. */
  lemma ToU8Succ(n: nat)
    ensures Add8(ToU8(n), 1) == ToU8(n + 1)
  {
  }

  /** The count SendToPeers arrives at: successes of the first pass plus those of the retry. */
  function AliveCount(ps: seq<Peer>, accepted: set<Attempt>): nat
  {
    Successes(ps, accepted, First) + Successes(Failures(ps, accepted, First), accepted, Retry)
  }

  /** How many peers of ps take the packet in one of the two passes. */
  function Delivered(ps: seq<Peer>, accepted: set<Attempt>): nat
  {
    if ps == [] then 0
    else
      var p := ps[|ps| - 1];
      Delivered(ps[..|ps| - 1], accepted) + (if Attempt(p, First) in accepted || Attempt(p, Retry) in accepted then 1 else 0)
  }

  /** The alive count is the number of peers that took the packet, so at most the number of peers. */
  lemma {:induction false} AliveCountDelivered(ps: seq<Peer>, accepted: set<Attempt>)
    ensures AliveCount(ps, accepted) == Delivered(ps, accepted)
    ensures AliveCount(ps, accepted) <= |ps|
  {
    if ps != [] {
      var n := |ps| - 1;
      var front := ps[..n];
      var p := ps[n];
      AliveCountDelivered(front, accepted);
      var f := Failures(front, accepted, First);
      assert Successes(ps, accepted, First) == Successes(front, accepted, First) + (if Attempt(p, First) in accepted then 1 else 0);
      assert Delivered(ps, accepted) == Delivered(front, accepted) + (if Attempt(p, First) in accepted || Attempt(p, Retry) in accepted then 1 else 0);
      if Attempt(p, First) in accepted {
        assert Failures(ps, accepted, First) == f;
      } else {
        assert Failures(ps, accepted, First) == f + [p];
        assert (f + [p])[..|f|] == f;
        assert Successes(f + [p], accepted, Retry) == Successes(f, accepted, Retry) + (if Attempt(p, Retry) in accepted then 1 else 0);
      }
      SuccessesAndFailures(ps, accepted, First);
      SuccessesAndFailures(Failures(ps, accepted, First), accepted, Retry);
    }
  }

  /** The record SendToPeer pushes after writing the whole packet. */
  function SentStat(content: Bytes): Stat
  {
    Stat(ToU64(|content|), 0, 0, 0)
  }

  /**
   * The counters after a broadcast: SentBytes grew by the packet size once
   * per peer that took it, modulo 2^64, and AlivePeer is that number of
   * peers as a uint8.
   */
  lemma BroadcastCounters(before: Stat, content: Bytes, ps: seq<Peer>, accepted: set<Attempt>)
    ensures var n := Delivered(ps, accepted);
      WithAlivePeers(PushedTimes(before, SentStat(content), AliveCount(ps, accepted)), ToU8(AliveCount(ps, accepted)))
      == Stat(ToU64(before.sentBytes + n * ToU64(|content|)), before.receivedBytes, before.registeredPeers, ToU8(n))
  {
    AliveCountDelivered(ps, accepted);
    PushedTimesSent(before, ToU64(|content|), AliveCount(ps, accepted));
    TimesIsProduct(AliveCount(ps, accepted), ToU64(|content|));
  }

  /**
   * Peer.SendToPeer: dials the peer and writes the packet; on success it
   * pushes the number of bytes written, which for a completed write is the
   * whole packet.
   */
  method SendToPeer(peer: Peer, pass: Pass, content: Bytes, accepted: set<Attempt>, st: Counters) returns (ok: bool)
    modifies st
    ensures ok == (Attempt(peer, pass) in accepted)
    ensures st.Current() == if ok then Pushed(old(st.Current()), SentStat(content)) else old(st.Current())
  {
    ok := (Attempt(peer, pass) in accepted);
    if ok {
      st.PushStat(SentStat(content));
    }
  }

  /**
   * The inner loop of removeLocalPeers: compares the peer's address with
   * each blacklisted address in turn and stops at the first match.
   */
  method OnBlacklist(peer: Peer, blacklist: seq<Peer>) returns (found: bool)
    ensures found <==> peer in blacklist
  {
    var b := 0;
    while b < |blacklist|
      invariant 0 <= b <= |blacklist|
      invariant peer !in blacklist[..b]
    {
      if peer.address == blacklist[b].address {
        return true;
      }
      assert blacklist[..b + 1] == blacklist[..b] + [blacklist[b]];
      b := b + 1;
    }
    assert blacklist[..b] == blacklist;
    return false;
  }

  /** The peer list of the process: the package variable peers. */
  class Registry {
    var peers: seq<Peer>

    constructor()
      ensures peers == []
    {
      peers := [];
    }

    /**
     * readPeersFile: with the file's contents (None when it cannot be
     * read), appends one peer per non-empty line.
     */
    method ReadPeersFile(contents: Option<string>, serverPort: Port) returns (ok: bool)
      modifies this
      ensures ok <==> contents.Some?
      ensures contents.None? ==> peers == old(peers)
      ensures contents.Some? ==> peers == old(peers) + FilePeers(contents.value, serverPort)
    {
      if contents.None? {
        return false;
      }
      var lines := Split(contents.value, '\n');
      var i := 0;
      while i < |lines|
        invariant 0 <= i <= |lines|
        invariant peers == old(peers) + LinePeers(lines[..i], serverPort)
      {
        var line := lines[i];
        LinePeersStep(lines, i, serverPort);
        if |line| == 0 {
          i := i + 1;
          continue;
        }
        assert peers + [CreatePeer(line, serverPort)]
            == old(peers) + (LinePeers(lines[..i], serverPort) + [CreatePeer(line, serverPort)]);
        peers := peers + [CreatePeer(line, serverPort)];
        i := i + 1;
      }
      assert lines[..i] == lines;
      return true;
    }

    /** readPeersString: appends one peer per comma-separated piece. */
    method ReadPeersString(raw: string, serverPort: Port)
      modifies this
      ensures peers == old(peers) + StringPeers(raw, serverPort)
    {
      var pieces := Split(raw, ',');
      var i := 0;
      while i < |pieces|
        invariant 0 <= i <= |pieces|
        invariant peers == old(peers) + PeersOf(pieces[..i], serverPort)
      {
        PeersOfSnoc(pieces, i, serverPort);
        peers := peers + [CreatePeer(pieces[i], serverPort)];
        i := i + 1;
      }
      assert pieces[..i] == pieces;
    }

    /** removeDoubledPeers exactly as written, including the skip after a removal. */
    method RemoveDoubledPeersAsWritten()
      modifies this
      ensures peers == RemoveDoubledAsWritten(old(peers), 0)
    {
      var i := 0;
      while i < |peers|
        invariant 0 <= i <= |peers|
        invariant RemoveDoubledAsWritten(peers, i) == RemoveDoubledAsWritten(old(peers), 0)
      {
        ghost var start := peers;
        var j := i + 1;
        while j < |peers|
          invariant i < |peers| && i + 1 <= j <= |peers| + 1
          invariant InnerPassAsWritten(peers, i, j) == InnerPassAsWritten(start, i, i + 1)
          decreases |peers| + 1 - j
        {
          if peers[j].address == peers[i].address {
            peers := Delete(peers, j);
          }
          j := j + 1;
        }
        i := i + 1;
      }
    }

    /**
     * removeDoubledPeers as intended: keeps the first peer of every address,
     * in order. After a removal the same position is compared again.
     */
    method RemoveDoubledPeers()
      modifies this
      ensures peers == Dedup(old(peers))
    {
      ghost var firsts := Dedup(peers);
      var i := 0;
      while i < |peers|
        invariant 0 <= i <= |peers|
        invariant Dedup(peers) == firsts
        invariant NoLaterCopies(peers, i)
        decreases |peers| - i
      {
        ghost var length := |peers|;
        var j := i + 1;
        while j < |peers|
          invariant i < j <= |peers| <= length
          invariant Dedup(peers) == firsts
          invariant NoLaterCopies(peers, i)
          invariant forall k :: i < k < j ==> peers[k] != peers[i]
          decreases |peers| - j
        {
          if peers[j].address == peers[i].address {
            RemoveLaterCopy(peers, i, j);
            peers := Delete(peers, j);
          } else {
            j := j + 1;
          }
        }
        NoLaterCopiesNext(peers, i);
        i := i + 1;
      }
      DedupOfDistinct(peers);
    }

    /**
     * removeLocalPeers: with the addresses of the local interfaces (None
     * when they cannot be listed), drops every peer whose address matches
     * one of them with the server port appended.
     */
    method RemoveLocalPeers(localAddresses: Option<seq<string>>, serverPort: Port)
      modifies this
      ensures localAddresses.None? ==> peers == old(peers)
      ensures localAddresses.Some? ==> peers == Unlisted(old(peers), PeersOf(localAddresses.value, serverPort))
    {
      if localAddresses.None? {
        return;
      }
      var addresses := localAddresses.value;
      var blacklist: seq<Peer> := [];
      var k := 0;
      while k < |addresses|
        invariant 0 <= k <= |addresses|
        invariant blacklist == PeersOf(addresses[..k], serverPort)
        invariant peers == old(peers)
      {
        PeersOfSnoc(addresses, k, serverPort);
        blacklist := blacklist + [CreatePeer(addresses[k], serverPort)];
        k := k + 1;
      }
      assert addresses[..k] == addresses;

      ghost var kept := Unlisted(peers, blacklist);
      var i: int := 0;
      while i < |peers|
        invariant 0 <= i <= |peers|
        invariant Unlisted(peers, blacklist) == kept
        invariant forall k :: 0 <= k < i ==> peers[k] !in blacklist
        decreases |peers| - i
      {
        var found := OnBlacklist(peers[i], blacklist);
        if found {
          UnlistedDelete(peers, i, blacklist);
          peers := Delete(peers, i);
          i := i - 1;
        }
        i := i + 1;
      }
      UnlistedOfClean(peers, blacklist);
    }

    /**
     * ReadPeers: the peer file if one is named, then the -peers string if
     * given, then doubles removed, then local peers if requested; finally
     * the number of peers is pushed as RegisteredPeers, as a uint8.
     */
    method ReadPeers(peerFile: string, fileContents: Option<string>, peerString: string,
                     removeLocals: bool, localAddresses: Option<seq<string>>, serverPort: Port, st: Counters)
      modifies this, st
      ensures peers == Configured(old(peers), peerFile, fileContents, peerString, removeLocals, localAddresses, serverPort)
      ensures st.Current() == Pushed(old(st.Current()), Stat(0, 0, ToU8(|peers|), 0))
    {
      ghost var counters := st.Current();
      ghost var gathered := Gathered(peers, peerFile, fileContents, peerString, serverPort);
      ghost var configured := Configured(peers, peerFile, fileContents, peerString, removeLocals, localAddresses, serverPort);
      if |peerFile| > 0 {
        var ok := ReadPeersFile(fileContents, serverPort);
      }
      if |peerString| > 0 {
        ReadPeersString(peerString, serverPort);
      }
      assert peers == gathered;
      RemoveDoubledPeers();
      if removeLocals {
        RemoveLocalPeers(localAddresses, serverPort);
      }
      assert peers == configured;
      assert st.Current() == counters;
      st.PushStat(Stat(0, 0, ToU8(|peers|), 0));
    }

    /**
     * SendToPeers: one attempt per peer, then, after a pause if any failed,
     * one more attempt per failed peer; AlivePeer is set after each pass to
     * the successes so far, counted in a uint8. afterFirst is the record the
     * counters hold between the two passes.
     */
    method SendToPeers(content: Bytes, accepted: set<Attempt>, st: Counters)
      returns (attempts: seq<Attempt>, slept: bool, ghost afterFirst: Stat)
      modifies st
      ensures attempts == Tagged(peers, First) + Tagged(Failures(peers, accepted, First), Retry)
      ensures slept <==> |Failures(peers, accepted, First)| > 0
      ensures afterFirst == WithAlivePeers(PushedTimes(old(st.Current()), SentStat(content), Successes(peers, accepted, First)),
                                           ToU8(Successes(peers, accepted, First)))
      ensures st.Current() == WithAlivePeers(PushedTimes(old(st.Current()), SentStat(content), AliveCount(peers, accepted)),
                                             ToU8(AliveCount(peers, accepted)))
    {
      ghost var before := st.Current();
      ghost var sent := SentStat(content);
      ghost var s1 := Successes(peers, accepted, First);
      var failedPeers, alivePeers, firstAttempts := SendRound(peers, First, content, accepted, st, 0);
      st.SetAlivePeers(alivePeers);
      assert st.Current() == WithAlivePeers(PushedTimes(before, sent, s1), ToU8(s1));

      slept := |failedPeers| > 0;

      ghost var s2 := Successes(failedPeers, accepted, Retry);
      afterFirst := st.Current();
      var lostPeers, retryAttempts;
      lostPeers, alivePeers, retryAttempts := SendRound(failedPeers, Retry, content, accepted, st, alivePeers);
      assert st.Current() == PushedTimes(afterFirst, sent, s2);
      PushedTimesKeepsAlivePeers(PushedTimes(before, sent, s1), sent, ToU8(s1), s2);
      PushedTimesAdd(before, sent, s1, s2);
      assert st.Current() == WithAlivePeers(PushedTimes(before, sent, s1 + s2), ToU8(s1));
      ToU8Add(s1, s2);
      assert alivePeers == ToU8(s1 + s2);
      attempts := firstAttempts + retryAttempts;
      st.SetAlivePeers(alivePeers);
      assert AliveCount(peers, accepted) == s1 + s2;
    }
  }

  /**
   * One pass of SendToPeers over ps: a SendToPeer call per peer, in order;
   * the peers that fail are collected and the successes are counted on from
   * alive in a uint8.
   */
  method SendRound(ps: seq<Peer>, pass: Pass, content: Bytes, accepted: set<Attempt>, st: Counters, alive: u8)
    returns (failed: seq<Peer>, alivePeers: u8, attempts: seq<Attempt>)
    modifies st
    ensures failed == Failures(ps, accepted, pass)
    ensures alivePeers == ToU8(alive + Successes(ps, accepted, pass))
    ensures attempts == Tagged(ps, pass)
    ensures st.Current() == PushedTimes(old(st.Current()), SentStat(content), Successes(ps, accepted, pass))
  {
    failed, alivePeers, attempts := [], alive, [];
    ghost var before := st.Current();
    ghost var sent := SentStat(content);
    ghost var delivered: nat := 0;
    var i := 0;
    while i < |ps|
      invariant 0 <= i <= |ps|
      invariant failed == Failures(ps[..i], accepted, pass)
      invariant delivered == Successes(ps[..i], accepted, pass)
      invariant alivePeers == ToU8(alive + delivered)
      invariant attempts == Tagged(ps[..i], pass)
      invariant st.Current() == PushedTimes(before, sent, delivered)
    {
      PassStep(ps, i, accepted, pass);
      ToU8Succ(alive + delivered);
      var ok := SendToPeer(ps[i], pass, content, accepted, st);
      attempts := attempts + [Attempt(ps[i], pass)];
      if !ok {
        failed := failed + [ps[i]];
      } else {
        alivePeers := Add8(alivePeers, 1);
        delivered := delivered + 1;
      }
      i := i + 1;
    }
    assert ps[..i] == ps;
  }
}
