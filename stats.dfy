/**
 * stats/stats.go: the running traffic and peer counters. The byte counters
 * are uint64 and the peer counters uint8, so every sum wraps around.
 */
module Stats {

  type u64 = x: int | 0 <= x < 0x1_0000_0000_0000_0000
  type u8 = x: int | 0 <= x < 0x100

  /** Addition of two uint64 values, wrapping modulo 2^64. */
  function Add64(a: u64, b: u64): u64
  {
    (a + b) % 0x1_0000_0000_0000_0000
  }

  /** Addition of two uint8 values, wrapping modulo 2^8. */
  function Add8(a: u8, b: u8): u8
  {
    (a + b) % 0x100
  }

  /** The truncating conversion uint64(n) of a non-negative count. */
  function ToU64(n: nat): u64
  {
    n % 0x1_0000_0000_0000_0000
  }

  /** The truncating conversion uint8(n) of a non-negative count. */
  function ToU8(n: nat): u8
  {
    n % 0x100
  }

  /** The Stat record: a snapshot of the counters, or an increment to push. */
  datatype Stat = Stat(sentBytes: u64, receivedBytes: u64, registeredPeers: u8, alivePeer: u8)

  /** The all-zero record, as a Go zero value. */
  const Zero: Stat := Stat(0, 0, 0, 0)

  /** The counters after PushStat(s): three sums, and AlivePeer left alone. */
  function Pushed(current: Stat, s: Stat): Stat
  {
    Stat(Add64(current.sentBytes, s.sentBytes),
         Add64(current.receivedBytes, s.receivedBytes),
         Add8(current.registeredPeers, s.registeredPeers),
         current.alivePeer)
  }

  /** The counters after SetAlivePeers(n). */
  function WithAlivePeers(current: Stat, n: u8): Stat
  {
    current.(alivePeer := n)
  }

  /** Field-wise wrapped sum of two increments. */
  function Sum(a: Stat, b: Stat): Stat
  {
    Stat(Add64(a.sentBytes, b.sentBytes),
         Add64(a.receivedBytes, b.receivedBytes),
         Add8(a.registeredPeers, b.registeredPeers),
         Add8(a.alivePeer, b.alivePeer))
  }

  /** A byte counter wraps exactly when the true sum reaches 2^64, and then it drops below both summands. */
  lemma Add64Wraps(a: u64, b: u64)
    ensures Add64(a, b) == a + b <==> a + b < 0x1_0000_0000_0000_0000
    ensures Add64(a, b) < a <==> a + b >= 0x1_0000_0000_0000_0000
  {
  }

  lemma Add64Associative(a: u64, b: u64, c: u64)
    ensures Add64(Add64(a, b), c) == Add64(a, Add64(b, c))
  {
  }

  lemma Add8Associative(a: u8, b: u8, c: u8)
    ensures Add8(Add8(a, b), c) == Add8(a, Add8(b, c))
  {
  }

  /** Pushing a zero record changes nothing. */
  lemma PushZero(current: Stat)
    ensures Pushed(current, Zero) == current
  {
  }

  /** Two pushes equal one push of their field-wise sum. */
  lemma PushTwice(current: Stat, a: Stat, b: Stat)
    ensures Pushed(Pushed(current, a), b) == Pushed(current, Sum(a, b))
  {
    Add64Associative(current.sentBytes, a.sentBytes, b.sentBytes);
    Add64Associative(current.receivedBytes, a.receivedBytes, b.receivedBytes);
    Add8Associative(current.registeredPeers, a.registeredPeers, b.registeredPeers);
  }

  /** The order of pushes does not matter. */
  lemma PushCommutes(current: Stat, a: Stat, b: Stat)
    ensures Pushed(Pushed(current, a), b) == Pushed(Pushed(current, b), a)
  {
    PushTwice(current, a, b);
    PushTwice(current, b, a);
  }

  /** PushStat never touches AlivePeer, whatever the pushed record holds. */
  lemma PushKeepsAlivePeers(current: Stat, s: Stat)
    ensures Pushed(current, s).alivePeer == current.alivePeer
    ensures Pushed(current, s) == Pushed(current, s.(alivePeer := 0))
  {
  }

  /** SetAlivePeers changes AlivePeer only, and setting the same value again changes nothing. */
  lemma SetAlivePeersOnly(current: Stat, n: u8)
    ensures var r := WithAlivePeers(current, n);
      && r.alivePeer == n
      && r.sentBytes == current.sentBytes
      && r.receivedBytes == current.receivedBytes
      && r.registeredPeers == current.registeredPeers
      && WithAlivePeers(r, n) == r
  {
  }

  /** Only the last SetAlivePeers counts, and it commutes with pushes. */
  lemma SetAlivePeersLastWins(current: Stat, s: Stat, n: u8, m: u8)
    ensures WithAlivePeers(WithAlivePeers(current, n), m) == WithAlivePeers(current, m)
    ensures Pushed(WithAlivePeers(current, n), s) == WithAlivePeers(Pushed(current, s), n)
  {
  }

  /** The counters after pushing the same record n times. */
  function PushedTimes(current: Stat, s: Stat, n: nat): Stat
  {
    if n == 0 then current else Pushed(PushedTimes(current, s, n - 1), s)
  }

  /** n * x as repeated addition, the way n pushes accumulate. */
  function Times(n: nat, x: nat): nat
  {
    if n == 0 then 0 else Times(n - 1, x) + x
  }

  /** Repeated addition is multiplication. */
  lemma {:induction false} TimesIsProduct(n: nat, x: nat)
    ensures Times(n, x) == n * x
  {
    if n > 0 {
      TimesIsProduct(n - 1, x);
    }
  }

  /** n pushes of a record that carries only SentBytes = x add n * x to SentBytes, modulo 2^64. */
  lemma {:induction false} PushedTimesSentBytes(current: Stat, x: u64, n: nat)
    ensures PushedTimes(current, Stat(x, 0, 0, 0), n).sentBytes == ToU64(current.sentBytes + Times(n, x))
  {
    if n > 0 {
      var prev := PushedTimes(current, Stat(x, 0, 0, 0), n - 1);
      PushedTimesSentBytes(current, x, n - 1);
      Wrap64Step(current.sentBytes + Times(n - 1, x), x);
      assert Pushed(prev, Stat(x, 0, 0, 0)).sentBytes == Add64(prev.sentBytes, x);
    }
  }

  /** Pushes of a record that carries only SentBytes change no other counter. */
  lemma {:induction false} PushedTimesOtherFields(current: Stat, x: u64, n: nat)
    ensures var r := PushedTimes(current, Stat(x, 0, 0, 0), n);
      r.receivedBytes == current.receivedBytes && r.registeredPeers == current.registeredPeers && r.alivePeer == current.alivePeer
  {
    if n > 0 {
      var prev := PushedTimes(current, Stat(x, 0, 0, 0), n - 1);
      PushedTimesOtherFields(current, x, n - 1);
      AddZero(prev.receivedBytes, prev.registeredPeers);
      assert PushedTimes(current, Stat(x, 0, 0, 0), n) == Pushed(prev, Stat(x, 0, 0, 0));
    }
  }

  /** n pushes of a record that carries only SentBytes = x change SentBytes alone. */
  lemma PushedTimesSent(current: Stat, x: u64, n: nat)
    ensures PushedTimes(current, Stat(x, 0, 0, 0), n)
         == current.(sentBytes := ToU64(current.sentBytes + Times(n, x)))
  {
    PushedTimesSentBytes(current, x, n);
    PushedTimesOtherFields(current, x, n);
  }

  /** Pushes after pushes: the counts add up. */
  lemma {:induction false} PushedTimesAdd(current: Stat, s: Stat, m: nat, n: nat)
    ensures PushedTimes(PushedTimes(current, s, m), s, n) == PushedTimes(current, s, m + n)
  {
    if n > 0 {
      PushedTimesAdd(current, s, m, n - 1);
    }
  }

  /** Pushes never touch AlivePeer, so they commute with SetAlivePeers. */
  lemma {:induction false} PushedTimesKeepsAlivePeers(current: Stat, s: Stat, alive: u8, n: nat)
    ensures PushedTimes(WithAlivePeers(current, alive), s, n) == WithAlivePeers(PushedTimes(current, s, n), alive)
  {
    if n > 0 {
      PushedTimesKeepsAlivePeers(current, s, alive, n - 1);
    }
  }

  /** Adding zero to a counter leaves it as it is. */
  lemma AddZero(a: u64, b: u8)
    ensures Add64(a, 0) == a && Add8(b, 0) == b
  {
  }

  /** Counting on in a uint8 from a truncated count is truncating the whole count. */
  lemma ToU8Add(a: nat, b: nat)
    ensures ToU8(ToU8(a) + b) == ToU8(a + b)
  {
    var q := a / 0x100;
    assert a == q * 0x100 + ToU8(a);
    assert a + b == q * 0x100 + (ToU8(a) + b);
  }

  /** A value that already fits in a uint64 is its own truncation. */
  lemma ToU64OfU64(x: u64)
    ensures ToU64(x) == x
  {
  }

  /** Counting on in a uint64 from a truncated count is truncating the whole count. */
  lemma ToU64Add(a: nat, b: nat)
    ensures ToU64(ToU64(a) + b) == ToU64(a + b)
  {
    var q := a / 0x1_0000_0000_0000_0000;
    assert a == q * 0x1_0000_0000_0000_0000 + ToU64(a);
    assert a + b == q * 0x1_0000_0000_0000_0000 + (ToU64(a) + b);
  }

  /** Multiplication as repeated addition distributes over a sum. */
  lemma {:induction false} TimesAdd(n: nat, x: nat, y: nat)
    ensures Times(n, x + y) == Times(n, x) + Times(n, y)
  {
    if n > 0 {
      TimesAdd(n - 1, x, y);
    }
  }

  lemma Wrap64Step(a: nat, x: u64)
    ensures Add64(ToU64(a), x) == ToU64(a + x)
  {
    var q := a / 0x1_0000_0000_0000_0000;
    assert a == q * 0x1_0000_0000_0000_0000 + ToU64(a);
    assert a + x == q * 0x1_0000_0000_0000_0000 + (ToU64(a) + x);
  }

  /** The package-level counters. */
  class Counters {
    var sentBytes: u64
    var receivedBytes: u64
    var registeredPeers: u8
    var alivePeer: u8

    /** The counters as one record. */
    function Current(): Stat
      reads this
    {
      Stat(sentBytes, receivedBytes, registeredPeers, alivePeer)
    }

    constructor()
      ensures Current() == Zero
    {
      sentBytes, receivedBytes, registeredPeers, alivePeer := 0, 0, 0, 0;
    }

    /** PushStat: adds the three traffic and registration fields; AlivePeer is ignored. */
    method PushStat(s: Stat)
      modifies this
      ensures Current() == Pushed(old(Current()), s)
    {
      sentBytes := Add64(sentBytes, s.sentBytes);
      receivedBytes := Add64(receivedBytes, s.receivedBytes);
      registeredPeers := Add8(registeredPeers, s.registeredPeers);
    }

    /** SetAlivePeers: overwrites AlivePeer. */
    method SetAlivePeers(n: u8)
      modifies this
      ensures Current() == WithAlivePeers(old(Current()), n)
    {
      alivePeer := n;
    }
  }
}
