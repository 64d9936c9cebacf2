/**
 * A library that meets every law the codec assumes of compress/flate and
 * archive/tar, so that Lawful is not vacuous. Compression is the identity
 * and the "archive" is a tagged encoding of the entries that a small parser
 * reads back, ignoring whatever follows the end marker as tar ignores the
 * bytes after its end-of-archive blocks.
 */
module ArchiveWitness {
  import opened Wrappers
  import opened Bytes
  import opened Archive

  /** A byte string: each byte tagged 1, then the end tag 2. */
  function EncodeBytes(b: Bytes): Bytes
  {
    if b == [] then [2] else [1, b[0]] + EncodeBytes(b[1..])
  }

  /** Reads an encoded byte string off the front of s and returns it with what follows. */
  function ParseBytes(s: Bytes): (p: Option<(Bytes, Bytes)>)
    ensures p.Some? ==> |p.value.1| < |s|
  {
    if |s| == 0 then None
    else if s[0] == 2 then Some(([], s[1..]))
    else if s[0] == 1 && |s| >= 2 then
      match ParseBytes(s[2..])
      case Some(q) => Some(([s[1]] + q.0, q.1))
      case None => None
    else None
  }

  lemma {:induction false} ParseEncodeBytes(b: Bytes, rest: Bytes)
    ensures ParseBytes(EncodeBytes(b) + rest) == Some((b, rest))
  {
    if b != [] {
      ParseEncodeBytes(b[1..], rest);
      assert (EncodeBytes(b) + rest)[2..] == EncodeBytes(b[1..]) + rest;
      assert [b[0]] + b[1..] == b;
    }
  }

  /** A count in unary: n times the tag 7, then the tag 8. */
  function EncodeNat(n: nat): Bytes
  {
    if n == 0 then [8] else [7] + EncodeNat(n - 1)
  }

  function ParseNat(s: Bytes): (p: Option<(nat, Bytes)>)
    ensures p.Some? ==> |p.value.1| < |s|
  {
    if |s| == 0 then None
    else if s[0] == 8 then Some((0, s[1..]))
    else if s[0] == 7 then
      match ParseNat(s[1..])
      case Some(q) => Some((q.0 + 1, q.1))
      case None => None
    else None
  }

  lemma {:induction false} ParseEncodeNat(n: nat, rest: Bytes)
    ensures ParseNat(EncodeNat(n) + rest) == Some((n, rest))
  {
    if n != 0 {
      ParseEncodeNat(n - 1, rest);
      assert (EncodeNat(n) + rest)[1..] == EncodeNat(n - 1) + rest;
    }
  }

  /** A header mode: its sign as the tag 5 or 6, then its magnitude. */
  function EncodeMode(m: int): Bytes
  {
    if m >= 0 then [5] + EncodeNat(m) else [6] + EncodeNat(-m)
  }

  function ParseMode(s: Bytes): (p: Option<(int, Bytes)>)
    ensures p.Some? ==> |p.value.1| < |s|
  {
    if |s| == 0 || (s[0] != 5 && s[0] != 6) then None
    else
      match ParseNat(s[1..])
      case Some(q) =>
        var n: int := q.0;
        var m := if s[0] == 5 then n else -n;
        Some((m, q.1))
      case None => None
  }

  lemma ParseEncodeMode(m: int, rest: Bytes)
    ensures ParseMode(EncodeMode(m) + rest) == Some((m, rest))
  {
    var n: nat := if m >= 0 then m else -m;
    var tag: byte := if m >= 0 then 5 else 6;
    assert EncodeMode(m) == [tag] + EncodeNat(n);
    var s := EncodeMode(m) + rest;
    assert s == [tag] + (EncodeNat(n) + rest);
    assert s[0] == tag && s[1..] == EncodeNat(n) + rest;
    ParseEncodeNat(n, rest);
    ModeOfTag(s, n, rest);
  }

  /** A sign tag followed by an encoded magnitude parses as the signed mode. */
  lemma ModeOfTag(s: Bytes, n: nat, rest: Bytes)
    requires |s| > 0 && (s[0] == 5 || s[0] == 6)
    requires ParseNat(s[1..]) == Some((n, rest))
    ensures var m: int := if s[0] == 5 then n else -(n as int);
      ParseMode(s) == Some((m, rest))
  {
  }

  function EncodeEntry(e: Entry): Bytes
  {
    EncodeBytes(e.name) + EncodeMode(e.mode) + EncodeBytes(e.data)
  }

  function ParseEntry(s: Bytes): (p: Option<(Entry, Bytes)>)
    ensures p.Some? ==> |p.value.1| < |s|
  {
    match ParseBytes(s)
    case None => None
    case Some(name) =>
      match ParseMode(name.1)
      case None => None
      case Some(mode) =>
        match ParseBytes(mode.1)
        case None => None
        case Some(data) => Some((Entry(name.0, mode.0, data.0), data.1))
  }

  lemma ParseEncodeEntry(e: Entry, rest: Bytes)
    ensures ParseEntry(EncodeEntry(e) + rest) == Some((e, rest))
  {
    var data := EncodeBytes(e.data) + rest;
    var mode := EncodeMode(e.mode) + data;
    assert EncodeEntry(e) + rest == EncodeBytes(e.name) + mode;
    ParseEncodeBytes(e.name, mode);
    ParseEncodeMode(e.mode, data);
    ParseEncodeBytes(e.data, rest);
  }

  /** The archive: each entry tagged 3, then the end tag 4. */
  function EncodeEntries(es: seq<Entry>): Bytes
  {
    if es == [] then [4] else [3] + EncodeEntry(es[0]) + EncodeEntries(es[1..])
  }

  function ParseEntries(s: Bytes): (p: Option<(seq<Entry>, Bytes)>)
    decreases |s|
  {
    if |s| == 0 then None
    else if s[0] == 4 then Some(([], s[1..]))
    else if s[0] == 3 then
      match ParseEntry(s[1..])
      case None => None
      case Some(first) =>
        match ParseEntries(first.1)
        case None => None
        case Some(others) => Some(([first.0] + others.0, others.1))
    else None
  }

  lemma EncodeEntriesCons(es: seq<Entry>, rest: Bytes)
    requires es != []
    ensures var s := EncodeEntries(es) + rest;
      |s| > 0 && s[0] == 3 && s[1..] == EncodeEntry(es[0]) + (EncodeEntries(es[1..]) + rest)
  {
    TaggedShape(3, EncodeEntry(es[0]), EncodeEntries(es[1..]), rest);
  }

  /** A tag, two pieces and a remainder: the tag comes first, then the pieces and the remainder. */
  lemma TaggedShape(tag: byte, head: Bytes, tail: Bytes, rest: Bytes)
    ensures var s := [tag] + head + tail + rest;
      |s| > 0 && s[0] == tag && s[1..] == head + (tail + rest)
  {
    var s := [tag] + head + tail + rest;
    assert s == [tag] + (head + (tail + rest));
  }

  /** An entry tag followed by an entry and a parsable list parses as the longer list. */
  lemma ParseEntriesCons(s: Bytes, e: Entry, afterEntry: Bytes, es: seq<Entry>, rest: Bytes)
    requires |s| > 0 && s[0] == 3
    requires ParseEntry(s[1..]) == Some((e, afterEntry))
    requires ParseEntries(afterEntry) == Some((es, rest))
    ensures ParseEntries(s) == Some(([e] + es, rest))
  {
  }

  lemma {:induction false} ParseEncodeEntries(es: seq<Entry>, rest: Bytes)
    ensures ParseEntries(EncodeEntries(es) + rest) == Some((es, rest))
  {
    if es != [] {
      var others := EncodeEntries(es[1..]) + rest;
      var s := EncodeEntries(es) + rest;
      EncodeEntriesCons(es, rest);
      ParseEncodeEntry(es[0], others);
      ParseEncodeEntries(es[1..], rest);
      ParseEntriesCons(s, es[0], others, es[1..], rest);
      assert [es[0]] + es[1..] == es;
    }
  }

  function ReadArchive(b: Bytes): TarStream
  {
    match ParseEntries(b)
    case Some(p) => TarStream(p.0, false)
    case None => TarStream([], false)
  }

  function WitnessLibrary(): Library
  {
    Library(b => b, b => b, EncodeEntries, ReadArchive)
  }

  /** The laws the codec assumes can all hold at once. */
  lemma WitnessIsLawful()
    ensures Lawful(WitnessLibrary())
  {
    var lib := WitnessLibrary();
    forall es, k | 0 <= k < 3
      ensures lib.tarRead(lib.tarWrite(es) + Zeros(k)) == TarStream(es, false)
    {
      ParseEncodeEntries(es, Zeros(k));
    }
  }
}
