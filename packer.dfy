/**
 * logistic/packer.go: a fuzzer directory becomes one packet. The four parts
 * (fuzzer name, fuzz_bitmap, fuzzer_stats and a tar of queue/) are each
 * base64-encoded, joined with single newlines and DEFLATE-compressed.
 */
module Packer {
  import opened Wrappers
  import opened Bytes
  import opened Seqs
  import opened Base64
  import opened Archive
  import opened Files

  /** "fuzz_bitmap" */
  const FuzzBitmap: Name := [102, 117, 122, 122, 95, 98, 105, 116, 109, 97, 112]
  /** "fuzzer_stats" */
  const FuzzerStats: Name := [102, 117, 122, 122, 101, 114, 95, 115, 116, 97, 116, 115]
  /** "queue" */
  const QueueDir: Name := [113, 117, 101, 117, 101]

  /** The three fixed names are valid directory entries and pairwise different. */
  lemma FixedNames()
    ensures ValidName(FuzzBitmap) && ValidName(FuzzerStats) && ValidName(QueueDir)
    ensures FuzzBitmap != FuzzerStats && FuzzBitmap[0] != QueueDir[0] && FuzzerStats[0] != QueueDir[0]
  {
    assert FuzzBitmap[4] != FuzzerStats[4];
  }

  /** The only error PackFuzzer reports: the compressor could not be set up for the level. */
  datatype PackError = CompressorSetup(level: int)

  /** packSingleFile: the contents of directory/fileName, or nothing if it cannot be read. */
  function PackSingleFile(fs: Fs, directory: Path, fileName: Name): (b: Bytes)
    ensures ReadFile(fs, JoinPath(directory, fileName)).None? ==> b == []
    ensures ReadFile(fs, JoinPath(directory, fileName)).Some? ==> b == fs.files[JoinPath(directory, fileName)]
  {
    ReadFile(fs, JoinPath(directory, fileName)).GetOr([])
  }

  /**
   * The archive entry for one listed name of queue/: none for a directory or
   * an unreadable file, otherwise the bare name with mode 0600 and the
   * file's contents.
   */
  function QueueEntry(fs: Fs, queuePath: Path, name: Name): (e: Option<Entry>)
  {
    var path := JoinPath(queuePath, name);
    if path in fs.dirs then None
    else match ReadFile(fs, path)
      case None => None
      case Some(contents) => Some(Entry(name, QueueFileMode, contents))
  }

  /** The entry of a listed name as a sequence of zero or one entries. */
  function EntryOf(fs: Fs, queuePath: Path, name: Name): (es: seq<Entry>)
    ensures |es| <= 1
  {
    match QueueEntry(fs, queuePath, name)
    case None => []
    case Some(e) => [e]
  }

  /** The entries for a listing, in listing order. */
  function QueueEntries(fs: Fs, queuePath: Path, names: seq<Name>): (es: seq<Entry>)
    ensures |es| <= |names|
  {
    if names == [] then []
    else EntryOf(fs, queuePath, names[0]) + QueueEntries(fs, queuePath, names[1..])
  }

  /** One step of the listing loop: the entry of names[i], then the rest. */
  lemma QueueEntriesStep(fs: Fs, queuePath: Path, names: seq<Name>, i: nat)
    requires i < |names|
    ensures QueueEntries(fs, queuePath, names[i..])
      == EntryOf(fs, queuePath, names[i]) + QueueEntries(fs, queuePath, names[i + 1..])
  {
    assert names[i..][1..] == names[i + 1..];
  }

  /** The listing loop keeps "entries so far, then those of the rest, are all the entries". */
  lemma QueueLoopStep(fs: Fs, queuePath: Path, names: seq<Name>, i: nat, entries: seq<Entry>)
    requires i < |names|
    requires entries + QueueEntries(fs, queuePath, names[i..]) == QueueEntries(fs, queuePath, names)
    ensures (entries + EntryOf(fs, queuePath, names[i])) + QueueEntries(fs, queuePath, names[i + 1..])
         == QueueEntries(fs, queuePath, names)
  {
    QueueEntriesStep(fs, queuePath, names, i);
    var e := EntryOf(fs, queuePath, names[i]);
    var rest := QueueEntries(fs, queuePath, names[i + 1..]);
    assert (entries + e) + rest == entries + (e + rest);
  }

  function EntryNames(es: seq<Entry>): (ns: seq<Name>)
    ensures |ns| == |es|
    ensures forall k :: 0 <= k < |es| ==> ns[k] == es[k].name
  {
    if es == [] then [] else [es[0].name] + EntryNames(es[1..])
  }

  /** What packQueueFiles returns: nothing for an unlistable queue/, else the tar of its entries. */
  function QueueTar(lib: Library, fs: Fs, directory: Path): Bytes
  {
    var queuePath := JoinPath(directory, QueueDir);
    match ReadDir(fs, queuePath)
    case None => []
    case Some(names) => lib.tarWrite(QueueEntries(fs, queuePath, names))
  }

  /** The four parts, in the order they are packed. */
  function Parts(lib: Library, fs: Fs, fuzzerName: Name, directory: Path): (parts: seq<Bytes>)
    ensures |parts| == 4
  {
    [fuzzerName,
     PackSingleFile(fs, directory, FuzzBitmap),
     PackSingleFile(fs, directory, FuzzerStats),
     QueueTar(lib, fs, directory)]
  }

  function EncodeAll(parts: seq<Bytes>): (enc: seq<Bytes>)
    ensures |enc| == |parts|
    ensures forall k :: 0 <= k < |parts| ==> enc[k] == Encode(parts[k])
  {
    seq(|parts|, k requires 0 <= k < |parts| => Encode(parts[k]))
  }

  /** The uncompressed body: the encoded parts joined by newlines. */
  function Frame(parts: seq<Bytes>): Bytes
  {
    Join(EncodeAll(parts), Newline)
  }

  /** The packet PackFuzzer returns for a fuzzer directory. */
  function Packet(lib: Library, fs: Fs, fuzzerName: Name, directory: Path): Bytes
  {
    lib.compress(Frame(Parts(lib, fs, fuzzerName, directory)))
  }

  /** No encoded part contains a newline, so the newlines are exactly the separators. */
  lemma EncodedPartsAreNewlineFree(parts: seq<Bytes>)
    ensures SeparatorFree(EncodeAll(parts), Newline)
  {
  }

  /** The body splits on newlines into exactly the encoded parts, in order. */
  lemma SplitFrame(parts: seq<Bytes>)
    requires |parts| >= 1
    ensures Split(Frame(parts), Newline) == EncodeAll(parts)
  {
    EncodedPartsAreNewlineFree(parts);
    SplitJoin(EncodeAll(parts), Newline);
  }

  /** A packed body holds exactly three newlines: one between each two of its four parts. */
  lemma FrameHasThreeSeparators(lib: Library, fs: Fs, fuzzerName: Name, directory: Path)
    ensures Count(Frame(Parts(lib, fs, fuzzerName, directory)), Newline) == 3
  {
    var parts := Parts(lib, fs, fuzzerName, directory);
    EncodedPartsAreNewlineFree(parts);
    JoinCount(EncodeAll(parts), Newline);
  }

  /** Every entry is a readable regular file of the listing, stored under its bare name with mode 0600. */
  lemma {:induction false} QueueEntriesSound(fs: Fs, queuePath: Path, names: seq<Name>)
    ensures forall e :: e in QueueEntries(fs, queuePath, names) ==>
      && e.name in names
      && e.mode == QueueFileMode
      && JoinPath(queuePath, e.name) !in fs.dirs
      && ReadFile(fs, JoinPath(queuePath, e.name)) == Some(e.data)
  {
    if names != [] {
      QueueEntriesSound(fs, queuePath, names[1..]);
    }
  }

  /** Every listed name that is a readable regular file has an entry. */
  lemma {:induction false} QueueEntriesComplete(fs: Fs, queuePath: Path, names: seq<Name>)
    ensures forall n :: (n in names && JoinPath(queuePath, n) !in fs.dirs && ReadFile(fs, JoinPath(queuePath, n)).Some?
      ==> Entry(n, QueueFileMode, fs.files[JoinPath(queuePath, n)]) in QueueEntries(fs, queuePath, names))
  {
    if names != [] {
      QueueEntriesComplete(fs, queuePath, names[1..]);
      forall n | n in names && JoinPath(queuePath, n) !in fs.dirs && ReadFile(fs, JoinPath(queuePath, n)).Some?
        ensures Entry(n, QueueFileMode, fs.files[JoinPath(queuePath, n)]) in QueueEntries(fs, queuePath, names)
      {
        if n != names[0] {
          assert n in names[1..];
        }
      }
    }
  }

  /** The entries keep the listing order: their names are a subsequence of the listing. */
  lemma {:induction false} QueueEntriesInListingOrder(fs: Fs, queuePath: Path, names: seq<Name>)
    ensures Subseq(EntryNames(QueueEntries(fs, queuePath, names)), names)
  {
    if names != [] {
      QueueEntriesInListingOrder(fs, queuePath, names[1..]);
      var es := QueueEntries(fs, queuePath, names);
      var rest := QueueEntries(fs, queuePath, names[1..]);
      if QueueEntry(fs, queuePath, names[0]).Some? {
        assert es[1..] == rest;
        assert EntryNames(es)[1..] == EntryNames(rest);
      } else {
        assert es == rest;
        if EntryNames(es) != [] {
          assert Subseq(EntryNames(es), names[1..]);
        }
      }
    }
  }

  /** A listing without repeated names yields entries without repeated names. */
  lemma {:induction false} QueueEntriesDistinct(fs: Fs, queuePath: Path, names: seq<Name>)
    requires Distinct(names)
    ensures Distinct(EntryNames(QueueEntries(fs, queuePath, names)))
  {
    if names != [] {
      var rest := QueueEntries(fs, queuePath, names[1..]);
      QueueEntriesDistinct(fs, queuePath, names[1..]);
      QueueEntriesSound(fs, queuePath, names[1..]);
      if QueueEntry(fs, queuePath, names[0]).Some? {
        var es := QueueEntries(fs, queuePath, names);
        assert es[1..] == rest;
        forall b | 0 < b < |es|
          ensures EntryNames(es)[0] != EntryNames(es)[b]
        {
          assert es[b] == rest[b - 1];
          assert es[b] in rest;
          assert names[0] !in names[1..];
        }
        assert EntryNames(es)[1..] == EntryNames(rest);
      }
    }
  }

  /**
   * packQueueFiles: lists queue/, skips directories and unreadable files,
   * and writes one tar entry per remaining file, in listing order.
   */
  method PackQueueFiles(lib: Library, fs: Fs, directory: Path) returns (tar: Bytes)
    ensures ReadDir(fs, JoinPath(directory, QueueDir)).None? ==> tar == []
    ensures ReadDir(fs, JoinPath(directory, QueueDir)).Some? ==>
      tar == lib.tarWrite(QueueEntries(fs, JoinPath(directory, QueueDir), fs.dirs[JoinPath(directory, QueueDir)]))
  {
    var queuePath := JoinPath(directory, QueueDir);
    var listing := ReadDir(fs, queuePath);
    if listing.None? {
      return [];
    }
    var filesInDir := listing.value;
    var entries: seq<Entry> := [];
    var i := 0;
    while i < |filesInDir|
      invariant 0 <= i <= |filesInDir|
      invariant entries + QueueEntries(fs, queuePath, filesInDir[i..]) == QueueEntries(fs, queuePath, filesInDir)
    {
      var name := filesInDir[i];
      ghost var before := entries;
      var path := JoinPath(queuePath, name);
      // A directory or a file that cannot be read is skipped.
      if path !in fs.dirs {
        var contents := ReadFile(fs, path);
        if contents.Some? {
          var header := Entry(name, QueueFileMode, contents.value);
          entries := entries + [header];
        }
      }
      assert entries == before + EntryOf(fs, queuePath, name);
      QueueLoopStep(fs, queuePath, filesInDir, i, before);
      i := i + 1;
    }
    assert filesInDir[i..] == [];
    assert entries == QueueEntries(fs, queuePath, filesInDir);
    tar := lib.tarWrite(entries);
  }

  /**
   * PackFuzzer: gathers the four parts, then writes them base64-encoded into
   * the compressor with a newline before every part but the first.
   */
  method PackFuzzer(lib: Library, fs: Fs, fuzzerName: Name, directory: Path) returns (r: Result<Bytes, PackError>)
    ensures r == Ok(Packet(lib, fs, fuzzerName, directory))
  {
    var queueTar := PackQueueFiles(lib, fs, directory);
    var contentArray := [fuzzerName,
                         PackSingleFile(fs, directory, FuzzBitmap),
                         PackSingleFile(fs, directory, FuzzerStats),
                         queueTar];
    assert contentArray == Parts(lib, fs, fuzzerName, directory);

    if !CompressionLevelValid(BestCompression) {
      return Err(CompressorSetup(BestCompression));
    }

    var written: Bytes := [];
    var firstRun := true;
    var i := 0;
    while i < |contentArray|
      invariant 0 <= i <= |contentArray|
      invariant firstRun <==> i == 0
      invariant written == Join(EncodeAll(contentArray[..i]), Newline)
    {
      var b64Buf := Encode(contentArray[i]);
      if firstRun {
        firstRun := false;
      } else {
        written := written + [Newline];
      }
      written := written + b64Buf;
      assert EncodeAll(contentArray[..i + 1]) == EncodeAll(contentArray[..i]) + [b64Buf];
      if i > 0 {
        JoinSnoc(EncodeAll(contentArray[..i]), b64Buf, Newline);
      }
      i := i + 1;
    }
    assert contentArray[..i] == contentArray;
    r := Ok(lib.compress(written));
  }
}
