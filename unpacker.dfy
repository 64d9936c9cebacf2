/**
 * logistic/unpacker.go: a received packet is decompressed, split into its
 * four base64 parts and written below targetDir/<fuzzer name>: fuzz_bitmap,
 * fuzzer_stats and one file in queue/ per tar entry. Files that are already
 * there are kept.
 */
module Unpacker {
  import opened Wrappers
  import opened Bytes
  import opened Seqs
  import opened Base64
  import opened Archive
  import opened Files
  import opened Packer

  /** The errors UnpackInto returns; failures inside the fuzzer directory are only logged. */
  datatype UnpackError = PartCount(got: nat) | SlashInName(name: Name) | CreateDir(path: Path)

  lemma WithinJoin(dir: Path, name: Name)
    ensures Within(JoinPath(dir, name), dir)
  {
    JoinPathParts(dir, name);
  }

  /** Being below a subdirectory means being below its parent. */
  lemma WithinNested(p: Path, dir: Path, name: Name)
    requires Within(p, JoinPath(dir, name))
    ensures Within(p, dir)
  {
    var sub := JoinPath(dir, name);
    JoinPathParts(dir, name);
    assert p[..|dir|] == p[..|sub|][..|dir|];
  }

  /**
   * unpackSingleFile as written: the early return tests os.IsExist on the
   * error of os.Stat, but a stat never fails with "exists".
   */
  function UnpackSingleFileAsWritten(fs: Fs, data: Bytes, dir: Path, fileName: Name): (r: Fs)
    ensures forall q :: q in fs.files && q != JoinPath(dir, fileName) ==> q in r.files && r.files[q] == fs.files[q]
    ensures r.dirs.Keys == fs.dirs.Keys && r.faults == fs.faults
    ensures var path := JoinPath(dir, fileName);
      path !in fs.faults && path !in fs.dirs && ParentExists(fs, path)
      ==> path in r.files && r.files[path] == data
    ensures var path := JoinPath(dir, fileName);
      !(path !in fs.faults && path !in fs.dirs && ParentExists(fs, path)) ==> r == fs
  {
    var path := JoinPath(dir, fileName);
    if IsExist(Stat(fs, path)) then fs else WriteFile(fs, path, data).0
  }

  /** As written, the guard never fires: every call writes. */
  lemma AsWrittenAlwaysWrites(fs: Fs, data: Bytes, dir: Path, fileName: Name)
    ensures UnpackSingleFileAsWritten(fs, data, dir, fileName) == WriteFile(fs, JoinPath(dir, fileName), data).0
  {
  }

  /** An existing t/fuzz_bitmap holding [1] is overwritten with [2], against the comment's "we won't overwrite it". */
  lemma AsWrittenOverwrites()
    ensures
      var dir: Path := [116];
      var path := JoinPath(dir, FuzzBitmap);
      var fs := Fs(map[path := [1]], map[dir := [FuzzBitmap]], {});
      var out := UnpackSingleFileAsWritten(fs, [2], dir, FuzzBitmap);
      path in fs.files && fs.files[path] == [1] && path in out.files && out.files[path] == [2]
  {
    FixedNames();
    ParentOfJoin([116], FuzzBitmap);
  }

  /**
   * unpackSingleFile as intended: a path that stat finds is left alone;
   * otherwise the data is written, and a failed write changes nothing.
   */
  function UnpackSingleFile(fs: Fs, data: Bytes, dir: Path, fileName: Name): (r: Fs)
    ensures forall q :: q in fs.files ==> q in r.files && r.files[q] == fs.files[q]
    ensures r.files.Keys <= fs.files.Keys + {JoinPath(dir, fileName)}
    ensures r.dirs.Keys == fs.dirs.Keys && r.faults == fs.faults
    ensures JoinPath(dir, fileName) in r.files && JoinPath(dir, fileName) !in fs.files
      <==> JoinPath(dir, fileName) !in fs.files && JoinPath(dir, fileName) !in fs.dirs
           && JoinPath(dir, fileName) !in fs.faults && ParentExists(fs, JoinPath(dir, fileName))
    ensures JoinPath(dir, fileName) in r.files && JoinPath(dir, fileName) !in fs.files
      ==> r.files[JoinPath(dir, fileName)] == data
  {
    var path := JoinPath(dir, fileName);
    if Stat(fs, path) == Found then fs else WriteFile(fs, path, data).0
  }

  /** The loop of unpackQueueDir: every entry through unpackSingleFile, in archive order. */
  function WriteEntries(fs: Fs, queueDir: Path, es: seq<Entry>): (r: Fs)
    ensures forall q :: q in fs.files ==> q in r.files && r.files[q] == fs.files[q]
    ensures forall q :: q in r.files && q !in fs.files ==> exists e :: e in es && q == JoinPath(queueDir, e.name)
    ensures r.dirs.Keys == fs.dirs.Keys && r.faults == fs.faults
    decreases |es|
  {
    if es == [] then fs
    else WriteEntries(UnpackSingleFile(fs, es[0].data, queueDir, es[0].name), queueDir, es[1..])
  }

  /** unpackQueueDir: creates queue/ when it does not exist, then writes the entries read before EOF or a bad header. */
  function UnpackedQueue(lib: Library, fs: Fs, raw: Bytes, targetDir: Path): Fs
  {
    var queueDir := JoinPath(targetDir, QueueDir);
    var fs1 := if IsNotExist(Stat(fs, queueDir)) then Mkdir(fs, queueDir).0 else fs;
    WriteEntries(fs1, queueDir, lib.tarRead(raw).entries)
  }

  method UnpackQueueDir(lib: Library, fs: Fs, raw: Bytes, targetDir: Path) returns (fs': Fs)
    ensures fs' == UnpackedQueue(lib, fs, raw, targetDir)
  {
    var stream := lib.tarRead(raw);
    var queueDir := JoinPath(targetDir, QueueDir);
    fs' := fs;
    if IsNotExist(Stat(fs', queueDir)) {
      fs' := Mkdir(fs', queueDir).0;
    }
    ghost var created := fs';
    var i := 0;
    while i < |stream.entries|
      invariant 0 <= i <= |stream.entries|
      invariant WriteEntries(fs', queueDir, stream.entries[i..]) == WriteEntries(created, queueDir, stream.entries)
    {
      var header := stream.entries[i];
      assert stream.entries[i..][1..] == stream.entries[i + 1..];
      fs' := UnpackSingleFile(fs', header.data, queueDir, header.name);
      i := i + 1;
    }
    assert stream.entries[i..] == [];
  }

  /** Every part base64-decoded into a buffer of DecodedLen bytes. */
  function DecodeParts(parts: seq<Bytes>): (d: seq<Bytes>)
    ensures |d| == |parts|
    ensures forall k :: 0 <= k < |parts| ==> d[k] == DecodeInto(parts[k])
  {
    seq(|parts|, k requires 0 <= k < |parts| => DecodeInto(parts[k]))
  }

  /** The decoded parts of a packet, or None when it does not split into four. */
  function ReceivedParts(lib: Library, raw: Bytes): (parts: Option<seq<Bytes>>)
    ensures parts.Some? <==> |Split(lib.decompress(raw), Newline)| == 4
    ensures parts.Some? ==> |parts.value| == 4
  {
    var splitted := Split(lib.decompress(raw), Newline);
    if |splitted| != 4 then None else Some(DecodeParts(splitted))
  }

  /** What UnpackInto does to the filesystem, and the error it returns. */
  function Unpacked(lib: Library, raw: Bytes, targetDir: Path, fs: Fs): (Fs, Option<UnpackError>)
  {
    match ReceivedParts(lib, raw)
    case None => (fs, Some(PartCount(|Split(lib.decompress(raw), Newline)|)))
    case Some(parts) =>
      var fuzzerName := TrimRightNul(parts[0]);
      if Slash in fuzzerName then (fs, Some(SlashInName(fuzzerName)))
      else
        var dir := JoinPath(targetDir, fuzzerName);
        var (fs1, ok) := if IsNotExist(Stat(fs, dir)) then MkdirAll(fs, dir) else (fs, true);
        if !ok then (fs1, Some(CreateDir(dir)))
        else
          var fs2 := UnpackSingleFile(fs1, parts[1], dir, FuzzBitmap);
          var fs3 := UnpackSingleFile(fs2, parts[2], dir, FuzzerStats);
          (UnpackedQueue(lib, fs3, parts[3], dir), None)
  }

  /**
   * UnpackInto: decompresses, checks for four parts, decodes them in place,
   * rejects a fuzzer name with '/', makes sure the fuzzer directory exists
   * and writes the three parts into it.
   */
  method UnpackInto(lib: Library, fs: Fs, raw: Bytes, targetDir: Path) returns (fs': Fs, err: Option<UnpackError>)
    ensures (fs', err) == Unpacked(lib, raw, targetDir, fs)
  {
    var body := lib.decompress(raw);
    var splitted := Split(body, Newline);
    if |splitted| != 4 {
      return fs, Some(PartCount(|splitted|));
    }
    ghost var encoded := splitted;
    var i := 0;
    while i < |splitted|
      invariant 0 <= i <= |splitted| == 4
      invariant forall k :: 0 <= k < i ==> splitted[k] == DecodeInto(encoded[k])
      invariant forall k :: i <= k < 4 ==> splitted[k] == encoded[k]
    {
      splitted := splitted[i := DecodeInto(splitted[i])];
      i := i + 1;
    }
    assert splitted == DecodeParts(encoded);

    var fuzzerName := TrimRightNul(splitted[0]);
    if Slash in fuzzerName {
      return fs, Some(SlashInName(fuzzerName));
    }

    var dir := JoinPath(targetDir, fuzzerName);
    fs' := fs;
    if IsNotExist(Stat(fs', dir)) {
      var (made, ok) := MkdirAll(fs', dir);
      fs' := made;
      if !ok {
        return fs', Some(CreateDir(dir));
      }
    }

    fs' := UnpackSingleFile(fs', splitted[1], dir, FuzzBitmap);
    fs' := UnpackSingleFile(fs', splitted[2], dir, FuzzerStats);
    fs' := UnpackQueueDir(lib, fs', splitted[3], dir);
    err := None;
  }

  /**
   * The error paths: a packet that does not split into four parts, or whose
   * fuzzer name holds '/', changes nothing; a fuzzer directory that cannot be
   * created leaves every file as it was.
   */
  lemma UnpackErrorPaths(lib: Library, raw: Bytes, targetDir: Path, fs: Fs)
    ensures var (out, err) := Unpacked(lib, raw, targetDir, fs);
      && (ReceivedParts(lib, raw).None? ==> out == fs && err == Some(PartCount(|Split(lib.decompress(raw), Newline)|)))
      && (err.Some? && !err.value.CreateDir? ==> out == fs)
      && (err.Some? ==> out.files == fs.files && out.faults == fs.faults)
  {
  }

  /** Unpacking never changes or removes a file that was there before. */
  lemma UnpackKeepsExistingFiles(lib: Library, raw: Bytes, targetDir: Path, fs: Fs)
    ensures var out := Unpacked(lib, raw, targetDir, fs).0;
      forall q :: q in fs.files ==> q in out.files && out.files[q] == fs.files[q]
  {
  }

  /** Every file the queue step creates lies below the fuzzer directory. */
  lemma UnpackedQueueWithin(lib: Library, fs: Fs, raw: Bytes, dir: Path)
    ensures var out := UnpackedQueue(lib, fs, raw, dir);
      forall q :: q in out.files && q !in fs.files ==> Within(q, dir)
  {
    var queueDir := JoinPath(dir, QueueDir);
    var out := UnpackedQueue(lib, fs, raw, dir);
    forall q | q in out.files && q !in fs.files
      ensures Within(q, dir)
    {
      var e :| e in lib.tarRead(raw).entries && q == JoinPath(queueDir, e.name);
      WithinJoin(queueDir, e.name);
      WithinNested(q, dir, QueueDir);
    }
  }

  /** Below a directory that has no directory under top, no entry can be written. */
  lemma {:induction false} WriteEntriesBelowFile(fs: Fs, queueDir: Path, es: seq<Entry>, top: Path)
    requires Within(queueDir, top)
    requires forall q :: q in fs.dirs ==> !Within(q, top)
    ensures WriteEntries(fs, queueDir, es) == fs
    decreases |es|
  {
    if es != [] {
      var p := JoinPath(queueDir, es[0].name);
      WithinJoin(queueDir, es[0].name);
      ParentWithin(p, queueDir, top);
      assert UnpackSingleFile(fs, es[0].data, queueDir, es[0].name) == fs;
      WriteEntriesBelowFile(fs, queueDir, es[1..], top);
    }
  }

  /**
   * A target that is a regular file: stat of targetDir/<name> fails with
   * ENOTDIR, which is not "does not exist", so nothing is created, every
   * write fails, and unpacking reports no error.
   */
  lemma UnpackBelowFile(lib: Library, raw: Bytes, targetDir: Path, fs: Fs)
    requires ReceivedParts(lib, raw).Some?
    requires Slash !in TrimRightNul(ReceivedParts(lib, raw).value[0])
    requires targetDir in fs.files
    requires forall q :: q in fs.dirs ==> !Within(q, targetDir)
    ensures Unpacked(lib, raw, targetDir, fs) == (fs, None)
  {
    var parts := ReceivedParts(lib, raw).value;
    var dir := JoinPath(targetDir, TrimRightNul(parts[0]));
    WithinJoin(targetDir, TrimRightNul(parts[0]));
    assert !IsNotExist(Stat(fs, dir));
    WithinJoin(dir, FuzzBitmap);
    ParentWithin(JoinPath(dir, FuzzBitmap), dir, targetDir);
    WithinJoin(dir, FuzzerStats);
    ParentWithin(JoinPath(dir, FuzzerStats), dir, targetDir);
    var fs3 := UnpackSingleFile(UnpackSingleFile(fs, parts[1], dir, FuzzBitmap), parts[2], dir, FuzzerStats);
    assert fs3 == fs;
    var queueDir := JoinPath(dir, QueueDir);
    WithinJoin(dir, QueueDir);
    WithinNested(queueDir, targetDir, TrimRightNul(parts[0]));
    assert !IsNotExist(Stat(fs, queueDir));
    WriteEntriesBelowFile(fs, queueDir, lib.tarRead(parts[3]).entries, targetDir);
  }

  /** Every file unpacking creates lies below targetDir/<received fuzzer name>. */
  lemma UnpackWritesWithinFuzzerDir(lib: Library, raw: Bytes, targetDir: Path, fs: Fs)
    ensures var out := Unpacked(lib, raw, targetDir, fs).0;
      forall q :: q in out.files && q !in fs.files ==>
        && ReceivedParts(lib, raw).Some?
        && Within(q, JoinPath(targetDir, TrimRightNul(ReceivedParts(lib, raw).value[0])))
  {
    var out := Unpacked(lib, raw, targetDir, fs).0;
    if ReceivedParts(lib, raw).Some? {
      var parts := ReceivedParts(lib, raw).value;
      var name := TrimRightNul(parts[0]);
      var dir := JoinPath(targetDir, name);
      if Slash !in name {
        var (fs1, ok) := if IsNotExist(Stat(fs, dir)) then MkdirAll(fs, dir) else (fs, true);
        if ok {
          var fs2 := UnpackSingleFile(fs1, parts[1], dir, FuzzBitmap);
          var fs3 := UnpackSingleFile(fs2, parts[2], dir, FuzzerStats);
          WithinJoin(dir, FuzzBitmap);
          WithinJoin(dir, FuzzerStats);
          assert forall q :: q in fs3.files && q !in fs.files ==> Within(q, dir);
          UnpackedQueueWithin(lib, fs3, parts[3], dir);
        }
      }
    }
  }

  /** What DecodeInto makes of an encoding of b: b followed by the NUL bytes that fill the last group. */
  function Padded(b: Bytes): Bytes
  {
    b + Zeros(PaddingLen(|b|))
  }

  /** The queue entries a packet carries: those of a listable queue/, otherwise none. */
  function SentEntries(fs: Fs, directory: Path): seq<Entry>
  {
    var queuePath := JoinPath(directory, QueueDir);
    match ReadDir(fs, queuePath)
    case None => []
    case Some(names) => QueueEntries(fs, queuePath, names)
  }

  /** A directory listing as a real directory has it: valid names, none twice. */
  predicate WellFormedListing(fs: Fs, p: Path)
  {
    p in fs.dirs ==>
      && Distinct(fs.dirs[p])
      && forall k :: 0 <= k < |fs.dirs[p]| ==> ValidName(fs.dirs[p][k])
  }

  /**
   * A receiving side on which targetDir is a working directory with no
   * regular file above it, and nothing exists or fails at or below
   * targetDir/name.
   */
  predicate FreshTarget(fs: Fs, targetDir: Path, name: Name)
  {
    && |targetDir| > 0
    && targetDir in fs.dirs && targetDir !in fs.faults
    && NoFileAbove(fs, targetDir)
    && Free(fs, JoinPath(targetDir, name))
  }

  /** The receiver decodes a packet into the packed parts, each padded to whole groups. */
  lemma ReceivedPacket(lib: Library, src: Fs, name: Name, directory: Path)
    requires Lawful(lib)
    ensures ReceivedParts(lib, Packet(lib, src, name, directory)).Some?
    ensures forall k :: 0 <= k < 4 ==>
      ReceivedParts(lib, Packet(lib, src, name, directory)).value[k] == Padded(Parts(lib, src, name, directory)[k])
  {
    var parts := Parts(lib, src, name, directory);
    assert lib.decompress(Packet(lib, src, name, directory)) == Frame(parts);
    SplitFrame(parts);
    forall k | 0 <= k < 4
      ensures DecodeInto(EncodeAll(parts)[k]) == Padded(parts[k])
    {
      DecodeIntoEncode(parts[k]);
    }
  }

  /** dir is an existing, working directory with nothing at all below it. */
  predicate EmptyDir(fs: Fs, dir: Path)
  {
    && |dir| > 0 && dir in fs.dirs && dir !in fs.faults
    && (forall q :: q in fs.files ==> !Within(q, dir))
    && (forall q :: q in fs.dirs ==> !Within(q, dir))
    && (forall q :: q in fs.faults ==> !Within(q, dir))
  }

  /** On a fresh target the fuzzer directory is created, and it is empty. */
  lemma FreshFuzzerDir(dst: Fs, targetDir: Path, name: Name)
    requires Slash !in name
    requires FreshTarget(dst, targetDir, name)
    ensures var dir := JoinPath(targetDir, name);
      && IsNotExist(Stat(dst, dir))
      && NoFileAbove(dst, dir)
      && MkdirAll(dst, dir).1
      && MkdirAll(dst, dir).0.files == dst.files
      && EmptyDir(MkdirAll(dst, dir).0, dir)
  {
    var dir := JoinPath(targetDir, name);
    ParentOfJoin(targetDir, name);
    JoinBelowNoFile(dst, targetDir, name);
    var fs1 := Mkdir(dst, dir).0;
    assert MkdirAll(dst, dir) == (fs1, true);
    forall q | q in fs1.dirs
      ensures !Within(q, dir)
    {
      if q != dir {
        assert q in dst.dirs;
      }
    }
  }

  /** Nothing exists or fails at or below p. */
  predicate Free(fs: Fs, p: Path)
  {
    && p !in fs.files && p !in fs.dirs && p !in fs.faults
    && (forall q :: q in fs.files ==> !Within(q, p))
    && (forall q :: q in fs.dirs ==> !Within(q, p))
    && (forall q :: q in fs.faults ==> !Within(q, p))
  }

  /** Both single files are stored in an empty directory, and queue/ beside them is still free. */
  lemma SingleFilesIntoEmptyDir(fs: Fs, dir: Path, bitmap: Bytes, stats: Bytes)
    requires EmptyDir(fs, dir)
    ensures var out := UnpackSingleFile(UnpackSingleFile(fs, bitmap, dir, FuzzBitmap), stats, dir, FuzzerStats);
      && JoinPath(dir, FuzzBitmap) in out.files && out.files[JoinPath(dir, FuzzBitmap)] == bitmap
      && JoinPath(dir, FuzzerStats) in out.files && out.files[JoinPath(dir, FuzzerStats)] == stats
      && dir in out.dirs
      && Free(out, JoinPath(dir, QueueDir))
  {
    FixedNames();
    var bitmapPath := JoinPath(dir, FuzzBitmap);
    var statsPath := JoinPath(dir, FuzzerStats);
    WithinJoin(dir, FuzzBitmap);
    WithinJoin(dir, FuzzerStats);
    var fs2 := UnpackSingleFile(fs, bitmap, dir, FuzzBitmap);
    WriteFreshFile(fs, dir, FuzzBitmap, bitmap);
    assert statsPath != bitmapPath by {
      JoinPathParts(dir, FuzzBitmap);
      JoinPathParts(dir, FuzzerStats);
      assert statsPath[|dir| + 5] != bitmapPath[|dir| + 5];
    }
    var fs3 := UnpackSingleFile(fs2, stats, dir, FuzzerStats);
    WriteFreshFile(fs2, dir, FuzzerStats, stats);
    assert fs3.files[bitmapPath] == fs2.files[bitmapPath];
    QueueStaysFree(fs, dir, fs3);
  }

  /** unpackSingleFile into an existing directory where nothing lies at the path stores the data there. */
  lemma WriteFreshFile(fs: Fs, dir: Path, name: Name, data: Bytes)
    requires |dir| > 0 && dir in fs.dirs && Slash !in name
    requires JoinPath(dir, name) !in fs.files && JoinPath(dir, name) !in fs.dirs && JoinPath(dir, name) !in fs.faults
    ensures var r := UnpackSingleFile(fs, data, dir, name);
      JoinPath(dir, name) in r.files && r.files[JoinPath(dir, name)] == data
  {
    ParentOfJoin(dir, name);
  }

  /** Adding only fuzz_bitmap and fuzzer_stats to an empty directory leaves its queue/ free. */
  lemma QueueStaysFree(fs: Fs, dir: Path, out: Fs)
    requires EmptyDir(fs, dir)
    requires out.files.Keys <= fs.files.Keys + {JoinPath(dir, FuzzBitmap), JoinPath(dir, FuzzerStats)}
    requires out.dirs.Keys == fs.dirs.Keys && out.faults == fs.faults
    ensures Free(out, JoinPath(dir, QueueDir))
  {
    FixedNames();
    var bitmapPath := JoinPath(dir, FuzzBitmap);
    var statsPath := JoinPath(dir, FuzzerStats);
    var queueDir := JoinPath(dir, QueueDir);
    JoinPathParts(dir, FuzzBitmap);
    JoinPathParts(dir, FuzzerStats);
    JoinPathParts(dir, QueueDir);
    forall q | q in out.files
      ensures !Within(q, queueDir) && q != queueDir
    {
      if q == bitmapPath || q == statsPath {
        assert q[|dir| + 1] != queueDir[|dir| + 1];
      } else {
        assert q in fs.files;
        if Within(q, queueDir) {
          WithinNested(q, dir, QueueDir);
        }
      }
    }
    forall q | q in out.dirs
      ensures !Within(q, queueDir) && q != queueDir
    {
      if Within(q, queueDir) {
        WithinNested(q, dir, QueueDir);
      }
    }
    forall q | q in out.faults
      ensures !Within(q, queueDir) && q != queueDir
    {
      if Within(q, queueDir) {
        WithinNested(q, dir, QueueDir);
      }
    }
  }

  /** Into a free queue/ below an existing directory, every entry of a well-formed archive is stored. */
  lemma QueueIntoFreeDir(lib: Library, fs: Fs, dir: Path, tar: Bytes)
    requires |dir| > 0 && dir in fs.dirs && NoFileAbove(fs, dir)
    requires Free(fs, JoinPath(dir, QueueDir))
    requires Distinct(EntryNames(lib.tarRead(tar).entries))
    requires forall e :: e in lib.tarRead(tar).entries ==> Slash !in e.name
    ensures var out := UnpackedQueue(lib, fs, tar, dir);
      forall e :: e in lib.tarRead(tar).entries ==>
        && JoinPath(JoinPath(dir, QueueDir), e.name) in out.files
        && out.files[JoinPath(JoinPath(dir, QueueDir), e.name)] == e.data
  {
    var queueDir := JoinPath(dir, QueueDir);
    FixedNames();
    ParentOfJoin(dir, QueueDir);
    JoinBelowNoFile(fs, dir, QueueDir);
    assert IsNotExist(Stat(fs, queueDir));
    var fs4 := Mkdir(fs, queueDir).0;
    var es := lib.tarRead(tar).entries;
    forall e | e in es
      ensures JoinPath(queueDir, e.name) !in fs4.files
      ensures JoinPath(queueDir, e.name) !in fs4.dirs
      ensures JoinPath(queueDir, e.name) !in fs4.faults
    {
      var p := JoinPath(queueDir, e.name);
      WithinJoin(queueDir, e.name);
      assert p != queueDir;
    }
    WriteEntriesFresh(fs4, queueDir, es);
  }

  /** Writing entries with distinct names into free paths of an existing directory stores every one of them. */
  lemma {:induction false} WriteEntriesFresh(fs: Fs, queueDir: Path, es: seq<Entry>)
    requires |queueDir| > 0 && queueDir in fs.dirs
    requires Distinct(EntryNames(es))
    requires forall e :: e in es ==>
      && Slash !in e.name
      && JoinPath(queueDir, e.name) !in fs.files
      && JoinPath(queueDir, e.name) !in fs.dirs
      && JoinPath(queueDir, e.name) !in fs.faults
    ensures var r := WriteEntries(fs, queueDir, es);
      forall e :: e in es ==> JoinPath(queueDir, e.name) in r.files && r.files[JoinPath(queueDir, e.name)] == e.data
    decreases |es|
  {
    if es != [] {
      var e0 := es[0];
      var fs1 := UnpackSingleFile(fs, e0.data, queueDir, e0.name);
      WriteFreshFile(fs, queueDir, e0.name, e0.data);
      var rest := es[1..];
      assert EntryNames(rest) == EntryNames(es)[1..];
      forall e | e in rest
        ensures JoinPath(queueDir, e.name) !in fs1.files
      {
        var k :| 0 <= k < |rest| && rest[k] == e;
        assert EntryNames(es)[k + 1] != EntryNames(es)[0];
        ParentOfJoin(queueDir, e0.name);
        ParentOfJoin(queueDir, e.name);
      }
      WriteEntriesFresh(fs1, queueDir, rest);
      var r := WriteEntries(fs, queueDir, es);
      assert r == WriteEntries(fs1, queueDir, rest);
      forall e | e in es
        ensures JoinPath(queueDir, e.name) in r.files && r.files[JoinPath(queueDir, e.name)] == e.data
      {
        if e !in rest {
          assert e == e0;
        }
      }
    }
  }

  /** The archive part reads back as the packed entries: distinct names, none with '/'. */
  lemma SentArchive(lib: Library, src: Fs, directory: Path)
    requires Lawful(lib)
    requires WellFormedListing(src, JoinPath(directory, QueueDir))
    ensures lib.tarRead(Padded(QueueTar(lib, src, directory))).entries == SentEntries(src, directory)
    ensures Distinct(EntryNames(SentEntries(src, directory)))
    ensures forall e :: e in SentEntries(src, directory) ==> Slash !in e.name
  {
    var queuePath := JoinPath(directory, QueueDir);
    var tar := QueueTar(lib, src, directory);
    DecodedLenOfEncodedLen(|tar|);
    if ReadDir(src, queuePath).Some? {
      var names := src.dirs[queuePath];
      QueueEntriesDistinct(src, queuePath, names);
      QueueEntriesSound(src, queuePath, names);
    } else {
      assert Padded(tar) == [];
    }
  }

  /**
   * Round trip: on a fresh target, unpacking the packet of a fuzzer
   * directory reports no error, recreates fuzz_bitmap and fuzzer_stats
   * under targetDir/name (each followed by the NUL bytes of base64 group
   * padding) and writes every packed queue file under its own name into
   * targetDir/name/queue.
   */
  lemma PackThenUnpack(lib: Library, src: Fs, name: Name, directory: Path, dst: Fs, targetDir: Path)
    requires Lawful(lib)
    requires ValidName(name)
    requires WellFormedListing(src, JoinPath(directory, QueueDir))
    requires FreshTarget(dst, targetDir, name)
    ensures
      var (out, err) := Unpacked(lib, Packet(lib, src, name, directory), targetDir, dst);
      var dir := JoinPath(targetDir, name);
      && err == None
      && JoinPath(dir, FuzzBitmap) in out.files
      && out.files[JoinPath(dir, FuzzBitmap)] == Padded(PackSingleFile(src, directory, FuzzBitmap))
      && JoinPath(dir, FuzzerStats) in out.files
      && out.files[JoinPath(dir, FuzzerStats)] == Padded(PackSingleFile(src, directory, FuzzerStats))
      && forall e :: e in SentEntries(src, directory) ==>
           && JoinPath(JoinPath(dir, QueueDir), e.name) in out.files
           && out.files[JoinPath(JoinPath(dir, QueueDir), e.name)] == e.data
  {
    var raw := Packet(lib, src, name, directory);
    ReceivedPacket(lib, src, name, directory);
    var parts := ReceivedParts(lib, raw).value;
    TrimRightNulPadding(name, PaddingLen(|name|));
    assert TrimRightNul(parts[0]) == name;
    SentArchive(lib, src, directory);
    assert parts[3] == Padded(QueueTar(lib, src, directory));
    UnpackOnFreshTarget(lib, raw, targetDir, dst, name);
  }

  /**
   * On a fresh target, a packet with four parts, a slash-free name and an
   * archive of distinct slash-free names unpacks without error: the two
   * single files hold their parts and every entry is stored under queue/.
   */
  lemma UnpackOnFreshTarget(lib: Library, raw: Bytes, targetDir: Path, dst: Fs, name: Name)
    requires ReceivedParts(lib, raw).Some?
    requires TrimRightNul(ReceivedParts(lib, raw).value[0]) == name && Slash !in name
    requires FreshTarget(dst, targetDir, name)
    requires Distinct(EntryNames(lib.tarRead(ReceivedParts(lib, raw).value[3]).entries))
    requires forall e :: e in lib.tarRead(ReceivedParts(lib, raw).value[3]).entries ==> Slash !in e.name
    ensures
      var parts := ReceivedParts(lib, raw).value;
      var (out, err) := Unpacked(lib, raw, targetDir, dst);
      var dir := JoinPath(targetDir, name);
      && err == None
      && JoinPath(dir, FuzzBitmap) in out.files && out.files[JoinPath(dir, FuzzBitmap)] == parts[1]
      && JoinPath(dir, FuzzerStats) in out.files && out.files[JoinPath(dir, FuzzerStats)] == parts[2]
      && forall e :: e in lib.tarRead(parts[3]).entries ==>
           && JoinPath(JoinPath(dir, QueueDir), e.name) in out.files
           && out.files[JoinPath(JoinPath(dir, QueueDir), e.name)] == e.data
  {
    var parts := ReceivedParts(lib, raw).value;
    var dir := JoinPath(targetDir, name);
    FreshFuzzerDir(dst, targetDir, name);
    var fs1 := MkdirAll(dst, dir).0;
    var fs2 := UnpackSingleFile(fs1, parts[1], dir, FuzzBitmap);
    var fs3 := UnpackSingleFile(fs2, parts[2], dir, FuzzerStats);
    assert Unpacked(lib, raw, targetDir, dst) == (UnpackedQueue(lib, fs3, parts[3], dir), None);
    SingleFilesIntoEmptyDir(fs1, dir, parts[1], parts[2]);
    SingleFilesKeepNoFileAbove(fs1, dir, parts[1], parts[2]);
    QueueIntoFreeDir(lib, fs3, dir, parts[3]);
  }

  /** fuzz_bitmap and fuzzer_stats go below dir, so no file lies above dir afterwards either. */
  lemma SingleFilesKeepNoFileAbove(fs: Fs, dir: Path, bitmap: Bytes, stats: Bytes)
    requires NoFileAbove(fs, dir)
    ensures NoFileAbove(UnpackSingleFile(UnpackSingleFile(fs, bitmap, dir, FuzzBitmap), stats, dir, FuzzerStats), dir)
  {
    FixedNames();
    WithinJoin(dir, FuzzBitmap);
    WithinJoin(dir, FuzzerStats);
    NoFileAboveKept(fs, UnpackSingleFile(UnpackSingleFile(fs, bitmap, dir, FuzzBitmap), stats, dir, FuzzerStats), dir);
  }
}
