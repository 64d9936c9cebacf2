/**
 * The library code the codec relies on, kept abstract: DEFLATE compression
 * (RFC 1951, Go's compress/flate) and tar archives (Go's archive/tar). Each
 * is a function-valued field of a Library, and Lawful states the round trips
 * the codec depends on.
 */
module Archive {
  import opened Bytes
  import opened Files

  /** One tar entry: header name, header mode and the file's bytes. */
  datatype Entry = Entry(name: Bytes, mode: int, data: Bytes)

  /**
   * What tar.Reader yields from a buffer: the entries in archive order, and
   * whether reading ended at a malformed header rather than at io.EOF.
   */
  datatype TarStream = TarStream(entries: seq<Entry>, headerError: bool)

  datatype Library = Library(
    compress: Bytes -> Bytes,
    decompress: Bytes -> Bytes,
    tarWrite: seq<Entry> -> Bytes,
    tarRead: Bytes -> TarStream)

  /** flate.BestCompression. */
  const BestCompression: int := 9

  /** The mode written into every queue entry's header (octal 0600). */
  const QueueFileMode: int := 0x180

  /** flate.NewWriter accepts the levels -2 (Huffman only) through 9 and refuses every other level. */
  predicate CompressionLevelValid(level: int)
  {
    -2 <= level <= 9
  }

  /**
   * The properties of the library that the codec relies on: decompression
   * undoes compression; reading an empty buffer ends at once at io.EOF; and an
   * archive of entries whose names are valid directory names (the only
   * entries the codec writes) reads back entry for entry even when up to two
   * NUL bytes follow it (tar ignores data after its end-of-archive marker).
   * Nothing is assumed of other names: tar.Writer refuses a name holding NUL.
   */
  ghost predicate Lawful(lib: Library)
  {
    && (forall b :: lib.decompress(lib.compress(b)) == b)
    && lib.tarRead([]) == TarStream([], false)
    && (forall es, k | 0 <= k < 3 && NamesValid(es) :: lib.tarRead(lib.tarWrite(es) + Zeros(k)) == TarStream(es, false))
  }

  /** Every entry is named by a valid directory name. */
  predicate NamesValid(es: seq<Entry>)
  {
    forall e :: e in es ==> ValidName(e.name)
  }
}
