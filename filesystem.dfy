/** The abstract filesystem that desparse runs against.

    Every Win32 call the tool makes is an oracle: the filesystem does not
    compute its answers, it carries them. A file-like object (a file, a
    directory, an alternate stream) is a `Probe` holding the reply of each call
    the converter makes on its path; a directory listing and a stream
    enumeration are `Cursor`s holding the replies of FindFirst…/FindNext….
    The tree is finite, so every walk over it terminates. */
module FileSystem {

  /** A Win32 DWORD, as returned by GetLastError. */
  type DWord = x: int | 0 <= x < 0x1_0000_0000

  /** The 64-bit pattern of a LARGE_INTEGER. Two LARGE_INTEGERs compare equal
      exactly when their bit patterns do, so sizes are kept unsigned. */
  type U64 = x: int | 0 <= x < 0x1_0000_0000_0000_0000

  /** A wide C string without its terminator: a path, an entry name or a
      stream name. It cannot contain NUL. */
  type Path = s: string | '\0' !in s

  const NO_ERROR: DWord := 0
  const ERROR_NO_MORE_FILES: DWord := 18
  const ERROR_HANDLE_EOF: DWord := 38
  const ERROR_FILE_EXISTS: DWord := 80
  const ERROR_DIRECTORY: DWord := 267

  /** GetCompressedFileSizeW's low word when it may have failed. */
  const INVALID_FILE_SIZE: DWord := 0xFFFF_FFFF

  const INVALID_FILE_ATTRIBUTES: bv32 := 0xFFFF_FFFF
  const FILE_ATTRIBUTE_DIRECTORY: bv32 := 0x10
  const FILE_ATTRIBUTE_SPARSE_FILE: bv32 := 0x200

  predicate IsDirectory(attributes: bv32) {
    attributes & FILE_ATTRIBUTE_DIRECTORY != 0
  }

  predicate IsSparse(attributes: bv32) {
    attributes & FILE_ATTRIBUTE_SPARSE_FILE != 0
  }

  /** The replies the system gives for one path, one field group per call:
      GetFileAttributesW (the attribute word; INVALID_FILE_ATTRIBUTES means it
      failed), CreateFileW, GetFileSizeEx on the handle, GetCompressedFileSizeW
      on the path (low word, high word and the last error read after it) and
      DeviceIoControl(FSCTL_SET_SPARSE) that clears the sparse flag. Each
      `…Error` field is what GetLastError returns right after that call. */
  datatype Probe = Probe(
    attributes: bv32, attributesError: DWord,
    opens: bool, openError: DWord,
    sizeKnown: bool, logicalSize: U64, sizeError: DWord,
    allocatedLow: DWord, allocatedHigh: DWord, allocatedError: DWord,
    clearSucceeds: bool, clearError: DWord)

  /** The allocated size assembled from GetCompressedFileSizeW's two words. */
  function AllocatedSize(p: Probe): (n: U64)
    ensures n % 0x1_0000_0000 == p.allocatedLow
    ensures n / 0x1_0000_0000 == p.allocatedHigh
  {
    p.allocatedHigh * 0x1_0000_0000 + p.allocatedLow
  }

  /** A FindFirst…/FindNext… cursor. `error` is GetLastError read right after
      FindFirst…; `Refused` is an INVALID_HANDLE_VALUE from it. An opened
      cursor delivers `first` from FindFirst…, then each of `next` from a
      successful FindNext…; the FindNext… after the last one fails with
      `endError`. */
  datatype Cursor<T> =
    | Refused(error: DWord)
    | Opened(error: DWord, first: T, next: seq<T>, endError: DWord)

  /** Everything an opened cursor delivers, in order. */
  function Items<T>(c: Cursor<T>): (items: seq<T>)
    ensures c.Opened? <==> items != []
    ensures c.Opened? ==> items[0] == c.first && items[1..] == c.next
  {
    if c.Opened? then [c.first] + c.next else []
  }

  /** A file-like object: the replies for its own path, the listing of
      `path\*` and the enumeration of its alternate streams. */
  datatype Node = Node(probe: Probe, listing: Cursor<Entry>, streams: Cursor<Stream>)

  /** One directory entry as FindFirstFileW/FindNextFileW report it. */
  datatype Entry = Entry(name: Path, attributes: bv32, node: Node)

  /** One stream as FindFirstStreamW/FindNextStreamW report it; `name` comes
      with its own leading ':' (":name:$DATA"). */
  datatype Stream = Stream(name: Path, probe: Probe)

  /** The objects named by command-line paths; `absent` answers for any path
      the volume does not hold. */
  datatype Volume = Volume(objects: map<Path, Node>, absent: Node)

  function Resolve(v: Volume, p: Path): Node {
    if p in v.objects then v.objects[p] else v.absent
  }
}
