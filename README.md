# desparse, modelled in Dafny

desparse is a Windows command-line tool. For every sparse file it is given, it
checks that the file has no holes: its logical size must equal its allocated
size. If so, it clears the file's sparse flag, so the file is stored dense.
It can walk directories (`-r`), and it can work on a file's alternate data
streams instead of the file itself (`-s`).

This project models the four parts of `desparse.c` that decide what the tool
does. Each runs over an abstract filesystem and yields the lines the tool
prints as a sequence of events:

- `Dispatch` is `wmain`, the loop over `argv`. It is proved equal to
  "parse, then execute": `Parse` turns the arguments into path jobs, each
  carrying the `-r`/`-s` flags in force at its argument, plus an optional
  stop (`-h`, or an unknown option letter).
- `Converter` is `desparse`, a pure cascade of queries. Its result is the
  outcome phrase, the DWORD it returns and the list of system calls it made.
- `Streams` is `desparse_streams`, the stream cursor loop.
- `Walker` is `recursive_desparse`, the depth-first, pre-order listing walk.

The system calls are not modelled. They are oracle replies stored in the
filesystem:

- A `Probe` holds the replies for one path: the attribute word, whether the
  open succeeds, both size queries, and the clear request.
- A `Cursor` holds the replies of a FindFirst…/FindNext… enumeration. This
  includes the last-error value read right after FindFirst…, which the code
  tests before it tests the handle.
- A `Node` is a file-like object: a probe, a directory listing and a stream
  enumeration.
- The walker follows the listings. Top-level arguments are looked up in a
  `Volume`.

The C loops are `do … while` cursor loops. They are modelled as methods with
`while` loops, proved equal to specification functions; the lemmas state what
those functions guarantee.

## Model

| member | source | states |
|---|---|---|
| `FileSystem.AllocatedSize` | desparse.c:180-181 | The allocated size is the 64-bit value whose low and high 32-bit words are the two words GetCompressedFileSizeW returns; both words can be read back from it. |
| `Converter.Desparse` | desparse.c:150-203 | The clear-sparse request is issued exactly when all of these hold: the attribute query succeeds, the sparse bit is set, the open succeeds, both size queries succeed, and the two sizes are equal. The outcome is "cleared" exactly when that request also succeeds. "Not sparse" and "not fully filled" each hold exactly in their own case and return ERROR_FILE_EXISTS. The handle is opened only for a sparse object. Once opened, it is closed exactly once, as the last call. A failed open is never closed. A failed attribute query, open or size query (either one) is reported as exactly that failure, and a failed clear as a clear failure. The error in the printed phrase and the DWORD returned are the error of the call that failed: for the sizes, GetFileSizeEx's when it failed, else GetCompressedFileSizeW's. |
| `Converter.LineTally` | desparse.c:157-198 | The converter's status line for an object counts as one object of the census. It counts as a clear exactly when the object's replies let the converter clear it. |
| `Streams.StreamPath` | desparse.c:139 | A stream's address is the file path followed directly by the stream name, with no separator. |
| `Streams.StreamLines` | desparse.c:138-146 | There is one converter line per enumerated stream, in enumeration order. Line k is for `f` + name k and carries the converter's outcome for that stream. |
| `Streams.StreamReport` | desparse.c:125-148 | Nothing is printed exactly when the first lookup reports ERROR_HANDLE_EOF. A refused first lookup gives a single fault line. Otherwise the output is the converter lines for every enumerated stream. One more line follows them exactly when the final FindNextStreamW error is not ERROR_HANDLE_EOF, and that line is the FindNextStreamW fault with that error. |
| `Streams.DesparseStreams` | desparse.c:125-148 | The cursor loop prints exactly `StreamReport(f, c)`. |
| `Streams.StreamReportPaths` | desparse.c:135-144 | Every line the stream enumerator prints names `f` or a path that starts with `f`. |
| `Streams.StreamLinesTally` | desparse.c:138-146 | Converting a list of streams prints one status line per stream. The number of clears equals the number of streams whose replies allow one. |
| `Streams.StreamReportTally` | desparse.c:131-146 | The enumerator's status lines and clears match the census of enumerated streams. An ERROR_HANDLE_EOF or refused first lookup gives none. |
| `Walker.ChildPath` | desparse.c:102 | A child path is `base`, then one backslash, then the entry name. |
| `Walker.RecursiveDesparse` | desparse.c:83-123 | The listing loop prints exactly what `Walk` specifies and returns its error. Pre-order: each entry's output, including a whole sub-walk, comes before the next entry's. The function returns the last error read from the listing. It returns ERROR_DIRECTORY, printing nothing, when FindFirstFileW reports ERROR_DIRECTORY. |
| `Walker.DesparseEntry` | desparse.c:100-112 | The loop body for one entry prints exactly `EntryEvents`: nothing for "." and "..", the whole sub-walk for a directory, the converter's line (or its streams' lines) for a sparse file, and a not-sparse line for anything else. |
| `Walker.WalkPaths` | desparse.c:100-102 | A walk never composes a path from "." or "..". Every line it prints names one of two things. The first is `base` itself, and only as a FindFirstFile/FindNextFile failure. The second is a path that starts with `base\name` for a listed entry whose name is neither "." nor "..". |
| `Walker.EntriesPaths` | desparse.c:99-119 | Every line printed for the first i entries lies under a non-dot entry of the listing. |
| `Walker.EntryPaths` | desparse.c:100-112 | A "." or ".." entry prints nothing. Every line printed for any other entry names a path that starts with `base\name`. |
| `Walker.WalkTally` | desparse.c:99-119 | A walk prints one converter line per object in the census: each sparse non-directory entry reached through the listings at any depth (or each of its enumerated streams in stream mode). Directories and non-sparse entries add none. The number of clears equals the number of census objects whose replies allow a clear. |
| `Walker.WalkStatuses` | desparse.c:99-119 | The status lines a walk prints are, in order, the converter's lines for its targets. The targets are each sparse non-directory entry reached at any depth, under its composed path, or each of its enumerated streams in stream mode. Each line carries its own object's outcome, so the walk clears exactly the objects whose replies allow it. |
| `Streams.StreamReportStatuses` | desparse.c:131-146 | The status lines desparse_streams prints are, in order, the converter's lines for the enumerated streams under their stream paths. |
| `Walker.WalkClearsAll` | desparse.c:99-119 | When every object the walk reaches (each sparse file at any depth, or each of its streams) is fully allocated and accepts the clear request, every status line the walk prints reports a clear. |
| `Walker.EntriesCount` | desparse.c:99-119 | The same count, for the first i entries of one listing. |
| `Walker.EntryCount` | desparse.c:103-112 | The same count for one entry. A directory counts its whole subtree. A sparse file counts itself or its streams. Anything else counts nothing. |
| `Dispatch.Letters` | desparse.c:40-59 | A word made only of `r` and `s` sets exactly those flags, and the run goes on. Any other letter stops the run. The letters are read in order, so the first letter other than `r` and `s` decides: `h` gives the usage text, any other letter is reported as unknown (`-xh` is an unknown `x`, `-hx` is the usage text). Flags already set stay set. |
| `Dispatch.ReadOptions` | desparse.c:40-59 | The inner letter loop computes `Letters` on the word without its leading `-`. |
| `Dispatch.JobPaths` | desparse.c:34-61 | No job has the path "--". Every job's path is one of the arguments. |
| `Dispatch.Dispatch` | desparse.c:62-69 | A path whose listing reports ERROR_DIRECTORY is converted directly, with or without `-r`. Without `-r` a path is never walked. Under `-r` the walk's lines come first. If the walk returns any error other than ERROR_DIRECTORY, nothing follows them. If it returns ERROR_DIRECTORY, direct processing follows them. |
| `Dispatch.Process` | desparse.c:62-69 | wmain's handling of one path prints exactly `Dispatch(v, job)`: under `-r` the walk comes first, and direct processing follows only when the walk returns ERROR_DIRECTORY. |
| `Dispatch.Run` | desparse.c:24-72 | The exit status is 1 exactly when an unknown option letter stopped the run, and 0 otherwise, whatever happened to the files. The output is the usage text when there are no arguments. Otherwise it is each path's processing in argv order, followed by the usage text or the unknown-option complaint if the run was stopped. |
| `Dispatch.HaltIsFinal` | desparse.c:43-56 | Once `-h` or an unknown option has stopped the run, no later argument is read or processed. |
| `Dispatch.DoubleDashEndsOptions` | desparse.c:35-38 | After an argument "--", option parsing is off. |
| `Dispatch.AfterDoubleDash` | desparse.c:35-39 | After "--", every later argument except "--" is a path with the flags collected before it, even if it starts with `-`. A later "--" is skipped. Nothing later can stop the run. |
| `Dispatch.LoneDashIgnored` | desparse.c:39-41 | While options are parsed, the argument "-" changes nothing. |
| `Dispatch.FlagsPersist` | desparse.c:36-51 | `-r` and `-s` stay on once given. Option parsing stays off once turned off. |
| `Dispatch.JobsInOrder` | desparse.c:34-69 | Later arguments only append jobs after those of earlier ones. |
| `Dispatch.JobFlags` | desparse.c:34-69 | A path argument is processed right after the paths before it. Its flags are the ones set by the arguments before it. |

## Behaviour taken from the code

These points are read from the code, which the model follows.

- Flags apply only to paths that come after them in argv. A path given
  before `-r` is not walked.
- An unknown option letter ends the run with status 1. Paths given before it
  have already been processed. `-h` behaves the same way with status 0.
- The argument "--" is recognised wherever it appears. It is never a path,
  even after option parsing is off.
- `desparse_streams` converts only what FindFirstStreamW and FindNextStreamW
  report. It does not convert the base file first.
- Whether the unnamed default stream appears among the streams is up to the
  enumeration's replies.
- ERROR_DIRECTORY (listing) and ERROR_HANDLE_EOF (streams) are tested on the
  last error read after FindFirst…, before the handle is tested. The model
  keeps that order, so a valid handle with that last error also ends the
  call at once.
- The walker returns the error of the last FindNextFileW. A walk whose final
  FindNextFileW reports ERROR_DIRECTORY therefore also falls back to direct
  processing.
- GetCompressedFileSizeW counts as failed only when its low word is
  INVALID_FILE_SIZE and the last error is not NO_ERROR.

## Left out

- The Win32 calls themselves are oracle replies in the filesystem, not
  modelled. This covers GetFileAttributesW, CreateFileW, GetFileSizeEx,
  GetCompressedFileSizeW, DeviceIoControl, FindFirst/NextFileW and
  FindFirst/NextStreamW. GetLastError is represented only by the error value
  stored with each reply.
- The filesystem is a fixed snapshot. A successful clear is recorded as an
  event. Later queries in the same run are not changed by it, including
  queries that reach the same object under another path, such as a stream
  path of a file already cleared.
- Paths are opaque strings: nothing ties the object found under a composed
  path to its listing entry. The walker hands on the entry's own node.
- The 32768-character limit of the path buffers (`swprintf`) is not modelled:
  paths are unbounded. Neither are the 64 KiB name buffers or their leaks on
  early returns.
- Handles are not modelled. That covers the FindClose of the walker and the
  search handles the code never releases: the walker's on its
  ERROR_DIRECTORY early return, and every stream enumeration that
  FindFirstStreamW opens, because `desparse_streams` (desparse.c:125-148)
  never calls FindClose. The model cannot show these leaks.
  `Converter.Desparse` models the file handle's open/close discipline
  through its list of calls.
- `w32strerror`/FormatMessageW with its thread-local buffer, the text of
  `usage`, `_setmode` and wide-character formatting are output plumbing and
  are not modelled. Each printed line is an event of its kind, carrying the
  path and error code it would show. Standard output and standard error are
  told apart only by event kind.
- `argv[0]` (shown only in the usage text) is not an input. Arguments are
  NUL-free strings (`Path`), as C strings are.
- Strings are sequences of Unicode scalar values, not of UTF-16 code units
  as `wchar_t` strings are. For an option letter outside the Basic
  Multilingual Plane the code reports the high surrogate (desparse.c:54),
  while the model reports the whole character. Paths with unpaired
  surrogates cannot be represented.
- Concurrent changes to the filesystem during a walk, and reparse-point or
  symbolic-link loops, are not modelled. The tree is finite and acyclic.
