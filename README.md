# cachefs in Dafny

A model of the in-memory core of the `cachefs` Go package, with proofs. Two
pieces make up that core.

- **`Buf`** (buf.go) is a circular read cursor over a fixed byte slice.
  Reading past the end reports `io.EOF` once. It also rewinds to 0, so the
  next pass starts again from the first byte.
- **`CacheFs`** (cachefs.go) is a handle that holds a whole file's content
  and the modification time seen when that content was loaded.
  - Every `Read`, `Seek`, `Stat` and `Readdir` first runs the freshness check
    `isNoRevise`.
  - If the file changed, `resetRead` reloads the handle and stores a copy of
    it in the registry. The call is then retried.
  - **`HttpCacheFs`** is that registry. It maps a path to a stored entry,
    and `Open` hands out copies of the entry.

Modules:

- `Io`: bytes, `Option`/`Result`, the error values (`io.EOF` or a path error
  naming the failed call) and the `io.Seek*` origins.
- `FileStore`: the operating-system files. A `Store` is a map from a path to
  a `File`, which holds a modification time, content, a directory listing and
  flags for which calls fail.
  - Each of `Open`, `Stat`, `ReadAll` and `Readdir` has its own failure
    flag, and each fails for a missing path or when its flag is set.
  - A regular file is one whose `Readdir` flag is set; a directory is one
    whose `ReadAll` flag is set.
  - A file handle `Fd` is the path it was opened with.
  - Each operation takes the store's state at the moment of the call as a
    parameter.
- `CircularBuffer` (buf.go):
  - class `Buf` with the fields `buflen`, `i` and `buf`;
  - `ReadStep`, which specifies one read;
  - `Run`, the reports of successive reads, and the round-trip lemmas about
    it.
- `CacheFileSystem` (cachefs.go):
  - `State`, the fields of a handle as a value, which is also what the
    registry stores for a path;
  - the pure functions `OpenAndStat`, `Load`, `NoRevise` and `Reset`;
  - the classes `CacheFs` and `HttpCacheFs`, whose methods update their
    fields in place and are proved against those functions.

The registry is a `map<string, State>` of values, not of pointers. This is
faithful because of how the source uses what it stores:

- `Open` stores the handle built by `NewCacheFs` (cachefs.go:40-41) and
  returns a copy of it.
- `resetRead` stores a fresh copy of the handle (cachefs.go:97).
- Nothing mutates either stored object afterwards, and callers only ever
  receive copies.
- A stored entry's back-pointer is always the registry that holds it, so
  `State` leaves the back-pointer out.

The registry invariant, `HttpCacheFs.Valid`: every stored entry is at
position 0 and is keyed by its own file name. `Open` and `ResetRead`
preserve it.

## Model

| member | source | states |
|---|---|---|
| CircularBuffer.ReadStep | buf.go:24-35 | Not exhausted (`0 <= i < L`): the read copies `min(len(p), L-i)` bytes, namely `buf[i..i+n]`, moves to `i+n <= L` and returns nil. Exhausted with an empty `p`: `(0, nil)` and the position stays. Exhausted with a non-empty `p`: `(0, EOF)` and the position becomes 0 |
| CircularBuffer.Buf.NewBuf | buf.go:17-20 | The new cursor holds exactly the given bytes, `buflen == len(buf)`, and its position is 0 |
| CircularBuffer.Buf.Read | buf.go:22-35 | Returns, and moves to, what `ReadStep` gives for the old position. It writes those bytes to the front of `p` and leaves the rest of `p` alone. It changes only the field `i`, so `buf` and `buflen` keep their values |
| CircularBuffer.Buf.Seek | buf.go:37-49 | The new position is `SeekPos` of the old one: no clamping, negative results allowed. It returns that position with a nil error and changes only `i` |
| CircularBuffer.SeekPosCases | buf.go:40-47 | `SeekStart` moves to `off`, `SeekCurrent` to `i+off` and `SeekEnd` to `L-off`. Any other `whence` leaves the position where it was |
| CircularBuffer.SeekArithmetic | buf.go:38-48 | Seeking to 5 from the start and then by -2 from the current position gives 3. Seeking 3 from the end gives `L-3` |
| CircularBuffer.Buf.Empty | buf.go:51-54 | True exactly when the position is at or past the end of the content. For a non-negative position, that is also exactly when a one-byte read returns `io.EOF` |
| CircularBuffer.Buf.Copy | buf.go:56-60 | A new cursor with the same bytes, length and position |
| CircularBuffer.ReadAfterCopy | buf.go:56-60 | Reading the original after taking a copy leaves the copy's position and bytes as they were |
| CircularBuffer.Run | buf.go:24-35 | `m` successive reads give exactly `m` reports and leave a non-negative position |
| CircularBuffer.RunSplit | buf.go:24-35 | `a+b` reads are `a` reads followed by `b` reads from where the first `a` left off |
| CircularBuffer.Drain | buf.go:32-34 | From any position `i <= L`, reads of `k > 0` bytes deliver exactly `buf[i..]` with no EOF in between, and stop at `L` |
| CircularBuffer.PassRoundTrip | buf.go:23-35 | From position 0 with any chunk size `k > 0`, the reads of one pass deliver exactly the content. Exactly one `EOF` follows, and the position is back at 0 |
| CircularBuffer.PassRepeats | buf.go:23-35 | After a full pass, every later read repeats the first pass's reports in order, so the cursor never stays exhausted |
| CacheFileSystem.OpenAndStat | cachefs.go:71-82 | Succeeds exactly when both the open and the stat succeed, giving a handle for the path and the file's modification time. Otherwise it returns the error of the step that failed |
| CacheFileSystem.Load | cachefs.go:57-69 | Succeeds exactly when open, stat and read all succeed. The result is the whole content at position 0, the stat's modification time and no memoised stat. Otherwise it returns the first failure |
| CacheFileSystem.NewCacheFs | cachefs.go:56-69 | On success: a fresh handle whose fields are `Load`'s result, with no registry back-pointer. On any failure: no handle, and the error |
| CacheFileSystem.NoRevise | cachefs.go:149-163 | With a memoised stat: fresh iff the cached time equals the memo's time, and never an error. Without one: the file is statted; fresh iff the cached time equals the file's time. A failed stat gives `(false, err)` |
| CacheFileSystem.Reset | cachefs.go:84-98 | A failed reopen changes nothing. A failed read replaces the handle and the time but keeps the old content and position. Success holds the file's content at position 0. It stores into the registry exactly on success, and it never touches the memoised stat |
| CacheFileSystem.CacheFs.ResetRead | cachefs.go:84-98 | The new fields are `Reset`'s. On success the buffer is new and the registry maps the file's name to the reloaded handle; otherwise the buffer and the registry are unchanged. Requires a back-pointer when the store at line 97 is reached |
| CacheFileSystem.RetryAfterReload | cachefs.go:85-98 | After a reopen that succeeds, the retried check cannot fail. It is fresh exactly when there is no memo or the memo's time equals the file's time |
| CacheFileSystem.StaleReloadServesNewContent | cachefs.go:110-115 | A stale handle with no memo, reloaded from an unchanged store, is fresh again. It then holds the file's current content at position 0 |
| CacheFileSystem.ReloadNeverMatchesMemo | cachefs.go:102-116 | If a stale handle's memo differs from the file's time, the state after a successful reload is still stale. Reloading it again gives the same state, so the retry of `Read`/`Seek` never ends |
| CacheFileSystem.FailedReopenKeepsStale | cachefs.go:175-186 | If a stale handle's reopen fails, the reload leaves it stale and unchanged. `Stat` and `Readdir` ignore that error and retry, so they never end |
| CacheFileSystem.FailedReadServesOldContent | cachefs.go:90-95 | After a failed read, the handle already carries the new modification time. With no memo, the next check is fresh, and the old content is served as current |
| CacheFileSystem.MemoHidesStore | cachefs.go:150-163 | With a memoised stat, the check gives the same answer for every store. Later changes to the file are not detected through this handle |
| CacheFileSystem.CacheFs.Read | cachefs.go:101-116 | If the check fails, returns `(0, err)` and changes nothing. If fresh, returns exactly the cursor's read, and only the position (and `p`) change. If the reload fails, returns `(0, err)` with its partial update. After a reload, serves the new content from position 0 and stores the reloaded entry |
| CacheFileSystem.CacheFs.Seek | cachefs.go:118-133 | The same four cases as `Read`, but the cursor's `Seek` is used. A fresh seek returns `SeekPos` and moves only the position. After a reload, it seeks in the new content from position 0 |
| CacheFileSystem.CacheFs.Stat | cachefs.go:172-186 | If the check fails, returns `(nil, err)` and changes nothing. Otherwise, on the current or the reloaded state, it returns the file's live stat and memoises it in `fdinfo`; a failed stat clears the memo. The reload's own error is dropped |
| CacheFileSystem.CacheFs.Readdir | cachefs.go:135-147 | The same retry as `Stat`. The handle's listing is returned unchanged and the reload's error is dropped. The fresh branch changes nothing |
| CacheFileSystem.CacheFs.Close | cachefs.go:165-170 | Always returns nil and modifies nothing |
| CacheFileSystem.CacheFs.Copy | cachefs.go:188-193 | A new handle with the same fields, content, position and back-pointer. Its cursor is a fresh object, so the two positions move independently |
| CacheFileSystem.HttpCacheFs.constructor | cachefs.go:23-27 | A registry with the given root that holds nothing |
| CacheFileSystem.HttpCacheFs.Open | cachefs.go:29-43 | On a hit: a copy of the stored entry, the store not consulted and the registry unchanged. If loading fails: no handle, the error, and nothing stored. Otherwise the loaded entry is stored under the key and the caller gets a copy with this registry as back-pointer. It keeps every stored entry at position 0 and keyed by its own name |

## Left out

- Concurrency: `sync.Map` is a plain map with load and store, and each call
  runs alone. Races between concurrent reloads and the goroutine fan-out of
  cachefs_test.go:59-86 are not modelled.
- The HTTP adapter: conformance to `http.File` and the examples in
  doc_test.go.
- Real I/O: `os.Open`, `(*os.File).Stat`, `io.ReadAll` and `Readdir` are
  functions of an abstract store.
  - The store is a parameter of each call and does not change during it.
  - A file handle is its path. Descriptor identity, and a file replaced
    under an open descriptor, are not modelled.
  - `CacheFileSystem.NoRevise`: because of this, the model behaves
    differently from the source when a file is deleted or replaced. The
    source stats the open descriptor (cachefs.go:156), so it keeps answering
    fresh and serves the old bytes. In the model, a deleted path makes the
    check fail with a stat error, which `CacheFs.Read` returns. A replaced
    path makes the handle stale, so it reloads.
- `CacheFs.Readdir`: the directory listing is passed through whole.
  - The `count` paging of `(*os.File).Readdir` is not modelled.
  - On error no partial listing is returned.
- `filepath.Join`: `Join` is plain concatenation with a separator; path
  cleaning is not modelled.
- `time.Time`: modification times are integers, and `Equal` is `==`.
  `os.FileInfo` keeps only name, size and modification time.
- Go's `int64` to `int` conversion in `Seek`: positions are unbounded
  integers.
- `Buf.Read`: requires a non-negative position. The source panics on the
  slice expression at buf.go:32 for a negative one. `CacheFs.Read` requires
  this only when the fresh branch is taken.
- `CacheFs.ResetRead`: requires a registry back-pointer when the reload
  succeeds. A handle made directly by `NewCacheFs` has none, and the source
  then panics at cachefs.go:97 after it has already replaced `fd`,
  `modtime` and `buf`.
- `CacheFs.Read`: requires the retry to end (`RetryEnds`). The source
  recurses without bound when a handle's memoised stat differs from the
  file's time and the reload succeeds; `ReloadNeverMatchesMemo` proves the
  state repeats.
- `CacheFs.Seek`: the same requirement as `CacheFs.Read`, for the same
  reason.
- `CacheFs.Stat`: requires the retry to end (`RetryEndsDiscarding`). The
  source also recurses without bound when the reopen fails, because the
  error is dropped; `FailedReopenKeepsStale` proves the state stays stale.
- `CacheFs.Readdir`: the same requirement as `CacheFs.Stat`, for the same
  reason.
- End-to-end `io.ReadAll` on a handle (cachefs_test.go:75-81): the round
  trip is proved on the cursor (`PassRoundTrip`, `PassRepeats`). `CacheFs.Read`
  is proved to hand a fresh call to that cursor unchanged. A loop of reads
  over a handle is not modelled.

Three behaviours of the code that a reader might not expect; the model follows the code:

- A reload is not all or nothing. A failed read leaves the new handle and
  time beside the old buffer (cachefs.go:90-95).
- `Stat` and `Readdir` drop the reload's error (cachefs.go:145, 184).
- `Seek` never fails, even for a negative position (buf.go:48).
