/** The revalidating cache of cachefs.go. A `CacheFs` handle holds a whole
    file's content in a circular cursor together with the modification time
    seen when the content was loaded. Every read, seek, stat and listing
    first checks whether the file has changed since; a changed file is
    reloaded (and the reload stored in the registry) before the call is
    retried. `HttpCacheFs` is the registry: it maps each path to a stored
    entry and hands out copies of it. */
module CacheFileSystem {
  import opened Io
  import opened FileStore
  import opened CircularBuffer

  /** The fields of a handle other than its registry back-pointer, as a value.
      The registry stores one of these per path. */
  datatype State = State(fd: Fd, fdinfo: Option<Info>, modtime: int, content: seq<byte>, pos: int)

  /** The registry key for `name` under the root `root`. */
  function Join(root: string, name: string): string
  {
    root + "/" + name
  }

  /** `openAndStat`: open the path, then stat the handle. */
  function OpenAndStat(s: Store, name: string): (r: Result<(Fd, Info)>)
    ensures r.Ok? <==> name in s && !s[name].openFails && !s[name].statFails
    ensures r.Ok? ==> r.value.0 == Fd(name) && r.value.1.modtime == s[name].modtime
    ensures r.Err? ==>
      r.error == if name in s && !s[name].openFails then PathError(OpStat, name) else PathError(OpOpen, name)
  {
    match Open(s, name)
    case Err(e) => Err(e)
    case Ok(fd) =>
      match Stat(s, fd)
      case Err(e) => Err(e)
      case Ok(info) => Ok((fd, info))
  }

  /** What `NewCacheFs` builds: the whole content at position 0, the
      modification time of the stat, no memoised stat. */
  function Load(s: Store, name: string): (r: Result<State>)
    ensures r.Ok? <==> name in s && !s[name].openFails && !s[name].statFails && !s[name].readFails
    ensures r.Ok? ==> r.value == State(Fd(name), None, s[name].modtime, s[name].content, 0)
    ensures r.Err? ==>
      r.error == if OpenAndStat(s, name).Err? then OpenAndStat(s, name).error else PathError(OpRead, name)
  {
    match OpenAndStat(s, name)
    case Err(e) => Err(e)
    case Ok((fd, info)) =>
      match ReadAll(s, fd)
      case Err(e) => Err(e)
      case Ok(file) => Ok(State(fd, None, info.modtime, file, 0))
  }

  /** `isNoRevise`: is the cached modification time still the one observed,
      where the memoised stat, when there is one, stands in for the file? */
  function NoRevise(st: State, s: Store): (r: (bool, Option<Error>))
    ensures st.fdinfo.Some? ==> r == (st.modtime == st.fdinfo.value.modtime, None)
    ensures st.fdinfo.None? ==>
      && (r.1.None? <==> st.fd.name in s && !s[st.fd.name].statFails)
      && (r.1.Some? ==> r == (false, Some(PathError(OpStat, st.fd.name))))
      && (r.1.None? ==> r.0 == (st.modtime == s[st.fd.name].modtime))
  {
    var observed := if st.fdinfo.Some? then Ok(st.fdinfo.value) else Stat(s, st.fd);
    match observed
    case Err(e) => (false, Some(e))
    case Ok(info) => (st.modtime == info.modtime, None)
  }

  /** The freshness check ends the retry: it says fresh, or it fails. */
  predicate Settles(st: State, s: Store)
  {
    NoRevise(st, s).0 || NoRevise(st, s).1.Some?
  }

  /** What `resetRead` does to a handle: the new fields, the error it returns
      and whether it stored the handle into the registry. */
  datatype Reload = Reload(st: State, err: Option<Error>, stored: bool)

  function Reset(st: State, s: Store): (r: Reload)
    ensures r.stored <==> r.err.None?
    ensures r.st.fd == st.fd && r.st.fdinfo == st.fdinfo
    ensures OpenAndStat(s, st.fd.name).Err? ==> r == Reload(st, Some(OpenAndStat(s, st.fd.name).error), false)
    ensures OpenAndStat(s, st.fd.name).Ok? ==>
      && r.st.modtime == s[st.fd.name].modtime
      && if s[st.fd.name].readFails then
           r.st.content == st.content && r.st.pos == st.pos && r.err == Some(PathError(OpRead, st.fd.name))
         else
           r.st.content == s[st.fd.name].content && r.st.pos == 0 && r.err == None
  {
    match OpenAndStat(s, st.fd.name)
    case Err(e) => Reload(st, Some(e), false)
    case Ok((fd, info)) =>
      var st1 := st.(fd := fd, modtime := info.modtime);
      match ReadAll(s, fd)
      case Err(e) => Reload(st1, Some(e), false)
      case Ok(file) => Reload(st1.(content := file, pos := 0), None, true)
  }

  /** Once the reopen and stat of a reload succeed, the retried freshness
      check cannot fail, and it is fresh exactly when there is no memoised
      stat or the memo agrees with the file's modification time. */
  lemma RetryAfterReload(st: State, s: Store)
    requires OpenAndStat(s, st.fd.name).Ok?
    ensures NoRevise(Reset(st, s).st, s).1 == None
    ensures NoRevise(Reset(st, s).st, s).0 <==>
      st.fdinfo.None? || st.fdinfo.value.modtime == s[st.fd.name].modtime
  {
  }

  /** A stale handle with no memoised stat, reloaded from an unchanged store,
      is fresh again and holds the file's current content at position 0. */
  lemma StaleReloadServesNewContent(st: State, s: Store)
    requires st.fdinfo.None? && NoRevise(st, s) == (false, None)
    requires Reset(st, s).err == None
    ensures NoRevise(Reset(st, s).st, s) == (true, None)
    ensures Reset(st, s).st.content == s[st.fd.name].content && Reset(st, s).st.pos == 0
  {
  }

  /** A memoised stat whose time differs from the file's makes every reload
      come back stale and unchanged, so the retry of `Read` and `Seek` never
      ends. */
  lemma ReloadNeverMatchesMemo(st: State, s: Store)
    requires st.fdinfo.Some? && NoRevise(st, s) == (false, None)
    requires Reset(st, s).err == None
    requires st.fdinfo.value.modtime != s[st.fd.name].modtime
    ensures NoRevise(Reset(st, s).st, s) == (false, None)
    ensures Reset(Reset(st, s).st, s) == Reset(st, s)
  {
  }

  /** A reload whose reopen fails changes nothing, so a stale handle stays
      stale; `Stat` and `Readdir`, which drop that error and retry, never
      end. */
  lemma FailedReopenKeepsStale(st: State, s: Store)
    requires NoRevise(st, s) == (false, None)
    requires OpenAndStat(s, st.fd.name).Err?
    ensures Reset(st, s).st == st && NoRevise(Reset(st, s).st, s) == (false, None)
  {
  }

  /** A reload whose read fails has already taken the new modification time,
      so with no memoised stat the next check is fresh and the old content is
      served as current. */
  lemma FailedReadServesOldContent(st: State, s: Store)
    requires st.fdinfo.None?
    requires OpenAndStat(s, st.fd.name).Ok? && s[st.fd.name].readFails
    ensures Reset(st, s).err.Some?
    ensures NoRevise(Reset(st, s).st, s) == (true, None)
    ensures Reset(st, s).st.content == st.content && Reset(st, s).st.pos == st.pos
  {
  }

  /** With a memoised stat the check does not look at the store at all, so a
      later change to the file goes unnoticed through this handle. */
  lemma MemoHidesStore(st: State, s1: Store, s2: Store)
    requires st.fdinfo.Some?
    ensures NoRevise(st, s1) == NoRevise(st, s2)
  {
  }

  /** The retry of `Read` and `Seek` ends: the first check settles, or the
      reload fails (its error is returned), or the reload has a registry to
      store into and the retried check settles. */
  predicate RetryEnds(st: State, s: Store, hasRegistry: bool)
  {
    Settles(st, s) ||
    var r := Reset(st, s); r.err.Some? || (hasRegistry && Settles(r.st, s))
  }

  /** The retry of `Stat` and `Readdir` ends; these drop the reload's error
      and retry whatever it was. */
  predicate RetryEndsDiscarding(st: State, s: Store, hasRegistry: bool)
  {
    Settles(st, s) ||
    var r := Reset(st, s); (r.stored ==> hasRegistry) && Settles(r.st, s)
  }

  /** The memo `Stat` leaves: the stat result, or nothing when it failed. */
  function Memo(r: Result<Info>): Option<Info>
  {
    if r.Ok? then Some(r.value) else None
  }

  class CacheFs {
    var fs: HttpCacheFs?
    var fd: Fd
    var fdinfo: Option<Info>
    var modtime: int
    var buf: Buf

    ghost predicate Valid()
      reads this, buf, fs
    {
      buf.Valid() && (fs != null ==> fs.Valid())
    }

    function Snapshot(): State
      reads this, buf
    {
      State(fd, fdinfo, modtime, buf.buf, buf.i)
    }

    constructor Of(fs: HttpCacheFs?, fd: Fd, fdinfo: Option<Info>, modtime: int, buf: Buf)
      ensures this.fs == fs && this.fd == fd && this.fdinfo == fdinfo
      ensures this.modtime == modtime && this.buf == buf
    {
      this.fs := fs;
      this.fd := fd;
      this.fdinfo := fdinfo;
      this.modtime := modtime;
      this.buf := buf;
    }

    /** `resetRead`: reopen, restat and reread the file; the handle's fields
        are replaced one after the other, so a failed read leaves the new
        handle and time beside the old buffer. Storing into the registry
        dereferences the back-pointer, which must then be set. */
    method ResetRead(s: Store) returns (err: Option<Error>)
      requires Valid()
      requires Reset(Snapshot(), s).stored ==> fs != null
      modifies this, fs
      ensures Valid() && fs == old(fs)
      ensures var r := Reset(old(Snapshot()), s);
        && Snapshot() == r.st && err == r.err
        && (r.stored ==> fresh(buf) && fs.fd == old(fs.fd)[r.st.fd.name := r.st])
        && (!r.stored ==> buf == old(buf) && (fs != null ==> fs.fd == old(fs.fd)))
    {
      var got := OpenAndStat(s, fd.name);
      if got.Err? {
        return Some(got.error);
      }
      fd := got.value.0;
      modtime := got.value.1.modtime;
      var file := ReadAll(s, fd);
      if file.Err? {
        return Some(file.error);
      }
      buf := new Buf.NewBuf(file.value);
      fs.fd := fs.fd[fd.name := Snapshot()];
      return None;
    }

    /** `Read`: a fresh handle reads its own cursor; a stale one is reloaded
        and the read retried, which then reads the new content from its
        start. A failed check or reload is returned with nothing read. */
    method Read(p: array<byte>, s: Store) returns (n: int, err: Option<Error>)
      requires Valid()
      requires RetryEnds(Snapshot(), s, fs != null)
      requires NoRevise(Snapshot(), s) == (true, None) ==> buf.i >= 0
      modifies this, buf, fs, p
      ensures Valid() && fs == old(fs)
      ensures var st := old(Snapshot()); var c := NoRevise(st, s); var r := Reset(st, s);
        if c.1.Some? then
          && n == 0 && err == c.1 && Snapshot() == st && buf == old(buf)
          && p[..] == old(p[..]) && (fs != null ==> fs.fd == old(fs.fd))
        else if c.0 then
          var o := ReadStep(st.content, st.pos, p.Length);
          && n == |o.data| && err == o.err && Snapshot() == st.(pos := o.pos) && buf == old(buf)
          && p[..n] == o.data && p[n..] == old(p[n..]) && (fs != null ==> fs.fd == old(fs.fd))
        else if r.err.Some? then
          && n == 0 && err == r.err && Snapshot() == r.st && buf == old(buf)
          && p[..] == old(p[..]) && (fs != null ==> fs.fd == old(fs.fd))
        else
          var o := ReadStep(r.st.content, 0, p.Length);
          && n == |o.data| && err == o.err && Snapshot() == r.st.(pos := o.pos) && fresh(buf)
          && p[..n] == o.data && p[n..] == old(p[n..]) && fs.fd == old(fs.fd)[r.st.fd.name := r.st]
      decreases if Settles(Snapshot(), s) then 0 else 1
    {
      var check := NoRevise(Snapshot(), s);
      if check.1.Some? {
        return 0, check.1;
      }
      if check.0 {
        n, err := buf.Read(p);
        return;
      }
      ghost var st := Snapshot();
      var e := ResetRead(s);
      if e.Some? {
        return 0, e;
      }
      RetryAfterReload(st, s);
      n, err := Read(p, s);
    }

    /** `Seek`: the same check and retry around the cursor's `Seek`. */
    method Seek(offset: int, whence: int, s: Store) returns (pos: int, err: Option<Error>)
      requires Valid()
      requires RetryEnds(Snapshot(), s, fs != null)
      modifies this, buf, fs
      ensures Valid() && fs == old(fs)
      ensures var st := old(Snapshot()); var c := NoRevise(st, s); var r := Reset(st, s);
        if c.1.Some? then
          && pos == 0 && err == c.1 && Snapshot() == st && buf == old(buf)
          && (fs != null ==> fs.fd == old(fs.fd))
        else if c.0 then
          && pos == SeekPos(|st.content|, st.pos, offset, whence) && err == None
          && Snapshot() == st.(pos := pos) && buf == old(buf) && (fs != null ==> fs.fd == old(fs.fd))
        else if r.err.Some? then
          && pos == 0 && err == r.err && Snapshot() == r.st && buf == old(buf)
          && (fs != null ==> fs.fd == old(fs.fd))
        else
          && pos == SeekPos(|r.st.content|, 0, offset, whence) && err == None
          && Snapshot() == r.st.(pos := pos) && fresh(buf) && fs.fd == old(fs.fd)[r.st.fd.name := r.st]
      decreases if Settles(Snapshot(), s) then 0 else 1
    {
      var check := NoRevise(Snapshot(), s);
      if check.1.Some? {
        return 0, check.1;
      }
      if check.0 {
        pos, err := buf.Seek(offset, whence);
        return;
      }
      ghost var st := Snapshot();
      var e := ResetRead(s);
      if e.Some? {
        return 0, e;
      }
      RetryAfterReload(st, s);
      pos, err := Seek(offset, whence, s);
    }

    /** `Stat`: a fresh handle stats its file and memoises the result (or
        forgets the memo when the stat fails); a stale one is reloaded, the
        reload's error dropped, and the stat retried. */
    method Stat(s: Store) returns (info: Option<Info>, err: Option<Error>)
      requires Valid()
      requires RetryEndsDiscarding(Snapshot(), s, fs != null)
      modifies this, fs
      ensures Valid() && fs == old(fs)
      ensures var st := old(Snapshot()); var c := NoRevise(st, s); var r := Reset(st, s);
        if c.1.Some? then
          && info == None && err == c.1 && Snapshot() == st && buf == old(buf)
          && (fs != null ==> fs.fd == old(fs.fd))
        else
          var base := if c.0 then st else r.st;
          var live := FileStore.Stat(s, base.fd);
          && info == Memo(live) && err == ErrorOf(live) && Snapshot() == base.(fdinfo := info)
          && if c.0 || !r.stored then
               buf == old(buf) && (fs != null ==> fs.fd == old(fs.fd))
             else
               fresh(buf) && fs.fd == old(fs.fd)[r.st.fd.name := r.st]
      decreases if Settles(Snapshot(), s) then 0 else 1
    {
      var check := NoRevise(Snapshot(), s);
      if check.1.Some? {
        return None, check.1;
      }
      if check.0 {
        var live := FileStore.Stat(s, fd);
        fdinfo := Memo(live);
        return fdinfo, ErrorOf(live);
      }
      ghost var st := Snapshot();
      var _ := ResetRead(s);
      RetryAfterReload(st, s);
      info, err := Stat(s);
    }

    /** `Readdir`: the same check and retry around the handle's listing,
        which is passed through. */
    method Readdir(count: int, s: Store) returns (list: Option<seq<Info>>, err: Option<Error>)
      requires Valid()
      requires RetryEndsDiscarding(Snapshot(), s, fs != null)
      modifies this, fs
      ensures Valid() && fs == old(fs)
      ensures var st := old(Snapshot()); var c := NoRevise(st, s); var r := Reset(st, s);
        if c.1.Some? then
          && list == None && err == c.1 && Snapshot() == st && buf == old(buf)
          && (fs != null ==> fs.fd == old(fs.fd))
        else
          var base := if c.0 then st else r.st;
          var out := FileStore.Readdir(s, base.fd, count);
          && list == (if out.Ok? then Some(out.value) else None) && err == ErrorOf(out)
          && Snapshot() == base
          && if c.0 || !r.stored then
               buf == old(buf) && (fs != null ==> fs.fd == old(fs.fd))
             else
               fresh(buf) && fs.fd == old(fs.fd)[r.st.fd.name := r.st]
      decreases if Settles(Snapshot(), s) then 0 else 1
    {
      var check := NoRevise(Snapshot(), s);
      if check.1.Some? {
        return None, check.1;
      }
      if check.0 {
        var out := FileStore.Readdir(s, fd, count);
        list := if out.Ok? then Some(out.value) else None;
        return list, ErrorOf(out);
      }
      ghost var st := Snapshot();
      var _ := ResetRead(s);
      RetryAfterReload(st, s);
      list, err := Readdir(count, s);
    }

    /** `Close`: always succeeds and releases nothing, since the handle is
        shared with every other copy. */
    method Close() returns (err: Option<Error>)
      ensures err == None
    {
      return None;
    }

    /** `Copy`: the same fields and back-pointer, and a cursor of its own. */
    method Copy() returns (c: CacheFs)
      requires Valid()
      ensures fresh(c) && fresh(c.buf) && c.Valid()
      ensures c.fs == fs && c.Snapshot() == Snapshot()
    {
      var b := buf.Copy();
      c := new CacheFs.Of(fs, fd, fdinfo, modtime, b);
    }
  }

  /** `NewCacheFs`: load the whole file; any failed step yields no handle.
      The new handle belongs to no registry yet. */
  method NewCacheFs(name: string, s: Store) returns (f: CacheFs?, err: Option<Error>)
    ensures Load(s, name).Err? ==> f == null && err == Some(Load(s, name).error)
    ensures Load(s, name).Ok? ==>
      && err == None && f != null && fresh(f) && fresh(f.buf) && f.Valid()
      && f.fs == null && f.Snapshot() == Load(s, name).value
  {
    var got := OpenAndStat(s, name);
    if got.Err? {
      return null, Some(got.error);
    }
    var fd := got.value.0;
    var modtime := got.value.1.modtime;
    var file := ReadAll(s, fd);
    if file.Err? {
      return null, Some(file.error);
    }
    var b := new Buf.NewBuf(file.value);
    f := new CacheFs.Of(null, fd, None, modtime, b);
    err := None;
  }

  class HttpCacheFs {
    const path: string
    var fd: map<string, State>

    /** Every stored entry sits at position 0 and is keyed by its own path. */
    ghost predicate Valid()
      reads this
    {
      forall key :: key in fd ==> fd[key].pos == 0 && fd[key].fd.name == key
    }

    /** `NewHttpCacheFs`: a registry rooted at `path`, holding nothing. */
    constructor (path: string)
      ensures Valid() && this.path == path && fd == map[]
    {
      this.path := path;
      fd := map[];
    }

    /** `Open`: a cached path is served as a copy of its entry without
        consulting the store; otherwise the file is loaded, stored with this
        registry as its back-pointer, and a copy is served. */
    method Open(name: string, s: Store) returns (f: CacheFs?, err: Option<Error>)
      requires Valid()
      modifies this
      ensures Valid()
      ensures var key := Join(path, name);
        if key in old(fd) then
          && fd == old(fd) && err == None && f != null && fresh(f) && fresh(f.buf)
          && f.Valid() && f.fs == this && f.Snapshot() == old(fd)[key]
        else if Load(s, key).Err? then
          fd == old(fd) && f == null && err == Some(Load(s, key).error)
        else
          && fd == old(fd)[key := Load(s, key).value] && err == None && f != null && fresh(f)
          && fresh(f.buf) && f.Valid() && f.fs == this && f.Snapshot() == Load(s, key).value
    {
      var key := Join(path, name);
      if key in fd {
        var st := fd[key];
        var b := new Buf.Of(|st.content|, st.pos, st.content);
        f := new CacheFs.Of(this, st.fd, st.fdinfo, st.modtime, b);
        return f, None;
      }
      var cache, e := NewCacheFs(key, s);
      if e.Some? {
        return null, e;
      }
      cache.fs := this;
      fd := fd[key := cache.Snapshot()];
      f := cache.Copy();
      err := None;
    }
  }
}
