/** The operating-system file store the cache sits in front of, as an
    abstract value: every path that exists maps to its modification time,
    its content, its directory listing and flags saying which of the calls
    on it fail, one flag per call. A file handle is identified by the path it
    was opened with. */
module FileStore {
  import opened Io

  /** An open `*os.File`; `Name()` is the path it was opened with. */
  datatype Fd = Fd(name: string)

  /** The part of an `os.FileInfo` the cache looks at. */
  datatype Info = Info(name: string, size: int, modtime: int)

  datatype File = File(
    modtime: int,
    content: seq<byte>,
    listing: seq<Info>,
    openFails: bool,
    statFails: bool,
    readFails: bool,
    readdirFails: bool)

  type Store = map<string, File>

  /** `os.Open`: fails for a missing path or one whose open is refused. */
  function Open(s: Store, name: string): Result<Fd>
  {
    if name in s && !s[name].openFails then Ok(Fd(name)) else Err(PathError(OpOpen, name))
  }

  /** `(*os.File).Stat`. */
  function Stat(s: Store, fd: Fd): Result<Info>
  {
    if fd.name in s && !s[fd.name].statFails then
      Ok(Info(fd.name, |s[fd.name].content|, s[fd.name].modtime))
    else
      Err(PathError(OpStat, fd.name))
  }

  /** `io.ReadAll` on an open handle. */
  function ReadAll(s: Store, fd: Fd): Result<seq<byte>>
  {
    if fd.name in s && !s[fd.name].readFails then Ok(s[fd.name].content) else Err(PathError(OpRead, fd.name))
  }

  /** `(*os.File).Readdir`: the listing is passed through as it is. A
      regular file sets `readdirFails`; a directory sets `readFails`. */
  function Readdir(s: Store, fd: Fd, count: int): Result<seq<Info>>
  {
    if fd.name in s && !s[fd.name].readdirFails then Ok(s[fd.name].listing) else Err(PathError(OpReaddir, fd.name))
  }
}
