/** The circular read cursor of buf.go: a fixed byte buffer and a read
    position. Reading past the end reports `io.EOF` once and rewinds, so the
    next pass starts over from the first byte. */
module CircularBuffer {
  import opened Io

  /** What one `Read` with a destination of `plen` bytes does: the bytes it
      copies, the position it leaves and the error it returns. */
  datatype ReadResult = ReadResult(data: seq<byte>, pos: int, err: Option<Error>)

  function ReadStep(buf: seq<byte>, i: int, plen: nat): (o: ReadResult)
    requires i >= 0
    ensures 0 <= i < |buf| ==>
      && o.err == None
      && |o.data| == Min(plen, |buf| - i)
      && o.data == buf[i..i + |o.data|]
      && o.pos == i + |o.data| <= |buf|
    ensures i >= |buf| && plen == 0 ==> o == ReadResult([], i, None)
    ensures i >= |buf| && plen > 0 ==> o == ReadResult([], 0, Some(EOF))
  {
    if i >= |buf| then
      if plen == 0 then ReadResult([], i, None) else ReadResult([], 0, Some(EOF))
    else
      var n := Min(plen, |buf| - i);
      ReadResult(buf[i..i + n], i + n, None)
  }

  /** The position `Seek(off, whence)` moves to; no clamping, any integer. */
  function SeekPos(buflen: int, i: int, off: int, whence: int): int
  {
    if whence == SeekStart then off
    else if whence == SeekCurrent then i + off
    else if whence == SeekEnd then buflen - off
    else i
  }

  lemma SeekPosCases(buflen: int, i: int, off: int, whence: int)
    ensures whence == SeekStart ==> SeekPos(buflen, i, off, whence) == off
    ensures whence == SeekCurrent ==> SeekPos(buflen, i, off, whence) == i + off
    ensures whence == SeekEnd ==> SeekPos(buflen, i, off, whence) == buflen - off
    ensures whence !in {SeekStart, SeekCurrent, SeekEnd} ==> SeekPos(buflen, i, off, whence) == i
  {
  }

  /** Seeking to 5 from the start and then back 2 from there lands on 3;
      seeking 3 back from the end lands on `L - 3`. */
  lemma SeekArithmetic(buflen: int, i: int)
    ensures SeekPos(buflen, SeekPos(buflen, i, 5, SeekStart), -2, SeekCurrent) == 3
    ensures SeekPos(buflen, i, 3, SeekEnd) == buflen - 3
  {
  }

  class Buf {
    var buflen: int
    var i: int
    var buf: seq<byte>

    ghost predicate Valid()
      reads this
    {
      buflen == |buf|
    }

    /** `NewBuf`: the whole slice, read from the first byte. */
    constructor NewBuf(buf: seq<byte>)
      ensures Valid()
      ensures this.buf == buf && buflen == |buf| && i == 0
    {
      this.buf := buf;
      buflen := |buf|;
      i := 0;
    }

    /** A Buf with the given fields, as the struct copy `*buf` builds it. */
    constructor Of(buflen: int, i: int, buf: seq<byte>)
      ensures this.buflen == buflen && this.i == i && this.buf == buf
    {
      this.buflen := buflen;
      this.i := i;
      this.buf := buf;
    }

    /** `Empty`: nothing is left to read before the next rewind. */
    function Empty(): (r: bool)
      reads this
      requires Valid()
      ensures r <==> i >= |buf|
      ensures i >= 0 ==> (r <==> ReadStep(buf, i, 1).err == Some(EOF))
    {
      i >= buflen
    }

    /** `Read`: copies what `ReadStep` says into the front of `p`, leaves the
        rest of `p` alone and moves only the position. */
    method Read(p: array<byte>) returns (n: int, err: Option<Error>)
      requires Valid() && i >= 0
      modifies this`i, p
      ensures Valid()
      ensures var o := ReadStep(buf, old(i), p.Length);
        && n == |o.data| && err == o.err && i == o.pos
        && p[..n] == o.data && p[n..] == old(p[n..])
    {
      if Empty() {
        if p.Length == 0 {
          return 0, None;
        }
        i := 0;
        return 0, Some(EOF);
      }
      n := Min(p.Length, buflen - i);
      forall k | 0 <= k < n {
        p[k] := buf[i + k];
      }
      i := i + n;
      err := None;
    }

    /** `Seek`: moves the position, never fails. */
    method Seek(offset: int, whence: int) returns (pos: int, err: Option<Error>)
      requires Valid()
      modifies this`i
      ensures Valid()
      ensures i == SeekPos(buflen, old(i), offset, whence)
      ensures pos == i && err == None
    {
      if whence == SeekStart {
        i := offset;
      } else if whence == SeekCurrent {
        i := i + offset;
      } else if whence == SeekEnd {
        i := buflen - offset;
      }
      return i, None;
    }

    /** `Copy`: the same bytes and position in a cursor of its own. */
    method Copy() returns (b: Buf)
      requires Valid()
      ensures fresh(b) && b.Valid()
      ensures b.buflen == buflen && b.i == i && b.buf == buf
    {
      b := new Buf.Of(buflen, i, buf);
    }
  }

  /** A copy keeps its position when the original is read afterwards. */
  method ReadAfterCopy(b: Buf, p: array<byte>) returns (c: Buf)
    requires b.Valid() && b.i >= 0
    modifies b, p
    ensures fresh(c) && c.Valid()
    ensures c.buf == b.buf && c.i == old(b.i)
  {
    c := b.Copy();
    var n, err := b.Read(p);
  }

  // ----- Successive reads with a fixed chunk size -----

  /** What one read reports: some bytes, or the end of a pass. */
  datatype Event = Data(bytes: seq<byte>) | Eof

  /** The reports of `m` successive reads with room for `k` bytes each,
      starting from position `i`, and the position they leave. */
  function Run(buf: seq<byte>, i: int, k: nat, m: nat): (r: (seq<Event>, int))
    requires i >= 0
    ensures |r.0| == m && r.1 >= 0
    decreases m
  {
    if m == 0 then ([], i)
    else
      var o := ReadStep(buf, i, k);
      var rest := Run(buf, o.pos, k, m - 1);
      ([if o.err.Some? then Eof else Data(o.data)] + rest.0, rest.1)
  }

  /** The bytes delivered by a sequence of reports, in order. */
  function Bytes(evs: seq<Event>): seq<byte>
  {
    if evs == [] then []
    else (if evs[0].Data? then evs[0].bytes else []) + Bytes(evs[1..])
  }

  predicate AllData(evs: seq<Event>)
  {
    forall j :: 0 <= j < |evs| ==> evs[j].Data?
  }

  /** How many reads of `k` bytes it takes to consume `len` bytes. */
  function Chunks(len: nat, k: nat): nat
    requires k > 0
    decreases len
  {
    if len == 0 then 0 else 1 + Chunks(len - Min(k, len), k)
  }

  lemma {:induction false} RunSplit(buf: seq<byte>, i: int, k: nat, a: nat, b: nat)
    requires i >= 0
    ensures var first := Run(buf, i, k, a);
      Run(buf, i, k, a + b) == (first.0 + Run(buf, first.1, k, b).0, Run(buf, first.1, k, b).1)
    decreases a
  {
    if a == 0 {
      assert Run(buf, i, k, 0).0 + Run(buf, i, k, b).0 == Run(buf, i, k, b).0;
    } else {
      var o := ReadStep(buf, i, k);
      RunSplit(buf, o.pos, k, a - 1, b);
      var ev := if o.err.Some? then Eof else Data(o.data);
      var mid := Run(buf, o.pos, k, a - 1);
      var tail := Run(buf, mid.1, k, b);
      assert Run(buf, o.pos, k, (a - 1) + b) == (mid.0 + tail.0, tail.1);
      assert Run(buf, i, k, a + b) == ([ev] + (mid.0 + tail.0), tail.1);
      assert ([ev] + mid.0) + tail.0 == [ev] + (mid.0 + tail.0);
    }
  }

  lemma {:induction false} BytesAllData(ev: Event, rest: seq<Event>)
    ensures Bytes([ev] + rest) == (if ev.Data? then ev.bytes else []) + Bytes(rest)
    ensures AllData([ev] + rest) <==> ev.Data? && AllData(rest)
  {
    assert ([ev] + rest)[1..] == rest;
  }

  /** Reading from position `i` with chunks of `k > 0` bytes delivers exactly
      `buf[i..]`, with no end-of-pass report, and stops at the end. */
  lemma {:induction false} Drain(buf: seq<byte>, i: nat, k: nat)
    requires i <= |buf| && k > 0
    ensures var r := Run(buf, i, k, Chunks(|buf| - i, k));
      r.1 == |buf| && AllData(r.0) && Bytes(r.0) == buf[i..]
    decreases |buf| - i
  {
    if i < |buf| {
      var n := Min(k, |buf| - i);
      var o := ReadStep(buf, i, k);
      assert o.pos == i + n && o.data == buf[i..i + n] && o.err == None;
      Drain(buf, i + n, k);
      var rest := Run(buf, i + n, k, Chunks(|buf| - (i + n), k));
      assert Run(buf, i, k, Chunks(|buf| - i, k)) == ([Data(o.data)] + rest.0, rest.1);
      BytesAllData(Data(o.data), rest.0);
      assert buf[i..] == buf[i..i + n] + buf[i + n..];
    } else {
      assert Run(buf, i, k, 0) == ([], i);
    }
  }

  /** One full pass from the start: the reads deliver exactly the content,
      then exactly one end-of-pass report follows and the position is back
      at 0. */
  lemma PassRoundTrip(buf: seq<byte>, k: nat)
    requires k > 0
    ensures var pass := Chunks(|buf|, k); var r := Run(buf, 0, k, pass + 1);
      && AllData(r.0[..pass]) && Bytes(r.0[..pass]) == buf
      && r.0[pass] == Eof && r.1 == 0
  {
    var pass := Chunks(|buf|, k);
    RunSplit(buf, 0, k, pass, 1);
    Drain(buf, 0, k);
    var r := Run(buf, 0, k, pass + 1);
    var first := Run(buf, 0, k, pass);
    assert r.0[..pass] == first.0;
    assert ReadStep(buf, |buf|, k) == ReadResult([], 0, Some(EOF));
    assert Run(buf, |buf|, k, 1) == ([Eof] + [], 0);
  }

  /** After a full pass the cursor is where it started, so every later read
      repeats the first pass's reports. */
  lemma PassRepeats(buf: seq<byte>, k: nat, t: nat)
    requires k > 0
    ensures var pass := Chunks(|buf|, k) + 1;
      Run(buf, 0, k, pass + t) == (Run(buf, 0, k, pass).0 + Run(buf, 0, k, t).0, Run(buf, 0, k, t).1)
  {
    var pass := Chunks(|buf|, k) + 1;
    RunSplit(buf, 0, k, pass, t);
    PassRoundTrip(buf, k);
  }
}
