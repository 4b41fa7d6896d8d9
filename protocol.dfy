/**
 * The SCP sink conversation of `ScpClient.getFile` as functions over what is left of
 * the input stream. Every phase also says what it leaves in the 1024-byte buffer that
 * the Java code reuses for the mode bytes, the size digits, the name and the payload:
 * when the stream ends in the middle of the name, the name loop reads stale bytes from
 * that buffer, so the buffer is part of the observable state.
 */
module Protocol {
  import opened Bytes

  /** A local path, as raw bytes (character decoding is not modelled). */
  type Path = seq<byte>

  const BUF_LEN: nat := 1024   // length of the reused buffer `buf`
  const MODE_LEN: nat := 5     // bytes skipped after 'C' ("0644 ")

  // ---------------------------------------------------------------- checkAck

  /** What `checkAck` does with the status byte at the head of the stream. */
  datatype Ack =
    | Status(code: int)                         // returned: the byte read, or -1 at end of stream
    | Remote(status: byte, message: seq<byte>)  // status 1 or 2: an exception carrying the message
    | AckHang                                   // status 1 or 2 and the stream ends before '\n'

  /** A value read from the stream and the number of bytes it took. */
  datatype Consumed<T> = Consumed(value: T, used: nat)

  predicate IsErrorStatus(b: byte) { b == 1 || b == 2 }

  /** `checkAck` on the unread input `rest`. */
  function CheckAckOf(rest: seq<byte>): (r: Consumed<Ack>)
    ensures r.used <= |rest|
    ensures r.value.Status? <==> rest == [] || !IsErrorStatus(rest[0])
    ensures r.value.Status? && rest == [] ==> r.value.code == -1 && r.used == 0
    ensures r.value.Status? && rest != [] ==> r.value.code == rest[0] as int && r.used == 1
    ensures r.value.Remote? ==>
              && r.value.status == rest[0]
              && r.used == 1 + |r.value.message|
              && r.value.message == rest[1..r.used]
              && |r.value.message| > 0
              && r.value.message[|r.value.message| - 1] == LF
              && LF !in r.value.message[..|r.value.message| - 1]
    ensures r.value.AckHang? ==> LF !in rest[1..] && r.used == |rest|
  {
    if rest == [] then Consumed(Status(-1), 0)
    else if !IsErrorStatus(rest[0]) then Consumed(Status(rest[0] as int), 1)
    else
      var k := IndexOf(rest[1..], LF);
      if k == |rest| - 1 then Consumed(AckHang, |rest|)
      else
        assert rest[1..k + 2][..k] == rest[1..][..k];
        Consumed(Remote(rest[0], rest[1..k + 2]), k + 2)
  }

  // ---------------------------------------------------------------- file header

  /** `len` bytes of `rest` read into the front of `buf` (`InputStream.read(buf, 0, len)`). */
  function Fill(buf: seq<byte>, rest: seq<byte>, len: nat): (b: seq<byte>)
    requires len <= |rest| && len <= |buf|
    ensures |b| == |buf|
    ensures b[..len] == rest[..len] && b[len..] == buf[len..]
  {
    rest[..len] + buf[len..]
  }

  /** The decimal size field as Java accumulates it: a left fold of `s * 10 + (b - '0')`
      over signed bytes, in `long` arithmetic. */
  function SizeOf(digits: seq<byte>): (size: int)
    ensures IsLong(size)
  {
    if digits == [] then 0
    else ToLong(SizeOf(digits[..|digits| - 1]) * 10 + (Signed(digits[|digits| - 1]) - DIGIT_ZERO as int))
  }

  /** The size loop: the bytes before the first space (or the end of the stream) are the
      size; the space itself is consumed. */
  function SizeField(rest: seq<byte>): (r: Consumed<int>)
    ensures IsLong(r.value)
    ensures r.used <= |rest|
    ensures SPACE !in rest ==> r.used == |rest| && r.value == SizeOf(rest)
    ensures SPACE in rest ==> 0 < r.used && rest[r.used - 1] == SPACE
                              && SPACE !in rest[..r.used - 1]
                              && r.value == SizeOf(rest[..r.used - 1])
  {
    var k := IndexOf(rest, SPACE);
    if k == |rest| then
      assert rest[..k] == rest;
      Consumed(SizeOf(rest), k)
    else
      assert SPACE in rest;
      Consumed(SizeOf(rest[..k]), k + 1)
  }

  /** What the name loop finds at positions 0..1023 of `buf`: the next byte of the stream
      while there is one, and the stale content of `buf` after the stream has ended
      (`in.read(buf, i, 1)` at end of stream stores nothing). */
  function Window(rest: seq<byte>, buf: seq<byte>): (w: seq<byte>)
    requires |buf| == BUF_LEN
    ensures |w| == BUF_LEN
    ensures forall i :: 0 <= i < BUF_LEN && i < |rest| ==> w[i] == rest[i]
    ensures forall i :: |rest| <= i < BUF_LEN ==> w[i] == buf[i]
  {
    if |rest| >= BUF_LEN then rest[..BUF_LEN] else rest + buf[|rest|..]
  }

  /** The name loop: the bytes up to the first '\n' of the window; `Overrun` when the window
      holds no '\n' and the loop runs past the buffer. */
  datatype NameScan =
    | Named(name: seq<byte>, rest: seq<byte>, buf: seq<byte>)
    | Overrun

  function NameOf(rest: seq<byte>, buf: seq<byte>): (r: NameScan)
    requires |buf| == BUF_LEN
    ensures r.Named? ==> |r.buf| == BUF_LEN && |r.name| < BUF_LEN && LF !in r.name
    ensures r.Named? ==> |r.rest| <= |rest| && r.rest == rest[|rest| - |r.rest|..]
    ensures r.Overrun? <==> LF !in Window(rest, buf)
  {
    var w := Window(rest, buf);
    var k := IndexOf(w, LF);
    if k == BUF_LEN then
      assert LF !in w;
      Overrun
    else
      var n := Min(k + 1, |rest|);
      Named(w[..k], rest[n..], w[..k + 1] + buf[k + 1..])
  }

  /** The parsed header line `C<mode> <size> <name>\n` (after the 'C'). `mode` is skipped;
      `NameOverrun` is the `IndexOutOfBoundsException` of `in.read(buf, 1024, 1)` when no
      '\n' shows up in the first 1024 name positions. */
  datatype Header =
    | Header(size: int, name: seq<byte>, rest: seq<byte>, buf: seq<byte>)
    | NameOverrun

  /** The buffer after the size loop: its first byte holds the last byte read, if any. */
  function AfterSize(buf: seq<byte>, rest: seq<byte>, used: nat): (b: seq<byte>)
    requires 0 < |buf| && used <= |rest|
    ensures |b| == |buf| && b[1..] == buf[1..]
    ensures used == 0 ==> b == buf
    ensures used > 0 ==> b[0] == rest[used - 1]
  {
    if used == 0 then buf else buf[0 := rest[used - 1]]
  }

  function ParseHeader(rest: seq<byte>, buf: seq<byte>): (h: Header)
    requires |buf| == BUF_LEN
    ensures h.Header? ==> |h.buf| == BUF_LEN && |h.rest| <= |rest| && IsLong(h.size)
    ensures h.Header? ==> h.rest == rest[|rest| - |h.rest|..]
    ensures h.Header? ==> |h.name| < BUF_LEN && LF !in h.name
  {
    var m := Min(MODE_LEN, |rest|);
    var rest1 := rest[m..];
    var size := SizeField(rest1);
    var rest2 := rest1[size.used..];
    var nm := NameOf(rest2, AfterSize(Fill(buf, rest, m), rest1, size.used));
    if nm.Overrun? then NameOverrun
    else
      assert nm.rest == rest[|rest| - |nm.rest|..];
      Header(size.value, nm.name, nm.rest, nm.buf)
  }

  /** `ParseHeader` is the mode skip, then `SizeField`, then `NameOf`. */
  lemma HeaderSteps(rest: seq<byte>, buf0: seq<byte>, rest1: seq<byte>, buf1: seq<byte>, buf2: seq<byte>)
    requires |buf0| == BUF_LEN
    requires rest1 == rest[Min(MODE_LEN, |rest|)..] && buf1 == Fill(buf0, rest, Min(MODE_LEN, |rest|))
    requires buf2 == AfterSize(buf1, rest1, SizeField(rest1).used)
    ensures var sf := SizeField(rest1);
            var nm := NameOf(rest1[sf.used..], buf2);
            ParseHeader(rest, buf0) == if nm.Overrun? then NameOverrun else Header(sf.value, nm.name, nm.rest, nm.buf)
  {
  }

  // ---------------------------------------------------------------- payload

  /** The length asked of `in.read(buf, 0, foo)`: `buf.length < filesize ? buf.length : (int) filesize`. */
  function ChunkLen(filesize: int): (n: int)
    ensures IsInt(n)
    ensures 0 <= filesize ==> 0 <= n <= BUF_LEN && n <= filesize
    ensures 0 < filesize ==> 0 < n && n == Min(BUF_LEN, filesize)
  {
    if BUF_LEN < filesize then BUF_LEN else ToInt(filesize)
  }

  /** How the payload loop ends: `Finished` when `filesize` reaches 0 or the stream ends,
      `ChunkFault` when the requested chunk length is negative or over 1024 (the
      `IndexOutOfBoundsException` of `read`), `Stuck` when it asks for 0 bytes while
      `filesize` is not 0 (the loop then spins forever). */
  datatype PayloadStatus = Finished | ChunkFault | Stuck

  /** The outcome of the payload loop: the bytes written to the local file, what is left of
      the input and what is left in `buf`. */
  datatype Delivery = Delivery(status: PayloadStatus, data: seq<byte>, rest: seq<byte>, buf: seq<byte>)

  /** The payload loop from the state (`rest`, `buf`, `filesize`), `data` having been
      written to the local file already. */
  function Payload(rest: seq<byte>, buf: seq<byte>, filesize: int, data: seq<byte>): (d: Delivery)
    requires |buf| == BUF_LEN && IsLong(filesize)
    ensures |d.buf| == BUF_LEN && |d.rest| <= |rest|
    decreases |rest|
  {
    var want := ChunkLen(filesize);
    if want < 0 || want > BUF_LEN then Delivery(ChunkFault, data, rest, buf)
    else if want == 0 then Delivery(if filesize == 0 then Finished else Stuck, data, rest, buf)
    else if rest == [] then Delivery(Finished, data, rest, buf)
    else
      var n := Min(want, |rest|);
      var left := ToLong(filesize - n);
      var buf' := Fill(buf, rest, n);
      if left == 0 then Delivery(Finished, data + rest[..n], rest[n..], buf')
      else
        Payload(rest[n..], buf', left, data + rest[..n])
  }

  /** One pass of the payload loop that reads `n` bytes. */
  lemma PayloadTurn(rest: seq<byte>, buf: seq<byte>, left: int, data: seq<byte>, n: nat)
    requires |buf| == BUF_LEN && IsLong(left)
    requires 0 < ChunkLen(left) <= BUF_LEN && rest != [] && n == Min(ChunkLen(left), |rest|)
    ensures var d := Payload(rest, buf, left, data);
            var buf' := Fill(buf, rest, n);
            if ToLong(left - n) == 0 then d == Delivery(Finished, data + rest[..n], rest[n..], buf')
            else d == Payload(rest[n..], buf', ToLong(left - n), data + rest[..n])
  {
  }

  // ---------------------------------------------------------------- the whole run

  /** Why a run ends without returning a file list. */
  datatype Failure =
    | RemoteError(status: byte, message: seq<byte>)  // checkAck read status 1 or 2
    | NoAck                                          // the status after a payload is not 0
    | NameTooLong                                    // the name loop ran past the buffer
    | BadChunk                                       // a chunk length out of the buffer's bounds
    | Hang                                           // the Java code never returns

  datatype Outcome = Completed(paths: seq<Path>) | Aborted(failure: Failure)

  /** The state of a conversation between two headers: unread input, the buffer, the bytes
      sent so far, the local files and the destinations recorded so far. */
  datatype Conn = Conn(rest: seq<byte>, buf: seq<byte>, out: seq<byte>,
                       files: map<Path, seq<byte>>, got: seq<Path>)

  /** What a run leaves behind: its outcome, every byte it sent, and the local files. */
  datatype Run = Run(outcome: Outcome, out: seq<byte>, files: map<Path, seq<byte>>)

  datatype Step = Stop(run: Run) | Next(conn: Conn)

  /** The local file a header names: `lfile + separator + name` when `lfile` is a
      directory, `lfile` itself otherwise. */
  function Destination(lfile: Path, isDir: bool, name: seq<byte>): (p: Path)
    ensures isDir ==> |p| == |lfile| + 1 + |name| && p[..|lfile|] == lfile && p[|lfile|] == SLASH
                      && p[|lfile| + 1..] == name
    ensures !isDir ==> p == lfile
  {
    if isDir then lfile + [SLASH] + name else lfile
  }

  /** After the payload: the trailing status must be 0, then the sink acknowledges. */
  function Trailer(c: Conn, d: Delivery, dest: Path, out: seq<byte>): (s: Step)
    requires |d.buf| == BUF_LEN
    ensures s.Next? ==> |s.conn.rest| < |d.rest| && |s.conn.buf| == BUF_LEN
  {
    var files := c.files[dest := d.data];
    var ack := CheckAckOf(d.rest);
    match ack.value
    case Remote(s, m) => Stop(Run(Aborted(RemoteError(s, m)), out, files))
    case AckHang => Stop(Run(Aborted(Hang), out, files))
    case Status(v) =>
      if v != 0 then Stop(Run(Aborted(NoAck), out, files))
      else Next(Conn(d.rest[ack.used..], d.buf[0 := NUL], out + [NUL], files, c.got + [dest]))
  }

  /** What follows a payload: a bad chunk length or a stall ends the run, otherwise the
      trailing acknowledgment decides. */
  function AfterPayload(c: Conn, d: Delivery, dest: Path, out: seq<byte>): (s: Step)
    requires |d.buf| == BUF_LEN
    ensures s.Next? ==> |s.conn.rest| < |d.rest| && |s.conn.buf| == BUF_LEN
  {
    match d.status
    case ChunkFault => Stop(Run(Aborted(BadChunk), out, c.files[dest := d.data]))
    case Stuck => Stop(Run(Aborted(Hang), out, c.files[dest := d.data]))
    case Finished => Trailer(c, d, dest, out)
  }

  /** One file once its header `h` is parsed: the header acknowledgment, which goes
      through `buf[0]`, the payload and what follows it. */
  function BodyOf(c: Conn, h: Header, lfile: Path, isDir: bool): (s: Step)
    requires h.Header? && |h.buf| == BUF_LEN && IsLong(h.size)
    ensures s.Next? ==> |s.conn.rest| < |h.rest| && |s.conn.buf| == BUF_LEN
  {
    var d := Payload(h.rest, h.buf[0 := NUL], h.size, []);
    AfterPayload(c, d, Destination(lfile, isDir, h.name), c.out + [NUL])
  }

  /** One file after its 'C': `c` is the state before the 'C', `rest` the input after it. */
  function ReceiveOf(c: Conn, rest: seq<byte>, lfile: Path, isDir: bool): (s: Step)
    requires |c.buf| == BUF_LEN
    ensures s.Next? ==> |s.conn.rest| < |rest| && |s.conn.buf| == BUF_LEN
  {
    var h := ParseHeader(rest, c.buf);
    if h.NameOverrun? then Stop(Run(Aborted(NameTooLong), c.out, c.files))
    else BodyOf(c, h, lfile, isDir)
  }

  /** One turn of the `while (true)` loop of `getFile`, starting at a header position. */
  function StepOf(c: Conn, lfile: Path, isDir: bool): (s: Step)
    requires |c.buf| == BUF_LEN
    ensures s.Next? ==> |s.conn.rest| < |c.rest| && |s.conn.buf| == BUF_LEN
  {
    var ack := CheckAckOf(c.rest);
    match ack.value
    case Remote(s, m) => Stop(Run(Aborted(RemoteError(s, m)), c.out, c.files))
    case AckHang => Stop(Run(Aborted(Hang), c.out, c.files))
    case Status(b) =>
      if b != UPPER_C as int then Stop(Run(Completed(c.got), c.out, c.files))
      else ReceiveOf(c, c.rest[1..], lfile, isDir)
  }

  /** The rest of `getFile`'s loop from the header position `c`. */
  function Transfer(c: Conn, lfile: Path, isDir: bool): (r: Run)
    requires |c.buf| == BUF_LEN
    decreases |c.rest|
  {
    match StepOf(c, lfile, isDir)
    case Stop(r) => r
    case Next(c') => Transfer(c', lfile, isDir)
  }

  /** The state right after the initial ready byte: a zeroed buffer, one NUL sent. */
  function Start(input: seq<byte>, files: map<Path, seq<byte>>): (c: Conn)
    ensures |c.buf| == BUF_LEN && forall i :: 0 <= i < |c.buf| ==> c.buf[i] == NUL
    ensures c.out == [NUL] && c.got == [] && c.rest == input && c.files == files
  {
    Conn(input, Zeros(BUF_LEN), [NUL], files, [])
  }

  /** `getFile(info, rfile, lfile)` on the input `input`, with `isDir` the answer of
      `new File(lfile).isDirectory()` and `files` the local files before the run. */
  function GetFileSpec(input: seq<byte>, lfile: Path, isDir: bool, files: map<Path, seq<byte>>): Run
  {
    Transfer(Start(input, files), lfile, isDir)
  }
}
