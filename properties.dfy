/**
 * What the sink model promises: each phase reads back what a well-behaved source sends,
 * a whole well-formed stream is received file by file, and every run, whatever the input,
 * sends only acknowledgment bytes, two per file received.
 */
module Properties {
  import opened Bytes
  import opened Protocol
  import opened Sender

  // ---------------------------------------------------------------- checkAck

  /** Status 1 or 2 followed by a line: `checkAck` consumes exactly the status and the
      line, and the message is the line with its '\n'. */
  lemma CheckAckErrorLine(status: byte, msg: seq<byte>, tail: seq<byte>)
    requires IsErrorStatus(status) && LF !in msg
    ensures CheckAckOf([status] + msg + [LF] + tail) == Consumed(Remote(status, msg + [LF]), |msg| + 2)
  {
    var rest := [status] + msg + [LF] + tail;
    assert rest[1..] == msg + [LF] + tail;
    IndexOfAfter(msg, LF, tail);
    assert rest[1..|msg| + 2] == msg + [LF];
  }

  /** Status 1 or 2 and the stream ends before any '\n': the message loop never ends. */
  lemma CheckAckErrorCut(status: byte, msg: seq<byte>)
    requires IsErrorStatus(status) && LF !in msg
    ensures CheckAckOf([status] + msg) == Consumed(AckHang, |msg| + 1)
  {
    assert ([status] + msg)[1..] == msg;
    IndexOfAbsent(msg, LF);
  }

  // ---------------------------------------------------------------- the header

  /** The size loop reads a decimal numeral back as the number it denotes. */
  lemma {:induction false} SizeOfDecimal(n: nat)
    requires n <= LONG_MAX
    ensures SizeOf(Decimal(n)) == n
  {
    var s := Decimal(n);
    if n < 10 {
      assert s[..0] == [];
    } else {
      assert s[..|s| - 1] == Decimal(n / 10);
      SizeOfDecimal(n / 10);
    }
  }

  /** The first `x` of `w` is at `|a|` when `w` starts with `a + [x]` and `a` holds no `x`. */
  lemma IndexOfPrefix(w: seq<byte>, a: seq<byte>, x: byte)
    requires |a| < |w| && w[..|a| + 1] == a + [x] && x !in a
    ensures IndexOf(w, x) == |a|
  {
    assert w == a + [x] + w[|a| + 1..];
    IndexOfAfter(a, x, w[|a| + 1..]);
  }

  /** The name loop reads back a name without '\n' that fits the buffer. */
  lemma NameOfLine(name: seq<byte>, tail: seq<byte>, buf: seq<byte>)
    requires |buf| == BUF_LEN && LF !in name && |name| < BUF_LEN
    ensures var nm := NameOf(name + [LF] + tail, buf);
            nm.Named? && nm.name == name && nm.rest == tail
  {
    var rest := name + [LF] + tail;
    var w := Window(rest, buf);
    assert w[..|name| + 1] == name + [LF] by {
      forall i | 0 <= i < |name| + 1
        ensures w[i] == (name + [LF])[i]
      {
        assert w[i] == rest[i];
      }
    }
    IndexOfPrefix(w, name, LF);
    assert rest[|name| + 1..] == tail;
  }

  /** The size field of bytes without a space, followed by a space. */
  lemma SizeFieldAt(digits: seq<byte>, tail: seq<byte>)
    requires SPACE !in digits
    ensures SizeField(digits + [SPACE] + tail) == Consumed(SizeOf(digits), |digits| + 1)
  {
    var rest := digits + [SPACE] + tail;
    IndexOfAfter(digits, SPACE, tail);
    assert rest[..|digits|] == digits;
  }

  /** A mode, size bytes and a space: the header parser folds the size bytes and goes on
      with the name loop on what follows the space. */
  lemma ParseHeaderPrefix(mode: seq<byte>, digits: seq<byte>, after: seq<byte>, buf: seq<byte>)
    requires |mode| == MODE_LEN && SPACE !in digits && |buf| == BUF_LEN
    ensures var rest := mode + digits + [SPACE] + after;
            var rest1 := rest[MODE_LEN..];
            var buf2 := AfterSize(Fill(buf, rest, MODE_LEN), rest1, |digits| + 1);
            var nm := NameOf(after, buf2);
            ParseHeader(rest, buf)
            == if nm.Overrun? then NameOverrun else Header(SizeOf(digits), nm.name, nm.rest, nm.buf)
  {
    var rest := mode + digits + [SPACE] + after;
    var rest1 := rest[MODE_LEN..];
    PrefixParts(mode, digits, after);
    SizeFieldAt(digits, after);
    var buf1 := Fill(buf, rest, MODE_LEN);
    HeaderSteps(rest, buf, rest1, buf1, AfterSize(buf1, rest1, |digits| + 1));
  }

  lemma PrefixParts(mode: seq<byte>, digits: seq<byte>, after: seq<byte>)
    requires |mode| == MODE_LEN
    ensures var rest := mode + digits + [SPACE] + after;
            && Min(MODE_LEN, |rest|) == MODE_LEN
            && rest[MODE_LEN..] == digits + [SPACE] + after
            && (digits + [SPACE] + after)[|digits| + 1..] == after
  {
    var rest := mode + digits + [SPACE] + after;
    assert rest == mode + (digits + [SPACE] + after);
  }

  /** The header parser reads back the header line of a well-formed file, whatever the
      buffer holds: the size, the name, and the input right after the '\n'. */
  lemma ParseHeaderLine(f: Source, tail: seq<byte>, buf: seq<byte>)
    requires WellFormed(f) && |buf| == BUF_LEN
    ensures var h := ParseHeader(HeaderLine(f) + tail, buf);
            h.Header? && h.size == |f.data| && h.name == f.name && h.rest == tail
  {
    var digits := Decimal(|f.data|);
    var after := f.name + [LF] + tail;
    var rest := f.mode + digits + [SPACE] + after;
    assert HeaderLine(f) + tail == rest;
    assert SPACE !in digits;
    SizeOfDecimal(|f.data|);
    ParseHeaderPrefix(f.mode, digits, after, buf);
    var buf2 := AfterSize(Fill(buf, rest, MODE_LEN), rest[MODE_LEN..], |digits| + 1);
    NameOfLine(f.name, tail, buf2);
  }

  // ---------------------------------------------------------------- the payload

  /** With at least `size` bytes available, the payload loop delivers exactly the next
      `size` bytes, whatever they are, and stops right after them. */
  lemma {:induction false} PayloadExact(rest: seq<byte>, buf: seq<byte>, size: nat, data: seq<byte>)
    requires |buf| == BUF_LEN && size <= LONG_MAX && size <= |rest|
    ensures var d := Payload(rest, buf, size, data);
            d.status == Finished && d.data == data + rest[..size] && d.rest == rest[size..]
    decreases |rest|
  {
    if size == 0 {
      assert data + rest[..0] == data;
    } else {
      var n := Min(BUF_LEN, size);
      PayloadTurn(rest, buf, size, data, n);
      assert ToLong(size - n) == size - n;
      if size - n != 0 {
        PayloadExact(rest[n..], Fill(buf, rest, n), size - n, data + rest[..n]);
        ChunkSplit(data, rest, n, size);
      }
    }
  }

  /** The bytes of a payload are those of its first chunk followed by the others. */
  lemma ChunkSplit(data: seq<byte>, rest: seq<byte>, n: nat, size: nat)
    requires n <= size <= |rest|
    ensures data + rest[..n] + rest[n..][..size - n] == data + rest[..size]
    ensures rest[n..][size - n..] == rest[size..]
    ensures data + rest[..n] + rest[n..] == data + rest
  {
    assert rest[..n] + rest[n..][..size - n] == rest[..size];
    assert rest[..n] + rest[n..] == rest;
  }

  /** With fewer than `size` bytes available, the payload loop delivers all of them and
      stops at the end of the stream. */
  lemma {:induction false} PayloadShort(rest: seq<byte>, buf: seq<byte>, size: nat, data: seq<byte>)
    requires |buf| == BUF_LEN && size <= LONG_MAX && |rest| < size
    ensures var d := Payload(rest, buf, size, data);
            d.status == Finished && d.data == data + rest && d.rest == []
    decreases |rest|
  {
    if rest == [] {
      assert data + rest == data;
    } else {
      var m := Min(Min(BUF_LEN, size), |rest|);
      PayloadTurn(rest, buf, size, data, m);
      assert ToLong(size - m) == size - m != 0;
      PayloadShort(rest[m..], Fill(buf, rest, m), size - m, data + rest[..m]);
      ChunkSplit(data, rest, m, m);
    }
  }

  /** A negative size that fits an `int` is a negative chunk length: `read` throws. */
  lemma NegativeSizeFaults(rest: seq<byte>, buf: seq<byte>, size: int, data: seq<byte>)
    requires |buf| == BUF_LEN && INT_MIN <= size < 0
    ensures Payload(rest, buf, size, data).status == ChunkFault
  {
    assert ChunkLen(size) == size;
  }

  /** A negative size whose `(int)` cast is negative or over 1024 is a chunk length out of
      the buffer's bounds, and one whose cast is 0 asks for nothing forever; in both cases
      nothing is read or written. */
  lemma NegativeSizeEnds(rest: seq<byte>, buf: seq<byte>, size: int, data: seq<byte>)
    requires |buf| == BUF_LEN && LONG_MIN <= size < 0
    ensures var d := Payload(rest, buf, size, data);
            (ToInt(size) < 0 || BUF_LEN < ToInt(size) ==> d == Delivery(ChunkFault, data, rest, buf))
            && (ToInt(size) == 0 ==> d == Delivery(Stuck, data, rest, buf))
  {
    assert ChunkLen(size) == ToInt(size);
  }

  /** Two sizes below the `int` range: -2^31 - 1 casts to INT_MAX and faults, -2^32 casts
      to 0 and stalls. */
  lemma WideNegativeSizes(rest: seq<byte>, buf: seq<byte>, data: seq<byte>)
    requires |buf| == BUF_LEN
    ensures Payload(rest, buf, INT_MIN - 1, data).status == ChunkFault
    ensures Payload(rest, buf, -TWO_32, data).status == Stuck
  {
    assert ToInt(INT_MIN - 1) == INT_MAX;
    NegativeSizeEnds(rest, buf, INT_MIN - 1, data);
    assert ToInt(-TWO_32) == 0;
    NegativeSizeEnds(rest, buf, -TWO_32, data);
  }

  // ---------------------------------------------------------------- whole runs on well-formed input

  /** `c'` follows `c` by receiving `f`: two acknowledgments sent, `f` stored at its
      destination, the destination recorded. */
  predicate FileStep(c: Conn, c': Conn, f: Source, lfile: Path, isDir: bool)
  {
    var dest := Destination(lfile, isDir, f.name);
    c'.out == c.out + [NUL, NUL] && c'.files == c.files[dest := f.data] && c'.got == c.got + [dest]
  }

  /** The run expected from `c` when the input holds the records of `fs`: all of them
      received, their destinations listed, two acknowledgments each. */
  function Expected(c: Conn, fs: seq<Source>, lfile: Path, isDir: bool): Run
  {
    Run(Completed(c.got + Dests(fs, lfile, isDir)), c.out + Zeros(2 * |fs|), Stored(c.files, fs, lfile, isDir))
  }

  /** At a 'C', a turn of the loop receives one file from the input after the 'C'. */
  lemma StepAtFile(c: Conn, rest: seq<byte>, lfile: Path, isDir: bool)
    requires |c.buf| == BUF_LEN && c.rest == [UPPER_C] + rest
    ensures StepOf(c, lfile, isDir) == ReceiveOf(c, rest, lfile, isDir)
  {
    assert c.rest[1..] == rest;
  }

  /** After the 'C', a well-formed header line is parsed back and the body follows it. */
  lemma ReceiveHeaderLine(c: Conn, f: Source, tail: seq<byte>, lfile: Path, isDir: bool)
    requires |c.buf| == BUF_LEN && WellFormed(f)
    ensures var h := ParseHeader(HeaderLine(f) + tail, c.buf);
            && h.Header? && |h.buf| == BUF_LEN && IsLong(h.size)
            && h.size == |f.data| && h.name == f.name && h.rest == tail
            && ReceiveOf(c, HeaderLine(f) + tail, lfile, isDir) == BodyOf(c, h, lfile, isDir)
  {
    ParseHeaderLine(f, tail, c.buf);
  }

  /** A complete payload: exactly the file's data is stored and the trailer decides. */
  lemma BodyComplete(c: Conn, h: Header, f: Source, after: seq<byte>, lfile: Path, isDir: bool)
    requires h.Header? && |h.buf| == BUF_LEN && IsLong(h.size)
    requires h.size == |f.data| && h.name == f.name && h.rest == f.data + after
    ensures var d := Payload(h.rest, h.buf[0 := NUL], h.size, []);
            && d.status == Finished && d.data == f.data && d.rest == after
            && BodyOf(c, h, lfile, isDir) == Trailer(c, d, Destination(lfile, isDir, f.name), c.out + [NUL])
  {
    PayloadExact(h.rest, h.buf[0 := NUL], |f.data|, []);
    assert [] + h.rest[..|f.data|] == f.data;
    assert h.rest[|f.data|..] == after;
  }

  /** One record of a well-formed file: the sink acknowledges the header and the trailer,
      stores the payload at the file's destination, records the destination and stops
      right after the record. */
  lemma StepRecord(c: Conn, f: Source, more: seq<byte>, lfile: Path, isDir: bool)
    requires |c.buf| == BUF_LEN && WellFormed(f) && c.rest == Record(f) + more
    ensures var s := StepOf(c, lfile, isDir);
            s.Next? && s.conn.rest == more && FileStep(c, s.conn, f, lfile, isDir)
  {
    var tail := f.data + ([NUL] + more);
    assert c.rest == [UPPER_C] + (HeaderLine(f) + tail);
    StepAtFile(c, HeaderLine(f) + tail, lfile, isDir);
    ReceiveHeaderLine(c, f, tail, lfile, isDir);
    BodyRecord(c, ParseHeader(HeaderLine(f) + tail, c.buf), f, more, lfile, isDir);
  }

  /** The part of `StepRecord` after the header line. */
  lemma BodyRecord(c: Conn, h: Header, f: Source, more: seq<byte>, lfile: Path, isDir: bool)
    requires h.Header? && |h.buf| == BUF_LEN && IsLong(h.size)
    requires h.size == |f.data| && h.name == f.name && h.rest == f.data + ([NUL] + more)
    ensures var s := BodyOf(c, h, lfile, isDir);
            s.Next? && s.conn.rest == more && FileStep(c, s.conn, f, lfile, isDir)
  {
    BodyComplete(c, h, f, [NUL] + more, lfile, isDir);
    var d := Payload(h.rest, h.buf[0 := NUL], h.size, []);
    TrailerZero(c, d, Destination(lfile, isDir, f.name), c.out + [NUL], more);
    assert c.out + [NUL] + [NUL] == c.out + [NUL, NUL];
  }

  /** A 0 trailing status: the sink acknowledges and goes on with the next header. */
  lemma TrailerZero(c: Conn, d: Delivery, dest: Path, out: seq<byte>, more: seq<byte>)
    requires |d.buf| == BUF_LEN && d.status == Finished && d.rest == [NUL] + more
    ensures var s := AfterPayload(c, d, dest, out);
            s.Next? && s.conn.rest == more && s.conn.out == out + [NUL]
            && s.conn.files == c.files[dest := d.data] && s.conn.got == c.got + [dest]
  {
    assert d.rest[1..] == more;
  }

  /** The sink receives a whole well-formed stream: every file is stored at its
      destination in order, the destinations are listed in header order, and two
      acknowledgments go out per file. */
  lemma {:induction false} TransferStream(c: Conn, fs: seq<Source>, tail: seq<byte>, lfile: Path, isDir: bool)
    requires |c.buf| == BUF_LEN && AllWellFormed(fs) && Ends(tail) && c.rest == Stream(fs) + tail
    ensures Transfer(c, lfile, isDir) == Expected(c, fs, lfile, isDir)
    decreases |fs|, 1
  {
    if fs == [] {
      assert c.rest == tail;
      EndsRun(c, lfile, isDir);
      assert c.got + [] == c.got && c.out + [] == c.out;
    } else {
      TransferRecord(c, fs, tail, lfile, isDir);
    }
  }

  /** The inductive step of `TransferStream`: the first record, then the others. */
  lemma {:induction false} TransferRecord(c: Conn, fs: seq<Source>, tail: seq<byte>, lfile: Path, isDir: bool)
    requires |c.buf| == BUF_LEN && AllWellFormed(fs) && Ends(tail) && c.rest == Stream(fs) + tail && fs != []
    ensures Transfer(c, lfile, isDir) == Expected(c, fs, lfile, isDir)
    decreases |fs|, 0
  {
    StreamCons(fs, tail);
    StepRecord(c, fs[0], Stream(fs[1..]) + tail, lfile, isDir);
    var c' := StepOf(c, lfile, isDir).conn;
    TransferStream(c', fs[1..], tail, lfile, isDir);
    TransferUnfold(c, lfile, isDir);
    StreamStep(c, c', fs, lfile, isDir);
  }

  /** A non-empty stream is its first record followed by the stream of the others. */
  lemma StreamCons(fs: seq<Source>, tail: seq<byte>)
    requires fs != [] && AllWellFormed(fs)
    ensures Stream(fs) + tail == Record(fs[0]) + (Stream(fs[1..]) + tail)
    ensures WellFormed(fs[0]) && AllWellFormed(fs[1..])
  {
    assert forall i :: 0 <= i < |fs| - 1 ==> fs[1..][i] == fs[i + 1];
  }

  /** The run from the state after the first record of `fs` is the run from the state
      before it. */
  lemma StreamStep(c: Conn, c': Conn, fs: seq<Source>, lfile: Path, isDir: bool)
    requires fs != [] && FileStep(c, c', fs[0], lfile, isDir)
    ensures Expected(c', fs[1..], lfile, isDir) == Expected(c, fs, lfile, isDir)
  {
    DestsCons(c.got, fs, lfile, isDir);
    ZerosCons(c.out, 2 * (|fs| - 1));
  }

  lemma DestsCons(got: seq<Path>, fs: seq<Source>, lfile: Path, isDir: bool)
    requires fs != []
    ensures got + [Destination(lfile, isDir, fs[0].name)] + Dests(fs[1..], lfile, isDir) == got + Dests(fs, lfile, isDir)
  {
    assert Dests(fs, lfile, isDir) == [Destination(lfile, isDir, fs[0].name)] + Dests(fs[1..], lfile, isDir);
  }

  lemma ZerosCons(out: seq<byte>, n: nat)
    ensures out + [NUL, NUL] + Zeros(n) == out + Zeros(n + 2)
  {
    assert [NUL, NUL] + Zeros(n) == Zeros(n + 2);
  }

  /** `getFile` on a well-formed stream of `N` files returns their `N` destinations in
      header order, stores every file, and sends exactly `2N + 1` NUL bytes. */
  lemma GetFileStream(fs: seq<Source>, tail: seq<byte>, lfile: Path, isDir: bool, files: map<Path, seq<byte>>)
    requires AllWellFormed(fs) && Ends(tail)
    ensures GetFileSpec(Stream(fs) + tail, lfile, isDir, files)
            == Run(Completed(Dests(fs, lfile, isDir)), Zeros(2 * |fs| + 1), Stored(files, fs, lfile, isDir))
  {
    var c := Start(Stream(fs) + tail, files);
    TransferStream(c, fs, tail, lfile, isDir);
    StartBookkeeping(Dests(fs, lfile, isDir), 2 * |fs|);
  }

  lemma StartBookkeeping(ps: seq<Path>, n: nat)
    ensures [] + ps == ps && [NUL] + Zeros(n) == Zeros(n + 1)
  {
    assert [NUL] + Zeros(n) == Zeros(n + 1);
  }

  /** An empty file (size 0) is still created and recorded. */
  lemma EmptyFileRecorded(f: Source, lfile: Path, isDir: bool, files: map<Path, seq<byte>>)
    requires WellFormed(f) && f.data == []
    ensures var dest := Destination(lfile, isDir, f.name);
            GetFileSpec(Record(f), lfile, isDir, files) == Run(Completed([dest]), Zeros(3), files[dest := []])
  {
    var dest := Destination(lfile, isDir, f.name);
    assert [f][1..] == [];
    assert Stream([f]) + [] == Record(f);
    assert AllWellFormed([f]);
    GetFileStream([f], [], lfile, isDir, files);
    assert Dests([f], lfile, isDir) == [dest];
    assert Stored(files, [f], lfile, isDir) == files[dest := []];
  }

  /** When `lfile` is not a directory every file goes to `lfile`, so only the last one
      survives there. */
  lemma {:induction false} StoredLast(files: map<Path, seq<byte>>, fs: seq<Source>, lfile: Path)
    requires fs != []
    ensures Stored(files, fs, lfile, false) == files[lfile := fs[|fs| - 1].data]
    decreases |fs|
  {
    if |fs| > 1 {
      StoredLast(files[lfile := fs[0].data], fs[1..], lfile);
      assert fs[1..][|fs| - 2] == fs[|fs| - 1];
    }
  }

  /** `getFile` into a non-directory `lfile` with `N > 0` files lists `lfile` `N` times
      and leaves only the last file's contents there. */
  lemma GetFileOverwrites(fs: seq<Source>, tail: seq<byte>, lfile: Path, files: map<Path, seq<byte>>)
    requires AllWellFormed(fs) && Ends(tail) && fs != []
    ensures var r := GetFileSpec(Stream(fs) + tail, lfile, false, files);
            r.outcome.Completed? && |r.outcome.paths| == |fs|
            && (forall i :: 0 <= i < |fs| ==> r.outcome.paths[i] == lfile)
            && r.files == files[lfile := fs[|fs| - 1].data]
  {
    GetFileStream(fs, tail, lfile, false, files);
    StoredLast(files, fs, lfile);
  }

  // ---------------------------------------------------------------- how a run ends early

  /** At a header position, a byte other than 'C', 1 or 2, or the end of the stream, ends
      the run normally: nothing more is sent and no file is added. */
  lemma EndsRun(c: Conn, lfile: Path, isDir: bool)
    requires |c.buf| == BUF_LEN && Ends(c.rest)
    ensures Transfer(c, lfile, isDir) == Run(Completed(c.got), c.out, c.files)
  {
  }

  /** At a header position, status 1 or 2 and a line make the run fail with that line. */
  lemma RemoteErrorAtHeader(c: Conn, status: byte, msg: seq<byte>, tail: seq<byte>, lfile: Path, isDir: bool)
    requires |c.buf| == BUF_LEN && IsErrorStatus(status) && LF !in msg
    requires c.rest == [status] + msg + [LF] + tail
    ensures Transfer(c, lfile, isDir) == Run(Aborted(RemoteError(status, msg + [LF])), c.out, c.files)
  {
    CheckAckErrorLine(status, msg, tail);
  }

  /** A complete file whose trailing status is not 0, 1 or 2 makes the run fail with
      "no ack", after the file has been stored. */
  lemma TrailerNoAck(c: Conn, f: Source, t: byte, more: seq<byte>, lfile: Path, isDir: bool)
    requires |c.buf| == BUF_LEN && WellFormed(f) && t != NUL && !IsErrorStatus(t)
    requires c.rest == [UPPER_C] + HeaderLine(f) + f.data + [t] + more
    ensures Transfer(c, lfile, isDir)
            == Run(Aborted(NoAck), c.out + [NUL], c.files[Destination(lfile, isDir, f.name) := f.data])
  {
    var tail := f.data + ([t] + more);
    assert c.rest == [UPPER_C] + (HeaderLine(f) + tail);
    StepAtFile(c, HeaderLine(f) + tail, lfile, isDir);
    ReceiveHeaderLine(c, f, tail, lfile, isDir);
    BodyNoAck(c, ParseHeader(HeaderLine(f) + tail, c.buf), f, t, more, lfile, isDir);
    TransferUnfold(c, lfile, isDir);
  }

  /** The part of `TrailerNoAck` after the header line. */
  lemma BodyNoAck(c: Conn, h: Header, f: Source, t: byte, more: seq<byte>, lfile: Path, isDir: bool)
    requires h.Header? && |h.buf| == BUF_LEN && IsLong(h.size) && t != NUL && !IsErrorStatus(t)
    requires h.size == |f.data| && h.name == f.name && h.rest == f.data + ([t] + more)
    ensures BodyOf(c, h, lfile, isDir)
            == Stop(Run(Aborted(NoAck), c.out + [NUL], c.files[Destination(lfile, isDir, f.name) := f.data]))
  {
    BodyComplete(c, h, f, [t] + more, lfile, isDir);
  }

  /** A complete file whose trailing status is 1 or 2 with a line makes the run fail with
      that line, after the file has been stored. */
  lemma TrailerRemote(c: Conn, f: Source, status: byte, msg: seq<byte>, more: seq<byte>, lfile: Path, isDir: bool)
    requires |c.buf| == BUF_LEN && WellFormed(f) && IsErrorStatus(status) && LF !in msg
    requires c.rest == [UPPER_C] + HeaderLine(f) + f.data + ([status] + msg + [LF] + more)
    ensures Transfer(c, lfile, isDir)
            == Run(Aborted(RemoteError(status, msg + [LF])), c.out + [NUL],
                   c.files[Destination(lfile, isDir, f.name) := f.data])
  {
    var trailer := [status] + msg + [LF] + more;
    var tail := f.data + trailer;
    assert c.rest == [UPPER_C] + (HeaderLine(f) + tail);
    StepAtFile(c, HeaderLine(f) + tail, lfile, isDir);
    ReceiveHeaderLine(c, f, tail, lfile, isDir);
    BodyRemote(c, ParseHeader(HeaderLine(f) + tail, c.buf), f, status, msg, more, lfile, isDir);
    TransferUnfold(c, lfile, isDir);
  }

  /** The part of `TrailerRemote` after the header line. */
  lemma BodyRemote(c: Conn, h: Header, f: Source, status: byte, msg: seq<byte>, more: seq<byte>,
                   lfile: Path, isDir: bool)
    requires h.Header? && |h.buf| == BUF_LEN && IsLong(h.size) && IsErrorStatus(status) && LF !in msg
    requires h.size == |f.data| && h.name == f.name && h.rest == f.data + ([status] + msg + [LF] + more)
    ensures BodyOf(c, h, lfile, isDir)
            == Stop(Run(Aborted(RemoteError(status, msg + [LF])), c.out + [NUL],
                        c.files[Destination(lfile, isDir, f.name) := f.data]))
  {
    BodyComplete(c, h, f, [status] + msg + [LF] + more, lfile, isDir);
    CheckAckErrorLine(status, msg, more);
  }

  /** A complete file and then the end of the stream: the trailing `checkAck` sees -1 and
      the run fails with "no ack", after the file has been stored. */
  lemma TrailerEndOfStream(c: Conn, f: Source, lfile: Path, isDir: bool)
    requires |c.buf| == BUF_LEN && WellFormed(f)
    requires c.rest == [UPPER_C] + HeaderLine(f) + f.data
    ensures Transfer(c, lfile, isDir)
            == Run(Aborted(NoAck), c.out + [NUL], c.files[Destination(lfile, isDir, f.name) := f.data])
  {
    var tail := f.data;
    assert c.rest == [UPPER_C] + (HeaderLine(f) + tail);
    StepAtFile(c, HeaderLine(f) + tail, lfile, isDir);
    ReceiveHeaderLine(c, f, tail, lfile, isDir);
    BodyEndOfStream(c, ParseHeader(HeaderLine(f) + tail, c.buf), f, lfile, isDir);
    TransferUnfold(c, lfile, isDir);
  }

  /** The part of `TrailerEndOfStream` after the header line. */
  lemma BodyEndOfStream(c: Conn, h: Header, f: Source, lfile: Path, isDir: bool)
    requires h.Header? && |h.buf| == BUF_LEN && IsLong(h.size)
    requires h.size == |f.data| && h.name == f.name && h.rest == f.data
    ensures BodyOf(c, h, lfile, isDir)
            == Stop(Run(Aborted(NoAck), c.out + [NUL], c.files[Destination(lfile, isDir, f.name) := f.data]))
  {
    assert f.data + [] == f.data;
    BodyComplete(c, h, f, [], lfile, isDir);
  }

  /** A payload cut short by the end of the stream: the bytes that arrived are stored, then
      the trailing `checkAck` sees -1 and the run fails with "no ack". */
  lemma ShortPayloadNoAck(c: Conn, f: Source, part: seq<byte>, lfile: Path, isDir: bool)
    requires |c.buf| == BUF_LEN && WellFormed(f) && |part| < |f.data|
    requires c.rest == [UPPER_C] + HeaderLine(f) + part
    ensures Transfer(c, lfile, isDir)
            == Run(Aborted(NoAck), c.out + [NUL], c.files[Destination(lfile, isDir, f.name) := part])
  {
    StepAtFile(c, HeaderLine(f) + part, lfile, isDir);
    ReceiveHeaderLine(c, f, part, lfile, isDir);
    BodyShort(c, ParseHeader(HeaderLine(f) + part, c.buf), f, part, lfile, isDir);
    TransferUnfold(c, lfile, isDir);
  }

  /** The part of `ShortPayloadNoAck` after the header line. */
  lemma BodyShort(c: Conn, h: Header, f: Source, part: seq<byte>, lfile: Path, isDir: bool)
    requires h.Header? && |h.buf| == BUF_LEN && IsLong(h.size)
    requires h.size == |f.data| && h.name == f.name && h.rest == part && |part| < |f.data|
    ensures BodyOf(c, h, lfile, isDir)
            == Stop(Run(Aborted(NoAck), c.out + [NUL], c.files[Destination(lfile, isDir, f.name) := part]))
  {
    PayloadShort(h.rest, h.buf[0 := NUL], |f.data|, []);
    assert [] + part == part;
  }

  /** A name with no '\n' in its first 1024 bytes runs the name loop past the buffer,
      whatever the size bytes before it. */
  lemma LongNameOverruns(c: Conn, mode: seq<byte>, digits: seq<byte>, name: seq<byte>, lfile: Path, isDir: bool)
    requires |c.buf| == BUF_LEN && |mode| == MODE_LEN && SPACE !in digits
    requires BUF_LEN <= |name| && LF !in name[..BUF_LEN]
    requires c.rest == [UPPER_C] + mode + digits + [SPACE] + name
    ensures Transfer(c, lfile, isDir) == Run(Aborted(NameTooLong), c.out, c.files)
  {
    var rest := mode + digits + [SPACE] + name;
    assert c.rest == [UPPER_C] + rest;
    StepAtFile(c, rest, lfile, isDir);
    ParseHeaderPrefix(mode, digits, name, c.buf);
    var buf2 := AfterSize(Fill(c.buf, rest, MODE_LEN), rest[MODE_LEN..], |digits| + 1);
    assert Window(name, buf2) == name[..BUF_LEN];
    TransferUnfold(c, lfile, isDir);
  }

  // ---------------------------------------------------------------- every run, whatever the input

  /** `p` is a path `getFile` can write to: `lfile + separator + name` when `lfile` is a
      directory, `lfile` itself otherwise. */
  predicate Under(p: Path, lfile: Path, isDir: bool)
  {
    if isDir then |lfile| < |p| && p[..|lfile|] == lfile && p[|lfile|] == SLASH else p == lfile
  }

  /** After a payload, `out` already holding the header acknowledgment: the run either
      stops without sending more or acknowledges the trailer; either way `dest` exists. */
  lemma AfterPayloadShape(c: Conn, d: Delivery, dest: Path, out: seq<byte>)
    requires |d.buf| == BUF_LEN
    ensures var s := AfterPayload(c, d, dest, out);
            && (s.Stop? ==> s.run.out == out && s.run.outcome.Aborted? && s.run.files.Keys == c.files.Keys + {dest})
            && (s.Next? ==> s.conn.out == out + [NUL] && s.conn.got == c.got + [dest]
                            && s.conn.files.Keys == c.files.Keys + {dest})
  {
  }

  /** What one turn of the loop does, `s` being its result from `c`: a normal end changes
      nothing, a failure sends at most the header acknowledgment and keeps every local
      file, and a file received sends two acknowledgments and records one path under
      `lfile` that now exists. */
  predicate Shaped(c: Conn, s: Step, lfile: Path, isDir: bool)
  {
    && (s.Stop? ==> (s.run.out == c.out || s.run.out == c.out + [NUL]) && c.files.Keys <= s.run.files.Keys)
    && (s.Stop? && s.run.outcome.Completed? ==>
          s.run.outcome.paths == c.got && s.run.out == c.out && s.run.files == c.files)
    && (s.Next? ==>
          && s.conn.out == c.out + [NUL, NUL] && |s.conn.got| == |c.got| + 1 && s.conn.got[..|c.got|] == c.got
          && Under(s.conn.got[|c.got|], lfile, isDir) && s.conn.files.Keys == c.files.Keys + {s.conn.got[|c.got|]})
  }

  /** `Shaped` for a file whose header has been parsed. */
  lemma BodyShape(c: Conn, h: Header, lfile: Path, isDir: bool)
    requires h.Header? && |h.buf| == BUF_LEN && IsLong(h.size)
    ensures Shaped(c, BodyOf(c, h, lfile, isDir), lfile, isDir)
  {
    var d := Payload(h.rest, h.buf[0 := NUL], h.size, []);
    var dest := Destination(lfile, isDir, h.name);
    AfterPayloadShape(c, d, dest, c.out + [NUL]);
    assert BodyOf(c, h, lfile, isDir) == AfterPayload(c, d, dest, c.out + [NUL]);
    assert c.out + [NUL] + [NUL] == c.out + [NUL, NUL];
    assert (c.got + [dest])[..|c.got|] == c.got;
  }

  /** `Shaped` for a file after its 'C'. */
  lemma ReceiveShape(c: Conn, rest: seq<byte>, lfile: Path, isDir: bool)
    requires |c.buf| == BUF_LEN
    ensures Shaped(c, ReceiveOf(c, rest, lfile, isDir), lfile, isDir)
  {
    var h := ParseHeader(rest, c.buf);
    if h.Header? {
      BodyShape(c, h, lfile, isDir);
    }
  }

  /** Every turn of the loop is `Shaped`. */
  lemma StepShape(c: Conn, lfile: Path, isDir: bool)
    requires |c.buf| == BUF_LEN
    ensures Shaped(c, StepOf(c, lfile, isDir), lfile, isDir)
  {
    var ack := CheckAckOf(c.rest);
    if ack.value.Status? && ack.value.code == UPPER_C as int {
      ReceiveShape(c, c.rest[1..], lfile, isDir);
    }
  }

  /** `out` is `before` followed by NUL bytes only. */
  predicate AcksAfter(before: seq<byte>, out: seq<byte>)
  {
    |before| <= |out| && out[..|before|] == before && forall i :: |before| <= i < |out| ==> out[i] == NUL
  }

  /** Acknowledgments accumulate: NULs after `before + more`, `more` all NUL, are NULs
      after `before`. */
  lemma AcksAfterTrans(before: seq<byte>, more: seq<byte>, out: seq<byte>)
    requires (forall i :: 0 <= i < |more| ==> more[i] == NUL) && AcksAfter(before + more, out)
    ensures AcksAfter(before, out)
  {
    assert out[..|before|] == (before + more)[..|before|];
    forall i | |before| <= i < |out|
      ensures out[i] == NUL
    {
      if i < |before| + |more| {
        assert out[i] == (before + more)[i];
      }
    }
  }

  /** `Transfer` takes one turn of the loop at a time. */
  lemma TransferUnfold(c: Conn, lfile: Path, isDir: bool)
    requires |c.buf| == BUF_LEN
    ensures var s := StepOf(c, lfile, isDir);
            && (s.Stop? ==> Transfer(c, lfile, isDir) == s.run)
            && (s.Next? ==> Transfer(c, lfile, isDir) == Transfer(s.conn, lfile, isDir))
  {
  }

  /** The run `r` has sent only NULs after `out`, and, if it ended normally, it lists the
      paths `got` first and has sent two NULs per further path. */
  predicate AcksOf(out: seq<byte>, got: seq<Path>, r: Run)
  {
    && AcksAfter(out, r.out)
    && (r.outcome.Completed? ==>
          && |got| <= |r.outcome.paths| && r.outcome.paths[..|got|] == got
          && |r.out| == |out| + 2 * (|r.outcome.paths| - |got|))
  }

  /** `AcksOf` from the state after a received file carries back to the state before it. */
  lemma AcksStep(out0: seq<byte>, got0: seq<Path>, out1: seq<byte>, got1: seq<Path>, r: Run)
    requires out1 == out0 + [NUL, NUL] && |got1| == |got0| + 1 && got1[..|got0|] == got0
    requires AcksOf(out1, got1, r)
    ensures AcksOf(out0, got0, r)
  {
    AcksAfterTrans(out0, [NUL, NUL], r.out);
    if r.outcome.Completed? {
      assert r.outcome.paths[..|got0|] == r.outcome.paths[..|got1|][..|got0|];
    }
  }

  /** Every run sends only NUL bytes after what was sent before, and a run that ends
      normally has sent exactly two of them per file it lists, the files it lists
      extending those recorded before. */
  lemma {:induction false} RunAcks(c: Conn, lfile: Path, isDir: bool)
    requires |c.buf| == BUF_LEN
    ensures AcksOf(c.out, c.got, Transfer(c, lfile, isDir))
    decreases |c.rest|
  {
    StepShape(c, lfile, isDir);
    TransferUnfold(c, lfile, isDir);
    var s := StepOf(c, lfile, isDir);
    if s.Next? {
      RunAcks(s.conn, lfile, isDir);
      AcksStep(c.out, c.got, s.conn.out, s.conn.got, Transfer(s.conn, lfile, isDir));
    } else if s.run.out == c.out + [NUL] {
      assert s.run.out[..|c.out|] == c.out;
    } else {
      assert s.run.out[..|c.out|] == c.out;
    }
  }

  /** The run `r` keeps every file of `keys`, and, if it ended normally, it lists the paths
      `got` first and every further path lies under `lfile` and exists. */
  predicate PathsOf(keys: set<Path>, got: seq<Path>, r: Run, lfile: Path, isDir: bool)
  {
    && keys <= r.files.Keys
    && (r.outcome.Completed? ==>
          && |got| <= |r.outcome.paths| && r.outcome.paths[..|got|] == got
          && forall i :: |got| <= i < |r.outcome.paths| ==>
               Under(r.outcome.paths[i], lfile, isDir) && r.outcome.paths[i] in r.files)
  }

  /** `PathsOf` from the state after a received file carries back to the state before it. */
  lemma PathsStep(keys0: set<Path>, got0: seq<Path>, keys1: set<Path>, got1: seq<Path>, r: Run,
                  lfile: Path, isDir: bool)
    requires |got1| == |got0| + 1 && got1[..|got0|] == got0
    requires Under(got1[|got0|], lfile, isDir) && keys1 == keys0 + {got1[|got0|]}
    requires PathsOf(keys1, got1, r, lfile, isDir)
    ensures PathsOf(keys0, got0, r, lfile, isDir)
  {
    if r.outcome.Completed? {
      assert r.outcome.paths[..|got0|] == r.outcome.paths[..|got1|][..|got0|];
      assert r.outcome.paths[|got0|] == r.outcome.paths[..|got1|][|got0|];
    }
  }

  /** Every path a normally ended run lists beyond those recorded before lies under
      `lfile` and exists among the local files; no local file ever disappears. */
  lemma {:induction false} RunPaths(c: Conn, lfile: Path, isDir: bool)
    requires |c.buf| == BUF_LEN
    ensures PathsOf(c.files.Keys, c.got, Transfer(c, lfile, isDir), lfile, isDir)
    decreases |c.rest|
  {
    StepShape(c, lfile, isDir);
    TransferUnfold(c, lfile, isDir);
    var s := StepOf(c, lfile, isDir);
    if s.Next? {
      RunPaths(s.conn, lfile, isDir);
      PathsStep(c.files.Keys, c.got, s.conn.files.Keys, s.conn.got, Transfer(s.conn, lfile, isDir), lfile, isDir);
    }
  }

  /** A normal run that started with one NUL sent and nothing recorded has sent nothing
      but `2N + 1` NULs. */
  lemma AcksFromStart(r: Run)
    requires AcksOf([NUL], [], r) && r.outcome.Completed?
    ensures r.out == Zeros(2 * |r.outcome.paths| + 1)
  {
    assert r.out[0] == r.out[..1][0] == NUL;
  }

  /** `getFile` ending normally with `N` destinations has sent exactly `2N + 1` NUL bytes,
      and every destination lies under `lfile` and exists. */
  lemma GetFileCompleted(input: seq<byte>, lfile: Path, isDir: bool, files: map<Path, seq<byte>>)
    ensures var r := GetFileSpec(input, lfile, isDir, files);
            r.outcome.Completed? ==>
              && r.out == Zeros(2 * |r.outcome.paths| + 1)
              && forall i :: 0 <= i < |r.outcome.paths| ==>
                   Under(r.outcome.paths[i], lfile, isDir) && r.outcome.paths[i] in r.files
  {
    var c := Start(input, files);
    RunAcks(c, lfile, isDir);
    RunPaths(c, lfile, isDir);
    var r := Transfer(c, lfile, isDir);
    if r.outcome.Completed? {
      AcksFromStart(r);
    }
  }
}
