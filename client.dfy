/**
 * `ScpClient.getFile` and `ScpClient.checkAck` as methods over the streams of module
 * `Streams`, each proved to do what module `Protocol` says.
 */
module ScpClient {
  import opened Bytes
  import opened Protocol
  import opened Streams

  /** The message loop of `checkAck` reads `\n` as the last byte of `sb`. */
  lemma AckLineEnd(rest: seq<byte>, sb: seq<byte>)
    requires rest != [] && IsErrorStatus(rest[0])
    requires 0 < |sb| && |sb| < |rest| && sb == rest[1..1 + |sb|]
    requires sb[|sb| - 1] == LF && LF !in sb[..|sb| - 1]
    ensures CheckAckOf(rest) == Consumed(Remote(rest[0], sb), 1 + |sb|)
  {
    var k := |sb| - 1;
    assert rest[1..] == sb[..k] + [LF] + rest[1..][|sb|..];
    IndexOfAfter(sb[..k], LF, rest[1..][|sb|..]);
  }

  /** The message loop of `checkAck` reaches the end of the stream with no `\n` read. */
  lemma AckLineCut(rest: seq<byte>, sb: seq<byte>)
    requires rest != [] && IsErrorStatus(rest[0]) && rest[1..] == sb && LF !in sb
    ensures CheckAckOf(rest) == Consumed(AckHang, |rest|)
  {
    IndexOfAbsent(rest[1..], LF);
  }

  /** `checkAck(in)`: reads one status byte; on 1 or 2 also reads the message up to and
      including '\n' and fails with it. */
  method CheckAck(src: Input) returns (a: Ack)
    requires src.Valid()
    modifies src
    ensures src.Valid()
    ensures a == CheckAckOf(old(src.Remaining())).value
    ensures src.pos == old(src.pos) + CheckAckOf(old(src.Remaining())).used
  {
    ghost var rest := src.Remaining();
    ghost var p0 := src.pos;
    var b := src.Read();
    if b == 0 || b == -1 {
      return Status(b);
    }
    if b == 1 || b == 2 {
      var sb: seq<byte> := [];
      while true
        invariant src.Valid() && src.pos == p0 + 1 + |sb| && src.data[p0..] == rest
        invariant |sb| < |rest| && sb == rest[1..1 + |sb|] && LF !in sb
        decreases |src.data| - src.pos
      {
        var c := src.Read();
        if c == -1 {
          // Java appends (char) -1 and reads again, forever.
          AckLineCut(rest, sb);
          return AckHang;
        }
        assert c == rest[1 + |sb|] as int;
        sb := sb + [c as byte];
        if c == LF as int {
          AckLineEnd(rest, sb);
          return Remote(b as byte, sb);
        }
      }
    }
    return Status(b);
  }

  /** One more size digit: the fold extends by the byte at `i`. */
  lemma SizeStep(rest: seq<byte>, i: nat, size: int)
    requires i < |rest| && rest[i] != SPACE && SPACE !in rest[..i] && size == SizeOf(rest[..i])
    ensures SPACE !in rest[..i + 1]
    ensures ToLong(size * 10 + (Signed(rest[i]) - DIGIT_ZERO as int)) == SizeOf(rest[..i + 1])
  {
    assert rest[..i + 1][..i] == rest[..i];
    assert rest[..i + 1] == rest[..i] + [rest[i]];
  }

  /** The size loop stops at the first space, at `i`. */
  lemma SizeSpace(rest: seq<byte>, i: nat)
    requires i < |rest| && rest[i] == SPACE && SPACE !in rest[..i]
    ensures SizeField(rest) == Consumed(SizeOf(rest[..i]), i + 1)
  {
    IndexOfAfter(rest[..i], SPACE, rest[i + 1..]);
    assert rest == rest[..i] + [SPACE] + rest[i + 1..];
  }

  /** The size loop stops at the end of a stream that holds no space. */
  lemma SizeEnd(rest: seq<byte>)
    requires SPACE !in rest
    ensures SizeField(rest) == Consumed(SizeOf(rest), |rest|)
  {
    IndexOfAbsent(rest, SPACE);
  }

  /** Lines 95-105 of `getFile`: accumulate the size from the bytes before ' ', each read
      into `buf[0]`. */
  method ReadSize(src: Input, buf: array<byte>) returns (size: int)
    requires src.Valid() && buf.Length == BUF_LEN
    modifies src, buf
    ensures src.Valid()
    ensures var sf := SizeField(old(src.Remaining()));
            size == sf.value && src.Remaining() == old(src.Remaining())[sf.used..]
            && buf[..] == AfterSize(old(buf[..]), old(src.Remaining()), sf.used)
  {
    ghost var rest := src.Remaining();
    ghost var buf0 := buf[..];
    ghost var i: nat := 0;
    size := 0;
    while true
      invariant src.Valid() && buf.Length == BUF_LEN
      invariant i <= |rest| && src.Remaining() == rest[i..]
      invariant SPACE !in rest[..i] && size == SizeOf(rest[..i])
      invariant buf[..] == AfterSize(buf0, rest, i)
      decreases |rest| - i
    {
      var n := src.ReadOne(buf, 0);
      if n < 0 {
        assert rest[..i] == rest;
        SizeEnd(rest);
        return;
      }
      assert rest[i] == buf[0];
      if buf[0] == SPACE {
        SizeSpace(rest, i);
        return;
      }
      SizeStep(rest, i, size);
      size := ToLong(size * 10 + (Signed(buf[0]) - DIGIT_ZERO as int));
      i := i + 1;
    }
  }

  /** What the name loop has seen after `i` steps, stated without `Window`. */
  ghost predicate NameLoopState(rest: seq<byte>, buf0: seq<byte>, b: seq<byte>, i: nat)
  {
    && |b| == |buf0| == BUF_LEN && i <= BUF_LEN
    && (forall j :: 0 <= j < i && j < |rest| ==> b[j] == rest[j])
    && (forall j :: Min(i, |rest|) <= j < BUF_LEN ==> b[j] == buf0[j])
    && (forall j :: 0 <= j < i ==> b[j] != LF)
  }

  lemma NameFound(rest: seq<byte>, buf0: seq<byte>, b: seq<byte>, i: nat)
    requires i < BUF_LEN && |b| == |buf0| == BUF_LEN
    requires forall j :: 0 <= j <= i && j < |rest| ==> b[j] == rest[j]
    requires forall j :: Min(i + 1, |rest|) <= j < BUF_LEN ==> b[j] == buf0[j]
    requires forall j :: 0 <= j < i ==> b[j] != LF
    requires b[i] == LF
    ensures NameOf(rest, buf0) == Named(b[..i], rest[Min(i + 1, |rest|)..], b)
  {
    var w := Window(rest, buf0);
    forall j | 0 <= j <= i
      ensures w[j] == b[j]
    {
      if j >= |rest| {
        assert b[j] == buf0[j];
      }
    }
    assert LF !in w[..i];
    IndexOfAfter(w[..i], LF, w[i + 1..]);
    assert w == w[..i] + [LF] + w[i + 1..];
    assert b == w[..i + 1] + buf0[i + 1..];
    assert b[..i] == w[..i];
  }

  /** One more name byte that is not '\n' keeps `NameLoopState`. */
  lemma NameStep(rest: seq<byte>, buf0: seq<byte>, b: seq<byte>, b': seq<byte>, i: nat)
    requires NameLoopState(rest, buf0, b, i) && i < BUF_LEN
    requires b' == if i < |rest| then b[i := rest[i]] else b
    requires b'[i] != LF
    ensures NameLoopState(rest, buf0, b', i + 1)
  {
  }

  /** After reading position `i` and finding '\n' there. */
  lemma NameFoundAt(rest: seq<byte>, buf0: seq<byte>, b: seq<byte>, b': seq<byte>, i: nat)
    requires NameLoopState(rest, buf0, b, i) && i < BUF_LEN
    requires b' == if i < |rest| then b[i := rest[i]] else b
    requires b'[i] == LF
    ensures NameOf(rest, buf0) == Named(b'[..i], rest[Min(i + 1, |rest|)..], b')
  {
    NameFound(rest, buf0, b', i);
  }

  lemma NameMissing(rest: seq<byte>, buf0: seq<byte>, b: seq<byte>)
    requires NameLoopState(rest, buf0, b, BUF_LEN)
    ensures NameOf(rest, buf0).Overrun?
  {
    var w := Window(rest, buf0);
    assert w == b;
  }

  /** One turn of the name loop: `in.read(buf, i, 1)`, then the test of `buf[i]`. */
  method ReadNameByte(src: Input, buf: array<byte>, i: nat, ghost rest: seq<byte>, ghost buf0: seq<byte>)
    returns (lf: bool)
    requires src.Valid() && buf.Length == BUF_LEN && i < BUF_LEN
    requires src.Remaining() == rest[Min(i, |rest|)..] && NameLoopState(rest, buf0, buf[..], i)
    modifies src, buf
    ensures src.Valid() && src.Remaining() == rest[Min(i + 1, |rest|)..]
    ensures lf ==> NameOf(rest, buf0) == Named(buf[..i], rest[Min(i + 1, |rest|)..], buf[..])
    ensures !lf ==> NameLoopState(rest, buf0, buf[..], i + 1)
  {
    ghost var p := src.pos;
    ghost var b := buf[..];
    assert i < |rest| ==> src.data[p] == rest[i];
    var _ := src.ReadOne(buf, i);
    assert buf[..] == if i < |rest| then b[i := rest[i]] else b;
    lf := buf[i] == LF;
    if lf {
      NameFoundAt(rest, buf0, b, buf[..], i);
    } else {
      NameStep(rest, buf0, b, buf[..], i);
    }
  }

  /** Lines 107-114 of `getFile`: read the name into `buf[i]`, one byte at a time, up to
      '\n'; past the end of the stream the loop sees what `buf` already held. */
  method ReadName(src: Input, buf: array<byte>) returns (found: bool, name: seq<byte>)
    requires src.Valid() && buf.Length == BUF_LEN
    modifies src, buf
    ensures src.Valid()
    ensures var nm := NameOf(old(src.Remaining()), old(buf[..]));
            found == nm.Named? &&
            (found ==> name == nm.name && src.Remaining() == nm.rest && buf[..] == nm.buf)
  {
    ghost var rest := src.Remaining();
    ghost var buf0 := buf[..];
    var i := 0;
    while true
      invariant 0 <= i <= BUF_LEN && buf.Length == BUF_LEN && src.Valid()
      invariant src.Remaining() == rest[Min(i, |rest|)..]
      invariant NameLoopState(rest, buf0, buf[..], i)
      decreases BUF_LEN - i
    {
      if i == buf.Length {
        // in.read(buf, 1024, 1) throws IndexOutOfBoundsException
        NameMissing(rest, buf0, buf[..]);
        return false, [];
      }
      var lf := ReadNameByte(src, buf, i, rest, buf0);
      if lf {
        return true, buf[..i];
      }
      i := i + 1;
    }
  }

  /** Lines 92-114 of `getFile`: skip the mode, read the size, read the name. */
  method ReadHeader(src: Input, buf: array<byte>) returns (ok: bool, size: int, name: seq<byte>)
    requires src.Valid() && buf.Length == BUF_LEN
    modifies src, buf
    ensures src.Valid()
    ensures var h := ParseHeader(old(src.Remaining()), old(buf[..]));
            ok == h.Header? &&
            (ok ==> size == h.size && name == h.name && src.Remaining() == h.rest && buf[..] == h.buf)
  {
    ghost var rest := src.Remaining();
    ghost var buf0 := buf[..];
    // in.read(buf, 0, 5)
    var _ := src.ReadInto(buf, 0, MODE_LEN);
    ghost var m := Min(MODE_LEN, |rest|);
    assert src.Remaining() == rest[m..];
    assert buf[..] == Fill(buf0, rest, m);
    ghost var rest1 := src.Remaining();
    ghost var buf1 := buf[..];
    size := ReadSize(src, buf);
    ghost var buf2 := buf[..];
    ghost var sf := SizeField(rest1);
    ok, name := ReadName(src, buf);
    HeaderSteps(rest, buf0, rest1, buf1, buf2);
  }

  /** Lines 128 and 133 of `getFile`: `foo = in.read(buf, 0, foo)` and, unless the stream
      has ended, `fos.write(buf, 0, foo)`. */
  method CopyChunk(src: Input, buf: array<byte>, fs: LocalStore, dest: Path, want: nat,
                   ghost rest: seq<byte>, ghost b: seq<byte>, ghost files0: map<Path, seq<byte>>,
                   ghost acc: seq<byte>)
    returns (n: int)
    requires src.Valid() && buf.Length == BUF_LEN && want <= BUF_LEN
    requires src.Remaining() == rest && buf[..] == b && fs.files == files0[dest := acc]
    modifies src, buf, fs
    ensures src.Valid()
    ensures n < 0 <==> 0 < want && rest == []
    ensures n < 0 ==> src.Remaining() == rest && buf[..] == b && fs.files == files0[dest := acc]
    ensures 0 <= n ==> n == Min(want, |rest|) && src.Remaining() == rest[n..]
                       && buf[..] == Fill(b, rest, n) && fs.files == files0[dest := acc + rest[..n]]
  {
    n := src.ReadInto(buf, 0, want);
    if n < 0 {
      return;
    }
    fs.Append(dest, buf, n);
    assert buf[..] == Fill(b, rest, n);
    assert buf[..n] == rest[..n];
  }

  /** Lines 125-141 of `getFile`: stream chunks of at most 1024 bytes from `src` into the
      local file `dest` (already opened empty) until `filesize` reaches 0. */
  method ReceivePayload(src: Input, buf: array<byte>, fs: LocalStore, dest: Path, filesize: int,
                        ghost rest0: seq<byte>, ghost buf0: seq<byte>, ghost files0: map<Path, seq<byte>>)
    returns (status: PayloadStatus)
    requires src.Valid() && buf.Length == BUF_LEN && IsLong(filesize)
    requires src.Remaining() == rest0 && buf[..] == buf0 && fs.files == files0[dest := []]
    modifies src, buf, fs
    ensures src.Valid()
    ensures var d := Payload(rest0, buf0, filesize, []);
            status == d.status && src.Remaining() == d.rest && buf[..] == d.buf
            && fs.files == files0[dest := d.data]
  {
    ghost var goal := Payload(rest0, buf0, filesize, []);
    ghost var rest := rest0;
    ghost var b := buf0;
    ghost var acc: seq<byte> := [];
    var left := filesize;
    while true
      invariant src.Valid() && buf.Length == BUF_LEN && IsLong(left) && |b| == BUF_LEN
      invariant src.Remaining() == rest && buf[..] == b && fs.files == files0[dest := acc]
      invariant Payload(rest, b, left, acc) == goal
      decreases |rest|
    {
      var want := ChunkLen(left);
      if want < 0 || want > buf.Length {
        // in.read(buf, 0, foo) throws IndexOutOfBoundsException
        return ChunkFault;
      }
      var n := CopyChunk(src, buf, fs, dest, want, rest, b, files0, acc);
      if n < 0 {
        return Finished;
      }
      if n == 0 {
        // a zero-length read leaves everything as it was
        assert acc + rest[..n] == acc;
        assert Fill(b, rest, n) == b;
        if left == 0 {
          return Finished;
        }
        return Stuck;
      }
      PayloadTurn(rest, b, left, acc, n);
      acc, b := acc + rest[..n], Fill(b, rest, n);
      rest := rest[n..];
      left := ToLong(left - n);
      if left == 0 {
        return Finished;
      }
    }
  }

  /** Lines 143-150 of `getFile`: the trailing status must be 0, then the sink sends '\0'. */
  method FinishFile(src: Input, out: Output, buf: array<byte>, ghost c: Conn, ghost d: Delivery,
                    dest: Path, ghost w0: seq<byte>, ghost sent: seq<byte>)
    returns (done: bool, r: Outcome)
    requires src.Valid() && buf.Length == BUF_LEN && |d.buf| == BUF_LEN
    requires src.Remaining() == d.rest && buf[..] == d.buf && out.written == w0 + sent
    modifies src, out, buf
    ensures src.Valid()
    ensures var s := Trailer(c, d, dest, sent);
            done == s.Stop? &&
            (done ==> r == s.run.outcome && out.written == w0 + s.run.out) &&
            (!done ==> src.Remaining() == s.conn.rest && buf[..] == s.conn.buf && out.written == w0 + s.conn.out)
  {
    var ack := CheckAck(src);
    if ack.Remote? {
      return true, Aborted(RemoteError(ack.status, ack.message));
    } else if ack.AckHang? {
      return true, Aborted(Hang);
    } else if ack.code != 0 {
      // throw new RuntimeException("no ack")
      return true, Aborted(NoAck);
    }
    // send '\0'
    buf[0] := NUL;
    out.Write(buf, 0, 1);
    return false, Completed([]);
  }

  /** Lines 117-150 of `getFile`: one file once its header is read. */
  method ReceiveBody(src: Input, out: Output, fs: LocalStore, buf: array<byte>, lfile: Path, isDir: bool,
                     size: int, name: Path, ghost c: Conn, ghost h: Header, ghost w0: seq<byte>)
    returns (done: bool, r: Outcome, dest: Path)
    requires src.Valid() && buf.Length == BUF_LEN && h.Header? && |h.buf| == BUF_LEN && IsLong(h.size)
    requires size == h.size && name == h.name
    requires src.Remaining() == h.rest && buf[..] == h.buf && out.written == w0 + c.out && fs.files == c.files
    modifies src, out, fs, buf
    ensures src.Valid()
    ensures var s := BodyOf(c, h, lfile, isDir);
            done == s.Stop? &&
            (done ==> r == s.run.outcome && out.written == w0 + s.run.out && fs.files == s.run.files) &&
            (!done ==> src.Remaining() == s.conn.rest && buf[..] == s.conn.buf && out.written == w0 + s.conn.out
                       && fs.files == s.conn.files && s.conn.got == c.got + [dest])
  {
    ghost var out1 := c.out + [NUL];
    // send '\0'
    buf[0] := NUL;
    out.Write(buf, 0, 1);
    // new File(prefix == null ? lfile : prefix + file)
    dest := Destination(lfile, isDir, name);
    fs.Open(dest);
    var status := ReceivePayload(src, buf, fs, dest, size, h.rest, h.buf[0 := NUL], c.files);
    ghost var d := Payload(h.rest, h.buf[0 := NUL], h.size, []);
    assert BodyOf(c, h, lfile, isDir) == AfterPayload(c, d, dest, out1);
    if status == ChunkFault {
      return true, Aborted(BadChunk), dest;
    } else if status == Stuck {
      return true, Aborted(Hang), dest;
    }
    assert AfterPayload(c, d, dest, out1) == Trailer(c, d, dest, out1);
    done, r := FinishFile(src, out, buf, c, d, dest, w0, out1);
  }

  /** Lines 92-150 of `getFile`: one file after its 'C'. */
  method ReceiveFile(src: Input, out: Output, fs: LocalStore, buf: array<byte>, lfile: Path, isDir: bool,
                     ghost c: Conn, ghost rest: seq<byte>, ghost w0: seq<byte>)
    returns (done: bool, r: Outcome, dest: Path)
    requires src.Valid() && buf.Length == BUF_LEN && |c.buf| == BUF_LEN
    requires src.Remaining() == rest && buf[..] == c.buf && out.written == w0 + c.out && fs.files == c.files
    modifies src, out, fs, buf
    ensures src.Valid()
    ensures var s := ReceiveOf(c, rest, lfile, isDir);
            done == s.Stop? &&
            (done ==> r == s.run.outcome && out.written == w0 + s.run.out && fs.files == s.run.files) &&
            (!done ==> src.Remaining() == s.conn.rest && buf[..] == s.conn.buf && out.written == w0 + s.conn.out
                       && fs.files == s.conn.files && s.conn.got == c.got + [dest])
  {
    ghost var h := ParseHeader(rest, c.buf);
    var ok, size, name := ReadHeader(src, buf);
    if !ok {
      assert ReceiveOf(c, rest, lfile, isDir) == Stop(Run(Aborted(NameTooLong), c.out, c.files));
      return true, Aborted(NameTooLong), [];
    }
    assert ReceiveOf(c, rest, lfile, isDir) == BodyOf(c, h, lfile, isDir);
    done, r, dest := ReceiveBody(src, out, fs, buf, lfile, isDir, size, name, c, h, w0);
  }

  /** One turn of the `while (true)` loop of `getFile` (lines 87-150). */
  method Turn(src: Input, out: Output, fs: LocalStore, buf: array<byte>, lfile: Path, isDir: bool,
              got: seq<Path>, ghost c: Conn, ghost w0: seq<byte>)
    returns (done: bool, r: Outcome, dest: Path)
    requires src.Valid() && buf.Length == BUF_LEN && |c.buf| == BUF_LEN
    requires src.Remaining() == c.rest && buf[..] == c.buf && out.written == w0 + c.out && fs.files == c.files
    requires got == c.got
    modifies src, out, fs, buf
    ensures src.Valid()
    ensures var s := StepOf(c, lfile, isDir);
            done == s.Stop? &&
            (done ==> r == s.run.outcome && out.written == w0 + s.run.out && fs.files == s.run.files) &&
            (!done ==> src.Remaining() == s.conn.rest && buf[..] == s.conn.buf && out.written == w0 + s.conn.out
                       && fs.files == s.conn.files && s.conn.got == c.got + [dest])
  {
    ghost var s := StepOf(c, lfile, isDir);
    var ack := CheckAck(src);
    if ack.Remote? {
      assert s == Stop(Run(Aborted(RemoteError(ack.status, ack.message)), c.out, c.files));
      return true, Aborted(RemoteError(ack.status, ack.message)), [];
    } else if ack.AckHang? {
      assert s == Stop(Run(Aborted(Hang), c.out, c.files));
      return true, Aborted(Hang), [];
    } else if ack.code != UPPER_C as int {
      // end of the transfer
      assert s == Stop(Run(Completed(c.got), c.out, c.files));
      return true, Completed(got), [];
    }
    assert s == ReceiveOf(c, c.rest[1..], lfile, isDir);
    done, r, dest := ReceiveFile(src, out, fs, buf, lfile, isDir, c, c.rest[1..], w0);
  }

  /** `getFile(info, rfile, lfile)` once the channel is open: `src` and `out` are its
      streams, `fs` the local file system. */
  method GetFile(src: Input, out: Output, fs: LocalStore, lfile: Path) returns (r: Outcome)
    requires src.Valid()
    modifies src, out, fs
    ensures var run := GetFileSpec(old(src.Remaining()), lfile, fs.IsDirectory(lfile), old(fs.files));
            r == run.outcome && out.written == old(out.written) + run.out && fs.files == run.files
  {
    // String prefix = ... lfile + File.separator when lfile is a directory
    var isDir := fs.IsDirectory(lfile);
    ghost var goal := GetFileSpec(src.Remaining(), lfile, isDir, fs.files);
    ghost var w0 := out.written;

    var buf := new byte[BUF_LEN](_ => NUL);
    // send '\0'
    buf[0] := NUL;
    out.Write(buf, 0, 1);
    assert buf[..] == Zeros(BUF_LEN);

    var got: seq<Path> := [];
    ghost var c := Start(src.Remaining(), fs.files);
    while true
      invariant src.Valid() && buf.Length == BUF_LEN && |c.buf| == BUF_LEN
      invariant src.Remaining() == c.rest && buf[..] == c.buf && out.written == w0 + c.out
      invariant fs.files == c.files && got == c.got
      invariant Transfer(c, lfile, isDir) == goal
      decreases |c.rest|
    {
      ghost var s := StepOf(c, lfile, isDir);
      var done, outcome, dest := Turn(src, out, fs, buf, lfile, isDir, got, c, w0);
      if done {
        assert goal == s.run;
        return outcome;
      }
      got := got + [dest];
      c := s.conn;
    }
  }
}
