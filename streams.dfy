/**
 * The three things `getFile` talks to, in place of the JSch channel and the local disk:
 * the channel's input stream (what the remote `scp -f` sends), its output stream (what
 * the sink sends back) and the local file system.
 */
module Streams {
  import opened Bytes

  /** The channel's `InputStream`: a finite byte sequence with a read cursor. */
  class Input {
    const data: seq<byte>
    var pos: nat

    predicate Valid()
      reads this
    {
      pos <= |data|
    }

    /** The bytes not read yet. */
    function Remaining(): (r: seq<byte>)
      reads this
      requires Valid()
      ensures |r| == |data| - pos
    {
      data[pos..]
    }

    constructor (data: seq<byte>)
      ensures Valid() && this.data == data && pos == 0
    {
      this.data := data;
      pos := 0;
    }

    /** `in.read()`: the next byte, or -1 at the end of the stream. */
    method Read() returns (b: int)
      requires Valid()
      modifies this
      ensures Valid()
      ensures old(pos) < |data| ==> b == data[old(pos)] as int && pos == old(pos) + 1
      ensures old(pos) == |data| ==> b == -1 && pos == old(pos)
    {
      if pos < |data| {
        b := data[pos] as int;
        pos := pos + 1;
      } else {
        b := -1;
      }
    }

    /** `in.read(buf, off, len)` with the bounds `read` demands (callers model the
        `IndexOutOfBoundsException` themselves): 0 when `len` is 0, -1 at the end of the
        stream, otherwise as many bytes as are left, up to `len`, stored from `buf[off]`. */
    method ReadInto(buf: array<byte>, off: nat, len: nat) returns (n: int)
      requires Valid() && off + len <= buf.Length
      modifies this, buf
      ensures Valid()
      ensures len == 0 ==> n == 0
      ensures 0 < len && old(pos) == |data| ==> n == -1
      ensures 0 < len && old(pos) < |data| ==> n == Min(len, |data| - old(pos))
      ensures n < 0 ==> pos == old(pos) && buf[..] == old(buf[..])
      ensures 0 <= n ==> pos == old(pos) + n
                         && buf[..] == old(buf[..off]) + data[old(pos)..pos] + old(buf[off + n..])
    {
      if len == 0 {
        return 0;
      }
      if pos == |data| {
        return -1;
      }
      n := Min(len, |data| - pos);
      ghost var b0 := buf[..];
      ghost var p0 := pos;
      var i := 0;
      while i < n
        invariant 0 <= i <= n && pos == p0 + i && buf.Length == |b0|
        invariant buf[..] == b0[..off] + data[p0..pos] + b0[off + i..]
      {
        CopyStep(buf[..], b0, data, off, i, p0);
        buf[off + i] := data[pos];
        pos := pos + 1;
        i := i + 1;
      }
    }

    /** `in.read(buf, off, 1)`: one byte into `buf[off]`, or -1 and nothing stored at the
        end of the stream. */
    method ReadOne(buf: array<byte>, off: nat) returns (n: int)
      requires Valid() && off < buf.Length
      modifies this, buf
      ensures Valid()
      ensures old(pos) < |data| ==>
                n == 1 && pos == old(pos) + 1 && buf[..] == old(buf[..])[off := data[old(pos)]]
      ensures old(pos) == |data| ==> n == -1 && pos == old(pos) && buf[..] == old(buf[..])
    {
      n := ReadInto(buf, off, 1);
      if 0 <= n {
        assert buf[..] == old(buf[..])[off := data[old(pos)]] by {
          assert old(buf[..off]) + data[old(pos)..pos] + old(buf[off + n..]) == old(buf[..])[off := data[old(pos)]];
        }
      }
    }
  }

  /** Copying byte `i` of a read: the copied prefix grows by one, the untouched suffix
      shrinks by one. */
  lemma CopyStep(b: seq<byte>, b0: seq<byte>, d: seq<byte>, off: nat, i: nat, p0: nat)
    requires off + i < |b0| && p0 + i < |d|
    requires b == b0[..off] + d[p0..p0 + i] + b0[off + i..]
    ensures b[off + i := d[p0 + i]] == b0[..off] + d[p0..p0 + i + 1] + b0[off + i + 1..]
  {
    assert d[p0..p0 + i + 1] == d[p0..p0 + i] + [d[p0 + i]];
    assert b0[off + i..] == [b0[off + i]] + b0[off + i + 1..];
  }

  /** The channel's `OutputStream`: every byte written, in order. */
  class Output {
    var written: seq<byte>

    constructor ()
      ensures written == []
    {
      written := [];
    }

    /** `out.write(buf, off, len)`. */
    method Write(buf: array<byte>, off: nat, len: nat)
      requires off + len <= buf.Length
      modifies this
      ensures written == old(written) + buf[off..off + len]
    {
      written := written + buf[off..off + len];
    }
  }

  /** The local file system: its directories and the contents of its files. */
  class LocalStore {
    const dirs: set<seq<byte>>
    var files: map<seq<byte>, seq<byte>>

    constructor (dirs: set<seq<byte>>, files: map<seq<byte>, seq<byte>>)
      ensures this.dirs == dirs && this.files == files
    {
      this.dirs := dirs;
      this.files := files;
    }

    /** `new File(p).isDirectory()`. */
    function IsDirectory(p: seq<byte>): bool
    {
      p in dirs
    }

    /** `new FileOutputStream(p)`: creates the file, or truncates it if it exists. */
    method Open(p: seq<byte>)
      modifies this
      ensures files == old(files)[p := []]
    {
      files := files[p := []];
    }

    /** `fos.write(buf, 0, len)` on the file opened at `p`. */
    method Append(p: seq<byte>, buf: array<byte>, len: nat)
      requires p in files && len <= buf.Length
      modifies this
      ensures files == old(files)[p := old(files)[p] + buf[..len]]
    {
      files := files[p := files[p] + buf[..len]];
    }
  }
}
