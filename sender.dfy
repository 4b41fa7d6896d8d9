/**
 * What a well-behaved `scp -f` source sends to the sink: for every file a header line
 * `C<mode> <size> <name>\n`, the `size` payload bytes and a 0 status byte. This is the
 * reference against which the sink model of module `Protocol` is checked, together with
 * what the sink is expected to leave behind: the destinations, in header order, and the
 * local files.
 */
module Sender {
  import opened Bytes
  import opened Protocol

  /** The ASCII digit for `d`. */
  function Digit(d: nat): (b: byte)
    requires d < 10
    ensures DIGIT_ZERO <= b <= DIGIT_NINE && b as int - DIGIT_ZERO as int == d
  {
    (DIGIT_ZERO as int + d) as byte
  }

  /** The decimal representation of `n`, most significant digit first, no leading zero. */
  function Decimal(n: nat): (s: seq<byte>)
    ensures |s| > 0
    ensures forall i :: 0 <= i < |s| ==> DIGIT_ZERO <= s[i] <= DIGIT_NINE
  {
    if n < 10 then [Digit(n)] else Decimal(n / 10) + [Digit(n % 10)]
  }

  /** One file as the source presents it. */
  datatype Source = Source(mode: seq<byte>, name: seq<byte>, data: seq<byte>)

  /** A file the sink can receive: a 5-byte mode, a name without '\n' that fits the
      buffer together with its '\n', and a size a `long` can hold. */
  predicate WellFormed(f: Source)
  {
    |f.mode| == MODE_LEN && LF !in f.name && |f.name| < BUF_LEN && |f.data| <= LONG_MAX
  }

  predicate AllWellFormed(fs: seq<Source>)
  {
    forall i :: 0 <= i < |fs| ==> WellFormed(fs[i])
  }

  /** The header line after its 'C': mode, size, a space, the name and '\n'. */
  function HeaderLine(f: Source): seq<byte>
  {
    f.mode + Decimal(|f.data|) + [SPACE] + f.name + [LF]
  }

  /** Everything the source sends for one file, the trailing 0 status included. */
  function Record(f: Source): seq<byte>
  {
    [UPPER_C] + HeaderLine(f) + f.data + [NUL]
  }

  /** The records of `fs`, in order. */
  function Stream(fs: seq<Source>): seq<byte>
  {
    if fs == [] then [] else Record(fs[0]) + Stream(fs[1..])
  }

  /** The local paths the files of `fs` go to, in order. */
  function Dests(fs: seq<Source>, lfile: Path, isDir: bool): (ps: seq<Path>)
    ensures |ps| == |fs|
    ensures forall i :: 0 <= i < |fs| ==> ps[i] == Destination(lfile, isDir, fs[i].name)
  {
    if fs == [] then [] else [Destination(lfile, isDir, fs[0].name)] + Dests(fs[1..], lfile, isDir)
  }

  /** The local files after storing the files of `fs` in order, each one replacing
      whatever its destination held. */
  function Stored(files: map<Path, seq<byte>>, fs: seq<Source>, lfile: Path, isDir: bool): map<Path, seq<byte>>
    decreases |fs|
  {
    if fs == [] then files
    else Stored(files[Destination(lfile, isDir, fs[0].name) := fs[0].data], fs[1..], lfile, isDir)
  }

  /** A byte that ends the run at a header position: not 'C' and not an error status. */
  predicate Ends(tail: seq<byte>)
  {
    tail == [] || (tail[0] != UPPER_C && !IsErrorStatus(tail[0]))
  }
}
