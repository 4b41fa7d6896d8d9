# SCP sink model of `ScpClient.getFile`

This project models the receiving ("sink") side of the SCP protocol as `ScpClient.getFile`
and `ScpClient.checkAck` implement it. Once the remote `scp -f` is running, the client:

1. sends a NUL ready byte;
2. reads a status byte with `checkAck`, and stops unless that byte is `C`;
3. skips the five mode bytes;
4. folds the decimal size up to a space;
5. reads the name up to `\n`;
6. acknowledges the header;
7. copies `size` payload bytes into the local file, in chunks of at most 1024;
8. records the file;
9. demands a 0 trailing status, acknowledges it and loops.

The JSch channel becomes the class `Streams.Input` (a byte sequence with a read cursor) and
the class `Streams.Output` (every byte written). The local disk becomes `Streams.LocalStore`:
its set of directories and a map from path to contents.

The model has four layers:

- **`Bytes`**: octets, Java's signed byte, `long` wrap-around and the `(int)` cast.
- **`Protocol`**: the whole conversation as functions over the unread input.
  - Each phase says what it consumes, what it sends, what it stores and what it leaves in
    the 1024-byte buffer `buf`.
  - The buffer is reused by every phase. When the stream ends inside a name, the name loop
    reads stale buffer bytes, so the buffer is part of the state.
  - `GetFileSpec` is the result of a whole run: its outcome, every byte sent, and the local
    files afterwards.
- **`ScpClient`**: the Java loops as imperative methods over the stream objects and an
  `array<byte>` buffer. Each method is proved to leave exactly the state the `Protocol`
  function describes. `ScpClient.GetFile` is the whole method.
- **`Sender` and `Properties`**: a reference of what a well-behaved source sends, and lemmas
  about the sink.
  - A well-formed stream of `N` files is received file by file.
  - Every normal run sends exactly `2N + 1` NUL bytes and lists `N` destinations, each of
    which exists.
  - Every early end is characterised: at a header, in the name, in the payload and at the
    trailing status.

Outcomes that the Java code expresses as exceptions or never-ending loops are values of
`Protocol.Failure`:

| Failure | Java behaviour |
|---|---|
| `RemoteError` | `checkAck` read status 1 or 2 |
| `NoAck` | `"no ack"` |
| `NameTooLong` | `in.read(buf, 1024, 1)` in the name loop throws `IndexOutOfBoundsException` |
| `BadChunk` | the payload `read` is called with a length below 0 or over 1024, which the `(int)` cast of a negative size can produce |
| `Hang` | the `checkAck` message loop at end of stream, or a payload loop that asks for 0 bytes while `filesize` is not 0 |

Where the usual account of the SCP protocol differs from this client's code, the model follows
the code:

- The message of a status 1 or 2 keeps its trailing `'\n'`.
- A status 1 or 2 where a header is expected aborts the run; it does not end it normally.
- A stream that ends during the size or the name is not an error by itself. The size loop
  stops, and the name loop goes on over the stale buffer.
- A payload cut short by the end of the stream is stored and recorded. The trailing
  `checkAck` then returns -1, so the run fails with "no ack".
- End of stream counts as success only at a header position. At the trailing status it is
  "no ack".

## Model

| member | source | states |
|---|---|---|
| Bytes.Signed | src/main/java/com/aikax28/scp/client/ScpClient.java:104 | a `byte` array element read by Java: below 128 unchanged, otherwise minus 256 |
| Bytes.ToLong | src/main/java/com/aikax28/scp/client/ScpClient.java:104 | a result stored in a `long` lies in the `long` range, is unchanged when it fits, and wraps by 2^64 just past the top; `Bytes.ToLongWraps` states the congruence |
| Bytes.ToInt | src/main/java/com/aikax28/scp/client/ScpClient.java:127 | the `(int)` cast lands in the `int` range and keeps values that fit; `Bytes.ToIntWraps` states the congruence |
| Bytes.ToLongWraps | src/main/java/com/aikax28/scp/client/ScpClient.java:104 | `long` arithmetic keeps the exact result modulo 2^64, and the stored value is the only `long` that does, however many times the fold overflows in either direction |
| Bytes.ToIntWraps | src/main/java/com/aikax28/scp/client/ScpClient.java:127 | the `(int)` cast keeps the low 32 bits: the value modulo 2^32, and it is the only `int` that does |
| Protocol.CheckAckOf | src/main/java/com/aikax28/scp/client/ScpClient.java:170-198 | a byte other than 1 or 2 is returned unchanged after consuming exactly that byte, and end of stream is -1 after consuming nothing; on 1 or 2, exactly the bytes up to and including the first `\n` are consumed and they are the message; with no `\n` left the loop never ends |
| Protocol.Fill | src/main/java/com/aikax28/scp/client/ScpClient.java:93 | `read(buf, 0, len)`: the first `len` buffer bytes are the next input bytes, the rest of the buffer is untouched |
| Protocol.SizeOf | src/main/java/com/aikax28/scp/client/ScpClient.java:104 | the size fold always yields a `long` |
| Protocol.SizeField | src/main/java/com/aikax28/scp/client/ScpClient.java:95-105 | the size is the fold of the bytes before the first space, which is consumed; without a space, all input is consumed |
| Protocol.AfterSize | src/main/java/com/aikax28/scp/client/ScpClient.java:97-104 | after the size loop only `buf[0]` can differ: it holds the last byte read, and it is untouched when the loop read nothing |
| Protocol.Window | src/main/java/com/aikax28/scp/client/ScpClient.java:108-110 | name position `i` holds input byte `i` while there is one, and the stale buffer byte after the stream ends |
| Protocol.NameOf | src/main/java/com/aikax28/scp/client/ScpClient.java:107-114 | the name is shorter than 1024 bytes and has no `\n`; the rest is a suffix of the input; overrun exactly when the 1024-byte window has no `\n` |
| Protocol.ParseHeader | src/main/java/com/aikax28/scp/client/ScpClient.java:92-114 | a parsed header has a `long` size, a name without `\n` under 1024 bytes, and leaves a suffix of the input |
| Protocol.ChunkLen | src/main/java/com/aikax28/scp/client/ScpClient.java:127 | for a non-negative size the chunk asked for is at most min(1024, size), and it is exactly that when the size is positive |
| Protocol.Payload | src/main/java/com/aikax28/scp/client/ScpClient.java:125-138 | the payload loop keeps a 1024-byte buffer and consumes input only; what it stores is stated by `Properties.PayloadExact` and `Properties.PayloadShort`, and how it ends on a negative size by `Properties.NegativeSizeEnds` |
| Protocol.Destination | src/main/java/com/aikax28/scp/client/ScpClient.java:48-51 | into a directory the path is `lfile`, a separator and the name; otherwise it is `lfile` itself |
| Protocol.Trailer | src/main/java/com/aikax28/scp/client/ScpClient.java:143-150 | a run that goes on after a trailer has consumed at least one byte and kept a 1024-byte buffer |
| Protocol.AfterPayload | src/main/java/com/aikax28/scp/client/ScpClient.java:129-145 | after the payload a run goes on only by consuming input; a bad chunk length or a stall ends it, otherwise the trailer decides |
| Protocol.BodyOf | src/main/java/com/aikax28/scp/client/ScpClient.java:117-150 | a file whose header is parsed lets the run go on only after consuming input |
| Protocol.ReceiveOf | src/main/java/com/aikax28/scp/client/ScpClient.java:92-150 | a file after its `C` lets the run go on only after consuming input |
| Protocol.StepOf | src/main/java/com/aikax28/scp/client/ScpClient.java:86-150 | every loop turn that does not end the run consumes input, so the loop ends on every input |
| Protocol.Transfer | src/main/java/com/aikax28/scp/client/ScpClient.java:86-151 | the rest of the loop, taken one turn at a time; it carries no `ensures`, and its properties are the `Properties` lemmas |
| Protocol.GetFileSpec | src/main/java/com/aikax28/scp/client/ScpClient.java:79-151 | a whole run on the given input and local files; it carries no `ensures`, and `ScpClient.GetFile` is proved equal to it |
| Protocol.Start | src/main/java/com/aikax28/scp/client/ScpClient.java:79-84 | the run starts with a 1024-byte buffer holding only zeros, one NUL sent, the local files as given and no file recorded |
| Streams.Input.Read | src/main/java/com/aikax28/scp/client/ScpClient.java:171 | `in.read()` returns the next byte and advances by one, or returns -1 at end of stream without moving |
| Streams.Input.ReadInto | src/main/java/com/aikax28/scp/client/ScpClient.java:128 | `in.read(buf, off, len)` returns 0 for `len == 0` and -1 at end of stream; otherwise it copies min(len, available) bytes to `buf[off..]` and leaves the remaining buffer bytes untouched |
| Streams.Input.ReadOne | src/main/java/com/aikax28/scp/client/ScpClient.java:109 | `in.read(buf, off, 1)` stores one byte at `off`, or nothing at end of stream |
| Streams.Output.Write | src/main/java/com/aikax28/scp/client/ScpClient.java:119 | `out.write(buf, off, len)` appends exactly `buf[off..off+len]` |
| Streams.LocalStore.Open | src/main/java/com/aikax28/scp/client/ScpClient.java:124 | `new FileOutputStream(p)` makes `p` an empty file and changes no other file |
| Streams.LocalStore.IsDirectory | src/main/java/com/aikax28/scp/client/ScpClient.java:49 | `new File(lfile).isDirectory()` holds exactly for the directories of the store |
| Streams.LocalStore.Append | src/main/java/com/aikax28/scp/client/ScpClient.java:133 | `fos.write(buf, 0, len)` appends the first `len` buffer bytes to the open file |
| ScpClient.CheckAck | src/main/java/com/aikax28/scp/client/ScpClient.java:170-198 | returns what `Protocol.CheckAckOf` says and advances the cursor by exactly the bytes it consumes |
| ScpClient.ReadSize | src/main/java/com/aikax28/scp/client/ScpClient.java:95-105 | the loop computes `Protocol.SizeField`, consumes exactly its bytes and leaves the last byte read in `buf[0]` |
| ScpClient.ReadNameByte | src/main/java/com/aikax28/scp/client/ScpClient.java:109-110 | one turn of the name loop either finds the `\n` that `Protocol.NameOf` ends at or keeps the loop's invariant |
| ScpClient.ReadName | src/main/java/com/aikax28/scp/client/ScpClient.java:107-114 | the loop finds a name exactly when `Protocol.NameOf` does, and then yields that name, the input after the `\n` and the buffer |
| ScpClient.ReadHeader | src/main/java/com/aikax28/scp/client/ScpClient.java:92-114 | the three header loops together compute `Protocol.ParseHeader` |
| ScpClient.CopyChunk | src/main/java/com/aikax28/scp/client/ScpClient.java:128-133 | one chunk: -1 exactly when bytes are wanted and none are left; otherwise the min(want, available) next bytes go to the buffer front and to the end of the local file |
| ScpClient.ReceivePayload | src/main/java/com/aikax28/scp/client/ScpClient.java:125-138 | the payload loop ends as `Protocol.Payload` says. It leaves that function's input, buffer and file contents; only `dest` changes among the local files |
| ScpClient.FinishFile | src/main/java/com/aikax28/scp/client/ScpClient.java:143-150 | the trailing status and acknowledgment as `Protocol.Trailer` says |
| ScpClient.ReceiveBody | src/main/java/com/aikax28/scp/client/ScpClient.java:117-150 | header ack, file creation, payload and trailer as `Protocol.BodyOf` says |
| ScpClient.ReceiveFile | src/main/java/com/aikax28/scp/client/ScpClient.java:92-150 | one file after its `C`, as `Protocol.ReceiveOf` says |
| ScpClient.Turn | src/main/java/com/aikax28/scp/client/ScpClient.java:86-150 | one turn of the outer loop, as `Protocol.StepOf` says |
| ScpClient.GetFile | src/main/java/com/aikax28/scp/client/ScpClient.java:79-151 | the outcome, the bytes sent and the local files are exactly those of `Protocol.GetFileSpec` on the input and the local files before the call |
| Properties.CheckAckErrorLine | src/main/java/com/aikax28/scp/client/ScpClient.java:183-195 | status 1 or 2 and a line: exactly the status and the line are consumed, and the message is the line including its `\n` |
| Properties.CheckAckErrorCut | src/main/java/com/aikax28/scp/client/ScpClient.java:186-189 | status 1 or 2 with no `\n` before end of stream: the message loop never ends |
| Properties.SizeOfDecimal | src/main/java/com/aikax28/scp/client/ScpClient.java:104 | the size fold reads a decimal numeral back as its value, for every value a `long` can hold |
| Properties.ParseHeaderLine | src/main/java/com/aikax28/scp/client/ScpClient.java:92-114 | the header line of a well-formed file parses back to its size and name, whatever the buffer holds, and stops right after the `\n` |
| Properties.PayloadExact | src/main/java/com/aikax28/scp/client/ScpClient.java:125-138 | with at least `size` bytes available, exactly the next `size` bytes are stored and nothing more is consumed; space and `\n` bytes are copied like any other |
| Properties.PayloadShort | src/main/java/com/aikax28/scp/client/ScpClient.java:125-138 | with fewer than `size` bytes available, all of them are stored and the loop stops at end of stream |
| Properties.NegativeSizeFaults | src/main/java/com/aikax28/scp/client/ScpClient.java:127-128 | a negative size within the `int` range asks for a negative chunk length, so `read` throws |
| Properties.NegativeSizeEnds | src/main/java/com/aikax28/scp/client/ScpClient.java:126-137 | for any negative `long` size, a cast chunk length below 0 or over 1024 throws, and a cast of 0 spins forever; neither reads or writes a byte |
| Properties.WideNegativeSizes | src/main/java/com/aikax28/scp/client/ScpClient.java:127-128 | the size -2^31 - 1 casts to `INT_MAX` and throws, the size -2^32 casts to 0 and spins |
| Properties.StepRecord | src/main/java/com/aikax28/scp/client/ScpClient.java:86-150 | one well-formed record: two acknowledgments, the payload stored at its destination, the destination recorded, and input consumed up to the end of the record |
| Properties.TransferStream | src/main/java/com/aikax28/scp/client/ScpClient.java:86-151 | a stream of well-formed records followed by an ending byte is received completely: every destination in order, two NULs per file, and every file stored |
| Properties.GetFileStream | src/main/java/com/aikax28/scp/client/ScpClient.java:79-151 | `getFile` on `N` well-formed files returns their `N` destinations in header order, sends exactly `2N + 1` NULs and stores every file |
| Properties.EmptyFileRecorded | src/main/java/com/aikax28/scp/client/ScpClient.java:123-141 | a file of size 0 is still created empty and recorded |
| Properties.GetFileOverwrites | src/main/java/com/aikax28/scp/client/ScpClient.java:122-124 | a run of `N` well-formed files into a non-directory `lfile` completes, lists `lfile` `N` times, and leaves only the last file's contents there |
| Properties.StoredLast | src/main/java/com/aikax28/scp/client/ScpClient.java:123-124 | when `lfile` is not a directory every file goes to `lfile`, and only the last file's contents remain |
| Properties.EndsRun | src/main/java/com/aikax28/scp/client/ScpClient.java:86-90 | at a header position, end of stream or any byte other than `C`, 1 or 2 ends the run normally: nothing more is sent and nothing more is stored |
| Properties.RemoteErrorAtHeader | src/main/java/com/aikax28/scp/client/ScpClient.java:183-195 | status 1 or 2 and a line at a header position abort the run with that line, and nothing more is sent or stored |
| Properties.TrailerNoAck | src/main/java/com/aikax28/scp/client/ScpClient.java:143-145 | a complete file with a trailing status other than 0, 1 or 2 fails with "no ack", after the file is stored and the header acknowledged |
| Properties.TrailerRemote | src/main/java/com/aikax28/scp/client/ScpClient.java:143-145 | a complete file with trailing status 1 or 2 and a line fails with that line, `\n` included, after the file is stored and the header acknowledged |
| Properties.TrailerEndOfStream | src/main/java/com/aikax28/scp/client/ScpClient.java:143-145 | a complete file followed by the end of the stream fails with "no ack", after the file is stored and the header acknowledged |
| Properties.ShortPayloadNoAck | src/main/java/com/aikax28/scp/client/ScpClient.java:126-145 | a payload cut short by end of stream stores the bytes that arrived, then fails with "no ack" |
| Properties.LongNameOverruns | src/main/java/com/aikax28/scp/client/ScpClient.java:108-110 | whatever the size bytes, a name with no `\n` in its first 1024 bytes runs the name loop past the buffer, and nothing is acknowledged or stored |
| Properties.StepShape | src/main/java/com/aikax28/scp/client/ScpClient.java:86-150 | every loop turn either ends the run, having sent at most the header ack and removed no file, or receives a file: two NULs sent and one destination recorded under `lfile` that now exists |
| Properties.RunAcks | src/main/java/com/aikax28/scp/client/ScpClient.java:82-150 | whatever the input, a run sends only NUL bytes, and a normal end has sent exactly two per listed file |
| Properties.RunPaths | src/main/java/com/aikax28/scp/client/ScpClient.java:123-141 | whatever the input, no local file disappears, and every listed destination lies under `lfile` and exists |
| Properties.GetFileCompleted | src/main/java/com/aikax28/scp/client/ScpClient.java:79-151 | whatever the input, a normal end with `N` destinations has sent exactly `2N + 1` NULs, and each destination lies under `lfile` and exists |

## Left out

- JSch session and channel setup, the host key configuration, the Base64 identity and
  `connect`/`disconnect` are not modelled. They are library calls and network I/O; the
  channel's two streams are the parameters `src` and `out`.
- The `catch` and `finally` blocks, `IOUtils.closeQuietly` and the wrapping of exceptions
  into `RuntimeException` are not modelled. Every exception the loop can raise is a
  `Protocol.Failure` value instead.
- `ScpConnectionInfo` is not modelled: it holds data and no logic.
- What `out.flush()` and `fos.close()` do is not modelled. Written bytes are visible
  at once.
- `File.isDirectory` is not modelled; it is the directory set of `Streams.LocalStore`.
- Local I/O errors are not modelled: opening or writing a local file always succeeds.
- Names are raw bytes: the charset decoding of `new String(buf, 0, i)` is not modelled.
- `File.separator` is fixed to `/`.
- `Protocol.Destination`: the path normalisation of `java.io.File` is not modelled. `new File(...)` drops duplicate and trailing separators, so with a directory `lfile` of `/tmp/out/` and a name `x`, Java writes and returns `/tmp/out/x` while the model writes and lists `/tmp/out//x`.
- `Streams.LocalStore`: path aliasing is not modelled. Two paths that name the same file, such as `a//b` and `a/b`, or a symbolic link and its target, are distinct keys of the map.
- `Streams.Input.ReadInto`: a read that returns fewer bytes than are available is not
  modelled; each read returns min(len, available). A short read of the mode bytes is
  therefore not distinguished from one at end of stream.
- `Protocol.CheckAckOf`: the `char` values of the message are not modelled; the message is
  raw bytes. At end of stream the loop appends `(char) -1` forever, and the model reports
  this as `Hang`, not as running out of memory.
- `Protocol.Payload`: its own `ensures` states only the lengths of the buffer and the
  input. What it stores is stated by `Properties.PayloadExact` and `Properties.PayloadShort`,
  and `ScpClient.ReceivePayload` is proved against it.
- `Protocol.Transfer` and `Protocol.GetFileSpec` carry no `ensures`. They are the reference
  for `ScpClient.GetFile`, and their properties are the `Properties` lemmas.
- `Properties.NegativeSizeFaults` covers only negative sizes within the `int` range. Smaller
  sizes depend on the low 32 bits of the size. `Properties.NegativeSizeEnds` covers every cast
  outside 1..1024. A cast inside that range makes the loop read a chunk and go on with the
  rest of the size, which no lemma follows further.
