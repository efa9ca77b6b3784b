# Video service protocol: a Dafny model

This project models the two sequential pieces of the video-service
repository that carry its behaviour:

- **The video service's connection handler** (`video-service/src/main.rs`).
  It reads the first frame of a connection as a request line
  (`UPLOAD <name>` or `GET <name>`), parses it, and replies with one frame,
  `OK ` or `ERROR <message>`. An upload then appends every later frame to
  `./tmp/<name>` until the peer closes. A download then sends
  `./tmp/<name>` in chunks of at most 8388608 bytes.
- **The web service's `VideoClient`** (`web-service/src/lib.rs`). It
  accumulates outbound bytes and writes the whole buffer once it holds at
  least 8388608 bytes. `flush` writes whatever is left.

Files:

- `wire.dfy` (module `Wire`): bytes, frame concatenation and UTF-8
  well-formedness.
- `request.dfy` (module `Protocol`): `Request` and `Request::parse`.
- `handler.dfy` (module `Handler`): `get_request_details`, `send_cmd`,
  `upload_file`, `send_file` and `handle_request`.
- `video_client.dfy` (module `Client`): the `VideoClient` class.

How the environment is abstracted:

- Text is modelled as its UTF-8 bytes. The request line is the first
  frame's bytes, and the error replies are `"ERROR " + message` as bytes.
  Splitting at the first space byte is the same as Rust's
  `splitn(2, " ")`, because byte 0x20 never occurs inside a multi-byte
  character. `std::str::from_utf8(..).unwrap()` becomes the `ValidUtf8`
  check. A first frame that fails it aborts the connection task before
  anything is sent.
- The inbound stream is the finite sequence of items it yields before it
  ends. Each item is a frame or a decoding error. The outbound half is the
  sequence of frames sent so far.
- `./tmp` is a map from file name to content, together with the set of
  names that resolve to directories. The empty name (`./tmp/` itself), `.`
  and `..` are directories, so `exists()` is true for them. `UPLOAD ` with
  an empty name is therefore refused as "file already exists". `GET` of a
  directory replies `OK `, but its first read fails, and that aborts the
  connection task.
- Each read in `send_file` returns some `n` with `0 < n <= 8388608` until
  it returns 0 at the end of the file. The model chooses `n`
  nondeterministically.
- A panic (`unwrap` of an error, `unimplemented!()`) ends the connection task with
  the ending `Aborted`. Nothing further is sent after it.
- The client's TCP stream is abstract. Ghost field `wire` records what
  each `write_all` put on the connection. A write may fail; a failed
  write may have put any prefix of its data on the wire, and it clears the
  ghost flag `intact`.

Behaviours of the code worth knowing, which the model follows as
written:

- Both UPLOAD and GET use `./tmp/<name>`. The `./dist` directory is
  created but never used.
- There is no transcode queue and no worker. Compression is commented out.
- A read error or end of stream on the first frame is not a silent close.
  It is read as an empty request line. That line is answered with
  `ERROR unknown command: ` and then the connection task aborts.
- The parser's `"empty input"` error can never be produced. `splitn`
  always yields a first piece, so the empty line is an unknown command.
- After a parse error the handler sends `ERROR <message>` and then reaches
  `unimplemented!()`. It does not close cleanly.

## Model

| member | source | states |
|---|---|---|
| `Protocol.SplitOnce` | video-service/src/main.rs:23-26 | the head before the first space has no space; with no space it is the whole input; otherwise input = head + space + tail |
| `Protocol.Parse` | video-service/src/main.rs:22-46 | parsing never yields `Request::None` |
| `Protocol.SplitOnceAt` | video-service/src/main.rs:23 | a head without a space, a space, and any tail split exactly into that head and tail |
| `Protocol.ParseFormat` | video-service/src/main.rs:23-41 | `UPLOAD x` parses to `Upload{x}` and `GET x` to `Get{x}` for every `x`, including empty names and names with spaces |
| `Protocol.ParseOkIsFormat` | video-service/src/main.rs:23-41 | conversely, a line that parses is exactly the verb, one space and the filename |
| `Protocol.ParseBareVerb` | video-service/src/main.rs:25-38 | a bare `UPLOAD` or `GET` fails with "UPLOAD must be followed by a filename" or "GET must be followed by a filename" |
| `Protocol.ParseUnknown` | video-service/src/main.rs:43 | the line fails with "unknown command: " + first token exactly when that token is neither verb (exact, case-sensitive comparison) |
| `Protocol.ParseEmpty` | video-service/src/main.rs:23-44 | the empty line fails as an unknown command with an empty token |
| `Protocol.ParseNeverEmptyInput` | video-service/src/main.rs:44 | the "empty input" error is never produced |
| `Wire.ValidUtf8` | video-service/src/main.rs:90 | well-formed UTF-8 as `from_utf8` checks it never holds the bytes 0xC0, 0xC1 or 0xF5 to 0xFF |
| `Wire.ValidUtf8Append` | video-service/src/main.rs:90 | joining two well-formed UTF-8 texts gives well-formed UTF-8, the check `from_utf8` makes |
| `Handler.RequestDetails` | video-service/src/main.rs:118-133 | the request line is the first frame; a decoding error or an ended stream gives an empty line; the rest of the stream follows |
| `Handler.EmptyRequestRejected` | video-service/src/main.rs:119-131 | a first-frame error or an immediate end of stream yields a valid, empty line that parses to "unknown command: " |
| `Handler.UploadLineAccepted` | video-service/src/main.rs:89-97 | a first frame `UPLOAD <utf-8 name>` passes the UTF-8 check and parses to that upload, and the rest of the stream is its payload |
| `Handler.GetLineAccepted` | video-service/src/main.rs:89-97 | the same for `GET <utf-8 name>` |
| `Handler.Exists` | video-service/src/main.rs:141 | the check made by upload (line 141) and download (line 182); in a real `./tmp` the empty name, `.` and `..` exist and are not files, and an existing name is exactly one of a file and a directory |
| `Handler.ErrorReply` | video-service/src/main.rs:100 | an error reply is `ERROR ` followed by the message unchanged, and is never `OK ` |
| `Handler.Frames` | video-service/src/main.rs:155-161 | with no decoding errors, the frames received are all the items' bytes, in order |
| `Handler.Payload` | video-service/src/main.rs:155-162 | the stored bytes are the first item's bytes, when it is a frame, followed by the concatenated frames of the rest; a leading decoding error adds nothing |
| `Handler.SendCmd` | video-service/src/main.rs:212-217 | exactly one frame, the command, is added after the frames already sent |
| `Handler.FramesAppend` | video-service/src/main.rs:155-162 | the frames of a joined stream are the frames of each part, in order |
| `Handler.FramesSkipError` | video-service/src/main.rs:155-161 | a decoding error adds no bytes and does not stop the frames after it |
| `Handler.PayloadAppend` | video-service/src/main.rs:155-162 | the payload of a joined stream is the two payloads concatenated |
| `Handler.EmptyUploadStoresEmptyFile` | video-service/src/main.rs:151-162 | a stream with no frames after the request line stores an empty file |
| `Handler.UploadFile` | video-service/src/main.rs:135-175 | an existing name gets only `ERROR file already exists` with `./tmp` unchanged; otherwise only `OK ` is sent and the file is the in-order concatenation of all later frames, other entries unchanged |
| `Handler.SendFile` | video-service/src/main.rs:177-210 | a missing name gets only `ERROR file does not exist`; a directory gets `OK ` then an abort; a file gets `OK ` then non-empty frames of at most 8388608 bytes whose concatenation is the file, with no terminator |
| `Handler.HandleRequest` | video-service/src/main.rs:88-115 | non-UTF-8 line: nothing sent, abort; parse error: exactly `ERROR <message>`, abort; otherwise as upload or download; the first frame is always a reply, an error reply is the only frame, and a well-formed `./tmp` stays well-formed |
| `Client.VideoClient.constructor` | web-service/src/lib.rs:21-25 | a fresh client has an empty buffer and has written nothing |
| `Client.VideoClient.WriteAll` | web-service/src/lib.rs:35 | a successful `write_all` puts all its data on the wire as one write; a failed one puts at most a prefix there |
| `Client.VideoClient.Send` | web-service/src/lib.rs:28-39 | appends to the buffer; writes only when the buffer reaches 8388608 bytes, then the whole buffer as one write and clears it; a failed write leaves the buffer uncleared; a successful send leaves the buffer below 8388608; conservation is kept |
| `Client.VideoClient.Flush` | web-service/src/lib.rs:42-46 | writes the whole buffer, even when empty, and clears it; a failed write leaves it; after a successful flush of an intact client the written bytes equal all sent bytes in call order |

## Left out

- `main` (video-service/src/main.rs:50-85): the TCP listener, one task per connection, and directory creation. These are I/O and concurrency. The race between the existence check and the file creation of two concurrent uploads belongs here too.
- Tokio's `BytesCodec` framing internals. The stream is taken as the sequence of items it yields.
- Server-side write failures: a failed `ws.send` panics in `send_cmd` or returns an error through `?`. The model assumes the service's sends succeed.
- File system failures other than reading a directory. A failed `File::create`, `File::open`, `write_all` or `read` on a regular file is assumed not to happen. Examples are a missing parent directory in a name like `a/b`, permissions, or a full disk. Names are flat keys, so separators and `..` inside a longer name are not interpreted.
- Handler.UploadFile: the order of `OK ` and the file's creation is in the code but not in the contract, which speaks only of the final frames and directory.
- The transcode queue and worker: no such code exists in the modelled files.
- video-service/src/compression.rs: thin wrappers over foreign compressors, whose callers are commented out.
- `VideoClient::new`'s TCP connect and the commented-out `connect` (web-service/src/lib.rs:68-90). The constructor models the client after a successful connect.
- web-service/src/api.rs, web-service/src/main.rs, web-service/src/models.rs and web-service/src/db.rs: HTTP handlers, templates, server wiring, database access and random file names. These are foreign libraries, I/O and randomness. api.rs calls client methods that `lib.rs` does not define.
- Logging (`println!`) has no effect on the protocol and is not modelled.
