/** The video service's per-connection handler (video-service/src/main.rs):
    `get_request_details`, `handle_request`, `upload_file`, `send_file` and
    `send_cmd`, with the socket and the file system made abstract.

    - The inbound half of the connection is the finite sequence of items the
      stream yields before it ends; each item is a frame of bytes or a
      decoding error.
    - The outbound half is the sequence of frames sent so far; sending is
      appending one frame.
    - The `./tmp` directory is a map from file name to content, plus the
      names under it that resolve to directories (`./tmp/` itself for the
      empty name, `.` and `..`).
 */
module Handler {
  import opened Wire
  import opened Protocol

  /** One item of the inbound stream. */
  datatype Item = Frame(bytes: Bytes) | DecodeError

  /** The `./tmp` directory. */
  datatype Tmp = Tmp(files: map<Bytes, Bytes>, dirs: set<Bytes>)

  /** How the connection task ends: by returning (the connection closes),
      or by a panic (`unwrap` of an error, `unimplemented!()`), which tears
      the connection down with nothing further sent. */
  datatype Ending = Closed | Aborted

  /** Size of the reusable read buffer of `send_file`: 2^23 bytes. */
  const LEN: nat := 8388608

  const OK_REPLY := Ascii("OK ")
  const ERROR_PREFIX := Ascii("ERROR ")
  const FILE_EXISTS := Ascii("file already exists")
  const FILE_MISSING := Ascii("file does not exist")

  /** `Path::new("./tmp/<name>").exists()`: a file or a directory. In a
      real `./tmp` the empty name, `.` and `..` always exist, and an existing
      name is exactly one of a file and a directory. */
  predicate Exists(tmp: Tmp, name: Bytes): (e: bool)
    ensures WellFormed(tmp) && name in {[], Ascii("."), Ascii("..")} ==> e && name !in tmp.files
    ensures WellFormed(tmp) && e ==> (name in tmp.files <==> name !in tmp.dirs)
  {
    name in tmp.files || name in tmp.dirs
  }

  /** A real `./tmp`: no name is both a file and a directory, and the names
      that always denote directories do. */
  predicate WellFormed(tmp: Tmp)
  {
    tmp.files.Keys !! tmp.dirs && {[], Ascii("."), Ascii("..")} <= tmp.dirs
  }

  /** `[b"ERROR ", e.as_bytes()].concat()`: the prefix, then the message
      unchanged; never mistaken for `OK `. */
  function ErrorReply(message: Bytes): (reply: Bytes)
    ensures |reply| == |ERROR_PREFIX| + |message| && reply[|ERROR_PREFIX|..] == message
    ensures reply[..|ERROR_PREFIX|] == ERROR_PREFIX && IsReply(reply)
    ensures reply != OK_REPLY
  {
    ERROR_PREFIX + message
  }

  /** The acknowledgment frames the handler sends: `OK ` or `ERROR <message>`. */
  predicate IsReply(frame: Bytes)
  {
    frame == OK_REPLY || (|frame| >= |ERROR_PREFIX| && frame[..|ERROR_PREFIX|] == ERROR_PREFIX)
  }

  /** The bytes of the frames among `items`, in order; decoding errors
      contribute nothing. */
  function Frames(items: seq<Item>): (frames: seq<Bytes>)
    ensures (forall i | 0 <= i < |items| :: items[i].Frame?) ==>
      frames == seq(|items|, i requires 0 <= i < |items| => items[i].bytes)
  {
    if items == [] then []
    else (if items[0].Frame? then [items[0].bytes] else []) + Frames(items[1..])
  }

  lemma {:induction false} FramesAppend(a: seq<Item>, b: seq<Item>)
    ensures Frames(a + b) == Frames(a) + Frames(b)
  {
    if a == [] {
      assert a + b == b;
    } else {
      var first := if a[0].Frame? then [a[0].bytes] else [];
      assert (a + b)[0] == a[0] && (a + b)[1..] == a[1..] + b;
      assert Frames(a + b) == first + Frames(a[1..] + b);
      FramesAppend(a[1..], b);
      assert Frames(a) == first + Frames(a[1..]);
    }
  }

  /** A decoding error anywhere in the stream neither adds bytes nor
      stops what follows it from being received. */
  lemma FramesSkipError(a: seq<Item>, b: seq<Item>)
    ensures Frames(a + [DecodeError] + b) == Frames(a + b)
  {
    FramesAppend(a + [DecodeError], b);
    FramesAppend(a, [DecodeError]);
    FramesAppend(a, b);
  }

  /** The bytes an upload stores: the concatenation of the frames received
      after the request line. */
  function Payload(items: seq<Item>): (r: Bytes)
    ensures items != [] && items[0].Frame? ==> r == items[0].bytes + Flatten(Frames(items[1..]))
    ensures items != [] && items[0].DecodeError? ==> r == Flatten(Frames(items[1..]))
  {
    FramesUnfold(items);
    Flatten(Frames(items))
  }

  /** The first item's share of the frames, then the frames of the rest. */
  lemma FramesUnfold(items: seq<Item>)
    ensures items != [] ==>
      Flatten(Frames(items)) == (if items[0].Frame? then items[0].bytes else []) + Flatten(Frames(items[1..]))
  {
    if items != [] && items[0].Frame? {
      var first := [items[0].bytes];
      assert Frames(items) == first + Frames(items[1..]);
      FlattenAppend(first, Frames(items[1..]));
      assert first[1..] == [];
    } else if items != [] {
      assert Frames(items) == [] + Frames(items[1..]);
      assert [] + Frames(items[1..]) == Frames(items[1..]);
    }
  }

  lemma PayloadAppend(a: seq<Item>, b: seq<Item>)
    ensures Payload(a + b) == Payload(a) + Payload(b)
  {
    FramesAppend(a, b);
    FlattenAppend(Frames(a), Frames(b));
  }

  lemma PayloadOne(item: Item)
    ensures Payload([item]) == if item.Frame? then item.bytes else []
  {
  }

  /** `get_request_details`: the first item of the stream is the request
      line; a decoding error or an immediately ended stream reads as an
      empty line, not as a close. The rest of the stream is what follows. */
  function RequestDetails(inbound: seq<Item>): (r: (Bytes, seq<Item>))
    ensures inbound == [] ==> r == ([], [])
    ensures inbound != [] ==> r.1 == inbound[1..]
    ensures inbound != [] && inbound[0].Frame? ==> r.0 == inbound[0].bytes
    ensures inbound != [] && inbound[0].DecodeError? ==> r.0 == []
  {
    if inbound == [] then ([], [])
    else match inbound[0]
      case Frame(bytes) => (bytes, inbound[1..])
      case DecodeError => ([], inbound[1..])
  }

  /** `send_cmd`: send one frame, leaving the frames sent before it as
      they were. */
  function SendCmd(cmd: Bytes, ws: seq<Bytes>): (ws': seq<Bytes>)
    ensures |ws'| == |ws| + 1 && ws'[..|ws|] == ws && ws'[|ws|] == cmd
  {
    ws + [cmd]
  }

  /** What an upload of `name` does, the inbound stream after the request
      line being `rs`: if `./tmp/<name>` exists, the one frame sent is
      `ERROR file already exists` and nothing is stored; otherwise the one
      frame sent is `OK ` and the file holds the stream's payload. */
  predicate Uploaded(name: Bytes, rs: seq<Item>, tmp: Tmp, ws: seq<Bytes>, ws': seq<Bytes>, tmp': Tmp)
  {
    && (Exists(tmp, name) ==> ws' == ws + [ErrorReply(FILE_EXISTS)] && tmp' == tmp)
    && (!Exists(tmp, name) ==>
          ws' == ws + [OK_REPLY] && tmp' == Tmp(tmp.files[name := Payload(rs)], tmp.dirs))
  }

  /** `upload_file`. If `./tmp/<name>` exists, the only frame sent is
      `ERROR file already exists` and nothing is stored. Otherwise `OK ` is
      sent, the file is created empty, and every frame that arrives is
      appended to it until the stream ends. */
  method UploadFile(name: Bytes, rs: seq<Item>, ws: seq<Bytes>, tmp: Tmp)
    returns (ws': seq<Bytes>, tmp': Tmp)
    ensures Uploaded(name, rs, tmp, ws, ws', tmp')
  {
    if Exists(tmp, name) {
      ws' := SendCmd(ErrorReply(FILE_EXISTS), ws);
      tmp' := tmp;
      return;
    }
    ws' := SendCmd(OK_REPLY, ws);
    // File::create: the file `f` exists, empty, from here on
    var f: Bytes := [];
    tmp' := Tmp(tmp.files[name := f], tmp.dirs);
    var i := 0;
    while i < |rs|
      invariant i <= |rs|
      invariant f == Payload(rs[..i])
      invariant tmp' == Tmp(tmp.files[name := f], tmp.dirs)
    {
      match rs[i] {
        case Frame(bytes) =>
          f := f + bytes;
          tmp' := Tmp(tmp.files[name := f], tmp.dirs);
        case DecodeError =>
      }
      assert rs[..i + 1] == rs[..i] + [rs[i]];
      PayloadAppend(rs[..i], [rs[i]]);
      PayloadOne(rs[i]);
      i := i + 1;
    }
    assert rs[..i] == rs;
  }

  /** The frames after the reply: none empty, none longer than the read
      buffer. */
  predicate Chunks(frames: seq<Bytes>)
  {
    forall i | 0 <= i < |frames| :: 0 < |frames[i]| <= LEN
  }

  /** What a download of `name` does: if `./tmp/<name>` does not exist,
      the one frame sent is `ERROR file does not exist`; if it is a
      directory, `OK ` is sent and the connection task aborts; if it is a file, `OK ` is
      followed by chunks whose concatenation is the file. */
  predicate Served(name: Bytes, tmp: Tmp, ws: seq<Bytes>, ws': seq<Bytes>, ending: Ending)
  {
    && (!Exists(tmp, name) ==> ws' == ws + [ErrorReply(FILE_MISSING)] && ending == Closed)
    && (name !in tmp.files && name in tmp.dirs ==> ws' == ws + [OK_REPLY] && ending == Aborted)
    && (name in tmp.files ==>
          |ws'| > |ws| && ws'[..|ws| + 1] == ws + [OK_REPLY] && ending == Closed &&
          Chunks(ws'[|ws| + 1..]) && Flatten(ws'[|ws| + 1..]) == tmp.files[name])
  }

  /** `send_file`. If `./tmp/<name>` does not exist, the only frame sent is
      `ERROR file does not exist`. Otherwise `OK ` is sent and the file is
      read into the reusable buffer, each read returning some number of
      bytes between 1 and the buffer's size until it returns 0 at the end of
      the file; each non-empty read is sent as one frame and no frame marks
      the end. A name that is a directory opens, but its first read fails,
      and the error aborts the connection task after `OK `. */
  method SendFile(name: Bytes, ws: seq<Bytes>, tmp: Tmp)
    returns (ws': seq<Bytes>, ending: Ending)
    ensures Served(name, tmp, ws, ws', ending)
  {
    if !Exists(tmp, name) {
      ws' := SendCmd(ErrorReply(FILE_MISSING), ws);
      ending := Closed;
      return;
    }
    ws' := SendCmd(OK_REPLY, ws);
    if name !in tmp.files {
      ending := Aborted;
      return;
    }
    var content := tmp.files[name];
    var buf := new byte[LEN];
    var pos := 0;
    while true
      invariant pos <= |content|
      invariant |ws'| > |ws| && ws'[..|ws| + 1] == ws + [OK_REPLY]
      invariant Chunks(ws'[|ws| + 1..])
      invariant Flatten(ws'[|ws| + 1..]) == content[..pos]
      decreases |content| - pos
    {
      // f.read(&mut buf): some bytes of what is left, at most a buffer full,
      // and none only at the end of the file
      var n: nat :| n <= LEN && pos + n <= |content| && (n == 0 <==> pos == |content|);
      if n == 0 {
        assert content[..pos] == content;
        ending := Closed;
        return;
      }
      forall k | 0 <= k < n {
        buf[k] := content[pos + k];
      }
      assert buf[..n] == content[pos..pos + n];
      ghost var before := ws';
      ws' := ws' + [buf[..n]];
      assert ws'[|ws| + 1..] == before[|ws| + 1..] + [buf[..n]];
      FlattenAppend(before[|ws| + 1..], [buf[..n]]);
      assert content[..pos + n] == content[..pos] + content[pos..pos + n];
      pos := pos + n;
    }
  }

  /** `handle_request`: read the request line, reply, then serve the
      request. A line that is not UTF-8 aborts before anything is sent
      (`from_utf8(..).unwrap()`); a line that does not parse is answered
      with `ERROR <message>` and then aborts, as the request is still
      `Request::None` (`unimplemented!()`). */
  method HandleRequest(inbound: seq<Item>, tmp: Tmp)
    returns (ws: seq<Bytes>, tmp': Tmp, ending: Ending)
    ensures !ValidUtf8(RequestDetails(inbound).0) ==>
      ws == [] && tmp' == tmp && ending == Aborted
    ensures ValidUtf8(RequestDetails(inbound).0) ==>
      match Parse(RequestDetails(inbound).0)
      case Err(message) => ws == [ErrorReply(message)] && tmp' == tmp && ending == Aborted
      case Ok(Upload(name)) =>
        Uploaded(name, RequestDetails(inbound).1, tmp, [], ws, tmp') && ending == Closed
      case Ok(Get(name)) => Served(name, tmp, [], ws, ending) && tmp' == tmp
      case Ok(None) => false
    ensures ws != [] ==> IsReply(ws[0])
    ensures ws != [] && ws[0] != OK_REPLY ==> |ws| == 1
    ensures WellFormed(tmp) ==> WellFormed(tmp')
  {
    var (requestDetails, rs) := RequestDetails(inbound);
    if !ValidUtf8(requestDetails) {
      return [], tmp, Aborted;
    }
    var requestLine := requestDetails;
    ws := [];
    var request := Request.None;
    match Parse(requestLine) {
      case Ok(req) => request := req;
      case Err(e) => ws := SendCmd(ErrorReply(e), ws);
    }
    match request {
      case Upload(filename) =>
        ws, tmp' := UploadFile(filename, rs, ws, tmp);
        ending := Closed;
      case Get(filename) =>
        ws, ending := SendFile(filename, ws, tmp);
        tmp' := tmp;
      case None =>
        tmp' := tmp;
        ending := Aborted;
    }
  }

  /** Reading the first frame fails or finds the stream already ended: the
      line is empty, so the reply is `ERROR unknown command: ` followed by
      the abort of `Request::None`. */
  lemma EmptyRequestRejected(inbound: seq<Item>)
    requires inbound == [] || inbound[0].DecodeError?
    ensures var line := RequestDetails(inbound).0;
      ValidUtf8(line) && Parse(line) == Err(UNKNOWN_COMMAND)
  {
  }

  /** A client that sends `UPLOAD <name>` as its first frame, with a UTF-8
      name, has its request accepted as an upload of that name, and the
      frames it sends afterwards are the upload's payload. */
  lemma UploadLineAccepted(name: Bytes, rest: seq<Item>)
    requires ValidUtf8(name)
    ensures var (line, rs) := RequestDetails([Frame(Format(Upload(name)))] + rest);
      ValidUtf8(line) && Parse(line) == Ok(Upload(name)) && rs == rest
  {
    var line := Format(Upload(name));
    AsciiIsValidUtf8(UPLOAD + [SP]);
    ValidUtf8Append(UPLOAD + [SP], name);
    ParseFormat(Upload(name));
    assert ([Frame(line)] + rest)[1..] == rest;
  }

  /** The same for `GET <name>`. */
  lemma GetLineAccepted(name: Bytes, rest: seq<Item>)
    requires ValidUtf8(name)
    ensures var (line, rs) := RequestDetails([Frame(Format(Get(name)))] + rest);
      ValidUtf8(line) && Parse(line) == Ok(Get(name)) && rs == rest
  {
    var line := Format(Get(name));
    AsciiIsValidUtf8(GET + [SP]);
    ValidUtf8Append(GET + [SP], name);
    ParseFormat(Get(name));
    assert ([Frame(line)] + rest)[1..] == rest;
  }

  /** An upload with no frames after the request line stores an empty
      file. */
  lemma EmptyUploadStoresEmptyFile(rs: seq<Item>)
    requires forall i | 0 <= i < |rs| :: rs[i].DecodeError?
    ensures Payload(rs) == []
  {
    if rs != [] {
      assert rs == [rs[0]] + rs[1..];
      PayloadAppend([rs[0]], rs[1..]);
      EmptyUploadStoresEmptyFile(rs[1..]);
    }
  }
}
