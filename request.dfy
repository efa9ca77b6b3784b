/** The video service's command line: `Request` and `Request::parse`
    (video-service/src/main.rs). A request line is UTF-8 text of the form
    `VERB ARG`; it is handled here as its bytes, which is exact because the
    space byte 0x20 never occurs inside a multi-byte UTF-8 character.
 */
module Protocol {
  import opened Wire

  /** The requests a client can send. `None` is the placeholder the
      handler starts from before parsing; `Parse` never returns it. */
  datatype Request = Upload(filename: Bytes) | Get(filename: Bytes) | None

  datatype Result<+T> = Ok(value: T) | Err(message: Bytes)

  /** The result of `splitn(2, " ")`: the text before the first space, and
      the text after it when there is a space at all. */
  datatype Split = Split(head: Bytes, tail: Option<Bytes>)

  const UPLOAD := Ascii("UPLOAD")
  const GET := Ascii("GET")

  const UPLOAD_NEEDS_FILENAME := Ascii("UPLOAD must be followed by a filename")
  const GET_NEEDS_FILENAME := Ascii("GET must be followed by a filename")
  const UNKNOWN_COMMAND := Ascii("unknown command: ")
  const EMPTY_INPUT := Ascii("empty input")

  /** Split at the first space. The head never contains a space; without a
      space the head is the whole input, with one the input is the head, the
      space and the tail. */
  function SplitOnce(s: Bytes): (r: Split)
    ensures SP !in r.head
    ensures r.tail.None? ==> r.head == s
    ensures r.tail.Some? ==> s == r.head + [SP] + r.tail.value
  {
    if s == [] then Split([], Option.None)
    else if s[0] == SP then Split([], Some(s[1..]))
    else
      var rest := SplitOnce(s[1..]);
      Split([s[0]] + rest.head, rest.tail)
  }

  /** The first piece always exists, so the empty input splits into one
      empty piece. */
  function Parse(input: Bytes): (r: Result<Request>)
    ensures r.Ok? ==> !r.value.None?
  {
    var parts := SplitOnce(input);
    if parts.head == UPLOAD then
      match parts.tail
      case Some(key) => Ok(Upload(key))
      case None => Err(UPLOAD_NEEDS_FILENAME)
    else if parts.head == GET then
      match parts.tail
      case Some(key) => Ok(Get(key))
      case None => Err(GET_NEEDS_FILENAME)
    else
      Err(UNKNOWN_COMMAND + parts.head)
  }

  /** The request line a client sends for a request. */
  function Format(req: Request): (line: Bytes)
    requires !req.None?
  {
    match req
    case Upload(name) => UPLOAD + [SP] + name
    case Get(name) => GET + [SP] + name
  }

  /** Splitting at the first space finds the space right after a head that
      has none. */
  lemma {:induction false} SplitOnceAt(head: Bytes, tail: Bytes)
    requires SP !in head
    ensures SplitOnce(head + [SP] + tail) == Split(head, Some(tail))
  {
    if head == [] {
      assert head + [SP] + tail == [SP] + tail;
    } else {
      assert (head + [SP] + tail)[1..] == head[1..] + [SP] + tail;
      SplitOnceAt(head[1..], tail);
    }
  }

  /** Input without a space is all head. */
  lemma SplitOnceNoSpace(s: Bytes)
    requires SP !in s
    ensures SplitOnce(s) == Split(s, Option.None)
  {
  }

  /** Round trip: every request parses back from its line, whatever the
      filename holds (further spaces, nothing at all). */
  lemma ParseFormat(req: Request)
    requires !req.None?
    ensures Parse(Format(req)) == Ok(req)
  {
    match req
    case Upload(name) => SplitOnceAt(UPLOAD, name);
    case Get(name) => SplitOnceAt(GET, name);
  }

  /** Conversely, a line parses to a request only if it is that request's
      line: the verb exactly, one space, the filename as the rest. */
  lemma ParseOkIsFormat(input: Bytes)
    requires Parse(input).Ok?
    ensures input == Format(Parse(input).value)
  {
  }

  /** `UPLOAD` or `GET` with no space after it fails with the message that
      names the verb. */
  lemma ParseBareVerb(input: Bytes)
    requires input == UPLOAD || input == GET
    ensures input == UPLOAD ==> Parse(input) == Err(UPLOAD_NEEDS_FILENAME)
    ensures input == GET ==> Parse(input) == Err(GET_NEEDS_FILENAME)
  {
    SplitOnceNoSpace(input);
  }

  /** A first token other than the two verbs, compared exactly and case
      sensitively, fails as an unknown command naming that token; the two
      verbs never do. */
  lemma ParseUnknown(input: Bytes)
    ensures var head := SplitOnce(input).head;
      Parse(input) == Err(UNKNOWN_COMMAND + head) <==> head != UPLOAD && head != GET
  {
  }

  /** The empty line is an unknown command with an empty name: the
      `"empty input"` arm of the source cannot be reached. */
  lemma ParseEmpty()
    ensures Parse([]) == Err(UNKNOWN_COMMAND)
  {
  }

  lemma ParseNeverEmptyInput(input: Bytes)
    ensures Parse(input) != Err(EMPTY_INPUT)
  {
  }
}
