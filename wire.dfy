/** Bytes on the wire and in files: the vocabulary shared by the video
    service's connection handler and the web service's client.

    Text that the programs handle as Rust `str` (the request line, file
    names, error messages) is modelled as its UTF-8 encoding, so that the
    bytes sent on the wire are exactly `e.as_bytes()`.
 */
module Wire {

  /** An octet, as it is sent on the wire and stored in files. */
  newtype byte = x: int | 0 <= x < 256

  type Bytes = seq<byte>

  datatype Option<+T> = None | Some(value: T)

  /** The space that separates a verb from its argument. */
  const SP: byte := 0x20

  /** The bytes of an ASCII string literal (ASCII is its own UTF-8). */
  function Ascii(s: string): (r: Bytes)
    requires forall i | 0 <= i < |s| :: s[i] < 128 as char
    ensures |r| == |s|
    ensures forall i | 0 <= i < |s| :: r[i] as int == s[i] as int
  {
    seq(|s|, i requires 0 <= i < |s| => s[i] as int as byte)
  }

  /** The bytes of a sequence of frames, in order, with no separators. */
  function Flatten(frames: seq<Bytes>): (r: Bytes)
  {
    if frames == [] then [] else frames[0] + Flatten(frames[1..])
  }

  lemma {:induction false} FlattenAppend(a: seq<Bytes>, b: seq<Bytes>)
    ensures Flatten(a + b) == Flatten(a) + Flatten(b)
  {
    if a == [] {
      assert a + b == b;
    } else {
      assert (a + b)[1..] == a[1..] + b;
      FlattenAppend(a[1..], b);
    }
  }

  /** A continuation byte of a multi-byte UTF-8 sequence: 10xxxxxx. */
  predicate Continuation(b: byte)
  {
    0x80 <= b <= 0xBF
  }

  /** The length of the well-formed UTF-8 encoding of one character that
      `s` starts with, or 0 when `s` does not start with one. The ranges are
      those of section 3.9 (Table 3-7) of the Unicode Standard: no overlong
      forms, no surrogates, nothing above U+10FFFF. */
  function CharLength(s: Bytes): (n: nat)
    ensures n <= 4 && n <= |s|
  {
    if s == [] then 0
    else if s[0] <= 0x7F then 1
    else if 0xC2 <= s[0] <= 0xDF then
      if |s| >= 2 && Continuation(s[1]) then 2 else 0
    else if s[0] == 0xE0 then
      if |s| >= 3 && 0xA0 <= s[1] <= 0xBF && Continuation(s[2]) then 3 else 0
    else if 0xE1 <= s[0] <= 0xEC || 0xEE <= s[0] <= 0xEF then
      if |s| >= 3 && Continuation(s[1]) && Continuation(s[2]) then 3 else 0
    else if s[0] == 0xED then
      if |s| >= 3 && 0x80 <= s[1] <= 0x9F && Continuation(s[2]) then 3 else 0
    else if s[0] == 0xF0 then
      if |s| >= 4 && 0x90 <= s[1] <= 0xBF && Continuation(s[2]) && Continuation(s[3]) then 4 else 0
    else if 0xF1 <= s[0] <= 0xF3 then
      if |s| >= 4 && Continuation(s[1]) && Continuation(s[2]) && Continuation(s[3]) then 4 else 0
    else if s[0] == 0xF4 then
      if |s| >= 4 && 0x80 <= s[1] <= 0x8F && Continuation(s[2]) && Continuation(s[3]) then 4 else 0
    else 0
  }

  /** Well-formed UTF-8: a sequence of well-formed character encodings.
      This is the check that Rust's `std::str::from_utf8` performs. */
  predicate ValidUtf8(s: Bytes): (valid: bool)
    ensures valid ==> forall i | 0 <= i < |s| :: s[i] != 0xC0 && s[i] != 0xC1 && s[i] < 0xF5
    decreases |s|
  {
    s == [] || (CharLength(s) > 0 && ValidUtf8(s[CharLength(s)..]))
  }

  /** A character encoding is recognised by its own bytes alone: what
      follows it does not change its length. */
  lemma CharLengthPrefix(a: Bytes, b: Bytes)
    requires CharLength(a) > 0
    ensures CharLength(a + b) == CharLength(a)
  {
  }

  /** Concatenating two well-formed UTF-8 texts gives well-formed UTF-8:
      every character of `a` ends before `b` begins. */
  lemma {:induction false} ValidUtf8Append(a: Bytes, b: Bytes)
    requires ValidUtf8(a) && ValidUtf8(b)
    ensures ValidUtf8(a + b)
    decreases |a|
  {
    if a == [] {
      assert a + b == b;
    } else {
      var n := CharLength(a);
      CharLengthPrefix(a, b);
      assert (a + b)[n..] == a[n..] + b;
      ValidUtf8Append(a[n..], b);
      assert CharLength(a + b) > 0 && ValidUtf8((a + b)[CharLength(a + b)..]);
    }
  }

  /** Every ASCII byte string is well-formed UTF-8. */
  lemma {:induction false} AsciiIsValidUtf8(s: Bytes)
    requires forall i | 0 <= i < |s| :: s[i] <= 0x7F
    ensures ValidUtf8(s)
  {
    if s != [] {
      AsciiIsValidUtf8(s[1..]);
    }
  }
}
