/** The web service's client of the video service (web-service/src/lib.rs):
    `VideoClient`, which accumulates outbound bytes in a buffer and writes
    them to its TCP stream in large pieces.

    The stream is abstract: `wire` records, in order, what each
    `write_all` call put on the connection. A `write_all` may fail, and
    then it may have written any prefix of its data first.
 */
module Client {
  import opened Wire

  /** The buffer is written out once it holds at least 2^23 bytes. */
  const THRESHOLD: nat := 8388608

  class VideoClient {
    /** The accumulation buffer (`BytesMut`). */
    var buffer: Bytes

    /** What each `write_all` on the stream has written, in order. */
    ghost var wire: seq<Bytes>

    /** The concatenation of the arguments of every `send`, in call order. */
    ghost var accepted: Bytes

    /** No write to the stream has failed yet. */
    ghost var intact: bool

    /** Conservation: while every write has succeeded, the bytes written
        followed by the buffer are exactly the bytes handed to `send`. */
    ghost predicate Valid()
      reads this
    {
      intact ==> Flatten(wire) + buffer == accepted
    }

    /** The client right after `VideoClient::new` has connected: an empty
        buffer (its 2^24-byte capacity is only a reservation) and nothing
        written. */
    constructor ()
      ensures Valid() && intact
      ensures buffer == [] && wire == [] && accepted == []
    {
      buffer := [];
      wire := [];
      accepted := [];
      intact := true;
    }

    /** `self.stream.write_all(data)`. The stream decides whether it
        succeeds; when it fails, some prefix of `data` may be on the wire. */
    method WriteAll(data: Bytes) returns (ok: bool)
      modifies this`wire, this`intact
      ensures ok ==> wire == old(wire) + [data] && intact == old(intact)
      ensures !ok ==> (|wire| == |old(wire)| + 1 && wire[..|old(wire)|] == old(wire) &&
                       wire[|old(wire)|] <= data && !intact)
    {
      ok :| true;
      if ok {
        wire := wire + [data];
      } else {
        var k :| 0 <= k <= |data|;
        wire := wire + [data[..k]];
        intact := false;
      }
    }

    /** `send`: append the bytes to the buffer; once the buffer holds at
        least `THRESHOLD` bytes, write all of it in one `write_all` and
        clear it. A failed write returns the error before the buffer is
        cleared. After a successful `send` the buffer is below the
        threshold. */
    method Send(bytes: Bytes) returns (ok: bool)
      requires Valid()
      modifies this
      ensures Valid()
      ensures accepted == old(accepted) + bytes
      ensures |old(buffer)| + |bytes| < THRESHOLD ==>
        ok && buffer == old(buffer) + bytes && wire == old(wire) && intact == old(intact)
      ensures |old(buffer)| + |bytes| >= THRESHOLD && ok ==>
        buffer == [] && wire == old(wire) + [old(buffer) + bytes] && intact == old(intact)
      ensures |old(buffer)| + |bytes| >= THRESHOLD && !ok ==>
        buffer == old(buffer) + bytes && !intact && |wire| == |old(wire)| + 1 &&
        wire[..|old(wire)|] == old(wire) && wire[|old(wire)|] <= old(buffer) + bytes
      ensures ok ==> |buffer| < THRESHOLD
    {
      buffer := buffer + bytes;
      accepted := accepted + bytes;
      ok := true;
      if |buffer| >= THRESHOLD {
        ok := WriteAll(buffer);
        if !ok {
          return;
        }
        FlattenAppend(old(wire), [buffer]);
        assert Flatten([buffer]) == buffer + Flatten([]);
        buffer := [];
      }
    }

    /** `flush`: write whatever the buffer holds, even nothing, in one
        `write_all`, then clear it. A failed write leaves the buffer as it
        was. After a successful flush of an intact client, the bytes written
        are exactly the bytes handed to `send`. */
    method Flush() returns (ok: bool)
      requires Valid()
      modifies this
      ensures Valid()
      ensures accepted == old(accepted)
      ensures ok ==> buffer == [] && wire == old(wire) + [old(buffer)] && intact == old(intact)
      ensures !ok ==> (buffer == old(buffer) && !intact && |wire| == |old(wire)| + 1 &&
                       wire[..|old(wire)|] == old(wire) && wire[|old(wire)|] <= old(buffer))
      ensures ok && intact ==> Flatten(wire) == accepted
    {
      ok := WriteAll(buffer);
      if !ok {
        return;
      }
      FlattenAppend(old(wire), [buffer]);
      assert Flatten([buffer]) == buffer + Flatten([]);
      buffer := [];
    }
  }
}
