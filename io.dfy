/**
 * The byte sink and byte source the generated `encode` and `decode` are given
 * (`&mut W: std::io::Write`, `&mut R: std::io::Read`). The sink records every
 * `write` and `flush` it receives, so that the order of writes and the final
 * flush can be stated; it accepts every byte it is offered. The source is a
 * cursor over a fixed byte sequence.
 */
module Io {
  import opened Common

  datatype SinkEvent = Write(bytes: seq<byte>) | Flush

  /** The bytes a sequence of sink events puts on the wire, in order. */
  function Written(events: seq<SinkEvent>): seq<byte>
  {
    if events == [] then []
    else (match events[0] case Write(b) => b case Flush => []) + Written(events[1..])
  }

  lemma {:induction false} WrittenAppend(a: seq<SinkEvent>, b: seq<SinkEvent>)
    ensures Written(a + b) == Written(a) + Written(b)
  {
    if a != [] {
      assert (a + b)[1..] == a[1..] + b;
      WrittenAppend(a[1..], b);
    } else {
      assert a + b == b;
    }
  }

  class Sink {
    var events: seq<SinkEvent>

    constructor ()
      ensures events == []
    {
      events := [];
    }

    /** `w.write(buf)`; the whole buffer is accepted. */
    method Write(buf: seq<byte>) returns (n: nat)
      modifies this
      ensures events == old(events) + [SinkEvent.Write(buf)]
      ensures n == |buf|
    {
      events := events + [SinkEvent.Write(buf)];
      n := |buf|;
    }

    /** `w.flush()`. */
    method Flush()
      modifies this
      ensures events == old(events) + [SinkEvent.Flush]
    {
      events := events + [SinkEvent.Flush];
    }
  }

  class Reader {
    const data: seq<byte>
    var pos: nat

    /** The cursor is within the data; `data[pos..]` is what is left to read. */
    ghost predicate Valid()
      reads this
    {
      pos <= |data|
    }

    constructor (data: seq<byte>)
      ensures Valid() && this.data == data && pos == 0
    {
      this.data := data;
      pos := 0;
    }

    /** `read_exact(&mut buf)`: fills the whole buffer from the next bytes, or
        fails with `UnexpectedEof` when fewer bytes remain. As for
        `std::io::Read::read_exact`, how many bytes a failed call consumed,
        and what it left in the buffer, is not promised. */
    method ReadExact(buf: array<byte>) returns (r: Result<(), IoError>)
      requires Valid()
      modifies this, buf
      ensures Valid() && old(pos) <= pos
      ensures old(pos) + buf.Length <= |data| ==>
        r.Ok? && buf[..] == data[old(pos)..old(pos) + buf.Length] && pos == old(pos) + buf.Length
      ensures |data| < old(pos) + buf.Length ==> r == Err(UnexpectedEof)
    {
      if |data| < pos + buf.Length {
        return Err(UnexpectedEof);
      }
      forall k | 0 <= k < buf.Length {
        buf[k] := data[pos + k];
      }
      pos := pos + buf.Length;
      r := Ok(());
    }
  }
}
