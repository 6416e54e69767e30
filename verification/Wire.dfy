/**
 The client side of a connection as the handlers see it: a read position in the bytes the
 client will ever send, and a log of the bytes written back.
 */
module Wire {
  import opened Bytes

  /**
   The abstract connection.  `rest` are the bytes not read yet, `output` is everything the client
   has been sent, and `room` is how many more bytes it accepts before a write fails.
   */
  datatype Conn = Conn(rest: seq<Byte>, output: seq<Byte>, room: nat)

  /** `read_exact`: all of the bytes, or end of file with the stream drained. */
  function Recv(c: Conn, n: nat): (r: (Option<seq<Byte>>, Conn))
    ensures r.0.Some? ==> |r.0.value| == n
  {
    if n <= |c.rest| then (Some(c.rest[..n]), c.(rest := c.rest[n..]))
    else (None, c.(rest := []))
  }

  /** `write_all`: all of the bytes, or an error after the bytes that still fitted. */
  function Send(c: Conn, bytes: seq<Byte>): (r: (bool, Conn))
  {
    var n := Min(c.room, |bytes|);
    (|bytes| <= c.room, Conn(c.rest, c.output + bytes[..n], c.room - n))
  }

  /**
   `peek` with `n` bytes of buffer when `visible` bytes have arrived.  It waits for a byte: nothing is seen only
   when nothing more will come.
   */
  function Peeked(c: Conn, n: nat, visible: nat): seq<Byte> {
    c.rest[..PeekLength(|c.rest|, n, visible)]
  }

  function PeekLength(pending: nat, n: nat, visible: nat): (k: nat)
    ensures k <= n && k <= pending
    ensures k == 0 <==> n == 0 || pending == 0
    ensures k <= visible || k == 1
  {
    Min(Min(n, if visible == 0 then 1 else visible), pending)
  }

  /** Reading the front of a concatenation. */
  lemma RecvAppend(a: seq<Byte>, b: seq<Byte>, output: seq<Byte>, room: nat)
    ensures Recv(Conn(a + b, output, room), |a|) == (Some(a), Conn(b, output, room))
  {
  }

  /** A read takes exactly `n` bytes from the front, or drains the stream and fails when there are fewer. */
  lemma RecvExactly(c: Conn, n: nat)
    ensures var (r, d) := Recv(c, n);
      && d.output == c.output && d.room == c.room
      && if |c.rest| < n then r.None? && d.rest == []
         else r.Some? && |r.value| == n && c.rest == r.value + d.rest
  {
  }

  lemma SendFits(c: Conn, bytes: seq<Byte>)
    requires |bytes| <= c.room
    ensures Send(c, bytes) == (true, Conn(c.rest, c.output + bytes, c.room - |bytes|))
  {
    assert bytes[..|bytes|] == bytes;
  }

  lemma RecvSplits(c: Conn, n: nat)
    requires Recv(c, n).0.Some?
    ensures c.rest == Recv(c, n).0.value + Recv(c, n).1.rest
  {
  }

  class ClientStream {
    const input: seq<Byte>
    var pos: nat
    var output: seq<Byte>
    var room: nat

    ghost predicate Valid()
      reads this
    {
      pos <= |input|
    }

    ghost function View(): Conn
      reads this
      requires Valid()
    {
      Conn(input[pos..], output, room)
    }

    constructor (input: seq<Byte>, room: nat)
      ensures Valid() && View() == Conn(input, [], room)
    {
      this.input, this.pos, this.output, this.room := input, 0, [], room;
    }

    method ReadExact(n: nat) returns (r: Option<seq<Byte>>)
      requires Valid()
      modifies this
      ensures Valid() && (r, View()) == Recv(old(View()), n)
    {
      if pos + n <= |input| {
        r := Some(input[pos..pos + n]);
        pos := pos + n;
        assert input[old(pos)..][n..] == input[pos..];
        assert input[old(pos)..][..n] == input[old(pos)..pos];
      } else {
        r := None;
        pos := |input|;
        assert input[pos..] == [];
      }
    }

    method WriteAll(bytes: seq<Byte>) returns (ok: bool)
      requires Valid()
      modifies this`output, this`room
      ensures Valid() && (ok, View()) == Send(old(View()), bytes)
    {
      ok := |bytes| <= room;
      var n := Min(room, |bytes|);
      output := output + bytes[..n];
      room := room - n;
    }

    method Peek(n: nat, visible: nat) returns (seen: seq<Byte>)
      requires Valid()
      ensures seen == Peeked(View(), n, visible)
    {
      var k := PeekLength(|input| - pos, n, visible);
      seen := input[pos..pos + k];
      assert seen == input[pos..][..k];
    }

    /** One `read`: any positive number of bytes that fit and have been sent, zero only at the end. */
    method Read(max: nat) returns (chunk: seq<Byte>)
      requires Valid() && max > 0
      modifies this`pos
      ensures Valid() && |chunk| <= max && old(View()) == View().(rest := chunk + View().rest)
      ensures chunk == [] <==> old(View()).rest == []
    {
      var left := |input| - pos;
      if left == 0 {
        chunk := [];
      } else {
        var bound := Min(max, left);
        var n :| 1 <= n <= bound;
        chunk := input[pos..pos + n];
        pos := pos + n;
        assert input[old(pos)..] == chunk + input[pos..];
      }
    }
  }
}
