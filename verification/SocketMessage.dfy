/** Outgoing messages: the pieces an asynchronous send walks over, and the SCGI message that puts
    its header in front of the payload. */
module SocketMessage {
  import opened Bytes
  import ScgiFraming

  class Message {
    /** The pieces in the order they were added, which keeps them alive ... */
    var data: seq<seq<byte>>
    /** ... and in the order they are sent. */
    var buffer: seq<seq<byte>>

    ghost predicate Valid()
      reads this
    {
      TotalSize(data) == TotalSize(buffer)
    }

    /** What a send of the whole message puts on the wire. */
    ghost function Wire(): seq<byte>
      reads this
    {
      Flatten(buffer)
    }

    constructor (piece: seq<byte>)
      ensures Valid()
      ensures Wire() == piece
    {
      data, buffer := [piece], [piece];
      new;
      FlattenOne(piece);
    }

    /** The SCGI message: a header that announces the payload's size, then the payload. */
    constructor Scgi(payload: seq<byte>)
      ensures Valid()
      ensures Wire() == ScgiFraming.Frame(payload)
    {
      data, buffer := [payload], [payload];
      new;
      FlattenOne(payload);
      PushFront(ScgiFraming.HeaderBytes(|payload| % 0x1_0000_0000));
    }

    method PushFront(piece: seq<byte>)
      requires Valid()
      modifies this
      ensures Valid()
      ensures Wire() == piece + old(Wire())
    {
      TotalSizeConcat(data, [piece]);
      data := data + [piece];
      buffer := [piece] + buffer;
      assert buffer[1..] == old(buffer);
    }

    method PushBack(piece: seq<byte>)
      requires Valid()
      modifies this
      ensures Valid()
      ensures Wire() == old(Wire()) + piece
    {
      TotalSizeConcat(data, [piece]);
      TotalSizeConcat(buffer, [piece]);
      data := data + [piece];
      buffer := buffer + [piece];
      FlattenConcat(old(buffer), [piece]);
      FlattenOne(piece);
    }

    /** Sums over the pieces in the order they were added, which gives the length of the wire. */
    method DataSize() returns (sz: nat)
      requires Valid()
      ensures sz == |Wire()|
    {
      sz := 0;
      for i := 0 to |data|
        invariant sz == TotalSize(data[..i])
      {
        TotalSizeConcat(data[..i], [data[i]]);
        assert data[..i] + [data[i]] == data[..i + 1];
        sz := sz + |data[i]|;
      }
      assert data[..|data|] == data;
      FlattenSize(buffer);
    }
  }

  function TotalSize(pieces: seq<seq<byte>>): nat {
    if pieces == [] then 0 else |pieces[0]| + TotalSize(pieces[1..])
  }

  lemma {:induction false} FlattenSize(pieces: seq<seq<byte>>)
    ensures |Flatten(pieces)| == TotalSize(pieces)
  {
    if pieces != [] {
      FlattenSize(pieces[1..]);
    }
  }

  lemma {:induction false} TotalSizeConcat(a: seq<seq<byte>>, b: seq<seq<byte>>)
    ensures TotalSize(a + b) == TotalSize(a) + TotalSize(b)
  {
    if a == [] {
      assert a + b == b;
    } else {
      TotalSizeConcat(a[1..], b);
      assert (a + b)[0] == a[0] && (a + b)[1..] == a[1..] + b;
    }
  }
}
