/** The receive buffer of a socket: bytes are appended at the end and taken from the front. */
module SocketFifo {
  import opened Words

  function ToPages(n: nat): nat {
    (n + 0xFFF) / 0x1000
  }

  class Fifo {
    var data: array?<byte>
    var count: nat

    ghost predicate Valid()
      reads this, data
    {
      if data == null then count == 0 else count <= data.Length
    }

    /** The bytes not yet taken. */
    ghost function Contents(): seq<byte>
      reads this, data
      requires Valid()
    {
      if data == null then [] else data[..count]
    }

    constructor ()
      ensures Valid() && Contents() == [] && data == null
    {
      data, count := null, 0;
    }

    /** socket_tcp_recv: a first buffer, or a larger copy of the old one, then the new bytes. */
    method Append(bytes: seq<byte>)
      requires Valid()
      modifies this, data
      ensures Valid() && Contents() == old(Contents()) + bytes && data != null && fresh(data)
    {
      var grown := new byte[0x1000 * ToPages(|bytes| + count)](_ => 0);
      ghost var was := Contents();
      if data != null {
        var source := data;
        for i := 0 to count
          invariant data == source && count == old(count) && source[..count] == was
          invariant forall k :: 0 <= k < i ==> grown[k] == was[k]
        {
          assert source[i] == source[..count][i];
          grown[i] := source[i];
        }
      }
      for i := 0 to |bytes|
        invariant data == old(data) && count == old(count)
        invariant forall k :: 0 <= k < count ==> grown[k] == was[k]
        invariant forall k :: 0 <= k < i ==> grown[count + k] == bytes[k]
      {
        grown[count + i] := bytes[i];
      }
      data := grown;
      count := count + |bytes|;
      assert data[..count] == was + bytes;
    }

    /** One poll of socket_recv: up to `size` bytes from the front; the rest moves up. */
    method Take(size: nat) returns (taken: seq<byte>)
      requires Valid()
      modifies this`count, data
      ensures Valid() && old(Contents()) == taken + Contents() && data == old(data)
      ensures |taken| == if size < |old(Contents())| then size else |old(Contents())|
    {
      if count == 0 {
        return [];
      }
      var n := count;
      if n > size {
        n := size;
      }
      ghost var was := data[..];
      taken := data[..n];
      count := count - n;
      for i := 0 to count
        invariant data == old(data) && count == old(count) - n && |data[..]| == |was|
        invariant forall k :: 0 <= k < i ==> data[k] == was[k + n]
        invariant forall k :: i <= k < |was| ==> data[k] == was[k]
      {
        data[i] := data[i + n];
      }
      assert was[..old(count)] == was[..n] + was[n..old(count)];
      assert data[..count] == was[n..old(count)];
    }
  }
}
