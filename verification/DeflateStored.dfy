/** A compressor that only stores: its output is well formed and decodes to its input, whatever that
    is, so every byte string is the meaning of some stream. */
module DeflateStored {
  import opened Words
  import opened BitStream
  import opened DeflateFormat
  import opened Tinflate
  import opened TinfUncompress

  /** One stored block that starts at a byte boundary: header byte, LEN, its complement, the bytes. */
  function Chunk(last: bool, data: seq<byte>): (r: seq<byte>)
    requires |data| <= 65535
    ensures |r| == 5 + |data|
  {
    [if last then 1 else 0, |data| % 256, |data| / 256, 255 - |data| % 256, 255 - |data| / 256] + data
  }

  /** Blocks of at most 65535 bytes. */
  function Store(data: seq<byte>): seq<byte>
    decreases |data|
  {
    if |data| <= 65535 then Chunk(true, data) else Chunk(false, data[..65535]) + Store(data[65535..])
  }

  /** The stream holds a chunk from byte `k` on. */
  ghost predicate ChunkAt(src: seq<byte>, k: nat, last: bool, data: seq<byte>) {
    |data| <= 65535 && k + 5 + |data| <= |src| && src[k..k + 5 + |data|] == Chunk(last, data)
  }

  lemma HeaderBits(src: seq<byte>, k: nat, p: nat)
    requires k < |src| && src[k] <= 1 && p == 8 * k
    ensures LsbValue(src, p, 1) == src[k] && LsbValue(src, p + 1, 2) == 0
  {
    BitInByte(src, k, 0);
    BitInByte(src, k, 1);
    BitInByte(src, k, 2);
    var b: nat := src[k];
    assert Shr(b, 0) == b && Shr(b, 1) == 0;
    assert Shr(b, 2) == Shr(b / 2, 1) == 0;
    assert LsbValue(src, p + 2, 1) == BitAt(src, p + 2) + 2 * LsbValue(src, p + 3, 0);
  }

  lemma StoredChunk(src: seq<byte>, k: nat, last: bool, data: seq<byte>, out: seq<byte>)
    requires ChunkAt(src, k, last, data)
    ensures src[k] == (if last then 1 else 0)
    ensures Stored(src, 8 * k + 3, out) == Some((8 * (k + 5 + |data|), out + data))
  {
    var c := Chunk(last, data);
    var n := k + 5 + |data|;
    assert forall i :: 0 <= i < |c| ==> src[k + i] == src[k..n][i] == c[i];
    assert src[k] == c[0];
    assert (8 * k + 3 + 7) / 8 == k + 1;
    assert src[k + 1] == c[1] && src[k + 2] == c[2] && src[k + 3] == c[3] && src[k + 4] == c[4];
    assert src[k + 5..n] == data;
  }

  /** A block with its header, in terms of what it decodes to. */
  lemma BlocksStep(src: seq<byte>, p: nat, out: seq<byte>, btype: nat, q: nat, out': seq<byte>)
    requires p + 3 <= 8 * |src| && btype == LsbValue(src, p + 1, 2) && Block(btype, src, p + 3, out) == Some((q, out'))
    ensures Blocks(src, p, out) == if LsbValue(src, p, 1) == 1 then Some(out') else Blocks(src, q, out')
  {
  }

  lemma BlockZero(src: seq<byte>, p: nat, out: seq<byte>, btype: nat)
    requires btype == 0
    ensures Block(btype, src, p, out) == Stored(src, p, out)
  {
  }

  lemma BlocksChunk(src: seq<byte>, k: nat, last: bool, data: seq<byte>, out: seq<byte>, p: nat)
    requires ChunkAt(src, k, last, data) && p == 8 * k
    ensures Blocks(src, p, out) == if last then Some(out + data) else Blocks(src, 8 * (k + 5 + |data|), out + data)
  {
    var btype := LsbValue(src, p + 1, 2);
    StoredChunk(src, k, last, data, out);
    HeaderBits(src, k, p);
    BlockZero(src, p + 3, out, btype);
    BlocksStep(src, p, out, btype, 8 * (k + 5 + |data|), out + data);
  }

  /** From byte `k` on the stream appends something to `out` and gives `all`. */
  ghost predicate Decodes(src: seq<byte>, k: nat, out: seq<byte>, all: seq<byte>) {
    forall p {:trigger Blocks(src, p, out)} :: p == 8 * k ==> Blocks(src, p, out) == Some(all)
  }

  lemma DecodesLast(src: seq<byte>, k: nat, data: seq<byte>, out: seq<byte>)
    requires ChunkAt(src, k, true, data)
    ensures Decodes(src, k, out, out + data)
  {
    BlocksChunk(src, k, true, data, out, 8 * k);
  }

  lemma DecodesMore(src: seq<byte>, k: nat, data: seq<byte>, out: seq<byte>, n: nat, all: seq<byte>)
    requires ChunkAt(src, k, false, data) && n == k + 5 + |data| && Decodes(src, n, out + data, all)
    ensures Decodes(src, k, out, all)
  {
    BlocksChunk(src, k, false, data, out, 8 * k);
  }

  lemma {:induction false} StoreDecodes(src: seq<byte>, k: nat, data: seq<byte>, out: seq<byte>)
    requires k <= |src| && src[k..] == Store(data)
    ensures Decodes(src, k, out, out + data)
    decreases |data|
  {
    if |data| <= 65535 {
      assert src[k..k + 5 + |data|] == src[k..];
      DecodesLast(src, k, data, out);
    } else {
      var head, tail := data[..65535], data[65535..];
      FirstChunk(src, k, data, head, tail);
      var n := k + 5 + |head|;
      StoreDecodes(src, n, tail, out + head);
      assert out + data == (out + head) + tail;
      DecodesMore(src, k, head, out, n, out + data);
    }
  }

  lemma FirstChunk(src: seq<byte>, k: nat, data: seq<byte>, head: seq<byte>, tail: seq<byte>)
    requires k <= |src| && src[k..] == Store(data) && |data| > 65535 && head == data[..65535] && tail == data[65535..]
    ensures ChunkAt(src, k, false, head) && k + 5 + |head| <= |src| && src[k + 5 + |head|..] == Store(tail)
  {
    var n := k + 5 + |head|;
    assert src[k..n] == src[k..][..n - k] == Chunk(false, head);
    assert src[n..] == src[k..][n - k..] == Store(tail);
  }

  /** Decoding what was stored gives it back. */
  lemma StoreRoundTrip(data: seq<byte>)
    ensures Inflate(Store(data)) == Some(data)
  {
    assert Store(data)[0..] == Store(data);
    StoreDecodes(Store(data), 0, data, []);
    assert [] + data == data;
    assert Blocks(Store(data), 8 * 0, []) == Some(data);
  }

  /** The decoder run on it fills the destination with the data. */
  method StoreAndUncompress(data: seq<byte>) returns (dest: array<byte>)
    ensures dest[..] == data
  {
    StoreRoundTrip(data);
    dest := new byte[|data|](_ => 0);
    var res, newLen := Uncompress(dest, |data|, Store(data));
  }
}
