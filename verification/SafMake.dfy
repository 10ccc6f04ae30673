/** saf-make: the writer, its size calculation and the layout it produces. */
module SafMake {
  import opened Words
  import opened SafFormat

  /** calculate_size: one pass over the tree before anything is written. */
  method CalculateSize(ns: seq<Node>) returns (size: nat)
    ensures size == Before(ns, |ns|)
    decreases ns
  {
    size := 0;
    for idx := 0 to |ns|
      invariant size == Before(ns, idx)
    {
      match ns[idx]
      case Folder(_, children) =>
        size := size + 288 + |children| * 8;
        var below := CalculateSize(children);
        size := size + below;
      case File(_, content) =>
        size := size + 296;
        size := size + |content|;
    }
  }

  /** The archive being written: its buffer and the offset reached. */
  class Writer {
    const data: array<byte>
    var offset: nat

    constructor (alloc: nat)
      ensures data.Length == alloc && offset == 0 && fresh(data) && forall k :: 0 <= k < alloc ==> data[k] == 0
    {
      data := new byte[alloc](_ => 0);
      offset := 0;
    }

    /** Bytes of a range stay. */
    twostate predicate Kept(lo: nat, hi: nat)
      reads data
    {
      forall k {:trigger data[k]} :: lo <= k < hi && k < data.Length ==> data[k] == old(data[k])
    }

    /** inc_offset: fails where the program panics. */
    method IncOffset(d: nat) returns (ok: bool)
      modifies this`offset
      ensures offset == old(offset) + d && ok == (offset <= data.Length)
    {
      offset := offset + d;
      ok := offset <= data.Length;
    }

    method Put(pos: nat, bytes: seq<byte>)
      requires pos + |bytes| <= data.Length
      modifies data
      ensures data[pos..pos + |bytes|] == bytes && Kept(0, pos) && Kept(pos + |bytes|, data.Length)
    {
      for i := 0 to |bytes|
        invariant Kept(0, pos) && Kept(pos + |bytes|, data.Length)
        invariant forall k {:trigger data[k]} :: pos <= k < pos + i ==> data[k] == bytes[k - pos]
      {
        data[pos + i] := bytes[i];
      }
    }

    /** A number field. */
    method PutWord(pos: nat, x: nat)
      requires pos + 8 <= data.Length
      modifies data
      ensures WordAt(data[..], pos, x) && Kept(0, pos) && Kept(pos + 8, data.Length)
    {
      Put(pos, Word(x));
      assert data[..][pos..pos + 8] == data[pos..pos + 8];
    }

    /** The header fields of a node at `off`, its name in a zeroed field. */
    method WriteHeader(off: nat, len: nat, name: seq<byte>, flags: nat)
      requires off + 280 <= data.Length && |name| < 256
      modifies data
      ensures HeaderAt(data[..], off, len, name, flags) && Kept(0, off) && Kept(off + 280, data.Length)
    {
      Clear(off, 280);
      PutWord(off, Magic);
      Put(off + 16, name);
      assert NameAt(data[..], off + 16, name) by {
        assert forall k {:trigger data[k]} :: off + 16 <= k < off + 16 + |name| ==>
          data[k] == data[off + 16..off + 16 + |name|][k - off - 16];
      }
      ghost var named := data[..];
      PutWord(off + 8, len);
      PutWord(off + 272, flags);
      WordSame(named, data[..], off, Magic);
    }

    /** memset to zero. */
    method Clear(pos: nat, n: nat)
      requires pos + n <= data.Length
      modifies data
      ensures Kept(0, pos) && Kept(pos + n, data.Length)
      ensures forall k {:trigger data[k]} :: pos <= k < pos + n ==> data[k] == 0
    {
      for i := 0 to n
        invariant Kept(0, pos) && Kept(pos + n, data.Length)
        invariant forall k {:trigger data[k]} :: pos <= k < pos + i ==> data[k] == 0
      {
        data[pos + i] := 0;
      }
    }
  }

  /** Node `i` of a list laid out from `start` on is in place. */
  ghost predicate NodeIn(a: seq<byte>, start: nat, ns: seq<Node>, i: nat)
    requires i < |ns|
  {
    NodeAt(a, start + Before(ns, i), ns[i])
  }

  /** So are the first `m`. */
  ghost predicate AllIn(a: seq<byte>, start: nat, ns: seq<Node>, m: nat)
    requires m <= |ns|
  {
    forall i {:trigger NodeIn(a, start, ns, i)} :: 0 <= i < m ==> NodeIn(a, start, ns, i)
  }

  /** Writing one more node behind them. */
  lemma OneMore(before: seq<byte>, a: seq<byte>, start: nat, ns: seq<Node>, m: nat)
    requires m < |ns| && AllIn(before, start, ns, m) && Same(before, a, start, start + Before(ns, m))
    requires NodeAt(a, start + Before(ns, m), ns[m])
    ensures AllIn(a, start, ns, m + 1)
  {
    forall i | 0 <= i < m + 1
      ensures NodeIn(a, start, ns, i)
    {
      if i < m {
        assert NodeIn(before, start, ns, i);
        StillIn(before, a, start, ns, i, m);
      }
    }
  }

  lemma StillIn(before: seq<byte>, a: seq<byte>, start: nat, ns: seq<Node>, i: nat, m: nat)
    requires i < m <= |ns| && NodeIn(before, start, ns, i) && Same(before, a, start, start + Before(ns, m))
    ensures NodeIn(a, start, ns, i)
  {
    BeforeMonotone(ns, i + 1, m);
    NodeSame(before, a, start + Before(ns, i), ns[i]);
  }

  /** make_node: all nodes of a folder, one after the other; their offsets are returned. */
  method MakeNodes(w: Writer, ns: seq<Node>) returns (ok: bool, offsets: seq<nat>)
    requires w.offset + Before(ns, |ns|) <= w.data.Length && forall i :: 0 <= i < |ns| ==> WellNamed(ns[i])
    modifies w`offset, w.data
    ensures ok && w.offset == old(w.offset) + Before(ns, |ns|) && w.Kept(0, old(w.offset))
    ensures |offsets| == |ns| && forall i {:trigger offsets[i]} :: 0 <= i < |ns| ==> offsets[i] == old(w.offset) + Before(ns, i)
    ensures AllIn(w.data[..], old(w.offset), ns, |ns|)
    decreases ns, 0
  {
    ghost var start := w.offset;
    offsets := [];
    for idx := 0 to |ns|
      invariant w.offset == start + Before(ns, idx) && w.Kept(0, start) && |offsets| == idx
      invariant forall i {:trigger offsets[i]} :: 0 <= i < idx ==> offsets[i] == start + Before(ns, i)
      invariant AllIn(w.data[..], start, ns, idx)
    {
      offsets := offsets + [w.offset];
      BeforeMonotone(ns, idx + 1, |ns|);
      ok := MakeNext(w, ns, idx, start);
      if !ok {
        return;
      }
    }
    ok := true;
  }

  method MakeNext(w: Writer, ns: seq<Node>, idx: nat, ghost start: nat) returns (ok: bool)
    requires idx < |ns| && w.offset == start + Before(ns, idx) && AllIn(w.data[..], start, ns, idx)
    requires start + Before(ns, idx + 1) <= w.data.Length && WellNamed(ns[idx])
    modifies w`offset, w.data
    ensures ok && w.offset == start + Before(ns, idx + 1) && w.Kept(0, start) && AllIn(w.data[..], start, ns, idx + 1)
    decreases ns[idx], 2
  {
    ghost var before := w.data[..];
    ok := MakeNode(w, ns[idx]);
    if !ok {
      return;
    }
    OneMore(before, w.data[..], start, ns, idx);
  }

  /** One node: header, then what is below it, then the fields that depend on that. */
  method MakeNode(w: Writer, n: Node) returns (ok: bool)
    requires w.offset + Size(n) <= w.data.Length && WellNamed(n)
    modifies w`offset, w.data
    ensures ok && w.offset == old(w.offset) + Size(n) && w.Kept(0, old(w.offset))
    ensures NodeAt(w.data[..], old(w.offset), n)
    decreases n, 1
  {
    var off := w.offset;
    w.WriteHeader(off, StructSize(n), n.name, if n.Folder? then 1 else 0);
    ok := w.IncOffset(StructSize(n));
    if !ok {
      return;
    }
    match n
    case File(_, content) =>
      ok := FinishFile(w, off, n);
    case Folder(_, children) =>
      ok := FillFolder(w, off, n, children);
  }

  /** The children of a folder whose header is written, then the fields that name them. */
  method FillFolder(w: Writer, off: nat, ghost n: Node, children: seq<Node>) returns (ok: bool)
    requires n.Folder? && children == n.children && HeaderAt(w.data[..], off, StructSize(n), n.name, 1)
    requires w.offset == off + StructSize(n) && off + Size(n) <= w.data.Length
    requires forall i :: 0 <= i < |children| ==> WellNamed(children[i])
    modifies w`offset, w.data
    ensures ok && w.offset == off + Size(n) && w.Kept(0, off) && NodeAt(w.data[..], off, n)
    decreases children, 1
  {
    ghost var header := w.data[..];
    var offsets;
    ok, offsets := MakeNodes(w, children);
    if !ok {
      return;
    }
    HeaderSame(header, w.data[..], off, StructSize(n), n.name, 1);
    FinishFolder(w, off, n, offsets);
  }

  method FinishFile(w: Writer, off: nat, n: Node) returns (ok: bool)
    requires n.File? && w.offset == off + 296 && off + Size(n) <= w.data.Length
    requires HeaderAt(w.data[..], off, StructSize(n), n.name, 0)
    modifies w`offset, w.data
    ensures ok && w.offset == off + Size(n) && w.Kept(0, off) && NodeAt(w.data[..], off, n)
  {
    ghost var header := w.data[..];
    w.PutWord(off + 288, w.offset);
    w.PutWord(off + 280, |n.content|);
    ok := w.IncOffset(|n.content|);
    if !ok {
      return;
    }
    ghost var words := w.data[..];
    w.Put(off + 296, n.content);
    HeaderSame(header, w.data[..], off, StructSize(n), n.name, 0);
    WordSame(words, w.data[..], off + 280, |n.content|);
    WordSame(words, w.data[..], off + 288, off + 296);
    assert w.data[..][off + 296..off + 296 + |n.content|] == w.data[off + 296..off + 296 + |n.content|];
  }

  /** The number of children and their offsets go into the space behind the header. */
  method FinishFolder(w: Writer, off: nat, ghost n: Node, offsets: seq<nat>)
    requires n.Folder? && off + Size(n) <= w.data.Length && HeaderAt(w.data[..], off, StructSize(n), n.name, 1)
    requires |offsets| == |n.children|
    requires forall i {:trigger offsets[i]} :: 0 <= i < |offsets| ==> offsets[i] == ChildOffset(off, n, i)
    requires AllIn(w.data[..], off + StructSize(n), n.children, |offsets|)
    modifies w.data
    ensures w.Kept(0, off) && NodeAt(w.data[..], off, n)
  {
    ghost var before := w.data[..];
    w.PutWord(off + 280, |offsets|);
    ghost var counted := w.data[..];
    WriteOffsets(w, off + 288, offsets);
    WordSame(counted, w.data[..], off + 280, |offsets|);
    HeaderSame(before, w.data[..], off, StructSize(n), n.name, 1);
    Assembled(before, w.data[..], off, n, offsets);
  }

  /** Offset `j` is in its place in the list at `pos`. */
  ghost predicate OffsetIn(a: seq<byte>, pos: nat, offsets: seq<nat>, j: nat)
    requires j < |offsets|
  {
    WordAt(a, pos + 8 * j, offsets[j])
  }

  method WriteOffsets(w: Writer, pos: nat, offsets: seq<nat>)
    requires pos + 8 * |offsets| <= w.data.Length
    modifies w.data
    ensures w.Kept(0, pos) && w.Kept(pos + 8 * |offsets|, w.data.Length)
    ensures forall j {:trigger OffsetIn(w.data[..], pos, offsets, j)} :: 0 <= j < |offsets| ==> OffsetIn(w.data[..], pos, offsets, j)
  {
    for i := 0 to |offsets|
      invariant w.Kept(0, pos) && w.Kept(pos + 8 * |offsets|, w.data.Length)
      invariant forall j {:trigger OffsetIn(w.data[..], pos, offsets, j)} :: 0 <= j < i ==> OffsetIn(w.data[..], pos, offsets, j)
    {
      ghost var words := w.data[..];
      w.PutWord(pos + 8 * i, offsets[i]);
      forall j | 0 <= j < i + 1
        ensures OffsetIn(w.data[..], pos, offsets, j)
      {
        if j < i {
          assert OffsetIn(words, pos, offsets, j);
          WordSame(words, w.data[..], pos + 8 * j, offsets[j]);
        }
      }
    }
  }

  /** A folder from its parts. */
  lemma Assembled(before: seq<byte>, a: seq<byte>, off: nat, n: Node, offsets: seq<nat>)
    requires n.Folder? && off + Size(n) <= |a| && HeaderAt(a, off, StructSize(n), n.name, 1)
    requires |offsets| == |n.children| && WordAt(a, off + 280, |n.children|)
    requires forall i {:trigger offsets[i]} :: 0 <= i < |offsets| ==> offsets[i] == ChildOffset(off, n, i)
    requires forall j {:trigger OffsetIn(a, off + 288, offsets, j)} :: 0 <= j < |offsets| ==> OffsetIn(a, off + 288, offsets, j)
    requires AllIn(before, off + StructSize(n), n.children, |offsets|)
    requires Same(before, a, off + StructSize(n), off + Size(n))
    ensures NodeAt(a, off, n)
  {
    forall i | 0 <= i < |n.children|
      ensures ChildAt(a, off, n, i)
    {
      assert OffsetIn(a, off + 288, offsets, i) && NodeIn(before, off + StructSize(n), n.children, i);
      assert offsets[i] == ChildOffset(off, n, i);
      AssembledChild(before, a, off, n, offsets, i);
    }
  }

  lemma AssembledChild(before: seq<byte>, a: seq<byte>, off: nat, n: Node, offsets: seq<nat>, i: nat)
    requires n.Folder? && i < |n.children| == |offsets|
    requires OffsetIn(a, off + 288, offsets, i) && offsets[i] == ChildOffset(off, n, i)
    requires NodeIn(before, off + StructSize(n), n.children, i)
    requires Same(before, a, off + StructSize(n), off + Size(n))
    ensures ChildAt(a, off, n, i)
  {
    StillIn(before, a, off + StructSize(n), n.children, i, |n.children|);
  }

  /** The main program: the size is known beforehand, so no offset ever exceeds it, and exactly all
      of it is used. The root is a folder without a name. */
  method Make(children: seq<Node>) returns (ok: bool, archive: seq<byte>)
    requires forall i :: 0 <= i < |children| ==> WellNamed(children[i])
    ensures ok && |archive| == Size(Folder([], children)) && NodeAt(archive, 0, Folder([], children))
  {
    var below := CalculateSize(children);
    var w := new Writer(below + 288 + |children| * 8);
    ok := MakeRoot(w, children, Folder([], children));
    if !ok {
      return false, [];
    }
    archive := w.data[..w.offset];
    assert archive == w.data[..];
  }

  method MakeRoot(w: Writer, children: seq<Node>, ghost root: Node) returns (ok: bool)
    requires root == Folder([], children) && w.offset + Size(root) == w.data.Length
    requires forall k :: 0 <= k < w.data.Length ==> w.data[k] == 0
    requires forall i :: 0 <= i < |children| ==> WellNamed(children[i])
    modifies w`offset, w.data
    ensures ok && w.offset == w.data.Length && NodeAt(w.data[..], old(w.offset), root)
  {
    var off, nodesize := w.offset, 288 + |children| * 8;
    ok := w.IncOffset(nodesize);
    if !ok {
      return;
    }
    RootHeader(w, off, nodesize, root.name);
    ok := FillFolder(w, off, root, children);
  }

  /** The header of the root, whose name stays as the buffer was allocated. */
  method RootHeader(w: Writer, off: nat, len: nat, ghost name: seq<byte>)
    requires off + 280 <= w.data.Length && name == []
    requires forall k :: 0 <= k < w.data.Length ==> w.data[k] == 0
    modifies w.data
    ensures HeaderAt(w.data[..], off, len, name, 1)
  {
    w.PutWord(off, Magic);
    w.PutWord(off + 8, len);
    ghost var words := w.data[..];
    w.PutWord(off + 272, 1);
    WordSame(words, w.data[..], off, Magic);
    WordSame(words, w.data[..], off + 8, len);
  }
}
