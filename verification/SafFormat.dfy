/** The SAF archive format: a header per node, absolute offsets of children, file contents in place. */
module SafFormat {
  import opened Words

  /** A directory tree; names hold no zero byte and fit their field. */
  datatype Node = File(name: seq<byte>, content: seq<byte>) | Folder(name: seq<byte>, children: seq<Node>)

  predicate IsName(name: seq<byte>) {
    |name| < 256 && forall i :: 0 <= i < |name| ==> name[i] != 0
  }

  predicate WellNamed(n: Node) {
    IsName(n.name) && (n.Folder? ==> forall i :: 0 <= i < |n.children| ==> WellNamed(n.children[i]))
  }

  // ----- sizes -----

  /** Bytes that a node and everything below it take. */
  function Size(n: Node): nat
    decreases n
  {
    match n
    case File(_, content) => 296 + |content|
    case Folder(_, children) => 288 + 8 * |children| + Before(children, |children|)
  }

  /** Bytes that the first `i` nodes of a list take. */
  function Before(ns: seq<Node>, i: nat): nat
    requires i <= |ns|
    decreases ns, i
  {
    if i == 0 then 0 else Before(ns, i - 1) + Size(ns[i - 1])
  }

  /** The size of the structure in front of the children or the content. */
  function StructSize(n: Node): nat {
    if n.Folder? then 288 + 8 * |n.children| else 296
  }

  lemma {:induction false} BeforeMonotone(ns: seq<Node>, i: nat, j: nat)
    requires i <= j <= |ns|
    ensures Before(ns, i) <= Before(ns, j)
    decreases j
  {
    if i < j {
      BeforeMonotone(ns, i, j - 1);
    }
  }

  // ----- numbers -----

  /** Byte `i` of a number, least significant first. */
  function Digit(x: nat, i: nat): byte {
    if i == 0 then x % 256 else Digit(x / 256, i - 1)
  }

  /** A number as eight bytes. */
  function Word(x: nat): (d: seq<byte>)
    ensures |d| == 8
  {
    seq(8, i requires 0 <= i < 8 => Digit(x, i))
  }

  const Magic: nat := 0x766863726c706d73

  // ----- layout -----

  /** A name in its field of 256 bytes, zeros behind it. */
  ghost predicate NameAt(a: seq<byte>, pos: nat, name: seq<byte>) {
    && pos + 256 <= |a| && |name| < 256
    && (forall k {:trigger a[k]} :: pos <= k < pos + |name| ==> a[k] == name[k - pos])
    && (forall k {:trigger a[k]} :: pos + |name| <= k < pos + 256 ==> a[k] == 0)
  }

  /** The common header. */
  ghost predicate HeaderAt(a: seq<byte>, off: nat, len: nat, name: seq<byte>, flags: nat) {
    && WordAt(a, off, Magic) && WordAt(a, off + 8, len)
    && NameAt(a, off + 16, name) && WordAt(a, off + 272, flags)
  }

  /** A number field. */
  ghost predicate WordAt(a: seq<byte>, pos: nat, x: nat) {
    pos + 8 <= |a| && a[pos..pos + 8] == Word(x)
  }

  /** Where child `i` of a folder at `off` is laid out. */
  function ChildOffset(off: nat, n: Node, i: nat): nat
    requires n.Folder? && i <= |n.children|
  {
    off + StructSize(n) + Before(n.children, i)
  }

  /** A node with everything below it, laid out from `off` on. */
  ghost predicate NodeAt(a: seq<byte>, off: nat, n: Node)
    decreases n, 1
  {
    && off + Size(n) <= |a|
    && HeaderAt(a, off, StructSize(n), n.name, if n.Folder? then 1 else 0)
    && match n
       case File(_, content) => FileAt(a, off, content)
       case Folder(_, children) =>
         && WordAt(a, off + 280, |children|)
         && (forall i {:trigger ChildAt(a, off, n, i)} :: 0 <= i < |children| ==> ChildAt(a, off, n, i))
  }

  /** The part of a file node behind its header. */
  ghost predicate FileAt(a: seq<byte>, off: nat, content: seq<byte>) {
    && WordAt(a, off + 280, |content|) && WordAt(a, off + 288, off + 296)
    && off + 296 + |content| <= |a| && a[off + 296..off + 296 + |content|] == content
  }

  /** Child `i` is laid out in its place, and its offset is in the folder's list. */
  ghost predicate ChildAt(a: seq<byte>, off: nat, n: Node, i: nat)
    requires n.Folder? && i < |n.children|
    decreases n, 0
  {
    && WordAt(a, off + 288 + 8 * i, ChildOffset(off, n, i))
    && NodeAt(a, ChildOffset(off, n, i), n.children[i])
  }

  /** The bytes of a range are the same. */
  ghost predicate Same(a: seq<byte>, b: seq<byte>, lo: nat, hi: nat) {
    hi <= |a| && hi <= |b| && forall k {:trigger a[k]} {:trigger b[k]} :: lo <= k < hi ==> a[k] == b[k]
  }

  lemma SliceSame(a: seq<byte>, b: seq<byte>, x: nat, y: nat)
    requires x <= y && Same(a, b, x, y)
    ensures a[x..y] == b[x..y]
  {
  }

  lemma WordSame(a: seq<byte>, b: seq<byte>, pos: nat, x: nat)
    requires WordAt(a, pos, x) && Same(a, b, pos, pos + 8)
    ensures WordAt(b, pos, x)
  {
    SliceSame(a, b, pos, pos + 8);
  }

  lemma HeaderSame(a: seq<byte>, b: seq<byte>, off: nat, len: nat, name: seq<byte>, flags: nat)
    requires HeaderAt(a, off, len, name, flags) && Same(a, b, off, off + 280)
    ensures HeaderAt(b, off, len, name, flags)
  {
    WordSame(a, b, off, Magic);
    WordSame(a, b, off + 8, len);
    WordSame(a, b, off + 272, flags);
  }

  lemma FileSame(a: seq<byte>, b: seq<byte>, off: nat, content: seq<byte>)
    requires FileAt(a, off, content) && Same(a, b, off, off + 296 + |content|)
    ensures FileAt(b, off, content)
  {
    WordSame(a, b, off + 280, |content|);
    WordSame(a, b, off + 288, off + 296);
    SliceSame(a, b, off + 296, off + 296 + |content|);
  }

  /** A node is determined by the bytes of its range. */
  lemma {:induction false} NodeSame(a: seq<byte>, b: seq<byte>, off: nat, n: Node)
    requires NodeAt(a, off, n) && Same(a, b, off, off + Size(n))
    ensures NodeAt(b, off, n)
    decreases n, 1
  {
    HeaderSame(a, b, off, StructSize(n), n.name, if n.Folder? then 1 else 0);
    if n.File? {
      FileSame(a, b, off, n.content);
    } else {
      WordSame(a, b, off + 280, |n.children|);
      forall i | 0 <= i < |n.children|
        ensures ChildAt(b, off, n, i)
      {
        assert ChildAt(a, off, n, i);
        ChildSame(a, b, off, n, i);
      }
    }
  }

  lemma {:induction false} ChildSame(a: seq<byte>, b: seq<byte>, off: nat, n: Node, i: nat)
    requires n.Folder? && i < |n.children| && ChildAt(a, off, n, i) && Same(a, b, off, off + Size(n))
    ensures ChildAt(b, off, n, i)
    decreases n, 0
  {
    ChildFits(off, n, i);
    WordSame(a, b, off + 288 + 8 * i, ChildOffset(off, n, i));
    NodeSame(a, b, ChildOffset(off, n, i), n.children[i]);
  }

  lemma ChildFits(off: nat, n: Node, i: nat)
    requires n.Folder? && i < |n.children|
    ensures ChildOffset(off, n, i) + Size(n.children[i]) == ChildOffset(off, n, i + 1) <= off + Size(n)
  {
    BeforeMonotone(n.children, i + 1, |n.children|);
  }

  // ----- the fields as numbers and bytes -----

  /** Bytes as a number, least significant first. */
  function Value(bytes: seq<byte>): nat {
    if bytes == [] then 0
    else
      var b: int := bytes[0];
      b + 256 * Value(bytes[1..])
  }

  /** The number in the eight bytes of a field. */
  function Field(a: seq<byte>, pos: nat): nat
    requires pos + 8 <= |a|
  {
    Value(a[pos..pos + 8])
  }

  const Limit: nat := 0x1_0000_0000_0000_0000

  /** `x` has at most `n` bytes. */
  predicate Fits(x: nat, n: nat) {
    if n == 0 then x == 0 else Fits(x / 256, n - 1)
  }

  lemma FitsField(x: nat, n: nat)
    requires x < Limit && n == 8
    ensures Fits(x, n)
  {
    var x4 := x / 256 / 256 / 256 / 256;
    assert Fits(x4, n - 4) by {
      assert Fits(x4 / 256 / 256, n - 6);
    }
    assert Fits(x / 256 / 256, n - 2);
  }

  lemma {:induction false} ValueOfDigits(d: seq<byte>, x: nat)
    requires Fits(x, |d|) && forall i {:trigger d[i]} :: 0 <= i < |d| ==> d[i] == Digit(x, i)
    ensures Value(d) == x
  {
    if d != [] {
      forall i | 0 <= i < |d| - 1
        ensures d[1..][i] == Digit(x / 256, i)
      {
        assert d[i + 1] == Digit(x, i + 1);
      }
      ValueOfDigits(d[1..], x / 256);
      assert d[0] == Digit(x, 0);
    }
  }

  /** A field holds its number. */
  lemma FieldIs(a: seq<byte>, pos: nat, x: nat)
    requires WordAt(a, pos, x) && x < Limit
    ensures Field(a, pos) == x
  {
    FitsField(x, 8);
    ValueOfDigits(Word(x), x);
  }

  lemma {:induction false} DigitsOf(bytes: seq<byte>, i: nat)
    requires i < |bytes|
    ensures Digit(Value(bytes), i) == bytes[i]
  {
    var rest := Value(bytes[1..]);
    assert Value(bytes) / 256 == rest && Value(bytes) % 256 == bytes[0];
    if i > 0 {
      DigitsOf(bytes[1..], i - 1);
    }
  }

  function Letters(): seq<byte> {
    [0x73, 0x6d, 0x70, 0x6c, 0x72, 0x63, 0x68, 0x76]
  }

  /** The letters "smplrchv". */
  lemma MagicLetters(letters: seq<byte>)
    requires letters == Letters()
    ensures Word(Magic) == letters
  {
    var l := letters;
    assert Value(l[8..]) == 0;
    assert l[7..][1..] == l[8..] && Value(l[7..]) == 0x76;
    assert l[6..][1..] == l[7..] && Value(l[6..]) == 0x7668;
    assert l[5..][1..] == l[6..] && Value(l[5..]) == 0x766863;
    assert l[4..][1..] == l[5..] && Value(l[4..]) == 0x76686372;
    assert l[3..][1..] == l[4..] && Value(l[3..]) == 0x766863726c;
    assert l[2..][1..] == l[3..] && Value(l[2..]) == 0x766863726c70;
    assert l[1..][1..] == l[2..] && Value(l[1..]) == 0x766863726c706d;
    assert Value(l) == Magic;
    forall i | 0 <= i < 8
      ensures Word(Magic)[i] == l[i]
    {
      DigitsOf(l, i);
    }
  }

  /** A file node byte by byte: "smplrchv", the length 296 of the structure, the name in 256 bytes, no
      flags, the size, the place of the contents right behind, and the contents. */
  lemma FileBytes(a: seq<byte>, off: nat, n: Node)
    requires NodeAt(a, off, n) && n.File? && |a| < Limit
    ensures off + 296 + |n.content| <= |a| && a[off..off + 8] == Letters() && Field(a, off + 8) == 296
    ensures a[off + 16..off + 16 + |n.name|] == n.name
    ensures forall k {:trigger a[k]} :: off + 16 + |n.name| <= k < off + 272 ==> a[k] == 0
    ensures Field(a, off + 272) == 0 && Field(a, off + 280) == |n.content| && Field(a, off + 288) == off + 296
    ensures a[off + 296..off + 296 + |n.content|] == n.content
  {
    MagicLetters(Letters());
    FieldIs(a, off + 8, 296);
    FieldIs(a, off + 272, 0);
    FieldIs(a, off + 280, |n.content|);
    FieldIs(a, off + 288, off + 296);
  }

  /** A folder node: the length of the structure with eight bytes a child, the flag, the number of
      children and the place of each, behind the structure and the children before it. */
  lemma FolderBytes(a: seq<byte>, off: nat, n: Node, i: nat)
    requires NodeAt(a, off, n) && n.Folder? && |a| < Limit && i < |n.children|
    ensures off + 288 + 8 * |n.children| <= |a| && a[off..off + 8] == Letters()
    ensures Field(a, off + 8) == 288 + 8 * |n.children| && a[off + 16..off + 16 + |n.name|] == n.name
    ensures forall k {:trigger a[k]} :: off + 16 + |n.name| <= k < off + 272 ==> a[k] == 0
    ensures Field(a, off + 272) == 1 && Field(a, off + 280) == |n.children|
    ensures Field(a, off + 288 + 8 * i) == off + 288 + 8 * |n.children| + Before(n.children, i)
  {
    assert ChildAt(a, off, n, i);
    ChildFits(off, n, i);
    MagicLetters(Letters());
    FieldIs(a, off + 8, 288 + 8 * |n.children|);
    FieldIs(a, off + 272, 1);
    FieldIs(a, off + 280, |n.children|);
    FieldIs(a, off + 288 + 8 * i, ChildOffset(off, n, i));
  }
}
