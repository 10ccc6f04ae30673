/** saf-extract: reading the fields of an archive and rebuilding its tree. */
module SafRead {
  import opened Words
  import opened SafFormat
  import opened SafMake

  function Number(d: seq<byte>): nat {
    if |d| == 0 then 0 else d[0] + 256 * Number(d[1..])
  }

  /** Numbers of `n` bytes are below this. */
  function Limit(n: nat): nat {
    if n == 0 then 1 else 256 * Limit(n - 1)
  }

  lemma {:induction false} NumberOfDigits(x: nat, d: seq<byte>)
    requires x < Limit(|d|) && forall i :: 0 <= i < |d| ==> d[i] == Digit(x, i)
    ensures Number(d) == x
    decreases |d|
  {
    if |d| > 0 {
      forall i | 0 <= i < |d| - 1
        ensures d[1..][i] == Digit(x / 256, i)
      {
        assert d[1..][i] == d[i + 1] == Digit(x, i + 1);
      }
      NumberOfDigits(x / 256, d[1..]);
    }
  }

  lemma WordLimit(n: nat)
    requires n == 8
    ensures Limit(n) == 0x1_0000_0000_0000_0000
  {
    assert Limit(4) == 0x1_0000_0000;
    assert Limit(n - 2) == 256 * Limit(n - 3) && Limit(n - 3) == 256 * Limit(4);
  }

  /** Read a number field, which holds `x`. */
  method ReadWord(a: seq<byte>, pos: nat, ghost x: nat) returns (r: nat)
    requires WordAt(a, pos, x) && x < 0x1_0000_0000_0000_0000
    ensures r == x
  {
    var d := a[pos..pos + 8];
    WordLimit(|d|);
    forall i | 0 <= i < 8
      ensures d[i] == Digit(x, i)
    {
      assert d[i] == Word(x)[i];
    }
    NumberOfDigits(x, d);
    r := Number(d);
  }

  /** The string in a name field: the bytes before the first zero. */
  method ReadName(a: seq<byte>, pos: nat, ghost name: seq<byte>) returns (s: seq<byte>)
    requires IsName(name) && NameAt(a, pos, name)
    ensures s == name
  {
    var i := 0;
    while a[pos + i] != 0
      invariant i <= |name|
      decreases |name| - i
    {
      i := i + 1;
    }
    s := a[pos..pos + i];
    assert s == name;
  }

  /** The flag that tells folders from files. */
  function Flags(n: Node): nat {
    if n.Folder? then 1 else 0
  }

  /** parsenode: rebuild a node and everything below it; none where the program reports damage. */
  method ParseNode(a: seq<byte>, off: nat, ghost n: Node) returns (tree: Option<Node>)
    requires NodeAt(a, off, n) && WellNamed(n) && |a| < 0x1_0000_0000_0000_0000
    ensures tree == Some(n)
    decreases n, 1
  {
    var magic := ReadWord(a, off, Magic);
    if magic != Magic {
      return None;
    }
    var name := ReadName(a, off + 16, n.name);
    var flags := ReadWord(a, off + 272, Flags(n));
    if flags == 1 {
      var children := ParseChildren(a, off, n);
      tree := Some(Folder(name, children));
    } else {
      var content := ReadContent(a, off, n);
      tree := Some(File(name, content));
    }
  }

  method ReadContent(a: seq<byte>, off: nat, ghost n: Node) returns (content: seq<byte>)
    requires NodeAt(a, off, n) && n.File? && |a| < 0x1_0000_0000_0000_0000
    ensures content == n.content
  {
    var addr := ReadWord(a, off + 288, off + 296);
    var size := ReadWord(a, off + 280, |n.content|);
    content := a[addr..addr + size];
  }

  method ParseChildren(a: seq<byte>, off: nat, ghost n: Node) returns (children: seq<Node>)
    requires NodeAt(a, off, n) && WellNamed(n) && n.Folder? && |a| < 0x1_0000_0000_0000_0000
    ensures children == n.children
    decreases n, 0
  {
    var count := ReadWord(a, off + 280, |n.children|);
    children := [];
    for i := 0 to count
      invariant children == n.children[..i]
    {
      var at := ReadChild(a, off, n, i);
      var child := ParseNode(a, at, n.children[i]);
      children := children + [child.value];
    }
    assert n.children[..count] == n.children;
  }

  /** The offset of child `i`, where that child is laid out. */
  method ReadChild(a: seq<byte>, off: nat, ghost n: Node, i: nat) returns (at: nat)
    requires NodeAt(a, off, n) && n.Folder? && i < |n.children| && |a| < 0x1_0000_0000_0000_0000
    ensures NodeAt(a, at, n.children[i])
  {
    assert ChildAt(a, off, n, i);
    ChildFits(off, n, i);
    at := ReadWord(a, off + 288 + 8 * i, ChildOffset(off, n, i));
  }

  /** Writing an archive and extracting it gives the same tree. */
  method RoundTrip(children: seq<Node>) returns (tree: Option<Node>)
    requires Size(Folder([], children)) < 0x1_0000_0000_0000_0000
    requires forall i :: 0 <= i < |children| ==> WellNamed(children[i])
    ensures tree == Some(Folder([], children))
  {
    var ok, archive := Make(children);
    tree := ParseNode(archive, 0, Folder([], children));
  }
}
