/** Lookup in the initial ramdisk: a path followed through a SAF archive. */
module Initrd {
  import opened Words
  import opened SafFormat
  import opened SafRead

  const Slash: byte := 47

  // ----- the walk on the tree -----

  /** A path without zero bytes, as a C string holds it. */
  predicate IsPath(path: seq<byte>) {
    forall i :: 0 <= i < |path| ==> path[i] != 0
  }

  /** Bytes up to the next slash or the end. */
  function ComponentLength(path: seq<byte>): (k: nat)
    ensures k <= |path| && (k < |path| ==> path[k] == Slash) && forall i :: 0 <= i < k ==> path[i] != Slash
  {
    if |path| == 0 || path[0] == Slash then 0 else 1 + ComponentLength(path[1..])
  }

  /** The names between slashes; runs of slashes separate like one. */
  function Components(path: seq<byte>): seq<seq<byte>>
    decreases |path|
  {
    if |path| == 0 then []
    else if path[0] == Slash then Components(path[1..])
    else [path[..ComponentLength(path)]] + Components(path[ComponentLength(path)..])
  }

  /** ASCII letters in lower case. */
  function Fold(c: byte): byte {
    if 65 <= c <= 90 then c + 32 else c
  }

  predicate SameName(a: seq<byte>, b: seq<byte>) {
    |a| == |b| && forall i {:trigger a[i]} {:trigger b[i]} :: 0 <= i < |a| ==> Fold(a[i]) == Fold(b[i])
  }

  /** Number of the first node of a name from `i` on; the length of the list if there is none. */
  function FirstMatch(ns: seq<Node>, name: seq<byte>, i: nat): (k: nat)
    requires i <= |ns|
    ensures i <= k <= |ns|
    decreases |ns| - i
  {
    if i == |ns| || SameName(name, ns[i].name) then i else FirstMatch(ns, name, i + 1)
  }

  datatype Outcome = Found(node: Node) | Missing | NotAFolder

  /** The first-match walk along a list of names. */
  function Walk(n: Node, names: seq<seq<byte>>): Outcome
    decreases |names|
  {
    if |names| == 0 then Found(n)
    else if n.File? then NotAFolder
    else
      var k := FirstMatch(n.children, names[0], 0);
      if k == |n.children| then Missing else Walk(n.children[k], names[1..])
  }

  // ----- what the walk comes to -----

  /** The same byte, or the same ASCII letter in the other case. */
  predicate SameLetter(c: byte, d: byte) {
    c == d || (65 <= c <= 90 && d == c + 32) || (65 <= d <= 90 && c == d + 32)
  }

  predicate CaseTwin(a: seq<byte>, b: seq<byte>) {
    |a| == |b| && forall i {:trigger a[i]} {:trigger b[i]} :: 0 <= i < |a| ==> SameLetter(a[i], b[i])
  }

  lemma FoldIs(c: byte, d: byte)
    ensures Fold(c) == Fold(d) <==> SameLetter(c, d)
  {
  }

  lemma SameNameIs(a: seq<byte>, b: seq<byte>)
    ensures SameName(a, b) <==> CaseTwin(a, b)
  {
    if |a| == |b| {
      forall i | 0 <= i < |a|
        ensures Fold(a[i]) == Fold(b[i]) <==> SameLetter(a[i], b[i])
      {
        FoldIs(a[i], b[i]);
      }
    }
  }

  /** The first node from `i` on whose name differs from the one looked up at most in case. */
  lemma {:induction false} FirstMatchIs(ns: seq<Node>, name: seq<byte>, i: nat)
    requires i <= |ns|
    ensures var k := FirstMatch(ns, name, i);
      && (k < |ns| ==> CaseTwin(name, ns[k].name))
      && forall j {:trigger ns[j]} :: i <= j < k ==> !CaseTwin(name, ns[j].name)
    decreases |ns| - i
  {
    if i < |ns| {
      SameNameIs(name, ns[i].name);
      if !SameName(name, ns[i].name) {
        FirstMatchIs(ns, name, i + 1);
      }
    }
  }

  lemma {:induction false} FirstMatchTwins(ns: seq<Node>, a: seq<byte>, b: seq<byte>, i: nat)
    requires CaseTwin(a, b) && i <= |ns|
    ensures FirstMatch(ns, a, i) == FirstMatch(ns, b, i)
    decreases |ns| - i
  {
    if i < |ns| {
      SameNameIs(a, b);
      FirstMatchTwins(ns, a, b, i + 1);
    }
  }

  /** The lookup does not depend on the case of letters. */
  lemma {:induction false} WalkIgnoresCase(n: Node, a: seq<seq<byte>>, b: seq<seq<byte>>)
    requires |a| == |b| && forall i {:trigger a[i]} {:trigger b[i]} :: 0 <= i < |a| ==> CaseTwin(a[i], b[i])
    ensures Walk(n, a) == Walk(n, b)
    decreases |a|
  {
    if |a| > 0 && n.Folder? {
      FirstMatchTwins(n.children, a[0], b[0], 0);
      var k := FirstMatch(n.children, a[0], 0);
      if k < |n.children| {
        WalkIgnoresCase(n.children[k], a[1..], b[1..]);
      }
    }
  }

  /** A slash separates: the names of two paths around it are those of the first, then those of the
      second; a path without one is a name. */
  lemma {:induction false} ComponentsSplit(a: seq<byte>, b: seq<byte>)
    ensures Components(a + [Slash] + b) == Components(a) + Components(b)
    decreases |a|
  {
    var path := a + [Slash] + b;
    if a == [] {
      assert path[1..] == b && path[0] == Slash;
    } else if a[0] == Slash {
      ComponentsSplit(a[1..], b);
      assert path[0] == Slash && path[1..] == a[1..] + [Slash] + b;
    } else {
      var k := ComponentLength(a);
      LengthIs(a, b);
      assert path[..k] == a[..k] && path[k..] == a[k..] + [Slash] + b;
      if k < |a| {
        ComponentsSplit(a[k..], b);
      } else {
        assert a[k..] == [] && path[k..] == [Slash] + b && ([Slash] + b)[1..] == b;
        assert Components(path[k..]) == Components(b);
      }
    }
  }

  lemma {:induction false} LengthIs(a: seq<byte>, b: seq<byte>)
    ensures ComponentLength(a + [Slash] + b) == ComponentLength(a)
    decreases |a|
  {
    if a == [] {
      assert ([] + [Slash] + b)[0] == Slash;
    } else if a[0] != Slash {
      assert (a + [Slash] + b)[1..] == a[1..] + [Slash] + b;
      LengthIs(a[1..], b);
    }
  }

  lemma OneName(name: seq<byte>)
    requires name != [] && forall i {:trigger name[i]} :: 0 <= i < |name| ==> name[i] != Slash
    ensures Components(name) == [name]
  {
    assert ComponentLength(name) == |name|;
    assert name[..|name|] == name && name[|name|..] == [];
  }

  // ----- the lookup in the archive -----

  datatype Result = At(off: nat) | Nothing | AssertFailed

  /** strcasecmp of a string with a name field. */
  method SameAsField(s: seq<byte>, a: seq<byte>, pos: nat, ghost name: seq<byte>) returns (same: bool)
    requires IsPath(s) && IsName(name) && NameAt(a, pos, name)
    ensures same == SameName(s, name)
  {
    var i := 0;
    while i < |s| && Fold(s[i]) == Fold(a[pos + i])
      invariant i <= |s| && i <= |name|
      invariant forall k {:trigger s[k]} {:trigger name[k]} :: 0 <= k < i ==> Fold(s[k]) == Fold(name[k])
    {
      assert i < |name|;
      i := i + 1;
    }
    same := (if i < |s| then Fold(s[i]) else 0) == Fold(a[pos + i]);
    if i < |s| && i < |name| {
      assert a[pos + i] == name[i];
    }
  }

  /** copy_until a slash; the rest starts behind it. */
  method CopyUntil(path: seq<byte>) returns (name: seq<byte>, rest: seq<byte>)
    ensures name == path[..ComponentLength(path)]
    ensures rest == path[if ComponentLength(path) < |path| then ComponentLength(path) + 1 else |path|..]
  {
    var i := 0;
    while i < |path| && path[i] != Slash
      invariant i <= ComponentLength(path)
    {
      i := i + 1;
    }
    name := path[..i];
    rest := path[i + (if i == |path| then 0 else 1)..];
  }

  method SkipSlashes(path: seq<byte>) returns (rest: seq<byte>)
    ensures Components(rest) == Components(path) && |rest| <= |path| && (|rest| > 0 ==> rest[0] != Slash)
    ensures IsPath(path) ==> IsPath(rest)
  {
    rest := path;
    while |rest| > 0 && rest[0] == Slash
      invariant Components(rest) == Components(path) && |rest| <= |path| && (IsPath(path) ==> IsPath(rest))
      decreases |rest|
    {
      rest := rest[1..];
    }
  }

  /** The rest of a path has the remaining components. */
  lemma RestComponents(path: seq<byte>, rest: seq<byte>)
    requires |path| > 0 && path[0] != Slash
    requires rest == path[if ComponentLength(path) < |path| then ComponentLength(path) + 1 else |path|..]
    ensures Components(path) == [path[..ComponentLength(path)]] + Components(rest)
  {
    var k := ComponentLength(path);
    if k < |path| {
      assert path[k..][1..] == rest;
    } else {
      assert path[k..] == rest;
    }
  }

  /** initrd_find. The name buffer holds components of less than 128 bytes. */
  method Find(path0: seq<byte>, a: seq<byte>, off: nat, ghost n: Node) returns (r: Result)
    requires NodeAt(a, off, n) && WellNamed(n) && |a| < 0x1_0000_0000 && IsPath(path0)
    requires forall i :: 0 <= i < |Components(path0)| ==> |Components(path0)[i]| < 128
    ensures match Walk(n, Components(path0))
      case Found(m) => r.At? && NodeAt(a, r.off, m)
      case Missing => r == Nothing
      case NotAFolder => r == AssertFailed
    decreases |path0|
  {
    var path := SkipSlashes(path0);
    if |path| == 0 {
      return At(off);
    }
    var name, rest := CopyUntil(path);
    RestComponents(path, rest);
    var flags := ReadWord(a, off + 272, Flags(n));
    if flags != 1 {
      return AssertFailed;
    }
    var found, k, child := Search(a, off, n, name);
    if !found {
      return Nothing;
    }
    assert Components(path)[1..] == Components(rest);
    r := Find(rest, a, child, n.children[k]);
  }

  /** The loop over the children: the first of that name, if any. */
  method Search(a: seq<byte>, off: nat, ghost n: Node, name: seq<byte>) returns (found: bool, k: nat, child: nat)
    requires NodeAt(a, off, n) && WellNamed(n) && n.Folder? && |a| < 0x1_0000_0000 && IsPath(name)
    ensures k == FirstMatch(n.children, name, 0) && found == (k < |n.children|)
    ensures found ==> NodeAt(a, child, n.children[k])
  {
    var count := ReadWord(a, off + 280, |n.children|);
    k, child := 0, 0;
    while k < count
      invariant k <= |n.children| && FirstMatch(n.children, name, k) == FirstMatch(n.children, name, 0)
    {
      child := ReadChild(a, off, n, k);
      var same := SameAsField(name, a, child + 16, n.children[k].name);
      if same {
        return true, k, child;
      }
      k := k + 1;
    }
    found := false;
  }
}
