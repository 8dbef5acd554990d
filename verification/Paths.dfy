/** The path algebra every filesystem layer uses (fs/fs.go).

    A clean absolute path is the list of its components, so "/" is [] and "/a/b" is
    ["a", "b"]. Text that still has to be cleaned (a symlink target, a name typed by a
    caller) is a `Raw`: whether it starts with '/', and the pieces between its slashes,
    which may be empty, "." or "..".
 */
module Paths {

  type Name = string
  type Path = seq<Name>

  datatype Raw = Raw(absolute: bool, parts: seq<string>)

  /** A component that survives cleaning. */
  predicate IsName(n: string) {
    n != "" && n != "." && n != ".."
  }

  predicate IsClean(p: seq<string>) {
    forall i | 0 <= i < |p| :: IsName(p[i])
  }

  /** parentDir: the parent of "/" is "/". */
  function Parent(p: Path): Path {
    if p == [] then [] else p[..|p| - 1]
  }

  function Base(p: Path): Name
    requires p != []
  {
    p[|p| - 1]
  }

  /** p is root or lies beneath it. */
  predicate Under(p: Path, root: Path) {
    |root| <= |p| && p[..|root|] == root
  }

  /** isDescendantPath: strictly beneath. */
  predicate Below(p: Path, root: Path) {
    Under(p, root) && p != root
  }

  /** One step of path.Clean on an absolute path: "" and "." stay, ".." goes up and stops at "/". */
  function Enter(base: Path, part: string): Path {
    if part == "" || part == "." then base
    else if part == ".." then Parent(base)
    else base + [part]
  }

  function CleanOnto(base: Path, parts: seq<string>): Path
    decreases |parts|
  {
    if parts == [] then base else CleanOnto(Enter(base, parts[0]), parts[1..])
  }

  /** Resolve: an absolute name ignores the directory. */
  function Resolve(dir: Path, name: Raw): Path {
    CleanOnto(if name.absolute then [] else dir, name.parts)
  }

  // A resolved path is clean, whatever text it came from.
  lemma {:induction false} CleanOntoIsClean(base: Path, parts: seq<string>)
    requires IsClean(base)
    ensures IsClean(CleanOnto(base, parts))
    decreases |parts|
  {
    if parts != [] {
      CleanOntoIsClean(Enter(base, parts[0]), parts[1..]);
    }
  }

  // Text that is already clean is appended component by component: this is why the resolvers
  // may join a resolved directory and the unread rest of a path.
  lemma {:induction false} CleanOntoAppends(base: Path, parts: seq<string>)
    requires IsClean(parts)
    ensures CleanOnto(base, parts) == base + parts
    decreases |parts|
  {
    if parts == [] {
      assert base + parts == base;
    } else {
      CleanOntoAppends(base + [parts[0]], parts[1..]);
      assert base + [parts[0]] + parts[1..] == base + parts;
    }
  }

  // Cleaning is done once: resolving a cleaned path again, against any directory, changes nothing.
  lemma ResolveIsIdempotent(dir: Path, again: Path, name: Raw)
    requires IsClean(dir)
    ensures IsClean(Resolve(dir, name))
    ensures Resolve(again, Raw(true, Resolve(dir, name))) == Resolve(dir, name)
  {
    var base := if name.absolute then [] else dir;
    CleanOntoIsClean(base, name.parts);
    CleanOntoAppends([], Resolve(dir, name));
    assert [] + Resolve(dir, name) == Resolve(dir, name);
  }

  // Resolution is compositional: reading a text in two pieces is reading it at once.
  lemma {:induction false} CleanOntoSplits(base: Path, a: seq<string>, b: seq<string>)
    ensures CleanOnto(base, a + b) == CleanOnto(CleanOnto(base, a), b)
    decreases |a|
  {
    if a == [] {
      assert a + b == b;
    } else {
      assert (a + b)[0] == a[0] && (a + b)[1..] == a[1..] + b;
      CleanOntoSplits(Enter(base, a[0]), a[1..], b);
    }
  }

  // ----- what cleaning means -----

  /** A name followed by ".." cancels, wherever it stands. */
  lemma DotDotCancels(base: Path, a: seq<string>, n: string, b: seq<string>)
    requires IsName(n)
    ensures CleanOnto(base, a + [n, ".."] + b) == CleanOnto(base, a + b)
  {
    var here := CleanOnto(base, a);
    CleanOntoSplits(base, a + [n, ".."], b);
    CleanOntoSplits(base, a, [n, ".."]);
    CleanOntoSplits(base, a, b);
    assert [n, ".."][1..] == [".."] && [".."][1..] == [];
    assert CleanOnto(here, [n, ".."]) == CleanOnto(here + [n], [".."]) == Parent(here + [n]) == here;
  }

  /** The root is its own parent. */
  lemma DotDotAtRoot(b: seq<string>)
    ensures CleanOnto([], [".."] + b) == CleanOnto([], b)
  {
    assert ([".."] + b)[1..] == b;
  }

  /** Empty pieces and "." count for nothing, wherever they stand. */
  lemma NothingPieces(base: Path, a: seq<string>, piece: string, b: seq<string>)
    requires piece == "" || piece == "."
    ensures CleanOnto(base, a + [piece] + b) == CleanOnto(base, a + b)
  {
    CleanOntoSplits(base, a + [piece], b);
    CleanOntoSplits(base, a, [piece]);
    CleanOntoSplits(base, a, b);
    assert [piece][1..] == [];
  }

  /** A relative name is read from the directory, an absolute one from the root. */
  lemma ResolveJoins(dir: Path, parts: seq<string>)
    requires IsClean(dir)
    ensures Resolve(dir, Raw(false, parts)) == Resolve([], Raw(true, dir + parts))
    ensures Resolve(dir, Raw(true, parts)) == Resolve([], Raw(true, parts))
  {
    CleanOntoSplits([], dir, parts);
    CleanOntoAppends([], dir);
    assert [] + dir == dir;
  }

  lemma UnderTrans(p: Path, q: Path, r: Path)
    requires Under(p, q) && Under(q, r)
    ensures Under(p, r)
  {
    assert p[..|r|] == p[..|q|][..|r|];
  }

  lemma UnderParent(p: Path, root: Path)
    ensures p != [] && Under(Parent(p), root) ==> Under(p, root)
  {
    assert p != [] && |root| < |p| ==> p[..|root|] == Parent(p)[..|root|];
  }

  // Two ancestors of one path are comparable.
  lemma UnderLinear(p: Path, a: Path, b: Path)
    requires Under(p, a) && Under(p, b)
    ensures Under(a, b) || Under(b, a)
  {
    if |a| <= |b| {
      assert b[..|a|] == p[..|b|][..|a|] == p[..|a|];
    } else {
      assert a[..|b|] == p[..|a|][..|b|] == p[..|b|];
    }
  }
}
