/** A plain mutable tree: the flat meaning shared by every in-memory filesystem.

    A tree maps each path to a cell. The cell's id says which node it is, so two paths with
    the same id are hard links to one node. The two resolvers of fs/memory.go, fs/trie.go and
    fs/overlay.go are functions of such a tree.
 */
module Tree {
  import opened Paths

  type Bytes = seq<bv8>

  /** A lazy file has not been read yet: its bytes are those of `source` in the layer below. */
  datatype Content = Data(bytes: Bytes) | Lazy(source: Path)

  datatype Node =
    | Dir(mode: nat, uid: nat, gid: nat)
    | File(mode: nat, uid: nat, gid: nat, content: Content)
    | Symbolic(mode: nat, uid: nat, gid: nat, target: Raw)

  datatype Cell<+I> = Cell(id: I, node: Node)

  type Tree<I> = map<Path, Cell<I>>

  datatype Error = NotExist | Invalid | Exist | Permission | Loop | NotDir

  datatype Result = Ok(path: Path) | Err(error: Error)

  const MAX_SYMLINK_DEPTH: nat := 40
  const DEFAULT_OWNER: nat := 1000

  predicate IsDirAt<I>(t: Tree<I>, p: Path) {
    p in t && t[p].node.Dir?
  }

  /** Every proper prefix of a path in the tree is a directory of the tree. */
  ghost predicate Closed<I>(t: Tree<I>) {
    forall p, k | p in t && 0 <= k < |p| :: IsDirAt(t, p[..k])
  }

  /** Hard links agree on their node, and directories have exactly one name. */
  ghost predicate Shared<I>(t: Tree<I>) {
    forall p, q | p in t && q in t && t[p].id == t[q].id ::
      t[p].node == t[q].node && (t[p].node.Dir? ==> p == q)
  }

  ghost predicate ValidTree<I>(t: Tree<I>) {
    IsDirAt(t, []) && Closed(t) && Shared(t)
  }

  lemma ParentIsDir<I>(t: Tree<I>, p: Path)
    requires ValidTree(t) && p in t && p != []
    ensures IsDirAt(t, Parent(p))
  {
    assert Parent(p) == p[..|p| - 1];
  }

  lemma AncestorIsDir<I>(t: Tree<I>, p: Path, a: Path)
    requires ValidTree(t) && p in t && Below(p, a)
    ensures IsDirAt(t, a)
  {
    assert p[..|p|] == p;
    assert a == p[..|a|];
  }

  // ----- resolution -----

  /** Where a walk ends: at an existing path, at a missing last component, or nowhere.
      `left` is how many more symlinks could have been followed. */
  datatype Walked = Found(path: Path, left: nat) | Missing(path: Path, left: nat) | Failed(error: Error)

  /** resolveAbsLocked and resolveMergedDepth: walk `rest` from the directory `cur`. `missing`
      accepts a missing last component; `keep` says whether the caller's `follow` still counts
      after a symlink in the middle (overlay) or is replaced by true (memory, trie). */
  function Walk<I>(t: Tree<I>, cur: Path, rest: seq<Name>, follow: bool, missing: bool, keep: bool, hops: nat): Walked
    decreases hops, |rest|
  {
    if rest == [] then Found(cur, hops)
    else
      var next := cur + [rest[0]];
      var last := |rest| == 1;
      if next !in t then
        if last && missing then Missing(next, hops) else Failed(NotExist)
      else if t[next].node.Symbolic? && (!last || follow) then
        if hops == 0 then Failed(Loop)
        else Walk(t, [], Resolve(cur, t[next].node.target) + rest[1..], !keep || follow, missing, keep, hops - 1)
      else if last then Found(next, hops)
      else if !t[next].node.Dir? then Failed(Invalid)
      else Walk(t, next, rest[1..], follow, missing, keep, hops)
  }

  /** One step of a walk: what the loop of each resolver decides about one component. */
  lemma WalkOnce<I>(t: Tree<I>, cur: Path, rest: seq<Name>, follow: bool, missing: bool, keep: bool, hops: nat)
    ensures rest == [] ==> Walk(t, cur, rest, follow, missing, keep, hops) == Found(cur, hops)
    ensures rest != [] ==>
            var next, last := cur + [rest[0]], |rest| == 1;
            Walk(t, cur, rest, follow, missing, keep, hops) ==
            if next !in t then
              if last && missing then Missing(next, hops) else Failed(NotExist)
            else if t[next].node.Symbolic? && (!last || follow) then
              if hops == 0 then Failed(Loop)
              else Walk(t, [], Resolve(cur, t[next].node.target) + rest[1..], !keep || follow, missing, keep, hops - 1)
            else if last then Found(next, hops)
            else if !t[next].node.Dir? then Failed(Invalid)
            else Walk(t, next, rest[1..], follow, missing, keep, hops)
  {
  }

  datatype Created = At(path: Path, left: nat) | Refused(error: Error)

  /** resolveCreatePathLocked: where a create would land. The first missing component ends the
      walk and the unread rest is kept as it is. */
  function CreateWalk<I>(t: Tree<I>, cur: Path, rest: seq<Name>, hops: nat): Created
    decreases hops, |rest|
  {
    if rest == [] then At(cur, hops)
    else
      var next := cur + [rest[0]];
      if next !in t then At(cur + rest, hops)
      else if t[next].node.Symbolic? then
        if hops == 0 then Refused(Loop)
        else CreateWalk(t, [], Resolve(cur, t[next].node.target) + rest[1..], hops - 1)
      else if |rest| == 1 then At(next, hops)
      else if !t[next].node.Dir? then Refused(Invalid)
      else CreateWalk(t, next, rest[1..], hops)
  }

  lemma CreateWalkOnce<I>(t: Tree<I>, cur: Path, rest: seq<Name>, hops: nat)
    ensures rest == [] ==> CreateWalk(t, cur, rest, hops) == At(cur, hops)
    ensures rest != [] ==>
            var next := cur + [rest[0]];
            CreateWalk(t, cur, rest, hops) ==
            if next !in t then At(cur + rest, hops)
            else if t[next].node.Symbolic? then
              if hops == 0 then Refused(Loop)
              else CreateWalk(t, [], Resolve(cur, t[next].node.target) + rest[1..], hops - 1)
            else if |rest| == 1 then At(next, hops)
            else if !t[next].node.Dir? then Refused(Invalid)
            else CreateWalk(t, next, rest[1..], hops)
  {
  }

  // What a walk promises: an existing path is in the tree, the parent of a missing one is a
  // directory, and a followed walk never ends at a symlink.
  lemma {:induction false} WalkSound<I>(t: Tree<I>, cur: Path, rest: seq<Name>, follow: bool, missing: bool,
                                        keep: bool, hops: nat)
    requires ValidTree(t) && IsDirAt(t, cur)
    ensures var w := Walk(t, cur, rest, follow, missing, keep, hops);
            && (w.Found? ==> w.path in t && w.left <= hops && (follow ==> !t[w.path].node.Symbolic?))
            && (w.Missing? ==> missing && w.path !in t && w.path != [] && IsDirAt(t, Parent(w.path)) && w.left <= hops)
    decreases hops, |rest|
  {
    if rest != [] {
      var next := cur + [rest[0]];
      assert Parent(next) == cur;
      if next in t {
        if t[next].node.Symbolic? {
          if (|rest| > 1 || follow) && hops > 0 {
            WalkSound(t, [], Resolve(cur, t[next].node.target) + rest[1..], !keep || follow, missing, keep, hops - 1);
          }
        } else if |rest| > 1 && t[next].node.Dir? {
          WalkSound(t, next, rest[1..], follow, missing, keep, hops);
        }
      }
    }
  }

  /** Every ancestor of p that exists is a directory. */
  ghost predicate ClearWay<I>(t: Tree<I>, p: Path) {
    forall k | 0 <= k < |p| && p[..k] in t :: t[p[..k]].node.Dir?
  }

  lemma DirParentIsClear<I>(t: Tree<I>, p: Path)
    requires ValidTree(t) && IsDirAt(t, Parent(p))
    ensures ClearWay(t, p)
  {
    forall k | 0 <= k < |p| && p[..k] in t ensures t[p[..k]].node.Dir? {
      assert p[..k] == if k < |p| - 1 then Parent(p)[..k] else Parent(p);
    }
  }

  // A path whose existing ancestors are all directories is its own resolution.
  lemma {:induction false} WalkClear<I>(t: Tree<I>, cur: Path, rest: seq<Name>, follow: bool, missing: bool,
                                        keep: bool, hops: nat)
    requires ValidTree(t) && IsDirAt(t, cur) && ClearWay(t, cur + rest)
    requires follow ==> cur + rest !in t || !t[cur + rest].node.Symbolic?
    ensures Walk(t, cur, rest, follow, missing, keep, hops) ==
            if cur + rest in t then Found(cur + rest, hops)
            else if missing && IsDirAt(t, Parent(cur + rest)) then Missing(cur + rest, hops)
            else Failed(NotExist)
    decreases |rest|
  {
    var all := cur + rest;
    if rest == [] {
      assert all == cur;
    } else {
      var next := cur + [rest[0]];
      assert Parent(next) == cur;
      if |rest| == 1 {
        assert next == all;
      } else {
        assert next == all[..|next|];
        assert next + rest[1..] == all;
        if next in t {
          WalkClear(t, next, rest[1..], follow, missing, keep, hops);
        } else {
          MissingIsVacant(t, next);
          assert Under(all, next);
          assert Under(Parent(all), next) by { assert Parent(all)[..|next|] == next; }
        }
      }
    }
  }

  // The same for a whole path walked from the root.
  lemma WalkResolved<I>(t: Tree<I>, p: Path, follow: bool, missing: bool, keep: bool, hops: nat)
    requires ValidTree(t) && ClearWay(t, p)
    requires follow ==> p !in t || !t[p].node.Symbolic?
    ensures Walk(t, [], p, follow, missing, keep, hops) ==
            if p in t then Found(p, hops)
            else if missing && IsDirAt(t, Parent(p)) then Missing(p, hops)
            else Failed(NotExist)
  {
    assert [] + p == p;
    WalkClear(t, [], p, follow, missing, keep, hops);
  }

  lemma {:induction false} CreateWalkDirect<I>(t: Tree<I>, cur: Path, rest: seq<Name>, hops: nat)
    requires ValidTree(t) && IsDirAt(t, cur)
    requires IsDirAt(t, Parent(cur + rest)) && (cur + rest in t ==> !t[cur + rest].node.Symbolic?)
    ensures CreateWalk(t, cur, rest, hops) == At(cur + rest, hops)
    decreases |rest|
  {
    if rest == [] {
      assert cur + rest == cur;
    } else {
      var next := cur + [rest[0]];
      if |rest| == 1 {
        assert next == cur + rest;
      } else {
        var parent := Parent(cur + rest);
        assert next == parent[..|next|];
        assert next == parent || IsDirAt(t, next);
        assert next + rest[1..] == cur + rest;
        CreateWalkDirect(t, next, rest[1..], hops);
      }
    }
  }

  // The unfollowed last link is the only one an overlay walk can end at, and following none
  // of the middle ones is not an option: every proper ancestor of the answer is a directory.
  lemma WalkEndsBelowDirectories<I>(t: Tree<I>, p: Path, follow: bool, missing: bool, keep: bool, hops: nat, k: nat)
    requires ValidTree(t)
    requires var w := Walk(t, [], p, follow, missing, keep, hops); !w.Failed? && k < |w.path|
    ensures IsDirAt(t, Walk(t, [], p, follow, missing, keep, hops).path[..k])
  {
    WalkSound(t, [], p, follow, missing, keep, hops);
    var q := Walk(t, [], p, follow, missing, keep, hops).path;
    if q !in t {
      assert q[..k] == Parent(q)[..k];
      if k == |q| - 1 { assert q[..k] == Parent(q); }
    }
  }

  // ----- the changes a filesystem makes to its tree -----

  /** Give the node with this id a dst value, at every path that links to it. */
  function SetNode<I(==)>(t: Tree<I>, id: I, node: Node): Tree<I> {
    map p | p in t :: if t[p].id == id then Cell(id, node) else t[p]
  }

  /** Drop a path and everything beneath it. */
  function Without<V>(t: map<Path, V>, root: Path): map<Path, V> {
    map p | p in t && !Under(p, root) :: t[p]
  }

  /** Where a path goes when `src` is renamed to `dst`, and where a path came from. */
  function Moved(p: Path, src: Path, dst: Path): Path {
    if Under(p, src) then dst + p[|src|..] else p
  }

  function Origin(p: Path, src: Path, dst: Path): Path {
    if Under(p, dst) then src + p[|dst|..] else p
  }

  function Relabel<V>(t: map<Path, V>, src: Path, dst: Path): map<Path, V> {
    map q | q in (set p | p in t :: Moved(p, src, dst)) && Origin(q, src, dst) in t :: t[Origin(q, src, dst)]
  }

  ghost predicate Vacant<V>(t: map<Path, V>, root: Path) {
    forall p | p in t :: !Under(p, root)
  }

  lemma MissingIsVacant<I>(t: Tree<I>, p: Path)
    requires ValidTree(t) && p !in t
    ensures Vacant(t, p)
  {
    forall q | q in t ensures !Under(q, p) {
      if Under(q, p) {
        assert q != p;
        AncestorIsDir(t, q, p);
      }
    }
  }

  lemma MovedOrigin(p: Path, src: Path, dst: Path)
    requires !Under(p, dst) && !Under(dst, src)
    ensures Origin(Moved(p, src, dst), src, dst) == p
  {
    if Under(p, src) {
      var q := Moved(p, src, dst);
      assert q[..|dst|] == dst && q[|dst|..] == p[|src|..];
      assert src + p[|src|..] == p;
    }
  }

  // A rename is an exact relabelling: a path is in the new tree precisely when it is a moved
  // path or an old path outside both subtrees, and it keeps its very cell.
  lemma RelabelAt<V>(t: map<Path, V>, src: Path, dst: Path, q: Path)
    requires Vacant(t, dst) && !Under(dst, src)
    ensures q in Relabel(t, src, dst) <==>
            if Under(q, dst) then src + q[|dst|..] in t else q in t && !Under(q, src)
    ensures q in Relabel(t, src, dst) ==> Relabel(t, src, dst)[q] == t[Origin(q, src, dst)]
  {
    var keys := set p | p in t :: Moved(p, src, dst);
    if q in keys {
      var p :| p in t && q == Moved(p, src, dst);
      MovedOrigin(p, src, dst);
      assert Under(p, src) ==> q[..|dst|] == dst;
    }
    if Under(q, dst) && src + q[|dst|..] in t {
      var p := src + q[|dst|..];
      assert p[..|src|] == src && p[|src|..] == q[|dst|..];
      assert Moved(p, src, dst) == dst + q[|dst|..] == q;
    }
    if !Under(q, dst) && q in t && !Under(q, src) {
      assert Moved(q, src, dst) == q;
    }
  }

  // ----- each change keeps the tree well formed -----

  lemma PutValid<I>(t: Tree<I>, p: Path, c: Cell<I>)
    requires ValidTree(t) && p !in t && IsDirAt(t, Parent(p))
    requires forall q | q in t :: t[q].id != c.id
    ensures ValidTree(t[p := c])
  {
    PutClosed(t, p, c);
  }

  lemma PutClosed<I>(t: Tree<I>, p: Path, c: Cell<I>)
    requires ValidTree(t) && p !in t && IsDirAt(t, Parent(p))
    ensures Closed(t[p := c]) && IsDirAt(t[p := c], [])
  {
    var u := t[p := c];
    MissingIsVacant(t, p);
    forall q, k | q in u && 0 <= k < |q| ensures IsDirAt(u, q[..k]) {
      if q == p {
        assert p[..k] == if k < |p| - 1 then Parent(p)[..k] else Parent(p);
        assert p[..k] != p;
      } else {
        assert IsDirAt(t, q[..k]);
      }
    }
  }

  lemma AliasValid<I>(t: Tree<I>, src: Path, dst: Path)
    requires ValidTree(t) && src in t && !t[src].node.Dir? && dst !in t && IsDirAt(t, Parent(dst))
    ensures ValidTree(t[dst := t[src]])
  {
    PutClosed(t, dst, t[src]);
  }

  lemma SetNodeValid<I>(t: Tree<I>, p: Path, node: Node)
    requires ValidTree(t) && p in t && (node.Dir? <==> t[p].node.Dir?)
    ensures ValidTree(SetNode(t, t[p].id, node))
  {
    var u := SetNode(t, t[p].id, node);
    forall q, k | q in u && 0 <= k < |q| ensures IsDirAt(u, q[..k]) {
      assert IsDirAt(t, q[..k]);
    }
    assert IsDirAt(t, []);
  }

  lemma WithoutValid<I>(t: Tree<I>, root: Path)
    requires ValidTree(t) && root != []
    ensures ValidTree(Without(t, root))
  {
    var u := Without(t, root);
    forall q, k | q in u && 0 <= k < |q| ensures IsDirAt(u, q[..k]) {
      assert IsDirAt(t, q[..k]);
      assert |root| <= k ==> q[..k][..|root|] == q[..|root|];
    }
  }

  lemma RelabelValid<I>(t: Tree<I>, src: Path, dst: Path)
    requires ValidTree(t) && src in t && src != [] && dst !in t && IsDirAt(t, Parent(dst)) && !Under(dst, src)
    ensures ValidTree(Relabel(t, src, dst))
  {
    var u := Relabel(t, src, dst);
    MissingIsVacant(t, dst);
    forall q ensures (q in u <==> if Under(q, dst) then src + q[|dst|..] in t else q in t && !Under(q, src))
                  && (q in u ==> u[q] == t[Origin(q, src, dst)]) {
      RelabelAt(t, src, dst, q);
    }
    forall q, k | q in u && 0 <= k < |q| ensures IsDirAt(u, q[..k]) {
      RelabelPrefix(t, src, dst, q, k);
    }
    forall q, r | q in u && r in u && u[q].id == u[r].id
      ensures u[q].node == u[r].node && (u[q].node.Dir? ==> q == r)
    {
      if u[q].node.Dir? {
        assert Origin(q, src, dst) == Origin(r, src, dst);
        OriginInjective(q, r, src, dst);
      }
    }
  }

  lemma OriginInjective(q: Path, r: Path, src: Path, dst: Path)
    requires Origin(q, src, dst) == Origin(r, src, dst)
    requires (!Under(q, dst) ==> !Under(q, src)) && (!Under(r, dst) ==> !Under(r, src))
    ensures q == r
  {
    var o := Origin(q, src, dst);
    if Under(q, dst) && Under(r, dst) {
      assert o[|src|..] == q[|dst|..] == r[|dst|..];
      assert q == dst + q[|dst|..] && r == dst + r[|dst|..];
    }
    assert Under(q, dst) || Under(r, dst) ==> o[..|src|] == src;
  }

  // A prefix that was moved along has moved from a prefix.
  lemma PrefixMoved<I>(t: Tree<I>, src: Path, dst: Path, q: Path, k: nat)
    requires Closed(t) && Under(q, dst) && |dst| <= k < |q| && Origin(q, src, dst) in t
    ensures Under(q[..k], dst) && IsDirAt(t, Origin(q[..k], src, dst))
  {
    var a, o := q[..k], src + q[|dst|..];
    assert a[..|dst|] == dst;
    assert src + a[|dst|..] == o[..|src| + (k - |dst|)];
    assert IsDirAt(t, o[..|src| + (k - |dst|)]);
  }

  lemma RelabelPrefix<I>(t: Tree<I>, src: Path, dst: Path, q: Path, k: nat)
    requires ValidTree(t) && src in t && src != [] && dst !in t && IsDirAt(t, Parent(dst)) && !Under(dst, src)
    requires q in Relabel(t, src, dst) && k < |q|
    ensures IsDirAt(Relabel(t, src, dst), q[..k])
  {
    MissingIsVacant(t, dst);
    RelabelAt(t, src, dst, q);
    RelabelAt(t, src, dst, q[..k]);
    var a := q[..k];
    if Under(q, dst) && |dst| <= k {
      PrefixMoved(t, src, dst, q, k);
    } else if Under(q, dst) {
      assert a == dst[..k];
      assert a == if k < |dst| - 1 then Parent(dst)[..k] else Parent(dst);
      assert IsDirAt(t, a);
      assert !Under(a, dst);
      if Under(a, src) { UnderTrans(dst, a, src); }
    } else {
      assert IsDirAt(t, a);
      if Under(a, src) { UnderTrans(q, a, src); }
    }
  }
}
