/** Listing, removing and renaming in the merged view (fs/overlay.go:122-189, 396-503).

    A rename moves upper entries as nodes, copies lower files up lazily and recreates
    directories, child by child. `MovedPart` is the invariant of that recursion: the children
    handled so far have arrived at the destination and the others are untouched.
 */
module OverlayMove {
  import opened Paths
  import opened Tree
  import opened MemoryOps
  import opened MemoryDirect
  import opened PlainTree
  import opened OverlayView
  import opened OverlaySteps
  import opened Listing
  import opened PlainLaws
  import opened WalkLaws

  // ----- listing -----

  /** What the lower layer contributes to the listing of p. */
  function LowerNames(s: Layers, p: Path): set<Name> {
    if Lstat(s.lower, p).Found? && p !in s.dead && ReadNames(s.lower, p).Names? then
      set n | n in ReadNames(s.lower, p).names && !Hidden(s.dead, p + [n])
    else {}
  }

  /** Looking the path up in the lower layer fails with something else than a missing entry:
      the lower layer has a file, or a bad symlink, on the way to it. */
  predicate Blocked(s: Layers, p: Path) {
    var w := Lstat(s.lower, p);
    w.Failed? && w.error != NotExist
  }

  /** ReadDir cannot list p: the lookup below is blocked, or it finds something that is not a
      directory and is hidden only by a tombstone further up. */
  predicate Troubled(s: Layers, p: Path) {
    Blocked(s, p) || (Lstat(s.lower, p).Found? && p !in s.dead && ReadNames(s.lower, p).NoNames?)
  }

  /** The error such a listing ends with. */
  function TroubleError(s: Layers, p: Path): Error
    requires Troubled(s, p)
  {
    if Blocked(s, p) then Lstat(s.lower, p).error else ReadNames(s.lower, p).error
  }

  lemma LowerNamesAt(s: Layers, p: Path, n: Name)
    requires Sound(s) && IsDirAt(Merge(s), p)
    ensures n in LowerNames(s, p) && p + [n] !in s.upper.t ==> FromLower(s, p + [n])
    ensures FromLower(s, p + [n]) ==> n in LowerNames(s, p) && Lstat(s.lower, p).Found? && p !in s.dead
  {
    var c := p + [n];
    assert Parent(c) == p;
    if n in LowerNames(s, p) || FromLower(s, c) {
      WaysAreClear(s, c);
      assert forall k | 0 <= k < |p| :: c[..k] == p[..k];
      assert c[..|p|] == p;
      WalkResolved(s.lower, p, false, false, false, MAX_SYMLINK_DEPTH);
      if FromLower(s, c) {
        assert IsDirAt(s.lower, c[..|p|]);
        assert p in s.dead ==> Hidden(s.dead, c);
      }
      WalkResolved(s.lower, p, true, false, false, MAX_SYMLINK_DEPTH);
      ChildAt(s.lower, p, n);
    }
  }

  // The names of the upper directory and the unhidden names of the lower one are the children
  // of the merged directory.
  lemma ListingInView(s: Layers, p: Path)
    requires Sound(s) && IsDirAt(Merge(s), p)
    ensures p in s.upper.t ==> ReadNames(s.upper.t, p) == Names(Children(s.upper.t, p))
    ensures LowerNames(s, p) + (if p in s.upper.t then Children(s.upper.t, p) else {}) == Children(Merge(s), p)
  {
    if p in s.upper.t {
      WalkResolved(s.upper.t, p, true, false, false, MAX_SYMLINK_DEPTH);
    }
    forall n ensures n in Children(Merge(s), p) <==>
                     n in LowerNames(s, p) + (if p in s.upper.t then Children(s.upper.t, p) else {}) {
      ChildAt(Merge(s), p, n);
      ChildAt(s.upper.t, p, n);
      LowerNamesAt(s, p, n);
      if p + [n] in s.upper.t {
        assert Parent(p + [n]) == p;
        ParentIsDir(s.upper.t, p + [n]);
      }
    }
  }

  // ----- removing -----

  lemma DroppedFromView(s: Layers, p: Path, dead: set<Path>)
    requires Sound(s) && p in Merge(s) && p != []
    requires s.dead <= dead <= s.dead + {p} && (p in s.lower ==> p in dead)
    ensures var s' := s.(upper := s.upper.(t := Without(s.upper.t, p)), dead := dead);
            Sound(s') && Step(Merge(s), Drop(p), Merge(s')) && Shrinks(s, s')
  {
    var s' := s.(upper := s.upper.(t := Without(s.upper.t, p)), dead := dead);
    DropInView(s, p, dead);
    MergeValid(s);
    DropStep(Merge(s), p);
    forall q | FromLower(s', q) ensures FromLower(s, q) {
      FromLowerInView(s', q);
      FromLowerInView(s, q);
    }
  }

  // Where the lower lookup is blocked the lower layer shows nothing, so dropping the upper entry
  // alone already removes it from the view.
  lemma BlockedIsAbove(s: Layers, p: Path)
    requires Sound(s) && p in Merge(s) && Blocked(s, p)
    ensures p !in s.lower && p in s.upper.t
  {
    if p in s.lower {
      WalkResolved(s.lower, p, false, false, false, MAX_SYMLINK_DEPTH);
    }
  }

  lemma LowerEntryIsSeen(s: Layers, p: Path)
    requires Sound(s) && p in s.lower
    ensures Lstat(s.lower, p).Found?
  {
    WalkResolved(s.lower, p, false, false, false, MAX_SYMLINK_DEPTH);
  }

  lemma NotAboveIsVacant(s: Layers, p: Path)
    requires Sound(s) && p !in s.upper.t
    ensures Without(s.upper.t, p) == s.upper.t
  {
    MissingIsVacant(s.upper.t, p);
  }

  lemma UpperRemoval(s: Layers, p: Path, recursive: bool)
    requires Sound(s) && p in s.upper.t && p != [] && (recursive || Children(Merge(s), p) == {})
    ensures Remove(s.upper, p, recursive) == Out(s.upper.(t := Without(s.upper.t, p)), Ok(p))
  {
    ParentIsDir(s.upper.t, p);
    forall n ensures n in Children(s.upper.t, p) ==> n in Children(Merge(s), p) {
      ChildAt(s.upper.t, p, n);
      ChildAt(Merge(s), p, n);
    }
    RemoveDirect(s.upper, p, recursive);
  }

  // ----- moving -----

  predicate InScope(q: seq<Name>, done: set<Name>) {
    q == [] || q[0] in done
  }

  /** An upper non-directory: it keeps its node when it moves. */
  predicate Kept(s: Layers, p: Path) {
    p in s.upper.t && !s.upper.t[p].node.Dir?
  }

  ghost predicate Outside(s0: Layers, s1: Layers, src: Path, dst: Path) {
    forall p {:trigger Under(p, src), Under(p, dst)} | !Under(p, src) && !Under(p, dst) ::
      (p in s1.upper.t <==> p in s0.upper.t) && (p in s0.upper.t ==> s1.upper.t[p] == s0.upper.t[p])
  }

  /** The destination holds the merged source and its children in `done`. */
  ghost predicate Arrived(s0: Layers, s1: Layers, src: Path, dst: Path, done: set<Name>) {
    && (forall p {:trigger Under(p, dst)} | Under(p, dst) ::
          p in s1.upper.t <==> Origin(p, src, dst) in Merge(s0) && InScope(p[|dst|..], done))
    && (forall p {:trigger s1.upper.t[p]} | Under(p, dst) && p in s1.upper.t ::
          Meaning(s0.lower, s1.upper.t[p].node) == Merge(s0)[Origin(p, src, dst)].node)
  }

  /** Moved upper nodes keep their identity, everything else gets a new one of its own. */
  ghost predicate Identified(s0: Layers, s1: Layers, src: Path, dst: Path) {
    && (forall p {:trigger s1.upper.t[p]} | Under(p, dst) && p in s1.upper.t ::
          if Kept(s0, Origin(p, src, dst)) then s1.upper.t[p].id == s0.upper.t[Origin(p, src, dst)].id
          else s1.upper.t[p].id > s0.upper.next)
    && (forall p, q {:trigger s1.upper.t[p], s1.upper.t[q]}
          | Under(p, dst) && p in s1.upper.t && Under(q, dst) && q in s1.upper.t && p != q
            && !Kept(s0, Origin(p, src, dst)) && !Kept(s0, Origin(q, src, dst)) ::
          s1.upper.t[p].id != s1.upper.t[q].id)
  }

  /** Beneath the source, nothing but the children in `done` has been taken out. */
  ghost predicate Remaining(s0: Layers, s1: Layers, src: Path, done: set<Name>) {
    && (forall p {:trigger Under(p, src)} | Under(p, src) && p in s1.upper.t ::
          p in s0.upper.t && s1.upper.t[p] == s0.upper.t[p])
    && (forall p {:trigger Under(p, src)} | Under(p, src) && !InScope(p[|src|..], done) && p in s0.upper.t ::
          p in s1.upper.t)
    && (forall p {:trigger Under(p, src)} | Under(p, src) && InScope(p[|src|..], done) && p in s1.upper.t ::
          !Kept(s0, p))
    && (IsDirAt(s0.upper.t, src) ==> src in s1.upper.t)
  }

  ghost predicate MovedPart(s0: Layers, s1: Layers, src: Path, dst: Path, done: set<Name>) {
    && Sound(s1) && s1.lower == s0.lower && s1.dead == s0.dead
    && s1.upper.implicit == s0.upper.implicit && s1.upper.next >= s0.upper.next
    && Outside(s0, s1, src, dst)
    && Arrived(s0, s1, src, dst, done)
    && Identified(s0, s1, src, dst)
    && Remaining(s0, s1, src, done)
  }

  ghost predicate MovedAll(s0: Layers, s1: Layers, src: Path, dst: Path) {
    MovedPart(s0, s1, src, dst, Children(Merge(s0), src))
  }

  /** When a move may start: the destination is free in both layers and apart from the source. */
  ghost predicate Movable(s: Layers, src: Path, dst: Path) {
    && Sound(s) && src in Merge(s) && src != []
    && Direct(s.upper, dst) && dst !in s.upper.t
    && (forall p | p in s.lower && Under(p, dst) :: Hidden(s.dead, p))
    && !Under(dst, src) && !Under(src, dst)
  }

  /** Every directory of the subtree can be listed. */
  ghost predicate Listable(s: Layers, src: Path) {
    forall p | Under(p, src) && IsDirAt(Merge(s), p) :: !Troubled(s, p)
  }

  lemma OnlyChild(s: Layers, src: Path, p: Path)
    requires Sound(s) && src in Merge(s) && p in Merge(s) && Below(p, src)
    ensures IsDirAt(Merge(s), src) && p[|src|..] != [] && p[|src|] in Children(Merge(s), src)
    ensures Under(p, src + [p[|src|]]) && src + [p[|src|]] in Merge(s)
  {
    MergeValid(s);
    AncestorIsDir(Merge(s), p, src);
    assert p[..|p|] == p;
    var c := src + [p[|src|]];
    assert p[..|c|] == c;
    if p != c { AncestorIsDir(Merge(s), p, c); }
    ChildAt(Merge(s), src, p[|src|]);
  }

  lemma LeafHasNothingBelow(s: Layers, src: Path)
    requires Sound(s) && src in Merge(s) && !Merge(s)[src].node.Dir?
    ensures Children(Merge(s), src) == {}
    ensures forall p | p in Merge(s) && Under(p, src) :: p == src
  {
    forall p | p in Merge(s) && Under(p, src) ensures p == src {
      if p != src { OnlyChild(s, src, p); }
    }
    forall n ensures n !in Children(Merge(s), src) {
      ChildAt(Merge(s), src, n);
      assert Under(src + [n], src) by { assert (src + [n])[..|src|] == src; }
    }
  }

  lemma OriginOfDst(p: Path, src: Path, dst: Path)
    requires Under(p, dst)
    ensures Origin(p, src, dst) == src + p[|dst|..] && Under(Origin(p, src, dst), src)
    ensures Origin(p, src, dst)[|src|..] == p[|dst|..]
    ensures Origin(p, src, dst) == src <==> p == dst
  {
    var o := src + p[|dst|..];
    assert o[..|src|] == src && o[|src|..] == p[|dst|..];
    assert p == dst + p[|dst|..];
  }

  // Moving an upper non-directory as a node.
  lemma MoveUpperLeaf(s: Layers, src: Path, dst: Path)
    requires Movable(s, src, dst) && Kept(s, src)
    ensures Rename(s.upper, src, dst) == Out(s.upper.(t := Relabel(s.upper.t, src, dst)), Ok(dst))
    ensures MovedAll(s, s.(upper := s.upper.(t := Relabel(s.upper.t, src, dst))), src, dst)
  {
    hide Relabel, ValidFS, FromLower, Hidden;
    SoundParts(s);
    ParentIsDir(s.upper.t, src);
    RenameDirect(s.upper, src, dst);
    LeafHasNothingBelow(s, src);
    var u := Relabel(s.upper.t, src, dst);
    MissingIsVacant(s.upper.t, dst);
    forall p ensures p in u <==> if Under(p, dst) then p == dst else p in s.upper.t && p != src
             ensures p in u ==> u[p] == if p == dst then s.upper.t[src] else s.upper.t[p] {
      RelabelAt(s.upper.t, src, dst, p);
      if Under(p, dst) {
        OriginOfDst(p, src, dst);
        if Origin(p, src, dst) in s.upper.t {
          assert Origin(p, src, dst) in Merge(s);
        }
      } else if Under(p, src) && p in s.upper.t {
        assert p in Merge(s);
      }
    }
    MovedLeaf(s, s.(upper := s.upper.(t := u)), src, dst);
  }

  // The new upper layer of a moved leaf, pinned down path by path, satisfies the invariant.
  lemma MovedLeaf(s: Layers, s1: Layers, src: Path, dst: Path)
    requires Movable(s, src, dst) && !Merge(s)[src].node.Dir?
    requires s1 == s.(upper := s1.upper) && s1.upper.implicit == s.upper.implicit && s1.upper.next >= s.upper.next
    requires forall p :: p in s1.upper.t <==>
               if Under(p, dst) then p == dst else p in s.upper.t && (p == src ==> !Kept(s, src))
    requires forall p | p in s1.upper.t && p != dst :: s1.upper.t[p] == s.upper.t[p]
    requires dst in s1.upper.t
    requires Backed(s.lower, s1.upper.t[dst].node) && Meaning(s.lower, s1.upper.t[dst].node) == Merge(s)[src].node
    requires if Kept(s, src) then s1.upper.t[dst].id == s.upper.t[src].id && s1.upper.t[dst].node == s.upper.t[src].node
             else s1.upper.t[dst].id > s.upper.next && s1.upper.t[dst].id <= s1.upper.next
    ensures MovedAll(s, s1, src, dst)
  {
    hide Sound, Merge, FromLower, Hidden, ValidFS;
    LeafHasNothingBelow(s, src);
    NothingAboveLeaf(s, src);
    SourceInView(s, src);
    forall p | Under(p, dst) ensures p in s1.upper.t <==> Origin(p, src, dst) in Merge(s) {
      OriginOfDst(p, src, dst);
    }
    forall p | Under(p, dst) && p in s1.upper.t ensures Origin(p, src, dst) == src && p[|dst|..] == [] {
      OriginOfDst(p, src, dst);
    }
    LeafSound(s, s1, src, dst);
  }

  lemma SourceInView(s: Layers, src: Path)
    requires src in Merge(s) && !Merge(s)[src].node.Dir?
    ensures src in s.upper.t ==> Kept(s, src)
  {
  }

  lemma LeafSound(s: Layers, s1: Layers, src: Path, dst: Path)
    requires Movable(s, src, dst) && !Merge(s)[src].node.Dir?
    requires s1 == s.(upper := s1.upper) && s1.upper.next >= s.upper.next
    requires forall p :: p in s1.upper.t <==>
               if Under(p, dst) then p == dst else p in s.upper.t && (p == src ==> !Kept(s, src))
    requires forall p | p in s1.upper.t && p != dst :: s1.upper.t[p] == s.upper.t[p]
    requires dst in s1.upper.t
    requires Backed(s.lower, s1.upper.t[dst].node) && Meaning(s.lower, s1.upper.t[dst].node) == Merge(s)[src].node
    requires if Kept(s, src) then s1.upper.t[dst].id == s.upper.t[src].id && s1.upper.t[dst].node == s.upper.t[src].node
             else s1.upper.t[dst].id > s.upper.next && s1.upper.t[dst].id <= s1.upper.next
    ensures Sound(s1)
  {
    hide Merge, FromLower, Hidden, ValidFS, Closed, Shared;
    NothingAboveLeaf(s, src);
    SoundParts(s);
    LeafFS(s.upper, s1.upper, src, dst, Kept(s, src));
  }

  lemma LeafFS(u: FS, v: FS, src: Path, dst: Path, kept: bool)
    requires ValidFS(u) && dst !in u.t && dst != [] && IsDirAt(u.t, Parent(dst)) && src != [] && !Under(dst, src)
    requires forall p | p in u.t && Under(p, src) :: p == src
    requires forall p | p in v.t :: p == dst || p in u.t
    requires forall p | p in u.t && !Under(p, dst) && p != src :: p in v.t
    requires forall p | p in v.t && p != dst :: v.t[p] == u.t[p]
    requires dst in v.t && !v.t[dst].node.Dir? && v.next >= u.next
    requires if kept then src in u.t && v.t[dst] == u.t[src] else v.t[dst].id > u.next && v.t[dst].id <= v.next
    ensures ValidFS(v)
  {
    LeafTreeClosed(u.t, v.t, src, dst);
  }

  lemma NothingAboveLeaf(s: Layers, src: Path)
    requires Sound(s) && src in Merge(s) && !Merge(s)[src].node.Dir?
    ensures forall p | p in s.upper.t && Under(p, src) :: p == src
  {
    LeafHasNothingBelow(s, src);
    forall p | p in s.upper.t && Under(p, src) ensures p == src {
      UpperShows(s, p);
    }
  }

  lemma LeafTreeClosed(u: Tree<nat>, v: Tree<nat>, src: Path, dst: Path)
    requires ValidTree(u) && dst !in u && dst != [] && IsDirAt(u, Parent(dst)) && src != [] && !Under(dst, src)
    requires forall p | p in u && Under(p, src) :: p == src
    requires forall p | p in v :: p == dst || p in u
    requires forall p | p in u && !Under(p, dst) && p != src :: p in v
    requires forall p | p in v && p != dst :: v[p] == u[p]
    ensures Closed(v) && IsDirAt(v, [])
  {
    MissingIsVacant(u, dst);
    forall p, k | p in v && 0 <= k < |p| ensures IsDirAt(v, p[..k]) {
      if p == dst {
        assert p[..k] == if k < |p| - 1 then Parent(p)[..k] else Parent(p);
      }
      assert IsDirAt(u, p[..k]);
      assert p[..k] == src ==> Under(p, src);
    }
    assert IsDirAt(u, []);
  }

  // Copying a lower non-directory up, lazily, at the destination.
  lemma MoveLowerLeaf(s: Layers, src: Path, dst: Path, copy: Node)
    requires Movable(s, src, dst) && FromLower(s, src) && !s.lower[src].node.Dir?
    requires Backed(s.lower, copy) && Meaning(s.lower, copy) == s.lower[src].node
    ensures MovedAll(s, PutUpper(s, dst, copy), src, dst)
  {
    MissingIsVacant(s.upper.t, dst);
    assert Under(dst, dst) by { assert dst[..|dst|] == dst; }
    MovedLeaf(s, PutUpper(s, dst, copy), src, dst);
  }

  // A directory starts as a bare node.
  lemma MoveDirStart(s: Layers, src: Path, dst: Path, node: Node)
    requires Movable(s, src, dst) && Merge(s)[src].node == node && node.Dir?
    ensures MovedPart(s, PutUpper(s, dst, node), src, dst, {})
  {
    hide Merge, Sound, Hidden, Kept, Movable;
    BareNode(s, src, dst, node);
    SubtreeRoot(src, src, src);
    SubtreeRoot(dst, src, dst);
  }

  lemma BareNode(s: Layers, src: Path, dst: Path, node: Node)
    requires Movable(s, src, dst) && Merge(s)[src].node == node && node.Dir?
    ensures Sound(PutUpper(s, dst, node)) && !Kept(s, src) && src in Merge(s)
    ensures Vacant(s.upper.t, dst) && !Under(dst, src) && !Under(src, dst)
    ensures Meaning(s.lower, node) == node && dst != src
  {
    PutKeepsSound(s, dst, node);
    MissingIsVacant(s.upper.t, dst);
    assert Under(dst, dst) by { assert dst[..|dst|] == dst; }
  }

  lemma SubtreeRoot(root: Path, src: Path, dst: Path)
    ensures Under(root, root)
    ensures forall p | Under(p, root) :: p[|root|..] == [] <==> p == root
    ensures forall p | Under(p, dst) :: Origin(p, src, dst) == src <==> p == dst
  {
    assert root[..|root|] == root;
    forall p | Under(p, root) ensures p[|root|..] == [] <==> p == root {
      assert p == root + p[|root|..];
    }
    forall p | Under(p, dst) ensures Origin(p, src, dst) == src <==> p == dst {
      OriginOfDst(p, src, dst);
    }
  }

  // While some children have moved, the others are in the view as before.
  lemma OthersUntouched(s0: Layers, s1: Layers, src: Path, dst: Path, done: set<Name>, n: Name, p: Path)
    requires Sound(s0) && MovedPart(s0, s1, src, dst, done) && IsDirAt(Merge(s0), src) && n !in done
    requires !Under(dst, src) && !Under(src, dst) && Under(p, src + [n])
    ensures p in s1.upper.t <==> p in s0.upper.t
    ensures p in s0.upper.t ==> s1.upper.t[p] == s0.upper.t[p]
    ensures p in Merge(s1) <==> p in Merge(s0)
    ensures p in Merge(s0) ==> Merge(s1)[p] == Merge(s0)[p]
  {
    var c := src + [n];
    forall k | 0 <= k <= |p| ensures (p[..k] in s1.upper.t <==> p[..k] in s0.upper.t)
                             ensures p[..k] in s0.upper.t ==> s1.upper.t[p[..k]] == s0.upper.t[p[..k]] {
      PrefixUntouched(s0, s1, src, dst, done, n, p, k);
    }
    assert p[..|p|] == p;
  }

  lemma PrefixUntouched(s0: Layers, s1: Layers, src: Path, dst: Path, done: set<Name>, n: Name, p: Path, k: nat)
    requires Sound(s0) && MovedPart(s0, s1, src, dst, done) && IsDirAt(Merge(s0), src) && n !in done
    requires !Under(dst, src) && !Under(src, dst) && Under(p, src + [n]) && k <= |p|
    ensures p[..k] in s1.upper.t <==> p[..k] in s0.upper.t
    ensures p[..k] in s0.upper.t ==> s1.upper.t[p[..k]] == s0.upper.t[p[..k]]
  {
    hide Sound, Merge, Arrived, Identified;
    UpperOfDirectory(s0, src);
    var a, c := p[..k], src + [n];
    assert c[..|src|] == src;
    if k < |src| {
      assert a == src[..k];
      assert !Under(a, src);
      if Under(a, dst) { UnderTrans(src, a, dst); }
    } else if k == |src| {
      assert a == src && Under(a, src) by { assert src[..|src|] == src; }
    } else {
      assert Under(a, src) by { assert a[..|src|] == src; }
      assert a[|src|] == c[|src|] == n by { assert a[|src|] == p[..|c|][|src|]; }
      assert !InScope(a[|src|..], done);
    }
  }

  lemma UpperOfDirectory(s: Layers, p: Path)
    requires IsDirAt(Merge(s), p)
    ensures p in s.upper.t ==> IsDirAt(s.upper.t, p)
  {
  }

  // The next child arrives.
  lemma MoveDirStep(s0: Layers, s1: Layers, s2: Layers, src: Path, dst: Path, done: set<Name>, n: Name)
    requires Movable(s0, src, dst) && MovedPart(s0, s1, src, dst, done) && IsDirAt(Merge(s0), src)
    requires n !in done && n in Children(Merge(s0), src)
    requires MovedAll(s1, s2, src + [n], dst + [n])
    ensures MovedPart(s0, s2, src, dst, done + {n})
  {
    hide Sound, Merge, Outside, Arrived, Identified, Remaining, Movable, Children, IsDirAt;
    StepOutside(s0, s1, s2, src, dst, done, n);
    StepArrives(s0, s1, s2, src, dst, done, n);
    StepRemaining(s0, s1, s2, src, dst, done, n);
  }

  lemma StepArrives(s0: Layers, s1: Layers, s2: Layers, src: Path, dst: Path, done: set<Name>, n: Name)
    requires Movable(s0, src, dst) && MovedPart(s0, s1, src, dst, done) && IsDirAt(Merge(s0), src)
    requires n !in done && n in Children(Merge(s0), src)
    requires MovedAll(s1, s2, src + [n], dst + [n])
    ensures Arrived(s0, s2, src, dst, done + {n}) && Identified(s0, s2, src, dst)
  {
    hide Sound, Merge, Movable, MovedAll, MovedPart, Children, IsDirAt, Origin, InScope;
    forall p | Under(p, dst) ensures
      (p in s2.upper.t <==> Origin(p, src, dst) in Merge(s0) && InScope(p[|dst|..], done + {n}))
      && (p in s2.upper.t ==> Meaning(s0.lower, s2.upper.t[p].node) == Merge(s0)[Origin(p, src, dst)].node)
      && (p in s2.upper.t ==>
          if Kept(s0, Origin(p, src, dst)) then s2.upper.t[p].id == s0.upper.t[Origin(p, src, dst)].id
                              else s2.upper.t[p].id > s0.upper.next) {
      StepArrived(s0, s1, s2, src, dst, done, n, p);
    }
    StepDistinct(s0, s1, s2, src, dst, done, n);
  }

  lemma StepRegions(src: Path, dst: Path, n: Name)
    requires !Under(dst, src) && !Under(src, dst)
    ensures forall p | Under(p, src + [n]) :: Under(p, src) && p[|src|..] != [] && p[|src|] == n
    ensures forall p | Under(p, dst + [n]) :: Under(p, dst) && p[|dst|..] != [] && p[|dst|] == n
    ensures forall p | Under(p, dst) && p[|dst|..] != [] && p[|dst|] == n :: Under(p, dst + [n])
    ensures forall p | Under(p, src) && p[|src|..] != [] && p[|src|] == n :: Under(p, src + [n])
    ensures forall p :: !(Under(p, src) && Under(p, dst))
  {
    forall p, a: Path | Under(p, a + [n]) ensures Under(p, a) && p[|a|..] != [] && p[|a|] == n {
      assert p[..|a|] == p[..|a| + 1][..|a|] == a;
      assert p[|a|] == p[..|a| + 1][|a|];
    }
    forall p, a: Path | Under(p, a) && p[|a|..] != [] && p[|a|] == n ensures Under(p, a + [n]) {
      assert p[..|a| + 1] == a + [n];
    }
    forall p | Under(p, src) && Under(p, dst) ensures false {
      UnderLinear(p, src, dst);
    }
  }

  lemma StepOutside(s0: Layers, s1: Layers, s2: Layers, src: Path, dst: Path, done: set<Name>, n: Name)
    requires Movable(s0, src, dst) && MovedPart(s0, s1, src, dst, done)
    requires MovedAll(s1, s2, src + [n], dst + [n])
    ensures Outside(s0, s2, src, dst)
  {
    hide Sound, Merge;
    StepRegions(src, dst, n);
  }

  lemma OriginOfChild(p: Path, src: Path, dst: Path, n: Name)
    requires Under(p, dst + [n])
    ensures Origin(p, src, dst) == Origin(p, src + [n], dst + [n])
    ensures Under(Origin(p, src, dst), src + [n])
  {
    OriginOfDst(p, src + [n], dst + [n]);
    var d := dst + [n];
    assert p[..|dst|] == p[..|d|][..|dst|] == dst;
    assert p[|dst|] == p[..|d|][|dst|] == n;
    assert p[|dst|..] == [n] + p[|d|..];
    assert src + p[|dst|..] == src + [n] + p[|d|..];
  }

  lemma ChildArrived(s1: Layers, s2: Layers, c: Path, d: Path, p: Path)
    requires Sound(s1) && MovedAll(s1, s2, c, d) && Under(p, d)
    ensures var o := Origin(p, c, d);
            && (p in s2.upper.t <==> o in Merge(s1))
            && (p in s2.upper.t ==> Meaning(s1.lower, s2.upper.t[p].node) == Merge(s1)[o].node)
            && (p in s2.upper.t ==> if Kept(s1, o) then s2.upper.t[p].id == s1.upper.t[o].id
                                    else s2.upper.t[p].id > s1.upper.next)
  {
    hide Sound, Merge, Outside, Remaining;
    OriginOfDst(p, c, d);
    ChildScope(s1, c, Origin(p, c, d));
  }

  // A path of the child that has just arrived.
  lemma StepArrivedNew(s0: Layers, s1: Layers, s2: Layers, src: Path, dst: Path, done: set<Name>, n: Name, p: Path)
    requires Movable(s0, src, dst) && MovedPart(s0, s1, src, dst, done) && IsDirAt(Merge(s0), src)
    requires n !in done && n in Children(Merge(s0), src)
    requires MovedAll(s1, s2, src + [n], dst + [n]) && Under(p, dst + [n])
    ensures Under(p, dst) && p[|dst|..] != [] && p[|dst|] == n
    ensures p in s2.upper.t <==> Origin(p, src, dst) in Merge(s0)
    ensures p in s2.upper.t ==> Meaning(s0.lower, s2.upper.t[p].node) == Merge(s0)[Origin(p, src, dst)].node
    ensures p in s2.upper.t ==>
            if Kept(s0, Origin(p, src, dst)) then s2.upper.t[p].id == s0.upper.t[Origin(p, src, dst)].id
                                else s2.upper.t[p].id > s1.upper.next
    ensures Origin(p, src, dst) == Origin(p, src + [n], dst + [n])
    ensures Kept(s1, Origin(p, src, dst)) <==> Kept(s0, Origin(p, src, dst))
  {
    hide Sound, Merge, Outside, Remaining, Arrived, Identified, Origin, Children;
    StepRegions(src, dst, n);
    OriginOfChild(p, src, dst, n);
    ChildArrived(s1, s2, src + [n], dst + [n], p);
    OthersUntouched(s0, s1, src, dst, done, n, Origin(p, src, dst));
  }

  lemma StepArrived(s0: Layers, s1: Layers, s2: Layers, src: Path, dst: Path, done: set<Name>, n: Name, p: Path)
    requires Movable(s0, src, dst) && MovedPart(s0, s1, src, dst, done) && IsDirAt(Merge(s0), src)
    requires n !in done && n in Children(Merge(s0), src)
    requires MovedAll(s1, s2, src + [n], dst + [n]) && Under(p, dst)
    ensures p in s2.upper.t <==> Origin(p, src, dst) in Merge(s0) && InScope(p[|dst|..], done + {n})
    ensures p in s2.upper.t ==> Meaning(s0.lower, s2.upper.t[p].node) == Merge(s0)[Origin(p, src, dst)].node
    ensures p in s2.upper.t ==>
            if Kept(s0, Origin(p, src, dst)) then s2.upper.t[p].id == s0.upper.t[Origin(p, src, dst)].id
                                else s2.upper.t[p].id > s0.upper.next
  {
    hide Sound, Merge, Remaining;
    StepRegions(src, dst, n);
    if Under(p, dst + [n]) {
      StepArrivedNew(s0, s1, s2, src, dst, done, n, p);
    } else {
      hide Identified, Arrived;
      assert p in s2.upper.t <==> p in s1.upper.t;
      StepArrivedOld(s0, s1, src, dst, done, n, p);
    }
  }

  // A path of the destination outside the child: nothing has happened to it.
  lemma StepArrivedOld(s0: Layers, s1: Layers, src: Path, dst: Path, done: set<Name>, n: Name, p: Path)
    requires MovedPart(s0, s1, src, dst, done) && Under(p, dst) && !Under(p, dst + [n])
    requires !Under(dst, src) && !Under(src, dst)
    ensures p in s1.upper.t <==> Origin(p, src, dst) in Merge(s0) && InScope(p[|dst|..], done + {n})
    ensures p in s1.upper.t ==> Meaning(s0.lower, s1.upper.t[p].node) == Merge(s0)[Origin(p, src, dst)].node
    ensures p in s1.upper.t ==>
            if Kept(s0, Origin(p, src, dst)) then s1.upper.t[p].id == s0.upper.t[Origin(p, src, dst)].id
                                else s1.upper.t[p].id > s0.upper.next
  {
    hide Sound, Merge, Remaining, Outside;
    StepRegions(src, dst, n);
  }

  // Whatever is beneath a path in the view is beneath one of its children.
  lemma ChildScope(s: Layers, c: Path, p: Path)
    requires Sound(s) && Under(p, c)
    ensures p in Merge(s) ==> InScope(p[|c|..], Children(Merge(s), c))
  {
    if p in Merge(s) && p != c {
      MergeValid(s);
      AncestorIsDir(Merge(s), p, c);
      OnlyChild(s, c, p);
    }
  }

  lemma StepDistinct(s0: Layers, s1: Layers, s2: Layers, src: Path, dst: Path, done: set<Name>, n: Name)
    requires Movable(s0, src, dst) && MovedPart(s0, s1, src, dst, done) && IsDirAt(Merge(s0), src)
    requires n !in done && n in Children(Merge(s0), src)
    requires MovedAll(s1, s2, src + [n], dst + [n])
    ensures forall p, q | Under(p, dst) && p in s2.upper.t && Under(q, dst) && q in s2.upper.t && p != q
                          && !Kept(s0, Origin(p, src, dst)) && !Kept(s0, Origin(q, src, dst)) ::
              s2.upper.t[p].id != s2.upper.t[q].id
  {
    hide Merge, Children, Hidden;
    StepRegions(src, dst, n);
    forall p, q | Under(p, dst) && p in s2.upper.t && Under(q, dst) && q in s2.upper.t && p != q
                  && !Kept(s0, Origin(p, src, dst)) && !Kept(s0, Origin(q, src, dst))
      ensures s2.upper.t[p].id != s2.upper.t[q].id
    {
      if Under(p, dst + [n]) { StepArrivedNew(s0, s1, s2, src, dst, done, n, p); }
      if Under(q, dst + [n]) { StepArrivedNew(s0, s1, s2, src, dst, done, n, q); }
    }
  }

  lemma StepRemaining(s0: Layers, s1: Layers, s2: Layers, src: Path, dst: Path, done: set<Name>, n: Name)
    requires Movable(s0, src, dst) && MovedPart(s0, s1, src, dst, done) && IsDirAt(Merge(s0), src)
    requires n !in done && n in Children(Merge(s0), src) && MovedAll(s1, s2, src + [n], dst + [n])
    ensures Remaining(s0, s2, src, done + {n})
  {
    hide Sound, Merge, Children, Arrived, Identified, Movable;
    forall p | Under(p, src + [n]) && p in s2.upper.t ensures !Kept(s0, p) {
      StepTakesOut(s0, s1, s2, src, dst, done, n, p);
    }
    ApartFrom(s0, src, dst);
    StepRegions(src, dst, n);
    assert Under(src, src) by { assert src[..|src|] == src; }
  }

  lemma ApartFrom(s: Layers, src: Path, dst: Path)
    requires Movable(s, src, dst)
    ensures !Under(dst, src) && !Under(src, dst)
  {
  }

  lemma StepTakesOut(s0: Layers, s1: Layers, s2: Layers, src: Path, dst: Path, done: set<Name>, n: Name, p: Path)
    requires Movable(s0, src, dst) && MovedPart(s0, s1, src, dst, done) && IsDirAt(Merge(s0), src)
    requires n !in done && n in Children(Merge(s0), src) && MovedAll(s1, s2, src + [n], dst + [n])
    requires Under(p, src + [n]) && p in s2.upper.t
    ensures !Kept(s0, p)
  {
    assert p in s1.upper.t && s2.upper.t[p] == s1.upper.t[p];
    UpperShows(s1, p);
    ChildScope(s1, src + [n], p);
    OthersUntouched(s0, s1, src, dst, done, n, p);
    hide Sound, Merge, Children, Arrived, Identified;
  }

  // ----- the whole rename -----

  // Away from the source and the destination the view is untouched.
  lemma MovedOutside(s0: Layers, s1: Layers, src: Path, dst: Path, p: Path)
    requires Movable(s0, src, dst) && MovedAll(s0, s1, src, dst) && !Under(p, src) && !Under(p, dst)
    ensures p in Merge(s1) <==> p in Merge(s0)
    ensures p in Merge(s0) ==> Merge(s1)[p] == Merge(s0)[p]
  {
    hide Sound, Arrived, Identified, Remaining, ValidFS, Meaning;
    forall k | 0 <= k < |p| ensures !Under(p[..k], src) && !Under(p[..k], dst) {
      assert forall a: Path | |a| <= k :: p[..k][..|a|] == p[..|a|];
    }
  }

  // At the destination the view is the old source, entry by entry; what was not moved as an
  // upper node has a new identity.
  lemma MovedInside(s0: Layers, s1: Layers, src: Path, dst: Path, p: Path)
    requires Movable(s0, src, dst) && MovedAll(s0, s1, src, dst) && Under(p, dst)
    ensures var o := src + p[|dst|..];
            && Origin(p, src, dst) == o && Under(o, src)
            && (p in Merge(s1) <==> o in Merge(s0))
            && (p in Merge(s1) ==> p in s1.upper.t && Merge(s1)[p].node == Merge(s0)[o].node)
            && (p in Merge(s1) && Kept(s0, o) ==> Merge(s1)[p].id == Merge(s0)[o].id)
            && (p in Merge(s1) && !Kept(s0, o) ==> Merge(s1)[p].id.Up? && Merge(s1)[p].id.id > s0.upper.next)
  {
    OriginOfDst(p, src, dst);
    ChildArrived(s0, s1, src, dst, p);
  }

  lemma UnkeptIsAlone(s: Layers, p: Path, q: Path)
    requires Sound(s) && p in Merge(s) && q in Merge(s) && p != q && !Kept(s, p)
    ensures Merge(s)[p].id != Merge(s)[q].id
  {
  }

  lemma OldIds(s: Layers, p: Path)
    requires Sound(s) && p in Merge(s)
    ensures Merge(s)[p].id.Up? ==> Merge(s)[p].id.id <= s.upper.next
  {
  }

  lemma MovedIds(s0: Layers, s1: Layers, src: Path, dst: Path, p: Path, q: Path)
    requires Movable(s0, src, dst) && MovedAll(s0, s1, src, dst)
    requires p in Merge(s1) && q in Merge(s1) && !Under(p, src) && !Under(q, src) && p != q
    ensures var o, r := Origin(p, src, dst), Origin(q, src, dst);
            o in Merge(s0) && r in Merge(s0)
                && (Merge(s1)[p].id == Merge(s1)[q].id <==> Merge(s0)[o].id == Merge(s0)[r].id)
  {
    hide Merge, Sound, Movable, MovedPart, Kept, Children;
    var o, r := Origin(p, src, dst), Origin(q, src, dst);
    PlaceOf(s0, s1, src, dst, p);
    PlaceOf(s0, s1, src, dst, q);
    NewOnesDiffer(s0, s1, src, dst, p, q);
    if o == r {
      OriginInjective(p, q, src, dst);
    }
    OldIds(s0, o);
    OldIds(s0, r);
    if Under(p, dst) && !Kept(s0, o) {
      UnkeptIsAlone(s0, o, r);
    } else if Under(q, dst) && !Kept(s0, r) {
      UnkeptIsAlone(s0, r, o);
    }
  }

  lemma NewOnesDiffer(s0: Layers, s1: Layers, src: Path, dst: Path, p: Path, q: Path)
    requires Movable(s0, src, dst) && MovedAll(s0, s1, src, dst)
    requires p in Merge(s1) && q in Merge(s1) && p != q
    ensures Sound(s0)
    ensures Under(p, dst) && Under(q, dst) && !Kept(s0, Origin(p, src, dst)) && !Kept(s0, Origin(q, src, dst)) ==>
              Merge(s1)[p].id != Merge(s1)[q].id
  {
    if Under(p, dst) && Under(q, dst) {
      MovedInside(s0, s1, src, dst, q);
      MovedInside(s0, s1, src, dst, p);
    }
  }

  lemma PlaceOf(s0: Layers, s1: Layers, src: Path, dst: Path, p: Path)
    requires Movable(s0, src, dst) && MovedAll(s0, s1, src, dst) && p in Merge(s1) && !Under(p, src)
    ensures var o := Origin(p, src, dst);
            && o in Merge(s0) && Merge(s1)[p].node == Merge(s0)[o].node
            && (!Under(p, dst) || Kept(s0, o) ==> Merge(s1)[p].id == Merge(s0)[o].id)
            && (Under(p, dst) && !Kept(s0, o) ==> Merge(s1)[p].id.Up? && Merge(s1)[p].id.id > s0.upper.next)
  {
    if Under(p, dst) {
      MovedInside(s0, s1, src, dst, p);
    } else {
      MovedOutside(s0, s1, src, dst, p);
    }
  }

  lemma ExistsAfterMove(s0: Layers, s1: Layers, src: Path, dst: Path, p: Path)
    requires Movable(s0, src, dst) && MovedAll(s0, s1, src, dst)
    ensures (p in Merge(s1) && !Under(p, src)) <==> ExistsAfter(Merge(s0), Move(src, dst), p)
  {
    hide Merge, Movable, MovedPart, Kept;
    MoveBasics(s0, s1, src, dst);
    if Under(p, dst) {
      MovedInside(s0, s1, src, dst, p);
      if Under(p, src) { UnderLinear(p, src, dst); }
    } else if !Under(p, src) {
      MovedOutside(s0, s1, src, dst, p);
    }
  }

  // Moving and then dropping what is left at the source is one plain rename.
  lemma MoveIsAStep(s0: Layers, s1: Layers, src: Path, dst: Path)
    requires Movable(s0, src, dst) && MovedAll(s0, s1, src, dst)
    ensures Step(Merge(s0), Move(src, dst), Without(Merge(s1), src))
  {
    hide Merge, Movable, MovedPart, Children, Kept;
    var u := Without(Merge(s1), src);
    forall p ensures p in u <==> ExistsAfter(Merge(s0), Move(src, dst), p) {
      ExistsAfterMove(s0, s1, src, dst, p);
    }
    forall p | p in u ensures NodeAfter(Merge(s0), Move(src, dst), p, u[p].node) {
      PlaceOf(s0, s1, src, dst, p);
    }
    forall p, q | p in u && q in u ensures u[p].id == u[q].id <==> SharedAfter(Merge(s0), Move(src, dst), p, q) {
      if p != q {
        MovedIds(s0, s1, src, dst, p, q);
      }
    }
  }

  lemma DropAgain<I, J>(t: Tree<I>, p: Path, u: Tree<J>)
    requires Shared(t) && (Step(t, Drop(p), u) || (Vacant(t, p) && SameTree(u, t)))
    ensures SameTree(Without(t, p), u)
  {
    if Step(t, Drop(p), u) {
      DropStep(t, p);
      assert SameTree(t, t);
      StepSame(t, t, Drop(p), Without(t, p), u);
    } else {
      assert Without(t, p) == t;
    }
  }

  // The three stages of a rename - ancestors copied up, subtree moved, source removed - are one
  // plain step, and nothing becomes lower-sourced on the way.
  lemma RenamedInView(s: Layers, s0: Layers, s1: Layers, s2: Layers, src: Path, dst: Path)
    requires CopiedUp(s, s0) && Movable(s0, src, dst) && MovedAll(s0, s1, src, dst)
    requires Step(Merge(s1), Drop(src), Merge(s2)) || (src !in Merge(s1) && SameTree(Merge(s2), Merge(s1)))
    requires Shrinks(s1, s2)
    ensures Step(Merge(s), Move(src, dst), Merge(s2)) && Shrinks(s, s2)
  {
    SourceStays(s0, s1, src, dst);
    assert Sound(s1) && Shared(Merge(s1)) && (src !in Merge(s1) ==> Vacant(Merge(s1), src)) by {
      MergeValid(s1);
      if src !in Merge(s1) { MissingIsVacant(Merge(s1), src); }
    }
    MovedShrinks(s, s0, s1, s2, src, dst);
    hide Merge, Movable, MovedPart, CopiedUp, Shrinks, Children, Shared, Step;
    MoveIsAStep(s0, s1, src, dst);
    DropAgain(Merge(s1), src, Merge(s2));
    StepTo(Merge(s0), Move(src, dst), Without(Merge(s1), src), Merge(s2));
    CopiedUpSame(s, s0);
    StepFrom(Merge(s), Merge(s0), Move(src, dst), Merge(s2));
  }

  lemma MovedShrinks(s: Layers, s0: Layers, s1: Layers, s2: Layers, src: Path, dst: Path)
    requires CopiedUp(s, s0) && Movable(s0, src, dst) && MovedAll(s0, s1, src, dst)
    requires Step(Merge(s1), Drop(src), Merge(s2)) || (Vacant(Merge(s1), src) && SameTree(Merge(s2), Merge(s1)))
    requires Shrinks(s1, s2)
    ensures Shrinks(s, s2)
  {
    forall p | FromLower(s2, p) ensures FromLower(s, p) {
      FromLowerInView(s2, p);
      assert FromLower(s1, p);
      FromLowerInView(s1, p);
      assert !Under(p, src) by {
        if Step(Merge(s1), Drop(src), Merge(s2)) {
          assert ExistsAfter(Merge(s1), Drop(src), p);
        }
      }
      if Under(p, dst) {
        MovedInside(s0, s1, src, dst, p);
      } else {
        MovedOutside(s0, s1, src, dst, p);
        FromLowerInView(s0, p);
      }
    }
  }

  // What is left at the source after the move is found where it was.
  lemma MoveBasics(s0: Layers, s1: Layers, src: Path, dst: Path)
    requires Movable(s0, src, dst) && MovedAll(s0, s1, src, dst)
    ensures Sound(s0) && Sound(s1) && src in Merge(s0) && src != [] && !Under(src, dst) && !Under(dst, src)
  {
  }

  lemma SourceStays(s0: Layers, s1: Layers, src: Path, dst: Path)
    requires Movable(s0, src, dst) && MovedAll(s0, s1, src, dst)
    ensures IsDirAt(Merge(s1), Parent(src))
    ensures Look(Merge(s1), src, false, false) ==
            if src in Merge(s1) then Found(src, MAX_SYMLINK_DEPTH) else Failed(NotExist)
  {
    hide Merge, Movable, MovedPart, Sound;
    MoveBasics(s0, s1, src, dst);
    MergeValid(s0);
    MergeValid(s1);
    ParentIsDir(Merge(s0), src);
    var a := Parent(src);
    assert !Under(a, src);
    assert Under(src, a) by { assert src[..|a|] == a; }
    if Under(a, dst) { UnderTrans(src, a, dst); }
    MovedOutside(s0, s1, src, dst, a);
    DirParentIsClear(Merge(s1), src);
    WalkResolved(Merge(s1), src, false, false, true, MAX_SYMLINK_DEPTH);
  }

  // A destination the view lacks is free to move to.
  lemma DestinationIsFree(s: Layers, s0: Layers, src: Path, dst: Path)
    requires Sound(s) && CopiedUp(s, s0) && src in Merge(s) && src != []
    requires dst != [] && dst !in Merge(s) && IsDirAt(Merge(s), Parent(dst)) && IsDirAt(s0.upper.t, Parent(dst))
    requires IsDirAt(Merge(s), src) ==> !Below(dst, src)
    ensures Movable(s0, src, dst)
  {
    assert IsDirAt(Merge(s0), Parent(dst)) && dst !in Merge(s0);
    AbsentFromView(s0, dst);
    MergeValid(s);
    if Under(src, dst) {
      MissingIsVacant(Merge(s), dst);
    }
    if Under(dst, src) {
      AncestorOfMissing(Merge(s), dst, src);
    }
  }

  // Blocked lookups under the source show in its listing.
  lemma BlockedIsTroubled(s0: Layers, s1: Layers, src: Path, dst: Path)
    requires Movable(s0, src, dst) && MovedAll(s0, s1, src, dst) && src in Merge(s1) && Blocked(s1, src)
    ensures IsDirAt(Merge(s0), src) && Troubled(s0, src)
  {
    BlockedIsAbove(s1, src);
    assert Under(src, src) by { assert src[..|src|] == src; }
    if Kept(s0, src) {
      LeafHasNothingBelow(s0, src);
      LeafLeaves(s0, s1, src, dst);
    }
  }

  // A moved upper non-directory is gone from the upper layer.
  lemma LeafLeaves(s0: Layers, s1: Layers, src: Path, dst: Path)
    requires Movable(s0, src, dst) && MovedAll(s0, s1, src, dst) && Kept(s0, src)
    ensures src !in s1.upper.t
  {
    assert Under(src, src) by { assert src[..|src|] == src; }
  }

  // ----- facts the methods use, with the layers kept folded -----

  lemma EntryLayers(s: Layers, p: Path)
    requires Sound(s) && p in Merge(s) && IsDirAt(Merge(s), Parent(p))
    ensures Lstat(s.upper.t, p) == if p in s.upper.t then Found(p, MAX_SYMLINK_DEPTH) else Failed(NotExist)
    ensures p in s.upper.t ==> (s.upper.t[p].node.Dir? <==> IsDirAt(Merge(s), p))
    ensures p !in s.upper.t ==> !Hidden(s.dead, p) && Lstat(s.lower, p) == Found(p, MAX_SYMLINK_DEPTH) && p in s.lower
    ensures p !in s.upper.t ==> (s.lower[p].node.Dir? <==> IsDirAt(Merge(s), p))
  {
    WaysAreClear(s, p);
    WalkResolved(s.upper.t, p, false, false, false, MAX_SYMLINK_DEPTH);
    if p !in s.upper.t {
      WalkResolved(s.lower, p, false, false, false, MAX_SYMLINK_DEPTH);
    }
  }

  lemma BlockedIsTrouble(s: Layers, p: Path)
    requires Blocked(s, p)
    ensures Troubled(s, p) && TroubleError(s, p) == Lstat(s.lower, p).error
  {
  }

  lemma NoNamesIsTrouble(s: Layers, p: Path)
    requires Lstat(s.lower, p).Found? && p !in s.dead && ReadNames(s.lower, p).NoNames?
    ensures Troubled(s, p) && TroubleError(s, p) == ReadNames(s.lower, p).error
  {
  }

  lemma NoTrouble(s: Layers, p: Path)
    requires !Blocked(s, p) && (Lstat(s.lower, p).Found? && p !in s.dead ==> ReadNames(s.lower, p).Names?)
    ensures !Troubled(s, p)
  {
  }

  lemma LowerNamesAre(s: Layers, p: Path)
    ensures LowerNames(s, p) ==
            if Lstat(s.lower, p).Found? && p !in s.dead && ReadNames(s.lower, p).Names? then
              set n | n in ReadNames(s.lower, p).names && !Hidden(s.dead, p + [n])
            else {}
  {
  }

  lemma DirectoryFound(s: Layers, p: Path)
    requires Sound(s) && IsDirAt(Merge(s), p)
    ensures Look(Merge(s), p, true, false) == Found(p, MAX_SYMLINK_DEPTH)
  {
    MergeValid(s);
    if p != [] { ParentIsDir(Merge(s), p); }
    DirParentIsClear(Merge(s), p);
    WalkResolved(Merge(s), p, true, false, true, MAX_SYMLINK_DEPTH);
  }

  lemma SomeNames(names: seq<Name>, children: set<Name>)
    requires IsListing(names, children) && names != []
    ensures children != {}
  {
    assert names[0] in children;
  }

  lemma NoNamesLeft(names: seq<Name>, children: set<Name>)
    requires IsListing(names, children) && names == []
    ensures children == {}
  {
  }

  /** How a call ends compared with the plain tree: as decided; with the decided step made but an
      error reported; with an error and nothing changed; or stopped half way. */
  datatype Fate = AsDecided | Reported(error: Error) | Declined(error: Error) | Stuck

  /** What a lookup can fail with: a rename that stops half way reports one of these. */
  predicate LookupError(e: Error) {
    e == NotExist || e == Invalid || e == Loop
  }

  /** What each fate means for the layers. */
  ghost predicate Ends(s0: Layers, s1: Layers, d: Decision, fate: Fate, r: Result) {
    match fate
    case AsDecided => Answers(s0, s1, d, r)
    case Reported(e) => r == Err(e) && d.res.Ok? && Step(Merge(s0), d.effect, Merge(s1)) && Shrinks(s0, s1)
    case Declined(e) => r == Err(e) && d.res != r && SameTree(Merge(s1), Merge(s0)) && Shrinks(s0, s1)
    case Stuck => r.Err? && LookupError(r.error) && d.res.Ok?
  }

  /** A call does what the plain tree does if and only if its fate says so. */
  lemma FateIsExact(s0: Layers, s1: Layers, d: Decision, fate: Fate, r: Result)
    requires Ends(s0, s1, d, fate, r)
    ensures Answers(s0, s1, d, r) <==> fate == AsDecided
  {
  }

  /** When a Remove does not do what the plain tree does: the lower lookup is blocked, or a
      directory cannot be listed and is empty or would have been refused with another error. */
  ghost predicate RemoveBlocked(s: Layers, requested: Path, recursive: bool) {
    var w := Look(Merge(s), requested, false, false);
    requested != [] && w.Found? && w.path != [] &&
    if IsDirAt(Merge(s), w.path) && !recursive then
      Troubled(s, w.path) && (Children(Merge(s), w.path) == {} || TroubleError(s, w.path) != Invalid)
    else Blocked(s, w.path)
  }

  /** A blocked lookup comes after the removal, a failed listing before it. */
  ghost function RemoveFate(s: Layers, requested: Path, recursive: bool): Fate {
    if !RemoveBlocked(s, requested, recursive) then AsDecided
    else
      var p := Look(Merge(s), requested, false, false).path;
      if IsDirAt(Merge(s), p) && !recursive then Declined(TroubleError(s, p)) else Reported(Lstat(s.lower, p).error)
  }

  ghost predicate RemoveAnswers(s0: Layers, s1: Layers, requested: Path, recursive: bool, r: Result) {
    Ends(s0, s1, DecideRemove(Merge(s0), requested, recursive), RemoveFate(s0, requested, recursive), r)
  }

  // A directory that cannot be listed: nothing happens, and the error may be the right one.
  lemma RemovalDeclined(s: Layers, requested: Path)
    requires Sound(s)
    requires var w := Look(Merge(s), requested, false, false);
             requested != [] && w.Found? && w.path != [] && IsDirAt(Merge(s), w.path) && Troubled(s, w.path)
    ensures RemoveAnswers(s, s, requested, false, Err(TroubleError(s, Look(Merge(s), requested, false, false).path)))
  {
    hide Merge, Walk, Troubled, Children, Shrinks, Sound;
    NothingHappened(s);
  }

  // What the two halves of a removal leave: the upper subtree gone and the lower entry buried.
  lemma RemovalStep(s: Layers, p: Path, recursive: bool)
    requires Sound(s) && p in Merge(s) && p != [] && (recursive || Children(Merge(s), p) == {})
    ensures p in s.upper.t ==> Remove(s.upper, p, recursive) == Out(s.upper.(t := Without(s.upper.t, p)), Ok(p))
    ensures p !in s.upper.t ==> Without(s.upper.t, p) == s.upper.t && !Blocked(s, p)
    ensures var dead := if Lstat(s.lower, p).Found? then s.dead + {p} else s.dead;
            var s' := s.(upper := s.upper.(t := Without(s.upper.t, p)), dead := dead);
            Sound(s') && Step(Merge(s), Drop(p), Merge(s')) && Shrinks(s, s')
  {
    if p in s.upper.t {
      UpperRemoval(s, p, recursive);
    } else {
      NotAboveIsVacant(s, p);
      if Blocked(s, p) { BlockedIsAbove(s, p); }
    }
    if p in s.lower { LowerEntryIsSeen(s, p); }
    DroppedFromView(s, p, if Lstat(s.lower, p).Found? then s.dead + {p} else s.dead);
  }

  lemma RemovalDone(s0: Layers, s1: Layers, requested: Path, recursive: bool, r: Result)
    requires var w := Look(Merge(s0), requested, false, false);
             requested != [] && w.Found? && w.path != [] && w.path in Merge(s0)
             && (IsDirAt(Merge(s0), w.path) && !recursive ==> !Troubled(s0, w.path))
             && (recursive || Children(Merge(s0), w.path) == {})
             && Step(Merge(s0), Drop(w.path), Merge(s1)) && Shrinks(s0, s1)
             && r == if Blocked(s0, w.path) then Err(Lstat(s0.lower, w.path).error) else Ok(w.path)
    ensures RemoveAnswers(s0, s1, requested, recursive, r)
  {
  }

  /** A rename stops half way exactly when the plain tree would move a subtree in which some
      directory cannot be listed. */
  ghost function RenameFate(s: Layers, src: Path, dst: Path): Fate {
    var d := DecideRename(Merge(s), src, dst);
    if d.res.Ok? && d.effect.Move? && !Listable(s, d.effect.src) then Stuck else AsDecided
  }

  ghost predicate RenameAnswers(s0: Layers, s1: Layers, src: Path, dst: Path, r: Result) {
    Ends(s0, s1, DecideRename(Merge(s0), src, dst), RenameFate(s0, src, dst), r)
  }

  lemma SameNameAnswer(s: Layers, d: Decision, p: Path)
    requires Sound(s) && d == Decision(Ok(p), Nothing)
    ensures Answers(s, s, d, Ok(p))
  {
    NothingHappened(s);
  }

  // ----- what a caller sees of a removal and of a rename -----

  /** A removal that goes as decided keeps its law; one that is reported as an error has been made all
      the same; one that is declined has changed nothing. */
  lemma RemovalShown(s0: Layers, s1: Layers, requested: Path, recursive: bool, r: Result)
    requires Sound(s0) && RemoveAnswers(s0, s1, requested, recursive, r)
    ensures var fate, w := RemoveFate(s0, requested, recursive), Look(Merge(s0), requested, false, false);
            && (fate.AsDecided? ==> RemovesAs(Merge(s0), Merge(s1), requested, recursive, r))
            && (fate.Reported? ==>
                  && w.Found? && w.path != [] && Lost(Merge(s0), Merge(s1), w.path)
                  && (recursive || !exists q :: q in Merge(s0) && Below(q, w.path)))
            && (fate.Declined? ==> SameTree(Merge(s1), Merge(s0)))
            && (r.Ok? ==> fate.AsDecided?) && !fate.Stuck?
  {
    hide Merge, Sound, Step, SameTree, Shrinks, Look, Lost, RemoveBlocked, DecideRemove, RemovesAs;
    MergeValid(s0);
    RemovalDecided(Merge(s0), requested, recursive);
    var fate := RemoveFate(s0, requested, recursive);
    if fate.AsDecided? {
      RemoveKeeps(Merge(s0), Merge(s1), requested, recursive, r);
    } else if fate.Reported? {
      Loses(Merge(s0), Merge(s1), DecideRemove(Merge(s0), requested, recursive).res.path);
    }
  }

  /** A rename that succeeds has moved exactly the subtree; one that is refused has changed nothing,
      and it is refused with Exist exactly when both names are there, neither is the root, and they
      are not the same. */
  lemma RenameShown(s0: Layers, s1: Layers, src: Path, dst: Path, r: Result)
    requires Sound(s0) && RenameAnswers(s0, s1, src, dst, r)
    ensures RenameFate(s0, src, dst).AsDecided? ==> RenamesAs(Merge(s0), Merge(s1), src, dst, r)
    ensures r.Ok? ==> RenameFate(s0, src, dst).AsDecided? && Arrives(Merge(s0), Merge(s1), src, r.path)
    ensures RenameRefused(Merge(s0), src, dst) <==> r == Err(Exist)
  {
    hide Merge, Sound, Step, SameTree, Shrinks, Look, Relocated, Listable, DecideRename;
    MergeValid(s0);
    RenameDecided(Merge(s0), src, dst);
    LookEnds(Merge(s0), dst, false, true);
    if RenameFate(s0, src, dst).AsDecided? {
      RenameKeeps(Merge(s0), Merge(s1), src, dst, r);
      if r.Ok? { RelocatedArrives(Merge(s0), Merge(s1), Look(Merge(s0), src, false, false).path, r.path); }
    }
  }

  /** The node that was found at `src` is at `to`; unless that is where it was, nothing was there
      before, and nothing is left where it was. */
  ghost predicate Arrives<I, J>(t: Tree<I>, u: Tree<J>, src: Path, to: Path) {
    var w := Look(t, src, false, false);
    && w.Found? && w.path in t && to in u && u[to].node == t[w.path].node
    && (w.path != to ==> w.path !in u && to !in t)
  }

  lemma RelocatedArrives<I, J>(t: Tree<I>, u: Tree<J>, src: Path, dst: Path)
    requires Relocated(t, u, src, dst)
    ensures src in t && dst in u && u[dst].node == t[src].node && (src != dst ==> src !in u && dst !in t)
  {
  }

  /** Both names are there, neither is the root, and they are not the same. */
  ghost predicate RenameRefused<I>(t: Tree<I>, src: Path, dst: Path) {
    var w, v := Look(t, src, false, false), Look(t, dst, false, true);
    && src != [] && dst != []
    && w.Found? && v.Found? && w.path != [] && v.path != [] && w.path != v.path
  }

  ghost function SubtreeOf<I>(t: Tree<I>, root: Path): set<Path> {
    set p | p in t && Under(p, root)
  }

  lemma SubtreeShrinks<I>(t: Tree<I>, src: Path)
    requires src in t
    ensures forall n :: SubtreeOf(t, src + [n]) < SubtreeOf(t, src)
  {
    forall n ensures SubtreeOf(t, src + [n]) < SubtreeOf(t, src) {
      assert Under(src, src) by { assert src[..|src|] == src; }
      forall p | Under(p, src + [n]) ensures Under(p, src) {
        assert p[..|src|] == p[..|src| + 1][..|src|] == src;
      }
      assert src in SubtreeOf(t, src) && src !in SubtreeOf(t, src + [n]);
    }
  }

  lemma PartSound(s0: Layers, s1: Layers, src: Path, dst: Path, done: set<Name>)
    requires MovedPart(s0, s1, src, dst, done)
    ensures Sound(s1) && s1.upper.implicit == s0.upper.implicit && s1.lower == s0.lower && s1.dead == s0.dead
  {
  }

  lemma MovedSound(s0: Layers, s1: Layers, src: Path, dst: Path)
    requires MovedAll(s0, s1, src, dst)
    ensures Sound(s1) && s1.upper.implicit == s0.upper.implicit && s1.lower == s0.lower && s1.dead == s0.dead
  {
  }

  lemma MovableSource(s: Layers, src: Path, dst: Path)
    requires Movable(s, src, dst)
    ensures Sound(s) && src in Merge(s) && src != [] && IsDirAt(Merge(s), Parent(src))
    ensures Direct(s.upper, dst) && dst !in s.upper.t
    ensures var info := VisibleInfo(s, src);
            && info.Seen? && (info.upper <==> src in s.upper.t)
            && Meaning(s.lower, info.node) == Merge(s)[src].node
            && (info.upper && !info.node.Dir? ==> Kept(s, src))
            && (!info.upper ==> FromLower(s, src) && src in s.lower && info.node == s.lower[src].node)
    ensures IsDirAt(Merge(s), src) ==> VisibleInfo(s, src).node == Merge(s)[src].node
  {
    MergeValid(s);
    ParentIsDir(Merge(s), src);
    VisibleIsMerged(s, src);
  }

  lemma SourceSeen(s: Layers, src: Path)
    requires Sound(s) && src in Merge(s) && src != []
    ensures VisibleInfo(s, src).Seen?
  {
    MergeValid(s);
    ParentIsDir(Merge(s), src);
    VisibleIsMerged(s, src);
  }

  lemma LeafListable(s: Layers, src: Path)
    requires Sound(s) && src in Merge(s) && !Merge(s)[src].node.Dir?
    ensures Listable(s, src)
  {
    LeafHasNothingBelow(s, src);
  }

  // Whether a directory can be listed depends on the lower layer and the tombstones alone.
  lemma ListableSame(s: Layers, s': Layers, src: Path)
    requires CopiedUp(s, s')
    ensures Listable(s, src) <==> Listable(s', src)
  {
    assert forall p :: IsDirAt(Merge(s'), p) <==> IsDirAt(Merge(s), p);
    assert forall p :: Troubled(s', p) <==> Troubled(s, p);
  }

  // Listing the source after its bare node was made at the destination.
  lemma StartListing(s0: Layers, s1: Layers, src: Path, dst: Path)
    requires Movable(s0, src, dst) && MovedPart(s0, s1, src, dst, {}) && IsDirAt(Merge(s0), src)
    ensures Look(Merge(s1), src, true, false) == Found(src, MAX_SYMLINK_DEPTH) && IsDirAt(Merge(s1), src)
    ensures Children(Merge(s1), src) == Children(Merge(s0), src)
    ensures Troubled(s1, src) <==> Troubled(s0, src)
  {
    hide Merge, Sound, Walk;
    SourceUntouched(s0, s1, src, dst);
    DirectoryFound(s1, src);
    forall n ensures n in Children(Merge(s1), src) <==> n in Children(Merge(s0), src) {
      ChildAt(Merge(s1), src, n);
      ChildAt(Merge(s0), src, n);
      assert Under(src + [n], src + [n]) by { assert (src + [n])[..|src + [n]|] == src + [n]; }
      OthersUntouched(s0, s1, src, dst, {}, n, src + [n]);
    }
  }

  lemma SourceUntouched(s0: Layers, s1: Layers, src: Path, dst: Path)
    requires Movable(s0, src, dst) && MovedPart(s0, s1, src, dst, {}) && IsDirAt(Merge(s0), src)
    ensures IsDirAt(Merge(s1), src)
  {
    assert Under(src, src) by { assert src[..|src|] == src; }
    forall k | 0 <= k < |src| ensures !Under(src[..k], src) && !Under(src[..k], dst) {
      if Under(src[..k], dst) {
        assert Under(src, src[..k]) by { assert src[..|src[..k]|] == src[..k]; }
        UnderTrans(src, src[..k], dst);
      }
    }
  }

  lemma ListingRefused(s: Layers, src: Path)
    requires IsDirAt(Merge(s), src) && Troubled(s, src)
    ensures !Listable(s, src) && LookupError(TroubleError(s, src))
  {
    WalkErrors(s.lower, [], src, false, false, false, MAX_SYMLINK_DEPTH);
    WalkErrors(s.lower, [], src, true, false, false, MAX_SYMLINK_DEPTH);
    assert Under(src, src) by { assert src[..|src|] == src; }
  }

  // The next name of the listing is a child that has not moved yet, and may.
  lemma NextChild(s0: Layers, s: Layers, src: Path, dst: Path, names: seq<Name>, i: nat, done: set<Name>)
    requires Movable(s0, src, dst) && MovedPart(s0, s, src, dst, done) && IsDirAt(Merge(s0), src)
    requires IsListing(names, Children(Merge(s0), src)) && i < |names| && done == (set j | 0 <= j < i :: names[j])
    ensures names[i] !in done && names[i] in Children(Merge(s0), src)
    ensures Movable(s, src + [names[i]], dst + [names[i]])
    ensures VisibleInfo(s, src + [names[i]]).Seen?
    ensures SubtreeOf(Merge(s), src + [names[i]]) == SubtreeOf(Merge(s0), src + [names[i]])
  {
    var n := names[i];
    if n in done {
      var j :| 0 <= j < i && names[j] == n;
      LessTotal(n, n);
    }
    ChildMovable(s0, s, src, dst, done, n);
    MovableSource(s, src + [n], dst + [n]);
    forall p | Under(p, src + [n]) ensures p in Merge(s) <==> p in Merge(s0) {
      OthersUntouched(s0, s, src, dst, done, n, p);
    }
  }

  lemma ChildMovable(s0: Layers, s: Layers, src: Path, dst: Path, done: set<Name>, n: Name)
    requires Movable(s0, src, dst) && MovedPart(s0, s, src, dst, done) && IsDirAt(Merge(s0), src)
    requires n in Children(Merge(s0), src) && n !in done
    ensures Movable(s, src + [n], dst + [n])
  {
    var c, d := src + [n], dst + [n];
    ChildRegions(src, dst, n);
    ChildPlace(s0, s, src, dst, done, n);
    hide Merge, MovedPart, Children;
  }

  lemma ChildRegions(src: Path, dst: Path, n: Name)
    requires !Under(dst, src) && !Under(src, dst)
    ensures !Under(dst + [n], src + [n]) && !Under(src + [n], dst + [n])
    ensures Parent(dst + [n]) == dst
    ensures forall p | Under(p, dst + [n]) :: Under(p, dst)
  {
    var c, d := src + [n], dst + [n];
    StepRegions(src, dst, n);
    SubtreeRoot(c, c, c);
    SubtreeRoot(d, d, d);
  }

  lemma ChildPlace(s0: Layers, s: Layers, src: Path, dst: Path, done: set<Name>, n: Name)
    requires Movable(s0, src, dst) && MovedPart(s0, s, src, dst, done) && IsDirAt(Merge(s0), src)
    requires n in Children(Merge(s0), src) && n !in done
    ensures src + [n] in Merge(s) && IsDirAt(s.upper.t, dst) && dst + [n] !in s.upper.t
  {
    var c, d := src + [n], dst + [n];
    ChildAt(Merge(s0), src, n);
    SubtreeRoot(c, c, c);
    OthersUntouched(s0, s, src, dst, done, n, c);
    DestinationPlace(s0, s, src, dst, done, n);
  }

  lemma DestinationPlace(s0: Layers, s: Layers, src: Path, dst: Path, done: set<Name>, n: Name)
    requires MovedPart(s0, s, src, dst, done) && IsDirAt(Merge(s0), src) && n !in done
    ensures IsDirAt(s.upper.t, dst) && dst + [n] !in s.upper.t
  {
    var d := dst + [n];
    SubtreeRoot(dst, src, dst);
    assert d[..|dst|] == dst && d[|dst|..] == [n];
    assert !InScope(d[|dst|..], done);
    assert Origin(dst, src, dst) == src;
    assert Meaning(s0.lower, s.upper.t[dst].node) == Merge(s0)[src].node;
  }

  lemma ChildListable(s0: Layers, s: Layers, src: Path, dst: Path, done: set<Name>, n: Name)
    requires Movable(s0, src, dst) && MovedPart(s0, s, src, dst, done) && IsDirAt(Merge(s0), src)
    requires n in Children(Merge(s0), src) && n !in done
    ensures Listable(s, src + [n]) <==> Listable(s0, src + [n])
  {
    forall p | Under(p, src + [n]) ensures IsDirAt(Merge(s), p) <==> IsDirAt(Merge(s0), p) {
      OthersUntouched(s0, s, src, dst, done, n, p);
    }
    assert forall p :: Troubled(s, p) <==> Troubled(s0, p);
  }

  lemma ParentUnlistable(s: Layers, src: Path, n: Name)
    requires !Listable(s, src + [n])
    ensures !Listable(s, src)
  {
    var p :| Under(p, src + [n]) && IsDirAt(Merge(s), p) && Troubled(s, p);
    assert p[..|src|] == p[..|src| + 1][..|src|] == src;
  }

  lemma AllDone(s: Layers, src: Path, names: seq<Name>, done: set<Name>)
    requires Sound(s) && IsDirAt(Merge(s), src) && !Troubled(s, src)
    requires IsListing(names, Children(Merge(s), src)) && done == (set j | 0 <= j < |names| :: names[j])
    requires forall n | n in done :: Listable(s, src + [n])
    ensures done == Children(Merge(s), src) && Listable(s, src)
  {
    forall n ensures n in done <==> n in Children(Merge(s), src) {
      assert n in names <==> n in Children(Merge(s), src);
    }
    forall p | Under(p, src) && IsDirAt(Merge(s), p) ensures !Troubled(s, p) {
      if p != src {
        OnlyChild(s, src, p);
        assert Listable(s, src + [p[|src|]]);
      }
    }
  }

  // The Remove at the end of a rename either finds nothing left or is not blocked.
  lemma RemovalGoesThrough(s0: Layers, s1: Layers, src: Path, dst: Path)
    requires Movable(s0, src, dst) && MovedAll(s0, s1, src, dst) && Listable(s0, src)
    ensures !RemoveBlocked(s1, src, true)
    ensures DecideRemove(Merge(s1), src, true) ==
            if src in Merge(s1) then Decision(Ok(src), Drop(src)) else Fail(NotExist)
  {
    SourceStays(s0, s1, src, dst);
    if src in Merge(s1) && Blocked(s1, src) {
      BlockedIsTroubled(s0, s1, src, dst);
      ListingRefused(s0, src);
    }
  }
}
