/** The merged view of OverlayFS (fs/overlay.go): a writable upper tree over a read-only lower
    tree, with tombstones hiding lower paths.

    `Merge` is the one tree a caller sees. The lemmas say how the view changes, or does not,
    when one of the layers does: copying an entry up, adding, changing or dropping an upper
    entry, and clearing tombstones.
 */
module OverlayView {
  import opened Paths
  import opened Tree
  import opened MemoryOps
  import opened PlainTree

  datatype Layers = Layers(lower: Tree<nat>, upper: FS, dead: set<Path>)

  /** Which node a merged path names: an upper node, or the lower entry at this very path. */
  datatype MergedId = Up(id: nat) | Low(path: Path)

  /** isHidden: a tombstone on the path or on one of its ancestors. */
  predicate Hidden(dead: set<Path>, p: Path) {
    exists k | 0 <= k <= |p| :: p[..k] in dead
  }

  /** The merged view takes p from the lower layer. */
  ghost predicate FromLower(s: Layers, p: Path) {
    p in s.lower && p !in s.upper.t && !Hidden(s.dead, p) && ClearWay(s.upper.t, p)
  }

  /** A lazy upper file has the content of its lower source. */
  function Meaning(lower: Tree<nat>, node: Node): Node {
    if node.File? && node.content.Lazy? then
      var src := node.content.source;
      File(node.mode, node.uid, node.gid,
           if src in lower && lower[src].node.File? then lower[src].node.content else Data([]))
    else node
  }

  ghost function Merge(s: Layers): Tree<MergedId> {
    map p | p in s.upper.t.Keys + s.lower.Keys && (p in s.upper.t || FromLower(s, p)) ::
      if p in s.upper.t then Cell(Up(s.upper.t[p].id), Meaning(s.lower, s.upper.t[p].node))
      else Cell(Low(p), s.lower[p].node)
  }

  predicate Backed(lower: Tree<nat>, node: Node) {
    node.File? && node.content.Lazy? ==>
      node.content.source in lower && lower[node.content.source].node.File?
  }

  /** Every file of the lower layer can be read, and its symlinks have the mode every in-memory
      symlink has (fs/memory.go:294). */
  ghost predicate Readable(lower: Tree<nat>) {
    && (forall p | p in lower && lower[p].node.File? :: lower[p].node.content.Data?)
    && (forall p | p in lower && lower[p].node.Symbolic? :: lower[p].node.mode == 0x1ff)
  }

  /** An upper directory over anything but a lower directory is one that replaced it, so the
      lower entry is hidden; and every lazy upper file has a lower file to read from. */
  ghost predicate Sound(s: Layers) {
    && ValidTree(s.lower) && Readable(s.lower) && ValidFS(s.upper)
    && (forall p | p in s.upper.t && p in s.lower && s.upper.t[p].node.Dir? && !s.lower[p].node.Dir? ::
        Hidden(s.dead, p))
    && (forall p | p in s.upper.t :: Backed(s.lower, s.upper.t[p].node))
  }

  /** Every file of the view has its bytes. */
  lemma ViewIsRead(s: Layers)
    requires Sound(s)
    ensures forall p | p in Merge(s) && Merge(s)[p].node.File? :: Merge(s)[p].node.content.Data?
  {
  }

  lemma HiddenBelow(dead: set<Path>, p: Path, k: nat)
    requires k <= |p| && Hidden(dead, p[..k])
    ensures Hidden(dead, p)
  {
    var j :| 0 <= j <= k && p[..k][..j] in dead;
    assert p[..j] == p[..k][..j];
  }

  lemma SoundUpper(s: Layers)
    requires Sound(s)
    ensures ValidFS(s.upper)
  {
  }

  lemma LowerShows(s: Layers, p: Path)
    requires FromLower(s, p)
    ensures p in Merge(s)
  {
  }

  // ----- the view is a tree -----

  lemma FromLowerPrefix(s: Layers, p: Path, k: nat)
    requires Sound(s) && FromLower(s, p) && k < |p|
    ensures IsDirAt(Merge(s), p[..k])
  {
    var a := p[..k];
    assert IsDirAt(s.lower, a);
    if a !in s.upper.t {
      if Hidden(s.dead, a) { HiddenBelow(s.dead, p, k); }
      assert forall j | 0 <= j < |a| :: a[..j] == p[..j];
    }
  }

  lemma MergeValid(s: Layers)
    requires Sound(s)
    ensures ValidTree(Merge(s))
  {
    var m := Merge(s);
    forall p, k | p in m && 0 <= k < |p| ensures IsDirAt(m, p[..k]) {
      if p in s.upper.t {
        assert IsDirAt(s.upper.t, p[..k]);
      } else {
        FromLowerPrefix(s, p, k);
      }
    }
    assert IsDirAt(s.upper.t, []);
  }

  // ----- lookups in the two layers -----

  datatype Info = Seen(node: Node, upper: bool) | Unseen(error: Error)

  /** Lstat of either layer: symlinks in the middle of the path are followed inside that layer. */
  function Lstat(t: Tree<nat>, p: Path): Walked {
    Walk(t, [], p, false, false, false, MAX_SYMLINK_DEPTH)
  }

  /** visibleInfo */
  function VisibleInfo(s: Layers, p: Path): Info {
    match Lstat(s.upper.t, p)
    case Found(q, _) => if q in s.upper.t then Seen(s.upper.t[q].node, true) else Unseen(NotExist)
    case Missing(_, _) => Unseen(NotExist)
    case Failed(e) =>
      if e != NotExist then Unseen(e)
      else if Hidden(s.dead, p) then Unseen(NotExist)
      else match Lstat(s.lower, p)
        case Found(q, _) => if q in s.lower then Seen(s.lower[q].node, false) else Unseen(NotExist)
        case Missing(_, _) => Unseen(NotExist)
        case Failed(e2) => Unseen(e2)
  }

  // Beneath a merged directory neither layer puts a symlink or a file in the way, except a
  // lower one that is hidden.
  lemma WaysAreClear(s: Layers, p: Path)
    requires Sound(s) && IsDirAt(Merge(s), Parent(p))
    ensures ClearWay(s.upper.t, p)
    ensures !Hidden(s.dead, p) ==> ClearWay(s.lower, p)
  {
    var m := Merge(s);
    MergeValid(s);
    DirParentIsClear(m, p);
    forall k | 0 <= k < |p| ensures IsDirAt(m, p[..k]) {
      assert p[..k] == if k < |p| - 1 then Parent(p)[..k] else Parent(p);
    }
    forall k | 0 <= k < |p| && p[..k] in s.upper.t ensures s.upper.t[p[..k]].node.Dir? {
      assert IsDirAt(m, p[..k]);
    }
    if !Hidden(s.dead, p) {
      forall k | 0 <= k < |p| && p[..k] in s.lower ensures s.lower[p[..k]].node.Dir? {
        assert IsDirAt(m, p[..k]);
        if p[..k] in s.upper.t && !s.lower[p[..k]].node.Dir? {
          HiddenBelow(s.dead, p, k);
        }
      }
    }
  }

  // The two-layer lookup of one component is a lookup in the merged tree.
  lemma VisibleIsMerged(s: Layers, p: Path)
    requires Sound(s) && IsDirAt(Merge(s), Parent(p))
    ensures VisibleInfo(s, p) ==
            if p in Merge(s) then Seen(if p in s.upper.t then s.upper.t[p].node else s.lower[p].node, p in s.upper.t)
            else Unseen(NotExist)
  {
    WaysAreClear(s, p);
    WalkResolved(s.upper.t, p, false, false, false, MAX_SYMLINK_DEPTH);
    if !Hidden(s.dead, p) {
      WalkResolved(s.lower, p, false, false, false, MAX_SYMLINK_DEPTH);
    }
  }

  /** Resolution by two-layer lookups, component by component and without any cache. */
  function LayerWalk(s: Layers, cur: Path, rest: seq<Name>, follow: bool, missing: bool, hops: nat): Walked
    decreases hops, |rest|
  {
    if rest == [] then Found(cur, hops)
    else
      var next, last := cur + [rest[0]], |rest| == 1;
      match VisibleInfo(s, next)
      case Unseen(e) =>
        if e != NotExist then Failed(e) else if last && missing then Missing(next, hops) else Failed(NotExist)
      case Seen(node, _) =>
        if node.Symbolic? && (!last || follow) then
          if hops == 0 then Failed(Loop)
          else LayerWalk(s, [], Resolve(cur, node.target) + rest[1..], follow, missing, hops - 1)
        else if last then Found(next, hops)
        else if !node.Dir? then Failed(Invalid)
        else LayerWalk(s, next, rest[1..], follow, missing, hops)
  }

  // Walking the two layers is walking the merged tree.
  lemma {:induction false} LayerWalkIsWalk(s: Layers, cur: Path, rest: seq<Name>, follow: bool, missing: bool,
                                           hops: nat)
    requires Sound(s) && IsDirAt(Merge(s), cur)
    ensures LayerWalk(s, cur, rest, follow, missing, hops) == Walk(Merge(s), cur, rest, follow, missing, true, hops)
    decreases hops, |rest|
  {
    hide Resolve;
    if rest != [] {
      var next := cur + [rest[0]];
      assert Parent(next) == cur;
      VisibleIsMerged(s, next);
      MergeValid(s);
      if next in Merge(s) {
        var node := VisibleInfo(s, next).node;
        if node.Symbolic? {
          if hops > 0 {
            LayerWalkIsWalk(s, [], Resolve(cur, node.target) + rest[1..], follow, missing, hops - 1);
          }
        } else if node.Dir? {
          LayerWalkIsWalk(s, next, rest[1..], follow, missing, hops);
        }
      }
    }
  }

  /** What one component of a path asks for: an answer, another path, or the next component. */
  datatype Move = Stop(answer: Walked) | Follow(path: Path) | Descend(next: Path)

  ghost predicate Moves(s: Layers, move: Move, cur: Path, rest: seq<Name>, follow: bool, missing: bool, hops: nat) {
    var w := LayerWalk(s, cur, rest, follow, missing, hops);
    match move
    case Stop(answer) => w == answer
    case Follow(path) => w == if hops == 0 then Failed(Loop) else LayerWalk(s, [], path, follow, missing, hops - 1)
    case Descend(next) =>
      |rest| > 1 && IsDirAt(Merge(s), next) && w == LayerWalk(s, next, rest[1..], follow, missing, hops)
  }

  lemma NextIsInView(s: Layers, cur: Path, n: Name)
    requires Sound(s) && IsDirAt(Merge(s), cur)
    ensures var next := cur + [n];
            && Parent(next) == cur
            && (VisibleInfo(s, next).Seen? && VisibleInfo(s, next).node.Dir? ==> IsDirAt(Merge(s), next))
  {
    assert Parent(cur + [n]) == cur;
    VisibleIsMerged(s, cur + [n]);
  }

  // What is missing from the view is missing from the upper layer, and hidden if the lower has it.
  lemma AbsentFromView(s: Layers, p: Path)
    requires Sound(s) && IsDirAt(Merge(s), Parent(p)) && p !in Merge(s)
    ensures p !in s.upper.t && Vacant(s.upper.t, p)
    ensures forall q | q in s.lower && Under(q, p) :: Hidden(s.dead, q)
  {
    WaysAreClear(s, p);
    MissingIsVacant(s.upper.t, p);
    forall q | q in s.lower && Under(q, p) ensures Hidden(s.dead, q) {
      if q != p { AncestorIsDir(s.lower, q, p); }
      assert q == q[..|q|];
      assert Hidden(s.dead, q[..|p|]);
      HiddenBelow(s.dead, q, |p|);
    }
  }

  // ----- changes of the upper layer -----

  function PutUpper(s: Layers, p: Path, node: Node): Layers {
    s.(upper := Put(s.upper, p, node))
  }

  lemma ClearWayPut(t: Tree<nat>, p: Path, c: Cell<nat>, q: Path)
    requires ValidTree(t) && p !in t
    requires c.node.Dir? || !Below(q, p)
    ensures ClearWay(t[p := c], q) <==> ClearWay(t, q)
  {
    forall k | 0 <= k < |q| && q[..k] == p ensures Below(q, p) {
      assert |p| == k;
    }
    if ClearWay(t[p := c], q) {
      forall k | 0 <= k < |q| && q[..k] in t ensures t[q[..k]].node.Dir? {
        assert q[..k] in t[p := c];
      }
    }
  }

  lemma PutKeepsSound(s: Layers, p: Path, node: Node)
    requires Sound(s) && p !in s.upper.t && IsDirAt(s.upper.t, Parent(p)) && Backed(s.lower, node)
    requires p in s.lower && node.Dir? && !s.lower[p].node.Dir? ==> Hidden(s.dead, p)
    ensures Sound(PutUpper(s, p, node))
  {
    PutFS(s.upper, p, node);
  }

  lemma CopyUpAt(s: Layers, p: Path, node: Node, q: Path)
    requires Sound(s) && FromLower(s, p) && p != [] && IsDirAt(s.upper.t, Parent(p))
    requires Backed(s.lower, node) && Meaning(s.lower, node) == s.lower[p].node
    ensures var m, m' := Merge(s), Merge(PutUpper(s, p, node));
            && (q in m' <==> q in m)
            && (q in m ==> m'[q] == if q == p then Cell(Up(s.upper.next + 1), m[p].node) else m[q])
  {
    hide Backed, Readable;
    if q != p && q in s.lower {
      if Below(q, p) { AncestorIsDir(s.lower, q, p); }
      ClearWayPut(s.upper.t, p, Cell(s.upper.next + 1, node), q);
    }
  }

  // Lazy copy-up is invisible: recording a lower entry in the upper layer changes no lookup,
  // no content and no hard link of the merged view.
  lemma CopyUpIsInvisible(s: Layers, p: Path, node: Node)
    requires Sound(s) && FromLower(s, p) && p != [] && IsDirAt(s.upper.t, Parent(p))
    requires Backed(s.lower, node) && Meaning(s.lower, node) == s.lower[p].node
    ensures Sound(PutUpper(s, p, node))
    ensures SameTree(Merge(PutUpper(s, p, node)), Merge(s))
  {
    PutKeepsSound(s, p, node);
    var m, m' := Merge(s), Merge(PutUpper(s, p, node));
    forall q ensures (q in m' <==> q in m)
        && (q in m ==> m'[q] == if q == p then Cell(Up(s.upper.next + 1), m[p].node) else m[q]) {
      CopyUpAt(s, p, node, q);
    }
    RenamedId(m, p, Up(s.upper.next + 1), m');
  }

  // Giving one unshared node another unused identity is no difference at all.
  lemma RenamedId<I>(t: Tree<I>, p: Path, id: I, u: Tree<I>)
    requires p in t && (forall q | q in t :: t[q].id != id && (q != p ==> t[q].id != t[p].id))
    requires forall q :: (q in u <==> q in t) && (q in t ==> u[q] == if q == p then Cell(id, t[p].node) else t[q])
    ensures SameTree(u, t)
  {
  }

  // A new upper entry at a path the view lacks is just that entry: nothing of the lower layer
  // shows up beneath it.
  lemma CreateInView(s: Layers, p: Path, node: Node)
    requires Sound(s) && p != [] && p !in Merge(s) && IsDirAt(s.upper.t, Parent(p)) && Backed(s.lower, node)
    ensures Sound(PutUpper(s, p, node))
    ensures Merge(PutUpper(s, p, node)) == Merge(s)[p := Cell(Up(s.upper.next + 1), Meaning(s.lower, node))]
  {
    hide Merge, Sound, FromLower, Backed, Meaning;
    NotAbove(s, p);
    AddedEntry(s, p, Cell(s.upper.next + 1, node));
    PutKeepsSound(s, p, node);
    MergeIgnoresNext(s.(upper := s.upper.(t := s.upper.t[p := Cell(s.upper.next + 1, node)])), PutUpper(s, p, node));
  }

  lemma MergeIgnoresNext(s: Layers, r: Layers)
    requires s.lower == r.lower && s.dead == r.dead && s.upper.t == r.upper.t
    ensures Merge(s) == Merge(r)
  {
  }

  lemma AddedEntry(s: Layers, p: Path, c: Cell<nat>)
    requires Sound(s) && p != [] && p !in Merge(s) && IsDirAt(s.upper.t, Parent(p))
    ensures var s' := s.(upper := s.upper.(t := s.upper.t[p := c]));
            Merge(s') == Merge(s)[p := Cell(Up(c.id), Meaning(s.lower, c.node))]
            && (p in s.lower ==> Hidden(s.dead, p))
  {
    hide Sound, Hidden, FromLower, Meaning;
    var s' := s.(upper := s.upper.(t := s.upper.t[p := c]));
    UpperDirShows(s, Parent(p));
    AbsentFromView(s, p);
    if p in s.lower {
      assert p[..|p|] == p && Under(p, p);
    }
    forall q | q in s.lower && q != p ensures FromLower(s', q) <==> FromLower(s, q) {
      AddedBeside(s, p, c, q);
    }
    assert forall q :: q in Merge(s') <==> q == p || q in Merge(s);
  }

  lemma NotAbove(s: Layers, p: Path)
    requires p !in Merge(s)
    ensures p !in s.upper.t
  {
  }

  lemma UpperDirShows(s: Layers, p: Path)
    requires IsDirAt(s.upper.t, p)
    ensures IsDirAt(Merge(s), p)
  {
  }

  // A new upper entry leaves the lower entries at other paths as visible as they were.
  lemma AddedBeside(s: Layers, p: Path, c: Cell<nat>, q: Path)
    requires Sound(s) && p != [] && p !in Merge(s) && IsDirAt(s.upper.t, Parent(p)) && q in s.lower && q != p
    ensures FromLower(s.(upper := s.upper.(t := s.upper.t[p := c])), q) <==> FromLower(s, q)
  {
    hide Merge, Meaning;
    UpperDirShows(s, Parent(p));
    AbsentFromView(s, p);
    if !Below(q, p) {
      ClearWayPut(s.upper.t, p, c, q);
    }
  }

  lemma AliasInView(s: Layers, src: Path, dst: Path)
    requires Sound(s) && src in s.upper.t && !s.upper.t[src].node.Dir?
    requires dst != [] && dst !in Merge(s) && IsDirAt(s.upper.t, Parent(dst))
    ensures var s' := s.(upper := s.upper.(t := s.upper.t[dst := s.upper.t[src]]));
            Sound(s') && Merge(s') == Merge(s)[dst := Merge(s)[src]]
  {
    AddedEntry(s, dst, s.upper.t[src]);
    AliasValid(s.upper.t, src, dst);
  }

  lemma ChangeAt(s: Layers, p: Path, node: Node, q: Path)
    requires Sound(s) && p in s.upper.t && (node.Dir? <==> s.upper.t[p].node.Dir?)
    ensures var m, m' := Merge(s), Merge(s.(upper := Update(s.upper, p, node)));
            && (q in m' <==> q in m)
            && (q in m ==> m'[q] == if m[q].id == m[p].id then Cell(m[q].id, Meaning(s.lower, node)) else m[q])
  {
    var u, u' := s.upper.t, Update(s.upper, p, node).t;
    assert forall r | r in u :: u'[r].node.Dir? <==> u[r].node.Dir?;
    assert ClearWay(u', q) <==> ClearWay(u, q) by {
      forall k | 0 <= k < |q| ensures q[..k] in u' <==> q[..k] in u {}
    }
  }

  lemma ChangeInView(s: Layers, p: Path, node: Node)
    requires Sound(s) && p in s.upper.t && Backed(s.lower, node)
    requires node.Dir? <==> s.upper.t[p].node.Dir?
    ensures var s' := s.(upper := Update(s.upper, p, node));
            Sound(s') && Step(Merge(s), Change(p, Meaning(s.lower, node)), Merge(s'))
  {
    var s' := s.(upper := Update(s.upper, p, node));
    ChangeKeepsSound(s, p, node);
    var m, m' := Merge(s), Merge(s');
    forall q ensures (q in m' <==> q in m)
        && (q in m ==> m'[q] == if m[q].id == m[p].id then Cell(m[q].id, Meaning(s.lower, node)) else m[q]) {
      ChangeAt(s, p, node, q);
    }
    SetStep(m, p, Meaning(s.lower, node), m');
  }

  lemma ChangeKeepsSound(s: Layers, p: Path, node: Node)
    requires Sound(s) && p in s.upper.t && Backed(s.lower, node)
    requires node.Dir? <==> s.upper.t[p].node.Dir?
    ensures Sound(s.(upper := Update(s.upper, p, node)))
  {
    UpdateFS(s.upper, p, node);
  }

  lemma SetStep<I>(t: Tree<I>, p: Path, node: Node, u: Tree<I>)
    requires p in t
    requires forall q ::
             (q in u <==> q in t) && (q in t ==> u[q] == if t[q].id == t[p].id then Cell(t[q].id, node) else t[q])
    ensures Step(t, Change(p, node), u)
  {
  }

  /** clearTombstonesUnder */
  function Cleared(dead: set<Path>, p: Path): set<Path> {
    set d | d in dead && !Under(d, p)
  }

  // Tombstones beneath an upper non-directory hide nothing the view could show.
  lemma ClearingIsInvisible(s: Layers, p: Path)
    requires Sound(s) && p in s.upper.t && !s.upper.t[p].node.Dir?
    ensures Sound(s.(dead := Cleared(s.dead, p))) && Merge(s.(dead := Cleared(s.dead, p))) == Merge(s)
  {
    var s' := s.(dead := Cleared(s.dead, p));
    forall q | !Under(q, p) ensures Hidden(s'.dead, q) <==> Hidden(s.dead, q) {
      forall k | 0 <= k <= |q| ensures !Under(q[..k], p) {
        assert |p| <= k ==> q[..k][..|p|] == q[..|p|];
      }
    }
    forall q | q in s.upper.t && s.upper.t[q].node.Dir? ensures !Under(q, p) {
      if Under(q, p) && q != p { AncestorIsDir(s.upper.t, q, p); }
    }
    forall q | Under(q, p) ensures FromLower(s', q) <==> FromLower(s, q) {
      assert q == p || !ClearWay(s.upper.t, q) by { assert q[..|q|] == q && q[..|p|] == p; }
    }
  }

  // Removing: the upper subtree goes, and a tombstone covers whatever the lower layer has there.
  lemma HiddenElsewhere(dead: set<Path>, dead': set<Path>, p: Path, q: Path)
    requires dead <= dead' <= dead + {p} && !Under(q, p)
    ensures Hidden(dead', q) <==> Hidden(dead, q)
  {
    if Hidden(dead', q) {
      var k :| 0 <= k <= |q| && q[..k] in dead';
      assert q[..k] == p ==> Under(q, p);
    }
  }

  lemma ClearElsewhere(t: Tree<nat>, p: Path, q: Path)
    requires !Under(q, p)
    ensures ClearWay(Without(t, p), q) <==> ClearWay(t, q)
  {
    forall k | 0 <= k < |q| ensures !Under(q[..k], p) {
      assert |p| <= k ==> q[..k][..|p|] == q[..|p|];
    }
  }

  lemma HiddenBeneath(lower: Tree<nat>, dead: set<Path>, p: Path, q: Path)
    requires ValidTree(lower) && q in lower && Under(q, p) && (p in lower ==> p in dead)
    ensures Hidden(dead, q)
  {
    if q != p { AncestorIsDir(lower, q, p); }
    assert q[..|p|] in dead;
  }

  lemma DropInView(s: Layers, p: Path, dead: set<Path>)
    requires Sound(s) && p in Merge(s) && p != []
    requires s.dead <= dead <= s.dead + {p} && (p in s.lower ==> p in dead)
    ensures var s' := s.(upper := s.upper.(t := Without(s.upper.t, p)), dead := dead);
            Sound(s') && Merge(s') == Without(Merge(s), p)
  {
    hide Hidden, ClearWay;
    var s' := s.(upper := s.upper.(t := Without(s.upper.t, p)), dead := dead);
    WithoutValid(s.upper.t, p);
    forall q | q in s.lower && Under(q, p) ensures Hidden(dead, q) {
      HiddenBeneath(s.lower, dead, p, q);
    }
    forall q | !Under(q, p) ensures Hidden(dead, q) <==> Hidden(s.dead, q) {
      HiddenElsewhere(s.dead, dead, p, q);
    }
    forall q | !Under(q, p) ensures ClearWay(s'.upper.t, q) <==> ClearWay(s.upper.t, q) {
      ClearElsewhere(s.upper.t, p, q);
    }
    assert forall q :: q in Merge(s') <==> q in Merge(s) && !Under(q, p);
  }

  // ----- no resurrection -----

  /** Nothing that was not taken from the lower layer before is taken from it now. */
  ghost predicate Shrinks(before: Layers, after: Layers) {
    forall p | FromLower(after, p) :: FromLower(before, p)
  }

  lemma PutShrinks(s: Layers, p: Path, c: Cell<nat>)
    requires p !in s.upper.t
    ensures Shrinks(s, s.(upper := s.upper.(t := s.upper.t[p := c])))
  {
    var s' := s.(upper := s.upper.(t := s.upper.t[p := c]));
    forall q | FromLower(s', q) ensures FromLower(s, q) {
      forall k | 0 <= k < |q| && q[..k] in s.upper.t ensures s.upper.t[q[..k]].node.Dir? {
        assert q[..k] in s'.upper.t;
      }
    }
  }

  lemma ShrinksTrans(a: Layers, b: Layers, c: Layers)
    requires Shrinks(a, b) && Shrinks(b, c)
    ensures Shrinks(a, c)
  {
  }

  // Being taken from the lower layer is visible in the view alone.
  lemma FromLowerInView(s: Layers, p: Path)
    ensures FromLower(s, p) <==> p in Merge(s) && Merge(s)[p].id == Low(p)
  {
  }

  // ----- copying up -----

  /** `s'` is `s` with some lower entries recorded in the upper layer and nothing else changed. */
  ghost predicate CopiedUp(s: Layers, s': Layers) {
    && Sound(s') && s'.lower == s.lower && s'.dead == s.dead
    && s'.upper.implicit == s.upper.implicit && s'.upper.next >= s.upper.next
    && SameTree(Merge(s'), Merge(s)) && Shrinks(s, s')
    && forall p | p in s.upper.t :: p in s'.upper.t && s'.upper.t[p] == s.upper.t[p]
  }

  /** The new upper entries are directories on the way to `top`. */
  ghost predicate OnlyDirsAdded(s: Layers, s': Layers, top: Path) {
    forall p | p in s'.upper.t && p !in s.upper.t :: s'.upper.t[p].node.Dir? && Under(top, p)
  }

  lemma CopiedUpRefl(s: Layers, top: Path)
    requires Sound(s)
    ensures CopiedUp(s, s) && OnlyDirsAdded(s, s, top)
  {
  }

  lemma CopiedUpTrans(a: Layers, b: Layers, c: Layers, top: Path)
    requires CopiedUp(a, b) && CopiedUp(b, c)
    ensures CopiedUp(a, c) && (OnlyDirsAdded(a, b, top) && OnlyDirsAdded(b, c, top) ==> OnlyDirsAdded(a, c, top))
  {
    SameTrans(Merge(c), Merge(b), Merge(a));
    ShrinksTrans(a, b, c);
  }

  lemma CopyUpOne(s: Layers, p: Path, node: Node)
    requires Sound(s) && FromLower(s, p) && p != [] && IsDirAt(s.upper.t, Parent(p))
    requires Backed(s.lower, node) && Meaning(s.lower, node) == s.lower[p].node
    ensures CopiedUp(s, PutUpper(s, p, node)) && p in PutUpper(s, p, node).upper.t
    ensures forall top | node.Dir? && Under(top, p) :: OnlyDirsAdded(s, PutUpper(s, p, node), top)
  {
    CopyUpIsInvisible(s, p, node);
    PutShrinks(s, p, Cell(s.upper.next + 1, node));
    ShrinksIgnoresNext(s, s.(upper := s.upper.(t := s.upper.t[p := Cell(s.upper.next + 1, node)])),
        PutUpper(s, p, node));
  }

  lemma ShrinksIgnoresNext(s: Layers, a: Layers, b: Layers)
    requires Shrinks(s, a) && a.lower == b.lower && a.dead == b.dead && a.upper.t == b.upper.t
    ensures Shrinks(s, b)
  {
    forall p | FromLower(b, p) ensures FromLower(s, p) {
      assert FromLower(a, p);
    }
  }

  lemma AncestorInView(s0: Layers, s: Layers, p: Path, k: nat)
    requires Sound(s0) && CopiedUp(s0, s) && IsDirAt(Merge(s0), p) && 0 < k <= |p|
    ensures Parent(p[..k]) == p[..k - 1] && IsDirAt(Merge(s), p[..k])
  {
    hide Sound, ValidFS, FromLower, Hidden;
    MergeValid(s0);
    assert p[..|p|] == p;
    assert IsDirAt(Merge(s0), p[..k]);
    assert Merge(s)[p[..k]].node == Merge(s0)[p[..k]].node;
  }

  lemma AddedHigher(s: Layers, s': Layers, low: Path, top: Path)
    requires OnlyDirsAdded(s, s', low) && Under(top, low)
    ensures OnlyDirsAdded(s, s', top)
  {
    forall p | p in s'.upper.t && p !in s.upper.t ensures Under(top, p) {
      UnderTrans(top, low, p);
    }
  }

  // How a merged directory whose parent has an upper node is seen.
  lemma DirectoryInView(s: Layers, p: Path)
    requires Sound(s) && p != [] && IsDirAt(Merge(s), p) && IsDirAt(s.upper.t, Parent(p))
    ensures IsDirAt(Merge(s), Parent(p))
    ensures VisibleInfo(s, p).Seen? && (VisibleInfo(s, p).upper <==> p in s.upper.t)
    ensures if p in s.upper.t then IsDirAt(s.upper.t, p)
            else FromLower(s, p) && IsDirAt(s.lower, p) && Lstat(s.lower, p) == Found(p, MAX_SYMLINK_DEPTH)
  {
    assert IsDirAt(Merge(s), Parent(p));
    VisibleIsMerged(s, p);
    WaysAreClear(s, p);
    if p !in s.upper.t {
      WalkResolved(s.lower, p, false, false, false, MAX_SYMLINK_DEPTH);
    }
  }

  lemma StillFromLower(s0: Layers, s: Layers, p: Path)
    requires Sound(s0) && CopiedUp(s0, s) && OnlyDirsAdded(s0, s, Parent(p)) && FromLower(s0, p) && p != []
    ensures FromLower(s, p)
  {
    assert p in Merge(s0) && p in Merge(s);
  }
}
