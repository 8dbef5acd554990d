/** The pointer structure of TrieFS (fs/trie.go), read off the heap as a value.

    Dentries and inodes are objects; a `Shape` records what their fields hold at every path. The
    three ways TrieFS changes its pointers are functions of a shape, and each keeps it well formed.
 */
module TrieShape {
  import opened Paths
  import opened Tree
  import opened Listing

  class TrieInode {
    const id: nat
    var value: Node
    var children: map<Name, TrieDentry>
    var names: seq<Name>
    var dirty: bool

    constructor (id: nat, value: Node)
      ensures this.id == id && this.value == value && children == map[] && names == [] && !dirty
    {
      this.id := id;
      this.value := value;
      children := map[];
      names := [];
      dirty := false;
    }
  }

  class TrieDentry {
    var name: Name
    var parent: TrieDentry?
    const inode: TrieInode

    constructor (name: Name, parent: TrieDentry?, inode: TrieInode)
      ensures this.name == name && this.parent == parent && this.inode == inode
    {
      this.name := name;
      this.parent := parent;
      this.inode := inode;
    }
  }

  /** What the heap holds at one path: the cell of the plain tree, the dentry, its name and
      parent, and its inode's children and name cache. */
  datatype Spot = Spot(
    cell: Cell<nat>,
    entry: TrieDentry,
    name: Name,
    parent: TrieDentry?,
    kids: map<Name, TrieDentry>,
    names: seq<Name>,
    dirty: bool)

  type Shape = map<Path, Spot>

  function TreeOf(s: Shape): Tree<nat> {
    map p | p in s :: s[p].cell
  }

  /** Names and parent pointers spell the path of every dentry. */
  ghost predicate Linked(s: Shape, root: TrieDentry) {
    && [] in s && s[[]].entry == root && s[[]].parent == null
    && (forall p | p in s && p != [] :: Parent(p) in s && s[p].name == Base(p) && s[p].parent == s[Parent(p)].entry)
    && (forall p, q | p in s && q in s && s[p].entry == s[q].entry :: p == q)
  }

  /** Paths with one id share one inode. */
  ghost predicate Bound(s: Shape) {
    && (forall p | p in s :: s[p].entry.inode.id == s[p].cell.id)
    && (forall p, q | p in s && q in s && s[p].cell.id == s[q].cell.id :: s[p].entry.inode == s[q].entry.inode)
  }

  /** The children of an inode are exactly the dentries one component below. */
  ghost predicate Branched(s: Shape) {
    forall p, n | p in s ::
      (n in s[p].kids <==> p + [n] in s) && (p + [n] in s ==> s[p].kids[n] == s[p + [n]].entry)
  }

  /** The name cache of a directory is exact whenever it is not marked dirty. */
  ghost predicate Cached(s: Shape) {
    forall p | p in s && s[p].cell.node.Dir? && !s[p].dirty :: IsListing(s[p].names, s[p].kids.Keys)
  }

  ghost predicate ValidShape(s: Shape, root: TrieDentry) {
    ValidTree(TreeOf(s)) && Linked(s, root) && Bound(s) && Branched(s) && Cached(s)
  }

  /** A directory gains or loses one child; its name cache becomes dirty. */
  function Joined(spot: Spot, n: Name, child: TrieDentry): Spot {
    spot.(kids := spot.kids[n := child], dirty := true)
  }

  function Left(spot: Spot, n: Name): Spot {
    spot.(kids := spot.kids - {n}, dirty := true)
  }

  lemma SplitsOnce(p: Path, n: Name, at: Path)
    requires at != []
    ensures p + [n] == at <==> p == Parent(at) && n == Base(at)
  {
    assert Parent(p + [n]) == p && Base(p + [n]) == n;
    assert at == Parent(at) + [Base(at)];
  }

  lemma UnderChild(q: Path, n: Name, root: Path)
    ensures Under(q + [n], root) <==> q + [n] == root || Under(q, root)
  {
    assert |root| <= |q| ==> (q + [n])[..|root|] == q[..|root|];
  }

  /** The shape of an empty trie. */
  function NewShape(root: TrieDentry, cell: Cell<nat>): Shape {
    map[[] := Spot(cell, root, "", null, map[], [], false)]
  }

  lemma NewShapeValid(root: TrieDentry, cell: Cell<nat>)
    requires cell.node.Dir? && root.inode.id == cell.id
    ensures ValidShape(NewShape(root, cell), root)
  {
  }

  // ----- adding an entry -----

  function Grown(s: Shape, at: Path, spot: Spot): Shape
    requires at != [] && Parent(at) in s
  {
    s[Parent(at) := Joined(s[Parent(at)], Base(at), spot.entry)][at := spot]
  }

  /** A new inode with an unused id, or one more name for the inode of a file. */
  ghost predicate Attachable(s: Shape, at: Path, spot: Spot) {
    && at != [] && at !in s && Parent(at) in s && s[Parent(at)].cell.node.Dir?
    && spot.name == Base(at) && spot.parent == s[Parent(at)].entry && spot.kids == map[]
    && spot.entry.inode.id == spot.cell.id && (forall q | q in s :: s[q].entry != spot.entry)
    && (|| (spot.names == [] && forall q | q in s :: s[q].cell.id != spot.cell.id)
        || (exists q ::
              q in s && s[q].entry.inode == spot.entry.inode && s[q].cell == spot.cell && !spot.cell.node.Dir?))
  }

  lemma GrownValid(s: Shape, root: TrieDentry, at: Path, spot: Spot)
    requires ValidShape(s, root) && Attachable(s, at, spot)
    ensures TreeOf(Grown(s, at, spot)) == TreeOf(s)[at := spot.cell]
    ensures ValidShape(Grown(s, at, spot), root)
  {
    hide ValidTree, Linked, Bound, Branched, Cached, Attachable, Grown;
    GrownTree(s, root, at, spot);
    GrownLinks(s, root, at, spot);
    GrownBound(s, root, at, spot);
    GrownBranches(s, root, at, spot);
    GrownCaches(s, root, at, spot);
  }

  lemma GrownTree(s: Shape, root: TrieDentry, at: Path, spot: Spot)
    requires ValidShape(s, root) && Attachable(s, at, spot)
    ensures at != [] && Parent(at) in s && TreeOf(Grown(s, at, spot)) == TreeOf(s)[at := spot.cell]
    ensures ValidTree(TreeOf(s)[at := spot.cell])
  {
    hide Linked, Branched, Cached, ValidTree;
    var t := TreeOf(s);
    if exists q :: q in s && s[q].entry.inode == spot.entry.inode && s[q].cell == spot.cell && !spot.cell.node.Dir? {
      var q :| q in s && s[q].entry.inode == spot.entry.inode && s[q].cell == spot.cell && !spot.cell.node.Dir?;
      assert t[q] == spot.cell;
      AliasValid(t, q, at);
    } else {
      PutValid(t, at, spot.cell);
    }
  }

  lemma GrownLinks(s: Shape, root: TrieDentry, at: Path, spot: Spot)
    requires ValidShape(s, root) && Attachable(s, at, spot)
    ensures Linked(Grown(s, at, spot), root)
  {
    hide ValidTree, Bound, Branched, Cached, Parent, Base;
    var u := Grown(s, at, spot);
    assert u.Keys == s.Keys + {at} && u[at] == spot;
    assert forall p | p in s :: u[p].name == s[p].name && u[p].parent == s[p].parent && u[p].entry == s[p].entry;
    hide Grown;
  }

  lemma GrownBound(s: Shape, root: TrieDentry, at: Path, spot: Spot)
    requires ValidShape(s, root) && Attachable(s, at, spot)
    ensures Bound(Grown(s, at, spot))
  {
    hide ValidTree, Linked, Branched, Cached;
  }

  lemma GrownBranches(s: Shape, root: TrieDentry, at: Path, spot: Spot)
    requires ValidShape(s, root) && Attachable(s, at, spot)
    ensures Branched(Grown(s, at, spot))
  {
    hide ValidTree, Linked, Bound, Cached;
    var u := Grown(s, at, spot);
    forall p, n | p in u
      ensures (n in u[p].kids <==> p + [n] in u) && (p + [n] in u ==> u[p].kids[n] == u[p + [n]].entry)
    {
      SplitsOnce(p, n, at);
      NoChild(s, at, n);
    }
  }

  lemma NoChild(s: Shape, at: Path, n: Name)
    requires ValidTree(TreeOf(s)) && at !in s
    ensures at + [n] !in s
  {
    MissingIsVacant(TreeOf(s), at);
    assert at + [n] in s <==> at + [n] in TreeOf(s);
    assert (at + [n])[..|at|] == at;
  }

  lemma GrownCaches(s: Shape, root: TrieDentry, at: Path, spot: Spot)
    requires ValidShape(s, root) && Attachable(s, at, spot)
    ensures Cached(Grown(s, at, spot))
  {
    hide ValidTree, Linked, Bound, Branched;
  }

  // ----- cutting a subtree off -----

  function Pruned(s: Shape, at: Path): Shape
    requires at != [] && Parent(at) in s
  {
    Without(s[Parent(at) := Left(s[Parent(at)], Base(at))], at)
  }

  lemma PrunedValid(s: Shape, root: TrieDentry, at: Path)
    requires ValidShape(s, root) && at in s && at != []
    ensures Parent(at) in s && TreeOf(Pruned(s, at)) == Without(TreeOf(s), at)
    ensures ValidShape(Pruned(s, at), root)
  {
    hide ValidTree, Linked, Bound, Branched, Cached, Pruned;
    PrunedLinks(s, root, at);
    PrunedBound(s, root, at);
    PrunedBranches(s, root, at);
    PrunedCaches(s, root, at);
    WithoutValid(TreeOf(s), at);
  }

  lemma PrunedLinks(s: Shape, root: TrieDentry, at: Path)
    requires ValidShape(s, root) && at in s && at != []
    ensures Parent(at) in s && Linked(Pruned(s, at), root)
  {
    hide ValidTree, Branched, Cached, Bound;
    forall p | p in s ensures p != [] && Under(Parent(p), at) ==> Under(p, at) {
      UnderParent(p, at);
    }
  }

  lemma PrunedBound(s: Shape, root: TrieDentry, at: Path)
    requires ValidShape(s, root) && at in s && at != [] && Parent(at) in s
    ensures Bound(Pruned(s, at)) && TreeOf(Pruned(s, at)) == Without(TreeOf(s), at)
  {
    hide ValidTree, Linked, Branched, Cached;
  }

  lemma PrunedBranches(s: Shape, root: TrieDentry, at: Path)
    requires ValidShape(s, root) && at in s && at != [] && Parent(at) in s
    ensures Branched(Pruned(s, at))
  {
    hide ValidTree, Linked, Bound, Cached;
    var u := Pruned(s, at);
    forall p, n | p in u
      ensures (n in u[p].kids <==> p + [n] in u) && (p + [n] in u ==> u[p].kids[n] == u[p + [n]].entry)
    {
      UnderChild(p, n, at);
      SplitsOnce(p, n, at);
    }
  }

  lemma PrunedCaches(s: Shape, root: TrieDentry, at: Path)
    requires ValidShape(s, root) && at in s && at != [] && Parent(at) in s
    ensures Cached(Pruned(s, at))
  {
    hide ValidTree, Linked, Bound, Branched, IsListing;
  }

  // ----- moving a subtree -----

  /** The writes of a rename, with every entry still at its old path. */
  function Rewired(s: Shape, src: Path, dst: Path): Shape
    requires src != [] && dst != [] && src in s && Parent(src) in s && Parent(dst) in s
  {
    var left := s[Parent(src) := Left(s[Parent(src)], Base(src))];
    var named := left[src := left[src].(name := Base(dst), parent := s[Parent(dst)].entry)];
    named[Parent(dst) := Joined(named[Parent(dst)], Base(dst), s[src].entry)]
  }

  function Retreed(s: Shape, src: Path, dst: Path): Shape
    requires src != [] && dst != [] && src in s && Parent(src) in s && Parent(dst) in s
  {
    Relabel(Rewired(s, src, dst), src, dst)
  }

  ghost predicate Movable(s: Shape, src: Path, dst: Path) {
    && src in s && src != [] && dst !in s && dst != [] && !Under(dst, src)
    && Parent(dst) in s && s[Parent(dst)].cell.node.Dir?
  }

  /** Where the entries of a moved shape come from. */
  ghost predicate Came(s: Shape, src: Path, dst: Path, q: Path)
    requires src != [] && dst != [] && src in s && Parent(src) in s && Parent(dst) in s
  {
    var u, o := Retreed(s, src, dst), Origin(q, src, dst);
    && q in u && o in s && u[q] == Rewired(s, src, dst)[o] && q == Moved(o, src, dst)
    && (o == src <==> q == dst) && (o == Parent(src) <==> q == Parent(src)) && (o == Parent(dst) <==> q == Parent(dst))
  }

  lemma RelabelCame<V>(m: map<Path, V>, src: Path, dst: Path, q: Path)
    requires src != [] && dst != [] && !Under(dst, src) && Vacant(m, dst) && Parent(src) in m && Parent(dst) in m
    requires q in Relabel(m, src, dst)
    ensures var o := Origin(q, src, dst);
      && o in m && Relabel(m, src, dst)[q] == m[o] && q == Moved(o, src, dst)
      && (o == src <==> q == dst) && (o == Parent(src) <==> q == Parent(src))
          && (o == Parent(dst) <==> q == Parent(dst))
  {
    RelabelAt(m, src, dst, q);
    var p :| p in m && q == Moved(p, src, dst);
    MovedOrigin(p, src, dst);
    UnderParent(dst, src);
    assert Under(q, dst) ==> q == dst + q[|dst|..] && Origin(q, src, dst)[..|src|] == src;
    assert src + [] == src;
  }

  lemma CameFrom(s: Shape, root: TrieDentry, src: Path, dst: Path, q: Path)
    requires ValidShape(s, root) && Movable(s, src, dst)
    ensures Vacant(s, dst) && Parent(src) in s && (q in Retreed(s, src, dst) ==> Came(s, src, dst, q))
  {
    hide ValidTree, Bound, Branched, Cached, Relabel, Rewired, Origin, Moved, Under;
    VacantShape(s, dst);
    RewiredCells(s, src, dst);
    if q in Retreed(s, src, dst) {
      RelabelCame(Rewired(s, src, dst), src, dst, q);
    }
  }

  lemma VacantShape(s: Shape, dst: Path)
    requires ValidTree(TreeOf(s)) && dst !in s
    ensures Vacant(s, dst)
  {
    MissingIsVacant(TreeOf(s), dst);
    forall p | p in s ensures !Under(p, dst) {
      assert p in TreeOf(s);
    }
  }

  lemma RetreedValid(s: Shape, root: TrieDentry, src: Path, dst: Path)
    requires ValidShape(s, root) && Movable(s, src, dst)
    ensures Parent(src) in s && TreeOf(Retreed(s, src, dst)) == Relabel(TreeOf(s), src, dst)
    ensures ValidShape(Retreed(s, src, dst), root)
  {
    hide ValidTree, Linked, Bound, Branched, Cached, Retreed, Relabel, IsDirAt;
    CameFrom(s, root, src, dst, dst);
    RetreedTree(s, root, src, dst);
    RetreedLinks(s, root, src, dst);
    RetreedBound(s, root, src, dst);
    RetreedBranches(s, root, src, dst);
    RetreedCaches(s, root, src, dst);
  }

  lemma RetreedTree(s: Shape, root: TrieDentry, src: Path, dst: Path)
    requires ValidShape(s, root) && Movable(s, src, dst) && Parent(src) in s
    ensures TreeOf(Retreed(s, src, dst)) == Relabel(TreeOf(s), src, dst)
    ensures ValidTree(Relabel(TreeOf(s), src, dst))
  {
    hide ValidTree, Linked, Bound, Branched, Cached, Rewired;
    RelabelValid(TreeOf(s), src, dst);
    RewiredCells(s, src, dst);
  }

  lemma RewiredCells(s: Shape, src: Path, dst: Path)
    requires src != [] && dst != [] && src in s && Parent(src) in s && Parent(dst) in s
    ensures var m := Rewired(s, src, dst);
            m.Keys == s.Keys && forall p | p in s ::
                m[p].cell == s[p].cell && m[p].entry == s[p].entry && m[p].names == s[p].names
  {
  }

  lemma RetreedBound(s: Shape, root: TrieDentry, src: Path, dst: Path)
    requires ValidShape(s, root) && Movable(s, src, dst) && Parent(src) in s
    ensures Bound(Retreed(s, src, dst))
  {
    hide ValidTree, Linked, Branched, Cached, Rewired;
    RewiredCells(s, src, dst);
  }

  lemma RetreedCaches(s: Shape, root: TrieDentry, src: Path, dst: Path)
    requires ValidShape(s, root) && Movable(s, src, dst) && Parent(src) in s
    ensures Cached(Retreed(s, src, dst))
  {
    hide ValidTree, Linked, Branched, Bound, IsListing;
  }

  lemma RetreedLinks(s: Shape, root: TrieDentry, src: Path, dst: Path)
    requires ValidShape(s, root) && Movable(s, src, dst) && Parent(src) in s
    ensures Linked(Retreed(s, src, dst), root)
  {
    hide ValidShape, Relabel, Rewired, Retreed, Origin, Under, Moved;
    var u := Retreed(s, src, dst);
    RootStays(s, root, src, dst);
    forall q | q in u && q != []
      ensures Parent(q) in u && u[q].name == Base(q) && u[q].parent == u[Parent(q)].entry
    {
      RetreedLink(s, root, src, dst, q);
    }
    forall p, q | p in u && q in u && u[p].entry == u[q].entry ensures p == q {
      RetreedOnce(s, root, src, dst, p, q);
    }
    assert Linked(u, root);
  }

  lemma RootStays(s: Shape, root: TrieDentry, src: Path, dst: Path)
    requires ValidShape(s, root) && Movable(s, src, dst) && Parent(src) in s
    ensures var u := Retreed(s, src, dst); [] in u && u[[]].entry == root && u[[]].parent == null
  {
    hide ValidTree, Branched, Cached, Bound, Rewired, Relabel;
    VacantShape(s, dst);
    NotIntoItself(src, dst);
    RewiredCells(s, src, dst);
    RewiredLabels(s, src, dst);
    RelabelAt(Rewired(s, src, dst), src, dst, []);
  }

  lemma RetreedOnce(s: Shape, root: TrieDentry, src: Path, dst: Path, p: Path, q: Path)
    requires ValidShape(s, root) && Movable(s, src, dst) && Parent(src) in s
    requires var u := Retreed(s, src, dst); p in u && q in u && u[p].entry == u[q].entry
    ensures p == q
  {
    hide ValidTree, Branched, Cached, Bound, Rewired, Relabel, Retreed, Origin, Moved;
    CameFrom(s, root, src, dst, p);
    CameFrom(s, root, src, dst, q);
    RewiredCells(s, src, dst);
  }

  // Below the moved entry, origins commute with parents.
  lemma OriginParent(src: Path, dst: Path, q: Path)
    requires src != [] && q != [] && q != dst
    ensures Under(q, dst) <==> Under(Parent(q), dst)
    ensures Origin(q, src, dst) != []
    ensures Origin(Parent(q), src, dst) == Parent(Origin(q, src, dst)) && Base(q) == Base(Origin(q, src, dst))
  {
    UnderParent(q, dst);
    if Under(q, dst) {
      var x := q[|dst|..];
      assert Parent(q)[..|dst|] == q[..|dst|] && Parent(q)[|dst|..] == x[..|x| - 1];
      assert Parent(src + x) == src + x[..|x| - 1];
    }
  }

  lemma RelabelParent<V>(m: map<Path, V>, src: Path, dst: Path, q: Path)
    requires src != [] && dst != [] && !Under(dst, src) && Vacant(m, dst) && Parent(dst) in m
    requires q in Relabel(m, src, dst) && q != [] && forall p | p in m :: p != [] ==> Parent(p) in m
    ensures Parent(q) in Relabel(m, src, dst)
    ensures q == dst ==> Relabel(m, src, dst)[Parent(q)] == m[Parent(dst)]
    ensures q != dst ==> var o := Origin(q, src, dst);
              o != [] && Base(o) == Base(q) && Parent(o) in m && Relabel(m, src, dst)[Parent(q)] == m[Parent(o)]
  {
    RelabelAt(m, src, dst, q);
    RelabelAt(m, src, dst, Parent(q));
    UnderParent(q, src);
    if q != dst { OriginParent(src, dst, q); }
  }

  lemma RewiredLabels(s: Shape, src: Path, dst: Path)
    requires src != [] && dst != [] && src in s && Parent(src) in s && Parent(dst) in s && Parent(dst) != src
    ensures var m := Rewired(s, src, dst);
            && m.Keys == s.Keys && m[src].name == Base(dst) && m[src].parent == s[Parent(dst)].entry
            && forall p | p in s && p != src :: m[p].name == s[p].name && m[p].parent == s[p].parent
  {
  }

  lemma RetreedLink(s: Shape, root: TrieDentry, src: Path, dst: Path, q: Path)
    requires ValidShape(s, root) && Movable(s, src, dst) && Parent(src) in s
    requires q in Retreed(s, src, dst) && q != []
    ensures var u := Retreed(s, src, dst);
            Parent(q) in u && u[q].name == Base(q) && u[q].parent == u[Parent(q)].entry
  {
    NotIntoItself(src, dst);
    hide ValidTree, Branched, Cached, Bound, Relabel, Rewired, Origin, Moved, Under, Parent, Base;
    CameFrom(s, root, src, dst, q);
    var m := Rewired(s, src, dst);
    RewiredCells(s, src, dst);
    RewiredLabels(s, src, dst);
    RelabelParent(m, src, dst, q);
  }

  lemma NotIntoItself(src: Path, dst: Path)
    requires dst != [] && !Under(dst, src)
    ensures Parent(dst) != src
  {
    UnderParent(dst, src);
  }

  // The entries one component below a path, after a move.
  lemma MovedChild<V>(m: map<Path, V>, src: Path, dst: Path, q: Path, n: Name)
    requires src in m && src != [] && dst != [] && !Under(dst, src) && Vacant(m, dst) && q in Relabel(m, src, dst)
    ensures q + [n] in Relabel(m, src, dst) <==>
            (q == Parent(dst) && n == Base(dst))
                || (!(q == Parent(src) && n == Base(src)) && Origin(q, src, dst) + [n] in m)
    ensures q + [n] in Relabel(m, src, dst) ==>
            if q == Parent(dst) && n == Base(dst) then Relabel(m, src, dst)[q + [n]] == m[src]
            else Origin(q, src, dst) + [n] in m && Relabel(m, src, dst)[q + [n]] == m[Origin(q, src, dst) + [n]]
  {
    var c := q + [n];
    RelabelAt(m, src, dst, q);
    RelabelAt(m, src, dst, c);
    SplitsOnce(q, n, src);
    SplitsOnce(q, n, dst);
    assert Parent(c) == q && Base(c) == n;
    if c == dst {
      assert Under(c, dst) && src + c[|dst|..] == src;
    } else {
      OriginParent(src, dst, c);
      assert Origin(c, src, dst) == Origin(q, src, dst) + [n];
      UnderChild(q, n, src);
    }
  }

  lemma RetreedBranches(s: Shape, root: TrieDentry, src: Path, dst: Path)
    requires ValidShape(s, root) && Movable(s, src, dst) && Parent(src) in s
    ensures Branched(Retreed(s, src, dst))
  {
    hide ValidShape, Relabel, Rewired, Retreed;
    var u := Retreed(s, src, dst);
    forall q, n | q in u
      ensures (n in u[q].kids <==> q + [n] in u) && (q + [n] in u ==> u[q].kids[n] == u[q + [n]].entry)
    {
      RetreedBranch(s, root, src, dst, q, n);
    }
  }

  lemma RetreedBranch(s: Shape, root: TrieDentry, src: Path, dst: Path, q: Path, n: Name)
    requires ValidShape(s, root) && Movable(s, src, dst) && Parent(src) in s && q in Retreed(s, src, dst)
    ensures var u := Retreed(s, src, dst);
            (n in u[q].kids <==> q + [n] in u) && (q + [n] in u ==> u[q].kids[n] == u[q + [n]].entry)
  {
    hide ValidTree, Linked, Cached, Bound, Relabel, Origin, Moved, Parent, Base, Under;
    CameFrom(s, root, src, dst, q);
    RewiredCells(s, src, dst);
    MovedChild(Rewired(s, src, dst), src, dst, q, n);
  }

  lemma RelabelSources<V, W>(m: map<Path, V>, n: map<Path, W>, src: Path, dst: Path)
    requires m.Keys == n.Keys
    ensures Relabel(m, src, dst).Keys == Relabel(n, src, dst).Keys
    ensures forall q | q in Relabel(n, src, dst) ::
            Origin(q, src, dst) in n && Relabel(n, src, dst)[q] == n[Origin(q, src, dst)]
  {
    assert forall p :: p in m <==> p in n;
    assert (set p | p in m :: Moved(p, src, dst)) == (set p | p in n :: Moved(p, src, dst));
  }

  // ----- filling the name cache -----

  function Listed(s: Shape, p: Path, names: seq<Name>): Shape
    requires p in s
  {
    s[p := s[p].(names := names, dirty := false)]
  }

  lemma ListedValid(s: Shape, root: TrieDentry, p: Path, names: seq<Name>)
    requires ValidShape(s, root) && p in s && IsListing(names, s[p].kids.Keys)
    ensures TreeOf(Listed(s, p, names)) == TreeOf(s) && ValidShape(Listed(s, p, names), root)
  {
    hide ValidTree, Linked, Bound, Branched, Cached;
    var u := Listed(s, p, names);
    assert TreeOf(u) == TreeOf(s);
    ListedPointers(s, u, root);
    ListedCaches(s, root, p, names);
  }

  lemma ListedPointers(s: Shape, u: Shape, root: TrieDentry)
    requires ValidShape(s, root) && u.Keys == s.Keys
    requires forall q | q in s :: u[q].(names := s[q].names, dirty := s[q].dirty) == s[q]
    ensures Linked(u, root) && Bound(u) && Branched(u)
  {
    hide ValidTree, Cached, Parent, Base;
  }

  lemma ListedCaches(s: Shape, root: TrieDentry, p: Path, names: seq<Name>)
    requires ValidShape(s, root) && p in s && IsListing(names, s[p].kids.Keys)
    ensures Cached(Listed(s, p, names))
  {
    hide ValidTree, Linked, Bound, Branched, IsListing;
  }

  // ----- changing an inode in place -----

  function Revalued(s: Shape, p: Path, node: Node): Shape
    requires p in s
  {
    map q | q in s :: if s[q].cell.id == s[p].cell.id then s[q].(cell := Cell(s[p].cell.id, node)) else s[q]
  }

  lemma RevaluedValid(s: Shape, root: TrieDentry, p: Path, node: Node)
    requires ValidShape(s, root) && p in s && (node.Dir? <==> s[p].cell.node.Dir?)
    ensures TreeOf(Revalued(s, p, node)) == SetNode(TreeOf(s), s[p].cell.id, node)
    ensures ValidShape(Revalued(s, p, node), root)
  {
    hide ValidTree, Linked, Bound, Branched, Cached, Revalued, SameBones;
    RevaluedTree(s, root, p, node);
    RevaluedBones(s, root, p, node);
    BonesValid(s, Revalued(s, p, node), root);
  }

  lemma RevaluedTree(s: Shape, root: TrieDentry, p: Path, node: Node)
    requires ValidShape(s, root) && p in s && (node.Dir? <==> s[p].cell.node.Dir?)
    ensures TreeOf(Revalued(s, p, node)) == SetNode(TreeOf(s), s[p].cell.id, node)
    ensures ValidTree(TreeOf(Revalued(s, p, node)))
  {
    hide ValidTree, Linked, Bound, Branched, Cached;
    SetNodeValid(TreeOf(s), p, node);
    assert TreeOf(Revalued(s, p, node)) == SetNode(TreeOf(s), s[p].cell.id, node);
  }

  /** The same pointers and caches over the same inodes, directories where there were directories. */
  ghost predicate SameBones(s: Shape, u: Shape) {
    u.Keys == s.Keys && forall q | q in s ::
      && u[q].cell.id == s[q].cell.id && (u[q].cell.node.Dir? <==> s[q].cell.node.Dir?)
      && u[q].(cell := s[q].cell) == s[q]
  }

  lemma RevaluedBones(s: Shape, root: TrieDentry, p: Path, node: Node)
    requires ValidShape(s, root) && p in s && (node.Dir? <==> s[p].cell.node.Dir?)
    ensures SameBones(s, Revalued(s, p, node))
  {
    hide ValidTree, Linked, Bound, Branched, Cached;
    forall q | q in s && s[q].cell.id == s[p].cell.id ensures s[q].cell.node == s[p].cell.node {
      SameNode(s, p, q);
    }
  }

  lemma BonesValid(s: Shape, u: Shape, root: TrieDentry)
    requires SameBones(s, u) && ValidShape(s, root)
    ensures Linked(u, root) && Bound(u) && Branched(u) && Cached(u)
  {
    hide ValidTree, IsListing, Parent, Base;
  }

  lemma SameNode(s: Shape, p: Path, q: Path)
    requires ValidTree(TreeOf(s)) && p in s && q in s && s[q].cell.id == s[p].cell.id
    ensures s[q].cell.node == s[p].cell.node
  {
    var t := TreeOf(s);
    assert t[p].id == t[q].id;
  }
}
