/** TrieFS (fs/trie.go): a pointer tree of dentries over shared inodes, with a cache of sorted
    child names in every directory inode.

    A ghost index from paths to dentries says what the pointers mean. Each call is proved to end
    like the MemoryFS call of the same name and to leave the same tree, hard links included.
 */
module TrieFS {
  import opened Paths
  import opened Tree
  import opened Listing
  import opened MemoryOps
  import Laws = MemoryLaws
  import opened TrieShape

  ghost function SpotOf(d: TrieDentry, i: TrieInode): Spot
    reads d, i
  {
    Spot(Cell(i.id, i.value), d, d.name, d.parent, i.children, i.names, i.dirty)
  }

  ghost function ReadShape(entries: map<Path, TrieDentry>, nodes: map<Path, TrieInode>): Shape
    reads entries.Values, nodes.Values
  {
    map p | p in entries && p in nodes :: SpotOf(entries[p], nodes[p])
  }

  lemma ReadPut(entries: map<Path, TrieDentry>, nodes: map<Path, TrieInode>, at: Path, child: TrieDentry)
    ensures ReadShape(entries[at := child], nodes[at := child.inode]) ==
            ReadShape(entries, nodes)[at := SpotOf(child, child.inode)]
  {
  }

  lemma ReadWithout(entries: map<Path, TrieDentry>, nodes: map<Path, TrieInode>, at: Path)
    ensures ReadShape(Without(entries, at), Without(nodes, at)) == Without(ReadShape(entries, nodes), at)
  {
  }

  lemma ReadRelabel(entries: map<Path, TrieDentry>, nodes: map<Path, TrieInode>, src: Path, dst: Path)
    requires entries.Keys == nodes.Keys
    ensures ReadShape(Relabel(entries, src, dst), Relabel(nodes, src, dst)) ==
            Relabel(ReadShape(entries, nodes), src, dst)
  {
    hide Relabel, Origin;
    RelabelSources(entries, entries, src, dst);
    RelabelSources(entries, nodes, src, dst);
    RelabelSources(entries, ReadShape(entries, nodes), src, dst);
  }

  /** Both calls succeed at the same path, or both fail. */
  predicate Alike(a: Result, b: Result) {
    if a.Ok? then a == b else b.Err?
  }

  class TrieFS {
    var cwd: Path
    const root: TrieDentry
    var nextNodeID: nat
    /** What the pointers mean: the dentry and the inode at every path. */
    ghost var index: map<Path, TrieDentry>
    ghost var inodes: map<Path, TrieInode>
    /** The objects a call may write. */
    ghost var repr: set<object>

    ghost predicate Tied()
      reads this`index, this`inodes, this`repr
    {
      && index.Keys == inodes.Keys && (forall p | p in index :: index[p].inode == inodes[p])
      && this !in repr && (forall p | p in index :: index[p] in repr && inodes[p] in repr)
    }

    /** The pointer structure as a value. */
    ghost function Pointers(): Shape
      reads this`index, this`inodes, index.Values, inodes.Values
    {
      ReadShape(index, inodes)
    }

    ghost function Plain(): Tree<nat>
      reads this`inodes, inodes.Values`value
    {
      map p | p in inodes :: Cell(inodes[p].id, inodes[p].value)
    }

    ghost function State(): FS
      reads this`inodes, this`nextNodeID, inodes.Values`value
    {
      FS(Plain(), nextNodeID, false)
    }

    ghost predicate Valid()
      reads this`index, this`inodes, this`repr, this`nextNodeID, index.Values, inodes.Values
    {
      Tied() && ValidFS(State()) && ValidShape(Pointers(), root)
    }

    lemma SameTree()
      requires Tied()
      ensures TreeOf(Pointers()) == Plain() && Pointers().Keys == index.Keys
    {
    }

    /** NewTrie */
    constructor ()
      ensures Valid() && fresh(repr) && State() == NewFS(false) && cwd == []
    {
      hide *;
      var inode := new TrieInode(1, Dir(0x1ed, DEFAULT_OWNER, DEFAULT_OWNER));
      root := new TrieDentry("", null, inode);
      cwd := [];
      nextNodeID := 1;
      index := map[[] := root];
      inodes := map[[] := inode];
      repr := {root, inode};
      new;
      NewValid(inode);
    }

    lemma NewValid(inode: TrieInode)
      requires index == map[[] := root] && inodes == map[[] := inode] && repr == {root, inode} && nextNodeID == 1
               && root.inode == inode
      requires root.name == "" && root.parent == null
      requires inode.id == 1 && inode.value == Dir(0x1ed, DEFAULT_OWNER, DEFAULT_OWNER)
      requires inode.children == map[] && inode.names == [] && !inode.dirty
      ensures Valid() && State() == NewFS(false)
    {
      hide ValidShape;
      NewShapeValid(root, EMPTY_TREE[[]]);
      assert Plain() == EMPTY_TREE && Pointers() == NewShape(root, EMPTY_TREE[[]]);
    }

    // ----- resolution -----

    lemma RootEntry()
      requires Valid()
      ensures [] in index && index[[]] == root
    {
      hide ValidFS, ValidTree, Branched, Bound, Cached;
      assert Pointers()[[]].entry == index[[]];
    }

    /** What the child map of a dentry says about the tree one component below it. */
    lemma ChildEntry(at: Path, part: Name)
      requires Valid() && at in index
      ensures var kids, next := index[at].inode.children, at + [part];
              if part in kids
              then next in index && kids[part] == index[next] && next in Plain()
                  && Plain()[next] == Cell(kids[part].inode.id, kids[part].inode.value)
              else next !in Plain() && next !in index
    {
      hide ValidTree, ValidFS, Linked, Bound, Cached;
      assert Pointers()[at] == SpotOf(index[at], inodes[at]);
    }

    /** resolveAbsLocked: down the child maps, restarting at the root after a symlink. */
    method ResolveAbs(abs: Path, followFinal: bool, allowMissing: bool, depth: nat)
      returns (w: Walked, entry: TrieDentry?)
      requires Valid() && depth <= MAX_SYMLINK_DEPTH + 1
      decreases MAX_SYMLINK_DEPTH + 1 - depth
      ensures w == if depth > MAX_SYMLINK_DEPTH then Failed(Loop)
                   else Walk(Plain(), [], abs, followFinal, allowMissing, false, MAX_SYMLINK_DEPTH - depth)
      ensures if w.Found? then w.path in index && entry == index[w.path] else entry == null
    {
      hide *;
      RootEntry();
      if depth > MAX_SYMLINK_DEPTH {
        return Failed(Loop), null;
      }
      var hops := MAX_SYMLINK_DEPTH - depth;
      ghost var answer := Walk(Plain(), [], abs, followFinal, allowMissing, false, hops);
      WalkOnce(Plain(), [], abs, followFinal, allowMissing, false, hops);
      if abs == [] {
        return Found([], hops), root;
      }
      var current := root;
      var currentAbs: Path := [];
      var i := 0;
      while i < |abs|
        invariant 0 <= i < |abs| && currentAbs in index && index[currentAbs] == current
        invariant answer == Walk(Plain(), currentAbs, abs[i..], followFinal, allowMissing, false, hops)
        decreases |abs| - i
      {
        var part := abs[i];
        var nextAbs := currentAbs + [part];
        var isLast := i == |abs| - 1;
        assert abs[i..][1..] == abs[i + 1..];
        WalkOnce(Plain(), currentAbs, abs[i..], followFinal, allowMissing, false, hops);
        ChildEntry(currentAbs, part);
        if part !in current.inode.children {
          return if isLast && allowMissing then Missing(nextAbs, hops) else Failed(NotExist), null;
        }
        var child := current.inode.children[part];
        if child.inode.value.Symbolic? && (!isLast || followFinal) {
          var target := Resolve(currentAbs, child.inode.value.target) + abs[i + 1..];
          w, entry := ResolveAbs(target, true, allowMissing, depth + 1);
          return;
        }
        if isLast {
          return Found(nextAbs, hops), child;
        }
        if !child.inode.value.Dir? {
          return Failed(Invalid), null;
        }
        current := child;
        currentAbs := nextAbs;
        i := i + 1;
      }
      assert false;
    }

    method Look(abs: Path, followFinal: bool, allowMissing: bool) returns (w: Walked, entry: TrieDentry?)
      requires Valid()
      ensures w == Lookup(State(), abs, followFinal, allowMissing)
      ensures w.Found? ==> w.path in index && (followFinal ==> !index[w.path].inode.value.Symbolic?)
      ensures w.Missing? ==> allowMissing && w.path !in index && w.path != [] && IsDirAt(Plain(), Parent(w.path))
      ensures if w.Found? then entry == index[w.path] else entry == null
    {
      hide ValidShape, ValidTree, Walk, Pointers;
      RootIsDir(State());
      WalkSound(Plain(), [], abs, followFinal, allowMissing, false, MAX_SYMLINK_DEPTH);
      w, entry := ResolveAbs(abs, followFinal, allowMissing, 0);
    }

    /** resolveCreatePathLocked */
    method ResolveCreatePath(abs: Path, depth: nat) returns (c: Created)
      requires Valid() && depth <= MAX_SYMLINK_DEPTH + 1
      decreases MAX_SYMLINK_DEPTH + 1 - depth
      ensures c == if depth > MAX_SYMLINK_DEPTH then Refused(Loop)
                   else CreateWalk(Plain(), [], abs, MAX_SYMLINK_DEPTH - depth)
    {
      hide *;
      RootEntry();
      if depth > MAX_SYMLINK_DEPTH {
        return Refused(Loop);
      }
      var hops := MAX_SYMLINK_DEPTH - depth;
      ghost var answer := CreateWalk(Plain(), [], abs, hops);
      CreateWalkOnce(Plain(), [], abs, hops);
      if abs == [] {
        return At([], hops);
      }
      var current := root;
      var currentAbs: Path := [];
      var i := 0;
      while i < |abs|
        invariant 0 <= i < |abs| && currentAbs in index && index[currentAbs] == current
        invariant answer == CreateWalk(Plain(), currentAbs, abs[i..], hops)
        decreases |abs| - i
      {
        var part := abs[i];
        var nextAbs := currentAbs + [part];
        var isLast := i == |abs| - 1;
        assert abs[i..][1..] == abs[i + 1..];
        CreateWalkOnce(Plain(), currentAbs, abs[i..], hops);
        ChildEntry(currentAbs, part);
        if part !in current.inode.children {
          return At(currentAbs + abs[i..], hops);
        }
        var child := current.inode.children[part];
        if child.inode.value.Symbolic? {
          var target := Resolve(currentAbs, child.inode.value.target) + abs[i + 1..];
          c := ResolveCreatePath(target, depth + 1);
          return;
        }
        if isLast {
          return At(nextAbs, hops);
        }
        if !child.inode.value.Dir? {
          return Refused(Invalid);
        }
        current := child;
        currentAbs := nextAbs;
        i := i + 1;
      }
      assert false;
    }

    /** lookupAbsNoFollowLocked */
    method LookupNoFollow(abs: Path) returns (entry: TrieDentry?)
      requires Valid()
      ensures if abs in index then entry == index[abs] else entry == null
    {
      hide *;
      RootEntry();
      PrefixesIndexed(abs);
      var current := root;
      var i := 0;
      assert abs[..0] == [];
      while i < |abs|
        invariant 0 <= i <= |abs| && abs[..i] in index && index[abs[..i]] == current
      {
        assert abs[..i + 1] == abs[..i] + [abs[i]];
        ChildEntry(abs[..i], abs[i]);
        if abs[i] !in current.inode.children {
          return null;
        }
        current := current.inode.children[abs[i]];
        i := i + 1;
      }
      assert abs[..|abs|] == abs;
      return current;
    }

    lemma PrefixesIndexed(abs: Path)
      requires Valid()
      ensures abs in index ==> forall k | 0 <= k <= |abs| :: abs[..k] in index
    {
      hide ValidShape;
      assert abs[..|abs|] == abs;
      forall k | 0 <= k < |abs| ensures abs in Plain() ==> IsDirAt(Plain(), abs[..k]) {}
    }

    // ----- the ways the pointers change -----

    /** A path of the index whose inode has no other path. */
    ghost predicate Sole(dir: Path)
      reads this`index, this`inodes
    {
      && dir in index && dir in inodes && index[dir].inode == inodes[dir]
      && forall q | q in inodes && q != dir :: inodes[q] != inodes[dir]
    }

    /** attachChildLocked */
    method AttachLocked(ghost dir: Path, parent: TrieDentry, child: TrieDentry)
      requires Sole(dir) && parent == index[dir]
      modifies parent.inode`children, parent.inode`dirty
      ensures Pointers() == old(Pointers())[dir := Joined(old(Pointers())[dir], child.name, child)]
    {
      parent.inode.children := parent.inode.children[child.name := child];
      parent.inode.dirty := true;
    }

    /** detachChildLocked */
    method DetachLocked(ghost dir: Path, parent: TrieDentry, name: Name)
      requires Sole(dir) && parent == index[dir]
      modifies parent.inode`children, parent.inode`dirty
      ensures Pointers() == old(Pointers())[dir := Left(old(Pointers())[dir], name)]
    {
      parent.inode.children := parent.inode.children - {name};
      parent.inode.dirty := true;
    }

    /** A directory inode has one path. */
    lemma OneDentry(p: Path)
      requires ValidTree(Plain()) && p in inodes && inodes[p].value.Dir?
      ensures forall q | q in inodes && q != p :: inodes[q] != inodes[p]
    {
      forall q | q in inodes && inodes[q] == inodes[p] ensures q == p {
        assert Plain()[q].id == Plain()[p].id;
      }
    }

    /** The tree of a valid shape with bounded ids is a valid file system. */
    lemma Revalidate(before: FS, cell: Cell<nat>)
      requires Tied() && ValidShape(Pointers(), root) && ValidFS(before) && before.next <= nextNodeID
               && cell.id <= nextNodeID
      requires forall p | p in Plain() ::
                 Plain()[p] == cell || exists q :: q in before.t && before.t[q].id == Plain()[p].id
      ensures Valid()
    {
      hide Linked, Bound, Branched, Cached;
      SameTree();
    }

    /** Attach a dentry without children under a directory. */
    method AttachChild(ghost at: Path, parent: TrieDentry, child: TrieDentry)
      requires Valid() && Attachable(Pointers(), at, SpotOf(child, child.inode)) && parent == index[Parent(at)]
      requires child.inode.id <= nextNodeID
      modifies this`index, this`inodes, this`repr, parent.inode`children, parent.inode`dirty
      ensures Valid() && index == old(index)[at := child] && inodes == old(inodes)[at := child.inode]
      ensures repr == old(repr) + {child, child.inode}
      ensures Plain() == old(Plain())[at := Cell(child.inode.id, child.inode.value)]
    {
      hide Linked, Bound, Branched, Cached, ValidTree, Grown, TreeOf, IsListing, Tied, Attachable, ValidFS, ValidShape;
      ghost var s, spot, before := Pointers(), SpotOf(child, child.inode), State();
      SameTree();
      GrownValid(s, root, at, spot);
      AttachTargets(at, child);
      WriteChild(at, parent, child);
      SameTree();
      Revalidate(before, spot.cell);
    }

    lemma AttachTargets(at: Path, child: TrieDentry)
      requires Valid() && Attachable(Pointers(), at, SpotOf(child, child.inode))
      ensures at != [] && at !in inodes && Sole(Parent(at)) && child.name == Base(at)
              && child.inode != inodes[Parent(at)]
    {
      hide Linked, Branched, Cached, ValidTree;
      assert Pointers()[Parent(at)] == SpotOf(index[Parent(at)], inodes[Parent(at)]);
      OneDentry(Parent(at));
    }

    method WriteChild(ghost at: Path, parent: TrieDentry, child: TrieDentry)
      requires Tied() && at != [] && at !in inodes && Sole(Parent(at)) && parent == index[Parent(at)]
               && child.name == Base(at)
      requires child.inode != parent.inode
      modifies this`index, this`inodes, this`repr, parent.inode`children, parent.inode`dirty
      ensures Tied() && index == old(index)[at := child] && inodes == old(inodes)[at := child.inode]
      ensures repr == old(repr) + {child, child.inode}
      ensures Pointers() == Grown(old(Pointers()), at, old(SpotOf(child, child.inode)))
    {
      hide Sole, Joined, Pointers, Tied, Parent, Base;
      AttachLocked(Parent(at), parent, child);
      Note(at, child);
    }

    ghost method Note(at: Path, child: TrieDentry)
      requires Tied() && at !in inodes
      modifies this`index, this`inodes, this`repr
      ensures Tied() && repr == old(repr) + {child, child.inode}
      ensures index == old(index)[at := child] && inodes == old(inodes)[at := child.inode]
      ensures Pointers() == old(Pointers())[at := SpotOf(child, child.inode)]
    {
      hide ReadShape;
      ReadPut(index, inodes, at, child);
      repr := repr + {child, child.inode};
      index := index[at := child];
      inodes := inodes[at := child.inode];
    }

    /** Attach a new node with the next id. */
    method AddNode(ghost at: Path, parent: TrieDentry, name: Name, value: Node) returns (child: TrieDentry)
      requires Valid() && at != [] && at !in index && Parent(at) in index && parent == index[Parent(at)]
      requires parent.inode.value.Dir? && name == Base(at)
      modifies this`index, this`inodes, this`repr, this`nextNodeID, parent.inode`children, parent.inode`dirty
      ensures Valid() && fresh(repr - old(repr))
      ensures at in index && index[at] == child && child.inode.value == value
      ensures State() == Put(old(State()), at, value)
    {
      hide ValidFS, ValidShape, Pointers;
      ghost var before, s := State(), Pointers();
      NextIsUnused(before);
      nextNodeID := nextNodeID + 1;
      var inode := new TrieInode(nextNodeID, value);
      child := new TrieDentry(name, parent, inode);
      assert Plain() == before.t && Pointers() == s;
      NewIsAttachable(at, child);
      AttachChild(at, parent, child);
    }

    lemma NewIsAttachable(at: Path, child: TrieDentry)
      requires Valid() && at != [] && at !in index && Parent(at) in index
      requires index[Parent(at)].inode.value.Dir? && child.name == Base(at) && child.parent == index[Parent(at)]
      requires child !in index.Values && child.inode.children == map[] && child.inode.names == []
      requires forall q | q in Plain() :: Plain()[q].id != child.inode.id
      ensures Attachable(Pointers(), at, SpotOf(child, child.inode))
    {
      hide ValidFS, ValidShape;
      SameTree();
      forall q | q in Pointers() ensures Pointers()[q].cell.id != child.inode.id && Pointers()[q].entry != child {
        assert q in Plain() && Pointers()[q].entry == index[q];
      }
    }

    /** Change an inode in place: every path that links to it sees the new value. */
    method SetValue(ghost p: Path, inode: TrieInode, value: Node)
      requires Valid() && p in index && inode == index[p].inode && (value.Dir? <==> inode.value.Dir?)
      modifies inode`value
      ensures Valid() && index == old(index) && State() == Update(old(State()), p, value)
    {
      hide ValidFS, ValidShape, TreeOf, Revalued, Pointers, Plain;
      ghost var s, before := Pointers(), State();
      SameTree();
      SpotAt(p);
      UpdateFS(before, p, value);
      RevaluedValid(s, root, p, value);
      WriteValue(p, inode, value);
      SameTree();
    }

    lemma SpotAt(p: Path)
      requires Valid() && p in index
      ensures inodes[p] == index[p].inode && p in Pointers() && Pointers()[p] == SpotOf(index[p], inodes[p])
      ensures p in Plain() && Plain()[p] == Pointers()[p].cell
      ensures forall q | q in inodes ::
              q in Pointers() && (Pointers()[q].cell.id == Pointers()[p].cell.id <==> inodes[q] == inodes[p])
    {
      hide ValidFS, ValidTree, Linked, Branched, Cached;
      forall q | q in inodes
        ensures q in Pointers() && (Pointers()[q].cell.id == Pointers()[p].cell.id <==> inodes[q] == inodes[p])
      {
        assert Pointers()[q].entry == index[q];
      }
    }

    method WriteValue(ghost p: Path, inode: TrieInode, value: Node)
      requires Tied() && p in index && p in Pointers() && inode == inodes[p]
      requires forall q | q in inodes ::
               q in Pointers() && (Pointers()[q].cell.id == Pointers()[p].cell.id <==> inodes[q] == inodes[p])
      modifies inode`value
      ensures Pointers() == Revalued(old(Pointers()), p, value)
    {
      inode.value := value;
    }

    // ----- cutting off and moving a subtree -----

    /** The dentry above an entry, by its parent pointer. */
    lemma ParentDentry(at: Path)
      requires Valid() && at in index && at != []
      ensures Sole(Parent(at)) && index[at].parent == index[Parent(at)] && index[at].name == Base(at)
      ensures inodes[Parent(at)].value.Dir? && at in Pointers() && Parent(at) in Pointers()
      ensures forall q | q in index && index[q] == index[at] :: q == at
    {
      hide Branched, Cached, Bound;
      ParentIsDir(Plain(), at);
      OneDentry(Parent(at));
      assert Pointers()[at].entry == index[at] && Pointers()[Parent(at)].entry == index[Parent(at)];
      assert forall q | q in index :: q in Pointers() && Pointers()[q].entry == index[q];
    }

    method DetachChild(ghost at: Path, entry: TrieDentry)
      requires Valid() && at in index && at != [] && entry == index[at]
      modifies this`index, this`inodes, repr
      ensures Valid() && repr == old(repr)
      ensures State() == old(State()).(t := Without(old(Plain()), at))
    {
      hide ValidFS, ValidShape, Without, Pointers, Plain, TreeOf, Tied;
      ghost var s, before := Pointers(), State();
      SameTree();
      ParentDentry(at);
      PrunedValid(s, root, at);
      WithoutFS(before, at);
      Held(Parent(at));
      DetachLocked(Parent(at), entry.parent, entry.name);
      Forget(at);
      SameTree();
    }

    ghost method Forget(at: Path)
      requires Tied()
      modifies this`index, this`inodes
      ensures Tied() && Pointers() == Without(old(Pointers()), at)
    {
      hide ReadShape;
      ReadWithout(index, inodes, at);
      index := Without(index, at);
      inodes := Without(inodes, at);
    }

    /** The end of Rename: detach, rename and attach one dentry, which moves everything below it. */
    method MoveDentry(ghost src: Path, ghost dst: Path, entry: TrieDentry, newParent: TrieDentry, name: Name)
      requires Valid() && src in index && src != [] && entry == index[src]
      requires dst !in index && dst != [] && !Under(dst, src) && name == Base(dst)
      requires Parent(dst) in index && newParent == index[Parent(dst)] && newParent.inode.value.Dir?
      modifies this`index, this`inodes, repr
      ensures Valid() && repr == old(repr)
      ensures State() == old(State()).(t := Relabel(old(Plain()), src, dst))
    {
      hide ValidFS, ValidShape, Relabel, Pointers, Plain, TreeOf, Tied, Joined, Left;
      ghost var s, before := Pointers(), State();
      SameTree();
      ParentDentry(src);
      MoveTargets(src, dst);
      RetreedValid(s, root, src, dst);
      Held(Parent(src));
      Held(Parent(dst));
      Held(src);
      var oldParent := entry.parent;
      DetachLocked(Parent(src), oldParent, entry.name);
      RenameDentry(src, entry, newParent, name);
      AttachLocked(Parent(dst), newParent, entry);
      Follow(src, dst);
      SameTree();
    }

    lemma MoveTargets(src: Path, dst: Path)
      requires Valid() && src in index && src != [] && dst !in index && dst != [] && !Under(dst, src)
      requires Parent(dst) in index && index[Parent(dst)].inode.value.Dir?
      ensures Movable(Pointers(), src, dst) && Sole(Parent(dst)) && ValidFS(State().(t := Relabel(Plain(), src, dst)))
      ensures Pointers()[Parent(dst)].entry == index[Parent(dst)] && Pointers()[src].entry == index[src]
    {
      hide ValidTree, ValidShape;
      SameTree();
      SpotAt(Parent(dst));
      SpotAt(src);
      OneDentry(Parent(dst));
      RelabelKeepsIds(State(), src, dst);
    }

    method RenameDentry(ghost src: Path, entry: TrieDentry, parent: TrieDentry, name: Name)
      requires src in index && src in Pointers() && entry == index[src]
      requires forall q | q in index && index[q] == entry :: q == src
      modifies entry`name, entry`parent
      ensures entry.name == name
      ensures Pointers() == old(Pointers())[src := old(Pointers())[src].(name := name, parent := parent)]
    {
      ghost var s := Pointers();
      entry.name := name;
      entry.parent := parent;
      forall p | p in s
          ensures SpotOf(index[p], inodes[p]) == if p == src then s[src].(name := name, parent := parent) else s[p] {
      }
    }

    ghost method Follow(src: Path, dst: Path)
      requires Tied()
      modifies this`index, this`inodes
      ensures Tied() && Pointers() == Relabel(old(Pointers()), src, dst)
    {
      hide Relabel, Origin, ReadShape;
      RelabelSources(index, index, src, dst);
      RelabelSources(index, inodes, src, dst);
      ReadRelabel(index, inodes, src, dst);
      index := Relabel(index, src, dst);
      inodes := Relabel(inodes, src, dst);
    }

    // ----- directories -----

    /** mkdirAllLocked */
    method MkdirAllLocked(name: Path, perm: nat) returns (r: Result)
      requires Valid()
      modifies this`index, this`inodes, this`repr, this`nextNodeID, repr
      ensures Valid() && fresh(repr - old(repr))
      ensures Out(State(), r) == MemoryOps.MkdirAll(old(State()), name, perm)
    {
      hide *;
      MkdirAllFrom(State(), name, perm);
      ghost var goal := MkdirFrom(State(), [], name, perm);
      RootEntry();
      DirEntry([]);
      var current := root;
      var currentAbs: Path := [];
      var i := 0;
      while i < |name|
        invariant 0 <= i <= |name|
        invariant Valid() && fresh(repr - old(repr))
        invariant currentAbs in index && current == index[currentAbs] && current.inode.value.Dir?
        invariant goal == MkdirFrom(State(), currentAbs, name[i..], perm)
      {
        MkdirFromOne(State(), currentAbs, name[i..], perm);
        assert name[i..][1..] == name[i + 1..] && name[i..][0] == name[i];
        Held(currentAbs);
        var entry;
        r, entry := EnterOrMake(currentAbs, current, name[i], perm);
        if r.Err? {
          return;
        }
        current, currentAbs := entry, r.path;
        i := i + 1;
      }
      MkdirFromOne(State(), currentAbs, name[i..], perm);
      return Ok(currentAbs);
    }

    /** One round of the mkdir loop. */
    method EnterOrMake(currentAbs: Path, current: TrieDentry, part: Name, perm: nat)
      returns (r: Result, entry: TrieDentry)
      requires Valid() && currentAbs in index && current == index[currentAbs] && current.inode.value.Dir?
      modifies this`index, this`inodes, this`repr, this`nextNodeID, current.inode`children, current.inode`dirty
      ensures Valid() && fresh(repr - old(repr))
      ensures Out(State(), r) == MkdirOne(old(State()), currentAbs, part, perm)
      ensures r.Ok? ==> r.path in index && entry == index[r.path] && entry.inode.value.Dir?
    {
      hide ValidFS, ValidShape, Walk, Tied;
      var nextAbs := currentAbs + [part];
      assert Parent(nextAbs) == currentAbs && Base(nextAbs) == part;
      ChildEntry(currentAbs, part);
      entry := current;
      if part !in current.inode.children {
        entry := AddNode(nextAbs, current, part, Dir(DirPerm(perm), DEFAULT_OWNER, DEFAULT_OWNER));
        return Ok(nextAbs), entry;
      }
      var child := current.inode.children[part];
      if child.inode.value.Symbolic? {
        var w, resolved := Look(nextAbs, true, false);
        if !w.Found? {
          return Err(if w.Failed? then w.error else NotExist), entry;
        }
        DirEntry(w.path);
        if !resolved.inode.value.Dir? {
          return Err(Invalid), entry;
        }
        return Ok(w.path), resolved;
      }
      if !child.inode.value.Dir? {
        return Err(Invalid), entry;
      }
      return Ok(nextAbs), child;
    }

    lemma DirEntry(p: Path)
      requires Valid() && p in index
      ensures index[p].inode.value.Dir? <==> IsDirAt(Plain(), p)
      ensures p == [] ==> index[p].inode.value.Dir?
    {
      hide ValidShape;
      SameTree();
    }

    lemma Apart()
      requires Valid()
      ensures this !in repr
    {
    }

    lemma Held(p: Path)
      requires Valid() && p in index
      ensures index[p] in repr && index[p].inode in repr
    {
      hide ValidFS, ValidShape;
    }

    method MkdirAll(name: Raw, perm: nat) returns (r: Result)
      requires Valid()
      modifies this`index, this`inodes, this`repr, this`nextNodeID, repr
      ensures Valid() && fresh(repr - old(repr))
      ensures Out(State(), r) == MemoryOps.MkdirAll(old(State()), Resolve(cwd, name), perm)
    {
      hide *;
      Apart();
      r := MkdirAllLocked(Resolve(cwd, name), perm);
    }

    /** createParentLocked: the directory a new entry goes into. */
    method CreateParent(abs: Path) returns (r: Result, parent: TrieDentry?)
      requires Valid()
      ensures Out(State(), r) == EnsureParent(State(), abs)
      ensures if r.Ok? then Parent(abs) in index && parent == index[Parent(abs)] && parent.inode.value.Dir?
              else parent == null
    {
      hide ValidFS, ValidShape;
      parent := LookupNoFollow(Parent(abs));
      if parent == null {
        return Err(NotExist), null;
      }
      DirEntry(Parent(abs));
      if !parent.inode.value.Dir? {
        return Err(NotDir), null;
      }
      return Ok(Parent(abs)), parent;
    }

    /** The tail of every creating call. */
    method CreateEntry(abs: Path, value: Node) returns (r: Result)
      requires Valid() && abs != [] && abs !in index
      modifies this`index, this`inodes, this`repr, this`nextNodeID, repr
      ensures Valid() && fresh(repr - old(repr))
      ensures Out(State(), r) == Create(old(State()), abs, value)
    {
      hide ValidFS, ValidShape, EnsureParent, Tied, Plain;
      var parent;
      r, parent := CreateParent(abs);
      if r.Err? {
        return;
      }
      Held(Parent(abs));
      var child := AddNode(abs, parent, Base(abs), value);
      return Ok(abs);
    }

    // ----- links -----

    method Symlink(target: Raw, linkName: Raw) returns (r: Result)
      requires Valid()
      modifies this`index, this`inodes, this`repr, this`nextNodeID, repr
      ensures Valid() && fresh(repr - old(repr))
      ensures var o := MemoryOps.Symlink(old(State()), target, Resolve(cwd, linkName));
              State() == o.fs && Alike(r, o.res)
    {
      hide ValidFS, ValidShape, Tied, Plain, NewName, Create;
      Apart();
      var name := ResolveNewName(Resolve(cwd, linkName));
      if name.Err? {
        return name;
      }
      r := CreateEntry(name.path, Symbolic(0x1ff, DEFAULT_OWNER, DEFAULT_OWNER, target));
    }

    /** The destination of Symlink: the missing leaf, or the base name under the parent's create path. */
    method ResolveNewName(requested: Path) returns (r: Result)
      requires Valid()
      ensures Alike(r, NewName(State(), requested))
      ensures r.Ok? ==> r.path != [] && r.path !in index
    {
      hide ValidFS, ValidShape, Tied, Plain, Walk, CreateWalk;
      var w, entry := Look(requested, false, true);
      match w
      case Found(_, _) => return Err(Exist);
      case Missing(q, _) => return Ok(q);
      case Failed(e) =>
        if e != NotExist || requested == [] {
          return Err(e);
        }
        var c := ResolveCreatePath(Parent(requested), 0);
        if c.Refused? {
          return Err(ParentError(c.error));
        }
        var abs := c.path + [Base(requested)];
        var existing := LookupNoFollow(abs);
        InPlain(abs);
        return if existing != null then Err(Exist) else Ok(abs);
    }

    lemma InPlain(p: Path)
      requires Valid()
      ensures p in index <==> p in Plain()
    {
    }

    method Link(oldName: Raw, newName: Raw) returns (r: Result)
      requires Valid()
      modifies this`index, this`inodes, this`repr, repr
      ensures Valid() && fresh(repr - old(repr))
      ensures var o := MemoryOps.HardLink(old(State()), Resolve(cwd, oldName), Resolve(cwd, newName));
              State() == o.fs && Alike(r, o.res)
    {
      hide ValidFS, ValidShape, Tied, Plain, Walk, EnsureParent, CreateWalk, NewName;
      Apart();
      var w, oldEntry := Look(Resolve(cwd, oldName), false, false);
      if !w.Found? {
        return Err(if w.Failed? then w.error else NotExist);
      }
      SpotAt(w.path);
      if oldEntry.inode.value.Dir? {
        return Err(Invalid);
      }
      r := LinkTo(Resolve(cwd, oldName), w.path, oldEntry, Resolve(cwd, newName));
    }

    /** The second half of Link: unlike MemoryFS, no create path is tried when a parent is missing. */
    method LinkTo(ghost src: Path, oldAbs: Path, oldEntry: TrieDentry, requested: Path) returns (r: Result)
      requires Valid() && oldAbs in index && oldEntry == index[oldAbs] && !oldEntry.inode.value.Dir?
      requires var w := Lookup(State(), src, false, false); w.Found? && w.path == oldAbs
      modifies this`index, this`inodes, this`repr, repr
      ensures Valid() && fresh(repr - old(repr))
      ensures var o := MemoryOps.HardLink(old(State()), src, requested); State() == o.fs && Alike(r, o.res)
    {
      hide ValidFS, ValidShape, Tied, Plain, Lookup, EnsureParent, HardLink;
      Apart();
      SpotAt(oldAbs);
      LinkCases(State(), src, oldAbs, requested);
      var v, existing := Look(requested, false, true);
      if v.Failed? {
        if v.error == NotExist { LinkFails(src, requested); }
        return Err(ParentError(v.error));
      }
      if v.Found? {
        return Err(Exist);
      }
      r := AddAlias(oldAbs, oldEntry, v.path);
    }

    method AddAlias(ghost oldAbs: Path, oldEntry: TrieDentry, newAbs: Path) returns (r: Result)
      requires Valid() && oldAbs in index && oldEntry == index[oldAbs] && !oldEntry.inode.value.Dir?
               && oldAbs in Plain()
      requires newAbs != [] && newAbs !in index
      modifies this`index, this`inodes, this`repr, repr
      ensures Valid() && fresh(repr - old(repr))
      ensures var parent := EnsureParent(old(State()), newAbs);
              Out(State(), r) == if parent.res.Err? then parent
                                 else Out(parent.fs.(t := parent.fs.t[newAbs := old(Plain())[oldAbs]]), Ok(newAbs))
    {
      hide ValidFS, ValidShape, Tied, Plain, MkdirFrom, Pointers;
      Apart();
      var parent;
      r, parent := CreateParent(newAbs);
      if r.Err? {
        return;
      }
      Held(Parent(newAbs));
      AliasEntry(oldAbs, oldEntry, newAbs, parent);
      return Ok(newAbs);
    }

    lemma LinkFails(src: Path, dst: Path)
      requires Valid() && Lookup(State(), dst, false, true) == Failed(NotExist)
      ensures var o := MemoryOps.HardLink(State(), src, dst); o.fs == State() && o.res.Err?
    {
      hide ValidShape, HardLink;
      assert dst != [];
      LinkFallbackFails(State(), src, dst);
    }

    /** One more dentry for the inode of a file. */
    method AliasEntry(ghost oldAbs: Path, oldEntry: TrieDentry, newAbs: Path, parent: TrieDentry)
      requires Valid() && oldAbs in index && oldEntry == index[oldAbs] && !oldEntry.inode.value.Dir?
      requires newAbs != [] && newAbs !in index && Parent(newAbs) in index && parent == index[Parent(newAbs)]
               && parent.inode.value.Dir?
      modifies this`index, this`inodes, this`repr, parent.inode`children, parent.inode`dirty
      ensures Valid() && fresh(repr - old(repr))
      ensures State() == old(State()).(t := old(Plain())[newAbs := old(Plain())[oldAbs]])
    {
      hide ValidFS, ValidShape, Attachable, Plain, Pointers;
      ghost var s, t := Pointers(), Plain();
      Held(oldAbs);
      AliasReady(oldAbs);
      var child := new TrieDentry(Base(newAbs), parent, oldEntry.inode);
      assert Pointers() == s && Plain() == t;
      AliasIsAttachable(oldAbs, newAbs, child);
      AttachChild(newAbs, parent, child);
    }

    lemma AliasReady(oldAbs: Path)
      requires Valid() && oldAbs in index
      ensures oldAbs in Plain() && Plain()[oldAbs] == Cell(index[oldAbs].inode.id, index[oldAbs].inode.value)
      ensures index[oldAbs].inode.id <= nextNodeID
    {
      hide ValidShape;
      assert Plain()[oldAbs].id <= nextNodeID;
    }

    lemma AliasIsAttachable(oldAbs: Path, newAbs: Path, child: TrieDentry)
      requires Valid() && oldAbs in index && !index[oldAbs].inode.value.Dir? && child.inode == index[oldAbs].inode
      requires newAbs != [] && newAbs !in index && Parent(newAbs) in index && index[Parent(newAbs)].inode.value.Dir?
      requires child.name == Base(newAbs) && child.parent == index[Parent(newAbs)] && child !in repr
      ensures Attachable(Pointers(), newAbs, SpotOf(child, child.inode))
    {
      hide ValidFS, ValidTree, Linked, Bound, Cached;
      NoKids(oldAbs);
      var s := Pointers();
      assert s[oldAbs] == SpotOf(index[oldAbs], inodes[oldAbs]);
      assert s[oldAbs].entry.inode == child.inode && s[oldAbs].cell == SpotOf(child, child.inode).cell;
    }

    /** Only directories have children. */
    lemma NoKids(p: Path)
      requires Valid() && p in index && !index[p].inode.value.Dir?
      ensures index[p].inode.children == map[]
    {
      hide Linked, Bound, Cached;
      var s := Pointers();
      SameTree();
      forall n ensures n in s[p].kids ==> s[p].cell.node.Dir? {
        assert (p + [n])[..|p|] == p;
        assert p + [n] in s ==> IsDirAt(Plain(), p);
      }
      assert s[p].kids == map[];
    }

    // ----- files -----

    /** materializePath: a lazy file gets the bytes its provider returns. */
    method MaterializePath(ghost abs: Path, entry: TrieDentry, provider: Loader) returns (r: Result)
      requires Valid() && abs in index && entry == index[abs]
      modifies entry.inode`value
      ensures Valid() && index == old(index)
      ensures var o := Materialize(old(State()), abs, provider);
              State() == o.fs && (r.Ok? <==> o.res.Ok?) && (r.Err? ==> r == o.res)
    {
      hide ValidFS, ValidShape, Tied, Pointers;
      SpotAt(abs);
      var value := entry.inode.value;
      if value.File? && value.content.Lazy? {
        var load := LoadFrom(provider, value.content.source);
        if load.Unloadable? {
          return Err(load.error);
        }
        SetValue(abs, entry.inode, value.(content := Data(load.bytes)));
      }
      return Ok([]);
    }

    method OpenFile(name: Raw, flags: Flags, perm: nat, provider: Loader) returns (r: Result)
      requires Valid()
      modifies this`index, this`inodes, this`repr, this`nextNodeID, repr
      ensures Valid() && fresh(repr - old(repr))
      ensures Out(State(), r) == MemoryOps.OpenFile(old(State()), Resolve(cwd, name), flags, perm, provider)
    {
      hide ValidFS, ValidShape, Tied, Pointers, Plain, Walk, OpenNode, Materialize;
      Apart();
      var requested := Resolve(cwd, name);
      if MustMaterialize(flags) {
        var w, entry := Look(requested, true, false);
        if w.Failed? && !(flags.create && w.error == NotExist) {
          return Err(if flags.create then ParentError(w.error) else w.error);
        }
        if w.Found? {
          Held(w.path);
          var m := MaterializePath(w.path, entry, provider);
          if m.Err? && (!flags.create || m.error != NotExist) {
            MaterializeEnds(old(State()), w.path, provider);
            return Err(if flags.create then ParentError(m.error) else m.error);
          }
        }
      }
      r := OpenResolved(requested, flags, perm);
    }

    /** OpenFile after the lazy content has been read. */
    method OpenResolved(requested: Path, flags: Flags, perm: nat) returns (r: Result)
      requires Valid()
      modifies this`index, this`inodes, this`repr, this`nextNodeID, repr
      ensures Valid() && fresh(repr - old(repr))
      ensures Out(State(), r) == OpenNode(old(State()), requested, flags, perm)
    {
      hide ValidFS, ValidShape, Tied, Pointers, Plain, Walk, CreateWalk, Create, OpenExisting;
      Apart();
      if !flags.create {
        var w, entry := Look(requested, true, false);
        if !w.Found? {
          return Err(if w.Failed? then w.error else NotExist);
        }
        InPlain(w.path);
        Held(w.path);
        r := OpenAt(w.path, entry, flags);
        return;
      }
      if flags.excl {
        var v, existing := Look(requested, false, true);
        if v.Found? {
          return Err(Exist);
        }
      }
      var c := ResolveCreatePath(requested, 0);
      if c.Refused? {
        return Err(ParentError(c.error));
      }
      var found := LookupNoFollow(c.path);
      InPlain(c.path);
      RootEntry();
      if found == null {
        r := CreateEntry(c.path, File(FilePerm(perm), DEFAULT_OWNER, DEFAULT_OWNER, Data([])));
        return;
      }
      if flags.excl {
        return Err(Exist);
      }
      Held(c.path);
      r := OpenAt(c.path, found, flags);
    }

    /** Open an existing entry: directories are refused, O_TRUNC empties a file. */
    method OpenAt(abs: Path, entry: TrieDentry, flags: Flags) returns (r: Result)
      requires Valid() && abs in index && entry == index[abs] && abs in Plain()
      modifies entry.inode`value
      ensures Valid()
      ensures Out(State(), r) == OpenExisting(old(State()), abs, flags)
    {
      hide ValidFS, ValidShape, Tied, Pointers;
      SpotAt(abs);
      var value := entry.inode.value;
      if value.Dir? {
        return Err(Invalid);
      }
      if flags.trunc && flags.write && value.File? {
        SetValue(abs, entry.inode, value.(content := Data([])));
      }
      return Ok(abs);
    }

    /** trieFile.Write: a handle is bound to its inode, so every path linked to it sees the bytes. */
    method Write(ghost abs: Path, inode: TrieInode, append: bool, offset: nat, payload: Bytes) returns (next: nat)
      requires Valid() && abs in index && inode == index[abs].inode
      modifies inode`value
      ensures Valid() && State() == WriteAt(old(State()), abs, append, offset, payload)
      ensures next == OffsetAfter(old(State()), abs, append, offset, payload)
    {
      hide ValidFS, ValidShape, Tied, Pointers, Plain, Overwrite, SetNode;
      next := offset + |payload|;
      SpotAt(abs);
      var value := inode.value;
      if value.File? && value.content.Data? {
        var data := value.content.bytes;
        var from := if append then |data| else offset;
        next := from + |payload|;
        SetValue(abs, inode, value.(content := Data(Overwrite(data, from, payload))));
      }
    }

    // ----- metadata -----

    method Chmod(name: Raw, mode: nat) returns (r: Result)
      requires Valid()
      modifies repr
      ensures Valid()
      ensures Out(State(), r) == MemoryOps.Chmod(old(State()), Resolve(cwd, name), mode)
    {
      hide ValidFS, ValidShape, Tied, Pointers, Plain, Walk;
      Apart();
      var w, entry := Look(Resolve(cwd, name), true, false);
      if !w.Found? {
        return Err(if w.Failed? then w.error else NotExist);
      }
      SpotAt(w.path);
      Held(w.path);
      SetValue(w.path, entry.inode, WithMode(entry.inode.value, mode));
      return Ok(w.path);
    }

    method Chown(name: Raw, uid: nat, gid: nat, follow: bool) returns (r: Result)
      requires Valid()
      modifies repr
      ensures Valid()
      ensures Out(State(), r) == MemoryOps.Chown(old(State()), Resolve(cwd, name), uid, gid, follow)
    {
      hide ValidFS, ValidShape, Tied, Pointers, Plain, Walk;
      Apart();
      var w, entry := Look(Resolve(cwd, name), follow, false);
      if !w.Found? {
        return Err(if w.Failed? then w.error else NotExist);
      }
      SpotAt(w.path);
      Held(w.path);
      SetValue(w.path, entry.inode, WithOwner(entry.inode.value, uid, gid));
      return Ok(w.path);
    }

    // ----- reading -----

    /** Lstat: a lazy file is always loaded first, even when only its metadata is wanted. */
    method Lstat(name: Raw, provider: Loader) returns (r: Result, value: Node)
      requires Valid()
      modifies repr
      ensures Valid()
      ensures Out(State(), r) == LstatLoading(old(State()), Resolve(cwd, name), provider, false)
      ensures r.Ok? ==> r.path in Plain() && value == Plain()[r.path].node
    {
      hide ValidFS, ValidShape, Tied, Pointers, Plain, Walk, Materialize;
      Apart();
      value := Dir(0, 0, 0);
      var w, entry := Look(Resolve(cwd, name), false, false);
      if !w.Found? {
        return Err(if w.Failed? then w.error else NotExist), value;
      }
      Held(w.path);
      r := MaterializePath(w.path, entry, provider);
      MaterializeEnds(old(State()), w.path, provider);
      if r.Err? {
        return;
      }
      SpotAt(w.path);
      return Ok(w.path), entry.inode.value;
    }

    method Readlink(name: Raw) returns (r: Result, target: Raw)
      requires Valid()
      ensures var w := Lookup(State(), Resolve(cwd, name), false, false);
              && (r.Ok? <==> w.Found? && w.path in Plain() && Plain()[w.path].node.Symbolic?)
              && (r.Ok? ==> r.path == w.path && target == Plain()[w.path].node.target)
              && (r.Err? ==> r == Err(if w.Failed? then w.error else Invalid))
    {
      hide ValidFS, ValidShape, Tied, Pointers, Plain, Walk;
      target := Raw(false, []);
      var w, entry := Look(Resolve(cwd, name), false, false);
      if !w.Found? {
        return Err(if w.Failed? then w.error else NotExist), target;
      }
      SpotAt(w.path);
      if !entry.inode.value.Symbolic? {
        return Err(Invalid), target;
      }
      return Ok(w.path), entry.inode.value.target;
    }

    /** ReadDir: the cached names when the cache is clean, else the child names sorted afresh. */
    method ReadDir(name: Raw) returns (r: Result, names: seq<Name>)
      requires Valid()
      modifies repr
      ensures Valid() && State() == old(State())
      ensures var listed := ReadNames(Plain(), Resolve(cwd, name));
              && (r.Ok? <==> listed.Names?) && (r.Ok? ==> IsListing(names, listed.names))
              && (listed.NoNames? ==> r == Err(listed.error))
    {
      hide ValidFS, ValidShape, Tied, Pointers, Plain, Walk, IsListing, Children;
      Apart();
      names := [];
      var w, entry := Look(Resolve(cwd, name), true, false);
      if !w.Found? {
        return Err(if w.Failed? then w.error else NotExist), names;
      }
      DirEntry(w.path);
      if !entry.inode.value.Dir? {
        return Err(Invalid), names;
      }
      CacheAt(w.path);
      if !entry.inode.dirty && |entry.inode.names| == |entry.inode.children| {
        return Ok(w.path), entry.inode.names;
      }
      Held(w.path);
      names := SortedChildNames(w.path, entry.inode);
      return Ok(w.path), names;
    }

    lemma CacheAt(p: Path)
      requires Valid() && p in index && index[p].inode.value.Dir?
      ensures index[p].inode.children.Keys == Children(Plain(), p)
      ensures !index[p].inode.dirty ==> IsListing(index[p].inode.names, Children(Plain(), p))
    {
      hide ValidFS, ValidTree, Linked, Bound, IsListing;
      var s := Pointers();
      assert s[p] == SpotOf(index[p], inodes[p]);
      SameTree();
      forall n ensures n in s[p].kids <==> n in Children(Plain(), p) {
        ChildAt(Plain(), p, n);
      }
      assert s[p].kids.Keys == Children(Plain(), p);
    }

    /** sortedChildNamesLocked */
    method SortedChildNames(ghost p: Path, node: TrieInode) returns (names: seq<Name>)
      requires Valid() && p in index && node == index[p].inode && node.value.Dir?
      modifies node`names, node`dirty
      ensures Valid() && State() == old(State()) && index == old(index)
      ensures IsListing(names, Children(Plain(), p))
    {
      hide ValidFS, ValidShape, Pointers, IsListing, Children, Plain, TreeOf, TrieShape.Listed;
      CacheAt(p);
      if !node.dirty && node.names != [] {
        return node.names;
      }
      ghost var s := Pointers();
      SpotAt(p);
      SameTree();
      SoleEntry(p);
      names := Sort(node.children.Keys);
      ListedValid(s, root, p, names);
      WriteCache(p, node, names);
      SameTree();
    }

    lemma SoleEntry(p: Path)
      requires Valid() && p in index && index[p].inode.value.Dir?
      ensures Sole(p)
    {
      hide ValidShape;
      OneDentry(p);
    }

    method WriteCache(ghost p: Path, node: TrieInode, names: seq<Name>)
      requires Sole(p) && node == index[p].inode
      modifies node`names, node`dirty
      ensures p in old(Pointers()) && Pointers() == TrieShape.Listed(old(Pointers()), p, names)
    {
      node.names := names;
      node.dirty := false;
    }

    method Chdir(name: Raw) returns (r: Result)
      requires Valid()
      modifies this`cwd
      ensures var w := Lookup(State(), Resolve(old(cwd), name), true, false);
              && (r.Ok? <==> w.Found? && IsDirAt(Plain(), w.path)) && (r.Ok? ==> r.path == w.path)
              && (r.Err? ==> r == Err(if w.Failed? then w.error else Invalid))
              && cwd == if r.Ok? then w.path else old(cwd)
      ensures Valid()
    {
      hide ValidFS, ValidShape, Tied, Pointers, Plain, Walk;
      var w, entry := Look(Resolve(cwd, name), true, false);
      if !w.Found? {
        return Err(if w.Failed? then w.error else NotExist);
      }
      DirEntry(w.path);
      if !entry.inode.value.Dir? {
        return Err(Invalid);
      }
      cwd := w.path;
      return Ok(w.path);
    }

    // ----- removing and renaming -----

    method Remove(name: Raw, recursive: bool) returns (r: Result)
      requires Valid()
      modifies this`index, this`inodes, repr
      ensures Valid() && repr == old(repr)
      ensures Out(State(), r) == MemoryOps.Remove(old(State()), Resolve(cwd, name), recursive)
      ensures Laws.Removes(old(State()), State(), Resolve(cwd, name), recursive, r)
    {
      hide ValidFS, ValidShape, Tied, Pointers, Plain, Walk, Without, Children, Laws.Removes;
      Apart();
      Laws.RemoveLaw(State(), Resolve(cwd, name), recursive);
      var w, entry := Look(Resolve(cwd, name), false, false);
      if !w.Found? {
        return Err(if w.Failed? then w.error else NotExist);
      }
      if w.path == [] {
        return Err(Permission);
      }
      DirEntry(w.path);
      if entry.inode.value.Dir? {
        CacheAt(w.path);
      }
      if entry.inode.value.Dir? && |entry.inode.children| > 0 && !recursive {
        return Err(Invalid);
      }
      DetachChild(w.path, entry);
      return Ok(w.path);
    }

    method Rename(oldName: Raw, newName: Raw) returns (r: Result)
      requires Valid()
      modifies this`index, this`inodes, repr
      ensures Valid() && repr == old(repr)
      ensures var o := MemoryOps.Rename(old(State()), Resolve(cwd, oldName), Resolve(cwd, newName));
              State() == o.fs && Alike(r, o.res)
    {
      hide ValidFS, ValidShape, Tied, Pointers, Plain, Walk, Relabel, MkdirFrom, CreateWalk;
      Apart();
      var w, oldEntry := Look(Resolve(cwd, oldName), false, false);
      if !w.Found? {
        return Err(if w.Failed? then w.error else NotExist);
      }
      if w.path == [] {
        return Err(Permission);
      }
      var v, newEntry := Look(Resolve(cwd, newName), false, true);
      if v.Failed? {
        return Err(ParentError(v.error));
      }
      if v.Found? {
        return Err(Exist);
      }
      r := RenameTo(w.path, oldEntry, v.path);
    }

    /** Rename, once both ends are resolved. */
    method RenameTo(oldAbs: Path, oldEntry: TrieDentry, newAbs: Path) returns (r: Result)
      requires Valid() && oldAbs in index && oldAbs != [] && oldEntry == index[oldAbs]
      requires newAbs !in index && newAbs != [] && IsDirAt(Plain(), Parent(newAbs))
      modifies this`index, this`inodes, repr
      ensures Valid() && repr == old(repr)
      ensures if Below(newAbs, oldAbs) then r.Err? && State() == old(State())
              else Out(State(), r) == Out(old(State()).(t := Relabel(old(Plain()), oldAbs, newAbs)), Ok(newAbs))
    {
      hide ValidFS, ValidShape, Tied, Pointers, Plain, Relabel;
      Apart();
      var newParent;
      r, newParent := CreateParent(newAbs);
      if r.Err? {
        return;
      }
      DirAbove(oldAbs, newAbs);
      if oldEntry.inode.value.Dir? {
        var inside := IsAncestor(oldAbs, oldEntry, Parent(newAbs), newParent);
        if inside {
          return Err(Invalid);
        }
      }
      MoveDentry(oldAbs, newAbs, oldEntry, newParent, Base(newAbs));
      return Ok(newAbs);
    }

    lemma DirAbove(oldAbs: Path, newAbs: Path)
      requires Valid() && oldAbs in index && newAbs !in index && newAbs != [] && IsDirAt(Plain(), Parent(newAbs))
      ensures Under(newAbs, oldAbs) <==> Under(Parent(newAbs), oldAbs)
      ensures Below(newAbs, oldAbs) <==> Under(newAbs, oldAbs)
      ensures Under(newAbs, oldAbs) ==> index[oldAbs].inode.value.Dir?
    {
      hide ValidShape;
      UnderParent(newAbs, oldAbs);
      assert Parent(newAbs) != oldAbs && Under(Parent(newAbs), oldAbs) ==> IsDirAt(Plain(), oldAbs) by {
        assert Under(Parent(newAbs), oldAbs) ==> oldAbs == Parent(newAbs)[..|oldAbs|];
        assert |oldAbs| == |Parent(newAbs)| ==> Parent(newAbs)[..|oldAbs|] == Parent(newAbs);
      }
      assert Under(newAbs, oldAbs) && newAbs != oldAbs ==> Under(Parent(newAbs), oldAbs) by {
        assert |oldAbs| < |newAbs| ==> Parent(newAbs)[..|oldAbs|] == newAbs[..|oldAbs|];
        assert |oldAbs| == |newAbs| ==> newAbs[..|oldAbs|] == newAbs;
      }
    }

    /** trieIsAncestor: up the parent pointers. */
    method IsAncestor(ghost candidateAbs: Path, candidate: TrieDentry, ghost targetAbs: Path,
                      target: TrieDentry)
      returns (r: bool)
      requires Valid() && candidateAbs in index && candidate == index[candidateAbs]
      requires targetAbs in index && target == index[targetAbs]
      ensures r <==> Under(targetAbs, candidateAbs)
    {
      hide ValidFS, ValidShape, Tied, Pointers;
      var current: TrieDentry? := target;
      ghost var p := targetAbs;
      assert targetAbs[..|targetAbs|] == targetAbs;
      while current != null
        invariant current != null ==> p in index && current == index[p] && |p| <= |targetAbs| && p == targetAbs[..|p|]
        invariant forall k | (if current == null then 0 else |p| + 1) <= k <= |targetAbs| ::
                  targetAbs[..k] != candidateAbs
        decreases if current == null then 0 else |p| + 1
      {
        ParentLink(p, candidateAbs);
        if current == candidate {
          return true;
        }
        current := current.parent;
        p := Parent(p);
      }
      return false;
    }

    lemma ParentLink(p: Path, q: Path)
      requires Valid() && p in index && q in index
      ensures index[p] == index[q] <==> p == q
      ensures if p == [] then index[p].parent == null else Parent(p) in index && index[p].parent == index[Parent(p)]
    {
      hide ValidFS, ValidTree, Branched, Bound, Cached;
      var s := Pointers();
      assert s[p].entry == index[p] && s[q].entry == index[q];
      if p != [] { assert s[Parent(p)].entry == index[Parent(p)]; }
    }
  }

  // Link, once the source has been found.
  lemma LinkCases(fs: FS, src: Path, p: Path, dst: Path)
    requires var w := Lookup(fs, src, false, false); w.Found? && w.path == p
    requires p in fs.t && !fs.t[p].node.Dir?
    ensures var v, o := Lookup(fs, dst, false, true), HardLink(fs, src, dst);
            && (v.Found? ==> o == Out(fs, Err(Exist)))
            && (v.Failed? && v.error != NotExist ==> o == Out(fs, Err(v.error)))
            && (v.Missing? ==> var parent := EnsureParent(fs, v.path);
                               o == if parent.res.Err? then parent
                                    else Out(parent.fs.(t := parent.fs.t[v.path := fs.t[p]]), Ok(v.path)))
  {
    hide Walk, EnsureParent, CreateWalk;
  }

  lemma MkdirAllFrom(fs: FS, name: Path, perm: nat)
    ensures MemoryOps.MkdirAll(fs, name, perm) == MkdirFrom(fs, [], name, perm)
  {
  }

  lemma WithoutFS(fs: FS, at: Path)
    requires ValidFS(fs) && at != []
    ensures ValidFS(fs.(t := Without(fs.t, at)))
  {
    WithoutValid(fs.t, at);
  }
}
