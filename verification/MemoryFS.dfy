/** MemoryFS (fs/memory.go): a flat map from paths to node objects, and in every directory node a
    redundant set of child names.

    Each call is proved to compute the function of the same name in MemoryOps on the tree the
    map stands for, and to keep the child sets exact.
 */
module MemoryFS {
  import opened Paths
  import opened Tree
  import opened Listing
  import opened MemoryOps
  import opened MemoryLaws

  /** memoryNode: `value` holds the mode, the owner and the content or target. Hard links are
      paths with the same node object. */
  class MemoryNode {
    const id: nat
    var value: Node
    var children: set<Name>

    constructor (id: nat, value: Node)
      ensures this.id == id && this.value == value && children == {}
    {
      this.id := id;
      this.value := value;
      children := {};
    }
  }

  class MemoryFS {
    var cwd: Path
    var nodes: map<Path, MemoryNode>
    var nextNodeID: nat
    const implicitParents: bool

    /** The tree the node map stands for. */
    ghost function Plain(): Tree<nat>
      reads this, nodes.Values
    {
      map p | p in nodes :: Cell(nodes[p].id, nodes[p].value)
    }

    ghost function State(): FS
      reads this, nodes.Values
    {
      FS(Plain(), nextNodeID, implicitParents)
    }

    function NodeAt(p: Path): MemoryNode
      requires p in nodes
      reads this
    {
      nodes[p]
    }

    /** The child sets are exactly the base names of the paths beneath each directory. */
    ghost predicate Indexed()
      reads this, nodes.Values
    {
      forall p, n | p in nodes && nodes[p].value.Dir? :: n in nodes[p].children <==> p + [n] in nodes
    }

    ghost predicate Valid()
      reads this, nodes.Values
    {
      && ValidFS(State())
      && SameNode()
      && Indexed()
    }

    /** One id, one node object. */
    ghost predicate SameNode()
      reads this, nodes.Values
    {
      forall p, q | p in nodes && q in nodes && nodes[p].id == nodes[q].id :: nodes[p] == nodes[q]
    }

    lemma Parts()
      ensures Valid() <==> ValidFS(State()) && SameNode() && Indexed()
      ensures State() == FS(Plain(), nextNodeID, implicitParents) && Plain().Keys == nodes.Keys
      ensures ValidFS(State()) ==> ValidTree(Plain())
    {
    }

    /** NewMemory and newMemoryWithImplicitParents */
    constructor (implicitParents: bool)
      ensures Valid() && fresh(nodes.Values) && State() == NewFS(implicitParents) && cwd == []
    {
      var root := new MemoryNode(1, Dir(0x1ed, DEFAULT_OWNER, DEFAULT_OWNER));
      cwd := [];
      nodes := map[[] := root];
      nextNodeID := 1;
      this.implicitParents := implicitParents;
      new;
      assert nodes[[]] in nodes.Values;
      assert Plain() == EMPTY_TREE;
    }

    // ----- resolution -----

    /** resolveAbsLocked */
    method ResolveAbs(abs: Path, followFinal: bool, allowMissing: bool, depth: nat) returns (w: Walked)
      requires Valid() && depth <= MAX_SYMLINK_DEPTH + 1
      decreases MAX_SYMLINK_DEPTH + 1 - depth
      ensures w == if depth > MAX_SYMLINK_DEPTH then Failed(Loop)
                   else Walk(Plain(), [], abs, followFinal, allowMissing, false, MAX_SYMLINK_DEPTH - depth)
    {
      hide ValidFS, SameNode, Indexed;
      if depth > MAX_SYMLINK_DEPTH {
        return Failed(Loop);
      }
      var hops := MAX_SYMLINK_DEPTH - depth;
      ghost var answer := Walk(Plain(), [], abs, followFinal, allowMissing, false, hops);
      var current: Path := [];
      var i := 0;
      while i < |abs|
        invariant 0 <= i <= |abs| && (abs == [] ==> current == []) && (abs != [] ==> i < |abs|)
        invariant answer == Walk(Plain(), current, abs[i..], followFinal, allowMissing, false, hops)
        decreases |abs| - i
      {
        var next := current + [abs[i]];
        var isLast := i == |abs| - 1;
        assert abs[i..][1..] == abs[i + 1..];
        if next !in nodes {
          return if isLast && allowMissing then Missing(next, hops) else Failed(NotExist);
        }
        var node := nodes[next];
        assert Plain()[next] == Cell(node.id, node.value);
        if node.value.Symbolic? && (!isLast || followFinal) {
          var target := Resolve(Parent(next), node.value.target) + abs[i + 1..];
          assert Parent(next) == current;
          w := ResolveAbs(target, true, allowMissing, depth + 1);
          return;
        }
        if isLast {
          return Found(next, hops);
        }
        if !node.value.Dir? {
          return Failed(Invalid);
        }
        current := next;
        i := i + 1;
      }
      return Found([], hops);
    }

    method Look(abs: Path, followFinal: bool, allowMissing: bool) returns (w: Walked)
      requires Valid()
      ensures w == Lookup(State(), abs, followFinal, allowMissing)
      ensures w.Found? ==> w.path in nodes && (followFinal ==> !nodes[w.path].value.Symbolic?)
      ensures w.Missing? ==> allowMissing && w.path !in nodes && w.path != []
    {
      hide ValidFS, ValidTree, SameNode, Indexed, Walk;
      Parts();
      RootIsDir(State());
      WalkSound(Plain(), [], abs, followFinal, allowMissing, false, MAX_SYMLINK_DEPTH);
      w := ResolveAbs(abs, followFinal, allowMissing, 0);
    }

    /** resolveCreatePathLocked */
    method ResolveCreatePath(abs: Path, depth: nat) returns (c: Created)
      requires Valid() && depth <= MAX_SYMLINK_DEPTH + 1
      decreases MAX_SYMLINK_DEPTH + 1 - depth
      ensures c == if depth > MAX_SYMLINK_DEPTH then Refused(Loop)
                   else CreateWalk(Plain(), [], abs, MAX_SYMLINK_DEPTH - depth)
    {
      hide ValidFS, SameNode, Indexed;
      if depth > MAX_SYMLINK_DEPTH {
        return Refused(Loop);
      }
      var hops := MAX_SYMLINK_DEPTH - depth;
      ghost var answer := CreateWalk(Plain(), [], abs, hops);
      var current: Path := [];
      var i := 0;
      while i < |abs|
        invariant 0 <= i <= |abs| && (abs == [] ==> current == []) && (abs != [] ==> i < |abs|)
        invariant answer == CreateWalk(Plain(), current, abs[i..], hops)
        decreases |abs| - i
      {
        var next := current + [abs[i]];
        var isLast := i == |abs| - 1;
        assert abs[i..][1..] == abs[i + 1..];
        if next !in nodes {
          assert next + abs[i + 1..] == current + abs[i..];
          return At(next + abs[i + 1..], hops);
        }
        var node := nodes[next];
        assert Plain()[next] == Cell(node.id, node.value);
        if node.value.Symbolic? {
          var target := Resolve(Parent(next), node.value.target) + abs[i + 1..];
          assert Parent(next) == current;
          c := ResolveCreatePath(target, depth + 1);
          return;
        }
        if isLast {
          return At(next, hops);
        }
        if !node.value.Dir? {
          return Refused(Invalid);
        }
        current := next;
        i := i + 1;
      }
      return At([], hops);
    }

    // ----- the three ways the node map changes -----

    /** Add a node under a path whose parent is a directory: m.nodes[abs] = node, and its name in
        the parent's child set. */
    method Attach(p: Path, node: MemoryNode)
      requires Valid() && p !in nodes && p != [] && IsDirAt(Plain(), Parent(p))
      requires node in nodes.Values ==> !node.value.Dir?
      requires node !in nodes.Values ==>
                 node.children == {} && node.id <= nextNodeID && forall q | q in nodes :: nodes[q].id != node.id
      modifies this`nodes, NodeAt(Parent(p))`children
      ensures Valid() && nodes.Values == old(nodes.Values) + {node}
      ensures Plain() == old(Plain())[p := Cell(node.id, node.value)]
    {
      MissingIsVacant(Plain(), p);
      ghost var t := Plain();
      assert p == Parent(p) + [Base(p)];
      assert nodes[Parent(p)] in nodes.Values;
      var parent := nodes[Parent(p)];
      nodes := nodes[p := node];
      parent.children := parent.children + {Base(p)};
      assert nodes[p] == node && node in nodes.Values;
      assert Plain() == t[p := Cell(node.id, node.value)];
      if node in old(nodes.Values) {
        ghost var q :| q in old(nodes) && old(nodes)[q] == node;
        assert t[q] == Cell(node.id, node.value);
        AliasValid(t, q, p);
      } else {
        PutValid(t, p, Cell(node.id, node.value));
      }
      assert nodes.Values == old(nodes.Values) + {node} by {
        forall v | v in old(nodes.Values) ensures v in nodes.Values {
          ghost var q :| q in old(nodes) && old(nodes)[q] == v;
          assert nodes[q] == v;
        }
      }
      forall q, n | q in nodes && nodes[q].value.Dir? ensures n in nodes[q].children <==> q + [n] in nodes {
        if q == p {
          assert (p + [n])[..|p|] == p;
          assert Under(p + [n], p);
        } else if q + [n] == p {
          assert Parent(p) == q;
        } else if nodes[q] == parent {
          assert t[q].id == t[Parent(p)].id;
        }
      }
    }

    /** Change a node in place: every path that links to it sees the new value. */
    method SetValue(p: Path, value: Node)
      requires Valid() && p in nodes && (value.Dir? <==> nodes[p].value.Dir?)
      modifies NodeAt(p)`value
      ensures Valid() && nodes == old(nodes)
      ensures State() == Update(old(State()), p, value)
    {
      hide ValidFS;
      ghost var s := State();
      UpdateFS(s, p, value);
      assert nodes[p] in nodes.Values;
      assert forall q | q in nodes :: s.t[q].id == s.t[p].id <==> nodes[q] == nodes[p];
      nodes[p].value := value;
      assert Plain() == SetNode(s.t, s.t[p].id, value);
      assert forall q | q in nodes :: nodes[q].value.Dir? <==> s.t[q].node.Dir?;
    }

    // ----- directories -----

    /** Add a new node with the next id. */
    method AddNode(p: Path, value: Node)
      requires Valid() && p !in nodes && p != [] && IsDirAt(Plain(), Parent(p))
      modifies this`nodes, this`nextNodeID, NodeAt(Parent(p))`children
      ensures Valid() && fresh(nodes.Values - old(nodes.Values))
      ensures State() == Put(old(State()), p, value)
    {
      hide ValidFS, ValidTree, SameNode, Indexed;
      ghost var s := State();
      var id := NewNodeID();
      var node := new MemoryNode(id, value);
      assert Plain() == s.t && node !in nodes.Values;
      Attach(p, node);
    }

    /** newNodeIDLocked */
    method NewNodeID() returns (id: nat)
      requires Valid()
      modifies this`nextNodeID
      ensures Valid() && id == nextNodeID == old(nextNodeID) + 1 && State() == old(State()).(next := id)
      ensures forall q | q in nodes :: nodes[q].id != id
    {
      hide ValidFS, ValidTree;
      NextIsUnused(State());
      forall q | q in nodes ensures nodes[q].id != nextNodeID + 1 {
        assert Plain()[q].id == nodes[q].id;
      }
      ghost var t := Plain();
      nextNodeID := nextNodeID + 1;
      assert Plain() == t;
      return nextNodeID;
    }

    /** mkdirAllLocked */
    method MkdirAllLocked(name: Path, perm: nat) returns (r: Result)
      requires Valid()
      modifies this`nodes, this`nextNodeID, nodes.Values
      ensures Valid() && fresh(nodes.Values - old(nodes.Values))
      ensures Out(State(), r) == MemoryOps.MkdirAll(old(State()), name, perm)
    {
      hide ValidFS, Walk, SameNode, Indexed;
      ghost var goal := MemoryOps.MkdirAll(State(), name, perm);
      var current: Path := [];
      RootIsDir(State());
      var i := 0;
      while i < |name|
        invariant 0 <= i <= |name|
        invariant Valid() && fresh(nodes.Values - old(nodes.Values)) && IsDirAt(Plain(), current)
        invariant goal == MkdirFrom(State(), current, name[i..], perm)
      {
        var next := current + [name[i]];
        assert Parent(next) == current && name[i..][1..] == name[i + 1..];
        i := i + 1;
        if next in nodes {
          assert Plain()[next] == Cell(nodes[next].id, nodes[next].value);
          if nodes[next].value.Symbolic? {
            var w := Look(next, true, false);
            if !w.Found? {
              return Err(if w.Failed? then w.error else NotExist);
            }
            if !nodes[w.path].value.Dir? {
              return Err(Invalid);
            }
            current := w.path;
            continue;
          }
          if !nodes[next].value.Dir? {
            return Err(Invalid);
          }
          current := next;
          continue;
        }
        assert nodes[current] in nodes.Values;
        AddNode(next, Dir(DirPerm(perm), DEFAULT_OWNER, DEFAULT_OWNER));
        current := next;
      }
      return Ok(current);
    }

    method MkdirAll(name: Raw, perm: nat) returns (r: Result)
      requires Valid()
      modifies this`nodes, this`nextNodeID, nodes.Values
      ensures Valid() && fresh(nodes.Values - old(nodes.Values))
      ensures Out(State(), r) == MemoryOps.MkdirAll(old(State()), Resolve(cwd, name), perm)
    {
      r := MkdirAllLocked(Resolve(cwd, name), perm);
    }

    /** ensureParentLocked */
    method EnsureParentLocked(abs: Path) returns (r: Result)
      requires Valid() && abs != [] && Resolved(Plain(), abs) && abs !in nodes
      modifies this`nodes, this`nextNodeID, nodes.Values
      ensures Valid() && fresh(nodes.Values - old(nodes.Values))
      ensures Out(State(), r) == EnsureParent(old(State()), abs)
      ensures r.Ok? ==> IsDirAt(Plain(), Parent(abs))
      ensures abs !in nodes
      ensures forall p | p in old(nodes) :: p in nodes && Plain()[p] == old(Plain())[p]
    {
      EnsureParentValid(State(), abs);
      hide ValidFS, MkdirFrom, SameNode, Indexed;
      var parent := Parent(abs);
      if implicitParents {
        ghost var before := State();
        r := MkdirAllLocked(parent, 0x1ed);
        ghost var after := EnsureParent(before, abs).fs.t;
        assert Plain() == after;
        forall p | p in before.t ensures p in nodes && Plain()[p] == before.t[p] {
          assert p in after && after[p] == before.t[p];
        }
        return;
      }
      if parent !in nodes {
        return Err(NotExist);
      }
      assert Plain()[parent] == Cell(nodes[parent].id, nodes[parent].value);
      if !nodes[parent].value.Dir? {
        return Err(NotDir);
      }
      return Ok(parent);
    }

    /** Make sure there is a parent, then add a new node. */
    method CreateNode(abs: Path, value: Node) returns (r: Result)
      requires Valid() && abs != [] && abs !in nodes && Resolved(Plain(), abs)
      modifies this`nodes, this`nextNodeID, nodes.Values
      ensures Valid() && fresh(nodes.Values - old(nodes.Values))
      ensures Out(State(), r) == Create(old(State()), abs, value)
    {
      hide EnsureParent, ValidFS, SameNode, Indexed;
      r := EnsureParentLocked(abs);
      if r.Err? {
        return;
      }
      assert nodes[Parent(abs)] in nodes.Values;
      AddNode(abs, value);
      return Ok(abs);
    }

    // ----- links -----

    /** The destination of Symlink and Link: the missing leaf, or the create path. */
    method ResolveNewName(requested: Path) returns (r: Result)
      requires Valid()
      ensures r == NewName(State(), requested)
      ensures r.Ok? ==> r.path != [] && r.path !in nodes && Resolved(Plain(), r.path)
    {
      hide ValidFS, Walk, CreateWalk, SameNode, Indexed, Resolved, ClearWay;
      NewNameResolved(State(), requested);
      var w := Look(requested, false, true);
      match w
      case Found(_, _) => return Err(Exist);
      case Missing(q, _) => return Ok(q);
      case Failed(e) =>
        if e != NotExist {
          return Err(e);
        }
        if requested == [] {
          return Err(e);
        }
        var c := ResolveCreatePath(Parent(requested), 0);
        if c.Refused? {
          return Err(c.error);
        }
        var abs := c.path + [Base(requested)];
        return if abs in nodes then Err(Exist) else Ok(abs);
    }

    method Symlink(target: Raw, linkName: Raw) returns (r: Result)
      requires Valid()
      modifies this`nodes, this`nextNodeID, nodes.Values
      ensures Valid() && fresh(nodes.Values - old(nodes.Values))
      ensures Out(State(), r) == MemoryOps.Symlink(old(State()), target, Resolve(cwd, linkName))
    {
      hide ValidFS, NewName, Create, SameNode, Indexed;
      var name := ResolveNewName(Resolve(cwd, linkName));
      if name.Err? {
        return name;
      }
      r := CreateNode(name.path, Symbolic(0x1ff, DEFAULT_OWNER, DEFAULT_OWNER, target));
    }

    method Link(oldName: Raw, newName: Raw) returns (r: Result)
      requires Valid()
      modifies this`nodes, this`nextNodeID, nodes.Values
      ensures Valid() && fresh(nodes.Values - old(nodes.Values))
      ensures Out(State(), r) == MemoryOps.HardLink(old(State()), Resolve(cwd, oldName), Resolve(cwd, newName))
    {
      hide ValidFS, NewName, EnsureParent, Walk, SameNode, Indexed;
      var w := Look(Resolve(cwd, oldName), false, false);
      if !w.Found? {
        return Err(if w.Failed? then w.error else NotExist);
      }
      var oldAbs := w.path;
      assert Plain()[oldAbs] == Cell(nodes[oldAbs].id, nodes[oldAbs].value);
      if nodes[oldAbs].value.Dir? {
        return Err(Invalid);
      }
      var name := ResolveNewName(Resolve(cwd, newName));
      if name.Err? {
        return name;
      }
      var newAbs := name.path;
      r := EnsureParentLocked(newAbs);
      if r.Err? {
        return;
      }
      Share(oldAbs, newAbs);
      return Ok(newAbs);
    }

    /** A second path for the node of a non-directory. */
    method Share(oldAbs: Path, newAbs: Path)
      requires Valid() && oldAbs in nodes && !nodes[oldAbs].value.Dir?
      requires newAbs !in nodes && newAbs != [] && IsDirAt(Plain(), Parent(newAbs))
      modifies this`nodes, nodes.Values
      ensures Valid() && nodes.Values <= old(nodes.Values)
      ensures State() == old(State()).(t := old(Plain())[newAbs := old(Plain())[oldAbs]])
    {
      hide ValidFS, SameNode, Indexed;
      assert nodes[oldAbs] in nodes.Values && nodes[Parent(newAbs)] in nodes.Values;
      Attach(newAbs, nodes[oldAbs]);
    }

    // ----- files -----

    /** materializePath: a lazy file gets the bytes its provider returns. */
    method MaterializePath(abs: Path, provider: Loader) returns (r: Result)
      requires Valid() && abs in nodes
      modifies NodeAt(abs)`value
      ensures Valid() && nodes == old(nodes)
      ensures Out(State(), r) == Materialize(old(State()), abs, provider)
    {
      hide ValidFS, SameNode, Indexed;
      assert Plain()[abs] == Cell(nodes[abs].id, nodes[abs].value);
      var value := nodes[abs].value;
      if value.File? && value.content.Lazy? {
        var load := LoadFrom(provider, value.content.source);
        if load.Unloadable? {
          return Err(load.error);
        }
        SetValue(abs, value.(content := Data(load.bytes)));
      }
      return Ok(abs);
    }

    method OpenFile(name: Raw, flags: Flags, perm: nat, provider: Loader) returns (r: Result)
      requires Valid()
      modifies this`nodes, this`nextNodeID, nodes.Values
      ensures Valid() && fresh(nodes.Values - old(nodes.Values))
      ensures Out(State(), r) == MemoryOps.OpenFile(old(State()), Resolve(cwd, name), flags, perm, provider)
    {
      hide ValidFS, Walk, OpenNode, Materialize, SameNode, Indexed;
      var requested := Resolve(cwd, name);
      if MustMaterialize(flags) {
        var w := Look(requested, true, false);
        if w.Failed? && !(flags.create && w.error == NotExist) {
          return Err(if flags.create then ParentError(w.error) else w.error);
        }
        if w.Found? {
          assert nodes[w.path] in nodes.Values;
          var m := MaterializePath(w.path, provider);
          if m.Err? && (!flags.create || m.error != NotExist) {
            MaterializeEnds(old(State()), w.path, provider);
            return Err(if flags.create then ParentError(m.error) else m.error);
          }
        }
      }
      r := OpenResolved(requested, flags, perm);
    }

    /** OpenFile after the lazy content has been read. */
    method OpenResolved(requested: Path, flags: Flags, perm: nat) returns (r: Result)
      requires Valid()
      modifies this`nodes, this`nextNodeID, nodes.Values
      ensures Valid() && fresh(nodes.Values - old(nodes.Values))
      ensures Out(State(), r) == OpenNode(old(State()), requested, flags, perm)
    {
      hide ValidFS, Walk, CreateWalk, Create, OpenExisting, SameNode, Indexed;
      if flags.create {
        r := OpenCreating(requested, flags, perm);
        return;
      }
      var w := Look(requested, true, false);
      if !w.Found? {
        return Err(if w.Failed? then w.error else NotExist);
      }
      r := OpenAt(w.path, flags);
    }

    /** The branch of OpenFile for O_CREATE. */
    method OpenCreating(requested: Path, flags: Flags, perm: nat) returns (r: Result)
      requires Valid() && flags.create
      modifies this`nodes, this`nextNodeID, nodes.Values
      ensures Valid() && fresh(nodes.Values - old(nodes.Values))
      ensures Out(State(), r) == OpenNode(old(State()), requested, flags, perm)
    {
      hide ValidFS, Walk, CreateWalk, Create, OpenExisting, SameNode, Indexed;
      Parts();
      RootIsDir(State());
      CreateWalkSound(Plain(), [], requested, MAX_SYMLINK_DEPTH);
      CreatedBelow(State(), requested);
      if flags.excl {
        var v := Look(requested, false, true);
        if v.Found? {
          return Err(Exist);
        }
      }
      var c := ResolveCreatePath(requested, 0);
      if c.Refused? {
        return Err(ParentError(c.error));
      }
      if c.path !in nodes {
        r := CreateNode(c.path, File(FilePerm(perm), DEFAULT_OWNER, DEFAULT_OWNER, Data([])));
        return;
      }
      if flags.excl {
        return Err(Exist);
      }
      r := OpenAt(c.path, flags);
    }

    /** Open an existing node: directories are refused, O_TRUNC empties a file. */
    method OpenAt(abs: Path, flags: Flags) returns (r: Result)
      requires Valid() && abs in nodes
      modifies NodeAt(abs)`value
      ensures Valid() && nodes == old(nodes)
      ensures Out(State(), r) == OpenExisting(old(State()), abs, flags)
    {
      hide ValidFS, SameNode, Indexed;
      assert Plain()[abs] == Cell(nodes[abs].id, nodes[abs].value);
      var value := nodes[abs].value;
      if value.Dir? {
        return Err(Invalid);
      }
      if flags.trunc && flags.write && value.File? {
        SetValue(abs, value.(content := Data([])));
      }
      return Ok(abs);
    }

    /** memoryFile.Write: a handle is bound to its node, so every path linked to it sees the bytes. */
    method Write(abs: Path, append: bool, offset: nat, payload: Bytes) returns (next: nat)
      requires Valid() && abs in nodes
      modifies NodeAt(abs)`value
      ensures Valid() && nodes == old(nodes)
      ensures State() == WriteAt(old(State()), abs, append, offset, payload)
      ensures next == OffsetAfter(old(State()), abs, append, offset, payload)
    {
      hide ValidFS, SameNode, Indexed;
      next := offset + |payload|;
      assert Plain()[abs] == Cell(nodes[abs].id, nodes[abs].value);
      var value := nodes[abs].value;
      if value.File? && value.content.Data? {
        var data := value.content.bytes;
        var from := if append then |data| else offset;
        next := from + |payload|;
        SetValue(abs, value.(content := Data(Overwrite(data, from, payload))));
      }
    }

    // ----- metadata -----

    method Chmod(name: Raw, mode: nat) returns (r: Result)
      requires Valid()
      modifies nodes.Values
      ensures Valid() && nodes == old(nodes)
      ensures Out(State(), r) == MemoryOps.Chmod(old(State()), Resolve(cwd, name), mode)
    {
      hide ValidFS, Walk, SameNode, Indexed;
      var w := Look(Resolve(cwd, name), true, false);
      if !w.Found? {
        return Err(if w.Failed? then w.error else NotExist);
      }
      assert nodes[w.path] in nodes.Values && Plain()[w.path] == Cell(nodes[w.path].id, nodes[w.path].value);
      SetValue(w.path, WithMode(nodes[w.path].value, mode));
      return Ok(w.path);
    }

    method Chown(name: Raw, uid: nat, gid: nat, follow: bool) returns (r: Result)
      requires Valid()
      modifies nodes.Values
      ensures Valid() && nodes == old(nodes)
      ensures Out(State(), r) == MemoryOps.Chown(old(State()), Resolve(cwd, name), uid, gid, follow)
    {
      hide ValidFS, Walk, SameNode, Indexed;
      var w := Look(Resolve(cwd, name), follow, false);
      if !w.Found? {
        return Err(if w.Failed? then w.error else NotExist);
      }
      assert nodes[w.path] in nodes.Values && Plain()[w.path] == Cell(nodes[w.path].id, nodes[w.path].value);
      SetValue(w.path, WithOwner(nodes[w.path].value, uid, gid));
      return Ok(w.path);
    }

    // ----- reading -----

    /** Lstat; `sized` says that the size of a lazy file at this path is known without loading it. */
    method Lstat(name: Raw, provider: Loader, sized: bool) returns (r: Result, value: Node)
      requires Valid()
      modifies nodes.Values
      ensures Valid() && nodes == old(nodes)
      ensures Out(State(), r) == LstatLoading(old(State()), Resolve(cwd, name), provider, sized)
      ensures r.Ok? ==> r.path in Plain() && value == Plain()[r.path].node
    {
      hide ValidFS, Walk, Materialize, SameNode, Indexed;
      value := Dir(0, 0, 0);
      var w := Look(Resolve(cwd, name), false, false);
      if !w.Found? {
        return Err(if w.Failed? then w.error else NotExist), value;
      }
      r := Ok(w.path);
      if !sized {
        assert nodes[w.path] in nodes.Values;
        r := MaterializePath(w.path, provider);
        MaterializeEnds(old(State()), w.path, provider);
      }
      value := nodes[w.path].value;
    }

    method Readlink(name: Raw) returns (r: Result, target: Raw)
      requires Valid()
      ensures var w := Lookup(State(), Resolve(cwd, name), false, false);
              && (r.Ok? <==> w.Found? && w.path in Plain() && Plain()[w.path].node.Symbolic?)
              && (r.Ok? ==> r.path == w.path && target == Plain()[w.path].node.target)
              && (r.Err? ==> r == Err(if w.Failed? then w.error else Invalid))
    {
      hide ValidFS, Walk, SameNode, Indexed;
      target := Raw(false, []);
      var w := Look(Resolve(cwd, name), false, false);
      if !w.Found? {
        return Err(if w.Failed? then w.error else NotExist), target;
      }
      assert Plain()[w.path] == Cell(nodes[w.path].id, nodes[w.path].value);
      if !nodes[w.path].value.Symbolic? {
        return Err(Invalid), target;
      }
      return Ok(w.path), nodes[w.path].value.target;
    }

    /** ReadDir: the child set of the node, sorted, is the listing of the directory. */
    method ReadDir(name: Raw) returns (r: Result, names: seq<Name>)
      requires Valid()
      ensures var listed := ReadNames(Plain(), Resolve(cwd, name));
              && (r.Ok? <==> listed.Names?) && (r.Ok? ==> IsListing(names, listed.names))
              && (listed.NoNames? ==> r == Err(listed.error))
    {
      names := [];
      var w := Look(Resolve(cwd, name), true, false);
      hide ValidFS, Walk, SameNode, Indexed;
      if !w.Found? {
        return Err(if w.Failed? then w.error else NotExist), names;
      }
      assert Plain()[w.path] == Cell(nodes[w.path].id, nodes[w.path].value);
      if !nodes[w.path].value.Dir? {
        return Err(Invalid), names;
      }
      names := Sort(nodes[w.path].children);
      forall n ensures n in nodes[w.path].children <==> n in Children(Plain(), w.path) {
        ChildAt(Plain(), w.path, n);
      }
      return Ok(w.path), names;
    }

    method Chdir(name: Raw) returns (r: Result)
      requires Valid()
      modifies this`cwd
      ensures var w := Lookup(State(), Resolve(old(cwd), name), true, false);
              && (r.Ok? <==> w.Found? && IsDirAt(Plain(), w.path)) && (r.Ok? ==> r.path == w.path)
              && (r.Err? ==> r == Err(if w.Failed? then w.error else Invalid))
              && cwd == if r.Ok? then w.path else old(cwd)
      ensures Valid() && State() == old(State())
    {
      hide ValidFS, Walk;
      var w := Look(Resolve(cwd, name), true, false);
      if !w.Found? {
        return Err(if w.Failed? then w.error else NotExist);
      }
      assert Plain()[w.path] == Cell(nodes[w.path].id, nodes[w.path].value);
      if !nodes[w.path].value.Dir? {
        return Err(Invalid);
      }
      ghost var t := Plain();
      cwd := w.path;
      assert Plain() == t;
      return Ok(w.path);
    }

    // ----- removing and renaming -----

    method Remove(name: Raw, recursive: bool) returns (r: Result)
      requires Valid()
      modifies this`nodes, nodes.Values
      ensures Valid() && fresh(nodes.Values - old(nodes.Values))
      ensures Out(State(), r) == MemoryOps.Remove(old(State()), Resolve(cwd, name), recursive)
      ensures Removes(old(State()), State(), Resolve(cwd, name), recursive, r)
    {
      hide ValidFS, Walk, SameNode, Indexed, Removes;
      RemoveLaw(State(), Resolve(cwd, name), recursive);
      var w := Look(Resolve(cwd, name), false, false);
      if !w.Found? {
        return Err(if w.Failed? then w.error else NotExist);
      }
      var abs := w.path;
      if abs == [] {
        return Err(Permission);
      }
      assert Plain()[abs] == Cell(nodes[abs].id, nodes[abs].value);
      if nodes[abs].value.Dir? {
        NoChildren(abs);
      }
      if nodes[abs].value.Dir? && nodes[abs].children != {} && !recursive {
        return Err(Invalid);
      }
      Detach(abs);
      return Ok(abs);
    }

    lemma NoChildren(abs: Path)
      requires Indexed() && abs in nodes && nodes[abs].value.Dir?
      ensures nodes[abs].children == Children(Plain(), abs)
    {
      forall n ensures n in nodes[abs].children <==> n in Children(Plain(), abs) {
        ChildAt(Plain(), abs, n);
      }
    }

    /** Delete a subtree: a loop over all keys, then the name in the parent's child set. */
    method Detach(abs: Path)
      requires Valid() && abs in nodes && abs != []
      modifies this`nodes, nodes.Values
      ensures Valid() && nodes.Values <= old(nodes.Values)
      ensures State() == old(State()).(t := Without(old(Plain()), abs))
    {
      ghost var t := Plain();
      ParentIsDir(t, abs);
      WithoutValid(t, abs);
      hide ValidTree, Closed;
      var parent := nodes[Parent(abs)];
      assert parent in nodes.Values && t[Parent(abs)] == Cell(parent.id, parent.value);
      DeleteUnder(abs);
      assert Parent(abs) in nodes && nodes[Parent(abs)] == parent;
      parent.children := parent.children - {Base(abs)};
      assert Plain() == Without(t, abs);
      forall q, n | q in nodes && nodes[q].value.Dir? ensures n in nodes[q].children <==> q + [n] in nodes {
        DetachedChild(t, abs, q, n);
        if nodes[q] == parent { assert t[q].id == t[Parent(abs)].id; }
      }
    }

    method DeleteUnder(root: Path)
      modifies this`nodes
      ensures nodes == map p | p in old(nodes) && !Under(p, root) :: old(nodes)[p]
    {
      var todo := nodes.Keys;
      while todo != {}
        invariant todo <= old(nodes.Keys)
        invariant nodes == map p | p in old(nodes) && (p in todo || !Under(p, root)) :: old(nodes)[p]
        decreases |todo|
      {
        var candidate :| candidate in todo;
        if Under(candidate, root) {
          nodes := nodes - {candidate};
        }
        todo := todo - {candidate};
      }
    }

    method Rename(oldName: Raw, newName: Raw) returns (r: Result)
      requires Valid()
      modifies this`nodes, this`nextNodeID, nodes.Values
      ensures Valid() && fresh(nodes.Values - old(nodes.Values))
      ensures Out(State(), r) == MemoryOps.Rename(old(State()), Resolve(cwd, oldName), Resolve(cwd, newName))
    {
      hide ValidFS, Walk, CreateWalk, EnsureParent, RenameTarget, SameNode, Indexed;
      var w := Look(Resolve(cwd, oldName), false, false);
      if !w.Found? {
        return Err(if w.Failed? then w.error else NotExist);
      }
      var oldAbs := w.path;
      if oldAbs == [] {
        return Err(Permission);
      }
      var target := ResolveRenameTarget(Resolve(cwd, newName));
      if target.Err? {
        return target;
      }
      var newAbs := target.path;
      if Below(newAbs, oldAbs) {
        return Err(Invalid);
      }
      r := EnsureParentLocked(newAbs);
      if r.Err? {
        return;
      }
      assert oldAbs in nodes && !Under(newAbs, oldAbs);
      MoveSubtree(oldAbs, newAbs);
      return Ok(newAbs);
    }

    /** The destination of Rename; a missing parent is accepted only under implicit parents. */
    method ResolveRenameTarget(requested: Path) returns (r: Result)
      requires Valid()
      ensures r == RenameTarget(State(), requested)
      ensures r.Ok? ==> r.path != [] && r.path !in nodes && Resolved(Plain(), r.path)
    {
      hide ValidFS, Walk, CreateWalk, SameNode, Indexed, Resolved, ClearWay;
      RenameTargetResolved(State(), requested);
      var w := Look(requested, false, true);
      match w
      case Found(_, _) => return Err(Exist);
      case Missing(q, _) => return Ok(q);
      case Failed(e) =>
        if !implicitParents || e != NotExist {
          return Err(ParentError(e));
        }
        var c := ResolveCreatePath(requested, 0);
        return if c.Refused? then Err(ParentError(c.error)) else Ok(c.path);
    }

    /** Take the subtree out of the map, put it back under its new name, and rebuild every child set. */
    method MoveSubtree(oldAbs: Path, newAbs: Path)
      requires Valid() && oldAbs in nodes && oldAbs != []
      requires newAbs !in nodes && newAbs != [] && IsDirAt(Plain(), Parent(newAbs)) && !Under(newAbs, oldAbs)
      modifies this`nodes, nodes.Values
      ensures Valid() && nodes.Values <= old(nodes.Values)
      ensures State() == old(State()).(t := Relabel(old(Plain()), oldAbs, newAbs))
    {
      hide *;
      Parts();
      ghost var s := State();
      RelabelKeepsIds(s, oldAbs, newAbs);
      MoveStarts(oldAbs, newAbs);
      RelabelPlain(oldAbs, newAbs);
      Parts();
      RebuildDirectoryChildren();
    }

    lemma MoveStarts(oldAbs: Path, newAbs: Path)
      requires Valid() && oldAbs in nodes && oldAbs != [] && newAbs !in nodes
      ensures Parent(oldAbs) in nodes && NodeAt(Parent(oldAbs)) in nodes.Values && Vacant(Plain(), newAbs)
    {
      ParentIsDir(Plain(), oldAbs);
      assert IsDirAt(Plain(), Parent(oldAbs));
      MissingIsVacant(Plain(), newAbs);
    }

    method RelabelPlain(oldAbs: Path, newAbs: Path)
      requires oldAbs in nodes && oldAbs != [] && Parent(oldAbs) in nodes && Vacant(Plain(), newAbs)
               && !Under(newAbs, oldAbs)
      requires SameNode()
      modifies this`nodes, NodeAt(Parent(oldAbs))`children
      ensures Plain() == Relabel(old(Plain()), oldAbs, newAbs) && nodes.Values <= old(nodes.Values) && SameNode()
    {
      hide Relabel;
      ghost var t := Plain();
      ghost var before := nodes;
      RelabelNodes(oldAbs, newAbs);
      RelabelledNodes(t, before, nodes, oldAbs, newAbs);
      forall q | q in nodes ensures Plain()[q] == Relabel(t, oldAbs, newAbs)[q] {
        assert Plain()[q] == Cell(nodes[q].id, nodes[q].value);
      }
    }

    method RelabelNodes(oldAbs: Path, newAbs: Path)
      requires oldAbs in nodes && oldAbs != [] && Parent(oldAbs) in nodes && Vacant(Plain(), newAbs)
               && !Under(newAbs, oldAbs)
      modifies this`nodes, NodeAt(Parent(oldAbs))`children
      ensures forall q :: q in nodes <==> if Under(q, newAbs) then Origin(q, oldAbs, newAbs) in old(nodes)
                                          else q in old(nodes) && !Under(q, oldAbs)
      ensures forall q | q in nodes ::
                Origin(q, oldAbs, newAbs) in old(nodes) && nodes[q] == old(nodes)[Origin(q, oldAbs, newAbs)]
    {
      ghost var before := nodes;
      assert forall p | p in nodes :: !Under(p, newAbs) by {
        forall p | p in nodes ensures !Under(p, newAbs) { assert p in Plain(); }
      }
      var toMove := map p | p in nodes && Under(p, oldAbs) :: nodes[p];
      var oldParent := nodes[Parent(oldAbs)];
      oldParent.children := oldParent.children - {Base(oldAbs)};
      DeleteUnder(oldAbs);
      PutBack(before, toMove, oldAbs, newAbs);
    }

    /** The last loop of Rename: every node of the subtree under its new path. */
    method PutBack(ghost before: map<Path, MemoryNode>, toMove: map<Path, MemoryNode>, oldAbs: Path, newAbs: Path)
      requires !Under(newAbs, oldAbs)
      requires toMove == map p | p in before && Under(p, oldAbs) :: before[p]
      requires nodes == map p | p in before && !Under(p, oldAbs) :: before[p]
      requires forall p | p in before :: !Under(p, newAbs)
      modifies this`nodes
      ensures forall q :: q in nodes <==> if Under(q, newAbs) then Origin(q, oldAbs, newAbs) in before
                                          else q in before && !Under(q, oldAbs)
      ensures forall q | q in nodes ::
              Origin(q, oldAbs, newAbs) in before && nodes[q] == before[Origin(q, oldAbs, newAbs)]
    {
      var todo := toMove.Keys;
      while todo != {}
        invariant todo <= toMove.Keys
        invariant forall q :: q in nodes <==> if Under(q, newAbs) then Origin(q, oldAbs, newAbs) in toMove.Keys - todo
                                              else q in before && !Under(q, oldAbs)
        invariant forall q | q in nodes ::
                  Origin(q, oldAbs, newAbs) in before && nodes[q] == before[Origin(q, oldAbs, newAbs)]
        decreases |todo|
      {
        var oldPath :| oldPath in todo;
        var newPath := newAbs + oldPath[|oldAbs|..];
        MovedOrigin(oldPath, oldAbs, newAbs);
        assert newPath[..|newAbs|] == newAbs;
        forall q | Under(q, newAbs) && Origin(q, oldAbs, newAbs) == oldPath ensures q == newPath {
          assert oldPath[|oldAbs|..] == q[|newAbs|..];
          assert q == newAbs + q[|newAbs|..];
        }
        nodes := nodes[newPath := toMove[oldPath]];
        todo := todo - {oldPath};
      }
      forall q | Under(q, newAbs) && Origin(q, oldAbs, newAbs) in before ensures Origin(q, oldAbs, newAbs) in toMove {
        assert (oldAbs + q[|newAbs|..])[..|oldAbs|] == oldAbs;
      }
    }

    /** rebuildDirectoryChildrenLocked */
    method RebuildDirectoryChildren()
      requires ValidFS(State()) && SameNode()
      modifies nodes.Values
      ensures Valid() && nodes == old(nodes) && State() == old(State())
    {
      hide *;
      OneNamePerDirectory();
      ClearChildren();
      var todo := nodes.Keys;
      AllCleared();
      while todo != {}
        invariant todo <= nodes.Keys && State() == old(State()) && nodes == old(nodes)
        invariant SameNode() && OneName() && Filed(todo)
        decreases |todo|
      {
        var pathName :| pathName in todo;
        ghost var before := todo;
        todo := todo - {pathName};
        assert before == todo + {pathName};
        if pathName == [] {
          RootIsFiled(todo);
          continue;
        }
        AddToParent(pathName, todo);
      }
      AllFiled();
      Parts();
    }

    /** Every directory lists exactly the paths beneath it that are not left in `todo`. */
    ghost predicate Filed(todo: set<Path>)
      reads this, nodes.Values
    {
      forall p, n | p in nodes && nodes[p].value.Dir? ::
        n in nodes[p].children <==> p + [n] in nodes && p + [n] !in todo
    }

    ghost predicate OneName()
      reads this, nodes.Values
    {
      forall p, q | p in nodes && q in nodes && nodes[p] == nodes[q] && nodes[p].value.Dir? :: p == q
    }

    ghost predicate Cleared()
      reads this, nodes.Values
    {
      forall p | p in nodes && nodes[p].value.Dir? :: nodes[p].children == {}
    }

    lemma AllCleared()
      requires Cleared()
      ensures Filed(nodes.Keys)
    {
    }

    lemma AllFiled()
      requires Filed({})
      ensures Indexed()
    {
    }

    lemma RootIsFiled(todo: set<Path>)
      requires Filed(todo + {[]})
      ensures Filed(todo)
    {
      assert forall p: Path, n: Name :: p + [n] != [];
    }

    lemma OneNamePerDirectory()
      requires ValidFS(State())
      requires SameNode()
      ensures OneName()
    {
      forall p, q | p in nodes && q in nodes && nodes[p] == nodes[q] && nodes[p].value.Dir? ensures p == q {
        assert Plain()[p].id == Plain()[q].id;
      }
    }

    method ClearChildren()
      modifies nodes.Values
      ensures nodes == old(nodes) && Cleared()
      ensures State() == old(State()) && (old(SameNode()) ==> SameNode()) && (old(OneName()) ==> OneName())
    {
      var todo := nodes.Keys;
      while todo != {}
        invariant todo <= nodes.Keys && nodes == old(nodes)
        invariant forall v | v in nodes.Values :: v.value == old(v.value)
        invariant forall p | p in nodes && p !in todo && nodes[p].value.Dir? :: nodes[p].children == {}
        decreases |todo|
      {
        var p :| p in todo;
        todo := todo - {p};
        assert nodes[p] in nodes.Values;
        if nodes[p].value.Dir? {
          nodes[p].children := {};
        }
      }
      assert forall p | p in nodes :: nodes[p] in nodes.Values;
      assert Plain() == old(Plain());
    }

    method AddToParent(pathName: Path, ghost todo: set<Path>)
      requires ValidFS(State()) && pathName in nodes && pathName != [] && pathName !in todo
      requires OneName() && Filed(todo + {pathName})
      modifies nodes.Values
      ensures nodes == old(nodes) && State() == old(State()) && (old(SameNode()) ==> SameNode()) && OneName()
              && Filed(todo)
    {
      ParentIsDir(Plain(), pathName);
      hide ValidFS;
      var parent := Parent(pathName);
      assert pathName == parent + [Base(pathName)];
      assert nodes[parent] in nodes.Values && Plain()[parent].node == nodes[parent].value;
      if parent in nodes && nodes[parent].value.Dir? {
        nodes[parent].children := nodes[parent].children + {Base(pathName)};
      }
      assert Plain() == old(Plain());
      forall p, n | p in nodes && nodes[p].value.Dir?
        ensures n in nodes[p].children <==> p + [n] in nodes && p + [n] !in todo
      {
        if p + [n] == pathName {
          assert Parent(p + [n]) == p && Base(p + [n]) == n;
        }
      }
    }
  }

  // The node map after PutBack stands for the relabelled tree.
  lemma RelabelledNodes(t: Tree<nat>, before: map<Path, MemoryNode>, after: map<Path, MemoryNode>, src: Path, dst: Path)
    requires before.Keys == t.Keys && Vacant(t, dst) && !Under(dst, src)
    requires forall q :: q in after <==>
             if Under(q, dst) then Origin(q, src, dst) in before else q in before && !Under(q, src)
    requires forall q | q in after :: Origin(q, src, dst) in before && after[q] == before[Origin(q, src, dst)]
    ensures forall q :: q in after <==> q in Relabel(t, src, dst)
    ensures forall q | q in after :: Relabel(t, src, dst)[q] == t[Origin(q, src, dst)]
  {
    forall q ensures q in after <==> q in Relabel(t, src, dst)
             ensures q in after ==> Relabel(t, src, dst)[q] == t[Origin(q, src, dst)] {
      RelabelAt(t, src, dst, q);
    }
  }
}
