/** The MemoryFS calls on resolved paths: when the parent is a directory of the tree itself,
    a call touches exactly the path it is given. OverlayFS only makes such calls on its upper
    layer, which is what lets its own resolution stand for the upper layer's. */
module MemoryDirect {
  import opened Paths
  import opened Tree
  import opened MemoryOps

  ghost predicate Direct(fs: FS, p: Path) {
    ValidFS(fs) && p != [] && IsDirAt(fs.t, Parent(p))
  }

  lemma LookupDirect(fs: FS, p: Path, follow: bool, missing: bool)
    requires Direct(fs, p) && (follow ==> p !in fs.t || !fs.t[p].node.Symbolic?)
    ensures Lookup(fs, p, follow, missing) ==
            if p in fs.t then Found(p, MAX_SYMLINK_DEPTH)
            else if missing then Missing(p, MAX_SYMLINK_DEPTH) else Failed(NotExist)
  {
    DirParentIsClear(fs.t, p);
    WalkResolved(fs.t, p, follow, missing, false, MAX_SYMLINK_DEPTH);
  }

  lemma {:induction false} MkdirExisting(fs: FS, cur: Path, rest: seq<Name>, perm: nat)
    requires ValidFS(fs) && IsDirAt(fs.t, cur) && IsDirAt(fs.t, cur + rest)
    ensures MkdirFrom(fs, cur, rest, perm) == Out(fs, Ok(cur + rest))
    decreases |rest|
  {
    if rest == [] {
      assert cur + rest == cur;
    } else {
      var next := cur + [rest[0]];
      assert next + rest[1..] == cur + rest;
      assert next == (cur + rest)[..|next|];
      assert |next| < |cur + rest| ==> IsDirAt(fs.t, next);
      assert |next| == |cur + rest| ==> next == cur + rest;
      MkdirExisting(fs, next, rest[1..], perm);
    }
  }

  // mkdir of p + tail walks down to the directory p and starts making directories there.
  lemma {:induction false} MkdirSkips(fs: FS, cur: Path, rest: seq<Name>, tail: seq<Name>, perm: nat)
    requires ValidFS(fs) && IsDirAt(fs.t, cur) && IsDirAt(fs.t, cur + rest)
    ensures MkdirFrom(fs, cur, rest + tail, perm) == MkdirFrom(fs, cur + rest, tail, perm)
    decreases |rest|
  {
    if rest == [] {
      assert cur + rest == cur && rest + tail == tail;
    } else {
      var next := cur + [rest[0]];
      assert next + rest[1..] == cur + rest;
      assert (rest + tail)[1..] == rest[1..] + tail;
      assert next == (cur + rest)[..|next|];
      assert |next| < |cur + rest| ==> IsDirAt(fs.t, next);
      assert |next| == |cur + rest| ==> next == cur + rest;
      MkdirSkips(fs, next, rest[1..], tail, perm);
    }
  }

  lemma EnsureParentDirect(fs: FS, p: Path)
    requires Direct(fs, p)
    ensures EnsureParent(fs, p) == Out(fs, Ok(Parent(p)))
  {
    assert [] + Parent(p) == Parent(p);
    MkdirExisting(fs, [], Parent(p), 0x1ed);
  }

  lemma NewNameDirect(fs: FS, p: Path)
    requires Direct(fs, p) && p !in fs.t
    ensures NewName(fs, p) == Ok(p)
  {
    LookupDirect(fs, p, false, true);
  }

  lemma SymlinkDirect(fs: FS, target: Raw, p: Path)
    requires Direct(fs, p) && p !in fs.t
    ensures Symlink(fs, target, p) == Out(Put(fs, p, Symbolic(0x1ff, DEFAULT_OWNER, DEFAULT_OWNER, target)), Ok(p))
  {
    NewNameDirect(fs, p);
    EnsureParentDirect(fs, p);
  }

  lemma HardLinkDirect(fs: FS, src: Path, dst: Path)
    requires Direct(fs, src) && src in fs.t && !fs.t[src].node.Dir?
    requires Direct(fs, dst) && dst !in fs.t
    ensures HardLink(fs, src, dst) == Out(fs.(t := fs.t[dst := fs.t[src]]), Ok(dst))
  {
    LookupDirect(fs, src, false, false);
    NewNameDirect(fs, dst);
    EnsureParentDirect(fs, dst);
  }

  lemma MetadataDirect(fs: FS, p: Path, mode: nat, uid: nat, gid: nat)
    requires (p == [] && ValidFS(fs)) || (Direct(fs, p) && p in fs.t)
    ensures !fs.t[p].node.Symbolic? ==> Chmod(fs, p, mode) == Out(Update(fs, p, WithMode(fs.t[p].node, mode)), Ok(p))
    ensures forall follow | follow ==> !fs.t[p].node.Symbolic? ::
              Chown(fs, p, uid, gid, follow) == Out(Update(fs, p, WithOwner(fs.t[p].node, uid, gid)), Ok(p))
  {
    if p != [] {
      if !fs.t[p].node.Symbolic? { LookupDirect(fs, p, true, false); }
      LookupDirect(fs, p, false, false);
    }
  }

  lemma RemoveDirect(fs: FS, p: Path, recursive: bool)
    requires Direct(fs, p) && p in fs.t && (recursive || Children(fs.t, p) == {})
    ensures Remove(fs, p, recursive) == Out(fs.(t := Without(fs.t, p)), Ok(p))
  {
    LookupDirect(fs, p, false, false);
  }

  lemma RenameDirect(fs: FS, src: Path, dst: Path)
    requires Direct(fs, src) && src in fs.t && Direct(fs, dst) && dst !in fs.t && !Below(dst, src)
    ensures Rename(fs, src, dst) == Out(fs.(t := Relabel(fs.t, src, dst)), Ok(dst))
  {
    LookupDirect(fs, src, false, false);
    LookupDirect(fs, dst, false, true);
    EnsureParentDirect(fs, dst);
  }

  /** cloneDirNode: mkdir drops the special bits, chmod puts them back, chown sets the owner. */
  function CloneDir(fs: FS, dst: Path, node: Node): Out {
    var made := MkdirAll(fs, dst, NineBits(node.mode));
    if made.res.Err? then made
    else
      var moded := Chmod(made.fs, dst, node.mode);
      if moded.res.Err? then moded else Chown(moded.fs, dst, node.uid, node.gid, false)
  }

  lemma CloneDirDirect(fs: FS, dst: Path, node: Node)
    requires Direct(fs, dst) && dst !in fs.t && node.Dir?
    ensures CloneDir(fs, dst, node) == Out(Put(fs, dst, node), Ok(dst))
  {
    var dir := Dir(DirPerm(NineBits(node.mode)), DEFAULT_OWNER, DEFAULT_OWNER);
    var made := Put(fs, dst, dir);
    assert dst == Parent(dst) + [Base(dst)] && [] + Parent(dst) == Parent(dst);
    MkdirSkips(fs, [], Parent(dst), [Base(dst)], NineBits(node.mode));
    assert MkdirAll(fs, dst, NineBits(node.mode)) == Out(made, Ok(dst));
    PutFS(fs, dst, dir);
    MetadataDirect(made, dst, node.mode, 0, 0);
    UpdatePut(fs, dst, dir, WithMode(dir, node.mode));
    var moded := Put(fs, dst, WithMode(dir, node.mode));
    PutFS(fs, dst, WithMode(dir, node.mode));
    MetadataDirect(moded, dst, 0, node.uid, node.gid);
    UpdatePut(fs, dst, WithMode(dir, node.mode), node);
  }

  // Changing a node that was just added is adding the changed node.
  lemma UpdatePut(fs: FS, p: Path, a: Node, b: Node)
    requires ValidFS(fs) && p !in fs.t
    ensures Update(Put(fs, p, a), p, b) == Put(fs, p, b)
  {
  }

  // Opening a resolved regular file: it ends up with its bytes in memory, or none if truncated.
  lemma OpenDirect(fs: FS, p: Path, flags: Flags, perm: nat, provider: Loader)
    requires Direct(fs, p) && p in fs.t && fs.t[p].node.File? && !(flags.create && flags.excl)
    requires fs.t[p].node.content.Lazy? ==> LoadFrom(provider, fs.t[p].node.content.source).Loaded?
    ensures var c := fs.t[p].node.content;
            var data := if flags.trunc && flags.write then []
                        else if c.Lazy? then LoadFrom(provider, c.source).bytes
                        else c.bytes;
            OpenFile(fs, p, flags, perm, provider) == Out(Update(fs, p, fs.t[p].node.(content := Data(data))), Ok(p))
  {
    LookupDirect(fs, p, true, false);
    var node := fs.t[p].node;
    var ready := Materialize(fs, p, provider).fs;
    assert ValidFS(ready) && Direct(ready, p) by {
      if node.content.Lazy? { UpdateFS(fs, p, node.(content := Data(LoadFrom(provider, node.content.source).bytes))); }
    }
    var from := if MustMaterialize(flags) then ready else fs;
    LookupDirect(from, p, true, false);
    assert [] + p == p;
    CreateWalkDirect(from.t, [], p, MAX_SYMLINK_DEPTH);
    SetNodeTwice(fs.t, p, from.t[p].node, from.t[p].node.(content := Data([])));
    SetNodeSame(fs.t, p);
  }

  lemma SetNodeTwice<I>(t: Tree<I>, p: Path, a: Node, b: Node)
    requires p in t
    ensures SetNode(SetNode(t, t[p].id, a), t[p].id, b) == SetNode(t, t[p].id, b)
  {
  }

  lemma SetNodeSame<I>(t: Tree<I>, p: Path)
    requires Shared(t) && p in t
    ensures SetNode(t, t[p].id, t[p].node) == t
  {
  }

  lemma OpenNewDirect(fs: FS, p: Path, flags: Flags, perm: nat, provider: Loader)
    requires Direct(fs, p) && p !in fs.t && flags.create
    ensures OpenFile(fs, p, flags, perm, provider) ==
            Out(Put(fs, p, File(FilePerm(perm), DEFAULT_OWNER, DEFAULT_OWNER, Data([]))), Ok(p))
  {
    LookupDirect(fs, p, true, false);
    LookupDirect(fs, p, false, true);
    assert [] + p == p;
    CreateWalkDirect(fs.t, [], p, MAX_SYMLINK_DEPTH);
    EnsureParentDirect(fs, p);
  }
}
