/** What each MemoryFS call does to its tree (fs/memory.go), as functions of the whole state.

    The class in MemoryFS.dfy and the pointer tree in TrieFS.dfy are proved to compute these
    functions, and OverlayFS uses them for its writable upper layer. Calls that fail half way
    return the state they leave behind.
 */
module MemoryOps {
  import opened Paths
  import opened Tree

  /** `next` is the last node id handed out; `implicit` is implicitParents. */
  datatype FS = FS(t: Tree<nat>, next: nat, implicit: bool)

  datatype Out = Out(fs: FS, res: Result)

  /** The open flags the code looks at; `write` is canWrite(flag). */
  datatype Flags = Flags(write: bool, create: bool, excl: bool, trunc: bool, append: bool)

  ghost predicate ValidFS(fs: FS) {
    && ValidTree(fs.t)
    && forall p | p in fs.t :: fs.t[p].id <= fs.next
  }

  const EMPTY_TREE: Tree<nat> := map[[] := Cell(1, Dir(0x1ed, DEFAULT_OWNER, DEFAULT_OWNER))]

  /** NewMemory and newMemoryWithImplicitParents. 0x1ed is 0o755. */
  function NewFS(implicit: bool): (fs: FS)
    ensures ValidFS(fs)
  {
    FS(EMPTY_TREE, 1, implicit)
  }

  function DirPerm(perm: nat): nat { if perm == 0 then 0x1ed else perm }   // 0o755
  function FilePerm(perm: nat): nat { if perm == 0 then 0x1a4 else perm }  // 0o644

  /** info.Mode().Perm() keeps the nine permission bits and drops setuid, setgid and sticky. */
  function NineBits(mode: nat): nat { mode % 0x200 }

  /** createParentError */
  function ParentError(e: Error): Error { if e == Invalid then NotDir else e }

  function Put(fs: FS, p: Path, node: Node): FS {
    fs.(t := fs.t[p := Cell(fs.next + 1, node)], next := fs.next + 1)
  }

  function Update(fs: FS, p: Path, node: Node): FS
    requires p in fs.t
  {
    fs.(t := SetNode(fs.t, fs.t[p].id, node))
  }

  function Lookup(fs: FS, p: Path, follow: bool, missing: bool): Walked {
    Walk(fs.t, [], p, follow, missing, false, MAX_SYMLINK_DEPTH)
  }

  // ----- directories -----

  function MkdirFrom(fs: FS, cur: Path, rest: seq<Name>, perm: nat): Out
    decreases |rest|
  {
    if rest == [] then Out(fs, Ok(cur))
    else
      var next := cur + [rest[0]];
      if next !in fs.t then
        MkdirFrom(Put(fs, next, Dir(DirPerm(perm), DEFAULT_OWNER, DEFAULT_OWNER)), next, rest[1..], perm)
      else if fs.t[next].node.Symbolic? then
        match Lookup(fs, next, true, false)
        case Failed(e) => Out(fs, Err(e))
        case Missing(_, _) => Out(fs, Err(NotExist))
        case Found(q, _) =>
          if IsDirAt(fs.t, q) then MkdirFrom(fs, q, rest[1..], perm) else Out(fs, Err(Invalid))
      else if !fs.t[next].node.Dir? then Out(fs, Err(Invalid))
      else MkdirFrom(fs, next, rest[1..], perm)
  }

  /** One round of the mkdir loop: the directory one component further down. */
  function MkdirOne(fs: FS, cur: Path, part: Name, perm: nat): Out {
    var next := cur + [part];
    if next !in fs.t then Out(Put(fs, next, Dir(DirPerm(perm), DEFAULT_OWNER, DEFAULT_OWNER)), Ok(next))
    else if fs.t[next].node.Symbolic? then
      match Lookup(fs, next, true, false)
      case Failed(e) => Out(fs, Err(e))
      case Missing(_, _) => Out(fs, Err(NotExist))
      case Found(q, _) => Out(fs, if IsDirAt(fs.t, q) then Ok(q) else Err(Invalid))
    else Out(fs, if fs.t[next].node.Dir? then Ok(next) else Err(Invalid))
  }

  lemma MkdirFromOne(fs: FS, cur: Path, rest: seq<Name>, perm: nat)
    ensures rest == [] ==> MkdirFrom(fs, cur, rest, perm) == Out(fs, Ok(cur))
    ensures rest != [] ==>
            var o := MkdirOne(fs, cur, rest[0], perm);
            MkdirFrom(fs, cur, rest, perm) == if o.res.Err? then o else MkdirFrom(o.fs, o.res.path, rest[1..], perm)
  {
  }

  /** mkdirAllLocked */
  function MkdirAll(fs: FS, p: Path, perm: nat): Out {
    MkdirFrom(fs, [], p, perm)
  }

  /** ensureParentLocked */
  function EnsureParent(fs: FS, p: Path): Out {
    if fs.implicit then MkdirAll(fs, Parent(p), 0x1ed)
    else if Parent(p) !in fs.t then Out(fs, Err(NotExist))
    else if !fs.t[Parent(p)].node.Dir? then Out(fs, Err(NotDir))
    else Out(fs, Ok(Parent(p)))
  }

  /** The tail of every creating call: make sure there is a parent, then add the node. */
  function Create(fs: FS, p: Path, node: Node): Out {
    var parent := EnsureParent(fs, p);
    if parent.res.Err? then parent else Out(Put(parent.fs, p, node), Ok(p))
  }

  // ----- links -----

  /** Where Symlink and Link put their new name: the missing leaf of the walk, or, when a middle
      component is missing, the base name under the parent's create path. */
  function NewName(fs: FS, p: Path): Result {
    match Lookup(fs, p, false, true)
    case Found(_, _) => Err(Exist)
    case Missing(q, _) => Ok(q)
    case Failed(e) =>
      if e != NotExist || p == [] then Err(e)
      else match CreateWalk(fs.t, [], Parent(p), MAX_SYMLINK_DEPTH)
        case Refused(e2) => Err(e2)
        case At(q, _) => if q + [Base(p)] in fs.t then Err(Exist) else Ok(q + [Base(p)])
  }

  function Symlink(fs: FS, target: Raw, p: Path): Out {
    match NewName(fs, p)
    case Err(e) => Out(fs, Err(e))
    case Ok(q) => Create(fs, q, Symbolic(0x1ff, DEFAULT_OWNER, DEFAULT_OWNER, target))
  }

  function HardLink(fs: FS, src: Path, dst: Path): Out {
    match Lookup(fs, src, false, false)
    case Failed(e) => Out(fs, Err(e))
    case Missing(_, _) => Out(fs, Err(NotExist))
    case Found(p, _) =>
      if p !in fs.t || fs.t[p].node.Dir? then Out(fs, Err(Invalid))
      else match NewName(fs, dst)
        case Err(e) => Out(fs, Err(e))
        case Ok(q) =>
          var parent := EnsureParent(fs, q);
          if parent.res.Err? then parent
          else Out(parent.fs.(t := parent.fs.t[q := fs.t[p]]), Ok(q))
  }

  // ----- files -----

  /** What the provider of a lazy file returns. */
  datatype Load = Loaded(bytes: Bytes) | Unloadable(error: Error)

  type Loader = map<Path, Load>

  function LoadFrom(provider: Loader, source: Path): Load {
    if source in provider then provider[source] else Unloadable(NotExist)
  }

  /** materializePath: replace a lazy node by the bytes its provider returns. */
  function Materialize(fs: FS, p: Path, provider: Loader): Out {
    if p in fs.t && fs.t[p].node.File? && fs.t[p].node.content.Lazy? then
      match LoadFrom(provider, fs.t[p].node.content.source)
      case Loaded(bytes) => Out(Update(fs, p, fs.t[p].node.(content := Data(bytes))), Ok(p))
      case Unloadable(e) => Out(fs, Err(e))
    else Out(fs, Ok(p))
  }

  lemma MaterializeEnds(fs: FS, p: Path, provider: Loader)
    ensures var o := Materialize(fs, p, provider); (o.res.Ok? ==> o.res == Ok(p)) && (o.res.Err? ==> o.fs == fs)
  {
  }

  predicate MustMaterialize(flags: Flags) {
    !(flags.trunc && flags.write) && !(flags.create && flags.excl)
  }

  /** OpenFile, with the content provider of lazy nodes as a parameter. */
  function OpenFile(fs: FS, p: Path, flags: Flags, perm: nat, provider: Loader): Out {
    if !MustMaterialize(flags) then OpenNode(fs, p, flags, perm)
    else match Lookup(fs, p, true, false)
      case Found(q, _) =>
        var m := Materialize(fs, q, provider);
        if m.res.Err? && (!flags.create || m.res.error != NotExist) then
          Out(fs, Err(if flags.create then ParentError(m.res.error) else m.res.error))
        else OpenNode(m.fs, p, flags, perm)
      case Missing(_, _) => Out(fs, Err(NotExist))
      case Failed(e) =>
        if flags.create && e == NotExist then OpenNode(fs, p, flags, perm)
        else Out(fs, Err(if flags.create then ParentError(e) else e))
  }

  function OpenNode(fs: FS, p: Path, flags: Flags, perm: nat): Out {
    if flags.create then
      if flags.excl && Lookup(fs, p, false, true).Found? then Out(fs, Err(Exist))
      else match CreateWalk(fs.t, [], p, MAX_SYMLINK_DEPTH)
        case Refused(e) => Out(fs, Err(ParentError(e)))
        case At(q, _) =>
          if q !in fs.t then
            Create(fs, q, File(FilePerm(perm), DEFAULT_OWNER, DEFAULT_OWNER, Data([])))
          else if flags.excl then Out(fs, Err(Exist))
          else OpenExisting(fs, q, flags)
    else match Lookup(fs, p, true, false)
      case Failed(e) => Out(fs, Err(e))
      case Missing(_, _) => Out(fs, Err(NotExist))
      case Found(q, _) => if q in fs.t then OpenExisting(fs, q, flags) else Out(fs, Err(NotExist))
  }

  function OpenExisting(fs: FS, q: Path, flags: Flags): Out
    requires q in fs.t
  {
    if fs.t[q].node.Dir? then Out(fs, Err(Invalid))
    else if flags.trunc && flags.write && fs.t[q].node.File? then
      Out(Update(fs, q, fs.t[q].node.(content := Data([]))), Ok(q))
    else Out(fs, Ok(q))
  }

  /** memoryFile.Write through a handle on the node at p: the bytes replace what was at the
      offset and grow the file as needed. */
  function Overwrite(data: Bytes, offset: nat, payload: Bytes): Bytes {
    var end := offset + |payload|;
    (if offset <= |data| then data[..offset] else data + seq(offset - |data|, _ => 0 as bv8))
    + payload
    + (if end < |data| then data[end..] else [])
  }

  /** One write through a handle: `offset` is where the handle stands, unless it appends. */
  function WriteAt(fs: FS, p: Path, append: bool, offset: nat, payload: Bytes): FS {
    if p in fs.t && fs.t[p].node.File? && fs.t[p].node.content.Data? then
      var data := fs.t[p].node.content.bytes;
      Update(fs, p, fs.t[p].node.(content := Data(Overwrite(data, if append then |data| else offset, payload))))
    else fs
  }

  /** Where the handle stands after the write. */
  function OffsetAfter(fs: FS, p: Path, append: bool, offset: nat, payload: Bytes): nat {
    if append && p in fs.t && fs.t[p].node.File? && fs.t[p].node.content.Data? then
      |fs.t[p].node.content.bytes| + |payload|
    else offset + |payload|
  }

  lemma OverwriteTwice(data: Bytes, offset: nat, a: Bytes, b: Bytes)
    ensures Overwrite(Overwrite(data, offset, a), offset + |a|, b) == Overwrite(data, offset, a + b)
  {
    var once, end := Overwrite(data, offset, a), offset + |a|;
    var head := if offset <= |data| then data[..offset] else data + seq(offset - |data|, _ => 0 as bv8);
    assert once[..end] == head + a;
    assert end + |b| < |once| ==> once[end + |b|..] == data[end + |b|..];
    assert head + (a + b) == (head + a) + b;
  }

  /** A handle keeps a running offset: two writes through it are one write of both payloads, for an
      appending handle as well. */
  lemma WritesJoin(fs: FS, p: Path, append: bool, offset: nat, a: Bytes, b: Bytes)
    ensures WriteAt(WriteAt(fs, p, append, offset, a), p, append, OffsetAfter(fs, p, append, offset, a), b) ==
            WriteAt(fs, p, append, offset, a + b)
  {
    if p in fs.t && fs.t[p].node.File? && fs.t[p].node.content.Data? {
      var node := fs.t[p].node;
      var data := node.content.bytes;
      OverwriteTwice(data, if append then |data| else offset, a, b);
      var once := WriteAt(fs, p, append, offset, a);
      assert once.t[p].node.content == Data(Overwrite(data, if append then |data| else offset, a));
      assert append ==> |Overwrite(data, |data|, a)| == |data| + |a|;
    }
  }

  /** Lstat: the content of a lazy file is loaded first, unless its size is known (`sized`). */
  function LstatLoading(fs: FS, p: Path, provider: Loader, sized: bool): Out {
    match Lookup(fs, p, false, false)
    case Failed(e) => Out(fs, Err(e))
    case Missing(_, _) => Out(fs, Err(NotExist))
    case Found(q, _) => if sized then Out(fs, Ok(q)) else Materialize(fs, q, provider)
  }

  // ----- metadata -----

  function WithMode(node: Node, mode: nat): Node {
    match node
    case Dir(_, u, g) => Dir(mode, u, g)
    case File(_, u, g, c) => File(mode, u, g, c)
    case Symbolic(_, u, g, target) => Symbolic(mode, u, g, target)
  }

  function WithOwner(node: Node, uid: nat, gid: nat): Node {
    match node
    case Dir(m, _, _) => Dir(m, uid, gid)
    case File(m, _, _, c) => File(m, uid, gid, c)
    case Symbolic(m, _, _, target) => Symbolic(m, uid, gid, target)
  }

  function Chmod(fs: FS, p: Path, mode: nat): Out {
    match Lookup(fs, p, true, false)
    case Failed(e) => Out(fs, Err(e))
    case Missing(_, _) => Out(fs, Err(NotExist))
    case Found(q, _) =>
      if q in fs.t then Out(Update(fs, q, WithMode(fs.t[q].node, mode)), Ok(q)) else Out(fs, Err(NotExist))
  }

  function Chown(fs: FS, p: Path, uid: nat, gid: nat, follow: bool): Out {
    match Lookup(fs, p, follow, false)
    case Failed(e) => Out(fs, Err(e))
    case Missing(_, _) => Out(fs, Err(NotExist))
    case Found(q, _) =>
      if q in fs.t then Out(Update(fs, q, WithOwner(fs.t[q].node, uid, gid)), Ok(q)) else Out(fs, Err(NotExist))
  }

  // ----- names -----

  function Children<I>(t: Tree<I>, p: Path): set<Name> {
    set q | q in t && q != [] && Parent(q) == p :: Base(q)
  }

  datatype Listed = Names(names: set<Name>) | NoNames(error: Error)

  /** ReadDir, before sorting. */
  function ReadNames<I>(t: Tree<I>, p: Path): Listed {
    match Walk(t, [], p, true, false, false, MAX_SYMLINK_DEPTH)
    case Failed(e) => NoNames(e)
    case Missing(_, _) => NoNames(NotExist)
    case Found(q, _) => if IsDirAt(t, q) then Names(Children(t, q)) else NoNames(Invalid)
  }

  function Remove(fs: FS, p: Path, recursive: bool): Out {
    match Lookup(fs, p, false, false)
    case Failed(e) => Out(fs, Err(e))
    case Missing(_, _) => Out(fs, Err(NotExist))
    case Found(q, _) =>
      if q == [] then Out(fs, Err(Permission))
      else if IsDirAt(fs.t, q) && Children(fs.t, q) != {} && !recursive then Out(fs, Err(Invalid))
      else Out(fs.(t := Without(fs.t, q)), Ok(q))
  }

  /** The destination of a rename: a missing leaf, or a create path under implicit parents. */
  function RenameTarget(fs: FS, dst: Path): Result {
    match Lookup(fs, dst, false, true)
    case Found(_, _) => Err(Exist)
    case Missing(q, _) => Ok(q)
    case Failed(e) =>
      if fs.implicit && e == NotExist then
        match CreateWalk(fs.t, [], dst, MAX_SYMLINK_DEPTH)
        case Refused(e2) => Err(ParentError(e2))
        case At(q, _) => Ok(q)
      else Err(ParentError(e))
  }

  function Rename(fs: FS, src: Path, dst: Path): Out {
    match Lookup(fs, src, false, false)
    case Failed(e) => Out(fs, Err(e))
    case Missing(_, _) => Out(fs, Err(NotExist))
    case Found(p, _) =>
      if p == [] then Out(fs, Err(Permission))
      else match RenameTarget(fs, dst)
        case Err(e) => Out(fs, Err(e))
        case Ok(q) =>
          if Below(q, p) then Out(fs, Err(Invalid))
          else
            var parent := EnsureParent(fs, q);
            if parent.res.Err? then parent
            else Out(parent.fs.(t := Relabel(parent.fs.t, p, q)), Ok(q))
  }

  // ----- every call keeps the tree well formed -----

  lemma PutFS(fs: FS, p: Path, node: Node)
    requires ValidFS(fs) && p !in fs.t && IsDirAt(fs.t, Parent(p))
    ensures ValidFS(Put(fs, p, node))
  {
    PutValid(fs.t, p, Cell(fs.next + 1, node));
  }

  lemma UpdateFS(fs: FS, p: Path, node: Node)
    requires ValidFS(fs) && p in fs.t && (node.Dir? <==> fs.t[p].node.Dir?)
    ensures ValidFS(Update(fs, p, node))
  {
    SetNodeValid(fs.t, p, node);
  }

  // mkdir keeps every existing cell, only adds directories, and on success leaves a directory.
  lemma {:induction false} MkdirFromValid(fs: FS, cur: Path, rest: seq<Name>, perm: nat)
    requires ValidFS(fs) && IsDirAt(fs.t, cur)
    ensures var o := MkdirFrom(fs, cur, rest, perm);
            && ValidFS(o.fs) && o.fs.next >= fs.next && o.fs.implicit == fs.implicit
            && (forall p | p in fs.t :: p in o.fs.t && o.fs.t[p] == fs.t[p])
            && (forall p | p in o.fs.t && p !in fs.t :: o.fs.t[p].node.Dir? && o.fs.t[p].id > fs.next)
            && (o.res.Ok? ==> IsDirAt(o.fs.t, o.res.path))
    decreases |rest|
  {
    if rest != [] {
      var next := cur + [rest[0]];
      assert Parent(next) == cur;
      if next !in fs.t {
        var node := Dir(DirPerm(perm), DEFAULT_OWNER, DEFAULT_OWNER);
        PutFS(fs, next, node);
        MkdirFromValid(Put(fs, next, node), next, rest[1..], perm);
      } else if fs.t[next].node.Symbolic? {
        var w := Lookup(fs, next, true, false);
        if w.Found? && IsDirAt(fs.t, w.path) {
          MkdirFromValid(fs, w.path, rest[1..], perm);
        }
      } else if fs.t[next].node.Dir? {
        MkdirFromValid(fs, next, rest[1..], perm);
      }
    }
  }

  /** No symlink on the way to p: what a resolver returns. */
  ghost predicate Resolved<I>(t: Tree<I>, p: Path) {
    forall k | 0 <= k < |p| && p[..k] in t :: !t[p[..k]].node.Symbolic?
  }

  // On a path without symlinks mkdir makes exactly the missing prefixes of that path, and it
  // fails only on a component that exists and is not a directory.
  lemma {:induction false} MkdirFromResolved(fs: FS, cur: Path, rest: seq<Name>, perm: nat)
    requires ValidFS(fs) && IsDirAt(fs.t, cur)
    requires Resolved(fs.t, cur + rest) && (cur + rest in fs.t ==> !fs.t[cur + rest].node.Symbolic?)
    ensures var o := MkdirFrom(fs, cur, rest, perm);
            && (o.res.Ok? ==> o.res.path == cur + rest)
            && (forall p | p in o.fs.t && p !in fs.t :: Under(cur + rest, p))
            && (o.res.Err? ==> exists k | 0 <= k <= |cur + rest| ::
                               (cur + rest)[..k] in fs.t && !fs.t[(cur + rest)[..k]].node.Dir?)
    decreases |rest|
  {
    var all := cur + rest;
    assert all[..|all|] == all;
    if rest == [] {
      assert all == cur;
    } else {
      var next := cur + [rest[0]];
      assert Parent(next) == cur;
      assert next == all[..|next|];
      assert next + rest[1..] == all;
      if next !in fs.t {
        var node := Dir(DirPerm(perm), DEFAULT_OWNER, DEFAULT_OWNER);
        PutFS(fs, next, node);
        MkdirFromResolved(Put(fs, next, node), next, rest[1..], perm);
      } else if fs.t[next].node.Dir? {
        MkdirFromResolved(fs, next, rest[1..], perm);
      }
    }
  }

  /** `after` keeps every cell of `before` and adds only directories with new ids. */
  ghost predicate OnlyNewDirs(before: FS, after: FS) {
    && ValidFS(after) && after.next >= before.next && after.implicit == before.implicit
    && (forall p | p in before.t :: p in after.t && after.t[p] == before.t[p])
    && (forall p | p in after.t && p !in before.t :: after.t[p].node.Dir? && after.t[p].id > before.next)
  }

  lemma EnsureParentValid(fs: FS, p: Path)
    requires ValidFS(fs) && p != [] && Resolved(fs.t, p)
    ensures var o := EnsureParent(fs, p);
            && OnlyNewDirs(fs, o.fs)
            && (forall q | q in o.fs.t && q !in fs.t :: Below(p, q))
            && (o.res.Ok? ==> IsDirAt(o.fs.t, Parent(p)))
  {
    if fs.implicit {
      var parent := Parent(p);
      assert forall k | 0 <= k < |parent| :: parent[..k] == p[..k];
      assert parent == p[..|parent|];
      assert [] + parent == parent;
      MkdirFromValid(fs, [], parent, 0x1ed);
      MkdirFromResolved(fs, [], parent, 0x1ed);
      var o := EnsureParent(fs, p);
      forall q | q in o.fs.t && q !in fs.t ensures Below(p, q) {
        assert p[..|q|] == parent[..|q|];
      }
    }
  }

  lemma CreateValid(fs: FS, p: Path, node: Node)
    requires ValidFS(fs) && p != [] && p !in fs.t && Resolved(fs.t, p)
    ensures ValidFS(Create(fs, p, node).fs)
  {
    EnsureParentValid(fs, p);
    var parent := EnsureParent(fs, p);
    if parent.res.Ok? {
      PutFS(parent.fs, p, node);
    }
  }

  lemma DirParentIsResolved<I>(t: Tree<I>, p: Path)
    requires ValidTree(t) && (p == [] || IsDirAt(t, Parent(p)))
    ensures Resolved(t, p)
  {
    forall k | 0 <= k < |p| && p[..k] in t ensures !t[p[..k]].node.Symbolic? {
      assert p[..k] == if k < |p| - 1 then Parent(p)[..k] else Parent(p);
    }
  }

  // A create path never ends at, or runs through, a symlink.
  lemma {:induction false} CreateWalkSound<I>(t: Tree<I>, cur: Path, rest: seq<Name>, hops: nat)
    requires ValidTree(t) && IsDirAt(t, cur)
    ensures var w := CreateWalk(t, cur, rest, hops);
            w.At? ==> w.left <= hops && Resolved(t, w.path) && (w.path in t ==> !t[w.path].node.Symbolic?)
    decreases hops, |rest|
  {
    hide Resolve;
    if rest == [] {
      if cur != [] { ParentIsDir(t, cur); }
      DirParentIsResolved(t, cur);
    } else {
      var next := cur + [rest[0]];
      assert Parent(next) == cur;
      if next !in t {
        MissingIsVacant(t, next);
        forall k | |next| <= k <= |cur + rest| ensures (cur + rest)[..k] !in t {
          assert (cur + rest)[..k][..|next|] == next;
        }
        forall k | 0 <= k <= |cur| ensures (cur + rest)[..k] in t ==> !t[(cur + rest)[..k]].node.Symbolic? {
          assert (cur + rest)[..k] == cur[..k];
          assert cur[..|cur|] == cur;
        }
        assert Under(cur + rest, next) by { assert (cur + rest)[..|next|] == next; }
      } else if t[next].node.Symbolic? {
        if hops > 0 {
          CreateWalkSound(t, [], Resolve(cur, t[next].node.target) + rest[1..], hops - 1);
        }
      } else if |rest| == 1 {
        DirParentIsResolved(t, next);
      } else if t[next].node.Dir? {
        CreateWalkSound(t, next, rest[1..], hops);
      }
    }
  }

  lemma NewNameResolved(fs: FS, p: Path)
    requires ValidFS(fs)
    ensures var r := NewName(fs, p); r.Ok? ==> r.path != [] && r.path !in fs.t && Resolved(fs.t, r.path)
  {
    WalkSound(fs.t, [], p, false, true, false, MAX_SYMLINK_DEPTH);
    var w := Lookup(fs, p, false, true);
    if w.Missing? {
      DirParentIsResolved(fs.t, w.path);
    } else if w.Failed? && w.error == NotExist && p != [] {
      CreateWalkSound(fs.t, [], Parent(p), MAX_SYMLINK_DEPTH);
      var c := CreateWalk(fs.t, [], Parent(p), MAX_SYMLINK_DEPTH);
      if c.At? {
        var q := c.path + [Base(p)];
        forall k | 0 <= k < |q| && q[..k] in fs.t ensures !fs.t[q[..k]].node.Symbolic? {
          assert q[..k] == if k < |c.path| then c.path[..k] else c.path;
        }
      }
    }
  }

  lemma SymlinkValid(fs: FS, target: Raw, p: Path)
    requires ValidFS(fs)
    ensures ValidFS(Symlink(fs, target, p).fs)
  {
    NewNameResolved(fs, p);
    if NewName(fs, p).Ok? {
      CreateValid(fs, NewName(fs, p).path, Symbolic(0x1ff, DEFAULT_OWNER, DEFAULT_OWNER, target));
    }
  }

  lemma HardLinkValid(fs: FS, src: Path, dst: Path)
    requires ValidFS(fs)
    ensures ValidFS(HardLink(fs, src, dst).fs)
  {
    WalkSound(fs.t, [], src, false, false, false, MAX_SYMLINK_DEPTH);
    NewNameResolved(fs, dst);
    var w, n := Lookup(fs, src, false, false), NewName(fs, dst);
    if w.Found? && !fs.t[w.path].node.Dir? && n.Ok? {
      EnsureParentValid(fs, n.path);
      var parent := EnsureParent(fs, n.path);
      if parent.res.Ok? {
        AliasValid(parent.fs.t, w.path, n.path);
      }
    }
  }

  lemma OpenNodeValid(fs: FS, p: Path, flags: Flags, perm: nat)
    requires ValidFS(fs)
    ensures ValidFS(OpenNode(fs, p, flags, perm).fs)
  {
    WalkSound(fs.t, [], p, true, false, false, MAX_SYMLINK_DEPTH);
    CreateWalkSound(fs.t, [], p, MAX_SYMLINK_DEPTH);
    var q := if flags.create then
      (match CreateWalk(fs.t, [], p, MAX_SYMLINK_DEPTH) case At(q, _) => q case Refused(_) => [])
    else
      (match Lookup(fs, p, true, false) case Found(q, _) => q case _ => []);
    if q in fs.t {
      if fs.t[q].node.File? { UpdateFS(fs, q, fs.t[q].node.(content := Data([]))); }
    } else {
      CreateValid(fs, q, File(FilePerm(perm), DEFAULT_OWNER, DEFAULT_OWNER, Data([])));
    }
  }

  lemma OpenFileValid(fs: FS, p: Path, flags: Flags, perm: nat, provider: Loader)
    requires ValidFS(fs)
    ensures ValidFS(OpenFile(fs, p, flags, perm, provider).fs)
  {
    WalkSound(fs.t, [], p, true, false, false, MAX_SYMLINK_DEPTH);
    var w := Lookup(fs, p, true, false);
    if w.Found? {
      var m := Materialize(fs, w.path, provider);
      assert ValidFS(m.fs) by {
        var node := fs.t[w.path].node;
        if node.File? && node.content.Lazy? && LoadFrom(provider, node.content.source).Loaded? {
          UpdateFS(fs, w.path, node.(content := Data(LoadFrom(provider, node.content.source).bytes)));
        }
      }
      OpenNodeValid(m.fs, p, flags, perm);
    }
    OpenNodeValid(fs, p, flags, perm);
  }

  lemma MetadataValid(fs: FS, p: Path, mode: nat, uid: nat, gid: nat, follow: bool)
    requires ValidFS(fs)
    ensures ValidFS(Chmod(fs, p, mode).fs)
    ensures ValidFS(Chown(fs, p, uid, gid, follow).fs)
  {
    WalkSound(fs.t, [], p, true, false, false, MAX_SYMLINK_DEPTH);
    WalkSound(fs.t, [], p, follow, false, false, MAX_SYMLINK_DEPTH);
    var w, v := Lookup(fs, p, true, false), Lookup(fs, p, follow, false);
    if w.Found? { UpdateFS(fs, w.path, WithMode(fs.t[w.path].node, mode)); }
    if v.Found? { UpdateFS(fs, v.path, WithOwner(fs.t[v.path].node, uid, gid)); }
  }

  lemma RemoveValid(fs: FS, p: Path, recursive: bool)
    requires ValidFS(fs)
    ensures ValidFS(Remove(fs, p, recursive).fs)
  {
    var w := Lookup(fs, p, false, false);
    if w.Found? && w.path != [] {
      WithoutValid(fs.t, w.path);
    }
  }

  // A walk that fails on a missing component makes the create path end at a missing path too.
  lemma {:induction false} MissingWalkMissingCreate<I>(t: Tree<I>, cur: Path, rest: seq<Name>, follow: bool,
                                                       missing: bool, keep: bool, hops: nat)
    requires ValidTree(t) && IsDirAt(t, cur)
    requires var w := Walk(t, cur, rest, follow, missing, keep, hops); w == Failed(NotExist)
    requires missing || follow
    ensures var c := CreateWalk(t, cur, rest, hops); c.At? && c.path !in t && c.path != []
    decreases hops, |rest|
  {
    hide Resolve;
    var next := cur + [rest[0]];
    assert Parent(next) == cur;
    if next !in t {
      MissingIsVacant(t, next);
      assert (cur + rest)[..|next|] == next;
      assert Under(cur + rest, next);
    } else if t[next].node.Symbolic? && (|rest| > 1 || follow) {
      var target := Resolve(cur, t[next].node.target);
      MissingWalkMissingCreate(t, [], target + rest[1..], !keep || follow, missing, keep, hops - 1);
    } else {
      MissingWalkMissingCreate(t, next, rest[1..], follow, missing, keep, hops);
    }
  }

  lemma RenameTargetResolved(fs: FS, dst: Path)
    requires ValidFS(fs)
    ensures var r := RenameTarget(fs, dst); r.Ok? ==> r.path != [] && r.path !in fs.t && Resolved(fs.t, r.path)
  {
    WalkSound(fs.t, [], dst, false, true, false, MAX_SYMLINK_DEPTH);
    var w := Lookup(fs, dst, false, true);
    if w.Missing? {
      DirParentIsResolved(fs.t, w.path);
    } else if w == Failed(NotExist) {
      MissingWalkMissingCreate(fs.t, [], dst, false, true, false, MAX_SYMLINK_DEPTH);
      CreateWalkSound(fs.t, [], dst, MAX_SYMLINK_DEPTH);
    }
  }

  lemma RenameValid(fs: FS, src: Path, dst: Path)
    requires ValidFS(fs)
    ensures ValidFS(Rename(fs, src, dst).fs)
  {
    WalkSound(fs.t, [], src, false, false, false, MAX_SYMLINK_DEPTH);
    RenameTargetResolved(fs, dst);
    var w, n := Lookup(fs, src, false, false), RenameTarget(fs, dst);
    if w.Found? && w.path != [] && n.Ok? && !Below(n.path, w.path) {
      EnsureParentValid(fs, n.path);
      var parent := EnsureParent(fs, n.path);
      if parent.res.Ok? {
        assert n.path !in parent.fs.t;
        assert !Under(n.path, w.path);
        RelabelValid(parent.fs.t, w.path, n.path);
        MissingIsVacant(parent.fs.t, n.path);
        var u := Relabel(parent.fs.t, w.path, n.path);
        forall q | q in u ensures u[q].id <= parent.fs.next {
          RelabelAt(parent.fs.t, w.path, n.path, q);
        }
      }
    }
  }

  lemma RelabelKeepsIds(fs: FS, src: Path, dst: Path)
    requires ValidFS(fs) && src in fs.t && src != [] && dst !in fs.t && IsDirAt(fs.t, Parent(dst)) && !Under(dst, src)
    ensures Vacant(fs.t, dst) && ValidFS(fs.(t := Relabel(fs.t, src, dst)))
  {
    MissingIsVacant(fs.t, dst);
    RelabelValid(fs.t, src, dst);
    forall q | q in Relabel(fs.t, src, dst) ensures Relabel(fs.t, src, dst)[q].id <= fs.next {
      RelabelAt(fs.t, src, dst, q);
    }
  }

  lemma ChildAt<I>(t: Tree<I>, p: Path, n: Name)
    ensures n in Children(t, p) <==> p + [n] in t
  {
    assert Parent(p + [n]) == p && Base(p + [n]) == n;
    if n in Children(t, p) {
      var q :| q in t && q != [] && Parent(q) == p && Base(q) == n;
      assert q == Parent(q) + [Base(q)];
    }
  }

  lemma DetachedChild<V>(t: map<Path, V>, abs: Path, q: Path, n: Name)
    requires abs != [] && q in Without(t, abs)
    ensures q + [n] in Without(t, abs) <==> q + [n] in t && !(q == Parent(abs) && n == Base(abs))
  {
    assert abs == Parent(abs) + [Base(abs)];
    var c := q + [n];
    assert forall k | 0 <= k <= |q| :: c[..k] == q[..k];
    assert c[..|c|] == c && Parent(c) == q && Base(c) == n;
  }

  // When the parent of a name resolves to a directory, a walk that still fails on a missing
  // component got past the name itself: the name exists and is a dangling symlink.
  lemma {:induction false} FailedBeyondParent<I>(t: Tree<I>, cur: Path, init: seq<Name>, last: Name, follow: bool,
                                                 hops: nat)
    requires ValidTree(t) && IsDirAt(t, cur)
    requires Walk(t, cur, init + [last], follow, true, false, hops) == Failed(NotExist)
    requires var c := CreateWalk(t, cur, init, hops); c.At? && IsDirAt(t, c.path)
    ensures CreateWalk(t, cur, init, hops).path + [last] in t
    decreases hops, |init|
  {
    hide Resolve;
    var rest := init + [last];
    if init == [] {
      assert rest == [last];
    } else {
      var next := cur + [init[0]];
      assert rest[0] == init[0] && rest[1..] == init[1..] + [last];
      assert Under(cur + init, next) by { assert (cur + init)[..|next|] == next; }
      if next !in t {
        MissingIsVacant(t, next);
      } else if t[next].node.Symbolic? {
        var target := Resolve(cur, t[next].node.target);
        assert target + rest[1..] == (target + init[1..]) + [last];
        FailedBeyondParent(t, [], target + init[1..], last, true, hops - 1);
      } else {
        FailedBeyondParent(t, next, init[1..], last, follow, hops);
      }
    }
  }

  // Without implicit parents the create-path fallback of Link never succeeds.
  lemma LinkFallbackFails(fs: FS, src: Path, dst: Path)
    requires ValidFS(fs) && !fs.implicit && dst != [] && Lookup(fs, dst, false, true) == Failed(NotExist)
    ensures HardLink(fs, src, dst).fs == fs && HardLink(fs, src, dst).res.Err?
  {
    var c := CreateWalk(fs.t, [], Parent(dst), MAX_SYMLINK_DEPTH);
    assert dst == Parent(dst) + [Base(dst)];
    if c.At? {
      assert Parent(c.path + [Base(dst)]) == c.path;
      if IsDirAt(fs.t, c.path) {
        FailedBeyondParent(fs.t, [], Parent(dst), Base(dst), false, MAX_SYMLINK_DEPTH);
      }
    }
  }

  // A create path that does not exist has a parent.
  lemma CreatedBelow(fs: FS, p: Path)
    requires ValidFS(fs)
    ensures var c := CreateWalk(fs.t, [], p, MAX_SYMLINK_DEPTH); c.At? && c.path !in fs.t ==> c.path != []
  {
  }

  lemma RootIsDir(fs: FS)
    requires ValidFS(fs)
    ensures IsDirAt(fs.t, [])
  {
  }

  lemma NextIsUnused(fs: FS)
    requires ValidFS(fs)
    ensures ValidFS(fs.(next := fs.next + 1)) && forall p | p in fs.t :: fs.t[p].id != fs.next + 1
  {
  }
}
