/** What the MemoryFS calls do, told by what a caller can see (fs/memory.go): which paths exist before
    and after, with which nodes, and with which error a call ends.

    `MemoryOps` says how each call computes its result; the laws here do not look at that. They speak
    of the two trees, of where the names resolve to, and of nothing else, and they hold of MemoryFS
    and TrieFS alike, since both compute the functions of `MemoryOps`.
 */
module MemoryLaws {
  import opened Paths
  import opened Tree
  import opened MemoryOps
  import opened WalkLaws

  /** A new filesystem has nothing but a root directory. */
  lemma NewLaw(implicit: bool)
    ensures var fs := NewFS(implicit);
            fs.t.Keys == {[]} && fs.t[[]].node == Dir(0x1ed, 1000, 1000) && fs.implicit == implicit
  {
  }

  // ----- making directories -----

  /** Every missing prefix of `top` is a new directory with this mode, and nothing else has changed. */
  ghost predicate AddedDirs(before: FS, after: FS, top: Path, mode: nat) {
    && after.implicit == before.implicit && after.next >= before.next
    && (forall q :: q in after.t <==> q in before.t || Under(top, q))
    && (forall q | q in before.t :: after.t[q] == before.t[q])
    && (forall q | q in after.t && q !in before.t ::
          after.t[q].node == Dir(mode, 1000, 1000) && before.next < after.t[q].id <= after.next)
    && (forall p, q | p in after.t && q in after.t && p !in before.t && q !in before.t && p != q ::
          after.t[p].id != after.t[q].id)
  }

  lemma NothingAdded(fs: FS, top: Path, mode: nat)
    requires ValidFS(fs) && top in fs.t
    ensures AddedDirs(fs, fs, top, mode)
  {
    forall q | Under(top, q) ensures q in fs.t {
      if q != top { AncestorIsDir(fs.t, top, q); }
    }
  }

  // Below a directory that lacks the next component everything that is asked for is made.
  lemma {:induction false} MkdirMakes(fs: FS, cur: Path, rest: seq<Name>, perm: nat)
    requires ValidFS(fs) && IsDirAt(fs.t, cur) && (rest != [] ==> cur + [rest[0]] !in fs.t)
    ensures var o := MkdirFrom(fs, cur, rest, perm);
            o.res == Ok(cur + rest) && AddedDirs(fs, o.fs, cur + rest, if perm == 0 then 0x1ed else perm)
    decreases |rest|
  {
    if rest == [] {
      assert cur + rest == cur;
      NothingAdded(fs, cur, if perm == 0 then 0x1ed else perm);
    } else {
      var next, top := cur + [rest[0]], cur + rest;
      var node := Dir(if perm == 0 then 0x1ed else perm, 1000, 1000);
      var made := Put(fs, next, node);
      assert Parent(next) == cur && next + rest[1..] == top && top[..|next|] == next;
      PutFS(fs, next, node);
      MissingIsVacant(fs.t, next);
      if rest[1..] != [] {
        assert Under(next + [rest[1]], next) by { assert (next + [rest[1]])[..|next|] == next; }
      }
      MkdirMakes(made, next, rest[1..], perm);
      MakesOneMore(fs, made, MkdirFrom(made, next, rest[1..], perm).fs, next, top, node.mode);
    }
  }

  lemma MakesOneMore(fs: FS, made: FS, after: FS, next: Path, top: Path, mode: nat)
    requires ValidFS(fs) && next !in fs.t && next != [] && made == Put(fs, next, Dir(mode, 1000, 1000))
    requires Under(top, next) && AddedDirs(made, after, top, mode)
    ensures AddedDirs(fs, after, top, mode)
  {
    assert forall q | q in after.t && q !in fs.t :: q == next || q !in made.t;
  }

  /** mkdir: a failure changes nothing; success adds exactly the missing prefixes of the directory it
      names, which is then there. */
  lemma {:induction false} MkdirLaw(fs: FS, cur: Path, rest: seq<Name>, perm: nat)
    requires ValidFS(fs) && IsDirAt(fs.t, cur)
    ensures var o := MkdirFrom(fs, cur, rest, perm);
            && (o.res.Err? ==> o.fs == fs)
            && (o.res.Ok? ==> AddedDirs(fs, o.fs, o.res.path, if perm == 0 then 0x1ed else perm)
                              && IsDirAt(o.fs.t, o.res.path))
    decreases |rest|
  {
    hide AddedDirs;
    MkdirFromValid(fs, cur, rest, perm);
    if rest == [] {
      NothingAdded(fs, cur, if perm == 0 then 0x1ed else perm);
    } else {
      var next := cur + [rest[0]];
      if next !in fs.t {
        MkdirMakes(fs, cur, rest, perm);
      } else if fs.t[next].node.Symbolic? {
        var w := Lookup(fs, next, true, false);
        if w.Found? && IsDirAt(fs.t, w.path) { MkdirLaw(fs, w.path, rest[1..], perm); }
      } else if fs.t[next].node.Dir? {
        MkdirLaw(fs, next, rest[1..], perm);
      }
    }
  }

  lemma {:induction false} MkdirPast(fs: FS, cur: Path, d: seq<Name>, rest: seq<Name>, perm: nat)
    requires ValidFS(fs) && IsDirAt(fs.t, cur + d)
    ensures MkdirFrom(fs, cur, d + rest, perm) == MkdirFrom(fs, cur + d, rest, perm)
    decreases |d|
  {
    if d == [] {
      assert d + rest == rest && cur + d == cur;
    } else {
      var next := cur + [d[0]];
      assert next + d[1..] == cur + d && (d + rest)[1..] == d[1..] + rest && (cur + d)[..|next|] == next;
      ReachedThrough(fs.t, cur + d, next);
      MkdirPast(fs, next, d[1..], rest, perm);
    }
  }

  /** What mkdir does at the first component that is not a directory: a missing one is made with
      everything beneath it, a file is refused, and a link must lead to a directory. */
  lemma MkdirOutcome(fs: FS, d: Path, n: Name, rest: seq<Name>, perm: nat)
    requires ValidFS(fs) && IsDirAt(fs.t, d) && !IsDirAt(fs.t, d + [n])
    ensures MkdirAll(fs, d, perm) == Out(fs, Ok(d))
    ensures var o, here := MkdirAll(fs, d + [n] + rest, perm), d + [n];
            && (here !in fs.t ==> o.res == Ok(here + rest))
            && (here in fs.t && fs.t[here].node.File? ==> o == Out(fs, Err(Invalid)))
            && (here in fs.t && fs.t[here].node.Symbolic? ==>
                  var w := Walk(fs.t, [], here, true, false, false, 40);
                  o == if w.Failed? then Out(fs, Err(w.error))
                       else if IsDirAt(fs.t, w.path) then MkdirAll(fs, w.path + rest, perm)
                       else Out(fs, Err(Invalid)))
  {
    hide Walk;
    assert [] + d == d && d + [] == d && d + [n] + rest == d + ([n] + rest) && ([n] + rest)[1..] == rest;
    MkdirPast(fs, [], d, [], perm);
    MkdirPast(fs, [], d, [n] + rest, perm);
    var here := d + [n];
    if here !in fs.t {
      MkdirMakes(fs, d, [n] + rest, perm);
    } else if fs.t[here].node.Symbolic? {
      var w := Walk(fs.t, [], here, true, false, false, 40);
      WalkErrors(fs.t, [], here, true, false, false, 40);
      if w.Found? && IsDirAt(fs.t, w.path) {
        assert [] + w.path == w.path;
        MkdirPast(fs, [], w.path, rest, perm);
      }
    }
  }

  // ----- adding a name -----

  /** There is a new name, below directories that were there, or that implicit parents have made. */
  ghost predicate Grown(before: FS, after: FS, p: Path) {
    && after.implicit == before.implicit && p != [] && p !in before.t
    && (forall q :: q in after.t <==> q in before.t || Under(p, q))
    && (forall q | q in before.t :: after.t[q] == before.t[q])
    && (forall q | q in after.t && q !in before.t && q != p ::
          before.implicit && after.t[q].node == Dir(0x1ed, 1000, 1000) && after.t[q].id > before.next)
  }

  /** The new name stands for a node of its own. */
  ghost predicate OwnNode(before: FS, after: FS, p: Path, node: Node) {
    && p in after.t && after.t[p].node == node && after.t[p].id > before.next
    && forall q | q in after.t && q != p :: after.t[q].id != after.t[p].id
  }

  lemma EnsureParentLaw(fs: FS, p: Path)
    requires ValidFS(fs) && p != [] && Resolved(fs.t, p)
    ensures var o := EnsureParent(fs, p);
            && (o.res.Err? ==> o.fs == fs && o.res.error in {NotExist, NotDir, Invalid})
            && (o.res.Ok? ==> AddedDirs(fs, o.fs, Parent(p), 0x1ed) && IsDirAt(o.fs.t, Parent(p))
                              && (!fs.implicit ==> o.fs == fs && IsDirAt(fs.t, Parent(p))))
            && (IsDirAt(fs.t, Parent(p)) ==> o.res.Ok? && o.fs == fs)
            && (fs.implicit && ClearWay(fs.t, p) ==> o.res.Ok?)
            && (!fs.implicit && !IsDirAt(fs.t, Parent(p)) ==>
                  o.res == Err(if Parent(p) in fs.t then NotDir else NotExist))
  {
    var parent := Parent(p);
    assert [] + parent == parent;
    if fs.implicit {
      MkdirLaw(fs, [], parent, 0x1ed);
      assert forall k | 0 <= k < |parent| :: parent[..k] == p[..k];
      assert parent == p[..|p| - 1];
      MkdirFromResolved(fs, [], parent, 0x1ed);
      if ClearWay(fs.t, p) {
        assert forall k | 0 <= k <= |parent| :: parent[..k] == p[..k];
      }
      if IsDirAt(fs.t, parent) {
        assert parent + [] == parent;
        MkdirPast(fs, [], parent, [], 0x1ed);
      }
      ParentMkdirErrors(fs, [], parent);
    } else if parent in fs.t {
      NothingAdded(fs, parent, 0x1ed);
    }
  }

  lemma {:induction false} ParentMkdirErrors(fs: FS, cur: Path, rest: seq<Name>)
    requires ValidFS(fs) && IsDirAt(fs.t, cur) && Resolved(fs.t, cur + rest)
    requires cur + rest in fs.t ==> !fs.t[cur + rest].node.Symbolic?
    ensures var o := MkdirFrom(fs, cur, rest, 0x1ed); o.res.Err? ==> o.res.error == Invalid
    decreases |rest|
  {
    if rest != [] {
      var next := cur + [rest[0]];
      assert next + rest[1..] == cur + rest && (cur + rest)[..|next|] == next;
      if next !in fs.t {
        MkdirMakes(fs, cur, rest, 0x1ed);
      } else {
        assert |rest| > 1 ==> !fs.t[next].node.Symbolic?;
        assert |rest| == 1 ==> next == cur + rest;
        if fs.t[next].node.Dir? { ParentMkdirErrors(fs, next, rest[1..]); }
      }
    }
  }

  lemma CreateLaw(fs: FS, p: Path, node: Node)
    requires ValidFS(fs) && p != [] && p !in fs.t && Resolved(fs.t, p)
    ensures var o := Create(fs, p, node);
            && (o.res.Err? ==> o.fs == fs && o.res == EnsureParent(fs, p).res)
            && (o.res.Ok? ==> o.res.path == p && Grown(fs, o.fs, p) && OwnNode(fs, o.fs, p, node))
            && (o.res.Ok? <==> EnsureParent(fs, p).res.Ok?)
  {
    hide EnsureParent, Grown, AddedDirs;
    EnsureParentLaw(fs, p);
    EnsureParentValid(fs, p);
    if EnsureParent(fs, p).res.Ok? {
      var mid := EnsureParent(fs, p).fs;
      GrownByParents(fs, mid, p, Cell(mid.next + 1, node), mid.next + 1);
    }
  }

  lemma GrownByParents(fs: FS, mid: FS, p: Path, c: Cell<nat>, next: nat)
    requires p != [] && p !in fs.t && AddedDirs(fs, mid, Parent(p), 0x1ed) && (!fs.implicit ==> mid == fs)
    ensures Grown(fs, mid.(t := mid.t[p := c], next := next), p)
  {
    forall q ensures Under(p, q) <==> q == p || Under(Parent(p), q) {
      if Under(Parent(p), q) { assert p[..|q|] == Parent(p)[..|q|]; }
      if Under(p, q) && q != p { assert Parent(p)[..|q|] == p[..|q|]; }
    }
  }

  /** A missing directory on the way to p, or a last link that leads nowhere. */
  lemma MissingParent<I>(t: Tree<I>, p: Path)
    requires ValidTree(t) && Walk(t, [], p, false, true, false, 40) == Failed(NotExist)
    ensures p != []
    ensures var c := CreateWalk(t, [], Parent(p), 40);
            && c.At? && ClearWay(t, c.path + [Base(p)])
            && (c.path + [Base(p)] in t <==> c.path in t) && (c.path in t ==> IsDirAt(t, c.path))
  {
    hide Walk, CreateWalk;
    WalkOnce(t, [], p, false, true, false, 40);
    MissingWalkMissingCreate(t, [], p, false, true, false, 40);
    assert p == Parent(p) + [Base(p)];
    CreateWalkContinues(t, [], Parent(p), Base(p), 40);
    CreateWalkClear(t, [], Parent(p), 40);
    var c := CreateWalk(t, [], Parent(p), 40);
    var q := c.path + [Base(p)];
    if c.path in t {
      FailedBeyondParent(t, [], Parent(p), Base(p), false, 40);
    } else {
      MissingIsVacant(t, c.path);
      assert Under(q, c.path) by { assert q[..|c.path|] == c.path; }
    }
    forall k | 0 <= k < |q| && q[..k] in t ensures t[q[..k]].node.Dir? {
      assert q[..k] == if k < |c.path| then c.path[..k] else c.path;
    }
  }

  /** Where Symlink and Link put a name, for every way in which the walk to it can end. */
  lemma NewNameLaw(fs: FS, p: Path)
    requires ValidFS(fs)
    ensures var n, v := NewName(fs, p), Lookup(fs, p, false, true);
            && (n.Ok? ==> n.path != [] && n.path !in fs.t && ClearWay(fs.t, n.path))
            && (v.Found? ==> n == Err(Exist)) && (v.Missing? ==> n == Ok(v.path) && IsDirAt(fs.t, Parent(v.path)))
            && (v.Failed? && v.error != NotExist ==> n == Err(v.error))
            && (v == Failed(NotExist) ==>
                  p != [] && var c := CreateWalk(fs.t, [], Parent(p), 40);
                  c.At? && n == if IsDirAt(fs.t, c.path) then Err(Exist) else Ok(c.path + [Base(p)]))
  {
    hide CreateWalk, Walk;
    WalkSound(fs.t, [], p, false, true, false, 40);
    var v := Lookup(fs, p, false, true);
    if v == Failed(NotExist) {
      MissingParent(fs.t, p);
    } else if v.Missing? {
      DirParentIsClear(fs.t, v.path);
    }
  }

  /** How a call ends that adds the name p: where it is put, and how it is refused. */
  ghost predicate Named(fs: FS, p: Path, r: Result) {
    match Lookup(fs, p, false, true)
    case Missing(q, _) => r == Ok(q)
    case Found(_, _) => r == Err(Exist)
    case Failed(e) =>
      if e != NotExist then r == Err(e)
      else
        p != [] && var c := CreateWalk(fs.t, [], Parent(p), 40);
        c.At? && r == if IsDirAt(fs.t, c.path) then Err(Exist)
                      else if fs.implicit then Ok(c.path + [Base(p)])
                      else Err(NotExist)
  }

  // Where a name may go its parent is there or is made.
  lemma PlaceForName(fs: FS, p: Path, n: Result, r: Result)
    requires ValidFS(fs) && n == NewName(fs, p) && (n.Err? ==> r == n)
    requires n.Ok? ==> n.path != []
    requires n.Ok? ==>
               var parent := EnsureParent(fs, n.path).res;
               r == if parent.Err? then parent else Ok(n.path)
    ensures Named(fs, p, r)
  {
    hide CreateWalk, Walk, NewName, EnsureParent;
    NewNameLaw(fs, p);
    if n.Ok? {
      ClearIsResolved(fs.t, n.path);
      EnsureParentLaw(fs, n.path);
      var c := CreateWalk(fs.t, [], Parent(p), 40);
      if Lookup(fs, p, false, true) == Failed(NotExist) {
        assert Parent(n.path) == c.path;
        MissingParent(fs.t, p);
      }
    }
  }

  lemma ClearIsResolved<I>(t: Tree<I>, p: Path)
    requires ClearWay(t, p)
    ensures Resolved(t, p)
  {
  }

  /** Symlink: one new link with exactly this target, mode 0777 and the default owner, or nothing. */
  lemma SymlinkLaw(fs: FS, target: Raw, p: Path)
    requires ValidFS(fs)
    ensures var o := Symlink(fs, target, p);
            && Named(fs, p, o.res)
            && (o.res.Err? ==> o.fs == fs)
            && (o.res.Ok? ==> Grown(fs, o.fs, o.res.path)
                              && OwnNode(fs, o.fs, o.res.path, Symbolic(0x1ff, 1000, 1000, target)))
  {
    hide NewName, EnsureParent, Walk, Grown, OwnNode, Named;
    NewNameLaw(fs, p);
    var n := NewName(fs, p);
    PlaceForName(fs, p, n, Symlink(fs, target, p).res);
    if n.Ok? {
      ClearIsResolved(fs.t, n.path);
      CreateLaw(fs, n.path, Symbolic(0x1ff, DEFAULT_OWNER, DEFAULT_OWNER, target));
    }
  }

  /** Link: the new name stands for the very node of the source; directories have no second name. */
  lemma LinkLaw(fs: FS, src: Path, dst: Path)
    requires ValidFS(fs)
    ensures var o, w := HardLink(fs, src, dst), Lookup(fs, src, false, false);
            && (o.res.Err? ==> o.fs == fs)
            && (o.res.Ok? ==> w.Found? && w.path in fs.t && !fs.t[w.path].node.Dir?
                              && Grown(fs, o.fs, o.res.path)
                              && o.res.path in o.fs.t && o.fs.t[o.res.path] == fs.t[w.path])
            && (w.Failed? ==> o.res == Err(w.error))
            && (w.Found? && IsDirAt(fs.t, w.path) ==> o.res == Err(Invalid))
            && (w.Found? && !IsDirAt(fs.t, w.path) ==> Named(fs, dst, o.res))
  {
    hide NewName, EnsureParent, Walk, Grown, Named;
    WalkSound(fs.t, [], src, false, false, false, 40);
    WalkErrors(fs.t, [], src, false, false, false, 40);
    NewNameLaw(fs, dst);
    var w, n := Lookup(fs, src, false, false), NewName(fs, dst);
    if w.Found? && !fs.t[w.path].node.Dir? {
      PlaceForName(fs, dst, n, HardLink(fs, src, dst).res);
      if n.Ok? {
        ClearIsResolved(fs.t, n.path);
        EnsureParentLaw(fs, n.path);
        var parent := EnsureParent(fs, n.path);
        if parent.res.Ok? {
          GrownByParents(fs, parent.fs, n.path, fs.t[w.path], parent.fs.next);
        }
      }
    }
  }

  // ----- changing a node -----

  /** The node at p has a new value under all its names, and no other node and no path has changed. */
  ghost predicate Changed(before: FS, after: FS, p: Path, value: Node) {
    && after.next == before.next && after.implicit == before.implicit && p in before.t
    && after.t.Keys == before.t.Keys
    && forall q | q in before.t ::
         after.t[q] == if before.t[q].id == before.t[p].id then Cell(before.t[p].id, value) else before.t[q]
  }

  lemma UpdateChanges(fs: FS, p: Path, value: Node)
    requires p in fs.t
    ensures Changed(fs, Update(fs, p, value), p, value)
  {
  }

  lemma UnchangedChanges(fs: FS, p: Path)
    requires ValidFS(fs) && p in fs.t
    ensures Changed(fs, fs, p, fs.t[p].node)
  {
  }

  /** Same kind, same content or target; mode and owner are spelled out. */
  predicate WithMetadata(old': Node, new': Node, mode: nat, uid: nat, gid: nat) {
    && new'.mode == mode && new'.uid == uid && new'.gid == gid
    && (new'.Dir? <==> old'.Dir?) && (new'.File? <==> old'.File?)
    && (old'.File? ==> new'.content == old'.content) && (old'.Symbolic? ==> new'.target == old'.target)
  }

  /** Only the metadata of the node at p has changed, to these values. */
  ghost predicate MetadataChanged(before: FS, after: FS, p: Path, mode: nat, uid: nat, gid: nat) {
    && p in before.t && p in after.t && Changed(before, after, p, after.t[p].node)
    && WithMetadata(before.t[p].node, after.t[p].node, mode, uid, gid)
  }

  lemma ChmodLaw(fs: FS, p: Path, mode: nat)
    requires ValidFS(fs)
    ensures var o, w := Chmod(fs, p, mode), Lookup(fs, p, true, false);
            && (w.Failed? ==> o == Out(fs, Err(w.error)))
            && (w.Found? ==>
                  && o.res == Ok(w.path) && w.path in fs.t
                  && MetadataChanged(fs, o.fs, w.path, mode, fs.t[w.path].node.uid, fs.t[w.path].node.gid))
            && !w.Missing?
  {
    hide Walk, Changed;
    WalkSound(fs.t, [], p, true, false, false, 40);
    var w := Lookup(fs, p, true, false);
    if w.Found? {
      var value := WithMode(fs.t[w.path].node, mode);
      UpdateChanges(fs, w.path, value);
    }
  }

  lemma ChownLaw(fs: FS, p: Path, uid: nat, gid: nat, follow: bool)
    requires ValidFS(fs)
    ensures var o, w := Chown(fs, p, uid, gid, follow), Lookup(fs, p, follow, false);
            && (w.Failed? ==> o == Out(fs, Err(w.error)))
            && (w.Found? ==>
                  && o.res == Ok(w.path) && w.path in fs.t
                  && MetadataChanged(fs, o.fs, w.path, fs.t[w.path].node.mode, uid, gid))
            && !w.Missing?
  {
    hide Walk, Changed;
    WalkSound(fs.t, [], p, follow, false, false, 40);
    var w := Lookup(fs, p, follow, false);
    if w.Found? {
      var value := WithOwner(fs.t[w.path].node, uid, gid);
      UpdateChanges(fs, w.path, value);
    }
  }

  /** Every byte of a file after a write: the payload where it was written, the old byte elsewhere, and
      zero in a gap beyond the old end. */
  lemma OverwriteLaw(data: Bytes, offset: nat, payload: Bytes, i: nat)
    ensures |Overwrite(data, offset, payload)| ==
            if |data| > offset + |payload| then |data| else offset + |payload|
    ensures i < |Overwrite(data, offset, payload)| ==>
            Overwrite(data, offset, payload)[i] ==
            if offset <= i < offset + |payload| then payload[i - offset] else if i < |data| then data[i] else 0
  {
  }

  /** A write changes one node; an appending handle writes at the end, any other where it stands; the
      handle then stands behind the payload. */
  lemma WriteLaw(fs: FS, p: Path, append: bool, offset: nat, payload: Bytes)
    requires ValidFS(fs) && p in fs.t && fs.t[p].node.File? && fs.t[p].node.content.Data?
    ensures var data, from := fs.t[p].node.content.bytes, if append then |fs.t[p].node.content.bytes| else offset;
            && Changed(fs, WriteAt(fs, p, append, offset, payload), p,
                       fs.t[p].node.(content := Data(Overwrite(data, from, payload))))
            && OffsetAfter(fs, p, append, offset, payload) == from + |payload|
  {
    hide Overwrite;
    var data := fs.t[p].node.content.bytes;
    var from := if append then |data| else offset;
    UpdateChanges(fs, p, fs.t[p].node.(content := Data(Overwrite(data, from, payload))));
  }

  // ----- opening -----

  /** The content an existing file has once it is open: nothing after a truncating open; otherwise what
      it had, read from its provider if need be. A creating open does without bytes that are gone. */
  function OpenedContent(content: Content, flags: Flags, provider: Loader): Content {
    if flags.trunc && flags.write then Data([])
    else if content.Lazy? && LoadFrom(provider, content.source).Loaded? then
      Data(LoadFrom(provider, content.source).bytes)
    else content
  }

  /** The provider's error, if it ends the open. */
  predicate LoadStops(content: Content, flags: Flags, provider: Loader) {
    && content.Lazy? && !(flags.trunc && flags.write) && LoadFrom(provider, content.source).Unloadable?
    && !(flags.create && LoadFrom(provider, content.source).error == NotExist)
  }

  predicate Exclusive(flags: Flags) { flags.create && flags.excl }

  /** How an open ends, for every combination of flags, and what it changes. */
  ghost predicate OpenLaw(fs: FS, p: Path, flags: Flags, perm: nat, provider: Loader, o: Out) {
    var c := CreateWalk(fs.t, [], p, 40);
    && (o.res.Err? ==> o.fs == fs)
    && (Exclusive(flags) && Lookup(fs, p, false, true).Found? ==> o.res == Err(Exist))
    && (!(Exclusive(flags) && Lookup(fs, p, false, true).Found?) ==>
          match c
          case Refused(e) => o.res == Err(if flags.create && e == Invalid then NotDir else e)
          case At(q, _) =>
            if q !in fs.t then NewFileLaw(fs, q, flags, perm, o) else OldFileLaw(fs, q, flags, provider, o))
  }

  ghost predicate NewFileLaw(fs: FS, q: Path, flags: Flags, perm: nat, o: Out) {
    && (!flags.create ==> o.res == Err(NotExist))
    && (flags.create ==> (o.res == Ok(q) <==> fs.implicit || IsDirAt(fs.t, Parent(q))))
    && (flags.create && !(fs.implicit || IsDirAt(fs.t, Parent(q))) ==> o.res == Err(NotExist))
    && (o.res.Ok? ==> Grown(fs, o.fs, q)
                      && OwnNode(fs, o.fs, q, File(if perm == 0 then 0x1a4 else perm, 1000, 1000, Data([]))))
  }

  ghost predicate OldFileLaw(fs: FS, q: Path, flags: Flags, provider: Loader, o: Out)
    requires q in fs.t
  {
    var node := fs.t[q].node;
    if Exclusive(flags) then o.res == Err(Exist)
    else if node.Dir? then o.res == Err(Invalid)
    else
      && node.File?
      && (if LoadStops(node.content, flags, provider) then
            o.res == Err(var e := LoadFrom(provider, node.content.source).error;
                         if flags.create && e == Invalid then NotDir else e)
          else
            o.res == Ok(q) && Changed(fs, o.fs, q, node.(content := OpenedContent(node.content, flags, provider))))
  }

  // The second half of an open, on a tree whose lazy content has been dealt with.
  lemma OpenNodeLaw(fs: FS, p: Path, flags: Flags, perm: nat)
    requires ValidFS(fs)
    ensures var o, c := OpenNode(fs, p, flags, perm), CreateWalk(fs.t, [], p, 40);
            && (o.res.Err? ==> o.fs == fs)
            && (Exclusive(flags) && Lookup(fs, p, false, true).Found? ==> o.res == Err(Exist))
            && (!(Exclusive(flags) && Lookup(fs, p, false, true).Found?) ==>
                  match c
                  case Refused(e) => o.res == Err(if flags.create && e == Invalid then NotDir else e)
                  case At(q, _) =>
                    if q !in fs.t then NewFileLaw(fs, q, flags, perm, o)
                    else if Exclusive(flags) then o.res == Err(Exist)
                    else if fs.t[q].node.Dir? then o.res == Err(Invalid)
                    else fs.t[q].node.File? && o == OpenExisting(fs, q, flags) && o.res == Ok(q))
  {
    hide Walk, CreateWalk, Create, EnsureParent, Grown, OwnNode;
    var c := CreateWalk(fs.t, [], p, 40);
    RootIsDir(fs);
    WalkFollowsCreate(fs.t, [], p, false, 40);
    CreateWalkSound(fs.t, [], p, 40);
    CreateWalkClear(fs.t, [], p, 40);
    if c.At? && c.path !in fs.t {
      CreatedBelow(fs, p);
      CreateLaw(fs, c.path, File(FilePerm(perm), DEFAULT_OWNER, DEFAULT_OWNER, Data([])));
      EnsureParentLaw(fs, c.path);
      ClearParent(fs.t, c.path);
    }
  }

  lemma ClearParent(t: Tree<nat>, p: Path)
    requires ClearWay(t, p) && p != []
    ensures Parent(p) in t ==> IsDirAt(t, Parent(p))
  {
    assert Parent(p) == p[..|p| - 1];
  }

  lemma OpenFileLaw(fs: FS, p: Path, flags: Flags, perm: nat, provider: Loader)
    requires ValidFS(fs)
    ensures OpenLaw(fs, p, flags, perm, provider, OpenFile(fs, p, flags, perm, provider))
  {
    hide Walk, CreateWalk, OpenNode, Grown, OwnNode, Changed, Update;
    var c, w := CreateWalk(fs.t, [], p, 40), Lookup(fs, p, true, false);
    RootIsDir(fs);
    WalkFollowsCreate(fs.t, [], p, false, 40);
    WalkErrors(fs.t, [], p, true, false, false, 40);
    OpenNodeLaw(fs, p, flags, perm);
    if c.At? && c.path in fs.t && !fs.t[c.path].node.Dir? && !Exclusive(flags) {
      OpenOld(fs, c.path, flags, provider, p, perm);
    }
  }

  // Opening a file that is there.
  lemma OpenOld(fs: FS, q: Path, flags: Flags, provider: Loader, p: Path, perm: nat)
    requires ValidFS(fs) && q in fs.t && !fs.t[q].node.Dir? && !Exclusive(flags)
    requires var c := CreateWalk(fs.t, [], p, 40); c.At? && c.path == q
    ensures OldFileLaw(fs, q, flags, provider, OpenFile(fs, p, flags, perm, provider))
    ensures OpenFile(fs, p, flags, perm, provider).res.Err? ==> OpenFile(fs, p, flags, perm, provider).fs == fs
  {
    hide Walk, CreateWalk, OpenNode, Grown, OwnNode;
    RootIsDir(fs);
    WalkFollowsCreate(fs.t, [], p, false, 40);
    CreateWalkSound(fs.t, [], p, 40);
    OpenNodeLaw(fs, p, flags, perm);
    var node := fs.t[q].node;
    UnchangedChanges(fs, q);
    if MustMaterialize(flags) && node.content.Lazy? && LoadFrom(provider, node.content.source).Loaded? {
      var value := node.(content := Data(LoadFrom(provider, node.content.source).bytes));
      var m := Materialize(fs, q, provider).fs;
      UpdateFS(fs, q, value);
      UpdateChanges(fs, q, value);
      SameLinks(fs.t, m.t, [], p, 40);
      OpenNodeLaw(m, p, flags, perm);
    }
  }

  // ----- reading -----

  /** ReadDir: a directory's names are those of the paths one component below it. */
  lemma ReadNamesLaw<I>(t: Tree<I>, p: Path)
    requires ValidTree(t)
    ensures var l, w := ReadNames(t, p), Walk(t, [], p, true, false, false, 40);
            && (w.Failed? ==> l == NoNames(w.error))
            && (w.Found? && IsDirAt(t, w.path) ==> l.Names? && forall n :: n in l.names <==> w.path + [n] in t)
            && (w.Found? && !IsDirAt(t, w.path) ==> l == NoNames(Invalid))
  {
    hide Walk;
    var w := Walk(t, [], p, true, false, false, 40);
    if w.Found? && IsDirAt(t, w.path) {
      forall n ensures n in Children(t, w.path) <==> w.path + [n] in t { ChildAt(t, w.path, n); }
    }
  }

  /** Lstat stops at a link, and loads a lazy file whose size is not known; nothing else changes. */
  lemma LstatLaw(fs: FS, p: Path, provider: Loader, sized: bool)
    requires ValidFS(fs)
    ensures var o, w := LstatLoading(fs, p, provider, sized), Lookup(fs, p, false, false);
            && (w.Failed? ==> o == Out(fs, Err(w.error)))
            && (w.Found? ==>
                  w.path in fs.t && var node := fs.t[w.path].node;
                  if !node.File? || !node.content.Lazy? || sized then o == Out(fs, Ok(w.path))
                  else match LoadFrom(provider, node.content.source)
                    case Unloadable(e) => o == Out(fs, Err(e))
                    case Loaded(bytes) =>
                      o.res == Ok(w.path) && Changed(fs, o.fs, w.path, node.(content := Data(bytes))))
  {
    hide Walk;
    WalkSound(fs.t, [], p, false, false, false, 40);
    WalkErrors(fs.t, [], p, false, false, false, 40);
  }

  // ----- removing -----

  /** A plain removal takes away exactly one path, a recursive one exactly the paths at and beneath it; a
      directory with entries is only removed recursively, the root never; a failure changes nothing. */
  ghost predicate Removes(before: FS, after: FS, p: Path, recursive: bool, r: Result) {
    var t, u, w := before.t, after.t, Lookup(before, p, false, false);
    && (r.Err? ==> after == before)
    && (r.Ok? ==>
          && w.Found? && r.path == w.path && w.path != [] && w.path in t && w.path !in u
          && after.next == before.next && after.implicit == before.implicit
          && (forall q :: q in u <==> q in t && !Under(q, w.path))
          && (forall q | q in u :: u[q] == t[q])
          && (!recursive ==> forall q | q in t && q != w.path :: q in u))
    && (w.Failed? ==> r == Err(w.error))
    && (w.Found? && w.path == [] ==> r == Err(Permission))
    && (w.Found? && w.path != [] ==>
          && (r == Err(Invalid) <==> !recursive && exists q :: q in t && Below(q, w.path))
          && (r.Ok? || r == Err(Invalid)))
  }

  lemma RemoveLaw(fs: FS, p: Path, recursive: bool)
    requires ValidFS(fs)
    ensures var o := Remove(fs, p, recursive); Removes(fs, o.fs, p, recursive, o.res)
  {
    hide Walk;
    WalkSound(fs.t, [], p, false, false, false, 40);
    WalkErrors(fs.t, [], p, false, false, false, 40);
    var w := Lookup(fs, p, false, false);
    if w.Found? && w.path != [] {
      assert w.path[..|w.path|] == w.path;
      HasEntries(fs.t, w.path);
    }
  }

  /** Something lies beneath a path exactly when it is a directory with a name in it. */
  lemma HasEntries<I>(t: Tree<I>, p: Path)
    requires ValidTree(t) && p in t
    ensures (exists q :: q in t && Below(q, p)) <==> IsDirAt(t, p) && Children(t, p) != {}
  {
    if q :| q in t && Below(q, p) {
      AncestorIsDir(t, q, p);
      var c := p + [q[|p|]];
      assert q[..|c|] == c && q[..|q|] == q;
      if q != c { AncestorIsDir(t, q, c); }
      ChildAt(t, p, q[|p|]);
    }
    if IsDirAt(t, p) && Children(t, p) != {} {
      var n :| n in Children(t, p);
      ChildAt(t, p, n);
      assert (p + [n])[..|p|] == p;
      assert Below(p + [n], p);
    }
  }

  // ----- renaming -----

  /** The subtree at `src` is at `dst`, cell by cell; nothing is left of it at `src`; every other path is
      as before; and only implicit parents have added directories above `dst`. */
  ghost predicate MovedTree(before: FS, after: FS, src: Path, dst: Path) {
    && after.implicit == before.implicit && src in before.t && dst !in before.t && !Under(dst, src)
    && (forall q | Under(q, dst) ::
          (q in after.t <==> src + q[|dst|..] in before.t)
          && (q in after.t ==> after.t[q] == before.t[src + q[|dst|..]]))
    && (forall q | Under(q, src) :: q !in after.t)
    && (forall q | q in before.t && !Under(q, src) :: q in after.t && after.t[q] == before.t[q])
    && (forall q | q in after.t && q !in before.t && !Under(q, dst) ::
          before.implicit && Below(dst, q) && after.t[q].node == Dir(0x1ed, 1000, 1000))
  }

  /** Rename, for every way in which it can end. */
  lemma RenameLaw(fs: FS, src: Path, dst: Path)
    requires ValidFS(fs)
    ensures var o, w, v := Rename(fs, src, dst), Lookup(fs, src, false, false), Lookup(fs, dst, false, true);
            && (o.res.Err? ==> o.fs == fs)
            && (o.res.Ok? ==> w.Found? && w.path != [] && MovedTree(fs, o.fs, w.path, o.res.path))
            && (w.Failed? ==> o.res == Err(w.error))
            && (w.Found? && w.path == [] ==> o.res == Err(Permission))
            && (w.Found? && w.path != [] ==>
                  && (o.res == Err(Exist) <==> v.Found?)
                  && (v.Missing? && Below(v.path, w.path) ==> o.res == Err(Invalid))
                  && (v.Missing? && !Below(v.path, w.path) ==> o.res == Ok(v.path))
                  && (v == Failed(Invalid) ==> o.res == Err(NotDir))
                  && (v == Failed(Loop) ==> o.res == Err(Loop))
                  && (v == Failed(NotExist) && !fs.implicit ==> o.res == Err(NotExist))
                  && (v == Failed(NotExist) && fs.implicit ==>
                        var c := CreateWalk(fs.t, [], dst, 40);
                        c.At? && o.res == if Below(c.path, w.path) then Err(Invalid) else Ok(c.path)))
  {
    hide Walk, CreateWalk, EnsureParent, Relabel, MovedTree;
    WalkSound(fs.t, [], src, false, false, false, 40);
    WalkSound(fs.t, [], dst, false, true, false, 40);
    WalkErrors(fs.t, [], src, false, false, false, 40);
    WalkErrors(fs.t, [], dst, false, true, false, 40);
    RenameTargetResolved(fs, dst);
    if Lookup(fs, dst, false, true) == Failed(NotExist) {
      MissingWalkMissingCreate(fs.t, [], dst, false, true, false, 40);
      CreateWalkClear(fs.t, [], dst, 40);
    }
    var w, n := Lookup(fs, src, false, false), RenameTarget(fs, dst);
    if w.Found? && w.path != [] && n.Ok? && !Below(n.path, w.path) {
      EnsureParentLaw(fs, n.path);
      var mid := EnsureParent(fs, n.path);
      if mid.res.Ok? { RelabelMoves(fs, mid.fs, w.path, n.path); }
    }
  }

  lemma RelabelMoves(fs: FS, mid: FS, src: Path, dst: Path)
    requires ValidFS(fs) && src in fs.t && src != [] && dst != [] && dst !in fs.t && !Below(dst, src)
    requires AddedDirs(fs, mid, Parent(dst), 0x1ed) && (!fs.implicit ==> mid == fs)
    ensures MovedTree(fs, mid.(t := Relabel(mid.t, src, dst)), src, dst)
  {
    hide Relabel;
    var u := Relabel(mid.t, src, dst);
    MissingIsVacant(fs.t, dst);
    forall q | Under(Parent(dst), q) ensures !Under(q, dst) && Below(dst, q) {
      assert dst[..|q|] == Parent(dst)[..|q|];
    }
    forall q ensures (q in u <==> if Under(q, dst) then src + q[|dst|..] in mid.t else q in mid.t && !Under(q, src))
             ensures q in u ==> u[q] == mid.t[Origin(q, src, dst)] {
      RelabelAt(mid.t, src, dst, q);
    }
    forall q | Under(q, dst) ensures src + q[|dst|..] in mid.t <==> src + q[|dst|..] in fs.t {
      MovedFromOld(fs, mid, src, dst, src + q[|dst|..]);
    }
    forall q | Under(q, src) ensures !Under(q, dst) {
      if Under(q, dst) { UnderLinear(q, src, dst); }
    }
  }

  // What lies beneath the source was there before: a new parent of dst never does.
  lemma MovedFromOld(fs: FS, mid: FS, src: Path, dst: Path, q: Path)
    requires ValidFS(fs) && src in fs.t && !Under(dst, src) && AddedDirs(fs, mid, Parent(dst), 0x1ed) && Under(q, src)
    ensures q in mid.t <==> q in fs.t
  {
    if q in mid.t && q !in fs.t {
      UnderTrans(dst, Parent(dst), q);
      UnderTrans(dst, q, src);
    }
  }
}
