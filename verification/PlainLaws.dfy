/** What the calls of `PlainTree` do, told by what a caller can see.

    `Decide` says how each call computes its answer and its change. The laws here speak only of where
    the names resolve to in the tree before, and of the paths, the nodes and the hard links of the
    trees before and after. OverlayFS keeps them for its merged view.
 */
module PlainLaws {
  import opened Paths
  import opened Tree
  import opened MemoryOps
  import opened PlainTree
  import opened WalkLaws
  import opened MemoryLaws

  // ----- what can be seen of a change -----

  /** Old paths share their nodes as before, and every new path has a node of its own. */
  ghost predicate NewNodesAlone<I, J>(t: Tree<I>, u: Tree<J>) {
    forall p, q | p in u && q in u && p != q :: u[p].id == u[q].id <==> p in t && q in t && t[p].id == t[q].id
  }

  ghost predicate Gained<I, J>(t: Tree<I>, u: Tree<J>, p: Path, node: Node) {
    && p !in t && p in u && u[p].node == node
    && (forall q :: q in u <==> q in t || q == p)
    && (forall q | q in t :: u[q].node == t[q].node)
    && NewNodesAlone(t, u)
  }

  /** Every missing prefix of `top` is a new directory. */
  ghost predicate GainedDirs<I, J>(t: Tree<I>, u: Tree<J>, top: Path, mode: nat) {
    && (forall q :: q in u <==> q in t || Under(top, q))
    && (forall q | q in t :: u[q].node == t[q].node)
    && (forall q | q in u && q !in t :: u[q].node == Dir(mode, 1000, 1000))
    && NewNodesAlone(t, u)
  }

  /** `dst` is a second name for the node at `src`. */
  ghost predicate GainedName<I, J>(t: Tree<I>, u: Tree<J>, src: Path, dst: Path) {
    && src in t && dst !in t && src in u && dst in u && u[dst].node == t[src].node && u[dst].id == u[src].id
    && (forall q :: q in u <==> q in t || q == dst)
    && (forall q | q in t :: u[q].node == t[q].node)
    && (forall p, q | p in t && q in t :: u[p].id == u[q].id <==> t[p].id == t[q].id)
  }

  /** The node at p has a new value under all its names. */
  ghost predicate Revalued<I, J>(t: Tree<I>, u: Tree<J>, p: Path, value: Node) {
    && p in t && u.Keys == t.Keys
    && (forall q | q in t :: u[q].node == if t[q].id == t[p].id then value else t[q].node)
    && (forall q, r | q in t && r in t :: u[q].id == u[r].id <==> t[q].id == t[r].id)
  }

  ghost predicate Lost<I, J>(t: Tree<I>, u: Tree<J>, p: Path) {
    && p in t
    && (forall q :: q in u <==> q in t && !Under(q, p))
    && (forall q | q in u :: u[q].node == t[q].node)
    && (forall q, r | q in u && r in u :: u[q].id == u[r].id <==> t[q].id == t[r].id)
  }

  /** Where the node of a path was before the subtree at src went to dst. */
  function CameFrom(p: Path, src: Path, dst: Path): Path {
    if Under(p, dst) then src + p[|dst|..] else p
  }

  /** The subtree at src is at dst, nothing of it is left at src, and every other path is as before. */
  ghost predicate Relocated<I, J>(t: Tree<I>, u: Tree<J>, src: Path, dst: Path) {
    && src in t && dst in u && u[dst].node == t[src].node
    && (src != dst ==> src !in u && dst !in t && !Under(dst, src))
    && (forall q | Under(q, dst) :: q in u <==> src + q[|dst|..] in t)
    && (forall q | Under(q, src) && !Under(q, dst) :: q !in u)
    && (forall q | !Under(q, src) && !Under(q, dst) :: q in u <==> q in t)
    && (forall q | q in u :: var o := CameFrom(q, src, dst); o in t && u[q].node == t[o].node)
    && (forall q, r | q in u && r in u ::
          u[q].id == u[r].id <==>
          var o, o' := CameFrom(q, src, dst), CameFrom(r, src, dst);
          o in t && o' in t && t[o].id == t[o'].id)
  }

  // ----- the calls -----

  /** A missing parent is NotExist, a parent that is a file is NotDir. */
  function NoParent(e: Error): Error {
    match e
    case Invalid => NotDir
    case _ => e
  }

  /** The bytes of a file that was opened and then written once. */
  function BytesAfter(bytes: Bytes, flags: Flags, payload: Bytes): Bytes {
    var start := if flags.trunc && flags.write then [] else bytes;
    if !flags.write then start
    else if flags.append then start + payload
    else if |payload| >= |start| then payload
    else payload + start[|payload|..]
  }

  /** An open that creates a file, one that opens what is there, and every refusal. */
  ghost predicate OpensAs<I, J>(t: Tree<I>, u: Tree<J>, p: Path, flags: Flags, perm: nat, payload: Bytes, r: Result) {
    && (r.Err? ==> SameTree(u, t))
    && match Look(t, p, !(flags.create && flags.excl), flags.create)
       case Failed(e) => r == Err(if flags.create then NoParent(e) else e)
       case Missing(q, _) =>
         && flags.create && r == Ok(q)
         && var data := if flags.write then payload else [];
            Gained(t, u, q, File(if perm == 0 then 0x1a4 else perm, 1000, 1000, Data(data)))
       case Found(q, _) =>
         q in t &&
         if flags.create && flags.excl then r == Err(Exist)
         else if !t[q].node.File? then r == Err(Invalid)
         else
           && r == Ok(q)
           && (t[q].node.content.Data? ==>
                 Revalued(t, u, q, t[q].node.(content := Data(BytesAfter(t[q].node.content.bytes, flags, payload)))))
  }

  ghost predicate MkdirsAs<I, J>(t: Tree<I>, u: Tree<J>, perm: nat, r: Result) {
    && (r.Err? ==> SameTree(u, t))
    && (r.Ok? ==> GainedDirs(t, u, r.path, if perm == 0 then 0x1ed else perm) && IsDirAt(u, r.path))
  }

  /** A name is only added where there is none, below a directory. */
  ghost predicate NamesAs<I>(t: Tree<I>, p: Path, r: Result) {
    match Look(t, p, false, true)
    case Failed(e) => r == Err(NoParent(e))
    case Found(_, _) => r == Err(Exist)
    case Missing(q, _) => r == Ok(q)
  }

  ghost predicate SymlinksAs<I, J>(t: Tree<I>, u: Tree<J>, target: Raw, p: Path, r: Result) {
    && NamesAs(t, p, r) && (r.Err? ==> SameTree(u, t))
    && (r.Ok? ==> Gained(t, u, r.path, Symbolic(0x1ff, 1000, 1000, target)))
  }

  ghost predicate LinksAs<I, J>(t: Tree<I>, u: Tree<J>, src: Path, dst: Path, r: Result) {
    var w := Look(t, src, false, false);
    && (r.Err? ==> SameTree(u, t)) && (r.Ok? ==> w.Found? && GainedName(t, u, w.path, r.path))
    && (!w.Found? ==> r == Err(NotExist))
    && (w.Found? && IsDirAt(t, w.path) ==> r == Err(Invalid))
    && (w.Found? && !IsDirAt(t, w.path) ==> NamesAs(t, dst, r))
  }

  /** Only the metadata of the node at p changes, to these values. */
  ghost predicate SetsMetadata<I, J>(t: Tree<I>, u: Tree<J>, p: Path, mode: nat, uid: nat, gid: nat) {
    && p in t && p in u && WithMetadata(t[p].node, u[p].node, mode, uid, gid) && Revalued(t, u, p, u[p].node)
  }

  ghost predicate ChmodsAs<I, J>(t: Tree<I>, u: Tree<J>, p: Path, mode: nat, r: Result) {
    match Look(t, p, true, false)
    case Failed(e) => r == Err(e) && SameTree(u, t)
    case Missing(_, _) => false
    case Found(q, _) => r == Ok(q) && q in t && SetsMetadata(t, u, q, mode, t[q].node.uid, t[q].node.gid)
  }

  ghost predicate ChownsAs<I, J>(t: Tree<I>, u: Tree<J>, p: Path, uid: nat, gid: nat, follow: bool, r: Result) {
    match Look(t, p, follow, false)
    case Failed(e) => r == Err(e) && SameTree(u, t)
    case Missing(_, _) => false
    case Found(q, _) => r == Ok(q) && q in t && SetsMetadata(t, u, q, t[q].node.mode, uid, gid)
  }

  /** How a removal ends: the root is never removed, and a directory with entries only recursively. */
  ghost predicate RemovalEnds<I>(t: Tree<I>, p: Path, recursive: bool, r: Result) {
    var w := Look(t, p, false, false);
    && (r == Err(Permission) <==> p == [] || (w.Found? && w.path == []))
    && (r == Err(NotExist) <==> p != [] && !w.Found?)
    && (r == Err(Invalid) <==>
          p != [] && w.Found? && w.path != [] && !recursive && exists q :: q in t && Below(q, w.path))
    && (r.Ok? ==> r.path == w.path) && (r.Err? ==> r.error in {Permission, NotExist, Invalid})
  }

  ghost predicate RemovesAs<I, J>(t: Tree<I>, u: Tree<J>, p: Path, recursive: bool, r: Result) {
    && RemovalEnds(t, p, recursive, r)
    && (r.Err? ==> SameTree(u, t))
    && (r.Ok? ==> Lost(t, u, r.path) && (!recursive ==> forall q | q in t && q != r.path :: q in u))
  }

  /** How a rename ends. */
  ghost predicate RenameEnds<I>(t: Tree<I>, src: Path, dst: Path, r: Result) {
    var w, v := Look(t, src, false, false), Look(t, dst, false, true);
    if src == [] || dst == [] then r == Err(Permission)
    else if !w.Found? then r == Err(NotExist)
    else if v.Failed? then r == Err(NoParent(v.error))
    else
      && (r == Err(Permission) <==> w.path == [] || v.path == [])
      && (r == Err(Exist) <==> v.Found? && w.path != [] && v.path != [] && w.path != v.path)
      && (r == Err(Invalid) <==> v.Missing? && w.path != [] && Below(v.path, w.path))
      && (r.Ok? ==> r.path == v.path) && (r.Err? ==> r.error in {Permission, Exist, Invalid})
  }

  ghost predicate RenamesAs<I, J>(t: Tree<I>, u: Tree<J>, src: Path, dst: Path, r: Result) {
    && RenameEnds(t, src, dst, r)
    && (r.Err? ==> SameTree(u, t))
    && (r.Ok? ==> Relocated(t, u, Look(t, src, false, false).path, r.path))
  }

  ghost predicate CallsAs<I, J>(t: Tree<I>, u: Tree<J>, cwd: Path, call: Call, r: Result) {
    match call
    case OpenCall(name, flags, perm, payload) => OpensAs(t, u, Resolve(cwd, name), flags, perm, payload, r)
    case MkdirCall(name, perm) => MkdirsAs(t, u, perm, r)
    case SymlinkCall(target, name) => SymlinksAs(t, u, target, Resolve(cwd, name), r)
    case LinkCall(src, dst) => LinksAs(t, u, Resolve(cwd, src), Resolve(cwd, dst), r)
    case ChmodCall(name, mode) => ChmodsAs(t, u, Resolve(cwd, name), mode, r)
    case ChownCall(name, uid, gid, follow) => ChownsAs(t, u, Resolve(cwd, name), uid, gid, follow, r)
    case RemoveCall(name, recursive) => RemovesAs(t, u, Resolve(cwd, name), recursive, r)
    case RenameCall(src, dst) => RenamesAs(t, u, Resolve(cwd, src), Resolve(cwd, dst), r)
  }

  // ----- each decision keeps its law -----

  /** `u` and `r` are what the decision says. */
  ghost predicate Carried<I, J>(t: Tree<I>, u: Tree<J>, d: Decision, r: Result) {
    && r == d.res && (r.Ok? ==> Step(t, d.effect, u)) && (r.Err? ==> SameTree(u, t))
  }

  lemma GainsOne<I, J>(t: Tree<I>, u: Tree<J>, p: Path, node: Node)
    requires p !in t && Step(t, Puts(map[p := node]), u)
    ensures Gained(t, u, p, node)
  {
    var e := Puts(map[p := node]);
    forall q ensures q in u <==> q in t || q == p { assert ExistsAfter(t, e, q) <==> q in t || q == p; }
    forall q | q in u ensures u[q].node == if q == p then node else t[q].node { assert NodeAfter(t, e, q, u[q].node); }
    forall q, r | q in u && r in u && q != r
      ensures u[q].id == u[r].id <==> q in t && r in t && t[q].id == t[r].id
    {
      assert SharedAfter(t, e, q, r) <==> q in t && r in t && t[q].id == t[r].id;
    }
  }

  lemma GainsDirs<I, J>(t: Tree<I>, u: Tree<J>, nodes: map<Path, Node>, top: Path, mode: nat)
    requires forall q | q in nodes :: q !in t && Under(top, q) && nodes[q] == Dir(mode, 1000, 1000)
    requires forall q | Under(top, q) && q !in t :: q in nodes
    requires forall q | Under(top, q) && q in t :: IsDirAt(t, q)
    requires Step(t, Puts(nodes), u)
    ensures GainedDirs(t, u, top, mode) && IsDirAt(u, top)
  {
    var e := Puts(nodes);
    forall q ensures q in u <==> q in t || Under(top, q) { assert ExistsAfter(t, e, q) <==> q in t || q in nodes; }
    forall q | q in u ensures u[q].node == if q in nodes then Dir(mode, 1000, 1000) else t[q].node {
      assert NodeAfter(t, e, q, u[q].node);
    }
    forall q, r | q in u && r in u && q != r
      ensures u[q].id == u[r].id <==> q in t && r in t && t[q].id == t[r].id
    {
      assert SharedAfter(t, e, q, r) <==> q in t && r in t && t[q].id == t[r].id;
    }
    assert Under(top, top) by { assert top[..|top|] == top; }
    assert top in u;
  }

  lemma GainsName<I, J>(t: Tree<I>, u: Tree<J>, src: Path, dst: Path)
    requires src in t && dst !in t && Step(t, Alias(src, dst), u)
    ensures GainedName(t, u, src, dst)
  {
    hide Step;
    NameAdded(t, u, src, dst);
    NameShared(t, u, src, dst);
  }

  lemma NameShared<I, J>(t: Tree<I>, u: Tree<J>, src: Path, dst: Path)
    requires src in t && dst !in t && src in u && dst in u && Step(t, Alias(src, dst), u)
    ensures forall q, r | q in t && r in t && q in u && r in u :: u[q].id == u[r].id <==> t[q].id == t[r].id
    ensures u[dst].id == u[src].id
  {
    hide ExistsAfter, NodeAfter;
    var e := Alias(src, dst);
    forall q, r | q in t && r in t && q in u && r in u ensures u[q].id == u[r].id <==> t[q].id == t[r].id {
      assert SharedAfter(t, e, q, r) <==> t[q].id == t[r].id;
    }
    assert SharedAfter(t, e, dst, src);
  }

  lemma NameAdded<I, J>(t: Tree<I>, u: Tree<J>, src: Path, dst: Path)
    requires src in t && dst !in t && Step(t, Alias(src, dst), u)
    ensures forall q :: q in u <==> q in t || q == dst
    ensures forall q | q in u :: u[q].node == if q == dst then t[src].node else t[q].node
  {
    var e := Alias(src, dst);
    forall q ensures q in u <==> q in t || q == dst { assert ExistsAfter(t, e, q) <==> q in t || q == dst; }
    forall q | q in u ensures u[q].node == if q == dst then t[src].node else t[q].node {
      assert NodeAfter(t, e, q, u[q].node);
    }
  }

  lemma Revalues<I, J>(t: Tree<I>, u: Tree<J>, p: Path, value: Node)
    requires p in t && Step(t, Change(p, value), u)
    ensures Revalued(t, u, p, value)
  {
    var e := Change(p, value);
    forall q ensures q in u <==> q in t { assert ExistsAfter(t, e, q) <==> q in t; }
    forall q | q in t ensures u[q].node == if t[q].id == t[p].id then value else t[q].node {
      assert NodeAfter(t, e, q, u[q].node);
    }
    forall q, r | q in t && r in t ensures u[q].id == u[r].id <==> t[q].id == t[r].id {
      assert SharedAfter(t, e, q, r) <==> t[q].id == t[r].id;
    }
  }

  lemma Loses<I, J>(t: Tree<I>, u: Tree<J>, p: Path)
    requires p in t && Step(t, Drop(p), u)
    ensures Lost(t, u, p)
  {
    var e := Drop(p);
    forall q ensures q in u <==> q in t && !Under(q, p) { assert ExistsAfter(t, e, q) <==> q in t && !Under(q, p); }
    forall q | q in u ensures u[q].node == t[q].node { assert NodeAfter(t, e, q, u[q].node); }
    forall q, r | q in u && r in u ensures u[q].id == u[r].id <==> t[q].id == t[r].id {
      assert SharedAfter(t, e, q, r) <==> t[q].id == t[r].id;
    }
  }

  lemma Relocates<I, J>(t: Tree<I>, u: Tree<J>, src: Path, dst: Path)
    requires ValidTree(t) && src in t && dst !in t && !Under(dst, src) && Step(t, Move(src, dst), u)
    ensures Relocated(t, u, src, dst)
  {
    var e := Move(src, dst);
    assert src[..|src|] == src && dst[..|dst|] == dst && src + dst[|dst|..] == src;
    forall q ensures q in u <==> if Under(q, dst) then src + q[|dst|..] in t else q in t && !Under(q, src) {
      assert ExistsAfter(t, e, q) <==> if Under(q, dst) then src + q[|dst|..] in t else q in t && !Under(q, src);
    }
    MissingIsVacant(t, dst);
    assert !Under(src, dst);
    forall q | q in u
      ensures var o := CameFrom(q, src, dst); o in t && u[q].node == t[o].node
    {
      assert NodeAfter(t, e, q, u[q].node);
    }
    forall q, r | q in u && r in u
      ensures u[q].id == u[r].id <==>
              var o, o' := CameFrom(q, src, dst), CameFrom(r, src, dst);
              o in t && o' in t && t[o].id == t[o'].id
    {
      assert u[q].id == u[r].id <==> SharedAfter(t, e, q, r);
    }
    forall q | Under(q, src) && !Under(q, dst) ensures q !in u {}
  }

  lemma NothingIsSame<I, J>(t: Tree<I>, u: Tree<J>)
    requires Step(t, Nothing, u)
    ensures SameTree(t, u)
  {
    forall q ensures q in u <==> q in t { assert ExistsAfter(t, Nothing, q) <==> q in t; }
    forall q | q in u ensures u[q].node == t[q].node { assert NodeAfter(t, Nothing, q, u[q].node); }
    forall q, r | q in u && r in u ensures u[q].id == u[r].id <==> t[q].id == t[r].id {
      assert SharedAfter(t, Nothing, q, r) <==> t[q].id == t[r].id;
    }
  }

  lemma StaysRelocated<I, J>(t: Tree<I>, u: Tree<J>, p: Path)
    requires p in t && SameTree(t, u)
    ensures Relocated(t, u, p, p)
  {
    assert forall q :: q in u <==> q in t;
    forall q | Under(q, p) ensures p + q[|p|..] == q {}
    forall q ensures CameFrom(q, p, p) == q {}
    assert p[..|p|] == p;
  }

  lemma LookEnds<I>(t: Tree<I>, p: Path, follow: bool, missing: bool)
    requires ValidTree(t)
    ensures var w := Look(t, p, follow, missing);
            && (w.Found? ==> w.path in t)
            && (w.Missing? ==> missing && w.path !in t && w.path != [] && IsDirAt(t, Parent(w.path)))
            && (w.Failed? ==> w.error in {NotExist, Invalid, Loop})
  {
    hide Walk;
    WalkSound(t, [], p, follow, missing, true, 40);
    WalkErrors(t, [], p, follow, missing, true, 40);
  }

  lemma OpenKeeps<I, J>(t: Tree<I>, u: Tree<J>, p: Path, flags: Flags, perm: nat, payload: Bytes, r: Result)
    requires ValidTree(t) && Carried(t, u, DecideOpen(t, p, flags, perm, payload), r)
    ensures OpensAs(t, u, p, flags, perm, payload, r)
  {
    hide Look, Step, SameTree, Gained, Revalued;
    var exclusive := flags.create && flags.excl;
    LookEnds(t, p, !exclusive, flags.create);
    var w := Look(t, p, !exclusive, flags.create);
    if w.Missing? {
      GainsOne(t, u, w.path, DecideOpen(t, p, flags, perm, payload).effect.nodes[w.path]);
    } else if w.Found? && !exclusive && t[w.path].node.File? {
      var e := DecideOpen(t, p, flags, perm, payload).effect;
      Revalues(t, u, w.path, e.node);
      if t[w.path].node.content.Data? { WrittenBytes(t[w.path].node.content.bytes, flags, payload); }
    }
  }

  lemma WrittenBytes(bytes: Bytes, flags: Flags, payload: Bytes)
    ensures var start := if flags.trunc && flags.write then [] else bytes;
            BytesAfter(bytes, flags, payload) ==
            if flags.write then Overwrite(start, if flags.append then |start| else 0, payload) else start
  {
  }

  lemma SymlinkKeeps<I, J>(t: Tree<I>, u: Tree<J>, target: Raw, p: Path, r: Result)
    requires ValidTree(t) && Carried(t, u, DecideSymlink(t, target, p), r)
    ensures SymlinksAs(t, u, target, p, r)
  {
    hide Look, Step, SameTree, Gained;
    LookEnds(t, p, false, true);
    var w := Look(t, p, false, true);
    if w.Missing? { GainsOne(t, u, w.path, Symbolic(0x1ff, 1000, 1000, target)); }
  }

  lemma LinkKeeps<I, J>(t: Tree<I>, u: Tree<J>, src: Path, dst: Path, r: Result)
    requires ValidTree(t) && Carried(t, u, DecideLink(t, src, dst), r)
    ensures LinksAs(t, u, src, dst, r)
  {
    hide Look, Step, SameTree, GainedName;
    LookEnds(t, src, false, false);
    LookEnds(t, dst, false, true);
    var w, v := Look(t, src, false, false), Look(t, dst, false, true);
    if w.Found? && !t[w.path].node.Dir? && v.Missing? { GainsName(t, u, w.path, v.path); }
  }

  lemma ChmodKeeps<I, J>(t: Tree<I>, u: Tree<J>, p: Path, mode: nat, r: Result)
    requires ValidTree(t) && Carried(t, u, DecideChmod(t, p, mode), r)
    ensures ChmodsAs(t, u, p, mode, r)
  {
    hide Look, Step, SameTree;
    LookEnds(t, p, true, false);
    var w := Look(t, p, true, false);
    if w.Found? { Revalues(t, u, w.path, WithMode(t[w.path].node, mode)); }
  }

  lemma ChownKeeps<I, J>(t: Tree<I>, u: Tree<J>, p: Path, uid: nat, gid: nat, follow: bool, r: Result)
    requires ValidTree(t) && Carried(t, u, DecideChown(t, p, uid, gid, follow), r)
    ensures ChownsAs(t, u, p, uid, gid, follow, r)
  {
    hide Look, Step, SameTree;
    LookEnds(t, p, follow, false);
    var w := Look(t, p, follow, false);
    if w.Found? { Revalues(t, u, w.path, WithOwner(t[w.path].node, uid, gid)); }
  }

  lemma RemovalDecided<I>(t: Tree<I>, p: Path, recursive: bool)
    requires ValidTree(t)
    ensures RemovalEnds(t, p, recursive, DecideRemove(t, p, recursive).res)
    ensures var d := DecideRemove(t, p, recursive); d.res.Ok? ==> d.effect == Drop(d.res.path) && d.res.path in t
  {
    hide Look;
    LookEnds(t, p, false, false);
    var w := Look(t, p, false, false);
    if w.Found? { HasEntries(t, w.path); }
  }

  lemma RemoveKeeps<I, J>(t: Tree<I>, u: Tree<J>, p: Path, recursive: bool, r: Result)
    requires ValidTree(t) && Carried(t, u, DecideRemove(t, p, recursive), r)
    ensures RemovesAs(t, u, p, recursive, r)
  {
    hide DecideRemove, Step, SameTree, Look;
    RemovalDecided(t, p, recursive);
    if r.Ok? { Loses(t, u, r.path); }
  }

  lemma RenameDecided<I>(t: Tree<I>, src: Path, dst: Path)
    requires ValidTree(t)
    ensures RenameEnds(t, src, dst, DecideRename(t, src, dst).res)
    ensures var d, w := DecideRename(t, src, dst), Look(t, src, false, false);
            d.res.Ok? ==>
              && w.Found? && w.path in t
              && (if d.res.path == w.path then d.effect == Nothing
                  else d.effect == Move(w.path, d.res.path) && d.res.path !in t && !Under(d.res.path, w.path))
  {
    hide Look;
    LookEnds(t, src, false, false);
    LookEnds(t, dst, false, true);
    var w, v := Look(t, src, false, false), Look(t, dst, false, true);
    if w.Found? && v.Missing? && Under(v.path, w.path) { AncestorOfMissing(t, v.path, w.path); }
  }

  lemma RenameKeeps<I, J>(t: Tree<I>, u: Tree<J>, src: Path, dst: Path, r: Result)
    requires ValidTree(t) && Carried(t, u, DecideRename(t, src, dst), r)
    ensures RenamesAs(t, u, src, dst, r)
  {
    hide DecideRename, Step, SameTree, Relocated, Look;
    RenameDecided(t, src, dst);
    if r.Ok? {
      var from := Look(t, src, false, false).path;
      if r.path == from { NothingIsSame(t, u); StaysRelocated(t, u, from); } else { Relocates(t, u, from, r.path); }
    }
  }

  // ----- mkdir -----

  lemma {:induction false} MkdirEffect<I>(t: Tree<I>, cur: Path, rest: seq<Name>, perm: nat)
    requires ValidTree(t) && IsDirAt(t, cur)
    ensures var d := DecideMkdir(t, cur, rest, perm);
            d.res.Ok? ==>
              if d.effect == Nothing then IsDirAt(t, d.res.path)
              else d.effect.Puts? && MkdirNodes(t, d.effect.nodes, d.res.path, if perm == 0 then 0x1ed else perm)
    decreases |rest|
  {
    hide MkdirNodes;
    if rest != [] {
      var next := cur + [rest[0]];
      assert Parent(next) == cur;
      if next !in t {
        MkdirNew(t, cur, rest, perm);
      } else if t[next].node.Symbolic? {
        var w := Look(t, next, true, false);
        if w.Found? && IsDirAt(t, w.path) { MkdirEffect(t, w.path, rest[1..], perm); }
      } else if t[next].node.Dir? {
        MkdirEffect(t, next, rest[1..], perm);
      }
    }
  }

  ghost predicate MkdirNodes<I>(t: Tree<I>, nodes: map<Path, Node>, top: Path, mode: nat) {
    && (forall q | q in nodes :: q !in t && Under(top, q) && nodes[q] == Dir(mode, 1000, 1000))
    && (forall q | Under(top, q) && q !in t :: q in nodes)
    && (forall q | Under(top, q) && q in t :: IsDirAt(t, q))
  }

  lemma MkdirNew<I>(t: Tree<I>, cur: Path, rest: seq<Name>, perm: nat)
    requires ValidTree(t) && IsDirAt(t, cur) && rest != [] && cur + [rest[0]] !in t
    ensures MkdirNodes(t, NewDirs(cur, rest, perm), cur + rest, if perm == 0 then 0x1ed else perm)
  {
    hide NewDirs;
    var top, next := cur + rest, cur + [rest[0]];
    MissingIsVacant(t, next);
    forall q ensures q in NewDirs(cur, rest, perm) <==> |cur| < |q| && Under(top, q)
             ensures q in NewDirs(cur, rest, perm) ==> NewDirs(cur, rest, perm)[q] == Dir(DirPerm(perm), 1000, 1000) {
      NewDirsAt(cur, rest, perm, q);
    }
    forall q | Under(top, q) ensures if |q| <= |cur| then IsDirAt(t, q) else q !in t {
      if |q| <= |cur| {
        assert cur[..|q|] == top[..|q|];
        ReachedThrough(t, cur, q);
      } else {
        assert q[..|next|] == top[..|next|] == next;
      }
    }
  }

  lemma MkdirKeeps<I, J>(t: Tree<I>, u: Tree<J>, p: Path, perm: nat, r: Result)
    requires ValidTree(t) && Carried(t, u, DecideMkdir(t, [], p, perm), r)
    ensures MkdirsAs(t, u, perm, r)
  {
    hide DecideMkdir, Step, SameTree, GainedDirs;
    MkdirEffect(t, [], p, perm);
    var d := DecideMkdir(t, [], p, perm);
    if r.Ok? {
      if d.effect == Nothing { NothingGained(t, u, r.path, if perm == 0 then 0x1ed else perm); }
      else { GainsDirs(t, u, d.effect.nodes, r.path, if perm == 0 then 0x1ed else perm); }
    }
  }

  lemma NothingGained<I, J>(t: Tree<I>, u: Tree<J>, top: Path, mode: nat)
    requires ValidTree(t) && IsDirAt(t, top) && Step(t, Nothing, u)
    ensures GainedDirs(t, u, top, mode) && IsDirAt(u, top)
  {
    NothingIsSame(t, u);
    assert forall q :: q in u <==> q in t;
    forall q | Under(top, q) ensures q in t { ReachedThrough(t, top, q); }
  }

  lemma {:induction false} DecideMkdirPast<I>(t: Tree<I>, cur: Path, d: seq<Name>, rest: seq<Name>, perm: nat)
    requires ValidTree(t) && IsDirAt(t, cur + d)
    ensures DecideMkdir(t, cur, d + rest, perm) == DecideMkdir(t, cur + d, rest, perm)
    decreases |d|
  {
    if d == [] {
      assert d + rest == rest && cur + d == cur;
    } else {
      var next := cur + [d[0]];
      assert next + d[1..] == cur + d && (d + rest)[1..] == d[1..] + rest && (cur + d)[..|next|] == next;
      ReachedThrough(t, cur + d, next);
      DecideMkdirPast(t, next, d[1..], rest, perm);
    }
  }

  /** Where a mkdir ends: a directory is its own answer; otherwise the first component that is not a
      directory decides. A missing one is made with all the rest, a file is refused, and a link is
      replaced by the directory it leads to. */
  lemma MkdirEnds<I>(t: Tree<I>, d: Path, n: Name, rest: seq<Name>, perm: nat)
    requires ValidTree(t) && IsDirAt(t, d) && !IsDirAt(t, d + [n])
    ensures DecideMkdir(t, [], d, perm).res == Ok(d)
    ensures var here, r := d + [n], DecideMkdir(t, [], d + [n] + rest, perm).res;
            && (here !in t ==> r == Ok(here + rest))
            && (here in t && t[here].node.File? ==> r == Err(Invalid))
            && (here in t && t[here].node.Symbolic? ==>
                  var w := Look(t, here, true, false);
                  r == if w.Failed? then Err(w.error)
                       else if IsDirAt(t, w.path) then DecideMkdir(t, [], w.path + rest, perm).res
                       else Err(Invalid))
  {
    hide Look;
    assert [] + d == d && d + [] == d && d + [n] + rest == d + ([n] + rest) && ([n] + rest)[1..] == rest;
    DecideMkdirPast(t, [], d, [], perm);
    DecideMkdirPast(t, [], d, [n] + rest, perm);
    var here := d + [n];
    if here in t && t[here].node.Symbolic? {
      LookEnds(t, here, true, false);
      var w := Look(t, here, true, false);
      if w.Found? && IsDirAt(t, w.path) {
        assert [] + w.path == w.path;
        DecideMkdirPast(t, [], w.path, rest, perm);
      }
    }
  }

  // ----- every call -----

  /** A call that does what `Decide` says keeps the law of its kind. */
  lemma CallKeeps<I, J>(t: Tree<I>, u: Tree<J>, cwd: Path, call: Call, r: Result)
    requires ValidTree(t) && Carried(t, u, Decide(t, cwd, call), r)
    ensures CallsAs(t, u, cwd, call, r)
  {
    hide Carried, OpensAs, MkdirsAs, SymlinksAs, LinksAs, ChmodsAs, ChownsAs, RemovesAs, RenamesAs;
    match call
    case OpenCall(name, flags, perm, payload) => OpenKeeps(t, u, Resolve(cwd, name), flags, perm, payload, r);
    case MkdirCall(name, perm) => MkdirKeeps(t, u, Resolve(cwd, name), perm, r);
    case SymlinkCall(target, name) => SymlinkKeeps(t, u, target, Resolve(cwd, name), r);
    case LinkCall(src, dst) => LinkKeeps(t, u, Resolve(cwd, src), Resolve(cwd, dst), r);
    case ChmodCall(name, mode) => ChmodKeeps(t, u, Resolve(cwd, name), mode, r);
    case ChownCall(name, uid, gid, follow) => ChownKeeps(t, u, Resolve(cwd, name), uid, gid, follow, r);
    case RemoveCall(name, recursive) => RemoveKeeps(t, u, Resolve(cwd, name), recursive, r);
    case RenameCall(src, dst) => RenameKeeps(t, u, Resolve(cwd, src), Resolve(cwd, dst), r);
  }
}
