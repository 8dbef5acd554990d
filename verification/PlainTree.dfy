/** One plain mutable tree under the calls of the FileSystem interface: the reference that
    OverlayFS must be indistinguishable from (fs/overlay.go:16-34).

    `Decide` reads a tree and says how a call ends and which change it makes; `Step` says what
    a change does to the paths, the nodes and the hard links of a tree. Trees are compared with
    `SameTree`, which ignores how node identities are named.
 */
module PlainTree {
  import opened Paths
  import opened Tree
  import opened MemoryOps

  /** Same paths, same nodes, same hard-link sharing. */
  ghost predicate SameTree<I, J>(a: Tree<I>, b: Tree<J>) {
    && a.Keys == b.Keys
    && (forall p | p in a :: a[p].node == b[p].node)
    && (forall p, q | p in a && q in a :: a[p].id == a[q].id <==> b[p].id == b[q].id)
  }

  datatype Effect =
    | Nothing
    | Puts(nodes: map<Path, Node>)      // new nodes, each with one name
    | Change(path: Path, node: Node)    // a new value for the node at path, under all its names
    | Alias(src: Path, dst: Path)       // a second name for a node
    | Drop(root: Path)                  // a subtree disappears
    | Move(src: Path, dst: Path)        // a subtree gets a new place

  datatype Source = Old(path: Path) | New

  /** Which path of the old tree a path of the new tree stands for. */
  function SourceOf(e: Effect, p: Path): Source {
    match e
    case Puts(nodes) => if p in nodes then New else Old(p)
    case Alias(src, dst) => if p == dst then Old(src) else Old(p)
    case Move(src, dst) => Old(Origin(p, src, dst))
    case _ => Old(p)
  }

  predicate ExistsAfter<I>(t: Tree<I>, e: Effect, p: Path) {
    match e
    case Puts(nodes) => p in t || p in nodes
    case Alias(_, dst) => p in t || p == dst
    case Drop(root) => p in t && !Under(p, root)
    case Move(src, dst) => if Under(p, dst) then src + p[|dst|..] in t else p in t && !Under(p, src)
    case _ => p in t
  }

  predicate NodeAfter<I(==)>(t: Tree<I>, e: Effect, p: Path, node: Node) {
    match SourceOf(e, p)
    case New => e.Puts? && p in e.nodes && node == e.nodes[p]
    case Old(o) => o in t && node == if e.Change? && e.path in t && t[o].id == t[e.path].id then e.node else t[o].node
  }

  predicate SharedAfter<I(==)>(t: Tree<I>, e: Effect, p: Path, q: Path) {
    p == q || (
      var s, r := SourceOf(e, p), SourceOf(e, q);
      s.Old? && r.Old? && s.path in t && r.path in t && t[s.path].id == t[r.path].id)
  }

  /** `u` is `t` after `e`. */
  ghost predicate Step<I, J>(t: Tree<I>, e: Effect, u: Tree<J>) {
    && (forall p :: p in u <==> ExistsAfter(t, e, p))
    && (forall p | p in u :: NodeAfter(t, e, p, u[p].node))
    && (forall p, q | p in u && q in u :: u[p].id == u[q].id <==> SharedAfter(t, e, p, q))
  }

  // ----- the calls -----

  datatype Call =
    | OpenCall(name: Raw, flags: Flags, perm: nat, payload: Bytes)
    | MkdirCall(name: Raw, perm: nat)
    | SymlinkCall(target: Raw, name: Raw)
    | LinkCall(src: Raw, dst: Raw)
    | ChmodCall(name: Raw, mode: nat)
    | ChownCall(name: Raw, uid: nat, gid: nat, follow: bool)
    | RemoveCall(name: Raw, recursive: bool)
    | RenameCall(src: Raw, dst: Raw)

  datatype Decision = Decision(res: Result, effect: Effect)

  function Fail(e: Error): Decision { Decision(Err(e), Nothing) }

  /** Symlinks in the middle are always followed, the last one only when asked. */
  function Look<I>(t: Tree<I>, p: Path, follow: bool, missing: bool): Walked {
    Walk(t, [], p, follow, missing, true, MAX_SYMLINK_DEPTH)
  }

  /** Open, then write `payload` through the handle if it is writable. */
  function DecideOpen<I>(t: Tree<I>, p: Path, flags: Flags, perm: nat, payload: Bytes): Decision {
    var exclusive := flags.create && flags.excl;
    match Look(t, p, !exclusive, flags.create)
    case Failed(e) => Fail(if flags.create then ParentError(e) else e)
    case Missing(q, _) =>
      var data := if flags.write then payload else [];
      Decision(Ok(q), Puts(map[q := File(FilePerm(perm), DEFAULT_OWNER, DEFAULT_OWNER, Data(data))]))
    case Found(q, _) =>
      if exclusive then Fail(Exist)
      else if q !in t || !t[q].node.File? then Fail(Invalid)
      else
        var before := if (flags.trunc && flags.write) || !t[q].node.content.Data? then [] else t[q].node.content.bytes;
        var after := if flags.write then Overwrite(before, if flags.append then |before| else 0, payload) else before;
        Decision(Ok(q), Change(q, t[q].node.(content := Data(after))))
  }

  /** The directories a mkdir adds: every prefix of cur + rest longer than cur. */
  function NewDirs(cur: Path, rest: seq<Name>, perm: nat): map<Path, Node>
    decreases |rest|
  {
    if rest == [] then map[]
    else
      var next := cur + [rest[0]];
      NewDirs(next, rest[1..], perm)[next := Dir(DirPerm(perm), DEFAULT_OWNER, DEFAULT_OWNER)]
  }

  lemma {:induction false} NewDirsAt(cur: Path, rest: seq<Name>, perm: nat, p: Path)
    ensures p in NewDirs(cur, rest, perm) <==> |cur| < |p| && Under(cur + rest, p)
    ensures p in NewDirs(cur, rest, perm) ==>
            NewDirs(cur, rest, perm)[p] == Dir(DirPerm(perm), DEFAULT_OWNER, DEFAULT_OWNER)
    decreases |rest|
  {
    if rest == [] {
      assert cur + rest == cur;
    } else {
      var next := cur + [rest[0]];
      assert next + rest[1..] == cur + rest;
      assert (cur + rest)[..|next|] == next;
      NewDirsAt(next, rest[1..], perm, p);
    }
  }

  function DecideMkdir<I>(t: Tree<I>, cur: Path, rest: seq<Name>, perm: nat): Decision
    decreases |rest|
  {
    if rest == [] then Decision(Ok(cur), Nothing)
    else
      var next := cur + [rest[0]];
      if next !in t then Decision(Ok(cur + rest), Puts(NewDirs(cur, rest, perm)))
      else if t[next].node.Symbolic? then
        match Look(t, next, true, false)
        case Failed(e) => Fail(e)
        case Missing(_, _) => Fail(NotExist)
        case Found(q, _) => if IsDirAt(t, q) then DecideMkdir(t, q, rest[1..], perm) else Fail(Invalid)
      else if !t[next].node.Dir? then Fail(Invalid)
      else DecideMkdir(t, next, rest[1..], perm)
  }

  function DecideSymlink<I>(t: Tree<I>, target: Raw, p: Path): Decision {
    match Look(t, p, false, true)
    case Failed(e) => Fail(ParentError(e))
    case Found(_, _) => Fail(Exist)
    case Missing(q, _) => Decision(Ok(q), Puts(map[q := Symbolic(0x1ff, DEFAULT_OWNER, DEFAULT_OWNER, target)]))
  }

  function DecideLink<I>(t: Tree<I>, src: Path, dst: Path): Decision {
    var w := Look(t, src, false, false);
    if !w.Found? then Fail(NotExist)
    else if w.path !in t || t[w.path].node.Dir? then Fail(Invalid)
    else match Look(t, dst, false, true)
      case Failed(e) => Fail(ParentError(e))
      case Found(_, _) => Fail(Exist)
      case Missing(q, _) => Decision(Ok(q), Alias(w.path, q))
  }

  function DecideChmod<I>(t: Tree<I>, p: Path, mode: nat): Decision {
    match Look(t, p, true, false)
    case Failed(e) => Fail(e)
    case Missing(_, _) => Fail(NotExist)
    case Found(q, _) => if q in t then Decision(Ok(q), Change(q, WithMode(t[q].node, mode))) else Fail(NotExist)
  }

  function DecideChown<I>(t: Tree<I>, p: Path, uid: nat, gid: nat, follow: bool): Decision {
    match Look(t, p, follow, false)
    case Failed(e) => Fail(e)
    case Missing(_, _) => Fail(NotExist)
    case Found(q, _) => if q in t then Decision(Ok(q), Change(q, WithOwner(t[q].node, uid, gid))) else Fail(NotExist)
  }

  function DecideRemove<I>(t: Tree<I>, p: Path, recursive: bool): Decision {
    if p == [] then Fail(Permission)
    else
      var w := Look(t, p, false, false);
      if !w.Found? then Fail(NotExist)
      else if w.path == [] then Fail(Permission)
      else if IsDirAt(t, w.path) && !recursive && Children(t, w.path) != {} then Fail(Invalid)
      else Decision(Ok(w.path), Drop(w.path))
  }

  function DecideRename<I>(t: Tree<I>, src: Path, dst: Path): Decision {
    if src == [] || dst == [] then Fail(Permission)
    else
      var w := Look(t, src, false, false);
      if !w.Found? then Fail(NotExist)
      else match Look(t, dst, false, true)
        case Failed(e) => Fail(ParentError(e))
        case Found(q, _) =>
          if w.path == [] || q == [] then Fail(Permission)
          else if w.path == q then Decision(Ok(q), Nothing)
          else Fail(Exist)
        case Missing(q, _) =>
          if w.path == [] || q == [] then Fail(Permission)
          else if IsDirAt(t, w.path) && Below(q, w.path) then Fail(Invalid)
          else Decision(Ok(q), Move(w.path, q))
  }

  function Decide<I>(t: Tree<I>, cwd: Path, call: Call): Decision {
    match call
    case OpenCall(name, flags, perm, payload) => DecideOpen(t, Resolve(cwd, name), flags, perm, payload)
    case MkdirCall(name, perm) => DecideMkdir(t, [], Resolve(cwd, name), perm)
    case SymlinkCall(target, name) => DecideSymlink(t, target, Resolve(cwd, name))
    case LinkCall(src, dst) => DecideLink(t, Resolve(cwd, src), Resolve(cwd, dst))
    case ChmodCall(name, mode) => DecideChmod(t, Resolve(cwd, name), mode)
    case ChownCall(name, uid, gid, follow) => DecideChown(t, Resolve(cwd, name), uid, gid, follow)
    case RemoveCall(name, recursive) => DecideRemove(t, Resolve(cwd, name), recursive)
    case RenameCall(src, dst) => DecideRename(t, Resolve(cwd, src), Resolve(cwd, dst))
  }

  // ----- sameness is a congruence -----

  lemma {:induction false} WalkSame<I, J>(a: Tree<I>, b: Tree<J>, cur: Path, rest: seq<Name>, follow: bool,
                                          missing: bool, keep: bool, hops: nat)
    requires SameTree(a, b)
    ensures Walk(a, cur, rest, follow, missing, keep, hops) == Walk(b, cur, rest, follow, missing, keep, hops)
    decreases hops, |rest|
  {
    if rest != [] {
      var next := cur + [rest[0]];
      assert next in a <==> next in b;
      if next in a {
        assert a[next].node == b[next].node;
        if a[next].node.Symbolic? {
          if hops > 0 {
            WalkSame(a, b, [], Resolve(cur, a[next].node.target) + rest[1..], !keep || follow, missing, keep, hops - 1);
          }
        } else if a[next].node.Dir? {
          WalkSame(a, b, next, rest[1..], follow, missing, keep, hops);
        }
      }
    }
  }

  lemma ChildrenSame<I, J>(a: Tree<I>, b: Tree<J>, p: Path)
    requires a.Keys == b.Keys
    ensures Children(a, p) == Children(b, p)
  {
    assert forall q :: q in a <==> q in b;
  }

  lemma {:induction false} DecideMkdirSame<I, J>(a: Tree<I>, b: Tree<J>, cur: Path, rest: seq<Name>, perm: nat)
    requires SameTree(a, b)
    ensures DecideMkdir(a, cur, rest, perm) == DecideMkdir(b, cur, rest, perm)
    decreases |rest|
  {
    if rest != [] {
      var next := cur + [rest[0]];
      assert next in a <==> next in b;
      if next in a {
        assert a[next].node == b[next].node;
        WalkSame(a, b, [], next, true, false, true, MAX_SYMLINK_DEPTH);
        var w := Look(a, next, true, false);
        if a[next].node.Symbolic? {
          if w.Found? {
            assert w.path in a <==> w.path in b;
            DecideMkdirSame(a, b, w.path, rest[1..], perm);
          }
        } else {
          DecideMkdirSame(a, b, next, rest[1..], perm);
        }
      }
    }
  }

  // Every call ends alike, with the same change, on trees that are the same.
  lemma DecideSame<I, J>(a: Tree<I>, b: Tree<J>, cwd: Path, call: Call)
    requires SameTree(a, b)
    ensures Decide(a, cwd, call) == Decide(b, cwd, call)
  {
    forall p, follow, missing ensures Look(a, p, follow, missing) == Look(b, p, follow, missing) {
      WalkSame(a, b, [], p, follow, missing, true, MAX_SYMLINK_DEPTH);
    }
    assert forall p :: p in a <==> p in b;
    match call
    case MkdirCall(name, perm) => DecideMkdirSame(a, b, [], Resolve(cwd, name), perm);
    case RemoveCall(name, recursive) =>
      var w := Look(a, Resolve(cwd, name), false, false);
      if w.Found? { ChildrenSame(a, b, w.path); }
    case _ =>
  }

  // A change is deterministic up to sameness.
  lemma StepSame<I, J, K, L>(a: Tree<I>, b: Tree<J>, e: Effect, a': Tree<K>, b': Tree<L>)
    requires SameTree(a, b) && Step(a, e, a') && Step(b, e, b')
    ensures SameTree(a', b')
  {
    forall p ensures p in a' <==> p in b' {
      assert ExistsAfter(a, e, p) <==> ExistsAfter(b, e, p);
    }
    forall p | p in a' ensures a'[p].node == b'[p].node {
      assert NodeAfter(a, e, p, a'[p].node) && NodeAfter(b, e, p, b'[p].node);
    }
    forall p, q | p in a' && q in a' ensures a'[p].id == a'[q].id <==> b'[p].id == b'[q].id {
      assert SharedAfter(a, e, p, q) <==> SharedAfter(b, e, p, q);
    }
  }

  lemma StepTo<I, J, K>(a: Tree<I>, e: Effect, b: Tree<J>, c: Tree<K>)
    requires Step(a, e, b) && SameTree(b, c)
    ensures Step(a, e, c)
  {
    assert forall p :: p in b <==> p in c;
    forall p | p in c ensures NodeAfter(a, e, p, c[p].node) {
      assert NodeAfter(a, e, p, b[p].node);
    }
  }

  lemma StepFrom<I, J, K>(a: Tree<I>, b: Tree<J>, e: Effect, c: Tree<K>)
    requires SameTree(a, b) && Step(b, e, c)
    ensures Step(a, e, c)
  {
    forall p ensures ExistsAfter(a, e, p) <==> ExistsAfter(b, e, p) {}
    forall p | p in c ensures NodeAfter(a, e, p, c[p].node) {
      assert NodeAfter(b, e, p, c[p].node);
    }
    forall p, q | p in c && q in c ensures c[p].id == c[q].id <==> SharedAfter(a, e, p, q) {
      assert SharedAfter(a, e, p, q) <==> SharedAfter(b, e, p, q);
    }
  }

  lemma SameTrans<I, J, K>(a: Tree<I>, b: Tree<J>, c: Tree<K>)
    requires SameTree(a, b) && SameTree(b, c)
    ensures SameTree(a, c)
  {
  }

  // ----- the reference machine -----

  /** Ids of the reference tree: the number of the call that made the node, and where. */
  datatype Tag = Tag(call: nat, path: Path)

  function Apply(t: Tree<Tag>, e: Effect, now: nat): Tree<Tag> {
    match e
    case Nothing => t
    case Puts(nodes) => map p | p in t.Keys + nodes.Keys :: if p in nodes then Cell(Tag(now, p), nodes[p]) else t[p]
    case Change(p, node) => if p in t then SetNode(t, t[p].id, node) else t
    case Alias(src, dst) => if src in t then t[dst := t[src]] else t
    case Drop(root) => Without(t, root)
    case Move(src, dst) => Relabel(t, src, dst)
  }

  ghost predicate Before(t: Tree<Tag>, now: nat) {
    forall p | p in t :: t[p].id.call < now
  }

  /** The change makes sense on this tree. */
  ghost predicate Sensible<I>(t: Tree<I>, e: Effect) {
    match e
    case Nothing => true
    case Puts(nodes) => nodes.Keys !! t.Keys
    case Change(p, node) => p in t
    case Alias(src, dst) => src in t && dst !in t
    case Drop(root) => true
    case Move(src, dst) => Vacant(t, dst) && !Under(dst, src)
  }

  lemma ApplySteps(t: Tree<Tag>, e: Effect, now: nat)
    requires Shared(t) && Before(t, now) && Sensible(t, e)
    ensures Step(t, e, Apply(t, e, now)) && Before(Apply(t, e, now), now + 1)
  {
    if e.Move? {
      ApplyMove(t, e.src, e.dst, now);
    } else if e.Puts? {
      ApplyPuts(t, e.nodes, now);
    }
  }

  lemma ApplyMove(t: Tree<Tag>, src: Path, dst: Path, now: nat)
    requires Before(t, now) && Vacant(t, dst) && !Under(dst, src)
    ensures var u := Apply(t, Move(src, dst), now); Step(t, Move(src, dst), u) && Before(u, now + 1)
  {
    hide Relabel;
    var e := Move(src, dst);
    var u := Apply(t, e, now);
    forall p ensures (p in u <==> ExistsAfter(t, e, p))
        && (p in u ==> u[p] == t[Origin(p, src, dst)] && Origin(p, src, dst) in t) {
      RelabelAt(t, src, dst, p);
    }
  }

  lemma ApplyPuts(t: Tree<Tag>, nodes: map<Path, Node>, now: nat)
    requires Before(t, now) && nodes.Keys !! t.Keys
    ensures var u := Apply(t, Puts(nodes), now); Step(t, Puts(nodes), u) && Before(u, now + 1)
  {
  }

  // What a call decides makes sense on the tree it was decided for.
  lemma DecideSensible<I>(t: Tree<I>, cwd: Path, call: Call)
    requires ValidTree(t)
    ensures Sensible(t, Decide(t, cwd, call).effect)
  {
    forall p, follow, missing
      ensures var w := Look(t, p, follow, missing);
              && (w.Found? ==> w.path in t)
              && (w.Missing? ==> w.path !in t && w.path != [] && IsDirAt(t, Parent(w.path)))
    {
      WalkSound(t, [], p, follow, missing, true, MAX_SYMLINK_DEPTH);
    }
    match call
    case MkdirCall(name, perm) => DecideMkdirSensible(t, [], Resolve(cwd, name), perm);
    case RenameCall(src, dst) =>
      var d := DecideRename(t, Resolve(cwd, src), Resolve(cwd, dst));
      if d.effect.Move? {
        MissingIsVacant(t, d.effect.dst);
        if Under(d.effect.dst, d.effect.src) {
          AncestorOfMissing(t, d.effect.dst, d.effect.src);
        }
      }
    case _ =>
  }

  lemma AncestorOfMissing<I>(t: Tree<I>, p: Path, a: Path)
    requires ValidTree(t) && p !in t && p != [] && IsDirAt(t, Parent(p)) && a in t && Under(p, a)
    ensures IsDirAt(t, a)
  {
    DirParentIsClear(t, p);
    assert p[..|p|] == p;
    assert a == p[..|a|];
  }

  lemma {:induction false} DecideMkdirSensible<I>(t: Tree<I>, cur: Path, rest: seq<Name>, perm: nat)
    requires ValidTree(t) && IsDirAt(t, cur)
    ensures Sensible(t, DecideMkdir(t, cur, rest, perm).effect)
    decreases |rest|
  {
    if rest != [] {
      var next := cur + [rest[0]];
      assert Parent(next) == cur;
      if next !in t {
        MissingIsVacant(t, next);
        forall p | p in NewDirs(cur, rest, perm) ensures p !in t {
          NewDirsAt(cur, rest, perm, p);
          assert p[..|next|] == (cur + rest)[..|next|] == next;
        }
      } else if t[next].node.Symbolic? {
        WalkSound(t, [], next, true, false, true, MAX_SYMLINK_DEPTH);
        var w := Look(t, next, true, false);
        if w.Found? && IsDirAt(t, w.path) {
          DecideMkdirSensible(t, w.path, rest[1..], perm);
        }
      } else if t[next].node.Dir? {
        DecideMkdirSensible(t, next, rest[1..], perm);
      }
    }
  }
}
