/** OverlayFS (fs/overlay.go): a copy-on-write filesystem over a read-only lower tree.

    Every call is proved to end as `PlainTree.Decide` says for the merged view and to change the
    view by exactly the decided step, while entries taken from the lower layer only ever become
    fewer. The lower tree is a constant of the object.
 */
module OverlayFS {
  import opened Paths
  import opened Tree
  import opened Listing
  import opened MemoryOps
  import opened MemoryDirect
  import opened PlainTree
  import opened OverlayView
  import opened OverlaySteps
  import opened OverlayMove
  import opened PlainLaws

  class OverlayFS {
    const lower: Tree<nat>
    var upper: FS
    var cwd: Path
    var tombstones: set<Path>
    var lowerDirs: map<Path, Node>

    function State(): Layers
      reads this
    {
      Layers(lower, upper, tombstones)
    }

    /** The merged tree a caller sees. */
    ghost function View(): Tree<MergedId>
      reads this
    {
      Merge(State())
    }

    ghost predicate Valid()
      reads this
    {
      && Sound(State()) && upper.implicit
      && forall p | p in lowerDirs :: IsDirAt(lower, p) && lowerDirs[p] == lower[p].node
    }

    /** NewOverlay: an empty upper layer, so everything but the root comes from the lower one. */
    constructor (base: Tree<nat>)
      requires ValidTree(base) && Readable(base)
      ensures Valid() && lower == base && cwd == [] && lowerDirs == map[] && tombstones == {}
      ensures View().Keys == base.Keys
      ensures forall p | p in base && p != [] :: View()[p] == Cell(Low(p), base[p].node)
      ensures View()[[]] == Cell(Up(1), EMPTY_TREE[[]].node)
    {
      lower := base;
      upper := NewFS(true);
      cwd := [];
      tombstones := {};
      lowerDirs := map[];
      new;
      forall p | p in base ensures p in View() {
        forall k | 0 <= k < |p| && p[..k] in upper.t ensures upper.t[p[..k]].node.Dir? {}
      }
    }

    // ----- looking things up -----

    /** isHidden: the loop climbs from the name to the root. */
    method IsHidden(name: Path) returns (hidden: bool)
      ensures hidden == Hidden(tombstones, name)
    {
      var current := name;
      while true
        invariant |current| <= |name| && current == name[..|current|]
        invariant forall k | |current| < k <= |name| :: name[..k] !in tombstones
        decreases |current|
      {
        if current in tombstones {
          return true;
        }
        if current == [] {
          return false;
        }
        current := Parent(current);
      }
    }

    /** visibleInfo: the upper layer first, then the lower one unless a tombstone hides it. */
    method VisibleInfoAt(abs: Path) returns (info: Info)
      ensures info == VisibleInfo(State(), abs)
    {
      var above := Lstat(upper.t, abs);
      if above.Found? {
        return if above.path in upper.t then Seen(upper.t[above.path].node, true) else Unseen(NotExist);
      }
      if above.Failed? && above.error != NotExist {
        return Unseen(above.error);
      }
      if above.Missing? {
        return Unseen(NotExist);
      }
      var hidden := IsHidden(abs);
      if hidden {
        return Unseen(NotExist);
      }
      var below := Lstat(lower, abs);
      match below
      case Found(q, _) => return if q in lower then Seen(lower[q].node, false) else Unseen(NotExist);
      case Missing(_, _) => return Unseen(NotExist);
      case Failed(e) => return Unseen(e);
    }

    /** visiblePrefixInfo: the same answer, but a lower directory is remembered. */
    method VisiblePrefixInfo(abs: Path) returns (info: Info)
      requires Valid() && IsDirAt(View(), Parent(abs))
      modifies this`lowerDirs
      ensures Valid() && info == VisibleInfo(State(), abs)
    {
      VisibleIsMerged(State(), abs);
      WaysAreClear(State(), abs);
      var above := Lstat(upper.t, abs);
      if above.Found? {
        return if above.path in upper.t then Seen(upper.t[above.path].node, true) else Unseen(NotExist);
      }
      if above.Failed? && above.error != NotExist {
        return Unseen(above.error);
      }
      if above.Missing? {
        return Unseen(NotExist);
      }
      var hidden := IsHidden(abs);
      if hidden {
        return Unseen(NotExist);
      }
      WalkResolved(lower, abs, false, false, false, MAX_SYMLINK_DEPTH);
      if abs in lowerDirs {
        return Seen(lowerDirs[abs], false);
      }
      var below := Lstat(lower, abs);
      if below.Found? {
        var node := lower[below.path].node;
        if node.Dir? {
          lowerDirs := lowerDirs[abs := node];
        }
        return Seen(node, false);
      }
      return Unseen(if below.Failed? then below.error else NotExist);
    }

    /** visibleComponentInfo */
    method VisibleComponentInfo(abs: Path, isLast: bool) returns (info: Info)
      requires Valid() && IsDirAt(View(), Parent(abs))
      modifies this`lowerDirs
      ensures Valid() && info == VisibleInfo(State(), abs)
    {
      if isLast {
        info := VisibleInfoAt(abs);
      } else {
        info := VisiblePrefixInfo(abs);
      }
    }

    /** readlinkAt: the target is read from the layer the link was seen in. */
    method ReadlinkAt(fromUpper: bool, abs: Path) returns (target: Raw)
      requires Valid() && IsDirAt(View(), Parent(abs))
      requires VisibleInfo(State(), abs).Seen? && VisibleInfo(State(), abs).upper == fromUpper
      requires VisibleInfo(State(), abs).node.Symbolic?
      ensures target == VisibleInfo(State(), abs).node.target
    {
      VisibleIsMerged(State(), abs);
      WaysAreClear(State(), abs);
      WalkResolved(if fromUpper then upper.t else lower, abs, false, false, false, MAX_SYMLINK_DEPTH);
      var layer := if fromUpper then upper.t else lower;
      var at := Lstat(layer, abs);
      target := layer[at.path].node.target;
    }

    /** The body of the loop of resolveMergedDepth: look at one component of the path. */
    method ResolveComponent(current: Path, rest: seq<Name>, followFinal: bool, missing: bool, hops: nat)
      returns (move: Move, info: Info)
      requires Valid() && IsDirAt(View(), current) && rest != []
      modifies this`lowerDirs
      ensures Valid()
      ensures Moves(State(), move, current, rest, followFinal, missing, hops)
      ensures move.Stop? && move.answer.Found? ==> info == VisibleInfo(State(), move.answer.path)
    {
      var next := current + [rest[0]];
      var isLast := |rest| == 1;
      NextIsInView(State(), current, rest[0]);
      info := VisibleComponentInfo(next, isLast);
      if info.Unseen? {
        if info.error != NotExist {
          return Stop(Failed(info.error)), info;
        }
        return Stop(if isLast && missing then Missing(next, hops) else Failed(NotExist)), info;
      }
      if info.node.Symbolic? && (!isLast || followFinal) {
        var target := ReadlinkAt(info.upper, next);
        return Follow(Resolve(current, target) + rest[1..]), info;
      }
      if isLast {
        return Stop(Found(next, hops)), info;
      }
      if !info.node.Dir? {
        return Stop(Failed(Invalid)), info;
      }
      return Descend(next), info;
    }

    /** resolveMergedDepth: the walk of the merged view, and what it found there. */
    method ResolveMergedDepth(abs: Path, followFinal: bool, missing: bool, depth: nat)
      returns (w: Walked, info: Info)
      requires Valid() && depth <= MAX_SYMLINK_DEPTH + 1
      modifies this`lowerDirs
      decreases MAX_SYMLINK_DEPTH + 1 - depth
      ensures Valid()
      ensures w == if depth > MAX_SYMLINK_DEPTH then Failed(Loop)
                   else LayerWalk(State(), [], abs, followFinal, missing, MAX_SYMLINK_DEPTH - depth)
      ensures w.Found? ==> info == VisibleInfo(State(), w.path)
    {
      hide Merge, Sound, Resolve;
      info := Unseen(NotExist);
      if depth > MAX_SYMLINK_DEPTH {
        return Failed(Loop), info;
      }
      var hops := MAX_SYMLINK_DEPTH - depth;
      if abs == [] {
        info := VisibleInfoAt(abs);
        return Found(abs, hops), info;
      }
      ghost var s := State();
      ghost var answer := LayerWalk(s, [], abs, followFinal, missing, hops);
      MergeValid(s);
      var current: Path := [];
      var i := 0;
      while i < |abs|
        invariant 0 <= i < |abs|
        invariant Valid() && State() == s && IsDirAt(Merge(s), current)
        invariant answer == LayerWalk(s, current, abs[i..], followFinal, missing, hops)
        decreases |abs| - i
      {
        var move;
        move, info := ResolveComponent(current, abs[i..], followFinal, missing, hops);
        match move {
          case Stop(result) =>
            return result, info;
          case Follow(resolved) =>
            w, info := ResolveMergedDepth(resolved, followFinal, missing, depth + 1);
            return;
          case Descend(next) =>
            assert abs[i..][1..] == abs[i + 1..];
            current := next;
            i := i + 1;
        }
      }
      assert false;
    }

    method ResolveMerged(abs: Path, followFinal: bool, missing: bool) returns (w: Walked, info: Info)
      requires Valid()
      modifies this`lowerDirs
      ensures Valid() && w == Look(View(), abs, followFinal, missing)
      ensures w.Found? ==> info == VisibleInfo(State(), w.path)
    {
      MergeValid(State());
      LayerWalkIsWalk(State(), [], abs, followFinal, missing, MAX_SYMLINK_DEPTH);
      w, info := ResolveMergedDepth(abs, followFinal, missing, 0);
    }

    // ----- copying up -----

    /** cloneDirNode into the upper layer. */
    method CloneDirNode(dst: Path, node: Node) returns (r: Result)
      requires Direct(upper, dst) && dst !in upper.t && node.Dir?
      modifies this`upper
      ensures r == Ok(dst) && upper == Put(old(upper), dst, node)
    {
      CloneDirDirect(upper, dst, node);
      var made := MemoryOps.MkdirAll(upper, dst, NineBits(node.mode));
      upper := made.fs;
      if made.res.Err? {
        return made.res;
      }
      var moded := MemoryOps.Chmod(upper, dst, node.mode);
      upper := moded.fs;
      if moded.res.Err? {
        return moded.res;
      }
      var owned := MemoryOps.Chown(upper, dst, node.uid, node.gid, false);
      upper := owned.fs;
      return owned.res;
    }

    /** cloneLazyFile: a file that reads its lower source when it is opened. */
    method CloneLazyFile(dst: Path, node: Node, source: Path) returns (r: Result)
      requires Direct(upper, dst) && dst !in upper.t && node.File?
      modifies this`upper
      ensures r == Ok(dst) && upper == Put(old(upper), dst, File(node.mode, node.uid, node.gid, Lazy(source)))
    {
      if dst in upper.t {
        return Err(Exist);
      }
      EnsureParentDirect(upper, dst);
      var parent := EnsureParent(upper, dst);
      upper := parent.fs;
      if parent.res.Err? {
        return parent.res;
      }
      upper := Put(upper, dst, File(node.mode, node.uid, node.gid, Lazy(source)));
      return Ok(dst);
    }

    /** The symlink branch of clonePathWithInfo. */
    method CloneLink(dst: Path, node: Node) returns (r: Result)
      requires Direct(upper, dst) && dst !in upper.t && node.Symbolic?
      modifies this`upper
      ensures r == Ok(dst) && upper == Put(old(upper), dst, Symbolic(0x1ff, node.uid, node.gid, node.target))
    {
      ghost var plain := Symbolic(0x1ff, DEFAULT_OWNER, DEFAULT_OWNER, node.target);
      ghost var before := upper;
      SymlinkDirect(upper, node.target, dst);
      PutFS(upper, dst, plain);
      var made := MemoryOps.Symlink(upper, node.target, dst);
      upper := made.fs;
      if made.res.Err? {
        return made.res;
      }
      MetadataDirect(upper, dst, 0, node.uid, node.gid);
      UpdatePut(before, dst, plain, WithOwner(plain, node.uid, node.gid));
      var owned := MemoryOps.Chown(upper, dst, node.uid, node.gid, false);
      upper := owned.fs;
      return owned.res;
    }

    /** copyUpLowerEntry: the lower non-directory at src becomes an upper node at dst. */
    method CopyUpLowerEntry(src: Path, node: Node, dst: Path) returns (r: Result)
      requires Valid() && src in lower && node == lower[src].node && !node.Dir?
      requires Direct(upper, dst) && dst !in upper.t
      modifies this`upper
      ensures r == Ok(dst)
      ensures exists copy :: Backed(lower, copy) && Meaning(lower, copy) == node && upper == Put(old(upper), dst, copy)
    {
      if !node.File? {
        r := CloneLink(dst, node);
        assert Meaning(lower, Symbolic(0x1ff, node.uid, node.gid, node.target)) == node;
      } else {
        r := CloneLazyFile(dst, node, src);
        assert Meaning(lower, File(node.mode, node.uid, node.gid, Lazy(src))) == node;
      }
    }

    /** One turn of copyUpAncestors. */
    method CopyUpDirectory(current: Path) returns (r: Result)
      requires Valid() && current != [] && IsDirAt(View(), current) && IsDirAt(upper.t, Parent(current))
      modifies this`upper, this`lowerDirs
      ensures Valid() && r.Ok?
      ensures CopiedUp(old(State()), State()) && OnlyDirsAdded(old(State()), State(), current)
      ensures IsDirAt(upper.t, current)
    {
      hide Merge, Sound;
      ghost var s := State();
      SoundUpper(s);
      DirectoryInView(s, current);
      CopiedUpRefl(s, current);
      var info := VisiblePrefixInfo(current);
      if info.upper {
        return Ok(current);
      }
      var below := Lstat(lower, current);
      if !below.Found? {
        return Err(NotExist);
      }
      CopyUpOne(s, current, lower[below.path].node);
      r := CloneDirNode(current, lower[below.path].node);
    }

    /** copyUpAncestors: every directory above abs gets an upper node with its lower metadata. */
    method CopyUpAncestors(abs: Path) returns (r: Result)
      requires Valid() && IsDirAt(View(), Parent(abs))
      modifies this`upper, this`lowerDirs
      ensures Valid() && r.Ok?
      ensures CopiedUp(old(State()), State()) && OnlyDirsAdded(old(State()), State(), Parent(abs))
      ensures IsDirAt(upper.t, Parent(abs))
    {
      var parent := Parent(abs);
      ghost var s0 := State();
      CopiedUpRefl(s0, parent);
      MergeValid(s0);
      var i := 0;
      while i < |parent|
        invariant 0 <= i <= |parent|
        invariant Valid() && CopiedUp(s0, State()) && OnlyDirsAdded(s0, State(), parent)
        invariant IsDirAt(upper.t, parent[..i])
      {
        i := i + 1;
        var current := parent[..i];
        ghost var s := State();
        AncestorInView(s0, s, parent, i);
        r := CopyUpDirectory(current);
        if r.Err? {
          return;
        }
        AddedHigher(s, State(), current, parent);
        CopiedUpTrans(s0, s, State(), parent);
      }
      assert parent[..|parent|] == parent;
      return Ok(parent);
    }

    /** copyUpNode: the lower entry at abs becomes an upper node; a directory comes without its
        children, which stay visible from the lower layer. */
    method CopyUpNode(abs: Path, node: Node) returns (r: Result)
      requires Valid() && FromLower(State(), abs) && abs != [] && node == lower[abs].node
      modifies this`upper, this`lowerDirs
      ensures Valid() && r.Ok?
      ensures CopiedUp(old(State()), State())
      ensures abs in upper.t
    {
      hide Merge, Sound;
      MergeValid(State());
      LowerShows(State(), abs);
      ParentIsDir(View(), abs);
      r := CopyUpAncestors(abs);
      if r.Err? {
        return;
      }
      ghost var s := State();
      SoundUpper(s);
      StillFromLower(old(State()), s, abs);
      if node.Dir? {
        CopyUpOne(s, abs, node);
        r := CloneDirNode(abs, node);
      } else {
        r := CopyUpLowerEntry(abs, node, abs);
        ghost var copy :| Backed(lower, copy) && Meaning(lower, copy) == node && upper == Put(s.upper, abs, copy);
        CopyUpOne(s, abs, copy);
      }
      CopiedUpTrans(old(State()), s, State(), Parent(abs));
    }

    // ----- the calls -----

    method Symlink(target: Raw, linkName: Raw) returns (r: Result)
      requires Valid()
      modifies this`upper, this`lowerDirs, this`tombstones
      ensures Valid()
      ensures Answers(old(State()), State(), DecideSymlink(old(View()), target, Resolve(cwd, linkName)), r)
    {
      hide Merge, Sound, Step, Shrinks, SameTree, Walk, VisibleInfo, ValidFS;
      ghost var s0, d := State(), DecideSymlink(View(), target, Resolve(cwd, linkName));
      var requested := Resolve(cwd, linkName);
      var w, info := ResolveMerged(requested, false, true);
      LookInView(s0, requested, false, true);
      if w.Failed? {
        Refusal(s0, d, ParentError(w.error));
        return Err(ParentError(w.error));
      }
      if w.Found? {
        Refusal(s0, d, Exist);
        return Err(Exist);
      }
      var abs := w.path;
      r := CopyUpAncestors(abs);
      if r.Err? {
        return;
      }
      ghost var s1 := State();
      ghost var node := Symbolic(0x1ff, DEFAULT_OWNER, DEFAULT_OWNER, target);
      AddedToView(s0, s1, abs, node);
      SymlinkDirect(upper, target, abs);
      var made := MemoryOps.Symlink(upper, target, abs);
      upper := made.fs;
      if made.res.Err? {
        return made.res;
      }
      ghost var s2 := State();
      ClearTombstonesUnder(abs);
      ClearedAnswer(s0, s2, abs, Puts(map[abs := node]));
      return Ok(abs);
    }

    /** clearTombstonesUnder */
    method ClearTombstonesUnder(name: Path)
      modifies this`tombstones
      ensures tombstones == Cleared(old(tombstones), name)
      ensures forall q :: q in tombstones <==> q in old(tombstones) && !Under(q, name)
    {
      var todo := tombstones;
      while todo != {}
        invariant todo <= old(tombstones)
        invariant tombstones == set d | d in old(tombstones) && (d in todo || !Under(d, name))
        decreases |todo|
      {
        var candidate :| candidate in todo;
        if Under(candidate, name) {
          tombstones := tombstones - {candidate};
        }
        todo := todo - {candidate};
      }
    }

    method Link(oldName: Raw, newName: Raw) returns (r: Result)
      requires Valid()
      modifies this`upper, this`lowerDirs, this`tombstones
      ensures Valid()
      ensures Answers(old(State()), State(), DecideLink(old(View()), Resolve(cwd, oldName), Resolve(cwd, newName)), r)
    {
      hide Merge, Sound, Step, Shrinks, SameTree, Walk, VisibleInfo, ValidFS;
      ghost var s0, d := State(), DecideLink(View(), Resolve(cwd, oldName), Resolve(cwd, newName));
      var v, info := ResolveMerged(Resolve(cwd, oldName), false, false);
      LookInView(s0, Resolve(cwd, oldName), false, false);
      if !v.Found? {
        Refusal(s0, d, NotExist);
        return Err(NotExist);
      }
      var oldAbs := v.path;
      if info.node.Dir? {
        Refusal(s0, d, Invalid);
        return Err(Invalid);
      }
      var w, newInfo := ResolveMerged(Resolve(cwd, newName), false, true);
      LookInView(s0, Resolve(cwd, newName), false, true);
      if w.Failed? {
        Refusal(s0, d, ParentError(w.error));
        return Err(ParentError(w.error));
      }
      if w.Found? {
        Refusal(s0, d, Exist);
        return Err(Exist);
      }
      r := LinkTo(oldAbs, info, w.path);
    }

    /** The second half of Link, once both names are resolved. */
    method LinkTo(oldAbs: Path, info: Info, newAbs: Path) returns (r: Result)
      requires Valid()
      requires oldAbs in View() && !View()[oldAbs].node.Dir?
      requires info == VisibleInfo(State(), oldAbs) && info.Seen? && (info.upper <==> oldAbs in upper.t)
      requires !info.upper ==> info.node == lower[oldAbs].node
      requires newAbs != [] && newAbs !in View() && IsDirAt(View(), Parent(newAbs))
      modifies this`upper, this`lowerDirs, this`tombstones
      ensures Valid()
      ensures Answers(old(State()), State(), Decision(Ok(newAbs), Alias(oldAbs, newAbs)), r)
    {
      hide Merge, Sound, Step, Shrinks, SameTree, Walk, VisibleInfo, ValidFS;
      ghost var s0 := State();
      r := CopyUpAncestors(newAbs);
      if r.Err? {
        return;
      }
      ghost var s1 := State();
      LinkSource(s0, s1, oldAbs, newAbs);
      if !info.upper {
        var above := Lstat(upper.t, oldAbs);
        if above == Failed(NotExist) {
          r := CopyUpNode(oldAbs, info.node);
          if r.Err? {
            return;
          }
        }
        CopiedUpTrans(s0, s1, State(), []);
      }
      ghost var s2 := State();
      LinkedInView(s0, s2, oldAbs, newAbs);
      var made := MemoryOps.HardLink(upper, oldAbs, newAbs);
      upper := made.fs;
      if made.res.Err? {
        return made.res;
      }
      ghost var s3 := State();
      ClearTombstonesUnder(newAbs);
      ClearedAnswer(s0, s3, newAbs, Alias(oldAbs, newAbs));
      return Ok(newAbs);
    }

    method Chmod(name: Raw, mode: nat) returns (r: Result)
      requires Valid()
      modifies this`upper, this`lowerDirs
      ensures Valid()
      ensures Answers(old(State()), State(), DecideChmod(old(View()), Resolve(cwd, name), mode), r)
    {
      hide Merge, Sound, Step, Shrinks, SameTree, Walk, VisibleInfo, ValidFS;
      ghost var s0, d := State(), DecideChmod(View(), Resolve(cwd, name), mode);
      var requested := Resolve(cwd, name);
      var w, info := ResolveMerged(requested, true, false);
      LookInView(s0, requested, true, false);
      if !w.Found? {
        Refusal(s0, d, if w.Failed? then w.error else NotExist);
        return Err(if w.Failed? then w.error else NotExist);
      }
      r := PrepareChange(w.path, info);
      if r.Err? {
        return;
      }
      ghost var s1, node := State(), WithMode(upper.t[w.path].node, mode);
      UpperNodeInView(s0, s1, w.path);
      ChangedInView(s0, s1, w.path, node);
      MetadataDirect(upper, w.path, mode, 0, 0);
      var out := MemoryOps.Chmod(upper, w.path, mode);
      upper := out.fs;
      return out.res;
    }

    method Chown(name: Raw, uid: nat, gid: nat, follow: bool) returns (r: Result)
      requires Valid()
      modifies this`upper, this`lowerDirs
      ensures Valid()
      ensures Answers(old(State()), State(), DecideChown(old(View()), Resolve(cwd, name), uid, gid, follow), r)
    {
      hide Merge, Sound, Step, Shrinks, SameTree, Walk, VisibleInfo, ValidFS;
      ghost var s0, d := State(), DecideChown(View(), Resolve(cwd, name), uid, gid, follow);
      var requested := Resolve(cwd, name);
      var w, info := ResolveMerged(requested, follow, false);
      LookInView(s0, requested, follow, false);
      if !w.Found? {
        Refusal(s0, d, if w.Failed? then w.error else NotExist);
        return Err(if w.Failed? then w.error else NotExist);
      }
      r := PrepareChange(w.path, info);
      if r.Err? {
        return;
      }
      ghost var s1, node := State(), WithOwner(upper.t[w.path].node, uid, gid);
      UpperNodeInView(s0, s1, w.path);
      ChangedInView(s0, s1, w.path, node);
      MetadataDirect(upper, w.path, 0, uid, gid);
      var out := MemoryOps.Chown(upper, w.path, uid, gid, follow);
      upper := out.fs;
      return out.res;
    }

    /** The copy-up every call makes before it changes an existing entry. */
    method PrepareChange(abs: Path, info: Info) returns (r: Result)
      requires Valid() && abs in View() && info.Seen? && (info.upper <==> abs in upper.t)
      requires !info.upper ==> FromLower(State(), abs) && abs != [] && info.node == lower[abs].node
      modifies this`upper, this`lowerDirs
      ensures Valid() && r.Ok? && CopiedUp(old(State()), State()) && abs in upper.t
    {
      CopiedUpRefl(State(), []);
      r := Ok(abs);
      if !info.upper {
        r := CopyUpNode(abs, info.node);
      }
    }

    // ----- files -----

    static predicate HasWriteIntent(flags: Flags) {
      flags.write || flags.append || flags.create || flags.trunc
    }

    method OpenFile(name: Raw, flags: Flags, perm: nat) returns (r: Result)
      requires Valid()
      modifies this`upper, this`lowerDirs
      ensures Valid()
      ensures Answers(old(State()), State(), DecideOpen(old(View()), Resolve(cwd, name), flags, perm, []), r)
      ensures r.Ok? && HasWriteIntent(flags) ==>
                r.path in upper.t && upper.t[r.path].node.File? && upper.t[r.path].node.content.Data?
                && Merge(State())[r.path].node == upper.t[r.path].node
    {
      hide Merge, Sound, Step, Shrinks, SameTree, Walk, VisibleInfo, ValidFS;
      ghost var s0, d := State(), DecideOpen(View(), Resolve(cwd, name), flags, perm, []);
      var abs := Resolve(cwd, name);
      var exclusive := flags.create && flags.excl;
      var w, info := ResolveMerged(abs, !exclusive, flags.create);
      LookInView(s0, abs, !exclusive, flags.create);
      OpenDecisions(View(), abs, flags, perm, []);
      if w.Failed? {
        var e := if flags.create then ParentError(w.error) else w.error;
        Refusal(s0, d, e);
        return Err(e);
      }
      if exclusive && w.Found? {
        Refusal(s0, d, Exist);
        return Err(Exist);
      }
      if w.Missing? {
        r := CreateFile(w.path, flags, perm);
        return;
      }
      if !info.node.File? {
        Refusal(s0, d, Invalid);
        return Err(Invalid);
      }
      r := OpenExistingFile(w.path, info, flags, perm);
    }

    /** OpenFile on a path the view lacks. */
    method CreateFile(abs: Path, flags: Flags, perm: nat) returns (r: Result)
      requires Valid() && flags.create && abs != [] && abs !in View() && IsDirAt(View(), Parent(abs))
      modifies this`upper, this`lowerDirs
      ensures Valid()
      ensures Answers(old(State()), State(),
                      Decision(Ok(abs),
                          Puts(map[abs := File(FilePerm(perm), DEFAULT_OWNER, DEFAULT_OWNER, Data([]))])), r)
      ensures r.Ok? && r.path in upper.t
              && upper.t[r.path].node == File(FilePerm(perm), DEFAULT_OWNER, DEFAULT_OWNER, Data([]))
      ensures Merge(State())[r.path].node == upper.t[r.path].node
    {
      hide Merge, Sound, Step, Shrinks, SameTree, Walk, VisibleInfo, ValidFS;
      ghost var s0 := State();
      r := CopyUpAncestors(abs);
      if r.Err? {
        return;
      }
      ghost var s1 := State();
      ghost var node := File(FilePerm(perm), DEFAULT_OWNER, DEFAULT_OWNER, Data([]));
      AddedToView(s0, s1, abs, node);
      OpenNewDirect(upper, abs, flags, perm, Provider(lower));
      var out := MemoryOps.OpenFile(upper, abs, flags, perm, Provider(lower));
      upper := out.fs;
      UpperShows(State(), abs);
      return out.res;
    }

    /** OpenFile on a regular file of the view. */
    method OpenExistingFile(abs: Path, info: Info, flags: Flags, perm: nat) returns (r: Result)
      requires Valid() && abs in View() && View()[abs].node.File? && !(flags.create && flags.excl)
      requires info.Seen? && (info.upper <==> abs in upper.t)
      requires !info.upper ==> FromLower(State(), abs) && abs != [] && info.node == lower[abs].node
      modifies this`upper, this`lowerDirs
      ensures Valid()
      ensures var before := if flags.trunc && flags.write then [] else ViewBytes(old(View()), abs);
              Answers(old(State()), State(),
                  Decision(Ok(abs), Change(abs, old(View())[abs].node.(content := Data(before)))), r)
      ensures r == Ok(abs)
      ensures HasWriteIntent(flags) ==>
                r.path in upper.t && upper.t[r.path].node.File? && upper.t[r.path].node.content.Data?
                && Merge(State())[r.path].node == upper.t[r.path].node
    {
      hide Merge, Sound, Step, Shrinks, SameTree, Walk, VisibleInfo, ValidFS;
      ghost var s0 := State();
      if !HasWriteIntent(flags) && !info.upper {
        // The lower layer opens its own file; nothing is recorded above it.
        LowerFileUnchanged(s0, abs);
        return Ok(abs);
      }
      r := PrepareChange(abs, info);
      if r.Err? {
        return;
      }
      ghost var s1 := State();
      OpenUpper(s0, s1, abs, flags, perm);
      ghost var node :=
          upper.t[abs].node.(content := Data(if flags.trunc && flags.write then [] else ViewBytes(Merge(s0), abs)));
      ChangedInView(s0, s1, abs, node);
      var out := MemoryOps.OpenFile(upper, abs, flags, perm, Provider(lower));
      upper := out.fs;
      UpperShows(State(), abs);
      return out.res;
    }

    /** Open for writing and write once through the handle. */
    method WriteFile(name: Raw, flags: Flags, perm: nat, payload: Bytes) returns (r: Result)
      requires Valid()
      modifies this`upper, this`lowerDirs
      ensures Valid()
      ensures Answers(old(State()), State(), DecideOpen(old(View()), Resolve(cwd, name), flags, perm, payload), r)
    {
      hide Merge, Sound, Step, Shrinks, SameTree, Walk, VisibleInfo, ValidFS;
      ghost var s0 := State();
      ghost var e := DecideOpen(View(), Resolve(cwd, name), flags, perm, []).effect;
      LookInView(s0, Resolve(cwd, name), !(flags.create && flags.excl), flags.create);
      OpenDecisions(View(), Resolve(cwd, name), flags, perm, payload);
      r := OpenFile(name, flags, perm);
      if r.Ok? && flags.write {
        UpperShows(State(), r.path);
        NodeAfterStep(s0, State(), e, r.path);
        WrittenInView(s0, State(), r.path, e, flags.append, payload);
        upper := WriteAt(upper, r.path, flags.append, 0, payload);
      }
    }

    // ----- directories -----

    method MkdirAll(name: Raw, perm: nat) returns (r: Result)
      requires Valid()
      modifies this`upper, this`lowerDirs
      ensures Valid()
      ensures Answers(old(State()), State(), DecideMkdir(old(View()), [], Resolve(cwd, name), perm), r)
    {
      hide Merge, Sound, Step, Shrinks, SameTree, Walk, VisibleInfo, ValidFS;
      var abs := Resolve(cwd, name);
      ghost var s0, d := State(), DecideMkdir(View(), [], abs, perm);
      var current: Path := [];
      MergeValid(s0);
      var i := 0;
      while i < |abs|
        invariant 0 <= i <= |abs|
        invariant Valid() && State() == s0 && IsDirAt(Merge(s0), current)
        invariant d == DecideMkdir(Merge(s0), current, abs[i..], perm)
      {
        var next := current + [abs[i]];
        NextSeen(s0, current, abs[i]);
        assert abs[i..][1..] == abs[i + 1..];
        var info := VisiblePrefixInfo(next);
        if info.Unseen? {
          r := MakeDirectories(current, abs[i..], perm);
          return;
        }
        if info.node.Symbolic? {
          var w;
          LookInView(s0, next, true, false);
          w, info := ResolveMerged(next, true, false);
          if !w.Found? {
            Refusal(s0, d, if w.Failed? then w.error else NotExist);
            return Err(if w.Failed? then w.error else NotExist);
          }
          next := w.path;
        }
        if !info.node.Dir? {
          Refusal(s0, d, Invalid);
          return Err(Invalid);
        }
        current := next;
        i := i + 1;
      }
      NothingHappened(s0);
      return Ok(current);
    }

    /** The rest of MkdirAll from the first component the view lacks. */
    method MakeDirectories(current: Path, rest: seq<Name>, perm: nat) returns (r: Result)
      requires Valid() && IsDirAt(View(), current) && rest != [] && current + [rest[0]] !in View()
      modifies this`upper, this`lowerDirs
      ensures Valid()
      ensures Answers(old(State()), State(), Decision(Ok(current + rest), Puts(NewDirs(current, rest, perm))), r)
    {
      hide Merge, Sound, Step, Shrinks, SameTree, Walk, VisibleInfo, ValidFS;
      ghost var s0 := State();
      var next := current + [rest[0]];
      assert Parent(next) == current;
      r := CopyUpAncestors(next);
      if r.Err? {
        return;
      }
      ghost var s1 := State();
      AbsentUpstairs(s0, s1, next);
      MkdirInView(s1, current, rest, perm);
      StepAfterCopy(s0, s1, Puts(NewDirs(current, rest, perm)), s1.(upper := MkdirFrom(upper, current, rest, perm).fs));
      SoundParts(s1);
      assert [] + current == current && next + rest[1..] == current + rest;
      MkdirSkips(upper, [], current, rest, perm);
      var out := MemoryOps.MkdirAll(upper, next + rest[1..], perm);
      upper := out.fs;
      return out.res;
    }

    /** ReadDir: the sorted union of the upper names and the unhidden lower names. */
    method ReadDir(requested: Path) returns (r: Result, names: seq<Name>)
      requires Valid()
      modifies this`lowerDirs
      ensures Valid()
      ensures var w := Look(old(View()), requested, true, false);
              && (r.Ok? <==> w.Found? && IsDirAt(old(View()), w.path) && !Troubled(State(), w.path))
              && (r.Ok? ==> r.path == w.path && IsListing(names, Children(old(View()), w.path)))
              && (w.Failed? ==> r == Err(w.error))
              && (w.Found? && IsDirAt(old(View()), w.path) && Troubled(State(), w.path) ==>
                  r == Err(TroubleError(State(), w.path)))
              && (w.Found? && !IsDirAt(old(View()), w.path) && !Blocked(State(), w.path) ==> r == Err(Invalid))
    {
      hide Merge, Sound, Walk, ValidFS, VisibleInfo, Children, Troubled, LowerNames;
      ghost var s0 := State();
      names := [];
      LookInView(s0, requested, true, false);
      var w, info := ResolveMerged(requested, true, false);
      if !w.Found? {
        return Err(if w.Failed? then w.error else NotExist), names;
      }
      var abs := w.path;
      EntryLayers(s0, abs);
      var above := Lstat(upper.t, abs);
      var upperExists := above.Found?;
      if upperExists && !upper.t[above.path].node.Dir? {
        return Err(Invalid), names;
      }
      var hidden := IsHidden(abs);
      if !upperExists && hidden {
        return Err(NotExist), names;
      }
      var below := Lstat(lower, abs);
      if below.Failed? && below.error != NotExist {
        BlockedIsTrouble(s0, abs);
        return Err(below.error), names;
      }
      var lowerExists := below.Found?;
      if lowerExists && !upperExists && !lower[below.path].node.Dir? {
        return Err(Invalid), names;
      }
      if !upperExists && !lowerExists {
        return Err(NotExist), names;
      }
      ListingInView(s0, abs);
      var entries: set<Name> := {};
      if upperExists {
        entries := ReadNames(upper.t, abs).names;
      }
      if lowerExists && abs !in tombstones {
        var listed := ReadNames(lower, abs);
        if listed.NoNames? {
          NoNamesIsTrouble(s0, abs);
          return Err(listed.error), names;
        }
        entries := AddVisible(abs, listed.names, entries);
      }
      NoTrouble(s0, abs);
      LowerNamesAre(s0, abs);
      names := Sort(entries);
      return Ok(abs), names;
    }

    /** The loop of ReadDir over the lower entries: hidden names and known names are skipped. */
    method AddVisible(abs: Path, listed: set<Name>, known: set<Name>) returns (entries: set<Name>)
      ensures entries == known + set n | n in listed && !Hidden(tombstones, abs + [n])
    {
      entries := known;
      var todo := listed;
      while todo != {}
        invariant todo <= listed
        invariant entries == known + set n | n in listed - todo && !Hidden(tombstones, abs + [n])
        decreases |todo|
      {
        var n :| n in todo;
        var hidden := IsHidden(abs + [n]);
        todo := todo - {n};
        if hidden || n in entries {
          continue;
        }
        entries := entries + {n};
      }
      assert listed - todo == listed;
    }

    method Readlink(name: Raw) returns (r: Result, target: Raw)
      requires Valid()
      modifies this`lowerDirs
      ensures Valid()
      ensures var w := Look(old(View()), Resolve(cwd, name), false, false);
              && (r.Ok? <==> w.Found? && w.path in old(View()) && old(View())[w.path].node.Symbolic?)
              && (r.Ok? ==> r.path == w.path && target == old(View())[w.path].node.target)
              && (r.Err? ==> r == Err(if w.Failed? then w.error else Invalid))
    {
      hide Merge, Sound, Walk, ValidFS;
      LookInView(State(), Resolve(cwd, name), false, false);
      target := Raw(false, []);
      var w, info := ResolveMerged(Resolve(cwd, name), false, false);
      if !w.Found? {
        return Err(if w.Failed? then w.error else NotExist), target;
      }
      if !info.node.Symbolic? {
        return Err(Invalid), target;
      }
      target := ReadlinkAt(info.upper, w.path);
      return Ok(w.path), target;
    }

    /** Realpath: the resolved path, every symlink followed. */
    method Realpath(name: Raw) returns (r: Result)
      requires Valid()
      modifies this`lowerDirs
      ensures Valid()
      ensures var w := Look(old(View()), Resolve(cwd, name), true, false);
              r == match w case Found(q, _) => Ok(q) case Missing(_, _) => Err(NotExist) case Failed(e) => Err(e)
    {
      hide Merge, Sound, Walk, ValidFS;
      var w, info := ResolveMerged(Resolve(cwd, name), true, false);
      match w
      case Found(q, _) => return Ok(q);
      case Missing(_, _) => return Err(NotExist);
      case Failed(e) => return Err(e);
    }

    method Chdir(name: Raw) returns (r: Result)
      requires Valid()
      modifies this`lowerDirs, this`cwd
      ensures Valid()
      ensures var w := Look(old(View()), Resolve(old(cwd), name), true, false);
              && (r.Ok? <==> w.Found? && IsDirAt(old(View()), w.path))
              && (r.Err? ==> r == Err(if w.Failed? then NotExist else Invalid))
              && cwd == if r.Ok? then Resolve(old(cwd), name) else old(cwd)
    {
      hide Merge, Sound, Walk, ValidFS;
      LookInView(State(), Resolve(cwd, name), true, false);
      var abs := Resolve(cwd, name);
      var w, info := ResolveMerged(abs, true, false);
      if !w.Found? {
        return Err(NotExist);
      }
      if !info.node.Dir? {
        return Err(Invalid);
      }
      cwd := abs;
      return Ok(abs);
    }

    // ----- removing and renaming -----

    /** Remove. It departs from the plain tree when the lower layer cannot answer: after the
        removal, so that the entry is gone but an error is reported, or before it, when the
        directory must be listed. */
    method Remove(requested: Path, recursive: bool) returns (r: Result)
      requires Valid()
      modifies this`upper, this`lowerDirs, this`tombstones
      ensures Valid()
      ensures RemoveAnswers(old(State()), State(), requested, recursive, r)
      ensures r.Ok? || RemoveFate(old(State()), requested, recursive).AsDecided? ==>
                RemovesAs(old(View()), View(), requested, recursive, r)
      ensures RemoveFate(old(State()), requested, recursive).Reported? ==>
                var w := Look(old(View()), requested, false, false);
                && w.Found? && w.path != [] && Lost(old(View()), View(), w.path)
                && (recursive || !exists q :: q in old(View()) && Below(q, w.path))
      ensures RemoveFate(old(State()), requested, recursive).Declined? ==> SameTree(View(), old(View()))
    {
      hide Merge, Sound, SameTree, Look, RemoveFate, Ends, RemovesAs, Lost;
      ghost var s0 := State();
      r := RemoveRequested(requested, recursive);
      RemovalShown(s0, State(), requested, recursive, r);
    }

    method RemoveRequested(requested: Path, recursive: bool) returns (r: Result)
      requires Valid()
      modifies this`upper, this`lowerDirs, this`tombstones
      ensures Valid()
      ensures RemoveAnswers(old(State()), State(), requested, recursive, r)
    {
      hide Merge, Sound, Step, Shrinks, SameTree, Walk, VisibleInfo, ValidFS, Children, Troubled;
      ghost var s0, d := State(), DecideRemove(View(), requested, recursive);
      if requested == [] {
        Refusal(s0, d, Permission);
        return Err(Permission);
      }
      LookInView(s0, requested, false, false);
      var w, info := ResolveMerged(requested, false, false);
      if !w.Found? {
        Refusal(s0, d, NotExist);
        return Err(NotExist);
      }
      var abs := w.path;
      if abs == [] {
        Refusal(s0, d, Permission);
        return Err(Permission);
      }
      if info.node.Dir? && !recursive {
        DirectoryFound(s0, abs);
        var listed, names := ReadDir(abs);
        if listed.Err? {
          RemovalDeclined(s0, requested);
          return listed;
        }
        if names != [] {
          SomeNames(names, Children(Merge(s0), abs));
          Refusal(s0, d, Invalid);
          return Err(Invalid);
        }
        NoNamesLeft(names, Children(Merge(s0), abs));
      }
      if !info.node.Dir? {
        LeafHasNothingBelow(s0, abs);
      }
      r := RemoveEntry(abs, info.upper, recursive);
      RemovalDone(s0, State(), requested, recursive, r);
    }

    /** The second half of Remove, once the entry may go. */
    method RemoveEntry(abs: Path, inUpper: bool, recursive: bool) returns (r: Result)
      requires Valid() && abs in View() && abs != [] && (inUpper <==> abs in upper.t)
      requires recursive || Children(View(), abs) == {}
      modifies this`upper, this`tombstones
      ensures Valid()
      ensures Step(old(View()), Drop(abs), View()) && Shrinks(old(State()), State())
      ensures r == if Blocked(old(State()), abs) then Err(Lstat(lower, abs).error) else Ok(abs)
    {
      hide Merge, Sound, Step, Shrinks, SameTree, Walk, VisibleInfo, ValidFS, Children;
      ghost var s0 := State();
      var below := Lstat(lower, abs);
      RemovalStep(s0, abs, recursive);
      if inUpper {
        var removed := MemoryOps.Remove(upper, abs, recursive);
        upper := removed.fs;
        if removed.res != Ok(abs) && removed.res != Err(NotExist) {
          return removed.res;
        }
      }
      if below.Failed? && below.error != NotExist {
        return Err(below.error);
      }
      if below.Found? {
        tombstones := tombstones + {abs};
      }
      return Ok(abs);
    }

    /** Rename. A success has moved exactly the subtree of the view; a refusal has changed nothing; and
        Exist means that both names are there. A rename that stops half way reports an error. */
    method Rename(oldName: Raw, newName: Raw) returns (r: Result)
      requires Valid()
      modifies this`upper, this`lowerDirs, this`tombstones
      ensures Valid()
      ensures RenameAnswers(old(State()), State(), Resolve(cwd, oldName), Resolve(cwd, newName), r)
      ensures r.Ok? || RenameFate(old(State()), Resolve(cwd, oldName), Resolve(cwd, newName)).AsDecided? ==>
                RenamesAs(old(View()), View(), Resolve(cwd, oldName), Resolve(cwd, newName), r)
      ensures r.Ok? ==> Arrives(old(View()), View(), Resolve(cwd, oldName), r.path)
      ensures r == Err(Exist) <==> RenameRefused(old(View()), Resolve(cwd, oldName), Resolve(cwd, newName))
    {
      hide Merge, Sound, Look, RenameFate, RenameRefused, Ends, RenamesAs, Arrives;
      ghost var s0 := State();
      r := RenameRequested(Resolve(cwd, oldName), Resolve(cwd, newName));
      RenameShown(s0, State(), Resolve(cwd, oldName), Resolve(cwd, newName), r);
    }

    method RenameRequested(oldRequested: Path, newRequested: Path) returns (r: Result)
      requires Valid()
      modifies this`upper, this`lowerDirs, this`tombstones
      ensures Valid()
      ensures RenameAnswers(old(State()), State(), oldRequested, newRequested, r)
    {
      hide Merge, Sound, Step, Shrinks, SameTree, Walk, VisibleInfo, ValidFS, Listable;
      ghost var s0, d := State(), DecideRename(View(), oldRequested, newRequested);
      if oldRequested == [] || newRequested == [] {
        Refusal(s0, d, Permission);
        return Err(Permission);
      }
      LookInView(s0, oldRequested, false, false);
      LookInView(s0, newRequested, false, true);
      var v, info := ResolveMerged(oldRequested, false, false);
      if !v.Found? {
        Refusal(s0, d, NotExist);
        return Err(NotExist);
      }
      var w, newInfo := ResolveMerged(newRequested, false, true);
      if w.Failed? {
        Refusal(s0, d, ParentError(w.error));
        return Err(ParentError(w.error));
      }
      var oldAbs, newAbs := v.path, w.path;
      if oldAbs == [] || newAbs == [] {
        Refusal(s0, d, Permission);
        return Err(Permission);
      }
      if oldAbs == newAbs {
        SameNameAnswer(s0, d, newAbs);
        return Ok(newAbs);
      }
      if w.Found? {
        Refusal(s0, d, Exist);
        return Err(Exist);
      }
      if info.node.Dir? && Below(newAbs, oldAbs) {
        Refusal(s0, d, Invalid);
        return Err(Invalid);
      }
      r := RenameEntry(oldAbs, info, newAbs);
    }

    /** The second half of Rename: copy the destination's ancestors up, move, remove the source. */
    method RenameEntry(oldAbs: Path, info: Info, newAbs: Path) returns (r: Result)
      requires Valid() && oldAbs in View() && oldAbs != [] && newAbs != [] && newAbs !in View()
      requires IsDirAt(View(), Parent(newAbs)) && (IsDirAt(View(), oldAbs) ==> !Below(newAbs, oldAbs))
      requires info == VisibleInfo(State(), oldAbs)
      modifies this`upper, this`lowerDirs, this`tombstones
      ensures Valid()
      ensures r.Ok? <==> Listable(old(State()), oldAbs)
      ensures r.Err? ==> LookupError(r.error)
      ensures r.Ok? ==> Answers(old(State()), State(), Decision(Ok(newAbs), Move(oldAbs, newAbs)), r)
    {
      hide Merge, Sound, Step, Shrinks, SameTree, Walk, VisibleInfo, ValidFS, MovedPart, Movable, Listable, Troubled;
      ghost var s := State();
      r := CopyUpAncestors(newAbs);
      if r.Err? {
        return;
      }
      ghost var s0 := State();
      DestinationIsFree(s, s0, oldAbs, newAbs);
      ListableSame(s, s0, oldAbs);
      SourceSeen(s0, oldAbs);
      var info0 := VisibleInfoAt(oldAbs);
      r := MoveMerged(oldAbs, info0, newAbs, SubtreeOf(Merge(s0), oldAbs));
      if r.Err? {
        return;
      }
      ghost var s1 := State();
      SourceStays(s0, s1, oldAbs, newAbs);
      MovedSound(s0, s1, oldAbs, newAbs);
      RemovalGoesThrough(s0, s1, oldAbs, newAbs);
      r := Remove(oldAbs, true);
      if r.Err? && r.error != NotExist {
        return;
      }
      RenamedInView(s, s0, s1, State(), oldAbs, newAbs);
      return Ok(newAbs);
    }

    /** moveMerged: recreate the merged entry at src under dst in the upper layer. */
    method MoveMerged(src: Path, info: Info, dst: Path, ghost below: set<Path>) returns (r: Result)
      requires Valid() && Movable(State(), src, dst)
      requires info == VisibleInfo(State(), src) && info.Seen? && below == SubtreeOf(View(), src)
      modifies this`upper, this`lowerDirs
      decreases below
      ensures Valid()
      ensures r.Ok? <==> Listable(old(State()), src)
      ensures r.Err? ==> LookupError(r.error)
      ensures r.Ok? ==> MovedAll(old(State()), State(), src, dst)
    {
      hide Merge, Sound, Walk, VisibleInfo, ValidFS, MovedPart, Movable, Listable, Troubled, Children, Kept;
      ghost var s0 := State();
      MovableSource(s0, src, dst);
      if !info.node.Dir? {
        LeafListable(s0, src);
        if info.upper {
          MoveUpperLeaf(s0, src, dst);
          var out := MemoryOps.Rename(upper, src, dst);
          upper := out.fs;
          MovedSound(s0, State(), src, dst);
          return out.res;
        }
        r := CopyUpLowerEntry(src, info.node, dst);
        ghost var copy :| Backed(lower, copy) && Meaning(lower, copy) == info.node && upper == Put(s0.upper, dst, copy);
        MoveLowerLeaf(s0, src, dst, copy);
        MovedSound(s0, State(), src, dst);
        return;
      }
      r := MoveDirectory(src, info.node, dst, below);
    }

    /** The directory case of moveMerged. */
    method MoveDirectory(src: Path, node: Node, dst: Path, ghost below: set<Path>) returns (r: Result)
      requires Valid() && Movable(State(), src, dst)
      requires IsDirAt(View(), src) && View()[src].node == node && below == SubtreeOf(View(), src)
      modifies this`upper, this`lowerDirs
      decreases below, 0
      ensures Valid()
      ensures r.Ok? <==> Listable(old(State()), src)
      ensures r.Err? ==> LookupError(r.error)
      ensures r.Ok? ==> MovedAll(old(State()), State(), src, dst)
    {
      hide Merge, Sound, Walk, VisibleInfo, ValidFS, MovedPart, Movable, Listable, Troubled, Children, Kept;
      ghost var s0 := State();
      MovableSource(s0, src, dst);
      MoveDirStart(s0, src, dst, node);
      r := CloneDirNode(dst, node);
      if r.Err? {
        return;
      }
      ghost var s1 := State();
      PartSound(s0, s1, src, dst, {});
      StartListing(s0, s1, src, dst);
      var listed, names := ReadDir(src);
      if listed.Err? {
        ListingRefused(s0, src);
        return listed;
      }
      SubtreeShrinks(Merge(s0), src);
      ghost var done: set<Name> := {};
      var i := 0;
      while i < |names|
        invariant 0 <= i <= |names|
        invariant Valid() && MovedPart(s0, State(), src, dst, done)
        invariant done == (set j | 0 <= j < i :: names[j])
        invariant forall n | n in done :: Listable(s0, src + [n])
      {
        ghost var s := State();
        var n := names[i];
        NextChild(s0, s, src, dst, names, i, done);
        var childInfo := VisibleInfoAt(src + [n]);
        r := MoveMerged(src + [n], childInfo, dst + [n], SubtreeOf(Merge(s), src + [n]));
        ChildListable(s0, s, src, dst, done, n);
        if r.Err? {
          ParentUnlistable(s0, src, n);
          return;
        }
        MoveDirStep(s0, s, State(), src, dst, done, n);
        PartSound(s0, State(), src, dst, done + {n});
        done := done + {n};
        i := i + 1;
      }
      AllDone(s0, src, names, done);
      return Ok(dst);
    }
  }
}
