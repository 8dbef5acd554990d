/** The policy layer's own path resolution (policy/pathcheck.go), which must land where the backend
    lands when it creates or changes something.

    A backend is a tree with its resolvers; `keep` says which kind it is (see Tree.Walk). The
    policy never sees the backend's create path: it rebuilds it from Realpath, Lstat and Readlink.
 */
module Policy {
  import opened Paths
  import opened Tree
  import opened MemoryOps
  import opened WalkLaws

  const MAX_SYMLINK_HOPS: nat := 40

  function Realpath<I>(t: Tree<I>, p: Path, keep: bool): Walked {
    Walk(t, [], p, true, false, keep, MAX_SYMLINK_DEPTH)
  }

  function Lstat<I>(t: Tree<I>, p: Path, keep: bool): Walked {
    Walk(t, [], p, false, false, keep, MAX_SYMLINK_DEPTH)
  }

  /** resolveMaybeMissing */
  function ResolveMaybeMissing<I>(t: Tree<I>, target: Path, followFinal: bool, hops: nat, keep: bool): Result
    decreases MAX_SYMLINK_HOPS + 1 - hops, |target|
  {
    if hops > MAX_SYMLINK_HOPS then Err(Loop)
    else
      var direct := Realpath(t, target, keep);
      if followFinal && direct.Found? then Ok(direct.path)
      else if followFinal && direct.Failed? && direct.error != NotExist then Err(direct.error)
      else if target == [] then Ok([])
      else
        match ResolveMaybeMissing(t, Parent(target), true, hops, keep)
        case Err(e) => Err(e)
        case Ok(parent) =>
          var candidate := parent + [Base(target)];
          if !followFinal then Ok(candidate)
          else
            match Lstat(t, candidate, keep)
            case Failed(e) => if e == NotExist then Ok(candidate) else Err(e)
            case Missing(_, _) => Ok(candidate)
            case Found(q, _) =>
              if q !in t || !t[q].node.Symbolic? then Ok(candidate)
              else ResolveMaybeMissing(t, Resolve(parent, t[q].node.target), true, hops + 1, keep)
  }

  // ----- hops -----

  // More hops than needed change nothing.
  lemma {:induction false} SpareHops<I>(t: Tree<I>, cur: Path, rest: seq<Name>, hops: nat, spare: nat)
    requires CreateWalk(t, cur, rest, hops).At?
    ensures var c := CreateWalk(t, cur, rest, hops);
            CreateWalk(t, cur, rest, hops + spare) == At(c.path, c.left + spare)
    decreases hops, |rest|
  {
    hide Resolve;
    if rest != [] {
      var next := cur + [rest[0]];
      if next in t {
        if t[next].node.Symbolic? {
          SpareHops(t, [], Resolve(cur, t[next].node.target) + rest[1..], hops - 1, spare);
        } else if |rest| > 1 {
          SpareHops(t, next, rest[1..], hops, spare);
        }
      }
    }
  }

  // ----- the policy lands where the backend creates -----

  // What Lstat of a name under a resolved parent sees.
  lemma LstatResolved<I>(t: Tree<I>, r: Path, last: Name, keep: bool)
    requires ValidTree(t) && ClearWay(t, r) && (r in t ==> t[r].node.Dir?)
    ensures var c := r + [last];
            Lstat(t, c, keep) == if c in t then Found(c, MAX_SYMLINK_DEPTH) else Failed(NotExist)
  {
    var c := r + [last];
    forall k | 0 <= k < |c| && c[..k] in t ensures t[c[..k]].node.Dir? {
      assert c[..k] == if k < |r| then r[..k] else r;
    }
    WalkResolved(t, c, false, false, keep, MAX_SYMLINK_DEPTH);
  }

  // Through dangling and nested links: `hops` is what the create walk may still use, `used` what
  // the policy has counted.
  lemma {:induction false} FollowsCreate<I>(t: Tree<I>, p: Path, hops: nat, used: nat, keep: bool)
    requires ValidTree(t) && hops + used <= MAX_SYMLINK_HOPS && CreateWalk(t, [], p, hops).At?
    ensures ResolveMaybeMissing(t, p, true, used, keep) == Ok(CreateWalk(t, [], p, hops).path)
    decreases hops, |p|
  {
    hide Resolve, Walk, CreateWalk;
    var c := CreateWalk(t, [], p, hops);
    SpareHops(t, [], p, hops, MAX_SYMLINK_DEPTH - hops);
    WalkFollowsCreate(t, [], p, keep, MAX_SYMLINK_DEPTH);
    if c.path !in t {
      CreateWalkOnce(t, [], p, hops);
      var parent, last := Parent(p), Base(p);
      assert p == parent + [last];
      CreateWalkContinues(t, [], parent, last, hops);
      FollowsCreate(t, parent, hops, used, keep);
      var r := CreateWalk(t, [], parent, hops);
      CreateWalkClear(t, [], parent, hops);
      LstatResolved(t, r.path, last, keep);
      CreateWalkOnce(t, r.path, [last], r.left);
      CreateWalkSound(t, [], parent, hops);
      var candidate := r.path + [last];
      if candidate in t && t[candidate].node.Symbolic? {
        var next := Resolve(r.path, t[candidate].node.target);
        assert next + [last][1..] == next;
        FollowsCreate(t, next, r.left - 1, used + 1, keep);
      }
    }
  }

  /** The policy's answer is the backend's create path, error for error, for every path. */
  lemma AgreesWithCreate<I>(t: Tree<I>, p: Path, keep: bool)
    requires ValidTree(t)
    ensures ResolveMaybeMissing(t, p, true, 0, keep) ==
            (match CreateWalk(t, [], p, MAX_SYMLINK_DEPTH) case At(q, _) => Ok(q) case Refused(e) => Err(e))
  {
    hide Resolve, Walk, CreateWalk;
    var c := CreateWalk(t, [], p, MAX_SYMLINK_DEPTH);
    if c.At? {
      FollowsCreate(t, p, MAX_SYMLINK_DEPTH, 0, keep);
    } else {
      WalkFollowsCreate(t, [], p, keep, MAX_SYMLINK_DEPTH);
      RefusalIsNotMissing(t, [], p, MAX_SYMLINK_DEPTH);
    }
  }

  lemma {:induction false} RefusalIsNotMissing<I>(t: Tree<I>, cur: Path, rest: seq<Name>, hops: nat)
    ensures var c := CreateWalk(t, cur, rest, hops); c.Refused? ==> c.error != NotExist
    decreases hops, |rest|
  {
    hide Resolve;
    if rest != [] {
      var next := cur + [rest[0]];
      if next in t {
        if t[next].node.Symbolic? {
          if hops > 0 { RefusalIsNotMissing(t, [], Resolve(cur, t[next].node.target) + rest[1..], hops - 1); }
        } else if |rest| > 1 && t[next].node.Dir? {
          RefusalIsNotMissing(t, next, rest[1..], hops);
        }
      }
    }
  }

  // ----- operations on the entry itself -----

  // A walk decides its last component where the create path of the parent ended. A backend that
  // does not keep the caller's flag has switched to following once any link was met on the way.
  lemma {:induction false} WalkContinues<I>(t: Tree<I>, cur: Path, init: seq<Name>, last: Name, follow: bool,
                                            keep: bool, hops: nat)
    requires ValidTree(t) && IsDirAt(t, cur)
    requires var c := CreateWalk(t, cur, init, hops); c.At? && IsDirAt(t, c.path)
    ensures var c := CreateWalk(t, cur, init, hops);
            && c.left <= hops
            && Walk(t, cur, init + [last], follow, true, keep, hops) ==
               Walk(t, c.path, [last], follow || (!keep && c.left < hops), true, keep, c.left)
    decreases hops, |init|
  {
    hide Resolve;
    var rest := init + [last];
    if init == [] {
      assert rest == [last];
    } else {
      var next := cur + [init[0]];
      assert rest[0] == init[0] && rest[1..] == init[1..] + [last];
      assert Under(cur + init, next) by { assert (cur + init)[..|next|] == next; }
      if next !in t {
        MissingIsVacant(t, next);
      } else if t[next].node.Symbolic? {
        var target := Resolve(cur, t[next].node.target);
        assert target + rest[1..] == (target + init[1..]) + [last];
        WalkContinues(t, [], target + init[1..], last, !keep || follow, keep, hops - 1);
      } else {
        WalkContinues(t, next, init[1..], last, follow, keep, hops);
      }
    }
  }

  /** For Lstat, Readlink, Remove and Rename the policy stops at the entry under its resolved parent.
      So does a backend, unless the entry is a symlink, the way to its parent went through another
      one, and the backend does not keep the caller's flag. */
  lemma AgreesOnEntry<I>(t: Tree<I>, p: Path, keep: bool)
    requires ValidTree(t) && p != []
    requires var c := CreateWalk(t, [], Parent(p), MAX_SYMLINK_DEPTH); c.At? && IsDirAt(t, c.path)
    ensures var c := CreateWalk(t, [], Parent(p), MAX_SYMLINK_DEPTH);
            var entry := c.path + [Base(p)];
            var w := Walk(t, [], p, false, true, keep, MAX_SYMLINK_DEPTH);
            && ResolveMaybeMissing(t, p, false, 0, keep) == Ok(entry)
            && ((!w.Failed? && w.path == entry) <==>
                (keep || c.left == MAX_SYMLINK_DEPTH || entry !in t || !t[entry].node.Symbolic?))
  {
    hide Resolve, CreateWalk;
    AgreesWithCreate(t, Parent(p), keep);
    assert p == Parent(p) + [Base(p)];
    WalkContinues(t, [], Parent(p), Base(p), false, keep, MAX_SYMLINK_DEPTH);
    var c := CreateWalk(t, [], Parent(p), MAX_SYMLINK_DEPTH);
    var entry := c.path + [Base(p)];
    if entry in t && t[entry].node.Symbolic? && !keep && c.left < MAX_SYMLINK_DEPTH && c.left > 0 {
      WalkSound(t, [], Resolve(c.path, t[entry].node.target) + [Base(p)][1..], true, true, keep, c.left - 1);
    }
  }

  // ----- CheckPath -----

  datatype Action =
    | ReadFile | WriteFile | StatFile | LstatFile | ReadLink | ListDir | MakeDir | RemoveEntry | RenameEntry

  /** The part of a policy that CheckPath asks: which paths it allows for this action, and whether
      a path that goes through a symlink is refused. */
  datatype Rules = Rules(allowed: set<Path>, denySymlinks: bool)

  datatype Verdict = Allowed | Denied | Failing(error: Error)

  /** resolveTarget */
  function ResolveTarget<I>(t: Tree<I>, action: Action, target: Path, keep: bool): Result {
    match action
    case ReadFile | StatFile | ListDir =>
      (match Realpath(t, target, keep)
       case Found(q, _) => Ok(q)
       case Missing(_, _) => Err(NotExist)
       case Failed(e) => Err(e))
    case LstatFile | ReadLink | RemoveEntry | RenameEntry => ResolveMaybeMissing(t, target, false, 0, keep)
    case WriteFile | MakeDir => ResolveMaybeMissing(t, target, true, 0, keep)
  }

  function CheckPath<I>(t: Tree<I>, rules: Rules, action: Action, target: Path, keep: bool): Verdict {
    if target !in rules.allowed then Denied
    else match ResolveTarget(t, action, target, keep)
      case Err(e) => if e == NotExist || e == Invalid then Allowed else Failing(e)
      case Ok(resolved) =>
        if resolved != target && rules.denySymlinks then Denied
        else if resolved != target && resolved !in rules.allowed then Denied
        else Allowed
  }

  /** What an allowed call may touch. */
  predicate Inside(rules: Rules, target: Path, touched: Path) {
    touched in rules.allowed && (rules.denySymlinks ==> touched == target)
  }

  // ----- what CheckPath decides, by the backend's own walks -----

  /** What is answered for a target that resolves to q: it is allowed if and only if the policy allows
      the requested path and the call stays inside. */
  predicate AnswersFor(rules: Rules, target: Path, q: Path, verdict: Verdict) {
    && (verdict == Allowed <==> target in rules.allowed && Inside(rules, target, q))
    && (verdict != Allowed ==> verdict == Denied)
  }

  /** What is answered when the target does not resolve: a missing entry and a file on the way are left
      to the call itself, anything else is reported. */
  predicate AnswersError(rules: Rules, target: Path, e: Error, verdict: Verdict) {
    verdict == if target !in rules.allowed then Denied
               else if e == Loop then Failing(Loop)
               else Allowed
  }

  /** Reading, stating and listing: decided by the followed walk. */
  lemma FollowedVerdict<I>(t: Tree<I>, rules: Rules, action: Action, target: Path, keep: bool)
    requires action in {ReadFile, StatFile, ListDir}
    ensures match Walk(t, [], target, true, false, keep, 40)
            case Found(q, _) => AnswersFor(rules, target, q, CheckPath(t, rules, action, target, keep))
            case Missing(_, _) => false
            case Failed(e) => AnswersError(rules, target, e, CheckPath(t, rules, action, target, keep))
  {
    hide Walk;
    WalkErrors(t, [], target, true, false, keep, 40);
  }

  /** Writing and making directories: decided by the create path. */
  lemma CreatedVerdict<I>(t: Tree<I>, rules: Rules, action: Action, target: Path, keep: bool)
    requires ValidTree(t) && action in {WriteFile, MakeDir}
    ensures match CreateWalk(t, [], target, 40)
            case At(q, _) => AnswersFor(rules, target, q, CheckPath(t, rules, action, target, keep))
            case Refused(e) => AnswersError(rules, target, e, CheckPath(t, rules, action, target, keep))
  {
    hide CreateWalk, ResolveMaybeMissing;
    AgreesWithCreate(t, target, keep);
    WalkErrors(t, [], target, true, false, keep, 40);
  }

  /** Lstat, Readlink, Remove and Rename: decided by the entry under the create path of its parent. */
  lemma EntryVerdict<I>(t: Tree<I>, rules: Rules, action: Action, target: Path, keep: bool)
    requires ValidTree(t) && action in {LstatFile, ReadLink, RemoveEntry, RenameEntry}
    ensures target == [] ==> AnswersFor(rules, [], [], CheckPath(t, rules, action, [], keep))
    ensures target != [] ==>
              match CreateWalk(t, [], Parent(target), 40)
              case At(q, _) =>
                AnswersFor(rules, target, q + [Base(target)], CheckPath(t, rules, action, target, keep))
              case Refused(e) => AnswersError(rules, target, e, CheckPath(t, rules, action, target, keep))
  {
    hide CreateWalk, Walk;
    if target != [] {
      AgreesWithCreate(t, Parent(target), keep);
      WalkErrors(t, [], Parent(target), true, false, keep, 40);
    }
  }

  /** Nothing is allowed whose requested path the policy does not allow, wherever it resolves to. */
  lemma AskedFirst<I>(t: Tree<I>, rules: Rules, action: Action, target: Path, keep: bool)
    ensures CheckPath(t, rules, action, target, keep) == Allowed ==> target in rules.allowed
    ensures target !in rules.allowed ==> CheckPath(t, rules, action, target, keep) == Denied
  {
    hide ResolveTarget;
  }

  // ----- an allowed call stays inside -----

  lemma ReadInPlace(fs: FS, q: Path, provider: Loader, p: Path)
    requires ValidFS(fs)
    ensures var m := Materialize(fs, q, provider).fs;
            ValidFS(m) && CreateWalk(m.t, [], p, MAX_SYMLINK_DEPTH) == CreateWalk(fs.t, [], p, MAX_SYMLINK_DEPTH)
  {
    hide CreateWalk;
    var m := Materialize(fs, q, provider).fs;
    if m != fs {
      UpdateFS(fs, q, m.t[q].node);
    }
    SameLinks(fs.t, m.t, [], p, MAX_SYMLINK_DEPTH);
  }

  // An open that succeeds ends at the create path, whether it may create or not.
  lemma OpenFollowsCreate(fs: FS, p: Path, flags: Flags, perm: nat)
    requires ValidFS(fs) && OpenNode(fs, p, flags, perm).res.Ok?
    ensures var c := CreateWalk(fs.t, [], p, MAX_SYMLINK_DEPTH);
            c.At? && OpenNode(fs, p, flags, perm).res.path == c.path
    ensures !flags.create ==>
              && Lookup(fs, p, true, false).Found?
              && OpenNode(fs, p, flags, perm).res.path == Lookup(fs, p, true, false).path
  {
    hide Walk, CreateWalk, EnsureParent;
    WalkFollowsCreate(fs.t, [], p, false, MAX_SYMLINK_DEPTH);
  }

  lemma OpenFileFollowsCreate(fs: FS, p: Path, flags: Flags, perm: nat, provider: Loader)
    requires ValidFS(fs) && OpenFile(fs, p, flags, perm, provider).res.Ok?
    ensures var c := CreateWalk(fs.t, [], p, MAX_SYMLINK_DEPTH);
            c.At? && OpenFile(fs, p, flags, perm, provider).res.path == c.path
    ensures !flags.create ==> OpenFile(fs, p, flags, perm, provider).res.path in fs.t
  {
    hide Walk, CreateWalk, OpenNode, Materialize;
    var w := Lookup(fs, p, true, false);
    WalkFollowsCreate(fs.t, [], p, false, MAX_SYMLINK_DEPTH);
    if MustMaterialize(flags) && w.Found? {
      ReadInPlace(fs, w.path, provider, p);
      OpenFollowsCreate(Materialize(fs, w.path, provider).fs, p, flags, perm);
    } else {
      OpenFollowsCreate(fs, p, flags, perm);
    }
  }

  /** An allowed write opens or creates a path the policy allows, for every combination of flags. */
  lemma WriteLandsInside(fs: FS, rules: Rules, p: Path, flags: Flags, perm: nat, provider: Loader, keep: bool)
    requires ValidFS(fs) && CheckPath(fs.t, rules, WriteFile, p, keep) == Allowed
    requires OpenFile(fs, p, flags, perm, provider).res.Ok?
    ensures Inside(rules, p, OpenFile(fs, p, flags, perm, provider).res.path)
  {
    hide Walk, CreateWalk, ResolveMaybeMissing, OpenFile;
    AgreesWithCreate(fs.t, p, keep);
    OpenFileFollowsCreate(fs, p, flags, perm, provider);
  }

  /** An allowed read opens a path the policy allows. */
  lemma ReadLandsInside(fs: FS, rules: Rules, p: Path, flags: Flags, perm: nat, provider: Loader, keep: bool)
    requires ValidFS(fs) && CheckPath(fs.t, rules, ReadFile, p, keep) == Allowed
    requires !flags.create && OpenFile(fs, p, flags, perm, provider).res.Ok?
    ensures Inside(rules, p, OpenFile(fs, p, flags, perm, provider).res.path)
  {
    hide Walk, CreateWalk, OpenFile;
    OpenFileFollowsCreate(fs, p, flags, perm, provider);
    WalkFollowsCreate(fs.t, [], p, keep, MAX_SYMLINK_DEPTH);
  }

  /** An allowed listing is that of a directory the policy allows. */
  lemma ListLandsInside<I>(t: Tree<I>, rules: Rules, p: Path, keep: bool)
    requires ValidTree(t) && CheckPath(t, rules, ListDir, p, keep) == Allowed && ReadNames(t, p).Names?
    ensures exists q :: IsDirAt(t, q) && ReadNames(t, p) == Names(Children(t, q)) && Inside(rules, p, q)
  {
    hide Walk, CreateWalk, Children;
    WalkFollowsCreate(t, [], p, keep, MAX_SYMLINK_DEPTH);
    WalkFollowsCreate(t, [], p, false, MAX_SYMLINK_DEPTH);
    var q := Walk(t, [], p, true, false, false, MAX_SYMLINK_DEPTH).path;
    assert IsDirAt(t, q) && Inside(rules, p, q);
  }

  // ----- when an allowed operation on an entry stays inside -----

  /** The last component is no link that the backend follows after another link on the way. */
  predicate StopsAtEntry<I>(t: Tree<I>, p: Path, keep: bool)
    requires p != []
  {
    var c := CreateWalk(t, [], Parent(p), MAX_SYMLINK_DEPTH);
    c.At? && (keep || c.left == MAX_SYMLINK_DEPTH || c.path + [Base(p)] !in t || !t[c.path + [Base(p)]].node.Symbolic?)
  }

  /** Whatever the rules are, a call they allow on the entry p touches what they allow. */
  ghost predicate StaysInside<I>(t: Tree<I>, action: Action, p: Path, touched: Path, keep: bool) {
    forall rules | CheckPath(t, rules, action, p, keep) == Allowed :: Inside(rules, p, touched)
  }

  // A path without links above it is walked without using a hop.
  lemma {:induction false} ClearUsesNoHop<I>(t: Tree<I>, cur: Path, rest: seq<Name>, hops: nat)
    requires forall k | |cur| < k <= |cur + rest| && (cur + rest)[..k] in t :: t[(cur + rest)[..k]].node.Dir?
    ensures CreateWalk(t, cur, rest, hops).At? && CreateWalk(t, cur, rest, hops).left == hops
    decreases |rest|
  {
    if rest != [] {
      var next := cur + [rest[0]];
      assert next + rest[1..] == cur + rest;
      assert (cur + rest)[..|next|] == next;
      ClearUsesNoHop(t, next, rest[1..], hops);
    }
  }

  // What is touched differs from p once a link was met on the way, and from the entry exactly when
  // the backend does not stop there.
  lemma StaysInsideIff<I>(t: Tree<I>, action: Action, p: Path, touched: Path, keep: bool)
    requires ValidTree(t) && action in {LstatFile, ReadLink, RemoveEntry, RenameEntry} && p != []
             && ClearWay(t, touched)
    requires var c := CreateWalk(t, [], Parent(p), MAX_SYMLINK_DEPTH);
             c.At? && (touched == c.path + [Base(p)] <==> StopsAtEntry(t, p, keep))
    ensures StopsAtEntry(t, p, keep) <==> StaysInside(t, action, p, touched, keep)
  {
    hide CreateWalk, ResolveMaybeMissing;
    var c := CreateWalk(t, [], Parent(p), MAX_SYMLINK_DEPTH);
    var entry := c.path + [Base(p)];
    AgreesWithCreate(t, Parent(p), keep);
    EntryOf(t, p, keep);
    if !StopsAtEntry(t, p, keep) {
      if touched == p {
        assert forall k | 0 < k <= |Parent(p)| :: Parent(p)[..k] == p[..k];
        assert [] + Parent(p) == Parent(p);
        ClearUsesNoHop(t, [], Parent(p), MAX_SYMLINK_DEPTH);
      }
      var rules := Rules({p, entry}, false);
      assert CheckPath(t, rules, action, p, keep) == Allowed && !Inside(rules, p, touched);
    }
  }

  // A walk that ends somewhere has found the directory its last component is in.
  lemma {:induction false} WalkNeedsParent<I>(t: Tree<I>, cur: Path, init: seq<Name>, last: Name,
                                              follow: bool, missing: bool, keep: bool, hops: nat)
    requires ValidTree(t) && IsDirAt(t, cur) && !Walk(t, cur, init + [last], follow, missing, keep, hops).Failed?
    ensures var c := CreateWalk(t, cur, init, hops); c.At? && IsDirAt(t, c.path)
    decreases hops, |init|
  {
    hide Resolve;
    var rest := init + [last];
    if init != [] {
      var next := cur + [init[0]];
      assert rest[0] == init[0] && rest[1..] == init[1..] + [last];
      if t[next].node.Symbolic? {
        var target := Resolve(cur, t[next].node.target);
        assert target + rest[1..] == (target + init[1..]) + [last];
        WalkNeedsParent(t, [], target + init[1..], last, !keep || follow, missing, keep, hops - 1);
      } else {
        WalkNeedsParent(t, next, init[1..], last, follow, missing, keep, hops);
      }
    }
  }

  // Accepting a missing last component changes nothing for what is found.
  lemma {:induction false} FoundEither<I>(t: Tree<I>, cur: Path, rest: seq<Name>, follow: bool, keep: bool, hops: nat)
    requires Walk(t, cur, rest, follow, false, keep, hops).Found?
    ensures Walk(t, cur, rest, follow, true, keep, hops) == Walk(t, cur, rest, follow, false, keep, hops)
    decreases hops, |rest|
  {
    hide Resolve;
    if rest != [] {
      var next := cur + [rest[0]];
      if t[next].node.Symbolic? && (|rest| > 1 || follow) {
        FoundEither(t, [], Resolve(cur, t[next].node.target) + rest[1..], !keep || follow, keep, hops - 1);
      } else if |rest| > 1 {
        FoundEither(t, next, rest[1..], follow, keep, hops);
      }
    }
  }

  lemma WalkEndsClear<I>(t: Tree<I>, p: Path, follow: bool, missing: bool, keep: bool, hops: nat)
    requires ValidTree(t) && !Walk(t, [], p, follow, missing, keep, hops).Failed?
    ensures ClearWay(t, Walk(t, [], p, follow, missing, keep, hops).path)
  {
    hide Walk;
    WalkSound(t, [], p, follow, missing, keep, hops);
    var q := Walk(t, [], p, follow, missing, keep, hops).path;
    if q in t { ExistingIsClear(t, q); } else { DirParentIsClear(t, q); }
  }

  /** For every entry that a backend resolves without following: allowed calls stay inside, under all
      rules, exactly when the backend stops at the entry. One that keeps the caller's flag always does. */
  lemma EntryInsideIff<I>(t: Tree<I>, action: Action, p: Path, missing: bool, keep: bool)
    requires ValidTree(t) && action in {LstatFile, ReadLink, RemoveEntry, RenameEntry} && p != []
    requires !Walk(t, [], p, false, missing, keep, MAX_SYMLINK_DEPTH).Failed?
    ensures var touched := Walk(t, [], p, false, missing, keep, MAX_SYMLINK_DEPTH).path;
            StopsAtEntry(t, p, keep) <==> StaysInside(t, action, p, touched, keep)
    ensures keep ==> StopsAtEntry(t, p, keep)
  {
    hide Walk, CreateWalk, StaysInside;
    assert p == Parent(p) + [Base(p)];
    WalkNeedsParent(t, [], Parent(p), Base(p), false, missing, keep, MAX_SYMLINK_DEPTH);
    AgreesOnEntry(t, p, keep);
    WalkEndsClear(t, p, false, missing, keep, MAX_SYMLINK_DEPTH);
    if !missing {
      WalkSound(t, [], p, false, false, keep, MAX_SYMLINK_DEPTH);
      FoundEither(t, [], p, false, keep, MAX_SYMLINK_DEPTH);
    }
    StaysInsideIff(t, action, p, Walk(t, [], p, false, missing, keep, MAX_SYMLINK_DEPTH).path, keep);
  }

  /** Remove: what it takes away is allowed under all rules that allow the call, exactly when it stops
      at the entry. */
  lemma RemoveInsideIff(fs: FS, p: Path, recursive: bool)
    requires ValidFS(fs) && Remove(fs, p, recursive).res.Ok?
    ensures p != []
    ensures StopsAtEntry(fs.t, p, false) <==>
            StaysInside(fs.t, RemoveEntry, p, Remove(fs, p, recursive).res.path, false)
  {
    hide StaysInside, StopsAtEntry, Children, Without;
    WalkOnce(fs.t, [], p, false, false, false, MAX_SYMLINK_DEPTH);
    EntryInsideIff(fs.t, RemoveEntry, p, false, false);
  }

  /** Rename: the same for the entry it takes and for the place it puts it. */
  lemma RenameInsideIff(fs: FS, src: Path, dst: Path)
    requires ValidFS(fs) && Rename(fs, src, dst).res.Ok?
    ensures src != [] && dst != []
    ensures var taken := Lookup(fs, src, false, false).path;
            StopsAtEntry(fs.t, src, false) <==> StaysInside(fs.t, RenameEntry, src, taken, false)
    ensures var placed := Rename(fs, src, dst).res.path;
            StopsAtEntry(fs.t, dst, false) <==> StaysInside(fs.t, RenameEntry, dst, placed, false)
  {
    hide StaysInside, StopsAtEntry, Relabel, EnsureParent, RenameTarget, Walk;
    WalkOnce(fs.t, [], src, false, false, false, MAX_SYMLINK_DEPTH);
    EntryInsideIff(fs.t, RenameEntry, src, false, false);
    TargetInsideIff(fs, dst);
  }

  lemma TargetInsideIff(fs: FS, dst: Path)
    requires ValidFS(fs) && RenameTarget(fs, dst).Ok?
    ensures dst != []
    ensures StopsAtEntry(fs.t, dst, false) <==>
            StaysInside(fs.t, RenameEntry, dst, RenameTarget(fs, dst).path, false)
  {
    hide StaysInside, StopsAtEntry, Walk, CreateWalk;
    WalkOnce(fs.t, [], dst, false, true, false, MAX_SYMLINK_DEPTH);
    if Lookup(fs, dst, false, true).Missing? {
      EntryInsideIff(fs.t, RenameEntry, dst, true, false);
    } else {
      CreatedTargetInside(fs.t, dst);
    }
  }

  // Under implicit parents the destination may be the create path of a name whose parent is missing,
  // or of a link to such a name.
  lemma CreatedTargetInside<I>(t: Tree<I>, dst: Path)
    requires ValidTree(t) && dst != [] && CreateWalk(t, [], dst, MAX_SYMLINK_DEPTH).At?
    requires Walk(t, [], dst, false, true, false, MAX_SYMLINK_DEPTH) == Failed(NotExist)
    ensures var placed := CreateWalk(t, [], dst, MAX_SYMLINK_DEPTH).path;
            StopsAtEntry(t, dst, false) <==> StaysInside(t, RenameEntry, dst, placed, false)
  {
    hide Walk, CreateWalk, StaysInside;
    var parent, last := Parent(dst), Base(dst);
    assert dst == parent + [last];
    CreateWalkContinues(t, [], parent, last, MAX_SYMLINK_DEPTH);
    CreateWalkClear(t, [], dst, MAX_SYMLINK_DEPTH);
    CreateWalkSound(t, [], dst, MAX_SYMLINK_DEPTH);
    var c := CreateWalk(t, [], parent, MAX_SYMLINK_DEPTH);
    var entry := c.path + [last];
    if c.path in t {
      WalkContinues(t, [], parent, last, false, false, MAX_SYMLINK_DEPTH);
      WalkOnce(t, c.path, [last], c.left < MAX_SYMLINK_DEPTH, true, false, c.left);
      CreateWalkOnce(t, c.path, [last], c.left);
    } else {
      MissingIsVacant(t, c.path);
      assert Under(entry, c.path) by { assert entry[..|c.path|] == c.path; }
    }
    StaysInsideIff(t, RenameEntry, dst, CreateWalk(t, [], dst, MAX_SYMLINK_DEPTH).path, false);
  }

  /** /a is a link to the directory /d, and /d/l is a link to the file /s. */
  function LinkedTwice(): FS {
    var dir := Dir(0x1ed, DEFAULT_OWNER, DEFAULT_OWNER);
    FS(map[[] := Cell(1, dir),
           ["a"] := Cell(2, Symbolic(0x1ff, DEFAULT_OWNER, DEFAULT_OWNER, Raw(true, ["d"]))),
           ["d"] := Cell(3, dir),
           ["d", "l"] := Cell(4, Symbolic(0x1ff, DEFAULT_OWNER, DEFAULT_OWNER, Raw(true, ["s"]))),
           ["s"] := Cell(5, File(0x1a4, DEFAULT_OWNER, DEFAULT_OWNER, Data([])))], 5, false)
  }

  /** Removing /a/l is allowed where only /a/l and /d/l are, and the backend removes /s: after the link
      /a it follows the last link too, which the policy does not. */
  lemma RemovalElsewhere()
    ensures var fs, rules := LinkedTwice(), Rules({["a", "l"], ["d", "l"]}, false);
            && ValidFS(fs) && CheckPath(fs.t, rules, RemoveEntry, ["a", "l"], false) == Allowed
            && Remove(fs, ["a", "l"], false) == Out(fs.(t := Without(fs.t, ["s"])), Ok(["s"]))
            && ["s"] !in rules.allowed
  {
    hide ValidTree, Without, ResolveMaybeMissing, CreateWalk, Walk;
    var t := LinkedTwice().t;
    LinkedTwiceIsValid();
    LinkedTwiceWalks();
    assert Parent(["a", "l"]) == ["a"] && Base(["a", "l"]) == "l" && ["d"] + ["l"] == ["d", "l"];
    AgreesWithCreate(t, ["a"], false);
    EntryOf(t, ["a", "l"], false);
  }

  // What the policy answers for an entry under a parent it can resolve.
  lemma EntryOf<I>(t: Tree<I>, p: Path, keep: bool)
    requires p != [] && ResolveMaybeMissing(t, Parent(p), true, 0, keep).Ok?
    ensures ResolveMaybeMissing(t, p, false, 0, keep) ==
            Ok(ResolveMaybeMissing(t, Parent(p), true, 0, keep).path + [Base(p)])
  {
    hide Walk;
  }

  lemma LinkedTwiceIsValid()
    ensures ValidFS(LinkedTwice())
  {
    var t := LinkedTwice().t;
    assert ["d", "l"][..1] == ["d"];
    forall p, k | p in t && 0 <= k < |p| ensures IsDirAt(t, p[..k]) {
      assert k == 0 ==> p[..k] == [];
    }
  }

  lemma LinkedTwiceWalks()
    ensures var t := LinkedTwice().t;
            && Walk(t, [], ["a", "l"], false, false, false, MAX_SYMLINK_DEPTH) == Found(["s"], MAX_SYMLINK_DEPTH - 2)
            && CreateWalk(t, [], ["a"], MAX_SYMLINK_DEPTH) == At(["d"], MAX_SYMLINK_DEPTH - 1)
  {
    hide Walk, CreateWalk;
    var t := LinkedTwice().t;
    assert [] + ["a"] == ["a"] && [] + ["d"] == ["d"] && ["d"] + ["l"] == ["d", "l"] && [] + ["s"] == ["s"];
    assert ["a", "l"][1..] == ["l"] && ["d", "l"][1..] == ["l"];
    assert Resolve([], Raw(true, ["d"])) == ["d"] && Resolve(["d"], Raw(true, ["s"])) == ["s"];
    assert ["d"] + ["a"][1..] == ["d"] && ["s"] + ["l"][1..] == ["s"];
    WalkOnce(t, [], ["a", "l"], false, false, false, MAX_SYMLINK_DEPTH);
    WalkOnce(t, [], ["d", "l"], true, false, false, MAX_SYMLINK_DEPTH - 1);
    WalkOnce(t, ["d"], ["l"], true, false, false, MAX_SYMLINK_DEPTH - 1);
    WalkOnce(t, [], ["s"], true, false, false, MAX_SYMLINK_DEPTH - 2);
    CreateWalkOnce(t, [], ["a"], MAX_SYMLINK_DEPTH);
    CreateWalkOnce(t, [], ["d"], MAX_SYMLINK_DEPTH - 1);
  }

  // A create path that reaches a directory goes on from there.
  lemma {:induction false} CreateWalkJoins<I>(t: Tree<I>, cur: Path, a: seq<Name>, b: seq<Name>, hops: nat)
    requires ValidTree(t) && IsDirAt(t, cur)
    requires var c := CreateWalk(t, cur, a, hops); c.At? && IsDirAt(t, c.path)
    ensures var c := CreateWalk(t, cur, a, hops); CreateWalk(t, cur, a + b, hops) == CreateWalk(t, c.path, b, c.left)
    decreases hops, |a|
  {
    hide Resolve;
    var rest := a + b;
    if a == [] {
      assert rest == b;
    } else {
      var next := cur + [a[0]];
      assert rest[0] == a[0] && rest[1..] == a[1..] + b;
      assert Under(cur + a, next) by { assert (cur + a)[..|next|] == next; }
      if next !in t {
        MissingIsVacant(t, next);
      } else if t[next].node.Symbolic? {
        var target := Resolve(cur, t[next].node.target);
        assert target + rest[1..] == (target + a[1..]) + b;
        CreateWalkJoins(t, [], target + a[1..], b, hops - 1);
      } else {
        CreateWalkJoins(t, next, a[1..], b, hops);
        if b == [] { assert rest == a; }
      }
    }
  }

  // A refusal on the way stays one for every longer path.
  lemma {:induction false} CreateWalkRefuses<I>(t: Tree<I>, cur: Path, a: seq<Name>, b: seq<Name>, hops: nat)
    requires CreateWalk(t, cur, a, hops).Refused?
    ensures CreateWalk(t, cur, a + b, hops) == CreateWalk(t, cur, a, hops)
    decreases hops, |a|
  {
    hide Resolve;
    var rest := a + b;
    var next := cur + [a[0]];
    assert rest[0] == a[0] && rest[1..] == a[1..] + b;
    if t[next].node.Symbolic? {
      if hops > 0 {
        var target := Resolve(cur, t[next].node.target);
        assert target + rest[1..] == (target + a[1..]) + b;
        CreateWalkRefuses(t, [], target + a[1..], b, hops - 1);
      }
    } else if t[next].node.Dir? {
      CreateWalkRefuses(t, next, a[1..], b, hops);
    }
  }

  // Fewer hops end in the same place or run out.
  lemma {:induction false} FewerHops<I>(t: Tree<I>, cur: Path, rest: seq<Name>, hops: nat, spare: nat)
    requires CreateWalk(t, cur, rest, hops + spare).At?
    ensures CreateWalk(t, cur, rest, hops).At? || CreateWalk(t, cur, rest, hops) == Refused(Loop)
    decreases hops, |rest|
  {
    hide Resolve;
    if rest != [] {
      var next := cur + [rest[0]];
      if next in t {
        if t[next].node.Symbolic? {
          if hops > 0 {
            FewerHops(t, [], Resolve(cur, t[next].node.target) + rest[1..], hops - 1, spare);
          }
        } else if |rest| > 1 {
          FewerHops(t, next, rest[1..], hops, spare);
        }
      }
    }
  }

  // mkdir resolves a link with a budget of its own; where both succeed they end at one directory.
  lemma LinkJoins<I>(t: Tree<I>, cur: Path, rest: seq<Name>, hops: nat, keep: bool) returns (left: nat)
    requires ValidTree(t) && IsDirAt(t, cur) && hops <= MAX_SYMLINK_DEPTH && rest != []
    requires cur + [rest[0]] in t && t[cur + [rest[0]]].node.Symbolic?
    requires var w := Walk(t, [], cur + [rest[0]], true, false, keep, MAX_SYMLINK_DEPTH); w.Found? && IsDirAt(t, w.path)
    requires CreateWalk(t, cur, rest, hops) != Refused(Loop)
    ensures left <= hops
    ensures CreateWalk(t, cur, rest, hops) ==
            CreateWalk(t, Walk(t, [], cur + [rest[0]], true, false, keep, MAX_SYMLINK_DEPTH).path, rest[1..], left)
  {
    hide Resolve, Walk, CreateWalk;
    var next := cur + [rest[0]];
    var target := Resolve(cur, t[next].node.target);
    WalkFollowsCreate(t, [], next, keep, MAX_SYMLINK_DEPTH);
    if cur != [] { ParentIsDir(t, cur); }
    assert [] + cur == cur;
    CreateWalkDirect(t, [], cur, MAX_SYMLINK_DEPTH);
    CreateWalkContinues(t, [], cur, rest[0], MAX_SYMLINK_DEPTH);
    CreateWalkOnce(t, cur, [rest[0]], MAX_SYMLINK_DEPTH);
    assert target + [rest[0]][1..] == target;
    CreateWalkOnce(t, cur, rest, hops);
    FewerHops(t, [], target, hops - 1, MAX_SYMLINK_DEPTH - hops);
    if CreateWalk(t, [], target, hops - 1).Refused? {
      CreateWalkRefuses(t, [], target, rest[1..], hops - 1);
    }
    SpareHops(t, [], target, hops - 1, MAX_SYMLINK_DEPTH - hops);
    CreateWalkJoins(t, [], target, rest[1..], hops - 1);
    CreateWalkSound(t, [], target, hops - 1);
    left := CreateWalk(t, [], target, hops - 1).left;
  }

  lemma MkdirBelowMissing(fs: FS, cur: Path, rest: seq<Name>, perm: nat)
    requires ValidFS(fs) && IsDirAt(fs.t, cur) && rest != [] && cur + [rest[0]] !in fs.t
    requires MkdirFrom(fs, cur, rest, perm).res.Ok?
    ensures MkdirFrom(fs, cur, rest, perm).res.path == cur + rest
  {
    hide MkdirFrom;
    var all, next := cur + rest, cur + [rest[0]];
    MissingIsVacant(fs.t, next);
    forall k | 0 <= k <= |all| ensures all[..k] in fs.t ==> !fs.t[all[..k]].node.Symbolic? {
      assert k <= |cur| ==> all[..k] == cur[..k] && cur[..|cur|] == cur;
      assert k > |cur| ==> all[..k][..|next|] == next;
    }
    assert all[..|all|] == all;
    MkdirFromResolved(fs, cur, rest, perm);
  }

  lemma {:induction false} MkdirFollowsCreate(fs: FS, cur: Path, rest: seq<Name>, perm: nat, hops: nat)
    requires ValidFS(fs) && IsDirAt(fs.t, cur) && hops <= MAX_SYMLINK_DEPTH
    requires CreateWalk(fs.t, cur, rest, hops) != Refused(Loop) && MkdirFrom(fs, cur, rest, perm).res.Ok?
    ensures var c := CreateWalk(fs.t, cur, rest, hops); c.At? && MkdirFrom(fs, cur, rest, perm).res.path == c.path
    decreases |rest|
  {
    hide Resolve, Walk;
    if rest != [] {
      var next := cur + [rest[0]];
      assert Parent(next) == cur;
      if next !in fs.t {
        MkdirBelowMissing(fs, cur, rest, perm);
      } else if fs.t[next].node.Symbolic? {
        var left := LinkJoins(fs.t, cur, rest, hops, false);
        MkdirFollowsCreate(fs, Lookup(fs, next, true, false).path, rest[1..], perm, left);
      } else {
        MkdirFollowsCreate(fs, next, rest[1..], perm, hops);
      }
    }
  }

  /** An allowed mkdir that succeeds ends at a path the policy allows. */
  lemma MkdirLandsInside(fs: FS, rules: Rules, p: Path, perm: nat, keep: bool)
    requires ValidFS(fs) && CheckPath(fs.t, rules, MakeDir, p, keep) == Allowed && MkdirAll(fs, p, perm).res.Ok?
    ensures Inside(rules, p, MkdirAll(fs, p, perm).res.path)
  {
    hide Walk, CreateWalk, ResolveMaybeMissing, MkdirFrom;
    AgreesWithCreate(fs.t, p, keep);
    MkdirFollowsCreate(fs, [], p, perm, MAX_SYMLINK_DEPTH);
  }
}
