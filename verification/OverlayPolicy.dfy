/** The policy's checks over an OverlayFS: a call that CheckPath allows on the merged view touches what
    the rules allow (policy/pathcheck.go, fs/overlay.go).

    The calls are those of the plain tree the view is, as `PlainTree` decides them; the overlay
    keeps the caller's flag for the last link, so `keep` is true throughout.
 */
module OverlayPolicy {
  import opened Paths
  import opened Tree
  import opened MemoryOps
  import opened PlainTree
  import opened Policy
  import opened WalkLaws

  // What is missing, or found by following every link, is at the create path.
  lemma {:induction false} WalkIsCreate<I>(t: Tree<I>, cur: Path, rest: seq<Name>, follow: bool, hops: nat)
    requires ValidTree(t) && IsDirAt(t, cur)
    ensures var w, c := Walk(t, cur, rest, follow, true, true, hops), CreateWalk(t, cur, rest, hops);
            w.Missing? || (follow && w.Found?) ==> c == At(w.path, w.left)
    decreases hops, |rest|
  {
    hide Resolve;
    if rest != [] {
      var next := cur + [rest[0]];
      if next !in t {
        assert |rest| == 1 ==> cur + rest == next;
      } else if t[next].node.Symbolic? {
        if hops > 0 { WalkIsCreate(t, [], Resolve(cur, t[next].node.target) + rest[1..], follow, hops - 1); }
      } else if |rest| > 1 && t[next].node.Dir? {
        WalkIsCreate(t, next, rest[1..], follow, hops);
      }
    }
  }

  lemma OpenIsCreate<I>(t: Tree<I>, p: Path, flags: Flags, perm: nat, payload: Bytes)
    requires ValidTree(t) && DecideOpen(t, p, flags, perm, payload).res.Ok?
    ensures var c := CreateWalk(t, [], p, MAX_SYMLINK_DEPTH);
            c.At? && c.path == DecideOpen(t, p, flags, perm, payload).res.path
    ensures !flags.create ==>
              && Realpath(t, p, true).Found?
              && Realpath(t, p, true).path == DecideOpen(t, p, flags, perm, payload).res.path
  {
    hide Walk, CreateWalk, Overwrite;
    WalkIsCreate(t, [], p, !(flags.create && flags.excl), MAX_SYMLINK_DEPTH);
    WalkFollowsCreate(t, [], p, true, MAX_SYMLINK_DEPTH);
  }

  /** An allowed write through the overlay opens or creates a path the policy allows. */
  lemma WriteLandsInside<I>(t: Tree<I>, rules: Rules, p: Path, flags: Flags, perm: nat, payload: Bytes)
    requires ValidTree(t) && CheckPath(t, rules, WriteFile, p, true) == Allowed
    requires DecideOpen(t, p, flags, perm, payload).res.Ok?
    ensures Inside(rules, p, DecideOpen(t, p, flags, perm, payload).res.path)
  {
    hide Walk, CreateWalk, ResolveMaybeMissing, DecideOpen;
    AgreesWithCreate(t, p, true);
    OpenIsCreate(t, p, flags, perm, payload);
  }

  /** An allowed read through the overlay opens a path the policy allows. */
  lemma ReadLandsInside<I>(t: Tree<I>, rules: Rules, p: Path, flags: Flags, perm: nat, payload: Bytes)
    requires ValidTree(t) && CheckPath(t, rules, ReadFile, p, true) == Allowed
    requires !flags.create && DecideOpen(t, p, flags, perm, payload).res.Ok?
    ensures Inside(rules, p, DecideOpen(t, p, flags, perm, payload).res.path)
  {
    hide Walk, CreateWalk, DecideOpen;
    OpenIsCreate(t, p, flags, perm, payload);
  }

  // The directories a mkdir makes end at the create path.
  lemma {:induction false} MkdirIsCreate<I>(t: Tree<I>, cur: Path, rest: seq<Name>, perm: nat, hops: nat)
    requires ValidTree(t) && IsDirAt(t, cur) && hops <= MAX_SYMLINK_DEPTH
    requires CreateWalk(t, cur, rest, hops) != Refused(Loop) && DecideMkdir(t, cur, rest, perm).res.Ok?
    ensures var c := CreateWalk(t, cur, rest, hops); c.At? && DecideMkdir(t, cur, rest, perm).res.path == c.path
    decreases |rest|
  {
    hide Resolve, Walk;
    if rest != [] {
      var next := cur + [rest[0]];
      if next in t {
        if t[next].node.Symbolic? {
          var left := LinkJoins(t, cur, rest, hops, true);
          MkdirIsCreate(t, Look(t, next, true, false).path, rest[1..], perm, left);
        } else {
          MkdirIsCreate(t, next, rest[1..], perm, hops);
        }
      }
    }
  }

  /** An allowed mkdir through the overlay that succeeds ends at a path the policy allows. */
  lemma MkdirLandsInside<I>(t: Tree<I>, rules: Rules, p: Path, perm: nat)
    requires ValidTree(t) && CheckPath(t, rules, MakeDir, p, true) == Allowed && DecideMkdir(t, [], p, perm).res.Ok?
    ensures Inside(rules, p, DecideMkdir(t, [], p, perm).res.path)
  {
    hide Walk, CreateWalk, ResolveMaybeMissing, DecideMkdir;
    AgreesWithCreate(t, p, true);
    MkdirIsCreate(t, [], p, perm, MAX_SYMLINK_DEPTH);
  }

  /** What an allowed removal or rename through the overlay takes away, and where a rename puts it, is
      allowed: there is no exception as on the backends that follow the last link. */
  lemma EntryLandsInside<I>(t: Tree<I>, rules: Rules, p: Path, recursive: bool)
    requires ValidTree(t) && CheckPath(t, rules, RemoveEntry, p, true) == Allowed
             && DecideRemove(t, p, recursive).res.Ok?
    ensures Inside(rules, p, DecideRemove(t, p, recursive).res.path)
  {
    hide Walk, CreateWalk, StopsAtEntry, CheckPath, Inside, Children;
    EntryInsideIff(t, RemoveEntry, p, false, true);
  }

  lemma RenameLandsInside<I>(t: Tree<I>, rules: Rules, src: Path, dst: Path)
    requires ValidTree(t) && DecideRename(t, src, dst).effect.Move?
    ensures var e := DecideRename(t, src, dst).effect;
            && (CheckPath(t, rules, RenameEntry, src, true) == Allowed ==> Inside(rules, src, e.src))
            && (CheckPath(t, rules, RenameEntry, dst, true) == Allowed ==> Inside(rules, dst, e.dst))
  {
    hide Walk, CreateWalk, StopsAtEntry, CheckPath, Inside;
    EntryInsideIff(t, RenameEntry, src, false, true);
    EntryInsideIff(t, RenameEntry, dst, true, true);
  }
}
