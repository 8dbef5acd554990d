/** What path resolution does, said of whole paths from the root (fs/memory.go:840-943,
    fs/overlay.go:693-741).

    Together with `Tree.WalkResolved` for a path without links these laws decide every resolution:
    what happens at the first component that is a link, a missing name or a file.
 */
module WalkLaws {
  import opened Paths
  import opened Tree

  // The walk of a path below an existing directory goes through that directory.
  lemma {:induction false} WalkPast<I>(t: Tree<I>, cur: Path, d: seq<Name>, rest: seq<Name>,
                                       follow: bool, missing: bool, keep: bool, hops: nat)
    requires ValidTree(t) && IsDirAt(t, cur + d) && rest != []
    ensures Walk(t, cur, d + rest, follow, missing, keep, hops) == Walk(t, cur + d, rest, follow, missing, keep, hops)
    decreases |d|
  {
    if d == [] {
      assert d + rest == rest && cur + d == cur;
    } else {
      var next := cur + [d[0]];
      assert next + d[1..] == cur + d && (d + rest)[1..] == d[1..] + rest;
      ReachedThrough(t, cur + d, next);
      WalkPast(t, next, d[1..], rest, follow, missing, keep, hops);
    }
  }

  lemma {:induction false} CreatePast<I>(t: Tree<I>, cur: Path, d: seq<Name>, rest: seq<Name>, hops: nat)
    requires ValidTree(t) && IsDirAt(t, cur + d) && rest != []
    ensures CreateWalk(t, cur, d + rest, hops) == CreateWalk(t, cur + d, rest, hops)
    decreases |d|
  {
    if d == [] {
      assert d + rest == rest && cur + d == cur;
    } else {
      var next := cur + [d[0]];
      assert next + d[1..] == cur + d && (d + rest)[1..] == d[1..] + rest;
      ReachedThrough(t, cur + d, next);
      CreatePast(t, next, d[1..], rest, hops);
    }
  }

  lemma ReachedThrough<I>(t: Tree<I>, d: Path, a: Path)
    requires ValidTree(t) && IsDirAt(t, d) && |a| <= |d| && d[..|a|] == a
    ensures IsDirAt(t, a)
  {
    if a != d { AncestorIsDir(t, d, a); }
  }

  /** A link that is not the last component, or is to be followed, is replaced by its target, read from
      the directory the link is in. Every link costs a hop, and without hops there is no answer. */
  lemma ThroughLink<I>(t: Tree<I>, d: Path, l: Name, rest: seq<Name>, follow: bool, missing: bool, keep: bool,
                       hops: nat)
    requires ValidTree(t) && IsDirAt(t, d) && d + [l] in t && t[d + [l]].node.Symbolic? && (rest != [] || follow)
    ensures Walk(t, [], d + [l] + rest, follow, missing, keep, hops) ==
            if hops == 0 then Failed(Loop)
            else
              var after := if keep then follow else true;
              Walk(t, [], Resolve(d, t[d + [l]].node.target) + rest, after, missing, keep, hops - 1)
    ensures CreateWalk(t, [], d + [l] + rest, hops) ==
            if hops == 0 then Refused(Loop)
            else CreateWalk(t, [], Resolve(d, t[d + [l]].node.target) + rest, hops - 1)
  {
    assert [] + d == d && d + [l] + rest == d + ([l] + rest) && ([l] + rest)[1..] == rest;
    WalkPast(t, [], d, [l] + rest, follow, missing, keep, hops);
    CreatePast(t, [], d, [l] + rest, hops);
    assert |[l] + rest| == 1 <==> rest == [];
  }

  /** A name that does not exist ends every longer path; a create path keeps the unread rest. */
  lemma AtMissing<I>(t: Tree<I>, d: Path, n: Name, rest: seq<Name>, follow: bool, missing: bool, keep: bool, hops: nat)
    requires ValidTree(t) && IsDirAt(t, d) && d + [n] !in t
    ensures Walk(t, [], d + [n] + rest, follow, missing, keep, hops) ==
            if rest == [] && missing then Missing(d + [n], hops) else Failed(NotExist)
    ensures CreateWalk(t, [], d + [n] + rest, hops) == At(d + [n] + rest, hops)
  {
    assert [] + d == d && d + [n] + rest == d + ([n] + rest);
    WalkPast(t, [], d, [n] + rest, follow, missing, keep, hops);
    CreatePast(t, [], d, [n] + rest, hops);
    assert |[n] + rest| == 1 <==> rest == [];
  }

  /** Nothing lies beneath a file. */
  lemma AtFile<I>(t: Tree<I>, d: Path, n: Name, rest: seq<Name>, follow: bool, missing: bool, keep: bool, hops: nat)
    requires ValidTree(t) && IsDirAt(t, d) && d + [n] in t && t[d + [n]].node.File?
    ensures Walk(t, [], d + [n] + rest, follow, missing, keep, hops) ==
            if rest == [] then Found(d + [n], hops) else Failed(Invalid)
    ensures CreateWalk(t, [], d + [n] + rest, hops) == if rest == [] then At(d + [n], hops) else Refused(Invalid)
  {
    assert [] + d == d && d + [n] + rest == d + ([n] + rest);
    WalkPast(t, [], d, [n] + rest, follow, missing, keep, hops);
    CreatePast(t, [], d, [n] + rest, hops);
    assert |[n] + rest| == 1 <==> rest == [];
  }

  /** A link that is the last component and is not to be followed is the answer. */
  lemma AtUnfollowed<I>(t: Tree<I>, d: Path, l: Name, missing: bool, keep: bool, hops: nat)
    requires ValidTree(t) && IsDirAt(t, d) && d + [l] in t
    ensures Walk(t, [], d + [l], false, missing, keep, hops) == Found(d + [l], hops)
  {
    assert [] + d == d;
    WalkPast(t, [], d, [l], false, missing, keep, hops);
  }

  /** A directory is its own resolution and its own create path. */
  lemma AtDirectory<I>(t: Tree<I>, d: Path, follow: bool, missing: bool, keep: bool, hops: nat)
    requires ValidTree(t) && IsDirAt(t, d)
    ensures Walk(t, [], d, follow, missing, keep, hops) == Found(d, hops) && CreateWalk(t, [], d, hops) == At(d, hops)
  {
    if d != [] {
      ParentIsDir(t, d);
      assert [] + Parent(d) == Parent(d) && Parent(d) + [Base(d)] == d;
      WalkPast(t, [], Parent(d), [Base(d)], follow, missing, keep, hops);
      CreatePast(t, [], Parent(d), [Base(d)], hops);
    }
  }

  /** The only errors of a resolution. */
  lemma {:induction false} WalkErrors<I>(t: Tree<I>, cur: Path, rest: seq<Name>, follow: bool, missing: bool,
                                         keep: bool, hops: nat)
    ensures var w := Walk(t, cur, rest, follow, missing, keep, hops);
            && (w.Failed? ==> w.error in {NotExist, Invalid, Loop}) && (w.Missing? ==> missing)
    ensures var c := CreateWalk(t, cur, rest, hops); c.Refused? ==> c.error in {Invalid, Loop}
    decreases hops, |rest|
  {
    hide Resolve;
    if rest != [] {
      var next := cur + [rest[0]];
      if next in t {
        if t[next].node.Symbolic? {
          if hops > 0 {
            WalkErrors(t, [], Resolve(cur, t[next].node.target) + rest[1..], !keep || follow, missing, keep, hops - 1);
          }
        } else if |rest| > 1 && t[next].node.Dir? {
          WalkErrors(t, next, rest[1..], follow, missing, keep, hops);
        }
      }
    }
  }

  // ----- following a path and creating it take the same way -----

  function AsWalked<I>(t: Tree<I>, c: Created): Walked {
    match c
    case At(q, left) => if q in t then Found(q, left) else Failed(NotExist)
    case Refused(e) => Failed(e)
  }

  lemma {:induction false} WalkFollowsCreate<I>(t: Tree<I>, cur: Path, rest: seq<Name>, keep: bool, hops: nat)
    requires ValidTree(t) && IsDirAt(t, cur)
    ensures Walk(t, cur, rest, true, false, keep, hops) == AsWalked(t, CreateWalk(t, cur, rest, hops))
    decreases hops, |rest|
  {
    hide Resolve;
    if rest != [] {
      var next := cur + [rest[0]];
      if next !in t {
        MissingIsVacant(t, next);
        assert Under(cur + rest, next) by { assert (cur + rest)[..|next|] == next; }
      } else if t[next].node.Symbolic? {
        if hops > 0 {
          WalkFollowsCreate(t, [], Resolve(cur, t[next].node.target) + rest[1..], keep, hops - 1);
        }
      } else if |rest| > 1 && t[next].node.Dir? {
        WalkFollowsCreate(t, next, rest[1..], keep, hops);
      }
    }
  }

  // A create path has only directories above it.
  lemma {:induction false} CreateWalkClear<I>(t: Tree<I>, cur: Path, rest: seq<Name>, hops: nat)
    requires ValidTree(t) && IsDirAt(t, cur)
    ensures var c := CreateWalk(t, cur, rest, hops); c.At? ==> ClearWay(t, c.path)
    decreases hops, |rest|
  {
    hide Resolve;
    if rest == [] {
      ExistingIsClear(t, cur);
    } else {
      var next := cur + [rest[0]];
      assert Parent(next) == cur;
      if next !in t {
        MissingIsVacant(t, next);
        var all := cur + rest;
        forall k | 0 <= k < |all| ensures all[..k] in t ==> t[all[..k]].node.Dir? {
          assert k <= |cur| ==> all[..k] == cur[..k] && cur[..|cur|] == cur;
          assert k > |cur| ==> all[..k][..|next|] == next;
        }
      } else if t[next].node.Symbolic? {
        if hops > 0 {
          CreateWalkClear(t, [], Resolve(cur, t[next].node.target) + rest[1..], hops - 1);
        }
      } else if |rest| == 1 {
        DirParentIsClear(t, next);
      } else if t[next].node.Dir? {
        CreateWalkClear(t, next, rest[1..], hops);
      }
    }
  }

  // The last component is decided where the create path of its parent ended.
  function Continued<I>(t: Tree<I>, c: Created, last: Name): Created {
    match c
    case Refused(e) => Refused(e)
    case At(r, left) =>
      if r !in t then At(r + [last], left)
      else if !t[r].node.Dir? then Refused(Invalid)
      else CreateWalk(t, r, [last], left)
  }

  lemma {:induction false} CreateWalkContinues<I>(t: Tree<I>, cur: Path, init: seq<Name>, last: Name, hops: nat)
    requires ValidTree(t) && IsDirAt(t, cur)
    ensures CreateWalk(t, cur, init + [last], hops) == Continued(t, CreateWalk(t, cur, init, hops), last)
    decreases hops, |init|
  {
    hide Resolve;
    var rest := init + [last];
    if init == [] {
      assert rest == [last];
    } else {
      var next := cur + [init[0]];
      assert rest[0] == init[0] && rest[1..] == init[1..] + [last];
      if next !in t {
        MissingIsVacant(t, next);
        assert Under(cur + init, next) by { assert (cur + init)[..|next|] == next; }
        assert cur + rest == (cur + init) + [last];
      } else if t[next].node.Symbolic? {
        if hops > 0 {
          var target := Resolve(cur, t[next].node.target);
          assert target + rest[1..] == (target + init[1..]) + [last];
          CreateWalkContinues(t, [], target + init[1..], last, hops - 1);
        }
      } else if t[next].node.Dir? {
        CreateWalkContinues(t, next, init[1..], last, hops);
      }
    }
  }

  lemma ExistingIsClear<I>(t: Tree<I>, p: Path)
    requires ValidTree(t) && p in t
    ensures ClearWay(t, p)
  {
  }

  // A lazy file that is read in place is still a file, so no path resolves differently.
  lemma {:induction false} SameLinks<I>(t: Tree<I>, u: Tree<I>, cur: Path, rest: seq<Name>, hops: nat)
    requires t.Keys == u.Keys && forall p | p in t :: u[p].node == t[p].node || (u[p].node.File? && t[p].node.File?)
    ensures CreateWalk(u, cur, rest, hops) == CreateWalk(t, cur, rest, hops)
    decreases hops, |rest|
  {
    hide Resolve;
    if rest != [] {
      var next := cur + [rest[0]];
      if next in t {
        if t[next].node.Symbolic? {
          if hops > 0 { SameLinks(t, u, [], Resolve(cur, t[next].node.target) + rest[1..], hops - 1); }
        } else if |rest| > 1 && t[next].node.Dir? {
          SameLinks(t, u, next, rest[1..], hops);
        }
      }
    }
  }
}
