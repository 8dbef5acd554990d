/** From changes of the layers to steps of the plain tree: the last link between what an
    overlay call does to its upper layer and tombstones and what a caller sees. */
module OverlaySteps {
  import opened Paths
  import opened Tree
  import opened MemoryOps
  import opened MemoryDirect
  import opened PlainTree
  import opened OverlayView

  /** A call on the layers `s0` that left `s1` and returned `r` did what the plain tree decides:
      it ended alike, a failure left the view alone, a success made exactly the decided step,
      and no path became lower-sourced. */
  ghost predicate Answers(s0: Layers, s1: Layers, d: Decision, r: Result) {
    && r == d.res
    && (r.Ok? ==> Step(Merge(s0), d.effect, Merge(s1)))
    && (r.Err? ==> SameTree(Merge(s1), Merge(s0)))
    && Shrinks(s0, s1)
  }

  // What resolving in the merged view guarantees about the path it returns.
  lemma LookInView(s: Layers, p: Path, follow: bool, missing: bool)
    requires Sound(s)
    ensures var w := Look(Merge(s), p, follow, missing);
            && (w.Found? ==> w.path in Merge(s) && (follow ==> !Merge(s)[w.path].node.Symbolic?)
                             && IsDirAt(Merge(s), Parent(w.path))
                             && VisibleInfo(s, w.path).Seen?
                             && (VisibleInfo(s, w.path).upper <==> w.path in s.upper.t)
                             && Meaning(s.lower, VisibleInfo(s, w.path).node) == Merge(s)[w.path].node
                             && (w.path !in s.upper.t ==> FromLower(s, w.path) && w.path != []
                                                          && VisibleInfo(s, w.path).node == s.lower[w.path].node)
                             && (w.path in s.upper.t ==> VisibleInfo(s, w.path).node == s.upper.t[w.path].node))
            && (w.Missing? ==> missing && w.path !in Merge(s) && w.path != [] && IsDirAt(Merge(s), Parent(w.path)))
  {
    MergeValid(s);
    WalkSound(Merge(s), [], p, follow, missing, true, MAX_SYMLINK_DEPTH);
    var w := Look(Merge(s), p, follow, missing);
    if w.Found? {
      if w.path != [] { ParentIsDir(Merge(s), w.path); }
      VisibleIsMerged(s, w.path);
    }
  }

  lemma PutStep<I>(t: Tree<I>, p: Path, c: Cell<I>)
    requires p !in t && forall q | q in t :: t[q].id != c.id
    ensures Step(t, Puts(map[p := c.node]), t[p := c])
  {
  }

  lemma AliasStep<I>(t: Tree<I>, src: Path, dst: Path)
    requires Shared(t) && src in t && dst !in t
    ensures Step(t, Alias(src, dst), t[dst := t[src]])
  {
  }

  lemma DropStep<I>(t: Tree<I>, p: Path)
    requires Shared(t)
    ensures Step(t, Drop(p), Without(t, p))
  {
  }

  lemma SameIsStep<I, J>(a: Tree<I>, b: Tree<J>)
    requires SameTree(b, a)
    ensures Step(a, Nothing, b)
  {
  }

  lemma CopiedUpSame(s0: Layers, s1: Layers)
    requires CopiedUp(s0, s1)
    ensures SameTree(Merge(s0), Merge(s1))
  {
  }

  lemma NewIdIsUnused(s: Layers)
    requires Sound(s)
    ensures forall q | q in Merge(s) :: Merge(s)[q].id != Up(s.upper.next + 1)
  {
  }

  // Copying ancestors up and then adding one node is the plain step of adding the node.
  lemma AddedToView(s0: Layers, s1: Layers, p: Path, node: Node)
    requires CopiedUp(s0, s1) && p != [] && p !in Merge(s0) && IsDirAt(s1.upper.t, Parent(p)) && Backed(s1.lower, node)
    ensures Direct(s1.upper, p) && p !in s1.upper.t
    ensures var s2 := PutUpper(s1, p, node);
            Sound(s2) && Step(Merge(s0), Puts(map[p := Meaning(s1.lower, node)]), Merge(s2)) && Shrinks(s0, s2)
            && p in s2.upper.t && s2.upper.t[p].node == node
  {
    hide Merge, Step, Shrinks;
    AbsentUpstairs(s0, s1, p);
    CreateInView(s1, p, node);
    var c := Cell(Up(s1.upper.next + 1), Meaning(s1.lower, node));
    NewIdIsUnused(s1);
    PutStep(Merge(s1), p, c);
    CopiedUpSame(s0, s1);
    StepFrom(Merge(s0), Merge(s1), Puts(map[p := c.node]), Merge(s1)[p := c]);
    PutShrinks(s1, p, Cell(s1.upper.next + 1, node));
    ShrinksIgnoresNext(s1, s1.(upper := s1.upper.(t := s1.upper.t[p := Cell(s1.upper.next + 1, node)])),
        PutUpper(s1, p, node));
    ShrinksTrans(s0, s1, PutUpper(s1, p, node));
  }

  lemma AbsentUpstairs(s0: Layers, s1: Layers, p: Path)
    requires CopiedUp(s0, s1) && p !in Merge(s0)
    ensures p !in Merge(s1) && p !in s1.upper.t
  {
  }

  // A call that fails before it writes anything.
  lemma Refusal(s: Layers, d: Decision, e: Error)
    requires d.res == Err(e)
    ensures Answers(s, s, d, Err(e))
  {
  }

  // Clearing the tombstones under a new non-directory does not show.
  lemma ClearedAnswer(s0: Layers, s: Layers, p: Path, e: Effect)
    requires Sound(s) && p in s.upper.t && !s.upper.t[p].node.Dir?
    requires Step(Merge(s0), e, Merge(s)) && Shrinks(s0, s)
    ensures var s' := s.(dead := Cleared(s.dead, p));
            Sound(s') && Step(Merge(s0), e, Merge(s')) && Shrinks(s0, s')
  {
    var s' := s.(dead := Cleared(s.dead, p));
    ClearingIsInvisible(s, p);
    forall q | FromLower(s', q) ensures FromLower(s0, q) {
      FromLowerInView(s', q);
      FromLowerInView(s, q);
    }
  }

  // The source of a link is a non-directory, so copying the destination's ancestors up leaves it
  // in the layer it was in.
  lemma LinkSource(s0: Layers, s1: Layers, src: Path, dst: Path)
    requires Sound(s0) && CopiedUp(s0, s1) && OnlyDirsAdded(s0, s1, Parent(dst))
    requires src in Merge(s0) && !Merge(s0)[src].node.Dir?
    ensures src in s0.upper.t ==> src in s1.upper.t
    ensures src !in s0.upper.t ==> FromLower(s1, src) && src != [] && Lstat(s1.upper.t, src) == Failed(NotExist)
  {
    if src !in s0.upper.t {
      assert src in Merge(s1) && Merge(s1)[src].node == Merge(s0)[src].node;
      assert FromLower(s1, src);
      WalkResolved(s1.upper.t, src, false, false, false, MAX_SYMLINK_DEPTH);
    }
  }

  lemma LinkedInView(s0: Layers, s1: Layers, src: Path, dst: Path)
    requires CopiedUp(s0, s1) && src in Merge(s0) && !Merge(s0)[src].node.Dir? && src in s1.upper.t
    requires dst != [] && dst !in Merge(s0) && IsDirAt(s1.upper.t, Parent(dst))
    ensures HardLink(s1.upper, src, dst) == Out(s1.upper.(t := s1.upper.t[dst := s1.upper.t[src]]), Ok(dst))
    ensures var s2 := s1.(upper := s1.upper.(t := s1.upper.t[dst := s1.upper.t[src]]));
            Sound(s2) && Step(Merge(s0), Alias(src, dst), Merge(s2)) && Shrinks(s0, s2)
            && dst in s2.upper.t && !s2.upper.t[dst].node.Dir?
  {
    assert Merge(s1)[src].node == Merge(s0)[src].node;
    assert src != [] by { assert IsDirAt(s1.upper.t, []); }
    ParentIsDir(s1.upper.t, src);
    assert dst !in Merge(s1);
    HardLinkDirect(s1.upper, src, dst);
    AliasInView(s1, src, dst);
    MergeValid(s1);
    AliasStep(Merge(s1), src, dst);
    CopiedUpSame(s0, s1);
    StepFrom(Merge(s0), Merge(s1), Alias(src, dst), Merge(s1)[dst := Merge(s1)[src]]);
    var s2 := s1.(upper := s1.upper.(t := s1.upper.t[dst := s1.upper.t[src]]));
    PutShrinks(s1, dst, s1.upper.t[src]);
    ShrinksTrans(s0, s1, s2);
  }

  // ----- changing a node -----

  lemma ChangeShrinks(s: Layers, p: Path, node: Node)
    requires Sound(s) && p in s.upper.t && (node.Dir? <==> s.upper.t[p].node.Dir?)
    ensures Shrinks(s, s.(upper := Update(s.upper, p, node)))
  {
    var s' := s.(upper := Update(s.upper, p, node));
    forall q | FromLower(s', q) ensures FromLower(s, q) {
      ChangeAt(s, p, node, q);
      FromLowerInView(s', q);
      FromLowerInView(s, q);
    }
  }

  // Copying a node up and then changing it is the plain step of changing it.
  lemma ChangedInView(s0: Layers, s1: Layers, p: Path, node: Node)
    requires CopiedUp(s0, s1) && p in s1.upper.t && Backed(s1.lower, node)
    requires node.Dir? <==> s1.upper.t[p].node.Dir?
    ensures var s2 := s1.(upper := Update(s1.upper, p, node));
            Sound(s2) && Step(Merge(s0), Change(p, Meaning(s1.lower, node)), Merge(s2)) && Shrinks(s0, s2)
  {
    hide Merge, Step, Shrinks;
    var s2 := s1.(upper := Update(s1.upper, p, node));
    ChangeInView(s1, p, node);
    CopiedUpSame(s0, s1);
    StepFrom(Merge(s0), Merge(s1), Change(p, Meaning(s1.lower, node)), Merge(s2));
    ChangeShrinks(s1, p, node);
    ShrinksTrans(s0, s1, s2);
  }

  // The upper node at p, however it got there, is the merged one.
  lemma UpperNodeInView(s0: Layers, s1: Layers, p: Path)
    requires CopiedUp(s0, s1) && p in s1.upper.t
    ensures p in Merge(s0) && Meaning(s1.lower, s1.upper.t[p].node) == Merge(s0)[p].node
    ensures Backed(s1.lower, s1.upper.t[p].node)
    ensures ValidFS(s1.upper) && (p != [] ==> Direct(s1.upper, p))
  {
    assert Merge(s1)[p].node == Merge(s0)[p].node;
    if p != [] { ParentIsDir(s1.upper.t, p); }
  }

  lemma ChangeNothing<I>(t: Tree<I>, p: Path)
    requires Shared(t) && p in t
    ensures Step(t, Change(p, t[p].node), t)
  {
    hide NodeAfter, SharedAfter, Shared;
    var e := Change(p, t[p].node);
    forall q | q in t ensures NodeAfter(t, e, q, t[q].node) { NodeUnchanged(t, p, q); }
    forall q, r | q in t && r in t ensures t[q].id == t[r].id <==> SharedAfter(t, e, q, r) {
      SharingUnchanged(t, p, q, r);
    }
  }

  lemma NodeUnchanged<I>(t: Tree<I>, p: Path, q: Path)
    requires Shared(t) && p in t && q in t
    ensures NodeAfter(t, Change(p, t[p].node), q, t[q].node)
  {
  }

  lemma SharingUnchanged<I>(t: Tree<I>, p: Path, q: Path, r: Path)
    requires p in t && q in t && r in t
    ensures t[q].id == t[r].id <==> SharedAfter(t, Change(p, t[p].node), q, r)
  {
  }

  /** What lazy files read: the lower layer's regular files. */
  function Provider(lower: Tree<nat>): Loader {
    map p | p in lower && lower[p].node.File? && lower[p].node.content.Data? :: Loaded(lower[p].node.content.bytes)
  }

  /** The bytes a file has in the view. */
  function ViewBytes<I>(t: Tree<I>, p: Path): Bytes {
    if p in t && t[p].node.File? && t[p].node.content.Data? then t[p].node.content.bytes else []
  }

  // Opening an upper file leaves the bytes of the view in it, or none when it truncates.
  lemma OpenUpper(s0: Layers, s1: Layers, p: Path, flags: Flags, perm: nat)
    requires Sound(s0) && CopiedUp(s0, s1) && p in s1.upper.t && Merge(s0)[p].node.File?
             && !(flags.create && flags.excl)
    ensures var node := s1.upper.t[p].node;
            node.File? && p in Merge(s0)
            && var data := if flags.trunc && flags.write then [] else ViewBytes(Merge(s0), p);
            OpenFile(s1.upper, p, flags, perm, Provider(s1.lower)) ==
              Out(Update(s1.upper, p, node.(content := Data(data))), Ok(p))
            && Meaning(s1.lower, node.(content := Data(data))) == Merge(s0)[p].node.(content := Data(data))
  {
    UpperNodeInView(s0, s1, p);
    assert p != [] by { assert IsDirAt(s1.upper.t, []); }
    OpenDirect(s1.upper, p, flags, perm, Provider(s1.lower));
  }

  // A write through a fresh handle replaces the step of the open by one with the written bytes.
  lemma WrittenInView(s0: Layers, s: Layers, p: Path, e: Effect, append: bool, payload: Bytes)
    requires Sound(s) && p in s.upper.t && s.upper.t[p].node.File? && s.upper.t[p].node.content.Data?
    requires Step(Merge(s0), e, Merge(s)) && Shrinks(s0, s)
    requires (e.Change? && e.path == p && p in Merge(s0)) || (e == Puts(map[p := Merge(s)[p].node]) && p !in Merge(s0))
    ensures var data := s.upper.t[p].node.content.bytes;
            var node := s.upper.t[p].node.(content := Data(Overwrite(data, if append then |data| else 0, payload)));
            var s' := s.(upper := WriteAt(s.upper, p, append, 0, payload));
            Sound(s') && Shrinks(s0, s')
            && Step(Merge(s0), if e.Change? then Change(p, node) else Puts(map[p := node]), Merge(s'))
  {
    hide Merge, Shrinks;
    var data := s.upper.t[p].node.content.bytes;
    var node := s.upper.t[p].node.(content := Data(Overwrite(data, if append then |data| else 0, payload)));
    var s' := s.(upper := WriteAt(s.upper, p, append, 0, payload));
    ChangeInView(s, p, node);
    ChangeShrinks(s, p, node);
    ShrinksTrans(s0, s, s');
    ChangeAgain(Merge(s0), e, Merge(s), p, node, Merge(s'));
  }

  // Two changes of one node are the second one; changing a new node is adding the changed node.
  lemma ChangeAgain<I, J, K>(t: Tree<I>, e: Effect, u: Tree<J>, p: Path, node: Node, v: Tree<K>)
    requires Step(t, e, u) && Step(u, Change(p, node), v)
    requires (e.Change? && e.path == p && p in t) || (e.Puts? && e.nodes.Keys == {p} && p !in t)
    ensures Step(t, if e.Change? then Change(p, node) else Puts(map[p := node]), v)
  {
    var e' := if e.Change? then Change(p, node) else Puts(map[p := node]);
    assert ExistsAfter(t, e, p);
    forall q ensures q in v <==> ExistsAfter(t, e', q) {
      assert q in v <==> ExistsAfter(u, Change(p, node), q);
      assert q in u <==> ExistsAfter(t, e, q);
    }
    forall q | q in v ensures NodeAfter(t, e', q, v[q].node) {
      assert NodeAfter(u, Change(p, node), q, v[q].node);
      assert NodeAfter(t, e, q, u[q].node);
      assert u[q].id == u[p].id <==> SharedAfter(t, e, q, p);
    }
    forall q, r | q in v && r in v ensures v[q].id == v[r].id <==> SharedAfter(t, e', q, r) {
      assert v[q].id == v[r].id <==> SharedAfter(u, Change(p, node), q, r);
      assert u[q].id == u[r].id <==> SharedAfter(t, e, q, r);
    }
  }

  // ----- making directories -----

  // One directory, and then the rest of them beneath it.
  lemma PutsThen<I, J>(t: Tree<I>, p: Path, c: Cell<I>, nodes: map<Path, Node>, u: Tree<J>)
    requires p !in t && (forall q | q in t :: t[q].id != c.id)
    requires Step(t[p := c], Puts(nodes), u) && nodes.Keys !! t[p := c].Keys
    ensures Step(t, Puts(nodes[p := c.node]), u)
  {
    var t1, e1, e := t[p := c], Puts(nodes), Puts(nodes[p := c.node]);
    forall q ensures q in u <==> ExistsAfter(t, e, q) {
      assert q in u <==> ExistsAfter(t1, e1, q);
    }
    forall q | q in u ensures NodeAfter(t, e, q, u[q].node) {
      assert NodeAfter(t1, e1, q, u[q].node);
    }
    forall q, r | q in u && r in u ensures u[q].id == u[r].id <==> SharedAfter(t, e, q, r) {
      assert u[q].id == u[r].id <==> SharedAfter(t1, e1, q, r);
    }
  }

  lemma PutsNothing<I>(t: Tree<I>)
    ensures Step(t, Puts(map[]), t)
  {
  }

  // mkdir in the upper layer, below a merged directory and from a component the view lacks.
  lemma {:induction false} MkdirInView(s: Layers, cur: Path, rest: seq<Name>, perm: nat)
    requires Sound(s) && IsDirAt(s.upper.t, cur)
    requires rest != [] ==> cur + [rest[0]] !in Merge(s)
    ensures var o := MkdirFrom(s.upper, cur, rest, perm);
            var s' := s.(upper := o.fs);
            && o.res == Ok(cur + rest) && o.fs.implicit == s.upper.implicit
            && Sound(s') && Step(Merge(s), Puts(NewDirs(cur, rest, perm)), Merge(s')) && Shrinks(s, s')
    decreases |rest|
  {
    hide Merge, Step, Shrinks, Sound;
    if rest == [] {
      assert cur + rest == cur;
      PutsNothing(Merge(s));
      SelfShrinks(s);
    } else {
      var next := cur + [rest[0]];
      assert Parent(next) == cur && next + rest[1..] == cur + rest;
      var node := Dir(DirPerm(perm), DEFAULT_OWNER, DEFAULT_OWNER);
      var s1 := PutUpper(s, next, node);
      AbsentHere(s, next);
      CreateInView(s, next, node);
      NewIdIsUnused(s);
      PutShrinks(s, next, Cell(s.upper.next + 1, node));
      ShrinksIgnoresNext(s, s.(upper := s.upper.(t := s.upper.t[next := Cell(s.upper.next + 1, node)])), s1);
      if rest[1..] != [] {
        NothingBeneath(s, next, rest[1..]);
      }
      MkdirInView(s1, next, rest[1..], perm);
      NewDirsOutside(s, next, rest[1..], perm);
      var s2 := s1.(upper := MkdirFrom(s1.upper, next, rest[1..], perm).fs);
      PutsThen(Merge(s), next, Cell(Up(s.upper.next + 1), node), NewDirs(next, rest[1..], perm), Merge(s2));
      ShrinksTrans(s, s1, s2);
    }
  }

  lemma SelfShrinks(s: Layers)
    ensures Shrinks(s, s)
  {
  }

  lemma AbsentHere(s: Layers, p: Path)
    requires Sound(s) && p !in Merge(s)
    ensures p !in s.upper.t
  {
  }

  lemma NothingBeneath(s: Layers, p: Path, rest: seq<Name>)
    requires Sound(s) && p !in Merge(s) && rest != []
    ensures p + [rest[0]] !in Merge(s) && p + [rest[0]] != p
  {
    MergeValid(s);
    MissingIsVacant(Merge(s), p);
    assert (p + [rest[0]])[..|p|] == p;
    assert Under(p + [rest[0]], p);
  }

  lemma NewDirsOutside(s: Layers, p: Path, rest: seq<Name>, perm: nat)
    requires Sound(s) && p !in Merge(s)
    ensures NewDirs(p, rest, perm).Keys !! Merge(s).Keys + {p}
  {
    MergeValid(s);
    MissingIsVacant(Merge(s), p);
    forall q | q in NewDirs(p, rest, perm) ensures q !in Merge(s) && q != p {
      NewDirsAt(p, rest, perm, q);
      assert q[..|p|] == (p + rest)[..|p|] == p;
    }
  }

  lemma StepAfterCopy(s0: Layers, s1: Layers, e: Effect, s2: Layers)
    requires CopiedUp(s0, s1) && Step(Merge(s1), e, Merge(s2)) && Shrinks(s1, s2)
    ensures Step(Merge(s0), e, Merge(s2)) && Shrinks(s0, s2)
  {
    hide Merge, Step;
    CopiedUpSame(s0, s1);
    StepFrom(Merge(s0), Merge(s1), e, Merge(s2));
    ShrinksTrans(s0, s1, s2);
  }

  lemma SoundParts(s: Layers)
    requires Sound(s)
    ensures ValidFS(s.upper) && IsDirAt(s.upper.t, []) && ValidTree(s.lower)
  {
  }

  lemma NothingHappened(s: Layers)
    requires Sound(s)
    ensures Step(Merge(s), Nothing, Merge(s)) && Shrinks(s, s)
  {
    hide Merge;
    SameIsStep(Merge(s), Merge(s));
  }

  lemma UpperShows(s: Layers, p: Path)
    requires p in s.upper.t
    ensures p in Merge(s) && Merge(s)[p].node == Meaning(s.lower, s.upper.t[p].node)
  {
  }

  lemma LowerFileUnchanged(s: Layers, p: Path)
    requires Sound(s) && FromLower(s, p) && p in Merge(s) && Merge(s)[p].node.File?
    ensures Step(Merge(s), Change(p, Merge(s)[p].node.(content := Data(ViewBytes(Merge(s), p)))), Merge(s))
            && Shrinks(s, s)
  {
    MergeValid(s);
    assert Merge(s)[p].node == s.lower[p].node;
    ChangeNothing(Merge(s), p);
  }

  lemma NodeAfterStep(s0: Layers, s: Layers, e: Effect, p: Path)
    requires Step(Merge(s0), e, Merge(s)) && p in Merge(s)
    ensures e.Change? && e.path == p && p in Merge(s0) ==> Merge(s)[p].node == e.node
    ensures e.Puts? && p in e.nodes ==> Merge(s)[p].node == e.nodes[p]
  {
    assert NodeAfter(Merge(s0), e, p, Merge(s)[p].node);
  }

  lemma NextSeen(s: Layers, cur: Path, n: Name)
    requires Sound(s) && IsDirAt(Merge(s), cur)
    ensures var next := cur + [n];
            && IsDirAt(Merge(s), Parent(next))
            && (VisibleInfo(s, next).Seen? <==> next in Merge(s))
            && (next in Merge(s) ==> Meaning(s.lower, VisibleInfo(s, next).node) == Merge(s)[next].node)
  {
    assert Parent(cur + [n]) == cur;
    VisibleIsMerged(s, cur + [n]);
  }

  lemma OverwriteAtEnds(data: Bytes, payload: Bytes)
    ensures Overwrite(data, 0, []) == data && Overwrite(data, |data|, []) == data
            && Overwrite([], 0, payload) == payload
  {
    assert data[..0] + [] + data[0..] == data;
    assert data[..|data|] + [] + [] == data;
  }

  // What an open decides, with and without something to write through its handle.
  lemma OpenDecisions<I>(t: Tree<I>, p: Path, flags: Flags, perm: nat, payload: Bytes)
    ensures var w := Look(t, p, !(flags.create && flags.excl), flags.create);
            var d0, d := DecideOpen(t, p, flags, perm, []), DecideOpen(t, p, flags, perm, payload);
            var fresh0 := File(FilePerm(perm), DEFAULT_OWNER, DEFAULT_OWNER, Data([]));
            && d.res == d0.res && (!flags.write ==> d == d0)
            && (w.Missing? ==>
                  && d0 == Decision(Ok(w.path), Puts(map[w.path := fresh0]))
                  && (flags.write ==>
                      d.effect == Puts(map[w.path := fresh0.(content := Data(Overwrite([], 0, payload)))])))
            && (w.Found? && !(flags.create && flags.excl) && w.path in t && t[w.path].node.File? ==>
                  var data := if flags.trunc && flags.write then [] else ViewBytes(t, w.path);
                  && d0 == Decision(Ok(w.path), Change(w.path, t[w.path].node.(content := Data(data))))
                  && (flags.write ==> d.effect == Change(w.path, t[w.path].node.(content :=
                                                  Data(Overwrite(data, if flags.append then |data| else 0, payload))))))
            && (d0.res.Ok? ==> !w.Failed? && d0.res.path == w.path
                               && (w.Found? ==> !(flags.create && flags.excl) && w.path in t && t[w.path].node.File?))
  {
    OverwriteAtEnds([], payload);
    forall data: Bytes ensures Overwrite(data, 0, []) == data && Overwrite(data, |data|, []) == data {
      OverwriteAtEnds(data, payload);
    }
  }
}
