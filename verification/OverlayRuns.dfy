/** Whole runs of OverlayFS against the plain tree.

    Two calls of the overlay can depart from what a plain tree would do (`Diverges`): a removal
    and a rename, both when the lower layer cannot answer a lookup. A removal that departs has
    either been made and reported as an error, or been refused, and `FateOf` says which; runs go
    on past it. A rename that departs stops half way, and runs are followed up to there.
 */
module OverlayRuns {
  import opened Paths
  import opened Tree
  import opened MemoryOps
  import opened PlainTree
  import opened OverlayView
  import opened OverlaySteps
  import opened OverlayMove
  import opened OverlayFS
  import opened PlainLaws

  /** How a call on these layers ends compared with the plain tree. */
  ghost function FateOf(s: Layers, cwd: Path, call: Call): Fate {
    match call
    case RemoveCall(name, recursive) => RemoveFate(s, Resolve(cwd, name), recursive)
    case RenameCall(src, dst) => RenameFate(s, Resolve(cwd, src), Resolve(cwd, dst))
    case _ => AsDecided
  }

  /** The call does not do what the plain tree does. */
  ghost predicate Diverges(s: Layers, cwd: Path, call: Call) {
    !FateOf(s, cwd, call).AsDecided?
  }

  /** One call of any kind: it departs from the plain tree if and only if `Diverges` holds before
      it, and then ends as its fate says. */
  method Perform(o: OverlayFS, call: Call) returns (r: Result)
    requires o.Valid()
    modifies o`upper, o`lowerDirs, o`tombstones
    ensures o.Valid()
    ensures Ends(old(o.State()), o.State(), Decide(old(o.View()), o.cwd, call), FateOf(old(o.State()), o.cwd, call), r)
    ensures Diverges(old(o.State()), o.cwd, call) <==>
            !Answers(old(o.State()), o.State(), Decide(old(o.View()), o.cwd, call), r)
    ensures !Diverges(old(o.State()), o.cwd, call) ==> CallsAs(old(o.View()), o.View(), o.cwd, call, r)
  {
    hide Merge, Sound, Walk, Answers, RemoveFate, RenameFate, CallsAs, RemovesAs, RenamesAs, Lost, Arrives,
         RenameRefused;
    match call {
      case OpenCall(name, flags, perm, payload) => r := o.WriteFile(name, flags, perm, payload);
      case MkdirCall(name, perm) => r := o.MkdirAll(name, perm);
      case SymlinkCall(target, name) => r := o.Symlink(target, name);
      case LinkCall(src, dst) => r := o.Link(src, dst);
      case ChmodCall(name, mode) => r := o.Chmod(name, mode);
      case ChownCall(name, uid, gid, follow) => r := o.Chown(name, uid, gid, follow);
      case RemoveCall(name, recursive) => r := o.Remove(Resolve(o.cwd, name), recursive);
      case RenameCall(src, dst) => r := o.Rename(src, dst);
    }
    FateIsExact(old(o.State()), o.State(), Decide(old(o.View()), o.cwd, call), FateOf(old(o.State()), o.cwd, call), r);
    if !Diverges(old(o.State()), o.cwd, call) { AnswersShown(old(o.State()), o.State(), o.cwd, call, r); }
  }

  /** A call that does what the plain tree does keeps the law of its kind. */
  lemma AnswersShown(s0: Layers, s1: Layers, cwd: Path, call: Call, r: Result)
    requires Sound(s0) && Answers(s0, s1, Decide(Merge(s0), cwd, call), r)
    ensures CallsAs(Merge(s0), Merge(s1), cwd, call, r)
  {
    hide Merge, Sound, Decide, Step, SameTree, Shrinks, CallsAs;
    MergeValid(s0);
    CallKeeps(Merge(s0), Merge(s1), cwd, call, r);
  }

  // ----- the reference run -----

  datatype Reference = Reference(t: Tree<Tag>, results: seq<Result>)

  /** What a call reports, and whether its step is made. */
  function Outcome(d: Decision, fate: Fate): Result {
    if fate.Reported? || fate.Declined? then Err(fate.error) else d.res
  }

  predicate Made(d: Decision, fate: Fate) {
    d.res.Ok? && !fate.Declined?
  }

  /** The plain tree after these calls, and how each of them ended, when the calls have these fates. */
  function Run(t: Tree<Tag>, calls: seq<Call>, fates: seq<Fate>): Reference
    requires |calls| == |fates|
    decreases |calls|
  {
    if calls == [] then Reference(t, [])
    else
      var n := |calls|;
      var before := Run(t, calls[..n - 1], fates[..n - 1]);
      var d := Decide(before.t, [], calls[n - 1]);
      Reference(if Made(d, fates[n - 1]) then Apply(before.t, d.effect, n) else before.t,
                before.results + [Outcome(d, fates[n - 1])])
  }

  /** The plain tree an overlay starts as: every lower entry with a node of its own, under the
      overlay's own root directory. */
  function Initial(base: Tree<nat>): Tree<Tag> {
    map p | p in base :: Cell(Tag(0, p), if p == [] then EMPTY_TREE[[]].node else base[p].node)
  }

  lemma SameValid<I, J>(a: Tree<I>, b: Tree<J>)
    requires SameTree(a, b) && ValidTree(a)
    ensures ValidTree(b)
  {
    forall p, k | p in b && 0 <= k < |p| ensures IsDirAt(b, p[..k]) {
      assert IsDirAt(a, p[..k]) && b[p[..k]].node == a[p[..k]].node;
    }
    assert IsDirAt(a, []);
  }

  /** What one call that did not stop half way does to a tree. */
  ghost predicate Follows<I>(m: Tree<I>, m': Tree<I>, d: Decision, fate: Fate, r: Result) {
    r == Outcome(d, fate) && if Made(d, fate) then Step(m, d.effect, m') else SameTree(m', m)
  }

  lemma EndsFollows(s: Layers, s': Layers, d: Decision, fate: Fate, r: Result)
    requires Ends(s, s', d, fate, r) && !fate.Stuck?
    ensures Follows(Merge(s), Merge(s'), d, fate, r) && Shrinks(s, s')
  {
    hide Merge, Step, SameTree, Shrinks;
  }

  // One call on two trees that are the same: the reference takes the same step.
  lemma ReferenceStep(m: Tree<MergedId>, m': Tree<MergedId>, t: Tree<Tag>, call: Call, fate: Fate, now: nat, r: Result)
    requires ValidTree(m) && SameTree(m, t) && Before(t, now)
    requires Follows(m, m', Decide(m, [], call), fate, r)
    ensures var d := Decide(t, [], call);
            var t' := if Made(d, fate) then Apply(t, d.effect, now) else t;
            r == Outcome(d, fate) && SameTree(m', t') && Before(t', now + 1)
  {
    hide Walk;
    SameValid(m, t);
    DecideSame(m, t, [], call);
    DecideSensible(t, [], call);
    var d := Decide(t, [], call);
    if Made(d, fate) {
      ApplySteps(t, d.effect, now);
      StepSame(m, t, d.effect, m', Apply(t, d.effect, now));
    } else {
      SameTrans(m', m, t);
    }
  }

  /** The paths an overlay still takes from its lower layer. */
  ghost function LowerSourced(s: Layers): set<Path> {
    set p | p in s.lower && FromLower(s, p)
  }

  lemma LowerSourcedShrinks(s: Layers, s': Layers)
    requires Shrinks(s, s')
    ensures LowerSourced(s') <= LowerSourced(s)
  {
    forall p | p in LowerSourced(s') ensures p in LowerSourced(s) {
      assert FromLower(s, p);
    }
  }

  /** After these calls the results and the view are those of the plain tree. */
  ghost predicate AgreesAt(base: Tree<nat>, calls: seq<Call>, results: seq<Result>, s: Layers, fates: seq<Fate>)
    requires |calls| == |fates|
  {
    results == Run(Initial(base), calls, fates).results && SameTree(Merge(s), Run(Initial(base), calls, fates).t)
  }

  /** The first `n` calls ended as recorded. `fates` are those of the calls before the first one that
      stopped half way: there the results and the views are those of the plain tree, and a path
      that is no longer taken from the lower layer is never taken from it again. */
  ghost predicate Agrees(base: Tree<nat>, calls: seq<Call>, n: nat, results: seq<Result>, states: seq<Layers>,
                         fates: seq<Fate>)
    requires n <= |calls|
  {
    && |results| == n && |states| == n + 1 && |fates| <= n
    && (forall i | 0 <= i <= n :: Sound(states[i]) && states[i].lower == base)
    && (forall i | 0 <= i <= |fates| :: AgreesAt(base, calls[..i], results[..i], states[i], fates[..i]))
    && (forall i, j | 0 <= i <= j <= |fates| :: LowerSourced(states[j]) <= LowerSourced(states[i]))
    && (forall i | 0 <= i < |fates| :: fates[i] == FateOf(states[i], [], calls[i]) && !fates[i].Stuck?)
    && (|fates| < n ==> FateOf(states[|fates|], [], calls[|fates|]).Stuck? && results[|fates|].Err?)
  }

  /** The fates with that of the next call, unless the run stopped before it or stops there. */
  ghost function NextFates(s: Layers, call: Call, fates: seq<Fate>, n: nat): seq<Fate> {
    if |fates| == n && !FateOf(s, [], call).Stuck? then fates + [FateOf(s, [], call)] else fates
  }

  lemma StillAgrees(base: Tree<nat>, calls: seq<Call>, n: nat, results: seq<Result>, states: seq<Layers>,
                    fates: seq<Fate>, r: Result, s: Layers)
    requires n < |calls| && Agrees(base, calls, n, results, states, fates)
    requires Before(Run(Initial(base), calls[..|fates|], fates).t, |fates| + 1)
    requires Sound(s) && s.lower == base
    requires Ends(states[n], s, Decide(Merge(states[n]), [], calls[n]), FateOf(states[n], [], calls[n]), r)
    ensures var fates' := NextFates(states[n], calls[n], fates, n);
            && |fates'| <= n + 1 && Agrees(base, calls, n + 1, results + [r], states + [s], fates')
            && Before(Run(Initial(base), calls[..|fates'|], fates').t, |fates'| + 1)
  {
    hide Merge, Sound, Shrinks, SameTree, Step, Decide, FateOf, Walk, FromLower, Run, Before, Ends, LowerSourced;
    if |fates| == n && !FateOf(states[n], [], calls[n]).Stuck? {
      AgreesFurther(base, calls, n, results, states, fates, r, s);
    } else {
      assert forall i | 0 <= i <= |fates| :: (results + [r])[..i] == results[..i];
      if |fates| == n { EndsStuck(states[n], s, Decide(Merge(states[n]), [], calls[n]), r); }
    }
  }

  // A call that does not stop half way, in a run that has not stopped.
  lemma AgreesFurther(base: Tree<nat>, calls: seq<Call>, n: nat, results: seq<Result>, states: seq<Layers>,
                      fates: seq<Fate>, r: Result, s: Layers)
    requires n < |calls| && |fates| == n && Agrees(base, calls, n, results, states, fates)
    requires Before(Run(Initial(base), calls[..n], fates).t, n + 1)
    requires Sound(s) && s.lower == base && !FateOf(states[n], [], calls[n]).Stuck?
    requires Ends(states[n], s, Decide(Merge(states[n]), [], calls[n]), FateOf(states[n], [], calls[n]), r)
    ensures var fates' := fates + [FateOf(states[n], [], calls[n])];
            && Agrees(base, calls, n + 1, results + [r], states + [s], fates')
            && Before(Run(Initial(base), calls[..n + 1], fates').t, n + 2)
  {
    hide Merge, Sound, Shrinks, SameTree, Step, Decide, FateOf, Walk, FromLower, Run, Before, Ends, LowerSourced,
         AgreesAt;
    var fate := FateOf(states[n], [], calls[n]);
    var fates', results', states' := fates + [fate], results + [r], states + [s];
    assert fates[..n] == fates && results[..n] == results;
    assert fates'[..n + 1] == fates' && results'[..n + 1] == results';
    AgreesNext(base, calls, n, results, states[n], fates, r, s);
    forall i | 0 <= i <= n + 1 ensures AgreesAt(base, calls[..i], results'[..i], states'[i], fates'[..i]) {
      if i <= n { assert results'[..i] == results[..i] && fates'[..i] == fates[..i] && states'[i] == states[i]; }
    }
  }

  lemma AgreesNext(base: Tree<nat>, calls: seq<Call>, n: nat, results: seq<Result>, s: Layers, fates: seq<Fate>,
                   r: Result, s': Layers)
    requires n < |calls| && |fates| == n && AgreesAt(base, calls[..n], results, s, fates)
    requires Before(Run(Initial(base), calls[..n], fates).t, n + 1)
    requires Sound(s) && !FateOf(s, [], calls[n]).Stuck?
    requires Ends(s, s', Decide(Merge(s), [], calls[n]), FateOf(s, [], calls[n]), r)
    ensures var fates' := fates + [FateOf(s, [], calls[n])];
            && AgreesAt(base, calls[..n + 1], results + [r], s', fates')
            && Before(Run(Initial(base), calls[..n + 1], fates').t, n + 2)
    ensures LowerSourced(s') <= LowerSourced(s)
  {
    hide Merge, Sound, Shrinks, SameTree, Step, Decide, FateOf, Walk, FromLower, Run, Before, Ends, Follows,
         LowerSourced;
    var fate := FateOf(s, [], calls[n]);
    MergeValid(s);
    EndsFollows(s, s', Decide(Merge(s), [], calls[n]), fate, r);
    LowerSourcedShrinks(s, s');
    ReferenceStep(Merge(s), Merge(s'), Run(Initial(base), calls[..n], fates).t, calls[n], fate, n + 1, r);
    RunExtends(Initial(base), calls, fates, fate, n);
  }

  lemma EndsStuck(s: Layers, s': Layers, d: Decision, r: Result)
    requires Ends(s, s', d, Stuck, r)
    ensures r.Err?
  {
  }

  lemma RunExtends(t: Tree<Tag>, calls: seq<Call>, fates: seq<Fate>, fate: Fate, n: nat)
    requires n < |calls| && |fates| == n
    ensures var before := Run(t, calls[..n], fates);
            var d := Decide(before.t, [], calls[n]);
            Run(t, calls[..n + 1], fates + [fate]) ==
              Reference(if Made(d, fate) then Apply(before.t, d.effect, n + 1) else before.t,
                        before.results + [Outcome(d, fate)])
  {
    assert calls[..n + 1][..n] == calls[..n] && (fates + [fate])[..n] == fates;
  }

  /** A whole run: as long as no rename has stopped half way, the results and the views are those of
      the plain tree under the fates of the calls, and a path no longer taken from the lower layer
      is never taken from it again. The rename that stops reports an error. The lower tree is the
      same throughout. */
  ghost predicate Faithful(base: Tree<nat>, calls: seq<Call>, results: seq<Result>, states: seq<Layers>) {
    && |results| == |calls| && |states| == |calls| + 1
    && (forall i | 0 <= i <= |calls| :: Sound(states[i]) && states[i].lower == base)
    && (forall n | 0 <= n <= |calls| && Unbroken(calls, states, n) ::
          && results[..n] == Run(Initial(base), calls[..n], Fates(calls, states, n)).results
          && SameTree(Merge(states[n]), Run(Initial(base), calls[..n], Fates(calls, states, n)).t)
          && (forall i | 0 <= i <= n :: LowerSourced(states[n]) <= LowerSourced(states[i]))
          && (n < |calls| && FateOf(states[n], [], calls[n]).Stuck? ==> results[n].Err?))
  }

  ghost function Fates(calls: seq<Call>, states: seq<Layers>, n: nat): (fates: seq<Fate>)
    requires n <= |calls| && n <= |states|
    ensures |fates| == n
  {
    seq(n, i requires 0 <= i < n => FateOf(states[i], [], calls[i]))
  }

  /** None of the first `n` calls is a rename that stops half way. */
  ghost predicate Unbroken(calls: seq<Call>, states: seq<Layers>, n: nat)
    requires n <= |calls| && |states| == |calls| + 1
  {
    forall i | 0 <= i < n :: !FateOf(states[i], [], calls[i]).Stuck?
  }

  lemma AgreesIsFaithful(base: Tree<nat>, calls: seq<Call>, results: seq<Result>, states: seq<Layers>, fates: seq<Fate>)
    requires Agrees(base, calls, |calls|, results, states, fates)
    ensures Faithful(base, calls, results, states)
  {
    hide Merge, Sound, SameTree, FateOf, FromLower, Run, LowerSourced;
    forall n | 0 <= n <= |calls| && Unbroken(calls, states, n)
      ensures n <= |fates| && Fates(calls, states, n) == fates[..n]
    {
    }
  }

  /** The plain tree after these calls, with nothing said about layers. */
  function Plain(t: Tree<Tag>, calls: seq<Call>): Reference
    decreases |calls|
  {
    if calls == [] then Reference(t, [])
    else
      var n := |calls|;
      var before := Plain(t, calls[..n - 1]);
      var d := Decide(before.t, [], calls[n - 1]);
      Reference(if d.res.Ok? then Apply(before.t, d.effect, n) else before.t, before.results + [d.res])
  }

  /** A run in which no call diverges is that of the plain tree. */
  lemma {:induction false} PlainRun(t: Tree<Tag>, calls: seq<Call>, fates: seq<Fate>)
    requires |calls| == |fates| && forall i | 0 <= i < |fates| :: fates[i].AsDecided?
    ensures Run(t, calls, fates) == Plain(t, calls)
    decreases |calls|
  {
    hide Decide, Apply;
    if calls != [] {
      PlainRun(t, calls[..|calls| - 1], fates[..|calls| - 1]);
    }
  }

  /** Any run of calls on a fresh overlay; `states` are the layers after each call. */
  method Replay(base: Tree<nat>, calls: seq<Call>) returns (o: OverlayFS, results: seq<Result>, states: seq<Layers>)
    requires ValidTree(base) && Readable(base)
    ensures o.Valid() && Faithful(base, calls, results, states) && o.State() == states[|calls|]
  {
    hide Merge, Sound, Shrinks, SameTree, Step, Decide, FateOf, Walk, FromLower, Answers, Run, Agrees, Before, Ends;
    hide Unbroken, LowerSourced, Faithful, NextFates;
    o := new OverlayFS(base);
    StartsAlike(base, o.State());
    results, states := [], [o.State()];
    ghost var fates: seq<Fate> := [];
    StartAgrees(base, calls, o.State());
    var i := 0;
    while i < |calls|
      invariant 0 <= i <= |calls| && |fates| <= i && |states| == i + 1
      invariant Agrees(base, calls, i, results, states, fates)
      invariant Before(Run(Initial(base), calls[..|fates|], fates).t, |fates| + 1)
      invariant o.Valid() && o.lower == base && o.cwd == [] && states[i] == o.State()
    {
      var r := Perform(o, calls[i]);
      StillAgrees(base, calls, i, results, states, fates, r, o.State());
      fates := NextFates(states[i], calls[i], fates, i);
      results, states := results + [r], states + [o.State()];
      i := i + 1;
    }
    AgreesIsFaithful(base, calls, results, states, fates);
    FaithfulSize(base, calls, results, states);
  }

  lemma FaithfulSize(base: Tree<nat>, calls: seq<Call>, results: seq<Result>, states: seq<Layers>)
    requires Faithful(base, calls, results, states)
    ensures |states| == |calls| + 1
  {
  }

  lemma StartAgrees(base: Tree<nat>, calls: seq<Call>, s: Layers)
    requires Sound(s) && s.lower == base && SameTree(Merge(s), Initial(base)) && Before(Initial(base), 1)
    ensures Agrees(base, calls, 0, [], [s], []) && Before(Run(Initial(base), calls[..0], []).t, 1)
  {
    assert calls[..0] == [];
  }

  lemma StartsAlike(base: Tree<nat>, s: Layers)
    requires Merge(s).Keys == base.Keys && [] in base
    requires forall p | p in base && p != [] :: Merge(s)[p] == Cell(Low(p), base[p].node)
    requires Merge(s)[[]] == Cell(Up(1), EMPTY_TREE[[]].node)
    ensures SameTree(Merge(s), Initial(base)) && Before(Initial(base), 1)
  {
  }

  // ----- the two calls that depart, reached by calls -----

  const F: Path := ["f"]
  const X: Path := ["f", "x"]
  const G: Path := ["g"]

  /** A lower layer with one file, /f. */
  const LOWER_FILE: Tree<nat> :=
    map[[] := Cell(1, Dir(0x1ed, DEFAULT_OWNER, DEFAULT_OWNER)),
        F := Cell(2, File(0x1a4, DEFAULT_OWNER, DEFAULT_OWNER, Data([])))]

  lemma LowerFile()
    ensures ValidTree(LOWER_FILE) && Readable(LOWER_FILE) && Lstat(LOWER_FILE, F).Found?
            && Lstat(LOWER_FILE, X) == Failed(Invalid)
  {
    assert F[..0] == [] && X[..0] == [];
    assert [] + [F[0]] == F && [] + [X[0]] == F;
    forall p, k | p in LOWER_FILE && 0 <= k < |p| ensures IsDirAt(LOWER_FILE, p[..k]) {
      assert p == F && p[..k] == [];
    }
  }

  /** Remove /f on a view that has nothing else. */
  lemma OnlyFile<I, J>(t: Tree<I>, u: Tree<J>)
    requires ValidTree(t) && t.Keys == {[], F} && t[F].node.File?
    ensures DecideRemove(t, F, false) == Decision(Ok(F), Drop(F))
            && Look(t, F, false, false) == Found(F, MAX_SYMLINK_DEPTH)
    ensures Step(t, Drop(F), u) ==> u.Keys == {[]}
  {
    WalkResolved(t, F, false, false, true, MAX_SYMLINK_DEPTH);
    if Step(t, Drop(F), u) {
      forall p ensures p in u <==> p == [] { assert p in u <==> ExistsAfter(t, Drop(F), p); }
    }
  }

  /** What a mkdir of /f or of /f/x makes on an empty view. */
  lemma MadeDirs<I, J>(t: Tree<I>, u: Tree<J>, p: Path)
    requires ValidTree(t) && t.Keys == {[]} && (p == F || p == X)
    ensures DecideMkdir(t, [], p, 0x1ed).res == Ok(p)
    ensures Step(t, DecideMkdir(t, [], p, 0x1ed).effect, u) ==>
              u.Keys == (if p == F then {[], F} else {[], F, X}) && IsDirAt(u, F) && (p == X ==> IsDirAt(u, X))
  {
    var d := Dir(DirPerm(0x1ed), DEFAULT_OWNER, DEFAULT_OWNER);
    assert [] + [p[0]] == F && [] + p == p;
    assert NewDirs(X, [], 0x1ed) == map[];
    assert NewDirs(F, X[1..], 0x1ed) == map[X := d] by { assert F + [X[1..][0]] == X && X[1..][1..] == []; }
    assert NewDirs(F, [], 0x1ed) == map[];
    var nodes := NewDirs([], p, 0x1ed);
    assert nodes == if p == F then map[F := d] else map[F := d, X := d] by {
      assert p[1..] == if p == F then [] else X[1..];
    }
    if Step(t, Puts(nodes), u) {
      forall q ensures q in u <==> q == [] || q in nodes { assert q in u <==> ExistsAfter(t, Puts(nodes), q); }
      assert NodeAfter(t, Puts(nodes), F, u[F].node);
      assert p == X ==> NodeAfter(t, Puts(nodes), X, u[X].node);
    }
  }

  const CREATE := Flags(true, true, false, false, false)

  /** What creating /f/x makes in the new directory /f. */
  lemma MadeFile<I, J>(t: Tree<I>, u: Tree<J>)
    requires ValidTree(t) && t.Keys == {[], F} && IsDirAt(t, F)
    ensures DecideOpen(t, X, CREATE, 0x1a4, []).res == Ok(X)
    ensures Step(t, DecideOpen(t, X, CREATE, 0x1a4, []).effect, u) ==>
              u.Keys == {[], F, X} && IsDirAt(u, F) && u[X].node.File?
  {
    assert Parent(X) == F;
    assert X[..1] == F && X[..0] == [];
    WalkResolved(t, X, true, true, true, MAX_SYMLINK_DEPTH);
    var e := DecideOpen(t, X, CREATE, 0x1a4, []).effect;
    if Step(t, e, u) {
      forall q ensures q in u <==> q in {[], F, X} { assert q in u <==> ExistsAfter(t, e, q); }
      assert NodeAfter(t, e, F, u[F].node) && NodeAfter(t, e, X, u[X].node);
    }
  }

  // With /f a lower file, an entry /f/x of the view has a lookup the lower layer cannot answer.
  lemma EntryOverFile(s: Layers, recursive: bool)
    requires Sound(s) && s.lower == LOWER_FILE && Merge(s).Keys == {[], F, X} && IsDirAt(Merge(s), F)
    ensures Look(Merge(s), X, false, false) == Found(X, MAX_SYMLINK_DEPTH) && Blocked(s, X)
            && Children(Merge(s), X) == {}
    ensures DecideRemove(Merge(s), X, recursive) == Decision(Ok(X), Drop(X))
    ensures RemoveFate(s, X, recursive) ==
            if IsDirAt(Merge(s), X) && !recursive then Declined(Invalid) else Reported(Invalid)
  {
    LowerFile();
    MergeValid(s);
    assert X[..1] == F && X[..0] == [];
    WalkResolved(Merge(s), X, false, false, true, MAX_SYMLINK_DEPTH);
    forall n ensures n !in Children(Merge(s), X) { ChildAt(Merge(s), X, n); }
    BlockedIsTrouble(s, X);
  }

  lemma FileFate(s: Layers)
    requires Sound(s) && s.lower == LOWER_FILE && Merge(s).Keys == {[], F} && Merge(s)[F].node.File?
    ensures RemoveFate(s, F, false) == AsDecided
  {
    LowerFile();
    MergeValid(s);
    OnlyFile(Merge(s), Merge(s));
  }

  lemma Named(p: Path)
    requires p == F || p == X || p == G
    ensures Resolve([], Raw(true, p)) == p
  {
    assert X[1..] == ["x"] && F[1..] == [] && G[1..] == [] && X[1..][1..] == [];
    assert Enter([], "f") == F && Enter(F, "x") == X && Enter([], "g") == G;
  }

  /** A new overlay over the file /f, after removing /f. */
  method WithoutFile() returns (o: OverlayFS)
    ensures fresh(o) && o.Valid() && o.lower == LOWER_FILE && o.cwd == [] && o.View().Keys == {[]}
  {
    hide Merge, Sound, Step, Walk, RemoveFate, Decide, RemovesAs, Lost;
    LowerFile();
    o := new OverlayFS(LOWER_FILE);
    Named(F);
    MergeValid(o.State());
    FileFate(o.State());
    OnlyFile(o.View(), o.View());
    ghost var before := o.View();
    var r := o.Remove(F, false);
    OnlyFile(before, o.View());
  }

  /** Remove /f, make a directory /f, create /f/x, remove /f/x: the last call takes /f/x out of the
      view and reports an error, because the lower layer answers the lookup of /f/x with "not a
      directory". A plain tree would report success. */
  method ReportedRemoval() returns (o: OverlayFS, results: seq<Result>, before: Layers)
    ensures o.Valid() && results == [Ok(F), Ok(X), Err(Invalid)]
    ensures DecideRemove(Merge(before), X, false) == Decision(Ok(X), Drop(X)) && X in Merge(before) && X !in o.View()
    ensures Diverges(before, [], RemoveCall(Raw(true, X), false))
  {
    hide Merge, Sound, Step, Walk, RemoveFate, DecideMkdir, DecideOpen, DecideRemove, RemovesAs, Lost, SameTree;
    o := WithoutFile();
    Named(F);
    Named(X);
    ghost var t := o.View();
    MergeValid(o.State());
    MadeDirs(t, t, F);
    var r := o.MkdirAll(Raw(true, F), 0x1ed);
    results := [r];
    MadeDirs(t, o.View(), F);
    t := o.View();
    MergeValid(o.State());
    MadeFile(t, t);
    r := o.WriteFile(Raw(true, X), CREATE, 0x1a4, []);
    results := results + [r];
    MadeFile(t, o.View());
    before := o.State();
    EntryOverFile(before, false);
    r := o.Remove(X, false);
    results := results + [r];
    Dropped(Merge(before), o.View(), X);
  }

  lemma Dropped<I, J>(t: Tree<I>, u: Tree<J>, p: Path)
    requires Step(t, Drop(p), u)
    ensures p !in u
  {
    assert p[..|p|] == p;
    assert !ExistsAfter(t, Drop(p), p);
  }

  /** Remove /f, make the directories /f and /f/x, rename /f to /g: a plain tree would move both, the
      overlay fails when it has to list /f/x. */
  method StuckRename() returns (o: OverlayFS, results: seq<Result>, before: Layers)
    ensures o.Valid() && |results| == 2 && results[0] == Ok(X) && results[1].Err?
    ensures DecideRename(Merge(before), F, G) == Decision(Ok(G), Move(F, G))
    ensures Diverges(before, [], RenameCall(Raw(true, F), Raw(true, G)))
  {
    hide Merge, Sound, Step, Walk, RemoveFate, DecideMkdir, DecideRename, RenamesAs, Arrives, RenameRefused;
    o := WithoutFile();
    Named(F);
    Named(X);
    Named(G);
    ghost var t := o.View();
    MergeValid(o.State());
    MadeDirs(t, t, X);
    var r := o.MkdirAll(Raw(true, X), 0x1ed);
    results := [r];
    MadeDirs(t, o.View(), X);
    before := o.State();
    RenameIsStuck(before);
    r := o.Rename(Raw(true, F), Raw(true, G));
    results := results + [r];
  }

  lemma RenameIsStuck(s: Layers)
    requires Sound(s) && s.lower == LOWER_FILE && Merge(s).Keys == {[], F, X} && IsDirAt(Merge(s), F)
             && IsDirAt(Merge(s), X)
    ensures DecideRename(Merge(s), F, G) == Decision(Ok(G), Move(F, G)) && RenameFate(s, F, G) == Stuck
  {
    hide Merge, Sound;
    MergeValid(s);
    assert F[..0] == [] && G[..0] == [] && X[..|F|] == F;
    WalkResolved(Merge(s), F, false, false, true, MAX_SYMLINK_DEPTH);
    WalkResolved(Merge(s), G, false, true, true, MAX_SYMLINK_DEPTH);
    assert G[..|G|] == G && G != F;
    EntryOverFile(s, false);
    BlockedIsTrouble(s, X);
    assert Under(X, F) && IsDirAt(Merge(s), X) && Troubled(s, X);
  }
}
