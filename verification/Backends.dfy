/** The two in-memory backends side by side (fs/memory.go, fs/trie.go).

    Whatever sequence of calls is made on a new MemoryFS and on a new TrieFS, each call succeeds
    at the same path or fails in both, every listing is the same, and after every call the two
    trees are equal, hard links included.
 */
module Backends {
  import opened Paths
  import opened Tree
  import opened Listing
  import opened MemoryOps
  import opened PlainTree
  import Memory = MemoryFS
  import Trie = TrieFS
  import opened TrieShape

  datatype Action = Do(call: Call) | List(name: Raw) | Enter(name: Raw)

  datatype Answer = Ended(res: Result) | Entries(names: seq<Name>) | NoListing

  /** Both succeed at the same path or both fail; listings are equal. */
  predicate SameAnswer(a: Answer, b: Answer) {
    match a
    case Ended(r) => b.Ended? && Trie.Alike(b.res, r)
    case _ => a == b
  }

  /** What one changing call does to a backend's tree. */
  function After(fs: FS, cwd: Path, call: Call): Out {
    match call
    case OpenCall(name, flags, perm, payload) =>
      var o := OpenFile(fs, Resolve(cwd, name), flags, perm, map[]);
      if o.res.Ok? && flags.write then Out(WriteAt(o.fs, o.res.path, flags.append, 0, payload), o.res) else o
    case MkdirCall(name, perm) => MkdirAll(fs, Resolve(cwd, name), perm)
    case SymlinkCall(target, name) => Symlink(fs, target, Resolve(cwd, name))
    case LinkCall(src, dst) => HardLink(fs, Resolve(cwd, src), Resolve(cwd, dst))
    case ChmodCall(name, mode) => Chmod(fs, Resolve(cwd, name), mode)
    case ChownCall(name, uid, gid, follow) => Chown(fs, Resolve(cwd, name), uid, gid, follow)
    case RemoveCall(name, recursive) => Remove(fs, Resolve(cwd, name), recursive)
    case RenameCall(src, dst) => Rename(fs, Resolve(cwd, src), Resolve(cwd, dst))
  }

  method CallMemory(m: Memory.MemoryFS, call: Call) returns (r: Result)
    requires m.Valid()
    modifies m`nodes, m`nextNodeID, m.nodes.Values
    ensures m.Valid() && fresh(m.nodes.Values - old(m.nodes.Values))
    ensures Out(m.State(), r) == After(old(m.State()), m.cwd, call)
  {
    hide ValidFS, OpenFile, WriteAt, MkdirAll, Symlink, HardLink, Chmod, Chown, Remove, Rename;
    match call
    case OpenCall(name, flags, perm, payload) =>
      r := m.OpenFile(name, flags, perm, map[]);
      if r.Ok? && flags.write {
        if r.path in m.nodes {
          var next := m.Write(r.path, flags.append, 0, payload);
        } else {
          WriteNothing(m.State(), r.path, flags.append, payload);
        }
      }
    case MkdirCall(name, perm) => r := m.MkdirAll(name, perm);
    case SymlinkCall(target, name) => r := m.Symlink(target, name);
    case LinkCall(src, dst) => r := m.Link(src, dst);
    case ChmodCall(name, mode) => r := m.Chmod(name, mode);
    case ChownCall(name, uid, gid, follow) => r := m.Chown(name, uid, gid, follow);
    case RemoveCall(name, recursive) => r := m.Remove(name, recursive);
    case RenameCall(src, dst) => r := m.Rename(src, dst);
  }

  method CallTrie(t: Trie.TrieFS, call: Call) returns (r: Result)
    requires t.Valid()
    modifies t`index, t`inodes, t`repr, t`nextNodeID, t.repr
    ensures t.Valid() && fresh(t.repr - old(t.repr)) && t.cwd == old(t.cwd)
    ensures var o := After(old(t.State()), t.cwd, call); t.State() == o.fs && Trie.Alike(r, o.res)
  {
    hide ValidFS, ValidShape, OpenFile, WriteAt, MkdirAll, Symlink, HardLink, Chmod, Chown, Remove, Rename;
    t.Apart();
    match call
    case OpenCall(name, flags, perm, payload) => r := WriteTrie(t, name, flags, perm, payload);
    case MkdirCall(name, perm) => r := t.MkdirAll(name, perm);
    case SymlinkCall(target, name) => r := t.Symlink(target, name);
    case LinkCall(src, dst) => r := t.Link(src, dst);
    case ChmodCall(name, mode) => r := t.Chmod(name, mode);
    case ChownCall(name, uid, gid, follow) => r := t.Chown(name, uid, gid, follow);
    case RemoveCall(name, recursive) => r := t.Remove(name, recursive);
    case RenameCall(src, dst) => r := t.Rename(src, dst);
  }

  method WriteTrie(t: Trie.TrieFS, name: Raw, flags: Flags, perm: nat, payload: Bytes) returns (r: Result)
    requires t.Valid()
    modifies t`index, t`inodes, t`repr, t`nextNodeID, t.repr
    ensures t.Valid() && fresh(t.repr - old(t.repr)) && t.cwd == old(t.cwd)
    ensures Out(t.State(), r) == After(old(t.State()), t.cwd, OpenCall(name, flags, perm, payload))
  {
    hide ValidFS, ValidShape, OpenFile, WriteAt;
    t.Apart();
    r := t.OpenFile(name, flags, perm, map[]);
    if r.Ok? && flags.write {
      var entry := t.LookupNoFollow(r.path);
      t.InPlain(r.path);
      if entry != null {
        t.Held(r.path);
        var next := t.Write(r.path, entry.inode, flags.append, 0, payload);
      } else {
        WriteNothing(t.State(), r.path, flags.append, payload);
      }
    }
  }

  lemma WriteNothing(fs: FS, p: Path, append: bool, payload: Bytes)
    requires p !in fs.t
    ensures WriteAt(fs, p, append, 0, payload) == fs
  {
  }

  // ----- the reference run -----

  function NextState(fs: FS, cwd: Path, action: Action): FS {
    if action.Do? then After(fs, cwd, action.call).fs else fs
  }

  function NextDir(fs: FS, cwd: Path, action: Action): Path {
    if !action.Enter? then cwd
    else match Lookup(fs, Resolve(cwd, action.name), true, false)
      case Found(q, _) => if IsDirAt(fs.t, q) then q else cwd
      case _ => cwd
  }

  /** An answer the tree allows. */
  ghost predicate Fits(fs: FS, cwd: Path, action: Action, a: Answer) {
    match action
    case Do(call) => a.Ended? && Trie.Alike(a.res, After(fs, cwd, call).res)
    case List(name) =>
      var listed := ReadNames(fs.t, Resolve(cwd, name));
      if listed.Names? then a.Entries? && IsListing(a.names, listed.names) else a == NoListing
    case Enter(name) =>
      var w := Lookup(fs, Resolve(cwd, name), true, false);
      a.Ended? && Trie.Alike(a.res, if w.Found? && IsDirAt(fs.t, w.path) then Ok(w.path) else Err(Invalid))
  }

  datatype Place = Place(fs: FS, cwd: Path)

  /** The tree and working directory after these calls on a new backend. */
  function Run(actions: seq<Action>): Place
    decreases |actions|
  {
    if actions == [] then Place(NewFS(false), [])
    else
      var n := |actions| - 1;
      var before := Run(actions[..n]);
      Place(NextState(before.fs, before.cwd, actions[n]), NextDir(before.fs, before.cwd, actions[n]))
  }

  lemma RunNext(actions: seq<Action>, i: nat)
    requires i < |actions|
    ensures var before := Run(actions[..i]);
            Run(actions[..i + 1]) ==
                Place(NextState(before.fs, before.cwd, actions[i]), NextDir(before.fs, before.cwd, actions[i]))
  {
    hide NextState, NextDir, NewFS;
    assert actions[..i + 1][..i] == actions[..i];
  }

  lemma RunNothing(actions: seq<Action>)
    ensures Run(actions[..0]) == Place(NewFS(false), []) && Answered(actions, [], [], 0)
  {
  }

  lemma FittingAnswersAgree(fs: FS, cwd: Path, action: Action, a: Answer, b: Answer)
    requires Fits(fs, cwd, action, a) && Fits(fs, cwd, action, b)
    ensures SameAnswer(a, b)
  {
    hide After, Walk, Children, IsListing;
    if action.List? {
      var listed := ReadNames(fs.t, Resolve(cwd, action.name));
      if listed.Names? {
        ListingIsUnique(a.names, b.names, listed.names);
      }
    }
  }

  method ActMemory(m: Memory.MemoryFS, action: Action) returns (a: Answer)
    requires m.Valid()
    modifies m`nodes, m`nextNodeID, m`cwd, m.nodes.Values
    ensures m.Valid() && fresh(m.nodes.Values - old(m.nodes.Values))
    ensures m.State() == NextState(old(m.State()), old(m.cwd), action)
            && m.cwd == NextDir(old(m.State()), old(m.cwd), action)
    ensures Fits(old(m.State()), old(m.cwd), action, a)
  {
    hide After, ValidFS, Walk, Children, IsListing;
    match action
    case Do(call) =>
      var r := CallMemory(m, call);
      a := Ended(r);
    case List(name) =>
      var r, names := m.ReadDir(name);
      a := if r.Ok? then Entries(names) else NoListing;
    case Enter(name) =>
      var r := m.Chdir(name);
      a := Ended(r);
  }

  method ActTrie(t: Trie.TrieFS, action: Action) returns (a: Answer)
    requires t.Valid()
    modifies t`index, t`inodes, t`repr, t`nextNodeID, t`cwd, t.repr
    ensures t.Valid() && fresh(t.repr - old(t.repr))
    ensures t.State() == NextState(old(t.State()), old(t.cwd), action)
            && t.cwd == NextDir(old(t.State()), old(t.cwd), action)
    ensures Fits(old(t.State()), old(t.cwd), action, a)
  {
    hide After, ValidFS, ValidShape, Walk, Children, IsListing;
    t.Apart();
    match action
    case Do(call) =>
      var r := CallTrie(t, call);
      a := Ended(r);
    case List(name) =>
      var r, names := t.ReadDir(name);
      a := if r.Ok? then Entries(names) else NoListing;
    case Enter(name) =>
      var r := t.Chdir(name);
      a := Ended(r);
  }

  /** The two backends hold the same tree and share no object. */
  ghost predicate InStep(m: Memory.MemoryFS, t: Trie.TrieFS)
    reads m, m.nodes.Values, t, t.index.Values, t.inodes.Values
  {
    && m.Valid() && t.Valid() && m.State() == t.State() && m.cwd == t.cwd
    && m !in t.repr && forall x | x in m.nodes.Values :: x !in t.repr
  }

  method ActBoth(m: Memory.MemoryFS, t: Trie.TrieFS, action: Action) returns (a: Answer, b: Answer)
    requires InStep(m, t)
    modifies m`nodes, m`nextNodeID, m`cwd, m.nodes.Values
    modifies t`index, t`inodes, t`repr, t`nextNodeID, t`cwd, t.repr
    ensures InStep(m, t) && SameAnswer(a, b) && Fits(old(m.State()), old(m.cwd), action, a)
    ensures m.State() == NextState(old(m.State()), old(m.cwd), action)
            && m.cwd == NextDir(old(m.State()), old(m.cwd), action)
    ensures fresh(m.nodes.Values - old(m.nodes.Values)) && fresh(t.repr - old(t.repr))
  {
    hide Fits, SameAnswer, NextState, NextDir, ValidFS, ValidShape, Memory.MemoryFS.Valid, Trie.TrieFS.Valid;
    ghost var fs, cwd := m.State(), m.cwd;
    a := ActMemory(m, action);
    b := ActTrie(t, action);
    FittingAnswersAgree(fs, cwd, action, a, b);
  }

  /** The first `n` answers of the two backends agree and fit the tree of their moment. */
  ghost predicate Answered(actions: seq<Action>, a: seq<Answer>, b: seq<Answer>, n: nat)
    requires n <= |actions|
  {
    && |a| == n && |b| == n
    && forall i | 0 <= i < n ::
        SameAnswer(a[i], b[i]) && Fits(Run(actions[..i]).fs, Run(actions[..i]).cwd, actions[i], a[i])
  }

  lemma AnsweredNext(actions: seq<Action>, a: seq<Answer>, b: seq<Answer>, x: Answer, y: Answer, n: nat)
    requires n < |actions| && Answered(actions, a, b, n)
    requires SameAnswer(x, y) && Fits(Run(actions[..n]).fs, Run(actions[..n]).cwd, actions[n], x)
    ensures Answered(actions, a + [x], b + [y], n + 1)
  {
    hide SameAnswer, Fits, Run;
  }

  /** Any run of calls on a new MemoryFS and a new TrieFS: both end in the tree and directory of
      the run, every answer fits the tree of its moment, and the answers agree. */
  method RunBoth(actions: seq<Action>)
    returns (m: Memory.MemoryFS, t: Trie.TrieFS, a: seq<Answer>, b: seq<Answer>)
    ensures m.Valid() && t.Valid() && Place(m.State(), m.cwd) == Place(t.State(), t.cwd) == Run(actions)
    ensures Answered(actions, a, b, |actions|)
  {
    hide SameAnswer, ValidFS, ValidShape, NewFS, Run, Fits, NextState, NextDir, Answered, Memory.MemoryFS.Valid,
         Trie.TrieFS.Valid;
    m := new Memory.MemoryFS(false);
    t := new Trie.TrieFS();
    a, b := [], [];
    RunNothing(actions);
    for i := 0 to |actions|
      invariant fresh(m) && fresh(t) && fresh(m.nodes.Values) && fresh(t.repr) && InStep(m, t)
      invariant Place(m.State(), m.cwd) == Run(actions[..i]) && Answered(actions, a, b, i)
    {
      RunNext(actions, i);
      var x, y := ActBoth(m, t, actions[i]);
      AnsweredNext(actions, a, b, x, y, i);
      a, b := a + [x], b + [y];
    }
    assert actions[..|actions|] == actions;
  }
}
