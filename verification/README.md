# gbash: verified filesystems, path policy and streaming cores

gbash gives shell scripts a virtual filesystem, checks every path against a policy, and ships a
few self-contained algorithms: jq's streaming input and string output, the read and edit tools of
its coding helpers, a FIFO, a mutation queue and URL path cleaning. This project models the parts
of that code with the most state and the most cases, and proves what they are for.

`dafny verify dfyconfig.toml` checks everything.

## How it is organised

Paths and trees. `Paths` is the path algebra on component lists. `Tree` is the flat meaning shared
by every in-memory backend: a map from paths to cells whose ids express hard links, with the two
resolvers (`Walk`, `CreateWalk`) as functions of a tree. `WalkLaws` says what resolution does at a
link, a missing name, a file and a directory.

Backends. `MemoryOps` gives every MemoryFS call as a function of the whole state, with the proof
that each keeps the tree well formed. `MemoryFS` is the class over heap nodes with redundant child
sets, `TrieFS` the class over dentries, inodes and cached names (`TrieShape` reads its pointers
as a value), and both are proved to compute those functions. `MemoryLaws` says what each call does
by what a caller can see: the paths and nodes before and after, where the names resolve to, and the
error. `Backends.RunBoth` runs any sequence of calls on both.

Overlay. `PlainTree` is one plain mutable tree: `Decide` says how a call ends and which change it
makes, `Step` what a change means for paths, nodes and hard links, and `PlainLaws` what each call
does by what a caller can see, without either. `OverlayView` is the merged view
of two layers and tombstones, `OverlaySteps` and `OverlayMove` how it changes, `OverlayFS` the
class, and `OverlayRuns.Replay` the theorem about whole runs.

Policy. `Policy` holds the path checks and their agreement with the backends' create resolution,
`OverlayPolicy` what they guarantee for calls through the overlay.

Protocols. `MutationQueue` and `Fifo` are state machines whose steps are the critical sections of
the code, run by classes under arbitrary schedules. `FifoLaws` says what one step of the FIFO gives
its caller, and what its history stands for.

Streaming and text. `JqStream`, `Truncate`, `ReadStream`, `EditDiff`, `DotSegments`, `JqString`.

## Where the code does less than one might expect

- A removal through the overlay can take effect and still report an error, when the lower layer
  answers the lookup with "not a directory" (`OverlayRuns.ReportedRemoval`), or be refused because
  the directory cannot be listed. A rename fails for the same reason (`OverlayRuns.StuckRename`).
  `OverlayRuns.Diverges` holds exactly for the calls that depart from a plain tree, and
  `OverlayRuns.FateOf` says how they end. Runs are followed past every such removal, up to the
  first such rename.
- MemoryFS and TrieFS replace the caller's followFinal by true after a symlink in the middle of a
  path (fs/memory.go:927, fs/trie.go:791); OverlayFS keeps it. The policy stops at the last
  component, so on those backends an allowed removal can bypass it and delete a path that is not
  allowed (`Policy.RemovalElsewhere`). `Policy.RemoveInsideIff` and `Policy.RenameInsideIff` say
  exactly for which paths no rules can be bypassed; over the overlay none ever can.
- An edit of a file with bare CRs can join a restored CR to a following LF and lose a line break
  (`EditDiff.GluedEdit`); `EditDiff.SpliceNormalizes` gives the exact condition.

## Model

| member | source | states |
|---|---|---|
| Paths.ResolveIsIdempotent | fs/fs.go:102-113 | a resolved name is clean, and resolving it again against any directory changes nothing (what cleaning does with each piece is said by the next four) |
| Paths.CleanOntoAppends | fs/fs.go:156-161 | joining a clean remainder to a resolved directory is plain appending, which is what the resolvers rely on |
| Paths.CleanOntoSplits | fs/fs.go:88-100 | cleaning a text in two pieces is cleaning it at once |
| Paths.DotDotCancels | fs/fs.go:88-100 | a name followed by .. cancels, wherever the two stand and whatever surrounds them |
| Paths.DotDotAtRoot | fs/fs.go:88-100 | at the root .. counts for nothing |
| Paths.NothingPieces | fs/fs.go:88-100 | empty pieces and . count for nothing, wherever they stand |
| Paths.ResolveJoins | fs/fs.go:102-113 | a relative name is read from the directory it is resolved against, an absolute one from the root |
| Tree.WalkSound | fs/memory.go:888-943 | a walk ends at an existing path, or at a missing one whose parent is a directory, or fails; a followed walk never ends at a symlink, and hops are never gained |
| Tree.WalkClear | fs/memory.go:888-943 | a path whose existing ancestors are all directories is its own resolution, for every flag and hop count |
| Tree.WalkEndsBelowDirectories | fs/overlay.go:693-741 | every proper ancestor of the answer is a directory: no symlink is left except an unfollowed last component |
| MemoryOps.CreateWalkSound | fs/memory.go:840-886 | a create path never ends at a symlink and never runs through one |
| WalkLaws.ThroughLink | fs/memory.go:840-943 | a link that is not the last component, or is to be followed, is replaced by its target read from the link's own directory; every link costs a hop, and without hops left the walk fails with Loop |
| WalkLaws.AtMissing | fs/memory.go:840-943 | a missing name ends every longer path with NotExist, is the answer where a missing last component is accepted, and a create path keeps the unread rest |
| WalkLaws.AtFile | fs/memory.go:840-943 | a file is its own answer, and nothing lies beneath it |
| WalkLaws.AtUnfollowed | fs/memory.go:888-943 | a last component that is not to be followed is the answer, link or not |
| WalkLaws.AtDirectory | fs/memory.go:840-943 | a directory is its own resolution and its own create path |
| WalkLaws.WalkErrors | fs/memory.go:840-943 | resolution fails only with NotExist, Invalid or Loop, a create path only with the last two |
| Tree.RelabelAt | fs/memory.go:695-714 | a rename is an exact relabelling: which paths exist afterwards, each with the very cell of its origin, all other paths alone |
| MemoryOps.MkdirFromValid | fs/memory.go:749-806 | mkdir keeps every existing cell, only adds directories with new ids, and leaves a directory on success |
| MemoryOps.MkdirFromResolved | fs/memory.go:749-806 | on a path without symlinks exactly the missing prefixes are made, and it fails only on a component that is not a directory |
| MemoryOps.EnsureParentValid | fs/memory.go:812-825 | only new directories above the path are added, and success means the parent is a directory |
| MemoryOps.SymlinkValid | fs/memory.go:266-303 | the tree stays prefix-closed, hard links agree and directories have one name, on success and on failure |
| MemoryOps.HardLinkValid | fs/memory.go:305-343 | the tree invariant after a link, on success and on failure |
| MemoryOps.OpenFileValid | fs/memory.go:349-442 | the tree invariant after an open that may materialize, create or truncate |
| MemoryOps.MetadataValid | fs/memory.go:537-563 | the tree invariant after chmod and chown |
| MemoryOps.RemoveValid | fs/memory.go:649-672 | the tree invariant after a recursive or plain removal |
| MemoryOps.RenameValid | fs/memory.go:674-725 | the tree invariant after a rename, with or without implicit parents |
| MemoryLaws.NewLaw | fs/memory.go:70-95 | a new filesystem has nothing but a root directory of mode 0755 and the default owner |
| MemoryLaws.MkdirLaw | fs/memory.go:749-806 | told by the trees before and after: a failure changes nothing, a success adds exactly the missing prefixes of the directory it names, each a new directory of this mode |
| MemoryLaws.MkdirOutcome | fs/memory.go:749-806 | what happens at the first component that is not a directory: a missing one is made with all beneath it, a file is refused, a link is replaced by the directory it leads to |
| MemoryLaws.EnsureParentLaw | fs/memory.go:812-825 | what is added above a path, and when that succeeds, with and without implicit parents |
| MemoryLaws.NewNameLaw | fs/memory.go:266-343 | where a new link goes for every way in which the walk to it can end |
| MemoryLaws.SymlinkLaw | fs/memory.go:266-303 | one new link with exactly this target and a node of its own, or nothing; and which, for every way in which the walk can end |
| MemoryLaws.LinkLaw | fs/memory.go:305-343 | the new name stands for the very node of the source, no directory gets one, and every refusal has its error |
| MemoryLaws.OpenFileLaw | fs/memory.go:349-442 | for every combination of flags and every provider: which file is opened, created, read in or emptied, what else changes (nothing), and every error |
| MemoryLaws.OverwriteLaw | fs/memory.go:1033-1065 | every byte of a file after a write: the payload, the old byte, or zero in a gap |
| MemoryLaws.WriteLaw | fs/memory.go:1033-1065 | a write changes one node under all its names, an appending handle writes at the end, and where the handle stands afterwards |
| MemoryLaws.ChmodLaw | fs/memory.go:537-549 | the mode of the followed node changes and nothing else, or the resolution's error |
| MemoryLaws.ChownLaw | fs/memory.go:551-563 | the same for the owner, following the last link only if asked |
| MemoryLaws.LstatLaw | fs/memory.go:462-478 | it stops at a link; a lazy file without a known size is loaded under all its names or its provider's error reported |
| MemoryLaws.ReadNamesLaw | fs/memory.go:480-510 | a name is listed if and only if that path exists one component beneath the directory |
| MemoryLaws.RemoveLaw | fs/memory.go:649-672 | told by the trees: a plain removal takes away exactly one path, a recursive one exactly the paths under it, a failure nothing; Invalid if and only if the call is plain and some path lies strictly below; the root never |
| MemoryLaws.RenameLaw | fs/memory.go:674-725 | told by the trees: the subtree is at the destination cell by cell and gone from the source, all other paths are as before; and for every way in which the two walks can end, which error; Exist if and only if the destination is there |
| MemoryFS.MemoryFS.constructor | fs/memory.go:70-95 | an empty tree with an owned root, and exact child sets |
| MemoryFS.MemoryFS.ResolveAbs | fs/memory.go:888-943 | the loop with restarts after symlinks is the walk of the tree the node map stands for, for every depth |
| MemoryFS.MemoryFS.ResolveCreatePath | fs/memory.go:840-886 | the loop is the create walk of the tree |
| MemoryFS.MemoryFS.MkdirAllLocked | fs/memory.go:749-806 | result and tree of mkdir; child sets stay exactly the base names beneath each directory |
| MemoryFS.MemoryFS.EnsureParentLocked | fs/memory.go:812-825 | result and tree; the path itself is not created and no existing cell changes |
| MemoryFS.MemoryFS.Symlink | fs/memory.go:266-303 | result and tree of symlink on heap nodes, child sets exact |
| MemoryFS.MemoryFS.Link | fs/memory.go:305-343 | result and tree of link: both paths name one node object |
| MemoryFS.MemoryFS.MaterializePath | fs/memory.go:206-237 | a lazy file becomes its provider's bytes under every name, or the provider's error, whatever it is, leaves it lazy |
| MemoryFS.MemoryFS.OpenFile | fs/memory.go:349-442 | result and tree of open for every combination of flags |
| MemoryFS.MemoryFS.Write | fs/memory.go:1033-1065 | one write of a handle standing at any offset, or appending: the bytes replace what was there, grow the file as needed and are seen under every hard link, and the new offset |
| MemoryOps.WritesJoin | fs/memory.go:1033-1065 | the running offset: two writes through one handle are one write of both payloads |
| MemoryFS.MemoryFS.Chmod | fs/memory.go:537-549 | the mode changes under every hard link and nothing else does |
| MemoryFS.MemoryFS.Chown | fs/memory.go:551-563 | the owner changes under every hard link and nothing else does |
| MemoryFS.MemoryFS.Lstat | fs/memory.go:462-478 | the node at the unfollowed resolution, after loading a lazy file whose size is not known, and all errors |
| MemoryFS.MemoryFS.ReadDir | fs/memory.go:480-510 | the sorted child set is the listing of the directory in the tree; errors as resolved |
| MemoryFS.MemoryFS.Readlink | fs/memory.go:512-524 | succeeds exactly on a symlink and gives its target; otherwise the resolution's error, or Invalid |
| MemoryFS.MemoryFS.Chdir | fs/memory.go:734-747 | succeeds exactly on a directory and moves only the working directory; otherwise the resolution's error, or Invalid |
| MemoryFS.MemoryFS.Remove | fs/memory.go:649-672 | result and tree of remove, and the law of removals over the trees before and after: one path or the whole subtree, Invalid exactly for a plain call on a directory with entries; the name leaves the parent's child set |
| MemoryFS.MemoryFS.Rename | fs/memory.go:674-725 | result and tree of rename: the relabelled tree, or the tree unchanged |
| MemoryFS.MemoryFS.MoveSubtree | fs/memory.go:695-724 | taking the subtree out of the map, putting it back and rebuilding all child sets yields the relabelled tree |
| MemoryFS.MemoryFS.RebuildDirectoryChildren | fs/memory.go:945-961 | from any child sets, the rebuilt ones are exact and the tree is untouched |
| TrieShape.GrownValid | fs/trie.go:930-936 | attaching a dentry keeps names, parent pointers, child maps, inode sharing and clean caches right, for new inodes and for hard links |
| TrieShape.PrunedValid | fs/trie.go:938-944 | detaching a dentry drops exactly its subtree and keeps the pointer structure right |
| TrieShape.RetreedValid | fs/trie.go:666-671 | detach, rename and attach of one dentry relabels its whole subtree; parent pointers and child maps spell the new paths |
| TrieShape.ListedValid | fs/trie.go:946-960 | filling a cache with the listing and clearing `dirty` keeps every clean cache exact |
| TrieShape.RevaluedValid | fs/trie.go:562-591 | changing an inode in place changes every path that links to it and no pointer |
| TrieFS.TrieFS.constructor | fs/trie.go:74-92 | the same tree as a new MemoryFS, with a valid pointer structure |
| TrieFS.TrieFS.ResolveAbs | fs/trie.go:764-803 | following child maps is the walk of the tree, and the dentry returned is the one at the answer |
| TrieFS.TrieFS.ResolveCreatePath | fs/trie.go:805-841 | following child maps is the create walk of the tree |
| TrieFS.TrieFS.LookupNoFollow | fs/trie.go:843-857 | the dentry at exactly this path, or none |
| TrieFS.TrieFS.MkdirAllLocked | fs/trie.go:859-914 | result and tree of MemoryFS's mkdir |
| TrieFS.TrieFS.CreateParent | fs/trie.go:919-928 | the parent dentry exactly when MemoryFS's ensureParent succeeds without implicit parents |
| TrieFS.TrieFS.Symlink | fs/trie.go:482-524 | succeeds or fails like MemoryFS and leaves the same tree |
| TrieFS.TrieFS.Link | fs/trie.go:526-560 | succeeds or fails like MemoryFS, although it has no create-path fallback, and shares the inode |
| MemoryOps.LinkFallbackFails | fs/memory.go:325-333 | why that is so: without implicit parents the fallback of MemoryFS.Link never succeeds |
| TrieFS.TrieFS.OpenFile | fs/trie.go:286-375 | result and tree of MemoryFS's open for every combination of flags |
| TrieFS.TrieFS.Write | fs/trie.go:1049-1079 | the tree and the new offset of MemoryFS's write, at any offset or appending |
| TrieFS.TrieFS.Chmod | fs/trie.go:579-591 | result and tree of MemoryFS's chmod |
| TrieFS.TrieFS.Chown | fs/trie.go:562-577 | result and tree of MemoryFS's chown |
| TrieFS.TrieFS.Lstat | fs/trie.go:395-411 | the node at the unfollowed resolution, after loading a lazy file in every case, and all errors |
| TrieFS.TrieFS.Readlink | fs/trie.go:454-469 | succeeds exactly on a symlink and gives its target; otherwise the resolution's error, or Invalid |
| TrieFS.TrieFS.ReadDir | fs/trie.go:413-452 | the listing of the directory, whether it comes from a clean cache or is sorted afresh; the tree is unchanged |
| TrieFS.TrieFS.SortedChildNames | fs/trie.go:946-960 | the sorted names of exactly the directory's entries, with the cache left exact |
| TrieFS.TrieFS.Chdir | fs/trie.go:680-693 | succeeds exactly on a directory and moves only the working directory; otherwise the resolution's error, or Invalid |
| TrieFS.TrieFS.Remove | fs/trie.go:620-636 | result and tree of MemoryFS's remove, and the same law of removals |
| TrieFS.TrieFS.Rename | fs/trie.go:638-672 | succeeds or fails like MemoryFS and leaves the same relabelled tree |
| TrieFS.TrieFS.IsAncestor | fs/trie.go:991-998 | climbing parent pointers decides whether one path lies beneath the other |
| Backends.FittingAnswersAgree | fs/trie.go:413-452 | answers that fit one tree agree: same path or both errors, and one listing only |
| Backends.RunBoth | fs/trie.go:20-33 | for any sequence of calls, directory changes and listings on both new backends: both end in exactly the tree and directory of that run, hard links included, and every answer agrees and fits the tree of its moment |
| Listing.ListingIsUnique | fs/memory.go:480-510 | a set of names has exactly one sorted listing |
| Listing.LessMeans | fs/memory.go:480-510 | the order of a listing is that of the first difference, and a name comes before its extensions |
| OverlayFS.OverlayFS.constructor | fs/overlay.go:37-48 | the view of a new overlay is its lower tree under the overlay's own root |
| OverlayView.MergeValid | fs/overlay.go:602-616 | the merged view is itself a well-formed tree |
| OverlayView.CopyUpIsInvisible | fs/overlay.go:540-600 | copying an entry up changes no lookup, node or content of the view, only which layer it comes from |
| OverlayView.LayerWalkIsWalk | fs/overlay.go:693-741 | resolving layer by layer is walking the merged tree |
| OverlayView.DropInView | fs/overlay.go:418-429 | removing the upper entry and adding a tombstone drops exactly one subtree of the view |
| OverlayView.ClearingIsInvisible | fs/overlay.go:784-793 | clearing tombstones beneath a non-directory that hides the same lower paths changes nothing in the view |
| OverlayFS.OverlayFS.IsHidden | fs/overlay.go:758-769 | true exactly when the path or an ancestor has a tombstone |
| OverlayFS.OverlayFS.VisibleInfoAt | fs/overlay.go:602-616 | which layer shows the path, its node, or the error of the lookup |
| OverlayFS.OverlayFS.VisiblePrefixInfo | fs/overlay.go:621-646 | the cached lookup answers as the uncached one, and the cache stays right |
| OverlayFS.OverlayFS.ResolveMergedDepth | fs/overlay.go:693-741 | resolution through the cache returns the path, kind and source of uncached resolution, and terminates |
| OverlayFS.OverlayFS.ResolveMerged | fs/overlay.go:682-691 | resolution is the walk of the merged view, keeping the caller's flag for the last link |
| OverlayFS.OverlayFS.CloneDirNode | fs/clone.go:73-93 | mkdir, chmod and chown together add one directory with the lower mode and owner |
| OverlayFS.OverlayFS.CloneLazyFile | fs/clone.go:137-173 | adds a file that still reads its lower source |
| OverlayFS.OverlayFS.CopyUpLowerEntry | fs/overlay.go:587-600 | adds an upper node that means what the lower one does |
| OverlayFS.OverlayFS.CopyUpAncestors | fs/overlay.go:555-580 | never fails under a visible directory, adds only directories above the path, and is invisible |
| OverlayFS.OverlayFS.CopyUpNode | fs/overlay.go:540-548 | never fails on a visible lower entry and is invisible |
| OverlayFS.OverlayFS.OpenFile | fs/overlay.go:54-102 | ends as a plain tree would and makes exactly that change to the view |
| OverlayFS.OverlayFS.WriteFile | fs/overlay.go:54-102 | open followed by a write through the handle, as one change of the view |
| OverlayFS.OverlayFS.MkdirAll | fs/overlay.go:342-375 | the result and the new directories of a plain tree |
| OverlayFS.OverlayFS.Symlink | fs/overlay.go:213-230 | the result and the new link of a plain tree; no hidden lower entry reappears |
| OverlayFS.OverlayFS.ClearTombstonesUnder | fs/overlay.go:784-793 | exactly the tombstones at and beneath the name are gone |
| OverlayFS.OverlayFS.Link | fs/overlay.go:232-272 | the result and the second name of a plain tree, for upper and lower sources |
| OverlayFS.OverlayFS.Chmod | fs/overlay.go:274-289 | the result and the change of a plain tree, after an invisible copy-up if needed |
| OverlayFS.OverlayFS.Chown | fs/overlay.go:291-306 | the result and the change of a plain tree |
| OverlayFS.OverlayFS.ReadDir | fs/overlay.go:122-189 | when it succeeds, the sorted listing of the merged directory; a merged directory fails exactly when the lower layer cannot answer, and with which error |
| OverlayFS.OverlayFS.Readlink | fs/overlay.go:191-202 | the target of the merged link, and every error |
| OverlayFS.OverlayFS.Realpath | fs/overlay.go:204-211 | the followed walk of the merged view |
| OverlayFS.OverlayFS.Chdir | fs/overlay.go:511-524 | succeeds exactly on a merged directory, and every error |
| OverlayFS.OverlayFS.Remove | fs/overlay.go:396-430 | over the views before and after: one path or the subtree is gone, Invalid exactly for a plain call on a directory with entries, a refusal changes nothing; where the lower layer cannot answer, the removal is made and that error reported, or, when the directory had to be listed, that error with the view unchanged |
| OverlayFS.OverlayFS.Rename | fs/overlay.go:432-471 | over the views before and after: the node found at the source is at the destination with its whole subtree, nothing is left at the source, every other path is as before; Exist if and only if both names are there, neither the root, and different; every other refusal; it fails where a plain tree succeeds exactly when some merged directory of the subtree cannot be listed |
| OverlayMove.FateIsExact | fs/overlay.go:396-471 | a call that ends as its fate says does what the plain tree does if and only if that fate is AsDecided |
| OverlayFS.OverlayFS.MoveMerged | fs/overlay.go:478-503 | the new path holds the old merged subtree whichever layer each entry came from, the rest of the upper tree is untouched, and the recursion terminates |
| OverlayMove.RenamedInView | fs/overlay.go:432-503 | moving the subtree and hiding the old path is one exact move of the merged view |
| OverlayMove.RemovalShown | fs/overlay.go:396-430 | what a caller sees of each fate of a removal |
| OverlayMove.RenameShown | fs/overlay.go:432-471 | what a caller sees of a rename: success has moved exactly the subtree, and Exist means that both names are there |
| OverlayView.ViewIsRead | fs/overlay.go:602-616 | every file of the view has its bytes |
| PlainLaws.OpenKeeps | fs/overlay.go:54-102 | open and one write, told by the trees before and after: which file is created or which bytes its node has then, under all names, and every refusal, for every combination of flags |
| PlainLaws.MkdirKeeps | fs/overlay.go:342-375 | mkdir adds exactly the missing prefixes of the directory it names, or nothing |
| PlainLaws.MkdirEnds | fs/overlay.go:342-375 | the first component that is not a directory decides: made with all the rest, refused, or replaced by the directory the link leads to |
| PlainLaws.SymlinkKeeps | fs/overlay.go:213-230 | one new link with this target below a directory, or nothing, and every refusal |
| PlainLaws.LinkKeeps | fs/overlay.go:232-272 | a second name for the very node of the source, or nothing, and every refusal |
| PlainLaws.ChmodKeeps | fs/overlay.go:274-289 | the mode of one node changes under all its names and nothing else |
| PlainLaws.ChownKeeps | fs/overlay.go:291-306 | the owner of one node changes under all its names and nothing else |
| PlainLaws.RemoveKeeps | fs/overlay.go:396-430 | one path or exactly the subtree is gone, every other path keeps its node and its hard links, and each error if and only if its condition holds |
| PlainLaws.RenameKeeps | fs/overlay.go:432-471 | the subtree has moved, every other path keeps its node, hard links move along, and each error if and only if its condition holds |
| PlainLaws.CallKeeps | fs/overlay.go:54-471 | whatever does what Decide says keeps the law of its kind of call |
| OverlayRuns.Perform | fs/overlay.go:54-471 | one call of any kind: it departs from the plain tree if and only if Diverges holds before it, and then ends as its fate says; otherwise the views before and after keep the law of its kind (PlainLaws) |
| OverlayRuns.Replay | fs/overlay.go:54-471 | over any run of calls on any lower tree, up to the first rename that stops half way: results and views are those of one plain tree whose departing removals end as their fates say, and no path is ever taken from the lower layer again once it no longer is; the lower tree never changes |
| OverlayRuns.PlainRun | fs/overlay.go:54-471 | where no call diverges, that reference run is the plain tree's own, result by result |
| OverlayRuns.ReportedRemoval | fs/overlay.go:396-430 | a run of calls on a new overlay whose last one removes a file from the view and reports an error, where a plain tree reports success |
| OverlayRuns.StuckRename | fs/overlay.go:432-471 | a run of calls on a new overlay whose last one is a rename that a plain tree makes and the overlay refuses |
| Policy.AgreesWithCreate | policy/pathcheck.go:82-128 | for every path of every tree, resolveMaybeMissing gives the backend's create path, error for error, through dangling and nested links |
| Policy.FollowsCreate | policy/pathcheck.go:82-128 | the same at any number of hops already used, whenever hops used and hops needed stay within forty |
| Policy.AgreesOnEntry | policy/pathcheck.go:56-63 | for operations on the entry itself, policy and backend agree exactly when the backend keeps the caller's flag, no link was met on the way, or the entry is no symlink |
| Policy.AskedFirst | policy/pathcheck.go:23-25 | nothing is allowed whose requested path the policy does not allow, for every action and wherever it resolves to |
| Policy.FollowedVerdict | policy/pathcheck.go:18-49 | reading, stating and listing, by the backend's followed walk: allowed if and only if the requested path is and the call stays inside, or the walk ends at a missing entry or a file; a loop is reported; everything else is denied |
| Policy.CreatedVerdict | policy/pathcheck.go:18-49 | the same for writing and making directories, by the backend's create path |
| Policy.EntryVerdict | policy/pathcheck.go:18-49 | the same for Lstat, Readlink, Remove and Rename, by the entry under the create path of its parent |
| Policy.WriteLandsInside | policy/pathcheck.go:18-49 | an allowed write opens or creates an allowed path, for every combination of flags, and the very target when symlinks are denied |
| Policy.MkdirLandsInside | policy/pathcheck.go:18-49 | an allowed mkdir that succeeds ends at an allowed path |
| Policy.EntryInsideIff | policy/pathcheck.go:56-63 | for every entry resolved without following, on every backend: calls stay inside under all rules that allow them if and only if the backend stops at the entry, which one that keeps the caller's flag always does |
| Policy.RemoveInsideIff | policy/pathcheck.go:18-49 | what Remove takes away is allowed under all rules that allow the call if and only if no link follows another one on the way |
| Policy.RenameInsideIff | policy/pathcheck.go:18-49 | the same for the entry Rename takes and for the place it puts it, with or without implicit parents |
| Policy.RemovalElsewhere | policy/pathcheck.go:18-49 | a concrete tree where it does not stop: an allowed removal takes away a path that is not allowed |
| Policy.ReadLandsInside | policy/pathcheck.go:18-49 | an allowed read opens an allowed path, for every combination of flags without create |
| Policy.ListLandsInside | policy/pathcheck.go:18-49 | an allowed listing is that of an allowed directory |
| OverlayPolicy.WriteLandsInside | policy/pathcheck.go:18-49 | through the overlay, an allowed write opens or creates an allowed path, for every combination of flags |
| OverlayPolicy.ReadLandsInside | policy/pathcheck.go:18-49 | through the overlay, an allowed read opens an allowed path |
| OverlayPolicy.MkdirLandsInside | policy/pathcheck.go:18-49 | through the overlay, an allowed mkdir that succeeds ends at an allowed path |
| OverlayPolicy.EntryLandsInside | policy/pathcheck.go:18-49 | through the overlay, an allowed removal takes away an allowed path, without exception |
| OverlayPolicy.RenameLandsInside | policy/pathcheck.go:18-49 | through the overlay, an allowed rename takes an allowed entry and puts it at an allowed path, without exception |
| JqStream.StreamsValues | contrib/jq/jq_input.go:460-534 | for every sequence of values, the events of its tokens are the recursive to-stream, and the input ends cleanly |
| JqStream.ReadValue | contrib/jq/jq_input.go:480-533 | reading one value anywhere emits its to-stream at the current path and leaves both stacks as they were |
| JqStream.NeverUnderflows | contrib/jq/jq_input.go:460-534 | neither stack underflows on the tokens of any values cut off anywhere, and the events are a prefix of the full ones |
| JqStream.RoundTrip | contrib/jq/jq_input.go:460-534 | the events decode back to the values |
| JqStream.EventsPoint | contrib/jq/jq_input.go:460-534 | every event of a value's stream points into it: a leaf's path leads to what it shows, a closing event's path to the last element of a container, elements counted from 0 |
| JqStream.JqJsonStream.NextEvent | contrib/jq/jq_input.go:460-534 | one call on the object: event, stacks, remaining tokens and the count of path elements |
| JqStream.JqJsonStream.NextCapped | contrib/jq/jq_input.go:452-458 | the event, or a refusal exactly when the total of path elements exceeds the cap |
| JqStream.Collect | contrib/jq/jq_input.go:284-308 | the accepted events are the uncapped ones as far as they fit under the cap, and a refusal means the next one did not fit |
| MutationQueue.StepKeepsInv | contrib/codingtools/mutation_queue.go:22-81 | every step of every goroutine keeps: channels closed once and in order, map entries newest and not gone, waiting tickets chained, bodies started in arrival order, exactly the uncancelled bodies run |
| MutationQueue.MutualExclusion | contrib/codingtools/mutation_queue.go:32-60 | at most one body runs per key |
| MutationQueue.ClosesInOrder | contrib/codingtools/mutation_queue.go:63-81 | a channel is closed only after those of all earlier tickets of its key |
| MutationQueue.IdleKeyHasNoEntry | contrib/codingtools/mutation_queue.go:74-81 | a key without outstanding tickets has no map entry |
| MutationQueue.NeverStuck | contrib/codingtools/mutation_queue.go:32-72 | the oldest outstanding ticket can always take its next step, without any cancellation |
| MutationQueue.StepsUseWork | contrib/codingtools/mutation_queue.go:22-81 | every step but an arrival uses up work, so runs end |
| MutationQueue.MayGiveUp | contrib/codingtools/mutation_queue.go:34-55 | a call can give up at any time before its body starts; its body has not run and no other ticket is touched |
| MutationQueue.GivenUpForGood | contrib/codingtools/mutation_queue.go:34-55 | a cancelled call stays cancelled and its body never runs |
| MutationQueue.ArrivalStands | contrib/codingtools/mutation_queue.go:28-45 | a call on an idle key may start at once; otherwise it waits for the newest ticket of its key |
| MutationQueue.Queue.Arrive | contrib/codingtools/mutation_queue.go:28-32 | the new ticket waits for the old tail of its key, and becomes the tail |
| MutationQueue.Queue.CloseChannel | contrib/codingtools/mutation_queue.go:75-75 | one more close on exactly this ticket's channel |
| MutationQueue.Queue.Unlink | contrib/codingtools/mutation_queue.go:76-80 | the map entry goes exactly when it is this ticket's |
| MutationQueue.EveryRunIsSafe | contrib/codingtools/mutation_queue.go:22-81 | over every interleaving of arrivals, cancellations and two-part releases: one body at a time per key, bodies of a key in arrival order and once each, no channel closed twice, and all invariants |
| MutationQueue.RunAll | contrib/codingtools/mutation_queue.go:22-81 | the object under any schedule is in the state of that schedule; letting the oldest tickets move then closes every channel once, runs exactly the uncancelled bodies and empties the map, with no further cancellation |
| Fifo.MemoryFifo.Open | fs/fifo.go:78-120 | counts, epochs and remembered flags of a new handle; every open writer has now met a reader when one attaches |
| Fifo.MemoryFifo.StartReading | fs/fifo.go:122-131 | the checks a read makes before it takes the lock |
| Fifo.MemoryFifo.Read | fs/fifo.go:133-155 | one pass of the read loop, as the function whose law is FifoLaws.ReadLaw: the front of the buffer, at most as much as was asked for, even if the handle was closed while the call was blocked, or the reason why there is none |
| Fifo.MemoryFifo.Write | fs/fifo.go:168-192 | one pass of the write loop: the accepted chunk is the next part of the request that fits, or the reason why there is none |
| Fifo.MemoryFifo.Close | fs/fifo.go:195-201 | the flag of the compare-and-swap, set before the lock is taken |
| Fifo.MemoryFifo.Leave | fs/fifo.go:203-212 | the locked part of Close, once: the handle leaves the counts |
| Fifo.WriteKeeps | fs/fifo.go:157-193 | a write keeps conservation, capacity, counts, per-call prefixes and the meaning of the flags |
| Fifo.ReadKeeps | fs/fifo.go:122-155 | a read keeps conservation, counts, prefixes and the meaning of the flags |
| Fifo.OpenKeeps | fs/fifo.go:78-120 | opening keeps all of them; the reader epoch moves when the first reader attaches |
| Fifo.CloseKeeps | fs/fifo.go:195-201 | setting the flag keeps all of them |
| Fifo.DetachKeeps | fs/fifo.go:203-212 | leaving the counts keeps all of them; counts equal the attached handles |
| Fifo.EndOfFileIff | fs/fifo.go:136-149 | a read reports the end if and only if the buffer is empty, its handle open, no writer attached, and a writer was attached before or this handle got data; a closed handle is reported exactly when there is nothing to deliver |
| Fifo.BrokenPipeIff | fs/fifo.go:173-181 | a write reports a broken pipe if and only if its handle is open and no reader is attached but one was at some point of the writer's life |
| Fifo.ReadWaitsIff | fs/fifo.go:136-148 | a read goes on waiting if and only if its handle is open, nothing is buffered, and a writer is attached or has yet to come |
| Fifo.WriteWaitsIff | fs/fifo.go:171-184 | a write goes on waiting if and only if its handle is open and the buffer is full under some reader, or no reader was ever met |
| Fifo.NeverBothWait | fs/fifo.go:136-184 | a waiting read and a waiting write never wait on each other |
| Fifo.EveryRunKeeps | fs/fifo.go:78-213 | in every reachable state of a fresh or cloned FIFO: initial and accepted bytes equal delivered bytes followed by the buffer, and all invariants hold |
| Fifo.RunAll | fs/fifo.go:78-213 | the FIFO object under any schedule is in the state of that schedule |
| FifoLaws.ReadLaw | fs/fifo.go:136-155 | a read delivers exactly when something is buffered: the first bytes, as many as were asked for or all there are; it gives up for its context only where it would have waited; and what it leaves alone |
| FifoLaws.WriteLaw | fs/fifo.go:168-193 | a write goes on exactly while a reader is attached and there is room: it appends the next bytes of its request, as many as it reports, and stops short only when the buffer is full; when it reports a closed handle; and what it leaves alone |
| FifoLaws.ReadOver | fs/fifo.go:122-155 | a read that has returned takes no further step |
| FifoLaws.WriteOver | fs/fifo.go:157-193 | a write that has returned takes no further step |
| FifoLaws.ReadStarts | fs/fifo.go:122-131 | a read starts exactly when its handle is open for reading and it asks for something, and otherwise changes nothing |
| FifoLaws.WriteStarts | fs/fifo.go:157-166 | the same for a write |
| FifoLaws.OpenLaw | fs/fifo.go:78-120 | a new handle is open, attached and counted for the sides it was opened for; nothing else changes |
| FifoLaws.CloseLaw | fs/fifo.go:195-213 | closing takes a handle out of the counts once, whatever is called again, and leaves the buffer and every other handle |
| FifoLaws.FirstInFirstOut | fs/fifo.go:78-213 | over every run, by the results of the calls alone: initial bytes and everything the writers put in are everything the readers got, followed by the buffer |
| FifoLaws.HistoryMeans | fs/fifo.go:78-213 | over every run, what the history flags stand for: a writer was opened, the handle got data in some step, a reader was attached at some moment of the writer's life |
| Truncate.TruncateHead | contrib/codingtools/truncate.go:38-112 | the longest prefix of whole lines under both limits, the reason it is no longer, and the totals |
| Truncate.TruncationIsUnique | contrib/codingtools/truncate.go:38-112 | only one result satisfies that |
| Truncate.TruncationShows | contrib/codingtools/truncate.go:38-112 | the same in terms of the text shown: whole lines from the start under both limits, and one line more would break a limit |
| Truncate.Normalize | contrib/codingtools/truncate.go:15-23 | given limits are kept, missing ones are 2000 lines and 50 KiB |
| ReadStream.ChosenAre | contrib/codingtools/read_stream.go:119-170 | which lines are selected, one by one: from the start, no more than the limit and no fewer than there are |
| ReadStream.TextReadAccumulator.ConsumeLine | contrib/codingtools/read_stream.go:119-170 | after every line the summary is the truncation of the lines selected so far; a line that is not shown need not be known |
| ReadStream.StreamedLine.Append | contrib/codingtools/read_stream.go:317-332 | the buffer holds the line up to the limit and the count its full length |
| ReadStream.StreamedLine.Finish | contrib/codingtools/read_stream.go:334-340 | no partly buffered line is ever emitted |
| ReadStream.StreamTextLines | contrib/codingtools/read_stream.go:253-296 | for any fragments: exactly the selected lines are consumed, and more lines are reported exactly when there are some; with a limit of zero nothing is read |
| ReadStream.Respond | contrib/codingtools/read_stream.go:172-251 | an offset past the end is refused with the number of lines; otherwise the truncation and the next offset, if the file goes on; also what is answered when the limit is zero |
| ReadStream.ReadText | contrib/codingtools/read_stream.go:22-56 | the answer to a whole request for any fragments, offset and limit; with a limit of zero every offset of a file that is not empty is reported as beyond its end |
| ReadStream.StreamAndBatch | contrib/codingtools/read_stream.go:22-56 | for any fragments, any offset in range and any limit that is absent or at least one, the streamed answer equals TruncateHead of the selected lines |
| ReadStream.ReadAll | contrib/codingtools/read_stream.go:172-251 | if no line exceeds the byte limit, reading on from each advertised offset terminates and shows every line once, in order |
| EditDiff.NormalizeFlattens | contrib/codingtools/edit_diff.go:32-34 | the two replacement passes write every line ending as LF and nothing else |
| EditDiff.NormalizedOffsetMap | contrib/codingtools/edit_diff.go:86-103 | entry k is where the k-th unit of the text starts |
| EditDiff.OffsetCuts | contrib/codingtools/edit_diff.go:86-110 | every boundary of the normalized text is mapped to a cut whose two sides normalize to its two halves |
| EditDiff.ExtractLineEndings | contrib/codingtools/edit_diff.go:112-129 | exactly the line endings of the text, in order |
| EditDiff.RestoreReplacementLineEndings | contrib/codingtools/edit_diff.go:131-161 | the n-th break gets the original's n-th ending, then its last, then the file's style |
| EditDiff.RestoredFlattens | contrib/codingtools/edit_diff.go:131-161 | restoring endings does not change what the replacement normalizes to, ending by ending |
| EditDiff.RestoresItself | contrib/codingtools/edit_diff.go:112-161 | writing back what was read: normalized text with the endings extracted from it is the text itself |
| EditDiff.EndingGiven | contrib/codingtools/edit_diff.go:131-161 | which ending each break gets, before and beyond the end of the list |
| EditDiff.CountOverlappingOccurrences | contrib/codingtools/edit_diff.go:217-232 | the number of positions where the target occurs, overlaps included |
| EditDiff.CountIsUnique | contrib/codingtools/toolset.go:216-227 | a count of at most one means at most one position |
| EditDiff.CountsPositions | contrib/codingtools/edit_diff.go:217-232 | the count is the number of positions at which the target occurs |
| EditDiff.DetectLineEnding | contrib/codingtools/edit_diff.go:17-30 | CRLF exactly when the first LF of the file ends a CRLF |
| EditDiff.StyleMeans | contrib/codingtools/edit_diff.go:17-30 | for every text: CRLF when a CR stands before the first LF, otherwise LF |
| EditDiff.NormalizesIffApart | contrib/codingtools/edit_diff.go:32-34 | a sequence of units normalizes to its flattening if and only if no bare CR is followed by a bare LF |
| EditDiff.GluesIff | contrib/codingtools/toolset.go:229-244 | whether the splice glues a bare CR to a bare LF, decided on the unit before the match, the endings the new breaks receive and the unit after the match |
| EditDiff.SpliceNormalizes | contrib/codingtools/toolset.go:229-244 | the new file normalizes to the requested text if and only if the splice glues nothing in that sense; without bare CRs it always does |
| EditDiff.Edit | contrib/codingtools/toolset.go:202-246 | NotFound exactly when the text does not occur; Ambiguous only with more than one position; otherwise the occurrence is the only one, every byte outside it is untouched, and the new file means what was requested under that exact condition; Unchanged only when that is the old text |
| EditDiff.GluedEdit | contrib/codingtools/toolset.go:202-246 | a concrete file with a bare CR for which every answer of Edit is a file that lost a line break |
| DotSegments.RemoveDotSegments | network/network.go:510-533 | for every absolute path the one-pass stack equals the two-buffer algorithm of section 5.2.4 of RFC 3986; other paths are returned as they are |
| DotSegments.RemovesAllDots | network/network.go:510-533 | the result is absolute, none of its own segments is a dot segment, and it is a fixed point |
| DotSegments.DotDotCancels | network/network.go:510-533 | a segment followed by .. cancels, wherever it stands |
| DotSegments.DotDotAtRoot | network/network.go:510-533 | at the root .. counts for nothing |
| DotSegments.DotVanishes | network/network.go:510-533 | . counts for nothing, wherever it stands |
| DotSegments.DotAtEnd | network/network.go:510-533 | at the end of a path a dot segment leaves a slash behind |
| DotSegments.NothingToRemove | network/network.go:510-533 | a path without dot segments is left as it is |
| JqString.EncodeString | contrib/jq/jq_output.go:242-291 | the slice-copying loop prints every character once, and the text reads back as the string |
| JqString.EscapeBack | contrib/jq/jq_output.go:374-383 | an escape reads back as its scalar value, through the surrogate arithmetic outside the basic plane |
| JqString.RoundTrip | contrib/jq/jq_output.go:242-291 | reading the printed string by section 7 of RFC 8259 gives back every sequence of scalar values, in either mode |
| JqString.AsciiOnly | contrib/jq/jq_output.go:269-281 | ASCII mode prints only printable ASCII |
| JqString.PrintedForm | contrib/jq/jq_output.go:242-291 | which characters are printed as they are, which in two characters, and which as one or two four-digit escapes, in either mode |

## Left out

- Host-backed filesystems, mounts and snapshots: they rest on system calls and on `os.Root`.
- Timestamps, inode numbers in file information, error texts and trace events.
- FIFOs and devices inside MemoryFS and the overlay (Mkfifo, cloneSpecialFile): the filesystem models have directories, regular files and symlinks. The FIFO itself is modelled in `Fifo`.
- Seeding and Clone of MemoryFS and TrieFS: the models start from the empty tree (the overlay from any well-formed lower tree).
- MemoryFS.MemoryFS.MaterializePath: each filesystem call is one step, so a node replaced by another call while its provider runs, and the retry that follows, are not modelled; nor are locks.
- Open file handles as objects: a write names its node and offset, and whole runs (`Backends.RunBoth`, `OverlayRuns.Replay`) make one write right after each open.
- File modes are the bits a caller may store; masking with storedPermBits happens before the model.
- 64-bit counters: node ids and FIFO epochs are unbounded, so wrap-around after 2^64 steps is not modelled.
- OverlayFS.OverlayFS.Rename: does not say what a rename leaves behind when it fails half way, because the code does not roll it back.
- OverlayRuns.Replay: starts in the root directory and does not change it; Chdir, ReadDir and the lookups are proved call by call.
- OverlayFS.OverlayFS.constructor: asks that the lower tree is given with its contents read (a lazy lower file is modelled by the bytes that reading it gives) and that its symlinks have mode 0777, the only mode a copied-up symlink can have.
- Backends.RunBoth: compares success, path, tree and listings, not which error a failing call reports; TrieFS maps some errors differently.
- JqStream.Collect: does not model json.Decoder, only its sequence of tokens; malformed JSON ends the token sequence.
- Policy.Rules is the set of allowed paths for one action; how a policy computes it, and the audit of denials, are left out.
- ReadStream.ReadText: a negative limit is one of zero, which the code treats alike; image files, other read errors and the texts around the lines are left out.
- EditDiff.Edit: the fuzzy match (Unicode NFKC, a foreign library) is left out, so NotFound means that the exact text does not occur; file access, size limits and the diff are left out.
- JqString.EncodeString: strings are sequences of scalar values and undecodable bytes; the UTF-8 coding itself and colours are left out.
- MutationQueue: a nil queue, which runs the body directly, and how keys are derived from paths are left out.
- The shell interpreter, commands, HTTP client, server and command-line front ends.
