# Verified model of the libkuzpkg transaction planner

libkuzpkg plans and carries out package transactions. This project models its core in Dafny and
proves what that core promises: which plans it accepts, in which order it acts, what a commit that
is cut off has done, and that the data structures and text formats below it do what their callers
rely on.

The parts, bottom up:

- **Order and lists.** Version comparison (`Version`), the doubly linked list with its relinking
  merge sort (`KlpmList` over `Lists`), list difference and unordered comparison (`ListDiff`,
  `PkgLists`), and the package cache, an open-addressed table over list nodes with hole-filling
  deletion (`PkgHash`).
- **Dependencies.** Matching and the missing-dependency check (`Package`, `Deps`), recursive
  resolution with rollback (`Resolve`), unneeded dependencies (`RecurseDeps`, `RecurseOrder`), the lazily built
  graph and the non-recursive topological sort (`Dfs`, `DfsExact`, `SortByDeps`, `DepGraph`,
  `DepOrder`).
- **Transactions.** Conflicts (`Conflict`), preparing a sync or a removal (`SyncPrepare`, `Remove`,
  `RemovePrepare`), the calls on a handle (`TransData`, `Trans`), and what carrying out a plan does
  to the installed packages (`Commit`).
- **Files, streams and codecs.** Dependency strings and the local database text (`DepString`,
  `Numbers`, `LocalDb`), the line reader over archive blocks (`LineReader`), base64 (`Base64`), file
  lists (`FileList`, `FileListExact`), disk space (`DiskSpace`) and hook targets (`Hook`).

Loops are methods with invariants, entities that are updated in place are classes, and each such
method is tied to a specification that is then reasoned about. Answers of the user, results of
system calls and the moments at which a signal arrives are arbitrary in the model.

`dafny verify dfyconfig.toml` checks the project.

## Findings

Where the code does not do what its comments say, or what one might expect, the model follows the
code and says exactly what holds.

- Version order is not transitive on all strings; `Version.VersionOrderTransitiveIff` says on which
  triples it is, and `Version.TrailingSeparatorCycle` gives three versions in a cycle.
- The sort does not always put an indirect dependency first, even one that does not lead back: a
  cycle through a third package can cut it off. `DepOrder.IndirectTargetLast` gives three targets
  and an installed package that come out in the wrong order. `DepGraph.SortTargets` says exactly, for
  every listing, which of two targets comes first (`DfsExact.LeftFirstIff`). Whatever the listing, a
  target comes first if no chain of packages cuts it off (`DepOrder.SureNeedAlwaysFirst`); if a chain
  of targets does, it comes last in some listing (`DepOrder.CutOffCanComeLast`); with no other
  installed package in scope that is the whole story (`DepOrder.TargetsOnlyExact`).
- The comment on `_klpm_recursedeps` promises sorted output for sorted input
  (lib/libkuzpkg/deps.c:572). `RecurseOrder.SortedNoMore` gives an input for which it is not so and
  `RecurseOrder.TopoSortedIff` says exactly when it is. What is closer to the targets comes first
  (`RecurseOrder.CloserTakenEarlier`), so by the installed packages and targets alone: a dependency
  that is always further away keeps the list sorted (`RecurseOrder.LevelsSorted`), one that is closer
  does not (`RecurseOrder.LevelsUnsorted`). The lists are sorted again before a commit.
- A recursive cascade takes dependencies along after the last check
  (lib/libkuzpkg/remove.c:248-256). With versions ignored this can break a package that stays:
  `RemovePrepare.LooseCascadeBreaks` gives one. `RemovePrepare.RecurseHarmlessIff` says exactly when,
  and `RemovePrepare.RecurseKeepsHarmless` that it never happens where no installed package satisfies
  a dependency of another only because its version is ignored.
- File lists are sorted by strcmp, which compares unsigned bytes, and intersected by differences of
  plain chars, which are signed. So the search for file conflicts between targets
  (lib/libkuzpkg/conflict.c:442) can miss a file that both have: `FileListExact.HighByteMissed` gives
  the file named by the byte 233 against that file and one named a.
  `FileListExact.CommonReportedIff` says exactly when a common file is found, and
  `FileListExact.ReportedIff` what is reported in all, for any two listings of trees. Where the two
  comparisons agree, as they do below 128 (`FileList.AsciiAgrees`), every common file is found.
- Intersecting file lists also passes over a file against a directory of the same name when another
  entry sorts between them (`FileList.IntersectionIff`; `FileList.DirectoryPassedOver` for foo
  against foo.bar and foo/).
- A backup entry of a file that is not extracted has no hash (lib/libkuzpkg/add.c:224-230), is written
  with the text of a null pointer and comes back with that as its hash (`LocalDb.NullHash`).
  `LocalDb.FilesRoundTrip` says exactly which file lists come back, `LocalDb.DescRoundTrip` which
  descriptions do.
- Decoding nothing leaves the caller's length as it was (`Base64.RoundTrip`).
- A negative installed size other than -1 does not survive the local database
  (`Numbers.SizeRoundTripIff`).
- The first buffer of the line reader is taken from the block size without a look at the limit on
  line length. So the very first line may be longer, but only if it ends in the block in which it
  starts (`LineReader.ReadAll`); the same bytes pass in one block and are refused in two
  (`LineReader.SameBytesOtherBlocks`).

## Model

| member | source | states |
|---|---|---|
| `Version.RpmVerCmp` | lib/libkuzpkg/version.c:84-218 | the segment walk returns the lexicographic order of the two strings read as keys: lists of (separators before, word or number) with an end marker, a number above a word, more separators newer |
| `Version.CompareSegment` | lib/libkuzpkg/version.c:104-191 | one pass of the loop gives the order of the keys, or moves both positions past an equal segment without changing it |
| `Version.ShowdownDecides` | lib/libkuzpkg/version.c:193-212 | when one side is used up, the final comparison gives the order of the keys |
| `Version.CompareNumbers` | lib/libkuzpkg/version.c:156-184 | dropping zeros, then length, then strcmp, orders digit runs by their numeric value |
| `Version.CompareAntisymmetric` | lib/libkuzpkg/version.c:84-218 | swapping the two components negates the answer, for all strings |
| `Version.CompareZero` | lib/libkuzpkg/version.c:84-218 | two components compare equal exactly when they parse to the same key |
| `Version.SegmentsOrdered` | lib/libkuzpkg/version.c:84-191 | after a common start, the smaller number is older, the word that strcmp puts first is older, and a word is older than a number |
| `Version.MoreSeparatorsNewer` | lib/libkuzpkg/version.c:111-115 | after a common start, the component with fewer separators before its next segment is older |
| `Version.AgainstTheEnd` | lib/libkuzpkg/version.c:193-212 | a component that goes on with a separator or a number is newer than one that ends there; one that goes on directly with a word is older, as 1.0a is than 1.0 |
| `Version.AgainstTrailing` | lib/libkuzpkg/version.c:193-212 | where one component has only separators left, the other is newer with a number and older with a word |
| `Version.TransitiveIffNotTangled` | lib/libkuzpkg/version.c:193-212 | the component order is transitive on exactly the triples that do not mix, at one place, a number, a word after a longer separator and an end after a separator |
| `Version.ParseEvrLosesNothing` | lib/libkuzpkg/version.c:39-76 | the epoch, version and release put together give the string back; an epoch is made up only where there is none |
| `Version.PkgVerCmp` | lib/libkuzpkg/version.c:220-261 | the full comparison goes by the parts of the two strings: the greater epoch by value decides, then the versions, then the releases if both are there, a missing one being equal to any; null is below every string |
| `Version.FullCompareAntisymmetric` | lib/libkuzpkg/version.c:220-261 | swapping two full versions negates the answer |
| `Version.VersionOrderTransitiveIff` | lib/libkuzpkg/version.c:220-261 | full versions are ordered transitively on exactly the triples that are not tangled in a component or by a missing release |
| `Version.WellFormedVersionsTotallyOrdered` | lib/libkuzpkg/version.c:220-261 | versions that carry a release and end no component in a separator are totally preordered, and equal only if they parse alike |
| `Version.CleanIff` | lib/libkuzpkg/version.c:84-218 | a component ends in no separator, as the total order asks for, exactly when it is empty or its last character is a letter or digit |
| `Version.TrailingSeparatorCycle` | lib/libkuzpkg/version.c:193-212 | 1.1 < 1..a < 1.. < 1.1: the order has cycles on trailing separators |
| `Lists.MergeSortIsStableSort` | lib/libkuzpkg/klpm_list.c:172-256 | for every list and total preorder the merge sort is a sorted permutation that keeps the order within each class of equal elements |
| `KlpmList.Join` | lib/libkuzpkg/klpm_list.c:150-170 | relinking two well-formed lists gives the well-formed list of the nodes of the first, then of the second |
| `KlpmList.MMerge` | lib/libkuzpkg/klpm_list.c:172-231 | relinking merges two lists: the same nodes in merged order, left first on ties, with the list shape (head's prev is the tail, tail's next null, inner links mutual) restored |
| `KlpmList.MSort` | lib/libkuzpkg/klpm_list.c:233-256 | the in-place sort leaves a well-formed list of the same nodes in merge-sort order |
| `KlpmList.SortedNodes` | lib/libkuzpkg/klpm_list.c:233-256 | that node sequence is sorted, a permutation of the same nodes, and stable, so pointers to nodes stay good |
| `KlpmList.RemoveItem` | lib/libkuzpkg/klpm_list.c:258-293 | unlinking a node, first, last or inner, leaves the well-formed list of the others in order |
| `ListDiff.DiffSorted` | lib/libkuzpkg/klpm_list.c:569-610 | walking two sorted lists yields both one-sided differences |
| `ListDiff.DiffPerClass` | lib/libkuzpkg/klpm_list.c:569-610 | for each class of equal elements the difference is the multiset difference |
| `ListDiff.DiffSortedOrder` | lib/libkuzpkg/klpm_list.c:569-610 | the difference of sorted lists is sorted |
| `ListDiff.Difference` | lib/libkuzpkg/klpm_list.c:613-629 | sorting copies and walking them gives, class by class, the multiset difference of any two lists |
| `ListDiff.CmpUnsorted` | lib/libkuzpkg/klpm_list.c:512-567 | yes exactly when the lists are of one length and hold equally many elements of every class, despite the prefix shortcut and greedy matching |
| `ListDiff.MatchAll` | lib/libkuzpkg/klpm_list.c:537-566 | greedy matching with flags finds a partner for every element exactly when the counts agree |
| `PkgLists.PkgDiff` | lib/libkuzpkg/klpm_list.c:613-629 | by package name: the packages of the first list not named in the second, sorted by name |
| `PkgLists.FieldMatches` | lib/libkuzpkg/sync.c:1089-1111 | a dependency field of a package file matches its database entry exactly when both hold the same dependencies, descriptions aside, equally often |
| `PkgHash.GetHashPosition` | lib/libkuzpkg/pkghash.c:90-106 | probing ends, at the first free slot from the home slot on |
| `PkgHash.MoveOneEntry` | lib/libkuzpkg/pkghash.c:207-234 | the hole is filled by an entry it cuts off from its home slot, leaving a hole nearer to the end of the run, or it cuts off no entry of the table |
| `PkgHash.RehashesToHole` | lib/libkuzpkg/pkghash.c:217-232 | an entry of the run rehashes to the hole exactly when the hole lies on its probe path |
| `PkgHash.NoneCutOff` | lib/libkuzpkg/pkghash.c:207-234 | a hole that cuts off no entry of the run after it cuts off none at all |
| `PkgHash.FillHoles` | lib/libkuzpkg/pkghash.c:291-297 | repeated filling ends with every entry reachable from its home slot without a free slot between |
| `PkgHash.ChooseBuckets` | lib/libkuzpkg/pkghash.c:61-82 | the table size is the first of the list above the size asked for at the initial load; there is none exactly when the whole list is not above it |
| `PkgHash.GrownBuckets` | lib/libkuzpkg/pkghash.c:114-136 | a grown table has the first size of the list above the one rehash asks for, with room for more than the old limit and a free slot; it fails exactly when there is no such size |
| `PkgHash.LargestHasRoom` | lib/libkuzpkg/pkghash.c:32-53 | a table that cannot grow has room for at least 385079 entries |
| `PkgHash.Rebin` | lib/libkuzpkg/pkghash.c:138-151 | rebinning holds the same nodes, all reachable |
| `PkgHash.Cache.Rehash` | lib/libkuzpkg/pkghash.c:109-156 | growing keeps list, nodes and contents, and makes room; it fails, changing nothing, exactly when the list of sizes has no larger one |
| `PkgHash.Cache.Add` | lib/libkuzpkg/pkghash.c:158-205 | adding, sorted or not, updates the plain name-to-package map and keeps all other nodes and the table invariant; the new node joins the list at the end, or, sorted, where a list in order of names stays in order; it fails, changing nothing, exactly when the table is full and cannot grow |
| `PkgHash.Cache.Remove` | lib/libkuzpkg/pkghash.c:245-309 | removing takes exactly that name out of the map and its node out of the list, or changes nothing |
| `PkgHash.Cache.Find` | lib/libkuzpkg/pkghash.c:323-351 | a lookup agrees with the plain map |
| `PkgHash.Cache.RunAll` | lib/libkuzpkg/pkghash.c:158-351 | any sequence of adds, sorted adds and removals leaves the cache valid (slots and list nodes the same set, every entry reachable, a slot free) and equal to the replayed map; an add takes effect exactly when its name is new, as long as the map has fewer than 385079 entries, and every removal does |
| `Package.ComparatorLaws` | lib/libkuzpkg/deps.c:392-411 | of any two versions exactly one of below, equal and above holds, the weak comparisons are their unions, and swapping the versions swaps below and above |
| `Package.ComparatorByParts` | lib/libkuzpkg/deps.c:392-411 | below means that the first difference in epoch, version and release is in that direction |
| `Deps.FindDepSatisfier` | lib/libkuzpkg/deps.c:86-97 | the first package of the list that satisfies the dependency, or none does |
| `Deps.CheckDeps` | lib/libkuzpkg/deps.c:300-390 | the complaints are those of every dependency of an upgrade that nothing meets and of every dependency of an untouched package that only a touched one met, in order |
| `Deps.JudgeAllMembers` | lib/libkuzpkg/deps.c:322-384 | the list complains exactly about the dependencies judged broken |
| `Deps.SilentCheckIff` | lib/libkuzpkg/deps.c:300-390 | the check is silent exactly when afterwards every dependency of an upgrade is met and every met dependency of an untouched package still is |
| `Resolve.FindLiteral` | lib/libkuzpkg/deps.c:645-676 | without prompting, a package of that name from the first usable database that has one that satisfies the dependency and is neither excluded nor ignored; nothing is found only if no database has one |
| `Resolve.FindProviders` | lib/libkuzpkg/deps.c:677-718 | without prompting, the first installed one of the providers in database order that are neither excluded nor ignored, or else all of them in that order |
| `Resolve.ResolveDep` | lib/libkuzpkg/deps.c:636-749 | what is returned satisfies the dependency, comes from a usable database and is not excluded. Without prompting it is not ignored and is, in this order: a package of the dependency's own name from the first database that has one; the first installed provider in database order; the only provider; the one the user picked. Nothing is returned exactly if all suitable packages are ignored or the user refused to choose among at least two that are not installed |
| `Resolve.ProvidersOfAre` | lib/libkuzpkg/deps.c:677-718 | the providers in database order are just the packages of usable databases that provide the dependency under another name and are neither excluded nor ignored |
| `Resolve.ResolveOne` | lib/libkuzpkg/deps.c:815-852 | one missing dependency: nothing happens if the list satisfies it; else the first preferred package that does is tried, or what the search of the sync databases takes, and it is met by having that one on the list, or, if there was none or it failed, by an installed package. If it is met the list meets it, and the list only grew by a package that satisfies it and what that one needs; if not, the list is as before, the dependency is recorded, and every recorded complaint has its reason: not on the list, no installed package that stays and is not ignored would do, and nothing could be taken or a dependency of what was taken is itself recorded |
| `Resolve.NoChoiceInstalled` | lib/libkuzpkg/deps.c:707-711 | the user is never asked to choose among installed packages, so a complaint means that none of them would do |
| `Resolve.ResolveDeps` | lib/libkuzpkg/deps.c:788-863 | resolution ends for every input, cycles included; on failure the list is as before and a dependency of the package is among the recorded complaints, each with its reason; on success it extends the old list with unique names by the package and only by packages that one listed earlier depends on and, if each name denotes one package, every dependency of every added package is met by the list, by an installed package that stays or by the assume-installed list |
| `RecurseDeps.SelectDepends` | lib/libkuzpkg/deps.c:549-566 | moves exactly the listed packages that the given one depends on and that may be taken |
| `RecurseDeps.Collect` | lib/libkuzpkg/deps.c:592-598 | the first two loops end with the packages reachable from the targets through dependencies that may be taken |
| `RecurseDeps.TakeBack` | lib/libkuzpkg/deps.c:600-603 | the last loop ends with the largest part of them that nothing outside depends on |
| `RecurseDeps.AddUnneeded` | lib/libkuzpkg/deps.c:579-622 | appends the largest set of reachable packages such that no package outside targets and set depends on a member, in the order in which the loops reach them |
| `RecurseDeps.ExplicitNeverTaken` | lib/libkuzpkg/deps.c:559 | explicitly installed packages are never reachable unless asked for |
| `RecurseOrder.TakenBeforeIff` | lib/libkuzpkg/deps.c:591-603 | of two packages appended, one comes first exactly if it was taken on account of an earlier package of the queue of targets and reached packages, or of the same one and is earlier in the database |
| `RecurseOrder.TopoSortedIff` | lib/libkuzpkg/deps.c:572 | targets and appended packages are together sorted, dependents first, exactly if the targets were, no appended package depends on a target, and none depends on one that was taken earlier |
| `RecurseOrder.SingleDependentsSorted` | lib/libkuzpkg/deps.c:572 | so a sorted list stays sorted if no appended package depends on a target and each is depended on by one package only |
| `RecurseOrder.CloserTakenEarlier` | lib/libkuzpkg/deps.c:591-603 | of two packages appended, the one to which a shorter chain of dependencies leads from the targets comes first |
| `RecurseOrder.LevelsSorted` | lib/libkuzpkg/deps.c:572 | a sorted list stays sorted if no installed package other than the targets depends on a target and each that depends on another is closer to the targets than that one |
| `RecurseOrder.LevelsUnsorted` | lib/libkuzpkg/deps.c:572 | it does not stay sorted if a package appended depends on another that is closer to the targets |
| `RecurseOrder.OneDependentSorted` | lib/libkuzpkg/deps.c:572 | it stays sorted if no installed package other than the targets depends on a target and each is depended on by one target or installed package only |
| `RecurseOrder.SortedNoMore` | lib/libkuzpkg/deps.c:572 | t needs a and b, b needs a: the sorted list t comes out as t, a, b, which is not sorted |
| `Dfs.PostOrderSettled` | lib/libkuzpkg/deps.c:213-263 | the post-order lists every vertex once, and when a vertex is left every child of a vertex left so far is left too or lies on the chain of vertices that led there |
| `Dfs.NeverCutOffFirst` | lib/libkuzpkg/deps.c:213-263 | v is left before u if no chain that leads to u cuts v off from u |
| `Dfs.NeededFirst` | lib/libkuzpkg/deps.c:213-263 | what u reaches along a path that does not lead back to u is left before u |
| `Dfs.IndirectNeedCanComeLast` | lib/libkuzpkg/deps.c:213-263 | four vertices in which u leads to v, v does not lead back, and u is left before v |
| `DfsExact.LeftFirstIff` | lib/libkuzpkg/deps.c:213-263 | for every graph and listing: u is left before v exactly if the walk is led down to u ahead of v, along a chain before which neither it nor v is reached from an earlier root or an earlier child, and which cuts v off from u; of two vertices exactly one is left first |
| `DfsExact.StraightDown` | lib/libkuzpkg/deps.c:213-263 | a chain listed first whose vertices list their children by number is walked straight down |
| `DfsExact.CutOffIff` | lib/libkuzpkg/deps.c:213-263 | the last vertex of such a chain is left before v exactly if the rest of the chain cuts v off from it |
| `SortByDeps.Descend` | lib/libkuzpkg/deps.c:231-245 | one step of the iterative walk follows the recursive one |
| `SortByDeps.WalkVertices` | lib/libkuzpkg/deps.c:229-263 | the walk over state, iterator and parent fields, without recursion, ends and outputs the targets in the order of the recursive post-order |
| `DepGraph.DepGraphInit` | lib/libkuzpkg/deps.c:104-159 | the lazily built graph holds the targets, then the installed packages reachable from them in the order in which they are first depended on, and nothing else, with exactly the dependencies among them as edges, each vertex listing its children by number |
| `DepGraph.SortTargets` | lib/libkuzpkg/deps.c:197-279 | the sort is a permutation of the targets; one target comes before another exactly if the walk over that graph is led down to it ahead of the other, or the other way round when reversed; so whatever no chain of needs cuts off from a target comes first, in particular what it needs along packages that do not need it back |
| `DepGraph.SureNeedPlaced` | lib/libkuzpkg/deps.c:197-279 | of distinct targets, one that no chain of packages in scope cuts off from another comes before it, or after it when reversed |
| `DepOrder.ForGoodIsSure` | lib/libkuzpkg/deps.c:197-279 | what is needed along packages that do not need it back is cut off by no chain |
| `DepOrder.AcyclicIsSure` | lib/libkuzpkg/deps.c:197-279 | if no two packages in scope need each other, no need is cut off |
| `DepOrder.CutOffTargetIff` | lib/libkuzpkg/deps.c:197-279 | when the first targets are a chain of needs, the last of them comes before another target exactly if the chain cuts that target off from it |
| `DepOrder.SureNeedAlwaysFirst` | lib/libkuzpkg/deps.c:197-279 | a need that no chain cuts off comes first however the targets are listed |
| `DepOrder.CutOffCanComeLast` | lib/libkuzpkg/deps.c:197-279 | a need that a chain of targets cuts off comes last when the targets are listed in some order |
| `DepOrder.TargetsOnlyExact` | lib/libkuzpkg/deps.c:197-279 | with no other installed package in scope: a needed target comes first in every listing exactly if no chain cuts it off, and otherwise comes last in some listing |
| `DepOrder.IndirectTargetLast` | lib/libkuzpkg/deps.c:197-279 | targets t and u need the installed w, which needs the targets u and v: they always come out as u, v, t although u needs v and v does not need u |
| `Remove.CheckRemoval` | lib/libkuzpkg/remove.c:219-246 | no complaint exactly when the removal breaks no met dependency of a package that stays |
| `Remove.CascadeRound` | lib/libkuzpkg/remove.c:95-113 | one round lists every complaining package, and only those |
| `Remove.Cascade` | lib/libkuzpkg/remove.c:90-120 | the cascade ends with the least removal that covers the given one and breaks nothing |
| `Remove.StaysBroken` | lib/libkuzpkg/remove.c:90-120 | a removal that covers a broken one without its complaining package is broken as well |
| `Remove.KeepRound` | lib/libkuzpkg/remove.c:135-150 | one round drops only packages that are blamed, at least one |
| `Remove.KeepNeeded` | lib/libkuzpkg/remove.c:128-156 | ends with a part of the list that breaks nothing, having dropped only packages that a staying package needs |
| `RemovePrepare.RecurseKeepsHarmless` | lib/libkuzpkg/remove.c:248-256 | taking unneeded dependencies along breaks nothing where no installed package satisfies a dependency of another only because its version is ignored, so always when versions count |
| `RemovePrepare.RecurseHarmlessIff` | lib/libkuzpkg/remove.c:248-256 | taking unneeded dependencies along with a harmless removal breaks something exactly if one of them satisfies a dependency of a package that stays only because its version is ignored, and every installed package that satisfies it so is removed |
| `RemovePrepare.LooseCascadeBreaks` | lib/libkuzpkg/remove.c:248-256 | k needs lib above 1, lib 1 came in as a dependency, t needs any lib: with versions ignored removing t is harmless, lib is the unneeded dependency, and taking it along breaks k |
| `RemovePrepare.Prepare` | lib/libkuzpkg/remove.c:203-269 | by the flags: the checked list is the given one, followed, for recursion without a cascade, by the largest set of dependencies no other package needs. Planning fails exactly if that list breaks something and neither a cascade, nor keeping needed ones, nor skipping the check was asked for. Without a cascade the list is removed as it is, or, keeping needed ones, a harmless part that drops only needed packages; with one, the least harmless cover of it, followed under recursion by the largest unneeded set. A prepared removal breaks nothing; a recursive cascade, which is not checked again, breaks nothing exactly if no package that stays leaned on one of the dependencies taken along only because its version was ignored |
| `Conflict.AddConflict` | lib/libkuzpkg/conflict.c:127-144 | records the pair unless it is there, so no pair is there twice |
| `Conflict.CheckConflict` | lib/libkuzpkg/conflict.c:160-196 | adds exactly the genuine conflicts between two lists, in the order asked for |
| `Conflict.InnerConflicts` | lib/libkuzpkg/conflict.c:206-214 | every clash between two listed packages, each pair once and nothing else |
| `Conflict.OuterConflicts` | lib/libkuzpkg/conflict.c:219-238 | every incompatibility with an installed package that is not replaced by name, each pair once and nothing else |
| `SyncPrepare.SettlePair` | lib/libkuzpkg/sync.c:520-571 | of two clashing targets that are both still there, the second is dropped if the first satisfies its name, else the first if the second satisfies its name, and the phase fails exactly if neither does |
| `SyncPrepare.SettleTargets` | lib/libkuzpkg/sync.c:516-575 | no two of the remaining targets clash, no target is lost, and each dropped one is incompatible with a target that satisfies its name and outlived it; on failure two remaining targets clash and neither satisfies the other's name |
| `SyncPrepare.SettleInstalled` | lib/libkuzpkg/sync.c:577-635 | every installed package that is incompatible with a target ends up elected for removal, or the phase fails, exactly if the user objects to the removal of one that is not elected yet; only such packages are elected, each by a target it is incompatible with |
| `SyncPrepare.CollectRemovals` | lib/libkuzpkg/sync.c:638-652 | the removal list keeps what it had, gains only what targets replace, names just what is elected, and repeats no name |
| `SyncPrepare.ResolutionContext` | lib/libkuzpkg/sync.c:412-423 | as far as resolution is concerned exactly those names are removed that the removal list or a target replaces, the targets are preferred, and the installed packages are those not named like a target |
| `SyncPrepare.ResolveTargets` | lib/libkuzpkg/sync.c:425-435 | every target is resolved or set aside as unresolvable with a dependency among the recorded complaints, each with its reason; names stay unique, only available packages are added, each a target or one that a package listed earlier depends on, and, if each name denotes one package, every dependency of a resolved package is met |
| `SyncPrepare.SameFilename` | lib/libkuzpkg/sync.c:469-481 | finds two packages with one file name exactly when there are two |
| `SyncPrepare.ResolvePhase` | lib/libkuzpkg/sync.c:401-507 | the resolved list holds every target by name that is not set aside, otherwise only packages from a usable database that one of its packages depends on, marked as dependencies, with unique names and, if each name denotes one package, all dependencies met; the targets set aside each have a dependency that was complained about for a reason. Dependencies are reported unsatisfied exactly if targets are set aside and the user will not skip them, a repeated file name exactly if two resolved packages share one; then the lists are as before, else the resolved list is the new one |
| `SyncPrepare.ConflictPhase` | lib/libkuzpkg/sync.c:509-652 | fails exactly on a deadlock between targets or an objection of the user. Every target stays or is recorded as dropped for one that outlived it; what targets replace grows only by installed packages they are incompatible with; on success the removal list names just what is elected, no two targets clash and no target is incompatible with a package that stays |
| `SyncPrepare.Prepare` | lib/libkuzpkg/sync.c:367-687 | which of the endings comes about, in the order of the checks and each exactly when: unresolved targets that the user will not skip; a repeated file name; a deadlock or an objection; a dependency that the final lists leave unmet; or success. On success every target is on the list by name, or is set aside unresolved, or gave way to a target that outlived it; every listed package is a target or was pulled in from the targets or a usable database for a dependency of a resolved one; every removal was asked for or is replaced by a target; and, with the checks on, every dependency of every target is met afterwards, every met dependency of an untouched package still is, and no target conflicts with a target or a kept package |
| `SyncPrepare.TargetsHeld` | lib/libkuzpkg/sync.c:401-575 | in any successful outcome every target is listed by name, set aside unresolved, or gave way to a target it is incompatible with that satisfies its name |
| `SyncPrepare.NothingElse` | lib/libkuzpkg/sync.c:401-652 | in any successful outcome nothing else is installed or removed |
| `Trans.Handle.Init` | lib/libkuzpkg/trans.c:45-67 | one transaction at a time, initialized, without targets, and locked unless told otherwise; it fails exactly if there is one or the lock is wanted and taken |
| `Trans.Handle.AddPkg` | lib/libkuzpkg/add.c:50-111 | only while initialized; one target for each name, none that is up to date if only needed ones are wanted; an error for another package of that name |
| `Trans.Handle.RemovePkg` | lib/libkuzpkg/remove.c:49-80 | only while initialized; one installed package for each name |
| `Trans.Handle.Prepare` | lib/libkuzpkg/trans.c:109-165 | prepared exactly if there is something to do, the architectures are allowed and planning succeeds; then the lists are those of the plan in dependency order, a safe one that holds the targets and nothing unasked for; a failed plan leaves the transaction initialized with the lists planning arrived at, and planning fails just as stated for a removal or a sync; the database is left alone |
| `Trans.Handle.SortLists` | lib/libkuzpkg/trans.c:148-160 | sorting permutes both lists, keeps the plan safe and puts them in dependency order |
| `Trans.Handle.Commit` | lib/libkuzpkg/trans.c:167-245 | refused exactly unless prepared and locked; nothing to do exactly if both lists are empty; only downloaded exactly if there are targets, that was asked for and loading went well; not started exactly if loading, checking or a hook failed; otherwise it ends aborted exactly if the last step failed, stopped if a signal came, and else done, after every step went well. The database changes only in these three cases, and no step is taken after a signal |
| `Trans.Handle.RemovePackages` | lib/libkuzpkg/remove.c:764-798 | removals follow the list and stop only on an interrupt, which may come before or during any of them and after which nothing more is removed |
| `Trans.Handle.UpgradePackages` | lib/libkuzpkg/add.c:678-718 | installs follow the list and stop on an interrupt, after which nothing more is installed, or after the first failed target |
| `Trans.Replace` | lib/libkuzpkg/add.c:457-512 | the old version goes first; then the target is there with the install reason of the old one or the one asked for, or nothing of that name is |
| `Trans.Handle.CommitSingle` | lib/libkuzpkg/add.c:438-676 | one target is one step, whatever its ending |
| `Trans.Handle.Interrupt` | lib/libkuzpkg/trans.c:247-262 | takes effect only while committing |
| `Trans.Handle.Release` | lib/libkuzpkg/trans.c:264-286 | unlocks and closes the transaction as a lawful record of what it did |
| `Trans.Run` | lib/libkuzpkg/trans.c:45-286 | in every run of calls with interrupts and failures anywhere, what was done is a prefix of the prepared removals then the prepared installs, and the database is what lawful transactions made of the first one |
| `Commit.CompleteDb` | lib/libkuzpkg/add.c:438-718 | after a complete run the installed packages are exactly those in neither list and every target, an upgraded one with the install reason it had |
| `Commit.CompleteRunIsSafe` | lib/libkuzpkg/sync.c:509-670 | a complete run of a prepared plan leaves no dependency unmet that was not unmet before and no new conflict, with unique names; a recursive cascade included where versions decide nothing |
| `Commit.PlannedAnyOrder` | lib/libkuzpkg/trans.c:148-160 | a plan is as safe in any other order of its lists |
| `Commit.NeedsInstalledFirst` | lib/libkuzpkg/add.c:693-710 | wherever a run stops, an installed target has every target that it needs and that no chain cuts off from it |
| `Commit.NeedingRemovedFirst` | lib/libkuzpkg/remove.c:774-790 | wherever a run stops, no target that is still there needs a removed one that no chain cuts off from it |
| `Commit.WithoutCircles` | lib/libkuzpkg/add.c:693-710 | where no two packages in scope need each other, wherever a run stops every target that an installed one needs is installed, and every target that needs a removed one is removed |
| `Commit.SoundForever` | lib/libkuzpkg/trans.c:45-286 | a database with every dependency met and no conflict stays so through every history of complete transactions with the checks on |
| `DepString.PrintParsed` | lib/libkuzpkg/deps.c:458-523 | printing a parsed dependency gives back the string, for every string |
| `DepString.ParsePrinted` | lib/libkuzpkg/deps.c:865-926 | parsing a printed well-formed dependency gives back the dependency |
| `DepString.ParsedWellFormed` | lib/libkuzpkg/deps.c:458-523 | every parsed dependency is well-formed |
| `DepString.KeptByTextIff` | lib/libkuzpkg/deps.c:865-926 | a dependency survives its text form exactly if it is well-formed |
| `Numbers.DateRoundTrip` | lib/libkuzpkg/util.c:1591-1611 | every 64-bit date survives its decimal form |
| `Numbers.SizeRoundTripIff` | lib/libkuzpkg/util.c:1566-1588 | a size survives its decimal form exactly if it is not below -1 |
| `LocalDb.ReadDesc` | lib/libkuzpkg/be_local.c:739-848 | on lines that fit the buffer and end in an empty one, a line that fills the buffer being read without its newline, the reader with its stale buffer at the end of the file gives what the lines say |
| `LocalDb.ReadFiles` | lib/libkuzpkg/be_local.c:850-909 | the same for the file list and backup entries |
| `LocalDb.OneLineKeys` | lib/libkuzpkg/be_local.c:739-848 | each one-line text key of a description fills its field and no other; the name and version lines change nothing |
| `LocalDb.NumberKeys` | lib/libkuzpkg/be_local.c:739-848 | the dates, the size and the reason fill their own fields, each parsed its way; a reason of 0 is explicit, 1 a dependency, any other unknown |
| `LocalDb.ListKeys` | lib/libkuzpkg/be_local.c:739-848 | each list key appends the values of its section, in order, to its list and no other; an unknown key changes nothing |
| `LocalDb.ValidationKey` | lib/libkuzpkg/be_local.c:739-848 | each validation word sets its own mark |
| `LocalDb.XdataKey` | lib/libkuzpkg/be_local.c:739-848 | an extra pair is split at the first equals sign |
| `LocalDb.FileKeys` | lib/libkuzpkg/be_local.c:850-909 | the file section gives the sorted files, the backup section appends its entries |
| `LocalDb.WriteDesc` | lib/libkuzpkg/be_local.c:986-1087 | what is written is one section for each set field: key, values, empty line |
| `LocalDb.WriteDeps` | lib/libkuzpkg/be_local.c:955-970 | a dependency list is written as its printed dependencies under the header, or not at all |
| `LocalDb.WriteFiles` | lib/libkuzpkg/be_local.c:1089-1124 | the sections of the file list and the backup entries |
| `LocalDb.ReadBack` | lib/libkuzpkg/be_local.c:713-848 | reading the lines of a written record gives it back, each size, dependency and extra pair as it is after its trip through text, without the fields that are not written |
| `LocalDb.DescRoundTrip` | lib/libkuzpkg/be_local.c:972-1087 | write, then read: for 64-bit numbers and newline-free values that fit the line buffer, exactly those records come back whose size is not below -1, whose dependencies are well-formed, whose extra data has no equals sign in a name, and whose unwritten fields are empty; the others come back as stated |
| `LocalDb.ComesBackIff` | lib/libkuzpkg/be_local.c:972-1087 | what is read equals what was written exactly under these conditions |
| `LocalDb.FilesRoundTrip` | lib/libkuzpkg/be_local.c:1089-1124 | write, then read: for entries that fit the line buffer, exactly those lists come back that are in byte order and whose backup entries have a hash and no tab in the name; the others come back sorted and with what the text says |
| `LocalDb.BackupKeptIff` | lib/libkuzpkg/be_local.c:1114-1121 | a backup entry survives its text form exactly if it has a hash and no tab in its name |
| `LocalDb.NullHash` | lib/libkuzpkg/be_local.c:1114-1121 | an entry without a hash comes back with the text of a null pointer as its hash |
| `LocalDb.SortKeepsIff` | lib/libkuzpkg/be_local.c:850-909 | sorting leaves a file list as it is exactly if it is in byte order |
| `LineReader.Reader.Fgets` | lib/libkuzpkg/util.c:1343-1488 | each call returns the next line of the stream, the end only after the last line, and out of range for a line beyond the limit; when there is no line buffer yet, a line beyond the limit is returned exactly if it ends in the block in which it starts; every copy fits the grown buffer |
| `LineReader.Reader.Reserve` | lib/libkuzpkg/util.c:1392-1440 | the buffer has room for the copy and a terminator and keeps what was copied; only the first buffer is taken without a look at the limit |
| `LineReader.ReadAll` | lib/libkuzpkg/util.c:1343-1488 | for every split into blocks the successive lines are the newline-split of the stream, then end of file; or those before the first line that is beyond the limit and not a first line that ends in the first block |
| `LineReader.SameBytesOtherBlocks` | lib/libkuzpkg/util.c:1392-1418 | with a limit of two, the bytes abc and a newline are read in one block and refused in two |
| `LineReader.LinesOfBytesIff` | lib/libkuzpkg/util.c:1381-1390 | that is the newline-split of the bytes exactly if no block is empty and no null byte comes after the last newline of its block |
| `Base64.Measure` | lib/libkuzpkg/base64.c:144-163 | the first pass accepts exactly the inputs of alphabet characters, then at most two '=', with whole line breaks anywhere, and counts them |
| `Base64.Decode` | lib/libkuzpkg/base64.c:137-196 | invalid input, a too small buffer and the decoded bytes, each exactly when; what is written never exceeds the announced size |
| `Base64.Bounded` | lib/libkuzpkg/base64.c:176-191 | at most three bytes come out of four characters |
| `Base64.Quartet` | lib/libkuzpkg/base64.c:181-190 | four characters determine the bytes written, whatever the 32-bit accumulator held before |
| `Base64.AlphabetDecodes` | lib/libkuzpkg/base64.c:38-68 | the decoding table gives each of the 64 characters its place in the standard alphabet, marks the padding, and rejects every other byte |
| `Base64.SextetsHoldBits` | lib/libkuzpkg/base64.c:98-125 | four characters hold the bits of up to three bytes, the first byte highest, with padding exactly for the missing bytes |
| `Base64.RoundTripValues` | lib/libkuzpkg/base64.c:98-125 | decoding the six-bit groups of any data gives the data |
| `Base64.DecodesBack` | lib/libkuzpkg/base64.c:73-196 | encoded data with line breaks inserted anywhere is accepted and decodes to the data |
| `Base64.RoundTrip` | lib/libkuzpkg/base64.c:137-196 | the data comes back, and its length too exactly unless there was nothing to decode and the caller's length was not zero |
| `FileList.PathCmp` | lib/libkuzpkg/filelist.c:64-79 | the pointer walk computes the path order |
| `FileList.PathOrderMeans` | lib/libkuzpkg/filelist.c:64-79 | for all bytes, the path comparison says equal exactly when the paths are the same up to one trailing slash; below 128 it orders the others as strcmp does |
| `FileList.Difference` | lib/libkuzpkg/filelist.c:32-62 | the walk yields the one-sided difference of the two lists |
| `FileList.DifferenceMeans` | lib/libkuzpkg/filelist.c:32-62 | on sorted lists that is the multiset difference, still sorted |
| `FileList.Intersection` | lib/libkuzpkg/filelist.c:85-110 | the walk reports the first path of each pair it brings together that is not two directories |
| `FileList.PairsSound` | lib/libkuzpkg/filelist.c:85-110 | for all bytes and however the lists are ordered, only entries that are equal up to one trailing slash are brought together |
| `FileList.ReportedAscending` | lib/libkuzpkg/filelist.c:85-110 | what is reported is ascending if the first list is, so no entry is reported twice |
| `FileList.IntersectionIff` | lib/libkuzpkg/filelist.c:81-110 | exactly what is reported where the two comparisons agree on the lists: a file that is in both, a file against a directory of that name with nothing listed in between, and the same the other way round |
| `FileList.AsciiAgrees` | lib/libkuzpkg/filelist.c:64-79 | on lists of paths with bytes below 128 the two comparisons agree |
| `FileList.DirectoryPassedOver` | lib/libkuzpkg/filelist.c:81-110 | a file foo is reported against the directory foo/, but not with foo.bar listed before it |
| `FileListExact.HandsOver` | lib/libkuzpkg/filelist.c:64-79 | of entries neither of which lies under the wanted one, one put above the wanted pair and not above another entry makes that one stand above it too, for all bytes |
| `FileListExact.FreeIsPaired` | lib/libkuzpkg/filelist.c:85-110 | on any two sorted lists, two entries that are the same path are brought together if nothing is in their way, or what is last in their way on either side is the same path and has itself nothing in its way |
| `FileListExact.PairedIff` | lib/libkuzpkg/filelist.c:85-110 | on two sorted listings of trees, only then |
| `FileListExact.ReportedIff` | lib/libkuzpkg/filelist.c:81-110 | exactly what is reported of two listings of trees, whatever their bytes |
| `FileListExact.CommonReportedIff` | lib/libkuzpkg/filelist.c:81-110 | a file that both list is reported exactly if nothing is in the way: the entries before it that the path comparison puts above it are none, or the last of them are the same path and met before |
| `FileListExact.HighByteMissed` | lib/libkuzpkg/filelist.c:64-79 | two sorted listings that both have the file named by the byte 233, and nothing is reported |
| `FileListExact.OutsideTrees` | lib/libkuzpkg/filelist.c:85-110 | where one list has both a path and an entry under it, entries can be brought together with something in their way |
| `DiskSpace.MatchMountPoint` | lib/libkuzpkg/diskspace.c:202-229 | the first mount directory in order that is the path or a parent directory of it |
| `DiskSpace.MatchIsLongest` | lib/libkuzpkg/diskspace.c:53-59 | in mount point order that is the longest such directory |
| `DiskSpace.BlocksSuffice` | lib/libkuzpkg/diskspace.c:343-344 | the rounded-up block count is the least that holds the size |
| `DiskSpace.CalculateRemovedSize` | lib/libkuzpkg/diskspace.c:231-291 | each plain file found on disk is credited to its mount point, lazily loaded, and to no other |
| `DiskSpace.CalculateInstalledSize` | lib/libkuzpkg/diskspace.c:293-350 | each plain file is charged to its mount point, database entries to that of the database |
| `DiskSpace.PeakFits` | lib/libkuzpkg/diskspace.c:484-489 | the running maximum fits exactly when every moment does |
| `DiskSpace.CushionBounds` | lib/libkuzpkg/diskspace.c:354-357 | the cushion is one block more than the most blocks that are within both five percent of the capacity and twenty mebibytes |
| `DiskSpace.CheckDiskspace` | lib/libkuzpkg/diskspace.c:433-514 | the check passes exactly when the root has a mount point, nothing touched is read-only, and on every mount point that is written to the net blocks after all removals and any number of targets fit the free blocks with the cushion to spare |
| `Hook.Partition` | lib/libkuzpkg/hook.c:308-333 | the in-place merge leaves in each list what the other does not have, repetitions included, and lists what both have once |
| `Hook.SplitMatches` | lib/libkuzpkg/hook.c:306-333 | every matched path ends up in exactly the one of installed, removed and both where it belongs, in order |
| `Hook.StrlistDedup` | lib/libkuzpkg/hook.c:488-501 | unlinks all but the first of equal neighbours |
| `Hook.DedupMeans` | lib/libkuzpkg/hook.c:488-501 | a sorted list is left strictly ascending with the same paths |
| `Hook.Feed.FeedTargets` | lib/libkuzpkg/hook.c:465-486 | the buffer is filled as far as there is text; the rest is what is left to feed |
| `Hook.FeedAll` | lib/libkuzpkg/hook.c:465-486 | through buffers of any positive sizes every target comes out with its newline, in order, and nothing else |
| `Hook.FeedMatches` | lib/libkuzpkg/hook.c:515-522 | a hook reads every match once, in byte order |

## Left out

- Downloads, signatures, scriptlets, chroot, file conflicts on disk, unlinking and archive extraction: system calls and foreign libraries; a commit step only succeeds, goes wrong or gives up.
- Allocation failures, logging, progress, events and callbacks, and the listing of cycles for a warning while sorting.
- Database validity checks, download sizes and the architecture check (lib/libkuzpkg/sync.c:381-399, lib/libkuzpkg/trans.c:69-107): any outcome is allowed.
- Fields of packages that planning does not read; packages are values, so pointers to one package and to an equal copy are not told apart, except for list nodes and transactions.
- File locks: taking the lock may fail for any reason.
- Changes to the database outside of a transaction while one is open, such as setting an install reason.
- Trans.Handle.AddPkg: packages are values, so a second loaded copy that is equal in every modelled field counts as the same target rather than as a duplicate.
- Trans.Handle.RemovePkg: that a package comes from the local database is modelled as its being in it.
- Trans.Handle.Prepare: the installed packages are a collection; the cache keeps them sorted, which nothing here depends on.
- Trans.Handle.CommitSingle: extraction is one of three endings; the old package is the installed one of that name, which is what was copied when preparing.
- PkgHash.ChooseBuckets: the quotient by 0.58 is exact here, where the source rounds a floating-point quotient down.
- PkgHash.Cache.Add: the table may have started at any size of at least two; the source starts it at one of the list.
- SortByDeps.WalkVertices: vertices are numbers and their fields maps from numbers, where the source has pointers; the weights, which the sort does not read, are left out.
- DepGraph.SortTargets: the order is exact for the listing at hand. Over all listings it is exact for chains of targets; a chain through an installed package need not be walked in any listing, because such packages come after the targets, and for which of them it is walked is not characterized further.
- Resolve.ResolveDep: with prompting, as in the public search for a satisfier, the answers about ignored packages decide; then only that the result is suitable is stated.
- RemovePrepare.Prepare: the notice about optional dependencies of packages that stay is left out.
- LineReader.Reader.Fgets: an archive error may come at any call; the error code is one value.
- LocalDb.DescRoundTrip: what becomes of values with a newline, of empty list entries and of values that do not fit the line buffer is not stated.
- LocalDb.FilesRoundTrip: the library sort is modelled as the merge sort; on strings every sort gives the same list.
- DiskSpace.CheckDiskspace: block counts are unbounded, paths are not cut at PATH_MAX, and the list of mount points is given.
- FileList.IntersectionIff: for strictly ascending lists on which the comparisons agree. Plain chars are taken as signed, as on most platforms.
- FileListExact.ReportedIff: for listings of trees, in which no entry lies under another that is not written as a directory; outside of these only one direction is stated, in FileListExact.FreeIsPaired.
- FileList.Intersection: paths are not empty; the source would read before the string.
- Hook.SplitMatches: collecting the matches with patterns, and triggers on package names.
- The package front end, configuration, sync database parsing, system upgrade selection and everything under src/ and scripts/.
