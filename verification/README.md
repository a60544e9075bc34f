# A verified model of the Jease content repository

Jease is a content management system. Its contents are nodes of one tree, kept in memory and written
back to an object database node by node. This project models that tree with its services, the object
database below it and the natural order used for sorting, and proves that they keep what they are for.

**The content tree.** `CmfDomain.dfy` has the nodes as objects with a parent pointer and a child array that
their methods reassign in place, and the static set of changed nodes. Each method is proved equal to a
function on the whole forest (`Forests.dfy`, `Reorders.dfy`, `Paths.dfy` with `Patterns.dfy` and `Addresses.dfy`, `Shapes.dfy`), about which the
lemmas speak: well-formedness, detaching while the walked array changes, bulk appends as permutations,
printing and resolving paths, copies. `Addresses.dfy` also tells exactly what validation accepts, and that
what it accepts is found where it was put.

**Write-back.** `CmfService.dfy` has the service that validates, moves and writes. Only marked nodes are
visited by a write. `WriteBack.dfy` proves when that is the same as writing the whole tree anew, and
`Runs.dfy` proves it over every run of operations, together with the path cache.

**Deletion.** `CmsService.dfy` deletes content with every reference into it, or moves it to a trash, or
empties a trash, all while the lists it walks grow stale. `Deletion.dfy` and `Trashes.dfy` prove that
exactly a least closed set disappears. `Emptyings.dfy` says what one call of `delete` makes of the whole
forest, trashes inside and beside one another included; `Catchers.dfy` proves exactly when the children
of a trash are deleted and when another trash catches them; `Verdicts.dfy` tells the same of all other content
by the tree alone, and likewise which access guards a node has; `Dangling.dfy` proves when stored references
are left dangling; `Endings.dfy`, with `Circles.dfy` for recursions along the arrows of any finite graph,
proves exactly when the recursion of the deletion ends.

**The object database.** `Reflections.dfy`, `Repository.dfy`, `Engine.dfy`, `Ownership.dfy` and
`Database.dfy` have the index by class, the engine with its undo log, transactions that may throw,
cascades, garbage collection and remembered query results. Each call of the database is proved equal to
a step of a session (`Sessions.dfy`) on one plain set of objects and the remembered answers;
`Integrity.dfy` proves exactly which references collections and deletions leave pointing into the void.

**Natural order.** `Natural.dfy` has the comparison with its nested loops and proves that it refines a
lexicographic order on lists of numbers and texts, and for exactly which collators it is a total preorder.

**Guards, revisions, properties.** `Guards.dfy` and `JeaseSite.dfy` find the nearest active access
guard, `Revisions.dfy` purges revisions, `Factories.dfy` keeps properties in step with a prototype.

`dafny verify dfyconfig.toml` checks everything.

## How the model relates to the code

- Objects that the code mutates are classes here; a `Space` holds the static state of the node class
  and, for the proofs only, the set of all nodes. Loops over snapshots are loops over snapshots.
- Exceptions are options or results: `NodeError` for the exceptions of validation, `Crash` where path
  resolution dereferences null or meets a bad pattern, a returned `false` where a transaction or a cast
  throws.
- Ghost parameters carry the value of the state before a call; they have no part in what is computed.
- A run of the repository is permitted if it keeps to what the callers see to: the root stays where it
  is, an appended node is new and marked all through or stays as rooted as it was, a node detached alone
  leaves no stored node below it unmarked, new children of one bulk append differ in id. `Runs.Permitted`
  says this, and `WriteBack.AppendTracked`, `WriteBack.DetachTracked` and `Runs.BulkUnique` show that the
  last three conditions are exact.
- The deletion cascade calls itself along "refers into the subtree of". Its contracts ask that no circle
  can be reached from the content at hand (`Deletion.Ending`), which `Endings.DeletionEndsExactly` proves
  to be exactly when the code ends; `Emptyings.DeleteEndsExactly` proves the same for a whole call of
  `delete`. A save asks this of the values held (`Ownership.SaveEndsExactly`).
- `delete` moves content into the first trash found from the parent of the content upwards, and looks for
  it anew for each child of a trash that is emptied. So what is emptied is deleted if and only if, at the
  turn of each child, the trash has no other trash inside and is the first one beside itself
  (`Catchers.TurnDecides`, `Catchers.DeletedExactly`); `Catchers.SecondTrashKeeps` is a small example where
  nothing is deleted.
- An absolute path is resolved after the path of the top was cut off as a regular expression. `.` and `*`
  are the characters of valid ids that have a meaning in one, and `Patterns.dfy` has both. A dot does no
  harm; with a star in the id of the top the printed paths lead nowhere (`Paths.StarredTopLost`).
- A predicate wrapped in `Sequences.Together` is the plain conjunction, carried by the proofs as one fact.
- The collator is a parameter. For one that is a total preorder, the whole comparison is a total preorder
  if and only if each text is before all numerals or after all of them (`Natural.OrderIffSeparated`);
  `Natural.IndifferenceBreaksOrder` is a small example where it is not.
- Where code and comments disagree, the model follows the code: `compareObjects` dereferences the collator
  although its comment allows null; `getReferringFields` promises all fields that might hold a reference but
  misses those declared with a supertype (`Reflections.SeesExactly`); values are said to be deleted with the
  enclosing entity, but a value inside a value is left to garbage collection, one level with each pass
  (`Ownership.PassesTakeLevels`).
- Classes are finite values with their supertypes inside. Objects of the database have fixed field
  values during a call. `blobError` says in which of the next writes handling blob files throws.

## Model

| member | source | states |
|---|---|---|
| Chains.AncestorsComparable | src/main/java/jease/cmf/domain/Node.java:121-135 | of two ancestors of a node, one is an ancestor of the other: parent pointers describe a tree |
| Forests.DetachParentLinked | src/main/java/jease/cmf/domain/Node.java:284-292 | leaving the parent keeps parents and child arrays in step and takes the node out of every array |
| Forests.AppendChildLinked | src/main/java/jease/cmf/domain/Node.java:224-236 | after an append, a node is in a child array exactly if the owner of the array is its parent, and then once |
| Forests.AppendChildWellFormed | src/main/java/jease/cmf/domain/Node.java:224-236 | an append keeps the forest free of circles if and only if the target is neither the appended node nor below it |
| Forests.AppendUnder | src/main/java/jease/cmf/domain/Node.java:224-236 | who is below whom after an append, for every pair of nodes |
| Forests.IsolateNext | src/main/java/jease/cmf/domain/Node.java:275-279 | detaching the next child of the snapshot takes exactly the subtrees of the children so far apart |
| Forests.IsolateLast | src/main/java/jease/cmf/domain/Node.java:267-282 | after all children, leaving the parent completes the detached forest: subtree in single nodes, all of them and the old parent marked, nothing else different |
| Forests.PreorderVisitsOnce | src/main/java/jease/cmf/domain/Node.java:417-422 | the downward walk visits each node below the start exactly once and nothing else, so it agrees with the upward test |
| Forests.PreorderOrder | src/main/java/jease/cmf/domain/Node.java:417-422 | it comes to every node before those below it, and to what is below an earlier child before what is below a later one |
| Reorders.ArrangeOnce | src/main/java/jease/cmf/domain/Node.java:242-262 | a bulk append brings out every old and every new child exactly once |
| Reorders.ArrangeMerges | src/main/java/jease/cmf/domain/Node.java:242-262 | new children that cover all old ones are taken as they are; else untouched children keep their index, slots of re-appended ones are refilled, and the new children come out in the given order |
| Reorders.AppendSeqGathers | src/main/java/jease/cmf/domain/Node.java:261-261 | appending duplicate-free nodes one by one: each leaves its old place and they end in order at the end of the target; no other array or parent changes |
| Reorders.AppendArranged | src/main/java/jease/cmf/domain/Node.java:242-262 | after a bulk append the child array is exactly the arranged list |
| Reorders.ArrangedWellFormed | src/main/java/jease/cmf/domain/Node.java:242-262 | testing all new children for nesting before the first one moves is enough: no append changes the ancestors of the target |
| CmfDomain.Node.MarkChanged | src/main/java/jease/cmf/domain/Node.java:438-442 | adds the node to the changed nodes and does nothing else |
| CmfDomain.Node.DetachParent | src/main/java/jease/cmf/domain/Node.java:284-292 | turns the whole forest into the detached one; parents and child arrays stay in step |
| CmfDomain.Node.AppendChild | src/main/java/jease/cmf/domain/Node.java:224-236 | turns the whole forest into the one with the child appended, for any target and child |
| CmfDomain.Node.DetachChildren | src/main/java/jease/cmf/domain/Node.java:275-279 | the loop over the array as it was before the first child left it takes exactly the subtrees of all children apart, and ends |
| CmfDomain.Node.Detach | src/main/java/jease/cmf/domain/Node.java:267-273 | ends, and leaves no node of the old subtree a parent or child, each of them and the old parent marked, the siblings in order |
| CmfDomain.Node.ArrangeChildren | src/main/java/jease/cmf/domain/Node.java:242-260 | builds the arranged list with its index loop, never running out of new children |
| CmfDomain.Node.AppendChildren | src/main/java/jease/cmf/domain/Node.java:242-262 | the forest after the arranged list was appended one by one |
| CmfDomain.Node.SetParent | src/main/java/jease/cmf/domain/Node.java:86-92 | detaches the node for a null parent, appends it to a new one, and does nothing if the parent is the same |
| CmfDomain.Node.GetParents | src/main/java/jease/cmf/domain/Node.java:97-106 | the ancestors, topmost first |
| Chains.ReversedChain | src/main/java/jease/cmf/domain/Node.java:97-106 | the first has no parent, each is the parent of the next, the last is the parent of the node |
| CmfDomain.Node.IsDescendant | src/main/java/jease/cmf/domain/Node.java:121-135 | whether one of the given nodes is the node itself or one of its ancestors |
| CmfDomain.Node.Traverse | src/main/java/jease/cmf/domain/Node.java:417-422 | visits the nodes in pre-order, after those visited before |
| CmfDomain.Node.GetDescendants | src/main/java/jease/cmf/domain/Node.java:140-144 | the pre-order list of the subtree |
| CmfDomain.Node.GetPath | src/main/java/jease/cmf/domain/Node.java:312-323 | the path as the ids from below the top downwards make it, and / with the id for a node without parent |
| Addresses.PathIsWay | src/main/java/jease/cmf/domain/Node.java:312-323 | the path is made of the ids of the ancestors, as `GetParents` lists them, and of the node, each after a slash, without the empty ones |
| CmfDomain.Node.GetChild | src/main/java/jease/cmf/domain/Node.java:175-218 | resolves a path: nothing for null, plain ids, absolute paths from the top with its path cut off as a pattern, . and .. for containers and others, a crash where the code dereferences null or the pattern is bad |
| Addresses.RouteFound | src/main/java/jease/cmf/domain/Node.java:182-217 | the ids on the way down from a node to one below it, joined with slashes, lead from the one to the other; with a single id, the bare id does |
| Addresses.ContainersAre | src/main/java/jease/cms/domain/Content.java:222-224 | folders, trashes and factories are containers for these segments, references and access objects are leaves |
| Addresses.DotRoute | src/main/java/jease/cmf/domain/Node.java:201-205 | a dot in such a route leads to the nearest container |
| Addresses.ClimbRoute | src/main/java/jease/cmf/domain/Node.java:206-211 | two dots lead from a container to its parent and from a leaf to the parent of its parent, or nowhere else if there is none |
| Addresses.ClimbCrashes | src/main/java/jease/cmf/domain/Node.java:206-211 | from a leaf without parent they crash |
| Addresses.FirstWithIdIs | src/main/java/jease/cmf/domain/Node.java:182-189 | a bare id leads to the first child that bears it |
| CmfDomain.Node.ValidateDuplicate | src/main/java/jease/cmf/domain/Node.java:380-392 | rejects exactly an id another child has, except in a trash, and in a factory also a class another child has |
| CmfDomain.Node.ValidateNesting | src/main/java/jease/cmf/domain/Node.java:394-402 | rejects exactly a child that is the node itself or one of its ancestors |
| CmfDomain.Node.ValidateChild | src/main/java/jease/cmf/domain/Node.java:358-378 | id, duplicate and nesting are tested in this order, and the first objection is the answer; a null id passes the first two but for the class test of a factory |
| Addresses.ValidIdExactly | src/main/java/jease/cmf/domain/Node.java:368-374 | the ids that pass are the nonempty ones of letters, digits, dot, hyphen, star and underscore, and no others |
| Addresses.ValidIdPlain | src/main/java/jease/cmf/domain/Node.java:368-374 | so they have no slash, are fit for a path but for the two dotted ones, and have no special character in patterns but the star |
| Addresses.ObjectionExactly | src/main/java/jease/cmf/domain/Node.java:358-402 | which objection is raised, for given ids and for none: the id before the others, a circle last |
| Addresses.AcceptedExactly | src/main/java/jease/cmf/domain/Node.java:358-402 | a child is accepted if and only if its id is valid, no circle arises and the children afterwards differ: in id outside a trash, in class in a factory |
| Addresses.RunValid | src/main/java/jease/cmf/service/Nodes.java:105-166 | over every run in which renames and moves without validation see to it, all nodes with a parent keep valid ids |
| Addresses.AppendedFound | src/main/java/jease/cmf/service/Nodes.java:105-109 | a child accepted below a parent with a printable path is found under its own path afterwards, from every node of the tree, unless its id is . or .. or, in a trash, that of another child |
| CmfDomain.Node.Copy | src/main/java/jease/cmf/domain/Node.java:340-353 | a recursive copy is a new subtree of the same shape with the same ids, kinds and targets; the old nodes are as before; all copies but a childless top are marked |
| Shapes.CopyIsomorphic | src/main/java/jease/cmf/domain/Node.java:340-353 | source and copy unfold to the same tree and share no node |
| Shapes.CopyNext | src/main/java/jease/cmf/domain/Node.java:346-350 | one turn of the copying loop: the copy of the next child appended |
| Copies.CopyTracked | src/main/java/jease/cmf/domain/Node.java:340-353 | copying does not make the marks miss anything the database has wrong |
| Copies.CopyReady | src/main/java/jease/cmf/domain/Node.java:340-353 | a fresh copy may be appended to any older node without the marks missing anything |
| Copies.CopyStored | src/main/java/jease/cmf/service/Nodes.java:105-109 | a copy appended to a rooted node with no write in between is stored as a whole |
| Paths.SplitJoin | src/main/java/jease/cmf/domain/Node.java:196-200 | splitting a printed path gives the ids back |
| Patterns.RemovePrefix | src/main/java/jease/cmf/domain/Node.java:196-196 | a string without a star finds itself as a pattern, dots or not |
| Patterns.RemoveStarless | src/main/java/jease/cmf/domain/Node.java:196-196 | a pattern without a dot cuts out no star, whatever it matches |
| Paths.PathRoundTrip | src/main/java/jease/cmf/domain/Node.java:175-218 | with plain unique ids below the top, and an id of the top without characters that have a meaning in patterns other than the dot, every node is found under its path from every node of its tree |
| Paths.StarredTopLost | src/main/java/jease/cmf/domain/Node.java:196-196 | once the id of the top has a star, no node whose path has no dot is found under it, the top included |
| Paths.PathRoundTripExactly | src/main/java/jease/cmf/domain/Node.java:175-218 | so for paths without dots, and ids of the top with no other special characters, the round trip holds if and only if the id of the top has no star |
| Paths.StarredLost | src/main/java/jease/cmf/domain/Node.java:196-196 | an example: a node x below a top a* |
| Paths.PathsDistinct | src/main/java/jease/cmf/domain/Node.java:312-323 | hence two such nodes of one tree never share a path |
| Paths.DottedIdsLost | src/main/java/jease/cmf/domain/Node.java:201-211 | below a parent for which the round trip holds, the top without special characters included, it holds exactly for ids other than . and .., which validation lets pass |
| Paths.SameGetChild | src/main/java/jease/cmf/domain/Node.java:175-218 | a path resolves to the same node in sites that agree on the nodes they share |
| WriteBack.FlushIsRescan | src/main/java/jease/cmf/service/Nodes.java:168-176 | visiting the changed nodes alone stores what a scan of the whole tree would store, if and only if the marks cover everything the database has wrong |
| WriteBack.RescanTells | src/main/java/jease/cmf/service/Nodes.java:168-176 | the rows tell the whole rooted tree: trees with the same rows have the same rooted nodes, with the same parents and children |
| WriteBack.AppendTracked | src/main/java/jease/cmf/domain/Node.java:224-236 | an append keeps the marks complete exactly if the appended node stays rooted, stays unrooted, or is marked all through |
| WriteBack.AppendAllTracked | src/main/java/jease/cmf/domain/Node.java:242-262 | a bulk append keeps the marks complete if each new child was ready before the first one moved |
| WriteBack.DetachTracked | src/main/java/jease/cmf/domain/Node.java:284-292 | leaving the parent alone keeps the marks complete exactly if the node had no parent, was not rooted, or is marked all through below: of a stored inner node the database would keep the descendants |
| WriteBack.MiddleDetached | src/main/java/jease/cmf/domain/Node.java:284-292 | an example: of three stored nodes one below the other, the middle one is detached and the last one stays in the database |
| WriteBack.IsolateTracked | src/main/java/jease/cmf/domain/Node.java:267-292 | a detach keeps the marks complete |
| CmfService.Nodes.IsRooted | src/main/java/jease/cmf/service/Nodes.java:78-80 | whether the node is the root or has it among its parents |
| CmfService.Nodes.GetByPath | src/main/java/jease/cmf/service/Nodes.java:85-97 | one lookup step: answered from the cache or resolved and remembered if found |
| CmfService.Nodes.Append | src/main/java/jease/cmf/service/Nodes.java:105-109 | validated against the tree as it is; if accepted, one append step of the state machine including the write, else no change |
| CmfService.Nodes.AppendAll | src/main/java/jease/cmf/service/Nodes.java:117-123 | accepted exactly if every child passes validation against the tree before any moves; then one bulk step including the write |
| CmfService.Nodes.Save | src/main/java/jease/cmf/service/Nodes.java:150-157 | marks the node, writes all changed nodes and empties the cache |
| CmfService.Nodes.Delete | src/main/java/jease/cmf/service/Nodes.java:159-166 | detaches, writes all changed nodes and empties the cache |
| CmfService.Nodes.Traverse | src/main/java/jease/cmf/service/Nodes.java:168-176 | saves a rooted node and deletes any other |
| CmfService.Nodes.ProcessChangedNodes | src/main/java/jease/cmf/domain/Node.java:427-432 | visits every changed node once in any order and clears the marks: the database is flushed |
| Runs.WrittenWellFormed | src/main/java/jease/cmf/service/Nodes.java:105-166 | whatever an accepted operation writes back is a well-formed forest |
| Runs.BulkUnique | src/main/java/jease/cmf/service/Nodes.java:117-123 | a bulk append whose children each passed validation keeps sibling ids unique if and only if the new children differ among themselves |
| Runs.TwinsAccepted | src/main/java/jease/cmf/service/Nodes.java:117-123 | an example: two new nodes with one id are accepted together |
| Runs.StepKeeps | src/main/java/jease/cmf/service/Nodes.java:105-166 | every permitted operation keeps the forest well formed, sibling ids unique outside a trash and the marks complete, and each write leaves exactly the rows a full scan would write |
| Runs.StepCoherent | src/main/java/jease/cmf/service/Nodes.java:85-97 | every operation but a move or rename without a write keeps each cached path equal to what resolving it anew finds |
| Runs.RunKeeps | src/main/java/jease/cmf/service/Nodes.java:105-166 | the same over every run of operations |
| Runs.RunCoherent | src/main/java/jease/cmf/service/Nodes.java:85-97 | over every run without unwritten moves and renames, each lookup is answered as if there were no cache |
| Runs.LookupRemembers | src/main/java/jease/cmf/service/Nodes.java:85-97 | a lookup remembers exactly what it finds and changes nothing else |
| CmfDomain.Node.GetGuards | src/main/java/jease/cms/domain/Content.java:275-285 | the children of the type at the first level upwards that has any |
| Verdicts.OfKindIs | src/main/java/jease/cmf/domain/Node.java:165-170 | the children of a class are all children without the others, in order |
| Guards.TrashReady | src/main/java/jease/cms/service/Contents.java:112-128 | content and the trash that guards it: the trash is not inside the content, and it is rooted just if the content is |
| Guards.GuardsAreNearest | src/main/java/jease/site/Authorizations.java:41-74 | with access objects as the only guards, the answer is the nearest level that holds an active one |
| Verdicts.SelectedDirectly | src/main/java/jease/site/Authorizations.java:45-62 | the guards selected for a node are the access objects of the first level upwards that has any |
| Verdicts.SelectedByReference | src/main/java/jease/site/Authorizations.java:45-62 | without such a level they are the access objects that the references of the first level with references refer to |
| Verdicts.NoneSelected | src/main/java/jease/site/Authorizations.java:45-62 | without any such level there are none |
| Verdicts.GuardsExactly | src/main/java/jease/site/Authorizations.java:41-74 | the guards of a node are the active ones among those selected for the first node upwards that has an active one among them |
| Guards.ActiveIs | src/main/java/jease/site/Authorizations.java:63-71 | the active guards are all selected ones without the others, in order |
| JeaseSite.Authorizations.Recall | src/main/java/jease/site/Authorizations.java:45-62 | the remembered guards of a node are those that would be selected anew |
| JeaseSite.Authorizations.GetGuards | src/main/java/jease/site/Authorizations.java:41-74 | the active guards of the first level upwards whose selection has an active one, remembered or not |
| Deletion.ClosureLeast | src/main/java/jease/cms/service/Contents.java:132-139 | the deletion closure is the least set that contains the start and, with every node, the subtrees of the references to it |
| Deletion.IsolateCutOff | src/main/java/jease/cms/service/Contents.java:132-139 | detaching a node while others are gone, the node itself gone or not, cuts off exactly its old subtree |
| Deletion.MidwayDelete | src/main/java/jease/cms/service/Contents.java:132-139 | one Nodes.delete in the middle of the cascade: tree and database stay in step and show the start without what is gone |
| Deletion.MidwayInside | src/main/java/jease/cms/service/Contents.java:134-134 | the test on the tree as it is now: a target found inside was inside from the start, and one not found inside is elsewhere or gone with its reference |
| Deletion.MidwayStart | src/main/java/jease/cms/service/Contents.java:99-130 | a cascade may start wherever tree and database are in step, as they are after every write |
| Deletion.DeletedIsClosure | src/main/java/jease/cms/service/Contents.java:120-124 | what a direct deletion removes is exactly that closure, not more and not less, wherever references run in circles that the deletion does not come to |
| Deletion.MidwayNoDangling | src/main/java/jease/cms/service/Contents.java:120-139 | no stored reference points to a node that is not stored |
| Endings.DeletionEndsExactly | src/main/java/jease/cms/service/Contents.java:132-139 | the recursion ends if and only if no circle of references, each into the subtree of the next, can be reached from the content, in whatever order the queries return them and whatever earlier deletions took |
| Endings.RanksExactly | src/main/java/jease/cms/service/Contents.java:132-139 | ranks that fall from call to call exist, for the references into what the deletion takes, if and only if it ends: circles elsewhere do not matter |
| Endings.MutualEndless | src/main/java/jease/cms/service/Contents.java:132-139 | an example without end: two references to each other |
| CmsService.Contents.IsDeletable | src/main/java/jease/cms/service/Contents.java:80-91 | whether no user root is the content or below it |
| CmsService.Contents.DeleteReferences | src/main/java/jease/cms/service/Contents.java:132-139 | ends wherever the recursion of the code does, although it walks a stale list while the tree changes, and leaves no reference into the subtree, within the closure |
| CmsService.Contents.DeleteDirect | src/main/java/jease/cms/service/Contents.java:121-124 | what is gone afterwards is the closure of what was gone and the subtree |
| CmsService.Contents.FindTrash | src/main/java/jease/cms/service/Contents.java:113-119 | the first trash found from the parent upwards |
| CmsService.Contents.DeleteContent | src/main/java/jease/cms/service/Contents.java:112-129 | content that is no trash: deleted with the references to it if no trash guards it or it is in its trash, unless a user has a root inside; else moved and written; tree and database stay in step |
| CmsService.Contents.DeleteChildren | src/main/java/jease/cms/service/Contents.java:105-109 | the loop over the children as they were at the start: each turn makes of forest and database what the turn of the closed form makes of them, for trashes of every kind |
| CmsService.Contents.Delete | src/main/java/jease/cms/service/Contents.java:99-130 | the whole operation for content and trashes of every kind, wherever it ends: the forest is as `Emptyings.AfterDelete` says and the database in step with it |
| Verdicts.GuardedMoves | src/main/java/jease/cms/service/Contents.java:112-128 | content that is no trash, and is not inside the first trash found from its parent upwards, becomes the last child of that trash, and nothing else is different |
| Verdicts.UnguardedGoes | src/main/java/jease/cms/service/Contents.java:112-124 | content that no trash guards, or that is inside the trash that guards it, is left alone if a user has a root at or below it, else taken apart with all below it, and with exactly the closure under references |
| Verdicts.GuardedOrNot | src/main/java/jease/cms/service/Contents.java:112-120 | one of the two applies to all content |
| Verdicts.FolderMoves | src/main/java/jease/cms/service/Contents.java:125-128 | an example: a folder next to a trash is deleted and is in the trash afterwards |
| Emptyings.StandsMoved | src/main/java/jease/cms/service/Contents.java:125-128 | content moved to the trash that guards it: the move and the write leave tree and database in step |
| Emptyings.DeleteEndsExactly | src/main/java/jease/cms/service/Contents.java:99-139 | a call of delete, with all children of a trash and of the trashes in it, ends if and only if no content that it deletes leads to a circle of references at the time it is deleted |
| Catchers.UnguardedExactly | src/main/java/jease/cms/service/Contents.java:112-120 | content directly in a trash is deleted and not moved if and only if there is no trash in that trash and none before it |
| Catchers.TurnDecides | src/main/java/jease/cms/service/Contents.java:105-128 | what the turn of a child does, whatever trashes are inside and beside at that moment: nothing, a deletion with the references, or a move to the first trash inside, else beside |
| Catchers.AloneKept | src/main/java/jease/cms/service/Contents.java:105-109 | while a trash without trashes in it and before it is emptied it stays so: no other trash ever catches a child |
| Catchers.CutClosure | src/main/java/jease/cms/service/Contents.java:105-124 | what a deletion takes together with what was gone is the same whether that is cut off first or not |
| Catchers.AloneEmptied | src/main/java/jease/cms/service/Contents.java:105-109 | emptying such a trash is the closed form: turn by turn the least closed sets, passing over children that are gone or hold a user root that is left |
| Catchers.AloneEmptiedWhole | src/main/java/jease/cms/service/Contents.java:105-109 | if no user has a root inside, all that is in such a trash goes with every reference into it and nothing else, in whatever order the children are |
| Catchers.BehindEmptied | src/main/java/jease/cms/service/Contents.java:105-128 | emptying a trash without trashes in it but with one before it deletes nothing: the children that may be deleted end up in order at the end of the first one, and all else stays |
| Catchers.DeletedExactly | src/main/java/jease/cms/service/Contents.java:105-128 | so a child that may be deleted stands alone afterwards, and all below it, if and only if the trash is the first one beside itself; else it is in the first one |
| Catchers.EmptyFirst | src/main/java/jease/cms/service/Contents.java:102-109 | an empty trash that comes first in a trash does no harm: the call comes to the call without it |
| Catchers.CaughtThenEmptied | src/main/java/jease/cms/service/Contents.java:105-128 | content that a later trash inside catches is deleted all the same when that trash has its turn |
| Catchers.SecondTrashKeeps | src/main/java/jease/cms/service/Contents.java:105-128 | an example: of two trashes side by side the second is emptied, and its folder is in the first one afterwards |
| Trashes.DeletableMidway | src/main/java/jease/cms/service/Contents.java:80-91 | the deletability test in the middle of emptying asks for user roots that are still there |
| Trashes.EmptiedIsClosure | src/main/java/jease/cms/service/Contents.java:105-109 | if no user has a root inside, the turns of the closed form come to the closure of all that is in the trash, in whatever order and however the cascades of earlier children reach into later ones |
| Trashes.TrashedInStep | src/main/java/jease/cms/service/Contents.java:125-128 | a move to the trash leaves tree and database in step and the same nodes stored |
| Dangling.EmptyTrashKept | src/main/java/jease/cms/service/Contents.java:102-103 | deleting an empty trash leaves no reference dangling if and only if no stored reference refers to it |
| Dangling.PointedDangles | src/main/java/jease/cms/service/Contents.java:102-103 | an example: an empty trash and a reference to it |
| Dangling.DeleteNoDangling | src/main/java/jease/cms/service/Contents.java:99-130 | delete of content, or of a trash without trashes in it, keeps the store free of dangling references, with exactly this exception |
| Dangling.DeleteKept | src/main/java/jease/cms/service/Contents.java:99-130 | for trashes of every kind: as long as no reference refers to a trash at or below the one that is emptied, none is left dangling |
| Dangling.InnerTrashDangles | src/main/java/jease/cms/service/Contents.java:102-109 | emptying a trash that holds just an empty trash leaves references dangling exactly if one refers to that |
| Natural.OrderIsList | src/main/java/jfix/util/Natural.java:135-263 | the walk over the subwords has the sign of the lexicographic order on lists of maximal numbers and texts, leading zeros deciding only between strings that end in equal nonzero numbers |
| Natural.OrderSymmetric | src/main/java/jfix/util/Natural.java:135-263 | swapping the strings turns the sign around |
| Natural.OrderTransitive | src/main/java/jfix/util/Natural.java:135-263 | the order is transitive, for any collator that is a total preorder and puts each text wholly before or after the numbers |
| Natural.OrderIffSeparated | src/main/java/jfix/util/Natural.java:135-263 | for a collator that is a total preorder, the comparison is one if and only if each text is before all numerals or after all of them |
| Natural.IndifferenceBreaksOrder | src/main/java/jfix/util/Natural.java:240-261 | an example of the other kind: a collator that takes all words for equal puts 2 level with a, and a level with 1 |
| Natural.CodeOrderIsFair | src/main/java/jfix/util/Natural.java:240-261 | ASCII digits with the order of character codes meet what is asked |
| Natural.NumericIsValue | src/main/java/jfix/util/Natural.java:199-239 | numbers without leading zeros compare by their decimal value, whatever their length |
| Natural.NumbersByValue | src/main/java/jfix/util/Natural.java:163-239 | strings of digits compare by value, and equal nonzero ones by their leading zeros |
| Natural.SkipZeros | src/main/java/jfix/util/Natural.java:167-184 | stops at the first character that is no zero |
| Natural.SkipWord | src/main/java/jfix/util/Natural.java:244-253 | stops at the first digit after the first character |
| Natural.CompareDigits | src/main/java/jfix/util/Natural.java:199-239 | the loop over two numbers decides as their values and what follows them do, or stops behind both |
| Natural.CompareNumbers | src/main/java/jfix/util/Natural.java:163-239 | zeros skipped on both sides, then the digits |
| Natural.CompareWords | src/main/java/jfix/util/Natural.java:240-261 | the collator's answer on two subwords, or both skipped |
| Natural.CompareObjects | src/main/java/jfix/util/Natural.java:135-263 | ends, with the sign of the order |
| Reflections.SupersIsClosure | src/main/java/jfix/util/Reflections.java:79-89 | the recursion computes the reflexive and transitive closure of superclass and interfaces |
| Reflections.SupersAntisymmetric | src/main/java/jfix/util/Reflections.java:79-89 | no two classes are supertypes of each other |
| Reflections.SeesExactly | src/main/java/jfix/util/Reflections.java:212-216 | a reference is seen if and only if it is held in a field declared with the very class of the object referred to |
| Reflections.GetReferringFields | src/main/java/jfix/util/Reflections.java:43-52 | exactly the fields of a class that the assignability test selects |
| Reflections.IsReferrer | src/main/java/jfix/util/Reflections.java:58-74 | whether one of the fields holds the object, directly or in an array |
| Reflections.GetReferredObjects | src/main/java/jfix/util/Reflections.java:109-133 | exactly what some object holds in a field declared with the class or a subtype |
| Reflections.HeldExactly | src/main/java/jfix/util/Reflections.java:109-133 | held is what a field of that kind is or, if it is an array, has |
| Repository.ObjectRepository.Put | src/main/java/jfix/db4o/ObjectRepository.java:33-47 | the index stays that of the plain set, with one object more |
| Repository.ObjectRepository.Remove | src/main/java/jfix/db4o/ObjectRepository.java:49-61 | the index stays that of the plain set, with the object removed |
| Repository.ObjectRepository.Get | src/main/java/jfix/db4o/ObjectRepository.java:63-70 | exactly the stored objects that have the class among their supertypes |
| Repository.ObjectRepository.GetReferrers | src/main/java/jfix/db4o/ObjectRepository.java:76-96 | exactly the stored objects that are seen to refer to the given one, although classes are searched one by one |
| Repository.ObjectRepository.GetGarbage | src/main/java/jfix/db4o/ObjectRepository.java:98-105 | exactly the stored values that no stored object holds in a field of value type |
| Repository.ReferrersExactly | src/main/java/jfix/db4o/ObjectRepository.java:76-96 | told of the fields: the stored objects with a field, declared with the class or below it, that is the given object or an array with it |
| Repository.OrphansExactly | src/main/java/jfix/db4o/ObjectRepository.java:98-105 | told of the fields: the stored values that no such field is or has |
| Engine.PersistenceEngineXStream.Save | src/main/java/jfix/db4o/engine/PersistenceEngineXStream.java:91-95 | the object is in, and what the log takes the engine back to is unchanged |
| Engine.PersistenceEngineXStream.Delete | src/main/java/jfix/db4o/engine/PersistenceEngineXStream.java:98-104 | the object is out, and what the log takes the engine back to is unchanged, also for objects deleted and saved again |
| Engine.PersistenceEngineXStream.Commit | src/main/java/jfix/db4o/engine/PersistenceEngineXStream.java:112-115 | the objects stay and become the new start |
| Engine.PersistenceEngineXStream.Rollback | src/main/java/jfix/db4o/engine/PersistenceEngineXStream.java:118-127 | the objects are again those at the start of the transaction, for any saves and deletes in between |
| Ownership.SpanIsLeast | src/main/java/jfix/db4o/ObjectDatabase.java:371-390 | what a save reaches is the least set that holds the object and is closed under the values held, circles or not |
| Ownership.SaveEndsExactly | src/main/java/jfix/db4o/ObjectDatabase.java:371-390 | a save ends if and only if no circle of values, each holding the next, can be reached from the object |
| Ownership.MutualValuesEndless | src/main/java/jfix/db4o/ObjectDatabase.java:371-390 | an example: two values that hold each other |
| Ownership.HeldIsPart | src/main/java/jfix/db4o/ObjectDatabase.java:425-440 | what garbage collection sees an object hold, the cascades find as well |
| Ownership.PartsExactly | src/main/java/jfix/db4o/ObjectDatabase.java:425-440 | the values of an object are those that its fields are, and all elements of arrays of values |
| Ownership.CollectedKeeps | src/main/java/jfix/db4o/ObjectDatabase.java:143-156 | a collection keeps all entities and every value that something kept is seen to hold |
| Ownership.CollectedShrinks | src/main/java/jfix/db4o/ObjectDatabase.java:143-156 | a collection changes nothing if and only if every value is held, and else makes the store strictly smaller |
| Ownership.PassesClean | src/main/java/jfix/db4o/ObjectDatabase.java:143-156 | after at most as many passes as there are objects, every stored value is held |
| Ownership.PassesTakeLevels | src/main/java/jfix/db4o/ObjectDatabase.java:143-156 | after some objects are deleted, each pass takes exactly one more level of the values that only they owned |
| Ownership.DeleteThenCollect | src/main/java/jfix/db4o/ObjectDatabase.java:392-413 | a value that a deletion left, such as one inside a value it took, goes with the next collection exactly if all who held it were deleted |
| Database.ObjectDatabase.TraverseAndSave | src/main/java/jfix/db4o/ObjectDatabase.java:371-390 | stores the object and all values below it, index and engine alike, wherever the recursion of the code ends |
| Database.ObjectDatabase.TraverseAndDelete | src/main/java/jfix/db4o/ObjectDatabase.java:392-413 | removes the object and the values it holds, of a value only itself, index and engine alike |
| Database.ObjectDatabase.Write | src/main/java/jfix/db4o/ObjectDatabase.java:254-287 | succeeds exactly if no action throws, no deletion is refused at its turn, at whatever position in the script, and the blobs can be handled; then index and engine hold what the actions amount to, and nothing is remembered unless it is to be kept; else the database is closed and the engine holds what it held before |
| Sessions.TransactedExactly | src/main/java/jfix/db4o/ObjectDatabase.java:254-275 | the actions come to an end if and only if none throws, and then all of them are done in order |
| Database.ObjectDatabase.Save | src/main/java/jfix/db4o/ObjectDatabase.java:293-308 | inside a transaction part of it, else one call of a session: a transaction of its own that forgets or keeps what is remembered |
| Database.ObjectDatabase.Gc | src/main/java/jfix/db4o/ObjectDatabase.java:143-156 | inside a transaction removes exactly the orphans; else one call of a session: one write for each orphan in some order, up to the first write that fails, what was written before it staying; the remembered answers forgotten exactly if there was one |
| Sessions.CollectionExactly | src/main/java/jfix/db4o/ObjectDatabase.java:143-156 | a collection in which a write fails has taken exactly the orphans before it and closed the database; else it has taken all of them |
| Database.ObjectDatabase.Delete | src/main/java/jfix/db4o/ObjectDatabase.java:324-352 | refused exactly if something is seen to refer to the object even after a collection; then the database stays open, and the store is exactly what the collection left; if a write of the collection or the one of the deletion fails it is closed, with the store as the last commit left it |
| Sessions.DeletingExactly | src/main/java/jfix/db4o/ObjectDatabase.java:324-352 | with no failing write: done if nothing is seen to refer to the object, if need be after a collection; else the store is what the collection leaves |
| Database.ObjectDatabase.DeleteDeliberately | src/main/java/jfix/db4o/ObjectDatabase.java:354-369 | a deletion without that test, as part of a transaction or as one call of a session |
| Database.ObjectDatabase.QuerySupplier | src/main/java/jfix/db4o/ObjectDatabase.java:231-243 | between two calls and inside a transaction: the remembered answer, or else the supplier's answer on what is stored now, remembered from then on; right memories stay right |
| Database.ObjectDatabase.Persist | src/main/java/jfix/db4o/ObjectDatabase.java:313-322 | inside a transaction part of it, else one call of a session: a save that keeps the remembered answers; after it they are forgotten by writes again |
| Sessions.SessionsRemember | src/main/java/jfix/db4o/ObjectDatabase.java:231-369 | over every run of queries, writes, saves, deletions, collections and persists, closed or open: a remembered answer was right at some moment of the run, and from then on only persists have changed what is stored |
| Sessions.SessionsCoherent | src/main/java/jfix/db4o/ObjectDatabase.java:231-369 | so each remembered answer is the current one, if no persist of the run stored anything new |
| Sessions.PersistExactly | src/main/java/jfix/db4o/ObjectDatabase.java:313-322 | a persist leaves every right memory of every supplier right if and only if it stores nothing new |
| Integrity.CollectComplete | src/main/java/jfix/db4o/ObjectDatabase.java:143-156 | a collection creates no seen reference to something not stored |
| Integrity.KeptExactly | src/main/java/jfix/db4o/ObjectDatabase.java:143-156 | a collection keeps a value if and only if a field of something stored, declared with the value type or below, is the value or an array with it |
| Integrity.RefusedExactly | src/main/java/jfix/db4o/ObjectDatabase.java:324-340 | a deletion is refused if and only if a field of something that a collection would leave, declared with the class of the object, is the object or an array with it |
| Integrity.PartsGoAlong | src/main/java/jfix/db4o/ObjectDatabase.java:371-413 | a value in a field or in an array of values is saved with its owner, and deleted with it unless the owner is a value |
| Integrity.DeleteComplete | src/main/java/jfix/db4o/ObjectDatabase.java:324-352 | an accepted deletion creates none either, exactly if the object is a value or nothing that outlives the call is seen to refer to a value in its fields |
| Integrity.CollectTight | src/main/java/jfix/db4o/ObjectDatabase.java:143-156 | a collection leaves a reference into the void exactly if something that stays refers to a value to which no field declared with the value type or below refers |
| Integrity.DeleteTight | src/main/java/jfix/db4o/ObjectDatabase.java:324-352 | an accepted deletion leaves one exactly if something that outlives it refers to the object out of a field not declared with its class, to a value in its fields, or to a collected value out of a field declared neither with the value type nor below it |
| Integrity.MissedReference | src/main/java/jfix/db4o/ObjectDatabase.java:324-352 | an example: a reference out of a field declared with a supertype is missed and left behind |
| Revisions.Content.Purge | src/main/java/jease/cms/service/Revisions.java:100-116 | keeps the first ones up to the count and the young ones of the rest, and returns how many went |
| Revisions.PurgedIsPrefix | src/main/java/jease/cms/service/Revisions.java:100-116 | with the newest first, exactly a prefix is kept: the larger of the count and the number of young ones |
| Revisions.PurgedExactly | src/main/java/jease/cms/service/Revisions.java:100-116 | in whatever order: a version stays exactly if it is among the first ones up to the count or younger than the days |
| Revisions.PurgedTwice | src/main/java/jease/cms/service/Revisions.java:100-116 | a second purge at the same moment removes nothing, in whatever order the revisions are |
| Factories.SortClones | src/main/java/jease/cms/domain/Factory.java:69-80 | the last clone with each serial, and those without serial in order |
| Factories.FollowOne | src/main/java/jease/cms/domain/Factory.java:83-89 | the clone found is renamed and keeps its value, or the prototype is copied; a property with choices throws after the renaming if the clone is of another kind |
| Factories.Sync | src/main/java/jease/cms/domain/Factory.java:68-94 | one property for each prototype in order, then the clones without serial; it throws exactly if a prototype with choices finds a clone of another kind |
| Factories.SyncTwice | src/main/java/jease/cms/domain/Factory.java:68-94 | with prototypes of different nonzero serials a second call after one that did not throw does not throw either, and returns the very same properties in the same order |

## Left out

- onPathChange and Relocator: link rewriting after a change of path, and the nested writes it makes.
- Locks, threads and timers: every operation is one sequential step.
- Patterns: the path of the top is a pattern of letters, dots and stars; other characters with a meaning in patterns, which no valid id has, are taken as they are.
- setId: does not mark the node as changed in the code; the model has it as a rename without a write, and ids are not part of the stored rows.
- Deleting the root: excluded by precondition.
- Subclasses: additional nesting rules of galleries and discussions, and copied fields other than id, kind and target.
- setContent: what a reference refers to is fixed when it is created.
- emptyTrash by age: the loop over all trashes that picks contents by date.
- Field changes of database objects: values are fixed during a call; the runs of `Sessions.SessionsRemember` therefore have no changes outside writes.
- Entities that are equal by id without being the same object: the engine's hash sets would take them for one.
- Interfaces and the class Object: a field declared with an interface is not taken for one that can hold any object.
- Failing writes of the node service: its database is a map of rows that never throws; what a failed write leaves behind is stated for the object database.
- XStream files, the other engines, backups and reopening after a failed write.
- Blob files: only in which write of a call handling them throws.
- Natural.compare on numbers and dates, which is not one order together with strings.
- CompareObjects: states the sign of the result only, because the size of a nonzero result means nothing to callers.
- Traverse: the action is fixed to collecting the visited nodes, because an action of a caller may do anything.
- GetChild: takes the other special characters of an id of the top as they are, as said above.
- Contents.DeleteReferences: asks that the recursion ends; where it does not, by `Endings.DeletionEndsExactly`, there is no state after the call to speak of.
- Contents.DeleteDirect: asks the same.
- Contents.DeleteContent: asks the same of content that it deletes.
- Contents.DeleteChildren: asks that the whole call ends, exactly by `Emptyings.DeleteEndsExactly`.
- Contents.Delete: asks the same.
- Paths.PathRoundTripExactly: speaks of paths without dots; with a dot next to a star either may happen: of the path of a top a*. just the dot is left over, which leads nowhere else, while .* takes the whole path of every node.
- TraverseAndSave: asks that the recursion ends, exactly by `Ownership.SaveEndsExactly`; the stack overflow that the code meets otherwise is not modelled.
- User interface, servlets, search, mail and the other libraries.
