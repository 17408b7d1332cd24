# knowledge-base-api, modelled in Dafny

This project models the core of the knowledge-base API, with topics stored as an append-only version history.

Each topic has two records:

- **Version log.** Every write appends a `TopicVersion` to this log (`TopicVersionRepositoryFile`). A version holds the topic's name, content and parent link, its version number, the action (create, update or delete) and the actor.
- **Head index.** `TopicRepositoryFile` keeps a head per topic: its latest version number and a soft-delete timestamp.

On top of these two stores the model contains:

- **Write use cases.** Create, update and delete append a version and then upsert the head. `TopicVersionFactory` and `TopicService.create` describe the same records.
- **Read use cases.**
  - *Get* reads a topic's latest version, or a version given by number.
  - *Shortest path* runs breadth-first search over the undirected parent/child graph, restricted to the latest versions of alive topics.
  - *Topic tree* expands a tree of `TopicTreeNode` objects in place, using an explicit stack.
- **Resources.** `ResourceRepositoryFile` and `ResourceService` attach resources to alive topics.
- **Users and permissions.**
  - The user store finds a user by bearer token.
  - `RoleBasedPermissionStrategy` maps roles to actions.
  - There are two Express auth middlewares: a newer one that asks a permission strategy, and a legacy one that takes a list of roles.

How the source's entities map to Dafny:

- **Repositories are classes.** Each repository's array field holds a `seq`. The methods reassign it, and their contracts state the new contents in terms of specification functions such as `UpsertHead`, `UpdateResource` and `DeleteResource`.
- **Write use cases are classes over the two repositories.** Each `Execute` is tied to a pure step function (`CreateStep`, `UpdateStep`, `DeleteStep`). Lemmas then prove the step's properties:
  - its outcomes and its failure cases;
  - that it keeps the two logs consistent;
  - that what was written reads back.
- **Consistency** is `TopicLog.Consistent`. It says:
  - there is at most one head per topic;
  - every head names a logged version;
  - a head is marked deleted exactly when that version is a tombstone;
  - the logged versions of a topic are exactly 1, 2, ..., its head's `latestVersion`, and no topic and version number is logged twice.
- **Loops keep their loops.**
  - `computeLatestByTopic`, `buildAdjacency` and `buildChildrenIndex` are loops (the source's `for ... of` loops) proved equal to recursive reference functions.
  - The BFS loop is proved to compute a shortest-path predecessor tree.
  - The tree loop is proved to link the nodes into exactly the tree that `TopicTree.Build`, the recursive reference definition, describes.
- **Outside inputs become parameters.** The clock (`Date.now()`) and the uuid generator (`randomUUID()`) are parameters `now`, `id` and `topicId`. The `listAll` snapshots the read use cases take are `seq` parameters.
- **JavaScript truthiness is modelled explicitly:**
  - a head with `deletedAt` equal to 0 counts as alive;
  - an empty-string parent id is no link;
  - version `0` and `NaN` are falsy;
  - an empty bearer token is rejected.

## Model

| member | source | states |
|---|---|---|
| Arrays.FindIndex | src/infra/persistence/file/topic-repository.file.ts:28 | `findIndex`: the first index whose element matches, or -1 exactly when none does (also resource-repository.file.ts:19) |
| Arrays.Filter | src/infra/persistence/file/resource-repository.file.ts:28 | `filter`: only matching elements of the input, and every matching element kept (also resource-repository.file.ts:40) |
| Arrays.FilterAppend | src/infra/persistence/file/resource-repository.file.ts:38-41 | filtering distributes over concatenation, so kept elements stay in stored order |
| Common.OrElse | src/services/resource.service.ts:48-54 | `given ?? previous` for an optional field: the given value when present, otherwise the previous one |
| Models.NormalizeParent | src/usecases/topic/topic-version.factory.ts:51-52 | `parentTopicId ?? null`: never leaves the parent undefined, and keeps any parent that was given |
| Models.LinkedParent | src/usecases/topic/get-shortest-path.usecase.ts:34-35 | a version links to a parent exactly when its parent id is a non-empty string, and then to that id |
| TopicStore.FindVersion | src/infra/persistence/file/topic-repository.file.ts:19-22 | a found version is in the log; nothing is found exactly when no entry has that topic and version number |
| TopicStore.FindHead | src/infra/persistence/file/topic-repository.file.ts:35-38 | a found head belongs to the topic asked for; nothing is found exactly when no head has that topic |
| TopicStore.FindVersionAt | src/infra/persistence/file/topic-repository.file.ts:19-22 | the found version is the first entry of the log with that topic and number |
| TopicStore.FindHeadAt | src/infra/persistence/file/topic-repository.file.ts:35-38 | the found head is the first entry of the index for that topic |
| TopicStore.FindVersionAppend | src/infra/persistence/file/topic-repository.file.ts:12-22 | after an append, a lookup finds the earlier match if there is one, otherwise the new version when it matches |
| TopicStore.UpsertHeadSpec | src/infra/persistence/file/topic-repository.file.ts:26-38 | after `upsert(head)`, `get` of that topic returns the new head, other topics read as before, and the index grows only for a new topic |
| TopicStore.UpsertHeadKeepsOthers | src/infra/persistence/file/topic-repository.file.ts:26-33 | `upsert` leaves every head of another topic at its position, and every entry is either an old entry or the new head |
| TopicStore.UpsertHeadKeepsUnique | src/infra/persistence/file/topic-repository.file.ts:26-33 | `upsert` never creates a second head for a topic |
| TopicStore.TopicVersionRepositoryFile.constructor | src/infra/persistence/file/topic-repository.file.ts:12-17 | the log starts with the given versions |
| TopicStore.TopicVersionRepositoryFile.Append | src/infra/persistence/file/topic-repository.file.ts:12-17 | the log becomes the old log followed by the new version |
| TopicStore.TopicVersionRepositoryFile.GetByTopicAndVersion | src/infra/persistence/file/topic-repository.file.ts:19-22 | returns the first logged version with that topic and number, and changes nothing |
| TopicStore.TopicRepositoryFile.constructor | src/infra/persistence/file/topic-repository.file.ts:26-33 | the index starts with the given heads |
| TopicStore.TopicRepositoryFile.Upsert | src/infra/persistence/file/topic-repository.file.ts:26-33 | replaces the topic's head in place, or pushes it when the topic has no head |
| TopicStore.TopicRepositoryFile.Get | src/infra/persistence/file/topic-repository.file.ts:35-38 | returns the first head of the topic, and changes nothing |
| TopicLog.NextVersionIsFresh | src/usecases/topic/update-topic.usecase.ts:32-46 | in a consistent store, the version number a write uses (head + 1) is not yet in the log |
| TopicLog.HeadIsLogged | src/usecases/topic/update-topic.usecase.ts:26-30 | in a consistent store, each head's `latestVersion` is a logged version of that topic |
| TopicLog.HeadStaysLogged | src/usecases/topic/update-topic.usecase.ts:48-53 | after append-then-upsert, an old head or the new head names a logged version, and is marked deleted exactly when that version is a tombstone |
| TopicLog.AdvanceKeepsHeadsLogged | src/usecases/topic/update-topic.usecase.ts:48-53 | after append-then-upsert, every head still names a logged version, a tombstone exactly when it is marked deleted |
| TopicLog.AdvanceKeepsVersionsBounded | src/usecases/topic/update-topic.usecase.ts:48-53 | after append-then-upsert, every logged version has a head at or beyond its number |
| TopicLog.NextVersionIsPositive | src/usecases/topic/update-topic.usecase.ts:33 | in a consistent store, the version number a write uses is at least 1 |
| TopicLog.AdvanceKeepsVersionsUnique | src/usecases/topic/update-topic.usecase.ts:48 | appending version head+1 never logs a topic and version number twice |
| TopicLog.AdvanceKeepsGapless | src/usecases/topic/update-topic.usecase.ts:48-53 | after append-then-upsert, every number from 1 to each head's `latestVersion` is still logged for its topic |
| TopicLog.AppendAndAdvance | src/usecases/topic/delete-topic.usecase.ts:39-40 | appending version head+1 and then upserting the head to it keeps the two logs consistent: one head per topic, heads logged with the right tombstone flag, each topic's versions exactly 1 .. `latestVersion`, none logged twice |
| TopicLog.ConsistentHistory | src/usecases/topic/update-topic.usecase.ts:32-53 | in a consistent store, a topic's logged versions are exactly 1, 2, ..., its head's `latestVersion`, and a topic without a head has none |
| TopicLog.ReadAfterWrite | src/usecases/topic/get-topic.usecase.ts:23-32 | after such a write, a read through the topic's head returns exactly the written version |
| LatestVersions.LatestByTopicKeys | src/usecases/topic/get-shortest-path.usecase.ts:16-24 | the map has an entry for exactly the topics that occur in the log |
| LatestVersions.LatestByTopicIsMax | src/usecases/topic/get-shortest-path.usecase.ts:16-24 | each entry is a logged version of its own topic, and no logged version of that topic has a higher number |
| LatestVersions.LatestByTopicKeepsFirst | src/usecases/topic/get-shortest-path.usecase.ts:20 | the entry is the first logged version reaching the maximum, since only a strictly higher version replaces it |
| LatestVersions.ComputeLatestByTopic | src/usecases/topic/get-shortest-path.usecase.ts:16-24 | the loop builds exactly the reference map `LatestByTopic` |
| LatestVersions.AliveLatest | src/usecases/topic/get-shortest-path.usecase.ts:87-90 | the working set has at most one version per head |
| LatestVersions.AliveLatestSpec | src/usecases/topic/get-shortest-path.usecase.ts:87-90 | a version is in the working set exactly when it is the latest version of a head that is not deleted |
| LatestVersions.AliveHeadInWorkingSet | src/usecases/topic/get-topic-tree.usecase.ts:52-58 | the latest version of an alive topic is in the working set |
| TopicVersionFactory.FromCreate | src/usecases/topic/topic-version.factory.ts:17-35 | version 1, action create, both timestamps `now`, the input's payload, the given actor and ids |
| TopicVersionFactory.FromUpdate | src/usecases/topic/topic-version.factory.ts:37-58 | each given field replaces the previous one; an omitted parent keeps the previous parent, read as null when undefined; `createdAt` is kept and `updatedAt` is `now` |
| TopicVersionFactory.FromDelete | src/usecases/topic/topic-version.factory.ts:60-79 | the tombstone keeps the previous payload, with the delete action and the new number |
| TopicVersionFactory.EmptyUpdateKeepsPayload | src/usecases/topic/topic-version.factory.ts:37-79 | an update that sets nothing carries the same payload as a tombstone would |
| TopicVersionFactory.FullUpdateIgnoresPrevious | src/usecases/topic/topic-version.factory.ts:37-58 | an update that gives every field builds the same record whatever the previous payload was |
| TopicVersionFactory.Derive | src/usecases/topic/topic-version.factory.ts:17-79 | no single call site: the carrier of `DeriveNumbersAndCreatedAt`, a history made by chaining the factory calls, with one version per step after the first |
| TopicVersionFactory.DeriveNumbersAndCreatedAt | src/usecases/topic/topic-version.factory.ts:17-79 | a history made with the factory is numbered 1, 2, 3, ..., and every version carries the creation timestamp |
| CreateTopic.CreatedVersion | src/usecases/topic/create-topic.usecase.ts:20-31 | version 1 of the new topic, with its parent normalised to null when missing |
| CreateTopic.CreateStep | src/usecases/topic/create-topic.usecase.ts:17-37 | create appends the new version and upserts a live head at version 1 |
| CreateTopic.CreateStepKeepsConsistent | src/usecases/topic/create-topic.usecase.ts:33-34 | creating a topic under an id with no head keeps the store consistent (so the new topic's history is exactly version 1, logged once), and the topic then reads back as its first version |
| CreateTopic.CreateTopicUseCase.constructor | src/usecases/topic/create-topic.usecase.ts:17-37 | binds the two repositories |
| CreateTopic.CreateTopicUseCase.Execute | src/usecases/topic/create-topic.usecase.ts:17-37 | the repositories end up exactly as `CreateStep` says, and the created version is returned |
| UpdateTopic.UpdatedVersion | src/usecases/topic/update-topic.usecase.ts:32-46 | field-wise merge over the current version, without normalising an undefined parent |
| UpdateTopic.UpdatedVersionVersusFactory | src/usecases/topic/update-topic.usecase.ts:41 | the use case's record equals the factory's `fromUpdate` record, except that the parent is not normalised |
| UpdateTopic.UpdateStep | src/usecases/topic/update-topic.usecase.ts:17-57 | a failure changes neither log |
| UpdateTopic.UpdateStepOutcomes | src/usecases/topic/update-topic.usecase.ts:23-30 | a missing or deleted head gives `Topic not found`; a head whose version is not logged gives `Topic version not found`; otherwise the merged version is appended and the head advances |
| UpdateTopic.UpdateStepFailsOnlyWhenGone | src/usecases/topic/update-topic.usecase.ts:23-30 | in a consistent store, an update fails exactly when the topic is missing or deleted |
| UpdateTopic.UpdateStepKeepsConsistent | src/usecases/topic/update-topic.usecase.ts:48-53 | an update, failed or not, keeps the store consistent: the topic's history stays 1 .. `latestVersion` without gaps or duplicates, and its head keeps the right tombstone flag |
| UpdateTopic.UpdateStepReadsBack | src/usecases/topic/update-topic.usecase.ts:48-53 | after a successful update, the head is alive at the new version and reads back as the returned record |
| UpdateTopic.UpdateTopicUseCase.constructor | src/usecases/topic/update-topic.usecase.ts:17-57 | binds the two repositories |
| UpdateTopic.UpdateTopicUseCase.Execute | src/usecases/topic/update-topic.usecase.ts:17-57 | the repositories and the result are exactly those of `UpdateStep` over the old state |
| DeleteTopic.DeleteStep | src/usecases/topic/delete-topic.usecase.ts:12-42 | a failure changes neither log |
| DeleteTopic.DeleteStepOutcomes | src/usecases/topic/delete-topic.usecase.ts:13-40 | a missing or deleted head gives `Topic not found`; an unlogged current version gives `Topic version not found`; otherwise the tombstone is appended and the head is marked deleted at `now` |
| DeleteTopic.DeleteStepFailsOnlyWhenGone | src/usecases/topic/delete-topic.usecase.ts:13-22 | in a consistent store, a delete fails exactly when the topic is missing or already deleted |
| DeleteTopic.DeleteStepKeepsConsistent | src/usecases/topic/delete-topic.usecase.ts:39-40 | a delete, failed or not, keeps the store consistent: the tombstone extends the history 1 .. `latestVersion` without gaps or duplicates, and the head is marked deleted exactly because its version is a tombstone |
| DeleteTopic.DeleteStepReadsBack | src/usecases/topic/delete-topic.usecase.ts:24-40 | after a successful delete, the head is marked deleted at `now` and names the logged tombstone |
| DeleteTopic.DeleteTwiceFails | src/usecases/topic/delete-topic.usecase.ts:13-15 | after a successful delete at a non-zero time, a second delete fails with `Topic not found` and changes nothing |
| DeleteTopic.DeleteTopicUseCase.constructor | src/usecases/topic/delete-topic.usecase.ts:12-42 | binds the two repositories |
| DeleteTopic.DeleteTopicUseCase.Execute | src/usecases/topic/delete-topic.usecase.ts:12-42 | the repositories and the result are exactly those of `DeleteStep` over the old state |
| TopicServiceModule.TopicService.constructor | src/services/topic.service.ts:26-30 | binds the two repositories |
| TopicServiceModule.TopicService.Create | src/services/topic.service.ts:32-52 | writes what the create use case writes, with the fixed actor `'userId'` |
| GetTopic.ByHead | src/usecases/topic/get-topic.usecase.ts:23-32 | fails with `Topic not found` exactly for a missing or deleted head; otherwise any version returned is the head's latest version of that topic |
| GetTopic.GetTopicAsWritten | src/usecases/topic/get-topic.usecase.ts:11-33 | a truthy version argument is read directly by number; a falsy one reads through the head |
| GetTopic.NaNVersionReadsLatest | src/usecases/topic/get-topic.usecase.ts:12-14 | as written, the 400 guard never fires, and a `NaN` argument reads the latest version |
| GetTopic.GetTopic | src/usecases/topic/get-topic.usecase.ts:12-14 | with the intended guard, the result is 400 exactly for `NaN`, and otherwise it is what the code as written returns |
| GetTopic.LatestOfAliveTopic | src/usecases/topic/get-topic.usecase.ts:23-32 | in a consistent store, an alive topic always reads; the result is a tombstone only for a head deleted at time 0 |
| GetTopic.LatestByNumber | src/usecases/topic/get-topic.usecase.ts:16-32 | reading an alive topic by its `latestVersion` number gives the same result as reading its latest version |
| GetTopic.DeletedTopicNotFound | src/usecases/topic/get-topic.usecase.ts:23-24 | after a delete at a non-zero time, reading the latest version gives `Topic not found` |
| GetTopic.DeletedTopicKeepsHistory | src/usecases/topic/get-topic.usecase.ts:16-21 | every version logged before a delete still reads by number after it |
| PathGraph.AddToSet | src/usecases/topic/get-shortest-path.usecase.ts:37-38 | `Set.add`: the elements are the old ones plus the new one |
| PathGraph.AddVertices | src/usecases/topic/get-shortest-path.usecase.ts:29-31 | every topic of the working set is a vertex with no neighbours yet |
| PathGraph.Link | src/usecases/topic/get-shortest-path.usecase.ts:34-38 | adds the parent as a vertex and links child and parent in both directions, changing nothing else |
| PathGraph.AddLinks | src/usecases/topic/get-shortest-path.usecase.ts:33-39 | the second loop only adds vertices |
| PathGraph.IsParentSnoc | src/usecases/topic/get-shortest-path.usecase.ts:33-39 | a topic is a parent in a longer working set exactly when it is a parent in the prefix or is the new version's parent |
| PathGraph.LinkedSnoc | src/usecases/topic/get-shortest-path.usecase.ts:33-39 | a child/parent link holds in a longer working set exactly when it holds in the prefix or comes from the new version |
| PathGraph.AddLinksSpec | src/usecases/topic/get-shortest-path.usecase.ts:33-39 | the vertices are the start vertices plus the parents; `b` neighbours `a` exactly when one is the other's parent |
| PathGraph.AdjacencySpec | src/usecases/topic/get-shortest-path.usecase.ts:26-42 | the vertices are exactly the topics and parents of the working set; the edges are exactly the parent links, in both directions, so the graph is symmetric |
| PathGraph.AddVerticesKeys | src/usecases/topic/get-shortest-path.usecase.ts:29-31 | every vertex of the first loop comes from the working set |
| PathGraph.BuildAdjacency | src/usecases/topic/get-shortest-path.usecase.ts:26-42 | the two loops build exactly the reference graph `Adjacency` |
| PathGraph.ExpandedPrefix | src/usecases/topic/get-shortest-path.usecase.ts:107-120 | along any walk from the source whose first `k` topics have been expanded, the `k`-th topic has been discovered within `k` levels |
| PathGraph.StopBound | src/usecases/topic/get-shortest-path.usecase.ts:107-120 | when the search stops at a topic, its level is below the length of any walk to it |
| PathGraph.Universe | src/usecases/topic/get-shortest-path.usecase.ts:103-120 | a finite set of topic ids bounds everything the search can discover |
| PathGraph.StartVisit | src/usecases/topic/get-shortest-path.usecase.ts:107-111 | shifting the queue's front begins a visit at its level |
| PathGraph.VisitKnown | src/usecases/topic/get-shortest-path.usecase.ts:115 | skipping a visited neighbour keeps the search invariant |
| PathGraph.VisitNew | src/usecases/topic/get-shortest-path.usecase.ts:116-118 | discovering a neighbour gives it level+1, the current topic as predecessor and a place at the end of the queue, keeping the invariant |
| PathGraph.FinishVisit | src/usecases/topic/get-shortest-path.usecase.ts:114-120 | once all neighbours are visited, the current topic is expanded |
| PathGraph.VisitNeighbors | src/usecases/topic/get-shortest-path.usecase.ts:111-119 | the inner loop visits every neighbour while keeping the invariant, and only grows the visited set |
| PathGraph.Bfs | src/usecases/topic/get-shortest-path.usecase.ts:103-122 | the predecessors form a breadth-first tree rooted at the source; the target's level is below the length of every walk to it; an undiscovered target is unreachable |
| GetShortestPath.Ids | src/usecases/topic/get-shortest-path.usecase.ts:125-129 | the topic ids of a path, position by position |
| GetShortestPath.ReconstructPath | src/usecases/topic/get-shortest-path.usecase.ts:44-61 | the chain of predecessors, read from the source to the target; `Path not found` when it does not start at the source |
| GetShortestPath.Label | src/usecases/topic/get-shortest-path.usecase.ts:125-129 | succeeds exactly when every id has a latest version, and then names each with it; otherwise `Topic version not found` |
| GetShortestPath.ChainLevels | src/usecases/topic/get-shortest-path.usecase.ts:44-61 | the `k`-th topic of a predecessor chain sits on level `k`, one edge from the one before it |
| GetShortestPath.ChainIsShortest | src/usecases/topic/get-shortest-path.usecase.ts:44-61 | the reconstructed chain is a walk no longer than any other walk between its endpoints |
| GetShortestPath.AliveTopicInGraph | src/usecases/topic/get-shortest-path.usecase.ts:83-92 | an alive topic with a logged version is a vertex of the working graph |
| GetShortestPath.LabelledShortest | src/usecases/topic/get-shortest-path.usecase.ts:124-131 | labelling a shortest walk gives a shortest labelled path |
| GetShortestPath.Search | src/usecases/topic/get-shortest-path.usecase.ts:103-131 | `Path not found` when the target is unreachable; any result is a shortest walk labelled with the latest names; when the target is reachable and no vertex id is empty, the outcome is a result or `Topic version not found`, and a result when every vertex is labelled; `Topic version not found` comes only with a shortest walk that has a topic without a latest version |
| GetShortestPath.FindPath | src/usecases/topic/get-shortest-path.usecase.ts:76-131 | for distinct endpoints: `Topic not found` unless both are alive; `Topic version not found` when an alive endpoint is not a vertex of the working graph; never a result when an endpoint has no version (an endpoint that another topic names as parent is a vertex, so it can fail with `Path not found` instead); `Path not found` when no walk exists; any result is a shortest labelled walk of the working graph; when both endpoints have versions and the target is reachable over non-empty ids, the outcome is a result or `Topic version not found`, and a result when every vertex has a version; `Topic version not found` comes only from an endpoint without a version or from a shortest walk with a topic that has none |
| GetShortestPath.Execute | src/usecases/topic/get-shortest-path.usecase.ts:63-132 | the same outcomes as `FindPath`, including its reachable case and its account of `Topic version not found`; for one alive endpoint, the one-node path of its latest version |
| TopicTree.IndexOfEntries | src/usecases/topic/get-topic-tree.usecase.ts:28-42 | each entry of the index lists exactly the versions linked to that parent, in working-set order |
| TopicTree.IndexOfKeys | src/usecases/topic/get-topic-tree.usecase.ts:35-38 | a parent has an entry exactly when it has at least one child |
| TopicTree.BuildChildrenIndex | src/usecases/topic/get-topic-tree.usecase.ts:28-42 | the loop builds exactly the reference index `IndexOf` |
| TopicTree.TreeChildren | src/usecases/topic/get-topic-tree.usecase.ts:52-60 | a topic's children are the working-set versions linked to it, in head order |
| TopicTree.TreeChildIsAliveLatest | src/usecases/topic/get-topic-tree.usecase.ts:52-60 | every child in the tree is the latest version of its topic, links to its parent and has an alive head |
| TopicTree.TreeNode.constructor | src/usecases/topic/get-topic-tree.usecase.ts:44-46 | `toNode`: a node for the version with no children |
| TopicTree.ForestSizeAppend | src/usecases/topic/get-topic-tree.usecase.ts:66-77 | the work left on the stack adds up over its parts |
| TopicTree.PopPushShrinks | src/usecases/topic/get-topic-tree.usecase.ts:68-76 | popping a node and pushing its children shrinks the work left by exactly one node |
| TopicTree.AbsIsBuild | src/usecases/topic/get-topic-tree.usecase.ts:65-79 | once every node is expanded, the linked nodes spell out the reference tree |
| TopicTree.LinkedKeys | src/usecases/topic/get-topic-tree.usecase.ts:72-76 | expanding a node links it to its new children, adds the children with no children of their own, and changes no other node |
| TopicTree.PendingStep | src/usecases/topic/get-topic-tree.usecase.ts:68-76 | after a pop and pushes, the stack still holds distinct, unexpanded nodes |
| TopicTree.ExpandedOffStep | src/usecases/topic/get-topic-tree.usecase.ts:68-76 | after a pop and pushes, every node off the stack has children matching its index entry |
| TopicTree.AllRankedStep | src/usecases/topic/get-topic-tree.usecase.ts:72-76 | the new children stay within the acyclic part of the index |
| TopicTree.Done | src/usecases/topic/get-topic-tree.usecase.ts:68 | an empty stack means every node is expanded |
| TopicTree.ExpandNode | src/usecases/topic/get-topic-tree.usecase.ts:70-76 | the node gets fresh, distinct children matching its index entry, and they are pushed in order |
| TopicTree.ExpandTop | src/usecases/topic/get-topic-tree.usecase.ts:69-76 | one turn of the loop keeps the stack invariants and the node/children mirror, touches only new nodes, and shrinks the work left |
| TopicTree.Expand | src/usecases/topic/get-topic-tree.usecase.ts:65-79 | the loop ends with the root's linked nodes forming exactly `Build` of the root |
| TopicTree.Execute | src/usecases/topic/get-topic-tree.usecase.ts:48-80 | `Topic not found` for a missing or deleted root; `Topic version not found` with no logged version; otherwise a fresh root node whose subtree is the reference tree of the latest versions |
| ResourceStore.FindResource | src/infra/persistence/file/resource-repository.file.ts:33-36 | a found resource has that id and is stored; nothing is found exactly when no entry has the id |
| ResourceStore.CreateThenGet | src/infra/persistence/file/resource-repository.file.ts:10-15 | after a push, `get` finds an earlier entry with the id if there is one, otherwise the new resource |
| ResourceStore.UpdateThenGet | src/infra/persistence/file/resource-repository.file.ts:17-24 | after `update`, `get` of its id returns the new resource and other ids read as before; the list grows only for a new id |
| ResourceStore.UpdateKeepsOthers | src/infra/persistence/file/resource-repository.file.ts:17-24 | `update` leaves every entry with another id at its position |
| ResourceStore.DeleteThenGet | src/infra/persistence/file/resource-repository.file.ts:26-31 | after `delete`, the id is gone, every other entry remains, and other ids read as before |
| ResourceStore.DeleteMissingIsNoop | src/infra/persistence/file/resource-repository.file.ts:26-31 | deleting an unknown id changes nothing |
| ResourceStore.ListOfTopicSpec | src/infra/persistence/file/resource-repository.file.ts:38-41 | `listByTopic` returns exactly the entries of that topic, and a pushed resource joins the end of its topic's list |
| ResourceStore.ResourceRepositoryFile.constructor | src/infra/persistence/file/resource-repository.file.ts:10-41 | the store starts with the given resources |
| ResourceStore.ResourceRepositoryFile.Create | src/infra/persistence/file/resource-repository.file.ts:10-15 | the list becomes the old list followed by the resource |
| ResourceStore.ResourceRepositoryFile.Update | src/infra/persistence/file/resource-repository.file.ts:17-24 | replaces the entry with that id in place, or pushes the resource |
| ResourceStore.ResourceRepositoryFile.Delete | src/infra/persistence/file/resource-repository.file.ts:26-31 | keeps exactly the entries with another id |
| ResourceStore.ResourceRepositoryFile.Get | src/infra/persistence/file/resource-repository.file.ts:33-36 | returns the first entry with the id, and changes nothing |
| ResourceStore.ResourceRepositoryFile.ListByTopic | src/infra/persistence/file/resource-repository.file.ts:38-41 | returns the topic's entries in stored order, and changes nothing |
| ResourceServiceModule.NewResource | src/services/resource.service.ts:28-38 | the created resource: the new id, the input's topic, url, description and type, both timestamps `now` |
| ResourceServiceModule.Merged | src/services/resource.service.ts:48-54 | each given field replaces the stored one and each omitted field keeps it; id, topic and `createdAt` are kept, and `updatedAt` is `now` |
| ResourceServiceModule.MergeNothing | src/services/resource.service.ts:48-54 | an empty update only moves `updatedAt` |
| ResourceServiceModule.MergeTwice | src/services/resource.service.ts:48-54 | applying the same update twice equals applying it once at the later time |
| ResourceServiceModule.UpdateReadsBack | src/services/resource.service.ts:44-58 | after an update, `get` returns the merged resource, and the list keeps its length |
| ResourceServiceModule.CreateReadsBack | src/services/resource.service.ts:24-42 | a resource created under a new id is found by it, and it ends its topic's list |
| ResourceServiceModule.ResourceService.constructor | src/services/resource.service.ts:24-78 | binds the resource and topic repositories |
| ResourceServiceModule.ResourceService.Create | src/services/resource.service.ts:24-42 | `Topic not found` for a missing or deleted topic, leaving the store unchanged; otherwise the new resource is pushed and returned |
| ResourceServiceModule.ResourceService.Update | src/services/resource.service.ts:44-58 | `Resource not found` for an unknown id, leaving the store unchanged; otherwise the merged resource replaces the stored one and is returned |
| ResourceServiceModule.ResourceService.Delete | src/services/resource.service.ts:60-64 | `Resource not found` for an unknown id, leaving the store unchanged; otherwise every entry with that id is removed |
| ResourceServiceModule.ResourceService.Get | src/services/resource.service.ts:66-71 | returns the stored resource with the id, or fails with `Resource not found` exactly when there is none |
| ResourceServiceModule.ResourceService.ListByTopic | src/services/resource.service.ts:73-78 | fails with `Topic not found` exactly for a missing or deleted topic; otherwise returns that topic's resources in order |
| UserStore.FindUser | src/infra/persistence/file/user-repository.file.ts:9-14 | nothing is found exactly when no stored user holds the token |
| UserStore.FindUserAt | src/infra/persistence/file/user-repository.file.ts:9-14 | a found user is the first stored entry holding the token |
| UserStore.FindUserFirst | src/infra/persistence/file/user-repository.file.ts:9-14 | the first stored holder of a token is the user found for it |
| UserStore.UserRepositoryFile.constructor | src/infra/persistence/file/user-repository.file.ts:9-18 | the store starts with the given users, and no lookups have been made |
| UserStore.UserRepositoryFile.FindByToken | src/infra/persistence/file/user-repository.file.ts:9-14 | returns the first holder of the token, changes no user, and records the lookup |
| UserStore.UserRepositoryFile.CreateMany | src/infra/persistence/file/user-repository.file.ts:16-18 | the stored list becomes exactly the given users |
| Permission.Can | src/security/permission.ts:18-46 | the intended table: every role may read, and only Admin may delete |
| Permission.CanAsWritten | src/security/permission.ts:18-46 | the switch as written: only a lowercase label grants anything; reads are granted exactly to the three lowercase labels and deletes exactly to `'admin'` |
| Permission.CanTable | src/security/permission.ts:18-46 | Admin may do everything, Editor everything but deleting, Viewer only reading |
| Permission.CanMonotone | src/security/permission.ts:18-46 | Viewer's permissions are included in Editor's, which are included in Admin's |
| Permission.AsWrittenDeniesEveryRole | src/security/permission.ts:19-44 | as written, the switch matches no `UserRole` value, so every user is denied every action |
| Permission.Lower | src/security/permission.ts:19-44 | helper of the intended reading stated by `CanIsLowercaseSwitch` (the source does no lower-casing): ASCII lower-casing keeps the length |
| Permission.CanIsLowercaseSwitch | src/security/permission.ts:19-44 | the intended table is the switch as written, applied to the lower-cased role value |
| AuthMiddlewares.BearerToken | src/middlewares/auth.middleware.ts:23-26 | a token is found exactly when the header is `Bearer ` followed by at least one character, and the header is then the prefix followed by the token |
| AuthMiddlewares.BearerTokenRoundTrip | src/middlewares/auth.middleware.ts:25-26 | any non-empty token put into a `Bearer` header is read back unchanged |
| AuthMiddlewares.NoBearerToken | src/middlewares/auth.middleware.ts:23-26 | a missing header, a bare `Bearer ` and another scheme carry no token |
| AuthMiddlewares.Authentication | src/middlewares/auth.middleware.ts:22-33 | every failure is 401; success happens exactly when the header has a token some stored user holds |
| AuthMiddlewares.AuthenticationSpec | src/middlewares/auth.middleware.ts:22-33 | a `Bearer` header with a stored token authenticates as that token's first holder |
| AuthMiddlewares.AuthenticatedUserHoldsToken | src/middlewares/auth.middleware.ts:22-33 | conversely, an authenticated user is the first stored holder of the header's token |
| AuthMiddlewares.Authorization | src/middlewares/auth.middleware.ts:35-44 | 401 exactly without a user; 403 exactly when the strategy denies the user the action; through exactly when it allows it |
| AuthMiddlewares.RoleBased | src/security/permission.ts:18-46 | the role-based strategy as the middleware's `can`: a user may act exactly when the table allows the user's role |
| AuthMiddlewares.GuardedRoute | src/middlewares/auth.middleware.ts:22-44 | authenticate then authorize under the role table: 401 exactly when authentication fails, 403 exactly when the role may not act, otherwise through |
| AuthMiddlewares.Request.constructor | src/middlewares/auth.middleware.ts:22-23 | a request with its authorization header and no user yet |
| AuthMiddlewares.AuthMiddleware.constructor | src/middlewares/auth.middleware.ts:16-20 | binds the user store and the permission strategy |
| AuthMiddlewares.AuthMiddleware.Authenticate | src/middlewares/auth.middleware.ts:22-33 | on success sets `req.user` to the token's user and continues; otherwise fails with 401 and leaves `req.user` as it was; the store is consulted only when there is a token, and then for exactly that token (the same code as src/middleware/auth.middleware.ts:18-29) |
| LegacyAuthMiddleware.RoleAuthorization | src/middleware/auth.middleware.ts:31-40 | 401 exactly without a user; 403 exactly when a non-empty role list omits the user's role; through otherwise |
| LegacyAuthMiddleware.RolesNarrowAccess | src/middleware/auth.middleware.ts:34-36 | an empty role list admits every authenticated user, and listing more roles never rejects a user already admitted |
| LegacyAuthMiddleware.RoleListAsStrategy | src/middleware/auth.middleware.ts:31-40 | a role list naming exactly the roles the table allows for an action authorizes like the strategy-based middleware |

## Left out

- **File persistence.** The repositories' JSON files, their reads and writes, and the `fs-json` helpers are left out; each repository is its in-memory array. The HTTP layer is also left out: controllers, routes, request validation schemas, the error middleware and logging.
- **Promises.** The async/await sequencing and `Promise.all` are not modelled. Each use case runs as one atomic step, so concurrent requests are not modelled.
- **Clock and ids.** `Date.now()` and `crypto.randomUUID()` are parameters (`now`, `id`, `topicId`). Nothing makes generated ids unique; the create lemmas require the new topic id to have no head.
- **Snapshots.** `listAll` of topics and versions is not a repository method here. The read use cases take the two snapshots as `seq` parameters.
- **Numbers.** JavaScript numbers are modelled as unbounded integers. Floating-point versions, overflow past 2^53 and `Number(version)` on fractional input are not modelled; `NaN` is a separate argument value.
- **TopicTree.Execute**:
  - It requires a ghost rank function (`RankedFrom`) that makes the index acyclic below the root. The source's loop does not terminate on a parent cycle, so the model covers only the inputs where it ends.
  - Its result is stated as the linked node graph, not as a JSON value.
- get-topic-tree.usecase.ts:17-26 repeats get-shortest-path.usecase.ts:16-24 statement for statement. Both are modelled by the one `LatestVersions.ComputeLatestByTopic`.
- **GetShortestPath.Execute.** It is split into the same-id branch, `FindPath` (lookups and working graph) and `Search` (BFS, reconstruction, labelling); together they are the one `execute`. The loop reads the front of the queue, tests it for the target and drops it only when it does not break. The source shifts first and then tests; the two agree because the queue is not read after the break. The ghost level map `dist` exists only for the proof. `ReconstructPath` takes it as a ghost argument and does not use it to compute.
- **GetShortestPath.ReconstructPath**, when the predecessor chain would cycle: this cannot happen for a map the BFS builds, and the model states it only for such maps.
- **TopicStore.TopicRepositoryFile.Upsert**, **ResourceStore.ResourceRepositoryFile.Update**: `ensures` states the new list through `UpsertHead` / `UpdateResource`. The read-after-write properties are the lemmas `UpsertHeadSpec` and `UpdateThenGet`.
- **Cascading deletes and `deleteByTopic`** of resources are not in the modelled source and are not modelled.
- **Stored users.** `findByToken` returns the stored user record, and the model returns its `User` part. The token field is kept beside it, in `StoredUser`.
- **AuthMiddlewares.AuthMiddleware.Authenticate** models both authenticate middlewares, which are the same code. The legacy file types `req.user` without `createdAt`; the model uses one `User` type.
- **Express `next`.** A middleware's call to `next()` or `next(error)` is modelled as a returned `Next` value.
- **Factory use.** `TopicVersionFactory` is modelled as written, although the use cases build their records inline. `UpdateTopic.UpdatedVersionVersusFactory` states where the two differ.

Points where the code and its plain reading differ, followed as written:

- **Parent on update.** The update use case copies an omitted parent as it is: an undefined parent stays undefined. The factory's `fromUpdate` and `fromDelete` normalise it to `null`.
- **Shortest-path graph.** A parent that is deleted or not in the working set still becomes a vertex with edges, so a path may pass through it. Labels come from the unfiltered latest versions.
- **Deleted at time 0.** A head deleted at time 0 reads as alive, because 0 is falsy.
- **Resource ids.** `ResourceService.create` does not check that the new id is unused.

## Findings

| source | as written | input that shows it | evidently intended | confidence | as-written member | corrected member |
|---|---|---|---|---|---|---|
| src/security/permission.ts:19-44 | the switch compares `user.role` with `'admin'`, `'editor'` and `'viewer'`, but the `UserRole` values are `'Admin'`, `'Editor'` and `'Viewer'` (src/models/user.ts:1-5) | any user, e.g. role `Admin` and action `topic:read`: `can` returns false | Admin may do everything, Editor everything but delete, Viewer only read | not executed | Permission.CanAsWritten, with Permission.AsWrittenDeniesEveryRole | Permission.Can, with Permission.CanTable and Permission.CanIsLowercaseSwitch |
| src/usecases/topic/get-topic.usecase.ts:12-14 | `if (version && isNaN(version))` never fires, because `NaN` is falsy | `execute(id, NaN)` reads the latest version instead of failing with 400 | a `NaN` version is rejected with 400 `Version must be a number` | not executed | GetTopic.GetTopicAsWritten, with GetTopic.NaNVersionReadsLatest | GetTopic.GetTopic |
