/**
 * `GetTopicTreeUseCase`: the subtree of alive topics below a root, built from a parent-to-children
 * index by popping nodes off an explicit stack and filling in their `children` lists.
 */
module TopicTree {
  import opened Common
  import opened Models
  import opened Arrays
  import opened TopicStore
  import opened LatestVersions

  /** `Map<parentId, TopicVersion[]>`. */
  type ChildrenIndex = map<TopicId, seq<TopicVersion>>

  /** The versions one index entry collects: those whose parent link is `parentId`. */
  function ChildOf(parentId: TopicId): TopicVersion -> bool {
    (v: TopicVersion) => LinkedParent(v) == Some(parentId)
  }

  /** `index.get(topicId) ?? []`. */
  function Children(index: ChildrenIndex, topicId: TopicId): seq<TopicVersion> {
    if topicId in index then index[topicId] else []
  }

  /** The index `buildChildrenIndex` holds after the versions `lvs`, visited in order. */
  function IndexOf(lvs: seq<TopicVersion>): ChildrenIndex
    decreases |lvs|
  {
    if |lvs| == 0 then map[]
    else
      var index := IndexOf(lvs[..|lvs| - 1]);
      var v := lvs[|lvs| - 1];
      match LinkedParent(v)
      case None => index
      case Some(p) => index[p := Children(index, p) + [v]]
  }

  /** Each entry of the index lists exactly the versions linked to that parent, in stored order. */
  lemma {:induction false} IndexOfEntries(lvs: seq<TopicVersion>, parentId: TopicId)
    ensures Children(IndexOf(lvs), parentId) == Filter(lvs, ChildOf(parentId))
  {
    if |lvs| > 0 {
      var init := lvs[..|lvs| - 1];
      var v := lvs[|lvs| - 1];
      IndexOfEntries(init, parentId);
      assert lvs == init + [v];
      FilterAppend(init, [v], ChildOf(parentId));
      assert Filter([v], ChildOf(parentId)) == if ChildOf(parentId)(v) then [v] else [] by {
        assert [v][1..] == [];
      }
    }
  }

  /** A parent is a key of the index exactly when its entry is non-empty. */
  lemma {:induction false} IndexOfKeys(lvs: seq<TopicVersion>, parentId: TopicId)
    ensures parentId in IndexOf(lvs) <==> Children(IndexOf(lvs), parentId) != []
  {
    if |lvs| > 0 {
      IndexOfKeys(lvs[..|lvs| - 1], parentId);
    }
  }

  /** `buildChildrenIndex`: push each version onto its parent's list, skipping a falsy parent. */
  method BuildChildrenIndex(latestVersions: seq<TopicVersion>) returns (index: ChildrenIndex)
    ensures index == IndexOf(latestVersions)
  {
    index := map[];
    for i := 0 to |latestVersions|
      invariant index == IndexOf(latestVersions[..i])
    {
      var v := latestVersions[i];
      assert latestVersions[..i + 1][..i] == latestVersions[..i];
      match LinkedParent(v) {
        case None =>
        case Some(parentId) =>
          var list := if parentId in index then index[parentId] else [];
          list := list + [v];
          index := index[parentId := list];
      }
    }
    assert latestVersions[..|latestVersions|] == latestVersions;
  }

  /** The index `execute` builds: over the latest versions of the alive heads. */
  function TreeIndex(versions: seq<TopicVersion>, heads: seq<Topic>): ChildrenIndex {
    IndexOf(AliveLatest(heads, LatestByTopic(versions)))
  }

  /**
   * A topic's children in the tree are exactly the latest versions of alive heads whose parent
   * link names it, in the order of the heads list.
   */
  lemma TreeChildren(versions: seq<TopicVersion>, heads: seq<Topic>, parentId: TopicId)
    ensures Children(TreeIndex(versions, heads), parentId)
            == Filter(AliveLatest(heads, LatestByTopic(versions)), ChildOf(parentId))
    ensures forall v :: v in Children(TreeIndex(versions, heads), parentId) <==>
              v in AliveLatest(heads, LatestByTopic(versions)) && LinkedParent(v) == Some(parentId)
  {
    var lvs := AliveLatest(heads, LatestByTopic(versions));
    IndexOfEntries(lvs, parentId);
    forall v | v in lvs && LinkedParent(v) == Some(parentId)
      ensures v in Filter(lvs, ChildOf(parentId))
    {
      var k :| 0 <= k < |lvs| && lvs[k] == v;
      assert ChildOf(parentId)(lvs[k]);
    }
  }

  /** A child in the tree is the latest version of its topic, and that topic has an alive head. */
  lemma TreeChildIsAliveLatest(versions: seq<TopicVersion>, heads: seq<Topic>, parentId: TopicId, v: TopicVersion)
    requires v in Children(TreeIndex(versions, heads), parentId)
    ensures LinkedParent(v) == Some(parentId)
    ensures v.topicId in LatestByTopic(versions) && v == LatestByTopic(versions)[v.topicId]
    ensures exists i :: 0 <= i < |heads| && heads[i].topicId == v.topicId && !IsDeleted(heads[i])
  {
    var latest := LatestByTopic(versions);
    TreeChildren(versions, heads, parentId);
    AliveLatestSpec(heads, latest);
    LatestByTopicIsMax(versions);
    var i :| 0 <= i < |heads| && !IsDeleted(heads[i]) && heads[i].topicId in latest && v == latest[heads[i].topicId];
  }

  /** `TopicTreeNode`: a node whose `children` list `execute` fills in place. */
  class TreeNode {
    const topicId: TopicId
    const name: string
    var children: seq<TreeNode>

    /** `toNode`: a node for a version, with no children yet. */
    constructor (topicId: TopicId, name: string)
      ensures this.topicId == topicId && this.name == name && children == []
    {
      this.topicId := topicId;
      this.name := name;
      children := [];
    }
  }

  /** The tree as a value. */
  datatype Tree = Tree(topicId: TopicId, name: string, children: seq<Tree>)

  /**
   * `rank` falls strictly along every parent-to-child edge of the index that starts at a ranked
   * topic, so no cycle is reachable from a topic of positive rank.
   */
  ghost predicate RankedFrom(index: ChildrenIndex, rank: TopicId -> nat) {
    forall p, i :: p in index && rank(p) > 0 && 0 <= i < |index[p]| ==>
      0 < rank(index[p][i].topicId) < rank(p)
  }

  /** The reference definition: a node for `topicId` whose children are the subtrees of its index entry, in order. */
  ghost function Build(index: ChildrenIndex, rank: TopicId -> nat, topicId: TopicId, name: string): Tree
    requires RankedFrom(index, rank) && rank(topicId) > 0
    decreases rank(topicId)
  {
    var kids := Children(index, topicId);
    Tree(topicId, name, seq(|kids|, i requires 0 <= i < |kids| => Build(index, rank, kids[i].topicId, kids[i].name)))
  }

  /** The number of nodes in a forest. */
  function ForestSize(ts: seq<Tree>): nat
    decreases ts
  {
    if |ts| == 0 then 0 else ForestSize(ts[..|ts| - 1]) + 1 + ForestSize(ts[|ts| - 1].children)
  }

  lemma {:induction false} ForestSizeAppend(a: seq<Tree>, b: seq<Tree>)
    ensures ForestSize(a + b) == ForestSize(a) + ForestSize(b)
    decreases |b|
  {
    if |b| == 0 {
      assert a + b == a;
    } else {
      assert (a + b)[..|a + b| - 1] == a + b[..|b| - 1];
      ForestSizeAppend(a, b[..|b| - 1]);
    }
  }

  /** The nodes `ns` carry, in order, the ids and names of the versions `kids`. */
  predicate Matches(ns: seq<TreeNode>, kids: seq<TopicVersion>) {
    && |ns| == |kids|
    && forall i :: 0 <= i < |ns| ==> ns[i].topicId == kids[i].topicId && ns[i].name == kids[i].name
  }

  /** The subtrees the reference definition gives for the nodes of a stack. */
  ghost function Trees(index: ChildrenIndex, rank: TopicId -> nat, ns: seq<TreeNode>): seq<Tree>
    requires RankedFrom(index, rank) && forall k :: 0 <= k < |ns| ==> rank(ns[k].topicId) > 0
  {
    seq(|ns|, k requires 0 <= k < |ns| => Build(index, rank, ns[k].topicId, ns[k].name))
  }

  /** Replacing a popped node by nodes for its children shrinks the work left by exactly that node. */
  lemma PopPushShrinks(index: ChildrenIndex, rank: TopicId -> nat, rest: seq<TreeNode>, node: TreeNode, kids: seq<TreeNode>)
    requires RankedFrom(index, rank) && rank(node.topicId) > 0
    requires forall k :: 0 <= k < |rest| ==> rank(rest[k].topicId) > 0
    requires Matches(kids, Children(index, node.topicId))
    ensures forall k :: 0 <= k < |kids| ==> rank(kids[k].topicId) > 0
    ensures ForestSize(Trees(index, rank, rest + kids)) + 1 == ForestSize(Trees(index, rank, rest + [node]))
  {
    var tree := Build(index, rank, node.topicId, node.name);
    assert Trees(index, rank, kids) == tree.children;
    assert Trees(index, rank, rest + kids) == Trees(index, rank, rest) + Trees(index, rank, kids);
    assert Trees(index, rank, rest + [node]) == Trees(index, rank, rest) + [tree];
    ForestSizeAppend(Trees(index, rank, rest), tree.children);
    ForestSizeAppend(Trees(index, rank, rest), [tree]);
    assert [tree][..0] == [];
  }

  /**
   * Every node linked in `links` (a ghost copy of the `children` fields) is ranked, lists nodes
   * for its index entry, and links only to nodes of `links`.
   */
  ghost predicate Finished(index: ChildrenIndex, rank: TopicId -> nat, links: map<TreeNode, seq<TreeNode>>) {
    forall n :: n in links ==>
      && rank(n.topicId) > 0
      && Matches(links[n], Children(index, n.topicId))
      && forall i :: 0 <= i < |links[n]| ==> links[n][i] in links
  }

  /** The tree `links` spells out below `n`. */
  ghost function Abs(index: ChildrenIndex, rank: TopicId -> nat, links: map<TreeNode, seq<TreeNode>>, n: TreeNode): Tree
    requires RankedFrom(index, rank) && Finished(index, rank, links) && n in links
    decreases rank(n.topicId)
  {
    var kids := links[n];
    Tree(n.topicId, n.name, seq(|kids|, i requires 0 <= i < |kids| => Abs(index, rank, links, kids[i])))
  }

  /** Once every node is expanded, the linked nodes spell out the reference tree. */
  lemma {:induction false} AbsIsBuild(index: ChildrenIndex, rank: TopicId -> nat, links: map<TreeNode, seq<TreeNode>>, n: TreeNode)
    requires RankedFrom(index, rank) && Finished(index, rank, links) && n in links
    ensures Abs(index, rank, links, n) == Build(index, rank, n.topicId, n.name)
    decreases rank(n.topicId)
  {
    var kids := Children(index, n.topicId);
    forall i | 0 <= i < |links[n]|
      ensures Abs(index, rank, links, links[n][i]) == Build(index, rank, kids[i].topicId, kids[i].name)
    {
      AbsIsBuild(index, rank, links, links[n][i]);
    }
  }

  /** The stack holds distinct nodes of `links`, none of them with children yet. */
  ghost predicate Pending(links: map<TreeNode, seq<TreeNode>>, stack: seq<TreeNode>) {
    && (forall k :: 0 <= k < |stack| ==> stack[k] in links && links[stack[k]] == [])
    && (forall k, l :: 0 <= k < l < |stack| ==> stack[k] != stack[l])
  }

  /** Every linked node off the stack lists nodes for its index entry, all of them linked. */
  ghost predicate ExpandedOff(index: ChildrenIndex, links: map<TreeNode, seq<TreeNode>>, stack: seq<TreeNode>) {
    forall n :: n in links && n !in stack ==>
      Matches(links[n], Children(index, n.topicId)) && forall i :: 0 <= i < |links[n]| ==> links[n][i] in links
  }

  ghost predicate AllRanked(rank: TopicId -> nat, links: map<TreeNode, seq<TreeNode>>) {
    forall n :: n in links ==> rank(n.topicId) > 0
  }

  /** The links after expanding `node` into the new nodes `kids`. */
  ghost function Linked(links: map<TreeNode, seq<TreeNode>>, node: TreeNode, kids: seq<TreeNode>)
    : map<TreeNode, seq<TreeNode>>
  {
    links[node := kids] + map c | c in kids :: []
  }

  /** The keys of `Linked`: the old ones, the expanded node and its new children; only those two kinds change. */
  lemma LinkedKeys(links: map<TreeNode, seq<TreeNode>>, node: TreeNode, kids: seq<TreeNode>)
    requires node !in kids
    ensures node in Linked(links, node, kids) && Linked(links, node, kids)[node] == kids
    ensures forall n :: n in kids ==> n in Linked(links, node, kids) && Linked(links, node, kids)[n] == []
    ensures forall n :: n in Linked(links, node, kids) && n != node && n !in kids ==> n in links && Linked(links, node, kids)[n] == links[n]
  {
  }

  /** The conditions under which the top of the stack is expanded into `kids`. */
  ghost predicate FreshKids(links: map<TreeNode, seq<TreeNode>>, kids: seq<TreeNode>) {
    && (forall i :: 0 <= i < |kids| ==> kids[i] !in links)
    && (forall i, l :: 0 <= i < l < |kids| ==> kids[i] != kids[l])
  }

  lemma PendingStep(links: map<TreeNode, seq<TreeNode>>, rest: seq<TreeNode>, node: TreeNode, kids: seq<TreeNode>)
    requires Pending(links, rest + [node]) && FreshKids(links, kids)
    ensures node in links && node !in rest
    ensures Pending(Linked(links, node, kids), rest + kids)
  {
    var stack := rest + [node];
    var links' := Linked(links, node, kids);
    assert node == stack[|rest|];
    forall k | 0 <= k < |rest| ensures rest[k] != node && rest[k] in links && links[rest[k]] == [] {
      assert rest[k] == stack[k];
    }
    forall k | 0 <= k < |rest + kids| ensures (rest + kids)[k] in links' && links'[(rest + kids)[k]] == [] {
      if k < |rest| {
        assert (rest + kids)[k] == rest[k];
      } else {
        assert (rest + kids)[k] == kids[k - |rest|];
      }
    }
    forall k, l | 0 <= k < l < |rest + kids| ensures (rest + kids)[k] != (rest + kids)[l] {
      if l < |rest| {
        assert (rest + kids)[k] == stack[k] && (rest + kids)[l] == stack[l];
      } else if k < |rest| {
        assert (rest + kids)[k] == rest[k];
      }
    }
  }

  lemma ExpandedOffStep(index: ChildrenIndex, links: map<TreeNode, seq<TreeNode>>, rest: seq<TreeNode>, node: TreeNode,
                        kids: seq<TreeNode>)
    requires ExpandedOff(index, links, rest + [node]) && Matches(kids, Children(index, node.topicId))
    ensures ExpandedOff(index, Linked(links, node, kids), rest + kids)
  {
    var links' := Linked(links, node, kids);
    forall n | n in links' && n !in rest + kids
      ensures Matches(links'[n], Children(index, n.topicId))
      ensures forall i :: 0 <= i < |links'[n]| ==> links'[n][i] in links'
    {
      if n != node {
        assert n in links && n !in rest + [node];
        assert links'[n] == links[n];
      }
    }
  }

  lemma AllRankedStep(index: ChildrenIndex, rank: TopicId -> nat, links: map<TreeNode, seq<TreeNode>>, node: TreeNode,
                      kids: seq<TreeNode>)
    requires RankedFrom(index, rank) && AllRanked(rank, links) && node in links
    requires Matches(kids, Children(index, node.topicId))
    ensures AllRanked(rank, Linked(links, node, kids))
  {
    forall n | n in Linked(links, node, kids) ensures rank(n.topicId) > 0 {
      if n in kids {
        var i :| 0 <= i < |kids| && kids[i] == n;
        assert node.topicId in index;
      }
    }
  }

  /** When the stack is empty the expansion is finished. */
  lemma Done(index: ChildrenIndex, rank: TopicId -> nat, links: map<TreeNode, seq<TreeNode>>)
    requires ExpandedOff(index, links, []) && AllRanked(rank, links)
    ensures Finished(index, rank, links)
  {
  }

  /**
   * The `for (const child of children)` loop of `execute`: a new node per entry of the index, pushed
   * both onto the popped node's `children` and onto the stack.
   */
  method ExpandNode(index: ChildrenIndex, node: TreeNode, stack: seq<TreeNode>) returns (stack': seq<TreeNode>)
    requires node.children == []
    modifies node
    ensures stack' == stack + node.children
    ensures Matches(node.children, Children(index, node.topicId))
    ensures forall i :: 0 <= i < |node.children| ==> fresh(node.children[i]) && node.children[i].children == []
    ensures forall i, l :: 0 <= i < l < |node.children| ==> node.children[i] != node.children[l]
  {
    stack' := stack;
    var children := Children(index, node.topicId);
    for j := 0 to |children|
      invariant Matches(node.children, children[..j])
      invariant stack' == stack + node.children
      invariant forall i :: 0 <= i < |node.children| ==> fresh(node.children[i]) && node.children[i].children == []
      invariant forall i, l :: 0 <= i < l < |node.children| ==> node.children[i] != node.children[l]
    {
      var childNode := new TreeNode(children[j].topicId, children[j].name);
      node.children := node.children + [childNode];
      stack' := stack' + [childNode];
    }
  }

  /** One turn of the `while` loop of `execute`: pop the top node and expand it. */
  method ExpandTop(index: ChildrenIndex, ghost rank: TopicId -> nat, stack: seq<TreeNode>,
                   ghost links: map<TreeNode, seq<TreeNode>>)
    returns (stack': seq<TreeNode>, ghost links': map<TreeNode, seq<TreeNode>>)
    requires RankedFrom(index, rank) && |stack| > 0
    requires Pending(links, stack) && ExpandedOff(index, links, stack) && AllRanked(rank, links)
    requires forall n :: n in links ==> n.children == links[n]
    modifies stack[|stack| - 1]
    ensures Pending(links', stack') && ExpandedOff(index, links', stack') && AllRanked(rank, links')
    ensures forall n :: n in links' ==> n.children == links'[n]
    ensures forall n :: n in links ==> n in links'
    ensures forall n :: n in links' && n !in links ==> fresh(n)
    ensures ForestSize(Trees(index, rank, stack')) < ForestSize(Trees(index, rank, stack))
  {
    var node := stack[|stack| - 1];
    var rest := stack[..|stack| - 1];
    assert stack == rest + [node];
    label BeforeExpand:
    stack' := ExpandNode(index, node, rest);
    PendingStep(links, rest, node, node.children);
    ExpandedOffStep(index, links, rest, node, node.children);
    AllRankedStep(index, rank, links, node, node.children);
    PopPushShrinks(index, rank, rest, node, node.children);
    LinkedKeys(links, node, node.children);
    links' := Linked(links, node, node.children);
    forall n | n in links'
      ensures n.children == links'[n]
      ensures n !in links ==> fresh(n)
    {
      if n in node.children {
        var i :| 0 <= i < |node.children| && node.children[i] == n;
      } else if n != node {
        assert n.children == old@BeforeExpand(n.children);
      }
    }
  }

  /**
   * The `while (stack.length > 0)` loop of `execute`, from a childless root. `links` is a ghost
   * copy of the final `children` fields of every node reachable from the root.
   */
  method Expand(index: ChildrenIndex, ghost rank: TopicId -> nat, root: TreeNode)
    returns (ghost links: map<TreeNode, seq<TreeNode>>)
    requires RankedFrom(index, rank) && rank(root.topicId) > 0 && root.children == []
    modifies root
    ensures root in links && Finished(index, rank, links)
    ensures forall n :: n in links ==> n.children == links[n]
    ensures forall n :: n in links && n != root ==> fresh(n)
    ensures Abs(index, rank, links, root) == Build(index, rank, root.topicId, root.name)
  {
    var stack := [root];
    links := map[root := []];
    while |stack| > 0
      invariant root in links && Pending(links, stack) && ExpandedOff(index, links, stack) && AllRanked(rank, links)
      invariant forall n :: n in links ==> n.children == links[n]
      invariant forall n :: n in links && n != root ==> fresh(n)
      decreases ForestSize(Trees(index, rank, stack))
    {
      stack, links := ExpandTop(index, rank, stack, links);
    }
    Done(index, rank, links);
    AbsIsBuild(index, rank, links, root);
  }

  /** The root is requested, its head is alive and it has a logged version. */
  predicate Expandable(versions: seq<TopicVersion>, heads: seq<Topic>, rootId: TopicId) {
    !IsMissingOrDeleted(FindHead(heads, rootId)) && rootId in LatestByTopic(versions)
  }

  /**
   * `execute`: 404 `Topic not found` unless the root's head is alive, 404 `Topic version not found`
   * when the root has no logged version, otherwise a fresh root node for its latest version whose
   * linked nodes spell out the reference tree over the index of alive latest versions. `rank`
   * witnesses that the index has no cycle below the root (on a cycle the loop would not end).
   */
  method Execute(versions: seq<TopicVersion>, heads: seq<Topic>, rootId: TopicId, ghost rank: TopicId -> nat)
    returns (r: Result<TreeNode>, ghost links: map<TreeNode, seq<TreeNode>>)
    requires Expandable(versions, heads, rootId) ==> RankedFrom(TreeIndex(versions, heads), rank) && rank(rootId) > 0
    ensures IsMissingOrDeleted(FindHead(heads, rootId)) ==> r == Err(TopicNotFound)
    ensures !IsMissingOrDeleted(FindHead(heads, rootId)) && rootId !in LatestByTopic(versions) ==> r == Err(TopicVersionNotFound)
    ensures r.Ok? <==> Expandable(versions, heads, rootId)
    ensures r.Ok? ==> fresh(r.value) && r.value in links && r.value.topicId == rootId
                      && r.value.name == LatestByTopic(versions)[rootId].name
    ensures r.Ok? ==> Finished(TreeIndex(versions, heads), rank, links)
                      && (forall n :: n in links ==> n.children == links[n])
    ensures r.Ok? ==> Abs(TreeIndex(versions, heads), rank, links, r.value)
                      == Build(TreeIndex(versions, heads), rank, rootId, LatestByTopic(versions)[rootId].name)
  {
    links := map[];
    var target := FindHead(heads, rootId);
    if target.None? || IsDeleted(target.value) {
      return Err(TopicNotFound), links;
    }
    var latestByTopic := ComputeLatestByTopic(versions);
    var latestVersions := AliveLatest(heads, latestByTopic);
    var index := BuildChildrenIndex(latestVersions);
    if target.value.topicId !in latestByTopic {
      return Err(TopicVersionNotFound), links;
    }
    var rootLatest := latestByTopic[target.value.topicId];
    LatestByTopicIsMax(versions);
    var rootNode := new TreeNode(rootLatest.topicId, rootLatest.name);
    links := Expand(index, rank, rootNode);
    r := Ok(rootNode);
  }
}
