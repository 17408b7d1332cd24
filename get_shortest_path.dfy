/**
 * `GetShortestPathUseCase.execute`: the shortest chain of parent/child links between two alive
 * topics, over the latest version of every alive topic. `versions` and `heads` are what the two
 * repositories' `listAll` return; `get` is a lookup in `heads`.
 */
module GetShortestPath {
  import opened Common
  import opened Models
  import opened TopicStore
  import opened LatestVersions
  import opened PathGraph

  datatype PathNode = PathNode(topicId: TopicId, name: string)

  /** The graph `execute` searches: the adjacency of the latest version of every alive topic. */
  function WorkingGraph(versions: seq<TopicVersion>, heads: seq<Topic>): Graph {
    Adjacency(AliveLatest(heads, LatestByTopic(versions)))
  }

  /** Each topic of `p` after the first has the one before it as its predecessor. */
  predicate PredecessorChain(pred: map<TopicId, Option<TopicId>>, p: seq<TopicId>) {
    forall i :: 1 <= i < |p| ==> p[i] in pred && pred[p[i]] == Some(p[i - 1])
  }

  function Ids(path: seq<PathNode>): (ids: seq<TopicId>)
    ensures |ids| == |path| && forall i :: 0 <= i < |path| ==> ids[i] == path[i].topicId
  {
    seq(|path|, i requires 0 <= i < |path| => path[i].topicId)
  }

  /**
   * `reconstructPath`: follow predecessors back from `toId` while the cursor is a non-empty string,
   * reverse, and fail with `Path not found` unless the result starts at `fromId`. `dist` is the
   * search's level map; it only witnesses that following predecessors terminates.
   */
  method ReconstructPath(fromId: TopicId, toId: TopicId, predecessor: map<TopicId, Option<TopicId>>,
                         ghost dist: map<TopicId, nat>)
    returns (r: Result<seq<TopicId>>)
    requires forall v :: v in predecessor ==> v in dist
    requires forall v {:trigger predecessor[v]} :: v in predecessor && predecessor[v].Some? ==>
               predecessor[v].value in predecessor && dist[predecessor[v].value] < dist[v]
    ensures r.Err? ==> r.error == PathNotFound
    ensures r.Ok? ==> var p := r.value;
              && |p| > 0 && p[0] == fromId && p[|p| - 1] == toId
              && PredecessorChain(predecessor, p)
    ensures toId in predecessor && (forall v :: v in predecessor ==> v != "" && (predecessor[v].None? ==> v == fromId))
            ==> r.Ok?
  {
    var path: seq<TopicId> := [];
    var cursor: Option<TopicId> := Some(toId);
    while cursor.Some? && cursor.value != ""
      invariant |path| == 0 ==> cursor == Some(toId)
      invariant |path| > 0 ==> path[0] == toId
      invariant |path| > 0 ==> cursor == (if path[|path| - 1] in predecessor then predecessor[path[|path| - 1]] else None)
      invariant forall i :: 0 <= i < |path| - 1 ==> path[i] in predecessor && predecessor[path[i]] == Some(path[i + 1])
      invariant |path| > 0 && cursor.Some? ==> cursor.value in predecessor
      invariant toId in predecessor ==> forall i :: 0 <= i < |path| ==> path[i] in predecessor
      decreases if cursor.None? then 0 else if cursor.value in dist then dist[cursor.value] + 2 else 1
    {
      path := path + [cursor.value];
      cursor := if cursor.value in predecessor then predecessor[cursor.value] else None;
    }
    var reversed := seq(|path|, i requires 0 <= i < |path| => path[|path| - 1 - i]);
    if |reversed| == 0 || reversed[0] != fromId {
      return Err(PathNotFound);
    }
    return Ok(reversed);
  }

  /** `idPath.map(...)`: the name of each topic's latest version, or `Topic version not found` for a topic without one. */
  function Label(ids: seq<TopicId>, latest: map<TopicId, TopicVersion>): (r: Result<seq<PathNode>>)
    ensures r.Ok? <==> forall i :: 0 <= i < |ids| ==> ids[i] in latest
    ensures r.Err? ==> r.error == TopicVersionNotFound
    ensures r.Ok? ==> |r.value| == |ids|
    ensures r.Ok? ==> forall i :: 0 <= i < |ids| ==> r.value[i] == PathNode(latest[ids[i]].topicId, latest[ids[i]].name)
  {
    if |ids| == 0 then Ok([])
    else if ids[0] !in latest then Err(TopicVersionNotFound)
    else
      var rest := Label(ids[1..], latest);
      assert forall i :: 1 <= i < |ids| ==> ids[i] == ids[1..][i - 1];
      if rest.Err? then rest
      else Ok([PathNode(latest[ids[0]].topicId, latest[ids[0]].name)] + rest.value)
  }

  /** A chain of predecessors from the root is a walk whose `i`-th topic lies on level `i`. */
  lemma {:induction false} ChainLevels(adj: Graph, fromId: TopicId, pred: map<TopicId, Option<TopicId>>,
                                       dist: map<TopicId, nat>, p: seq<TopicId>, k: nat)
    requires PredecessorTree(adj, fromId, pred, dist)
    requires |p| > 0 && p[0] == fromId && k < |p|
    requires PredecessorChain(pred, p)
    ensures p[k] in dist && dist[p[k]] == k
    ensures k > 0 ==> Edge(adj, p[k - 1], p[k])
    decreases k
  {
    if k > 0 {
      ChainLevels(adj, fromId, pred, dist, p, k - 1);
      assert pred[p[k]] == Some(p[k - 1]);
    }
  }

  /** The reconstructed chain is a walk no longer than any other walk between its ends. */
  lemma ChainIsShortest(adj: Graph, fromId: TopicId, toId: TopicId, pred: map<TopicId, Option<TopicId>>,
                        dist: map<TopicId, nat>, p: seq<TopicId>)
    requires PredecessorTree(adj, fromId, pred, dist)
    requires toId in dist ==> forall q :: IsPath(adj, q, fromId, toId) ==> dist[toId] < |q|
    requires |p| > 0 && p[0] == fromId && p[|p| - 1] == toId
    requires PredecessorChain(pred, p)
    ensures IsPath(adj, p, fromId, toId)
    ensures forall q :: IsPath(adj, q, fromId, toId) ==> |p| <= |q|
  {
    forall i | 0 <= i < |p| - 1 ensures Edge(adj, p[i], p[i + 1]) {
      ChainLevels(adj, fromId, pred, dist, p, i + 1);
    }
    ChainLevels(adj, fromId, pred, dist, p, |p| - 1);
  }

  /** Both endpoints have a head that is not deleted. */
  predicate BothAlive(heads: seq<Topic>, fromId: TopicId, toId: TopicId) {
    !IsMissingOrDeleted(FindHead(heads, fromId)) && !IsMissingOrDeleted(FindHead(heads, toId))
  }

  /** An alive topic with a logged version is a vertex of the working graph. */
  lemma AliveTopicInGraph(versions: seq<TopicVersion>, heads: seq<Topic>, topicId: TopicId)
    requires !IsMissingOrDeleted(FindHead(heads, topicId)) && topicId in LatestByTopic(versions)
    ensures topicId in WorkingGraph(versions, heads)
  {
    var latest := LatestByTopic(versions);
    var lvs := AliveLatest(heads, latest);
    LatestByTopicIsMax(versions);
    AliveHeadInWorkingSet(heads, latest, topicId);
    AdjacencySpec(lvs);
    var i :| 0 <= i < |lvs| && lvs[i] == latest[topicId];
  }

  /** A result of the search is a shortest walk of `g` from `fromId` to `toId`, labelled with the latest names. */
  ghost predicate ShortestLabelled(g: Graph, latest: map<TopicId, TopicVersion>, fromId: TopicId, toId: TopicId,
                                   path: seq<PathNode>) {
    && IsPath(g, Ids(path), fromId, toId)
    && (forall q :: IsPath(g, q, fromId, toId) ==> |path| <= |q|)
    && forall i :: 0 <= i < |path| ==> path[i].topicId in latest && path[i].name == latest[path[i].topicId].name
  }

  /** Labelling a shortest walk whose topics all have a latest version gives a labelled shortest path. */
  lemma LabelledShortest(g: Graph, latest: map<TopicId, TopicVersion>, fromId: TopicId, toId: TopicId, ids: seq<TopicId>)
    requires IsPath(g, ids, fromId, toId) && forall q :: IsPath(g, q, fromId, toId) ==> |ids| <= |q|
    requires forall t :: t in latest ==> latest[t].topicId == t
    requires Label(ids, latest).Ok?
    ensures ShortestLabelled(g, latest, fromId, toId, Label(ids, latest).value)
  {
    assert Ids(Label(ids, latest).value) == ids;
  }

  /**
   * The search half of `execute` over a graph `adjacency` holding both endpoints: breadth-first
   * search, `Path not found` when the target is not discovered, then reconstruction and labelling.
   */
  method Search(adjacency: Graph, latestByTopic: map<TopicId, TopicVersion>, fromId: TopicId, toId: TopicId)
    returns (r: Result<seq<PathNode>>)
    requires fromId in adjacency
    requires forall t :: t in latestByTopic ==> latestByTopic[t].topicId == t
    requires forall a, b :: a in adjacency && b in adjacency[a] ==> b in adjacency
    ensures !Reachable(adjacency, fromId, toId) ==> r == Err(PathNotFound)
    ensures r.Ok? ==> ShortestLabelled(adjacency, latestByTopic, fromId, toId, r.value)
    ensures Reachable(adjacency, fromId, toId) && (forall a :: a in adjacency ==> a != "" && a in latestByTopic)
            ==> r.Ok?
    ensures Reachable(adjacency, fromId, toId) && (forall a :: a in adjacency ==> a != "")
            ==> r.Ok? || r == Err(TopicVersionNotFound)
    ensures r == Err(TopicVersionNotFound) ==>
              exists q :: && IsPath(adjacency, q, fromId, toId)
                          && (forall q' :: IsPath(adjacency, q', fromId, toId) ==> |q| <= |q'|)
                          && exists i :: 0 <= i < |q| && q[i] !in latestByTopic
    ensures r.Err? ==> r.error in {TopicVersionNotFound, PathNotFound}
  {
    var predecessor, dist := Bfs(adjacency, fromId, toId);
    if toId !in predecessor {
      return Err(PathNotFound);
    }
    assert forall v :: v in predecessor ==> v in adjacency by {
      forall v | v in predecessor ensures v in adjacency {
        if v != fromId {
          assert Edge(adjacency, predecessor[v].value, v);
        }
      }
    }
    if forall a :: a in adjacency ==> a != "" {
      assert forall v :: v in predecessor ==> v != "" && (predecessor[v].None? ==> v == fromId);
    }
    var idPath := ReconstructPath(fromId, toId, predecessor, dist);
    if idPath.Err? {
      return Err(idPath.error);
    }
    ChainIsShortest(adjacency, fromId, toId, predecessor, dist, idPath.value);
    r := Label(idPath.value, latestByTopic);
    if r.Ok? {
      LabelledShortest(adjacency, latestByTopic, fromId, toId, idPath.value);
    }
  }

  /**
   * `execute` for two different topics: look both up, build the working graph (lines 76-101), then
   * search it.
   */
  method FindPath(versions: seq<TopicVersion>, heads: seq<Topic>, fromId: TopicId, toId: TopicId)
    returns (r: Result<seq<PathNode>>)
    requires fromId != toId
    ensures !BothAlive(heads, fromId, toId) ==> r == Err(TopicNotFound)
    ensures BothAlive(heads, fromId, toId)
            && (fromId !in WorkingGraph(versions, heads) || toId !in WorkingGraph(versions, heads))
            ==> r == Err(TopicVersionNotFound)
    ensures fromId !in LatestByTopic(versions) || toId !in LatestByTopic(versions) ==> r.Err?
    ensures BothAlive(heads, fromId, toId) && fromId in LatestByTopic(versions) && toId in LatestByTopic(versions)
            && !Reachable(WorkingGraph(versions, heads), fromId, toId)
            ==> r == Err(PathNotFound)
    ensures r.Ok? ==> ShortestLabelled(WorkingGraph(versions, heads), LatestByTopic(versions), fromId, toId, r.value)
    ensures BothAlive(heads, fromId, toId) && fromId in LatestByTopic(versions) && toId in LatestByTopic(versions)
            && Reachable(WorkingGraph(versions, heads), fromId, toId)
            && (forall a :: a in WorkingGraph(versions, heads) ==> a != "" && a in LatestByTopic(versions))
            ==> r.Ok?
    ensures BothAlive(heads, fromId, toId) && fromId in LatestByTopic(versions) && toId in LatestByTopic(versions)
            && Reachable(WorkingGraph(versions, heads), fromId, toId)
            && (forall a :: a in WorkingGraph(versions, heads) ==> a != "")
            ==> r.Ok? || r == Err(TopicVersionNotFound)
    ensures r == Err(TopicVersionNotFound) ==>
              || fromId !in LatestByTopic(versions) || toId !in LatestByTopic(versions)
              || exists q :: && IsPath(WorkingGraph(versions, heads), q, fromId, toId)
                             && (forall q' :: IsPath(WorkingGraph(versions, heads), q', fromId, toId) ==> |q| <= |q'|)
                             && exists i :: 0 <= i < |q| && q[i] !in LatestByTopic(versions)
    ensures r.Err? ==> r.error in {TopicNotFound, TopicVersionNotFound, PathNotFound}
  {
    var fromHead := FindHead(heads, fromId);
    var toHead := FindHead(heads, toId);
    if IsMissingOrDeleted(fromHead) {
      return Err(TopicNotFound);
    }
    if IsMissingOrDeleted(toHead) {
      return Err(TopicNotFound);
    }
    var latestByTopic := ComputeLatestByTopic(versions);
    var latestVersions := AliveLatest(heads, latestByTopic);
    var adjacency := BuildAdjacency(latestVersions);
    ghost var g := adjacency;
    assert fromId in latestByTopic ==> fromId in adjacency by {
      if fromId in latestByTopic {
        AliveTopicInGraph(versions, heads, fromId);
      }
    }
    assert toId in latestByTopic ==> toId in adjacency by {
      if toId in latestByTopic {
        AliveTopicInGraph(versions, heads, toId);
      }
    }
    if fromId !in adjacency || toId !in adjacency {
      var fromV := if fromId in latestByTopic then Some(latestByTopic[fromId]) else None;
      var toV := if toId in latestByTopic then Some(latestByTopic[toId]) else None;
      if fromV.None? || toV.None? {
        return Err(TopicVersionNotFound);
      }
      if fromId !in adjacency {
        adjacency := adjacency[fromId := []];
      }
      if toId !in adjacency {
        adjacency := adjacency[toId := []];
      }
    }
    assert adjacency == g;
    assert forall a, b :: a in adjacency && b in adjacency[a] ==> b in adjacency by {
      AdjacencySpec(latestVersions);
    }
    assert forall t :: t in latestByTopic ==> latestByTopic[t].topicId == t by {
      LatestByTopicIsMax(versions);
    }
    r := Search(adjacency, latestByTopic, fromId, toId);
  }

  /**
   * `execute`. Missing or deleted endpoints fail with `Topic not found`; an endpoint without a version
   * fails with `Topic version not found`; an unreachable target fails with `Path not found`. A result
   * is a shortest walk of the working graph labelled with the latest names.
   */
  method Execute(versions: seq<TopicVersion>, heads: seq<Topic>, fromId: TopicId, toId: TopicId)
    returns (r: Result<seq<PathNode>>)
    ensures !BothAlive(heads, fromId, toId) ==> r == Err(TopicNotFound)
    ensures fromId == toId && BothAlive(heads, fromId, toId) ==>
              r == if fromId in LatestByTopic(versions) then Ok([PathNode(fromId, LatestByTopic(versions)[fromId].name)])
                   else Err(TopicVersionNotFound)
    ensures BothAlive(heads, fromId, toId)
            && (fromId !in WorkingGraph(versions, heads) || toId !in WorkingGraph(versions, heads))
            ==> r == Err(TopicVersionNotFound)
    ensures fromId !in LatestByTopic(versions) || toId !in LatestByTopic(versions) ==> r.Err?
    ensures BothAlive(heads, fromId, toId) && fromId in LatestByTopic(versions) && toId in LatestByTopic(versions)
            && !Reachable(WorkingGraph(versions, heads), fromId, toId)
            ==> r == Err(PathNotFound)
    ensures r.Ok? ==> ShortestLabelled(WorkingGraph(versions, heads), LatestByTopic(versions), fromId, toId, r.value)
    ensures BothAlive(heads, fromId, toId) && fromId in LatestByTopic(versions) && toId in LatestByTopic(versions)
            && Reachable(WorkingGraph(versions, heads), fromId, toId)
            && (forall a :: a in WorkingGraph(versions, heads) ==> a != "" && a in LatestByTopic(versions))
            ==> r.Ok?
    ensures BothAlive(heads, fromId, toId) && fromId in LatestByTopic(versions) && toId in LatestByTopic(versions)
            && Reachable(WorkingGraph(versions, heads), fromId, toId)
            && (forall a :: a in WorkingGraph(versions, heads) ==> a != "")
            ==> r.Ok? || r == Err(TopicVersionNotFound)
    ensures r == Err(TopicVersionNotFound) ==>
              || fromId !in LatestByTopic(versions) || toId !in LatestByTopic(versions)
              || exists q :: && IsPath(WorkingGraph(versions, heads), q, fromId, toId)
                             && (forall q' :: IsPath(WorkingGraph(versions, heads), q', fromId, toId) ==> |q| <= |q'|)
                             && exists i :: 0 <= i < |q| && q[i] !in LatestByTopic(versions)
    ensures r.Err? ==> r.error in {TopicNotFound, TopicVersionNotFound, PathNotFound}
  {
    if fromId == toId {
      var head := FindHead(heads, fromId);
      if IsMissingOrDeleted(head) {
        return Err(TopicNotFound);
      }
      var latestByTopic := ComputeLatestByTopic(versions);
      if fromId !in latestByTopic {
        return Err(TopicVersionNotFound);
      }
      var v := latestByTopic[fromId];
      LatestByTopicIsMax(versions);
      AliveTopicInGraph(versions, heads, fromId);
      r := Ok([PathNode(v.topicId, v.name)]);
      assert Ids(r.value) == [fromId];
      assert IsPath(WorkingGraph(versions, heads), [fromId], fromId, toId);
      return;
    }
    r := FindPath(versions, heads, fromId, toId);
  }
}
