/**
 * The undirected parent/child graph of `GetShortestPathUseCase`: `buildAdjacency`, the breadth-first
 * search of `execute` and `reconstructPath`. A `Set<string>` of neighbours is a duplicate-free
 * sequence in insertion order, which is the order JavaScript iterates a `Set` in.
 */
module PathGraph {
  import opened Common
  import opened Models
  import opened Arrays

  type Graph = map<TopicId, seq<TopicId>>

  /** `Set.prototype.add`: append unless already present. */
  function AddToSet(s: seq<TopicId>, x: TopicId): (r: seq<TopicId>)
    ensures forall y :: y in r <==> y in s || y == x
  {
    if x in s then s else s + [x]
  }

  /** The first loop of `buildAdjacency`: an empty neighbour set for every topic of the working set. */
  function AddVertices(lvs: seq<TopicVersion>): (adj: Graph)
    ensures forall i :: 0 <= i < |lvs| ==> lvs[i].topicId in adj
    ensures forall a :: a in adj ==> adj[a] == []
    decreases |lvs|
  {
    if |lvs| == 0 then map[]
    else
      var adj := AddVertices(lvs[..|lvs| - 1]);
      var v := lvs[|lvs| - 1];
      if v.topicId in adj then adj else adj[v.topicId := []]
  }

  /** One iteration of the second loop of `buildAdjacency`, for a version linked to `parentId`. */
  function Link(adj: Graph, child: TopicId, parentId: TopicId): (r: Graph)
    requires child in adj
    ensures r.Keys == adj.Keys + {parentId}
    ensures forall a, b :: a in r ==>
              (b in r[a] <==> (a in adj && b in adj[a]) || (a == child && b == parentId) || (a == parentId && b == child))
  {
    var a1 := if parentId in adj then adj else adj[parentId := []];
    var a2 := a1[child := AddToSet(a1[child], parentId)];
    a2[parentId := AddToSet(a2[parentId], child)]
  }

  /** The second loop of `buildAdjacency`, over the prefix `lvs`, starting from `start`. */
  function AddLinks(lvs: seq<TopicVersion>, start: Graph): (adj: Graph)
    requires forall i :: 0 <= i < |lvs| ==> lvs[i].topicId in start
    ensures start.Keys <= adj.Keys
    decreases |lvs|
  {
    if |lvs| == 0 then start
    else
      var adj := AddLinks(lvs[..|lvs| - 1], start);
      var v := lvs[|lvs| - 1];
      match LinkedParent(v)
      case None => adj
      case Some(parentId) => Link(adj, v.topicId, parentId)
  }

  /** The graph `buildAdjacency` returns for the working set `lvs`. */
  function Adjacency(lvs: seq<TopicVersion>): Graph {
    AddLinks(lvs, AddVertices(lvs))
  }

  /** Some version of `lvs` for topic `a` is linked to parent `b`. */
  ghost predicate Linked(lvs: seq<TopicVersion>, a: TopicId, b: TopicId) {
    exists i :: 0 <= i < |lvs| && lvs[i].topicId == a && LinkedParent(lvs[i]) == Some(b)
  }

  /** Some version of `lvs` is linked to parent `a`. */
  ghost predicate IsParent(lvs: seq<TopicVersion>, a: TopicId) {
    exists i :: 0 <= i < |lvs| && LinkedParent(lvs[i]) == Some(a)
  }

  lemma IsParentSnoc(lvs: seq<TopicVersion>)
    requires |lvs| > 0
    ensures forall a :: IsParent(lvs, a) <==> IsParent(lvs[..|lvs| - 1], a) || LinkedParent(lvs[|lvs| - 1]) == Some(a)
  {
    var n := |lvs| - 1;
    forall a | IsParent(lvs, a) ensures IsParent(lvs[..n], a) || LinkedParent(lvs[n]) == Some(a) {
      var i :| 0 <= i < |lvs| && LinkedParent(lvs[i]) == Some(a);
      if i < n { assert lvs[..n][i] == lvs[i]; }
    }
    forall a | IsParent(lvs[..n], a) ensures IsParent(lvs, a) {
      var i :| 0 <= i < n && LinkedParent(lvs[..n][i]) == Some(a);
      assert lvs[..n][i] == lvs[i];
    }
  }

  lemma LinkedSnoc(lvs: seq<TopicVersion>)
    requires |lvs| > 0
    ensures forall a, b :: Linked(lvs, a, b) <==>
              Linked(lvs[..|lvs| - 1], a, b) || (lvs[|lvs| - 1].topicId == a && LinkedParent(lvs[|lvs| - 1]) == Some(b))
  {
    var n := |lvs| - 1;
    forall a, b | Linked(lvs, a, b) ensures Linked(lvs[..n], a, b) || (lvs[n].topicId == a && LinkedParent(lvs[n]) == Some(b)) {
      var i :| 0 <= i < |lvs| && lvs[i].topicId == a && LinkedParent(lvs[i]) == Some(b);
      if i < n { assert lvs[..n][i] == lvs[i]; }
    }
    forall a, b | Linked(lvs[..n], a, b) ensures Linked(lvs, a, b) {
      var i :| 0 <= i < n && lvs[..n][i].topicId == a && LinkedParent(lvs[..n][i]) == Some(b);
      assert lvs[..n][i] == lvs[i];
    }
  }

  /** After the second loop, the keys are the start keys and the parents, and `b` neighbours `a` exactly when one is the other's parent. */
  lemma {:induction false} AddLinksSpec(lvs: seq<TopicVersion>, start: Graph)
    requires forall i :: 0 <= i < |lvs| ==> lvs[i].topicId in start
    requires forall a :: a in start ==> start[a] == []
    ensures forall a :: a in AddLinks(lvs, start) <==> a in start || IsParent(lvs, a)
    ensures forall a, b :: a in AddLinks(lvs, start) ==>
              (b in AddLinks(lvs, start)[a] <==> Linked(lvs, a, b) || Linked(lvs, b, a))
    decreases |lvs|
  {
    if |lvs| > 0 {
      AddLinksSpec(lvs[..|lvs| - 1], start);
      IsParentSnoc(lvs);
      LinkedSnoc(lvs);
    }
  }

  /**
   * The graph of the working set: its keys are the topics of `lvs` and the parents they name, `b`
   * neighbours `a` exactly when one is the other's parent, and so every edge goes both ways.
   */
  lemma AdjacencySpec(lvs: seq<TopicVersion>)
    ensures forall a :: a in Adjacency(lvs) <==> (exists i :: 0 <= i < |lvs| && lvs[i].topicId == a) || IsParent(lvs, a)
    ensures forall a, b :: a in Adjacency(lvs) ==> (b in Adjacency(lvs)[a] <==> Linked(lvs, a, b) || Linked(lvs, b, a))
    ensures forall a, b :: a in Adjacency(lvs) && b in Adjacency(lvs)[a] ==> b in Adjacency(lvs) && a in Adjacency(lvs)[b]
  {
    AddLinksSpec(lvs, AddVertices(lvs));
    AddVerticesKeys(lvs);
  }

  /** The keys of the first loop are exactly the topics of `lvs`. */
  lemma {:induction false} AddVerticesKeys(lvs: seq<TopicVersion>)
    ensures forall a :: a in AddVertices(lvs) ==> exists i :: 0 <= i < |lvs| && lvs[i].topicId == a
    decreases |lvs|
  {
    if |lvs| > 0 {
      var n := |lvs| - 1;
      AddVerticesKeys(lvs[..n]);
      forall a | a in AddVertices(lvs) ensures exists i :: 0 <= i < |lvs| && lvs[i].topicId == a {
        if a != lvs[n].topicId {
          assert a in AddVertices(lvs[..n]);
          var i :| 0 <= i < n && lvs[..n][i].topicId == a;
          assert lvs[..n][i] == lvs[i];
        }
      }
    }
  }

  /** `buildAdjacency`: the two loops over the working set. */
  method BuildAdjacency(latestVersions: seq<TopicVersion>) returns (adjacency: Graph)
    ensures adjacency == Adjacency(latestVersions)
  {
    adjacency := map[];
    for i := 0 to |latestVersions|
      invariant adjacency == AddVertices(latestVersions[..i])
    {
      assert latestVersions[..i + 1][..i] == latestVersions[..i];
      var v := latestVersions[i];
      if v.topicId !in adjacency {
        adjacency := adjacency[v.topicId := []];
      }
    }
    assert latestVersions[..|latestVersions|] == latestVersions;
    ghost var start := adjacency;
    for i := 0 to |latestVersions|
      invariant adjacency == AddLinks(latestVersions[..i], start)
    {
      assert latestVersions[..i + 1][..i] == latestVersions[..i];
      var v := latestVersions[i];
      var parentId := v.parentTopicId;
      ghost var before := adjacency;
      if parentId.ParentTopic? && parentId.id != "" {
        var p := parentId.id;
        assert LinkedParent(v) == Some(p);
        if p !in adjacency {
          adjacency := adjacency[p := []];
        }
        adjacency := adjacency[v.topicId := AddToSet(adjacency[v.topicId], p)];
        adjacency := adjacency[p := AddToSet(adjacency[p], v.topicId)];
        assert adjacency == Link(before, v.topicId, p);
      } else {
        assert LinkedParent(v) == None;
      }
    }
    assert latestVersions[..|latestVersions|] == latestVersions;
  }

  /** `b` is one of `a`'s neighbours. */
  predicate Edge(adj: Graph, a: TopicId, b: TopicId) {
    a in adj && b in adj[a]
  }

  /** `p` is a walk from `a` to `b` in `adj`. */
  predicate IsPath(adj: Graph, p: seq<TopicId>, a: TopicId, b: TopicId) {
    |p| > 0 && p[0] == a && p[|p| - 1] == b && forall i :: 0 <= i < |p| - 1 ==> Edge(adj, p[i], p[i + 1])
  }

  ghost predicate Reachable(adj: Graph, a: TopicId, b: TopicId) {
    exists p :: IsPath(adj, p, a, b)
  }

  /** Every topic the graph mentions, as a key or as a neighbour. */
  function Vertices(adj: Graph): set<TopicId> {
    adj.Keys + set a, i | a in adj && 0 <= i < |adj[a]| :: adj[a][i]
  }

  /** `pred` is a breadth-first tree rooted at `source` whose every edge is a graph edge one level down. */
  ghost predicate PredecessorTree(adj: Graph, source: TopicId, pred: map<TopicId, Option<TopicId>>, dist: map<TopicId, nat>) {
    && source in pred && pred[source] == None && pred.Keys == dist.Keys && dist[source] == 0
    && forall v {:trigger pred[v]} :: v in pred && v != source ==>
         pred[v].Some? && pred[v].value in pred && Edge(adj, pred[v].value, v) && dist[v] == dist[pred[v].value] + 1
  }

  /** An edge out of an expanded topic reaches a discovered topic at most one level further down. */
  ghost predicate EdgesBounded(adj: Graph, done: set<TopicId>, dist: map<TopicId, nat>) {
    forall a, i :: a in done && a in adj && 0 <= i < |adj[a]| ==>
      a in dist && adj[a][i] in dist && dist[adj[a][i]] <= dist[a] + 1
  }

  /** The queue lists discovered topics in increasing distance, spanning at most two levels. */
  ghost predicate Levelled(queue: seq<TopicId>, dist: map<TopicId, nat>) {
    && (forall i :: 0 <= i < |queue| ==> queue[i] in dist)
    && (forall i, j :: 0 <= i <= j < |queue| ==> dist[queue[i]] <= dist[queue[j]])
    && (forall i :: 0 <= i < |queue| ==> dist[queue[i]] <= dist[queue[0]] + 1)
  }

  /** Along a walk from the source whose first `k` topics are expanded, the `k`-th topic is discovered within `k` levels. */
  lemma {:induction false} ExpandedPrefix(adj: Graph, source: TopicId, done: set<TopicId>, dist: map<TopicId, nat>,
                                          p: seq<TopicId>, x: TopicId, k: nat)
    requires source in dist && dist[source] == 0 && EdgesBounded(adj, done, dist)
    requires IsPath(adj, p, source, x) && k < |p|
    requires forall j :: 0 <= j < k ==> p[j] in done
    ensures p[k] in dist && dist[p[k]] <= k
    decreases k
  {
    if k > 0 {
      ExpandedPrefix(adj, source, done, dist, p, x, k - 1);
      assert Edge(adj, p[k - 1], p[k]);
      var i :| 0 <= i < |adj[p[k - 1]]| && adj[p[k - 1]][i] == p[k];
    }
  }

  /**
   * When the search stops, with `x` at the front of the queue or the queue empty, every walk from the
   * source to `x` is at least one topic longer than `x`'s level.
   */
  lemma StopBound(adj: Graph, source: TopicId, done: set<TopicId>, queue: seq<TopicId>, dist: map<TopicId, nat>,
                  p: seq<TopicId>, x: TopicId)
    requires source in dist && dist[source] == 0 && EdgesBounded(adj, done, dist)
    requires forall v :: v in dist ==> v in done || v in queue
    requires Levelled(queue, dist)
    requires |queue| == 0 || queue[0] == x
    requires IsPath(adj, p, source, x)
    ensures x in dist && dist[x] < |p|
  {
    var k := FindIndex(p, NotIn(done));
    if k >= 0 {
      ExpandedPrefix(adj, source, done, dist, p, x, k);
      var i :| 0 <= i < |queue| && queue[i] == p[k];
    } else {
      ExpandedPrefix(adj, source, done, dist, p, x, |p| - 1);
    }
  }

  /** Membership test for `FindIndex`: the topic is not in `s`. */
  function NotIn(s: set<TopicId>): TopicId -> bool {
    x => x !in s
  }

  /** A finite set holding the source and every neighbour: it bounds the search. */
  lemma Universe(adj: Graph, source: TopicId) returns (u: set<TopicId>)
    ensures source in u
    ensures forall a, i :: a in adj && 0 <= i < |adj[a]| ==> adj[a][i] in u
  {
    u := Vertices(adj) + {source};
  }

  /** The state at the head of the search loop. */
  ghost predicate Searching(adj: Graph, fromId: TopicId, universe: set<TopicId>, done: set<TopicId>, queue: seq<TopicId>,
                            visited: set<TopicId>, pred: map<TopicId, Option<TopicId>>, dist: map<TopicId, nat>) {
    && PredecessorTree(adj, fromId, pred, dist)
    && visited == pred.Keys && visited <= universe
    && done <= visited
    && (forall v :: v in visited ==> v in done || v in queue)
    && EdgesBounded(adj, done, dist)
    && Levelled(queue, dist)
    && (|queue| > 0 ==> forall a :: a in done ==> dist[a] <= dist[queue[0]])
  }

  /** The state while the neighbours of `current`, one level `level` topic, are being visited; the first `j` are done. */
  ghost predicate Visiting(adj: Graph, fromId: TopicId, universe: set<TopicId>, done: set<TopicId>, current: TopicId,
                           level: nat, j: nat, queue: seq<TopicId>, visited: set<TopicId>,
                           pred: map<TopicId, Option<TopicId>>, dist: map<TopicId, nat>) {
    && PredecessorTree(adj, fromId, pred, dist)
    && visited == pred.Keys && visited <= universe
    && done <= visited
    && (forall v :: v in visited ==> v in done || v == current || v in queue)
    && EdgesBounded(adj, done, dist)
    && current in dist && dist[current] == level
    && (forall a :: a in done ==> dist[a] <= level)
    && (forall i :: 0 <= i < |queue| ==> queue[i] in dist && level <= dist[queue[i]] <= level + 1)
    && (forall i, k :: 0 <= i <= k < |queue| ==> dist[queue[i]] <= dist[queue[k]])
    && (current in adj ==> j <= |adj[current]| && forall i :: 0 <= i < j ==> adj[current][i] in dist && dist[adj[current][i]] <= level + 1)
  }

  /** Taking the front of the queue starts a visit of its neighbours. */
  lemma StartVisit(adj: Graph, fromId: TopicId, universe: set<TopicId>, done: set<TopicId>, queue: seq<TopicId>,
                   visited: set<TopicId>, pred: map<TopicId, Option<TopicId>>, dist: map<TopicId, nat>)
    requires |queue| > 0 && Searching(adj, fromId, universe, done, queue, visited, pred, dist)
    ensures Visiting(adj, fromId, universe, done, queue[0], dist[queue[0]], 0, queue[1..], visited, pred, dist)
  {
    forall v | v in visited ensures v in done || v == queue[0] || v in queue[1..] {
      if v in queue && v != queue[0] {
        var i :| 0 <= i < |queue| && queue[i] == v;
        assert queue[1..][i - 1] == v;
      }
    }
  }

  /** Visiting a neighbour that is already discovered changes nothing. */
  lemma VisitKnown(adj: Graph, fromId: TopicId, universe: set<TopicId>, done: set<TopicId>, current: TopicId,
                   level: nat, j: nat, queue: seq<TopicId>, visited: set<TopicId>,
                   pred: map<TopicId, Option<TopicId>>, dist: map<TopicId, nat>)
    requires Visiting(adj, fromId, universe, done, current, level, j, queue, visited, pred, dist)
    requires current in adj && j < |adj[current]| && adj[current][j] in visited
    ensures Visiting(adj, fromId, universe, done, current, level, j + 1, queue, visited, pred, dist)
  {
    var n := adj[current][j];
    if n in queue {
      var k :| 0 <= k < |queue| && queue[k] == n;
    }
  }

  /** Visiting an undiscovered neighbour discovers it one level below `current` and queues it. */
  lemma VisitNew(adj: Graph, fromId: TopicId, universe: set<TopicId>, done: set<TopicId>, current: TopicId,
                 level: nat, j: nat, queue: seq<TopicId>, visited: set<TopicId>,
                 pred: map<TopicId, Option<TopicId>>, dist: map<TopicId, nat>)
    requires Visiting(adj, fromId, universe, done, current, level, j, queue, visited, pred, dist)
    requires current in adj && j < |adj[current]| && adj[current][j] !in visited && adj[current][j] in universe
    ensures var n := adj[current][j];
            Visiting(adj, fromId, universe, done, current, level, j + 1, queue + [n], visited + {n},
                     pred[n := Some(current)], dist[n := level + 1])
  {
  }

  /** Once every neighbour of `current` is visited, `current` counts as expanded. */
  lemma FinishVisit(adj: Graph, fromId: TopicId, universe: set<TopicId>, done: set<TopicId>, current: TopicId,
                    level: nat, queue: seq<TopicId>, visited: set<TopicId>,
                    pred: map<TopicId, Option<TopicId>>, dist: map<TopicId, nat>)
    requires Visiting(adj, fromId, universe, done, current, level, if current in adj then |adj[current]| else 0,
                      queue, visited, pred, dist)
    ensures Searching(adj, fromId, universe, done + {current}, queue, visited, pred, dist)
  {
  }

  /** The inner `for` loop of `execute` over the neighbours of `current`. */
  method VisitNeighbors(adj: Graph, ghost fromId: TopicId, ghost universe: set<TopicId>, ghost done: set<TopicId>,
                        current: TopicId, ghost level: nat, queue0: seq<TopicId>, visited0: set<TopicId>,
                        predecessor0: map<TopicId, Option<TopicId>>, ghost dist0: map<TopicId, nat>)
    returns (queue: seq<TopicId>, visited: set<TopicId>, predecessor: map<TopicId, Option<TopicId>>,
             ghost dist: map<TopicId, nat>)
    requires Visiting(adj, fromId, universe, done, current, level, 0, queue0, visited0, predecessor0, dist0)
    requires forall a, i :: a in adj && 0 <= i < |adj[a]| ==> adj[a][i] in universe
    ensures Visiting(adj, fromId, universe, done, current, level, if current in adj then |adj[current]| else 0,
                     queue, visited, predecessor, dist)
    ensures visited0 <= visited && (visited == visited0 ==> queue == queue0)
  {
    queue, visited, predecessor, dist := queue0, visited0, predecessor0, dist0;
    if current in adj {
      var neighbors := adj[current];
      for j := 0 to |neighbors|
        invariant Visiting(adj, fromId, universe, done, current, level, j, queue, visited, predecessor, dist)
        invariant visited0 <= visited && (visited == visited0 ==> queue == queue0)
      {
        var neighbor := neighbors[j];
        if neighbor in visited {
          VisitKnown(adj, fromId, universe, done, current, level, j, queue, visited, predecessor, dist);
        } else {
          VisitNew(adj, fromId, universe, done, current, level, j, queue, visited, predecessor, dist);
          visited := visited + {neighbor};
          predecessor := predecessor[neighbor := Some(current)];
          dist := dist[neighbor := level + 1];
          queue := queue + [neighbor];
        }
      }
    }
  }

  /**
   * The search loop of `execute`: a breadth-first search from `fromId` that stops when `toId` reaches
   * the front of the queue. `dist` records each discovered topic's level; it is not part of the program.
   */
  method Bfs(adj: Graph, fromId: TopicId, toId: TopicId)
    returns (predecessor: map<TopicId, Option<TopicId>>, ghost dist: map<TopicId, nat>)
    ensures PredecessorTree(adj, fromId, predecessor, dist)
    ensures toId in dist ==> forall p :: IsPath(adj, p, fromId, toId) ==> dist[toId] < |p|
    ensures toId !in predecessor ==> !Reachable(adj, fromId, toId)
  {
    ghost var universe := Universe(adj, fromId);
    var queue := [fromId];
    var visited := {fromId};
    predecessor := map[fromId := None];
    dist := map[fromId := 0];
    ghost var done: set<TopicId> := {};
    while |queue| > 0
      invariant Searching(adj, fromId, universe, done, queue, visited, predecessor, dist)
      decreases universe - visited, |queue|
    {
      var current := queue[0];
      if current == toId {
        break;
      }
      StartVisit(adj, fromId, universe, done, queue, visited, predecessor, dist);
      queue := queue[1..];
      ghost var level := dist[current];
      ghost var visited0 := visited;
      queue, visited, predecessor, dist := VisitNeighbors(adj, fromId, universe, done, current, level, queue, visited, predecessor, dist);
      FinishVisit(adj, fromId, universe, done, current, level, queue, visited, predecessor, dist);
      done := done + {current};
      assert visited == visited0 || universe - visited < universe - visited0;
    }
    if toId in dist {
      forall p | IsPath(adj, p, fromId, toId) ensures dist[toId] < |p| {
        StopBound(adj, fromId, done, queue, dist, p, toId);
      }
    }
    if toId !in predecessor {
      forall p | IsPath(adj, p, fromId, toId) ensures false {
        StopBound(adj, fromId, done, queue, dist, p, toId);
      }
    }
  }
}
