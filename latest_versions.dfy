/**
 * `computeLatestByTopic` and the working set of the graph queries. Both the shortest-path and the
 * tree use case carry an identical copy of this reduction; it is modelled once here.
 */
module LatestVersions {
  import opened Common
  import opened Models
  import opened TopicStore

  /** The map the loop of `computeLatestByTopic` has built after reading `vs` from left to right. */
  function LatestByTopic(vs: seq<TopicVersion>): map<TopicId, TopicVersion>
    decreases |vs|
  {
    if |vs| == 0 then map[]
    else
      var latest := LatestByTopic(vs[..|vs| - 1]);
      var v := vs[|vs| - 1];
      if v.topicId !in latest || v.version > latest[v.topicId].version then latest[v.topicId := v] else latest
  }

  /** The keys of `LatestByTopic(vs)` are exactly the topic ids that occur in `vs`. */
  lemma {:induction false} LatestByTopicKeys(vs: seq<TopicVersion>)
    ensures forall t :: t in LatestByTopic(vs) <==> exists i :: 0 <= i < |vs| && vs[i].topicId == t
    decreases |vs|
  {
    if |vs| > 0 {
      var n := |vs| - 1;
      var pre := vs[..n];
      LatestByTopicKeys(pre);
      forall t ensures t in LatestByTopic(vs) <==> exists i :: 0 <= i < |vs| && vs[i].topicId == t {
        if t in LatestByTopic(pre) {
          var i :| 0 <= i < |pre| && pre[i].topicId == t;
          assert vs[i].topicId == t;
        } else if t != vs[n].topicId {
          forall i | 0 <= i < |vs| ensures vs[i].topicId != t {
            if i < n { assert vs[i] == pre[i]; }
          }
        }
      }
    }
  }

  /** Each value of `LatestByTopic(vs)` is an entry of `vs` for its own topic, with no higher version of that topic in `vs`. */
  lemma {:induction false} LatestByTopicIsMax(vs: seq<TopicVersion>)
    ensures forall t :: t in LatestByTopic(vs) ==>
              && LatestByTopic(vs)[t].topicId == t
              && LatestByTopic(vs)[t] in vs
              && forall j :: 0 <= j < |vs| && vs[j].topicId == t ==> vs[j].version <= LatestByTopic(vs)[t].version
    decreases |vs|
  {
    if |vs| > 0 {
      var n := |vs| - 1;
      var pre := vs[..n];
      LatestByTopicIsMax(pre);
      LatestByTopicKeys(pre);
      forall t | t in LatestByTopic(vs)
        ensures forall j :: 0 <= j < |vs| && vs[j].topicId == t ==> vs[j].version <= LatestByTopic(vs)[t].version
      {
        forall j | 0 <= j < |vs| && vs[j].topicId == t
          ensures vs[j].version <= LatestByTopic(vs)[t].version
        {
          if j < n {
            assert pre[j] == vs[j];
          }
        }
      }
    }
  }

  /**
   * When several entries of a topic share the highest version, `LatestByTopic` keeps the first of
   * them: its value for `t` sits at an index `i` with only lower versions of `t` before it.
   */
  lemma {:induction false} LatestByTopicKeepsFirst(vs: seq<TopicVersion>, t: TopicId) returns (i: nat)
    requires t in LatestByTopic(vs)
    ensures i < |vs| && vs[i] == LatestByTopic(vs)[t]
    ensures forall j :: 0 <= j < i && vs[j].topicId == t ==> vs[j].version < vs[i].version
    decreases |vs|
  {
    var n := |vs| - 1;
    var pre := vs[..n];
    var prev := LatestByTopic(pre);
    if t in prev && LatestByTopic(vs)[t] == prev[t] {
      i := LatestByTopicKeepsFirst(pre, t);
      assert vs[i] == pre[i];
      assert forall j :: 0 <= j < i ==> vs[j] == pre[j];
    } else {
      i := n;
      LatestByTopicIsMax(pre);
      LatestByTopicKeys(pre);
      forall j | 0 <= j < n && vs[j].topicId == t ensures vs[j].version < vs[n].version {
        assert pre[j] == vs[j];
      }
    }
  }

  /** `computeLatestByTopic`: one pass over the log, replacing an entry only by a strictly higher version. */
  method ComputeLatestByTopic(versions: seq<TopicVersion>) returns (latest: map<TopicId, TopicVersion>)
    ensures latest == LatestByTopic(versions)
  {
    latest := map[];
    for i := 0 to |versions|
      invariant latest == LatestByTopic(versions[..i])
    {
      var v := versions[i];
      assert versions[..i + 1][..i] == versions[..i];
      if v.topicId !in latest || v.version > latest[v.topicId].version {
        latest := latest[v.topicId := v];
      }
    }
    assert versions[..|versions|] == versions;
  }

  /**
   * `heads.filter(h => !h.deletedAt).map(h => latestByTopic.get(h.topicId)).filter(v => !!v)`:
   * the latest version of every alive head, in head order.
   */
  function AliveLatest(heads: seq<Topic>, latest: map<TopicId, TopicVersion>): (r: seq<TopicVersion>)
    ensures |r| <= |heads|
  {
    if |heads| == 0 then []
    else
      var h := heads[0];
      (if !IsDeleted(h) && h.topicId in latest then [latest[h.topicId]] else []) + AliveLatest(heads[1..], latest)
  }

  /** The working set holds the latest version of every alive head with a logged version, and nothing else. */
  lemma {:induction false} AliveLatestSpec(heads: seq<Topic>, latest: map<TopicId, TopicVersion>)
    ensures forall v :: v in AliveLatest(heads, latest) <==>
              exists i :: 0 <= i < |heads| && !IsDeleted(heads[i]) && heads[i].topicId in latest
                          && v == latest[heads[i].topicId]
    decreases |heads|
  {
    if |heads| > 0 {
      var tail := heads[1..];
      AliveLatestSpec(tail, latest);
      forall v ensures v in AliveLatest(heads, latest) <==>
                 exists i :: 0 <= i < |heads| && !IsDeleted(heads[i]) && heads[i].topicId in latest
                             && v == latest[heads[i].topicId]
      {
        if v in AliveLatest(tail, latest) {
          var i :| 0 <= i < |tail| && !IsDeleted(tail[i]) && tail[i].topicId in latest && v == latest[tail[i].topicId];
          assert heads[i + 1] == tail[i];
        }
        if exists i :: 0 <= i < |heads| && !IsDeleted(heads[i]) && heads[i].topicId in latest
                       && v == latest[heads[i].topicId] {
          var i :| 0 <= i < |heads| && !IsDeleted(heads[i]) && heads[i].topicId in latest
                   && v == latest[heads[i].topicId];
          if i > 0 {
            assert tail[i - 1] == heads[i];
          }
        }
      }
    }
  }

  /** The head `get` finds for an alive topic with a logged version puts that version in the working set. */
  lemma AliveHeadInWorkingSet(heads: seq<Topic>, latest: map<TopicId, TopicVersion>, topicId: TopicId)
    requires !IsMissingOrDeleted(FindHead(heads, topicId)) && topicId in latest
    ensures latest[topicId] in AliveLatest(heads, latest)
  {
    var i := FindHeadAt(heads, topicId);
    AliveLatestSpec(heads, latest);
  }
}
