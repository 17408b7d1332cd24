/**
 * The invariant the three write use cases keep between the version log and the head index: one
 * head per topic; each head's latest version is logged, and is a tombstone exactly when the head is
 * marked deleted; the versions of a topic are exactly 1, 2, ..., its head's `latestVersion`, each
 * logged once.
 */
module TopicLog {
  import opened Common
  import opened Models
  import opened TopicStore

  /** The outcome of one write use case: what it returns and the two logs after it. */
  datatype Written<+T> = Written(result: Result<T>, versions: seq<TopicVersion>, topics: seq<Topic>)

  /** No two log entries share a topic and a version number. */
  ghost predicate UniqueVersions(vs: seq<TopicVersion>) {
    forall i, j :: 0 <= i < j < |vs| ==> vs[i].topicId != vs[j].topicId || vs[i].version != vs[j].version
  }

  /** Version numbers start at 1. */
  ghost predicate NumberedFromOne(vs: seq<TopicVersion>) {
    forall i :: 0 <= i < |vs| ==> vs[i].version >= 1
  }

  /** Every number from 1 up to a head's latest version is logged for that head's topic. */
  ghost predicate Gapless(vs: seq<TopicVersion>, hs: seq<Topic>) {
    forall i, n :: 0 <= i < |hs| && 1 <= n <= hs[i].latestVersion ==> FindVersion(vs, hs[i].topicId, n).Some?
  }

  ghost predicate Consistent(vs: seq<TopicVersion>, hs: seq<Topic>) {
    && UniqueTopicIds(hs)
    && (forall i :: 0 <= i < |hs| ==>
          && FindVersion(vs, hs[i].topicId, hs[i].latestVersion).Some?
          && (hs[i].deletedAt.Some? <==> FindVersion(vs, hs[i].topicId, hs[i].latestVersion).value.action == Delete))
    && (forall i :: 0 <= i < |vs| ==>
          FindHead(hs, vs[i].topicId).Some? && vs[i].version <= FindHead(hs, vs[i].topicId).value.latestVersion)
    && UniqueVersions(vs)
    && NumberedFromOne(vs)
    && Gapless(vs, hs)
  }

  /** The version number a write for `topicId` appends: one past the head, or 1 for a new topic. */
  function NextVersion(hs: seq<Topic>, topicId: TopicId): int {
    match FindHead(hs, topicId)
    case None => 1
    case Some(h) => h.latestVersion + 1
  }

  /** In a consistent store the next version number of a topic is not yet logged. */
  lemma NextVersionIsFresh(vs: seq<TopicVersion>, hs: seq<Topic>, topicId: TopicId)
    requires Consistent(vs, hs)
    ensures FindVersion(vs, topicId, NextVersion(hs, topicId)) == None
  {
    var n := NextVersion(hs, topicId);
    forall i | 0 <= i < |vs| ensures !(vs[i].topicId == topicId && vs[i].version == n) {
      assert FindHead(hs, vs[i].topicId).Some?;
    }
  }

  /** In a consistent store every head's latest version is logged. */
  lemma HeadIsLogged(vs: seq<TopicVersion>, hs: seq<Topic>, topicId: TopicId)
    requires Consistent(vs, hs) && FindHead(hs, topicId).Some?
    ensures FindVersion(vs, topicId, FindHead(hs, topicId).value.latestVersion).Some?
  {
    var j := FindHeadAt(hs, topicId);
  }

  /** A head of the old index, or the new head, names a logged version after the write, a tombstone exactly when it is marked deleted. */
  lemma HeadStaysLogged(vs: seq<TopicVersion>, hs: seq<Topic>, v: TopicVersion, deletedAt: Option<int>, h: Topic)
    requires Consistent(vs, hs)
    requires v.version == NextVersion(hs, v.topicId)
    requires deletedAt.Some? <==> v.action == Delete
    requires h == Topic(v.topicId, v.version, deletedAt) || h in hs
    ensures FindVersion(vs + [v], h.topicId, h.latestVersion).Some?
    ensures h.deletedAt.Some? <==> FindVersion(vs + [v], h.topicId, h.latestVersion).value.action == Delete
  {
    FindVersionAppend(vs, v, h.topicId, h.latestVersion);
    if h == Topic(v.topicId, v.version, deletedAt) {
      NextVersionIsFresh(vs, hs, v.topicId);
    } else {
      var j :| 0 <= j < |hs| && hs[j] == h;
    }
  }

  /** After the write, every head still names a logged version, a tombstone exactly when it is marked deleted. */
  lemma AdvanceKeepsHeadsLogged(vs: seq<TopicVersion>, hs: seq<Topic>, v: TopicVersion, deletedAt: Option<int>)
    requires Consistent(vs, hs)
    requires v.version == NextVersion(hs, v.topicId)
    requires deletedAt.Some? <==> v.action == Delete
    ensures var hs' := UpsertHead(hs, Topic(v.topicId, v.version, deletedAt));
            forall i :: 0 <= i < |hs'| ==>
              && FindVersion(vs + [v], hs'[i].topicId, hs'[i].latestVersion).Some?
              && (hs'[i].deletedAt.Some? <==> FindVersion(vs + [v], hs'[i].topicId, hs'[i].latestVersion).value.action == Delete)
  {
    var head := Topic(v.topicId, v.version, deletedAt);
    var hs' := UpsertHead(hs, head);
    UpsertHeadKeepsOthers(hs, head);
    UpsertHeadSpec(hs, head, v.topicId);
    forall i | 0 <= i < |hs'|
      ensures FindVersion(vs + [v], hs'[i].topicId, hs'[i].latestVersion).Some?
      ensures hs'[i].deletedAt.Some? <==> FindVersion(vs + [v], hs'[i].topicId, hs'[i].latestVersion).value.action == Delete
    {
      if hs'[i] != head {
        assert i < |hs| && hs'[i] == hs[i];
      }
      HeadStaysLogged(vs, hs, v, deletedAt, hs'[i]);
    }
  }

  /** After the write, every logged version still has a head at or beyond it. */
  lemma AdvanceKeepsVersionsBounded(vs: seq<TopicVersion>, hs: seq<Topic>, v: TopicVersion, deletedAt: Option<int>)
    requires Consistent(vs, hs)
    requires v.version == NextVersion(hs, v.topicId)
    ensures var hs' := UpsertHead(hs, Topic(v.topicId, v.version, deletedAt));
            forall i :: 0 <= i < |vs| + 1 ==>
              FindHead(hs', (vs + [v])[i].topicId).Some?
              && (vs + [v])[i].version <= FindHead(hs', (vs + [v])[i].topicId).value.latestVersion
  {
    var head := Topic(v.topicId, v.version, deletedAt);
    var hs' := UpsertHead(hs, head);
    forall i | 0 <= i < |vs| + 1
      ensures FindHead(hs', (vs + [v])[i].topicId).Some?
      ensures (vs + [v])[i].version <= FindHead(hs', (vs + [v])[i].topicId).value.latestVersion
    {
      var w := (vs + [v])[i];
      UpsertHeadSpec(hs, head, w.topicId);
      if i < |vs| {
        assert w == vs[i];
        assert FindHead(hs, w.topicId).Some?;
      }
    }
  }

  /** In a consistent store a write appends a version number of at least 1. */
  lemma NextVersionIsPositive(vs: seq<TopicVersion>, hs: seq<Topic>, topicId: TopicId)
    requires Consistent(vs, hs)
    ensures NextVersion(hs, topicId) >= 1
  {
    if FindHead(hs, topicId).Some? {
      HeadIsLogged(vs, hs, topicId);
      var i := FindVersionAt(vs, topicId, FindHead(hs, topicId).value.latestVersion);
    }
  }

  /** After the write, no topic and version number is logged twice. */
  lemma AdvanceKeepsVersionsUnique(vs: seq<TopicVersion>, hs: seq<Topic>, v: TopicVersion)
    requires Consistent(vs, hs)
    requires v.version == NextVersion(hs, v.topicId)
    ensures UniqueVersions(vs + [v])
  {
    NextVersionIsFresh(vs, hs, v.topicId);
    forall i, j | 0 <= i < j < |vs| + 1
      ensures (vs + [v])[i].topicId != (vs + [v])[j].topicId || (vs + [v])[i].version != (vs + [v])[j].version
    {
      if j == |vs| {
        assert (vs + [v])[i] == vs[i] && (vs + [v])[j] == v;
      }
    }
  }

  /** After the write, every head's versions 1 .. latestVersion are still logged. */
  lemma AdvanceKeepsGapless(vs: seq<TopicVersion>, hs: seq<Topic>, v: TopicVersion, deletedAt: Option<int>)
    requires Consistent(vs, hs)
    requires v.version == NextVersion(hs, v.topicId)
    ensures Gapless(vs + [v], UpsertHead(hs, Topic(v.topicId, v.version, deletedAt)))
  {
    var head := Topic(v.topicId, v.version, deletedAt);
    var hs' := UpsertHead(hs, head);
    UpsertHeadKeepsOthers(hs, head);
    UpsertHeadSpec(hs, head, v.topicId);
    forall i, n | 0 <= i < |hs'| && 1 <= n <= hs'[i].latestVersion
      ensures FindVersion(vs + [v], hs'[i].topicId, n).Some?
    {
      FindVersionAppend(vs, v, hs'[i].topicId, n);
      if hs'[i] != head {
        assert i < |hs| && hs'[i] == hs[i];
      } else if n < v.version {
        var j := FindHeadAt(hs, v.topicId);
        assert FindVersion(vs, hs[j].topicId, n).Some?;
      }
    }
  }

  /**
   * Appending the next version of a topic and upserting its head to that version keeps the store
   * consistent, provided the head is marked deleted exactly when the new version is a tombstone.
   */
  lemma AppendAndAdvance(vs: seq<TopicVersion>, hs: seq<Topic>, v: TopicVersion, deletedAt: Option<int>)
    requires Consistent(vs, hs)
    requires v.version == NextVersion(hs, v.topicId)
    requires deletedAt.Some? <==> v.action == Delete
    ensures Consistent(vs + [v], UpsertHead(hs, Topic(v.topicId, v.version, deletedAt)))
  {
    UpsertHeadKeepsUnique(hs, Topic(v.topicId, v.version, deletedAt));
    AdvanceKeepsHeadsLogged(vs, hs, v, deletedAt);
    AdvanceKeepsVersionsBounded(vs, hs, v, deletedAt);
    AdvanceKeepsVersionsUnique(vs, hs, v);
    NextVersionIsPositive(vs, hs, v.topicId);
    AdvanceKeepsGapless(vs, hs, v, deletedAt);
  }

  /** After such a write, a lookup of the topic's head and latest version gives back the written version. */
  lemma ReadAfterWrite(vs: seq<TopicVersion>, hs: seq<Topic>, v: TopicVersion, deletedAt: Option<int>)
    requires Consistent(vs, hs)
    requires v.version == NextVersion(hs, v.topicId)
    ensures var hs' := UpsertHead(hs, Topic(v.topicId, v.version, deletedAt));
            && FindHead(hs', v.topicId) == Some(Topic(v.topicId, v.version, deletedAt))
            && FindVersion(vs + [v], v.topicId, v.version) == Some(v)
  {
    NextVersionIsFresh(vs, hs, v.topicId);
    FindVersionAppend(vs, v, v.topicId, v.version);
    UpsertHeadSpec(hs, Topic(v.topicId, v.version, deletedAt), v.topicId);
  }

  /**
   * In a consistent store the logged versions of a topic are exactly 1, 2, ..., its head's
   * `latestVersion`; a topic without a head has none.
   */
  lemma ConsistentHistory(vs: seq<TopicVersion>, hs: seq<Topic>, topicId: TopicId, n: int)
    requires Consistent(vs, hs)
    ensures FindVersion(vs, topicId, n).Some? <==>
              FindHead(hs, topicId).Some? && 1 <= n <= FindHead(hs, topicId).value.latestVersion
  {
    if FindVersion(vs, topicId, n).Some? {
      var i := FindVersionAt(vs, topicId, n);
    }
    if FindHead(hs, topicId).Some? && 1 <= n <= FindHead(hs, topicId).value.latestVersion {
      var j := FindHeadAt(hs, topicId);
    }
  }
}
