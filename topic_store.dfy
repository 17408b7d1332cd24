/**
 * The file-backed version log and head index. Each JSON file is modelled by the in-memory
 * sequence it holds; reading and writing the file is left out.
 */
module TopicStore {
  import opened Common
  import opened Models
  import opened Arrays

  /** The `find` predicate of `getByTopicAndVersion`. */
  function MatchesVersion(topicId: TopicId, version: int): TopicVersion -> bool {
    (v: TopicVersion) => v.topicId == topicId && v.version == version
  }

  /** The `find`/`findIndex` predicate of the head index. */
  function HasTopicId(topicId: TopicId): Topic -> bool {
    (h: Topic) => h.topicId == topicId
  }

  /** `versions.find(v => v.topicId === topicId && v.version === version)`. */
  function FindVersion(vs: seq<TopicVersion>, topicId: TopicId, version: int): (r: Option<TopicVersion>)
    ensures r.Some? ==> exists i :: 0 <= i < |vs| && vs[i] == r.value
                           && r.value.topicId == topicId && r.value.version == version
                           && forall j :: 0 <= j < i ==> !(vs[j].topicId == topicId && vs[j].version == version)
    ensures r.None? <==> forall i :: 0 <= i < |vs| ==> !(vs[i].topicId == topicId && vs[i].version == version)
  {
    var i := FindIndex(vs, MatchesVersion(topicId, version));
    if i >= 0 then Some(vs[i]) else None
  }

  /** `topics.find(t => t.topicId === topicId)`. */
  function FindHead(hs: seq<Topic>, topicId: TopicId): (r: Option<Topic>)
    ensures r.Some? ==> r.value.topicId == topicId
    ensures r.None? <==> forall i :: 0 <= i < |hs| ==> hs[i].topicId != topicId
  {
    var i := FindIndex(hs, HasTopicId(topicId));
    if i >= 0 then Some(hs[i]) else None
  }

  /** A found version is the first entry of the log with that topic and version number. */
  lemma FindVersionAt(vs: seq<TopicVersion>, topicId: TopicId, version: int) returns (i: nat)
    requires FindVersion(vs, topicId, version).Some?
    ensures i < |vs| && vs[i] == FindVersion(vs, topicId, version).value
    ensures forall j :: 0 <= j < i ==> !(vs[j].topicId == topicId && vs[j].version == version)
  {
    i := FindIndex(vs, MatchesVersion(topicId, version));
  }

  /** A found head is the first entry of the index with that topic. */
  lemma FindHeadAt(hs: seq<Topic>, topicId: TopicId) returns (i: nat)
    requires FindHead(hs, topicId).Some?
    ensures i < |hs| && hs[i] == FindHead(hs, topicId).value
    ensures forall j :: 0 <= j < i ==> hs[j].topicId != topicId
  {
    i := FindIndex(hs, HasTopicId(topicId));
  }

  /** The head list after `upsert(head)`: replace the first head of that topic in place, else push. */
  function UpsertHead(hs: seq<Topic>, head: Topic): seq<Topic> {
    var i := FindIndex(hs, HasTopicId(head.topicId));
    if i >= 0 then hs[i := head] else hs + [head]
  }

  /** No two heads share a `topicId`. */
  predicate UniqueTopicIds(hs: seq<Topic>) {
    forall i, j :: 0 <= i < j < |hs| ==> hs[i].topicId != hs[j].topicId
  }

  /** Appending a version keeps every earlier entry and finds the new one only when nothing earlier matches. */
  lemma FindVersionAppend(vs: seq<TopicVersion>, v: TopicVersion, topicId: TopicId, version: int)
    ensures FindVersion(vs + [v], topicId, version)
         == if FindVersion(vs, topicId, version).Some? then FindVersion(vs, topicId, version)
            else if v.topicId == topicId && v.version == version then Some(v) else None
  {
    FindIndexAppend(vs, v, MatchesVersion(topicId, version));
  }

  /**
   * After `upsert(head)`, `get(head.topicId)` returns `head` and every other topic reads as before;
   * the list grows by at most one entry, and only when the topic had no head.
   */
  lemma UpsertHeadSpec(hs: seq<Topic>, head: Topic, topicId: TopicId)
    ensures FindHead(UpsertHead(hs, head), topicId)
         == if topicId == head.topicId then Some(head) else FindHead(hs, topicId)
    ensures |UpsertHead(hs, head)| == if FindHead(hs, head.topicId).Some? then |hs| else |hs| + 1
  {
    var r := UpsertHead(hs, head);
    var i := FindIndex(hs, HasTopicId(head.topicId));
    if i >= 0 {
      if topicId == head.topicId {
        FindIndexIs(r, HasTopicId(topicId), i);
      } else {
        var k := FindIndex(hs, HasTopicId(topicId));
        assert forall j :: 0 <= j < |hs| ==> (HasTopicId(topicId)(r[j]) <==> HasTopicId(topicId)(hs[j]));
        FindIndexIs(r, HasTopicId(topicId), k);
      }
    } else {
      FindIndexAppend(hs, head, HasTopicId(topicId));
    }
  }

  /** Every entry other than the replaced one is kept, at its position. */
  lemma UpsertHeadKeepsOthers(hs: seq<Topic>, head: Topic)
    ensures forall j :: 0 <= j < |hs| && hs[j].topicId != head.topicId ==> UpsertHead(hs, head)[j] == hs[j]
    ensures forall j :: 0 <= j < |hs| ==> UpsertHead(hs, head)[j] == hs[j] || UpsertHead(hs, head)[j] == head
  {
  }

  /** `upsert` keeps the head index free of duplicate topic ids. */
  lemma UpsertHeadKeepsUnique(hs: seq<Topic>, head: Topic)
    requires UniqueTopicIds(hs)
    ensures UniqueTopicIds(UpsertHead(hs, head))
  {
    var i := FindIndex(hs, HasTopicId(head.topicId));
    var r := UpsertHead(hs, head);
    if i >= 0 {
      assert forall j :: 0 <= j < |hs| ==> r[j].topicId == hs[j].topicId;
    } else {
      assert forall j :: 0 <= j < |hs| ==> hs[j].topicId != head.topicId;
    }
  }

  /** `TopicVersionRepositoryFile`: the append-only version log. */
  class TopicVersionRepositoryFile {
    /** The `versions` array of `topics.versions.json`. */
    var versions: seq<TopicVersion>

    constructor (initial: seq<TopicVersion>)
      ensures versions == initial
    {
      versions := initial;
    }

    /** `append`: push the version; every existing entry is unchanged. */
    method Append(version: TopicVersion)
      modifies this
      ensures versions == old(versions) + [version]
    {
      versions := versions + [version];
    }

    method GetByTopicAndVersion(topicId: TopicId, version: int) returns (r: Option<TopicVersion>)
      ensures r == FindVersion(versions, topicId, version)
    {
      r := FindVersion(versions, topicId, version);
    }
  }

  /** `TopicRepositoryFile`: the head index, one record per topic. */
  class TopicRepositoryFile {
    /** The `topics` array of `topics.json`. */
    var topics: seq<Topic>

    constructor (initial: seq<Topic>)
      ensures topics == initial
    {
      topics := initial;
    }

    /** `upsert`: assign in place at `findIndex`, or push when the topic has no head yet (see `UpsertHeadSpec`). */
    method Upsert(topic: Topic)
      modifies this
      ensures topics == UpsertHead(old(topics), topic)
    {
      var idx := FindIndex(topics, HasTopicId(topic.topicId));
      if idx >= 0 {
        topics := topics[idx := topic];
      } else {
        topics := topics + [topic];
      }
    }

    method Get(topicId: TopicId) returns (r: Option<Topic>)
      ensures r == FindHead(topics, topicId)
    {
      r := FindHead(topics, topicId);
    }
  }
}
