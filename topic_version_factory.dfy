/**
 * `TopicVersionFactory`: the pure rules that derive a new version record from an action and,
 * for update and delete, the previous version. The random record id is a parameter.
 */
module TopicVersionFactory {
  import opened Common
  import opened Models

  datatype CreateVersionInput = CreateVersionInput(name: string, content: string, parentTopicId: ParentRef)

  /** `Partial<UpdateVersionInput>`: `None` and `Absent` stand for a field left out of the input. */
  datatype UpdateVersionInput = UpdateVersionInput(name: Option<string>, content: Option<string>, parentTopicId: ParentRef)

  /** Version 1 of a new topic. */
  function FromCreate(topicId: TopicId, input: CreateVersionInput, now: int, performedBy: string, id: string): (r: TopicVersion)
    ensures r.id == id && r.topicId == topicId
    ensures r.version == 1 && r.action == Create
    ensures r.createdAt == now && r.updatedAt == now
    ensures r.name == input.name && r.content == input.content && r.parentTopicId == input.parentTopicId
    ensures r.performedBy == performedBy
  {
    TopicVersion(id, topicId, 1, input.name, input.content, input.parentTopicId, now, now, Create, performedBy)
  }

  /**
   * The update rule: fields left out of the input are copied from `previous`; an explicit null
   * parent clears the parent, a missing one keeps the previous parent (read as null when missing).
   */
  function FromUpdate(topicId: TopicId, nextVersion: int, previous: TopicVersion, input: UpdateVersionInput,
                      now: int, performedBy: string, id: string): (r: TopicVersion)
    ensures r.id == id && r.topicId == topicId
    ensures r.version == nextVersion && r.action == Update
    ensures r.name == (if input.name.Some? then input.name.value else previous.name)
    ensures r.content == (if input.content.Some? then input.content.value else previous.content)
    ensures input.parentTopicId == Absent ==> r.parentTopicId == NormalizeParent(previous.parentTopicId)
    ensures input.parentTopicId != Absent ==> r.parentTopicId == input.parentTopicId
    ensures r.createdAt == previous.createdAt && r.updatedAt == now
    ensures r.performedBy == performedBy
  {
    TopicVersion(
      id, topicId, nextVersion,
      OrElse(input.name, previous.name),
      OrElse(input.content, previous.content),
      if input.parentTopicId == Absent then NormalizeParent(previous.parentTopicId) else input.parentTopicId,
      previous.createdAt, now, Update, performedBy)
  }

  /** The tombstone: the previous payload unchanged, a new version number and the DELETE action. */
  function FromDelete(topicId: TopicId, nextVersion: int, previous: TopicVersion, now: int,
                      performedBy: string, id: string): (r: TopicVersion)
    ensures r.id == id && r.topicId == topicId
    ensures r.version == nextVersion && r.action == Delete
    ensures r.name == previous.name && r.content == previous.content
    ensures r.parentTopicId == NormalizeParent(previous.parentTopicId)
    ensures r.createdAt == previous.createdAt && r.updatedAt == now
    ensures r.performedBy == performedBy
  {
    TopicVersion(id, topicId, nextVersion, previous.name, previous.content,
                 NormalizeParent(previous.parentTopicId), previous.createdAt, now, Delete, performedBy)
  }

  /** The empty update: payload unchanged up to the null reading of a missing parent. */
  const NoChanges := UpdateVersionInput(None, None, Absent)

  /** An update that sets nothing keeps name, content and (normalised) parent, and so does a tombstone. */
  lemma EmptyUpdateKeepsPayload(topicId: TopicId, nextVersion: int, previous: TopicVersion, now: int,
                                performedBy: string, id: string, id': string)
    ensures var u := FromUpdate(topicId, nextVersion, previous, NoChanges, now, performedBy, id);
            var d := FromDelete(topicId, nextVersion, previous, now, performedBy, id');
            u.name == d.name == previous.name && u.content == d.content == previous.content
            && u.parentTopicId == d.parentTopicId
  {
  }

  /** Updates with every field given do not depend on the previous payload. */
  lemma FullUpdateIgnoresPrevious(topicId: TopicId, nextVersion: int, p1: TopicVersion, p2: TopicVersion,
                                  name: string, content: string, parent: ParentRef,
                                  now: int, performedBy: string, id: string)
    requires parent != Absent && p1.createdAt == p2.createdAt
    ensures var input := UpdateVersionInput(Some(name), Some(content), parent);
            FromUpdate(topicId, nextVersion, p1, input, now, performedBy, id)
            == FromUpdate(topicId, nextVersion, p2, input, now, performedBy, id)
  {
  }

  /**
   * The version history a derivation chain produces: a create followed by updates and deletes.
   * `steps[k]` is `Some(input)` for an update and `None` for a delete; the step's clock and actor
   * are `times[k]` and `actors[k]`.
   */
  function Derive(topicId: TopicId, first: TopicVersion, steps: seq<Option<UpdateVersionInput>>,
                  times: seq<int>, actors: seq<string>, ids: seq<string>): (r: seq<TopicVersion>)
    requires |times| == |actors| == |ids| == |steps|
    ensures |r| == |steps| + 1 && r[0] == first
    decreases |steps|
  {
    if |steps| == 0 then [first]
    else
      var prefix := Derive(topicId, first, steps[..|steps| - 1], times[..|steps| - 1], actors[..|steps| - 1], ids[..|steps| - 1]);
      var previous := prefix[|prefix| - 1];
      var k := |steps| - 1;
      var next := if steps[k].Some?
                  then FromUpdate(topicId, previous.version + 1, previous, steps[k].value, times[k], actors[k], ids[k])
                  else FromDelete(topicId, previous.version + 1, previous, times[k], actors[k], ids[k]);
      prefix + [next]
  }

  /** The history of one topic, numbered 1, 2, 3, ..., all carrying the creation timestamp. */
  predicate WellNumbered(h: seq<TopicVersion>, topicId: TopicId, createdAt: int) {
    forall k :: 0 <= k < |h| ==> h[k].version == k + 1 && h[k].topicId == topicId && h[k].createdAt == createdAt
  }

  /**
   * Along any chain starting from `fromCreate`, versions are numbered 1, 2, 3, ... without gaps,
   * every record belongs to the topic, and `createdAt` stays the creation timestamp.
   */
  lemma {:induction false} DeriveNumbersAndCreatedAt(topicId: TopicId, input: CreateVersionInput, now: int,
                                                     performedBy: string, id: string,
                                                     steps: seq<Option<UpdateVersionInput>>,
                                                     times: seq<int>, actors: seq<string>, ids: seq<string>)
    requires |times| == |actors| == |ids| == |steps|
    ensures WellNumbered(Derive(topicId, FromCreate(topicId, input, now, performedBy, id), steps, times, actors, ids),
                         topicId, now)
    decreases |steps|
  {
    if |steps| > 0 {
      var n := |steps| - 1;
      var first := FromCreate(topicId, input, now, performedBy, id);
      DeriveNumbersAndCreatedAt(topicId, input, now, performedBy, id, steps[..n], times[..n], actors[..n], ids[..n]);
      var prefix := Derive(topicId, first, steps[..n], times[..n], actors[..n], ids[..n]);
      var h := Derive(topicId, first, steps, times, actors, ids);
      assert h[..n + 1] == prefix;
      assert |prefix| == n + 1;
      assert prefix[n].version == n + 1;
      assert h[n + 1].version == prefix[n].version + 1;
      assert h[n + 1].topicId == topicId && h[n + 1].createdAt == now;
      forall k | 0 <= k < |h|
        ensures h[k].version == k + 1 && h[k].topicId == topicId && h[k].createdAt == now
      {
        if k <= n {
          assert h[k] == prefix[k];
        }
      }
    }
  }
}
