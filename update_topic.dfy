/** `UpdateTopicUseCase`: a new version of an alive topic. */
module UpdateTopic {
  import opened Common
  import opened Models
  import opened TopicStore
  import opened TopicVersionFactory
  import opened TopicLog

  /**
   * The record `execute` builds from an `UpdateTopicInput` (the fields of `UpdateVersionInput`, each
   * optional). Unlike the factory, an omitted parent copies `current`'s parent as it is, without
   * turning a missing parent into null.
   */
  function UpdatedVersion(topicId: TopicId, nextVersion: int, current: TopicVersion, input: UpdateVersionInput,
                          now: int, performedBy: string, id: string): (r: TopicVersion)
    ensures r.id == id && r.topicId == topicId
    ensures r.version == nextVersion && r.action == Update
    ensures r.name == (if input.name.Some? then input.name.value else current.name)
    ensures r.content == (if input.content.Some? then input.content.value else current.content)
    ensures r.parentTopicId == (if input.parentTopicId == Absent then current.parentTopicId else input.parentTopicId)
    ensures r.createdAt == current.createdAt && r.updatedAt == now
    ensures r.performedBy == performedBy
  {
    TopicVersion(id, topicId, nextVersion, OrElse(input.name, current.name), OrElse(input.content, current.content),
                 if input.parentTopicId == Absent then current.parentTopicId else input.parentTopicId,
                 current.createdAt, now, Update, performedBy)
  }

  /**
   * The use case builds the factory's update record except in one case: the input omits the parent
   * and the current version has no parent field at all, which the factory stores as null.
   */
  lemma UpdatedVersionVersusFactory(topicId: TopicId, nextVersion: int, current: TopicVersion, input: UpdateVersionInput,
                                    now: int, performedBy: string, id: string)
    ensures UpdatedVersion(topicId, nextVersion, current, input, now, performedBy, id)
            == FromUpdate(topicId, nextVersion, current, input, now, performedBy, id)
            <==> !(input.parentTopicId == Absent && current.parentTopicId == Absent)
  {
    if input.parentTopicId == Absent && current.parentTopicId == Absent {
      assert FromUpdate(topicId, nextVersion, current, input, now, performedBy, id).parentTopicId == NoParent;
    }
  }

  /** What `execute` does to the two logs, including its two not-found failures, which change nothing. */
  function UpdateStep(vs: seq<TopicVersion>, hs: seq<Topic>, topicId: TopicId, input: UpdateVersionInput,
                      performedBy: string, now: int, id: string): (w: Written<TopicVersion>)
    ensures w.result.Err? ==> w.versions == vs && w.topics == hs
  {
    match FindHead(hs, topicId)
    case None => Written(Err(TopicNotFound), vs, hs)
    case Some(head) =>
      if IsDeleted(head) then Written(Err(TopicNotFound), vs, hs)
      else match FindVersion(vs, topicId, head.latestVersion)
        case None => Written(Err(TopicVersionNotFound), vs, hs)
        case Some(current) =>
          var next := UpdatedVersion(topicId, head.latestVersion + 1, current, input, now, performedBy, id);
          Written(Ok(next), vs + [next], UpsertHead(hs, Topic(topicId, head.latestVersion + 1, None)))
  }

  /**
   * The two failures: `Topic not found` for a missing or deleted head, `Topic version not found`
   * when the head's latest version is not logged; otherwise version `latestVersion + 1` is appended
   * and the head advanced to it, alive.
   */
  lemma UpdateStepOutcomes(vs: seq<TopicVersion>, hs: seq<Topic>, topicId: TopicId, input: UpdateVersionInput,
                           performedBy: string, now: int, id: string)
    ensures IsMissingOrDeleted(FindHead(hs, topicId))
            ==> UpdateStep(vs, hs, topicId, input, performedBy, now, id) == Written(Err(TopicNotFound), vs, hs)
    ensures !IsMissingOrDeleted(FindHead(hs, topicId))
            && FindVersion(vs, topicId, FindHead(hs, topicId).value.latestVersion).None?
            ==> UpdateStep(vs, hs, topicId, input, performedBy, now, id) == Written(Err(TopicVersionNotFound), vs, hs)
    ensures !IsMissingOrDeleted(FindHead(hs, topicId))
            && FindVersion(vs, topicId, FindHead(hs, topicId).value.latestVersion).Some?
            ==> var next := UpdatedVersion(topicId, NextVersion(hs, topicId),
                                           FindVersion(vs, topicId, FindHead(hs, topicId).value.latestVersion).value,
                                           input, now, performedBy, id);
                UpdateStep(vs, hs, topicId, input, performedBy, now, id)
                == Written(Ok(next), vs + [next], UpsertHead(hs, Topic(topicId, NextVersion(hs, topicId), None)))
  {
  }

  /** In a consistent store an update fails exactly when the topic is missing or deleted. */
  lemma UpdateStepFailsOnlyWhenGone(vs: seq<TopicVersion>, hs: seq<Topic>, topicId: TopicId, input: UpdateVersionInput,
                                    performedBy: string, now: int, id: string)
    requires Consistent(vs, hs)
    ensures UpdateStep(vs, hs, topicId, input, performedBy, now, id).result.Ok? <==> !IsMissingOrDeleted(FindHead(hs, topicId))
  {
    if !IsMissingOrDeleted(FindHead(hs, topicId)) {
      HeadIsLogged(vs, hs, topicId);
    }
    UpdateStepOutcomes(vs, hs, topicId, input, performedBy, now, id);
  }

  /** An update keeps the store consistent, whether it fails or not. */
  lemma UpdateStepKeepsConsistent(vs: seq<TopicVersion>, hs: seq<Topic>, topicId: TopicId, input: UpdateVersionInput,
                                  performedBy: string, now: int, id: string)
    requires Consistent(vs, hs)
    ensures var w := UpdateStep(vs, hs, topicId, input, performedBy, now, id);
            Consistent(w.versions, w.topics)
  {
    UpdateStepOutcomes(vs, hs, topicId, input, performedBy, now, id);
    var w := UpdateStep(vs, hs, topicId, input, performedBy, now, id);
    if w.result.Ok? {
      AppendAndAdvance(vs, hs, w.result.value, None);
    }
  }

  /** After a successful update the head is alive at the new version, which reads back as the returned record. */
  lemma UpdateStepReadsBack(vs: seq<TopicVersion>, hs: seq<Topic>, topicId: TopicId, input: UpdateVersionInput,
                            performedBy: string, now: int, id: string)
    requires Consistent(vs, hs)
    ensures var w := UpdateStep(vs, hs, topicId, input, performedBy, now, id);
            w.result.Ok? ==>
              && FindHead(w.topics, topicId) == Some(Topic(topicId, NextVersion(hs, topicId), None))
              && FindVersion(w.versions, topicId, NextVersion(hs, topicId)) == Some(w.result.value)
  {
    UpdateStepOutcomes(vs, hs, topicId, input, performedBy, now, id);
    var w := UpdateStep(vs, hs, topicId, input, performedBy, now, id);
    if w.result.Ok? {
      ReadAfterWrite(vs, hs, w.result.value, None);
    }
  }

  class UpdateTopicUseCase {
    const topicVersionRepository: TopicVersionRepositoryFile
    const topicRepository: TopicRepositoryFile

    constructor (topicVersionRepository: TopicVersionRepositoryFile, topicRepository: TopicRepositoryFile)
      ensures this.topicVersionRepository == topicVersionRepository && this.topicRepository == topicRepository
    {
      this.topicVersionRepository := topicVersionRepository;
      this.topicRepository := topicRepository;
    }

    /** `execute`; `now` and `id` stand for `Date.now()` and `randomUUID()`. */
    method Execute(topicId: TopicId, input: UpdateVersionInput, performedByUserId: string, now: int, id: string)
      returns (r: Result<TopicVersion>)
      modifies topicVersionRepository, topicRepository
      ensures Written(r, topicVersionRepository.versions, topicRepository.topics)
              == UpdateStep(old(topicVersionRepository.versions), old(topicRepository.topics),
                            topicId, input, performedByUserId, now, id)
    {
      var head := topicRepository.Get(topicId);
      if head.None? || IsDeleted(head.value) {
        return Err(TopicNotFound);
      }
      var current := topicVersionRepository.GetByTopicAndVersion(topicId, head.value.latestVersion);
      if current.None? {
        return Err(TopicVersionNotFound);
      }
      var nextVersionNumber := head.value.latestVersion + 1;
      var next := UpdatedVersion(topicId, nextVersionNumber, current.value, input, now, performedByUserId, id);
      topicVersionRepository.Append(next);
      topicRepository.Upsert(Topic(topicId, nextVersionNumber, None));
      return Ok(next);
    }
  }
}
