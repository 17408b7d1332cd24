/** `DeleteTopicUseCase`: a tombstone version for one topic; its children and resources are not touched. */
module DeleteTopic {
  import opened Common
  import opened Models
  import opened TopicStore
  import opened TopicVersionFactory
  import opened TopicLog

  /** What `execute` does to the two logs, including its not-found failures, which change nothing. */
  function DeleteStep(vs: seq<TopicVersion>, hs: seq<Topic>, topicId: TopicId, performedBy: string, now: int, id: string)
    : (w: Written<()>)
    ensures w.result.Err? ==> w.versions == vs && w.topics == hs
  {
    match FindHead(hs, topicId)
    case None => Written(Err(TopicNotFound), vs, hs)
    case Some(head) =>
      if IsDeleted(head) then Written(Err(TopicNotFound), vs, hs)
      else match FindVersion(vs, topicId, head.latestVersion)
        case None => Written(Err(TopicVersionNotFound), vs, hs)
        case Some(current) =>
          var tombstone := FromDelete(topicId, head.latestVersion + 1, current, now, performedBy, id);
          Written(Ok(()), vs + [tombstone], UpsertHead(hs, Topic(topicId, head.latestVersion + 1, Some(now))))
  }

  /**
   * The two failures: `Topic not found` for a missing or deleted head, `Topic version not found`
   * when the head's latest version is not logged; otherwise the tombstone of that version is
   * appended and the head advanced to it with `deletedAt: now`.
   */
  lemma DeleteStepOutcomes(vs: seq<TopicVersion>, hs: seq<Topic>, topicId: TopicId, performedBy: string, now: int, id: string)
    ensures IsMissingOrDeleted(FindHead(hs, topicId))
            ==> DeleteStep(vs, hs, topicId, performedBy, now, id) == Written(Err(TopicNotFound), vs, hs)
    ensures !IsMissingOrDeleted(FindHead(hs, topicId))
            && FindVersion(vs, topicId, FindHead(hs, topicId).value.latestVersion).None?
            ==> DeleteStep(vs, hs, topicId, performedBy, now, id) == Written(Err(TopicVersionNotFound), vs, hs)
    ensures !IsMissingOrDeleted(FindHead(hs, topicId))
            && FindVersion(vs, topicId, FindHead(hs, topicId).value.latestVersion).Some?
            ==> DeleteStep(vs, hs, topicId, performedBy, now, id)
                == Written(Ok(()),
                           vs + [FromDelete(topicId, NextVersion(hs, topicId),
                                            FindVersion(vs, topicId, FindHead(hs, topicId).value.latestVersion).value,
                                            now, performedBy, id)],
                           UpsertHead(hs, Topic(topicId, NextVersion(hs, topicId), Some(now))))
  {
  }

  /** In a consistent store a delete fails exactly when the topic is missing or already deleted. */
  lemma DeleteStepFailsOnlyWhenGone(vs: seq<TopicVersion>, hs: seq<Topic>, topicId: TopicId, performedBy: string,
                                    now: int, id: string)
    requires Consistent(vs, hs)
    ensures DeleteStep(vs, hs, topicId, performedBy, now, id).result.Ok? <==> !IsMissingOrDeleted(FindHead(hs, topicId))
  {
    if !IsMissingOrDeleted(FindHead(hs, topicId)) {
      HeadIsLogged(vs, hs, topicId);
    }
    DeleteStepOutcomes(vs, hs, topicId, performedBy, now, id);
  }

  /** A delete keeps the store consistent, whether it fails or not. */
  lemma DeleteStepKeepsConsistent(vs: seq<TopicVersion>, hs: seq<Topic>, topicId: TopicId, performedBy: string,
                                  now: int, id: string)
    requires Consistent(vs, hs)
    ensures var w := DeleteStep(vs, hs, topicId, performedBy, now, id);
            Consistent(w.versions, w.topics)
  {
    DeleteStepOutcomes(vs, hs, topicId, performedBy, now, id);
    var w := DeleteStep(vs, hs, topicId, performedBy, now, id);
    if w.result.Ok? {
      var head := FindHead(hs, topicId).value;
      var tombstone := FromDelete(topicId, head.latestVersion + 1,
                                  FindVersion(vs, topicId, head.latestVersion).value, now, performedBy, id);
      AppendAndAdvance(vs, hs, tombstone, Some(now));
    }
  }

  /** After a successful delete the head is marked deleted at `now` and names the logged tombstone. */
  lemma DeleteStepReadsBack(vs: seq<TopicVersion>, hs: seq<Topic>, topicId: TopicId, performedBy: string,
                            now: int, id: string)
    requires Consistent(vs, hs)
    ensures var w := DeleteStep(vs, hs, topicId, performedBy, now, id);
            w.result.Ok? ==>
              && FindHead(w.topics, topicId) == Some(Topic(topicId, NextVersion(hs, topicId), Some(now)))
              && FindVersion(w.versions, topicId, NextVersion(hs, topicId)).Some?
              && FindVersion(w.versions, topicId, NextVersion(hs, topicId)).value.action == Delete
  {
    DeleteStepOutcomes(vs, hs, topicId, performedBy, now, id);
    var w := DeleteStep(vs, hs, topicId, performedBy, now, id);
    if w.result.Ok? {
      var head := FindHead(hs, topicId).value;
      var tombstone := FromDelete(topicId, head.latestVersion + 1,
                                  FindVersion(vs, topicId, head.latestVersion).value, now, performedBy, id);
      ReadAfterWrite(vs, hs, tombstone, Some(now));
    }
  }

  /** A successful delete at a non-zero time makes every later delete of the same topic fail with `Topic not found`, changing nothing. */
  lemma DeleteTwiceFails(vs: seq<TopicVersion>, hs: seq<Topic>, topicId: TopicId, performedBy: string, now: int, id: string,
                         performedBy2: string, now2: int, id2: string)
    requires now != 0
    requires DeleteStep(vs, hs, topicId, performedBy, now, id).result.Ok?
    ensures var w := DeleteStep(vs, hs, topicId, performedBy, now, id);
            DeleteStep(w.versions, w.topics, topicId, performedBy2, now2, id2)
              == Written(Err(TopicNotFound), w.versions, w.topics)
  {
    var head := FindHead(hs, topicId).value;
    DeleteStepOutcomes(vs, hs, topicId, performedBy, now, id);
    var hs' := UpsertHead(hs, Topic(topicId, head.latestVersion + 1, Some(now)));
    UpsertHeadSpec(hs, Topic(topicId, head.latestVersion + 1, Some(now)), topicId);
    assert IsDeleted(FindHead(hs', topicId).value);
    DeleteStepOutcomes(DeleteStep(vs, hs, topicId, performedBy, now, id).versions, hs', topicId, performedBy2, now2, id2);
  }

  class DeleteTopicUseCase {
    const topicVersionRepository: TopicVersionRepositoryFile
    const topicRepository: TopicRepositoryFile

    constructor (topicVersionRepository: TopicVersionRepositoryFile, topicRepository: TopicRepositoryFile)
      ensures this.topicVersionRepository == topicVersionRepository && this.topicRepository == topicRepository
    {
      this.topicVersionRepository := topicVersionRepository;
      this.topicRepository := topicRepository;
    }

    /** `execute`; `now` and `id` stand for `Date.now()` and `randomUUID()`. */
    method Execute(topicId: TopicId, performedByUserId: string, now: int, id: string) returns (r: Result<()>)
      modifies topicVersionRepository, topicRepository
      ensures Written(r, topicVersionRepository.versions, topicRepository.topics)
              == DeleteStep(old(topicVersionRepository.versions), old(topicRepository.topics),
                            topicId, performedByUserId, now, id)
    {
      var head := topicRepository.Get(topicId);
      if head.None? {
        return Err(TopicNotFound);
      }
      if IsDeleted(head.value) {
        return Err(TopicNotFound);
      }
      var current := topicVersionRepository.GetByTopicAndVersion(topicId, head.value.latestVersion);
      if current.None? {
        return Err(TopicVersionNotFound);
      }
      var nextVersionNumber := head.value.latestVersion + 1;
      var tombstone := FromDelete(topicId, nextVersionNumber, current.value, now, performedByUserId, id);
      topicVersionRepository.Append(tombstone);
      topicRepository.Upsert(Topic(topicId, nextVersionNumber, Some(now)));
      return Ok(());
    }
  }
}
