/** `CreateTopicUseCase`: a fresh topic with its first version. */
module CreateTopic {
  import opened Common
  import opened Models
  import opened TopicStore
  import opened TopicVersionFactory
  import opened TopicLog

  /**
   * The record `execute` builds from a `CreateTopicInput` (the fields of `CreateVersionInput`, with
   * the parent optional): the factory's create version, an omitted parent stored as null.
   */
  function CreatedVersion(input: CreateVersionInput, topicId: TopicId, now: int, performedBy: string, id: string)
    : (r: TopicVersion)
    ensures r.version == 1 && r.action == Create
    ensures r.createdAt == now && r.updatedAt == now
    ensures r.id == id && r.topicId == topicId && r.performedBy == performedBy
    ensures r.name == input.name && r.content == input.content
    ensures r.parentTopicId == NormalizeParent(input.parentTopicId) && r.parentTopicId != Absent
  {
    FromCreate(topicId, CreateVersionInput(input.name, input.content, NormalizeParent(input.parentTopicId)),
               now, performedBy, id)
  }

  /** What `execute` does to the two logs: append the first version, upsert `{topicId, latestVersion: 1, deletedAt: null}`. */
  function CreateStep(vs: seq<TopicVersion>, hs: seq<Topic>, input: CreateVersionInput, performedBy: string,
                      now: int, topicId: TopicId, id: string): (w: Written<TopicVersion>)
    ensures w.result.Ok? && w.result.value.topicId == topicId && w.result.value.version == 1
    ensures w.versions == vs + [w.result.value]
    ensures w.topics == UpsertHead(hs, Topic(topicId, 1, None))
  {
    var version := CreatedVersion(input, topicId, now, performedBy, id);
    Written(Ok(version), vs + [version], UpsertHead(hs, Topic(topicId, 1, None)))
  }

  /**
   * Creating a topic under an id that has no head keeps the store consistent, and the topic then
   * reads back: its head is alive at version 1 and version 1 is the created record.
   */
  lemma CreateStepKeepsConsistent(vs: seq<TopicVersion>, hs: seq<Topic>, input: CreateVersionInput, performedBy: string,
                                  now: int, topicId: TopicId, id: string)
    requires Consistent(vs, hs) && FindHead(hs, topicId).None?
    ensures var w := CreateStep(vs, hs, input, performedBy, now, topicId, id);
            && Consistent(w.versions, w.topics)
            && FindHead(w.topics, topicId) == Some(Topic(topicId, 1, None))
            && FindVersion(w.versions, topicId, 1) == Some(w.result.value)
  {
    var version := CreatedVersion(input, topicId, now, performedBy, id);
    AppendAndAdvance(vs, hs, version, None);
    ReadAfterWrite(vs, hs, version, None);
  }

  class CreateTopicUseCase {
    const topicVersionRepository: TopicVersionRepositoryFile
    const topicRepository: TopicRepositoryFile

    constructor (topicVersionRepository: TopicVersionRepositoryFile, topicRepository: TopicRepositoryFile)
      ensures this.topicVersionRepository == topicVersionRepository && this.topicRepository == topicRepository
    {
      this.topicVersionRepository := topicVersionRepository;
      this.topicRepository := topicRepository;
    }

    /** `execute`; `now`, `topicId` and `id` stand for `Date.now()` and the two `randomUUID()` calls. */
    method Execute(input: CreateVersionInput, performedByUserId: string, now: int, topicId: TopicId, id: string)
      returns (version: TopicVersion)
      modifies topicVersionRepository, topicRepository
      ensures Written(Ok(version), topicVersionRepository.versions, topicRepository.topics)
              == CreateStep(old(topicVersionRepository.versions), old(topicRepository.topics),
                            input, performedByUserId, now, topicId, id)
    {
      version := CreatedVersion(input, topicId, now, performedByUserId, id);
      topicVersionRepository.Append(version);
      topicRepository.Upsert(Topic(topicId, 1, None));
    }
  }
}
