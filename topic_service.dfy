/** `TopicService.create`: the same write as `CreateTopicUseCase`, recorded as performed by the fixed string "userId". */
module TopicServiceModule {
  import opened Common
  import opened Models
  import opened TopicStore
  import opened TopicVersionFactory
  import opened TopicLog
  import opened CreateTopic

  /** The actor `create` records on every version it writes. */
  const FixedPerformer := "userId"

  class TopicService {
    const topicVersionRepository: TopicVersionRepositoryFile
    const topicRepository: TopicRepositoryFile

    constructor (topicVersionRepository: TopicVersionRepositoryFile, topicRepository: TopicRepositoryFile)
      ensures this.topicVersionRepository == topicVersionRepository && this.topicRepository == topicRepository
    {
      this.topicVersionRepository := topicVersionRepository;
      this.topicRepository := topicRepository;
    }

    /** `create`: append the first version, then upsert `{topicId, latestVersion: 1, deletedAt: null}`. */
    method Create(input: CreateVersionInput, now: int, topicId: TopicId, id: string) returns (version: TopicVersion)
      modifies topicVersionRepository, topicRepository
      ensures version.performedBy == FixedPerformer
      ensures Written(Ok(version), topicVersionRepository.versions, topicRepository.topics)
              == CreateStep(old(topicVersionRepository.versions), old(topicRepository.topics),
                            input, FixedPerformer, now, topicId, id)
    {
      version := CreatedVersion(input, topicId, now, FixedPerformer, id);
      topicVersionRepository.Append(version);
      topicRepository.Upsert(Topic(topicId, 1, None));
    }
  }
}
