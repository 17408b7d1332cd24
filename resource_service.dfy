/**
 * `ResourceService`: resources attached to alive topics, with existence checks in front of the
 * resource store and a field-by-field merge for updates. The clock and the uuid generator are
 * parameters (`now`, `id`).
 */
module ResourceServiceModule {
  import opened Common
  import opened Models
  import opened TopicStore
  import opened ResourceStore

  datatype CreateResourceInput = CreateResourceInput(topicId: string, url: string, description: string, resourceType: ResourceType)

  /** Every field is optional; `None` is an omitted (`undefined`) field. */
  datatype UpdateResourceInput = UpdateResourceInput(url: Option<string>, description: Option<string>, resourceType: Option<ResourceType>)

  /** The resource `create` builds: the input's fields, a new id and both timestamps at `now`. */
  function NewResource(input: CreateResourceInput, id: string, now: int): (r: Resource)
    ensures r.id == id && r.topicId == input.topicId
    ensures r.url == input.url && r.description == input.description && r.resourceType == input.resourceType
    ensures r.createdAt == now && r.updatedAt == now
  {
    Resource(id, input.topicId, input.url, input.description, input.resourceType, now, now)
  }

  /**
   * The resource `update` stores: each given field replaces the old one, each omitted field keeps
   * it, `updatedAt` becomes `now`, and the id, topic and creation time are those of `existing`.
   */
  function Merged(existing: Resource, input: UpdateResourceInput, now: int): (r: Resource)
    ensures r.id == existing.id && r.topicId == existing.topicId && r.createdAt == existing.createdAt
    ensures r.updatedAt == now
    ensures r.url == (if input.url.Some? then input.url.value else existing.url)
    ensures r.description == (if input.description.Some? then input.description.value else existing.description)
    ensures r.resourceType == (if input.resourceType.Some? then input.resourceType.value else existing.resourceType)
  {
    existing.(url := OrElse(input.url, existing.url),
              description := OrElse(input.description, existing.description),
              resourceType := OrElse(input.resourceType, existing.resourceType),
              updatedAt := now)
  }

  /** An update with no fields only moves `updatedAt`. */
  lemma MergeNothing(existing: Resource, now: int)
    ensures Merged(existing, UpdateResourceInput(None, None, None), now) == existing.(updatedAt := now)
  {
  }

  /** Applying the same update twice gives what applying it once at the later time gives. */
  lemma MergeTwice(existing: Resource, input: UpdateResourceInput, now: int, later: int)
    ensures Merged(Merged(existing, input, now), input, later) == Merged(existing, input, later)
  {
  }

  /** A successful `update` replaces the stored entry in place, and `get` then returns the merged resource. */
  lemma UpdateReadsBack(rs: seq<Resource>, id: string, input: UpdateResourceInput, now: int)
    requires FindResource(rs, id).Some?
    ensures var merged := Merged(FindResource(rs, id).value, input, now);
            && FindResource(UpdateResource(rs, merged), id) == Some(merged)
            && |UpdateResource(rs, merged)| == |rs|
  {
    var merged := Merged(FindResource(rs, id).value, input, now);
    UpdateThenGet(rs, merged, id);
  }

  /** A created resource is found by its id when that id is new, and it ends its topic's list. */
  lemma CreateReadsBack(rs: seq<Resource>, input: CreateResourceInput, id: string, now: int)
    requires FindResource(rs, id).None?
    ensures FindResource(rs + [NewResource(input, id, now)], id) == Some(NewResource(input, id, now))
    ensures ListOfTopic(rs + [NewResource(input, id, now)], input.topicId)
         == ListOfTopic(rs, input.topicId) + [NewResource(input, id, now)]
  {
    CreateThenGet(rs, NewResource(input, id, now), id);
    ListOfTopicSpec(rs, input.topicId, NewResource(input, id, now));
  }

  class ResourceService {
    const resources: ResourceRepositoryFile
    const topics: TopicRepositoryFile

    constructor (resources: ResourceRepositoryFile, topics: TopicRepositoryFile)
      ensures this.resources == resources && this.topics == topics
    {
      this.resources := resources;
      this.topics := topics;
    }

    /** `create`: 404 unless the topic is alive; otherwise the new resource is pushed and returned. */
    method Create(input: CreateResourceInput, now: int, id: string) returns (r: Result<Resource>)
      modifies resources
      ensures IsMissingOrDeleted(FindHead(topics.topics, input.topicId)) ==>
                r == Err(TopicNotFound) && resources.resources == old(resources.resources)
      ensures !IsMissingOrDeleted(FindHead(topics.topics, input.topicId)) ==>
                && r == Ok(NewResource(input, id, now))
                && resources.resources == old(resources.resources) + [r.value]
    {
      var topic := topics.Get(input.topicId);
      if topic.None? || IsDeleted(topic.value) {
        return Err(TopicNotFound);
      }
      var resource := NewResource(input, id, now);
      resources.Create(resource);
      r := Ok(resource);
    }

    /** `update`: 404 for an unknown id; otherwise the merged resource replaces the stored one. */
    method Update(id: string, input: UpdateResourceInput, now: int) returns (r: Result<Resource>)
      modifies resources
      ensures FindResource(old(resources.resources), id).None? ==>
                r == Err(ResourceNotFound) && resources.resources == old(resources.resources)
      ensures FindResource(old(resources.resources), id).Some? ==>
                && r == Ok(Merged(FindResource(old(resources.resources), id).value, input, now))
                && resources.resources == UpdateResource(old(resources.resources), r.value)
    {
      var existing := resources.Get(id);
      if existing.None? {
        return Err(ResourceNotFound);
      }
      var updated := Merged(existing.value, input, now);
      resources.Update(updated);
      r := Ok(updated);
    }

    /** `delete`: 404 for an unknown id; otherwise every entry with that id is removed. */
    method Delete(id: string) returns (r: Result<()>)
      modifies resources
      ensures FindResource(old(resources.resources), id).None? ==>
                r == Err(ResourceNotFound) && resources.resources == old(resources.resources)
      ensures FindResource(old(resources.resources), id).Some? ==>
                r == Ok(()) && resources.resources == DeleteResource(old(resources.resources), id)
    {
      var existing := resources.Get(id);
      if existing.None? {
        return Err(ResourceNotFound);
      }
      resources.Delete(id);
      r := Ok(());
    }

    /** `get`: the stored resource with that id, or 404. */
    method Get(id: string) returns (r: Result<Resource>)
      ensures r.Err? <==> FindResource(resources.resources, id).None?
      ensures r.Err? ==> r.error == ResourceNotFound
      ensures r.Ok? ==> r.value.id == id && r.value in resources.resources
                        && Some(r.value) == FindResource(resources.resources, id)
    {
      var existing := resources.Get(id);
      if existing.None? {
        return Err(ResourceNotFound);
      }
      r := Ok(existing.value);
    }

    /** `listByTopic`: 404 unless the topic is alive; otherwise exactly the stored resources of that topic, in order. */
    method ListByTopic(topicId: string) returns (r: Result<seq<Resource>>)
      ensures r.Err? <==> IsMissingOrDeleted(FindHead(topics.topics, topicId))
      ensures r.Err? ==> r.error == TopicNotFound
      ensures r.Ok? ==> r.value == ListOfTopic(resources.resources, topicId)
    {
      var topic := topics.Get(topicId);
      if topic.None? || IsDeleted(topic.value) {
        return Err(TopicNotFound);
      }
      var list := resources.ListByTopic(topicId);
      r := Ok(list);
    }
  }
}
