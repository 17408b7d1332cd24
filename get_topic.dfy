/** `GetTopicUseCase`: a topic's latest version, or one version by number. */
module GetTopic {
  import opened Common
  import opened Models
  import opened TopicStore
  import opened TopicLog
  import opened DeleteTopic

  /** The optional `version` argument: omitted, a number, or the number `NaN`. */
  datatype VersionArg = Omitted | Given(n: int) | NotANumber

  /** JavaScript truthiness of the argument: `undefined`, `0` and `NaN` are falsy. */
  predicate Truthy(version: VersionArg) {
    version.Given? && version.n != 0
  }

  predicate IsNaN(version: VersionArg) {
    version.NotANumber?
  }

  /** A falsy argument reads through the head; a truthy one reads that version directly. */
  function ByHead(vs: seq<TopicVersion>, hs: seq<Topic>, topicId: TopicId): (r: Result<TopicVersion>)
    ensures IsMissingOrDeleted(FindHead(hs, topicId)) <==> r == Err(TopicNotFound)
    ensures r.Ok? ==> r.value.topicId == topicId && r.value.version == FindHead(hs, topicId).value.latestVersion
    ensures r.Err? ==> r.error in {TopicNotFound, TopicVersionNotFound}
  {
    match FindHead(hs, topicId)
    case None => Err(TopicNotFound)
    case Some(head) =>
      if IsDeleted(head) then Err(TopicNotFound)
      else match FindVersion(vs, topicId, head.latestVersion)
        case None => Err(TopicVersionNotFound)
        case Some(latest) => Ok(latest)
  }

  /** `execute` as written, over the two logs. */
  function GetTopicAsWritten(vs: seq<TopicVersion>, hs: seq<Topic>, topicId: TopicId, version: VersionArg)
    : (r: Result<TopicVersion>)
    ensures Truthy(version) ==>
              r == (if FindVersion(vs, topicId, version.n).Some? then Ok(FindVersion(vs, topicId, version.n).value)
                    else Err(TopicVersionNotFound))
    ensures !Truthy(version) ==> r == ByHead(vs, hs, topicId)
  {
    if Truthy(version) && IsNaN(version) then Err(VersionMustBeANumber)
    else if Truthy(version) then
      match FindVersion(vs, topicId, version.n)
      case None => Err(TopicVersionNotFound)
      case Some(v) => Ok(v)
    else ByHead(vs, hs, topicId)
  }

  /** The `Version must be a number` guard never fires: a `NaN` argument is falsy and reads the latest version. */
  lemma NaNVersionReadsLatest(vs: seq<TopicVersion>, hs: seq<Topic>, topicId: TopicId, version: VersionArg)
    ensures GetTopicAsWritten(vs, hs, topicId, version) != Err(VersionMustBeANumber)
    ensures GetTopicAsWritten(vs, hs, topicId, NotANumber) == ByHead(vs, hs, topicId)
  {
  }

  /** `execute` with the guard it evidently intends: any `NaN` argument is rejected with 400. */
  function GetTopic(vs: seq<TopicVersion>, hs: seq<Topic>, topicId: TopicId, version: VersionArg)
    : (r: Result<TopicVersion>)
    ensures IsNaN(version) <==> r == Err(VersionMustBeANumber)
    ensures !IsNaN(version) ==> r == GetTopicAsWritten(vs, hs, topicId, version)
  {
    if IsNaN(version) then Err(VersionMustBeANumber)
    else GetTopicAsWritten(vs, hs, topicId, version)
  }

  /**
   * In a consistent store the latest version of an alive topic is always found. It is a tombstone
   * only when the head was deleted at time `0`, which the falsy check still reads as alive.
   */
  lemma LatestOfAliveTopic(vs: seq<TopicVersion>, hs: seq<Topic>, topicId: TopicId)
    requires Consistent(vs, hs) && !IsMissingOrDeleted(FindHead(hs, topicId))
    ensures GetTopic(vs, hs, topicId, Omitted).Ok?
    ensures GetTopic(vs, hs, topicId, Omitted).value.action == Delete <==> FindHead(hs, topicId).value.deletedAt == Some(0)
  {
    HeadIsLogged(vs, hs, topicId);
    var j := FindHeadAt(hs, topicId);
  }

  /** Reading by the number `latestVersion` gives the same record as reading the latest, for an alive topic. */
  lemma LatestByNumber(vs: seq<TopicVersion>, hs: seq<Topic>, topicId: TopicId)
    requires !IsMissingOrDeleted(FindHead(hs, topicId)) && FindHead(hs, topicId).value.latestVersion != 0
    ensures GetTopic(vs, hs, topicId, Given(FindHead(hs, topicId).value.latestVersion)) == GetTopic(vs, hs, topicId, Omitted)
  {
  }

  /** A topic deleted at a non-zero time no longer reads as latest. */
  lemma DeletedTopicNotFound(vs: seq<TopicVersion>, hs: seq<Topic>, topicId: TopicId, performedBy: string,
                             now: int, id: string)
    requires now != 0
    requires DeleteStep(vs, hs, topicId, performedBy, now, id).result.Ok?
    ensures var w := DeleteStep(vs, hs, topicId, performedBy, now, id);
            GetTopic(w.versions, w.topics, topicId, Omitted) == Err(TopicNotFound)
  {
    var newHead := Topic(topicId, NextVersion(hs, topicId), Some(now));
    DeleteStepOutcomes(vs, hs, topicId, performedBy, now, id);
    var w := DeleteStep(vs, hs, topicId, performedBy, now, id);
    assert w.topics == UpsertHead(hs, newHead);
    UpsertHeadSpec(hs, newHead, topicId);
    assert IsMissingOrDeleted(FindHead(w.topics, topicId));
  }

  /** Every version logged before a delete still reads by number after it. */
  lemma DeletedTopicKeepsHistory(vs: seq<TopicVersion>, hs: seq<Topic>, topicId: TopicId, performedBy: string,
                                 now: int, id: string, n: int)
    requires n != 0 && FindVersion(vs, topicId, n).Some?
    ensures var w := DeleteStep(vs, hs, topicId, performedBy, now, id);
            GetTopic(w.versions, w.topics, topicId, Given(n)) == Ok(FindVersion(vs, topicId, n).value)
  {
    DeleteStepOutcomes(vs, hs, topicId, performedBy, now, id);
    var w := DeleteStep(vs, hs, topicId, performedBy, now, id);
    if w.result.Ok? {
      FindVersionAppend(vs, w.versions[|vs|], topicId, n);
      assert w.versions == vs + [w.versions[|vs|]];
    }
  }
}
