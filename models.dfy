/** The records stored by the knowledge base: topic versions, topic heads, resources and users. */
module Models {
  import opened Common

  type TopicId = string

  datatype TopicAction = Create | Update | Delete

  /**
   * The optional, nullable `parentTopicId` field: `Absent` is a missing field (undefined),
   * `NoParent` an explicit null, `ParentTopic(id)` a reference to another topic.
   */
  datatype ParentRef = Absent | NoParent | ParentTopic(id: TopicId)

  /** One immutable entry of the version log. */
  datatype TopicVersion = TopicVersion(
    id: string,
    topicId: TopicId,
    version: int,
    name: string,
    content: string,
    parentTopicId: ParentRef,
    createdAt: int,
    updatedAt: int,
    action: TopicAction,
    performedBy: string)

  /** The head record of a topic: its current version number and soft-delete timestamp (null while alive). */
  datatype Topic = Topic(topicId: TopicId, latestVersion: int, deletedAt: Option<int>)

  /** `parentTopicId ?? null`: a missing parent field reads as an explicit null. */
  function NormalizeParent(p: ParentRef): (r: ParentRef)
    ensures r != Absent
    ensures p != Absent ==> r == p
  {
    if p == Absent then NoParent else p
  }

  /**
   * The parent a version links to in the graph queries: `if (!parentId) continue` skips
   * undefined, null and the empty string.
   */
  function LinkedParent(v: TopicVersion): (r: Option<TopicId>)
    ensures r.Some? <==> v.parentTopicId.ParentTopic? && v.parentTopicId.id != ""
    ensures r.Some? ==> r.value == v.parentTopicId.id && r.value != ""
  {
    match v.parentTopicId
    case ParentTopic(id) => if id != "" then Some(id) else None
    case _ => None
  }

  /**
   * `head.deletedAt` is truthy: the head is soft-deleted. A timestamp of 0 is falsy in the source,
   * so such a head still counts as alive.
   */
  predicate IsDeleted(h: Topic) {
    h.deletedAt.Some? && h.deletedAt.value != 0
  }

  /** `!head || head.deletedAt`: the head is missing or soft-deleted. */
  predicate IsMissingOrDeleted(h: Option<Topic>) {
    h.None? || IsDeleted(h.value)
  }

  datatype ResourceType = Video | Article | Pdf | Link

  datatype Resource = Resource(
    id: string,
    topicId: string,
    url: string,
    description: string,
    resourceType: ResourceType,
    createdAt: int,
    updatedAt: int)

  datatype UserRole = Admin | Editor | Viewer

  /** The string each `UserRole` member stands for. */
  function RoleValue(r: UserRole): string {
    match r
    case Admin => "Admin"
    case Editor => "Editor"
    case Viewer => "Viewer"
  }

  datatype User = User(id: string, name: string, email: string, role: UserRole, createdAt: int)

  /** A user as the user store keeps it: the user together with its bearer token. */
  datatype StoredUser = StoredUser(user: User, token: string)
}
