/**
 * `ResourceRepositoryFile`: the learning resources attached to topics, kept in one list. The JSON
 * file is modelled by the in-memory sequence it holds.
 */
module ResourceStore {
  import opened Common
  import opened Models
  import opened Arrays

  /** The `find`/`findIndex` predicate of `get` and `update`. */
  function HasResourceId(id: string): Resource -> bool {
    (r: Resource) => r.id == id
  }

  /** The predicate `delete` keeps. */
  function NotResourceId(id: string): Resource -> bool {
    (r: Resource) => r.id != id
  }

  /** The predicate of `listByTopic`. */
  function OfTopic(topicId: string): Resource -> bool {
    (r: Resource) => r.topicId == topicId
  }

  /** `resources.find(r => r.id === id)`. */
  function FindResource(rs: seq<Resource>, id: string): (r: Option<Resource>)
    ensures r.Some? ==> r.value.id == id && r.value in rs
    ensures r.None? <==> forall i :: 0 <= i < |rs| ==> rs[i].id != id
  {
    var i := FindIndex(rs, HasResourceId(id));
    if i >= 0 then Some(rs[i]) else None
  }

  /** The list after `update(resource)`: replace the first entry with that id in place, else push. */
  function UpdateResource(rs: seq<Resource>, resource: Resource): seq<Resource> {
    var i := FindIndex(rs, HasResourceId(resource.id));
    if i >= 0 then rs[i := resource] else rs + [resource]
  }

  /** The list after `delete(id)`. */
  function DeleteResource(rs: seq<Resource>, id: string): seq<Resource> {
    Filter(rs, NotResourceId(id))
  }

  /** The list `listByTopic(topicId)` returns. */
  function ListOfTopic(rs: seq<Resource>, topicId: string): seq<Resource> {
    Filter(rs, OfTopic(topicId))
  }

  /**
   * After `create(resource)` the new entry is last and nothing before it moves; `get` finds it
   * unless an entry with the same id was already stored, which then still shadows it.
   */
  lemma CreateThenGet(rs: seq<Resource>, resource: Resource, id: string)
    ensures FindResource(rs + [resource], id)
         == if FindResource(rs, id).Some? then FindResource(rs, id)
            else if resource.id == id then Some(resource) else None
  {
    FindIndexAppend(rs, resource, HasResourceId(id));
  }

  /**
   * After `update(resource)`, `get(resource.id)` returns `resource` and every other id reads as
   * before; the list grows by one entry exactly when the id was not stored.
   */
  lemma UpdateThenGet(rs: seq<Resource>, resource: Resource, id: string)
    ensures FindResource(UpdateResource(rs, resource), id)
         == if id == resource.id then Some(resource) else FindResource(rs, id)
    ensures |UpdateResource(rs, resource)| == if FindResource(rs, resource.id).Some? then |rs| else |rs| + 1
  {
    var r := UpdateResource(rs, resource);
    var i := FindIndex(rs, HasResourceId(resource.id));
    if i >= 0 {
      if id == resource.id {
        FindIndexIs(r, HasResourceId(id), i);
      } else {
        var k := FindIndex(rs, HasResourceId(id));
        assert forall j :: 0 <= j < |rs| ==> (HasResourceId(id)(r[j]) <==> HasResourceId(id)(rs[j]));
        FindIndexIs(r, HasResourceId(id), k);
      }
    } else {
      FindIndexAppend(rs, resource, HasResourceId(id));
    }
  }

  /** `update` leaves every entry with another id at its position. */
  lemma UpdateKeepsOthers(rs: seq<Resource>, resource: Resource)
    ensures forall j :: 0 <= j < |rs| && rs[j].id != resource.id ==> UpdateResource(rs, resource)[j] == rs[j]
  {
  }

  /**
   * After `delete(id)` no entry has that id, every other entry is kept, and `get` of any other id
   * reads as before.
   */
  lemma DeleteThenGet(rs: seq<Resource>, id: string, other: string)
    ensures FindResource(DeleteResource(rs, id), id).None?
    ensures forall r :: r in DeleteResource(rs, id) <==> r in rs && r.id != id
    ensures other != id ==> FindResource(DeleteResource(rs, id), other) == FindResource(rs, other)
  {
    forall r | r in rs && r.id != id ensures r in DeleteResource(rs, id) {
      var k :| 0 <= k < |rs| && rs[k] == r;
      assert NotResourceId(id)(rs[k]);
    }
    if other != id {
      FindIndexFilter(rs, HasResourceId(other), NotResourceId(id));
    }
  }

  /** Deleting an id no entry has leaves the list as it was. */
  lemma DeleteMissingIsNoop(rs: seq<Resource>, id: string)
    requires FindResource(rs, id).None?
    ensures DeleteResource(rs, id) == rs
  {
    FilterAll(rs, NotResourceId(id));
  }

  /** `listByTopic` returns exactly the entries of that topic; a created resource joins the end of its topic's list. */
  lemma ListOfTopicSpec(rs: seq<Resource>, topicId: string, resource: Resource)
    ensures forall r :: r in ListOfTopic(rs, topicId) <==> r in rs && r.topicId == topicId
    ensures ListOfTopic(rs + [resource], topicId)
         == ListOfTopic(rs, topicId) + if resource.topicId == topicId then [resource] else []
  {
    forall r | r in rs && r.topicId == topicId ensures r in ListOfTopic(rs, topicId) {
      var k :| 0 <= k < |rs| && rs[k] == r;
      assert OfTopic(topicId)(rs[k]);
    }
    FilterAppend(rs, [resource], OfTopic(topicId));
    assert [resource][1..] == [];
  }

  class ResourceRepositoryFile {
    /** The `resources` array of `resources.json`. */
    var resources: seq<Resource>

    constructor (initial: seq<Resource>)
      ensures resources == initial
    {
      resources := initial;
    }

    /** `create`: push the resource. */
    method Create(resource: Resource)
      modifies this
      ensures resources == old(resources) + [resource]
    {
      resources := resources + [resource];
    }

    /** `update`: assign in place at `findIndex`, or push (see `UpdateThenGet`). */
    method Update(resource: Resource)
      modifies this
      ensures resources == UpdateResource(old(resources), resource)
    {
      var idx := FindIndex(resources, HasResourceId(resource.id));
      if idx >= 0 {
        resources := resources[idx := resource];
      } else {
        resources := resources + [resource];
      }
    }

    /** `delete`: store the filtered list (see `DeleteThenGet`). */
    method Delete(resourceId: string)
      modifies this
      ensures resources == DeleteResource(old(resources), resourceId)
    {
      resources := Filter(resources, NotResourceId(resourceId));
    }

    method Get(resourceId: string) returns (r: Option<Resource>)
      ensures r == FindResource(resources, resourceId)
    {
      r := FindResource(resources, resourceId);
    }

    method ListByTopic(topicId: string) returns (r: seq<Resource>)
      ensures r == ListOfTopic(resources, topicId)
    {
      r := Filter(resources, OfTopic(topicId));
    }
  }
}
