/** `SystemRelationshipService`: the foreign-key declarations of a system.
    Any member may list, declare and remove them; a declaration is stored as
    given, without checking that its tables or fields exist. */
module Relationships {
  import opened Common
  import opened Entities
  import opened Access

  /** The fields of `SystemRelationshipRequest`; every one may be null. */
  datatype RelationshipRequest = RelationshipRequest(
    fromTableId: Option<Id>, fromFieldId: Option<Id>,
    toTableId: Option<Id>, toFieldId: Option<Id>,
    relationType: Option<string>)

  /** The constant name of a relation type (`name()`). */
  function TypeName(t: RelationType): string {
    match t
    case OneToOne => "one_to_one"
    case OneToMany => "one_to_many"
    case ManyToMany => "many_to_many"
  }

  /** `RelationType.valueOf` with the `IllegalArgumentException` caught: an
      unknown name becomes `many_to_many`, while a null name throws a
      `NullPointerException` that is not caught. */
  function ParseType(name: Option<string>): (r: Result<RelationType>)
    ensures r.Err? <==> name.None?
    ensures r.Err? ==> r.error == NullValue
    ensures r.Ok? ==> (TypeName(r.value) == name.value || r.value == ManyToMany)
  {
    match name
    case None => Err(NullValue)
    case Some(n) =>
      if n == "one_to_one" then Ok(OneToOne)
      else if n == "one_to_many" then Ok(OneToMany)
      else Ok(ManyToMany)
  }

  /** Every type survives the trip through its name, and a name that is
      no type's name reads as `many_to_many`. */
  lemma ParseTypeRoundTrip(t: RelationType, n: string)
    ensures ParseType(Some(TypeName(t))) == Ok(t)
    ensures (forall u :: TypeName(u) != n) ==> ParseType(Some(n)) == Ok(ManyToMany)
  {
    if forall u :: TypeName(u) != n {
      assert TypeName(OneToOne) != n && TypeName(OneToMany) != n;
    }
  }

  /** The ids of a system's relationships, ascending
      (`findBySystemIdOrderByIdAsc`). */
  function SystemRelationshipIds(st: Store, systemId: Id): (ids: seq<Id>)
    ensures Increasing(ids)
    ensures forall id :: id in ids <==> id in st.relationships && st.relationships[id].systemId == systemId
  {
    SortedKeys(set id | id in st.relationships && st.relationships[id].systemId == systemId)
  }

  /** `getAllRelationships`: the system's relationships in id order. */
  function ListRelationships(st: Store, systemId: Id, userId: Id): (r: Result<seq<Id>>)
    ensures r.Ok? <==> OwnerOrMember(st, systemId, userId) == Ok(true)
    ensures r.Ok? ==> Increasing(r.value)
    ensures r.Ok? ==> forall id :: id in r.value <==> id in st.relationships && st.relationships[id].systemId == systemId
  {
    match Guard(OwnerOrMember(st, systemId, userId))
    case Fail(e) => Err(e)
    case Pass =>
      Ok(SystemRelationshipIds(st, systemId))
  }

  /** `createRelationship`: the ids as given, the parsed type, and a NOT
      NULL violation on save when an id is missing. */
  function CreateRelationship(st: Store, systemId: Id, req: RelationshipRequest, userId: Id)
    : (r: Result<(Store, Id)>)
    ensures r.Ok? <==>
      && OwnerOrMember(st, systemId, userId) == Ok(true)
      && req.relationType.Some?
      && req.fromTableId.Some? && req.fromFieldId.Some? && req.toTableId.Some? && req.toFieldId.Some?
    ensures OwnerOrMember(st, systemId, userId) == Ok(true) && req.relationType.None? ==> r == Err(NullValue)
    ensures r.Ok? ==>
      var (st2, id) := r.value;
      && id !in st.relationships
      && st2 == st.(relationships := st.relationships[id := Relationship(
           systemId, req.fromTableId.value, req.fromFieldId.value,
           req.toTableId.value, req.toFieldId.value, ParseType(req.relationType).value)])
  {
    match Guard(OwnerOrMember(st, systemId, userId))
    case Fail(e) => Err(e)
    case Pass =>
      var t :- ParseType(req.relationType);
      if req.fromTableId.None? || req.fromFieldId.None? || req.toTableId.None? || req.toFieldId.None? then
        Err(NotNullViolation)
      else
        var id := Fresh(st.relationships);
        var rel := Relationship(systemId, req.fromTableId.value, req.fromFieldId.value,
                                req.toTableId.value, req.toFieldId.value, t);
        Ok((st.(relationships := st.relationships[id := rel]), id))
  }

  /** `deleteRelationship`: it must exist and belong to the system. */
  function DeleteRelationship(st: Store, systemId: Id, relationshipId: Id, userId: Id): (r: Result<Store>)
    ensures r.Ok? <==>
      && OwnerOrMember(st, systemId, userId) == Ok(true)
      && relationshipId in st.relationships && st.relationships[relationshipId].systemId == systemId
    ensures OwnerOrMember(st, systemId, userId) == Ok(true) && relationshipId !in st.relationships
      ==> r == Err(RelationshipNotFound)
    ensures r.Ok? ==> r.value == st.(relationships := st.relationships - {relationshipId})
  {
    match Guard(OwnerOrMember(st, systemId, userId))
    case Fail(e) => Err(e)
    case Pass =>
      if relationshipId !in st.relationships then Err(RelationshipNotFound)
      else if st.relationships[relationshipId].systemId != systemId then Err(NotInSystem)
      else Ok(st.(relationships := st.relationships - {relationshipId}))
  }

  /** A declared relationship is listed last, after every earlier one of
      the system. */
  lemma CreatedIsListedLast(st: Store, systemId: Id, req: RelationshipRequest, userId: Id)
    requires CreateRelationship(st, systemId, req, userId).Ok?
    ensures var (st2, id) := CreateRelationship(st, systemId, req, userId).value;
      ListRelationships(st2, systemId, userId) == Ok(SystemRelationshipIds(st, systemId) + [id])
  {
    var (st2, id) := CreateRelationship(st, systemId, req, userId).value;
    assert id == Fresh(st.relationships);
    AddedIdListedLast(st, systemId, id, st2.relationships[id]);
    assert OwnerOrMember(st2, systemId, userId) == OwnerOrMember(st, systemId, userId);
  }

  /** A relationship of the system stored under an id above every other
      comes last in the listing. */
  lemma AddedIdListedLast(st: Store, systemId: Id, id: Id, rel: Relationship)
    requires forall x :: x in st.relationships ==> x < id
    requires rel.systemId == systemId
    ensures SystemRelationshipIds(st.(relationships := st.relationships[id := rel]), systemId)
         == SystemRelationshipIds(st, systemId) + [id]
  {
    var st2 := st.(relationships := st.relationships[id := rel]);
    var s := set x | x in st.relationships && st.relationships[x].systemId == systemId;
    var s2 := set x | x in st2.relationships && st2.relationships[x].systemId == systemId;
    assert s2 == s + {id};
    SortedKeysAddTop(s, id);
  }

  /** Deleting what was just declared restores the store. */
  lemma CreateThenDelete(st: Store, systemId: Id, req: RelationshipRequest, userId: Id)
    requires CreateRelationship(st, systemId, req, userId).Ok?
    ensures var (st2, id) := CreateRelationship(st, systemId, req, userId).value;
      DeleteRelationship(st2, systemId, id, userId) == Ok(st)
  {
    var (st2, id) := CreateRelationship(st, systemId, req, userId).value;
    assert OwnerOrMember(st2, systemId, userId) == OwnerOrMember(st, systemId, userId);
    assert st2.relationships - {id} == st.relationships;
  }
}
