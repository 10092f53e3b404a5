/** The person attribute repository (internal/repository/person_attribute.go):
    the values of custom attributes on persons, kept in persons_attributes. */
module PersonAttributes {
  import opened Common
  import opened CustomValues

  /** persons_attributes, with rows whose owner is a person and whose definition
      is an attribute. */
  class PersonAttributeTable {
    var rows: seq<ValueRow>
    /** The next AUTO_INCREMENT id. */
    var nextId: int

    ghost predicate Valid()
      reads this
    {
      nextId >= 1 && IdsBelow(rows, nextId)
    }

    constructor ()
      ensures Valid() && rows == [] && nextId == 1
    {
      rows, nextId := [], 1;
    }

    /** GetByID: the live row with that id, or PersonAttributeNotFound. */
    function GetByID(id: int): (r: Result<ValueRow>)
      reads this
      ensures r.Ok? ==> r.value in rows && r.value.id == id && Live(r.value)
      ensures r.Err? ==> r.error == PersonAttributeNotFound && forall x :: x in rows && x.id == id ==> !Live(x)
    {
      CustomValues.GetByID(rows, id, PersonAttributeNotFound)
    }

    /** GetByPersonID: the person's live attribute values, in table order. */
    function GetByPersonID(personId: int): (r: seq<ValueRow>)
      reads this
      ensures forall x :: x in r <==> x in rows && Live(x) && x.ownerId == personId
    {
      GetByOwner(rows, personId)
    }

    /** Create: inserts one live row and returns its id (written back to pa.ID). */
    method Create(personId: int, attributeId: int, value: string) returns (id: int)
      requires Valid()
      modifies this
      ensures Valid()
      ensures id == old(nextId) && nextId == old(nextId) + 1
      ensures rows == old(rows) + [NewRow(id, personId, attributeId, value)]
    {
      id := nextId;
      rows := rows + [NewRow(id, personId, attributeId, value)];
      nextId := nextId + 1;
    }

    /** Update: sets the value of the live row with that id. */
    method Update(id: int, value: string)
      requires Valid()
      modifies this
      ensures Valid() && nextId == old(nextId)
      ensures rows == ValueSet(old(rows), id, value)
    {
      rows := ValueSet(rows, id, value);
    }

    /** Delete: tombstones the live row with that id. */
    method Delete(id: int, now: int)
      requires Valid()
      modifies this
      ensures Valid() && nextId == old(nextId)
      ensures rows == Deleted(old(rows), id, now)
      ensures GetByID(id) == Err(PersonAttributeNotFound)
      ensures UniqueLive(old(rows)) ==> UniqueLive(rows)
    {
      DeleteHides(rows, id, now, PersonAttributeNotFound);
      rows := Deleted(rows, id, now);
    }

    /** DeleteByPersonID: tombstones every live row of the person. */
    method DeleteByPersonID(personId: int, now: int)
      requires Valid()
      modifies this
      ensures Valid() && nextId == old(nextId)
      ensures UniqueLive(old(rows)) ==> UniqueLive(rows)
      ensures rows == DeletedByOwner(old(rows), personId, now)
      ensures GetByPersonID(personId) == []
      ensures forall other :: other != personId ==> GetByPersonID(other) == old(GetByPersonID(other))
    {
      DeleteByOwnerScope(rows, personId, now);
      if UniqueLive(rows) {
        DeleteByOwnerKeepsUniqueLive(rows, personId, now);
      }
      SameIds(rows, DeletedByOwner(rows, personId, now), nextId);
      rows := DeletedByOwner(rows, personId, now);
    }

    /** Upsert: updates the value of the pair's live row and returns its id, or
        creates the row; the table keeps at most one live row per pair. */
    method Upsert(personId: int, attributeId: int, value: string) returns (id: int)
      requires Valid()
      modifies this
      ensures Valid()
      ensures (rows, id) == Upserted(old(rows), old(nextId), personId, attributeId, value)
      ensures UniqueLive(old(rows)) ==> UniqueLive(rows)
      ensures FindLive(rows, personId, attributeId) == Some(NewRow(id, personId, attributeId, value))
    {
      if UniqueLive(rows) {
        UpsertKeepsUniqueLive(rows, nextId, personId, attributeId, value);
      }
      UpsertStoresValue(rows, nextId, personId, attributeId, value);
      var existing := FindLive(rows, personId, attributeId);
      if existing.None? {
        id := Create(personId, attributeId, value);
        return;
      }
      id := existing.value.id;
      Update(id, value);
    }
  }
}
