/** The asset property repository (internal/repository/asset_property.go):
    the values of custom properties on assets, kept in assets_properties. */
module AssetProperties {
  import opened Common
  import opened CustomValues

  /** assets_properties, with rows whose owner is an asset and whose definition
      is a property. */
  class AssetPropertyTable {
    var rows: seq<ValueRow>
    /** The next AUTO_INCREMENT id. */
    var nextId: int

    ghost predicate Valid()
      reads this
    {
      nextId >= 1 && IdsBelow(rows, nextId)
    }

    constructor ()
      ensures Valid() && rows == [] && nextId == 1
    {
      rows, nextId := [], 1;
    }

    /** GetByID: the live row with that id, or AssetPropertyNotFound. */
    function GetByID(id: int): (r: Result<ValueRow>)
      reads this
      ensures r.Ok? ==> r.value in rows && r.value.id == id && Live(r.value)
      ensures r.Err? ==> r.error == AssetPropertyNotFound && forall x :: x in rows && x.id == id ==> !Live(x)
    {
      CustomValues.GetByID(rows, id, AssetPropertyNotFound)
    }

    /** GetByAssetID: the asset's live property values, in table order. */
    function GetByAssetID(assetId: int): (r: seq<ValueRow>)
      reads this
      ensures forall x :: x in r <==> x in rows && Live(x) && x.ownerId == assetId
    {
      GetByOwner(rows, assetId)
    }

    /** Create: inserts one live row and returns its id (written back to ap.ID). */
    method Create(assetId: int, propertyId: int, value: string) returns (id: int)
      requires Valid()
      modifies this
      ensures Valid()
      ensures id == old(nextId) && nextId == old(nextId) + 1
      ensures rows == old(rows) + [NewRow(id, assetId, propertyId, value)]
    {
      id := nextId;
      rows := rows + [NewRow(id, assetId, propertyId, value)];
      nextId := nextId + 1;
    }

    /** Update: sets the value of the live row with that id. */
    method Update(id: int, value: string)
      requires Valid()
      modifies this
      ensures Valid() && nextId == old(nextId)
      ensures rows == ValueSet(old(rows), id, value)
    {
      rows := ValueSet(rows, id, value);
    }

    /** Delete: tombstones the live row with that id. */
    method Delete(id: int, now: int)
      requires Valid()
      modifies this
      ensures Valid() && nextId == old(nextId)
      ensures rows == Deleted(old(rows), id, now)
      ensures GetByID(id) == Err(AssetPropertyNotFound)
      ensures UniqueLive(old(rows)) ==> UniqueLive(rows)
    {
      DeleteHides(rows, id, now, AssetPropertyNotFound);
      rows := Deleted(rows, id, now);
    }

    /** DeleteByAssetID: tombstones every live row of the asset. */
    method DeleteByAssetID(assetId: int, now: int)
      requires Valid()
      modifies this
      ensures Valid() && nextId == old(nextId)
      ensures UniqueLive(old(rows)) ==> UniqueLive(rows)
      ensures rows == DeletedByOwner(old(rows), assetId, now)
      ensures GetByAssetID(assetId) == []
      ensures forall other :: other != assetId ==> GetByAssetID(other) == old(GetByAssetID(other))
    {
      DeleteByOwnerScope(rows, assetId, now);
      if UniqueLive(rows) {
        DeleteByOwnerKeepsUniqueLive(rows, assetId, now);
      }
      SameIds(rows, DeletedByOwner(rows, assetId, now), nextId);
      rows := DeletedByOwner(rows, assetId, now);
    }

    /** Upsert: updates the value of the pair's live row and returns its id, or
        creates the row; the table keeps at most one live row per pair. */
    method Upsert(assetId: int, propertyId: int, value: string) returns (id: int)
      requires Valid()
      modifies this
      ensures Valid()
      ensures (rows, id) == Upserted(old(rows), old(nextId), assetId, propertyId, value)
      ensures UniqueLive(old(rows)) ==> UniqueLive(rows)
      ensures FindLive(rows, assetId, propertyId) == Some(NewRow(id, assetId, propertyId, value))
    {
      if UniqueLive(rows) {
        UpsertKeepsUniqueLive(rows, nextId, assetId, propertyId, value);
      }
      UpsertStoresValue(rows, nextId, assetId, propertyId, value);
      var existing := FindLive(rows, assetId, propertyId);
      if existing.None? {
        id := Create(assetId, propertyId, value);
        return;
      }
      id := existing.value.id;
      Update(id, value);
    }
  }
}
