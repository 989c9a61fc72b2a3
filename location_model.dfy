/** LocationModel: the `location` table, a find-or-create table keyed by the
    (address, zip code, city) triple. */
module LocationModel {
  import opened Php
  import opened Store

  predicate SamePlace(row: LocationRow, address: string, zipCode: string, city: string)
  {
    row.address == address && row.zipCode == zipCode && row.city == city
  }

  /** `SELECT location_id FROM location WHERE address = .. AND zip_code = .. AND city = ..`,
      first row fetched. */
  function FindLocation(rows: seq<LocationRow>, address: string, zipCode: string, city: string): (r: Option<LocationRow>)
    ensures r.Some? ==> r.value in rows && SamePlace(r.value, address, zipCode, city)
    ensures r.None? <==> forall i :: 0 <= i < |rows| ==> !SamePlace(rows[i], address, zipCode, city)
    decreases |rows|
  {
    if rows == [] then None
    else if SamePlace(rows[0], address, zipCode, city) then Some(rows[0])
    else
      var rest := FindLocation(rows[1..], address, zipCode, city);
      assert forall i :: 1 <= i < |rows| ==> rows[i] == rows[1..][i - 1];
      rest
  }

  lemma {:induction false} FindLocationAppend(rows: seq<LocationRow>, row: LocationRow)
    requires FindLocation(rows, row.address, row.zipCode, row.city).None?
    ensures FindLocation(rows + [row], row.address, row.zipCode, row.city) == Some(row)
    decreases |rows|
  {
    if rows != [] {
      assert (rows + [row])[1..] == rows[1..] + [row];
      FindLocationAppend(rows[1..], row);
    }
  }

  /** `INSERT INTO location (address, zip_code, city)`: the row takes the next AUTO_INCREMENT id. */
  function InsertLocation(t: Tables, address: string, zipCode: string, city: string): Tables
  {
    t.(locations := t.locations + [LocationRow(t.nextLocationId, address, zipCode, city)],
       nextLocationId := t.nextLocationId + 1)
  }

  /** What a successful create leaves: the tables, and the id it returns. */
  function FindOrCreate(t: Tables, address: string, zipCode: string, city: string): (r: (Tables, int))
    ensures FindLocation(r.0.locations, address, zipCode, city).Some?
    ensures FindLocation(r.0.locations, address, zipCode, city).value.locationId == r.1
    ensures FindLocation(t.locations, address, zipCode, city).Some? ==> r.0 == t
    ensures FindLocation(t.locations, address, zipCode, city).None? ==>
              r.0 == InsertLocation(t, address, zipCode, city) && r.1 == t.nextLocationId
  {
    match FindLocation(t.locations, address, zipCode, city)
    case Some(found) => (t, found.locationId)
    case None =>
      FindLocationAppend(t.locations, LocationRow(t.nextLocationId, address, zipCode, city));
      (InsertLocation(t, address, zipCode, city), t.nextLocationId)
  }

  /** create is idempotent: the same triple twice yields the same id and one row at most. */
  lemma CreateIdempotent(t: Tables, address: string, zipCode: string, city: string)
    ensures FindOrCreate(FindOrCreate(t, address, zipCode, city).0, address, zipCode, city)
         == FindOrCreate(t, address, zipCode, city)
    ensures |FindOrCreate(t, address, zipCode, city).0.locations| <= |t.locations| + 1
  {
  }

  lemma InsertLocationKeepsIdsValid(t: Tables, address: string, zipCode: string, city: string)
    requires 1 <= t.nextLocationId && LocationIdsValid(t.locations, t.nextLocationId)
    ensures LocationIdsValid(InsertLocation(t, address, zipCode, city).locations,
                             InsertLocation(t, address, zipCode, city).nextLocationId)
  {
    var rows := InsertLocation(t, address, zipCode, city).locations;
    forall i, j | 0 <= i < j < |rows| ensures rows[i].locationId != rows[j].locationId {
      assert rows[i] == t.locations[i];
      if j < |t.locations| {
        assert rows[j] == t.locations[j];
      }
    }
  }

  /** Creating two triples that differ in address, zip code or city, one after the other,
      yields two different ids. */
  lemma DistinctPlacesDistinctIds(t: Tables, a1: string, z1: string, c1: string, a2: string, z2: string, c2: string)
    requires 1 <= t.nextLocationId && LocationIdsValid(t.locations, t.nextLocationId)
    requires a1 != a2 || z1 != z2 || c1 != c2
    ensures FindOrCreate(t, a1, z1, c1).1 != FindOrCreate(FindOrCreate(t, a1, z1, c1).0, a2, z2, c2).1
  {
    var (t1, id1) := FindOrCreate(t, a1, z1, c1);
    if FindLocation(t.locations, a1, z1, c1).None? {
      InsertLocationKeepsIdsValid(t, a1, z1, c1);
    }
    var found1 := FindLocation(t1.locations, a1, z1, c1).value;
    match FindLocation(t1.locations, a2, z2, c2)
    case Some(found2) =>
      var i :| 0 <= i < |t1.locations| && t1.locations[i] == found1;
      var j :| 0 <= j < |t1.locations| && t1.locations[j] == found2;
      assert i != j;
    case None =>
  }

  /** LocationModel::create: the id of an existing location with this triple, without writing;
      otherwise the id of a newly inserted one; `false` (None) when the insert fails. */
  method Create(db: Connection, address: string, zipCode: string, city: string) returns (id: Option<int>)
    requires db.Valid()
    modifies db
    ensures db.Valid()
    ensures db.inTransaction == old(db.inTransaction) && db.snapshot == old(db.snapshot)
    ensures FindLocation(old(db.data.locations), address, zipCode, city).Some? || LocationTable !in db.failing ==>
              id == Some(FindOrCreate(old(db.data), address, zipCode, city).1)
              && db.data == FindOrCreate(old(db.data), address, zipCode, city).0
    ensures FindLocation(old(db.data.locations), address, zipCode, city).None? && LocationTable in db.failing ==>
              id == None && db.data == old(db.data)
  {
    var existing := FindLocation(db.data.locations, address, zipCode, city);
    if existing.Some? {
      return Some(existing.value.locationId);
    }
    if LocationTable in db.failing {
      return None;
    }
    var newId := db.data.nextLocationId;
    InsertLocationKeepsIdsValid(db.data, address, zipCode, city);
    db.data := InsertLocation(db.data, address, zipCode, city);
    id := Some(newId);
  }

  /** `SELECT * FROM location WHERE location_id = id`: the row with that id, or nothing. */
  function LocationById(rows: seq<LocationRow>, id: int): (r: Option<LocationRow>)
    ensures r.Some? ==> r.value in rows && r.value.locationId == id
    ensures r.None? <==> forall i :: 0 <= i < |rows| ==> rows[i].locationId != id
    decreases |rows|
  {
    if rows == [] then None
    else if rows[0].locationId == id then Some(rows[0])
    else
      var rest := LocationById(rows[1..], id);
      assert forall i :: 1 <= i < |rows| ==> rows[i] == rows[1..][i - 1];
      rest
  }

  /** LocationModel::getById. */
  method GetById(db: Connection, id: int) returns (location: Option<LocationRow>)
    ensures location == LocationById(db.data.locations, id)
  {
    location := LocationById(db.data.locations, id);
  }

  /** `DELETE FROM location WHERE location_id = id`. */
  function DeleteLocation(rows: seq<LocationRow>, id: int): (r: seq<LocationRow>)
    ensures |r| <= |rows|
    decreases |rows|
  {
    if rows == [] then []
    else (if rows[0].locationId == id then [] else [rows[0]]) + DeleteLocation(rows[1..], id)
  }

  /** delete keeps exactly the rows with another id. */
  lemma {:induction false} DeleteLocationMembers(rows: seq<LocationRow>, id: int)
    ensures forall x :: x in DeleteLocation(rows, id) <==> x in rows && x.locationId != id
    decreases |rows|
  {
    if rows != [] {
      assert rows == [rows[0]] + rows[1..];
      DeleteLocationMembers(rows[1..], id);
    }
  }

  lemma {:induction false} DeleteLocationKeepsIdsValid(rows: seq<LocationRow>, id: int, next: int)
    requires LocationIdsValid(rows, next)
    ensures LocationIdsValid(DeleteLocation(rows, id), next)
    decreases |rows|
  {
    if rows != [] {
      assert LocationIdsValid(rows[1..], next) by {
        forall i, j | 0 <= i < j < |rows[1..]| ensures rows[1..][i].locationId != rows[1..][j].locationId {
          assert rows[1..][i] == rows[i + 1] && rows[1..][j] == rows[j + 1];
        }
      }
      DeleteLocationKeepsIdsValid(rows[1..], id, next);
      DeleteLocationMembers(rows[1..], id);
      var rest := DeleteLocation(rows[1..], id);
      if rows[0].locationId != id {
        var r := [rows[0]] + rest;
        forall i, j | 0 <= i < j < |r| ensures r[i].locationId != r[j].locationId {
          if i == 0 {
            assert r[j] == rest[j - 1] && rest[j - 1] in rows[1..];
            var k :| 0 <= k < |rows[1..]| && rows[1..][k] == rest[j - 1];
            assert rows[k + 1] == rest[j - 1];
          } else {
            assert r[i] == rest[i - 1] && r[j] == rest[j - 1];
          }
        }
      }
    }
  }

  /** After delete, getById finds nothing under the deleted id and the same row as before under
      any other id. */
  lemma {:induction false} DeleteThenGetById(rows: seq<LocationRow>, id: int, k: int)
    ensures LocationById(DeleteLocation(rows, id), id).None?
    ensures k != id ==> LocationById(DeleteLocation(rows, id), k) == LocationById(rows, k)
    decreases |rows|
  {
    if rows != [] {
      var rest := DeleteLocation(rows[1..], id);
      DeleteThenGetById(rows[1..], id, k);
      if rows[0].locationId == id {
        assert DeleteLocation(rows, id) == [] + rest == rest;
      } else {
        var r := [rows[0]] + rest;
        assert DeleteLocation(rows, id) == r;
        assert r[0] == rows[0] && r[1..] == rest;
        assert LocationById(r, id) == LocationById(rest, id);
        if rows[0].locationId != k {
          assert LocationById(r, k) == LocationById(rest, k);
        }
      }
    }
  }

  /** LocationModel::delete: removes only the location with that id (success even if none). */
  method Delete(db: Connection, id: int) returns (ok: bool)
    requires db.Valid()
    modifies db
    ensures db.Valid()
    ensures db.inTransaction == old(db.inTransaction) && db.snapshot == old(db.snapshot)
    ensures ok == (LocationTable !in db.failing)
    ensures db.data == if ok then old(db.data).(locations := DeleteLocation(old(db.data.locations), id)) else old(db.data)
  {
    if LocationTable in db.failing {
      return false;
    }
    DeleteLocationKeepsIdsValid(db.data.locations, id, db.data.nextLocationId);
    db.data := db.data.(locations := DeleteLocation(db.data.locations, id));
    ok := true;
  }
}
