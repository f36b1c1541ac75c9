/**
 * The catalog: the directory of registered tables, indexed twice, by name
 * and by table id (the id of the table's file). Both indexes are maps the
 * catalog updates in place.
 */
module Catalogs {
  import opened Wrappers
  import opened TupleDescs

  /** The parts of a table file the catalog uses: its id and its schema. */
  datatype DbFile = DbFile(id: int, tupleDesc: TupleDesc)

  /** One registration. */
  datatype Table = Table(file: DbFile, name: string, pkeyField: string)

  class Catalog {
    var byName: map<string, Table>
    var byId: map<int, Table>

    /**
     * Each name maps to a registration under that name, and each id maps
     * to a registration of a file with that id which is still its name's
     * current registration.
     */
    ghost predicate Valid()
      reads this
    {
      (forall n :: n in byName ==> byName[n].name == n) &&
      (forall id :: id in byId ==> byId[id].file.id == id && byId[id].name in byName && byName[byId[id].name] == byId[id])
    }

    /** `new Catalog()`: no tables. */
    constructor ()
      ensures byName == map[] && byId == map[]
      ensures Valid()
    {
      byName := map[];
      byId := map[];
    }

    /**
     * `addTable(file, name, pkeyField)`: a name registered before first
     * loses its old file's id entry; then the new registration is entered
     * under the name and under the file's id.
     */
    method AddTable(file: DbFile, name: string, pkeyField: string)
      requires Valid()
      modifies this
      ensures byName == old(byName)[name := Table(file, name, pkeyField)]
      ensures byId == (if name in old(byName) then old(byId) - {old(byName)[name].file.id} else old(byId))
                        [file.id := Table(file, name, pkeyField)]
      ensures Valid()
      ensures GetTableId(name) == Ok(file.id)
      ensures GetDatabaseFile(file.id) == Ok(file)
      ensures GetTupleDesc(file.id) == Ok(file.tupleDesc)
      ensures GetTableName(file.id) == Ok(name)
      ensures GetPrimaryKey(file.id) == Ok(pkeyField)
      ensures name in old(byName) && old(byName)[name].file.id != file.id ==>
                GetDatabaseFile(old(byName)[name].file.id) == Err(NoSuchElement)
      ensures forall n :: n != name ==> GetTableId(n) == old(GetTableId(n))
    {
      if name in byName {
        byId := byId - {byName[name].file.id};
      }
      var table := Table(file, name, pkeyField);
      byName := byName[name := table];
      byId := byId[file.id := table];
    }

    /** `addTable(file, name)`: registered with the empty primary key. */
    method AddTableNoKey(file: DbFile, name: string)
      requires Valid()
      modifies this
      ensures byName == old(byName)[name := Table(file, name, "")]
      ensures byId == (if name in old(byName) then old(byId) - {old(byName)[name].file.id} else old(byId))
                        [file.id := Table(file, name, "")]
      ensures Valid()
      ensures GetTableId(name) == Ok(file.id) && GetPrimaryKey(file.id) == Ok("")
    {
      AddTable(file, name, "");
    }

    /**
     * `addTable(file)`: registered with no primary key under a random
     * UUID string, which the caller supplies here as `uuid`.
     */
    method AddTableAnonymous(file: DbFile, uuid: string)
      requires Valid()
      modifies this
      ensures byName == old(byName)[uuid := Table(file, uuid, "")]
      ensures byId == (if uuid in old(byName) then old(byId) - {old(byName)[uuid].file.id} else old(byId))
                        [file.id := Table(file, uuid, "")]
      ensures Valid()
      ensures GetTableName(file.id) == Ok(uuid) && GetPrimaryKey(file.id) == Ok("")
    {
      AddTableNoKey(file, uuid);
    }

    /** `getTableId(name)`: the id of the file registered under the name. */
    function GetTableId(name: string): (r: Result<int>)
      reads this
      ensures r.Err? <==> name !in byName
      ensures r.Err? ==> r.error == NoSuchElement
    {
      if name in byName then Ok(byName[name].file.id) else Err(NoSuchElement)
    }

    /** `getTupleDesc(id)`: the registered file's own schema. */
    function GetTupleDesc(id: int): (r: Result<TupleDesc>)
      reads this
      ensures r.Err? <==> id !in byId
      ensures r.Err? ==> r.error == NoSuchElement
      ensures r.Ok? ==> GetDatabaseFile(id).Ok? && r.value == GetDatabaseFile(id).value.tupleDesc
    {
      if id in byId then Ok(byId[id].file.tupleDesc) else Err(NoSuchElement)
    }

    /** `getDatabaseFile(id)`. */
    function GetDatabaseFile(id: int): (r: Result<DbFile>)
      reads this
      ensures r.Err? <==> id !in byId
      ensures r.Err? ==> r.error == NoSuchElement
    {
      if id in byId then Ok(byId[id].file) else Err(NoSuchElement)
    }

    /** `getPrimaryKey(id)`. */
    function GetPrimaryKey(id: int): (r: Result<string>)
      reads this
      ensures r.Err? <==> id !in byId
      ensures r.Err? ==> r.error == NoSuchElement
    {
      if id in byId then Ok(byId[id].pkeyField) else Err(NoSuchElement)
    }

    /** `getTableName(id)`. */
    function GetTableName(id: int): (r: Result<string>)
      reads this
      ensures r.Err? <==> id !in byId
      ensures r.Err? ==> r.error == NoSuchElement
    {
      if id in byId then Ok(byId[id].name) else Err(NoSuchElement)
    }

    /** The ids `tableIdIterator` enumerates: exactly the ids that resolve to a file. */
    function TableIds(): (ids: set<int>)
      reads this
      ensures forall id :: id in ids <==> GetDatabaseFile(id).Ok?
    {
      byId.Keys
    }

    /** `clear`: both indexes emptied, so every lookup fails. */
    method Clear()
      modifies this
      ensures byName == map[] && byId == map[]
      ensures Valid()
      ensures forall n :: GetTableId(n) == Err(NoSuchElement)
      ensures forall id :: GetDatabaseFile(id) == Err(NoSuchElement) && GetTableName(id) == Err(NoSuchElement)
      ensures forall id :: GetTupleDesc(id) == Err(NoSuchElement) && GetPrimaryKey(id) == Err(NoSuchElement)
    {
      byId := map[];
      byName := map[];
    }
  }

  /**
   * The two indexes agree: an id's table name leads back to the id, and
   * the file found by id carries that id.
   */
  lemma IdNameRoundTrip(c: Catalog, id: int)
    requires c.Valid()
    ensures c.GetTableName(id).Ok? ==> c.GetTableId(c.GetTableName(id).value) == Ok(id)
    ensures c.GetDatabaseFile(id).Ok? ==> c.GetDatabaseFile(id).value.id == id
  {
  }
}
