/**
 * A client of the catalog, written only against the contracts of `MetaDb`:
 * the life of one database and one fragment, as the IO server's define,
 * store and drop operations drive it.
 */
module MetaDbScenario {
  import opened MetaDb

  /**
   * Defines a database as the server does: builds a standalone record,
   * adds it to an empty catalog, adds the same record a second time,
   * releases the caller's record, and finds the database by its key.
   */
  method DefineDb(name: string, device: string, isPersistent: bool, dbId: ResourceId)
    returns (added: Status, released: Status, again: Status, found: Option<DbRecord>)
    ensures added == Ok && again == DataErr && released == Ok
    ensures found == Some(DbRecord(name, device, isPersistent, dbId, 0, 0))
  {
    var r := SetupDbStruct(Some(name), Some(device), isPersistent, Some(dbId), 0);
    var rec := r.value;
    var c := new Catalog();
    added := c.AddDb(rec);
    again := c.AddDb(rec);
    released := CleanupStruct(Some(rec));
    var st, db := c.FindDb(Some(name), device);
    found := if db == null then None else Some(db.Record());
  }

  /**
   * In a catalog holding one empty database, links a fragment, tries to
   * drop the database while the fragment is linked, unlinks the fragment
   * asking for its resource identifier, and drops the database.
   */
  method FragmentLifecycle(rec: DbRecord, frag: FragRow)
    returns (busy: Status, fragId: Option<ResourceId>, removed: Status, after: Status)
    requires rec.fragNumber == 0
    ensures busy == DataErr
    ensures fragId == Some(frag.fragId)
    ensures removed == Ok && after == DataErr
  {
    var c := new Catalog();
    var added := c.AddDb(rec);
    var st, db := c.FindDb(Some(rec.dbName), rec.device);

    CountEmpty(db.Frags());
    assert Lookup(db.Frags(), frag.fragName).None?;
    var linked := db.AddFrag(frag);
    assert linked == Ok && db.fragNumber == 1;
    assert Lookup(db.Frags(), frag.fragName) == Some(frag.(dbPtr := db));
    assert c.dbs == [db] && db.Valid();
    assert c.Valid();
    busy := c.RemoveDb(rec.dbName, rec.device);

    var unlinked;
    unlinked, fragId := db.RemoveFrag(frag.fragName, true);
    assert c.dbs == [db] && db.Valid() && db.fragNumber == 0;
    assert c.Valid();
    removed := c.RemoveDb(rec.dbName, rec.device);
    var gone;
    after, gone := c.FindDb(Some(rec.dbName), rec.device);
  }
}
