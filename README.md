# MetaDB catalog of the Ophidia IO server, in Dafny

This project models the MetaDB catalog of the Ophidia IO server, declared in
`src/metadb/oph_metadb_interface.h`. The catalog is the in-memory registry of
the databases that exist on a node and of the fragments each one holds.

- A **database record** (`oph_metadb_db_row`) is a node of the `next_db`
  chain. It is identified by the pair (`db_name`, `device`). It carries a
  persistence flag, a device resource id, a file offset and `frag_number`,
  and it owns a fragment hash table. In the model it is the class
  `MetaDb.DbRow`. Its key and table are `const`; the other fields are `var`.
  The chain itself is `MetaDb.Catalog.dbs`, a sequence of nodes, head first.
- A **fragment hash table** (`oph_metadb_frag_table`) has a fixed `size`
  (5000, `OPH_METADB_FRAG_TABLE_SIZE`) and an array of bucket heads. In the
  model it is the class `MetaDb.FragTable`: a `const` size and a `const`
  `array<seq<FragRow>>`. Each array cell is one `next_frag` chain, head
  first. Add, remove and update relink a chain by assigning a new sequence
  to its cell.
- A **fragment record** (`oph_metadb_frag_row`) is the datatype
  `MetaDb.FragRow`. Its `dbPtr` field is the back-pointer to the owning
  `DbRow`. A standalone record, as built by `oph_metadb_setup_frag_struct`,
  has a null `dbPtr`.
- A **standalone database record**, as built by `oph_metadb_setup_db_struct`
  and passed to add and update, is the datatype `MetaDb.DbRecord`.

Records are values, so the copy-in rule of add and update holds by
construction. The catalog stores a copy of the caller's record and never
aliases it. `AddDb` allocates a fresh node with a fresh table, and
`AddFrag`/`UpdateFrag` store a copy of the caller's record with `dbPtr` set to
the owning database.

The pure functions `Lookup`, `Insert`, `Remove`, `Update`, `Count` and
`FirstFrag` describe a table as a value: a sequence of bucket chains. Each
method's postcondition ties the new bucket array to one of these functions
applied to the old one. The lemmas `InsertSpec`, `RemoveSpec` and `UpdateSpec`
prove what each function does to lookups, to the record count and to the
table's shape. The database chain is described in the same way by `IndexOf`
and `UnlinkDbSpec`.

The object invariant `DbRow.Valid()` holds after every operation. It says
three things:

- every record sits in the bucket its name hashes to;
- no name occurs twice in a chain, and every record's `dbPtr` is the owning
  database;
- `frag_number` equals the number of records reachable from the buckets.

`Catalog.Valid()` adds that every database is valid, that (name, device)
keys are unique, and that no two databases share a bucket array. The
table's size is a `const` and so never changes.

The hash function that picks a bucket is an arbitrary deterministic function
of the name. It is the constant `MetaDb.FragHash`, which is declared without a
value, so no proof depends on which function it is. The bucket of a name is
`FragHash(name) % size`.

Error returns are the datatype `MetaDb.Status`, mirroring `OPH_METADB_OK`
(0) through `OPH_METADB_DATA_ERR` (4). Existence and cardinality failures
return `DataErr`. A null name or record is an `Option` where the header gives
it a meaning: `None` is refused by the setup and cleanup functions, and is the
"first entry" wildcard of the two find operations.

`scenario.dfy` (module `MetaDbScenario`) is a client that uses only the
contracts. It walks one database and one fragment through their whole life.

## Model

| member | source | states |
|---|---|---|
| `MetaDb.StatusCode` | src/metadb/oph_metadb_interface.h:34-38 | the code is 0 exactly for success and lies in 0..4 |
| `MetaDb.SetupDbStruct` | src/metadb/oph_metadb_interface.h:108-117 | fails with the null error exactly when the name, device or db id is missing; otherwise the record carries the given fields |
| `MetaDb.CleanupStruct` | src/metadb/oph_metadb_interface.h:119-144 | releasing a standalone database or fragment record succeeds exactly on a non-null record |
| `MetaDb.SetupFragStruct` | src/metadb/oph_metadb_interface.h:126-137 | fails with the null error exactly when the name, device, db id or frag id is missing; otherwise the record carries the given fields and no owner |
| `MetaDb.Bucket` | src/metadb/oph_metadb_interface.h:92-100 | the bucket a name selects lies in [0, size) |
| `MetaDb.FindInChain` | src/metadb/oph_metadb_interface.h:66-89 | walking a `next_frag` chain finds a record of that name if and only if the chain holds one |
| `MetaDb.ScanChain` | src/metadb/oph_metadb_interface.h:213-220 | the loop over a chain returns the position of the first record of that name, or -1 exactly when there is none |
| `MetaDb.CountReplaceBucket` | src/metadb/oph_metadb_interface.h:52 | relinking one bucket changes the reachable-record count by the change in that chain's length |
| `MetaDb.CountEmpty` | src/metadb/oph_metadb_interface.h:63 | a table holds no record if and only if every bucket chain is empty |
| `MetaDb.InsertSpec` | src/metadb/oph_metadb_interface.h:196-202 | linking a new name keeps the table well formed, adds one to the count, finds the new record by its name and every other name as before |
| `MetaDb.RemoveSpec` | src/metadb/oph_metadb_interface.h:204-211 | unlinking a present name keeps the table well formed, subtracts one from the count, no longer finds that name and finds every other name as before |
| `MetaDb.UpdateSpec` | src/metadb/oph_metadb_interface.h:222-228 | overwriting a present name keeps the table well formed and the count, finds the new record by that name and every other name as before |
| `MetaDb.FirstFragSpec` | src/metadb/oph_metadb_interface.h:213-216 | the first-fragment wildcard yields a record exactly when the table is non-empty, and that record is the one its own name finds |
| `MetaDb.UnlinkAt` | src/metadb/oph_metadb_interface.h:204-211 | splicing a chain around the first record of that name is unlinking that name |
| `MetaDb.OverwriteAt` | src/metadb/oph_metadb_interface.h:222-228 | overwriting the first record of that name in place is updating that name |
| `MetaDb.IndexOf` | src/metadb/oph_metadb_interface.h:186-194 | the position found is the first database whose (name, device) key matches, and -1 exactly when none does |
| `MetaDb.UnlinkDbSpec` | src/metadb/oph_metadb_interface.h:177-184 | unlinking one database from a chain with unique keys keeps keys unique, loses that key and keeps every other database findable |
| `MetaDb.FragTable.constructor` | src/metadb/oph_metadb_interface.h:92-100 | a new table has the given number of buckets, all empty |
| `MetaDb.DbRow.constructor` | src/metadb/oph_metadb_interface.h:161-164 | a new node copies the record's fields and owns a fresh, empty table of 5000 buckets |
| `MetaDb.DbRow.AddFrag` | src/metadb/oph_metadb_interface.h:196-202 | fails exactly when the name is already in the database, changing nothing; otherwise links a copy owned by this database, adds one to frag_number, and finds that copy by its name and every other name as before |
| `MetaDb.DbRow.RemoveFrag` | src/metadb/oph_metadb_interface.h:204-211 | fails exactly when the name is absent; otherwise unlinks it, subtracts one from frag_number, hands back its stored frag_id when asked, and no longer finds the name while finding every other name as before |
| `MetaDb.DbRow.FindFrag` | src/metadb/oph_metadb_interface.h:213-220 | returns the record of that name, or with no name the first record of the table, failing when there is none; the record points back at this database |
| `MetaDb.DbRow.UpdateFrag` | src/metadb/oph_metadb_interface.h:222-228 | fails exactly when the name is absent; otherwise overwrites that record with a copy keeping its name, owner and stored file offset, leaving frag_number and every other name unchanged |
| `MetaDb.Catalog.FindDb` | src/metadb/oph_metadb_interface.h:186-194 | returns the linked node with that (name, device) key, or with no name the head of the chain, failing when there is none; changes nothing |
| `MetaDb.Catalog.Locate` | src/metadb/oph_metadb_interface.h:187-190 | walking the chain yields the position of the database with that key, as `IndexOf` defines it |
| `MetaDb.Catalog.AddDb` | src/metadb/oph_metadb_interface.h:161-167 | fails exactly when the key already exists, leaving the chain as it was; otherwise pushes one fresh node equal in every field to the record and keeps every other node |
| `MetaDb.Catalog.UpdateDb` | src/metadb/oph_metadb_interface.h:169-175 | fails exactly when the key is absent; otherwise copies flag and db id into that node only, keeping its key, file offset, frag_number and fragments, and changes no other node |
| `MetaDb.Catalog.RemoveDb` | src/metadb/oph_metadb_interface.h:177-184 | fails exactly when the key is absent or its database still has fragments, changing nothing; otherwise unlinks it, after which its key is not found and every other database remains |
| `MetaDbScenario.DefineDb` | src/metadb/oph_metadb_interface.h:161-167 | after setup and add, a second add of the same key fails; once the caller has released its record, find gives back a database equal in every field to the one set up |
| `MetaDbScenario.FragmentLifecycle` | src/metadb/oph_metadb_interface.h:204-211 | a database holding a fragment cannot be removed; removing the fragment hands back the frag_id given when it was added, after which the database can be removed and is no longer found |

## Left out

- `oph_metadb_load_schema`, `oph_metadb_unload_schema` and `oph_metadb_set_data_prefix` are not modelled. They read and write binary snapshot files whose format is not stated in the header. `file_offset` is carried as an opaque natural number, and no operation writes to a file. An update keeps the offset already stored for the entry, because an offset stays stable until its entry is removed.
- The concrete hash function is not modelled. It is an arbitrary deterministic function, `FragHash`.
- `MemoryErr` (`OPH_METADB_MEMORY_ERR`) is never returned, because allocation cannot fail in the model. `IoErr` is never returned, because persistence is not modelled.
- Null-pointer checks are modelled only where the header gives a null argument a meaning: setup, cleanup and the find wildcards. The other operations take non-null arguments by type.
- `frag_number`, `file_offset` and `frag_size` are `unsigned long long` in C. The model uses unbounded naturals, so a 64-bit wrap-around of `frag_number` is not modelled; it would need 2^64 fragments. `is_persistent` is a 0/1 flag in C and a `bool` here.
- `MetaDb.Catalog.AddDb` and `MetaDb.DbRow.constructor`: require the record's `frag_number` to be 0. The copy gets a fresh, empty fragment table, so any other value would break the count invariant. The header does not say what the C code does with a non-zero count.
- The doc comments of add and remove fragment mention updating a `first_frag` field. The record structure has no such field, so there is nothing to model. The "first fragment" of the find wildcard is the head of the first non-empty bucket.
- The header gives every failure only as "non-0". The model returns `DataErr` (`OPH_METADB_DATA_ERR`) for every existence or cardinality failure: duplicate key, missing key, non-empty database, and nothing found by a find.
- `MetaDb.Catalog.FindDb`: with a null name it returns the head of the chain whatever the device, as line 187 says ("the first db is found"). The header does not say whether the device also filters the wildcard.
- The find-database doc says both that the result is a copy (line 189) and that it points directly at the catalog's record (line 191). The model follows line 191 and returns the linked node.
- `MetaDb.CleanupStruct`: only the null check of `oph_metadb_cleanup_db_struct` and `oph_metadb_cleanup_frag_struct` is modelled. Records are values, so there is no memory to release.
- The header does not show where a new database or fragment enters its chain. The model pushes it at the head, as the field comments' "stack" suggests (lines 47 and 69).
- The mutex around the catalog (src/server/oph_io_server_interface.h) is not modelled, because it is concurrency; the catalog is single-threaded.
- src/server/oph_io_server_interface.h and src/query_engine/oph_query_engine.h are not modelled. They hold the dispatcher, the running-statement and thread-status structs, wire tags and plugin tables. They are declarations with no stated behaviour.
