/**
 * The MetaDB catalog of the Ophidia IO server: the in-memory registry of the
 * databases on a node and, per database, of the fragments it holds.
 *
 * A database record (`DbRow`) is a node of the catalog's `next_db` chain and
 * owns a fragment hash table (`FragTable`): a fixed number of bucket chains,
 * each a `next_frag` chain of fragment records. Here a chain is a sequence
 * (head first) and a fragment record is a value, so relinking a chain is
 * reassigning a sequence.
 */
module MetaDb {

  // ---------------------------------------------------------------------
  // Status codes and records
  // ---------------------------------------------------------------------

  /** The OPH_METADB_* return codes. */
  datatype Status = Ok | NullErr | MemoryErr | IoErr | DataErr

  /** The integer a C caller sees: 0 on success, non-0 otherwise. */
  function StatusCode(s: Status): (c: int)
    ensures 0 <= c <= 4
    ensures c == 0 <==> s == Ok
  {
    match s
    case Ok => 0
    case NullErr => 1
    case MemoryErr => 2
    case IoErr => 3
    case DataErr => 4
  }

  datatype Option<T> = None | Some(value: T)

  datatype Result<T> = Success(value: T) | Failure(error: Status)

  /** Number of buckets of every fragment table (OPH_METADB_FRAG_TABLE_SIZE). */
  const FRAG_TABLE_SIZE: int := 5000

  /** A resource identifier issued by the storage device; only compared and copied. */
  datatype ResourceId = ResourceId(handle: seq<bv8>)

  /**
   * A standalone database record, as built by `SetupDbStruct` and passed
   * by the caller to `AddDb` and `UpdateDb` (which copy it).
   */
  datatype DbRecord = DbRecord(
    dbName: string,
    device: string,
    isPersistent: bool,
    dbId: ResourceId,
    fileOffset: nat,
    fragNumber: nat)

  /**
   * A fragment record. Standalone records have `dbPtr == null`; a record
   * linked in a table points back at the database that owns the table.
   */
  datatype FragRow = FragRow(
    fragName: string,
    dbPtr: DbRow?,
    fileOffset: nat,
    fragId: ResourceId,
    device: string,
    isPersistent: bool,
    dbId: ResourceId,
    fragSize: nat)

  /** Builds a standalone database record; the three pointers must be non-null. */
  function SetupDbStruct(dbName: Option<string>, device: Option<string>, isPersistent: bool,
                         dbId: Option<ResourceId>, fragNumber: nat): (r: Result<DbRecord>)
    ensures r.Success? <==> dbName.Some? && device.Some? && dbId.Some?
    ensures r.Failure? ==> r.error == NullErr
    ensures r.Success? ==>
      && r.value.dbName == dbName.value && r.value.device == device.value
      && r.value.isPersistent == isPersistent && r.value.dbId == dbId.value
      && r.value.fragNumber == fragNumber && r.value.fileOffset == 0
  {
    if dbName.None? || device.None? || dbId.None? then Failure(NullErr)
    else Success(DbRecord(dbName.value, device.value, isPersistent, dbId.value, 0, fragNumber))
  }

  /** Releases a standalone database or fragment record, one the catalog
      does not link; a null record is refused. */
  function CleanupStruct<T>(rec: Option<T>): (s: Status)
    ensures s == Ok <==> rec.Some?
    ensures s != Ok ==> s == NullErr
  {
    if rec.None? then NullErr else Ok
  }

  /** Builds a standalone fragment record; the four pointers must be non-null. */
  function SetupFragStruct(fragName: Option<string>, device: Option<string>, isPersistent: bool,
                           dbId: Option<ResourceId>, fragId: Option<ResourceId>,
                           fragSize: nat): (r: Result<FragRow>)
    ensures r.Success? <==> fragName.Some? && device.Some? && dbId.Some? && fragId.Some?
    ensures r.Failure? ==> r.error == NullErr
    ensures r.Success? ==>
      && r.value.fragName == fragName.value && r.value.device == device.value
      && r.value.isPersistent == isPersistent && r.value.dbId == dbId.value
      && r.value.fragId == fragId.value && r.value.fragSize == fragSize
      && r.value.dbPtr == null && r.value.fileOffset == 0
  {
    if fragName.None? || device.None? || dbId.None? || fragId.None? then Failure(NullErr)
    else Success(FragRow(fragName.value, null, 0, fragId.value, device.value, isPersistent, dbId.value, fragSize))
  }

  // ---------------------------------------------------------------------
  // The fragment hash table as a value: a sequence of bucket chains
  // ---------------------------------------------------------------------

  /** The hash of a fragment name. Its definition is not part of this model:
      it is an arbitrary, deterministic function, and nothing below depends
      on which one it is. */
  const FragHash: string -> nat

  /** The bucket a fragment name hashes to in a table of `size` buckets. */
  function Bucket(name: string, size: int): (b: int)
    requires size > 0
    ensures 0 <= b < size
  {
    FragHash(name) % size
  }

  /** The first record named `name` in a chain, walking `next_frag`. */
  function FindInChain(chain: seq<FragRow>, name: string): (r: Option<FragRow>)
    ensures r.Some? ==> r.value in chain && r.value.fragName == name
    ensures r.None? <==> forall j :: 0 <= j < |chain| ==> chain[j].fragName != name
  {
    if chain == [] then None
    else if chain[0].fragName == name then Some(chain[0])
    else FindInChain(chain[1..], name)
  }

  /** The chain with its first record named `name` unlinked. */
  function Unlink(chain: seq<FragRow>, name: string): (r: seq<FragRow>)
  {
    if chain == [] then []
    else if chain[0].fragName == name then chain[1..]
    else [chain[0]] + Unlink(chain[1..], name)
  }

  /** The chain with its first record named `f.fragName` overwritten by `f`. */
  function Overwrite(chain: seq<FragRow>, f: FragRow): (r: seq<FragRow>)
  {
    if chain == [] then []
    else if chain[0].fragName == f.fragName then [f] + chain[1..]
    else [chain[0]] + Overwrite(chain[1..], f)
  }

  /** The fragment named `name` in a table, looked up in its bucket. */
  function Lookup(t: seq<seq<FragRow>>, name: string): Option<FragRow>
    requires |t| > 0
  {
    FindInChain(t[Bucket(name, |t|)], name)
  }

  /** `f` linked at the head of its bucket chain. */
  function Insert(t: seq<seq<FragRow>>, f: FragRow): seq<seq<FragRow>>
    requires |t| > 0
  {
    var b := Bucket(f.fragName, |t|);
    t[b := [f] + t[b]]
  }

  /** The record named `name` unlinked from its bucket chain. */
  function Remove(t: seq<seq<FragRow>>, name: string): seq<seq<FragRow>>
    requires |t| > 0
  {
    var b := Bucket(name, |t|);
    t[b := Unlink(t[b], name)]
  }

  /** The record named `f.fragName` overwritten by `f` in its bucket chain. */
  function Update(t: seq<seq<FragRow>>, f: FragRow): seq<seq<FragRow>>
    requires |t| > 0
  {
    var b := Bucket(f.fragName, |t|);
    t[b := Overwrite(t[b], f)]
  }

  /** Number of records reachable from the buckets of a table. */
  function Count(t: seq<seq<FragRow>>): nat
  {
    if t == [] then 0 else |t[0]| + Count(t[1..])
  }

  /** The first record of the first non-empty bucket: what a wildcard find returns. */
  function FirstFrag(t: seq<seq<FragRow>>): Option<FragRow>
  {
    if t == [] then None
    else if t[0] != [] then Some(t[0][0])
    else FirstFrag(t[1..])
  }

  /**
   * The shape every table of a database `owner` keeps: each record sits in
   * the bucket its name hashes to, points back at `owner`, and no name
   * occurs twice in a chain.
   */
  ghost predicate WellFormed(t: seq<seq<FragRow>>, owner: DbRow)
  {
    && |t| > 0
    && (forall i, j :: 0 <= i < |t| && 0 <= j < |t[i]| ==>
          Bucket(t[i][j].fragName, |t|) == i && t[i][j].dbPtr == owner)
    && (forall i, j, k :: 0 <= i < |t| && 0 <= j < k < |t[i]| ==>
          t[i][j].fragName != t[i][k].fragName)
  }

  // ---------------------------------------------------------------------
  // Lemmas about the table operations
  // ---------------------------------------------------------------------

  /** Replacing one bucket changes the count by the difference in its length. */
  lemma {:induction false} CountReplaceBucket(t: seq<seq<FragRow>>, b: int, c: seq<FragRow>)
    requires 0 <= b < |t|
    ensures Count(t[b := c]) == Count(t) - |t[b]| + |c|
  {
    if b == 0 {
      assert t[b := c][1..] == t[1..];
    } else {
      assert t[b := c][1..] == t[1..][b - 1 := c];
      CountReplaceBucket(t[1..], b - 1, c);
    }
  }

  lemma {:induction false} UnlinkPresent(chain: seq<FragRow>, name: string)
    requires FindInChain(chain, name).Some?
    requires forall j, k :: 0 <= j < k < |chain| ==> chain[j].fragName != chain[k].fragName
    ensures |Unlink(chain, name)| == |chain| - 1
    ensures forall j :: 0 <= j < |Unlink(chain, name)| ==> Unlink(chain, name)[j].fragName != name
    ensures forall x :: x in Unlink(chain, name) <==> x in chain && x.fragName != name
  {
    if chain[0].fragName != name {
      UnlinkPresent(chain[1..], name);
    }
  }

  lemma {:induction false} UnlinkKeepsOthers(chain: seq<FragRow>, name: string, other: string)
    requires other != name
    ensures FindInChain(Unlink(chain, name), other) == FindInChain(chain, other)
  {
    if chain != [] && chain[0].fragName != name {
      UnlinkKeepsOthers(chain[1..], name, other);
    }
  }

  lemma {:induction false} UnlinkDistinct(chain: seq<FragRow>, name: string)
    requires forall j, k :: 0 <= j < k < |chain| ==> chain[j].fragName != chain[k].fragName
    ensures forall j, k :: 0 <= j < k < |Unlink(chain, name)| ==>
      Unlink(chain, name)[j].fragName != Unlink(chain, name)[k].fragName
    ensures forall x :: x in Unlink(chain, name) ==> x in chain
  {
    if chain != [] && chain[0].fragName != name {
      UnlinkDistinct(chain[1..], name);
      var u := Unlink(chain[1..], name);
      forall j | 0 <= j < |u| ensures u[j].fragName != chain[0].fragName {
        assert u[j] in chain[1..];
        var m :| 0 <= m < |chain[1..]| && chain[1..][m] == u[j];
        assert chain[m + 1] == u[j];
      }
    }
  }

  lemma {:induction false} OverwriteShape(chain: seq<FragRow>, f: FragRow)
    ensures |Overwrite(chain, f)| == |chain|
    ensures forall j :: 0 <= j < |chain| ==> Overwrite(chain, f)[j].fragName == chain[j].fragName
    ensures forall x :: x in Overwrite(chain, f) ==> x == f || x in chain
  {
    if chain != [] && chain[0].fragName != f.fragName {
      OverwriteShape(chain[1..], f);
    }
  }

  lemma {:induction false} OverwriteFinds(chain: seq<FragRow>, f: FragRow, name: string)
    requires FindInChain(chain, f.fragName).Some?
    ensures FindInChain(Overwrite(chain, f), name) ==
      if name == f.fragName then Some(f) else FindInChain(chain, name)
  {
    if chain[0].fragName != f.fragName {
      OverwriteFinds(chain[1..], f, name);
    }
  }

  /** Linking a fresh name: the table stays well formed, holds one more
      record, and maps that name to the new record and every other name as before. */
  lemma InsertSpec(t: seq<seq<FragRow>>, owner: DbRow, f: FragRow)
    requires WellFormed(t, owner) && f.dbPtr == owner
    requires Lookup(t, f.fragName).None?
    ensures WellFormed(Insert(t, f), owner)
    ensures Count(Insert(t, f)) == Count(t) + 1
    ensures forall name :: Lookup(Insert(t, f), name) ==
                           (if name == f.fragName then Some(f) else Lookup(t, name))
  {
    var b := Bucket(f.fragName, |t|);
    CountReplaceBucket(t, b, [f] + t[b]);
    var t': seq<seq<FragRow>> := Insert(t, f);
    forall i, j, k | 0 <= i < |t'| && 0 <= j < k < |t'[i]|
      ensures t'[i][j].fragName != t'[i][k].fragName
    {
      if i == b && j == 0 {
        assert t'[i][k] == t[b][k - 1];
      }
    }
  }

  /** Unlinking a present name: the table stays well formed, holds one record
      fewer, and no longer maps that name, while every other name is kept. */
  lemma RemoveSpec(t: seq<seq<FragRow>>, owner: DbRow, name: string)
    requires WellFormed(t, owner)
    requires Lookup(t, name).Some?
    ensures WellFormed(Remove(t, name), owner)
    ensures Count(Remove(t, name)) == Count(t) - 1
    ensures forall n :: Lookup(Remove(t, name), n) ==
                        (if n == name then None else Lookup(t, n))
  {
    var b := Bucket(name, |t|);
    var c := t[b];
    UnlinkPresent(c, name);
    UnlinkDistinct(c, name);
    CountReplaceBucket(t, b, Unlink(c, name));
    var t': seq<seq<FragRow>> := Remove(t, name);
    forall i, j | 0 <= i < |t'| && 0 <= j < |t'[i]|
      ensures Bucket(t'[i][j].fragName, |t'|) == i && t'[i][j].dbPtr == owner
    {
      if i == b {
        assert t'[i][j] in c;
      }
    }
    forall n ensures Lookup(t', n) == if n == name then None else Lookup(t, n) {
      if n != name {
        UnlinkKeepsOthers(c, name, n);
      }
    }
  }

  /** Overwriting a present name: the table stays well formed, holds as many
      records, and maps that name to the new record and every other name as before. */
  lemma UpdateSpec(t: seq<seq<FragRow>>, owner: DbRow, f: FragRow)
    requires WellFormed(t, owner) && f.dbPtr == owner
    requires Lookup(t, f.fragName).Some?
    ensures WellFormed(Update(t, f), owner)
    ensures Count(Update(t, f)) == Count(t)
    ensures forall name :: Lookup(Update(t, f), name) ==
                           (if name == f.fragName then Some(f) else Lookup(t, name))
  {
    var b := Bucket(f.fragName, |t|);
    var c := t[b];
    OverwriteShape(c, f);
    CountReplaceBucket(t, b, Overwrite(c, f));
    var t': seq<seq<FragRow>> := Update(t, f);
    forall i, j | 0 <= i < |t'| && 0 <= j < |t'[i]|
      ensures Bucket(t'[i][j].fragName, |t'|) == i && t'[i][j].dbPtr == owner
    {
      if i == b {
        assert t'[i][j].fragName == c[j].fragName;
        assert t'[i][j] in Overwrite(c, f);
      }
    }
    forall name ensures Lookup(t', name) == if name == f.fragName then Some(f) else Lookup(t, name) {
      OverwriteFinds(c, f, name);
    }
  }

  lemma {:induction false} FirstFragAt(t: seq<seq<FragRow>>)
    ensures FirstFrag(t).None? <==> Count(t) == 0
    ensures FirstFrag(t).Some? ==>
      exists i :: 0 <= i < |t| && t[i] != [] && FirstFrag(t).value == t[i][0]
  {
    if t != [] && t[0] == [] {
      FirstFragAt(t[1..]);
      if FirstFrag(t).Some? {
        var i :| 0 <= i < |t[1..]| && t[1..][i] != [] && FirstFrag(t[1..]).value == t[1..][i][0];
        assert t[i + 1] == t[1..][i];
      }
    }
  }

  /** The wildcard find yields a record exactly when the table is non-empty,
      and that record is the one its own name finds. */
  lemma FirstFragSpec(t: seq<seq<FragRow>>, owner: DbRow)
    requires WellFormed(t, owner)
    ensures FirstFrag(t).None? <==> Count(t) == 0
    ensures FirstFrag(t).Some? ==> Lookup(t, FirstFrag(t).value.fragName) == FirstFrag(t)
  {
    FirstFragAt(t);
  }

  /** A table holds no record exactly when every bucket chain is empty. */
  lemma {:induction false} CountEmpty(t: seq<seq<FragRow>>)
    ensures Count(t) == 0 <==> forall i :: 0 <= i < |t| ==> t[i] == []
  {
    if t != [] {
      CountEmpty(t[1..]);
      assert forall i :: 1 <= i < |t| ==> t[i] == t[1..][i - 1];
    }
  }

  /** Splicing out the first match at position `k` is unlinking it by name. */
  lemma {:induction false} UnlinkAt(chain: seq<FragRow>, name: string, k: int)
    requires 0 <= k < |chain| && chain[k].fragName == name
    requires forall j :: 0 <= j < k ==> chain[j].fragName != name
    ensures Unlink(chain, name) == chain[..k] + chain[k + 1..]
  {
    if k > 0 {
      UnlinkAt(chain[1..], name, k - 1);
      assert chain[1..][..k - 1] + chain[1..][k..] == (chain[..k] + chain[k + 1..])[1..];
    }
  }

  /** Overwriting the first match at position `k` in place is overwriting it by name. */
  lemma {:induction false} OverwriteAt(chain: seq<FragRow>, f: FragRow, k: int)
    requires 0 <= k < |chain| && chain[k].fragName == f.fragName
    requires forall j :: 0 <= j < k ==> chain[j].fragName != f.fragName
    ensures Overwrite(chain, f) == chain[k := f]
  {
    if k > 0 {
      OverwriteAt(chain[1..], f, k - 1);
      assert chain[1..][k - 1 := f] == chain[k := f][1..];
    }
  }

  /** Walks a `next_frag` chain and returns the position of the first record
      named `name`, or -1 when there is none. */
  method ScanChain(chain: seq<FragRow>, name: string) returns (k: int)
    ensures -1 <= k < |chain|
    ensures k < 0 ==> FindInChain(chain, name).None?
    ensures k >= 0 ==> FindInChain(chain, name) == Some(chain[k]) && chain[k].fragName == name
    ensures k >= 0 ==> forall j :: 0 <= j < k ==> chain[j].fragName != name
  {
    k := 0;
    while k < |chain|
      invariant 0 <= k <= |chain|
      invariant forall j :: 0 <= j < k ==> chain[j].fragName != name
      invariant FindInChain(chain, name) == FindInChain(chain[k..], name)
    {
      if chain[k].fragName == name {
        return;
      }
      assert chain[k..][1..] == chain[k + 1..];
      k := k + 1;
    }
    k := -1;
  }

  // ---------------------------------------------------------------------
  // The catalog in the heap
  // ---------------------------------------------------------------------

  /** The fragment hash table of one database (oph_metadb_frag_table): its
      size and bucket array are fixed when it is created. */
  class FragTable {
    const size: int
    const rows: array<seq<FragRow>>

    constructor (size: int)
      requires size > 0
      ensures this.size == size && rows.Length == size && fresh(rows)
      ensures forall i :: 0 <= i < size ==> rows[i] == []
    {
      this.size := size;
      rows := new seq<FragRow>[size](_ => []);
    }
  }

  /** A database record linked in the catalog (oph_metadb_db_row). Its key,
      (`dbName`, `device`), and its table never change. */
  class DbRow {
    const dbName: string
    const device: string
    const table: FragTable
    var isPersistent: bool
    var dbId: ResourceId
    var fileOffset: nat
    var fragNumber: nat

    /** The bucket chains of the table, as values. */
    ghost function Frags(): seq<seq<FragRow>>
      reads table.rows
    {
      table.rows[..]
    }

    /** The object invariant: the table is well formed for this database and
        `fragNumber` counts the records reachable from its buckets. */
    ghost predicate Valid()
      reads this, table.rows
    {
      && table.size == table.rows.Length
      && WellFormed(Frags(), this)
      && fragNumber == Count(Frags())
    }

    /** The record's fields, as a standalone record. */
    function Record(): DbRecord
      reads this
    {
      DbRecord(dbName, device, isPersistent, dbId, fileOffset, fragNumber)
    }

    /** A copy of a standalone record, owning a fresh table with no fragments. */
    constructor (rec: DbRecord)
      requires rec.fragNumber == 0
      ensures Valid() && Record() == rec
      ensures fresh(table) && fresh(table.rows) && table.size == FRAG_TABLE_SIZE
      ensures forall i :: 0 <= i < table.size ==> Frags()[i] == []
    {
      dbName := rec.dbName;
      device := rec.device;
      isPersistent := rec.isPersistent;
      dbId := rec.dbId;
      fileOffset := rec.fileOffset;
      fragNumber := 0;
      table := new FragTable(FRAG_TABLE_SIZE);
      new;
      CountEmpty(table.rows[..]);
    }

    /** oph_metadb_add_frag: links a copy of `frag` (pointing back at this
        database) unless a fragment of that name is already here. */
    method AddFrag(frag: FragRow) returns (st: Status)
      requires Valid()
      modifies this, table.rows
      ensures Valid()
      ensures st == Ok <==> old(Lookup(Frags(), frag.fragName)).None?
      ensures st != Ok ==> st == DataErr
      ensures Frags() == if st == Ok then old(Insert(Frags(), frag.(dbPtr := this))) else old(Frags())
      ensures fragNumber == if st == Ok then old(fragNumber) + 1 else old(fragNumber)
      ensures Lookup(Frags(), frag.fragName) ==
                if st == Ok then Some(frag.(dbPtr := this)) else old(Lookup(Frags(), frag.fragName))
      ensures forall n :: n != frag.fragName ==> Lookup(Frags(), n) == old(Lookup(Frags(), n))
      ensures isPersistent == old(isPersistent) && dbId == old(dbId) && fileOffset == old(fileOffset)
    {
      var b := Bucket(frag.fragName, table.size);
      var k := ScanChain(table.rows[b], frag.fragName);
      if k >= 0 {
        return DataErr;
      }
      var stored := frag.(dbPtr := this);
      InsertSpec(table.rows[..], this, stored);
      table.rows[b] := [stored] + table.rows[b];
      fragNumber := fragNumber + 1;
      return Ok;
    }

    /** oph_metadb_remove_frag: unlinks the fragment named `name`; when the
        caller asks for it (`wantId`), hands back its resource identifier. */
    method RemoveFrag(name: string, wantId: bool) returns (st: Status, fragId: Option<ResourceId>)
      requires Valid()
      modifies this, table.rows
      ensures Valid()
      ensures st == Ok <==> old(Lookup(Frags(), name)).Some?
      ensures st != Ok ==> st == DataErr && fragId.None?
      ensures st == Ok ==>
        fragId == if wantId then Some(old(Lookup(Frags(), name)).value.fragId) else None
      ensures Frags() == if st == Ok then old(Remove(Frags(), name)) else old(Frags())
      ensures fragNumber == if st == Ok then old(fragNumber) - 1 else old(fragNumber)
      ensures Lookup(Frags(), name).None?
      ensures forall n :: n != name ==> Lookup(Frags(), n) == old(Lookup(Frags(), n))
      ensures isPersistent == old(isPersistent) && dbId == old(dbId) && fileOffset == old(fileOffset)
    {
      var b := Bucket(name, table.size);
      var chain := table.rows[b];
      var k := ScanChain(chain, name);
      if k < 0 {
        return DataErr, None;
      }
      fragId := if wantId then Some(chain[k].fragId) else None;
      RemoveSpec(table.rows[..], this, name);
      UnlinkAt(chain, name, k);
      table.rows[b] := chain[..k] + chain[k + 1..];
      fragNumber := fragNumber - 1;
      st := Ok;
    }

    /** oph_metadb_update_frag: overwrites the fragment named `frag.fragName`
        with a copy of `frag`; its name, owning database and snapshot offset
        stay. */
    method UpdateFrag(frag: FragRow) returns (st: Status)
      requires Valid()
      modifies table.rows
      ensures Valid()
      ensures st == Ok <==> old(Lookup(Frags(), frag.fragName)).Some?
      ensures st != Ok ==> st == DataErr && Frags() == old(Frags())
      ensures st == Ok ==>
        var stored := frag.(dbPtr := this, fileOffset := old(Lookup(Frags(), frag.fragName)).value.fileOffset);
        && Frags() == old(Update(Frags(), stored))
        && Lookup(Frags(), frag.fragName) == Some(stored)
      ensures forall n :: n != frag.fragName ==> Lookup(Frags(), n) == old(Lookup(Frags(), n))
      ensures fragNumber == old(fragNumber)
    {
      var b := Bucket(frag.fragName, table.size);
      var chain := table.rows[b];
      var k := ScanChain(chain, frag.fragName);
      if k < 0 {
        return DataErr;
      }
      var stored := frag.(dbPtr := this, fileOffset := chain[k].fileOffset);
      UpdateSpec(table.rows[..], this, stored);
      OverwriteAt(chain, stored, k);
      table.rows[b] := chain[k := stored];
      return Ok;
    }

    /** oph_metadb_find_frag: the fragment named `name`, or with no name the
        first fragment of the table; fails when there is none. */
    method FindFrag(name: Option<string>) returns (st: Status, frag: Option<FragRow>)
      requires Valid()
      ensures st == Ok <==> frag.Some?
      ensures st != Ok ==> st == DataErr
      ensures name.Some? ==> frag == Lookup(Frags(), name.value)
      ensures name.None? ==> frag == FirstFrag(Frags())
      ensures frag.Some? ==> frag.value.dbPtr == this
    {
      if name.Some? {
        var chain := table.rows[Bucket(name.value, table.size)];
        var k := ScanChain(chain, name.value);
        if k < 0 {
          return DataErr, None;
        }
        return Ok, Some(chain[k]);
      }
      var i := 0;
      while i < table.size
        invariant 0 <= i <= table.size
        invariant FirstFrag(table.rows[..]) == FirstFrag(table.rows[i..])
      {
        if table.rows[i] != [] {
          return Ok, Some(table.rows[i][0]);
        }
        assert table.rows[i..][1..] == table.rows[i + 1..];
        i := i + 1;
      }
      return DataErr, None;
    }
  }

  // ---------------------------------------------------------------------
  // The database chain
  // ---------------------------------------------------------------------

  /** Whether `d` is the database identified by (`name`, `device`). */
  predicate Matches(d: DbRow, name: string, device: string)
  {
    d.dbName == name && d.device == device
  }

  /** No two databases of a chain share their (name, device) key. */
  predicate UniqueKeys(dbs: seq<DbRow>)
  {
    forall i, j :: 0 <= i < j < |dbs| ==> !Matches(dbs[j], dbs[i].dbName, dbs[i].device)
  }

  /** Position of the first database with key (`name`, `device`) in the
      chain, or -1 when no database has that key. */
  function IndexOf(dbs: seq<DbRow>, name: string, device: string): (k: int)
    ensures -1 <= k < |dbs|
    ensures k >= 0 ==> Matches(dbs[k], name, device)
    ensures k >= 0 ==> forall j :: 0 <= j < k ==> !Matches(dbs[j], name, device)
    ensures k < 0 <==> forall j :: 0 <= j < |dbs| ==> !Matches(dbs[j], name, device)
  {
    if dbs == [] then -1
    else if Matches(dbs[0], name, device) then 0
    else
      var k := IndexOf(dbs[1..], name, device);
      if k < 0 then -1 else k + 1
  }

  /** Unlinking the database at position `k` of a chain with unique keys:
      its key is no longer found, and every other database still is. */
  lemma UnlinkDbSpec(dbs: seq<DbRow>, k: int)
    requires UniqueKeys(dbs) && 0 <= k < |dbs|
    ensures UniqueKeys(dbs[..k] + dbs[k + 1..])
    ensures IndexOf(dbs[..k] + dbs[k + 1..], dbs[k].dbName, dbs[k].device) < 0
    ensures forall d :: d in dbs && d != dbs[k] ==> d in dbs[..k] + dbs[k + 1..]
    ensures forall i :: 0 <= i < |dbs| && i != k ==>
      var rest := dbs[..k] + dbs[k + 1..];
      var m := IndexOf(rest, dbs[i].dbName, dbs[i].device);
      0 <= m && rest[m] == dbs[i]
  {
    var rest := dbs[..k] + dbs[k + 1..];
    forall d | d in dbs && d != dbs[k] ensures d in rest {
      var i :| 0 <= i < |dbs| && dbs[i] == d;
      assert rest[if i < k then i else i - 1] == d;
    }
    forall i | 0 <= i < |dbs| && i != k
      ensures 0 <= IndexOf(rest, dbs[i].dbName, dbs[i].device)
      ensures rest[IndexOf(rest, dbs[i].dbName, dbs[i].device)] == dbs[i]
    {
      var at := if i < k then i else i - 1;
      assert rest[at] == dbs[i];
      var m := IndexOf(rest, dbs[i].dbName, dbs[i].device);
      var mi := if m < k then m else m + 1;
      assert rest[m] == dbs[mi];
    }
  }

  /** The catalog (the `meta_db` handle): the chain of databases of the node,
      head first. */
  class Catalog {
    var dbs: seq<DbRow>

    /** Every database is valid, keys are unique, and no two databases share a bucket array. */
    ghost predicate Valid()
      reads this, dbs, set d | d in dbs :: d.table.rows
    {
      && (forall i :: 0 <= i < |dbs| ==> dbs[i].Valid())
      && UniqueKeys(dbs)
      && (forall i, j :: 0 <= i < j < |dbs| ==> dbs[i].table.rows != dbs[j].table.rows)
    }

    /** An empty catalog. */
    constructor ()
      ensures Valid() && dbs == []
    {
      dbs := [];
    }

    /** oph_metadb_find_db: walks the chain for the database (`name`, `device`),
        or with no name takes the first database of the chain. The result is
        the linked record itself. */
    method FindDb(name: Option<string>, device: string) returns (st: Status, db: DbRow?)
      ensures st == Ok <==> db != null
      ensures st != Ok ==> st == DataErr
      ensures name.None? ==> db == if dbs == [] then null else dbs[0]
      ensures name.Some? ==>
        db == (var k := IndexOf(dbs, name.value, device); if k < 0 then null else dbs[k])
    {
      if name.None? {
        if dbs == [] {
          return DataErr, null;
        }
        return Ok, dbs[0];
      }
      var k := Locate(name.value, device);
      if k < 0 {
        return DataErr, null;
      }
      return Ok, dbs[k];
    }

    /** Walks the `next_db` chain for the database (`name`, `device`) and
        returns its position, or -1 when no database has that key. */
    method Locate(name: string, device: string) returns (k: int)
      ensures k == IndexOf(dbs, name, device)
    {
      k := 0;
      while k < |dbs|
        invariant 0 <= k <= |dbs|
        invariant forall j :: 0 <= j < k ==> !Matches(dbs[j], name, device)
      {
        if Matches(dbs[k], name, device) {
          return;
        }
        k := k + 1;
      }
      k := -1;
    }

    /** oph_metadb_add_db: pushes a copy of `rec` at the head of the chain,
        unless a database with its key is already there. */
    method AddDb(rec: DbRecord) returns (st: Status)
      requires Valid() && rec.fragNumber == 0
      modifies this
      ensures Valid()
      ensures st == Ok <==> IndexOf(old(dbs), rec.dbName, rec.device) < 0
      ensures st != Ok ==> st == DataErr && dbs == old(dbs)
      ensures st == Ok ==>
        && |dbs| == |old(dbs)| + 1 && dbs[1..] == old(dbs)
        && fresh(dbs[0]) && fresh(dbs[0].table.rows)
        && dbs[0].Record() == rec && Count(dbs[0].Frags()) == 0
    {
      var found, existing := FindDb(Some(rec.dbName), rec.device);
      if found == Ok {
        return DataErr;
      }
      var d := new DbRow(rec);
      dbs := [d] + dbs;
      st := Ok;
    }

    /** oph_metadb_update_db: copies the persistence flag and device
        identifier of `rec` into the database with `rec`'s key; its table,
        fragment count and snapshot offset stay. */
    method UpdateDb(rec: DbRecord) returns (st: Status)
      requires Valid()
      modifies dbs
      ensures Valid() && dbs == old(dbs)
      ensures st == Ok <==> IndexOf(dbs, rec.dbName, rec.device) >= 0
      ensures st != Ok ==> st == DataErr
      ensures st == Ok ==>
        var k := IndexOf(dbs, rec.dbName, rec.device);
        dbs[k].Record() ==
          rec.(fragNumber := old(dbs[k].fragNumber), fileOffset := old(dbs[k].fileOffset))
      ensures forall d :: d in dbs && !Matches(d, rec.dbName, rec.device) ==> unchanged(d)
      ensures forall d :: d in dbs ==> d.Frags() == old(d.Frags())
    {
      var k := Locate(rec.dbName, rec.device);
      if k < 0 {
        return DataErr;
      }
      var d := dbs[k];
      d.isPersistent, d.dbId := rec.isPersistent, rec.dbId;
      assert d.Valid();
      st := Ok;
    }

    /** oph_metadb_remove_db: unlinks the database (`name`, `device`) from the
        chain, provided it exists and holds no fragment. */
    method RemoveDb(name: string, device: string) returns (st: Status)
      requires Valid()
      modifies this
      ensures Valid()
      ensures st == Ok <==>
        var k := IndexOf(old(dbs), name, device); k >= 0 && old(dbs)[k].fragNumber == 0
      ensures st != Ok ==> st == DataErr && dbs == old(dbs)
      ensures st == Ok ==>
        var k := IndexOf(old(dbs), name, device); dbs == old(dbs)[..k] + old(dbs)[k + 1..]
      ensures st == Ok ==> IndexOf(dbs, name, device) < 0
      ensures st == Ok ==> forall d :: d in old(dbs) && !Matches(d, name, device) ==> d in dbs
    {
      var k := Locate(name, device);
      if k < 0 || dbs[k].fragNumber > 0 {
        return DataErr;
      }
      UnlinkDbSpec(dbs, k);
      dbs := dbs[..k] + dbs[k + 1..];
      st := Ok;
    }
  }
}
