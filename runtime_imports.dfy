/**
 * The runtime services the thread-static engine calls into, seen from their
 * boundary only: the calling thread's registry of per-module tables and the
 * object allocator. Whether the runtime succeeds is not decided here, so both
 * operations choose their outcome nondeterministically.
 */
module RuntimeImports {
  import opened Outcomes

  /** The object that holds all thread-static fields of one type on one thread.
      Its layout is given by an opaque memory-map handle. */
  class StorageBlock {
    const memoryMap: int

    constructor (memoryMap: int)
      ensures this.memoryMap == memoryMap
    {
      this.memoryMap := memoryMap;
    }
  }

  /** A module's slot table: one storage-block reference per type-local index. */
  type Table = array<StorageBlock?>

  /** The registry of the calling thread: module index to that module's table.
      The ghost field view mirrors the contents of every registered table. */
  class ThreadRegistry {
    var tables: map<int, Table>
    ghost var view: map<int, seq<StorageBlock?>>

    /** The tables currently registered. */
    ghost function Tables(): set<Table>
      reads this
    {
      tables.Values
    }

    /** The table registered for one module, as a set (empty when none is). */
    ghost function TableOf(moduleIndex: int): set<Table>
      reads this
    {
      if moduleIndex in tables then {tables[moduleIndex]} else {}
    }

    /** view holds each registered table's contents, and no two modules share
        one table. */
    ghost predicate Valid()
      reads this, Tables()
    {
      view.Keys == tables.Keys &&
      (forall m :: m in tables ==> tables[m][..] == view[m]) &&
      (forall m1, m2 :: m1 in tables && m2 in tables && m1 != m2 ==> tables[m1] != tables[m2])
    }

    /** A thread on which no thread-static has been touched yet. */
    constructor ()
      ensures Valid() && tables == map[] && view == map[]
    {
      tables := map[];
      view := map[];
    }

    /** RhGetThreadStaticStorageForModule: the registered table, or null. */
    function GetThreadStaticStorageForModule(moduleIndex: int): (t: array?<StorageBlock?>)
      reads this
      ensures t == null <==> moduleIndex !in tables
      ensures t != null ==> moduleIndex in tables && t == tables[moduleIndex] && t in Tables()
    {
      if moduleIndex in tables then tables[moduleIndex] else null
    }

    /** RhSetThreadStaticStorageForModule: installs the table for the module, or
        fails (the runtime could not extend its thread-specific resources), in
        which case nothing is installed. */
    method SetThreadStaticStorageForModule(storage: Table, moduleIndex: int) returns (ok: bool)
      modifies this
      ensures ok ==> tables == old(tables)[moduleIndex := storage] && view == old(view)[moduleIndex := storage[..]]
      ensures !ok ==> tables == old(tables) && view == old(view)
    {
      ok :| true;
      if ok {
        tables := tables[moduleIndex := storage];
        view := view[moduleIndex := storage[..]];
      }
    }
  }

  /** RhNewObject: a fresh, zero-initialised block shaped by the memory map, or
      an allocation failure. */
  method NewObject(memoryMap: int) returns (r: Result<StorageBlock>)
    ensures r.Ok? ==> fresh(r.value) && r.value.memoryMap == memoryMap
    ensures r.Err? ==> r.error == AllocationFailed
  {
    var ok: bool :| true;
    if ok {
      var block := new StorageBlock(memoryMap);
      r := Ok(block);
    } else {
      r := Err(AllocationFailed);
    }
  }
}
