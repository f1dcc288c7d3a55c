/**
 * Thread-static storage: on the calling thread, each module has a slot table
 * indexed by type-local index, and each slot holds the storage block of one
 * type's thread-static fields. The table grows on demand and is registered
 * with the runtime; a block is allocated on first access and returned as the
 * identical reference on every later access.
 */
module ThreadStatics {
  import opened Outcomes
  import opened RuntimeImports

  /** The part of a module's type-manager slot this engine reads. */
  datatype TypeManagerSlot = TypeManagerSlot(moduleIndex: int)

  /** A record of the thread-statics region: the owning module (None for a null
      pointer), the type-local index and the opaque memory-map handle. */
  datatype TypeTlsRecord = TypeTlsRecord(
    moduleData: Option<TypeManagerSlot>,
    typeTlsIndex: int,
    eeTypeForMemoryMap: int)

  /** The TypeTlsRecord(Int32) constructor: only the index is set; the module
      pointer and the memory-map handle are left null. */
  function NewTypeTlsRecord(tls: int): (r: TypeTlsRecord)
    ensures r.typeTlsIndex == tls
    ensures r.moduleData == None && r.eeTypeForMemoryMap == 0
  {
    TypeTlsRecord(None, tls, 0)
  }

  /** A record that a lookup can be made with: it names a module and its index
      leaves room for index + 1 in an Int32. */
  predicate Addressable(record: TypeTlsRecord) {
    record.moduleData.Some? && 0 <= record.typeTlsIndex < Int32Max
  }

  function Nulls(n: nat): (s: seq<StorageBlock?>)
    ensures |s| == n && forall k :: 0 <= k < n ==> s[k] == null
  {
    seq(n, _ => null)
  }

  /** The contents of a module's table once it holds at least requiredSize
      slots: the existing entries first, then empty slots. */
  function Grown(existing: seq<StorageBlock?>, requiredSize: nat): (g: seq<StorageBlock?>)
    ensures |g| == Max(|existing|, requiredSize)
    ensures g[..|existing|] == existing
    ensures forall k :: |existing| <= k < |g| ==> g[k] == null
  {
    if requiredSize <= |existing| then existing else existing + Nulls(requiredSize - |existing|)
  }

  /** A module's table contents, an absent table counting as empty. */
  function Existing(view: map<int, seq<StorageBlock?>>, moduleIndex: int): seq<StorageBlock?> {
    if moduleIndex in view then view[moduleIndex] else []
  }

  /** The fast path: the slot for the index is already populated. */
  predicate Cached(view: map<int, seq<StorageBlock?>>, moduleIndex: int, index: int) {
    moduleIndex in view && 0 <= index < |view[moduleIndex]| && view[moduleIndex][index] != null
  }

  /** The condition, as written, under which EnsureThreadStaticStorage keeps the
      existing table: the required size is strictly below its length. */
  predicate KeepsStorage(existing: array?<StorageBlock?>, requiredSize: int) {
    existing != null && requiredSize < existing.Length
  }

  function ContentsOf(existing: array?<StorageBlock?>): seq<StorageBlock?>
    reads existing
  {
    if existing == null then [] else existing[..]
  }

  /** Makes sure the module's table has at least requiredSize slots. Keeps the
      existing table when it is strictly longer; otherwise builds a table of
      exactly requiredSize slots holding the old entries first and registers
      it, failing with nothing installed when registration fails. With
      requiredSize equal to the existing length this builds a fresh copy. */
  method EnsureThreadStaticStorage(registry: ThreadRegistry, moduleIndex: int, existingStorage: array?<StorageBlock?>, requiredSize: int)
    returns (r: Result<Table>)
    requires registry.Valid()
    requires existingStorage == registry.GetThreadStaticStorageForModule(moduleIndex)
    requires 0 <= requiredSize
    modifies registry
    ensures registry.Valid()
    ensures KeepsStorage(existingStorage, requiredSize) ==> r == Ok(existingStorage) && registry.tables == old(registry.tables)
    ensures !KeepsStorage(existingStorage, requiredSize) && r.Ok? ==>
              fresh(r.value) && r.value.Length == requiredSize &&
              registry.tables == old(registry.tables)[moduleIndex := r.value]
    ensures r.Ok? ==> r.value[..] == Grown(ContentsOf(existingStorage), requiredSize)
    ensures r.Ok? ==> registry.view == old(registry.view)[moduleIndex := r.value[..]]
    ensures r.Err? || KeepsStorage(existingStorage, requiredSize) ==> registry.view == old(registry.view)
    ensures r.Err? ==> r == Err(RegistrationFailed) && !KeepsStorage(existingStorage, requiredSize) &&
                       registry.tables == old(registry.tables)
  {
    if existingStorage != null && requiredSize < existingStorage.Length {
      return Ok(existingStorage);
    }

    var newStorage := new StorageBlock?[requiredSize](_ => null);
    if existingStorage != null {
      forall k | 0 <= k < existingStorage.Length {
        newStorage[k] := existingStorage[k];
      }
    }
    assert newStorage[..] == Grown(ContentsOf(existingStorage), requiredSize);

    var registered := registry.SetThreadStaticStorageForModule(newStorage, moduleIndex);
    if !registered {
      return Err(RegistrationFailed);
    }
    return Ok(newStorage);
  }

  /** AllocateThreadStaticStorageForType: a fresh block laid out by the record's
      memory map, or an allocation failure. */
  method AllocateThreadStaticStorageForType(record: TypeTlsRecord) returns (r: Result<StorageBlock>)
    ensures r.Ok? ==> fresh(r.value) && r.value.memoryMap == record.eeTypeForMemoryMap
    ensures r.Err? ==> r.error == AllocationFailed
  {
    r := NewObject(record.eeTypeForMemoryMap);
  }

  /** GetThreadStaticBaseForType: the storage block of the record's type on the
      calling thread. A populated slot is returned with nothing changed;
      otherwise the first-access path below runs. */
  method GetThreadStaticBaseForType(registry: ThreadRegistry, record: TypeTlsRecord) returns (r: Result<StorageBlock>)
    requires registry.Valid()
    requires Addressable(record)
    modifies registry, registry.TableOf(record.moduleData.value.moduleIndex)
    ensures registry.Valid()
    ensures var m, i := record.moduleData.value.moduleIndex, record.typeTlsIndex;
            Cached(old(registry.view), m, i) ==>
              r == Ok(old(registry.view)[m][i]) &&
              registry.tables == old(registry.tables) && registry.view == old(registry.view)
    ensures var m, i := record.moduleData.value.moduleIndex, record.typeTlsIndex;
            !Cached(old(registry.view), m, i) ==>
              FirstAccess(old(registry.tables), old(registry.view), registry.tables, registry.view, m, i, r)
    ensures var m, i := record.moduleData.value.moduleIndex, record.typeTlsIndex;
            !Cached(old(registry.view), m, i) ==>
              (KeepsStorage(old(registry.GetThreadStaticStorageForModule(m)), i + 1) && r != Err(RegistrationFailed) ==>
                 registry.tables[m] == old(registry.tables[m])) &&
              (!KeepsStorage(old(registry.GetThreadStaticStorageForModule(m)), i + 1) && r != Err(RegistrationFailed) ==>
                 fresh(registry.tables[m])) &&
              (r.Ok? ==> fresh(r.value) && r.value.memoryMap == record.eeTypeForMemoryMap)
    ensures var m, i := record.moduleData.value.moduleIndex, record.typeTlsIndex;
            r.Ok? ==> Cached(registry.view, m, i) && registry.view[m][i] == r.value
  {
    var moduleIndex := record.moduleData.value.moduleIndex;
    var storage := registry.GetThreadStaticStorageForModule(moduleIndex);
    var typeTlsIndex := record.typeTlsIndex;

    if storage != null && typeTlsIndex < storage.Length && storage[typeTlsIndex] != null {
      return Ok(storage[typeTlsIndex]);
    }
    r := AllocateOnFirstAccess(registry, record, moduleIndex, storage, typeTlsIndex);
  }

  /** What the first access to a type's thread statics leaves behind, given the
      tables and contents before and after: a registration failure leaves both
      as they were (the grown table was required); otherwise the module's table
      is replaced by (or kept as) one whose contents are the old entries, grown
      to index + 1 slots, with the new block in slot index, or that slot still
      empty when allocation failed. Other modules keep their tables. */
  ghost predicate FirstAccess(
    oldTables: map<int, Table>, oldView: map<int, seq<StorageBlock?>>,
    tables: map<int, Table>, view: map<int, seq<StorageBlock?>>,
    m: int, i: nat, r: Result<StorageBlock>)
    requires !Cached(oldView, m, i)
  {
    if r == Err(RegistrationFailed) then
      !(m in oldTables && i + 1 < oldTables[m].Length) &&
      tables == oldTables && view == oldView
    else
      m in tables && tables == oldTables[m := tables[m]] &&
      view == oldView[m := if r.Ok? then Grown(Existing(oldView, m), i + 1)[i := r.value]
                           else Grown(Existing(oldView, m), i + 1)]
  }

  /** The module's table after a first access, slot by slot: it is at least as
      long as before and has at least index + 1 slots; slot index holds the
      block (null when allocation failed); every other old slot keeps its
      reference and every added slot is empty. */
  lemma FirstAccessTable(existing: seq<StorageBlock?>, index: nat, block: StorageBlock?)
    requires index < |existing| ==> existing[index] == null
    ensures var t := Grown(existing, index + 1)[index := block];
            |existing| <= |t| && index < |t| &&
            t[index] == block &&
            (forall k :: 0 <= k < |existing| && k != index ==> t[k] == existing[k]) &&
            (forall k :: |existing| <= k < |t| && k != index ==> t[k] == null)
    ensures block == null ==> Grown(existing, index + 1)[index := block] == Grown(existing, index + 1)
  {
    var g := Grown(existing, index + 1);
    assert forall k :: 0 <= k < |existing| ==> g[k] == g[..|existing|][k];
  }

  /** The first-access path: grow and register the table, then allocate the
      block and store it in slot typeTlsIndex. */
  method AllocateOnFirstAccess(registry: ThreadRegistry, record: TypeTlsRecord,
                               moduleIndex: int, storage: array?<StorageBlock?>, typeTlsIndex: nat)
    returns (r: Result<StorageBlock>)
    requires registry.Valid()
    requires Addressable(record)
    requires moduleIndex == record.moduleData.value.moduleIndex && typeTlsIndex == record.typeTlsIndex
    requires storage == registry.GetThreadStaticStorageForModule(moduleIndex)
    requires !Cached(registry.view, moduleIndex, typeTlsIndex)
    modifies registry, registry.TableOf(moduleIndex)
    ensures registry.Valid()
    ensures FirstAccess(old(registry.tables), old(registry.view), registry.tables, registry.view, moduleIndex, typeTlsIndex, r)
    ensures KeepsStorage(storage, typeTlsIndex + 1) && r != Err(RegistrationFailed) ==>
              registry.tables[moduleIndex] == storage
    ensures !KeepsStorage(storage, typeTlsIndex + 1) && r != Err(RegistrationFailed) ==>
              moduleIndex in registry.tables && fresh(registry.tables[moduleIndex])
    ensures r.Ok? ==> fresh(r.value) && r.value.memoryMap == record.eeTypeForMemoryMap
  {
    ghost var oldView := registry.view;
    var ensured := EnsureThreadStaticStorage(registry, moduleIndex, storage, typeTlsIndex + 1);
    if ensured.Err? {
      return Err(ensured.error);
    }
    var table := ensured.value;
    assert Existing(oldView, moduleIndex) == ContentsOf(storage);

    r := AllocateIntoSlot(registry, record, table);
  }

  /** Lines 39-40 of the first access: allocate the block and store it into
      the (already registered) table; on allocation failure nothing changes. */
  method AllocateIntoSlot(registry: ThreadRegistry, record: TypeTlsRecord, table: Table) returns (r: Result<StorageBlock>)
    requires registry.Valid()
    requires Addressable(record)
    requires var m := record.moduleData.value.moduleIndex;
             m in registry.tables && registry.tables[m] == table && record.typeTlsIndex < table.Length
    modifies registry`view, table
    ensures registry.Valid()
    ensures var m, i := record.moduleData.value.moduleIndex, record.typeTlsIndex;
            r.Ok? ==> registry.view == old(registry.view)[m := old(registry.view)[m][i := r.value]]
    ensures r.Ok? ==> fresh(r.value) && r.value.memoryMap == record.eeTypeForMemoryMap
    ensures r.Err? ==> r == Err(AllocationFailed) && registry.view == old(registry.view)
  {
    r := AllocateThreadStaticStorageForType(record);
    if r.Ok? {
      StoreSlot(registry, record.moduleData.value.moduleIndex, table, record.typeTlsIndex, r.value);
    }
  }

  /** The write storage[typeTlsIndex] = threadStaticBase into a registered
      table: that one slot of that one module changes. */
  method StoreSlot(registry: ThreadRegistry, moduleIndex: int, table: Table, index: int, block: StorageBlock)
    requires registry.Valid()
    requires moduleIndex in registry.tables && registry.tables[moduleIndex] == table
    requires 0 <= index < table.Length
    modifies registry`view, table
    ensures registry.Valid()
    ensures registry.view == old(registry.view)[moduleIndex := old(registry.view)[moduleIndex][index := block]]
  {
    table[index] := block;
    registry.view := registry.view[moduleIndex := table[..]];
    assert forall m' :: m' in registry.tables && m' != moduleIndex ==> registry.tables[m'] != table;
  }

  /** A lookup repeated on the same thread: once the first succeeds, the second
      returns the identical block. (That it also changes nothing follows from
      the cached-path clause of GetThreadStaticBaseForType.) */
  method LookupTwice(registry: ThreadRegistry, record: TypeTlsRecord) returns (first: Result<StorageBlock>, second: Result<StorageBlock>)
    requires registry.Valid()
    requires Addressable(record)
    modifies registry, registry.TableOf(record.moduleData.value.moduleIndex)
    ensures registry.Valid()
    ensures first.Ok? ==> second == first
  {
    first := GetThreadStaticBaseForType(registry, record);
    second := GetThreadStaticBaseForType(registry, record);
  }
}
