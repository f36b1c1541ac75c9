# MySqlDB storage core, modelled in Dafny

MySqlDB is a teaching relational storage engine in the style of SimpleDB.
This project models its storage core. The core has four parts:

- the value layer: permissions, column types and the big-endian field
  decoder, schemas (`TupleDesc`) and records (`Tuple`);
- the catalog, which maps table names and table ids to registered table
  files;
- the page-level lock manager, with shared locks, exclusive locks and
  upgrades;
- the buffer pool: a bounded page cache keyed by an integer hash of the
  page id, which fetches, dirties, flushes, discards and evicts pages.

Modules follow the source's classes:

| module | file | source |
|---|---|---|
| `Wrappers` | `wrappers.dfy` | `Option`, `Result`, `Outcome` and the Java exceptions the core throws |
| `Ids` | `ids.dfy` | `TransactionId`, `PageId`, `RecordId` as values |
| `Permissions` | `permissions.dfy` | `common/Permissions.java` |
| `Types` | `types.dfy` | `common/Type.java` with its `DataInputStream` decoding |
| `TupleDescs` | `tupledesc.dfy` | `storage/TupleDesc.java` and its copy `TupleDesc.java` |
| `Tuples` | `tuple.dfy` | `storage/Tuple.java` and its copy `Tuple.java` |
| `Catalogs` | `catalog.dfy` | `common/Catalog.java` |
| `LockManagers` | `lockmanager.dfy` | the `LockManager`, `Lock` and `LockType` inside `storage/BufferPool.java` |
| `BufferPools` | `bufferpool.dfy` | `storage/BufferPool.java` |

Values stay values: ids, permissions, types, fields and schemas are
datatypes. Objects whose fields the source updates in place are classes:
`Tuple`, `Catalog`, `LockManager`, `BufferPool`, and `TableFiles`, which
stands for the table files behind the pool.

Each lock-manager operation is specified twice. A pure function on the lock
table states the policy: `Acquire`, `Release` and `ReleaseAllOf`. The class
method that does the work with loops is proved equal to that function. The
lemmas about the function then state the guarantees:

- `Acquire` grants a request exactly when a declarative compatibility
  predicate holds.
- A grant leaves the caller holding a lock that covers the request.
- Every operation preserves the lock-table invariant: no transaction
  appears twice on a page, and an exclusive grant is alone.

The buffer pool carries this invariant in `BufferPool.Valid`. It also
carries two facts of its own:

- every cached page sits under its own page id's key;
- every clean cached page equals its on-disk image.

Notes on what the code does, which the model follows:

- **Commit does not flush.** `transactionComplete(tid, true)` calls
  `flushPages`, which is an empty stub. The model's `FlushPages` changes
  nothing.
- **Abort does not discard.** `transactionComplete(tid, false)` releases the
  locks and nothing more.
- **Trailing dot in a field name.** `fieldNameToIndex` takes the last
  element of `String.split("\\.")`, and `split` drops trailing empty
  strings. So for
  a name ending in `.` the code uses the segment before the dot
  (`TupleDescs.TrailingDotKeepsPreviousSegment`). A non-empty name made only
  of dots makes the code throw (`TupleDescs.AllDotsFails`).
- **Upgrade.** A shared holder asking for an exclusive lock gets it when it
  is the page's only holder. The lock is upgraded in place at the holder's
  position.
- **Schema description order.** The comment on `TupleDesc.toString`
  (src/main/java/simpledb/storage/TupleDesc.java:222) says each field prints
  as `fieldType(fieldName)`. `TDItem.toString`
  (src/main/java/simpledb/storage/TupleDesc.java:53-55) prints
  `fieldName(fieldType)`. The model prints `name(type)`, as the code does.
- **Dirtied pages replace cached ones.** `updateBufferPool` puts each page
  the file returns under its key, so a dirtied page replaces any cached
  page with the same key, and when the file returns the same key twice the
  later page wins.

## Model

| member | source | states |
|---|---|---|
| Permissions.Permission.Level | src/main/java/simpledb/common/Permissions.java:30-31 | READ_ONLY has level 0 and READ_WRITE level 1; no other level is built |
| Permissions.LevelName | src/main/java/simpledb/common/Permissions.java:20-28 | "UNKNOWN" is printed exactly for levels other than 0 and 1 |
| Permissions.Permission.ToString | src/main/java/simpledb/common/Permissions.java:20-28 | a permission prints "READ_ONLY" exactly when it is READ_ONLY and "READ_WRITE" exactly when it is READ_WRITE; no permission prints "UNKNOWN" |
| Permissions.LevelAndNameInjective | src/main/java/simpledb/common/Permissions.java:15-31 | two different permissions have different levels and different printed names |
| Types.Type.Len | src/main/java/simpledb/common/Type.java:21-44 | every field type occupies at least 4 bytes |
| Types.TypeLengths | src/main/java/simpledb/common/Type.java:40-60 | an INT occupies 4 bytes and a STRING occupies STRING_LEN + 4 = 132 bytes |
| Types.ReadInt | src/main/java/simpledb/common/Type.java:28-34 | `readInt` fails with a parse error exactly when fewer than 4 bytes remain; otherwise it yields a signed 32-bit value and consumes 4 bytes |
| Types.ReadWriteInt | src/main/java/simpledb/common/Type.java:28-34 | reading the 4-byte big-endian encoding of any 32-bit value gives the value back and leaves the rest untouched |
| Types.Parse | src/main/java/simpledb/common/Type.java:28-57 | parsing fails with a parse error exactly when fewer than 4 bytes remain; otherwise the field has the requested type, and a string field has maxSize STRING_LEN |
| Types.ParseConsumesLen | src/main/java/simpledb/common/Type.java:21-57 | on a stream of at least `getLen()` bytes, parsing succeeds and consumes exactly `getLen()` bytes |
| Types.ParseStringContentLength | src/main/java/simpledb/common/Type.java:47-57 | a parsed string field holds exactly as many bytes as its length prefix says |
| Types.ParseSerialize | src/main/java/simpledb/common/Type.java:28-57 | parse is the inverse of the on-disk layout: serialising any encodable field and parsing it back gives the field and the rest of the stream |
| TupleDescs.TupleDesc.NumFields | src/main/java/simpledb/storage/TupleDesc.java:99-101 | the number of fields; the schema's byte size is between 4 and 132 bytes per field (same code in src/main/java/simpledb/TupleDesc.java:88-90) |
| TupleDescs.TupleDesc.FieldName | src/main/java/simpledb/storage/TupleDesc.java:109-116 | the i-th name, or NoSuchElement exactly when i is out of range (same code in src/main/java/simpledb/TupleDesc.java:98-105) |
| TupleDescs.TupleDesc.FieldType | src/main/java/simpledb/storage/TupleDesc.java:124-131 | the i-th type, or NoSuchElement exactly when i is out of range (same code in src/main/java/simpledb/TupleDesc.java:113-120) |
| TupleDescs.SumLenAppend | src/main/java/simpledb/storage/TupleDesc.java:155-186 | the byte size of a concatenated schema is the sum of the two sizes |
| TupleDescs.SumLenBounds | src/main/java/simpledb/storage/TupleDesc.java:155-161 | a schema's byte size is between 4 and 132 per field |
| TupleDescs.NewTupleDesc | src/main/java/simpledb/storage/TupleDesc.java:77-82 | pairs `types[i]` with `names[i]` for each type; fails with an index error exactly when there are fewer names than types (same code in src/main/java/simpledb/TupleDesc.java:66-71) |
| TupleDescs.NewUnnamedTupleDesc | src/main/java/simpledb/storage/TupleDesc.java:88-93 | one unnamed item per type, in order (same code in src/main/java/simpledb/TupleDesc.java:77-82) |
| TupleDescs.GetSize | src/main/java/simpledb/storage/TupleDesc.java:155-161 | the loop's sum equals the schema's size, the sum of every field type's length (same code in src/main/java/simpledb/TupleDesc.java:144-150) |
| TupleDescs.Merge | src/main/java/simpledb/storage/TupleDesc.java:170-186 | the merged schema is the first schema's items followed by the second's, so field counts and sizes add (same code in src/main/java/simpledb/TupleDesc.java:162-178) |
| TupleDescs.Equals | src/main/java/simpledb/storage/TupleDesc.java:194-212 | true exactly when the other object is a schema with the same field types in the same order; names are ignored (same code in src/main/java/simpledb/TupleDesc.java:191-209) |
| TupleDescs.SameTypesEquivalence | src/main/java/simpledb/storage/TupleDesc.java:194-212 | schema equality is reflexive, symmetric and transitive |
| TupleDescs.SameTypesIgnoresNames | src/main/java/simpledb/storage/TupleDesc.java:194-212 | two schemas built from the same types are equal whatever their names |
| TupleDescs.Split | src/main/java/simpledb/storage/TupleDesc.java:140 | every piece `split("\\.")` returns is free of dots, and for a non-empty string the last piece, if any, is not empty |
| TupleDescs.LastSegment | src/main/java/simpledb/storage/TupleDesc.java:140-141 | the last piece of the split; fails with an index error exactly when the split is empty |
| TupleDescs.NoDotIsOwnSegment | src/main/java/simpledb/storage/TupleDesc.java:140-141 | a name without a dot is its own last segment |
| TupleDescs.StripsQualifier | src/main/java/simpledb/storage/TupleDesc.java:140-141 | `prefix.key` with a non-empty dot-free key gives key |
| TupleDescs.TrailingDotKeepsPreviousSegment | src/main/java/simpledb/storage/TupleDesc.java:140-141 | `prefix.key.` gives key, not the empty string |
| TupleDescs.AllDotsFails | src/main/java/simpledb/storage/TupleDesc.java:140-141 | a non-empty name made only of dots has no last segment |
| TupleDescs.FieldNameToIndex | src/main/java/simpledb/storage/TupleDesc.java:139-149 | a failing split gives an index error; else the index of the first field whose name equals the last segment, or NoSuchElement when none does (same code in src/main/java/simpledb/TupleDesc.java:128-138) |
| TupleDescs.DescribeEmpty | src/main/java/simpledb/storage/TupleDesc.java:226-237 | the empty schema prints as the empty string |
| TupleDescs.DescribeAppend | src/main/java/simpledb/storage/TupleDesc.java:226-237 | the description of a concatenation is the first description, a comma, then the second; each item prints as `name(type)` (TDItem at src/main/java/simpledb/storage/TupleDesc.java:53-55) |
| TupleDescs.ToString | src/main/java/simpledb/storage/TupleDesc.java:226-237 | the loop's string is the schema's description: the items' `name(type)` joined by commas (same code in src/main/java/simpledb/TupleDesc.java:222-234) |
| Tuples.Tuple.constructor | src/main/java/simpledb/storage/Tuple.java:36-42 | a new tuple has the schema, no RecordId and `numFields` unset slots (same code in src/main/java/simpledb/Tuple.java:35-42) |
| Tuples.Tuple.GetRecordId | src/main/java/simpledb/storage/Tuple.java:56-58 | the tuple's RecordId, None until one is set; the constructor and `SetRecordId` state their effect through it (same code in src/main/java/simpledb/Tuple.java:55-57) |
| Tuples.Tuple.SetRecordId | src/main/java/simpledb/storage/Tuple.java:64-66 | later reads return the new RecordId; the schema and slots are unchanged (same code in src/main/java/simpledb/Tuple.java:65-67) |
| Tuples.Tuple.GetField | src/main/java/simpledb/storage/Tuple.java:82-84 | the slot's value (None when unset), or an index error exactly when out of range (same code in src/main/java/simpledb/Tuple.java:87-89) |
| Tuples.Tuple.SetField | src/main/java/simpledb/storage/Tuple.java:73-75 | an in-range slot afterwards reads the new value and every other slot reads as before; out of range throws and changes nothing (same code in src/main/java/simpledb/Tuple.java:77-79) |
| Tuples.Tuple.ResetTupleDesc | src/main/java/simpledb/storage/Tuple.java:112-115 | only the schema changes; the tuple conforms afterwards exactly when the new schema has as many fields as there are slots (same code in src/main/java/simpledb/Tuple.java:119-123) |
| Tuples.Tuple.Fields | src/main/java/simpledb/storage/Tuple.java:104-106 | the slots in order, each as `getField` returns it (same code in src/main/java/simpledb/Tuple.java:111-114) |
| Tuples.Tuple.ToString | src/main/java/simpledb/storage/Tuple.java:91-98 | the loop's string is the rendering of the first `numFields` slots, each followed by a space, or the exception of the first bad slot (same code in src/main/java/simpledb/Tuple.java:99-105) |
| Tuples.RenderStaysFailed | src/main/java/simpledb/storage/Tuple.java:91-98 | once a slot fails to print, printing more slots fails the same way |
| Tuples.RenderFailsIff | src/main/java/simpledb/storage/Tuple.java:91-98 | printing fails exactly when one of the first `numFields` slots is missing or unset |
| Tuples.RenderPrefix | src/main/java/simpledb/storage/Tuple.java:91-98 | the printed slots come out in order: a shorter rendering is a prefix of a longer one |
| Tuples.FreshTupleDoesNotRender | src/main/java/simpledb/storage/Tuple.java:36-98 | a fresh tuple of a non-empty schema throws NullPointerException when printed |
| Catalogs.Catalog.constructor | src/main/java/simpledb/common/Catalog.java:87-90 | a new catalog has no tables |
| Catalogs.Catalog.AddTable | src/main/java/simpledb/common/Catalog.java:98-105 | a re-registered name first loses its old id entry; afterwards the name leads to the file and the file's id leads to the file, schema, name and key; an old id that differs no longer resolves; other names are unchanged |
| Catalogs.Catalog.AddTableNoKey | src/main/java/simpledb/common/Catalog.java:112-114 | registration with the empty primary key |
| Catalogs.Catalog.AddTableAnonymous | src/main/java/simpledb/common/Catalog.java:120-122 | registration under the given UUID string with the empty primary key |
| Catalogs.Catalog.GetTableId | src/main/java/simpledb/common/Catalog.java:130-135 | the registered file's id, or NoSuchElement exactly when the name is not registered |
| Catalogs.Catalog.GetTupleDesc | src/main/java/simpledb/common/Catalog.java:143-148 | the registered file's own schema, or NoSuchElement exactly when the id is not registered |
| Catalogs.Catalog.GetDatabaseFile | src/main/java/simpledb/common/Catalog.java:156-161 | the registered file, or NoSuchElement exactly when the id is not registered |
| Catalogs.Catalog.GetPrimaryKey | src/main/java/simpledb/common/Catalog.java:168-173 | the registered key, or NoSuchElement exactly when the id is not registered |
| Catalogs.Catalog.GetTableName | src/main/java/simpledb/common/Catalog.java:188-193 | the registered name, or NoSuchElement exactly when the id is not registered |
| Catalogs.Catalog.TableIds | src/main/java/simpledb/common/Catalog.java:179-181 | the ids enumerated are exactly the ids that resolve to a file |
| Catalogs.Catalog.Clear | src/main/java/simpledb/common/Catalog.java:198-201 | afterwards every lookup by name or id fails with NoSuchElement |
| Catalogs.IdNameRoundTrip | src/main/java/simpledb/common/Catalog.java:98-105 | the two indexes agree: an id's table name leads back to that id, and the file found by id carries the id |
| LockManagers.IndexOfTid | src/main/java/simpledb/storage/BufferPool.java:350-351 | the position of the first grant to the transaction, or None exactly when it holds none |
| LockManagers.AcquireGrantsIffCompatible | src/main/java/simpledb/storage/BufferPool.java:342-379 | a request is granted exactly when the page is free; or the requester already has a grant there and that grant is exclusive, the request is shared, or it is the only holder; or it has no grant, asks for shared, and every grant is shared |
| LockManagers.AcquireEffect | src/main/java/simpledb/storage/BufferPool.java:343-378 | after a grant the requester holds a lock covering the request; a refusal changes nothing; a requester that already holds a covering lock (for instance an exclusive holder asking for shared) is granted with the table unchanged |
| LockManagers.AcquireKeepsOthers | src/main/java/simpledb/storage/BufferPool.java:342-379 | acquiring touches only the requested page and leaves other transactions' grants on it as they were |
| LockManagers.AcquirePreservesWellFormed | src/main/java/simpledb/storage/BufferPool.java:342-379 | acquiring keeps every grant list non-empty, with distinct transactions and any exclusive grant alone |
| LockManagers.FirstSharedIffAllShared | src/main/java/simpledb/storage/BufferPool.java:374-378 | in a well-formed list, checking only the first grant's kind is the same as checking that all grants are shared |
| LockManagers.SharedThenExclusiveScenario | src/main/java/simpledb/storage/BufferPool.java:359-377 | on a free page a reader gets a shared lock and a second reader joins it; the second reader's exclusive request is then refused; a reader alone on the page upgrades to exclusive |
| LockManagers.RemoveFirstIsWithout | src/main/java/simpledb/storage/BufferPool.java:407-412 | removing the first grant to a transaction that appears once leaves exactly the other transactions' grants |
| LockManagers.ReleaseEffect | src/main/java/simpledb/storage/BufferPool.java:404-417 | releasing an unlocked page fails the assertion; otherwise it reports whether the transaction held a lock, the transaction no longer holds one, a page left empty is dropped, other pages are untouched, and the table stays well formed |
| LockManagers.ReleaseAllEffect | src/main/java/simpledb/storage/BufferPool.java:385-398 | releasing everything for a transaction leaves it holding nothing, keeps every other transaction's locks, and keeps the table well formed |
| LockManagers.LockManager.constructor | src/main/java/simpledb/storage/BufferPool.java:330 | an empty, well-formed lock table |
| LockManagers.LockManager.AcquireLock | src/main/java/simpledb/storage/BufferPool.java:342-379 | the loop's outcome and new table are `Acquire`'s |
| LockManagers.LockManager.HoldsLock | src/main/java/simpledb/storage/BufferPool.java:422-433 | true exactly when some grant on the page belongs to the transaction; nothing changes |
| LockManagers.LockManager.ReleaseLock | src/main/java/simpledb/storage/BufferPool.java:404-417 | the loop's outcome and new table are `Release`'s |
| LockManagers.LockManager.ReleaseAll | src/main/java/simpledb/storage/BufferPool.java:385-398 | the loop over the locked pages ends with `ReleaseAllOf`'s table |
| BufferPools.LockKindFor | src/main/java/simpledb/storage/BufferPool.java:94-99 | READ_ONLY asks for a shared lock and READ_WRITE for an exclusive one |
| BufferPools.TableFiles.ReadPage | src/main/java/simpledb/storage/BufferPool.java:114 | the page read is clean and holds the on-disk image |
| BufferPools.TableFiles.WritePage | src/main/java/simpledb/storage/BufferPool.java:263 | the page's contents become its on-disk image; other images are unchanged |
| BufferPools.BufferPool.constructor | src/main/java/simpledb/storage/BufferPool.java:53-57 | an empty cache of the given capacity with an empty lock table |
| BufferPools.BufferPool.GetPage | src/main/java/simpledb/storage/BufferPool.java:90-118 | the lock table becomes `Acquire`'s, and a refused lock blocks with cache and images unchanged; a hit returns the cached page without a read and changes no image; a miss for an unregistered table fails with NoSuchElement and changes nothing; a capacity that is not positive fails with IllegalArgumentException; otherwise it makes room, reads the page once and caches it clean, so the cache grows by one when it was not full and otherwise stays at capacity after one eviction; every page that left the cache was written back first (its image equals its cached contents), images of pages still cached are unchanged, and images of uncached pages are unchanged |
| BufferPools.BufferPool.LoadPage | src/main/java/simpledb/storage/BufferPool.java:111-114 | the miss path of `getPage`: a capacity that is not positive fails with IllegalArgumentException, changing nothing; otherwise the page is read once, holds its on-disk image clean and is cached under its key, the cache grows by one when it was not full and otherwise stays at capacity; every page evicted to make room was written back first (its image equals its cached contents), images of pages still cached are unchanged, and images of uncached pages are unchanged |
| BufferPools.BufferPool.MakeRoom | src/main/java/simpledb/storage/BufferPool.java:111-113 | fails with IllegalArgumentException exactly when the capacity is not positive, changing nothing; a cache below capacity is left as it was; a full cache ends with exactly capacity - 1 pages; it only removes pages, every removed page was written back first (its image equals its cached contents), and images of pages still cached and of uncached pages are unchanged |
| BufferPools.BufferPool.Put | src/main/java/simpledb/storage/BufferPool.java:221-231 | one step of `updateBufferPool`: the page is cached under its key, evicting first only when the key is absent; fails with IllegalArgumentException exactly then and with capacity not positive, changing nothing; other cached pages are old ones; when the key was already cached no image changes; a page evicted to make room was written back first (its image equals its cached contents); images of pages still cached and of uncached pages are unchanged |
| BufferPools.BufferPool.UpdateBufferPool | src/main/java/simpledb/storage/BufferPool.java:217-233 | fails with IllegalArgumentException exactly when there are pages and the capacity is not positive, changing nothing; otherwise every cached key that some touched page has holds the last such page dirtied by the transaction, so no stale copy stays; every other cached key holds its old page; on success a key that left the cache has its last touched page's contents on disk, an untouched key that left the cache has its old page's contents on disk, and pages still cached under untouched keys keep their images; images of pages neither cached nor touched are unchanged, and no page is read |
| BufferPools.BufferPool.InsertTuple | src/main/java/simpledb/storage/BufferPool.java:181-188 | an unregistered table fails with NoSuchElement with cache and images unchanged; otherwise it acts as `updateBufferPool` on the pages the file reports, with the same failure, cache, image and read guarantees |
| BufferPools.BufferPool.DeleteTuple | src/main/java/simpledb/storage/BufferPool.java:202-209 | a tuple without a RecordId fails with NullPointerException, an unregistered table with NoSuchElement, and either failure leaves cache and images unchanged; otherwise it acts as `updateBufferPool` on the pages the file reports, with the same failure, cache, image and read guarantees |
| BufferPools.BufferPool.FlushAllPages | src/main/java/simpledb/storage/BufferPool.java:239-243 | every cached page is marked clean and its image equals its contents; the cached set is unchanged and images of uncached pages are untouched |
| BufferPools.BufferPool.DiscardPage | src/main/java/simpledb/storage/BufferPool.java:249-252 | the page leaves the cache without being written |
| BufferPools.BufferPool.FlushPage | src/main/java/simpledb/storage/BufferPool.java:259-266 | an uncached page fails with NullPointerException; otherwise the page is marked clean and its image equals its contents, it is written only when dirty, and other images are unchanged |
| BufferPools.BufferPool.EvictPage | src/main/java/simpledb/storage/BufferPool.java:279-290 | an empty cache fails with IllegalArgumentException; otherwise one cached page is removed after its image is made equal to its contents, and other images are unchanged |
| BufferPools.BufferPool.TransactionComplete | src/main/java/simpledb/storage/BufferPool.java:156-166 | commit or abort: the lock table becomes `ReleaseAllOf`'s, so the transaction holds nothing and others keep their locks |
| BufferPools.BufferPool.CommitTransaction | src/main/java/simpledb/storage/BufferPool.java:134-138 | the same as completing with commit |
| BufferPools.BufferPool.ReleasePage | src/main/java/simpledb/storage/BufferPool.java:125-127 | the lock table becomes `Release`'s; an unlocked page fails the assertion; the transaction no longer holds the page |
| BufferPools.BufferPool.HoldsLock | src/main/java/simpledb/storage/BufferPool.java:146-148 | whether the transaction holds a lock on the page; nothing changes |

## Left out

- Threads and monitors. The model is sequential, and `synchronized` has no counterpart.
- The wait in `getPage`. When the lock is refused, `getPage` (src/main/java/simpledb/storage/BufferPool.java:101-107) waits on the page's monitor. After waking, it goes on without asking for the lock again. The model returns `Blocked` and leaves the cache as it was.
- The `notifyAll` in `releaseLock(tid)` (src/main/java/simpledb/storage/BufferPool.java:393-394). It is called without holding that object's monitor. Monitors are not modelled, so neither is the exception this would raise in Java.
- BufferPools.BufferPool.EvictPage: `Random.nextInt` is not modelled. The victim is an arbitrary cached page, so the contract holds for every choice.
- I/O and catalog errors while flushing. `flushAllPages` and `flushPage` (src/main/java/simpledb/storage/BufferPool.java:239, 259) declare `IOException` and let it, and the catalog's NoSuchElementException, reach their caller; `evictPage` (283-287) catches only the `IOException` of `flushPage` and prints it, and `updateBufferPool` (224-228) catches the `DbException` of `evictPage` and prints it. These error paths are left out: the model's flush of a cached page always succeeds.
- BufferPools.BufferPool.InsertTuple: the table file's own `insertTuple` and `deleteTuple` are not part of this model. The pages they return are the parameter `touched`.
- BufferPools.BufferPool.DeleteTuple: same as InsertTuple; the pages the file returns are the parameter `touched`.
- Aliasing between a cached page object and a page the file returns. Pages are values, so `markDirty` on one is not seen through the other.
- Hash collisions. The cache key is `PageId.hashCode()`, modelled as an arbitrary function `keyOf`. As in the code, two ids with the same key share a slot.
- Catalogs.Catalog.AddTableAnonymous: the random UUID is the parameter `uuid`.
- Page size, page-size setters, `loadSchema`, `Database`, `DbException`, `hashCode`, and the `Field` classes beyond the value they hold. These are outside the core.
- Charset decoding of string contents. A string field holds its raw bytes.
- Types.Parse: the length prefix of a string is required to lie between 0 and STRING_LEN. A negative prefix makes `new byte[strLen]` (src/main/java/simpledb/common/Type.java:50) throw NegativeArraySizeException before the stream is read any further, an exception the model has no outcome for; for a prefix above STRING_LEN the code reads up to that many bytes and then calls `skipBytes` with a negative count (line 52), which skips nothing, so the stream is left misaligned for the next field.
- TupleDescs.GetSize: the sum is unbounded; 32-bit overflow of the size is not modelled.
- Java `null`. Absence is `Option`, and null arguments are not modelled.
- Catalogs.Catalog.TableIds: the iterator is modelled as the set of ids it enumerates, without an order.
- BufferPools.BufferPool.FlushPages: it is the source's empty stub and has no contract, so commit writes nothing back.
- Writes to table files from outside the pool. The on-disk images change only through the pool.
