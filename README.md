# Thread-static storage and environment enumeration, in Dafny

This project models two small parts of a managed runtime's core library and
proves what they do.

**Thread-static storage** (`thread_statics.dfy`, `runtime_imports.dfy`).
On one thread, each module owns a slot table with one slot per type-local index.
`GetThreadStaticBaseForType` works in three steps:

1. It returns the block already in the type's slot.
2. Otherwise it grows the module's table to at least `index + 1` slots.
   It copies the old entries into a fresh array and registers that array with the runtime.
3. It then allocates the type's storage block and stores it in the slot.

The runtime side is the class `ThreadRegistry`, which maps a module index to its table.
Registration succeeds or fails nondeterministically, and the allocator may fail.
The two out-of-memory exceptions are modelled as `Err(RegistrationFailed)` and `Err(AllocationFailed)`.
The tables are `array`s that are updated in place.
A ghost map `view` mirrors their contents, so contracts can speak about them as sequences.

**Environment enumeration** (`pal_environment.dfy`, `environment_augments.dfy`).
The native serialiser copies the process environment into a caller's character buffer.
It writes each variable followed by `;`, which replaces the NUL terminator, and stops when the buffer is full.
The method keeps the source's nested loops.
`Serialized` is the full text the serialiser would write into a large enough buffer.
The managed side probes with buffers of 1024, 2048, 4096 and so on characters.
It stops when the serialiser writes fewer characters than the buffer holds.
It then splits the text on `;`, splits each segment on `=`, and yields the trimmed key and value.
That parse is lazy, so a consumer first receives some pairs and may then get an exception.
The model therefore returns `Parsed(pairs, failed)`: the pairs yielded, in order, and whether enumeration then throws.

The source has two spelling slips. The model uses the evident intent:

- `pal_environment.cpp` declares `evn` at line 44 but reads and advances `env` at lines 51 and 62. The model reads through the current variable's string.
- `EnvironmentAugments.Unix.cs:51` parses `stringBuffer`. The model parses the `bufferString` built at line 42.

Two behaviours of the code are modelled as written:

- `ThreadStatics.cs:52` keeps the existing table only when `requiredSize < existingStorage.Length`. So when the required size equals the length, it builds a fresh copy of the same length and registers it again (`KeepsStorage`). The prefix and length properties hold in that case; the table's identity does not.
- The parse as written throws on every environment: see "## Findings".

## Model

| member | source | states |
|---|---|---|
| ThreadStatics.NewTypeTlsRecord | src/System.Private.CoreLib/src/Internal/Runtime/ThreadStatics.cs:97-102 | the one-argument constructor sets only the type index and leaves the module pointer and the memory-map handle null |
| RuntimeImports.ThreadRegistry.GetThreadStaticStorageForModule | src/System.Private.CoreLib/src/Internal/Runtime/ThreadStatics.cs:25 | the result is null exactly when no table is registered for the module, and otherwise is the registered table |
| RuntimeImports.ThreadRegistry.SetThreadStaticStorageForModule | src/System.Private.CoreLib/src/Internal/Runtime/ThreadStatics.cs:66 | on success exactly the module's entry is replaced by the new table; on failure nothing is installed |
| RuntimeImports.NewObject | src/System.Private.CoreLib/src/Internal/Runtime/ThreadStatics.cs:82 | a fresh block carrying the requested memory map, or an allocation failure |
| ThreadStatics.Grown | src/System.Private.CoreLib/src/Internal/Runtime/ThreadStatics.cs:57-61 | a grown table has max(old length, required size) slots; its prefix is the old entries, reference for reference, and every added slot is null |
| ThreadStatics.EnsureThreadStaticStorage | src/System.Private.CoreLib/src/Internal/Runtime/ThreadStatics.cs:50-72 | when the existing table is non-null and strictly longer than required, it is returned as the identical array and nothing changes; otherwise a fresh array of exactly the required size is returned, holding the old entries then nulls, and registered for the module alone; a failed registration yields Err(RegistrationFailed) with no table installed and nothing else changed |
| ThreadStatics.AllocateThreadStaticStorageForType | src/System.Private.CoreLib/src/Internal/Runtime/ThreadStatics.cs:78-83 | a fresh block laid out by the record's memory map, or Err(AllocationFailed) |
| ThreadStatics.GetThreadStaticBaseForType | src/System.Private.CoreLib/src/Internal/Runtime/ThreadStatics.cs:21-44 | a populated slot is returned as the identical object with tables and contents unchanged; otherwise the outcome is FirstAccess (below), the table is kept when strictly longer than index + 1 and otherwise fresh, the block is fresh with the record's memory map, and after a success the slot holds the returned block |
| ThreadStatics.FirstAccessTable | src/System.Private.CoreLib/src/Internal/Runtime/ThreadStatics.cs:36-40 | after a first access the module's table is at least as long as before and has at least index + 1 slots; slot index holds the new block, or stays null after an allocation failure; every other old slot keeps its reference and every added slot is null |
| ThreadStatics.AllocateOnFirstAccess | src/System.Private.CoreLib/src/Internal/Runtime/ThreadStatics.cs:34-42 | growth and registration come before allocation: a registration failure changes nothing; after an allocation failure the grown table stays registered with the target slot null; other modules' tables and contents are unchanged |
| ThreadStatics.AllocateIntoSlot | src/System.Private.CoreLib/src/Internal/Runtime/ThreadStatics.cs:39-40 | on success only slot index of the module's table changes, to the fresh block; on allocation failure nothing changes |
| ThreadStatics.StoreSlot | src/System.Private.CoreLib/src/Internal/Runtime/ThreadStatics.cs:40 | writing one slot changes that slot of that module's contents and nothing else in the contents |
| ThreadStatics.LookupTwice | src/System.Private.CoreLib/src/Internal/Runtime/ThreadStatics.cs:28-42 | a second lookup after a successful one returns the identical block |
| PalEnvironment.Serialized | src/Native/System.Private.CoreLib.Native/pal_environment.cpp:42-65 | the full text is at least one character per variable and ends with ';' when there is a variable |
| PalEnvironment.SerializedHasNoNul | src/Native/System.Private.CoreLib.Native/pal_environment.cpp:52-55 | no NUL reaches the text: each terminator becomes ';' |
| PalEnvironment.SerializedAppend | src/Native/System.Private.CoreLib.Native/pal_environment.cpp:42-65 | serialising two runs of variables concatenates their texts |
| PalEnvironment.SerializedAt | src/Native/System.Private.CoreLib.Native/pal_environment.cpp:42-65 | variable k and its ';' sit in the text right after the text of the variables before it |
| PalEnvironment.GetEnumerateEnvironmentVariables | src/Native/System.Private.CoreLib.Native/pal_environment.cpp:36-68 | the result is between 0 and the buffer size; it is the full text length when the text is shorter than the buffer size, and exactly the buffer size otherwise, so a fit and a truncation look alike; the buffer's first result characters are the text's first result characters; no position at or past the result is written |
| PalEnvironment.CopyVariable | src/Native/System.Private.CoreLib.Native/pal_environment.cpp:46-63 | one variable's characters and then ';' are copied from the start position; the full-buffer check fires exactly when they do not fit, and then the count stops at the buffer size; nothing outside the written range changes |
| EnvironmentAugments.Split | src/System.Private.CoreLib/src/Internal/Runtime/Augments/EnvironmentAugments.Unix.cs:56 | there is always at least one part, no part holds the separator, and there is one part exactly when the text has no separator |
| EnvironmentAugments.JoinSplit | src/System.Private.CoreLib/src/Internal/Runtime/Augments/EnvironmentAugments.Unix.cs:56 | joining the parts with the separator gives the text back |
| EnvironmentAugments.SplitJoin | src/System.Private.CoreLib/src/Internal/Runtime/Augments/EnvironmentAugments.Unix.cs:56 | splitting a join of separator-free parts gives the parts back, empty ones included |
| EnvironmentAugments.SplitEndsEmpty | src/System.Private.CoreLib/src/Internal/Runtime/Augments/EnvironmentAugments.Unix.cs:56 | a text ending in the separator splits with an empty last part |
| EnvironmentAugments.SplitFirst | src/System.Private.CoreLib/src/Internal/Runtime/Augments/EnvironmentAugments.Unix.cs:60 | the first part is the text before the first separator, and the other parts are the split of the text after it |
| EnvironmentAugments.LeadingWhiteSpace | src/System.Private.CoreLib/src/Internal/Runtime/Augments/EnvironmentAugments.Unix.cs:61 | the count of leading white space: all counted characters are white space and the next one is not |
| EnvironmentAugments.Trim | src/System.Private.CoreLib/src/Internal/Runtime/Augments/EnvironmentAugments.Unix.cs:61 | the result starts and ends with a non-white-space character, and is no longer than the input |
| EnvironmentAugments.TrimDropsOnlyWhiteSpace | src/System.Private.CoreLib/src/Internal/Runtime/Augments/EnvironmentAugments.Unix.cs:61 | the result is the contiguous part of the input after its leading white space, followed in the input only by white space |
| EnvironmentAugments.TrimTrimmed | src/System.Private.CoreLib/src/Internal/Runtime/Augments/EnvironmentAugments.Unix.cs:61 | a text with no white space at its ends is left unchanged |
| EnvironmentAugments.SegmentPair | src/System.Private.CoreLib/src/Internal/Runtime/Augments/EnvironmentAugments.Unix.cs:60-61 | the pair of one segment: the key is the trimmed text before the first '=', and the value is the trimmed text between the first '=' and the second '=' or the end |
| EnvironmentAugments.ParsePairs | src/System.Private.CoreLib/src/Internal/Runtime/Augments/EnvironmentAugments.Unix.cs:58-62 | one pair per segment, in segment order, each from a segment holding '=' and equal to its SegmentPair; after a throw the next segment has no '=', and with no throw every segment yielded |
| EnvironmentAugments.ParseEnvironmentVariables | src/System.Private.CoreLib/src/Internal/Runtime/Augments/EnvironmentAugments.Unix.cs:54-63 | without a throw there is one pair per ';'-separated segment; a text that is empty or ends with ';' always ends by throwing |
| EnvironmentAugments.ParsePairsFails | src/System.Private.CoreLib/src/Internal/Runtime/Augments/EnvironmentAugments.Unix.cs:58-62 | enumeration throws exactly when some segment has no '=' |
| EnvironmentAugments.SerializedIsJoin | src/Native/System.Private.CoreLib.Native/pal_environment.cpp:52-55 | the full text is the variables joined by ';' with an empty part after the last ';' |
| EnvironmentAugments.SplitSerialized | src/System.Private.CoreLib/src/Internal/Runtime/Augments/EnvironmentAugments.Unix.cs:56 | splitting the text of ';'-free variables on ';' gives the variables back, then one empty segment |
| EnvironmentAugments.SerializedParseFails | src/System.Private.CoreLib/src/Internal/Runtime/Augments/EnvironmentAugments.Unix.cs:56-61 | parsing any serialised environment ends by throwing |
| EnvironmentAugments.VariableParts | src/System.Private.CoreLib/src/Internal/Runtime/Augments/EnvironmentAugments.Unix.cs:60 | in KEY=VALUE with no '=' in the key, the first '=' is the one after the key |
| EnvironmentAugments.SegmentPairOfVariable | src/System.Private.CoreLib/src/Internal/Runtime/Augments/EnvironmentAugments.Unix.cs:60-61 | a variable KEY=VALUE with a trimmed key and value, and no '=' in the value, reads back as its own pair |
| EnvironmentAugments.ValueCutAtSecondEquals | src/System.Private.CoreLib/src/Internal/Runtime/Augments/EnvironmentAugments.Unix.cs:60-61 | a value holding '=' reads back cut at that '=', so the pair read is not the pair written |
| EnvironmentAugments.ValueCutExample | src/System.Private.CoreLib/src/Internal/Runtime/Augments/EnvironmentAugments.Unix.cs:60-61 | A=b=c reads back as key A with value b |
| EnvironmentAugments.ParseSerializedAsWritten | src/System.Private.CoreLib/src/Internal/Runtime/Augments/EnvironmentAugments.Unix.cs:54-63 | for representable pairs with no '=' in a value, the serialised environment yields every pair in order and then throws |
| EnvironmentAugments.SplitOnce | src/System.Private.CoreLib/src/Internal/Runtime/Augments/EnvironmentAugments.Unix.cs:60 | the corrected split returns the whole segment when it has no '='; otherwise two parts, the first free of '=', that with '=' between them make up the segment |
| EnvironmentAugments.SegmentPairFixed | src/System.Private.CoreLib/src/Internal/Runtime/Augments/EnvironmentAugments.Unix.cs:60-61 | the corrected pair of one segment: the trimmed text on either side of an '=' with no '=' before it |
| EnvironmentAugments.SplitOnceUnique | src/System.Private.CoreLib/src/Internal/Runtime/Augments/EnvironmentAugments.Unix.cs:60 | a segment written as k, '=' and v with no '=' in k splits into exactly k and v |
| EnvironmentAugments.SegmentPairFixedSplit | src/System.Private.CoreLib/src/Internal/Runtime/Augments/EnvironmentAugments.Unix.cs:60-61 | with the corrected split, KEY=VALUE with no '=' in KEY reads back as trimmed KEY and trimmed VALUE, whatever VALUE holds |
| EnvironmentAugments.NonEmpty | src/System.Private.CoreLib/src/Internal/Runtime/Augments/EnvironmentAugments.Unix.cs:56 | the corrected split keeps every non-empty segment as often as it occurs and nothing else: each kept segment is non-empty and from the input, and every non-empty input segment is kept |
| EnvironmentAugments.NonEmptyAppend | src/System.Private.CoreLib/src/Internal/Runtime/Augments/EnvironmentAugments.Unix.cs:56 | dropping empty segments works piecewise on a concatenation, so the kept segments keep their order |
| EnvironmentAugments.ParsePairsFixed | src/System.Private.CoreLib/src/Internal/Runtime/Augments/EnvironmentAugments.Unix.cs:58-62 | the corrected loop: one pair per segment, in order, each equal to its SegmentPairFixed; it stops with a throw only at a segment without '=' |
| EnvironmentAugments.ParsePairsFixedFails | src/System.Private.CoreLib/src/Internal/Runtime/Augments/EnvironmentAugments.Unix.cs:56-62 | after dropping empty segments, the corrected loop throws exactly when some non-empty segment has no '=' |
| EnvironmentAugments.ParseEnvironmentVariablesFixed | src/System.Private.CoreLib/src/Internal/Runtime/Augments/EnvironmentAugments.Unix.cs:54-63 | the corrected parse throws exactly when some non-empty ';'-separated segment has no '='; the pairs are the SegmentPairFixed of the non-empty segments, in order, one per segment when nothing is thrown |
| EnvironmentAugments.NonEmptyTrailing | src/System.Private.CoreLib/src/Internal/Runtime/Augments/EnvironmentAugments.Unix.cs:56 | dropping empty segments removes the trailing empty one and keeps non-empty segments in order |
| EnvironmentAugments.SegmentPairFixedOfVariable | src/System.Private.CoreLib/src/Internal/Runtime/Augments/EnvironmentAugments.Unix.cs:60-61 | with the corrected split, KEY=VALUE reads back as its pair even when the value holds '=' |
| EnvironmentAugments.ParsePairsFixedVariables | src/System.Private.CoreLib/src/Internal/Runtime/Augments/EnvironmentAugments.Unix.cs:58-62 | the corrected loop gives back the pairs of the variables in order, without throwing |
| EnvironmentAugments.ParseSerializedFixed | src/System.Private.CoreLib/src/Internal/Runtime/Augments/EnvironmentAugments.Unix.cs:54-63 | the corrected parse of a serialised environment of representable pairs gives exactly those pairs, in order, without throwing |
| EnvironmentAugments.Rent | src/System.Private.CoreLib/src/Internal/Runtime/Augments/EnvironmentAugments.Unix.cs:35 | a fresh buffer at least as long as requested |
| EnvironmentAugments.EnumerateEnvironmentVariables | src/System.Private.CoreLib/src/Internal/Runtime/Augments/EnvironmentAugments.Unix.cs:28-52 | with a probe size doubling from 1024 and staying within Int32, the loop accepts only when fewer characters than the buffer length come back; the result is the parse of the full serialised environment, which therefore always ends by throwing |

## Left out

- The runtime calls `RhGetThreadStaticStorageForModule`, `RhSetThreadStaticStorageForModule` and `RhNewObject` are modelled only at their boundary. Whether registration or allocation succeeds is left open; the registry holds one thread's tables.
- ThreadStatics.EnsureThreadStaticStorage: `new object[requiredSize]` at `ThreadStatics.cs:57` can throw `OutOfMemoryException` before registration, but Dafny's `new` cannot fail. A failure of the managed table allocation is not modelled; it would leave the state unchanged, as a registration failure does.
- The memory-map layout of a block, its zero-initialisation and its scanning by the garbage collector are left out. The memory-map handle is an opaque integer.
- The `TypeManagerSlot*` pointer is modelled as an optional module index. A null pointer is not dereferenced, because `GetThreadStaticBaseForType` requires `Addressable`.
- GetThreadStaticBaseForType: requires `0 <= typeTlsIndex < Int32Max`. This leaves out the negative index and the Int32 overflow of `typeTlsIndex + 1`, where the source throws from the runtime. The compiler never emits such indices.
- Thread identity, thread-local storage and concurrency are left out: one owning thread is modelled.
- `CoreLibNative_GetEnv`, `CoreLibNative_SchedGetCpu` and `CoreLibNative_Exit` are left out. They are thin wrappers over `getenv`, `sched_getcpu` and `exit`.
- `GetEnvironmentVariableCore` (ANSI marshalling) and `SetEnvironmentVariableCore` (it throws `NotImplementedException`) are left out.
- The native buffer's 8-bit characters and the managed side's UTF-16 characters are both modelled as `char`; no encoding is modelled.
- `ArrayPool` is reduced to `Rent`, which returns some array at least as long as requested. `Return` and buffer reuse are not modelled.
- EnumerateEnvironmentVariables: requires the serialised environment to be shorter than 2^30 characters. Without that bound, the doubling loop's termination and its Int32 arithmetic would depend on the operating system.
- IsWhiteSpace: lists the characters `Char.IsWhiteSpace` accepts in current Unicode. Differences between Unicode versions are not modelled.
- The lazy iterator is modelled by its observable result: the pairs yielded and whether enumeration throws. Consuming only some of the pairs is not modelled.

## Findings

| source | as written | input that shows it | evidently intended | confidence | as-written member | corrected member |
|---|---|---|---|---|---|---|
| src/System.Private.CoreLib/src/Internal/Runtime/Augments/EnvironmentAugments.Unix.cs:56-61 | `Split(';')` keeps the empty segment after the `;` the serialiser always writes last. That segment splits on `=` into one part, so `key_value[1]` throws after the last real pair | any environment, e.g. the one variable `A=b`, serialised as `A=b;` | skip empty segments, so a serialised environment parses without an exception | high; not executed | EnvironmentAugments.SerializedParseFails | EnvironmentAugments.ParseSerializedFixed |
| src/System.Private.CoreLib/src/Internal/Runtime/Augments/EnvironmentAugments.Unix.cs:60-61 | `Split('=')` cuts at every `=`, so a value is cut short at its own first `=` | `A=b=c` reads back with value `b` | split only at the first `=`, so the value is everything after it | high; not executed | EnvironmentAugments.ValueCutExample | EnvironmentAugments.SegmentPairFixedOfVariable |

`ParseEnvironmentVariablesFixed` applies both corrections. `ParseSerializedFixed` proves the round trip they restore: serialising pairs and parsing the text gives the same pairs back. `EnumerateEnvironmentVariables` still models the code as written. The serialised text it parses is the same one the corrected parser takes.
