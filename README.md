# Portable object builder

A model of `PortableBuilderImpl`, Ignite's mutable overlay builder for portable
binary objects. A builder is either fresh (a type id, maybe a type name,
nothing to overlay) or laid over an encoded object read from a buffer.

The caller sets, typed-sets and removes fields. These edits go into an
insertion-ordered edit map. `getField` reads that map first. On a miss it
reads a lazily built cache of the original object's fields.

`build` runs `serializeTo`, which works in this order:

1. It writes the header.
2. It walks the original object's footer in stored order. Each original
   field is either:
   - replaced by its pending value;
   - dropped when the pending value is the removal marker;
   - copied byte for byte when it is a non-empty plain non-array field;
   - or re-serialised.
3. It appends the genuinely new fields in insertion order.
4. It checks the new fields against the type's metadata record. Conflicts
   fail the build. The names the store does not know are staged and sent
   in a single update.
5. It copies the raw section and moves the reader's cursor to the end of
   the original object.

Files:

- `wrappers.dfy`: `Option` (Java's nullable reference) and `Result`.
- `portable.dfy`: module `Portable`. It holds:
  - the pending-value datatype `Plain(v) | Typed(tag, v) | Removed`;
  - the encoded object `Binary`: footer entries, `start`, `rawOff`,
    `footerStart`, length, bytes and decoded header values;
  - the collaborators, as the function-valued fields of `Env`;
  - the field position and length rule;
  - the stopping point of the footer walk;
  - the read cache `ReadCache` and what `getField` reads (`FieldValue`).
- `merge.dfy`: module `Merge`. It states what `serializeTo` writes, as
  functions of the builder's state (`Snapshot`):
  - the footer walk `WalkOut`;
  - the new-field block `NewOut`, `FirstError` and `Staged`;
  - the whole `Serialize`, with the lemmas about it.
- `builder.dfy`: module `Builder`. It holds the class
  `PortableBuilderImpl`, with the edit map (`keys` and `vals`), `readCache`
  and `hashCode` as fields, and a `Reader` whose cursor `pos` the walk
  moves. Every method is proved against the functions of `Portable` and
  `Merge`.

The output of `serializeTo` is a sequence of items, not bytes:

- `Header(typeId, hashCode, clsName)`;
- `RawField(id, bytes)`, an original field copied verbatim;
- `ValueField(id, pending)`, a field written from the edit map;
- `ParsedField(id, value)`, an original field re-serialised;
- `RawSection(bytes)`.

A build returns `Written(items, update)` or `Failed(error)`. `update` is the
single `updateMetaData` call the build asks for, if any. A failed build
carries no update, so the metadata store stays as it was.

Points where the model follows the code's behaviour closely:

- Header length for an unregistered type. The code computes
  `reader.position() - mark` (`PortableBuilderImpl.java:170`), where `mark`
  is the cursor position when the builder was constructed. That position
  is not `start + DFLT_HDR_LEN`. The model follows the code:
  `Overlay.hdrLen == start + dfltHdrLen + clsNameLen - old(pos)`. From
  `FromObject`, whose reader starts at the object, this is the default
  header plus the inlined name.
- Conflicting plain value. The exception built at :340-347 is meant to
  report a schema error that shows the offending value. But it casts the
  value to the typed wrapper at :346, so a plain value fails with a cast
  error instead. The model returns
  `CastFailure` for a plain value and `WrongValueType` for a typed
  wrapper. Both are build failures with no metadata update.
- Missing type name. When fields are staged, the builder has no type name
  and the store has no record for the type, :357 dereferences null. The
  model returns the error `MissingTypeName`.
- Where the walk stops. The loop at :238 stops when the cursor reaches the
  raw section, not when the footer index runs out. The model allows
  zero-length fields, so offsets only need to be non-decreasing. A
  trailing zero-length field is therefore never visited. The walk drops
  it, and an assignment to it is treated as a new field. This is what
  `WalkSkipsTrailingEmptyField` states. When the last field is non-empty,
  the walk visits every entry (`WalkVisitsAll`).

## Model

| member | source | states |
|---|---|---|
| `Builder.FieldPositionAndLength` | modules/core/src/main/java/org/apache/ignite/internal/portable/builder/PortableBuilderImpl.java:396-414 | for the entry at `footerStart + 8k`, the position is `start + off` and the length is the next entry's offset minus this one, or `rawPos - pos` for the last entry; these are `FieldPos` and `FieldLen` of entry k |
| `Portable.FieldsTile` | modules/core/src/main/java/org/apache/ignite/internal/portable/builder/PortableBuilderImpl.java:396-414 | on a well-formed object, the lengths of the first n fields add up to the distance from the end of the header to field n, and never exceed the data section |
| `Portable.WalkVisitsAll` | modules/core/src/main/java/org/apache/ignite/internal/portable/builder/PortableBuilderImpl.java:236-242 | when the last field is non-empty, the cursor-driven loop visits every footer entry |
| `Portable.WalkSkipsTrailingEmptyField` | modules/core/src/main/java/org/apache/ignite/internal/portable/builder/PortableBuilderImpl.java:238 | when the last field has length zero, the loop stops before reaching it |
| `Portable.ReadCacheContents` | modules/core/src/main/java/org/apache/ignite/internal/portable/builder/PortableBuilderImpl.java:419-445 | the read cache has exactly one entry per footer entry, keyed by field id and holding `getValueQuickly(pos, len)` of that field; its key set is the set of footer ids |
| `Builder.PortableBuilderImpl.EnsureReadCacheInit` | modules/core/src/main/java/org/apache/ignite/internal/portable/builder/PortableBuilderImpl.java:419-445 | a missing cache becomes `ReadCache` of all footer entries; an existing one is left unchanged; the edit map and hash code are untouched |
| `Builder.PortableBuilderImpl.GetField` | modules/core/src/main/java/org/apache/ignite/internal/portable/builder/PortableBuilderImpl.java:449-467 | returns `FieldValue`: a pending assignment wins (the removal marker reads null); otherwise the cached value of the name's id, built first if needed; the cache is only built on a miss in the edit map |
| `Builder.SetThenGet` | modules/core/src/main/java/org/apache/ignite/internal/portable/builder/PortableBuilderImpl.java:470-485 | after setField(name, v), getField(name) is `unwrapLazy(v)`, or the typed wrapper's unwrapping when the previous entry was a wrapper; other names read as before |
| `Builder.RemoveThenGet` | modules/core/src/main/java/org/apache/ignite/internal/portable/builder/PortableBuilderImpl.java:513-520 | after removeField(name), getField(name) is null whatever the original holds; other names read as before |
| `Builder.ReAddAfterRemove` | modules/core/src/main/java/org/apache/ignite/internal/portable/builder/PortableBuilderImpl.java:470-485 | setField after removeField stores a plain value, and getField reads it back |
| `Builder.FreshReadsNull` | modules/core/src/main/java/org/apache/ignite/internal/portable/builder/PortableBuilderImpl.java:121 | a fresh builder's empty cache makes every name it was not given read as null |
| `Builder.InsertKey` | modules/core/src/main/java/org/apache/ignite/internal/portable/builder/PortableBuilderImpl.java:476 | LinkedHashMap key order: the new key order contains the old one as a prefix, adds the name at most once, and keeps the keys distinct |
| `Builder.PortableBuilderImpl.SetField` | modules/core/src/main/java/org/apache/ignite/internal/portable/builder/PortableBuilderImpl.java:470-485 | null is rejected with an argument error and nothing changes; otherwise the edit map becomes `Assign(vals, name, v)` (a wrapper keeps its declared type), the key goes last unless already present, and the call returns this builder |
| `Builder.PortableBuilderImpl.SetFieldTyped` | modules/core/src/main/java/org/apache/ignite/internal/portable/builder/PortableBuilderImpl.java:488-497 | unconditionally stores a wrapper with `typeByClass(cls)` and the possibly null value; returns this builder |
| `Builder.PortableBuilderImpl.SetFieldBuilder` | modules/core/src/main/java/org/apache/ignite/internal/portable/builder/PortableBuilderImpl.java:500-505 | a null nested builder becomes a typed null of class Object; otherwise the same as setField |
| `Builder.PortableBuilderImpl.RemoveField` | modules/core/src/main/java/org/apache/ignite/internal/portable/builder/PortableBuilderImpl.java:513-520 | stores the removal marker under the name and returns this builder |
| `Builder.PortableBuilderImpl.HashCode` | modules/core/src/main/java/org/apache/ignite/internal/portable/builder/PortableBuilderImpl.java:382-386 | sets the hash code; everything else is unchanged |
| `Builder.PortableBuilderImpl.Fresh` | modules/core/src/main/java/org/apache/ignite/internal/portable/builder/PortableBuilderImpl.java:112-122 | fresh builder: no reader, start -1, default header length, registered, empty read cache, empty edit map |
| `Builder.PortableBuilderImpl.ForClassName` | modules/core/src/main/java/org/apache/ignite/internal/portable/builder/PortableBuilderImpl.java:95-97 | fresh builder whose type id and type name come from the class name |
| `Builder.PortableBuilderImpl.ForTypeId` | modules/core/src/main/java/org/apache/ignite/internal/portable/builder/PortableBuilderImpl.java:103-105 | fresh builder with a type id and no type name |
| `Builder.PortableBuilderImpl.Overlay` | modules/core/src/main/java/org/apache/ignite/internal/portable/builder/PortableBuilderImpl.java:137-178 | an unsupported protocol version fails; the overlay has no type name, an empty edit map and no read cache; a registered type id gives the default header length and no class name to write; the unregistered sentinel reads the inlined class name, fails if the class does not load, and otherwise clears `registeredType`, sets the loaded type id and `hdrLen = pos after name - mark`, and puts the cursor back on the mark |
| `Builder.PortableBuilderImpl.FromObject` | modules/core/src/main/java/org/apache/ignite/internal/portable/builder/PortableBuilderImpl.java:127-131 | over a new reader at the object start, construction fails exactly for an unsupported version or a class that does not load; otherwise the builder has no type name, no edits and no read cache, the object's hash code, and either the object's type id with no class name (registered) or the loaded type id with the inlined class name to write (unregistered); the header length is the default, plus the inlined name for an unregistered type |
| `Builder.PortableBuilderImpl.AssignedFieldsById` | modules/core/src/main/java/org/apache/ignite/internal/portable/builder/PortableBuilderImpl.java:212-219 | the edit map re-keyed by field id in insertion order (`ById`) |
| `Merge.ById` | modules/core/src/main/java/org/apache/ignite/internal/portable/builder/PortableBuilderImpl.java:212-221 | the keys of the map by id, and so the initial remaining-set, are exactly the ids of the assigned names |
| `Merge.ByIdValue` | modules/core/src/main/java/org/apache/ignite/internal/portable/builder/PortableBuilderImpl.java:215-219 | with distinct field ids, each name's id maps to that name's pending value |
| `Builder.MergeEntry` | modules/core/src/main/java/org/apache/ignite/internal/portable/builder/PortableBuilderImpl.java:244-286 | one visited entry gives `EntryOut`, and its id leaves the remaining assignments |
| `Builder.WalkFooter` | modules/core/src/main/java/org/apache/ignite/internal/portable/builder/PortableBuilderImpl.java:226-287 | the loop produces `WalkOut` up to `WalkEnd`, consumes exactly the visited ids, and leaves the cursor on the raw section |
| `Builder.PortableBuilderImpl.WriteFooterFields` | modules/core/src/main/java/org/apache/ignite/internal/portable/builder/PortableBuilderImpl.java:207-287 | the walk and the remaining ids are `Walk` and `Remains` of the builder's state |
| `Merge.WalkIds` | modules/core/src/main/java/org/apache/ignite/internal/portable/builder/PortableBuilderImpl.java:238-287 | the walk's field ids are the visited footer ids in footer order, except those assigned the removal marker |
| `Merge.KeptIds` | modules/core/src/main/java/org/apache/ignite/internal/portable/builder/PortableBuilderImpl.java:244-254 | the kept ids have no duplicates, and are exactly the visited ids not assigned the removal marker |
| `Merge.UntouchedFieldKept` | modules/core/src/main/java/org/apache/ignite/internal/portable/builder/PortableBuilderImpl.java:255-286 | an unassigned visited field is written under its id: its bytes copied verbatim when it is non-empty, plain and not a plain array, otherwise re-serialised from a fresh parse, from the read cache, or as null when empty |
| `Merge.WalkWithoutEdits` | modules/core/src/main/java/org/apache/ignite/internal/portable/builder/PortableBuilderImpl.java:255-286 | with no assignment, the walk writes every visited footer id in order, only as copied or re-serialised fields |
| `Merge.AssignedFieldWritten` | modules/core/src/main/java/org/apache/ignite/internal/portable/builder/PortableBuilderImpl.java:244-253 | with distinct field ids, every non-removed assignment is written as a field under its id holding its pending value, whether it replaced an original field or was appended |
| `Merge.RemovedFieldAbsent` | modules/core/src/main/java/org/apache/ignite/internal/portable/builder/PortableBuilderImpl.java:249 | with distinct field ids, a removed name's id appears nowhere in the output, whether or not the original had it |
| `Merge.AppendedIffNotConsumed` | modules/core/src/main/java/org/apache/ignite/internal/portable/builder/PortableBuilderImpl.java:303-311 | in an overlay a name is appended iff it is not removed and the walk did not consume its id; an overridden original field is never checked against the metadata |
| `Merge.NewOutIds` | modules/core/src/main/java/org/apache/ignite/internal/portable/builder/PortableBuilderImpl.java:300-315 | each appended name yields a field under its id; every appended id comes from such a name; with distinct ids none repeats |
| `Merge.NothingRemains` | modules/core/src/main/java/org/apache/ignite/internal/portable/builder/PortableBuilderImpl.java:290 | skipping the block when every assignment matched an original field loses nothing: it would append, fail and stage nothing |
| `Merge.FreshBuild` | modules/core/src/main/java/org/apache/ignite/internal/portable/builder/PortableBuilderImpl.java:290-316 | a fresh builder writes the header, then every non-removed assignment in insertion order |
| `Merge.OutputIds` | modules/core/src/main/java/org/apache/ignite/internal/portable/builder/PortableBuilderImpl.java:238-316 | the output's field ids are those of the walk followed by those of the appended fields |
| `Merge.DistinctOutputIds` | modules/core/src/main/java/org/apache/ignite/internal/portable/builder/PortableBuilderImpl.java:238-316 | with distinct ids for the assigned names, no field id is written twice |
| `Merge.NoEditsOverlay` | modules/core/src/main/java/org/apache/ignite/internal/portable/builder/PortableBuilderImpl.java:209-287 | an overlay with no edits writes the header, every visited original field in footer order, and the raw section, with no metadata update |
| `Merge.StagedFields` | modules/core/src/main/java/org/apache/ignite/internal/portable/builder/PortableBuilderImpl.java:317-337 | the staged entries are exactly the appended names with no recorded type (none when metadata is off), each with its new declared type name |
| `Merge.FirstErrorIffSome` | modules/core/src/main/java/org/apache/ignite/internal/portable/builder/PortableBuilderImpl.java:338-349 | the block fails iff some name has a recorded type other than "Object" that differs from its new type name; the error is a schema or cast failure |
| `Merge.FirstErrorPrefix` | modules/core/src/main/java/org/apache/ignite/internal/portable/builder/PortableBuilderImpl.java:300-349 | the first failing name decides the error, so the loop may stop there |
| `Builder.AppendField` | modules/core/src/main/java/org/apache/ignite/internal/portable/builder/PortableBuilderImpl.java:300-350 | one step of the loop extends the appended items, the first error and the staged entries from the prefix before the name to the prefix with it |
| `Builder.PortableBuilderImpl.WriteNewFields` | modules/core/src/main/java/org/apache/ignite/internal/portable/builder/PortableBuilderImpl.java:290-361 | the block's result is `NewFields`: appended items and at most one update, or the error |
| `Merge.BuildFailsOnConflict` | modules/core/src/main/java/org/apache/ignite/internal/portable/builder/PortableBuilderImpl.java:330-349 | apart from the missing type name, the build fails iff the new-field block runs and some name conflicts with its recorded type (a schema or cast failure) |
| `Merge.MetadataUpdateStaged` | modules/core/src/main/java/org/apache/ignite/internal/portable/builder/PortableBuilderImpl.java:353-360 | a successful build asks for an update iff something was staged; the update is for this type id, only with metadata enabled, and holds exactly the staged names with their new type names |
| `Merge.Framing` | modules/core/src/main/java/org/apache/ignite/internal/portable/builder/PortableBuilderImpl.java:201-205 | the first item is the only header: type id and no class name iff registered, else the sentinel and the class name to write; the raw bytes `[rawOff, footerStart)` are the last item iff the overlaid object has them, and no other raw section is written |
| `Builder.PortableBuilderImpl.SerializeTo` | modules/core/src/main/java/org/apache/ignite/internal/portable/builder/PortableBuilderImpl.java:200-379 | the outcome is `Serialize` of the builder's state; after a successful write the cursor is at `start + length`, whatever was edited |
| `Builder.PortableBuilderImpl.Build` | modules/core/src/main/java/org/apache/ignite/internal/portable/builder/PortableBuilderImpl.java:181-194 | build is serializeTo into a new writer |

## Left out

- Byte encoding by `PortableWriterExImpl` is not modelled: header layout, field ids, footer and length finalisation (`postWrite`), and the `AutoCloseable` lifecycle. The writer is a sequence of items.
- Value parsing and serialisation are opaque functions of `Env`: `parseValue`, `getValueQuickly`, `readString`, `writeValue`, and cross-reference and cycle handling (`registerObject`, `registerObjectWriting`). Parsing a re-serialised field moves the cursor by exactly the field's length, as the assertion at :276 expects.
- `WalkFooter`, `SerializeTo` and `Overlay` assume that writing a value never moves the reader. Each `Reader` serves one builder over one `Binary`, and the walk advances its cursor by exactly the field length per entry. In the source, one reader can be shared by nested builders: :130 registers the builder with the reader, and the constructor at :137 takes `start` apart from the reader. A nested builder's `serializeTo`, reached through `writeValue` (:252, :284, :315), moves that shared cursor (:236, :375). For example, a nested builder read from field b and assigned to field a would leave the cursor at the end of b, not of a. Whether the serializer restores the cursor is not part of this model.
- The inlined class name of an unregistered type is given already decoded (`clsName`, `clsNameLen`). Class loading and `descriptorForClass(..).typeId()` are one `Env` function, `loadClassTypeId`.
- Type and field ids (`ctx.typeId`, `ctx.fieldId`), `typeByClass`, `fieldTypeName`, `unwrapLazy`, `isPlainType` and `isPlainArrayType` are uninterpreted functions of `Env`. So are the metadata store's reads. The store's update is returned, not applied.
- The layout constants (`DFLT_HDR_LEN`, `UNREGISTERED_TYPE_ID`, the protocol version) are parameters (`Env.layout`). The header fields are read as decoded values of `Binary`.
- Integers are unbounded: the 32-bit arithmetic of offsets, positions and `footerPos` is not modelled.
- `wrap()` (:528-537) and `heapCopy()` for off-heap objects are memory-representation plumbing. `FromObject` models the constructor `wrap()` ends in, on an on-heap object.
- The getters `start()` and `typeId()` are the constant fields `start` and `typeId`.
- Thread safety of the shared metadata store is out of scope. Only the sequential property is modelled: a single update, after every field has passed.
- Exception classes and message texts are reduced to `PortableError` kinds.
