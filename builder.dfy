/**
 * The portable object builder itself: a mutable object holding the edit
 * map, the lazily built read cache and, for a builder over an encoded
 * object, the reader whose cursor serializeTo moves. Every method is proved
 * against the functions of modules Portable and Merge.
 */
module Builder {
  import opened Wrappers
  import opened Portable
  import opened Merge

  /** The class a null nested builder is declared with. */
  const ObjectClass: string := "java.lang.Object"

  /** LinkedHashMap.put on the key order: a new name goes last, a re-put name keeps its place. */
  function InsertKey(keys: seq<string>, name: string): (r: seq<string>)
    ensures forall n :: n in r <==> n in keys || n == name
    ensures |keys| <= |r| <= |keys| + 1 && r[..|keys|] == keys
    ensures (forall i, j :: 0 <= i < j < |keys| ==> keys[i] != keys[j]) ==>
      forall i, j :: 0 <= i < j < |r| ==> r[i] != r[j]
  {
    if name in keys then keys else keys + [name]
  }

  /** The pending values after setField(name, v) with a non-null `v`: over a
      typed wrapper only the wrapped value changes, otherwise `v` is the plain value. */
  function Assign(vals: map<string, Pending>, name: string, v: Value): map<string, Pending> {
    if name in vals && vals[name].Typed? then vals[name := Typed(vals[name].tag, Some(v))]
    else vals[name := Plain(v)]
  }

  /** setField then getField: the value set, through unwrapLazy, or through the
      typed wrapper it was put into; no other name reads differently. */
  lemma SetThenGet(env: Env, typeId: int, vals: map<string, Pending>, cache: map<int, Option<Value>>, name: string, v: Value)
    ensures FieldValue(env, typeId, Assign(vals, name, v), cache, name) ==
      if name in vals && vals[name].Typed? then env.unwrapTyped(vals[name].tag, Some(v)) else Some(env.unwrapLazy(v))
    ensures forall n :: n != name ==> FieldValue(env, typeId, Assign(vals, name, v), cache, n) == FieldValue(env, typeId, vals, cache, n)
  {
  }

  /** removeField then getField reads null, whatever the original object holds;
      no other name reads differently. */
  lemma RemoveThenGet(env: Env, typeId: int, vals: map<string, Pending>, cache: map<int, Option<Value>>, name: string)
    ensures FieldValue(env, typeId, vals[name := Removed], cache, name).None?
    ensures forall n :: n != name ==> FieldValue(env, typeId, vals[name := Removed], cache, n) == FieldValue(env, typeId, vals, cache, n)
  {
  }

  /** setField after removeField re-adds the field as a plain value, which the build then writes. */
  lemma ReAddAfterRemove(env: Env, typeId: int, vals: map<string, Pending>, cache: map<int, Option<Value>>, name: string, v: Value)
    ensures Assign(vals[name := Removed], name, v)[name] == Plain(v)
    ensures FieldValue(env, typeId, Assign(vals[name := Removed], name, v), cache, name) == Some(env.unwrapLazy(v))
  {
  }

  /** A fresh builder's cache is empty, so a name it was not given reads null. */
  lemma FreshReadsNull(env: Env, typeId: int, vals: map<string, Pending>, name: string)
    requires name !in vals
    ensures FieldValue(env, typeId, vals, map[], name).None?
  {
  }

  /** One step of the walk on the shrinking id map: with unique footer ids, the
      assignments not yet consumed hold entry `k`'s id exactly when the
      original map does, and taking it out leaves those not consumed by `k + 1`. */
  lemma RemainingStep(obj: Binary, byId: map<int, Pending>, rem: map<int, Pending>, k: nat)
    requires UniqueIds(obj.footer) && k < |obj.footer|
    requires rem == byId - Consumed(obj, k)
    ensures obj.footer[k].id in rem <==> obj.footer[k].id in byId
    ensures obj.footer[k].id in rem ==>
      rem[obj.footer[k].id] == byId[obj.footer[k].id] && rem - {obj.footer[k].id} == byId - Consumed(obj, k + 1)
    ensures obj.footer[k].id !in rem ==> rem == byId - Consumed(obj, k + 1)
  {
    ConsumedIds(obj, k);
  }

  /** An entry's output is the same whether looked up in the assignments
      not yet consumed or in all of them. */
  lemma RemainingEntry(env: Env, obj: Binary, cache: Option<map<int, Option<Value>>>,
                       byId: map<int, Pending>, rem: map<int, Pending>, k: nat)
    requires UniqueIds(obj.footer) && k < |obj.footer| && FieldInBuffer(obj, k)
    requires rem == byId - Consumed(obj, k)
    ensures EntryOut(env, obj, cache, rem, k) == EntryOut(env, obj, cache, byId, k)
    ensures rem - {obj.footer[k].id} == byId - Consumed(obj, k + 1)
  {
    RemainingStep(obj, byId, rem, k);
  }

  /** The footer entry at absolute position `footerPos` is entry `k`. */
  lemma EntryIndex(footerStart: int, footerPos: int, k: nat)
    requires footerPos == footerStart + EntrySize * k
    ensures (footerPos - footerStart) % EntrySize == 0 && (footerPos - footerStart) / EntrySize == k
  {
  }

  /**
   * One visited footer entry, given the assignments `rem` not yet consumed:
   * an assigned field is replaced by its pending value, or dropped when that
   * is the removal marker, and its id is consumed; an untouched field is
   * copied byte for byte when it is a non-empty plain non-array field, else
   * re-serialised from a fresh parse or from the read cache, or as null when
   * it is empty.
   */
  method MergeEntry(env: Env, obj: Binary, cache: Option<map<int, Option<Value>>>, rem: map<int, Pending>,
                    ghost k: nat, pos: int, fieldId: int, fieldLen: int)
    returns (out: seq<Item>, rem': map<int, Pending>)
    requires k < |obj.footer| && FieldInBuffer(obj, k)
    requires fieldId == obj.footer[k].id && pos == FieldPos(obj, k) && fieldLen == FieldLen(obj, k)
    ensures out == EntryOut(env, obj, cache, rem, k)
    ensures rem' == rem - {fieldId}
  {
    rem' := rem - {fieldId};
    if fieldId in rem {
      var assignedVal := rem[fieldId];
      out := if assignedVal.Removed? then [] else [ValueField(fieldId, assignedVal)];
    } else {
      var tag: bv8 := if fieldLen != 0 then obj.bytes[pos] else 0;
      if fieldLen != 0 && !env.isPlainArrayType(tag) && env.isPlainType(tag) {
        out := [RawField(fieldId, obj.bytes[pos .. pos + fieldLen])];
      } else {
        var val: Option<Value>;
        if fieldLen == 0 {
          val := None;
        } else if cache.None? {
          val := env.parseValue(obj.bytes, pos);
        } else {
          val := CacheGet(cache.value, fieldId);
        }
        out := [ParsedField(fieldId, val)];
      }
    }
  }

  /**
   * One name of the new-field loop. A name not removed whose id is still
   * remaining is appended; with metadata enabled its declared type name is
   * staged when the store records none, and a recorded type other than
   * "Object" that differs from it is an error.
   */
  method AppendField(ghost c: Appending, ghost ks: seq<string>, ghost i: nat,
                     env: Env, typeId: int, name: string, val: Pending, remains: Option<set<int>>,
                     metadataEnabled: bool, metadata: Option<MetaRecord>,
                     appended: seq<Item>, staged: Option<map<string, string>>)
    returns (appended': seq<Item>, staged': Option<map<string, string>>, err: Option<PortableError>)
    requires forall n :: n in ks ==> n in c.vals
    requires i < |ks| && ks[i] == name
    requires c.env == env && c.typeId == typeId && c.vals[name] == val
    requires c.remains == remains && c.enabled == metadataEnabled && c.meta == metadata
    requires appended == NewOut(c, ks[..i]) && FirstError(c, ks[..i]).None?
    requires staged.None? ==> Staged(c, ks[..i]) == map[]
    requires staged.Some? ==> staged.value == Staged(c, ks[..i]) != map[]
    ensures err == FirstError(c, ks[..i + 1])
    ensures err.None? ==> appended' == NewOut(c, ks[..i + 1])
    ensures err.None? && staged'.None? ==> Staged(c, ks[..i + 1]) == map[]
    ensures err.None? && staged'.Some? ==> staged'.value == Staged(c, ks[..i + 1]) != map[]
  {
    appended', staged', err := appended, staged, None;
    if !val.Removed? {
      var fldId := env.fieldId(typeId, name);
      if remains.None? || fldId in remains.value {
        appended' := appended + [ValueField(fldId, val)];
        if metadataEnabled {
          var oldFldTypeName := Recorded(metadata, name);
          var newFldTypeName := NewTypeName(env, val);
          if oldFldTypeName.None? {
            staged' := Some(if staged.None? then map[name := newFldTypeName] else staged.value[name := newFldTypeName]);
            assert name in staged'.value;
          } else if oldFldTypeName.value != "Object" && oldFldTypeName.value != newFldTypeName {
            err := Some(if val.Typed? then WrongValueType(name, oldFldTypeName.value, newFldTypeName)
                        else CastFailure(name));
          }
        }
      }
    }
    PrefixStep(c, ks, i);
  }

  /**
   * Absolute position and length of the field whose footer entry is at
   * absolute position `footerPos` of the object at `start`: the entry's
   * offset from the object start, and the distance to the next entry's
   * offset, or to the raw section for the last entry.
   */
  function FieldPositionAndLength(obj: Binary, start: int, footerPos: int, footerEnd: int, rawPos: int): (r: (int, int))
    requires start == obj.start
    requires footerEnd == FooterEnd(obj) && rawPos == obj.rawOff
    requires obj.footerStart <= footerPos < footerEnd
    requires (footerPos - obj.footerStart) % EntrySize == 0
    ensures var k := (footerPos - obj.footerStart) / EntrySize;
      k < |obj.footer| && r == (FieldPos(obj, k), FieldLen(obj, k))
  {
    var k := (footerPos - obj.footerStart) / EntrySize;
    var fieldOffset := obj.footer[k].off;
    var fieldPos := start + fieldOffset;
    if footerPos + EntrySize == footerEnd then
      (fieldPos, rawPos - fieldPos)
    else
      (fieldPos, obj.footer[k + 1].off - fieldOffset)
  }

  /**
   * The footer walk of serializeTo over the object `reader` is on, with the
   * assignments by id `byId`: from the first field up to the raw section,
   * each visited entry replaced by its assignment, dropped when removed,
   * copied verbatim or re-serialised; the ids visited are consumed.
   */
  method WalkFooter(env: Env, reader: Reader, start: int, hdrLen: int,
                    cache: Option<map<int, Option<Value>>>, byId: map<int, Pending>)
    returns (walk: seq<Item>, rem: map<int, Pending>)
    requires WellFormed(reader.obj, hdrLen) && start == reader.obj.start
    modifies reader
    ensures forall k :: 0 <= k < |reader.obj.footer| ==> FieldInBuffer(reader.obj, k)
    ensures walk == WalkOut(env, reader.obj, cache, byId, WalkEnd(reader.obj))
    ensures rem == byId - Consumed(reader.obj, WalkEnd(reader.obj))
    ensures reader.pos == reader.obj.rawOff
  {
    var obj := reader.obj;
    WellFormedFields(obj, hdrLen);
    rem := byId;
    var footerPos := obj.footerStart;
    var footerEnd := FooterEnd(obj);
    var rawPos := obj.rawOff;
    reader.pos := start + hdrLen;
    walk := [];
    ghost var k: nat := 0;
    while reader.pos < rawPos
      invariant k <= WalkEnd(obj)
      invariant reader.pos == FieldPos(obj, k)
      invariant footerPos == obj.footerStart + EntrySize * k
      invariant walk == WalkOut(env, obj, cache, byId, k)
      invariant rem == byId - Consumed(obj, k)
      decreases |obj.footer| - k
    {
      WalkEndAt(obj, k);
      RemainingEntry(env, obj, cache, byId, rem, k);
      EntryIndex(obj.footerStart, footerPos, k);
      var fieldId := obj.footer[(footerPos - obj.footerStart) / EntrySize].id;
      var fieldLen := FieldPositionAndLength(obj, start, footerPos, footerEnd, rawPos).1;
      footerPos := footerPos + EntrySize;
      var out: seq<Item>;
      out, rem := MergeEntry(env, obj, cache, rem, k, reader.pos, fieldId, fieldLen);
      walk := walk + out;
      reader.pos := reader.pos + fieldLen;
      k := k + 1;
    }
    WalkEndAt(obj, k);
  }

  /** The reader over the buffer of the overlaid object; only its cursor moves. */
  class Reader {
    const obj: Binary
    var pos: int

    constructor (obj: Binary, pos: int)
      ensures this.obj == obj && this.pos == pos
    {
      this.obj := obj;
      this.pos := pos;
    }
  }

  class PortableBuilderImpl {
    const env: Env
    const typeId: int
    const typeName: Option<string>
    const clsNameToWrite: Option<string>
    const registeredType: bool
    /** Position of the object in the reader's buffer, or -1 for a fresh builder. */
    const start: int
    const hdrLen: int
    const reader: Reader?

    /** The edit map: names in insertion order and their pending values (empty stands for null). */
    var keys: seq<string>
    var vals: map<string, Pending>
    /** Field id -> original value; None until first needed by an overlay. */
    var readCache: Option<map<int, Option<Value>>>
    var hashCode: int

    predicate Valid()
      reads this
    {
      && EditsValid(keys, vals)
      && (reader == null ==> start == -1 && readCache == Some(map[]))
      && (reader != null ==> start == reader.obj.start)
    }

    /** The overlaid object, if any, is laid out as the merge expects for this header length. */
    predicate Readable() {
      reader != null ==> WellFormed(reader.obj, hdrLen)
    }

    /** The state serializeTo reads. */
    function Snap(): Snapshot
      reads this
    {
      Snapshot(typeId, typeName, clsNameToWrite, registeredType, hashCode, keys, vals, readCache,
               if reader == null then None else Some(reader.obj), hdrLen)
    }

    /** A builder for a new object of the given type; nothing to overlay, an empty read cache. */
    constructor Fresh(env: Env, typeId: int, typeName: Option<string>)
      ensures Valid() && Readable()
      ensures this.env == env && this.typeId == typeId && this.typeName == typeName
      ensures reader == null && start == -1 && hdrLen == env.layout.dfltHdrLen
      ensures registeredType && clsNameToWrite.None? && hashCode == 0
      ensures keys == [] && vals == map[] && readCache == Some(map[])
    {
      this.env := env;
      this.typeId := typeId;
      this.typeName := typeName;
      clsNameToWrite := None;
      registeredType := true;
      start := -1;
      hdrLen := env.layout.dfltHdrLen;
      reader := null;
      keys := [];
      vals := map[];
      readCache := Some(map[]);
      hashCode := 0;
    }

    /** A fresh builder named by a class name: its type id and simple type name. */
    constructor ForClassName(env: Env, clsName: string)
      ensures Valid() && Readable()
      ensures this.env == env && typeId == env.typeIdOf(clsName) && typeName == Some(env.typeNameOf(clsName))
      ensures reader == null && start == -1 && hdrLen == env.layout.dfltHdrLen
      ensures registeredType && clsNameToWrite.None? && hashCode == 0
      ensures keys == [] && vals == map[] && readCache == Some(map[])
    {
      this.env := env;
      typeId := env.typeIdOf(clsName);
      typeName := Some(env.typeNameOf(clsName));
      clsNameToWrite := None;
      registeredType := true;
      start := -1;
      hdrLen := env.layout.dfltHdrLen;
      reader := null;
      keys := [];
      vals := map[];
      readCache := Some(map[]);
      hashCode := 0;
    }

    /** A fresh builder named by a type id only: no type name. */
    constructor ForTypeId(env: Env, typeId: int)
      ensures Valid() && Readable()
      ensures this.env == env && this.typeId == typeId && typeName.None?
      ensures reader == null && start == -1 && hdrLen == env.layout.dfltHdrLen
      ensures registeredType && clsNameToWrite.None? && hashCode == 0
      ensures keys == [] && vals == map[] && readCache == Some(map[])
    {
      this.env := env;
      this.typeId := typeId;
      typeName := None;
      clsNameToWrite := None;
      registeredType := true;
      start := -1;
      hdrLen := env.layout.dfltHdrLen;
      reader := null;
      keys := [];
      vals := map[];
      readCache := Some(map[]);
      hashCode := 0;
    }

    /** The state an overlay starts in, once its header has been read. */
    constructor Overlaid(env: Env, reader: Reader, typeId: int, clsNameToWrite: Option<string>,
                         registeredType: bool, hdrLen: int, hashCode: int)
      ensures Valid()
      ensures this.env == env && this.reader == reader && start == reader.obj.start
      ensures this.typeId == typeId && typeName.None? && this.clsNameToWrite == clsNameToWrite
      ensures this.registeredType == registeredType && this.hdrLen == hdrLen && this.hashCode == hashCode
      ensures keys == [] && vals == map[] && readCache.None?
    {
      this.env := env;
      this.typeId := typeId;
      typeName := None;
      this.clsNameToWrite := clsNameToWrite;
      this.registeredType := registeredType;
      start := reader.obj.start;
      this.hdrLen := hdrLen;
      this.reader := reader;
      keys := [];
      vals := map[];
      readCache := None;
      this.hashCode := hashCode;
    }

    /**
     * A builder over the object the reader is on. The protocol version must
     * be supported. For an unregistered type the class name inlined after the
     * header is read, its class must load and gives the type id, and the
     * header length is the distance the cursor moved past the mark it had;
     * the cursor is then put back on the mark.
     */
    static method Overlay(env: Env, reader: Reader) returns (r: Result<PortableBuilderImpl, PortableError>)
      modifies reader
      ensures var obj := reader.obj;
        obj.protoVer != env.layout.protoVer ==> r == Err(UnsupportedProtocol(obj.protoVer)) && reader.pos == old(reader.pos)
      ensures var obj := reader.obj;
        obj.protoVer == env.layout.protoVer && obj.typeId == env.layout.unregisteredTypeId && env.loadClassTypeId(obj.clsName).None? ==>
          r == Err(ClassNotFound(obj.clsName)) && reader.pos == obj.start + env.layout.dfltHdrLen + obj.clsNameLen
      ensures r.Ok? ==> reader.pos == old(reader.pos)
      ensures r.Ok? ==> var b := r.value;
        && fresh(b) && b.Valid() && b.env == env && b.reader == reader
        && b.keys == [] && b.vals == map[] && b.readCache.None? && b.hashCode == reader.obj.hashCode
        && b.typeName.None? && b.start == reader.obj.start
      ensures r.Ok? && reader.obj.typeId != env.layout.unregisteredTypeId ==> var b := r.value;
        && b.registeredType && b.clsNameToWrite.None?
        && b.typeId == reader.obj.typeId && b.hdrLen == env.layout.dfltHdrLen
      ensures r.Ok? && reader.obj.typeId == env.layout.unregisteredTypeId ==> var b := r.value;
        && !b.registeredType && b.clsNameToWrite == Some(reader.obj.clsName)
        && Some(b.typeId) == env.loadClassTypeId(reader.obj.clsName)
        && b.hdrLen == reader.obj.start + env.layout.dfltHdrLen + reader.obj.clsNameLen - old(reader.pos)
      ensures r.Err? ==>
        (reader.obj.protoVer != env.layout.protoVer ||
         (reader.obj.typeId == env.layout.unregisteredTypeId && env.loadClassTypeId(reader.obj.clsName).None?))
    {
      var obj := reader.obj;
      if obj.protoVer != env.layout.protoVer {
        return Err(UnsupportedProtocol(obj.protoVer));
      }
      var start := obj.start;
      var hash := obj.hashCode;
      if obj.typeId == env.layout.unregisteredTypeId {
        var mark := reader.pos;
        reader.pos := start + env.layout.dfltHdrLen;
        var clsName := obj.clsName;
        reader.pos := reader.pos + obj.clsNameLen;
        var loaded := env.loadClassTypeId(clsName);
        if loaded.None? {
          return Err(ClassNotFound(clsName));
        }
        var hdrLen := reader.pos - mark;
        reader.pos := mark;
        var b := new PortableBuilderImpl.Overlaid(env, reader, loaded.value, Some(clsName), false, hdrLen, hash);
        r := Ok(b);
      } else {
        var b := new PortableBuilderImpl.Overlaid(env, reader, obj.typeId, None, true, env.layout.dfltHdrLen, hash);
        r := Ok(b);
      }
    }

    /**
     * The constructor over an encoded object (PortableBuilderImpl(obj)): a
     * reader on the object's start, then the overlay. For an unregistered
     * type the header length is then the default header plus the inlined
     * class name, so serializeTo starts on the first field.
     */
    static method FromObject(env: Env, obj: Binary) returns (r: Result<PortableBuilderImpl, PortableError>)
      ensures r.Ok? ==> var b := r.value;
        && fresh(b) && fresh(b.reader) && b.Valid() && b.env == env
        && b.reader.obj == obj && b.reader.pos == obj.start && b.start == obj.start
        && b.keys == [] && b.vals == map[] && b.readCache.None? && b.hashCode == obj.hashCode && b.typeName.None?
        && b.hdrLen == env.layout.dfltHdrLen + (if obj.typeId == env.layout.unregisteredTypeId then obj.clsNameLen else 0)
      ensures r.Ok? && obj.typeId != env.layout.unregisteredTypeId ==> var b := r.value;
        b.registeredType && b.typeId == obj.typeId && b.clsNameToWrite.None?
      ensures r.Ok? && obj.typeId == env.layout.unregisteredTypeId ==> var b := r.value;
        && !b.registeredType && b.clsNameToWrite == Some(obj.clsName)
        && Some(b.typeId) == env.loadClassTypeId(obj.clsName)
      ensures r.Err? <==>
        obj.protoVer != env.layout.protoVer ||
        (obj.typeId == env.layout.unregisteredTypeId && env.loadClassTypeId(obj.clsName).None?)
    {
      var rd := new Reader(obj, obj.start);
      r := Overlay(env, rd);
    }

    /** Builds the read cache from every footer entry, once. */
    method EnsureReadCacheInit()
      requires Valid()
      modifies this
      ensures Valid()
      ensures readCache.Some?
      ensures old(readCache).Some? ==> readCache == old(readCache)
      ensures old(readCache).None? ==> readCache == Some(ReadCache(env, reader.obj, |reader.obj.footer|))
      ensures keys == old(keys) && vals == old(vals) && hashCode == old(hashCode)
    {
      if readCache.None? {
        var obj := reader.obj;
        var cache: map<int, Option<Value>> := map[];
        var footerPos := obj.footerStart;
        var footerEnd := FooterEnd(obj);
        var rawPos := obj.rawOff;
        var k: nat := 0;
        while footerPos < footerEnd
          invariant k <= |obj.footer|
          invariant footerPos == obj.footerStart + EntrySize * k
          invariant cache == ReadCache(env, obj, k)
          decreases footerEnd - footerPos
        {
          var fieldId := obj.footer[(footerPos - obj.footerStart) / EntrySize].id;
          var posAndLen := FieldPositionAndLength(obj, start, footerPos, footerEnd, rawPos);
          var val := env.valueQuickly(obj.bytes, posAndLen.0, posAndLen.1);
          cache := cache[fieldId := val];
          footerPos := footerPos + EntrySize;
          k := k + 1;
        }
        readCache := Some(cache);
      }
    }

    /** getField: the pending value of the name, else the original field's value from the read cache. */
    method GetField(name: string) returns (v: Option<Value>)
      requires Valid()
      modifies this
      ensures Valid()
      ensures name !in vals ==> readCache.Some?
      ensures v == FieldValue(env, typeId, vals, readCache.GetOr(map[]), name)
      ensures name in vals ==> readCache == old(readCache)
      ensures name !in vals && old(readCache).None? ==> readCache == Some(ReadCache(env, reader.obj, |reader.obj.footer|))
      ensures name !in vals && old(readCache).Some? ==> readCache == old(readCache)
      ensures keys == old(keys) && vals == old(vals) && hashCode == old(hashCode)
    {
      var val: Option<Value>;
      if |keys| > 0 && name in vals {
        match vals[name]
        case Removed =>
          return None;
        case Plain(x) =>
          val := Some(x);
        case Typed(tag, inner) =>
          return env.unwrapTyped(tag, inner);
      } else {
        EnsureReadCacheInit();
        var fldId := env.fieldId(typeId, name);
        val := CacheGet(readCache.value, fldId);
      }
      v := if val.Some? then Some(env.unwrapLazy(val.value)) else None;
    }

    /** setField(name, val): null is refused; over a typed wrapper the new value keeps the declared type. */
    method SetField(name: string, val: Option<Value>) returns (r: Result<PortableBuilderImpl, PortableError>)
      requires Valid()
      modifies this
      ensures Valid()
      ensures val.None? ==> r == Err(NullArgument(name)) && keys == old(keys) && vals == old(vals)
      ensures val.Some? ==> r == Ok(this) && keys == InsertKey(old(keys), name)
      ensures val.Some? ==> vals == Assign(old(vals), name, val.value)
      ensures readCache == old(readCache) && hashCode == old(hashCode)
    {
      if val.None? {
        return Err(NullArgument(name));
      }
      var oldVal := if name in vals then Some(vals[name]) else None;
      keys := InsertKey(keys, name);
      vals := vals[name := Plain(val.value)];
      if oldVal.Some? && oldVal.value.Typed? {
        vals := vals[name := Typed(oldVal.value.tag, val)];
      }
      r := Ok(this);
    }

    /** setField(name, val, type): a typed wrapper holding the type tag of the class, maybe a null value. */
    method SetFieldTyped(name: string, val: Option<Value>, cls: string) returns (r: PortableBuilderImpl)
      requires Valid()
      modifies this
      ensures Valid() && r == this
      ensures keys == InsertKey(old(keys), name)
      ensures vals == old(vals)[name := Typed(env.typeByClass(cls), val)]
      ensures readCache == old(readCache) && hashCode == old(hashCode)
    {
      keys := InsertKey(keys, name);
      vals := vals[name := Typed(env.typeByClass(cls), val)];
      r := this;
    }

    /** setField(name, builder): a nested builder as a plain value; null becomes a typed null of class Object. */
    method SetFieldBuilder(name: string, builder: Option<Value>) returns (r: PortableBuilderImpl)
      requires Valid()
      modifies this
      ensures Valid() && r == this
      ensures keys == InsertKey(old(keys), name)
      ensures builder.None? ==> vals == old(vals)[name := Typed(env.typeByClass(ObjectClass), None)]
      ensures builder.Some? ==> vals == Assign(old(vals), name, builder.value)
      ensures readCache == old(readCache) && hashCode == old(hashCode)
    {
      if builder.None? {
        r := SetFieldTyped(name, None, ObjectClass);
      } else {
        var res := SetField(name, builder);
        r := this;
      }
    }

    /** removeField: the removal marker, which the build honours for original and new fields alike. */
    method RemoveField(name: string) returns (r: PortableBuilderImpl)
      requires Valid()
      modifies this
      ensures Valid() && r == this
      ensures keys == InsertKey(old(keys), name)
      ensures vals == old(vals)[name := Removed]
      ensures readCache == old(readCache) && hashCode == old(hashCode)
    {
      keys := InsertKey(keys, name);
      vals := vals[name := Removed];
      r := this;
    }

    /** hashCode(int): the hash code the header is written with. */
    method HashCode(hashCode: int) returns (r: PortableBuilderImpl)
      requires Valid()
      modifies this
      ensures Valid() && r == this && this.hashCode == hashCode
      ensures keys == old(keys) && vals == old(vals) && readCache == old(readCache)
    {
      this.hashCode := hashCode;
      r := this;
    }

    /** The edit map re-keyed by field id, entries put in insertion order. */
    method AssignedFieldsById() returns (m: map<int, Pending>)
      requires Valid()
      ensures m == ById(env, typeId, keys, vals)
    {
      m := map[];
      var i := 0;
      while i < |keys|
        invariant 0 <= i <= |keys|
        invariant m == ById(env, typeId, keys[..i], vals)
      {
        assert keys[..i + 1][..i] == keys[..i];
        m := m[env.fieldId(typeId, keys[i]) := vals[keys[i]]];
        i := i + 1;
      }
      assert keys[..i] == keys;
    }

    /**
     * The footer walk of serializeTo: from the first field to the raw
     * section, each visited entry replaced by its assignment, dropped when
     * removed, copied verbatim or re-serialised; the ids consumed leave the
     * assignments still to append.
     */
    method WriteFooterFields() returns (walk: seq<Item>, remains: Option<set<int>>)
      requires Valid() && Readable() && reader != null
      modifies reader
      ensures walk == Walk(env, Snap())
      ensures remains == Remains(env, Snap())
      ensures reader.pos == reader.obj.rawOff
    {
      ghost var s := Snap();
      WalkOfOverlay(env, s);
      var rem: map<int, Pending> := map[];
      if |keys| > 0 {
        rem := AssignedFieldsById();
      }
      walk, rem := WalkFooter(env, reader, start, hdrLen, readCache, rem);
      remains := if |keys| > 0 then Some(rem.Keys) else None;
    }

    /**
     * The new-field loop of serializeTo: every pending name not removed and
     * not consumed by the walk is appended in insertion order; with metadata
     * enabled, a recorded type other than "Object" that differs fails the
     * build, and names with no recorded type are staged for one update.
     */
    method WriteNewFields(remains: Option<set<int>>) returns (res: Result<(seq<Item>, Option<MetaUpdate>), PortableError>)
      requires Valid() && Readable()
      requires remains == Remains(env, Snap())
      ensures res == NewFields(env, Snap())
    {
      if !(|keys| > 0 && (remains.None? || remains.value != {})) {
        return Ok(([], None));
      }
      ghost var c := AppendingOf(env, Snap());
      var metadataEnabled := env.metaDataEnabled(typeId);
      var metadata: Option<MetaRecord> := None;
      if metadataEnabled {
        metadata := env.metaData(typeId);
      }
      assert c == Appending(env, typeId, vals, remains, metadataEnabled, metadata);
      var appended: seq<Item> := [];
      var newFldsMetadata: Option<map<string, string>> := None;
      var i := 0;
      while i < |keys|
        invariant 0 <= i <= |keys|
        invariant appended == NewOut(c, keys[..i])
        invariant FirstError(c, keys[..i]).None?
        invariant newFldsMetadata.None? ==> Staged(c, keys[..i]) == map[]
        invariant newFldsMetadata.Some? ==> newFldsMetadata.value == Staged(c, keys[..i]) != map[]
      {
        var err: Option<PortableError>;
        appended, newFldsMetadata, err := AppendField(c, keys, i, env, typeId, keys[i], vals[keys[i]], remains, metadataEnabled, metadata, appended, newFldsMetadata);
        if err.Some? {
          FirstErrorPrefix(c, keys, i + 1);
          return Err(err.value);
        }
        i := i + 1;
      }
      assert keys[..i] == keys;
      var update: Option<MetaUpdate> := None;
      if newFldsMetadata.Some? {
        var tn := typeName;
        if tn.None? {
          if metadata.None? {
            return Err(MissingTypeName);
          }
          tn := Some(metadata.value.typeName);
        }
        update := Some(MetaUpdate(typeId, tn.value, newFldsMetadata.value));
      }
      res := Ok((appended, update));
    }

    /**
     * serializeTo: the header, the footer walk, the new fields, the raw
     * section; the reader ends on the end of the original object, or on the
     * raw section when the new-field block fails.
     */
    method SerializeTo() returns (r: Outcome)
      requires Valid() && Readable()
      modifies reader
      ensures r == Serialize(env, Snap())
      ensures reader != null && r.Written? ==> reader.pos == reader.obj.start + reader.obj.length
      ensures reader != null && r.Failed? ==> reader.pos == reader.obj.rawOff
    {
      var header := if registeredType then Header(typeId, hashCode, None)
                    else Header(env.layout.unregisteredTypeId, hashCode, clsNameToWrite);
      var walk: seq<Item> := [];
      var remains: Option<set<int>> := None;
      if reader != null {
        walk, remains := WriteFooterFields();
      }
      var res := WriteNewFields(remains);
      if res.Err? {
        return Failed(res.error);
      }
      var tail: seq<Item> := [];
      if reader != null {
        var obj := reader.obj;
        if obj.rawOff < obj.footerStart {
          tail := [RawSection(obj.bytes[obj.rawOff .. obj.footerStart])];
        }
        reader.pos := start + obj.length;
      }
      r := Written([header] + walk + res.value.0 + tail, res.value.1);
    }

    /** build: serializeTo into a new writer; the object built is what it writes. */
    method Build() returns (r: Outcome)
      requires Valid() && Readable()
      modifies reader
      ensures r == Serialize(env, Snap())
      ensures reader != null && r.Written? ==> reader.pos == reader.obj.start + reader.obj.length
    {
      r := SerializeTo();
    }
  }
}
