/**
 * The vocabulary of the portable object builder: the values it holds, the
 * layout of an encoded object it overlays, the collaborators it calls but
 * does not implement, and the lazily built read cache.
 */
module Portable {
  import opened Wrappers

  /** A non-null Java value held by a builder: a scalar, a string, a nested
      builder, a lazily parsed value. Java's null is `None` of an Option. */
  type Value(==)

  /** The pending value of a field name in the builder's edit map. */
  datatype Pending =
    | Plain(v: Value)                     // setField(name, val): never null
    | Typed(tag: int, inner: Option<Value>) // setField(name, val, type): a declared type tag, maybe a null value
    | Removed                             // removeField(name)

  /** One footer entry: a field id and the field's offset from the object start. */
  datatype Entry = Entry(id: int, off: int)

  /**
   * An encoded object at position `start` of the buffer `bytes`. The header
   * values are given already decoded: the protocol version, the type id (or
   * the unregistered sentinel), the hash code and, for an unregistered type,
   * the inlined class name together with the number of bytes its encoding
   * takes. `footerStart`, `rawOff` and `length` are what the format's
   * helpers report: the absolute footer start, the absolute start of the raw
   * section (equal to the end of the fields) and the object's total length.
   */
  datatype Binary = Binary(
    bytes: seq<bv8>,
    start: int,
    protoVer: int,
    typeId: int,
    hashCode: int,
    clsName: string,
    clsNameLen: nat,
    footer: seq<Entry>,
    footerStart: int,
    rawOff: int,
    length: int)

  /** The format constants the builder uses (defined with the marshaller). */
  datatype Layout = Layout(dfltHdrLen: int, unregisteredTypeId: int, protoVer: int)

  /** A type's record in the metadata store: its name and field name -> declared type name. */
  datatype MetaRecord = MetaRecord(typeName: string, fields: map<string, string>)

  /**
   * The collaborators: the portable context (field id hashing, type
   * registry, metadata store reads), the type tag tables, the value reader
   * and the lazy-value unwrapping. Each is a total function here.
   */
  datatype Env = Env(
    layout: Layout,
    fieldId: (int, string) -> int,                      // ctx.fieldId(typeId, name)
    typeIdOf: string -> int,                            // ctx.typeId(clsName)
    typeNameOf: string -> string,                       // PortableContext.typeName(clsName)
    loadClassTypeId: string -> Option<int>,             // forName + descriptorForClass(..).typeId(); None: class not found
    isPlainType: bv8 -> bool,
    isPlainArrayType: bv8 -> bool,
    parseValue: (seq<bv8>, int) -> Option<Value>,       // reader.parseValue() at a position
    valueQuickly: (seq<bv8>, int, int) -> Option<Value>, // reader.getValueQuickly(pos, len)
    unwrapLazy: Value -> Value,
    unwrapTyped: (int, Option<Value>) -> Option<Value>, // unwrapLazy applied to a typed wrapper
    classOf: Value -> string,
    typeByClass: string -> int,
    fieldTypeName: int -> string,
    metaDataEnabled: int -> bool,
    metaData: int -> Option<MetaRecord>)

  /** Size of one footer entry: a 4-byte field id and a 4-byte offset. */
  const EntrySize: int := 8

  /** Absolute end of the footer. */
  function FooterEnd(obj: Binary): int {
    obj.footerStart + EntrySize * |obj.footer|
  }

  /** Absolute position of field `k`; position |footer| stands for the raw section start. */
  function FieldPos(obj: Binary, k: nat): int
    requires k <= |obj.footer|
  {
    if k < |obj.footer| then obj.start + obj.footer[k].off else obj.rawOff
  }

  /** A field's length is derived: it runs up to the next field, or to the raw section. */
  function FieldLen(obj: Binary, k: nat): int
    requires k < |obj.footer|
  {
    FieldPos(obj, k + 1) - FieldPos(obj, k)
  }

  predicate UniqueIds(footer: seq<Entry>) {
    forall i, j :: 0 <= i < j < |footer| ==> footer[i].id != footer[j].id
  }

  /**
   * The layout the merge relies on, for a header of length `hdrLen`: the
   * fields start right after the header, offsets never decrease, every field
   * starts no later than the raw section, the raw section precedes the
   * footer inside the buffer, and field ids are unique.
   */
  predicate WellFormed(obj: Binary, hdrLen: int) {
    && 0 <= obj.start
    && 0 <= hdrLen
    && obj.start + hdrLen <= obj.rawOff <= obj.footerStart <= |obj.bytes|
    && (|obj.footer| == 0 ==> obj.rawOff == obj.start + hdrLen)
    && (|obj.footer| > 0 ==> obj.footer[0].off == hdrLen)
    && (forall i, j :: 0 <= i < j < |obj.footer| ==> obj.footer[i].off <= obj.footer[j].off)
    && (forall i :: 0 <= i < |obj.footer| ==> obj.start + obj.footer[i].off <= obj.rawOff)
    && UniqueIds(obj.footer)
  }

  /** Field `k`'s bytes lie inside the buffer. */
  predicate FieldInBuffer(obj: Binary, k: nat)
    requires k < |obj.footer|
  {
    0 <= FieldPos(obj, k) <= FieldPos(obj, k + 1) <= |obj.bytes|
  }

  lemma WellFormedFields(obj: Binary, hdrLen: int)
    requires WellFormed(obj, hdrLen)
    ensures FieldPos(obj, 0) == obj.start + hdrLen
    ensures forall k :: 0 <= k < |obj.footer| ==> FieldInBuffer(obj, k) && FieldPos(obj, k + 1) <= obj.rawOff
  {
  }

  /**
   * The footer walk of serializeTo stops on the cursor, not on the footer
   * index: starting from entry `k`, it stops at the first entry whose
   * position has reached the raw section.
   */
  function WalkEndFrom(obj: Binary, k: nat): (r: nat)
    requires k <= |obj.footer|
    ensures k <= r <= |obj.footer|
    ensures FieldPos(obj, r) >= obj.rawOff
    ensures forall j :: k <= j < r ==> FieldPos(obj, j) < obj.rawOff
    decreases |obj.footer| - k
  {
    if FieldPos(obj, k) >= obj.rawOff then k else WalkEndFrom(obj, k + 1)
  }

  /** Number of footer entries the walk visits. */
  function WalkEnd(obj: Binary): (r: nat)
    ensures r <= |obj.footer|
    ensures FieldPos(obj, r) >= obj.rawOff
    ensures forall j :: 0 <= j < r ==> FieldPos(obj, j) < obj.rawOff
  {
    WalkEndFrom(obj, 0)
  }

  /** Up to where the walk stops, the cursor is short of the raw section exactly before the stop. */
  lemma WalkEndAt(obj: Binary, k: nat)
    requires k <= WalkEnd(obj)
    ensures FieldPos(obj, k) < obj.rawOff <==> k < WalkEnd(obj)
  {
  }

  /** When the last field is non-empty the walk visits every footer entry. */
  lemma WalkVisitsAll(obj: Binary, hdrLen: int)
    requires WellFormed(obj, hdrLen)
    requires |obj.footer| > 0 ==> FieldLen(obj, |obj.footer| - 1) > 0
    ensures WalkEnd(obj) == |obj.footer|
  {
  }

  /** A trailing zero-length field sits at the raw section start, so the walk never reaches it. */
  lemma WalkSkipsTrailingEmptyField(obj: Binary, hdrLen: int)
    requires WellFormed(obj, hdrLen)
    requires |obj.footer| > 0 && FieldLen(obj, |obj.footer| - 1) == 0
    ensures WalkEnd(obj) < |obj.footer|
  {
  }

  /** Sum of the lengths of the first `n` fields. */
  function SpanOf(obj: Binary, n: nat): int
    requires n <= |obj.footer|
  {
    if n == 0 then 0 else SpanOf(obj, n - 1) + FieldLen(obj, n - 1)
  }

  /** The fields tile the data section: the lengths of the first `n` fields
      add up to the distance from the end of the header to field `n`. */
  lemma {:induction false} FieldsTile(obj: Binary, hdrLen: int, n: nat)
    requires WellFormed(obj, hdrLen)
    requires n <= |obj.footer|
    ensures SpanOf(obj, n) == FieldPos(obj, n) - (obj.start + hdrLen)
    ensures 0 <= SpanOf(obj, n) <= obj.rawOff - (obj.start + hdrLen)
  {
    WellFormedFields(obj, hdrLen);
    if n > 0 {
      FieldsTile(obj, hdrLen, n - 1);
    }
  }

  /** Field ids of the first `n` footer entries. */
  function Consumed(obj: Binary, n: nat): set<int>
    requires n <= |obj.footer|
  {
    if n == 0 then {} else Consumed(obj, n - 1) + {obj.footer[n - 1].id}
  }

  /** The ids of the first `n` entries are those of entries 0 .. n-1 and,
      when ids are unique, no later entry's. */
  lemma {:induction false} ConsumedIds(obj: Binary, n: nat)
    requires n <= |obj.footer|
    ensures forall k :: 0 <= k < n ==> obj.footer[k].id in Consumed(obj, n)
    ensures forall x :: x in Consumed(obj, n) ==> exists k :: 0 <= k < n && obj.footer[k].id == x
    ensures UniqueIds(obj.footer) ==> forall j :: n <= j < |obj.footer| ==> obj.footer[j].id !in Consumed(obj, n)
  {
    if n > 0 {
      ConsumedIds(obj, n - 1);
    }
  }

  // ---------------------------------------------------------------------
  // Read cache

  /** The cache ensureReadCacheInit builds from the first `n` footer
      entries: each entry's value, read quickly, stored under its field id. */
  function ReadCache(env: Env, obj: Binary, n: nat): map<int, Option<Value>>
    requires n <= |obj.footer|
  {
    if n == 0 then map[]
    else ReadCache(env, obj, n - 1)[obj.footer[n - 1].id := env.valueQuickly(obj.bytes, FieldPos(obj, n - 1), FieldLen(obj, n - 1))]
  }

  lemma {:induction false} ReadCacheKeys(env: Env, obj: Binary, n: nat)
    requires n <= |obj.footer|
    ensures ReadCache(env, obj, n).Keys == Consumed(obj, n)
  {
    if n > 0 {
      ReadCacheKeys(env, obj, n - 1);
    }
  }

  /** With unique ids the cache of the first `n` entries has `n` entries. */
  lemma {:induction false} ReadCacheSize(env: Env, obj: Binary, n: nat)
    requires n <= |obj.footer|
    requires UniqueIds(obj.footer)
    ensures |ReadCache(env, obj, n)| == n
  {
    if n > 0 {
      ReadCacheSize(env, obj, n - 1);
      ReadCacheKeys(env, obj, n - 1);
      ConsumedIds(obj, n - 1);
      var prev := ReadCache(env, obj, n - 1);
      var id := obj.footer[n - 1].id;
      assert id !in prev;
      assert ReadCache(env, obj, n).Keys == prev.Keys + {id};
    }
  }

  /** Entry `k`'s value is what the cache of the first `n > k` entries holds
      under its id, since no later entry has the same id. */
  lemma {:induction false} ReadCacheAt(env: Env, obj: Binary, n: nat, k: nat)
    requires k < n <= |obj.footer|
    requires UniqueIds(obj.footer)
    ensures obj.footer[k].id in ReadCache(env, obj, n)
    ensures ReadCache(env, obj, n)[obj.footer[k].id] == env.valueQuickly(obj.bytes, FieldPos(obj, k), FieldLen(obj, k))
  {
    if k < n - 1 {
      ReadCacheAt(env, obj, n - 1, k);
      assert obj.footer[k].id != obj.footer[n - 1].id;
    }
  }

  /** The cache has exactly one entry per footer entry, keyed by field id,
      holding that field's quickly read value. */
  lemma ReadCacheContents(env: Env, obj: Binary, n: nat)
    requires n <= |obj.footer|
    requires UniqueIds(obj.footer)
    ensures ReadCache(env, obj, n).Keys == Consumed(obj, n)
    ensures |ReadCache(env, obj, n)| == n
    ensures forall k :: 0 <= k < n ==> obj.footer[k].id in ReadCache(env, obj, n)
    ensures forall k :: 0 <= k < n ==>
      ReadCache(env, obj, n)[obj.footer[k].id] == env.valueQuickly(obj.bytes, FieldPos(obj, k), FieldLen(obj, k))
  {
    ReadCacheKeys(env, obj, n);
    ReadCacheSize(env, obj, n);
    forall k | 0 <= k < n
      ensures obj.footer[k].id in ReadCache(env, obj, n)
      ensures ReadCache(env, obj, n)[obj.footer[k].id] == env.valueQuickly(obj.bytes, FieldPos(obj, k), FieldLen(obj, k))
    {
      ReadCacheAt(env, obj, n, k);
    }
  }

  /** Java's Map.get: the stored value, or null when the key is absent. */
  function CacheGet(cache: map<int, Option<Value>>, id: int): Option<Value> {
    if id in cache then cache[id] else None
  }

  /**
   * What getField(name) returns once the cache is `cache`: a pending
   * assignment wins (the removal marker reads as null); otherwise the cached
   * value of the field's id. Both go through unwrapLazy.
   */
  function FieldValue(env: Env, typeId: int, vals: map<string, Pending>, cache: map<int, Option<Value>>, name: string): Option<Value> {
    if name in vals then
      match vals[name]
      case Removed => None
      case Plain(v) => Some(env.unwrapLazy(v))
      case Typed(tag, v) => env.unwrapTyped(tag, v)
    else
      match CacheGet(cache, env.fieldId(typeId, name))
      case None => None
      case Some(v) => Some(env.unwrapLazy(v))
  }
}
