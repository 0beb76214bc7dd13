/**
 * What serializeTo writes, as functions of the builder's state: the header,
 * the original fields merged with the edit map in footer order, the new
 * fields in insertion order, the raw section, and the metadata update it
 * asks for or the error it fails with.
 */
module Merge {
  import opened Wrappers
  import opened Portable

  /** One write serializeTo hands to the writer. */
  datatype Item =
    | Header(typeId: int, hashCode: int, clsName: Option<string>)
    | RawField(id: int, bytes: seq<bv8>)        // an original field copied byte for byte
    | ValueField(id: int, pending: Pending)     // a field written from the edit map
    | ParsedField(id: int, value: Option<Value>)  // an original field re-serialised from its value
    | RawSection(bytes: seq<bv8>)

  /** The single updateMetaData call a successful build asks for. */
  datatype MetaUpdate = MetaUpdate(typeId: int, typeName: string, fields: map<string, string>)

  datatype PortableError =
    | UnsupportedProtocol(ver: int)       // checkProtocolVersion rejects the version byte
    | ClassNotFound(clsName: string)      // the inlined class name does not load
    | WrongValueType(field: string, recordedType: string, assignedType: string)
    | CastFailure(field: string)          // a conflicting value that is not a typed wrapper
    | MissingTypeName                     // new fields to record, but neither the builder nor the store names the type
    | NullArgument(name: string)          // setField(name, val) with a null value

  datatype Outcome = Written(items: seq<Item>, update: Option<MetaUpdate>) | Failed(error: PortableError)

  /** The edit map: insertion-ordered distinct names, each with its pending value. */
  predicate EditsValid(keys: seq<string>, vals: map<string, Pending>) {
    && (forall i, j :: 0 <= i < j < |keys| ==> keys[i] != keys[j])
    && (forall n :: n in vals ==> n in keys)
    && (forall n :: n in keys ==> n in vals)
  }

  /** The field ids of the field items, in order. */
  function FieldIds(items: seq<Item>): seq<int> {
    if items == [] then [] else FieldIds(items[..|items| - 1]) + IdOf(items[|items| - 1])
  }

  function IdOf(it: Item): seq<int> {
    match it
    case RawField(id, _) => [id]
    case ValueField(id, _) => [id]
    case ParsedField(id, _) => [id]
    case _ => []
  }

  lemma {:induction false} FieldIdsAppend(a: seq<Item>, b: seq<Item>)
    ensures FieldIds(a + b) == FieldIds(a) + FieldIds(b)
    decreases |b|
  {
    if b == [] {
      assert a + b == a;
    } else {
      var b' := b[..|b| - 1];
      assert (a + b)[..|a + b| - 1] == a + b';
      FieldIdsAppend(a, b');
    }
  }

  // ---------------------------------------------------------------------
  // Assignments keyed by field id

  /** Distinct names have distinct field ids. */
  predicate DistinctIds(env: Env, typeId: int, keys: seq<string>) {
    forall i, j :: 0 <= i < j < |keys| ==> env.fieldId(typeId, keys[i]) != env.fieldId(typeId, keys[j])
  }

  /** The edit map re-keyed by field id, entries put in insertion order
      (a later name whose id collides with an earlier one wins). */
  function ById(env: Env, typeId: int, keys: seq<string>, vals: map<string, Pending>): (m: map<int, Pending>)
    requires forall n :: n in keys ==> n in vals
    ensures m.Keys == set n | n in keys :: env.fieldId(typeId, n)
  {
    if keys == [] then map[]
    else
      var last := keys[|keys| - 1];
      var prefix := keys[..|keys| - 1];
      assert forall n :: n in keys <==> n in prefix || n == last;
      ById(env, typeId, prefix, vals)[env.fieldId(typeId, last) := vals[last]]
  }

  /** With distinct field ids, the id of every name carries that name's pending value. */
  lemma {:induction false} ByIdValue(env: Env, typeId: int, keys: seq<string>, vals: map<string, Pending>)
    requires forall n :: n in keys ==> n in vals
    requires DistinctIds(env, typeId, keys)
    ensures forall i :: 0 <= i < |keys| ==>
      env.fieldId(typeId, keys[i]) in ById(env, typeId, keys, vals) &&
      ById(env, typeId, keys, vals)[env.fieldId(typeId, keys[i])] == vals[keys[i]]
  {
    if keys != [] {
      var prefix := keys[..|keys| - 1];
      var last := keys[|keys| - 1];
      var m := ById(env, typeId, prefix, vals);
      assert forall n :: n in prefix ==> n in keys;
      assert DistinctIds(env, typeId, prefix);
      ByIdValue(env, typeId, prefix, vals);
      assert ById(env, typeId, keys, vals) == m[env.fieldId(typeId, last) := vals[last]];
      forall i | 0 <= i < |keys|
        ensures env.fieldId(typeId, keys[i]) in ById(env, typeId, keys, vals)
        ensures ById(env, typeId, keys, vals)[env.fieldId(typeId, keys[i])] == vals[keys[i]]
      {
        if i < |keys| - 1 {
          assert keys[i] == prefix[i];
          assert env.fieldId(typeId, keys[i]) != env.fieldId(typeId, last);
        }
      }
    }
  }

  // ---------------------------------------------------------------------
  // The walk over the original footer

  /** An untouched field is copied byte for byte when it is non-empty and its
      type tag is plain and not a plain array. */
  predicate CopiedVerbatim(env: Env, obj: Binary, k: nat)
    requires k < |obj.footer| && FieldInBuffer(obj, k)
  {
    var pos := FieldPos(obj, k);
    FieldLen(obj, k) != 0 && !env.isPlainArrayType(obj.bytes[pos]) && env.isPlainType(obj.bytes[pos])
  }

  /** The value an untouched field is re-serialised with: null when the field
      is empty, else parsed in place, or taken from the read cache once it exists. */
  function ReparsedValue(env: Env, obj: Binary, cache: Option<map<int, Option<Value>>>, k: nat): Option<Value>
    requires k < |obj.footer|
  {
    if FieldLen(obj, k) == 0 then None
    else if cache.None? then env.parseValue(obj.bytes, FieldPos(obj, k))
    else CacheGet(cache.value, obj.footer[k].id)
  }

  /** The items one visited footer entry produces, given the assignments by id. */
  function EntryOut(env: Env, obj: Binary, cache: Option<map<int, Option<Value>>>, byId: map<int, Pending>, k: nat): seq<Item>
    requires k < |obj.footer| && FieldInBuffer(obj, k)
  {
    var id := obj.footer[k].id;
    var pos := FieldPos(obj, k);
    if id in byId then
      if byId[id].Removed? then [] else [ValueField(id, byId[id])]
    else if CopiedVerbatim(env, obj, k) then
      [RawField(id, obj.bytes[pos .. pos + FieldLen(obj, k)])]
    else
      [ParsedField(id, ReparsedValue(env, obj, cache, k))]
  }

  /** The items the walk produces for the first `n` footer entries. */
  function WalkOut(env: Env, obj: Binary, cache: Option<map<int, Option<Value>>>, byId: map<int, Pending>, n: nat): seq<Item>
    requires n <= |obj.footer|
    requires forall k :: 0 <= k < n ==> FieldInBuffer(obj, k)
  {
    if n == 0 then [] else WalkOut(env, obj, cache, byId, n - 1) + EntryOut(env, obj, cache, byId, n - 1)
  }

  /** Footer ids of the first `n` entries, in footer order, without those assigned the removal marker. */
  function Kept(obj: Binary, byId: map<int, Pending>, n: nat): seq<int>
    requires n <= |obj.footer|
  {
    if n == 0 then []
    else
      var id := obj.footer[n - 1].id;
      Kept(obj, byId, n - 1) + (if id in byId && byId[id].Removed? then [] else [id])
  }

  /** A visited entry writes its original id, unless it is assigned the removal marker. */
  lemma EntryIds(env: Env, obj: Binary, cache: Option<map<int, Option<Value>>>, byId: map<int, Pending>, k: nat)
    requires k < |obj.footer| && FieldInBuffer(obj, k)
    ensures var id := obj.footer[k].id;
      FieldIds(EntryOut(env, obj, cache, byId, k)) == if id in byId && byId[id].Removed? then [] else [id]
  {
    var e := EntryOut(env, obj, cache, byId, k);
    if e != [] {
      assert |e| == 1 && e[..0] == [];
    }
  }

  /** The walk writes every visited original field under its original id, in
      footer order, except the fields assigned the removal marker. */
  lemma {:induction false} WalkIds(env: Env, obj: Binary, cache: Option<map<int, Option<Value>>>, byId: map<int, Pending>, n: nat)
    requires n <= |obj.footer|
    requires forall k :: 0 <= k < n ==> FieldInBuffer(obj, k)
    ensures FieldIds(WalkOut(env, obj, cache, byId, n)) == Kept(obj, byId, n)
  {
    if n > 0 {
      WalkIds(env, obj, cache, byId, n - 1);
      FieldIdsAppend(WalkOut(env, obj, cache, byId, n - 1), EntryOut(env, obj, cache, byId, n - 1));
      EntryIds(env, obj, cache, byId, n - 1);
    }
  }

  /** Every item of a visited entry appears in the walk's output. */
  lemma {:induction false} WalkHasEntry(env: Env, obj: Binary, cache: Option<map<int, Option<Value>>>, byId: map<int, Pending>, n: nat, k: nat)
    requires n <= |obj.footer|
    requires forall j :: 0 <= j < n ==> FieldInBuffer(obj, j)
    requires k < n
    ensures forall it :: it in EntryOut(env, obj, cache, byId, k) ==> it in WalkOut(env, obj, cache, byId, n)
  {
    if k < n - 1 {
      WalkHasEntry(env, obj, cache, byId, n - 1, k);
    }
  }

  // ---------------------------------------------------------------------
  // New fields and schema reconciliation

  /**
   * What the new-field loop works with: the edit map, the ids still
   * remaining after the walk (absent for a fresh builder), and the metadata
   * store's answers for the type.
   */
  datatype Appending = Appending(
    env: Env,
    typeId: int,
    vals: map<string, Pending>,
    remains: Option<set<int>>,
    enabled: bool,
    meta: Option<MetaRecord>)

  /** A name is appended when it is not removed and its id was not consumed by the walk. */
  predicate Appended(c: Appending, name: string)
    requires name in c.vals
  {
    !c.vals[name].Removed? && (c.remains.None? || c.env.fieldId(c.typeId, name) in c.remains.value)
  }

  /** The declared type name of a pending value: the wrapper's, or the one of the value's class. */
  function NewTypeName(env: Env, p: Pending): string
    requires !p.Removed?
  {
    match p
    case Typed(tag, _) => env.fieldTypeName(tag)
    case Plain(v) => env.fieldTypeName(env.typeByClass(env.classOf(v)))
  }

  /** The type name the store records for a field, or null. */
  function Recorded(meta: Option<MetaRecord>, name: string): Option<string> {
    if meta.Some? && name in meta.value.fields then Some(meta.value.fields[name]) else None
  }

  /** The error an appended field raises: a recorded type other than "Object" that differs from the new one. */
  function FieldError(c: Appending, name: string): Option<PortableError>
    requires name in c.vals
  {
    if c.enabled && Appended(c, name) && Recorded(c.meta, name).Some? then
      var recorded := Recorded(c.meta, name).value;
      var newType := NewTypeName(c.env, c.vals[name]);
      if recorded != "Object" && recorded != newType then
        Some(if c.vals[name].Typed? then WrongValueType(name, recorded, newType) else CastFailure(name))
      else None
    else None
  }

  /** The field items appended for the names `ks`, in their order. */
  function NewOut(c: Appending, ks: seq<string>): seq<Item>
    requires forall n :: n in ks ==> n in c.vals
  {
    if ks == [] then []
    else
      var last := ks[|ks| - 1];
      NewOut(c, ks[..|ks| - 1]) +
        (if Appended(c, last) then [ValueField(c.env.fieldId(c.typeId, last), c.vals[last])] else [])
  }

  /** The first error among the names `ks`. */
  function FirstError(c: Appending, ks: seq<string>): Option<PortableError>
    requires forall n :: n in ks ==> n in c.vals
  {
    if ks == [] then None
    else
      var e := FirstError(c, ks[..|ks| - 1]);
      if e.Some? then e else FieldError(c, ks[|ks| - 1])
  }

  /** The new-field loop's step: the items, first error and staged entries
      of `ks[..i + 1]` extend those of `ks[..i]` by name `ks[i]`. */
  lemma PrefixStep(c: Appending, ks: seq<string>, i: nat)
    requires forall n :: n in ks ==> n in c.vals
    requires i < |ks|
    ensures forall n :: n in ks[..i] ==> n in c.vals
    ensures NewOut(c, ks[..i + 1]) == NewOut(c, ks[..i]) +
      (if Appended(c, ks[i]) then [ValueField(c.env.fieldId(c.typeId, ks[i]), c.vals[ks[i]])] else [])
    ensures FirstError(c, ks[..i + 1]) ==
      (if FirstError(c, ks[..i]).Some? then FirstError(c, ks[..i]) else FieldError(c, ks[i]))
    ensures Staged(c, ks[..i + 1]) ==
      (if c.enabled && Appended(c, ks[i]) && Recorded(c.meta, ks[i]).None?
       then Staged(c, ks[..i])[ks[i] := NewTypeName(c.env, c.vals[ks[i]])]
       else Staged(c, ks[..i]))
  {
    assert ks[..i + 1][..i] == ks[..i];
    assert ks[..i + 1][i] == ks[i];
  }

  /** Field name -> declared type name for the appended names the store has no type for. */
  function Staged(c: Appending, ks: seq<string>): map<string, string>
    requires forall n :: n in ks ==> n in c.vals
  {
    if ks == [] then map[]
    else
      var last := ks[|ks| - 1];
      var prev := Staged(c, ks[..|ks| - 1]);
      if c.enabled && Appended(c, last) && Recorded(c.meta, last).None? then
        prev[last := NewTypeName(c.env, c.vals[last])]
      else prev
  }

  // ---------------------------------------------------------------------
  // The whole of serializeTo

  /** The builder state serializeTo reads. `obj` is absent for a fresh builder. */
  datatype Snapshot = Snapshot(
    typeId: int,
    typeName: Option<string>,
    clsNameToWrite: Option<string>,
    registered: bool,
    hashCode: int,
    keys: seq<string>,
    vals: map<string, Pending>,
    cache: Option<map<int, Option<Value>>>,
    obj: Option<Binary>,
    hdrLen: int)

  predicate SnapshotValid(s: Snapshot) {
    EditsValid(s.keys, s.vals) && (s.obj.Some? ==> WellFormed(s.obj.value, s.hdrLen))
  }

  function HeaderOf(env: Env, s: Snapshot): Item {
    if s.registered then Header(s.typeId, s.hashCode, None)
    else Header(env.layout.unregisteredTypeId, s.hashCode, s.clsNameToWrite)
  }

  function AssignedById(env: Env, s: Snapshot): map<int, Pending>
    requires SnapshotValid(s)
  {
    ById(env, s.typeId, s.keys, s.vals)
  }

  /** The items of the footer walk (none for a fresh builder). */
  function Walk(env: Env, s: Snapshot): seq<Item>
    requires SnapshotValid(s)
  {
    if s.obj.None? then []
    else
      var obj := s.obj.value;
      WellFormedFields(obj, s.hdrLen);
      WalkOut(env, obj, s.cache, AssignedById(env, s), WalkEnd(obj))
  }

  /** The ids still pending after the walk: absent when there is no original
      object or no assignment at all. */
  function Remains(env: Env, s: Snapshot): Option<set<int>>
    requires SnapshotValid(s)
  {
    if s.obj.Some? && |s.keys| > 0 then
      Some((AssignedById(env, s) - Consumed(s.obj.value, WalkEnd(s.obj.value))).Keys)
    else None
  }

  function AppendingOf(env: Env, s: Snapshot): Appending
    requires SnapshotValid(s)
  {
    var enabled := env.metaDataEnabled(s.typeId);
    Appending(env, s.typeId, s.vals, Remains(env, s), enabled, if enabled then env.metaData(s.typeId) else None)
  }

  /** For an overlay, the walk and the remaining ids in terms of the footer. */
  lemma WalkOfOverlay(env: Env, s: Snapshot)
    requires SnapshotValid(s) && s.obj.Some?
    ensures forall k :: 0 <= k < |s.obj.value.footer| ==> FieldInBuffer(s.obj.value, k)
    ensures Walk(env, s) == WalkOut(env, s.obj.value, s.cache, AssignedById(env, s), WalkEnd(s.obj.value))
    ensures Remains(env, s) ==
      if |s.keys| > 0 then Some((AssignedById(env, s) - Consumed(s.obj.value, WalkEnd(s.obj.value))).Keys) else None
    ensures |s.keys| == 0 ==> AssignedById(env, s) == map[]
  {
    WellFormedFields(s.obj.value, s.hdrLen);
  }

  /** The new-field block runs only when there are assignments and, for an
      overlay, some of their ids were not consumed by the walk. */
  predicate AppendRuns(env: Env, s: Snapshot)
    requires SnapshotValid(s)
  {
    |s.keys| > 0 && (Remains(env, s).None? || Remains(env, s).value != {})
  }

  /** The raw section copied from the original object, when it is non-empty. */
  function RawTail(s: Snapshot): seq<Item>
    requires SnapshotValid(s)
  {
    if s.obj.Some? && s.obj.value.rawOff < s.obj.value.footerStart then
      [RawSection(s.obj.value.bytes[s.obj.value.rawOff .. s.obj.value.footerStart])]
    else []
  }

  /** The new-field block: the items it appends and the metadata update it
      asks for, or the error that makes the build fail. */
  function NewFields(env: Env, s: Snapshot): Result<(seq<Item>, Option<MetaUpdate>), PortableError>
    requires SnapshotValid(s)
  {
    if !AppendRuns(env, s) then Ok(([], None))
    else
      var c := AppendingOf(env, s);
      var err := FirstError(c, s.keys);
      if err.Some? then Err(err.value)
      else
        var items := NewOut(c, s.keys);
        var staged := Staged(c, s.keys);
        if staged == map[] then Ok((items, None))
        else if s.typeName.Some? then Ok((items, Some(MetaUpdate(s.typeId, s.typeName.value, staged))))
        else if c.meta.Some? then Ok((items, Some(MetaUpdate(s.typeId, c.meta.value.typeName, staged))))
        else Err(MissingTypeName)
  }

  /** serializeTo as a function: the items written and the metadata update, or the error. */
  function Serialize(env: Env, s: Snapshot): Outcome
    requires SnapshotValid(s)
  {
    match NewFields(env, s)
    case Err(e) => Failed(e)
    case Ok((appended, update)) => Written([HeaderOf(env, s)] + Walk(env, s) + appended + RawTail(s), update)
  }

  // ---------------------------------------------------------------------
  // Properties of the walk

  predicate NoDup(s: seq<int>) {
    forall i, j :: 0 <= i < j < |s| ==> s[i] != s[j]
  }

  lemma NoDupSnoc(s: seq<int>, x: int)
    requires NoDup(s) && x !in s
    ensures NoDup(s + [x])
  {
  }

  /** The kept ids are original ids of visited entries not assigned the
      removal marker, each at most once. */
  lemma {:induction false} KeptIds(obj: Binary, byId: map<int, Pending>, n: nat)
    requires n <= |obj.footer|
    requires UniqueIds(obj.footer)
    ensures NoDup(Kept(obj, byId, n))
    ensures forall x :: x in Kept(obj, byId, n) <==>
      x in Consumed(obj, n) && !(x in byId && byId[x].Removed?)
  {
    ConsumedIds(obj, n);
    if n > 0 {
      KeptIds(obj, byId, n - 1);
      ConsumedIds(obj, n - 1);
      var id := obj.footer[n - 1].id;
      assert id !in Consumed(obj, n - 1);
      assert id !in Kept(obj, byId, n - 1);
    }
  }

  /** Ids of the first `n` footer entries in footer order. */
  function FooterIds(obj: Binary, n: nat): seq<int>
    requires n <= |obj.footer|
  {
    if n == 0 then [] else FooterIds(obj, n - 1) + [obj.footer[n - 1].id]
  }

  /** With no assignment nothing is removed: the kept ids are all the footer ids. */
  lemma {:induction false} KeptWithoutEdits(obj: Binary, n: nat)
    requires n <= |obj.footer|
    ensures Kept(obj, map[], n) == FooterIds(obj, n)
  {
    if n > 0 {
      KeptWithoutEdits(obj, n - 1);
    }
  }

  /** With no assignment at all the walk keeps every visited id, in footer
      order, and writes only copied or re-serialised original fields. */
  lemma {:induction false} WalkWithoutEdits(env: Env, obj: Binary, cache: Option<map<int, Option<Value>>>, n: nat)
    requires n <= |obj.footer|
    requires forall k :: 0 <= k < n ==> FieldInBuffer(obj, k)
    ensures FieldIds(WalkOut(env, obj, cache, map[], n)) == FooterIds(obj, n)
    ensures forall it :: it in WalkOut(env, obj, cache, map[], n) ==> it.RawField? || it.ParsedField?
  {
    WalkIds(env, obj, cache, map[], n);
    KeptWithoutEdits(obj, n);
    if n > 0 {
      WalkWithoutEdits(env, obj, cache, n - 1);
      var e := EntryOut(env, obj, cache, map[], n - 1);
      assert forall it :: it in e ==> it.RawField? || it.ParsedField?;
      assert WalkOut(env, obj, cache, map[], n) == WalkOut(env, obj, cache, map[], n - 1) + e;
    }
  }

  // ---------------------------------------------------------------------
  // Properties of the new-field block

  /** Appending follows the key order: the items for `a + b` are those for `a` then those for `b`. */
  lemma {:induction false} NewOutConcat(c: Appending, a: seq<string>, b: seq<string>)
    requires forall n :: n in a ==> n in c.vals
    requires forall n :: n in b ==> n in c.vals
    ensures forall n :: n in a + b ==> n in c.vals
    ensures NewOut(c, a + b) == NewOut(c, a) + NewOut(c, b)
    decreases |b|
  {
    if b == [] {
      assert a + b == a;
    } else {
      var b' := b[..|b| - 1];
      assert (a + b)[..|a + b| - 1] == a + b';
      assert (a + b)[|a + b| - 1] == b[|b| - 1];
      NewOutConcat(c, a, b');
    }
  }

  /** The appended items are exactly one ValueField per appended name, under
      the name's id; with distinct ids no id repeats. */
  lemma {:induction false} NewOutIds(c: Appending, ks: seq<string>)
    requires forall n :: n in ks ==> n in c.vals
    ensures forall n :: n in ks && Appended(c, n) ==> ValueField(c.env.fieldId(c.typeId, n), c.vals[n]) in NewOut(c, ks)
    ensures forall x :: x in FieldIds(NewOut(c, ks)) ==>
      exists n :: n in ks && Appended(c, n) && c.env.fieldId(c.typeId, n) == x
    ensures DistinctIds(c.env, c.typeId, ks) ==> NoDup(FieldIds(NewOut(c, ks)))
  {
    if ks != [] {
      var p := ks[..|ks| - 1];
      var last := ks[|ks| - 1];
      assert forall n :: n in ks <==> n in p || n == last;
      NewOutIds(c, p);
      var tail := if Appended(c, last) then [ValueField(c.env.fieldId(c.typeId, last), c.vals[last])] else [];
      assert NewOut(c, ks) == NewOut(c, p) + tail;
      FieldIdsAppend(NewOut(c, p), tail);
      assert tail != [] ==> tail[..0] == [];
      if DistinctIds(c.env, c.typeId, ks) {
        assert DistinctIds(c.env, c.typeId, p);
        if Appended(c, last) {
          var lastId := c.env.fieldId(c.typeId, last);
          assert lastId !in FieldIds(NewOut(c, p));
          NoDupSnoc(FieldIds(NewOut(c, p)), lastId);
        }
      }
    }
  }

  /** The staged entries are exactly the appended names the store has no
      type for, each with its new declared type name (none when metadata is off). */
  lemma {:induction false} StagedFields(c: Appending, ks: seq<string>)
    requires forall n :: n in ks ==> n in c.vals
    ensures forall n :: n in Staged(c, ks) <==>
      n in ks && c.enabled && Appended(c, n) && Recorded(c.meta, n).None?
    ensures forall n :: n in Staged(c, ks) ==>
      n in c.vals && !c.vals[n].Removed? && Staged(c, ks)[n] == NewTypeName(c.env, c.vals[n])
  {
    if ks != [] {
      var p := ks[..|ks| - 1];
      var last := ks[|ks| - 1];
      assert forall n :: n in ks <==> n in p || n == last;
      StagedFields(c, p);
      var prev := Staged(c, p);
      if c.enabled && Appended(c, last) && Recorded(c.meta, last).None? {
        assert Staged(c, ks) == prev[last := NewTypeName(c.env, c.vals[last])];
      } else {
        assert Staged(c, ks) == prev;
      }
    }
  }

  /** The block fails exactly when some name raises an error. */
  lemma {:induction false} FirstErrorIffSome(c: Appending, ks: seq<string>)
    requires forall n :: n in ks ==> n in c.vals
    ensures FirstError(c, ks).None? <==> forall n :: n in ks ==> FieldError(c, n).None?
    ensures FirstError(c, ks).Some? ==> FirstError(c, ks).value.WrongValueType? || FirstError(c, ks).value.CastFailure?
  {
    if ks != [] {
      var p := ks[..|ks| - 1];
      assert forall n :: n in ks <==> n in p || n == ks[|ks| - 1];
      FirstErrorIffSome(c, p);
    }
  }

  /** The new-field loop may stop at the first failing name: the error of a
      prefix is the error of the whole sequence. */
  lemma {:induction false} FirstErrorPrefix(c: Appending, ks: seq<string>, i: nat)
    requires forall n :: n in ks ==> n in c.vals
    requires i <= |ks| && FirstError(c, ks[..i]).Some?
    ensures FirstError(c, ks) == FirstError(c, ks[..i])
    decreases |ks| - i
  {
    if i < |ks| {
      assert ks[..i + 1][..i] == ks[..i];
      FirstErrorPrefix(c, ks, i + 1);
    } else {
      assert ks[..i] == ks;
    }
  }

  /** When every id was consumed by the walk, the block that the guard skips
      would append nothing, fail on nothing and stage nothing. */
  lemma {:induction false} NothingRemains(c: Appending, ks: seq<string>)
    requires forall n :: n in ks ==> n in c.vals
    requires c.remains == Some({})
    ensures NewOut(c, ks) == [] && FirstError(c, ks).None? && Staged(c, ks) == map[]
  {
    if ks != [] {
      NothingRemains(c, ks[..|ks| - 1]);
    }
  }

  // ---------------------------------------------------------------------
  // Properties of serializeTo

  lemma NoDupConcat(a: seq<int>, b: seq<int>)
    requires NoDup(a) && NoDup(b)
    requires forall x :: x in a ==> x !in b
    ensures NoDup(a + b)
  {
    forall i, j | 0 <= i < j < |a + b|
      ensures (a + b)[i] != (a + b)[j]
    {
      if i < |a| && j >= |a| {
        assert (a + b)[i] in a && (a + b)[j] in b;
      }
    }
  }

  /** A successful serializeTo writes the header, the walk, the new fields
      when the block runs, and the raw section, in that order. */
  lemma SerializedItems(env: Env, s: Snapshot)
    requires SnapshotValid(s)
    requires Serialize(env, s).Written?
    ensures NewFields(env, s).Ok?
    ensures NewFields(env, s).value.0 == if AppendRuns(env, s) then NewOut(AppendingOf(env, s), s.keys) else []
    ensures Serialize(env, s).items == [HeaderOf(env, s)] + Walk(env, s) + NewFields(env, s).value.0 + RawTail(s)
  {
  }

  /** Header and raw section carry no field ids, so the ids of a written
      object are those of its walk and its appended fields. */
  lemma {:induction false} FramedIds(h: Item, w: seq<Item>, nw: seq<Item>, r: seq<Item>)
    requires h.Header? && forall i :: 0 <= i < |r| ==> r[i].RawSection?
    ensures FieldIds([h] + w + nw + r) == FieldIds(w) + FieldIds(nw)
  {
    var hd := [h];
    assert FieldIds(hd) == [] by { assert hd[..0] == []; }
    RawIds(r);
    var hw := hd + w;
    var hwn := hw + nw;
    FieldIdsAppend(hd, w);
    FieldIdsAppend(hw, nw);
    FieldIdsAppend(hwn, r);
    assert FieldIds(hw) == FieldIds(w);
    assert FieldIds(hwn) == FieldIds(w) + FieldIds(nw);
    assert FieldIds(hwn + r) == FieldIds(hwn);
  }

  lemma {:induction false} RawIds(r: seq<Item>)
    requires forall i :: 0 <= i < |r| ==> r[i].RawSection?
    ensures FieldIds(r) == []
    decreases |r|
  {
    if r != [] {
      RawIds(r[..|r| - 1]);
    }
  }

  /** Any item of the walk or of the new-field block is among the items written. */
  lemma ItemsWritten(env: Env, s: Snapshot, it: Item)
    requires SnapshotValid(s)
    requires Serialize(env, s).Written?
    requires it in Walk(env, s) || (AppendRuns(env, s) && it in NewOut(AppendingOf(env, s), s.keys))
    ensures it in Serialize(env, s).items
  {
    SerializedItems(env, s);
  }

  /** The field ids written are those of the walk followed by those of the new-field block. */
  lemma OutputIds(env: Env, s: Snapshot)
    requires SnapshotValid(s)
    requires Serialize(env, s).Written?
    ensures FieldIds(Serialize(env, s).items) ==
      FieldIds(Walk(env, s)) + (if AppendRuns(env, s) then FieldIds(NewOut(AppendingOf(env, s), s.keys)) else [])
  {
    SerializedItems(env, s);
    var nw := NewFields(env, s).value.0;
    FramedIds(HeaderOf(env, s), Walk(env, s), nw, RawTail(s));
    if !AppendRuns(env, s) {
      assert nw == [];
      assert FieldIds(nw) == [];
    }
  }

  /** In an overlay a name is appended exactly when it is not removed and its
      id was not consumed by the walk; a name whose id was consumed (an
      overridden original field) is never checked against the metadata. */
  lemma AppendedIffNotConsumed(env: Env, s: Snapshot, name: string)
    requires SnapshotValid(s) && s.obj.Some? && name in s.vals
    ensures Appended(AppendingOf(env, s), name) <==>
      !s.vals[name].Removed? && env.fieldId(s.typeId, name) !in Consumed(s.obj.value, WalkEnd(s.obj.value))
    ensures env.fieldId(s.typeId, name) in Consumed(s.obj.value, WalkEnd(s.obj.value)) ==>
      FieldError(AppendingOf(env, s), name).None?
  {
    assert name in s.keys;
    assert env.fieldId(s.typeId, name) in AssignedById(env, s);
  }

  /** A fresh builder writes the header and then every non-removed assignment, in insertion order. */
  lemma FreshBuild(env: Env, s: Snapshot)
    requires SnapshotValid(s) && s.obj.None?
    ensures forall n :: n in s.vals ==> (Appended(AppendingOf(env, s), n) <==> !s.vals[n].Removed?)
    ensures Serialize(env, s).Written? ==>
      Serialize(env, s).items == [HeaderOf(env, s)] + NewOut(AppendingOf(env, s), s.keys)
  {
    if s.keys == [] {
      assert NewOut(AppendingOf(env, s), s.keys) == [];
    }
  }

  /** With distinct field ids for the assigned names, no field id is written twice. */
  lemma {:induction false} DistinctOutputIds(env: Env, s: Snapshot)
    requires SnapshotValid(s) && DistinctIds(env, s.typeId, s.keys)
    requires Serialize(env, s).Written?
    ensures NoDup(FieldIds(Serialize(env, s).items))
  {
    OutputIds(env, s);
    var c := AppendingOf(env, s);
    var nw := if AppendRuns(env, s) then FieldIds(NewOut(c, s.keys)) else [];
    NewOutIds(c, s.keys);
    assert NoDup(nw);
    if s.obj.None? {
      assert Walk(env, s) == [];
      assert FieldIds(Walk(env, s)) + nw == nw;
    } else {
      var obj := s.obj.value;
      var byId := AssignedById(env, s);
      var e := WalkEnd(obj);
      WellFormedFields(obj, s.hdrLen);
      WalkIds(env, obj, s.cache, byId, e);
      KeptIds(obj, byId, e);
      forall n | n in s.keys
        ensures Appended(c, n) ==> env.fieldId(s.typeId, n) !in Consumed(obj, e)
      {
        AppendedIffNotConsumed(env, s, n);
      }
      assert forall x :: x in FieldIds(Walk(env, s)) ==> x !in nw;
      NoDupConcat(FieldIds(Walk(env, s)), nw);
    }
  }

  /** A removed name's field id is not written at all, whether or not the original object had it. */
  lemma RemovedFieldAbsent(env: Env, s: Snapshot, name: string)
    requires SnapshotValid(s) && DistinctIds(env, s.typeId, s.keys)
    requires name in s.vals && s.vals[name].Removed?
    requires Serialize(env, s).Written?
    ensures env.fieldId(s.typeId, name) !in FieldIds(Serialize(env, s).items)
  {
    var x := env.fieldId(s.typeId, name);
    var c := AppendingOf(env, s);
    OutputIds(env, s);
    ByIdValue(env, s.typeId, s.keys, s.vals);
    var j :| 0 <= j < |s.keys| && s.keys[j] == name;
    assert AssignedById(env, s)[x] == Removed;
    if s.obj.Some? {
      var obj := s.obj.value;
      WellFormedFields(obj, s.hdrLen);
      WalkIds(env, obj, s.cache, AssignedById(env, s), WalkEnd(obj));
      KeptIds(obj, AssignedById(env, s), WalkEnd(obj));
    }
    assert x !in FieldIds(Walk(env, s));
    NewOutIds(c, s.keys);
    assert AppendRuns(env, s) ==> x !in FieldIds(NewOut(c, s.keys));
  }

  /** A name with a pending value is written with that value under its id:
      in place of the original field when the walk consumed its id, otherwise
      appended after the original fields. */
  lemma AssignedFieldWritten(env: Env, s: Snapshot, name: string)
    requires SnapshotValid(s) && DistinctIds(env, s.typeId, s.keys)
    requires name in s.vals && !s.vals[name].Removed?
    requires Serialize(env, s).Written?
    ensures ValueField(env.fieldId(s.typeId, name), s.vals[name]) in Serialize(env, s).items
  {
    var x := env.fieldId(s.typeId, name);
    var c := AppendingOf(env, s);
    var it := ValueField(x, s.vals[name]);
    ByIdValue(env, s.typeId, s.keys, s.vals);
    assert name in s.keys;
    var byId := AssignedById(env, s);
    assert x in byId && byId[x] == s.vals[name];
    if s.obj.Some? && x in Consumed(s.obj.value, WalkEnd(s.obj.value)) {
      var obj := s.obj.value;
      var e := WalkEnd(obj);
      WellFormedFields(obj, s.hdrLen);
      ConsumedIds(obj, e);
      var k :| 0 <= k < e && obj.footer[k].id == x;
      assert EntryOut(env, obj, s.cache, byId, k) == [it];
      WalkHasEntry(env, obj, s.cache, byId, e, k);
      ItemsWritten(env, s, it);
    } else {
      if s.obj.Some? {
        AppendedIffNotConsumed(env, s, name);
        assert x in Remains(env, s).value;
      }
      assert Appended(c, name);
      assert AppendRuns(env, s);
      NewOutIds(c, s.keys);
      ItemsWritten(env, s, it);
    }
  }

  /** An original field no assignment touches keeps its id: copied byte for
      byte when it is a non-empty plain non-array field, else re-serialised. */
  lemma UntouchedFieldKept(env: Env, s: Snapshot, k: nat)
    requires SnapshotValid(s) && s.obj.Some?
    requires k < WalkEnd(s.obj.value)
    requires forall n :: n in s.keys ==> env.fieldId(s.typeId, n) != s.obj.value.footer[k].id
    requires Serialize(env, s).Written?
    ensures FieldInBuffer(s.obj.value, k)
    ensures var obj := s.obj.value;
      CopiedVerbatim(env, obj, k) ==>
        RawField(obj.footer[k].id, obj.bytes[FieldPos(obj, k) .. FieldPos(obj, k) + FieldLen(obj, k)]) in Serialize(env, s).items
    ensures var obj := s.obj.value;
      !CopiedVerbatim(env, obj, k) ==>
        ParsedField(obj.footer[k].id, ReparsedValue(env, obj, s.cache, k)) in Serialize(env, s).items
  {
    var obj := s.obj.value;
    var e := WalkEnd(obj);
    var byId := AssignedById(env, s);
    WellFormedFields(obj, s.hdrLen);
    assert obj.footer[k].id !in byId;
    WalkHasEntry(env, obj, s.cache, byId, e, k);
  }

  /** An overlay with no assignment rewrites the original: the header, every
      visited field under its original id in footer order, copied or
      re-serialised, then the raw section, and asks for no metadata update. */
  lemma NoEditsOverlay(env: Env, s: Snapshot)
    requires SnapshotValid(s) && s.obj.Some? && s.keys == []
    ensures Serialize(env, s) == Written([HeaderOf(env, s)] + Walk(env, s) + RawTail(s), None)
    ensures FieldIds(Walk(env, s)) == FooterIds(s.obj.value, WalkEnd(s.obj.value))
    ensures forall it :: it in Walk(env, s) ==> it.RawField? || it.ParsedField?
  {
    var obj := s.obj.value;
    assert AssignedById(env, s) == map[];
    WellFormedFields(obj, s.hdrLen);
    WalkWithoutEdits(env, obj, s.cache, WalkEnd(obj));
  }

  /** The build fails with a schema error exactly when the new-field block
      runs and one of its names conflicts with its recorded type. */
  lemma BuildFailsOnConflict(env: Env, s: Snapshot)
    requires SnapshotValid(s)
    ensures (Serialize(env, s).Failed? && Serialize(env, s).error != MissingTypeName) <==>
      (AppendRuns(env, s) && exists n :: n in s.keys && FieldError(AppendingOf(env, s), n).Some?)
  {
    FirstErrorIffSome(AppendingOf(env, s), s.keys);
  }

  /** A successful build asks for one metadata update exactly when some
      appended name has no recorded type, and the update holds exactly those
      names with their new declared types. */
  lemma MetadataUpdateStaged(env: Env, s: Snapshot)
    requires SnapshotValid(s)
    requires Serialize(env, s).Written?
    ensures Serialize(env, s).update.Some? <==> AppendRuns(env, s) && Staged(AppendingOf(env, s), s.keys) != map[]
    ensures Serialize(env, s).update.Some? ==>
      var u := Serialize(env, s).update.value;
      && u.typeId == s.typeId
      && env.metaDataEnabled(s.typeId)
      && (forall n :: n in u.fields <==>
            n in s.keys && Appended(AppendingOf(env, s), n) && Recorded(env.metaData(s.typeId), n).None?)
      && (forall n :: n in u.fields ==> n in s.vals && !s.vals[n].Removed? && u.fields[n] == NewTypeName(env, s.vals[n]))
  {
    StagedFields(AppendingOf(env, s), s.keys);
  }

  // ---------------------------------------------------------------------
  // Framing: header first, raw section last

  /** A field item: an original field copied or re-serialised, or a field written from the edit map. */
  predicate IsField(it: Item) {
    it.RawField? || it.ValueField? || it.ParsedField?
  }

  /** The walk writes field items only. */
  lemma {:induction false} WalkFieldsOnly(env: Env, obj: Binary, cache: Option<map<int, Option<Value>>>, byId: map<int, Pending>, n: nat)
    requires n <= |obj.footer|
    requires forall k :: 0 <= k < n ==> FieldInBuffer(obj, k)
    ensures forall it :: it in WalkOut(env, obj, cache, byId, n) ==> IsField(it)
  {
    if n > 0 {
      WalkFieldsOnly(env, obj, cache, byId, n - 1);
      assert WalkOut(env, obj, cache, byId, n) == WalkOut(env, obj, cache, byId, n - 1) + EntryOut(env, obj, cache, byId, n - 1);
    }
  }

  /** The new-field block writes ValueField items only. */
  lemma {:induction false} NewOutValuesOnly(c: Appending, ks: seq<string>)
    requires forall n :: n in ks ==> n in c.vals
    ensures forall it :: it in NewOut(c, ks) ==> it.ValueField?
  {
    if ks != [] {
      NewOutValuesOnly(c, ks[..|ks| - 1]);
    }
  }

  /** A header, then field items, then at most one raw section: the header is
      the only header item and a raw section can only be last. */
  lemma FrameShape(h: Item, w: seq<Item>, nw: seq<Item>, tail: seq<Item>)
    requires h.Header? && (forall it :: it in w ==> IsField(it)) && (forall it :: it in nw ==> IsField(it))
    requires |tail| <= 1 && forall it :: it in tail ==> it.RawSection?
    ensures var items := [h] + w + nw + tail;
      && items[0] == h
      && (forall i :: 0 < i < |items| ==> !items[i].Header?)
      && (forall i :: 0 <= i < |items| && items[i].RawSection? ==> tail != [] && i == |items| - 1)
      && (tail != [] ==> items[|items| - 1] == tail[0])
  {
    var items := [h] + w + nw + tail;
    forall i | 0 < i < |items|
      ensures !items[i].Header?
      ensures items[i].RawSection? ==> tail != [] && i == |items| - 1
    {
      if i <= |w| {
        assert items[i] == w[i - 1] && w[i - 1] in w;
      } else if i <= |w| + |nw| {
        assert items[i] == nw[i - 1 - |w|] && nw[i - 1 - |w|] in nw;
      } else {
        assert items[i] == tail[i - 1 - |w| - |nw|] && tail[i - 1 - |w| - |nw|] in tail;
      }
    }
  }

  /**
   * A written object starts with its header, which carries the type id and
   * no class name for a registered type, and the unregistered sentinel with
   * the class name to write otherwise; no other item is a header. The only
   * raw section item is the last one, holding the original bytes between
   * the end of the fields and the footer, and it is there exactly when an
   * overlaid object has a non-empty raw section.
   */
  lemma Framing(env: Env, s: Snapshot)
    requires SnapshotValid(s)
    requires Serialize(env, s).Written?
    ensures var items := Serialize(env, s).items;
      && |items| > 0 && items[0].Header? && items[0].hashCode == s.hashCode
      && (s.registered ==> items[0].typeId == s.typeId && items[0].clsName.None?)
      && (!s.registered ==> items[0].typeId == env.layout.unregisteredTypeId && items[0].clsName == s.clsNameToWrite)
      && (forall i :: 0 < i < |items| ==> !items[i].Header?)
    ensures var items := Serialize(env, s).items;
      var hasRaw := s.obj.Some? && s.obj.value.rawOff < s.obj.value.footerStart;
      && (hasRaw ==> items[|items| - 1] == RawSection(s.obj.value.bytes[s.obj.value.rawOff .. s.obj.value.footerStart]))
      && (forall i :: 0 <= i < |items| && items[i].RawSection? ==> hasRaw && i == |items| - 1)
  {
    SerializedItems(env, s);
    var w := Walk(env, s);
    var nw := NewFields(env, s).value.0;
    if s.obj.Some? {
      WalkOfOverlay(env, s);
      WalkFieldsOnly(env, s.obj.value, s.cache, AssignedById(env, s), WalkEnd(s.obj.value));
    }
    NewOutValuesOnly(AppendingOf(env, s), s.keys);
    FrameShape(HeaderOf(env, s), w, nw, RawTail(s));
  }
}
