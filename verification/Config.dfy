/** Configuration in layers: a base tree, overlaid by what is set at run time. */
module Config {
  // ---------- trees ----------

  /** A JSON value; the fields of an object keep their order. Arrays and fractions are not told apart. */
  datatype Json =
    | Null
    | Boolean(b: bool)
    | Integer(n: int)
    | String(s: string)
    | Other(text: string)
    | Object(fields: seq<Field>)

  datatype Field = Field(key: string, value: Json)

  datatype Option<T> = None | Some(value: T)

  function Get(fields: seq<Field>, key: string): Option<Json> {
    if fields == [] then None
    else if fields[0].key == key then Some(fields[0].value)
    else Get(fields[1..], key)
  }

  /** Replaces the value of a key where it stands, or appends the key. */
  function Put(fields: seq<Field>, key: string, value: Json): seq<Field> {
    if fields == [] then [Field(key, value)]
    else if fields[0].key == key then [Field(key, value)] + fields[1..]
    else [fields[0]] + Put(fields[1..], key, value)
  }

  predicate UniqueKeys(fields: seq<Field>) {
    forall i, j :: 0 <= i < j < |fields| ==> fields[i].key != fields[j].key
  }

  /** No object has a key twice. */
  predicate WellFormed(j: Json) {
    j.Object? ==> UniqueKeys(j.fields) && forall i :: 0 <= i < |j.fields| ==> WellFormed(j.fields[i].value)
  }

  lemma {:induction false} GetAfterPut(fields: seq<Field>, key: string, value: Json, other: string)
    ensures Get(Put(fields, key, value), other) == if other == key then Some(value) else Get(fields, other)
    decreases |fields|
  {
    if fields != [] && fields[0].key != key {
      GetAfterPut(fields[1..], key, value, other);
      assert Put(fields, key, value)[1..] == Put(fields[1..], key, value);
    } else if fields != [] {
      assert Put(fields, key, value)[1..] == fields[1..];
    } else {
      assert Put(fields, key, value)[1..] == [];
    }
  }

  lemma {:induction false} GetMissing(fields: seq<Field>, key: string)
    ensures Get(fields, key) == None <==> forall i :: 0 <= i < |fields| ==> fields[i].key != key
    decreases |fields|
  {
    if fields != [] {
      GetMissing(fields[1..], key);
      if fields[0].key != key {
        assert forall i :: 0 < i < |fields| ==> fields[i] == fields[1..][i - 1];
        assert forall i :: 0 <= i < |fields| - 1 ==> fields[1..][i] == fields[i + 1];
      }
    }
  }

  // ---------- deep merge ----------

  /** What a key holds after an overlay's value for it is merged in. */
  function Overlay(under: Option<Json>, over: Json): Json
    decreases over, 0
  {
    if over.Object? && under.Some? && under.value.Object? then Object(Merge(under.value.fields, over.fields)) else over
  }

  /** Merges the fields of `b` into `a` one by one. */
  function Merge(a: seq<Field>, b: seq<Field>): seq<Field>
    decreases b, 1
  {
    if b == [] then a else Merge(Put(a, b[0].key, Overlay(Get(a, b[0].key), b[0].value)), b[1..])
  }

  method MergeObjects(a: seq<Field>, b: seq<Field>) returns (merged: seq<Field>)
    ensures merged == Merge(a, b)
    decreases b
  {
    merged := a;
    for i := 0 to |b|
      invariant Merge(merged, b[i..]) == Merge(a, b)
    {
      var key, val := b[i].key, b[i].value;
      assert b[i..][0] == b[i] && b[i..][1..] == b[i + 1..];
      if val.Object? {
        var tmp := Get(merged, key);
        if tmp.Some? && tmp.value.Object? {
          var inner := MergeObjects(tmp.value.fields, val.fields);
          merged := Put(merged, key, Object(inner));
        } else {
          merged := Put(merged, key, val);
        }
      } else {
        merged := Put(merged, key, val);
      }
    }
  }

  /** A key of the merged object: the overlay's, merged into the base's if both are objects; else the base's. */
  lemma {:induction false} GetAfterMerge(a: seq<Field>, b: seq<Field>, key: string)
    requires UniqueKeys(b)
    ensures Get(Merge(a, b), key)
            == match Get(b, key)
               case None => Get(a, key)
               case Some(v) =>
                 match (Get(a, key), v)
                 case (Some(Object(under)), Object(over)) => Some(Object(Merge(under, over)))
                 case _ => Some(v)
    decreases |b|
  {
    if b != [] {
      var value := Overlay(Get(a, b[0].key), b[0].value);
      GetAfterMerge(Put(a, b[0].key, value), b[1..], key);
      GetAfterPut(a, b[0].key, value, key);
      if b[0].key == key {
        GetMissing(b[1..], key);
      }
    }
  }

  /** What a path of keys leads to. */
  function Resolve(j: Json, path: seq<string>): Option<Json>
    decreases |path|
  {
    if path == [] then Some(j)
    else if !j.Object? then None
    else
      match Get(j.fields, path[0])
      case None => None
      case Some(v) => Resolve(v, path[1..])
  }

  /** Some proper part of the path leads to a value that is not an object. */
  predicate Blocks(j: Json, path: seq<string>)
    decreases |path|
  {
    path != [] &&
    (!j.Object? ||
     match Get(j.fields, path[0])
     case None => false
     case Some(v) => Blocks(v, path[1..]))
  }

  lemma {:induction false} GetWellFormed(fields: seq<Field>, key: string)
    requires WellFormed(Object(fields)) && Get(fields, key).Some?
    ensures WellFormed(Get(fields, key).value)
    decreases |fields|
  {
    if fields[0].key != key {
      assert forall i :: 0 <= i < |fields| - 1 ==> fields[1..][i] == fields[i + 1];
      GetWellFormed(fields[1..], key);
    }
  }

  /**
   * Any path in the merged tree: the overlay's value where the overlay defines the path (two objects merged again),
   * nothing where the overlay cuts the path off, and the base's value otherwise.
   */
  lemma {:induction false} ResolveAfterMerge(a: Json, b: Json, path: seq<string>)
    requires a.Object? && b.Object? && WellFormed(b)
    ensures Resolve(Object(Merge(a.fields, b.fields)), path)
            == if Blocks(b, path) then None
               else match Resolve(b, path)
                    case Some(v) => Some(Overlay(Resolve(a, path), v))
                    case None => Resolve(a, path)
    decreases |path|
  {
    if path != [] {
      GetAfterMerge(a.fields, b.fields, path[0]);
      var va, vb := Get(a.fields, path[0]), Get(b.fields, path[0]);
      if vb.Some? {
        GetWellFormed(b.fields, path[0]);
        if vb.value.Object? && va.Some? && va.value.Object? {
          ResolveAfterMerge(va.value, vb.value, path[1..]);
        } else {
          OverlayNothing(va, vb.value, path[1..]);
        }
      }
    }
  }

  lemma OverlayNothing(under: Option<Json>, over: Json, path: seq<string>)
    requires !(over.Object? && under.Some? && under.value.Object?)
    ensures Resolve(Overlay(under, over), path)
            == if Blocks(over, path) then None
               else match Resolve(over, path)
                    case Some(v) => Some(Overlay(if under.None? then None else Resolve(under.value, path), v))
                    case None => if under.None? then None else Resolve(under.value, path)
  {
    BlockedIsMissing(over, path);
  }

  lemma {:induction false} BlockedIsMissing(j: Json, path: seq<string>)
    ensures Blocks(j, path) ==> Resolve(j, path) == None
    decreases |path|
  {
    if path != [] && j.Object? && Get(j.fields, path[0]).Some? {
      BlockedIsMissing(Get(j.fields, path[0]).value, path[1..]);
    }
  }

  // ---------- looking up and setting ----------

  /** A section's object, or a value in it; an empty name means the tree itself, or the section itself. */
  function FindObject(tree: Json, parent: string, key: string): Option<Json> {
    var section :=
      if parent == "" then Some(tree)
      else if !tree.Object? then None
      else
        match Get(tree.fields, parent)
        case Some(Object(fields)) => Some(Object(fields))
        case _ => None;
    match section
    case None => None
    case Some(j) =>
      if key == "" then NonNull(Some(j))
      else if j.Object? then NonNull(Get(j.fields, key))
      else None
  }

  /** A JSON null is a NULL pointer, which callers take for "not found". */
  function NonNull(j: Option<Json>): Option<Json> {
    if j == Some(Null) then None else j
  }

  /** Both layers together: what is set at run time goes before the base. */
  function Lookup(base: Json, runtime: Json, parent: string, key: string): Option<Json> {
    var found := FindObject(runtime, parent, key);
    if found.Some? then found else FindObject(base, parent, key)
  }

  /** An integer as a C int: out of range values stop at the ends. */
  function ToInt(n: int): int {
    if n < -0x8000_0000 then -0x8000_0000 else if n > 0x7FFF_FFFF then 0x7FFF_FFFF else n
  }

  /** A C int that stands for a number: the number itself if it has 32 bits, else the nearest that has. */
  predicate IsIntOf(val: int, n: int) {
    && (-2147483648 <= n <= 2147483647 ==> val == n)
    && (n < -2147483648 ==> val == -2147483648)
    && (n > 2147483647 ==> val == 2147483647)
  }

  /** What the array of a section says about one key. */
  datatype Value = BooleanValue(b: bool) | IntegerValue(d: int) | StringValue(s: string) | ObjectValue | UnknownValue

  datatype Entry = Entry(key: string, value: Value)

  function ValueOf(j: Json): Value {
    match j
    case Boolean(b) => BooleanValue(b)
    case Integer(n) => IntegerValue(ToInt(n))
    case String(s) => StringValue(s)
    case Object(_) => ObjectValue
    case _ => UnknownValue
  }

  /** What an entry has to show of a JSON value. */
  predicate Shows(value: Value, j: Json) {
    match j
    case Boolean(b) => value == BooleanValue(b)
    case Integer(n) => value.IntegerValue? && IsIntOf(value.d, n)
    case String(s) => value == StringValue(s)
    case Object(_) => value == ObjectValue
    case Null => value == UnknownValue
    case Other(_) => value == UnknownValue
  }

  lemma ValueShows(j: Json)
    ensures Shows(ValueOf(j), j)
  {
  }

  /** The entry for a field replaces the one with its key, or goes to the end. */
  function WithField(entries: seq<Entry>, f: Field): seq<Entry> {
    if entries == [] then [Entry(f.key, ValueOf(f.value))]
    else if entries[0].key == f.key then [Entry(f.key, ValueOf(f.value))] + entries[1..]
    else [entries[0]] + WithField(entries[1..], f)
  }

  function WithFields(entries: seq<Entry>, fields: seq<Field>): seq<Entry>
    decreases |fields|
  {
    if fields == [] then entries else WithFields(WithField(entries, fields[0]), fields[1..])
  }

  /** The fields of a section: those of the tree itself, or of the object at a path of one key. */
  function FieldsOf(tree: Json, parent: string): seq<Field> {
    var section: Option<Json> := if parent == "" then Some(tree) else Resolve(tree, [parent]);
    match section
    case Some(Object(fields)) => fields
    case _ => []
  }

  /** Looking up without a key finds a section exactly when it is an object, and the tree exactly when it is no null. */
  lemma FindSection(tree: Json, parent: string)
    ensures var found := FindObject(tree, parent, "");
            && (parent == "" ==> found == if tree == Null then None else Some(tree))
            && (parent != "" ==>
                  found == match Resolve(tree, [parent]) case Some(Object(fields)) => Some(Object(fields)) case _ => None)
            && (if found.Some? && found.value.Object? then found.value.fields else []) == FieldsOf(tree, parent)
  {
    ResolveOne(tree, parent);
  }

  function Section(base: Json, runtime: Json, parent: string): seq<Entry> {
    WithFields(WithFields([], FieldsOf(base, parent)), FieldsOf(runtime, parent))
  }

  function AfterSet(runtime: Json, parent: string, key: string, val: Json): Json
    requires runtime.Object?
  {
    if parent == "" then Object(Put(runtime.fields, key, val))
    else
      var section := match Get(runtime.fields, parent)
                     case Some(Object(fields)) => fields
                     case _ => [];
      Object(Put(runtime.fields, parent, Object(Put(section, key, val))))
  }

  lemma {:induction false} PutTwice(fields: seq<Field>, key: string, first: Json, second: Json)
    ensures Put(Put(fields, key, first), key, second) == Put(fields, key, second)
    decreases |fields|
  {
    if fields == [] {
      assert [Field(key, first)][1..] == [];
    } else if fields[0].key != key {
      PutTwice(fields[1..], key, first, second);
      assert Put(fields, key, first)[1..] == Put(fields[1..], key, first);
    }
  }

  lemma {:induction false} PlacedAt(entries: seq<Entry>, f: Field, i: nat)
    requires i <= |entries| && (forall j :: 0 <= j < i ==> entries[j].key != f.key)
    requires i < |entries| ==> entries[i].key == f.key
    ensures var e := Entry(f.key, ValueOf(f.value));
            WithField(entries, f) == if i == |entries| then entries + [e] else entries[i := e]
    decreases |entries|
  {
    hide ValueOf;
    var e := Entry(f.key, ValueOf(f.value));
    if i == 0 {
      assert entries == [] || entries[0 := e] == [e] + entries[1..];
    } else {
      var rest := entries[1..];
      PlacedAt(rest, f, i - 1);
      assert entries == [entries[0]] + rest;
      if i == |entries| {
        assert [entries[0]] + (rest + [e]) == entries + [e];
      } else {
        assert [entries[0]] + rest[i - 1 := e] == entries[i := e];
      }
    }
  }

  class Config {
    var base: Json
    var runtime: Json

    constructor (base: Json, runtime: Json)
      ensures this.base == base && this.runtime == runtime
    {
      this.base, this.runtime := base, runtime;
    }

    method GetString(parent: string, key: string) returns (found: bool, val: string)
      ensures found <==> exists s :: Lookup(base, runtime, parent, key) == Some(String(s))
      ensures found ==> Lookup(base, runtime, parent, key) == Some(String(val))
    {
      val := "";
      var item := FindObject(runtime, parent, key);
      if item == None {
        item := FindObject(base, parent, key);
      }
      if item == None || !item.value.String? {
        return false, val;
      }
      return true, item.value.s;
    }

    method GetInteger(parent: string, key: string) returns (found: bool, val: int)
      ensures found <==> exists n :: Lookup(base, runtime, parent, key) == Some(Integer(n))
      ensures found ==> exists n :: Lookup(base, runtime, parent, key) == Some(Integer(n)) && IsIntOf(val, n)
    {
      val := 0;
      var item := FindObject(runtime, parent, key);
      if item == None {
        item := FindObject(base, parent, key);
      }
      if item == None || !item.value.Integer? {
        return false, val;
      }
      return true, ToInt(item.value.n);
    }

    method GetBoolean(parent: string, key: string) returns (found: bool, val: bool)
      ensures found <==> exists b :: Lookup(base, runtime, parent, key) == Some(Boolean(b))
      ensures found ==> Lookup(base, runtime, parent, key) == Some(Boolean(val))
    {
      val := false;
      var item := FindObject(runtime, parent, key);
      if item == None {
        item := FindObject(base, parent, key);
      }
      if item == None || !item.value.Boolean? {
        return false, val;
      }
      return true, item.value.b;
    }

    /** Stores a value, making an object of the section if it is none yet. */
    method SetObject(parent: string, key: string, val: Json)
      requires runtime.Object?
      modifies `runtime
      ensures runtime == AfterSet(old(runtime), parent, key, val)
    {
      if parent != "" {
        var item := Get(runtime.fields, parent);
        if item == None || !item.value.Object? {
          item := Some(Object([]));
          runtime := Object(Put(runtime.fields, parent, item.value));
        }
        runtime := Object(Put(runtime.fields, parent, Object(Put(item.value.fields, key, val))));
        PutTwice(old(runtime).fields, parent, Object([]), Object(Put([], key, val)));
      } else {
        runtime := Object(Put(runtime.fields, key, val));
      }
    }

    /** All keys of a section, the base's first, with the values of the upper layer. */
    method GetObjects(parent: string) returns (objects: seq<Entry>)
      ensures objects == Section(base, runtime, parent)
    {
      objects := [];
      FindSection(base, parent);
      FindSection(runtime, parent);
      var item := FindObject(base, parent, "");
      if item.Some? && item.value.Object? {
        objects := MergeObjectIntoArray(item.value.fields, objects);
      }
      item := FindObject(runtime, parent, "");
      if item.Some? && item.value.Object? {
        objects := MergeObjectIntoArray(item.value.fields, objects);
      }
    }

    static method MergeObjectIntoArray(fields: seq<Field>, before: seq<Entry>) returns (objects: seq<Entry>)
      ensures objects == WithFields(before, fields)
    {
      objects := before;
      for n := 0 to |fields|
        invariant WithFields(objects, fields[n..]) == WithFields(before, fields)
      {
        var f := fields[n];
        assert fields[n..][0] == f && fields[n..][1..] == fields[n + 1..];
        ghost var was := objects;
        var i := 0;
        while i < |objects| && objects[i].key != f.key
          invariant i <= |objects|
          invariant forall j :: 0 <= j < i ==> objects[j].key != f.key
        {
          i := i + 1;
        }
        if i == |objects| {
          objects := objects + [Entry(f.key, UnknownValue)];
        }
        objects := objects[i := Entry(f.key, ValueOf(f.value))];
        PlacedAt(was, f, i);
        assert objects == WithField(was, f);
      }
    }
  }

  // ---------- both views of a section ----------

  predicate UniqueEntries(entries: seq<Entry>) {
    forall i, j :: 0 <= i < j < |entries| ==> entries[i].key != entries[j].key
  }

  function EntryOf(entries: seq<Entry>, key: string): Option<Value> {
    if entries == [] then None
    else if entries[0].key == key then Some(entries[0].value)
    else EntryOf(entries[1..], key)
  }

  lemma {:induction false} EntryAfterField(entries: seq<Entry>, f: Field, key: string)
    ensures EntryOf(WithField(entries, f), key) == if key == f.key then Some(ValueOf(f.value)) else EntryOf(entries, key)
    decreases |entries|
  {
    var after := WithField(entries, f);
    if entries == [] {
      assert after[1..] == [];
    } else if entries[0].key != f.key {
      EntryAfterField(entries[1..], f, key);
      assert after[1..] == WithField(entries[1..], f);
    } else {
      assert after[1..] == entries[1..];
    }
  }

  lemma {:induction false} KeyAfterField(entries: seq<Entry>, f: Field, i: nat)
    requires i < |WithField(entries, f)|
    ensures WithField(entries, f)[i].key == f.key || (i < |entries| && WithField(entries, f)[i] == entries[i])
    decreases |entries|
  {
    if entries != [] && i > 0 && entries[0].key != f.key {
      KeyAfterField(entries[1..], f, i - 1);
    }
  }

  lemma {:induction false} UniqueAfterField(entries: seq<Entry>, f: Field)
    requires UniqueEntries(entries)
    ensures UniqueEntries(WithField(entries, f))
    decreases |entries|
  {
    if entries != [] && entries[0].key != f.key {
      UniqueAfterField(entries[1..], f);
      var rest := WithField(entries[1..], f);
      forall i | 0 <= i < |rest|
        ensures rest[i].key != entries[0].key
      {
        KeyAfterField(entries[1..], f, i);
      }
    }
  }

  lemma {:induction false} EntryAfterFields(entries: seq<Entry>, fields: seq<Field>, key: string)
    requires UniqueKeys(fields) && UniqueEntries(entries)
    ensures EntryOf(WithFields(entries, fields), key)
            == match Get(fields, key)
               case Some(v) => Some(ValueOf(v))
               case None => EntryOf(entries, key)
    ensures UniqueEntries(WithFields(entries, fields))
    decreases |fields|
  {
    if fields != [] {
      EntryAfterField(entries, fields[0], key);
      UniqueAfterField(entries, fields[0]);
      EntryAfterFields(WithField(entries, fields[0]), fields[1..], key);
      if fields[0].key == key {
        GetMissing(fields[1..], key);
      }
    }
  }

  lemma FieldsAreUnique(tree: Json, parent: string)
    requires WellFormed(tree)
    ensures UniqueKeys(FieldsOf(tree, parent))
  {
    ResolveOne(tree, parent);
    if tree.Object? && Get(tree.fields, parent).Some? {
      GetWellFormed(tree.fields, parent);
    }
  }

  lemma SectionEntry(base: Json, runtime: Json, parent: string, key: string)
    requires WellFormed(base) && WellFormed(runtime)
    ensures UniqueEntries(Section(base, runtime, parent))
    ensures EntryOf(Section(base, runtime, parent), key)
            == match Get(FieldsOf(runtime, parent), key)
               case Some(v) => Some(ValueOf(v))
               case None =>
                 match Get(FieldsOf(base, parent), key)
                 case Some(v) => Some(ValueOf(v))
                 case None => None
  {
    FieldsAreUnique(base, parent);
    FieldsAreUnique(runtime, parent);
    EntryAfterFields([], FieldsOf(base, parent), key);
    EntryAfterFields(WithFields([], FieldsOf(base, parent)), FieldsOf(runtime, parent), key);
  }

  /** A section's array has each key of either layer once, and shows the upper layer's value. */
  lemma SectionIsUnion(base: Json, runtime: Json, parent: string, key: string)
    requires WellFormed(base) && WellFormed(runtime)
    ensures UniqueEntries(Section(base, runtime, parent))
    ensures var under, over := Get(FieldsOf(base, parent), key), Get(FieldsOf(runtime, parent), key);
            var entry := EntryOf(Section(base, runtime, parent), key);
            && (entry.Some? <==> under.Some? || over.Some?)
            && (entry.Some? ==> Shows(entry.value, if over.Some? then over.value else under.value))
  {
    SectionEntry(base, runtime, parent, key);
    var under, over := Get(FieldsOf(base, parent), key), Get(FieldsOf(runtime, parent), key);
    if over.Some? {
      ValueShows(over.value);
    } else if under.Some? {
      ValueShows(under.value);
    }
  }

  function KeysOf(fields: seq<Field>): seq<string> {
    if fields == [] then [] else [fields[0].key] + KeysOf(fields[1..])
  }

  function EntryKeys(entries: seq<Entry>): seq<string> {
    if entries == [] then [] else [entries[0].key] + EntryKeys(entries[1..])
  }

  /** Those of `more` that are not in `keys`, in order. */
  function New(keys: seq<string>, more: seq<string>): seq<string> {
    if more == [] then [] else (if more[0] in keys then [] else [more[0]]) + New(keys, more[1..])
  }

  lemma {:induction false} KeysAfterField(entries: seq<Entry>, f: Field)
    ensures EntryKeys(WithField(entries, f)) == EntryKeys(entries) + New(EntryKeys(entries), [f.key])
    decreases |entries|
  {
    var only := [f.key];
    assert only[1..] == [];
    if entries == [] {
      assert [Entry(f.key, ValueOf(f.value))][1..] == [];
    } else {
      var after := WithField(entries, f);
      KeysAfterField(entries[1..], f);
      assert EntryKeys(entries) == [entries[0].key] + EntryKeys(entries[1..]);
      assert after[1..] == if entries[0].key == f.key then entries[1..] else WithField(entries[1..], f);
    }
  }

  lemma NewFirst(keys: seq<string>, key: string, rest: seq<string>)
    ensures [key] + [] == [key] && New(keys, [key] + rest) == (if key in keys then [] else [key]) + New(keys, rest)
  {
    assert ([key] + rest)[1..] == rest;
  }

  lemma {:induction false} NewSplits(keys: seq<string>, added: string, more: seq<string>)
    requires added !in more
    ensures New(keys + [added], more) == New(keys, more)
    decreases |more|
  {
    if more != [] {
      NewSplits(keys, added, more[1..]);
    }
  }

  /** Adding one key and then others is adding them all. */
  lemma NewAdds(keys: seq<string>, key: string, rest: seq<string>)
    requires key !in rest
    ensures var more := keys + New(keys, [key]);
            more + New(more, rest) == keys + New(keys, [key] + rest)
  {
    hide New;
    NewFirst(keys, key, []);
    NewFirst(keys, key, rest);
    NewNothing(keys);
    if key in keys {
      assert keys + [] == keys && [] + New(keys, rest) == New(keys, rest);
    } else {
      NewSplits(keys, key, rest);
      assert [key] + [] == [key];
      assert (keys + [key]) + New(keys, rest) == keys + ([key] + New(keys, rest));
    }
  }

  lemma NewNothing(keys: seq<string>)
    ensures New(keys, []) == []
  {
  }

  lemma {:induction false} KeysAfterFields(entries: seq<Entry>, fields: seq<Field>)
    requires UniqueKeys(fields)
    ensures EntryKeys(WithFields(entries, fields)) == EntryKeys(entries) + New(EntryKeys(entries), KeysOf(fields))
    decreases |fields|
  {
    if fields != [] {
      var key, rest := fields[0].key, KeysOf(fields[1..]);
      KeysAfterField(entries, fields[0]);
      KeysAfterFields(WithField(entries, fields[0]), fields[1..]);
      KeysElsewhere(fields[1..], key);
      NewAdds(EntryKeys(entries), key, rest);
    }
  }

  lemma {:induction false} KeysElsewhere(fields: seq<Field>, key: string)
    requires forall i :: 0 <= i < |fields| ==> fields[i].key != key
    ensures key !in KeysOf(fields)
    decreases |fields|
  {
    if fields != [] {
      KeysElsewhere(fields[1..], key);
    }
  }

  /** The array's order: the base's keys as they are there, and then those that only the upper layer has. */
  lemma SectionOrder(base: Json, runtime: Json, parent: string)
    requires WellFormed(base) && WellFormed(runtime)
    ensures EntryKeys(Section(base, runtime, parent))
            == KeysOf(FieldsOf(base, parent)) + New(KeysOf(FieldsOf(base, parent)), KeysOf(FieldsOf(runtime, parent)))
  {
    FieldsAreUnique(base, parent);
    FieldsAreUnique(runtime, parent);
    KeysAfterFields([], FieldsOf(base, parent));
    NewOfNothing(KeysOf(FieldsOf(base, parent)));
    KeysAfterFields(WithFields([], FieldsOf(base, parent)), FieldsOf(runtime, parent));
    assert [] + KeysOf(FieldsOf(base, parent)) == KeysOf(FieldsOf(base, parent));
  }

  lemma {:induction false} NewOfNothing(more: seq<string>)
    ensures New([], more) == more
    decreases |more|
  {
    if more != [] {
      NewOfNothing(more[1..]);
    }
  }

  /** Merging keeps the order of the keys too: the base's, and then the overlay's new ones. */
  lemma {:induction false} KeysAfterMerge(a: seq<Field>, b: seq<Field>)
    requires UniqueKeys(b)
    ensures KeysOf(Merge(a, b)) == KeysOf(a) + New(KeysOf(a), KeysOf(b))
    decreases |b|
  {
    if b != [] {
      hide Overlay;
      var key := b[0].key;
      var value := Overlay(Get(a, key), b[0].value);
      KeysAfterPut(a, key, value);
      KeysAfterMerge(Put(a, key, value), b[1..]);
      KeysElsewhere(b[1..], key);
      NewAdds(KeysOf(a), key, KeysOf(b[1..]));
    }
  }

  /** Setting a key keeps the order of the keys, with a new one at the end. */
  lemma {:induction false} KeysAfterPut(fields: seq<Field>, key: string, value: Json)
    ensures KeysOf(Put(fields, key, value)) == KeysOf(fields) + New(KeysOf(fields), [key])
    decreases |fields|
  {
    var only := [key];
    assert only[1..] == [];
    if fields == [] {
      assert [Field(key, value)][1..] == [];
    } else {
      var after := Put(fields, key, value);
      KeysAfterPut(fields[1..], key, value);
      assert after[1..] == if fields[0].key == key then fields[1..] else Put(fields[1..], key, value);
    }
  }

  lemma FindInSection(tree: Json, parent: string, key: string)
    requires key != ""
    ensures FindObject(tree, parent, key) == NonNull(Get(FieldsOf(tree, parent), key))
  {
    ResolveOne(tree, parent);
  }

  /**
   * The array and a single lookup say the same about a key unless the upper layer that has the key holds a null there:
   * the lookup then falls through, while the array has an entry of unknown type (as it has for arrays and fractions).
   */
  lemma ViewsAgreeIffNotNull(base: Json, runtime: Json, parent: string, key: string)
    requires WellFormed(base) && WellFormed(runtime) && key != ""
    ensures var under, over := Get(FieldsOf(base, parent), key), Get(FieldsOf(runtime, parent), key);
            var single := match Lookup(base, runtime, parent, key)
                          case Some(v) => Some(ValueOf(v))
                          case None => None;
            EntryOf(Section(base, runtime, parent), key) == single
            <==> (if over.Some? then over != Some(Null) || (under.Some? && under.value.Other?) else under != Some(Null))
  {
    SectionEntry(base, runtime, parent, key);
    FindInSection(base, parent, key);
    FindInSection(runtime, parent, key);
  }

  // ---------- lookups by path ----------

  function SetPath(parent: string, key: string): seq<string> {
    if parent == "" then [key] else [parent, key]
  }

  lemma FindIsResolve(tree: Json, parent: string, key: string)
    requires key != ""
    ensures FindObject(tree, parent, key) == NonNull(Resolve(tree, SetPath(parent, key)))
  {
    hide Get;
    assert [key][1..] == [] && [parent, key][1..] == [key];
    if parent != "" && tree.Object? && Get(tree.fields, parent).Some? {
      ResolveOne(Get(tree.fields, parent).value, key);
    }
    ResolveOne(tree, key);
  }

  lemma ResolveOne(j: Json, key: string)
    ensures Resolve(j, [key]) == if j.Object? then Get(j.fields, key) else None
  {
    assert [key][1..] == [];
  }

  /** Looking up in a merged tree: the overlay's value where it has one, the base's where it says nothing. */
  lemma FindAfterMerge(a: Json, b: Json, parent: string, key: string)
    requires a.Object? && b.Object? && WellFormed(b) && key != ""
    ensures var path := SetPath(parent, key);
            FindObject(Object(Merge(a.fields, b.fields)), parent, key)
            == NonNull(if Blocks(b, path) then None
                       else match Resolve(b, path)
                            case Some(v) => Some(Overlay(Resolve(a, path), v))
                            case None => Resolve(a, path))
  {
    FindIsResolve(Object(Merge(a.fields, b.fields)), parent, key);
    ResolveAfterMerge(a, b, SetPath(parent, key));
  }

  // ---------- what setting changes ----------

  /** The value set is found at its path, and paths neither above nor below it lead where they did. */
  lemma SetChangesOnlyItsPath(runtime: Json, parent: string, key: string, val: Json, path: seq<string>)
    requires runtime.Object?
    ensures Resolve(AfterSet(runtime, parent, key, val), SetPath(parent, key)) == Some(val)
    ensures !(path <= SetPath(parent, key)) && !(SetPath(parent, key) <= path) ==>
              Resolve(AfterSet(runtime, parent, key, val), path) == Resolve(runtime, path)
  {
    var after := AfterSet(runtime, parent, key, val);
    if parent == "" {
      ResolveAfterPut(runtime.fields, key, val, [key]);
      if path != [] {
        ResolveAfterPut(runtime.fields, key, val, path);
        assert path[0] == key ==> [key] <= path;
      }
    } else {
      var section := Get(runtime.fields, parent);
      var inner := if section.Some? && section.value.Object? then section.value.fields else [];
      var changed := Object(Put(inner, key, val));
      ResolveAfterPut(runtime.fields, parent, changed, [parent, key]);
      ResolveAfterPut(inner, key, val, [key]);
      assert [parent, key][1..] == [key];
      if path != [] {
        ResolveAfterPut(runtime.fields, parent, changed, path);
        if path[0] == parent && |path| > 1 && path[1] != key {
          ResolveAfterPut(inner, key, val, path[1..]);
        }
        assert path[0] == parent && |path| == 1 ==> path <= [parent, key];
        assert path[0] == parent && |path| > 1 && path[1] == key ==> [parent, key] <= path;
      }
    }
  }

  /**
   * Through both layers: the value set is found again (a null uncovers the base's), and no lookup changes whose path
   * neither contains the path set nor is contained in it.
   */
  lemma LookupAfterSet(base: Json, runtime: Json, parent: string, key: string, val: Json, p: string, k: string)
    requires runtime.Object? && k != ""
    ensures var now, path, other := Lookup(base, AfterSet(runtime, parent, key, val), p, k), SetPath(parent, key), SetPath(p, k);
            && (other == path ==> now == if val == Null then FindObject(base, p, k) else Some(val))
            && (!(other <= path) && !(path <= other) ==> now == Lookup(base, runtime, p, k))
  {
    hide FindObject, Resolve, AfterSet;
    FindIsResolve(runtime, p, k);
    FindIsResolve(AfterSet(runtime, parent, key, val), p, k);
    SetChangesOnlyItsPath(runtime, parent, key, val, SetPath(p, k));
  }

  lemma ResolveAfterPut(fields: seq<Field>, key: string, val: Json, path: seq<string>)
    requires path != []
    ensures Resolve(Object(Put(fields, key, val)), path)
            == if path[0] == key then Resolve(val, path[1..]) else Resolve(Object(fields), path)
  {
    GetAfterPut(fields, key, val, path[0]);
  }
}
