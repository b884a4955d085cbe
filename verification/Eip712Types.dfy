/** The EIP-712 schema made out of the JSON of a transaction's messages. */
module Eip712Types {
  import opened Bytes
  import opened Json
  import opened Eip712Names

  datatype TypeField = TypeField(name: string, typ: string)

  type Defs = map<string, seq<TypeField>>

  datatype Error = NotAnObject | MalformedType | TooManyDuplicates

  const TX := "Tx"
  const MAX_DUPLICATES := 1000

  const TX_FIELDS := [TypeField("account_number", "string"), TypeField("chain_id", "string"), TypeField("fee", "Fee"),
                      TypeField("memo", "string"), TypeField("sequence", "string")]

  const BUILT_IN: Defs :=
    map["EIP712Domain" := [TypeField("name", "string"), TypeField("version", "string"), TypeField("chainId", "uint256"),
                           TypeField("verifyingContract", "string"), TypeField("salt", "string")],
        "Tx" := TX_FIELDS,
        "Fee" := [TypeField("amount", "Coin[]"), TypeField("gas", "string")],
        "Coin" := [TypeField("denom", "string"), TypeField("amount", "string")]]

  const PRIMITIVES := {"bool", "int64", "string", "uint256"}

  /** getEthTypeForJSON */
  function EthType(v: Value): string {
    match v
    case Bool(_) => "bool"
    case Number(_) => "int64"
    case String(_) => "string"
    case _ => ""
  }

  // ----- what a schema says -----

  /** The type without a trailing []. */
  function BaseType(t: string): string {
    if |t| >= 2 && t[|t| - 2..] == "[]" then t[..|t| - 2] else t
  }

  predicate Known(defs: Defs, t: string) { BaseType(t) in PRIMITIVES || BaseType(t) in defs }

  /** Every type that a field names is a primitive or defined. */
  ghost predicate Closed(defs: Defs) {
    forall k, i :: k in defs && 0 <= i < |defs[k]| ==> Known(defs, defs[k][i].typ)
  }

  /** All definitions of a are in b, unchanged. */
  ghost predicate Extends(a: Defs, b: Defs) { forall k :: k in a ==> k in b && b[k] == a[k] }

  /** The same for definitions that messages gave rise to. */
  ghost predicate KeepsTypes(a: Defs, b: Defs) { forall k :: k in a && StartsWithType(k) ==> k in b && b[k] == a[k] }

  /** The same, and what is new in b came from messages. */
  ghost predicate Grows(a: Defs, b: Defs) { Extends(a, b) && forall k :: k in b ==> k in a || StartsWithType(k) }

  predicate IsIndexed(key: string, typeDef: string) {
    exists i :: 0 <= i < MAX_DUPLICATES && key == TypeDefWithIndex(typeDef, i)
  }

  /** Every indexed name of some type is taken. */
  ghost predicate Full(defs: Defs, typeDef: string) {
    forall i :: 0 <= i < MAX_DUPLICATES ==> TypeDefWithIndex(typeDef, i) in defs
  }

  /** An indexed name that stands for other fields than these. */
  predicate Taken(defs: Defs, typeDef: string, i: nat, types: seq<TypeField>) {
    var k := TypeDefWithIndex(typeDef, i);
    k in defs && defs[k] != types
  }

  /** The first indexed name that is not taken. */
  predicate IsFirst(defs: Defs, typeDef: string, i: int, types: seq<TypeField>, key: string) {
    && 0 <= i < MAX_DUPLICATES && key == TypeDefWithIndex(typeDef, i) && !Taken(defs, typeDef, i, types)
    && forall j :: 0 <= j < i ==> Taken(defs, typeDef, j, types)
  }

  /** It is the first of typeDef0, typeDef1, ..., typeDef999 that is free or already stands for these fields. */
  lemma FirstName(defs: Defs, typeDef: string, i: nat, types: seq<TypeField>, key: string)
    ensures IsFirst(defs, typeDef, i, types, key) ==>
              && i < 1000 && key == typeDef + Decimal(i) && (key in defs ==> defs[key] == types)
              && forall j: nat :: j < i ==> typeDef + Decimal(j) in defs && defs[typeDef + Decimal(j)] != types
    ensures Taken(defs, typeDef, i, types) <==> typeDef + Decimal(i) in defs && defs[typeDef + Decimal(i)] != types
  {
    hide Decimal;
    if IsFirst(defs, typeDef, i, types, key) {
      forall j: nat | j < i ensures typeDef + Decimal(j) in defs && defs[typeDef + Decimal(j)] != types {
        assert Taken(defs, typeDef, j, types);
      }
    }
  }

  ghost predicate SomeFull(defs: Defs) { exists typeDef :: Full(defs, typeDef) }

  /** Null, and an array that starts with null or with another array, has no type. */
  predicate HasType(v: Value) {
    match v
    case Null => false
    case Array(items) => items == [] || (!items[0].Null? && !items[0].Array?)
    case _ => true
  }

  /** The names that have a type, in the order of keys. */
  function TypedNames(payload: Value, keys: seq<string>): seq<string> {
    if keys == [] then []
    else
      var init, name := TypedNames(payload, keys[..|keys| - 1]), keys[|keys| - 1];
      if Get(payload, name).Some? && HasType(Get(payload, name).value) then init + [name] else init
  }

  /** Type t is right for value v, which was found under prefix. */
  ghost predicate TypeFits(defs: Defs, rootType: string, prefix: string, t: string, v: Value)
    decreases v, 3
  {
    match v
    case Array(items) =>
      if items == [] then t == "string[]"
      else if EthType(items[0]) != "" then t == EthType(items[0]) + "[]"
      else |t| >= 2 && t[|t| - 2..] == "[]" && Describes(defs, rootType, prefix, t[..|t| - 2], items[0])
    case Object(_) => Describes(defs, rootType, prefix, t, v)
    case _ => t == EthType(v) != ""
  }

  ghost predicate FieldFits(defs: Defs, rootType: string, prefix: string, payload: Value, name: string, f: TypeField)
    decreases payload, 0
  {
    var v := Get(payload, name);
    v.Some? && f.name == name && TypeFits(defs, rootType, PrefixForSubField(prefix, name), f.typ, v.value)
  }

  ghost predicate FieldsFit(defs: Defs, rootType: string, prefix: string, payload: Value, names: seq<string>,
                            fs: seq<TypeField>)
    decreases payload, 1
  {
    |fs| == |names| && forall i :: 0 <= i < |names| ==> FieldFits(defs, rootType, prefix, payload, names[i], fs[i])
  }

  /** The definition at key lists exactly the typed fields of the object, in descending order of their
      names, each with its type, and the same goes for the objects below. */
  ghost predicate Describes(defs: Defs, rootType: string, prefix: string, key: string, payload: Value)
    decreases payload, 2
  {
    && payload.Object? && key in defs && IsIndexed(key, TypeDefForPrefix(prefix, rootType))
    && FieldsFit(defs, rootType, prefix, payload, TypedNames(payload, SortedKeys(payload.fields)), defs[key])
  }

  // ----- what a definition says, in full -----

  lemma {:induction false} TypedNameOf(payload: Value, keys: seq<string>, k: string)
    ensures k in TypedNames(payload, keys) <==> k in keys && Get(payload, k).Some? && HasType(Get(payload, k).value)
  {
    hide HasType, Get;
    if keys != [] {
      TypedNameOf(payload, keys[..|keys| - 1], k);
      assert keys == keys[..|keys| - 1] + [keys[|keys| - 1]];
    }
  }

  lemma {:induction false} TypedNamesDescend(payload: Value, keys: seq<string>)
    requires Descending(keys)
    ensures Descending(TypedNames(payload, keys))
  {
    hide Above, HasType, Get;
    if keys != [] {
      var init, name := keys[..|keys| - 1], keys[|keys| - 1];
      TypedNamesDescend(payload, init);
      var names := TypedNames(payload, init);
      forall i | 0 <= i < |names| ensures Above(names[i], name) {
        TypedNameOf(payload, init, names[i]);
        var j :| 0 <= j < |init| && init[j] == names[i];
        assert keys[j] == names[i];
      }
    }
  }

  /** The fields of a definition are the names of its object whose value has a type, each once and in descending order.
      A null, and an array that begins with a null or another array, has none. */
  lemma DescribedNames(defs: Defs, rootType: string, prefix: string, key: string, payload: Value)
    requires Describes(defs, rootType, prefix, key, payload)
    ensures payload.Object? && key in defs
    ensures exists i :: 0 <= i < 1000 && key == (if prefix == "_" then rootType else Sanitized(prefix)) + Decimal(i)
    ensures forall i, j :: 0 <= i < j < |defs[key]| ==> Above(defs[key][i].name, defs[key][j].name)
    ensures forall name :: (exists i :: 0 <= i < |defs[key]| && defs[key][i].name == name) <==>
              && Get(payload, name).Some?
              && match Get(payload, name).value
                 case Null => false
                 case Array(items) => items == [] || (items[0] != Null && !items[0].Array?)
                 case _ => true
  {
    var names, fs := TypedNames(payload, SortedKeys(payload.fields)), defs[key];
    SortedKeysDescend(payload.fields);
    TypedNamesDescend(payload, SortedKeys(payload.fields));
    forall k ensures k in names <==> k in SortedKeys(payload.fields) && Get(payload, k).Some? && HasType(Get(payload, k).value) {
      TypedNameOf(payload, SortedKeys(payload.fields), k);
    }
    hide Above, TypedNames, SortedKeys, TypeFits, Sanitized, Decimal;
    assert FieldsFit(defs, rootType, prefix, payload, names, fs);
    forall i | 0 <= i < |fs| ensures fs[i].name == names[i] {
      assert FieldFits(defs, rootType, prefix, payload, names[i], fs[i]);
    }
    hide FieldsFit;
    forall name ensures (exists i :: 0 <= i < |fs| && fs[i].name == name) <==> name in names {
      if name in names {
        var i :| 0 <= i < |names| && names[i] == name;
        assert fs[i].name == name;
      }
    }
  }

  /** The type of a field: bool, int64 or string for a boolean, a number or a string, the name of a definition that
      describes it for an object, and the type of the first element with [] for an array, string[] for an empty one. */
  lemma DescribedType(defs: Defs, rootType: string, prefix: string, key: string, payload: Value, f: TypeField)
    requires Describes(defs, rootType, prefix, key, payload) && f in defs[key]
    ensures Get(payload, f.name).Some?
    ensures match Get(payload, f.name).value
            case Null => false
            case Bool(_) => f.typ == "bool"
            case Number(_) => f.typ == "int64"
            case String(_) => f.typ == "string"
            case Object(_) => Describes(defs, rootType, prefix + "." + f.name, f.typ, Get(payload, f.name).value)
            case Array(items) =>
              if items == [] then f.typ == "string[]"
              else match items[0]
                case Bool(_) => f.typ == "bool" + "[]"
                case Number(_) => f.typ == "int64" + "[]"
                case String(_) => f.typ == "string" + "[]"
                case Object(_) => exists k :: f.typ == k + "[]" && Describes(defs, rootType, prefix + "." + f.name, k, items[0])
                case _ => false
  {
    var names := TypedNames(payload, SortedKeys(payload.fields));
    var i :| 0 <= i < |defs[key]| && defs[key][i] == f;
    hide TypedNames, SortedKeys, IsIndexed, TypeFits, Get;
    assert FieldFits(defs, rootType, prefix, payload, names[i], f);
    hide Describes, FieldsFit;
    var v := Get(payload, f.name).value;
    FitMeans(defs, rootType, prefix + "." + f.name, f.typ, v);
  }

  lemma FitMeans(defs: Defs, rootType: string, prefix: string, t: string, v: Value)
    requires TypeFits(defs, rootType, prefix, t, v)
    ensures match v
            case Null => false
            case Bool(_) => t == "bool"
            case Number(_) => t == "int64"
            case String(_) => t == "string"
            case Object(_) => Describes(defs, rootType, prefix, t, v)
            case Array(items) =>
              if items == [] then t == "string[]"
              else match items[0]
                case Bool(_) => t == "bool" + "[]"
                case Number(_) => t == "int64" + "[]"
                case String(_) => t == "string" + "[]"
                case Object(_) => exists k :: t == k + "[]" && Describes(defs, rootType, prefix, k, items[0])
                case _ => false
  {
    hide FieldsFit, IsIndexed;
    match v
    case Array(items) =>
      if items != [] && items[0].Object? {
        ObjectHasNoPrimitive(items[0]);
        assert t == t[..|t| - 2] + "[]";
        hide Describes;
        assert Describes(defs, rootType, prefix, t[..|t| - 2], items[0]);
      }
    case _ =>
  }

  lemma ObjectHasNoPrimitive(v: Value)
    requires v.Object?
    ensures EthType(v) == ""
  {}

  lemma BaseOfName(t: string)
    ensures t != [] && t[|t| - 1] != ']' ==> BaseType(t) == t
    ensures BaseType(t + "[]") == t
  {}

  lemma KeyIsType(key: string, prefix: string, rootType: string)
    requires IsPrefix(prefix) && StartsWithType(rootType) && IsIndexed(key, TypeDefForPrefix(prefix, rootType))
    ensures StartsWithType(key) && BaseType(key) == key && BaseType(key + "[]") == key
  {
    hide Sanitized, Decimal;
    var i :| 0 <= i < MAX_DUPLICATES && key == TypeDefWithIndex(TypeDefForPrefix(prefix, rootType), i);
    NamesOfTypes(prefix, rootType, i);
    BaseOfName(key);
  }

  /** A description stays true while definitions that come from messages are kept. */
  lemma {:induction false} TypeFitsKept(a: Defs, b: Defs, rootType: string, prefix: string, t: string, v: Value)
    requires KeepsTypes(a, b) && StartsWithType(rootType) && IsPrefix(prefix) && TypeFits(a, rootType, prefix, t, v)
    ensures TypeFits(b, rootType, prefix, t, v)
    decreases v, 2
  {
    hide KeepsTypes, IsPrefix, Describes, StartsWithType, EthType;
    match v
    case Array(items) =>
      if items != [] && EthType(items[0]) == "" {
        DescribesKept(a, b, rootType, prefix, t[..|t| - 2], items[0]);
      }
    case Object(_) => DescribesKept(a, b, rootType, prefix, t, v);
    case _ =>
  }

  lemma {:induction false} DescribesKept(a: Defs, b: Defs, rootType: string, prefix: string, key: string, payload: Value)
    requires KeepsTypes(a, b) && StartsWithType(rootType) && IsPrefix(prefix) && Describes(a, rootType, prefix, key, payload)
    ensures Describes(b, rootType, prefix, key, payload)
    decreases payload, 1
  {
    KeyIsType(key, prefix, rootType);
    hide StartsWithType, IsPrefix, IsIndexed, TypedNames, TypeFits, TypeDefForPrefix;
    FieldsFitKept(a, b, rootType, prefix, payload, TypedNames(payload, SortedKeys(payload.fields)), a[key]);
  }

  lemma {:induction false} FieldsFitKept(a: Defs, b: Defs, rootType: string, prefix: string, payload: Value,
                                         names: seq<string>, fs: seq<TypeField>)
    requires KeepsTypes(a, b) && StartsWithType(rootType) && IsPrefix(prefix)
    requires FieldsFit(a, rootType, prefix, payload, names, fs)
    ensures FieldsFit(b, rootType, prefix, payload, names, fs)
    decreases payload, 0
  {
    hide StartsWithType, TypeFits, KeepsTypes;
    forall i | 0 <= i < |names| ensures FieldFits(b, rootType, prefix, payload, names[i], fs[i]) {
      assert FieldFits(a, rootType, prefix, payload, names[i], fs[i]);
      SubFieldPrefix(prefix, names[i]);
      hide IsPrefix;
      TypeFitsKept(a, b, rootType, PrefixForSubField(prefix, names[i]), fs[i].typ, Get(payload, names[i]).value);
    }
  }

  lemma FitIsKnown(defs: Defs, rootType: string, prefix: string, t: string, v: Value)
    requires StartsWithType(rootType) && IsPrefix(prefix) && TypeFits(defs, rootType, prefix, t, v)
    ensures Known(defs, t)
  {
    hide Describes, Known, StartsWithType, IsPrefix;
    match v
    case Array(items) =>
      if items == [] {
        ArrayIsKnown(defs, "string");
        assert t == "string" + "[]";
      } else if EthType(items[0]) != "" {
        ArrayIsKnown(defs, EthType(items[0]));
      } else {
        NameIsKnown(defs, rootType, prefix, t[..|t| - 2], items[0]);
        assert t == t[..|t| - 2] + "[]";
      }
    case Object(_) => NameIsKnown(defs, rootType, prefix, t, v);
    case _ => ArrayIsKnown(defs, t);
  }

  lemma ArrayIsKnown(defs: Defs, t: string)
    ensures t in {"bool", "int64", "string"} ==> Known(defs, t) && Known(defs, t + "[]")
  {
    BaseOfName(t);
  }

  lemma NameIsKnown(defs: Defs, rootType: string, prefix: string, key: string, payload: Value)
    requires StartsWithType(rootType) && IsPrefix(prefix) && Describes(defs, rootType, prefix, key, payload)
    ensures Known(defs, key) && Known(defs, key + "[]")
  {
    hide FieldsFit;
    KeyIsType(key, prefix, rootType);
  }

  /** A new definition whose fields have known types leaves the schema closed. */
  lemma ClosedWith(defs: Defs, key: string, fs: seq<TypeField>)
    requires Closed(defs) && forall i :: 0 <= i < |fs| ==> Known(defs, fs[i].typ)
    ensures Closed(defs[key := fs])
  {}

  lemma GrowsAgain(a: Defs, b: Defs, c: Defs)
    requires Grows(a, b) && Grows(b, c)
    ensures Grows(a, c)
  {}

  lemma TypedNamesStep(payload: Value, keys: seq<string>, n: nat)
    requires n < |keys|
    ensures TypedNames(payload, keys[..n + 1])
         == TypedNames(payload, keys[..n])
            + if Get(payload, keys[n]).Some? && HasType(Get(payload, keys[n]).value) then [keys[n]] else []
  {
    assert keys[..n + 1][..n] == keys[..n];
  }

  lemma TypedNamesEnds(payload: Value, keys: seq<string>)
    ensures keys[..|keys|] == keys && TypedNames(payload, keys[..0]) == []
  {}

  /** One more field collected, after its own type was added to the schema. */
  lemma FieldAdded(a: Defs, b: Defs, rootType: string, prefix: string, payload: Value, names: seq<string>,
                   fs: seq<TypeField>,
                   name: string, typ: Option<string>)
    requires StartsWithType(rootType) && IsPrefix(prefix) && Grows(a, b)
    requires FieldsFit(a, rootType, prefix, payload, names, fs) && Get(payload, name).Some?
    requires typ.Some? ==> TypeFits(b, rootType, PrefixForSubField(prefix, name), typ.value, Get(payload, name).value)
    ensures if typ.Some? then FieldsFit(b, rootType, prefix, payload, names + [name], fs + [TypeField(name, typ.value)])
            else FieldsFit(b, rootType, prefix, payload, names, fs)
  {
    hide StartsWithType, IsPrefix, TypeFits;
    FieldsFitKept(a, b, rootType, prefix, payload, names, fs);
    if typ.Some? {
      hide Extends;
      assert FieldFits(b, rootType, prefix, payload, name, TypeField(name, typ.value));
    }
  }

  /** What defining the fields that were collected for an object does to the schema. */
  lemma NewDefinition(defs: Defs, rootType: string, prefix: string, payload: Value, fs: seq<TypeField>, key: string)
    requires StartsWithType(rootType) && IsPrefix(prefix) && payload.Object? && Closed(defs)
    requires FieldsFit(defs, rootType, prefix, payload, TypedNames(payload, SortedKeys(payload.fields)), fs)
    requires IsIndexed(key, TypeDefForPrefix(prefix, rootType)) && (key !in defs || defs[key] == fs)
    ensures var defs' := defs[key := fs];
            Grows(defs, defs') && Closed(defs') && Describes(defs', rootType, prefix, key, payload)
  {
    var names := TypedNames(payload, SortedKeys(payload.fields));
    KeyIsType(key, prefix, rootType);
    hide StartsWithType, TypeDefForPrefix, IsIndexed, TypeFits, TypedNames, Closed, Known;
    hide IsPrefix, FieldsFit;
    FieldsKnown(defs, rootType, prefix, payload, names, fs);
    ClosedWith(defs, key, fs);
    FieldsFitKept(defs, defs[key := fs], rootType, prefix, payload, names, fs);
  }

  lemma FieldsKnown(defs: Defs, rootType: string, prefix: string, payload: Value, names: seq<string>, fs: seq<TypeField>)
    requires StartsWithType(rootType) && IsPrefix(prefix) && FieldsFit(defs, rootType, prefix, payload, names, fs)
    ensures forall i :: 0 <= i < |fs| ==> Known(defs, fs[i].typ)
  {
    hide StartsWithType, TypeFits, Known;
    forall i | 0 <= i < |fs| ensures Known(defs, fs[i].typ) {
      assert FieldFits(defs, rootType, prefix, payload, names[i], fs[i]);
      SubFieldPrefix(prefix, names[i]);
      FitIsKnown(defs, rootType, PrefixForSubField(prefix, names[i]), fs[i].typ, Get(payload, names[i]).value);
    }
  }

  lemma IsFull(defs: Defs, typeDef: string, types: seq<TypeField>)
    requires forall i :: 0 <= i < MAX_DUPLICATES ==> Taken(defs, typeDef, i, types)
    ensures SomeFull(defs)
  {
    hide TypeDefWithIndex;
    forall i | 0 <= i < MAX_DUPLICATES ensures TypeDefWithIndex(typeDef, i) in defs {
      assert Taken(defs, typeDef, i, types);
    }
    assert Full(defs, typeDef);
  }

  // ----- how many definitions there can be -----

  /** The objects that recursivelyAddTypesToRoot comes by: the object itself and those of its fields; of an array it
      looks at the first element only. */
  function ObjectsMet(v: Value): nat
    decreases v, 1, 0
  {
    match v
    case Object(fields) => 1 + ObjectsUnder(v, SortedKeys(fields))
    case Array(items) => if items != [] && items[0].Object? then ObjectsMet(items[0]) else 0
    case _ => 0
  }

  function ObjectsUnder(payload: Value, keys: seq<string>): nat
    decreases payload, 0, |keys|
  {
    if keys == [] then 0
    else
      ObjectsUnder(payload, keys[..|keys| - 1])
      + match Get(payload, keys[|keys| - 1]) { case None => 0 case Some(v) => ObjectsMet(v) }
  }

  /** The same for the first n messages. */
  function ObjectsOfMessages(payload: Value, n: nat): nat {
    if n == 0 then 0
    else
      ObjectsOfMessages(payload, n - 1)
      + match Get(payload, MsgField(n - 1)) { case None => 0 case Some(v) => ObjectsMet(v) }
  }

  lemma ObjectsUnderStep(payload: Value, keys: seq<string>, n: nat)
    requires n < |keys|
    ensures ObjectsUnder(payload, keys[..n + 1])
         == ObjectsUnder(payload, keys[..n]) + match Get(payload, keys[n]) { case None => 0 case Some(v) => ObjectsMet(v) }
  {
    assert keys[..n + 1][..n] == keys[..n];
  }

  lemma {:induction false} ObjectsUnderGrows(payload: Value, keys: seq<string>, n: nat)
    requires n <= |keys|
    ensures ObjectsUnder(payload, keys[..n]) <= ObjectsUnder(payload, keys)
    decreases |keys| - n
  {
    if n < |keys| {
      ObjectsUnderStep(payload, keys, n);
      ObjectsUnderGrows(payload, keys, n + 1);
    } else {
      assert keys[..n] == keys;
    }
  }

  lemma {:induction false} ObjectsOfMessagesGrows(payload: Value, i: nat, n: nat)
    requires i <= n
    ensures ObjectsOfMessages(payload, i) <= ObjectsOfMessages(payload, n)
  {
    if i < n {
      ObjectsOfMessagesGrows(payload, i, n - 1);
    }
  }

  /** An object without objects below it counts once; an object with one field counts one more than what is in it. */
  lemma ObjectsMetMeans(name: string, v: Value)
    ensures ObjectsMet(Object([])) == 1 && ObjectsMet(Object([Field(name, v)])) == 1 + ObjectsMet(v)
    ensures v.Object? ==> ObjectsMet(Array([v])) == ObjectsMet(v)
    ensures !v.Object? && !v.Array? ==> ObjectsMet(v) == 0
  {
    var payload := Object([Field(name, v)]);
    assert SortedKeys([]) == [] && SortedKeys(payload.fields) == [name];
    assert [name][..0] == [] && ObjectsUnder(payload, []) == 0;
    assert Get(payload, name) == Some(v);
    assert ObjectsUnder(payload, [name]) == ObjectsMet(v);
    assert ObjectsUnder(Object([]), []) == 0;
  }

  lemma {:induction false} NamesOfIndexes(typeDef: string, n: nat)
    ensures |set i | 0 <= i < n :: TypeDefWithIndex(typeDef, i)| == n
  {
    var names := set i | 0 <= i < n :: TypeDefWithIndex(typeDef, i);
    if n == 0 {
      assert names == {};
    } else {
      NamesOfIndexes(typeDef, n - 1);
      var init, last := set i | 0 <= i < n - 1 :: TypeDefWithIndex(typeDef, i), TypeDefWithIndex(typeDef, n - 1);
      forall i | 0 <= i < n - 1 ensures TypeDefWithIndex(typeDef, i) != last {
        if TypeDefWithIndex(typeDef, i) == last {
          assert TypeDefWithIndex(typeDef, i)[|typeDef|..] == Decimal(i) && last[|typeDef|..] == Decimal(n - 1);
          DecimalInjective(i, n - 1);
        }
      }
      assert names == init + {last};
    }
  }

  /** When all indexed names of a type are taken there are 1000 definitions beside the built-in ones. */
  lemma FullIsLarge(defs: Defs, typeDef: string)
    requires Full(defs, typeDef) && BUILT_IN.Keys <= defs.Keys
    ensures |defs| >= 1004
  {
    var names := set i | 0 <= i < MAX_DUPLICATES :: TypeDefWithIndex(typeDef, i);
    NamesOfIndexes(typeDef, MAX_DUPLICATES);
    BuiltInNames();
    hide BUILT_IN, TypeDefWithIndex;
    forall k | k in names ensures k in defs.Keys && k !in BUILT_IN.Keys {
      var i :| 0 <= i < MAX_DUPLICATES && k == TypeDefWithIndex(typeDef, i);
      EndsInDigit(typeDef, i);
    }
    hide Full;
    SizeOfUnion(names, BUILT_IN.Keys, defs.Keys);
  }

  lemma EndsInDigit(typeDef: string, i: nat)
    ensures var k := TypeDefWithIndex(typeDef, i); k != [] && '0' <= k[|k| - 1] <= '9'
  {
    DecimalParses(i);
  }

  lemma SizeOfUnion(a: set<string>, b: set<string>, c: set<string>)
    requires a <= c && b <= c && a !! b
    ensures |a| + |b| <= |c|
  {
    AtLeast(a + b, c);
  }

  lemma BuiltInNames()
    ensures |BUILT_IN.Keys| == 4
    ensures forall k :: k in BUILT_IN.Keys ==> k != [] && !('0' <= k[|k| - 1] <= '9')
  {
    assert BUILT_IN.Keys == {"EIP712Domain", "Tx", "Fee", "Coin"};
    assert "Tx"[1] == 'x' && "Fee"[2] == 'e' && "Coin"[3] == 'n' && "EIP712Domain"[11] == 'n';
  }

  lemma {:induction false} AtLeast(a: set<string>, b: set<string>)
    requires a <= b
    ensures |a| <= |b|
  {
    if a != {} {
      var x :| x in a;
      AtLeast(a - {x}, b - {x});
    }
  }

  lemma OneMoreKey(defs: Defs, key: string, fs: seq<TypeField>)
    ensures |defs[key := fs]| <= |defs| + 1
    ensures key in defs ==> |defs[key := fs]| == |defs|
  {
    assert defs[key := fs].Keys == defs.Keys + {key};
    if key in defs { assert defs.Keys + {key} == defs.Keys; }
  }

  // ----- the operations -----

  /** typesAreEqual */
  method TypesAreEqual(types1: seq<TypeField>, types2: seq<TypeField>) returns (r: bool)
    ensures r <==> types1 == types2
  {
    if |types1| != |types2| {
      return false;
    }
    for i := 0 to |types1|
      invariant types1[..i] == types2[..i]
    {
      if types1[i].name != types2[i].name || types1[i].typ != types2[i].typ {
        return false;
      }
    }
    return true;
  }

  class TypeMap {
    var defs: Defs

    constructor ()
      ensures defs == BUILT_IN
    {
      defs := BUILT_IN;
    }

    /** addTypesToRoot */
    method AddTypesToRoot(typeDef: string, types: seq<TypeField>) returns (err: Option<Error>, key: string)
      modifies this
      ensures err.Some? <==> forall i :: 0 <= i < MAX_DUPLICATES ==> Taken(old(defs), typeDef, i, types)
      ensures err.Some? ==> err.value == TooManyDuplicates
      ensures defs == if err.Some? then old(defs) else old(defs)[key := types]
      ensures err.None? ==> key !in old(defs) || old(defs)[key] == types
      ensures err.None? ==> IsIndexed(key, typeDef)
      ensures err.None? ==> exists i :: IsFirst(old(defs), typeDef, i, types, key)
    {
      hide TypeDefWithIndex;
      var indexAsDuplicate := 0;
      while true
        invariant 0 <= indexAsDuplicate < MAX_DUPLICATES && defs == old(defs)
        invariant forall j :: 0 <= j < indexAsDuplicate ==> Taken(defs, typeDef, j, types)
        decreases MAX_DUPLICATES - indexAsDuplicate
      {
        key := TypeDefWithIndex(typeDef, indexAsDuplicate);
        if key in defs {
          var same := TypesAreEqual(types, defs[key]);
          if same {
            assert defs == defs[key := types];
            assert IsFirst(defs, typeDef, indexAsDuplicate, types, key);
            return None, key;
          }
        } else {
          break;
        }
        indexAsDuplicate := indexAsDuplicate + 1;
        if indexAsDuplicate == MAX_DUPLICATES {
          return Some(TooManyDuplicates), "";
        }
      }
      assert IsFirst(defs, typeDef, indexAsDuplicate, types, key);
      defs := defs[key := types];
      return None, key;
    }

    /** What the loop of recursivelyAddTypesToRoot does with the value of one field. */
    method TypeOfField(rootType: string, prefix: string, fieldName: string, value: Value)
      returns (err: Option<Error>, typ: Option<string>)
      requires StartsWithType(rootType) && IsPrefix(prefix) && Closed(defs)
      modifies this
      ensures Grows(old(defs), defs) && Closed(defs)
      ensures err.None? ==> (typ.Some? <==> HasType(value))
      ensures err.None? && typ.Some? ==> TypeFits(defs, rootType, PrefixForSubField(prefix, fieldName), typ.value, value)
      ensures err.Some? ==> err.value == TooManyDuplicates && SomeFull(defs)
      ensures |defs| + (if err.Some? then 1 else 0) <= |old(defs)| + ObjectsMet(value)
      decreases value, 2
    {
      assert Grows(defs, defs);
      hide Closed, SomeFull, IsIndexed, Grows;
      var field, isCollection := value, false;
      if value.Array? {
        if value.items == [] {
          return None, Some("string[]");
        }
        field, isCollection := value.items[0], true;
      }
      var ethType := EthType(field);
      if ethType != "" {
        if isCollection {
          ethType := ethType + "[]";
        }
        return None, Some(ethType);
      }
      if field.Object? {
        var fieldPrefix := PrefixForSubField(prefix, fieldName);
        SubFieldPrefix(prefix, fieldName);
        var fieldErr, fieldTypeDef := RecursivelyAddTypesToRoot(rootType, fieldPrefix, field);
        if fieldErr.Some? {
          return fieldErr, None;
        }
        ghost var key := fieldTypeDef;
        SanitizeKey(key, fieldPrefix, rootType);
        fieldTypeDef := SanitizeTypedef(fieldTypeDef);
        if isCollection {
          fieldTypeDef := fieldTypeDef + "[]";
          assert fieldTypeDef[..|fieldTypeDef| - 2] == key;
        }
        return None, Some(fieldTypeDef);
      }
      return None, None;
    }

    /** The loop of recursivelyAddTypesToRoot. */
    method CollectTypes(rootType: string, prefix: string, payload: Value)
      returns (err: Option<Error>, typesToAdd: seq<TypeField>)
      requires StartsWithType(rootType) && IsPrefix(prefix) && Closed(defs) && payload.Object?
      modifies this
      ensures Grows(old(defs), defs) && Closed(defs)
      ensures err.None? ==> FieldsFit(defs, rootType, prefix, payload, TypedNames(payload, SortedKeys(payload.fields)), typesToAdd)
      ensures err.Some? ==> err.value == TooManyDuplicates && SomeFull(defs)
      ensures |defs| + (if err.Some? then 1 else 0) <= |old(defs)| + ObjectsUnder(payload, SortedKeys(payload.fields))
      decreases payload, 0
    {
      ghost var start := defs;
      assert Grows(defs, defs);
      assert FieldsFit(defs, rootType, prefix, payload, [], []);
      hide Closed, SomeFull, Grows, TypeFits, FieldsFit, TypedNames, SortedKeys, StartsWithType, IsPrefix, HasType,
           ObjectsMet;
      typesToAdd := [];
      var sortedFieldNames := SortedKeys(payload.fields);
      assert TypedNames(payload, sortedFieldNames[..0]) == [] by { TypedNamesEnds(payload, sortedFieldNames); }
      for n := 0 to |sortedFieldNames|
        invariant Grows(start, defs) && Closed(defs)
        invariant FieldsFit(defs, rootType, prefix, payload, TypedNames(payload, sortedFieldNames[..n]), typesToAdd)
        invariant |defs| <= |start| + ObjectsUnder(payload, sortedFieldNames[..n])
      {
        var fieldName := sortedFieldNames[n];
        var field := Get(payload, fieldName);
        TypedNamesStep(payload, sortedFieldNames, n);
        ObjectsUnderStep(payload, sortedFieldNames, n);
        ObjectsUnderGrows(payload, sortedFieldNames, n + 1);
        if field.None? {
          continue;
        }
        ghost var before := defs;
        var fieldErr, typ := TypeOfField(rootType, prefix, fieldName, field.value);
        GrowsAgain(start, before, defs);
        if fieldErr.Some? {
          return fieldErr, [];
        }
        FieldAdded(before, defs, rootType, prefix, payload, TypedNames(payload, sortedFieldNames[..n]), typesToAdd, fieldName, typ);
        if typ.Some? {
          typesToAdd := typesToAdd + [TypeField(fieldName, typ.value)];
        }
      }
      TypedNamesEnds(payload, sortedFieldNames);
      return None, typesToAdd;
    }

    /** recursivelyAddTypesToRoot */
    method RecursivelyAddTypesToRoot(rootType: string, prefix: string, payload: Value)
      returns (err: Option<Error>, key: string)
      requires StartsWithType(rootType) && IsPrefix(prefix) && Closed(defs)
      modifies this
      ensures Grows(old(defs), defs) && Closed(defs)
      ensures err.None? ==> Describes(defs, rootType, prefix, key, payload)
      ensures !payload.Object? ==> err == Some(NotAnObject)
      ensures err.Some? && payload.Object? ==> err.value == TooManyDuplicates && SomeFull(defs)
      ensures payload.Object? ==> |defs| + (if err.Some? then 1 else 0) <= |old(defs)| + ObjectsMet(payload)
      decreases payload, 1
    {
      if !payload.Object? {
        return Some(NotAnObject), "";
      }
      hide Closed, SomeFull, Grows, IsIndexed, IsFirst, Taken, FieldsFit, Describes, TypedNames, SortedKeys,
           TypeDefForPrefix, StartsWithType, IsPrefix;
      ghost var start := defs;
      var collectErr, typesToAdd := CollectTypes(rootType, prefix, payload);
      if collectErr.Some? {
        return collectErr, "";
      }
      ghost var before := defs;
      var typeDef := TypeDefForPrefix(prefix, rootType);
      err, key := AddTypesToRoot(typeDef, typesToAdd);
      OneMoreKey(before, key, typesToAdd);
      if err.None? {
        NewDefinition(before, rootType, prefix, payload, typesToAdd, key);
        GrowsAgain(start, before, defs);
      } else {
        IsFull(defs, typeDef, typesToAdd);
      }
    }
  }

  lemma SanitizeKey(key: string, prefix: string, rootType: string)
    requires IsPrefix(prefix) && prefix != ROOT_PREFIX && IsIndexed(key, TypeDefForPrefix(prefix, rootType))
    ensures Sanitized(key) == key
  {
    var i :| 0 <= i < MAX_DUPLICATES && key == TypeDefWithIndex(TypeDefForPrefix(prefix, rootType), i);
    hide Sanitized;
    SanitizeAgain(prefix, i);
  }

  // ----- messages -----

  /** msgRootType: Type and the last part of the message's type name. */
  function MsgRootType(msg: Value): Option<string> {
    match Get(msg, "type")
    case Some(String(t)) => if t == "" then None else Some(TYPE_PREFIX + Split(t, '/')[|Split(t, '/')| - 1])
    case _ => None
  }

  /** msgFieldForIndex */
  function MsgField(i: nat): string { "msg" + Decimal(i) }

  /** Field number i of Tx, after its own fields, stands for message i and names a type that describes it. */
  ghost predicate TxFieldFits(defs: Defs, payload: Value, i: nat) {
    var msg := Get(payload, MsgField(i));
    && TX in defs && |TX_FIELDS| + i < |defs[TX]|
    && var f := defs[TX][|TX_FIELDS| + i];
    && f.name == MsgField(i) && msg.Some? && MsgRootType(msg.value).Some?
    && Describes(defs, MsgRootType(msg.value).value, ROOT_PREFIX, f.typ, msg.value)
  }

  ghost predicate KeepsBuiltIns(defs: Defs) {
    && (forall k :: k in BUILT_IN && k != TX ==> k in defs && defs[k] == BUILT_IN[k])
    && (forall k :: k in defs ==> k in BUILT_IN || StartsWithType(k))
  }

  /** A schema for the first n messages: closed, with the built-in types as they are but for the fields
      added to Tx, and with nothing else but what the messages gave rise to. */
  ghost predicate Schema(defs: Defs, payload: Value, n: nat) {
    && Closed(defs) && KeepsBuiltIns(defs) && TX in defs && |defs[TX]| == |TX_FIELDS| + n && TX_FIELDS <= defs[TX]
    && forall i :: 0 <= i < n ==> TxFieldFits(defs, payload, i)
  }

  lemma BuiltInFields(k: string, i: nat)
    requires k in BUILT_IN && i < |BUILT_IN[k]|
    ensures BUILT_IN[k][i].typ in {"string", "uint256", "Fee", "Coin" + "[]"}
  {
    assert "Coin[]" == "Coin" + "[]";
  }

  lemma BuiltInKnown(t: string)
    requires t in {"string", "uint256", "Fee", "Coin" + "[]"}
    ensures Known(BUILT_IN, t)
  {}

  lemma EmptySchema(payload: Value)
    ensures Schema(BUILT_IN, payload, 0)
  {
    assert TX in BUILT_IN && BUILT_IN[TX] == TX_FIELDS;
    hide BUILT_IN, Known;
    forall k, i | k in BUILT_IN && 0 <= i < |BUILT_IN[k]| ensures Known(BUILT_IN, BUILT_IN[k][i].typ) {
      BuiltInFields(k, i);
      BuiltInKnown(BUILT_IN[k][i].typ);
    }
  }

  /** addMsgTypeDefToTxSchema */
  function WithTxField(defs: Defs, f: TypeField): Defs
    requires TX in defs
  {
    defs[TX := defs[TX] + [f]]
  }

  /** One message more: its types added to the schema, then its field added to Tx. */
  lemma SchemaStep(defs: Defs, mid: Defs, payload: Value, n: nat, rootType: string, key: string)
    requires Schema(defs, payload, n) && Grows(defs, mid) && Closed(mid)
    requires Get(payload, MsgField(n)).Some? && MsgRootType(Get(payload, MsgField(n)).value) == Some(rootType)
    requires Describes(mid, rootType, ROOT_PREFIX, key, Get(payload, MsgField(n)).value)
    ensures TX in mid && Schema(WithTxField(mid, TypeField(MsgField(n), key)), payload, n + 1)
  {
    var f := TypeField(MsgField(n), key);
    var defs' := WithTxField(mid, f);
    MsgRootStarts(Get(payload, MsgField(n)).value);
    KeyIsType(key, ROOT_PREFIX, rootType);
    assert Known(mid, key) && mid[TX] == defs[TX];
    TxGrows(defs, mid, f);
    hide Closed, Known, KeepsBuiltIns, Grows, StartsWithType, MsgRootType, MsgField, IsIndexed, BUILT_IN, Describes, KeepsTypes;
    DescribesKept(mid, defs', rootType, ROOT_PREFIX, key, Get(payload, MsgField(n)).value);
    forall i | 0 <= i < n ensures TxFieldFits(defs', payload, i) {
      TxFieldKept(defs, defs', payload, i);
    }
  }

  /** The schema with one more field in Tx, all types of which are known. */
  lemma TxGrows(defs: Defs, mid: Defs, f: TypeField)
    requires TX in defs && KeepsBuiltIns(defs) && Grows(defs, mid) && Closed(mid) && Known(mid, f.typ)
    ensures var defs' := WithTxField(mid, f);
            Closed(defs') && KeepsTypes(mid, defs') && KeepsTypes(defs, defs') && KeepsBuiltIns(defs')
  {
    TxIsNoType();
    ClosedWith(mid, TX, mid[TX] + [f]);
    hide Closed, Known, StartsWithType, BUILT_IN;
  }

  lemma TxFieldKept(defs: Defs, defs': Defs, payload: Value, i: nat)
    requires TxFieldFits(defs, payload, i) && KeepsTypes(defs, defs') && TX in defs' && defs[TX] <= defs'[TX]
    ensures TxFieldFits(defs', payload, i)
  {
    hide StartsWithType, MsgRootType, MsgField, Describes, KeepsTypes;
    var msg := Get(payload, MsgField(i)).value;
    MsgRootStarts(msg);
    DescribesKept(defs, defs', MsgRootType(msg).value, ROOT_PREFIX, defs[TX][|TX_FIELDS| + i].typ, msg);
  }

  lemma MsgRootStarts(msg: Value)
    ensures MsgRootType(msg).Some? ==> StartsWithType(MsgRootType(msg).value)
  {}

  lemma TxIsNoType()
    ensures !StartsWithType(TX)
  {}

  /** The name of a message's type: what follows the last slash of its type field, which must be a string and not empty. */
  lemma MsgRootTypeOf(msg: Value, before: string, last: string)
    requires Lacks(last, '/')
    ensures last != "" && Get(msg, "type") == Some(String(last)) ==> MsgRootType(msg) == Some("Type" + last)
    ensures Get(msg, "type") == Some(String(before + ['/'] + last)) ==> MsgRootType(msg) == Some("Type" + last)
    ensures Get(msg, "type") == Some(String("")) || (forall t :: Get(msg, "type") != Some(String(t))) ==> MsgRootType(msg) == None
  {
    SplitLast(before, last, '/');
    SplitLast("", last, '/');
    hide Split;
    assert before + ['/'] + last != "";
  }

  lemma BuiltInTypes()
    ensures TX_FIELDS == [TypeField("account_number", "string"), TypeField("chain_id", "string"), TypeField("fee", "Fee"),
                          TypeField("memo", "string"), TypeField("sequence", "string")]
    ensures "Fee" in BUILT_IN && BUILT_IN["Fee"] == [TypeField("amount", "Coin[]"), TypeField("gas", "string")]
    ensures "Coin" in BUILT_IN && BUILT_IN["Coin"] == [TypeField("denom", "string"), TypeField("amount", "string")]
    ensures "EIP712Domain" in BUILT_IN
            && BUILT_IN["EIP712Domain"] == [TypeField("name", "string"), TypeField("version", "string"), TypeField("chainId", "uint256"),
                                            TypeField("verifyingContract", "string"), TypeField("salt", "string")]
    ensures BUILT_IN.Keys == {"EIP712Domain", "Tx", "Fee", "Coin"}
  {}

  /** What a schema for n messages holds: the built-in types as they are, but for one more field of Tx for each message,
      and beside them only types of messages. */
  lemma SchemaMeans(defs: Defs, payload: Value, n: nat, k: string)
    requires Schema(defs, payload, n)
    ensures "Tx" in defs && |defs["Tx"]| == 5 + n
            && defs["Tx"][..5] == [TypeField("account_number", "string"), TypeField("chain_id", "string"), TypeField("fee", "Fee"),
                                   TypeField("memo", "string"), TypeField("sequence", "string")]
    ensures "Fee" in defs && defs["Fee"] == [TypeField("amount", "Coin[]"), TypeField("gas", "string")]
    ensures "Coin" in defs && defs["Coin"] == [TypeField("denom", "string"), TypeField("amount", "string")]
    ensures "EIP712Domain" in defs
            && defs["EIP712Domain"] == [TypeField("name", "string"), TypeField("version", "string"), TypeField("chainId", "uint256"),
                                        TypeField("verifyingContract", "string"), TypeField("salt", "string")]
    ensures k in defs ==> k in {"EIP712Domain", "Tx", "Fee", "Coin"} || (|k| >= 4 && k[..4] == "Type")
  {
    BuiltInTypes();
    hide BUILT_IN, Closed, TxFieldFits;
    assert TX_FIELDS == defs["Tx"][..5];
    hide TX_FIELDS;
    assert k in BUILT_IN <==> k in BUILT_IN.Keys;
    assert "Fee" != TX && "Coin" != TX && "EIP712Domain" != TX;
  }

  /** Every type that a schema uses is primitive or defined. */
  lemma SchemaIsClosed(defs: Defs, payload: Value, n: nat, k: string, f: TypeField)
    requires Schema(defs, payload, n) && k in defs && f in defs[k]
    ensures var t := if |f.typ| >= 2 && f.typ[|f.typ| - 2..] == "[]" then f.typ[..|f.typ| - 2] else f.typ;
            t in {"bool", "int64", "string", "uint256"} || t in defs
  {
    hide KeepsBuiltIns, TxFieldFits;
    var i :| 0 <= i < |defs[k]| && defs[k][i] == f;
    assert Known(defs, defs[k][i].typ);
  }

  /** Message i of a schema, its field of Tx, and the type of each of its own fields. */
  lemma SchemaOfMessage(defs: Defs, payload: Value, n: nat, i: nat)
    requires Schema(defs, payload, n) && i < n
    ensures "Tx" in defs && |defs["Tx"]| == 5 + n && defs["Tx"][5 + i].name == "msg" + Decimal(i)
    ensures var msg := Get(payload, "msg" + Decimal(i));
            && msg.Some? && MsgRootType(msg.value).Some?
            && Describes(defs, MsgRootType(msg.value).value, "_", defs["Tx"][5 + i].typ, msg.value)
  {
    hide Describes, MsgRootType, Closed, KeepsBuiltIns;
    assert TxFieldFits(defs, payload, i);
  }

  /** Message i is there and says what type it is of. */
  predicate IsMessage(payload: Value, i: nat) {
    var msg := Get(payload, MsgField(i));
    msg.Some? && msg.value.Object? && MsgRootType(msg.value).Some?
  }

  /** It is an object under its name, with a type that is a string and not empty. */
  lemma MessageMeans(payload: Value, i: nat)
    ensures IsMessage(payload, i) <==>
            exists fields, t :: Get(payload, "msg" + Decimal(i)) == Some(Object(fields)) && t != ""
                                && Get(Object(fields), "type") == Some(String(t))
  {
    hide Split, Decimal, Lookup;
    if IsMessage(payload, i) {
      var msg := Get(payload, MsgField(i)).value;
      assert msg == Object(msg.fields) && Get(Object(msg.fields), "type") == Some(String(Get(msg, "type").value.s));
    }
  }

  /** addMsgTypesToRoot. The JSON of a field that does not exist is no object. */
  method AddMsgTypesToRoot(types: TypeMap, payload: Value, n: nat) returns (err: Option<Error>)
    requires Schema(types.defs, payload, n)
    modifies types
    ensures err.None? ==> Schema(types.defs, payload, n + 1)
    ensures err.Some? && IsMessage(payload, n) ==> err.value == TooManyDuplicates && SomeFull(types.defs)
    ensures BUILT_IN.Keys <= types.defs.Keys
    ensures IsMessage(payload, n) ==>
              |types.defs| + (if err.Some? then 1 else 0) <= |old(types.defs)| + ObjectsMet(Get(payload, MsgField(n)).value)
    ensures !IsMessage(payload, n) ==> err.Some? && err.value != TooManyDuplicates
  {
    var msg := Get(payload, MsgField(n));
    if msg.None? || !msg.value.Object? {
      return Some(NotAnObject);
    }
    var rootType := MsgRootType(msg.value);
    if rootType.None? {
      return Some(MalformedType);
    }
    MsgRootStarts(msg.value);
    ghost var before := types.defs;
    var addErr, key := types.RecursivelyAddTypesToRoot(rootType.value, ROOT_PREFIX, msg.value);
    if addErr.Some? {
      return addErr;
    }
    hide Describes, Schema, Grows, Closed, MsgRootType;
    SchemaStep(before, types.defs, payload, n, rootType.value, key);
    OneMoreKey(types.defs, TX, types.defs[TX] + [TypeField(MsgField(n), key)]);
    types.defs := WithTxField(types.defs, TypeField(MsgField(n), key));
    return None;
  }

  /** A field has a type that goes with the value of its name. */
  ghost predicate FieldHasType(defs: Defs, payload: Value, f: TypeField) {
    && Get(payload, f.name).Some?
    && match Get(payload, f.name).value
       case Null => false
       case Bool(_) => f.typ == "bool"
       case Number(_) => f.typ == "int64"
       case String(_) => f.typ == "string"
       case Object(_) => f.typ in defs
       case Array(items) =>
         if items == [] then f.typ == "string[]"
         else match items[0]
           case Bool(_) => f.typ == "bool" + "[]"
           case Number(_) => f.typ == "int64" + "[]"
           case String(_) => f.typ == "string" + "[]"
           case Object(_) => exists k :: f.typ == k + "[]" && k in defs
           case _ => false
  }

  lemma HasTypeOfValue(defs: Defs, rootType: string, prefix: string, key: string, payload: Value, f: TypeField)
    requires Describes(defs, rootType, prefix, key, payload) && f in defs[key]
    ensures FieldHasType(defs, payload, f)
  {
    DescribedType(defs, rootType, prefix, key, payload, f);
    hide FieldsFit, IsIndexed, TypedNames, SortedKeys, Get;
  }

  lemma SchemaTypes(types: Defs, payload: Value, n: nat)
    requires Schema(types, payload, n)
    ensures "Tx" in types && |types["Tx"]| == 5 + n
    ensures forall j :: 5 <= j < 5 + n ==>
              && types["Tx"][j].name == "msg" + Decimal(j - 5) && types["Tx"][j].typ in types
              && Get(payload, types["Tx"][j].name).Some?
    ensures forall j, f :: 5 <= j < 5 + n && f in types[types["Tx"][j].typ] ==>
              FieldHasType(types, Get(payload, types["Tx"][j].name).value, f)
  {
    SchemaMeans(types, payload, n, "");
    forall j | 5 <= j < 5 + n
      ensures types["Tx"][j].name == "msg" + Decimal(j - 5)
      ensures types["Tx"][j].typ in types && Get(payload, types["Tx"][j].name).Some?
    {
      SchemaOfMessage(types, payload, n, j - 5);
    }
    hide FieldHasType, Schema;
    forall j, f | 5 <= j < 5 + n && f in types[types["Tx"][j].typ]
      ensures FieldHasType(types, Get(payload, types["Tx"][j].name).value, f)
    {
      SchemaOfMessage(types, payload, n, j - 5);
      var msg := Get(payload, types["Tx"][j].name).value;
      HasTypeOfValue(types, MsgRootType(msg).value, "_", types["Tx"][j].typ, msg, f);
    }
  }

  lemma NoMessages(payload: Value)
    ensures ObjectsOfMessages(payload, 0) == 0
  {}

  lemma MessageCounts(payload: Value, n: nat)
    requires IsMessage(payload, n)
    ensures Get(payload, MsgField(n)).Some?
    ensures ObjectsOfMessages(payload, n + 1) == ObjectsOfMessages(payload, n) + ObjectsMet(Get(payload, MsgField(n)).value)
  {}

  lemma TooManyObjects(defs: Defs, payload: Value, i: nat, n: nat)
    requires SomeFull(defs) && BUILT_IN.Keys <= defs.Keys && i < n && |defs| + 1 <= 4 + ObjectsOfMessages(payload, i + 1)
    ensures ObjectsOfMessages(payload, n) > 1000
  {
    var typeDef: string :| Full(defs, typeDef);
    hide BUILT_IN, Full, ObjectsOfMessages;
    FullIsLarge(defs, typeDef);
    ObjectsOfMessagesGrows(payload, i + 1, n);
  }

  /** createEIP712Types */
  method CreateEip712Types(payload: Value, numPayloadMsgs: nat) returns (err: Option<Error>, types: Defs)
    ensures err.None? ==> Schema(types, payload, numPayloadMsgs)
    ensures err.None? ==> forall i :: 0 <= i < numPayloadMsgs ==> IsMessage(payload, i)
    ensures err.None? ==> "Tx" in types && |types["Tx"]| == 5 + numPayloadMsgs
    ensures err.None? ==> forall j :: 5 <= j < 5 + numPayloadMsgs ==>
              && types["Tx"][j].name == "msg" + Decimal(j - 5) && types["Tx"][j].typ in types
              && Get(payload, types["Tx"][j].name).Some?
    ensures err.None? ==> forall j, f :: 5 <= j < 5 + numPayloadMsgs && f in types[types["Tx"][j].typ] ==>
              && Get(Get(payload, types["Tx"][j].name).value, f.name).Some?
              && match Get(Get(payload, types["Tx"][j].name).value, f.name).value
                 case Null => false
                 case Bool(_) => f.typ == "bool"
                 case Number(_) => f.typ == "int64"
                 case String(_) => f.typ == "string"
                 case Object(_) => f.typ in types
                 case Array(items) =>
                   if items == [] then f.typ == "string[]"
                   else match items[0]
                     case Bool(_) => f.typ == "bool" + "[]"
                     case Number(_) => f.typ == "int64" + "[]"
                     case String(_) => f.typ == "string" + "[]"
                     case Object(_) => exists k :: f.typ == k + "[]" && k in types
                     case _ => false
    ensures err == Some(TooManyDuplicates) ==> ObjectsOfMessages(payload, numPayloadMsgs) > 1000
    ensures err.Some? && err.value != TooManyDuplicates ==> exists i :: 0 <= i < numPayloadMsgs && !IsMessage(payload, i)
  {
    var eip712Types := new TypeMap();
    EmptySchema(payload);
    BuiltInNames();
    hide Schema, BUILT_IN, IsMessage, SomeFull, ObjectsOfMessages, ObjectsMet, MsgField;
    NoMessages(payload);
    for i := 0 to numPayloadMsgs
      invariant Schema(eip712Types.defs, payload, i) && forall j :: 0 <= j < i ==> IsMessage(payload, j)
      invariant |eip712Types.defs| <= 4 + ObjectsOfMessages(payload, i)
    {
      err := AddMsgTypesToRoot(eip712Types, payload, i);
      if IsMessage(payload, i) { MessageCounts(payload, i); }
      if err.Some? {
        if err.value == TooManyDuplicates {
          TooManyObjects(eip712Types.defs, payload, i, numPayloadMsgs);
        }
        return err, map[];
      }
    }
    types := eip712Types.defs;
    SchemaTypes(types, payload, numPayloadMsgs);
    return None, types;
  }
}
