/** The key order of the published OpenAPI document (scripts/write-ui-openapi.ts). */
module OpenApiOrder {
  import opened Options
  import Decimal
  import Sorting
  import opened Sequences

  /**
   A number of JSON text: a finite double other than -0, which prints as 0. The sign of the int is that of the number,
   its absolute value the bit pattern of the magnitude (IEEE 754), so 0 stands for 0 and the order is kept.
  */
  type Double = n: int | -0x7FEF_FFFF_FFFF_FFFF <= n <= 0x7FEF_FFFF_FFFF_FFFF

  /** A value `JSON.parse` can return. An object has its keys in the order `Object.keys` lists them. */
  datatype Json =
    | Null
    | Bool(truth: bool)
    | Number(number: Double)
    | Text(text: string)
    | Array(items: seq<Json>)
    | Object(keys: seq<string>, fields: map<string, Json>)

  // ----- property order -----

  /** An array index in the sense of ECMAScript, section 6.1.7: a canonical numeral below 2^32 - 1. */
  predicate IsIndex(key: string) {
    key != "" && Decimal.AllDigits(key) && (key[0] == '0' ==> key == "0") && Decimal.Value(key) < 0xFFFF_FFFF
  }

  /** The indices are the numerals of the numbers below 2^32 - 1, as they are printed. */
  lemma IndexMeans(n: nat)
    ensures IsIndex(Decimal.Format(n)) <==> n < 4_294_967_295
    ensures !IsIndex("") && !IsIndex("01") && !IsIndex("x")
  {
    Decimal.FormatRoundTrip(n);
    assert "01"[0] == '0' && |"01"| == 2;
    assert !Decimal.IsDigit("x"[0]);
  }

  /** OrdinaryOwnPropertyKeys, ECMAScript section 10.1.11.1: indices ascending, then strings by creation. */
  predicate Before(a: string, b: string) {
    IsIndex(a) && (IsIndex(b) ==> Decimal.Value(a) < Decimal.Value(b))
  }

  /** The keys of an object after a new one is created. */
  function Created(keys: seq<string>, key: string): seq<string> {
    Sorting.Insert(Before, key, keys)
  }

  /** The keys of an object whose properties were created in the order of ks. */
  function OwnKeys(ks: seq<string>): seq<string> {
    Sorting.SortBy(Before, ks)
  }

  ghost predicate OwnOrdered(ks: seq<string>) {
    Sorting.Settled(Before, ks)
  }

  /** Names every object inherits; `in` and assignment treat them specially. */
  const PROTOTYPE_NAMES: set<string> := {
    "constructor", "hasOwnProperty", "isPrototypeOf", "propertyIsEnumerable", "toLocaleString", "toString", "valueOf",
    "__proto__", "__defineGetter__", "__defineSetter__", "__lookupGetter__", "__lookupSetter__"
  }

  ghost predicate PlainKeys(keys: seq<string>, fields: map<string, Json>) {
    && (forall k :: k in keys <==> k in fields)
    && Sorting.Distinct(keys) && OwnOrdered(keys)
    && forall k :: k in keys ==> k !in PROTOTYPE_NAMES
  }

  /** Objects list each of their own keys once, in property order, at every level. */
  ghost predicate Plain(j: Json) {
    match j
    case Array(items) => forall i :: 0 <= i < |items| ==> Plain(items[i])
    case Object(keys, fields) => PlainKeys(keys, fields) && forall k :: k in fields ==> Plain(fields[k])
    case _ => true
  }

  // ----- the reordering -----

  function Has(fields: map<string, Json>): string -> bool {
    k => k in fields
  }

  function Lacks(fields: map<string, Json>): string -> bool {
    k => k !in fields
  }

  function Shape(current: Option<Json>): Json {
    if current.Some? && current.value.Object? then current.value else Object([], map[])
  }

  function ItemAt(current: Option<Json>, i: nat): Option<Json> {
    if current.Some? && current.value.Array? && i < |current.value.items| then Some(current.value.items[i]) else None
  }

  function FieldAt(current: Option<Json>, key: string): Option<Json> {
    var shape := Shape(current);
    if key in shape.fields then Some(shape.fields[key]) else None
  }

  /** Keys of both, as the current document orders them. */
  function Shared(next: Json, current: Option<Json>): seq<string>
    requires next.Object?
  {
    Filter(Has(next.fields), Shape(current).keys)
  }

  /** Keys the current document does not have, as the new one orders them. */
  function Added(next: Json, current: Option<Json>): seq<string>
    requires next.Object?
  {
    Filter(Lacks(Shape(current).fields), next.keys)
  }

  function Reordered(next: Json, current: Option<Json>): Json {
    match next
    case Array(items) =>
      Array(seq(|items|, i requires 0 <= i < |items| => Reordered(items[i], ItemAt(current, i))))
    case Object(keys, fields) =>
      Object(OwnKeys(Shared(next, current) + Added(next, current)),
             map k | k in fields :: Reordered(fields[k], FieldAt(current, k)))
    case _ => next
  }

  method PreserveExistingObjectOrder(next: Json, current: Option<Json>) returns (r: Json)
    requires Plain(next) && (current.Some? ==> Plain(current.value))
    ensures r == Reordered(next, current)
    decreases next, 2
  {
    if next.Array? {
      r := PreserveItems(next, current);
    } else if next.Object? {
      r := PreserveFields(next, current);
    } else {
      r := next;
    }
  }

  method PreserveItems(next: Json, current: Option<Json>) returns (r: Json)
    requires next.Array? && Plain(next) && (current.Some? ==> Plain(current.value))
    ensures r == Reordered(next, current)
    decreases next, 0
  {
    var items: seq<Json> := [];
    for i := 0 to |next.items|
      invariant |items| == i
      invariant forall k :: 0 <= k < i ==> items[k] == Reordered(next.items[k], ItemAt(current, k))
    {
      var item := PreserveExistingObjectOrder(next.items[i], ItemAt(current, i));
      items := items + [item];
    }
    r := Array(items);
  }

  /** What the `ordered` record holds once the listed keys have been looked at. */
  ghost predicate Holds(fields: map<string, Json>, next: Json, current: Option<Json>, seen: seq<string>)
    requires next.Object?
  {
    && (forall k :: k in fields <==> k in next.fields && k in seen)
    && forall k :: k in fields ==> fields[k] == Reordered(next.fields[k], FieldAt(current, k))
  }

  /** The two loops of the object case: properties are created one after another. */
  method PreserveFields(next: Json, current: Option<Json>) returns (r: Json)
    requires next.Object? && Plain(next) && (current.Some? ==> Plain(current.value))
    ensures r == Reordered(next, current)
    decreases next, 1
  {
    hide Sorting.SortBy, Sorting.Insert, Filter, Holds, Plain, PlainKeys;
    var currentObject := Shape(current);
    var keys: seq<string>, fields: map<string, Json> := [], map[];
    NothingYet(next, current);
    for i := 0 to |currentObject.keys|
      invariant keys == OwnKeys(Filter(Has(next.fields), currentObject.keys[..i]))
      invariant Holds(fields, next, current, currentObject.keys[..i])
    {
      var key := currentObject.keys[i];
      ChildrenPlain(next, current, key);
      FilterStep(Has(next.fields), currentObject.keys, i);
      if key in next.fields {
        var value := PreserveExistingObjectOrder(next.fields[key], FieldAt(current, key));
        OwnKeysStep(Filter(Has(next.fields), currentObject.keys[..i]), key);
        HoldsMore(fields, next, current, currentObject.keys[..i], key);
        keys, fields := Created(keys, key), fields[key := value];
      } else {
        HoldsMore(fields, next, current, currentObject.keys[..i], key);
      }
    }
    assert currentObject.keys[..|currentObject.keys|] == currentObject.keys;
    keys, fields := AddFresh(next, current, keys, fields);
    r := Object(keys, fields);
    assert Reordered(next, current).fields == fields by { HoldsAll(fields, next, current); }
  }

  method AddFresh(next: Json, current: Option<Json>, keys0: seq<string>, fields0: map<string, Json>)
    returns (keys: seq<string>, fields: map<string, Json>)
    requires next.Object? && Plain(next) && (current.Some? ==> Plain(current.value))
    requires keys0 == OwnKeys(Shared(next, current)) && Holds(fields0, next, current, Shape(current).keys)
    ensures keys == OwnKeys(Shared(next, current) + Added(next, current))
    ensures Holds(fields, next, current, Shape(current).keys + next.keys)
    decreases next, 0
  {
    hide Plain, Reordered;
    keys, fields := keys0, fields0;
    AddingStarts(next, current, fields);
    for j := 0 to |next.keys|
      invariant Adding(next, current, j, keys, fields)
    {
      var key := next.keys[j];
      AddingStep(next, current, j, keys, fields);
      if key !in fields {
        var value := PreserveExistingObjectOrder(next.fields[key], FieldAt(current, key));
        keys, fields := Created(keys, key), fields[key := value];
      }
    }
    assert next.keys[..|next.keys|] == next.keys;
  }

  /** The second loop has looked at j keys. */
  ghost predicate Adding(next: Json, current: Option<Json>, j: nat, keys: seq<string>, fields: map<string, Json>)
    requires next.Object? && j <= |next.keys|
  {
    && keys == OwnKeys(Shared(next, current) + Filter(Lacks(Shape(current).fields), next.keys[..j]))
    && Holds(fields, next, current, Shape(current).keys + next.keys[..j])
  }

  lemma AddingStarts(next: Json, current: Option<Json>, fields: map<string, Json>)
    requires next.Object? && Holds(fields, next, current, Shape(current).keys)
    ensures Adding(next, current, 0, OwnKeys(Shared(next, current)), fields)
  {
    hide OwnKeys, Holds, Shared;
    assert next.keys[..0] == [] && Shape(current).keys + [] == Shape(current).keys;
    assert Shared(next, current) + [] == Shared(next, current);
  }

  lemma AddingStep(next: Json, current: Option<Json>, j: nat, keys: seq<string>, fields: map<string, Json>)
    requires next.Object? && Plain(next) && (current.Some? ==> Plain(current.value))
    requires j < |next.keys| && Adding(next, current, j, keys, fields)
    ensures var key := next.keys[j];
      && key in next.fields && Plain(next.fields[key])
      && (FieldAt(current, key).Some? ==> Plain(FieldAt(current, key).value))
      && if key in fields then Adding(next, current, j + 1, keys, fields)
         else
           var value := Reordered(next.fields[key], FieldAt(current, key));
           Adding(next, current, j + 1, Created(keys, key), fields[key := value])
  {
    hide OwnKeys, Created, Filter, Holds, Plain, PlainKeys, Has, Shared, Reordered;
    var key := next.keys[j];
    var past := Shape(current).keys + next.keys[..j];
    ChildrenPlain(next, current, key);
    FirstTime(next, current, j);
    FilterStep(Lacks(Shape(current).fields), next.keys, j);
    assert Shape(current).keys + next.keys[..j + 1] == past + [key];
    HoldsMore(fields, next, current, past, key);
    CreatedNext(Shared(next, current), Filter(Lacks(Shape(current).fields), next.keys[..j]), key);
  }

  lemma ChildrenPlain(next: Json, current: Option<Json>, key: string)
    requires next.Object? && Plain(next) && (current.Some? ==> Plain(current.value))
    ensures key in next.fields ==> Plain(next.fields[key])
    ensures FieldAt(current, key).Some? ==> Plain(FieldAt(current, key).value)
  {
  }

  lemma FirstTime(next: Json, current: Option<Json>, j: nat)
    requires next.Object? && Plain(next) && (current.Some? ==> Plain(current.value)) && j < |next.keys|
    ensures next.keys[j] in next.fields
    ensures next.keys[j] in Shape(current).keys + next.keys[..j] <==> next.keys[j] in Shape(current).fields
  {
    assert forall i :: 0 <= i < j ==> next.keys[i] != next.keys[j];
  }

  lemma NothingYet(next: Json, current: Option<Json>)
    requires next.Object?
    ensures Holds(map[], next, current, Shape(current).keys[..0])
    ensures OwnKeys(Filter(Has(next.fields), Shape(current).keys[..0])) == []
  {
  }

  lemma HoldsMore(fields: map<string, Json>, next: Json, current: Option<Json>, seen: seq<string>, key: string)
    requires next.Object? && Holds(fields, next, current, seen)
    ensures key in fields <==> key in next.fields && key in seen
    ensures key !in next.fields || key in fields ==> Holds(fields, next, current, seen + [key])
    ensures key in next.fields ==>
              Holds(fields[key := Reordered(next.fields[key], FieldAt(current, key))], next, current, seen + [key])
  {
  }

  lemma HoldsAll(fields: map<string, Json>, next: Json, current: Option<Json>)
    requires next.Object? && Plain(next) && Holds(fields, next, current, Shape(current).keys + next.keys)
    ensures Reordered(next, current).fields == fields
  {
    ReorderedFields(next, current);
    hide Reordered, Plain, Shape, FieldAt;
    SameEntries(fields, Reordered(next, current).fields);
  }

  lemma ReorderedFields(next: Json, current: Option<Json>)
    requires next.Object? && Plain(next)
    ensures Reordered(next, current).Object? && Reordered(next, current).fields.Keys == next.fields.Keys
    ensures forall k :: k in next.fields ==>
              Reordered(next, current).fields[k] == Reordered(next.fields[k], FieldAt(current, k))
    ensures forall k :: k in next.keys <==> k in next.fields
  {
  }

  lemma FilterStep(keep: string -> bool, ks: seq<string>, i: nat)
    requires i < |ks|
    ensures Filter(keep, ks[..i + 1]) == if keep(ks[i]) then Filter(keep, ks[..i]) + [ks[i]] else Filter(keep, ks[..i])
    ensures ks[..i + 1] == ks[..i] + [ks[i]]
  {
    hide Filter;
    assert ks[..i + 1] == ks[..i] + [ks[i]];
    FilterLast(keep, ks[..i], ks[i]);
  }

  lemma CreatedNext(a: seq<string>, b: seq<string>, key: string)
    ensures OwnKeys(a + (b + [key])) == Created(OwnKeys(a + b), key)
  {
    assert a + (b + [key]) == (a + b) + [key];
    OwnKeysStep(a + b, key);
  }

  lemma OwnKeysStep(ks: seq<string>, key: string)
    ensures OwnKeys(ks + [key]) == Created(OwnKeys(ks), key)
  {
    assert (ks + [key])[..|ks|] == ks;
  }

  // ----- the reordering keeps the meaning -----

  /** A value without the order of its keys. */
  datatype Value =
    | Scalar(value: Json)
    | List(values: seq<Value>)
    | Record(entries: map<string, Value>)

  function Meaning(j: Json): Value {
    match j
    case Array(items) => List(seq(|items|, i requires 0 <= i < |items| => Meaning(items[i])))
    case Object(_, fields) => Record(map k | k in fields :: Meaning(fields[k]))
    case _ => Scalar(j)
  }

  lemma {:induction false} ReorderKeepsMeaning(next: Json, current: Option<Json>)
    ensures Meaning(Reordered(next, current)) == Meaning(next)
  {
    match next
    case Array(items) =>
      var r := Reordered(next, current);
      forall i | 0 <= i < |items| ensures Meaning(r.items[i]) == Meaning(items[i]) {
        ReorderKeepsMeaning(items[i], ItemAt(current, i));
      }
      assert Meaning(r).values == Meaning(next).values;
    case Object(_, fields) =>
      var r := Reordered(next, current);
      forall k | k in fields ensures Meaning(r.fields[k]) == Meaning(fields[k]) {
        ReorderKeepsMeaning(fields[k], FieldAt(current, k));
      }
      assert Meaning(r).entries == Meaning(next).entries;
    case _ =>
  }

  // ----- what a level of the result looks like -----

  lemma BeforeStrict()
    ensures Sorting.Strict(Before)
  {
  }

  lemma {:induction false} FilterDistinct(keep: string -> bool, ks: seq<string>)
    requires Sorting.Distinct(ks)
    ensures Sorting.Distinct(Filter(keep, ks))
  {
    if ks != [] {
      FilterDistinct(keep, ks[..|ks| - 1]);
    }
  }

  lemma SettledAppend(ks: seq<string>, key: string)
    requires OwnOrdered(ks) && forall k :: k in ks ==> !Before(key, k)
    ensures OwnOrdered(ks + [key])
  {
  }

  lemma {:induction false} FilterOrdered(keep: string -> bool, ks: seq<string>)
    requires OwnOrdered(ks)
    ensures OwnOrdered(Filter(keep, ks))
  {
    if ks != [] {
      var past := ks[..|ks| - 1];
      FilterOrdered(keep, past);
      assert forall k :: k in past ==> !Before(ks[|ks| - 1], k);
      if keep(ks[|ks| - 1]) {
        SettledAppend(Filter(keep, past), ks[|ks| - 1]);
      } else {
        assert Filter(keep, ks) == Filter(keep, past);
      }
    }
  }

  lemma {:induction false} FilterConcat(keep: string -> bool, a: seq<string>, b: seq<string>)
    ensures Filter(keep, a + b) == Filter(keep, a) + Filter(keep, b)
  {
    if b == [] {
      assert a + b == a;
    } else {
      assert (a + b)[..|a + b| - 1] == a + b[..|b| - 1];
      FilterConcat(keep, a, b[..|b| - 1]);
    }
  }

  lemma OwnKeysFacts(ks: seq<string>)
    ensures OwnOrdered(OwnKeys(ks))
    ensures forall k :: k in OwnKeys(ks) <==> k in ks
    ensures Sorting.Distinct(ks) ==> Sorting.Distinct(OwnKeys(ks))
  {
    BeforeStrict();
    Sorting.SortSettles(Before, ks);
    Sorting.SortPermutes(Before, ks);
    Sorting.MembersOf(OwnKeys(ks), ks);
    if Sorting.Distinct(ks) {
      Sorting.PermutationDistinct(ks, OwnKeys(ks));
    }
  }

  /** The result is again an object as JavaScript builds them, so its keys print in the order modelled. */
  lemma {:induction false} ReorderedIsPlain(next: Json, current: Option<Json>)
    requires Plain(next) && (current.Some? ==> Plain(current.value))
    ensures Plain(Reordered(next, current))
  {
    match next
    case Array(items) =>
      forall i | 0 <= i < |items| ensures Plain(Reordered(next, current).items[i]) {
        ReorderedIsPlain(items[i], ItemAt(current, i));
      }
    case Object(_, fields) =>
      forall k | k in fields ensures Plain(Reordered(next, current).fields[k]) {
        ChildrenPlain(next, current, k);
        ReorderedIsPlain(fields[k], FieldAt(current, k));
      }
      LevelIsPlain(next, current);
    case _ =>
  }

  lemma DistinctConcat(a: seq<string>, b: seq<string>)
    requires Sorting.Distinct(a) && Sorting.Distinct(b) && forall k :: k in b ==> k !in a
    ensures Sorting.Distinct(a + b)
  {
    forall i, j | 0 <= i < j < |a + b| ensures (a + b)[i] != (a + b)[j] {
      assert j >= |a| ==> (a + b)[j] in b;
    }
  }

  lemma CreatedOnce(next: Json, current: Option<Json>)
    requires next.Object? && Plain(next) && (current.Some? ==> Plain(current.value))
    ensures Sorting.Distinct(Shared(next, current) + Added(next, current))
    ensures forall k :: k in Shared(next, current) + Added(next, current) <==> k in next.fields
  {
    hide Filter, Sorting.Distinct;
    FilterDistinct(Has(next.fields), Shape(current).keys);
    FilterDistinct(Lacks(Shape(current).fields), next.keys);
    DistinctConcat(Shared(next, current), Added(next, current));
  }

  lemma LevelIsPlain(next: Json, current: Option<Json>)
    requires next.Object? && Plain(next) && (current.Some? ==> Plain(current.value))
    ensures PlainKeys(Reordered(next, current).keys, Reordered(next, current).fields)
  {
    hide OwnKeys, Sorting.Distinct, OwnOrdered, Shared, Added;
    CreatedOnce(next, current);
    OwnKeysFacts(Shared(next, current) + Added(next, current));
    assert forall k :: k in next.keys <==> k in Reordered(next, current).fields;
  }

  // ----- key order -----

  ghost predicate EveryLevel(p: (Json, Option<Json>) -> bool, next: Json, current: Option<Json>) {
    match next
    case Array(items) => forall i :: 0 <= i < |items| ==> EveryLevel(p, items[i], ItemAt(current, i))
    case Object(_, fields) =>
      p(next, current) && forall k :: k in fields ==> EveryLevel(p, fields[k], FieldAt(current, k))
    case _ => true
  }

  lemma {:induction false} EveryLevelIff(p: (Json, Option<Json>) -> bool, q: (Json, Option<Json>) -> bool,
                                         next: Json, current: Option<Json>)
    requires Plain(next) && (current.Some? ==> Plain(current.value))
    requires forall n: Json, c: Option<Json> ::
               n.Object? && Plain(n) && (c.Some? ==> Plain(c.value)) ==> p(n, c) == q(n, c)
    ensures EveryLevel(p, next, current) <==> EveryLevel(q, next, current)
  {
    hide PlainKeys;
    match next
    case Array(items) =>
      forall i | 0 <= i < |items|
        ensures EveryLevel(p, items[i], ItemAt(current, i)) <==> EveryLevel(q, items[i], ItemAt(current, i))
      {
        EveryLevelIff(p, q, items[i], ItemAt(current, i));
      }
    case Object(_, fields) =>
      forall k | k in fields
        ensures EveryLevel(p, fields[k], FieldAt(current, k)) <==> EveryLevel(q, fields[k], FieldAt(current, k))
      {
        ChildrenPlain(next, current, k);
        EveryLevelIff(p, q, fields[k], FieldAt(current, k));
      }
    case _ =>
  }

  predicate IsName(key: string) {
    !IsIndex(key)
  }

  lemma FilterOne(keep: string -> bool, key: string)
    ensures Filter(keep, [key]) == if keep(key) then [key] else []
  {
    assert [key][..0] == [];
  }

  lemma {:induction false} InsertKeepsNames(key: string, ks: seq<string>)
    ensures Filter(IsName, Created(ks, key)) == Filter(IsName, ks) + if IsName(key) then [key] else []
  {
    hide Filter;
    FilterOne(IsName, key);
    if IsName(key) {
      Sorting.InsertLast(Before, key, ks);
      FilterConcat(IsName, ks, [key]);
    } else if ks == [] || Before(key, ks[0]) {
      FilterConcat(IsName, [key], ks);
    } else {
      hide IsName, Before;
      InsertKeepsNames(key, ks[1..]);
      FilterConcat(IsName, [ks[0]], Created(ks[1..], key));
      FilterConcat(IsName, [ks[0]], ks[1..]);
      assert [ks[0]] + ks[1..] == ks;
    }
  }

  lemma {:induction false} OwnKeysKeepNames(ks: seq<string>)
    ensures Filter(IsName, OwnKeys(ks)) == Filter(IsName, ks)
  {
    if ks != [] {
      OwnKeysKeepNames(ks[..|ks| - 1]);
      InsertKeepsNames(ks[|ks| - 1], OwnKeys(ks[..|ks| - 1]));
    }
  }

  /** Keys that are no indices: the shared ones as the current document has them, and the others as the new one does. */
  predicate NamesInOrder(next: Json, current: Option<Json>) {
    next.Object? ==>
      Filter(IsName, Reordered(next, current).keys)
      == Filter(IsName, Shared(next, current)) + Filter(IsName, Added(next, current))
  }

  /** The same of all keys. */
  predicate KeysInOrder(next: Json, current: Option<Json>) {
    next.Object? ==> Reordered(next, current).keys == Shared(next, current) + Added(next, current)
  }

  /** No key of the new document alone is an index that comes before some shared key. */
  ghost predicate NothingOvertakes(next: Json, current: Option<Json>) {
    next.Object? ==>
      var fields := Shape(current).fields;
      forall a, b :: a in next.keys && a !in fields && b in next.keys && b in fields ==> !Before(a, b)
  }

  lemma {:induction false} NamesKeepOrder(next: Json, current: Option<Json>)
    ensures EveryLevel(NamesInOrder, next, current)
  {
    match next
    case Array(items) =>
      forall i | 0 <= i < |items| ensures EveryLevel(NamesInOrder, items[i], ItemAt(current, i)) {
        NamesKeepOrder(items[i], ItemAt(current, i));
      }
    case Object(_, fields) =>
      forall k | k in fields ensures EveryLevel(NamesInOrder, fields[k], FieldAt(current, k)) {
        NamesKeepOrder(fields[k], FieldAt(current, k));
      }
      OwnKeysKeepNames(Shared(next, current) + Added(next, current));
      FilterConcat(IsName, Shared(next, current), Added(next, current));
    case _ =>
  }

  lemma LevelInOrder(next: Json, current: Option<Json>)
    requires next.Object? && Plain(next) && (current.Some? ==> Plain(current.value))
    ensures KeysInOrder(next, current) <==> NothingOvertakes(next, current)
  {
    var shared, added := Shared(next, current), Added(next, current);
    OwnKeysFacts(shared + added);
    FilterOrdered(Has(next.fields), Shape(current).keys);
    FilterOrdered(Lacks(Shape(current).fields), next.keys);
    OrderedConcat(shared, added);
    if OwnOrdered(shared + added) {
      Sorting.SortOfSettled(Before, shared + added);
    }
  }

  lemma OrderedConcat(a: seq<string>, b: seq<string>)
    requires OwnOrdered(a) && OwnOrdered(b)
    ensures OwnOrdered(a + b) <==> forall x, y :: x in b && y in a ==> !Before(x, y)
  {
    if OwnOrdered(a + b) {
      forall x, y | x in b && y in a ensures !Before(x, y) {
        var i :| 0 <= i < |a| && a[i] == y;
        var j :| 0 <= j < |b| && b[j] == x;
        assert (a + b)[i] == y && (a + b)[|a| + j] == x;
      }
    }
  }

  /** All keys keep that order at every level exactly when no new index overtakes a shared key anywhere. */
  lemma KeysKeepOrder(next: Json, current: Option<Json>)
    requires Plain(next) && (current.Some? ==> Plain(current.value))
    ensures EveryLevel(KeysInOrder, next, current) <==> EveryLevel(NothingOvertakes, next, current)
  {
    forall n: Json, c: Option<Json> | n.Object? && Plain(n) && (c.Some? ==> Plain(c.value))
      ensures KeysInOrder(n, c) == NothingOvertakes(n, c)
    {
      LevelInOrder(n, c);
    }
    EveryLevelIff(KeysInOrder, NothingOvertakes, next, current);
  }

  function Response(): Json {
    Object([], map[])
  }

  lemma StatusCodes()
    ensures Decimal.Value("200") == 200 && Decimal.Value("404") == 404
  {
    assert Decimal.Value("2") == 2 && Decimal.Value("20") == 20;
    assert Decimal.Value("4") == 4 && Decimal.Value("40") == 40;
  }

  function Responses(codes: seq<string>): Json {
    Object(codes, map k | k in codes :: Response())
  }

  lemma TwoPlain(a: string, b: string)
    requires a != b && !Before(b, a) && a !in PROTOTYPE_NAMES && b !in PROTOTYPE_NAMES
    ensures Plain(Responses([a, b])) && Plain(Responses([b]))
  {
    hide Before;
    assert Plain(Response());
    assert PlainKeys([a, b], Responses([a, b]).fields);
    assert PlainKeys([b], Responses([b]).fields);
  }

  /** Status codes are indices: a new "200" goes before the "404" the document has. */
  lemma NewIndexOvertakes()
    ensures var next, current := Responses(["200", "404"]), Some(Responses(["404"]));
      Plain(next) && Plain(current.value) && !KeysInOrder(next, current)
  {
    var a, b := "200", "404";
    var next, current := Responses([a, b]), Some(Responses([b]));
    assert Before(a, b) && !Before(b, a) by {
      hide Decimal.Value;
      StatusCodes();
    }
    hide Decimal.Value, Before, KeysInOrder, Plain;
    TwoPlain(a, b);
    assert a in next.keys && b in next.keys;
    assert !NothingOvertakes(next, current);
    LevelInOrder(next, current);
  }

  // ----- fixed points -----

  /** Reordering against its own output changes nothing. */
  lemma ReorderAgain(next: Json, current: Option<Json>)
    requires Plain(next) && (current.Some? ==> Plain(current.value))
    ensures Reordered(next, Some(Reordered(next, current))) == Reordered(next, current)
  {
    ReorderedIsPlain(next, current);
    ReorderKeepsMeaning(next, current);
    FixedIffSameMeaning(next, Reordered(next, current));
  }

  /** A document is left alone by its own reordering exactly when it says the same as the new one. */
  lemma {:induction false} FixedIffSameMeaning(next: Json, current: Json)
    requires Plain(next) && Plain(current)
    ensures Reordered(next, Some(current)) == current <==> Meaning(current) == Meaning(next)
  {
    ReorderKeepsMeaning(next, Some(current));
    if Meaning(current) == Meaning(next) {
      SameMeaningIsFixed(next, current);
    }
  }

  /** Equal meaning, one level down. */
  lemma MeaningParts(a: Json, b: Json)
    requires Meaning(a) == Meaning(b)
    ensures a.Array? ==> b.Array? && |a.items| == |b.items|
                         && forall i :: 0 <= i < |a.items| ==> Meaning(a.items[i]) == Meaning(b.items[i])
    ensures a.Object? ==> b.Object? && a.fields.Keys == b.fields.Keys
                          && forall k :: k in a.fields ==> Meaning(a.fields[k]) == Meaning(b.fields[k])
    ensures !a.Array? && !a.Object? ==> a == b
  {
    match a
    case Array(items) =>
      assert |Meaning(a).values| == |Meaning(b).values|;
      forall i | 0 <= i < |items| ensures Meaning(items[i]) == Meaning(b.items[i]) {
        assert Meaning(a).values[i] == Meaning(b).values[i];
      }
    case Object(_, fields) =>
      assert Meaning(a).entries.Keys == fields.Keys && Meaning(b).entries.Keys == b.fields.Keys;
      forall k | k in fields ensures Meaning(fields[k]) == Meaning(b.fields[k]) {
        assert Meaning(a).entries[k] == Meaning(b).entries[k];
      }
    case _ =>
  }

  lemma {:induction false} SameMeaningIsFixed(next: Json, current: Json)
    requires Plain(next) && Plain(current) && Meaning(current) == Meaning(next)
    ensures Reordered(next, Some(current)) == current
  {
    hide Meaning, PlainKeys, OwnKeys, Shared, Added;
    MeaningParts(next, current);
    match next
    case Array(items) =>
      forall i | 0 <= i < |items| ensures Reordered(items[i], ItemAt(Some(current), i)) == current.items[i] {
        SameMeaningIsFixed(items[i], current.items[i]);
      }
      assert Reordered(next, Some(current)).items == current.items;
    case Object(_, fields) =>
      forall k | k in fields ensures Reordered(fields[k], FieldAt(Some(current), k)) == current.fields[k] {
        SameMeaningIsFixed(fields[k], current.fields[k]);
      }
      assert Reordered(next, Some(current)).fields == current.fields;
      SameKeysAreFixed(next, current);
    case _ =>
  }

  lemma {:induction false} FilterNothing(keep: string -> bool, ks: seq<string>)
    requires forall k :: k in ks ==> !keep(k)
    ensures Filter(keep, ks) == []
  {
    if ks != [] {
      FilterNothing(keep, ks[..|ks| - 1]);
    }
  }

  lemma SameKeysAreFixed(next: Json, current: Json)
    requires next.Object? && Plain(next) && current.Object? && Plain(current) && current.fields.Keys == next.fields.Keys
    ensures Reordered(next, Some(current)).keys == current.keys
  {
    hide Filter;
    FilterAll(Has(next.fields), current.keys);
    FilterNothing(Lacks(current.fields), next.keys);
    assert current.keys + [] == current.keys;
    Sorting.SortOfSettled(Before, current.keys);
  }

  // ----- writing and checking the file -----

  /** `JSON.parse` and `JSON.stringify` with the final newline. */
  datatype JsonText = JsonText(parse: string -> Option<Json>, stringify: Json -> string)
  {
    ghost predicate Lawful() {
      forall j: Json :: Plain(j) ==> parse(stringify(j)) == Some(j)
    }
  }

  predicate Truthy(j: Json) {
    j != Null && j != Bool(false) && j != Number(0) && j != Text("")
  }

  /** What the script would write over a file with this text. */
  function Rendered(json: JsonText, spec: Json, text: string): string {
    var current := json.parse(text);
    json.stringify(if current.Some? && Truthy(current.value) then Reordered(spec, current) else spec)
  }

  predicate CheckPasses(json: JsonText, spec: Json, text: string) {
    text == Rendered(json, spec, text)
  }

  ghost predicate Readable(json: JsonText, text: string) {
    json.parse(text).Some? ==> Plain(json.parse(text).value)
  }

  /** The check passes on the files that print a document equal to the specification up to key order, and no others. */
  lemma CheckPassesIff(json: JsonText, spec: Json, text: string)
    requires json.Lawful() && spec.Object? && Plain(spec) && Readable(json, text)
    ensures CheckPasses(json, spec, text) <==>
            exists j :: Plain(j) && text == json.stringify(j) && Meaning(j) == Meaning(spec)
  {
    hide Plain, Meaning, Reordered;
    var current := json.parse(text);
    if CheckPasses(json, spec, text) {
      var j := if current.Some? && Truthy(current.value) then Reordered(spec, current) else spec;
      ReorderedIsPlain(spec, current);
      ReorderKeepsMeaning(spec, current);
      assert Plain(j) && text == json.stringify(j) && Meaning(j) == Meaning(spec);
    }
    if j :| Plain(j) && text == json.stringify(j) && Meaning(j) == Meaning(spec) {
      assert current == Some(j) && j.Object? by { MeaningParts(spec, j); }
      FixedIffSameMeaning(spec, j);
    }
  }

  /** A check right after a write passes, whatever the file held before. */
  lemma CheckAfterWrite(json: JsonText, spec: Json, text: string)
    requires json.Lawful() && spec.Object? && Plain(spec) && Readable(json, text)
    ensures CheckPasses(json, spec, Rendered(json, spec, text))
  {
    hide Plain, Meaning, Reordered;
    var current := json.parse(text);
    var j := if current.Some? && Truthy(current.value) then Reordered(spec, current) else spec;
    ReorderedIsPlain(spec, current);
    ReorderKeepsMeaning(spec, current);
    CheckPassesIff(json, spec, json.stringify(j));
  }
}
