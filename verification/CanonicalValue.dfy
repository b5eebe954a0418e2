// The canonical form of a JSON value: what canonical_value_into prints, and why the printed text
// names the value up to the order of object fields.

module CanonicalValue {
  import opened Wrappers
  import opened Ordering
  import opened Json

  const MAX_CANONICAL_VALUE_DEPTH := 32
  const MAX_CANONICAL_ARRAY_ITEMS := 1024
  const MAX_CANONICAL_OBJECT_FIELDS := 1024
  const MAX_CANONICAL_STRING_BYTES := 16 * 1024
  const MAX_CANONICAL_VALUE_BYTES := 64 * 1024

  // ---------------------------------------------------------------- specification

  function KeyOf(field: Field): string {
    field.key
  }

  function Keys(fields: seq<Field>): seq<string> {
    Map(KeyOf, fields)
  }

  predicate FieldLe(a: Field, b: Field) {
    LexLe(a.key, b.key)
  }

  // The limits of canonical_value_into on a value found at the given depth. The type it prints has no
  // numbers but signed 64-bit integers.
  predicate WithinLimits(v: Value, depth: nat)
    decreases v
  {
    && depth <= MAX_CANONICAL_VALUE_DEPTH
    && match v
       case Decimal(_) => false
       case Text(t) => |t| <= MAX_CANONICAL_STRING_BYTES
       case Array(items) =>
         && |items| <= MAX_CANONICAL_ARRAY_ITEMS
         && forall i :: 0 <= i < |items| ==> WithinLimits(items[i], depth + 1)
       case Object(fields) =>
         && |fields| <= MAX_CANONICAL_OBJECT_FIELDS
         && Distinct(Keys(fields))
         && forall i :: 0 <= i < |fields| ==>
              && 0 < |fields[i].key| <= MAX_CANONICAL_STRING_BYTES
              && WithinLimits(fields[i].value, depth + 1)
       case _ => true
  }

  // The same value with the fields of every object sorted by key.
  function Canon(v: Value): Value
    decreases v
  {
    match v
    case Array(items) => Array(CanonItems(items))
    case Object(fields) => Object(Sort(FieldLe, CanonFields(fields)))
    case _ => v
  }

  function CanonItems(items: seq<Value>): (r: seq<Value>)
    ensures |r| == |items| && forall i :: 0 <= i < |r| ==> r[i] == Canon(items[i])
    decreases items
  {
    if items == [] then [] else [Canon(items[0])] + CanonItems(items[1..])
  }

  function CanonFields(fields: seq<Field>): (r: seq<Field>)
    ensures |r| == |fields|
    ensures forall i :: 0 <= i < |r| ==> r[i] == Field(fields[i].key, Canon(fields[i].value))
    decreases fields
  {
    if fields == [] then []
    else [Field(fields[0].key, Canon(fields[0].value))] + CanonFields(fields[1..])
  }

  // canonical_value_bytes
  function CanonicalText(v: Value): Option<string> {
    if WithinLimits(v, 0) && |Render(Canon(v))| <= MAX_CANONICAL_VALUE_BYTES
    then Some(Render(Canon(v)))
    else None
  }

  // The checks the CanonicalValue deserializer adds to the JSON grammar.
  predicate Deserializable(v: Value)
    decreases v
  {
    match v
    case Decimal(_) => false
    case Array(items) =>
      && |items| <= MAX_CANONICAL_ARRAY_ITEMS
      && forall i :: 0 <= i < |items| ==> Deserializable(items[i])
    case Object(fields) =>
      && |fields| <= MAX_CANONICAL_OBJECT_FIELDS
      && Distinct(Keys(fields))
      && forall i :: 0 <= i < |fields| ==> Deserializable(fields[i].value)
    case _ => true
  }

  function Deserialize(text: string): Option<Value> {
    match ParseDocument(text)
    case Some(v) => if Deserializable(v) then Some(v) else None
    case None => None
  }

  // Equality of values up to the order of object fields, at every depth.
  ghost predicate SameUpToFieldOrder(v: Value, w: Value)
    decreases v
  {
    match (v, w)
    case (Array(items), Array(others)) =>
      && |items| == |others|
      && forall i :: 0 <= i < |items| ==> SameUpToFieldOrder(items[i], others[i])
    case (Object(fields), Object(others)) =>
      && |fields| == |others|
      && forall i :: 0 <= i < |fields| ==> HasSameField(fields[i], others)
    case _ => v == w
  }

  ghost predicate HasSameField(field: Field, others: seq<Field>)
    decreases field
  {
    exists j :: 0 <= j < |others|
      && field.key == others[j].key
      && SameUpToFieldOrder(field.value, others[j].value)
  }

  // ---------------------------------------------------------------- sorting fields

  lemma FieldOrder()
    ensures TotalPreorder(FieldLe)
  {
    LexIsTotalOrder();
    forall x: Field, y: Field ensures FieldLe(x, y) || FieldLe(y, x) { LexTotal(x.key, y.key); }
    forall x: Field, y: Field, z: Field | FieldLe(x, y) && FieldLe(y, z) ensures FieldLe(x, z) {
      LexTransitive(x.key, y.key, z.key);
    }
  }

  lemma KeysSeparateFields(fields: seq<Field>)
    requires Distinct(Keys(fields))
    ensures AntisymmetricOn(FieldLe, fields)
    ensures Distinct(fields)
  {
    forall x, y | x in fields && y in fields && FieldLe(x, y) && FieldLe(y, x) ensures x == y {
      LexTotal(x.key, y.key);
      var i :| 0 <= i < |fields| && fields[i] == x;
      var j :| 0 <= j < |fields| && fields[j] == y;
      assert Keys(fields)[i] == Keys(fields)[j];
    }
    forall i, j | 0 <= i < j < |fields| ensures fields[i] != fields[j] {
      assert Keys(fields)[i] != Keys(fields)[j];
    }
  }

  lemma SortedFieldsFacts(fields: seq<Field>)
    requires Distinct(Keys(fields))
    ensures var r := Sort(FieldLe, fields);
      && |r| == |fields| && multiset(r) == multiset(fields)
      && Sorted(FieldLe, r) && Distinct(Keys(r)) && (forall f :: f in r <==> f in fields)
  {
    var r := Sort(FieldLe, fields);
    FieldOrder();
    SortPermutes(FieldLe, fields);
    SortSorts(FieldLe, fields);
    forall f ensures f in r <==> f in fields { SameElements(r, fields, f); }
    MapPermutes(KeyOf, r, fields);
    PermutationKeepsDistinct(Keys(r), Keys(fields));
  }

  // ---------------------------------------------------------------- the canonical form

  lemma CanonFieldsKeepKeys(fields: seq<Field>)
    ensures Keys(CanonFields(fields)) == Keys(fields)
  {
    assert |Keys(CanonFields(fields))| == |Keys(fields)|;
  }

  // The canonical form obeys the same limits.
  lemma {:induction false} CanonWithinLimits(v: Value, depth: nat)
    requires WithinLimits(v, depth)
    ensures WithinLimits(Canon(v), depth)
    decreases v
  {
    match v {
      case Array(items) =>
        forall i | 0 <= i < |items| ensures WithinLimits(CanonItems(items)[i], depth + 1) {
          CanonWithinLimits(items[i], depth + 1);
        }
      case Object(fields) =>
        var sorted := Sort(FieldLe, CanonFields(fields));
        CanonFieldsKeepKeys(fields);
        SortedFieldsFacts(CanonFields(fields));
        forall i | 0 <= i < |sorted|
          ensures 0 < |sorted[i].key| <= MAX_CANONICAL_STRING_BYTES
          ensures WithinLimits(sorted[i].value, depth + 1)
        {
          assert sorted[i] in CanonFields(fields);
          var j :| 0 <= j < |fields| && CanonFields(fields)[j] == sorted[i];
          CanonWithinLimits(fields[j].value, depth + 1);
        }
      case _ =>
    }
  }

  // Sorting again changes nothing.
  lemma {:induction false} CanonIsIdempotent(v: Value, depth: nat)
    requires WithinLimits(v, depth)
    ensures Canon(Canon(v)) == Canon(v)
    decreases v
  {
    match v {
      case Array(items) =>
        forall i | 0 <= i < |items| ensures Canon(CanonItems(items)[i]) == CanonItems(items)[i] {
          CanonIsIdempotent(items[i], depth + 1);
        }
        assert CanonItems(CanonItems(items)) == CanonItems(items);
      case Object(fields) =>
        var sorted := Sort(FieldLe, CanonFields(fields));
        CanonFieldsKeepKeys(fields);
        SortedFieldsFacts(CanonFields(fields));
        forall i | 0 <= i < |sorted| ensures Canon(sorted[i].value) == sorted[i].value {
          assert sorted[i] in CanonFields(fields);
          var j :| 0 <= j < |fields| && CanonFields(fields)[j] == sorted[i];
          CanonIsIdempotent(fields[j].value, depth + 1);
        }
        assert CanonFields(sorted) == sorted;
        SortOfSorted(FieldLe, sorted);
      case _ =>
    }
  }

  lemma {:induction false} LimitsBoundNesting(v: Value, depth: nat)
    requires WithinLimits(v, depth)
    ensures Nesting(v) + depth <= MAX_CANONICAL_VALUE_DEPTH + 1
    decreases v, 0
  {
    match v {
      case Array(items) => LimitsBoundItems(items, depth + 1);
      case Object(fields) => LimitsBoundFields(fields, depth + 1);
      case _ =>
    }
  }

  lemma {:induction false} LimitsBoundItems(items: seq<Value>, depth: nat)
    requires 0 < depth <= MAX_CANONICAL_VALUE_DEPTH + 1
    requires forall i :: 0 <= i < |items| ==> WithinLimits(items[i], depth)
    ensures ItemsNesting(items) + depth <= MAX_CANONICAL_VALUE_DEPTH + 1
    decreases items, 1
  {
    if items != [] {
      LimitsBoundNesting(items[0], depth);
      LimitsBoundItems(items[1..], depth);
    }
  }

  lemma {:induction false} LimitsBoundFields(fields: seq<Field>, depth: nat)
    requires 0 < depth <= MAX_CANONICAL_VALUE_DEPTH + 1
    requires forall i :: 0 <= i < |fields| ==> WithinLimits(fields[i].value, depth)
    ensures FieldsNesting(fields) + depth <= MAX_CANONICAL_VALUE_DEPTH + 1
    decreases fields, 1
  {
    if fields != [] {
      LimitsBoundNesting(fields[0].value, depth);
      LimitsBoundFields(fields[1..], depth);
    }
  }

  lemma {:induction false} LimitsAreDeserializable(v: Value, depth: nat)
    requires WithinLimits(v, depth)
    ensures Deserializable(v)
    decreases v
  {
    match v {
      case Array(items) =>
        forall i | 0 <= i < |items| ensures Deserializable(items[i]) { LimitsAreDeserializable(items[i], depth + 1); }
      case Object(fields) =>
        forall i | 0 <= i < |fields| ensures Deserializable(fields[i].value) {
          LimitsAreDeserializable(fields[i].value, depth + 1);
        }
      case _ =>
    }
  }

  // Reading a canonical printout gives back the value with every object's fields sorted by key.
  lemma DeserializeCanonicalText(v: Value)
    requires WithinLimits(v, 0)
    ensures Deserialize(Render(Canon(v))) == Some(Canon(v))
  {
    CanonWithinLimits(v, 0);
    LimitsBoundNesting(Canon(v), 0);
    LimitsAreDeserializable(Canon(v), 0);
    ParseDocumentRendered(Canon(v));
  }

  // ---------------------------------------------------------------- equality up to field order

  lemma {:induction false} SameCanonGivesSameValue(v: Value, w: Value, depth: nat)
    requires WithinLimits(v, depth) && WithinLimits(w, depth)
    requires Canon(v) == Canon(w)
    ensures SameUpToFieldOrder(v, w)
    decreases v
  {
    if v.Array? {
      assert CanonItems(v.items) == CanonItems(w.items);
      forall i | 0 <= i < |v.items| ensures SameUpToFieldOrder(v.items[i], w.items[i]) {
        assert CanonItems(v.items)[i] == CanonItems(w.items)[i];
        SameCanonGivesSameValue(v.items[i], w.items[i], depth + 1);
      }
    } else if v.Object? {
      var a, b := CanonFields(v.fields), CanonFields(w.fields);
      SortPermutes(FieldLe, a);
      SortPermutes(FieldLe, b);
      forall i | 0 <= i < |v.fields| ensures HasSameField(v.fields[i], w.fields) {
        assert a[i] in a;
        SameElements(a, b, a[i]);
        SameCanonGivesSameField(v.fields[i], w.fields, depth + 1);
      }
    }
  }

  lemma {:induction false} SameCanonGivesSameField(field: Field, others: seq<Field>, depth: nat)
    requires WithinLimits(field.value, depth)
    requires forall j :: 0 <= j < |others| ==> WithinLimits(others[j].value, depth)
    requires Field(field.key, Canon(field.value)) in CanonFields(others)
    ensures HasSameField(field, others)
    decreases field
  {
    var j :| 0 <= j < |others| && CanonFields(others)[j] == Field(field.key, Canon(field.value));
    SameCanonGivesSameValue(field.value, others[j].value, depth);
  }

  lemma {:induction false} SameValueGivesSameCanon(v: Value, w: Value, depth: nat)
    requires WithinLimits(v, depth) && WithinLimits(w, depth)
    requires SameUpToFieldOrder(v, w)
    ensures Canon(v) == Canon(w)
    decreases v
  {
    if v.Array? {
      forall i | 0 <= i < |v.items| ensures CanonItems(v.items)[i] == CanonItems(w.items)[i] {
        SameValueGivesSameCanon(v.items[i], w.items[i], depth + 1);
      }
      assert CanonItems(v.items) == CanonItems(w.items);
    } else if v.Object? {
      forall i | 0 <= i < |v.fields| ensures CanonFields(v.fields)[i] in CanonFields(w.fields) {
        assert HasSameField(v.fields[i], w.fields);
        SameFieldGivesSameCanon(v.fields[i], w.fields, depth + 1);
      }
      CanonFieldsKeepKeys(v.fields);
      CanonFieldsKeepKeys(w.fields);
      SameFieldsSortAlike(CanonFields(v.fields), CanonFields(w.fields));
    }
  }

  lemma {:induction false} SameFieldGivesSameCanon(field: Field, others: seq<Field>, depth: nat)
    requires WithinLimits(field.value, depth)
    requires forall j :: 0 <= j < |others| ==> WithinLimits(others[j].value, depth)
    requires HasSameField(field, others)
    ensures Field(field.key, Canon(field.value)) in CanonFields(others)
    decreases field
  {
    var j :| 0 <= j < |others|
      && field.key == others[j].key
      && SameUpToFieldOrder(field.value, others[j].value);
    SameValueGivesSameCanon(field.value, others[j].value, depth);
    assert CanonFields(others)[j] == Field(field.key, Canon(field.value));
  }

  lemma SameFieldsSortAlike(a: seq<Field>, b: seq<Field>)
    requires Distinct(Keys(a)) && Distinct(Keys(b)) && |a| == |b|
    requires forall x :: x in a ==> x in b
    ensures Sort(FieldLe, a) == Sort(FieldLe, b)
  {
    KeysSeparateFields(a);
    KeysSeparateFields(b);
    InclusionGivesPermutation(a, b);
    FieldOrder();
    SortIgnoresOrder(FieldLe, a, b);
  }

  // Two values print to the same bytes exactly when they are equal up to field order.
  lemma CanonicalTextIdentifiesValue(v: Value, w: Value)
    requires WithinLimits(v, 0) && WithinLimits(w, 0)
    ensures Render(Canon(v)) == Render(Canon(w)) <==> SameUpToFieldOrder(v, w)
  {
    if Render(Canon(v)) == Render(Canon(w)) {
      DeserializeCanonicalText(v);
      DeserializeCanonicalText(w);
      SameCanonGivesSameValue(v, w, 0);
    }
    if SameUpToFieldOrder(v, w) {
      SameValueGivesSameCanon(v, w, 0);
    }
  }

  // ---------------------------------------------------------------- canonical texts

  predicate IsCanonicalText(text: string) {
    Deserialize(text).Some? && CanonicalText(Deserialize(text).value) == Some(text)
  }

  // Every printed value is a canonical text, and its reading prints to it.
  lemma CanonicalTextIsCanonical(v: Value, text: string)
    requires CanonicalText(v) == Some(text)
    ensures IsCanonicalText(text) && Deserialize(text) == Some(Canon(v))
  {
    DeserializeCanonicalText(v);
    CanonWithinLimits(v, 0);
    CanonIsIdempotent(v, 0);
  }

  lemma CanonicalTextReading(text: string)
    requires IsCanonicalText(text)
    ensures var v := Deserialize(text).value;
      Render(v) == text && WithinLimits(v, 0) && Nesting(v) <= MAX_CANONICAL_VALUE_DEPTH + 1
  {
    var v := Deserialize(text).value;
    DeserializeCanonicalText(v);
    LimitsBoundNesting(v, 0);
  }

  // A printed value is a canonical text exactly when it is within the limits, so without decimals, and
  // its fields are sorted.
  lemma PrintedIsCanonical(v: Value)
    ensures IsCanonicalText(Render(v)) <==>
      WithinLimits(v, 0) && Canon(v) == v && |Render(v)| <= MAX_CANONICAL_VALUE_BYTES
  {
    if IsCanonicalText(Render(v)) {
      CanonicalTextReading(Render(v));
      RenderIsInjective(Deserialize(Render(v)).value, v);
      RenderIsInjective(Canon(v), v);
    } else if WithinLimits(v, 0) && Canon(v) == v {
      DeserializeCanonicalText(v);
    }
  }

  // ---------------------------------------------------------------- target snapshots

  function CanonicalTexts(values: seq<Value>): (r: Option<seq<string>>)
    ensures r.Some? <==> forall i :: 0 <= i < |values| ==> CanonicalText(values[i]).Some?
    ensures r.Some? ==> |r.value| == |values|
    ensures r.Some? ==> forall i :: 0 <= i < |values| ==> CanonicalText(values[i]) == Some(r.value[i])
  {
    if values == [] then Some([])
    else
      var text :- CanonicalText(values[0]);
      var texts :- CanonicalTexts(values[1..]);
      Some([text] + texts)
  }

  function TargetsObject(texts: seq<string>): string {
    RenderObject([Entry("targets", RenderArray(texts))])
  }

  // canonical_targets_bytes: a non-empty set of distinct targets, in the order of their bytes.
  function TargetsText(targets: seq<Value>): Option<string> {
    if targets == [] then None
    else
      var texts :- CanonicalTexts(targets);
      var sorted := Sort(LexLe, texts);
      if !Distinct(sorted) || |TargetsObject(sorted)| > MAX_CANONICAL_VALUE_BYTES then None
      else Some(TargetsObject(sorted))
  }

  ghost predicate IsTargetList(texts: seq<string>) {
    && texts != [] && Sorted(LexLe, texts) && Distinct(texts)
    && (forall i :: 0 <= i < |texts| ==> IsCanonicalText(texts[i]))
    && |TargetsObject(texts)| <= MAX_CANONICAL_VALUE_BYTES
  }

  ghost predicate IsTargetsText(text: string) {
    exists texts :: IsTargetList(texts) && text == TargetsObject(texts)
  }

  ghost function Reading(text: string): Value {
    match Deserialize(text)
    case Some(v) => v
    case None => Null
  }

  lemma TargetsTextIsTargetsText(targets: seq<Value>)
    requires TargetsText(targets).Some?
    ensures IsTargetsText(TargetsText(targets).value)
  {
    var texts := CanonicalTexts(targets).value;
    var sorted := Sort(LexLe, texts);
    LexIsTotalOrder();
    SortSorts(LexLe, texts);
    SortPermutes(LexLe, texts);
    forall i | 0 <= i < |sorted| ensures IsCanonicalText(sorted[i]) {
      SameElements(sorted, texts, sorted[i]);
      var j :| 0 <= j < |texts| && texts[j] == sorted[i];
      CanonicalTextIsCanonical(targets[j], texts[j]);
    }
    assert IsTargetList(sorted);
  }

  // Printing the targets read from a snapshot gives the snapshot again.
  lemma TargetsTextOfReadings(texts: seq<string>)
    requires IsTargetList(texts)
    ensures TargetsText(Map(Reading, texts)) == Some(TargetsObject(texts))
    ensures TargetsObject(texts) == Render(Object([Field("targets", Array(Map(Reading, texts)))]))
  {
    var values := Map(Reading, texts);
    assert CanonicalTexts(values).value == texts;
    SortOfSorted(LexLe, texts);
    forall i | 0 <= i < |texts| ensures texts[i] == Render(values[i]) { CanonicalTextReading(texts[i]); }
    JoinOf(texts, values);
    RenderEntriesOf([Entry("targets", RenderArray(texts))], [Field("targets", Array(values))]);
  }

  function TextOrNothing(v: Value): string {
    match CanonicalText(v)
    case Some(text) => text
    case None => ""
  }

  // The order in which targets are given does not matter.
  lemma TargetsTextIgnoresOrder(targets: seq<Value>, others: seq<Value>)
    requires multiset(targets) == multiset(others)
    ensures TargetsText(targets) == TargetsText(others)
  {
    assert |targets| == |multiset(targets)| == |others|;
    forall v ensures v in targets <==> v in others { SameElements(targets, others, v); }
    AllCanonical(targets);
    AllCanonical(others);
    if CanonicalTexts(targets).Some? {
      assert CanonicalTexts(targets).value == Map(TextOrNothing, targets);
      assert CanonicalTexts(others).value == Map(TextOrNothing, others);
      MapPermutes(TextOrNothing, targets, others);
      LexIsTotalOrder();
      SortIgnoresOrder(LexLe, CanonicalTexts(targets).value, CanonicalTexts(others).value);
    }
  }

  lemma AllCanonical(values: seq<Value>)
    ensures CanonicalTexts(values).Some? <==> forall v :: v in values ==> CanonicalText(v).Some?
  {
    if forall v :: v in values ==> CanonicalText(v).Some? {
      forall i | 0 <= i < |values| ensures CanonicalText(values[i]).Some? { assert values[i] in values; }
    }
  }

  // ---------------------------------------------------------------- the limits in numbers

  // The value a path of positions leads to.
  function PartAt(v: Value, path: seq<nat>): Option<Value>
    decreases |path|
  {
    if path == [] then Some(v)
    else
      match v
      case Array(items) => if path[0] < |items| then PartAt(items[path[0]], path[1..]) else None
      case Object(fields) => if path[0] < |fields| then PartAt(fields[path[0]].value, path[1..]) else None
      case _ => None
  }

  // Short texts, few items, few fields with short names that differ, and no number but integers.
  predicate IsModest(v: Value) {
    match v
    case Decimal(_) => false
    case Text(t) => |t| <= 16384
    case Array(items) => |items| <= 1024
    case Object(fields) =>
      && |fields| <= 1024
      && (forall i :: 0 <= i < |fields| ==> 1 <= |fields[i].key| <= 16384)
      && forall i, j :: 0 <= i < j < |fields| ==> fields[i].key != fields[j].key
    case _ => true
  }

  ghost predicate HasModestParts(v: Value, depth: nat) {
    forall path :: PartAt(v, path).Some? ==> depth + |path| <= 32 && IsModest(PartAt(v, path).value)
  }

  // A value is printed exactly when nothing in it lies more than 32 levels deep, every part of it is
  // modest, and its text has at most 64 KiB.
  lemma PrintedExactly(v: Value)
    ensures CanonicalText(v).Some? <==> HasModestParts(v, 0) && |Render(Canon(v))| <= 65536
    ensures CanonicalText(v).Some? ==> CanonicalText(v).value == Render(Canon(v))
  {
    hide Render, Canon, HasModestParts, WithinLimits;
    LimitsExactly(v, 0);
  }

  lemma {:induction false} LimitsExactly(v: Value, depth: nat)
    ensures WithinLimits(v, depth) <==> HasModestParts(v, depth)
    decreases v
  {
    hide HasModestParts;
    TopIsModest(v, depth);
    match v {
      case Array(items) =>
        forall i | 0 <= i < |items| ensures WithinLimits(items[i], depth + 1) <==> HasModestParts(items[i], depth + 1) {
          LimitsExactly(items[i], depth + 1);
        }
        PartsOf(v, items, depth);
      case Object(fields) =>
        var values := Map((f: Field) => f.value, fields);
        forall i | 0 <= i < |fields|
          ensures WithinLimits(fields[i].value, depth + 1) <==> HasModestParts(values[i], depth + 1)
        {
          LimitsExactly(fields[i].value, depth + 1);
        }
        assert forall i :: 0 <= i < |fields| ==> Keys(fields)[i] == fields[i].key;
        PartsOf(v, values, depth);
      case _ =>
        PartsOf(v, [], depth);
    }
  }

  lemma TopIsModest(v: Value, depth: nat)
    ensures HasModestParts(v, depth) ==> depth <= 32 && IsModest(v)
  {
    hide IsModest;
    assert PartAt(v, []) == Some(v);
  }

  ghost predicate ArePartsOf(v: Value, parts: seq<Value>) {
    match v
    case Array(items) => parts == items
    case Object(fields) => |parts| == |fields| && forall i :: 0 <= i < |fields| ==> parts[i] == fields[i].value
    case _ => parts == []
  }

  lemma PartsOf(v: Value, parts: seq<Value>, depth: nat)
    requires ArePartsOf(v, parts)
    ensures HasModestParts(v, depth) <==>
      depth <= 32 && IsModest(v) && forall i :: 0 <= i < |parts| ==> HasModestParts(parts[i], depth + 1)
  {
    hide IsModest;
    if HasModestParts(v, depth) {
      TopIsModest(v, depth);
      forall i: nat, path | i < |parts| && PartAt(parts[i], path).Some?
        ensures depth + 1 + |path| <= 32 && IsModest(PartAt(parts[i], path).value)
      {
        assert ([i] + path)[1..] == path;
        assert PartAt(v, [i] + path) == PartAt(parts[i], path);
      }
    }
    if depth <= 32 && IsModest(v) && forall i :: 0 <= i < |parts| ==> HasModestParts(parts[i], depth + 1) {
      forall path | PartAt(v, path).Some? ensures depth + |path| <= 32 && IsModest(PartAt(v, path).value) {
        if path != [] {
          assert PartAt(v, path) == PartAt(parts[path[0]], path[1..]);
          assert HasModestParts(parts[path[0]], depth + 1);
        }
      }
    }
  }
}
