// The printers that append canonical bytes to an output buffer, proved against the canonical form.

module CanonicalPrinter {
  import opened Wrappers
  import opened Ordering
  import opened Json
  import opened CanonicalValue

  class ByteBuffer {
    var bytes: string

    constructor ()
      ensures bytes == ""
    {
      bytes := "";
    }

    method Extend(more: string)
      modifies this
      ensures bytes == old(bytes) + more
    {
      bytes := bytes + more;
    }
  }

  predicate EntryLe(a: Entry, b: Entry) {
    LexLe(a.key, b.key)
  }

  ghost function Entries(fields: seq<Field>): seq<Entry> {
    seq(|fields|, i requires 0 <= i < |fields| => Entry(fields[i].key, Render(fields[i].value)))
  }

  predicate HasAdjacentDuplicate(entries: seq<Entry>) {
    exists i :: 0 <= i < |entries| - 1 && entries[i].key == entries[i + 1].key
  }

  lemma {:induction false} InsertEntry(f: Field, fields: seq<Field>)
    ensures Insert(EntryLe, Entry(f.key, Render(f.value)), Entries(fields)) == Entries(Insert(FieldLe, f, fields))
  {
    if fields == [] || FieldLe(f, fields[0]) {
    } else {
      InsertEntry(f, fields[1..]);
      assert Entries(fields)[1..] == Entries(fields[1..]);
    }
  }

  // Sorting the printed fields is printing the sorted fields.
  lemma {:induction false} SortEntries(fields: seq<Field>)
    ensures Sort(EntryLe, Entries(fields)) == Entries(Sort(FieldLe, fields))
  {
    if fields == [] {
    } else {
      SortEntries(fields[1..]);
      InsertEntry(fields[0], Sort(FieldLe, fields[1..]));
      assert Entries(fields)[1..] == Entries(fields[1..]);
    }
  }

  // A sorted list whose neighbours differ has no repetition at all.
  lemma SortedNeighbours(r: seq<Field>)
    requires Sorted(FieldLe, r)
    requires forall i :: 0 <= i < |r| - 1 ==> r[i].key != r[i + 1].key
    ensures Distinct(Keys(r))
  {
    forall i, j | 0 <= i < j < |r| ensures Keys(r)[i] != Keys(r)[j] {
      assert FieldLe(r[i], r[i + 1]);
      assert i + 1 == j || FieldLe(r[i + 1], r[j]);
      LexTotal(r[i].key, r[i + 1].key);
    }
  }

  lemma NeighbourDuplicates(r: seq<Field>)
    requires Sorted(FieldLe, r)
    ensures HasAdjacentDuplicate(Entries(r)) <==> !Distinct(Keys(r))
  {
    hide Render, FieldLe;
    if Distinct(Keys(r)) {
      forall i | 0 <= i < |r| - 1 ensures Entries(r)[i].key != Entries(r)[i + 1].key {
        assert Keys(r)[i] != Keys(r)[i + 1];
      }
    } else if !HasAdjacentDuplicate(Entries(r)) {
      forall i | 0 <= i < |r| - 1 ensures r[i].key != r[i + 1].key {
        assert Entries(r)[i].key != Entries(r)[i + 1].key;
      }
      SortedNeighbours(r);
    }
  }

  lemma AdjacentDuplicates(fields: seq<Field>)
    ensures HasAdjacentDuplicate(Entries(Sort(FieldLe, fields))) <==> !Distinct(Keys(fields))
  {
    hide Sort, Distinct, Entries, HasAdjacentDuplicate;
    var r := Sort(FieldLe, fields);
    FieldOrder();
    SortSorts(FieldLe, fields);
    SortPermutes(FieldLe, fields);
    MapPermutes(KeyOf, r, fields);
    PermutationKeepsDistinct(Keys(r), Keys(fields));
    NeighbourDuplicates(r);
  }

  function Separator(index: nat): string {
    if index > 0 then "," else ""
  }

  method PushSeparator(out: ByteBuffer, index: nat)
    modifies out
    ensures out.bytes == old(out.bytes) + Separator(index)
  {
    if index > 0 {
      out.Extend(",");
    } else {
      assert out.bytes + "" == out.bytes;
    }
  }

  lemma Associate(a: string, b: string, c: string)
    ensures a + b + c == a + (b + c)
  {
  }

  lemma Regroup(a: string, b: string, c: string, d: string)
    ensures a + b + c + d == a + (b + c + d)
  {
  }

  lemma {:induction false} RenderItemsSnoc(items: seq<Value>, x: Value)
    ensures RenderItems(items + [x]) == RenderItems(items) + (Separator(|items|) + Render(x))
  {
    hide Render;
    if items == [] {
      assert items + [x] == [x];
    } else {
      RenderItemsSnoc(items[1..], x);
      assert (items + [x])[1..] == items[1..] + [x];
      Associate(Render(items[0]), ",", Render(x));
      Associate(Render(items[0]) + ",", RenderItems(items[1..]), "," + Render(x));
    }
  }

  lemma {:induction false} RenderFieldsSnoc(fields: seq<Field>, f: Field)
    ensures RenderFields(fields + [f]) == RenderFields(fields) + Separator(|fields|) + RenderField(f)
  {
    hide RenderField;
    if fields == [] {
      assert fields + [f] == [f];
    } else {
      var first, rest := RenderField(fields[0]), RenderFields(fields[1..]);
      RenderFieldsSnoc(fields[1..], f);
      assert (fields + [f])[1..] == fields[1..] + [f];
      Regroup(first + ",", rest, ",", RenderField(f));
    }
  }

  lemma NothingRendered()
    ensures RenderItems([]) == ""
  {
  }

  method PushJsonString(out: ByteBuffer, text: string)
    modifies out
    ensures out.bytes == old(out.bytes) + Quote(text)
  {
    out.Extend(Quote(text));
  }

  method CanonicalValueInto(out: ByteBuffer, value: Value, depth: nat) returns (ok: bool)
    modifies out
    ensures ok <==> WithinLimits(value, depth)
    ensures ok ==> out.bytes == old(out.bytes) + Render(Canon(value))
    decreases value, 0
  {
    if depth > MAX_CANONICAL_VALUE_DEPTH {
      return false;
    }
    match value {
      case Null => out.Extend("null");
      case Bool(flag) => out.Extend(if flag then "true" else "false");
      case Integer(number) => out.Extend(IntegerText(number));
      case Decimal(_) => return false;
      case Text(text) =>
        if |text| > MAX_CANONICAL_STRING_BYTES {
          return false;
        }
        PushJsonString(out, text);
      case Array(items) =>
        ok := CanonicalArrayInto(out, items, depth);
        return;
      case Object(fields) =>
        ok := CanonicalObjectInto(out, fields, depth);
        return;
    }
    return true;
  }

  method CanonicalArrayInto(out: ByteBuffer, items: seq<Value>, depth: nat) returns (ok: bool)
    requires depth <= MAX_CANONICAL_VALUE_DEPTH
    modifies out
    ensures ok <==> WithinLimits(Array(items), depth)
    ensures ok ==> out.bytes == old(out.bytes) + Render(Canon(Array(items)))
    decreases items, 2
  {
    if |items| > MAX_CANONICAL_ARRAY_ITEMS {
      return false;
    }
    out.Extend("[");
    ok := CanonicalItemsInto(out, items, depth + 1);
    if ok {
      out.Extend("]");
      Regroup(old(out.bytes), "[", RenderItems(CanonItems(items)), "]");
    }
  }

  method CanonicalItemsInto(out: ByteBuffer, items: seq<Value>, depth: nat) returns (ok: bool)
    modifies out
    ensures ok <==> forall k :: 0 <= k < |items| ==> WithinLimits(items[k], depth)
    ensures ok ==> out.bytes == old(out.bytes) + RenderItems(CanonItems(items))
    decreases items, 1
  {
    hide Render, Separator, RenderItems, WithinLimits, Canon;
    ghost var canon, start := CanonItems(items), old(out.bytes);
    NothingRendered();
    assert start + "" == start;
    for index := 0 to |items|
      invariant forall k :: 0 <= k < index ==> WithinLimits(items[k], depth)
      invariant out.bytes == start + RenderItems(canon[..index])
    {
      var fits := CanonicalItemInto(out, items[index], index, depth);
      if !fits {
        return false;
      }
      RenderItemsSnoc(canon[..index], canon[index]);
      Associate(start, RenderItems(canon[..index]), Separator(index) + Render(canon[index]));
      assert canon[..index + 1] == canon[..index] + [canon[index]];
    }
    assert canon[..|items|] == canon;
    return true;
  }

  method CanonicalItemInto(out: ByteBuffer, item: Value, index: nat, depth: nat) returns (ok: bool)
    modifies out
    ensures ok <==> WithinLimits(item, depth)
    ensures ok ==> out.bytes == old(out.bytes) + (Separator(index) + Render(Canon(item)))
    decreases item, 1
  {
    PushSeparator(out, index);
    ok := CanonicalValueInto(out, item, depth);
    Associate(old(out.bytes), Separator(index), Render(Canon(item)));
  }

  method CanonicalObjectInto(out: ByteBuffer, fields: seq<Field>, depth: nat) returns (ok: bool)
    requires depth <= MAX_CANONICAL_VALUE_DEPTH
    modifies out
    ensures ok <==> WithinLimits(Object(fields), depth)
    ensures ok ==> out.bytes == old(out.bytes) + Render(Canon(Object(fields)))
    decreases fields, 2
  {
    if |fields| > MAX_CANONICAL_OBJECT_FIELDS {
      return false;
    }
    var printed := PrintedFields(fields, depth + 1);
    if printed.None? {
      return false;
    }
    var normalized := Sort(EntryLe, printed.value);
    SortEntries(CanonFields(fields));
    AdjacentDuplicates(CanonFields(fields));
    CanonFieldsKeepKeys(fields);
    if HasAdjacentDuplicate(normalized) {
      return false;
    }
    WriteEntries(out, normalized, Sort(FieldLe, CanonFields(fields)));
    return true;
  }

  // The first loop: every key is checked and every value printed to a buffer of its own.
  method PrintedFields(fields: seq<Field>, depth: nat) returns (r: Option<seq<Entry>>)
    ensures r.Some? <==> forall k :: 0 <= k < |fields| ==> FieldWithinLimits(fields[k], depth)
    ensures r.Some? ==> r.value == Entries(CanonFields(fields))
    decreases fields, 1
  {
    var normalized: seq<Entry> := [];
    for index := 0 to |fields|
      invariant forall k :: 0 <= k < index ==> FieldWithinLimits(fields[k], depth)
      invariant |normalized| == index
      invariant forall k :: 0 <= k < index ==> normalized[k] == CanonEntry(fields[k])
    {
      var entry := PrintedField(fields[index], depth);
      if entry.None? {
        return None;
      }
      normalized := normalized + [entry.value];
    }
    return Some(normalized);
  }

  predicate FieldWithinLimits(field: Field, depth: nat) {
    0 < |field.key| <= MAX_CANONICAL_STRING_BYTES && WithinLimits(field.value, depth)
  }

  ghost function CanonEntry(field: Field): Entry {
    Entry(field.key, Render(Canon(field.value)))
  }

  method PrintedField(field: Field, depth: nat) returns (r: Option<Entry>)
    ensures r.Some? <==> FieldWithinLimits(field, depth)
    ensures r.Some? ==> r.value == CanonEntry(field)
    decreases field
  {
    if field.key == "" || |field.key| > MAX_CANONICAL_STRING_BYTES {
      return None;
    }
    var nested := new ByteBuffer();
    var fits := CanonicalValueInto(nested, field.value, depth);
    if !fits {
      return None;
    }
    EmptyPrefix(Render(Canon(field.value)));
    return Some(Entry(field.key, nested.bytes));
  }

  lemma EmptyPrefix(s: string)
    ensures "" + s == s
  {
  }

  method WriteEntry(out: ByteBuffer, entry: Entry, ghost field: Field)
    requires entry == Entry(field.key, Render(field.value))
    modifies out
    ensures out.bytes == old(out.bytes) + RenderField(field)
  {
    PushJsonString(out, entry.key);
    out.Extend(":");
    out.Extend(entry.text);
    Regroup(old(out.bytes), Quote(entry.key), ":", entry.text);
  }

  // The second loop: the sorted entries, between braces.
  method WriteEntries(out: ByteBuffer, entries: seq<Entry>, ghost fields: seq<Field>)
    requires entries == Entries(fields)
    modifies out
    ensures out.bytes == old(out.bytes) + ("{" + RenderFields(fields) + "}")
  {
    ghost var start := old(out.bytes) + "{";
    out.Extend("{");
    for index := 0 to |entries|
      invariant out.bytes == start + RenderFields(fields[..index])
    {
      PushSeparator(out, index);
      WriteEntry(out, entries[index], fields[index]);
      RenderFieldsSnoc(fields[..index], fields[index]);
      assert fields[..index + 1] == fields[..index] + [fields[index]];
      Regroup(start, RenderFields(fields[..index]), Separator(index), RenderField(fields[index]));
    }
    out.Extend("}");
    assert fields[..|entries|] == fields;
    Regroup(old(out.bytes), "{", RenderFields(fields), "}");
  }

  method CanonicalValueBytes(value: Value) returns (r: Option<string>)
    ensures r == CanonicalText(value)
  {
    var out := new ByteBuffer();
    var ok := CanonicalValueInto(out, value, 0);
    EmptyPrefix(Render(Canon(value)));
    if !ok || |out.bytes| > MAX_CANONICAL_VALUE_BYTES {
      return None;
    }
    return Some(out.bytes);
  }

  // ---------------------------------------------------------------- target snapshots

  predicate HasAdjacentEqual(texts: seq<string>) {
    exists i :: 0 <= i < |texts| - 1 && texts[i] == texts[i + 1]
  }

  lemma SortedAdjacent(texts: seq<string>)
    requires Sorted(LexLe, texts)
    ensures HasAdjacentEqual(texts) <==> !Distinct(texts)
  {
    if !HasAdjacentEqual(texts) {
      forall i, j | 0 <= i < j < |texts| ensures texts[i] != texts[j] {
        assert LexLe(texts[i], texts[i + 1]);
        assert i + 1 == j || LexLe(texts[i + 1], texts[j]);
        LexTotal(texts[i], texts[i + 1]);
      }
    }
  }

  lemma {:induction false} JoinSnoc(texts: seq<string>, x: string)
    ensures Join(texts + [x]) == Join(texts) + (Separator(|texts|) + x)
  {
    if texts == [] {
      assert texts + [x] == [x];
    } else {
      JoinSnoc(texts[1..], x);
      assert (texts + [x])[1..] == texts[1..] + [x];
      Associate(texts[0], ",", x);
      Associate(texts[0] + ",", Join(texts[1..]), "," + x);
    }
  }

  const TARGETS_OPEN := "{\"targets\":["

  lemma TargetsPrefix()
    ensures "{" + (Quote("targets") + ":" + "[") == TARGETS_OPEN
  {
    EscapedPlain("targets");
  }

  lemma {:induction false} EscapedPlain(t: string)
    requires forall i :: 0 <= i < |t| ==> 'a' <= t[i] <= 'z'
    ensures Escape(t) == t
  {
    if t != "" {
      EscapedPlain(t[1..]);
      assert t == [t[0]] + t[1..];
    }
  }

  lemma TargetsParts(name: string, list: string)
    ensures "{" + (name + ":" + "[") + list + "]}" == "{" + (name + ":" + ("[" + list + "]")) + "}"
  {
  }

  lemma TargetsObjectText(texts: seq<string>)
    ensures TargetsObject(texts) == TARGETS_OPEN + Join(texts) + "]}"
  {
    hide Quote, Join;
    TargetsPrefix();
    TargetsParts(Quote("targets"), Join(texts));
  }

  // canonical_targets_bytes
  method CanonicalTargetsBytes(targets: seq<Value>) returns (r: Option<string>)
    ensures r == TargetsText(targets)
  {
    hide Join, TargetsObject, CanonicalText, Distinct;
    if targets == [] {
      return None;
    }
    var texts: seq<string> := [];
    for index := 0 to |targets|
      invariant |texts| == index
      invariant forall k :: 0 <= k < index ==> CanonicalText(targets[k]) == Some(texts[k])
    {
      var text := CanonicalValueBytes(targets[index]);
      if text.None? {
        return None;
      }
      texts := texts + [text.value];
    }
    assert texts == CanonicalTexts(targets).value;
    texts := Sort(LexLe, texts);
    LexIsTotalOrder();
    SortSorts(LexLe, CanonicalTexts(targets).value);
    SortedAdjacent(texts);
    if HasAdjacentEqual(texts) {
      return None;
    }
    var out := WriteTargets(texts);
    if |out| > MAX_CANONICAL_VALUE_BYTES {
      return None;
    }
    return Some(out);
  }

  method WriteTargets(texts: seq<string>) returns (bytes: string)
    ensures bytes == TargetsObject(texts)
  {
    hide Join;
    var out := new ByteBuffer();
    out.Extend(TARGETS_OPEN);
    EmptyPrefix(TARGETS_OPEN);
    NothingJoined();
    for index := 0 to |texts|
      invariant out.bytes == TARGETS_OPEN + Join(texts[..index])
    {
      PushSeparator(out, index);
      out.Extend(texts[index]);
      JoinSnoc(texts[..index], texts[index]);
      assert texts[..index + 1] == texts[..index] + [texts[index]];
      Associate(TARGETS_OPEN + Join(texts[..index]), Separator(index), texts[index]);
      Associate(TARGETS_OPEN, Join(texts[..index]), Separator(index) + texts[index]);
    }
    out.Extend("]}");
    assert texts[..|texts|] == texts;
    TargetsObjectText(texts);
    return out.bytes;
  }

  lemma NothingJoined()
    ensures TARGETS_OPEN + Join([]) == TARGETS_OPEN
  {
  }
}
