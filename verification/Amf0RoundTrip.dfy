/** What the AMF0 reader makes of bytes the AMF0 writer wrote: it consumes exactly those, stores what was asked for,
    and skips everything else. */
module Amf0RoundTrip {
  import opened Bytes
  import opened Options
  import opened Amf0Model

  /** `part` lies in the data at `at`. */
  predicate LiesAt(part: seq<Byte>, data: seq<Byte>, at: nat) {
    at + |part| <= |data| && data[at..at + |part|] == part
  }

  lemma LiesSplit(a: seq<Byte>, b: seq<Byte>, data: seq<Byte>, at: nat)
    requires LiesAt(a + b, data, at)
    ensures LiesAt(a, data, at) && LiesAt(b, data, at + |a|)
  {
    var s := data[at..at + |a + b|];
    assert data[at..at + |a|] == s[..|a|];
    assert data[at + |a|..at + |a| + |b|] == s[|a|..];
  }

  lemma LiesByte(b: Byte, data: seq<Byte>, at: nat)
    requires LiesAt([b], data, at)
    ensures data[at] == b
  {
    assert data[at..at + 1][0] == b;
  }

  lemma ReadsInt16(v: Int16, data: seq<Byte>, at: nat)
    requires LiesAt(BigEndian16(v), data, at)
    ensures Int16At(data, at) == v
  {
    var s := data[at..at + 2];
    assert s[0] == data[at] && s[1] == data[at + 1];
  }

  lemma ReadsInt32(v: nat, data: seq<Byte>, at: nat)
    requires v < 0x1_0000_0000 && LiesAt(BigEndian32(v), data, at)
    ensures Int32At(data, at) == v
  {
    LiesSplit(BigEndian16(v / 0x1_0000), BigEndian16(v % 0x1_0000), data, at);
    ReadsInt16(v / 0x1_0000, data, at);
    ReadsInt16(v % 0x1_0000, data, at + 2);
  }

  lemma ReadsDouble(d: Double, data: seq<Byte>, at: nat)
    requires LiesAt(Reverse(d), data, at)
    ensures DoubleAt(data, at) == d
  {
  }

  /** The item that a value is read for, if any, after the value has been stored. */
  function Delivered(item: Option<Item>, v: Value): Option<Item> {
    if item.Some? then Some(Deliver(item.value, v)) else None
  }

  lemma ReadsString(s: seq<Byte>, data: seq<Byte>, at: nat, item: Option<Item>)
    requires Writable(Str(s)) && LiesAt(Content(Str(s)), data, at)
    ensures ReadItem(data, at, KindOf(Str(s)), item) == Read(Some(at + |Content(Str(s))|), Delivered(item, Str(s)))
  {
    if |s| < 65536 {
      LiesSplit(BigEndian16(|s|), s, data, at);
      ReadsInt16(|s|, data, at);
    } else {
      LiesSplit(BigEndian32(|s|), s, data, at);
      ReadsInt32(|s|, data, at);
    }
  }

  lemma ReadsDate(v: Value, data: seq<Byte>, at: nat, item: Option<Item>)
    requires v.Date? && LiesAt(Content(v), data, at)
    ensures ReadItem(data, at, DATE, item) == Read(Some(at + |Content(v)|), Delivered(item, v))
  {
    LiesSplit(Reverse(v.milliseconds), BigEndian16(v.timezone), data, at);
    ReadsDouble(v.milliseconds, data, at);
    ReadsInt16(v.timezone, data, at + 8);
  }

  lemma ReadsScalar(v: Value, data: seq<Byte>, at: nat, item: Option<Item>)
    requires v.Number? || v.Boolean? || v.Null? || v.Undefined?
    requires LiesAt(Content(v), data, at)
    ensures ReadItem(data, at, KindOf(v), item) == Read(Some(at + |Content(v)|), Delivered(item, v))
  {
    match v
    case Number(d) => ReadsDouble(d, data, at);
    case Boolean(b) => LiesByte(if b then 1 else 0, data, at);
    case _ =>
  }

  // ----- one step of the reader, the writer and the delivery

  lemma ObjectStep(fs: Fields, data: seq<Byte>, at: nat, item: Option<Item>)
    requires WritableFields(fs) && at <= |data|
    ensures var r := ReadObject(data, at, NestedItems(item));
            ReadItem(data, at, OBJECT, item) == Read(r.at, WithNested(item, r.items))
    ensures Delivered(item, Object(fs)) == WithNested(item, DeliverFields(NestedItems(item), fs))
    ensures Content(Object(fs)) == Members(fs) + FIELDS_END && |FIELDS_END| == 3
  {
    hide ReadObject, DeliverFields, Members;
  }

  lemma EcmaArrayStep(fs: Fields, data: seq<Byte>, at: nat, item: Option<Item>)
    requires WritableFields(fs) && at + 4 <= |data|
    ensures var r := ReadObject(data, at + 4, NestedItems(item));
            ReadItem(data, at, ECMA_ARRAY, item) == Read(r.at, WithNested(item, r.items))
    ensures Delivered(item, EcmaArray(fs)) == WithNested(item, DeliverFields(NestedItems(item), fs))
    ensures Content(EcmaArray(fs)) == [0, 0, 0, 0] + (Members(fs) + FIELDS_END) && |FIELDS_END| == 3
  {
    hide ReadObject, DeliverFields, Members;
  }

  function Wanted(items: seq<Item>, i: nat): Option<Item> {
    if i < |items| then Some(items[i]) else None
  }

  lemma MemberStep(data: seq<Byte>, at: nat, items: seq<Item>, name: seq<Byte>, kind: Byte)
    requires 1 <= |name| < 65536 && at + 2 + |name| + 1 <= |data|
    requires Int16At(data, at) == |name| && LiesAt(name, data, at + 2) && data[at + 2 + |name|] == kind
    ensures var i := Requested(items, name, kind);
            var r := ReadItem(data, at + 2 + |name| + 1, kind, Wanted(items, i));
            var items' := if i < |items| then items[i := r.item.value] else items;
            ReadObject(data, at, items) == if r.at.None? then ReadMany(None, items') else ReadObject(data, r.at.value, items')
  {
    hide ReadItem, Requested, Int16At;
  }

  lemma MembersStep(fs: Fields)
    requires WritableFields(fs) && fs.Field?
    ensures WritableFields(fs.rest) && Writable(fs.value) && 1 <= |fs.name| < 65536
    ensures Members(fs) == Named(fs.name) + ([KindOf(fs.value)] + (Content(fs.value) + Members(fs.rest)))
  {
    hide Content, Named, Writable;
  }

  lemma DeliverStep(items: seq<Item>, fs: Fields)
    requires fs.Field?
    ensures var i := Requested(items, fs.name, KindOf(fs.value));
            var r := Delivered(Wanted(items, i), fs.value);
            (i < |items| ==> r.Some?) &&
            DeliverFields(items, fs) == DeliverFields(if i < |items| then items[i := r.value] else items, fs.rest)
  {
    hide Deliver, Requested;
  }

  /** The reader consumes exactly what the writer wrote, and stores what was asked for. */
  lemma {:induction false} ReadsBack(v: Value, data: seq<Byte>, at: nat, item: Option<Item>)
    requires Writable(v) && LiesAt(Content(v), data, at)
    ensures ReadItem(data, at, KindOf(v), item) == Read(Some(at + |Content(v)|), Delivered(item, v))
    decreases v, 1
  {
    if v.Str? {
      ReadsString(v.text, data, at, item);
    } else if v.Date? {
      ReadsDate(v, data, at, item);
    } else if v.Object? || v.EcmaArray? {
      assert v == (if v.Object? then Object(v.fields) else EcmaArray(v.fields));
      ReadsBackFields(v, data, at, item);
    } else {
      ReadsScalar(v, data, at, item);
    }
  }

  lemma {:induction false} ReadsBackFields(v: Value, data: seq<Byte>, at: nat, item: Option<Item>)
    requires v.Object? || v.EcmaArray?
    requires Writable(v) && LiesAt(Content(v), data, at)
    ensures ReadItem(data, at, KindOf(v), item) == Read(Some(at + |Content(v)|), Delivered(item, v))
    decreases v, 0
  {
    hide *;
    var fs := v.fields;
    WritableFieldsOf(v);
    LiesInside(Content(v), data, at);
    if v.Object? {
      ObjectStep(fs, data, at, item);
      MembersReadBack(fs, data, at, NestedItems(item));
    } else {
      EcmaArrayStep(fs, data, at, item);
      LiesSplit([0, 0, 0, 0], Members(fs) + FIELDS_END, data, at);
      MembersReadBack(fs, data, at + 4, NestedItems(item));
    }
  }

  lemma WritableFieldsOf(v: Value)
    requires (v.Object? || v.EcmaArray?) && Writable(v)
    ensures WritableFields(v.fields) && v == (if v.Object? then Object(v.fields) else EcmaArray(v.fields))
    ensures KindOf(v) == if v.Object? then OBJECT else ECMA_ARRAY
    ensures v.EcmaArray? ==> |Content(v)| >= 4
  {
  }

  lemma EndReadsBack(data: seq<Byte>, at: nat, items: seq<Item>)
    requires LiesAt(FIELDS_END, data, at)
    ensures ReadObject(data, at, items) == ReadMany(Some(at + 3), items)
  {
    var s := data[at..at + 3];
    assert s[0] == data[at] && s[1] == data[at + 1] && s[2] == data[at + 2];
  }

  /** Where the parts of the first member lie. */
  lemma MemberLies(fs: Fields, data: seq<Byte>, at: nat)
    requires WritableFields(fs) && fs.Field? && LiesAt(Members(fs) + FIELDS_END, data, at)
    ensures WritableFields(fs.rest) && Writable(fs.value) && 1 <= |fs.name| < 65536
    ensures var after := at + 2 + |fs.name|;
            && |Members(fs)| == 3 + |fs.name| + |Content(fs.value)| + |Members(fs.rest)|
            && LiesAt(BigEndian16(|fs.name|), data, at) && LiesAt(fs.name, data, at + 2)
            && LiesAt([KindOf(fs.value)], data, after)
            && LiesAt(Content(fs.value), data, after + 1)
            && LiesAt(Members(fs.rest) + FIELDS_END, data, after + 1 + |Content(fs.value)|)
  {
    hide Content, Members, LiesAt, Writable, WritableFields, Named, BigEndian16;
    MembersStep(fs);
    NamedBytes(fs.name);
    var kind, content, rest := [KindOf(fs.value)], Content(fs.value), Members(fs.rest);
    Regroup(Named(fs.name), kind, content, rest, FIELDS_END);
    LiesSplit(Named(fs.name), kind + (content + (rest + FIELDS_END)), data, at);
    LiesSplit(BigEndian16(|fs.name|), fs.name, data, at);
    LiesSplit(kind, content + (rest + FIELDS_END), data, at + 2 + |fs.name|);
    LiesSplit(content, rest + FIELDS_END, data, at + 2 + |fs.name| + 1);
  }

  lemma NamedBytes(name: seq<Byte>)
    requires |name| < 65536
    ensures Named(name) == BigEndian16(|name|) + name && |BigEndian16(|name|)| == 2
  {
  }

  lemma Regroup(a: seq<Byte>, b: seq<Byte>, c: seq<Byte>, d: seq<Byte>, e: seq<Byte>)
    ensures (a + (b + (c + d))) + e == a + (b + (c + (d + e)))
  {
  }

  lemma {:induction false} MembersReadBack(fs: Fields, data: seq<Byte>, at: nat, items: seq<Item>)
    requires WritableFields(fs) && LiesAt(Members(fs) + FIELDS_END, data, at)
    ensures ReadObject(data, at, items)
            == ReadMany(Some(at + |Members(fs)| + 3), DeliverFields(items, fs))
    decreases fs, 0
  {
    hide *;
    if fs.NoFields? {
      NoMembersReadBack(data, at, items);
    } else {
      MemberLies(fs, data, at);
      DeliverStep(items, fs);
      var kind, content := KindOf(fs.value), Content(fs.value);
      var after := at + 2 + |fs.name|;
      ReadsInt16(|fs.name|, data, at);
      LiesByte(kind, data, after);
      LiesInside(fs.name, data, at + 2);
      LiesInside([kind], data, after);
      LiesInside(content, data, after + 1);
      MemberStep(data, at, items, fs.name, kind);
      var i := Requested(items, fs.name, kind);
      ReadsBack(fs.value, data, after + 1, Wanted(items, i));
      var items' := if i < |items| then items[i := Delivered(Wanted(items, i), fs.value).value] else items;
      MembersReadBack(fs.rest, data, after + 1 + |content|, items');
    }
  }

  lemma LiesInside(part: seq<Byte>, data: seq<Byte>, at: nat)
    requires LiesAt(part, data, at)
    ensures at + |part| <= |data|
  {
  }

  lemma NoMembersReadBack(data: seq<Byte>, at: nat, items: seq<Item>)
    requires LiesAt(Members(NoFields) + FIELDS_END, data, at)
    ensures ReadObject(data, at, items) == ReadMany(Some(at + |Members(NoFields)| + 3), DeliverFields(items, NoFields))
  {
    assert Members(NoFields) + FIELDS_END == FIELDS_END;
    EndReadsBack(data, at, items);
  }

  // ----- whole messages

  function EncodeAll(values: seq<Value>): seq<Byte>
    requires forall v | v in values :: Writable(v)
  {
    if values == [] then [] else Encode(values[0]) + EncodeAll(values[1..])
  }

  function DeliverAll(items: seq<Item>, values: seq<Value>): seq<Item>
    requires |items| == |values|
  {
    if items == [] then [] else [Deliver(items[0], values[0])] + DeliverAll(items[1..], values[1..])
  }

  /** A sequence of written values is read back by as many items of their kinds. */
  lemma {:induction false} MessageReadsBack(values: seq<Value>, data: seq<Byte>, at: nat, items: seq<Item>)
    requires forall v | v in values :: Writable(v)
    requires |items| == |values|
    requires forall i | 0 <= i < |items| :: KindMatches(KindOf(values[i]), items[i].kind)
    requires LiesAt(EncodeAll(values), data, at)
    ensures ReadItems(data, at, items) == ReadMany(Some(at + |EncodeAll(values)|), DeliverAll(items, values))
    decreases |values|
  {
    hide *;
    if values == [] {
      EmptyMessage(data, at);
    } else {
      var v, rest := values[0], EncodeAll(values[1..]);
      MessageStep(values, items);
      LiesSplit([KindOf(v)], Content(v) + rest, data, at);
      LiesInside([KindOf(v)], data, at);
      LiesByte(KindOf(v), data, at);
      LiesSplit(Content(v), rest, data, at + 1);
      LiesInside(Content(v), data, at + 1);
      ReadsBack(v, data, at + 1, Some(items[0]));
      DeliveredTo(items[0], v);
      ItemsStep(data, at, items, v);
      MessageReadsBack(values[1..], data, at + 1 + |Content(v)|, items[1..]);
    }
  }

  lemma EmptyMessage(data: seq<Byte>, at: nat)
    requires LiesAt(EncodeAll([]), data, at)
    ensures at <= |data| && EncodeAll([]) == []
    ensures ReadItems(data, at, []) == ReadMany(Some(at), []) && DeliverAll([], []) == []
  {
  }

  lemma MessageStep(values: seq<Value>, items: seq<Item>)
    requires values != [] && (forall v | v in values :: Writable(v)) && |items| == |values|
    ensures Writable(values[0])
    ensures EncodeAll(values) == [KindOf(values[0])] + (Content(values[0]) + EncodeAll(values[1..]))
    ensures DeliverAll(items, values) == [Deliver(items[0], values[0])] + DeliverAll(items[1..], values[1..])
  {
    hide Content, Deliver, KindOf;
  }

  lemma DeliveredTo(item: Item, v: Value)
    ensures Delivered(Some(item), v) == Some(Deliver(item, v))
  {
  }

  lemma ItemsStep(data: seq<Byte>, at: nat, items: seq<Item>, v: Value)
    requires items != [] && at < |data| && data[at] == KindOf(v) && KindMatches(KindOf(v), items[0].kind)
    requires var r := ReadItem(data, at + 1, KindOf(v), Some(items[0])); r.at.Some? && r.item == Some(Deliver(items[0], v))
    ensures var next := ReadItem(data, at + 1, KindOf(v), Some(items[0])).at.value;
            var later := ReadItems(data, next, items[1..]);
            ReadItems(data, at, items) == ReadMany(later.at, [Deliver(items[0], v)] + later.items)
  {
    hide ReadItem, Deliver, KindMatches, KindOf;
  }

  // ----- strict arrays

  /** A strict array after its type marker: how many elements it has, and the elements. */
  function StrictArray(values: seq<Value>): seq<Byte>
    requires |values| < 0x1_0000_0000 && forall v | v in values :: Writable(v)
  {
    BigEndian32(|values|) + EncodeAll(values)
  }

  /** Element `i` goes to item `i` if that asks for its kind, for each element from the given one on. */
  function DeliverElements(items: seq<Item>, values: seq<Value>, from: nat): (r: seq<Item>)
    ensures |r| == |items|
  {
    seq(|items|, i requires 0 <= i < |items| =>
      if from <= i < |values| && KindMatches(KindOf(values[i]), items[i].kind) then Deliver(items[i], values[i]) else items[i])
  }

  lemma DeliverElement(items: seq<Item>, values: seq<Value>, from: nat)
    requires from < |values|
    ensures var wanted := from < |items| && KindMatches(KindOf(values[from]), items[from].kind);
            var items' := if wanted then items[from := Deliver(items[from], values[from])] else items;
            DeliverElements(items, values, from) == DeliverElements(items', values, from + 1)
  {
    hide Deliver, KindMatches, KindOf;
  }

  lemma ElementStep(data: seq<Byte>, at: nat, i: nat, count: nat, items: seq<Item>, v: Value)
    requires i < count && at < |data| && data[at] == KindOf(v)
    requires var wanted := if i < |items| && KindMatches(KindOf(v), items[i].kind) then Some(items[i]) else None;
             var r := ReadItem(data, at + 1, KindOf(v), wanted); r.at.Some? && r.item == Delivered(wanted, v)
    ensures var wanted := i < |items| && KindMatches(KindOf(v), items[i].kind);
            var r := ReadItem(data, at + 1, KindOf(v), if wanted then Some(items[i]) else None);
            ReadElements(data, at, i, count, items)
            == ReadElements(data, r.at.value, i + 1, count, if wanted then items[i := Deliver(items[i], v)] else items)
  {
    hide ReadItem, Deliver, KindMatches, KindOf;
  }

  lemma NoElements(data: seq<Byte>, at: nat, values: seq<Value>, items: seq<Item>)
    requires at <= |data|
    ensures ReadElements(data, at, |values|, |values|, items) == ReadMany(Some(at), DeliverElements(items, values, |values|))
  {
  }

  lemma EncodeAllStep(values: seq<Value>, i: nat)
    requires i < |values| && (forall v | v in values :: Writable(v))
    ensures (forall v | v in values[i + 1..] :: Writable(v)) && (forall v | v in values[i..] :: Writable(v))
    ensures Writable(values[i])
    ensures EncodeAll(values[i..]) == [KindOf(values[i])] + (Content(values[i]) + EncodeAll(values[i + 1..]))
  {
    hide Content, KindOf, Writable;
    assert values[i..][1..] == values[i + 1..] && values[i..][0] == values[i];
  }

  /** As many elements are read as the array has, whatever follows them, and element `i` is stored for item `i`. */
  lemma {:induction false} ElementsReadBack(values: seq<Value>, i: nat, data: seq<Byte>, at: nat, items: seq<Item>)
    requires i <= |values| && (forall v | v in values :: Writable(v)) && (forall v | v in values[i..] :: Writable(v))
    requires LiesAt(EncodeAll(values[i..]), data, at)
    ensures ReadElements(data, at, i, |values|, items)
            == ReadMany(Some(at + |EncodeAll(values[i..])|), DeliverElements(items, values, i))
    decreases |values| - i
  {
    hide *;
    LiesInside(EncodeAll(values[i..]), data, at);
    if i == |values| {
      assert values[i..] == [];
      EmptyMessage(data, at);
      NoElements(data, at, values, items);
    } else {
      var v, rest := values[i], EncodeAll(values[i + 1..]);
      EncodeAllStep(values, i);
      LiesSplit([KindOf(v)], Content(v) + rest, data, at);
      LiesInside([KindOf(v)], data, at);
      LiesByte(KindOf(v), data, at);
      LiesSplit(Content(v), rest, data, at + 1);
      LiesInside(Content(v), data, at + 1);
      var wanted := i < |items| && KindMatches(KindOf(v), items[i].kind);
      ReadsBack(v, data, at + 1, if wanted then Some(items[i]) else None);
      ElementStep(data, at, i, |values|, items, v);
      DeliverElement(items, values, i);
      ElementsReadBack(values, i + 1, data, at + 1 + |Content(v)|,
                       if wanted then items[i := Deliver(items[i], v)] else items);
    }
  }

  lemma ArrayStep(data: seq<Byte>, at: nat, item: Option<Item>)
    requires at + 4 <= |data|
    ensures var r := ReadElements(data, at + 4, 0, Int32At(data, at), NestedItems(item));
            ReadItem(data, at, STRICT_ARRAY, item) == Read(r.at, WithNested(item, r.items))
  {
    hide ReadElements;
  }

  lemma CountLies(values: seq<Value>, data: seq<Byte>, at: nat)
    requires |values| < 0x1_0000_0000 && (forall v | v in values :: Writable(v)) && LiesAt(StrictArray(values), data, at)
    ensures at + 4 <= |data| && Int32At(data, at) == |values| && LiesAt(EncodeAll(values), data, at + 4)
    ensures |StrictArray(values)| == 4 + |EncodeAll(values)|
  {
    hide EncodeAll, Int32At;
    LiesSplit(BigEndian32(|values|), EncodeAll(values), data, at);
    ReadsInt32(|values|, data, at);
  }

  /** The reader consumes a strict array of any writable values exactly, whatever follows it. */
  lemma StrictArrayReadsBack(values: seq<Value>, data: seq<Byte>, at: nat, item: Option<Item>)
    requires |values| < 0x1_0000_0000 && (forall v | v in values :: Writable(v)) && LiesAt(StrictArray(values), data, at)
    ensures ReadItem(data, at, STRICT_ARRAY, item)
            == Read(Some(at + |StrictArray(values)|), WithNested(item, DeliverElements(NestedItems(item), values, 0)))
  {
    hide *;
    CountLies(values, data, at);
    ArrayStep(data, at, item);
    assert values[0..] == values;
    ElementsReadBack(values, 0, data, at + 4, NestedItems(item));
  }

  // ----- what is stored

  /** The values of the fields that go to item `i`. */
  function FieldsFor(items: seq<Item>, fs: Fields, i: nat): seq<Value> {
    if fs.NoFields? then []
    else
      (if Requested(items, fs.name, KindOf(fs.value)) == i then [fs.value] else []) + FieldsFor(items, fs.rest, i)
  }

  function DeliverEach(item: Item, values: seq<Value>): Item
    decreases |values|
  {
    if values == [] then item else DeliverEach(Deliver(item, values[0]), values[1..])
  }

  lemma {:induction false} RequestedByName(items: seq<Item>, items': seq<Item>, name: seq<Byte>, kind: Byte)
    requires |items| == |items'|
    requires forall j | 0 <= j < |items| :: items[j].name == items'[j].name && items[j].kind == items'[j].kind
    ensures Requested(items, name, kind) == Requested(items', name, kind)
  {
    if items != [] {
      RequestedByName(items[1..], items'[1..], name, kind);
    }
  }

  lemma {:induction false} FieldsForByName(items: seq<Item>, items': seq<Item>, fs: Fields, i: nat)
    requires |items| == |items'|
    requires forall j | 0 <= j < |items| :: items[j].name == items'[j].name && items[j].kind == items'[j].kind
    ensures FieldsFor(items, fs, i) == FieldsFor(items', fs, i)
    decreases fs
  {
    if fs.Field? {
      RequestedByName(items, items', fs.name, KindOf(fs.value));
      FieldsForByName(items, items', fs.rest, i);
    }
  }

  /** Each item gets the fields of its name and kind, in order, and nothing else: fields nobody asked for are skipped,
      and items do not disturb each other. */
  lemma {:induction false} ItemGetsItsFields(items: seq<Item>, fs: Fields, i: nat)
    requires i < |items|
    ensures DeliverFields(items, fs)[i] == DeliverEach(items[i], FieldsFor(items, fs, i))
    decreases fs
  {
    if fs.Field? {
      DeliverStep(items, fs);
      var k := Requested(items, fs.name, KindOf(fs.value));
      var items' := if k < |items| then items[k := Delivered(Wanted(items, k), fs.value).value] else items;
      hide DeliverFields, Deliver, Requested;
      ItemGetsItsFields(items', fs.rest, i);
      FieldsForByName(items, items', fs.rest, i);
      var rest := FieldsFor(items, fs.rest, i);
      assert ([fs.value] + rest)[1..] == rest && [] + rest == rest;
      assert items'[i] == if k == i then Deliver(items[i], fs.value) else items[i];
    }
  }
}
