/** What the AMF0 reader makes of data it was not written for: data cut short, values of other kinds than those asked for, and
    any bytes at all. */
module Amf0Malformed {
  import opened Bytes
  import opened Options
  import opened Amf0Model
  import opened Amf0RoundTrip

  // ----- data cut short

  /** The data ends inside `part`, which starts at `at`, after `n` bytes of it. */
  predicate EndsInside(part: seq<Byte>, data: seq<Byte>, at: nat, n: nat) {
    n < |part| && |data| == at + n && data[at..] == part[..n]
  }

  lemma CutSplit(a: seq<Byte>, b: seq<Byte>, data: seq<Byte>, at: nat, n: nat)
    requires EndsInside(a + b, data, at, n)
    ensures if n < |a| then EndsInside(a, data, at, n) else LiesAt(a, data, at) && EndsInside(b, data, at + |a|, n - |a|)
  {
    var s := data[at..];
    if n < |a| {
      assert (a + b)[..n] == a[..n];
    } else {
      assert (a + b)[..n] == a + b[..n - |a|];
      assert s[..|a|] == data[at..at + |a|];
      assert s[|a|..] == data[at + |a|..];
    }
  }

  /** The data ends after the first byte of the length of a name, and that byte is an end marker. */
  predicate CutAtNine(fs: Fields, n: nat)
    requires WritableFields(fs)
    decreases fs
  {
    fs.Field? &&
    var size := 3 + |fs.name| + |Content(fs.value)|;
    if n == 1 then |fs.name| / 256 == 9 else n >= size && CutAtNine(fs.rest, n - size)
  }

  /** The same for the members of the value itself; those of values inside it do not count. */
  predicate CutInMembers(v: Value, n: nat)
    requires Writable(v)
  {
    match v
    case Object(fs) => CutAtNine(fs, n)
    case EcmaArray(fs) => n >= 4 && CutAtNine(fs, n - 4)
    case _ => false
  }

  function EndIf(cut: bool, data: seq<Byte>): Option<nat> {
    if cut then Some(|data|) else None
  }

  lemma CutScalar(v: Value, data: seq<Byte>, at: nat, n: nat, item: Option<Item>)
    requires !v.Object? && !v.EcmaArray? && Writable(v) && EndsInside(Content(v), data, at, n)
    ensures ReadItem(data, at, KindOf(v), item).at == None
  {
    match v
    case Str(s) => CutString(s, data, at, n, item);
    case _ =>
  }

  lemma CutString(s: seq<Byte>, data: seq<Byte>, at: nat, n: nat, item: Option<Item>)
    requires Writable(Str(s)) && EndsInside(Content(Str(s)), data, at, n)
    ensures ReadItem(data, at, KindOf(Str(s)), item).at == None
  {
    hide Int16At, Int32At, StoreText;
    if |s| < 65536 {
      CutSplit(BigEndian16(|s|), s, data, at, n);
      if n >= 2 {
        ReadsInt16(|s|, data, at);
      }
    } else {
      CutSplit(BigEndian32(|s|), s, data, at, n);
      if n >= 4 {
        ReadsInt32(|s|, data, at);
      }
    }
  }

  lemma NothingLeft(data: seq<Byte>, items: seq<Item>)
    ensures ReadObject(data, |data|, items).at == None
  {
  }

  lemma CutEnd(data: seq<Byte>, at: nat, n: nat, items: seq<Item>)
    requires EndsInside(FIELDS_END, data, at, n)
    ensures ReadObject(data, at, items).at == None
  {
    assert forall i | 0 <= i < n :: data[at + i] == data[at..][i] == FIELDS_END[i];
  }

  /** The parts of the first member that are there. */
  lemma CutMember(fs: Fields, data: seq<Byte>, at: nat, n: nat)
    requires WritableFields(fs) && fs.Field? && EndsInside(Members(fs) + FIELDS_END, data, at, n)
    ensures WritableFields(fs.rest) && Writable(fs.value) && 1 <= |fs.name| < 65536 && at <= |data| == at + n
    ensures var after, size := at + 2 + |fs.name|, 3 + |fs.name| + |Content(fs.value)|;
            && (n == 1 ==> data[at] == |fs.name| / 256)
            && (n >= 2 ==> LiesAt(BigEndian16(|fs.name|), data, at))
            && (n >= 3 + |fs.name| ==> LiesAt(fs.name, data, at + 2) && LiesAt([KindOf(fs.value)], data, after))
            && (3 + |fs.name| <= n < size ==> EndsInside(Content(fs.value), data, after + 1, n - 3 - |fs.name|))
            && (n >= size ==> LiesAt(Content(fs.value), data, after + 1)
                              && EndsInside(Members(fs.rest) + FIELDS_END, data, at + size, n - size))
  {
    hide Content, Members, LiesAt, Writable, WritableFields, Named, BigEndian16;
    MembersStep(fs);
    NamedBytes(fs.name);
    var kind, content, rest := [KindOf(fs.value)], Content(fs.value), Members(fs.rest);
    Regroup(Named(fs.name), kind, content, rest, FIELDS_END);
    var length := BigEndian16(|fs.name|);
    assert length + fs.name + (kind + (content + (rest + FIELDS_END))) == length + (fs.name + (kind + (content + (rest + FIELDS_END))));
    CutSplit(length, fs.name + (kind + (content + (rest + FIELDS_END))), data, at, n);
    if n == 1 {
      FirstOf(|fs.name|, data, at);
    } else if n >= 2 {
      CutSplit(fs.name, kind + (content + (rest + FIELDS_END)), data, at + 2, n - 2);
      if n >= 2 + |fs.name| {
        CutSplit(kind, content + (rest + FIELDS_END), data, at + 2 + |fs.name|, n - 2 - |fs.name|);
        if n >= 3 + |fs.name| {
          CutSplit(content, rest + FIELDS_END, data, at + 3 + |fs.name|, n - 3 - |fs.name|);
        }
      }
    }
  }

  lemma FirstOf(v: Int16, data: seq<Byte>, at: nat)
    requires EndsInside(BigEndian16(v), data, at, 1)
    ensures data[at] == v / 256
  {
    assert data[at..][0] == BigEndian16(v)[..1][0];
  }

  lemma OneByteLeft(data: seq<Byte>, at: nat, items: seq<Item>)
    requires |data| == at + 1
    ensures ReadObject(data, at, items).at == EndIf(data[at] == 9, data)
  {
  }

  lemma NameCut(data: seq<Byte>, at: nat, len: nat, items: seq<Item>)
    requires at + 2 <= |data| < at + 3 + len && len > 0 && Int16At(data, at) == len
    ensures ReadObject(data, at, items).at == None
  {
  }

  lemma CutAtNineStep(fs: Fields, n: nat)
    requires WritableFields(fs) && fs.Field?
    ensures WritableFields(fs.rest) && Writable(fs.value)
    ensures var size := 3 + |fs.name| + |Content(fs.value)|;
            CutAtNine(fs, n) <==> if n == 1 then |fs.name| / 256 == 9 else n >= size && CutAtNine(fs.rest, n - size)
  {
    hide Content;
  }

  lemma {:induction false} CutMembers(fs: Fields, data: seq<Byte>, at: nat, n: nat, items: seq<Item>)
    requires WritableFields(fs) && EndsInside(Members(fs) + FIELDS_END, data, at, n)
    ensures at <= |data| && ReadObject(data, at, items).at == EndIf(CutAtNine(fs, n), data)
    decreases fs, 1
  {
    if fs.NoFields? {
      assert Members(fs) + FIELDS_END == FIELDS_END;
      CutEnd(data, at, n, items);
    } else {
      hide *;
      CutMember(fs, data, at, n);
      CutAtNineStep(fs, n);
      if n == 0 {
        NothingLeft(data, items);
        Ended(data);
      } else if n == 1 {
        OneByteLeft(data, at, items);
      } else {
        ReadsInt16(|fs.name|, data, at);
        if n < 3 + |fs.name| {
          NameCut(data, at, |fs.name|, items);
          Ended(data);
        } else {
          CutAfterName(fs, data, at, n, items);
        }
      }
    }
  }

  lemma WantedIs(items: seq<Item>, i: nat)
    ensures Wanted(items, i).Some? <==> i < |items|
  {
  }

  lemma Ended(data: seq<Byte>)
    ensures EndIf(false, data) == None
  {
  }

  lemma EndsOrNot(data: seq<Byte>, cut: bool)
    ensures EndIf(cut, data) == None || EndIf(cut, data) == Some(|data|)
    ensures EndIf(false, data) == None
  {
  }

  lemma {:induction false} CutAfterName(fs: Fields, data: seq<Byte>, at: nat, n: nat, items: seq<Item>)
    requires WritableFields(fs) && fs.Field? && EndsInside(Members(fs) + FIELDS_END, data, at, n) && n >= 3 + |fs.name|
    ensures at <= |data| && ReadObject(data, at, items).at == EndIf(CutAtNine(fs, n), data)
    decreases fs, 0
  {
    hide *;
    CutMember(fs, data, at, n);
    CutAtNineStep(fs, n);
    var kind, content, after := KindOf(fs.value), Content(fs.value), at + 2 + |fs.name|;
    ReadsInt16(|fs.name|, data, at);
    LiesByte(kind, data, after);
    MemberStep(data, at, items, fs.name, kind);
    var i := Requested(items, fs.name, kind);
    var r := ReadItem(data, after + 1, kind, Wanted(items, i));
    WantedIs(items, i);
    var items' := if i < |items| then items[i := r.item.value] else items;
    if n >= 3 + |fs.name| + |content| {
      ReadsBack(fs.value, data, after + 1, Wanted(items, i));
      CutMembers(fs.rest, data, after + 1 + |content|, n - 3 - |fs.name| - |content|, items');
    } else {
      CutValue(fs.value, data, after + 1, n - 3 - |fs.name|, Wanted(items, i));
      NothingLeft(data, items');
      EndsOrNot(data, CutInMembers(fs.value, n - 3 - |fs.name|));
    }
  }

  /** A value cut short is rejected, whatever was asked for, unless it is an object, or an ECMA array, cut behind the first byte of
      the length of one of its own names, and that byte is 9, as with names of 2304 to 2559 bytes: then it passes for whole. */
  lemma {:induction false} CutValue(v: Value, data: seq<Byte>, at: nat, n: nat, item: Option<Item>)
    requires Writable(v) && EndsInside(Content(v), data, at, n)
    ensures at <= |data| && ReadItem(data, at, KindOf(v), item).at == EndIf(CutInMembers(v, n), data)
    decreases v, 2
  {
    hide *;
    if v.Object? || v.EcmaArray? {
      WritableFieldsOf(v);
      CutNested(v, data, at, n, item);
    } else {
      CutScalar(v, data, at, n, item);
      NoMembersToCut(v, n, data);
      EndsAt(Content(v), data, at, n);
    }
  }

  lemma {:induction false} CutNested(v: Value, data: seq<Byte>, at: nat, n: nat, item: Option<Item>)
    requires (v.Object? || v.EcmaArray?) && Writable(v) && EndsInside(Content(v), data, at, n)
    ensures at <= |data| && ReadItem(data, at, KindOf(v), item).at == EndIf(CutInMembers(v, n), data)
    decreases v, 1
  {
    hide *;
    WritableFieldsOf(v);
    EndsAt(Content(v), data, at, n);
    MembersCut(v, n);
    var fs := v.fields;
    if v.Object? {
      ObjectStep(fs, data, at, item);
      CutMembers(fs, data, at, n, NestedItems(item));
    } else if n >= 4 {
      EcmaArrayStep(fs, data, at, item);
      CutSplit([0, 0, 0, 0], Members(fs) + FIELDS_END, data, at, n);
      CutMembers(fs, data, at + 4, n - 4, NestedItems(item));
    } else {
      CutLength(data, at, item);
      Ended(data);
    }
  }

  lemma MembersCut(v: Value, n: nat)
    requires (v.Object? || v.EcmaArray?) && Writable(v)
    ensures WritableFields(v.fields)
    ensures CutInMembers(v, n) <==> if v.Object? then CutAtNine(v.fields, n) else n >= 4 && CutAtNine(v.fields, n - 4)
    ensures v.EcmaArray? ==> Content(v) == [0, 0, 0, 0] + (Members(v.fields) + FIELDS_END)
  {
    hide CutAtNine, Members;
  }

  lemma CutLength(data: seq<Byte>, at: nat, item: Option<Item>)
    requires at <= |data| < at + 4
    ensures ReadItem(data, at, ECMA_ARRAY, item).at == None
  {
  }

  lemma NoMembersToCut(v: Value, n: nat, data: seq<Byte>)
    requires !v.Object? && !v.EcmaArray? && Writable(v)
    ensures EndIf(CutInMembers(v, n), data) == None
  {
  }

  /** One byte of an object whose first name has 2304 bytes passes for a whole object. */
  lemma CutObjectPasses()
    ensures var v := Object(Field(seq(2304, (_: nat) => 97), Null, NoFields));
            && Writable(v) && EndsInside(Content(v), [9], 0, 1)
            && ReadItem([9], 0, OBJECT, None).at == Some(1)
  {
    var name: seq<Byte> := seq(2304, (_: nat) => 97);
    var fs := Field(name, Null, NoFields);
    assert Writable(Null) && WritableFields(NoFields) && WritableFields(fs);
    MembersStep(fs);
    NamedBytes(name);
    FirstByteIsNine(name);
    var rest := [NULL] + (Content(Null) + Members(NoFields));
    assert Members(fs) == Named(name) + rest;
    assert Content(Object(fs)) == Members(fs) + FIELDS_END;
    hide *;
    assert (Named(name) + rest + FIELDS_END)[0] == 9;
    OneByteOf(Content(Object(fs)));
    OneByteLeft([9], 0, []);
    ReadsTheObject();
  }

  lemma FirstByteIsNine(name: seq<Byte>)
    requires |name| == 2304
    ensures Named(name) != [] && Named(name)[0] == 9
  {
  }

  lemma OneByteOf(part: seq<Byte>)
    requires |part| > 1 && part[0] == 9
    ensures EndsInside(part, [9], 0, 1)
  {
  }

  lemma ReadsTheObject()
    ensures ReadItem([9], 0, OBJECT, None).at == Some(1)
  {
  }

  // ----- whole messages cut short

  /** The data ends between two values, or as above inside one. */
  predicate CutPasses(values: seq<Value>, n: nat)
    requires forall v | v in values :: Writable(v)
    decreases |values|
  {
    n == 0 || (values != [] &&
               var size := |Encode(values[0])|;
               if n < size then CutInMembers(values[0], n - 1) else CutPasses(values[1..], n - size))
  }

  lemma CutFirst(values: seq<Value>, data: seq<Byte>, at: nat, n: nat)
    requires values != [] && (forall v | v in values :: Writable(v)) && EndsInside(EncodeAll(values), data, at, n)
    ensures var v, size := values[0], |Encode(values[0])|;
            && Writable(v) && size == 1 + |Content(v)| && at <= |data| == at + n
            && (n > 0 ==> LiesAt([KindOf(v)], data, at))
            && (0 < n < size ==> EndsInside(Content(v), data, at + 1, n - 1))
            && (n >= size ==> LiesAt(Content(v), data, at + 1) && EndsInside(EncodeAll(values[1..]), data, at + size, n - size))
  {
    hide *;
    EncodeFirst(values);
    EndsAt(EncodeAll(values), data, at, n);
    var v, rest := values[0], EncodeAll(values[1..]);
    CutSplit([KindOf(v)], Content(v) + rest, data, at, n);
    if n > 0 {
      CutSplit(Content(v), rest, data, at + 1, n - 1);
    }
  }

  lemma EncodeFirst(values: seq<Value>)
    requires values != [] && forall v | v in values :: Writable(v)
    ensures Writable(values[0]) && |Encode(values[0])| == 1 + |Content(values[0])|
    ensures EncodeAll(values) == [KindOf(values[0])] + (Content(values[0]) + EncodeAll(values[1..]))
  {
    hide Content, KindOf;
    var kind, rest := [KindOf(values[0])], EncodeAll(values[1..]);
    assert (kind + Content(values[0])) + rest == kind + (Content(values[0]) + rest);
  }

  lemma EndsAt(part: seq<Byte>, data: seq<Byte>, at: nat, n: nat)
    requires EndsInside(part, data, at, n)
    ensures at <= |data| == at + n
  {
  }

  lemma ItemsOnce(data: seq<Byte>, at: nat, items: seq<Item>)
    requires at < |data| && items != [] && KindMatches(data[at], items[0].kind)
    ensures var r := ReadItem(data, at + 1, data[at], Some(items[0]));
            ReadItems(data, at, items).at == if r.at.None? then None else ReadItems(data, r.at.value, items[1..]).at
  {
    hide ReadItem, KindMatches;
  }

  lemma NothingToReadItems(data: seq<Byte>, items: seq<Item>)
    ensures ReadItems(data, |data|, items).at == Some(|data|)
  {
  }

  lemma CutPassesStep(values: seq<Value>, n: nat)
    requires values != [] && n > 0 && forall v | v in values :: Writable(v)
    ensures Writable(values[0]) && (forall v | v in values[1..] :: Writable(v))
    ensures var size := |Encode(values[0])|;
            CutPasses(values, n) <==> if n < size then CutInMembers(values[0], n - 1) else CutPasses(values[1..], n - size)
  {
    hide Encode, CutInMembers, Writable;
  }

  lemma Passes(data: seq<Byte>, cut: bool)
    ensures EndIf(cut, data) == if cut then Some(|data|) else None
  {
  }

  /** A message cut short is read as far as it goes exactly if it is cut between two values, or as above. */
  lemma {:induction false} CutMessage(values: seq<Value>, data: seq<Byte>, at: nat, n: nat, items: seq<Item>)
    requires forall v | v in values :: Writable(v)
    requires |items| == |values|
    requires forall i | 0 <= i < |items| :: KindMatches(KindOf(values[i]), items[i].kind)
    requires EndsInside(EncodeAll(values), data, at, n)
    ensures at <= |data| && ReadItems(data, at, items).at == EndIf(CutPasses(values, n), data)
    decreases |values|
  {
    hide *;
    if values == [] {
      NothingToCut(data, at, n);
    } else {
      var v := values[0];
      CutFirst(values, data, at, n);
      if n == 0 {
        NothingToReadItems(data, items);
        PassesAtEnd(values, data);
      } else {
        CutPassesStep(values, n);
        LiesByte(KindOf(v), data, at);
        ItemsOnce(data, at, items);
        if n < |Encode(v)| {
          CutValue(v, data, at + 1, n - 1, Some(items[0]));
          NothingToReadItems(data, items[1..]);
          Passes(data, CutInMembers(v, n - 1));
        } else {
          ReadsBack(v, data, at + 1, Some(items[0]));
          CutMessage(values[1..], data, at + |Encode(v)|, n - |Encode(v)|, items[1..]);
        }
      }
    }
  }

  lemma NothingToCut(data: seq<Byte>, at: nat, n: nat)
    ensures !EndsInside(EncodeAll([]), data, at, n)
  {
  }

  lemma PassesAtEnd(values: seq<Value>, data: seq<Byte>)
    requires forall v | v in values :: Writable(v)
    ensures EndIf(CutPasses(values, 0), data) == Some(|data|)
  {
  }

  // ----- other kinds than those asked for

  /** An item for an object takes an ECMA array and nothing as well; any other takes its own kind. */
  predicate Takes(kind: Byte, v: Value) {
    match v
    case Object(_) => kind == OBJECT
    case EcmaArray(_) => kind == ECMA_ARRAY || kind == OBJECT
    case Null => kind == NULL || kind == OBJECT
    case Number(_) => kind == NUMBER
    case Boolean(_) => kind == BOOLEAN
    case Str(s) => kind == if |s| < 65536 then STRING else LONG_STRING
    case Undefined => kind == UNDEFINED
    case Date(_, _) => kind == DATE
  }

  lemma TakesItsKind(kind: Byte, v: Value)
    ensures Takes(kind, v) <==> KindMatches(KindOf(v), kind)
  {
  }

  lemma WrongKind(data: seq<Byte>, at: nat, items: seq<Item>)
    requires at < |data| && items != [] && !KindMatches(data[at], items[0].kind)
    ensures ReadItems(data, at, items) == ReadMany(None, items)
  {
  }

  /** A written message is read if and only if each item takes the value in its place. */
  lemma {:induction false} MessageIsReadIff(values: seq<Value>, data: seq<Byte>, at: nat, items: seq<Item>)
    requires (forall v | v in values :: Writable(v)) && |items| == |values| && LiesAt(EncodeAll(values), data, at)
    ensures at <= |data|
    ensures ReadItems(data, at, items).at.Some? <==> forall i | 0 <= i < |items| :: Takes(items[i].kind, values[i])
    decreases |values|
  {
    hide *;
    LiesInside(EncodeAll(values), data, at);
    if values == [] {
      EmptyMessage(data, at);
    } else {
      var v, rest := values[0], EncodeAll(values[1..]);
      MessageStep(values, items);
      LiesSplit([KindOf(v)], Content(v) + rest, data, at);
      LiesInside([KindOf(v)], data, at);
      LiesByte(KindOf(v), data, at);
      TakesItsKind(items[0].kind, v);
      if Takes(items[0].kind, v) {
        LiesSplit(Content(v), rest, data, at + 1);
        ReadsBack(v, data, at + 1, Some(items[0]));
        ItemsOnce(data, at, items);
        MessageIsReadIff(values[1..], data, at + 1 + |Content(v)|, items[1..]);
        TakesRest(items, values);
      } else {
        WrongKind(data, at, items);
      }
    }
  }

  lemma TakesRest(items: seq<Item>, values: seq<Value>)
    requires |items| == |values| > 0 && Takes(items[0].kind, values[0])
    ensures (forall i | 0 <= i < |items| :: Takes(items[i].kind, values[i]))
            <==> forall i | 0 <= i < |items| - 1 :: Takes(items[1..][i].kind, values[1..][i])
  {
    hide Takes;
    if forall i | 0 <= i < |items| - 1 :: Takes(items[1..][i].kind, values[1..][i]) {
      forall i | 0 <= i < |items| ensures Takes(items[i].kind, values[i]) {
        if i > 0 {
          assert items[1..][i - 1] == items[i] && values[1..][i - 1] == values[i];
        }
      }
    }
  }

  // ----- any bytes at all

  /** Every text stored in a cell fits it with the zero byte that ends it. */
  ghost predicate TextsFit(item: Item) {
    match item.target
    case Cell(size, stored) => stored.Some? && stored.value.StoredText? ==> |stored.value.text| < size
    case Nested(items) => AllFit(items)
  }

  ghost predicate AllFit(items: seq<Item>) {
    forall i | 0 <= i < |items| :: TextsFit(items[i])
  }

  ghost predicate ItFits(item: Option<Item>) {
    item.Some? ==> TextsFit(item.value)
  }

  lemma NestedFit(item: Option<Item>, items: seq<Item>)
    requires ItFits(item)
    ensures AllFit(NestedItems(item)) && (AllFit(items) ==> ItFits(WithNested(item, items)))
  {
  }

  lemma LeafFits(data: seq<Byte>, at: nat, kind: Byte, item: Option<Item>)
    requires at <= |data| && ItFits(item)
    requires kind != OBJECT && kind != ECMA_ARRAY && kind != STRICT_ARRAY
    ensures ItFits(ReadItem(data, at, kind, item).item)
  {
    hide DoubleAt, Int16At, Int32At;
  }

  /** One step of the reader on a value with members or elements. */
  lemma NestingStep(data: seq<Byte>, at: nat, kind: Byte, item: Option<Item>)
    requires at <= |data| && (kind == OBJECT || kind == ECMA_ARRAY || kind == STRICT_ARRAY)
    ensures ReadItem(data, at, kind, item).item ==
            if kind == OBJECT then WithNested(item, ReadObject(data, at, NestedItems(item)).items)
            else if at + 4 > |data| then item
            else if kind == ECMA_ARRAY then WithNested(item, ReadObject(data, at + 4, NestedItems(item)).items)
            else WithNested(item, ReadElements(data, at + 4, 0, Int32At(data, at), NestedItems(item)).items)
  {
    hide ReadObject, ReadElements, Int32At, WithNested, NestedItems;
  }

  lemma OneFits(items: seq<Item>, i: nat, item: Item)
    requires AllFit(items) && i < |items| && TextsFit(item)
    ensures AllFit(items[i := item])
  {
    hide TextsFit;
  }

  /** Whatever bytes are read, no text overflows the memory it is stored in. */
  lemma {:induction false} ReadItemFits(data: seq<Byte>, at: nat, kind: Byte, item: Option<Item>)
    requires at <= |data| && ItFits(item)
    ensures ItFits(ReadItem(data, at, kind, item).item)
    decreases |data| - at, 1
  {
    if kind == OBJECT || kind == ECMA_ARRAY || kind == STRICT_ARRAY {
      hide ReadItem, ReadObject, ReadElements, TextsFit, AllFit, Int32At, WithNested, NestedItems;
      NestingStep(data, at, kind, item);
      NestedFit(item, []);
      if kind == OBJECT {
        ReadObjectFits(data, at, NestedItems(item));
        NestedFit(item, ReadObject(data, at, NestedItems(item)).items);
      } else if at + 4 <= |data| && kind == ECMA_ARRAY {
        ReadObjectFits(data, at + 4, NestedItems(item));
        NestedFit(item, ReadObject(data, at + 4, NestedItems(item)).items);
      } else if at + 4 <= |data| {
        var count := Int32At(data, at);
        ReadElementsFits(data, at + 4, 0, count, NestedItems(item));
        NestedFit(item, ReadElements(data, at + 4, 0, count, NestedItems(item)).items);
      }
    } else {
      LeafFits(data, at, kind, item);
    }
  }

  lemma {:induction false} ReadObjectFits(data: seq<Byte>, at: nat, items: seq<Item>)
    requires at <= |data| && AllFit(items)
    ensures AllFit(ReadObject(data, at, items).items)
    decreases |data| - at, 0
  {
    hide ReadItem, TextsFit, AllFit, Requested, Int16At;
    if at + 2 <= |data| {
      var len := Int16At(data, at);
      if len != 0 && at + 2 + len + 1 <= |data| {
        var kind := data[at + 2 + len];
        var i := Requested(items, data[at + 2..at + 2 + len], kind);
        var item := if i < |items| then Some(items[i]) else None;
        EachFits(items, i);
        ReadItemFits(data, at + 2 + len + 1, kind, item);
        var r := ReadItem(data, at + 2 + len + 1, kind, item);
        if i < |items| {
          OneFits(items, i, r.item.value);
        }
        if r.at.Some? {
          ReadObjectFits(data, r.at.value, if i < |items| then items[i := r.item.value] else items);
        }
      }
    }
  }

  lemma EachFits(items: seq<Item>, i: nat)
    requires AllFit(items)
    ensures i < |items| ==> TextsFit(items[i])
  {
  }

  lemma {:induction false} ReadElementsFits(data: seq<Byte>, at: nat, i: nat, count: nat, items: seq<Item>)
    requires at <= |data| && AllFit(items)
    ensures AllFit(ReadElements(data, at, i, count, items).items)
    decreases |data| - at, 0
  {
    hide ReadItem, TextsFit, AllFit, KindMatches;
    if i < count && at < |data| {
      var wanted := i < |items| && KindMatches(data[at], items[i].kind);
      var item := if wanted then Some(items[i]) else None;
      EachFits(items, i);
      ReadItemFits(data, at + 1, data[at], item);
      var r := ReadItem(data, at + 1, data[at], item);
      if wanted {
        OneFits(items, i, r.item.value);
      }
      if r.at.Some? {
        ReadElementsFits(data, r.at.value, i + 1, count, if wanted then items[i := r.item.value] else items);
      }
    }
  }

  lemma {:induction false} ReadItemsFits(data: seq<Byte>, at: nat, items: seq<Item>)
    requires at <= |data| && AllFit(items)
    ensures AllFit(ReadItems(data, at, items).items)
    decreases |items|
  {
    hide ReadItem, TextsFit, KindMatches;
    if items != [] && at < |data| && KindMatches(data[at], items[0].kind) {
      ReadItemFits(data, at + 1, data[at], Some(items[0]));
      var r := ReadItem(data, at + 1, data[at], Some(items[0]));
      if r.at.Some? {
        ReadItemsFits(data, r.at.value, items[1..]);
      }
    }
  }

  /** A text that is asked for is stored exactly if the cell has room for it and the zero byte. */
  lemma TextIsStoredIff(text: seq<Byte>, item: Item)
    requires item.target.Cell? && item.target.stored == None
    ensures Deliver(item, Str(text)).target.stored == if |text| < item.target.size then Some(StoredText(text)) else None
  {
  }
}
