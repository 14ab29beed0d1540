/** AMF0 values, the bytes the writer of libflv/amf0.c makes of them, and what its recursive reader does with
    any bytes: a position it got to, or none, and what it stored for the items it was asked for. */
module Amf0Model {
  import opened Bytes
  import opened Options

  const NUMBER: Byte := 0
  const BOOLEAN: Byte := 1
  const STRING: Byte := 2
  const OBJECT: Byte := 3
  const NULL: Byte := 5
  const UNDEFINED: Byte := 6
  const ECMA_ARRAY: Byte := 8
  const OBJECT_END: Byte := 9
  const STRICT_ARRAY: Byte := 10
  const DATE: Byte := 11
  const LONG_STRING: Byte := 12

  /** A double as the eight bytes it has in memory on a little-endian machine. */
  type Double = d: seq<Byte> | |d| == 8 witness [0, 0, 0, 0, 0, 0, 0, 0]

  type Int16 = x: int | 0 <= x < 65536

  datatype Value =
    | Number(double: Double) | Boolean(flag: bool) | Str(text: seq<Byte>) | Null | Undefined
    | Date(milliseconds: Double, timezone: Int16) | Object(fields: Fields) | EcmaArray(fields: Fields)

  datatype Fields = NoFields | Field(name: seq<Byte>, value: Value, rest: Fields)

  /** What the format can carry: names of 1 to 65535 bytes, strings of less than 4 GiB. */
  predicate Writable(v: Value) {
    match v
    case Str(s) => |s| < 0x1_0000_0000
    case Object(fs) => WritableFields(fs)
    case EcmaArray(fs) => WritableFields(fs)
    case _ => true
  }

  predicate WritableFields(fs: Fields) {
    fs.NoFields? || (1 <= |fs.name| < 65536 && Writable(fs.value) && WritableFields(fs.rest))
  }

  // ----- writing

  function Reverse(d: Double): Double {
    [d[7], d[6], d[5], d[4], d[3], d[2], d[1], d[0]]
  }

  function BigEndian16(v: Int16): seq<Byte> {
    [v / 256, v % 256]
  }

  function BigEndian32(v: nat): seq<Byte>
    requires v < 0x1_0000_0000
  {
    BigEndian16(v / 0x1_0000) + BigEndian16(v % 0x1_0000)
  }

  function KindOf(v: Value): Byte {
    match v
    case Number(_) => NUMBER
    case Boolean(_) => BOOLEAN
    case Str(s) => if |s| < 65536 then STRING else LONG_STRING
    case Null => NULL
    case Undefined => UNDEFINED
    case Date(_, _) => DATE
    case Object(_) => OBJECT
    case EcmaArray(_) => ECMA_ARRAY
  }

  const FIELDS_END: seq<Byte> := [0, 0, OBJECT_END]

  /** The bytes of a value after its type marker. */
  function Content(v: Value): seq<Byte>
    requires Writable(v)
  {
    match v
    case Number(d) => Reverse(d)
    case Boolean(b) => [if b then 1 else 0]
    case Str(s) => (if |s| < 65536 then BigEndian16(|s|) else BigEndian32(|s|)) + s
    case Null => []
    case Undefined => []
    case Date(ms, tz) => Reverse(ms) + BigEndian16(tz)
    case Object(fs) => Members(fs) + FIELDS_END
    case EcmaArray(fs) => [0, 0, 0, 0] + (Members(fs) + FIELDS_END)
  }

  /** A length that does not fit 16 bits is cut down to them; the name is written whole all the same. */
  function Named(name: seq<Byte>): seq<Byte> {
    BigEndian16(|name| % 65536) + name
  }

  function Members(fs: Fields): seq<Byte>
    requires WritableFields(fs)
  {
    if fs.NoFields? then []
    else Named(fs.name) + ([KindOf(fs.value)] + (Content(fs.value) + Members(fs.rest)))
  }

  function Encode(v: Value): seq<Byte>
    requires Writable(v)
  {
    [KindOf(v)] + Content(v)
  }

  // ----- reading

  datatype Stored = StoredDouble(double: Double) | StoredByte(byte: Byte) | StoredText(text: seq<Byte>)
                  | StoredDate(milliseconds: Double, timezone: Int16)

  /** Where a value that was asked for goes: the items of an object, or a memory cell. */
  datatype Target = Nested(items: seq<Item>) | Cell(size: nat, stored: Option<Stored>)

  /** A request for the value called `name`. */
  datatype Item = Item(kind: Byte, name: seq<Byte>, target: Target)

  /** An ECMA array, or nothing, will do for an object. */
  predicate KindMatches(kind: Byte, wanted: Byte) {
    kind == wanted || (wanted == OBJECT && (kind == ECMA_ARRAY || kind == NULL))
  }

  /** The first item that asks for this name and kind. */
  function Requested(items: seq<Item>, name: seq<Byte>, kind: Byte): (i: nat)
    ensures i <= |items|
    ensures i < |items| ==> items[i].name == name && KindMatches(kind, items[i].kind)
    ensures forall j | 0 <= j < i :: !(items[j].name == name && KindMatches(kind, items[j].kind))
    decreases |items|
  {
    if items == [] then 0
    else if items[0].name == name && KindMatches(kind, items[0].kind) then 0
    else 1 + Requested(items[1..], name, kind)
  }

  function Store(item: Item, s: Stored): Item {
    if item.target.Cell? then item.(target := item.target.(stored := Some(s))) else item
  }

  /** A string is stored if it fits with the zero byte that ends it. */
  function StoreText(item: Item, s: seq<Byte>): Item {
    if item.target.Cell? && item.target.size > |s| then Store(item, StoredText(s)) else item
  }

  function NestedItems(item: Option<Item>): seq<Item> {
    if item.Some? && item.value.target.Nested? then item.value.target.items else []
  }

  function WithNested(item: Option<Item>, items: seq<Item>): Option<Item> {
    if item.Some? && item.value.target.Nested? then Some(item.value.(target := Nested(items))) else item
  }

  function MapStore(item: Option<Item>, s: Stored): Option<Item> {
    if item.Some? then Some(Store(item.value, s)) else None
  }

  function Int16At(data: seq<Byte>, at: nat): Int16
    requires at + 2 <= |data|
  {
    var high: int := data[at];
    high * 256 + data[at + 1]
  }

  /** Four bytes, most significant first. */
  function Int32At(data: seq<Byte>, at: nat): nat
    requires at + 4 <= |data|
  {
    Int16At(data, at) * 0x1_0000 + Int16At(data, at + 2)
  }

  function DoubleAt(data: seq<Byte>, at: nat): Double
    requires at + 8 <= |data|
  {
    Reverse(data[at..at + 8])
  }

  datatype Read = Read(at: Option<nat>, item: Option<Item>)

  datatype ReadMany = ReadMany(at: Option<nat>, items: seq<Item>)

  /** A position in the data that is not before `from`, or none. */
  predicate InBounds(at: Option<nat>, from: nat, data: seq<Byte>) {
    at.Some? ==> from <= at.value <= |data|
  }

  function ReadString(data: seq<Byte>, at: nat, long: bool, item: Option<Item>): (r: Read)
    requires at <= |data|
    ensures InBounds(r.at, at, data) && (r.item.Some? <==> item.Some?)
  {
    var width := if long then 4 else 2;
    if at + width > |data| then Read(None, item)
    else
      var len := if long then Int32At(data, at) else Int16At(data, at);
      if at + width + len > |data| then Read(None, item)
      else
        var text := data[at + width..at + width + len];
        Read(Some(at + width + len), if item.Some? then Some(StoreText(item.value, text)) else None)
  }

  function ReadDate(data: seq<Byte>, at: nat, item: Option<Item>): (r: Read)
    requires at <= |data|
    ensures InBounds(r.at, at, data) && (r.item.Some? <==> item.Some?)
  {
    if at + 8 > |data| then Read(None, item)
    else if at + 10 > |data| then Read(None, MapStore(item, StoredDouble(DoubleAt(data, at))))
    else Read(Some(at + 10), MapStore(item, StoredDate(DoubleAt(data, at), Int16At(data, at + 8))))
  }

  function ReadBoolean(data: seq<Byte>, at: nat, item: Option<Item>): (r: Read)
    requires at <= |data|
    ensures InBounds(r.at, at, data) && (r.item.Some? <==> item.Some?)
  {
    if at + 1 > |data| then Read(None, item) else Read(Some(at + 1), MapStore(item, StoredByte(data[at])))
  }

  function ReadDouble(data: seq<Byte>, at: nat, item: Option<Item>): (r: Read)
    requires at <= |data|
    ensures InBounds(r.at, at, data) && (r.item.Some? <==> item.Some?)
  {
    if at + 8 > |data| then Read(None, item) else Read(Some(at + 8), MapStore(item, StoredDouble(DoubleAt(data, at))))
  }

  /** Reads a value of the given kind, and stores it for the item, if any. */
  function ReadItem(data: seq<Byte>, at: nat, kind: Byte, item: Option<Item>): (r: Read)
    requires at <= |data|
    ensures InBounds(r.at, at, data) && (r.item.Some? <==> item.Some?)
    decreases |data| - at, 1
  {
    if kind == BOOLEAN then ReadBoolean(data, at, item)
    else if kind == NUMBER then ReadDouble(data, at, item)
    else if kind == STRING then ReadString(data, at, false, item)
    else if kind == LONG_STRING then ReadString(data, at, true, item)
    else if kind == DATE then ReadDate(data, at, item)
    else if kind == OBJECT then
      var r := ReadObject(data, at, NestedItems(item));
      Read(r.at, WithNested(item, r.items))
    else if kind == NULL || kind == UNDEFINED then Read(Some(at), item)
    else if kind == ECMA_ARRAY then
      if at + 4 > |data| then Read(None, item)
      else
        var r := ReadObject(data, at + 4, NestedItems(item));
        Read(r.at, WithNested(item, r.items))
    else if kind == STRICT_ARRAY then
      if at + 4 > |data| then Read(None, item)
      else
        var r := ReadElements(data, at + 4, 0, Int32At(data, at), NestedItems(item));
        Read(r.at, WithNested(item, r.items))
    else Read(None, item)
  }

  /** The members of an object are over: what follows must be the end marker. */
  function ReadEnd(data: seq<Byte>, at: nat): (r: Option<nat>)
    ensures InBounds(r, at, data)
  {
    if at < |data| && data[at] == OBJECT_END then Some(at + 1) else None
  }

  function ReadObject(data: seq<Byte>, at: nat, items: seq<Item>): (r: ReadMany)
    requires at <= |data|
    ensures InBounds(r.at, at, data) && |r.items| == |items|
    decreases |data| - at, 0
  {
    if at + 2 > |data| then ReadMany(ReadEnd(data, at), items)
    else
      var len := Int16At(data, at);
      if len == 0 then ReadMany(ReadEnd(data, at + 2), items)
      else if at + 2 + len + 1 > |data| then ReadMany(None, items)
      else
        var kind := data[at + 2 + len];
        var i := Requested(items, data[at + 2..at + 2 + len], kind);
        var r := ReadItem(data, at + 2 + len + 1, kind, if i < |items| then Some(items[i]) else None);
        var items' := if i < |items| then items[i := r.item.value] else items;
        if r.at.None? then ReadMany(None, items') else ReadObject(data, r.at.value, items')
  }

  /** Elements `i` to `count` of a strict array; where the data ends early the array ends too. */
  function ReadElements(data: seq<Byte>, at: nat, i: nat, count: nat, items: seq<Item>): (r: ReadMany)
    requires at <= |data|
    ensures InBounds(r.at, at, data) && |r.items| == |items|
    decreases |data| - at, 0
  {
    if i >= count || at >= |data| then ReadMany(Some(at), items)
    else
      var wanted := i < |items| && KindMatches(data[at], items[i].kind);
      var r := ReadItem(data, at + 1, data[at], if wanted then Some(items[i]) else None);
      var items' := if wanted then items[i := r.item.value] else items;
      if r.at.None? then ReadMany(None, items') else ReadElements(data, r.at.value, i + 1, count, items')
  }

  /** Reads one value for each item; a value of another kind is an error. */
  function ReadItems(data: seq<Byte>, at: nat, items: seq<Item>): (r: ReadMany)
    requires at <= |data|
    ensures InBounds(r.at, at, data) && |r.items| == |items|
    decreases |items|
  {
    if items == [] || at >= |data| then ReadMany(Some(at), items)
    else if !KindMatches(data[at], items[0].kind) then ReadMany(None, items)
    else
      var r := ReadItem(data, at + 1, data[at], Some(items[0]));
      if r.at.None? then ReadMany(None, [r.item.value] + items[1..])
      else
        var later := ReadItems(data, r.at.value, items[1..]);
        ReadMany(later.at, [r.item.value] + later.items)
  }

  // ----- what reading a written value should yield

  /** The item with the value stored that was asked for. */
  function Deliver(item: Item, v: Value): (r: Item)
    ensures r.kind == item.kind && r.name == item.name
    decreases v
  {
    match v
    case Number(d) => Store(item, StoredDouble(d))
    case Boolean(b) => Store(item, StoredByte(if b then 1 else 0))
    case Str(s) => StoreText(item, s)
    case Null => item
    case Undefined => item
    case Date(ms, tz) => Store(item, StoredDate(ms, tz))
    case Object(fs) =>
      if item.target.Nested? then item.(target := Nested(DeliverFields(item.target.items, fs))) else item
    case EcmaArray(fs) =>
      if item.target.Nested? then item.(target := Nested(DeliverFields(item.target.items, fs))) else item
  }

  /** Each field goes to the first item that asks for it. */
  function DeliverFields(items: seq<Item>, fs: Fields): (r: seq<Item>)
    ensures |r| == |items|
    ensures forall j | 0 <= j < |items| :: r[j].kind == items[j].kind && r[j].name == items[j].name
    decreases fs
  {
    if fs.NoFields? then items
    else
      var i := Requested(items, fs.name, KindOf(fs.value));
      DeliverFields(if i < |items| then items[i := Deliver(items[i], fs.value)] else items, fs.rest)
  }
}
