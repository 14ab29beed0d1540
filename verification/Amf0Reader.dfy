/** The recursive reader of libflv/amf0.c, whose loops advance a position and store into the items,
    proved to do what Amf0Model says. */
module Amf0Reader {
  import opened Bytes
  import opened Options
  import opened Amf0Model
  import Model = Amf0Model

  lemma {:induction false} RequestedTail(items: seq<Item>, i: nat, name: seq<Byte>, kind: Byte)
    requires i <= |items|
    requires forall j | 0 <= j < i :: !(items[j].name == name && KindMatches(kind, items[j].kind))
    requires i < |items| ==> items[i].name == name && KindMatches(kind, items[i].kind)
    ensures Requested(items, name, kind) == i
  {
    if i > 0 {
      RequestedTail(items[1..], i - 1, name, kind);
    }
  }

  method FindItem(items: seq<Item>, name: seq<Byte>, kind: Byte) returns (i: nat)
    ensures i == Requested(items, name, kind)
  {
    i := 0;
    while i < |items|
      invariant i <= |items|
      invariant forall j | 0 <= j < i :: !(items[j].name == name && KindMatches(kind, items[j].kind))
    {
      if items[i].name == name && KindMatches(kind, items[i].kind) {
        break;
      }
      i := i + 1;
    }
    RequestedTail(items, i, name, kind);
  }

  method ReadItem(data: seq<Byte>, at: nat, kind: Byte, item: Option<Item>) returns (r: Read)
    requires at <= |data|
    ensures r == Model.ReadItem(data, at, kind, item)
    decreases |data| - at, 1
  {
    hide Model.ReadObject, Model.ReadElements;
    if kind == BOOLEAN {
      r := ReadBoolean(data, at, item);
    } else if kind == NUMBER {
      r := ReadDouble(data, at, item);
    } else if kind == STRING {
      r := ReadString(data, at, false, item);
    } else if kind == LONG_STRING {
      r := ReadString(data, at, true, item);
    } else if kind == DATE {
      r := ReadDate(data, at, item);
    } else if kind == OBJECT {
      var m := ReadObject(data, at, NestedItems(item));
      r := Read(m.at, WithNested(item, m.items));
    } else if kind == ECMA_ARRAY {
      if at + 4 > |data| {
        return Read(None, item);
      }
      var m := ReadObject(data, at + 4, NestedItems(item));
      r := Read(m.at, WithNested(item, m.items));
    } else if kind == STRICT_ARRAY {
      if at + 4 > |data| {
        return Read(None, item);
      }
      var m := ReadStrictArray(data, at, NestedItems(item));
      r := Read(m.at, WithNested(item, m.items));
    } else if kind == NULL || kind == UNDEFINED {
      r := Read(Some(at), item);
    } else {
      r := Read(None, item);
    }
  }

  method ReadStrictArray(data: seq<Byte>, at: nat, items: seq<Item>) returns (r: ReadMany)
    requires at + 4 <= |data|
    ensures r == ReadElements(data, at + 4, 0, Int32At(data, at), items)
    decreases |data| - at, 0
  {
    var count := Int32At(data, at);
    var p, stored := Some(at + 4), items;
    var i := 0;
    while i < count && p.Some? && p.value < |data|
      invariant at + 4 <= (if p.Some? then p.value else |data|) <= |data|
      invariant ReadElements(data, at + 4, 0, count, items)
             == if p.None? then ReadMany(None, stored) else ReadElements(data, p.value, i, count, stored)
      decreases if p.Some? then |data| - p.value + 1 else 0
    {
      var kind := data[p.value];
      var wanted := i < |stored| && KindMatches(kind, stored[i].kind);
      var r := ReadItem(data, p.value + 1, kind, if wanted then Some(stored[i]) else None);
      stored := if wanted then stored[i := r.item.value] else stored;
      p := r.at;
      i := i + 1;
    }
    r := ReadMany(p, stored);
  }

  /** One turn of the loop over the members of an object. */
  lemma MemberStep(data: seq<Byte>, at: nat, items: seq<Item>)
    requires at + 2 <= |data|
    ensures var len := Int16At(data, at);
            var q := at + 2;
            var whole := Model.ReadObject(data, at, items);
            if len == 0 then whole == ReadMany(ReadEnd(data, q), items)
            else if q + len + 1 > |data| then whole == ReadMany(None, items)
            else
              var i := Requested(items, data[q..q + len], data[q + len]);
              var m := Model.ReadItem(data, q + len + 1, data[q + len], if i < |items| then Some(items[i]) else None);
              var items' := if i < |items| then items[i := m.item.value] else items;
              whole == if m.at.None? then ReadMany(None, items') else Model.ReadObject(data, m.at.value, items')
  {
    hide Model.ReadItem, Requested, Int16At, ReadEnd;
  }

  lemma MembersEnd(data: seq<Byte>, at: nat, items: seq<Item>)
    requires at <= |data| < at + 2
    ensures Model.ReadObject(data, at, items) == ReadMany(ReadEnd(data, at), items)
  {
  }

  method ReadObject(data: seq<Byte>, at: nat, items: seq<Item>) returns (r: ReadMany)
    requires at <= |data|
    ensures r == Model.ReadObject(data, at, items)
    decreases |data| - at, 0
  {
    hide Model.ReadObject, Model.ReadItem, Requested, Int16At, ReadEnd;
    var p, stored := Some(at), items;
    while p.Some? && p.value + 2 <= |data|
      invariant at <= (if p.Some? then p.value else |data|) <= |data|
      invariant Model.ReadObject(data, at, items)
             == if p.None? then ReadMany(None, stored) else Model.ReadObject(data, p.value, stored)
      decreases if p.Some? then |data| - p.value + 1 else 0
    {
      MemberStep(data, p.value, stored);
      var len := Int16At(data, p.value);
      var q := p.value + 2;
      if len == 0 {
        return ReadMany(ReadEnd(data, q), stored);
      }
      if q + len + 1 > |data| {
        return ReadMany(None, stored);
      }
      var kind := data[q + len];
      var i := FindItem(stored, data[q..q + len], kind);
      var m := ReadItem(data, q + len + 1, kind, if i < |stored| then Some(stored[i]) else None);
      stored := if i < |stored| then stored[i := m.item.value] else stored;
      p := m.at;
    }
    if p.Some? {
      MembersEnd(data, p.value, stored);
      r := ReadMany(ReadEnd(data, p.value), stored);
    } else {
      r := ReadMany(None, stored);
    }
  }

  lemma RestEnds(data: seq<Byte>, p: Option<nat>, done: seq<Item>, rest: seq<Item>)
    requires p.Some? ==> p.value <= |data|
    ensures p.None? || rest == [] || p.value >= |data| ==> Rest(data, p, done, rest) == ReadMany(p, done + rest)
  {
  }

  lemma RestBegins(data: seq<Byte>, at: nat, items: seq<Item>)
    requires at <= |data|
    ensures Rest(data, Some(at), [], items) == Model.ReadItems(data, at, items)
  {
  }

  /** What is left to read after `done`. */
  function Rest(data: seq<Byte>, p: Option<nat>, done: seq<Item>, rest: seq<Item>): ReadMany
    requires p.Some? ==> p.value <= |data|
  {
    if p.None? then ReadMany(None, done + rest)
    else var later := Model.ReadItems(data, p.value, rest); ReadMany(later.at, done + later.items)
  }

  lemma RestStep(data: seq<Byte>, at: nat, done: seq<Item>, rest: seq<Item>)
    requires rest != [] && at < |data|
    ensures if !KindMatches(data[at], rest[0].kind) then Rest(data, Some(at), done, rest) == ReadMany(None, done + rest)
            else
              var r := Model.ReadItem(data, at + 1, data[at], Some(rest[0]));
              Rest(data, Some(at), done, rest) == Rest(data, r.at, done + [r.item.value], rest[1..])
  {
    hide Model.ReadItem;
    if KindMatches(data[at], rest[0].kind) {
      var r := Model.ReadItem(data, at + 1, data[at], Some(rest[0]));
      assert forall tail: seq<Item> :: done + ([r.item.value] + tail) == (done + [r.item.value]) + tail;
    }
  }

  lemma Halves(stored: seq<Item>, i: nat)
    requires i <= |stored|
    ensures stored[..i] + stored[i..] == stored
    ensures i < |stored| ==> stored[i..] != [] && stored[i..][0] == stored[i]
  {
  }

  lemma NextHalves(stored: seq<Item>, items: seq<Item>, i: nat, item: Item)
    requires i < |stored| == |items| && stored[i..] == items[i..]
    ensures var next := stored[i := item];
            && next[..i + 1] == stored[..i] + [item] && next[i + 1..] == stored[i..][1..]
            && next[i + 1..] == items[i + 1..]
  {
    assert forall j | i < j < |items| :: stored[j] == stored[i..][j - i] == items[i..][j - i];
  }

  method ReadItems(data: seq<Byte>, at: nat, items: seq<Item>) returns (r: ReadMany)
    requires at <= |data|
    ensures r == Model.ReadItems(data, at, items)
  {
    hide Model.ReadItem, KindMatches, Rest, Model.ReadItems;
    RestBegins(data, at, items);
    var p: Option<nat>, stored := Some(at), items;
    var i := 0;
    assert items[0..] == items && items[..0] == [];
    while i < |items| && p.Some? && p.value < |data|
      invariant 0 <= i <= |items| == |stored| && (p.Some? ==> p.value <= |data|)
      invariant stored[i..] == items[i..]
      invariant Model.ReadItems(data, at, items) == Rest(data, p, stored[..i], stored[i..])
      decreases |items| - i
    {
      var kind := data[p.value];
      RestStep(data, p.value, stored[..i], stored[i..]);
      Halves(stored, i);
      if !KindMatches(kind, stored[i].kind) {
        return ReadMany(None, stored);
      }
      var m := ReadItem(data, p.value + 1, kind, Some(stored[i]));
      NextHalves(stored, items, i, m.item.value);
      stored := stored[i := m.item.value];
      p := m.at;
      i := i + 1;
    }
    Halves(stored, i);
    RestEnds(data, p, stored[..i], stored[i..]);
    r := ReadMany(p, stored);
  }
}
