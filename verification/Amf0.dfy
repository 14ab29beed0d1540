/** The writers and readers of libflv/amf0.c. A position is an index into the buffer, or None for the null pointer;
    writers return None where the value does not fit before `end`. */
module Amf0 {
  import opened Bytes
  import opened Options
  import opened Amf0Model

  /** The space between `at` and `end` is all that may differ. */
  predicate SameOutside(before: seq<Byte>, after: seq<Byte>, at: nat, end: nat)
    requires at <= end <= |before|
  {
    |after| == |before| && after[..at] == before[..at] && after[end..] == before[end..]
  }

  /** What a writer does: it writes all of `bytes`, or fails if and only if they do not fit. */
  predicate Writes(before: seq<Byte>, after: seq<Byte>, at: nat, end: nat, bytes: seq<Byte>, r: Option<nat>)
    requires at <= end <= |before|
  {
    if at + |bytes| <= end then r == Some(at + |bytes|) && after == Patched(before, at, bytes)
    else r == None && SameOutside(before, after, at, end)
  }

  /** A writer after a writer writes both. */
  lemma WritesBoth(s0: seq<Byte>, s1: seq<Byte>, s2: seq<Byte>, at: nat, end: nat,
                   a: seq<Byte>, b: seq<Byte>, r1: Option<nat>, r2: Option<nat>)
    requires at <= end <= |s0| && Writes(s0, s1, at, end, a, r1)
    requires if r1.Some? then Writes(s1, s2, r1.value, end, b, r2) else r2 == None && s2 == s1
    ensures Writes(s0, s2, at, end, a + b, r2)
  {
    if at + |a| <= end {
      if at + |a| + |b| <= end {
        PatchedTwice(s0, at, a, b);
      } else {
        assert s2[..at] == s1[..at + |a|][..at];
        assert s1[end..] == s0[end..];
      }
    }
  }

  // ----- writers

  method WriteInt16(buf: array<Byte>, at: nat, end: nat, value: Int16) returns (r: Option<nat>)
    requires at <= end <= buf.Length
    modifies buf
    ensures Writes(old(buf[..]), buf[..], at, end, BigEndian16(value), r)
  {
    if at + 2 > end {
      return None;
    }
    CopyInto(buf, at, [value / 256, value % 256]);
    return Some(at + 2);
  }

  method WriteInt32(buf: array<Byte>, at: nat, end: nat, value: nat) returns (r: Option<nat>)
    requires at <= end <= buf.Length && value < 0x1_0000_0000
    modifies buf
    ensures Writes(old(buf[..]), buf[..], at, end, BigEndian32(value), r)
  {
    if at + 4 > end {
      return None;
    }
    var high, low := value / 0x1_0000, value % 0x1_0000;
    CopyInto(buf, at, [high / 256, high % 256, low / 256, low % 256]);
    return Some(at + 4);
  }

  method WriteString16(buf: array<Byte>, at: nat, end: nat, text: seq<Byte>) returns (r: Option<nat>)
    requires at <= end <= buf.Length
    modifies buf
    ensures Writes(old(buf[..]), buf[..], at, end, Named(text), r)
  {
    if at + 2 + |text| > end {
      return None;
    }
    ghost var s0 := buf[..];
    var p := WriteInt16(buf, at, end, |text| % 65536);
    CopyInto(buf, p.value, text);
    PatchedTwice(s0, at, BigEndian16(|text| % 65536), text);
    return Some(p.value + |text|);
  }

  method WriteString32(buf: array<Byte>, at: nat, end: nat, text: seq<Byte>) returns (r: Option<nat>)
    requires at <= end <= buf.Length && |text| < 0x1_0000_0000
    modifies buf
    ensures Writes(old(buf[..]), buf[..], at, end, BigEndian32(|text|) + text, r)
  {
    if at + 4 + |text| > end {
      return None;
    }
    ghost var s0 := buf[..];
    var p := WriteInt32(buf, at, end, |text|);
    CopyInto(buf, p.value, text);
    PatchedTwice(s0, at, BigEndian32(|text|), text);
    return Some(p.value + |text|);
  }

  method WriteMarker(buf: array<Byte>, at: Option<nat>, end: nat, marker: Byte) returns (r: Option<nat>)
    requires end <= buf.Length && (at.Some? ==> at.value <= end)
    modifies buf
    ensures if at.Some? then Writes(old(buf[..]), buf[..], at.value, end, [marker], r) else r == None && buf[..] == old(buf[..])
  {
    if at.None? || at.value + 1 > end {
      return None;
    }
    CopyInto(buf, at.value, [marker]);
    return Some(at.value + 1);
  }

  method WriteObjectEnd(buf: array<Byte>, at: Option<nat>, end: nat) returns (r: Option<nat>)
    requires end <= buf.Length && (at.Some? ==> at.value <= end)
    modifies buf
    ensures if at.Some? then Writes(old(buf[..]), buf[..], at.value, end, FIELDS_END, r) else r == None && buf[..] == old(buf[..])
  {
    if at.None? || at.value + 3 > end {
      return None;
    }
    CopyInto(buf, at.value, [0, 0, OBJECT_END]);
    return Some(at.value + 3);
  }

  /** The marker may get written although the count does not fit behind it. */
  method WriteEcmaArray(buf: array<Byte>, at: Option<nat>, end: nat) returns (r: Option<nat>)
    requires end <= buf.Length && (at.Some? ==> at.value <= end)
    modifies buf
    ensures if at.Some? then Writes(old(buf[..]), buf[..], at.value, end, [ECMA_ARRAY] + [0, 0, 0, 0], r)
            else r == None && buf[..] == old(buf[..])
  {
    if at.None? || at.value + 1 > end {
      return None;
    }
    ghost var s0 := buf[..];
    CopyInto(buf, at.value, [ECMA_ARRAY]);
    ghost var s1 := buf[..];
    r := WriteInt32(buf, at.value + 1, end, 0);
    assert BigEndian32(0) == [0, 0, 0, 0];
    WritesBoth(s0, s1, buf[..], at.value, end, [ECMA_ARRAY], [0, 0, 0, 0], Some(at.value + 1), r);
  }

  method WriteBoolean(buf: array<Byte>, at: Option<nat>, end: nat, value: Byte) returns (r: Option<nat>)
    requires end <= buf.Length && (at.Some? ==> at.value <= end)
    modifies buf
    ensures if at.Some? then Writes(old(buf[..]), buf[..], at.value, end, Encode(Boolean(value != 0)), r)
            else r == None && buf[..] == old(buf[..])
  {
    if at.None? || at.value + 2 > end {
      return None;
    }
    CopyInto(buf, at.value, [BOOLEAN, if value == 0 then 0 else 1]);
    return Some(at.value + 2);
  }

  method WriteDouble(buf: array<Byte>, at: Option<nat>, end: nat, value: Double) returns (r: Option<nat>)
    requires end <= buf.Length && (at.Some? ==> at.value <= end)
    modifies buf
    ensures if at.Some? then Writes(old(buf[..]), buf[..], at.value, end, Encode(Number(value)), r)
            else r == None && buf[..] == old(buf[..])
  {
    if at.None? || at.value + 9 > end {
      return None;
    }
    ghost var s0 := buf[..];
    CopyInto(buf, at.value, [NUMBER]);
    CopyInto(buf, at.value + 1, [value[7], value[6], value[5], value[4], value[3], value[2], value[1], value[0]]);
    PatchedTwice(s0, at.value, [NUMBER], Reverse(value));
    return Some(at.value + 9);
  }

  /** The bytes of a text behind its marker. */
  function TextBody(text: seq<Byte>): seq<Byte>
    requires |text| < 0x1_0000_0000
  {
    if |text| < 65536 then Named(text) else BigEndian32(|text|) + text
  }

  lemma TextBytes(text: seq<Byte>)
    requires |text| < 0x1_0000_0000
    ensures Encode(Str(text)) == [if |text| < 65536 then STRING else LONG_STRING] + TextBody(text)
    ensures |TextBody(text)| == (if |text| < 65536 then 2 else 4) + |text|
    ensures TextBody(text) == if |text| < 65536 then Named(text) else BigEndian32(|text|) + text
  {
  }

  lemma WritesNothing(s: seq<Byte>, at: nat, end: nat, bytes: seq<Byte>)
    requires at <= end <= |s| && at + |bytes| > end
    ensures Writes(s, s, at, end, bytes, None)
  {
  }

  /** A marker and what is written behind it. */
  lemma MarkerThen(s0: seq<Byte>, s1: seq<Byte>, s2: seq<Byte>, at: nat, end: nat, marker: Byte, bytes: seq<Byte>, p: Option<nat>)
    requires at + 1 + |bytes| <= end <= |s0| && s1 == Patched(s0, at, [marker])
    requires Writes(s1, s2, at + 1, end, bytes, p)
    ensures Writes(s0, s2, at, end, [marker] + bytes, Some(at + 1 + |bytes|))
  {
    PatchedTwice(s0, at, [marker], bytes);
  }

  method WriteString(buf: array<Byte>, at: Option<nat>, end: nat, text: seq<Byte>) returns (r: Option<nat>)
    requires end <= buf.Length && (at.Some? ==> at.value <= end)
    modifies buf
    ensures if at.Some? && |text| < 0x1_0000_0000 then Writes(old(buf[..]), buf[..], at.value, end, Encode(Str(text)), r)
            else r == None && buf[..] == old(buf[..])
  {
    hide Writes, Patched, Encode, Named, BigEndian32, TextBody;
    ghost var s0 := buf[..];
    if at.None? || at.value + 1 + (if |text| < 65536 then 2 else 4) + |text| > end || |text| > 0xFFFF_FFFF {
      if at.Some? && |text| < 0x1_0000_0000 {
        TextBytes(text);
        WritesNothing(s0, at.value, end, Encode(Str(text)));
      }
      return None;
    }
    TextBytes(text);
    if |text| < 65536 {
      CopyInto(buf, at.value, [STRING]);
      ghost var s1 := buf[..];
      var p := WriteString16(buf, at.value + 1, end, text);
      MarkerThen(s0, s1, buf[..], at.value, end, STRING, TextBody(text), p);
      return Some(at.value + 1 + 2 + |text|);
    } else {
      CopyInto(buf, at.value, [LONG_STRING]);
      ghost var s1 := buf[..];
      var p := WriteString32(buf, at.value + 1, end, text);
      MarkerThen(s0, s1, buf[..], at.value, end, LONG_STRING, TextBody(text), p);
      return Some(at.value + 1 + 4 + |text|);
    }
  }

  /** A date is written as a number whose marker is then overwritten. */
  method WriteDate(buf: array<Byte>, at: Option<nat>, end: nat, milliseconds: Double, timezone: Int16) returns (r: Option<nat>)
    requires end <= buf.Length && (at.Some? ==> at.value <= end)
    modifies buf
    ensures if at.Some? then Writes(old(buf[..]), buf[..], at.value, end, Encode(Date(milliseconds, timezone)), r)
            else r == None && buf[..] == old(buf[..])
  {
    if at.None? || at.value + 11 > end {
      return None;
    }
    hide Patched, Encode, Reverse, SameOutside, BigEndian16;
    ghost var s0 := buf[..];
    DateBytes(milliseconds, timezone);
    var p := WriteDouble(buf, at, end, milliseconds);
    CopyInto(buf, at.value, [DATE]);
    MarkerRewritten(s0, at.value, NUMBER, DATE, Reverse(milliseconds));
    ghost var s1 := buf[..];
    r := WriteInt16(buf, at.value + 9, end, timezone);
    PatchedTwice(s0, at.value, [DATE] + Reverse(milliseconds), BigEndian16(timezone));
  }

  lemma DateBytes(milliseconds: Double, timezone: Int16)
    ensures Encode(Number(milliseconds)) == [NUMBER] + Reverse(milliseconds) && |Reverse(milliseconds)| == 8
    ensures Encode(Date(milliseconds, timezone)) == ([DATE] + Reverse(milliseconds)) + BigEndian16(timezone)
    ensures |BigEndian16(timezone)| == 2
  {
  }

  lemma MarkerRewritten(s: seq<Byte>, at: nat, before: Byte, after: Byte, bytes: seq<Byte>)
    requires at + 1 + |bytes| <= |s|
    ensures Patched(Patched(s, at, [before] + bytes), at, [after]) == Patched(s, at, [after] + bytes)
  {
  }

  method WriteNamedBoolean(buf: array<Byte>, at: nat, end: nat, name: seq<Byte>, value: Byte) returns (r: Option<nat>)
    requires at <= end <= buf.Length
    modifies buf
    ensures Writes(old(buf[..]), buf[..], at, end, Named(name) + Encode(Boolean(value != 0)), r)
  {
    if at + |name| + 2 + 2 > end {
      return None;
    }
    ghost var s0 := buf[..];
    var p := WriteString16(buf, at, end, name);
    ghost var s1 := buf[..];
    r := WriteBoolean(buf, p, end, value);
    WritesBoth(s0, s1, buf[..], at, end, Named(name), Encode(Boolean(value != 0)), p, r);
  }

  method WriteNamedDouble(buf: array<Byte>, at: nat, end: nat, name: seq<Byte>, value: Double) returns (r: Option<nat>)
    requires at <= end <= buf.Length
    modifies buf
    ensures Writes(old(buf[..]), buf[..], at, end, Named(name) + Encode(Number(value)), r)
  {
    if at + |name| + 2 + 8 + 1 > end {
      return None;
    }
    ghost var s0 := buf[..];
    var p := WriteString16(buf, at, end, name);
    ghost var s1 := buf[..];
    r := WriteDouble(buf, p, end, value);
    WritesBoth(s0, s1, buf[..], at, end, Named(name), Encode(Number(value)), p, r);
  }

  lemma NamedTextIsLonger(name: seq<Byte>, value: seq<Byte>)
    requires |value| < 0x1_0000_0000
    ensures |Named(name) + Encode(Str(value))| >= |name| + 2 + |value| + 3
  {
  }

  /** A long string may turn out not to fit only after its name has been written. */
  method WriteNamedString(buf: array<Byte>, at: nat, end: nat, name: seq<Byte>, value: seq<Byte>) returns (r: Option<nat>)
    requires at <= end <= buf.Length
    modifies buf
    ensures if |value| < 0x1_0000_0000 then Writes(old(buf[..]), buf[..], at, end, Named(name) + Encode(Str(value)), r)
            else r == None && if at + |name| + 2 + |value| + 3 > end then buf[..] == old(buf[..])
                              else Writes(old(buf[..]), buf[..], at, end, Named(name), Some(at + |name| + 2))
  {
    if at + |name| + 2 + |value| + 3 > end {
      if |value| < 0x1_0000_0000 {
        NamedTextIsLonger(name, value);
      }
      return None;
    }
    ghost var s0 := buf[..];
    var p := WriteString16(buf, at, end, name);
    ghost var s1 := buf[..];
    r := WriteString(buf, p, end, value);
    if |value| >= 0x1_0000_0000 {
      return;
    }
    WritesBoth(s0, s1, buf[..], at, end, Named(name), Encode(Str(value)), p, r);
  }

  // ----- a value tree, written with these

  lemma ObjectBytes(v: Value)
    requires Writable(v) && (v.Object? || v.EcmaArray?)
    ensures WritableFields(v.fields)
    ensures Encode(v) == (if v.Object? then [OBJECT] else [ECMA_ARRAY] + [0, 0, 0, 0]) + (Members(v.fields) + FIELDS_END)
  {
    hide Members;
  }

  /** Writes a value of any shape by calling the writer of each of its parts. */
  method WriteValue(buf: array<Byte>, at: nat, end: nat, v: Value) returns (r: Option<nat>)
    requires at <= end <= buf.Length && Writable(v)
    modifies buf
    ensures Writes(old(buf[..]), buf[..], at, end, Encode(v), r)
    decreases v, 1
  {
    hide Writes, Encode, Content, Members, Writable, WritableFields;
    if v.Object? {
      ObjectBytes(v);
      ghost var s0 := buf[..];
      var p := WriteMarker(buf, Some(at), end, OBJECT);
      r := WriteMembers(buf, s0, at, [OBJECT], p, end, v.fields);
    } else if v.EcmaArray? {
      ObjectBytes(v);
      ghost var s0 := buf[..];
      var p := WriteEcmaArray(buf, Some(at), end);
      r := WriteMembers(buf, s0, at, [ECMA_ARRAY] + [0, 0, 0, 0], p, end, v.fields);
    } else {
      r := WriteScalar(buf, at, end, v);
    }
  }

  method WriteScalar(buf: array<Byte>, at: nat, end: nat, v: Value) returns (r: Option<nat>)
    requires at <= end <= buf.Length && Writable(v) && !v.Object? && !v.EcmaArray?
    modifies buf
    ensures Writes(old(buf[..]), buf[..], at, end, Encode(v), r)
  {
    hide Writes;
    match v
    case Number(d) => r := WriteDouble(buf, Some(at), end, d);
    case Boolean(b) => r := WriteBoolean(buf, Some(at), end, if b then 1 else 0);
    case Str(s) => r := WriteString(buf, Some(at), end, s);
    case Date(ms, tz) => r := WriteDate(buf, Some(at), end, ms, tz);
    case Null =>
      r := WriteMarker(buf, Some(at), end, NULL);
      assert Encode(Null) == [NULL];
    case Undefined =>
      r := WriteMarker(buf, Some(at), end, UNDEFINED);
      assert Encode(Undefined) == [UNDEFINED];
  }

  /** Writes the fields and the end of an object, `head` of which has been written from `at` to `p`. */
  method WriteMembers(buf: array<Byte>, ghost s0: seq<Byte>, ghost at: nat, ghost head: seq<Byte>,
                      p: Option<nat>, end: nat, fields: Fields)
    returns (r: Option<nat>)
    requires at <= end <= buf.Length == |s0| && WritableFields(fields) && Writes(s0, buf[..], at, end, head, p)
    modifies buf
    ensures Writes(s0, buf[..], at, end, head + (Members(fields) + FIELDS_END), r)
    decreases fields, 0
  {
    ghost var s1 := buf[..];
    if fields.NoFields? {
      r := WriteObjectEnd(buf, p, end);
      assert [] + FIELDS_END == FIELDS_END;
      WritesBoth(s0, s1, buf[..], at, end, head, FIELDS_END, p, r);
    } else {
      var q := None;
      ghost var field := Named(fields.name) + Encode(fields.value);
      if p.Some? {
        q := WriteField(buf, p.value, end, fields.name, fields.value);
      }
      WritesBoth(s0, s1, buf[..], at, end, head, field, p, q);
      r := WriteMembers(buf, s0, at, head + field, q, end, fields.rest);
      MembersGrow(head, fields);
    }
  }

  lemma MembersGrow(head: seq<Byte>, fields: Fields)
    requires WritableFields(fields) && fields.Field?
    ensures (head + (Named(fields.name) + Encode(fields.value))) + (Members(fields.rest) + FIELDS_END)
         == head + (Members(fields) + FIELDS_END)
  {
    hide Named, Content;
  }

  method WriteField(buf: array<Byte>, at: nat, end: nat, name: seq<Byte>, v: Value) returns (r: Option<nat>)
    requires at <= end <= buf.Length && Writable(v)
    modifies buf
    ensures Writes(old(buf[..]), buf[..], at, end, Named(name) + Encode(v), r)
    decreases v, 2
  {
    ghost var s0 := buf[..];
    var p := WriteString16(buf, at, end, name);
    ghost var s1 := buf[..];
    if p.None? {
      r := None;
    } else {
      r := WriteValue(buf, p.value, end, v);
    }
    WritesBoth(s0, s1, buf[..], at, end, Named(name), Encode(v), p, r);
  }
}
