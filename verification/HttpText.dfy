/** Searching for line ends and reading chunk lengths: the text operations of the HTTP parser. */
module HttpText {
  import opened Bytes
  import opened Options

  const CR: Byte := 13
  const CRLF: seq<Byte> := [13, 10]
  const CRLFCRLF: seq<Byte> := [13, 10, 13, 10]

  /** The first place where `pattern` occurs, as std::search finds it. */
  function Find(pattern: seq<Byte>, s: seq<Byte>): (at: Option<nat>)
    requires pattern != []
    ensures at.Some? ==> at.value + |pattern| <= |s| && s[at.value..at.value + |pattern|] == pattern
    decreases |s|
  {
    if |s| < |pattern| then None
    else if s[..|pattern|] == pattern then Some(0)
    else
      var later := Find(pattern, s[1..]);
      if later.None? then None else Some(later.value + 1)
  }

  /** More bytes do not move an occurrence that is there already, and complete one only at the seam. */
  lemma {:induction false} FindInPrefix(pattern: seq<Byte>, a: seq<Byte>, b: seq<Byte>)
    requires pattern != []
    ensures Find(pattern, a).Some? ==> Find(pattern, a + b) == Find(pattern, a)
    ensures Find(pattern, a).None? && Find(pattern, a + b).Some? ==> Find(pattern, a + b).value + |pattern| > |a|
    decreases |a|
  {
    if |a| >= |pattern| {
      assert (a + b)[..|pattern|] == a[..|pattern|];
      assert (a + b)[1..] == a[1..] + b;
      FindInPrefix(pattern, a[1..], b);
    }
  }

  // ----- hexadecimal numbers

  function HexDigit(c: Byte): Option<nat> {
    if 48 <= c <= 57 then Some(c - 48)
    else if 97 <= c <= 102 then Some(c - 87)
    else if 65 <= c <= 70 then Some(c - 55)
    else None
  }

  /** The value of the leading hexadecimal digits, after `acc`, as strtol reads them. */
  function HexValue(line: seq<Byte>, acc: nat): nat
    decreases |line|
  {
    if line == [] || HexDigit(line[0]).None? then acc
    else HexValue(line[1..], acc * 16 + HexDigit(line[0]).value)
  }

  function ToHexDigit(d: nat): Byte
    requires d < 16
  {
    if d < 10 then d + 48 else d + 87
  }

  function ToHex(n: nat): (s: seq<Byte>) {
    if n < 16 then [ToHexDigit(n)] else ToHex(n / 16) + [ToHexDigit(n % 16)]
  }

  lemma {:induction false} HexValueAppend(line: seq<Byte>, c: Byte, acc: nat)
    requires forall d | d in line + [c] :: HexDigit(d).Some?
    ensures HexValue(line + [c], acc) == HexValue(line, acc) * 16 + HexDigit(c).value
    decreases |line|
  {
    if line == [] {
      assert ([] + [c])[1..] == [];
    } else {
      assert (line + [c])[1..] == line[1..] + [c];
      HexValueAppend(line[1..], c, acc * 16 + HexDigit(line[0]).value);
    }
  }

  /** Reading a number back gives the number, and its digits hold no line end. */
  lemma {:induction false} HexRoundTrip(n: nat)
    ensures HexValue(ToHex(n), 0) == n
    ensures forall d | d in ToHex(n) :: HexDigit(d).Some? && d != CR
  {
    if n >= 16 {
      HexRoundTrip(n / 16);
      HexValueAppend(ToHex(n / 16), ToHexDigit(n % 16), 0);
    }
  }

  lemma {:induction false} HexLength(n: nat, digits: nat)
    requires digits > 0 && n < Power16(digits)
    ensures |ToHex(n)| <= digits
    decreases digits
  {
    if n >= 16 {
      HexLength(n / 16, digits - 1);
    }
  }

  function Power16(n: nat): (p: nat)
    ensures p > 0
  {
    if n == 0 then 1 else 16 * Power16(n - 1)
  }

  /** A line without carriage return ends at the first line end after it. */
  lemma {:induction false} FindAfterLine(line: seq<Byte>, rest: seq<Byte>)
    requires CR !in line
    ensures Find(CRLF, line + CRLF + rest) == Some(|line|)
    decreases |line|
  {
    var s := line + CRLF + rest;
    if line == [] {
      assert s[..2] == CRLF;
    } else {
      assert s[0] == line[0] && s[..2][0] == s[0];
      assert s[1..] == line[1..] + CRLF + rest;
      FindAfterLine(line[1..], rest);
    }
  }
}
