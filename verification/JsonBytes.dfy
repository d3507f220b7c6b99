/** The JSON string a property name is written as, and its reading under section 7 of RFC 8259. */
module JsonBytes {
  import opened Basics

  const QUOTE: Byte := 0x22
  const BACKSLASH: Byte := 0x5c

  function HexByte(n: Byte): (r: Byte)
    requires n < 16
    ensures HexOf(r) == Some(n) && r == "0123456789abcdef"[n] as int
  {
    if n < 10 then 0x30 + n else 0x61 + n - 10
  }

  /** A hexadecimal digit of either case. */
  function HexOf(b: Byte): Option<nat> {
    if 0x30 <= b <= 0x39 then Some(b - 0x30)
    else if 0x61 <= b <= 0x66 then Some(b - 0x61 + 10)
    else if 0x41 <= b <= 0x46 then Some(b - 0x41 + 10)
    else None
  }

  lemma HexOfMeaning(b: Byte, n: nat)
    requires n < 16
    ensures HexOf(b) == Some(n) <==> b == "0123456789abcdef"[n] as int || b == "0123456789ABCDEF"[n] as int
  {
  }

  function EscapedByte(b: Byte): seq<Byte> {
    if b == QUOTE || b == BACKSLASH then [BACKSLASH, b]
    else if b >= 0x20 && b != 0x7f then [b]
    else [BACKSLASH, 0x75, 0x30, 0x30, HexByte(b / 16), HexByte(b % 16)]
  }

  function Escaped(bytes: seq<Byte>): seq<Byte> {
    if bytes == [] then [] else Escaped(bytes[..|bytes| - 1]) + EscapedByte(bytes[|bytes| - 1])
  }

  function JsonString(bytes: seq<Byte>): seq<Byte> {
    [QUOTE] + Escaped(bytes) + [QUOTE]
  }

  /** append_json_bytes. */
  method AppendJsonBytes(output: seq<Byte>, bytes: seq<Byte>) returns (r: seq<Byte>)
    ensures r == output + JsonString(bytes)
  {
    hide EscapedByte, Escaped;
    r := output + [QUOTE];
    NothingEscaped(bytes);
    for index := 0 to |bytes|
      invariant r == output + [QUOTE] + Escaped(bytes[..index])
    {
      EscapedOneMore(bytes, index);
      r := AppendByte(r, bytes[index]);
      assert r == output + [QUOTE] + (Escaped(bytes[..index]) + EscapedByte(bytes[index]));
    }
    assert bytes[..|bytes|] == bytes;
    r := r + [QUOTE];
  }

  /** The body of its loop. */
  method AppendByte(output: seq<Byte>, value: Byte) returns (r: seq<Byte>)
    ensures r == output + EscapedByte(value)
  {
    if value == QUOTE || value == BACKSLASH {
      r := output + [BACKSLASH] + [value];
    } else if value >= 0x20 && value != 0x7f {
      r := output + [value];
    } else {
      r := output + [BACKSLASH, 0x75, 0x30, 0x30, HexByte(value / 16), HexByte(value % 16)];
    }
  }

  /** Quotes and backslashes follow a backslash, printable bytes stand for themselves, and the others are
      written as four hexadecimal digits. */
  lemma EscapeMeaning(b: Byte)
    ensures EscapedByte(b)
         == if b == '"' as int || b == '\\' as int then ['\\' as int, b]
            else if ' ' as int <= b && b != 127 then [b]
            else ['\\' as int, 'u' as int, '0' as int, '0' as int, "0123456789abcdef"[b / 16] as int,
                  "0123456789abcdef"[b % 16] as int]
  {
  }

  /** The string is one line of printable bytes between two quotes. */
  lemma {:induction false} JsonIsPrintable(bytes: seq<Byte>)
    ensures forall i :: 0 <= i < |JsonString(bytes)| ==> 32 <= JsonString(bytes)[i] && JsonString(bytes)[i] != 127
    ensures JsonString(bytes)[0] == '"' as int == JsonString(bytes)[|JsonString(bytes)| - 1]
  {
    EscapedIsPrintable(bytes);
  }

  lemma {:induction false} EscapedIsPrintable(bytes: seq<Byte>)
    ensures forall i :: 0 <= i < |Escaped(bytes)| ==> 32 <= Escaped(bytes)[i] && Escaped(bytes)[i] != 127
  {
    if bytes != [] {
      EscapedIsPrintable(bytes[..|bytes| - 1]);
    }
  }

  lemma NothingEscaped(bytes: seq<Byte>)
    ensures Escaped(bytes[..0]) == []
  {
  }

  lemma EscapedOneMore(bytes: seq<Byte>, k: nat)
    requires k < |bytes|
    ensures Escaped(bytes[..k + 1]) == Escaped(bytes[..k]) + EscapedByte(bytes[k])
  {
    assert bytes[..k + 1][..k] == bytes[..k];
  }

  /** The short escapes of the grammar. */
  function ShortEscape(b: Byte): Option<nat> {
    if b == QUOTE || b == BACKSLASH || b == 0x2f then Some(b)
    else if b == 0x62 then Some(0x08)
    else if b == 0x66 then Some(0x0c)
    else if b == 0x6e then Some(0x0a)
    else if b == 0x72 then Some(0x0d)
    else if b == 0x74 then Some(0x09)
    else None
  }

  /** Reads string contents up to the closing quote; a \u escape stands for its code unit, a byte that
      is not escaped for itself; unescaped control characters are not allowed.  The rest follows. */
  function Unescape(s: seq<Byte>): Option<(seq<nat>, seq<Byte>)>
    decreases |s|
  {
    if s == [] then None
    else if s[0] == QUOTE then Some(([], s[1..]))
    else if s[0] < 0x20 then None
    else if s[0] != BACKSLASH then Prepend(s[0], Unescape(s[1..]))
    else if |s| < 2 then None
    else if ShortEscape(s[1]).Some? then Prepend(ShortEscape(s[1]).value, Unescape(s[2..]))
    else if s[1] != 0x75 || |s| < 6 || CodeUnit(s[2..6]).None? then None
    else Prepend(CodeUnit(s[2..6]).value, Unescape(s[6..]))
  }

  function Prepend(n: nat, rest: Option<(seq<nat>, seq<Byte>)>): Option<(seq<nat>, seq<Byte>)> {
    if rest.None? then None else Some(([n] + rest.value.0, rest.value.1))
  }

  function CodeUnit(h: seq<Byte>): Option<nat>
    requires |h| == 4
  {
    if HexOf(h[0]).None? || HexOf(h[1]).None? || HexOf(h[2]).None? || HexOf(h[3]).None? then None
    else Some(((HexOf(h[0]).value * 16 + HexOf(h[1]).value) * 16 + HexOf(h[2]).value) * 16 + HexOf(h[3]).value)
  }

  /** A code unit is read from its four digits. */
  lemma CodeUnitReadsBack(a: Byte, b: Byte, c: Byte, d: Byte)
    requires a < 16 && b < 16 && c < 16 && d < 16
    ensures CodeUnit([HexByte(a), HexByte(b), HexByte(c), HexByte(d)]) == Some(4096 * a + 256 * b + 16 * c + d)
  {
    hide HexByte, HexOf;
  }

  function ReadJsonString(s: seq<Byte>): Option<(seq<nat>, seq<Byte>)> {
    if s == [] || s[0] != QUOTE then None else Unescape(s[1..])
  }

  lemma OneByteReadsBack(b: Byte, tail: seq<Byte>)
    ensures Unescape(EscapedByte(b) + tail) == Prepend(b, Unescape(tail))
  {
    var s := EscapedByte(b) + tail;
    if b == QUOTE || b == BACKSLASH {
      assert s[2..] == tail;
    } else if b >= 0x20 && b != 0x7f {
      assert s[1..] == tail;
    } else {
      ControlByteReadsBack(b, tail);
    }
  }

  /** A byte that is written as a code unit. */
  lemma ControlByteReadsBack(b: Byte, tail: seq<Byte>)
    requires b < 0x20 || b == 0x7f
    ensures Unescape(EscapedByte(b) + tail) == Prepend(b, Unescape(tail))
  {
    var s, digits := EscapedByte(b) + tail, [0x30, 0x30, HexByte(b / 16), HexByte(b % 16)];
    assert CodeUnit(digits) == Some(b);
    hide CodeUnit, HexByte;
    assert s[6..] == tail && s[2..6] == digits;
  }

  lemma {:induction false} EscapedReadsBack(bytes: seq<Byte>, tail: seq<Byte>)
    requires Unescape(tail).Some?
    ensures Unescape(Escaped(bytes) + tail) == Some((bytes + Unescape(tail).value.0, Unescape(tail).value.1))
  {
    hide Unescape, EscapedByte;
    if bytes == [] {
      assert [] + tail == tail && [] + Unescape(tail).value.0 == Unescape(tail).value.0;
    } else {
      var init, last := bytes[..|bytes| - 1], bytes[|bytes| - 1];
      OneByteReadsBack(last, tail);
      assert Escaped(bytes) + tail == Escaped(init) + (EscapedByte(last) + tail);
      EscapedReadsBack(init, EscapedByte(last) + tail);
      assert init + ([last] + Unescape(tail).value.0) == bytes + Unescape(tail).value.0;
    }
  }

  /** For every byte sequence the string reads back as those bytes, and what follows is untouched. */
  lemma JsonRoundTrip(bytes: seq<Byte>, tail: seq<Byte>)
    ensures ReadJsonString(JsonString(bytes) + tail) == Some((bytes, tail))
  {
    var s := JsonString(bytes) + tail;
    var close := [QUOTE] + tail;
    assert close[1..] == tail && Unescape(close) == Some(([], tail));
    assert s[1..] == Escaped(bytes) + close;
    EscapedReadsBack(bytes, close);
    assert bytes + [] == bytes;
  }
}
