/** What the writers hand to the socket: a string or a byte array, and the
    octets each becomes on the wire. A string is written as UTF-8 (the
    socket's default encoding), while its JavaScript `length` counts UTF-16
    code units. */
module Octets {

  newtype byte = x: int | 0 <= x < 256

  /** One argument of `netSocket.write`: `string` or `Uint8Array`. */
  datatype Chunk = Text(text: string) | Bytes(data: seq<byte>)

  /** The number of UTF-16 code units of one character. */
  function Utf16Units(c: char): (n: nat)
    ensures n == 1 || n == 2
  {
    if c as int < 0x1_0000 then 1 else 2
  }

  /** `s.length` for a JavaScript string. */
  function Utf16Length(s: string): (n: nat)
    ensures |s| <= n <= 2 * |s|
  {
    if s == [] then 0 else Utf16Length(s[..|s| - 1]) + Utf16Units(s[|s| - 1])
  }

  /** `content.length`, which the writers print as the chunk size. */
  function Length(content: Chunk): nat {
    match content
    case Text(s) => Utf16Length(s)
    case Bytes(b) => |b|
  }

  /** The UTF-8 encoding of one character (a Unicode scalar value). */
  function EncodeChar(c: char): (r: seq<byte>)
    ensures 1 <= |r| <= 4
    ensures |r| == 1 <==> c as int < 0x80
  {
    var n := c as int;
    if n < 0x80 then [n as byte]
    else if n < 0x800 then [(0xC0 + n / 0x40) as byte, (0x80 + n % 0x40) as byte]
    else if n < 0x1_0000 then
      [(0xE0 + n / 0x1000) as byte, (0x80 + n / 0x40 % 0x40) as byte, (0x80 + n % 0x40) as byte]
    else
      [(0xF0 + n / 0x4_0000) as byte, (0x80 + n / 0x1000 % 0x40) as byte,
       (0x80 + n / 0x40 % 0x40) as byte, (0x80 + n % 0x40) as byte]
  }

  function Utf8(s: string): seq<byte> {
    if s == [] then [] else Utf8(s[..|s| - 1]) + EncodeChar(s[|s| - 1])
  }

  /** The octets `netSocket.write(content)` puts on the wire. */
  function OctetsOf(content: Chunk): seq<byte> {
    match content
    case Text(s) => Utf8(s)
    case Bytes(b) => b
  }

  /** The octets of a series of writes, in order. */
  function Concat(cs: seq<Chunk>): seq<byte> {
    if cs == [] then [] else Concat(cs[..|cs| - 1]) + OctetsOf(cs[|cs| - 1])
  }

  predicate IsAscii(s: string) {
    forall i :: 0 <= i < |s| ==> s[i] as int < 0x80
  }

  /** The octets of an ASCII string: one per character, with the character's code. */
  function AsciiBytes(s: string): (r: seq<byte>)
    requires IsAscii(s)
    ensures |r| == |s|
    ensures forall i :: 0 <= i < |s| ==> r[i] as int == s[i] as int
  {
    seq(|s|, i requires 0 <= i < |s| => s[i] as int as byte)
  }

  lemma {:induction false} Utf8Append(a: string, b: string)
    ensures Utf8(a + b) == Utf8(a) + Utf8(b)
    decreases |b|
  {
    if b == [] {
      assert a + b == a;
    } else {
      assert (a + b)[..|a + b| - 1] == a + b[..|b| - 1];
      Utf8Append(a, b[..|b| - 1]);
    }
  }

  /** An ASCII string is written as its character codes, and its JavaScript
      length is its number of octets. */
  lemma {:induction false} AsciiOctets(s: string)
    requires IsAscii(s)
    ensures Utf8(s) == AsciiBytes(s)
    ensures Utf16Length(s) == |s|
  {
    if s != [] {
      var t := s[..|s| - 1];
      AsciiOctets(t);
      assert AsciiBytes(s) == AsciiBytes(t) + [s[|s| - 1] as int as byte];
    }
  }

  lemma {:induction false} ConcatAppend(a: seq<Chunk>, b: seq<Chunk>)
    ensures Concat(a + b) == Concat(a) + Concat(b)
    decreases |b|
  {
    if b == [] {
      assert a + b == a;
    } else {
      assert (a + b)[..|a + b| - 1] == a + b[..|b| - 1];
      ConcatAppend(a, b[..|b| - 1]);
    }
  }

  lemma ConcatOne(c: Chunk)
    ensures Concat([c]) == OctetsOf(c)
  {
    assert [c][..0] == [];
  }
}
