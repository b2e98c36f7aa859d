/** Chunked transfer coding as in section 7.1 of RFC 9112: every chunk is its
    size in hexadecimal, CRLF, the data and CRLF; the body ends with the
    last chunk `0` CRLF followed by the empty trailer section and CRLF.
    `DecodeBody` reads the subset the writers produce (no chunk extensions,
    no trailer fields) and is the partner against which the framing is
    checked. */
module Chunked {
  import opened Maybe
  import opened Radix
  import opened Octets

  const CRLF: string := "\r\n"
  /** The last chunk and the empty trailer section: `0\r\n\r\n`. */
  const LastChunk: string := "0\r\n\r\n"
  const CrLfBytes: seq<byte> := [13, 10]
  const LastChunkBytes: seq<byte> := [48, 13, 10, 13, 10]

  /** `${n.toString(16)}\r\n`. */
  function SizeLine(n: nat): string {
    ToRadix(n, 16) + CRLF
  }

  /** The three writes the chunked branch of `write` makes for one body write:
      the size line (from `content.length`), the content, CRLF. */
  function Frame(content: Chunk): seq<Chunk> {
    [Text(SizeLine(Length(content))), content, Text(CRLF)]
  }

  // ---------------------------------------------------------------- decoding

  predicate IsHexByte(b: byte) {
    DigitValue(b as int as char) < 16
  }

  /** The number of hexadecimal digits at the start of `w`. */
  function SpanHex(w: seq<byte>): (k: nat)
    ensures k <= |w|
    ensures forall i :: 0 <= i < k ==> IsHexByte(w[i])
    ensures k < |w| ==> !IsHexByte(w[k])
  {
    if w == [] || !IsHexByte(w[0]) then 0 else 1 + SpanHex(w[1..])
  }

  function HexValue(w: seq<byte>): nat
    requires forall i :: 0 <= i < |w| ==> IsHexByte(w[i])
  {
    if w == [] then 0 else HexValue(w[..|w| - 1]) * 16 + DigitValue(w[|w| - 1] as int as char)
  }

  /** The data of the chunks of a chunked body, or None when `w` is not
      exactly such a body. */
  function DecodeBody(w: seq<byte>): Option<seq<seq<byte>>>
    decreases |w|, 1
  {
    var k := SpanHex(w);
    if k == 0 || |w| < k + 2 || w[k..k + 2] != CrLfBytes then None
    else DecodeData(HexValue(w[..k]), w[k + 2..])
  }

  /** The rest of a chunked body once a size line naming `size` was read. */
  function DecodeData(size: nat, rest: seq<byte>): Option<seq<seq<byte>>>
    decreases |rest|, 0
  {
    if size == 0 then (if rest == CrLfBytes then Some([]) else None)
    else if |rest| < size + 2 || rest[size..size + 2] != CrLfBytes then None
    else match DecodeBody(rest[size + 2..])
      case None => None
      case Some(tail) => Some([rest[..size]] + tail)
  }

  // ---------------------------------------------------------------- encoding

  /** The octets of one chunk holding `m`. */
  function EncodeChunk(m: seq<byte>): seq<byte> {
    Utf8(SizeLine(|m|)) + m + CrLfBytes
  }

  /** The octets of a chunked body holding `ms`, one chunk each. */
  function EncodeBody(ms: seq<seq<byte>>): seq<byte> {
    if ms == [] then LastChunkBytes else EncodeChunk(ms[0]) + EncodeBody(ms[1..])
  }

  lemma DigitsAreAscii(s: string, radix: nat)
    requires IsDigits(s, radix) && radix <= 36
    ensures IsAscii(s)
  {
    forall i | 0 <= i < |s| ensures s[i] as int < 0x80 {
      assert DigitValue(s[i]) < 36;
    }
  }

  lemma CrLfOctets()
    ensures IsAscii(CRLF) && Utf8(CRLF) == CrLfBytes
    ensures IsAscii(LastChunk) && Utf8(LastChunk) == LastChunkBytes
  {
    AsciiOctets(CRLF);
    AsciiOctets(LastChunk);
  }

  /** A size line is ASCII: its hexadecimal digits, then CR LF. */
  lemma SizeLineOctets(n: nat)
    ensures IsAscii(SizeLine(n))
    ensures Utf8(SizeLine(n)) == AsciiBytes(ToRadix(n, 16)) + CrLfBytes
  {
    DigitsAreAscii(ToRadix(n, 16), 16);
    CrLfOctets();
    Utf8Append(ToRadix(n, 16), CRLF);
    AsciiOctets(ToRadix(n, 16));
  }

  lemma {:induction false} HexValueOfDigits(s: string)
    requires IsDigits(s, 16)
    ensures IsAscii(s)
    ensures forall i :: 0 <= i < |s| ==> IsHexByte(AsciiBytes(s)[i])
    ensures HexValue(AsciiBytes(s)) == ParseRadix(s, 16)
  {
    DigitsAreAscii(s, 16);
    if s != [] {
      var t := s[..|s| - 1];
      HexValueOfDigits(t);
      assert AsciiBytes(s)[..|s| - 1] == AsciiBytes(t);
    }
  }

  lemma {:induction false} SpanHexPrefix(h: seq<byte>, tail: seq<byte>)
    requires forall i :: 0 <= i < |h| ==> IsHexByte(h[i])
    requires tail != [] && !IsHexByte(tail[0])
    ensures SpanHex(h + tail) == |h|
  {
    if h != [] {
      assert (h + tail)[1..] == h[1..] + tail;
      SpanHexPrefix(h[1..], tail);
    }
  }

  /** Reading a size line: hexadecimal digits `h` naming `n`, then CRLF. */
  lemma DecodeSizeLine(h: seq<byte>, n: nat, rest: seq<byte>)
    requires h != [] && forall i :: 0 <= i < |h| ==> IsHexByte(h[i])
    requires HexValue(h) == n
    ensures DecodeBody(h + CrLfBytes + rest) == DecodeData(n, rest)
  {
    var w := h + CrLfBytes + rest;
    assert w == h + (CrLfBytes + rest);
    assert !IsHexByte(13 as byte);
    SpanHexPrefix(h, CrLfBytes + rest);
    assert w[..|h|] == h;
    assert w[|h|..|h| + 2] == CrLfBytes;
    assert w[|h| + 2..] == rest;
  }

  /** Reading the data of a chunk of size `|m|` and the CRLF after it. */
  lemma DecodeDataStep(m: seq<byte>, r: seq<byte>)
    requires m != []
    ensures DecodeData(|m|, m + CrLfBytes + r) ==
      match DecodeBody(r)
      case None => None
      case Some(tail) => Some([m] + tail)
  {
    var rest := m + CrLfBytes + r;
    assert rest[..|m|] == m;
    assert rest[|m|..|m| + 2] == CrLfBytes;
    assert rest[|m| + 2..] == r;
  }

  /** Decoding one chunk: the size line names `|m|`, the data follows, and the
      rest of the body is read on from the CRLF after it. */
  lemma DecodeChunkStep(m: seq<byte>, r: seq<byte>)
    requires m != []
    ensures DecodeBody(EncodeChunk(m) + r) ==
      match DecodeBody(r)
      case None => None
      case Some(tail) => Some([m] + tail)
  {
    var s := ToRadix(|m|, 16);
    var h := AsciiBytes(s);
    SizeLineOctets(|m|);
    HexValueOfDigits(s);
    ParseToRadix(|m|, 16);
    assert EncodeChunk(m) + r == h + CrLfBytes + (m + CrLfBytes + r);
    DecodeSizeLine(h, |m|, m + CrLfBytes + r);
    DecodeDataStep(m, r);
  }

  lemma LastChunkDecodes()
    ensures DecodeBody(LastChunkBytes) == Some([])
  {
    var w := LastChunkBytes;
    assert IsHexByte(48 as byte) && !IsHexByte(13 as byte);
    assert w[1..] == [13, 10, 13, 10];
    assert SpanHex(w) == 1;
    assert w[..1] == [48];
    assert HexValue([48]) == 0 by {
      assert [48 as byte][..0] == [];
    }
  }

  /** Round trip: a body made of one chunk per non-empty piece of data, then
      the last chunk, decodes to exactly those pieces, in order. */
  lemma {:induction false} DecodeEncodeBody(ms: seq<seq<byte>>)
    requires forall i :: 0 <= i < |ms| ==> ms[i] != []
    ensures DecodeBody(EncodeBody(ms)) == Some(ms)
  {
    if ms == [] {
      LastChunkDecodes();
    } else {
      DecodeEncodeBody(ms[1..]);
      DecodeChunkStep(ms[0], EncodeBody(ms[1..]));
      assert [ms[0]] + ms[1..] == ms;
    }
  }

  // ---------------------------------------------------------------- the frames as written

  lemma Concat3(a: Chunk, b: Chunk, c: Chunk)
    ensures Concat([a, b, c]) == OctetsOf(a) + OctetsOf(b) + OctetsOf(c)
  {
    assert [a, b, c][..2] == [a, b];
    assert [a, b][..1] == [a];
    assert [a][..0] == [];
    assert Concat([a]) == OctetsOf(a) by {
      assert Concat([a]) == Concat([]) + OctetsOf(a);
    }
    assert Concat([a, b]) == OctetsOf(a) + OctetsOf(b);
  }

  /** For a byte array, the frame `write` emits is exactly one chunk of it. */
  lemma FrameOctets(m: seq<byte>)
    ensures Concat(Frame(Bytes(m))) == EncodeChunk(m)
  {
    Concat3(Text(SizeLine(|m|)), Bytes(m), Text(CRLF));
    CrLfOctets();
  }

  /** A non-empty byte array written in chunked mode and followed by the
      terminator of `finishWrite` forms a body that decodes to the array. */
  lemma FrameThenLastChunk(m: seq<byte>)
    requires m != []
    ensures DecodeBody(Concat(Frame(Bytes(m)) + [Text(LastChunk)])) == Some([m])
  {
    FrameAndLastChunk(m);
    OneChunkBody(m);
    DecodeEncodeBody([m]);
  }

  lemma FrameAndLastChunk(m: seq<byte>)
    ensures Concat(Frame(Bytes(m)) + [Text(LastChunk)]) == EncodeChunk(m) + LastChunkBytes
  {
    FrameOctets(m);
    CrLfOctets();
    ConcatAppend(Frame(Bytes(m)), [Text(LastChunk)]);
    ConcatOne(Text(LastChunk));
  }

  lemma OneChunkBody(m: seq<byte>)
    ensures EncodeBody([m]) == EncodeChunk(m) + LastChunkBytes
  {
    assert [m][1..] == [];
  }

  /** As written: a zero-length write in chunked mode puts the last-chunk
      marker `0\r\n\r\n` on the wire, so a receiver sees a complete, empty
      body there and reads whatever follows as the next message. */
  lemma EmptyWriteIsLastChunk()
    ensures Concat(Frame(Bytes([]))) == LastChunkBytes
    ensures DecodeBody(Concat(Frame(Bytes([])))) == Some([])
  {
    FrameOctets([]);
    EmptyChunk();
    LastChunkDecodes();
  }

  lemma EmptyChunk()
    ensures EncodeChunk([]) == LastChunkBytes
  {
    SizeLineOctets(0);
    assert ToRadix(0, 16) == "0";
    assert AsciiBytes("0") == [48];
  }

  lemma OneCharOctets()
    ensures Utf8("é") == [0xC3, 0xA9] && Utf16Length("é") == 1
  {
    assert "é"[..0] == [];
  }

  /** The octets of the frame and terminator that `write("é")` and
      `finishWrite()` put on the wire. */
  lemma SizeLineOne()
    ensures Utf8(SizeLine(1)) == [49] + CrLfBytes
  {
    SizeLineOctets(1);
    assert ToRadix(1, 16) == "1";
    assert AsciiBytes("1") == [49];
  }

  lemma TextFrameAlone()
    ensures Concat(Frame(Text("é"))) == [49] + CrLfBytes + [0xC3, 0xA9] + CrLfBytes
  {
    OneCharOctets();
    SizeLineOne();
    CrLfOctets();
    Concat3(Text(SizeLine(1)), Text("é"), Text(CRLF));
  }

  lemma LastChunkAlone()
    ensures Concat([Text(LastChunk)]) == LastChunkBytes
  {
    CrLfOctets();
    assert [Text(LastChunk)][..0] == [];
  }

  lemma TextFrameOctets()
    ensures Concat(Frame(Text("é")) + [Text(LastChunk)]) ==
      [49] + CrLfBytes + ([0xC3, 0xA9] + CrLfBytes + LastChunkBytes)
  {
    TextFrameAlone();
    LastChunkAlone();
    ConcatAppend(Frame(Text("é")), [Text(LastChunk)]);
  }

  /** As written: for a string the size line counts UTF-16 code units, but the
      socket writes UTF-8 octets. "é" is one unit and two octets, so the
      receiver takes one octet as the data, finds no CRLF after it and
      rejects the body. */
  lemma TextSizeMismatch()
    ensures Length(Text("é")) == 1
    ensures |OctetsOf(Text("é"))| == 2
    ensures DecodeBody(Concat(Frame(Text("é")) + [Text(LastChunk)])) == None
  {
    OneCharOctets();
    TextFrameOctets();
    var rest: seq<byte> := [0xC3, 0xA9] + CrLfBytes + LastChunkBytes;
    assert IsHexByte(49 as byte);
    assert HexValue([49]) == 1 by {
      assert [49 as byte][..0] == [];
    }
    DecodeSizeLine([49], 1, rest);
    assert rest[1..3] == [0xA9, 13];
  }

  // ---------------------------------------------------------------- the corrected framing

  /** The intended framing of one write: the size is the number of octets
      the write puts on the wire, and a write with no octets emits no chunk
      (an empty chunk would be read as the last one). */
  function StreamFrame(content: Chunk): seq<Chunk> {
    var n := |OctetsOf(content)|;
    if n == 0 then [] else [Text(SizeLine(n)), content, Text(CRLF)]
  }

  function StreamFrames(cs: seq<Chunk>): seq<Chunk> {
    if cs == [] then [] else StreamFrame(cs[0]) + StreamFrames(cs[1..])
  }

  lemma StreamFramesOne(c: Chunk)
    ensures StreamFrames([c]) == StreamFrame(c)
  {
    assert [c][1..] == [];
  }

  /** One more write adds its frame at the end. */
  lemma {:induction false} StreamFramesSnoc(cs: seq<Chunk>, c: Chunk)
    ensures StreamFrames(cs + [c]) == StreamFrames(cs) + StreamFrame(c)
  {
    if cs == [] {
      assert [c][1..] == [];
      assert StreamFrames([c]) == StreamFrame(c) + StreamFrames([]);
    } else {
      var d := cs + [c];
      assert d[0] == cs[0] && d[1..] == cs[1..] + [c];
      assert StreamFrames(d) == StreamFrame(cs[0]) + StreamFrames(cs[1..] + [c]);
      StreamFramesSnoc(cs[1..], c);
      assert StreamFrames(cs) == StreamFrame(cs[0]) + StreamFrames(cs[1..]);
    }
  }

  /** The octets of each write, leaving out the writes that have none. */
  function NonEmptyOctets(cs: seq<Chunk>): (ms: seq<seq<byte>>)
    ensures forall i :: 0 <= i < |ms| ==> ms[i] != []
  {
    if cs == [] then []
    else if OctetsOf(cs[0]) == [] then NonEmptyOctets(cs[1..])
    else [OctetsOf(cs[0])] + NonEmptyOctets(cs[1..])
  }

  lemma StreamFrameOctets(c: Chunk)
    ensures Concat(StreamFrame(c)) ==
      if OctetsOf(c) == [] then [] else EncodeChunk(OctetsOf(c))
  {
    var m := OctetsOf(c);
    if m != [] {
      Concat3(Text(SizeLine(|m|)), c, Text(CRLF));
      CrLfOctets();
    }
  }

  lemma NonEmptyOctetsCons(cs: seq<Chunk>)
    requires cs != []
    ensures NonEmptyOctets(cs) ==
      (if OctetsOf(cs[0]) == [] then [] else [OctetsOf(cs[0])]) + NonEmptyOctets(cs[1..])
  {
  }

  lemma EncodeBodyCons(m: seq<byte>, ms: seq<seq<byte>>)
    ensures EncodeBody([m] + ms) == EncodeChunk(m) + EncodeBody(ms)
  {
    assert ([m] + ms)[0] == m && ([m] + ms)[1..] == ms;
  }

  /** The octets of the corrected frames of a series of writes, then the
      last chunk, are the chunked encoding of the writes' non-empty octets. */
  lemma {:induction false} StreamFramesOctets(cs: seq<Chunk>)
    ensures Concat(StreamFrames(cs)) + LastChunkBytes == EncodeBody(NonEmptyOctets(cs))
  {
    if cs != [] {
      StreamFramesOctets(cs[1..]);
      if OctetsOf(cs[0]) == [] {
        SkipEmptyWrite(cs);
      } else {
        FrameWrite(cs);
      }
    }
  }

  /** A write with no octets adds nothing to the body. */
  lemma SkipEmptyWrite(cs: seq<Chunk>)
    requires cs != [] && OctetsOf(cs[0]) == []
    requires Concat(StreamFrames(cs[1..])) + LastChunkBytes == EncodeBody(NonEmptyOctets(cs[1..]))
    ensures Concat(StreamFrames(cs)) + LastChunkBytes == EncodeBody(NonEmptyOctets(cs))
  {
    assert StreamFrame(cs[0]) == [];
    assert StreamFrames(cs) == StreamFrames(cs[1..]);
    NonEmptyOctetsCons(cs);
    assert NonEmptyOctets(cs) == NonEmptyOctets(cs[1..]);
  }

  /** A write with octets adds one chunk of them in front of the rest of the body. */
  lemma FrameWrite(cs: seq<Chunk>)
    requires cs != [] && OctetsOf(cs[0]) != []
    requires Concat(StreamFrames(cs[1..])) + LastChunkBytes == EncodeBody(NonEmptyOctets(cs[1..]))
    ensures Concat(StreamFrames(cs)) + LastChunkBytes == EncodeBody(NonEmptyOctets(cs))
  {
    var m := OctetsOf(cs[0]);
    var rest := StreamFrames(cs[1..]);
    var tail := NonEmptyOctets(cs[1..]);
    assert StreamFrames(cs) == StreamFrame(cs[0]) + rest;
    ConcatAppend(StreamFrame(cs[0]), rest);
    StreamFrameOctets(cs[0]);
    Regroup(EncodeChunk(m), Concat(rest), LastChunkBytes, EncodeBody(tail));
    NonEmptyOctetsCons(cs);
    assert NonEmptyOctets(cs) == [m] + tail;
    EncodeBodyCons(m, tail);
  }

  lemma Regroup(a: seq<byte>, r: seq<byte>, l: seq<byte>, e: seq<byte>)
    requires r + l == e
    ensures a + r + l == a + e
  {
  }

  /** Round trip of the corrected framing, for strings and byte arrays alike:
      the writes, framed and followed by the last chunk, decode to the
      octets of the non-empty writes, in order. */
  lemma StreamFramesDecode(cs: seq<Chunk>)
    ensures DecodeBody(Concat(StreamFrames(cs)) + LastChunkBytes) == Some(NonEmptyOctets(cs))
  {
    StreamFramesOctets(cs);
    DecodeEncodeBody(NonEmptyOctets(cs));
  }
}
