/**
 JavaScript's `encodeURIComponent` on strings of Unicode scalar values:
 unreserved characters pass through and every other character becomes the
 `%XX` escapes of its UTF-8 bytes, with upper-case hexadecimal digits.
 */
module Uri {
  import opened Wrappers

  type Byte = b: int | 0 <= b < 256

  /** The characters `encodeURIComponent` leaves alone. */
  predicate IsUnreserved(c: char) {
    || ('A' <= c <= 'Z') || ('a' <= c <= 'z') || ('0' <= c <= '9')
    || c == '-' || c == '_' || c == '.' || c == '!' || c == '~'
    || c == '*' || c == '\'' || c == '(' || c == ')'
  }

  predicate IsUpperHex(c: char) {
    ('0' <= c <= '9') || ('A' <= c <= 'F')
  }

  /** UTF-8 encoding of one code point (RFC 3629, section 3). */
  function Utf8(c: char): (r: seq<Byte>)
    ensures 1 <= |r| <= 4
    ensures (c as int < 0x80) <==> |r| == 1
    ensures |r| == 1 ==> r[0] == c as int
  {
    var cp := c as int;
    if cp < 0x80 then [cp]
    else if cp < 0x800 then [0xC0 + cp / 64, 0x80 + cp % 64]
    else if cp < 0x10000 then [0xE0 + cp / 4096, 0x80 + (cp / 64) % 64, 0x80 + cp % 64]
    else [0xF0 + cp / 262144, 0x80 + (cp / 4096) % 64, 0x80 + (cp / 64) % 64, 0x80 + cp % 64]
  }

  function Utf8String(s: string): seq<Byte> {
    if |s| == 0 then [] else Utf8(s[0]) + Utf8String(s[1..])
  }

  function HexDigit(n: nat): (c: char)
    requires n < 16
    ensures IsUpperHex(c)
  {
    "0123456789ABCDEF"[n]
  }

  function HexValue(c: char): nat
    requires IsUpperHex(c)
  {
    if c <= '9' then c as int - '0' as int else c as int - 'A' as int + 10
  }

  function Escape(b: Byte): string {
    ['%', HexDigit(b / 16), HexDigit(b % 16)]
  }

  predicate IsEncodedChar(c: char) {
    IsUnreserved(c) || c == '%' || IsUpperHex(c)
  }

  function EscapeAll(bs: seq<Byte>): (r: string)
    ensures forall i :: 0 <= i < |r| ==> IsEncodedChar(r[i])
  {
    if |bs| == 0 then "" else Escape(bs[0]) + EscapeAll(bs[1..])
  }

  function EncodeChar(c: char): (r: string)
    ensures forall i :: 0 <= i < |r| ==> IsEncodedChar(r[i])
  {
    if IsUnreserved(c) then [c] else EscapeAll(Utf8(c))
  }

  /** `encodeURIComponent(s)`. */
  function Encode(s: string): (r: string)
    ensures forall i :: 0 <= i < |r| ==> IsEncodedChar(r[i])
  {
    if |s| == 0 then "" else EncodeChar(s[0]) + Encode(s[1..])
  }

  function Prepend(bs: seq<Byte>, o: Option<seq<Byte>>): Option<seq<Byte>> {
    match o
    case Some(rest) => Some(bs + rest)
    case None => None
  }

  /** Reads an encoded component back into the bytes it stands for; None on a malformed escape. */
  function DecodeBytes(e: string): Option<seq<Byte>>
    decreases |e|
  {
    if |e| == 0 then Some([])
    else if e[0] == '%' then
      if |e| >= 3 && IsUpperHex(e[1]) && IsUpperHex(e[2]) then
        var b := HexValue(e[1]) * 16 + HexValue(e[2]);
        if b < 256 then
          Prepend([b as Byte], DecodeBytes(e[3..]))
        else None
      else None
    else if e[0] as int < 0x80 then
      Prepend([e[0] as int as Byte], DecodeBytes(e[1..]))
    else None
  }

  lemma DecodeEscape(b: Byte, tail: string)
    ensures DecodeBytes(Escape(b) + tail) == Prepend([b], DecodeBytes(tail))
  {
    var e := Escape(b) + tail;
    var hi, lo := HexDigit(b / 16), HexDigit(b % 16);
    assert e[0] == '%' && e[1] == hi && e[2] == lo;
    assert HexValue(hi) == b / 16;
    assert HexValue(lo) == b % 16;
    assert e[3..] == tail;
  }

  lemma {:induction false} DecodeEscapes(bs: seq<Byte>, tail: string)
    ensures DecodeBytes(EscapeAll(bs) + tail) == Prepend(bs, DecodeBytes(tail))
    decreases |bs|
  {
    if |bs| == 0 {
      assert EscapeAll(bs) + tail == tail;
      PrependNothing(DecodeBytes(tail));
    } else {
      var rest := EscapeAll(bs[1..]) + tail;
      assert EscapeAll(bs) + tail == Escape(bs[0]) + rest;
      DecodeEscape(bs[0], rest);
      DecodeEscapes(bs[1..], tail);
      PrependTwice(bs[0], bs[1..], DecodeBytes(tail));
      assert [bs[0]] + bs[1..] == bs;
    }
  }

  lemma PrependNothing(o: Option<seq<Byte>>)
    ensures Prepend([], o) == o
  {
    if o.Some? {
      assert [] + o.value == o.value;
    }
  }

  lemma PrependTwice(b: Byte, rest: seq<Byte>, o: Option<seq<Byte>>)
    ensures Prepend([b], Prepend(rest, o)) == Prepend([b] + rest, o)
  {
    if o.Some? {
      assert [b] + (rest + o.value) == ([b] + rest) + o.value;
    }
  }

  /** Decoding the encoded component yields exactly the UTF-8 bytes of the original text. */
  lemma {:induction false} EncodeRoundTrip(s: string)
    ensures DecodeBytes(Encode(s)) == Some(Utf8String(s))
    decreases |s|
  {
    if |s| > 0 {
      EncodeRoundTrip(s[1..]);
      if IsUnreserved(s[0]) {
        var e := Encode(s);
        assert e == [s[0]] + Encode(s[1..]);
        assert e[1..] == Encode(s[1..]);
      } else {
        DecodeEscapes(Utf8(s[0]), Encode(s[1..]));
      }
    }
  }
}
