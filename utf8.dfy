/** Python's `str.encode()` and `bytes.decode()` with their default codec,
    strict UTF-8 (RFC 3629). The two sinks normalise payloads in opposite
    directions with these two operations. */
module Utf8 {
  import opened Results

  type byte = x: int | 0 <= x < 256

  predicate IsContinuation(b: byte) { 0x80 <= b < 0xC0 }

  /** The UTF-8 bytes of one Unicode scalar value. */
  function EncodeChar(c: char): (r: seq<byte>)
    ensures 1 <= |r| <= 4
    ensures (r[0] < 0x80) == (|r| == 1)
    ensures forall k :: 1 <= k < |r| ==> IsContinuation(r[k])
  {
    var cp := c as int;
    if cp < 0x80 then [cp]
    else if cp < 0x800 then [0xC0 + cp / 64, 0x80 + cp % 64]
    else if cp < 0x10000 then [0xE0 + cp / 4096, 0x80 + (cp / 64) % 64, 0x80 + cp % 64]
    else [0xF0 + cp / 262144, 0x80 + (cp / 4096) % 64, 0x80 + (cp / 64) % 64, 0x80 + cp % 64]
  }

  /** `s.encode()`: the concatenated encodings of the characters of `s`. */
  function Encode(s: string): (r: seq<byte>)
    ensures |s| <= |r| <= 4 * |s|
  {
    if s == [] then [] else EncodeChar(s[0]) + Encode(s[1..])
  }

  /** The first scalar value of `b` and the number of bytes it occupies, or
      None when `b` does not start with a well-formed UTF-8 sequence
      (a stray continuation byte, a truncated sequence, an overlong form,
      a surrogate or a value above U+10FFFF). */
  function DecodeFirst(b: seq<byte>): (r: Option<(char, nat)>)
    requires |b| > 0
    ensures r.Some? ==> 1 <= r.value.1 <= |b| && r.value.1 <= 4
  {
    var b0: int := b[0];
    if b0 < 0x80 then Some((b0 as char, 1))
    else if 0xC0 <= b0 < 0xE0 then
      if |b| < 2 || !IsContinuation(b[1]) then None
      else
        var cp := (b0 - 0xC0) * 64 + (b[1] as int - 0x80);
        if cp < 0x80 then None else Some((cp as char, 2))
    else if 0xE0 <= b0 < 0xF0 then
      if |b| < 3 || !IsContinuation(b[1]) || !IsContinuation(b[2]) then None
      else
        var cp := (b0 - 0xE0) * 4096 + (b[1] as int - 0x80) * 64 + (b[2] as int - 0x80);
        if cp < 0x800 || (0xD800 <= cp < 0xE000) then None else Some((cp as char, 3))
    else if 0xF0 <= b0 < 0xF8 then
      if |b| < 4 || !IsContinuation(b[1]) || !IsContinuation(b[2]) || !IsContinuation(b[3]) then None
      else
        var cp := (b0 - 0xF0) * 262144 + (b[1] as int - 0x80) * 4096 + (b[2] as int - 0x80) * 64 + (b[3] as int - 0x80);
        if cp < 0x10000 || cp > 0x10FFFF then None else Some((cp as char, 4))
    else None
  }

  /** `b.decode()`: the decoded text, or None where Python raises
      UnicodeDecodeError. */
  function Decode(b: seq<byte>): (r: Option<string>)
    // every character takes one to four bytes
    ensures r.Some? ==> |r.value| <= |b| <= 4 * |r.value|
    decreases |b|
  {
    if b == [] then Some([])
    else
      match DecodeFirst(b)
      case None => None
      case Some((c, n)) =>
        match Decode(b[n..])
        case None => None
        case Some(rest) => Some([c] + rest)
  }

  lemma DecodeFirstOfEncodeChar(c: char, rest: seq<byte>)
    ensures DecodeFirst(EncodeChar(c) + rest) == Some((c, |EncodeChar(c)|))
  {
    var cp := c as int;
    if cp < 0x80 {
    } else if cp < 0x800 {
      var b := EncodeChar(c) + rest;
      assert b[0] == 0xC0 + cp / 64 && b[1] == 0x80 + cp % 64;
    } else if cp < 0x10000 {
      DecodeFirstThree(c, rest);
    } else {
      DecodeFirstFour(c, rest);
    }
  }

  lemma ThreeByteValue(cp: int)
    requires 0 <= cp
    ensures (cp / 4096) * 4096 + ((cp / 64) % 64) * 64 + cp % 64 == cp
  {
    assert cp / 64 == (cp / 4096) * 64 + (cp / 64) % 64;
    assert cp == (cp / 64) * 64 + cp % 64;
  }

  lemma FourByteValue(cp: int)
    requires 0 <= cp
    ensures (cp / 262144) * 262144 + ((cp / 4096) % 64) * 4096 + ((cp / 64) % 64) * 64 + cp % 64 == cp
  {
    assert cp / 4096 == (cp / 262144) * 64 + (cp / 4096) % 64;
    ThreeByteValue(cp);
  }

  lemma DecodeFirstThree(c: char, rest: seq<byte>)
    requires 0x800 <= c as int < 0x10000
    ensures DecodeFirst(EncodeChar(c) + rest) == Some((c, 3))
  {
    var cp := c as int;
    var b := EncodeChar(c) + rest;
    ThreeByteValue(cp);
    assert b[0] == 0xE0 + cp / 4096 && b[1] == 0x80 + (cp / 64) % 64 && b[2] == 0x80 + cp % 64;
  }

  lemma DecodeFirstFour(c: char, rest: seq<byte>)
    requires 0x10000 <= c as int
    ensures DecodeFirst(EncodeChar(c) + rest) == Some((c, 4))
  {
    var cp := c as int;
    var b := EncodeChar(c) + rest;
    FourByteValue(cp);
    assert b[0] == 0xF0 + cp / 262144 && b[1] == 0x80 + (cp / 4096) % 64;
    assert b[2] == 0x80 + (cp / 64) % 64 && b[3] == 0x80 + cp % 64;
  }

  /** Decoding what `str.encode()` produced gives back the text. */
  lemma {:induction false} DecodeEncode(s: string)
    ensures Decode(Encode(s)) == Some(s)
  {
    if s != [] {
      var e := EncodeChar(s[0]);
      DecodeFirstOfEncodeChar(s[0], Encode(s[1..]));
      assert (e + Encode(s[1..]))[|e|..] == Encode(s[1..]);
      DecodeEncode(s[1..]);
      assert [s[0]] + s[1..] == s;
    }
  }

  lemma DivMod64(hi: int, lo: int)
    requires 0 <= hi && 0 <= lo < 64
    ensures (hi * 64 + lo) / 64 == hi && (hi * 64 + lo) % 64 == lo
  {
  }

  lemma EncodeTwoBytes(b0: int, b1: int)
    requires 0xC0 <= b0 < 0xE0 && 0x80 <= b1 < 0xC0
    requires (b0 - 0xC0) * 64 + (b1 - 0x80) >= 0x80
    ensures EncodeChar(((b0 - 0xC0) * 64 + (b1 - 0x80)) as char) == [b0, b1]
  {
    DivMod64(b0 - 0xC0, b1 - 0x80);
  }

  lemma EncodeThreeBytes(b0: int, b1: int, b2: int)
    requires 0xE0 <= b0 < 0xF0 && 0x80 <= b1 < 0xC0 && 0x80 <= b2 < 0xC0
    requires var cp := (b0 - 0xE0) * 4096 + (b1 - 0x80) * 64 + (b2 - 0x80);
             cp >= 0x800 && !(0xD800 <= cp < 0xE000)
    ensures EncodeChar(((b0 - 0xE0) * 4096 + (b1 - 0x80) * 64 + (b2 - 0x80)) as char) == [b0, b1, b2]
  {
    var hi := (b0 - 0xE0) * 64 + (b1 - 0x80);
    var cp := hi * 64 + (b2 - 0x80);
    DivMod64(hi, b2 - 0x80);
    DivMod64(b0 - 0xE0, b1 - 0x80);
    assert cp / 4096 == hi / 64;
  }

  lemma DivMod4096(hi: int, lo: int)
    requires 0 <= hi && 0 <= lo < 4096
    ensures (hi * 4096 + lo) / 4096 == hi
  {
  }

  lemma DivMod262144(hi: int, lo: int)
    requires 0 <= hi && 0 <= lo < 262144
    ensures (hi * 262144 + lo) / 262144 == hi
  {
  }

  lemma EncodeFourBytes(b0: int, b1: int, b2: int, b3: int)
    requires 0xF0 <= b0 < 0xF8 && 0x80 <= b1 < 0xC0 && 0x80 <= b2 < 0xC0 && 0x80 <= b3 < 0xC0
    requires var cp := (b0 - 0xF0) * 262144 + (b1 - 0x80) * 4096 + (b2 - 0x80) * 64 + (b3 - 0x80);
             0x10000 <= cp <= 0x10FFFF
    ensures EncodeChar(((b0 - 0xF0) * 262144 + (b1 - 0x80) * 4096 + (b2 - 0x80) * 64 + (b3 - 0x80)) as char)
            == [b0, b1, b2, b3]
  {
    var top := (b0 - 0xF0) * 64 + (b1 - 0x80);
    var mid := top * 64 + (b2 - 0x80);
    var cp := mid * 64 + (b3 - 0x80);
    var low := (b2 - 0x80) * 64 + (b3 - 0x80);
    assert cp == (b0 - 0xF0) * 262144 + (b1 - 0x80) * 4096 + low;
    DivMod64(mid, b3 - 0x80);
    DivMod64(top, b2 - 0x80);
    DivMod64(b0 - 0xF0, b1 - 0x80);
    DivMod4096(top, low);
    DivMod262144(b0 - 0xF0, (b1 - 0x80) * 4096 + low);
  }

  lemma EncodeCharOfDecodeFirst(b: seq<byte>)
    requires |b| > 0 && DecodeFirst(b).Some?
    ensures EncodeChar(DecodeFirst(b).value.0) == b[..DecodeFirst(b).value.1]
  {
    var b0: int := b[0];
    if b0 < 0x80 {
    } else if b0 < 0xE0 {
      EncodeTwoBytes(b0, b[1]);
    } else if b0 < 0xF0 {
      EncodeThreeBytes(b0, b[1], b[2]);
    } else {
      EncodeFourBytes(b0, b[1], b[2], b[3]);
    }
  }

  /** A byte string that decodes starts with the encoding of its first
      character, and the rest decodes to the rest of the text. */
  lemma DecodeStep(b: seq<byte>) returns (c: char, n: nat)
    requires b != [] && Decode(b).Some?
    ensures 1 <= n <= |b| && EncodeChar(c) == b[..n]
    ensures Decode(b[n..]).Some? && Decode(b).value == [c] + Decode(b[n..]).value
  {
    c, n := DecodeFirst(b).value.0, DecodeFirst(b).value.1;
    EncodeCharOfDecodeFirst(b);
  }

  /** Every byte string that decodes is exactly the encoding of its text:
      the two operations are inverse on well-formed UTF-8. */
  lemma {:induction false} EncodeDecode(b: seq<byte>)
    requires Decode(b).Some?
    ensures Encode(Decode(b).value) == b
    decreases |b|
  {
    if b != [] {
      var c, n := DecodeStep(b);
      var tail := Decode(b[n..]).value;
      EncodeDecode(b[n..]);
      assert Encode([c] + tail) == EncodeChar(c) + Encode(tail) by {
        assert ([c] + tail)[0] == c && ([c] + tail)[1..] == tail;
      }
      assert b[..n] + b[n..] == b;
    }
  }
}
