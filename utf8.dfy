/**
 * UTF-8 as `String::from_utf8` accepts it: the well-formed byte sequences of
 * Table 3-7 of the Unicode Standard (no overlong forms, no surrogates, nothing
 * above U+10FFFF). `DecodeUtf8` is the decoder the handshake parser relies on;
 * `Encode` is its partner, used to prove that the decoder accepts exactly the
 * encodings of strings and returns the string encoded.
 */
module Utf8 {
  import opened Wrappers

  type byte = b: int | 0 <= b < 256

  predicate IsContinuation(b: byte) {
    0x80 <= b <= 0xBF
  }

  /** Decodes the scalar value at the head of `b` and says how many bytes it took. */
  function DecodeChar(b: seq<byte>): (r: Option<(char, nat)>)
    requires |b| > 0
    ensures r.Some? ==> 1 <= r.value.1 <= |b| && r.value.1 <= 4
  {
    var b0 := b[0] as int;
    if b0 < 0x80 then
      Some((b0 as char, 1))
    else if 0xC2 <= b0 <= 0xDF then
      if |b| >= 2 && IsContinuation(b[1]) then
        Some((((b0 - 0xC0) * 64 + (b[1] as int - 0x80)) as char, 2))
      else None
    else if 0xE0 <= b0 <= 0xEF then
      var lo := if b0 == 0xE0 then 0xA0 else 0x80;
      var hi := if b0 == 0xED then 0x9F else 0xBF;
      if |b| >= 3 && lo <= b[1] <= hi && IsContinuation(b[2]) then
        Some((((b0 - 0xE0) * 4096 + (b[1] as int - 0x80) * 64 + (b[2] as int - 0x80)) as char, 3))
      else None
    else if 0xF0 <= b0 <= 0xF4 then
      var lo := if b0 == 0xF0 then 0x90 else 0x80;
      var hi := if b0 == 0xF4 then 0x8F else 0xBF;
      if |b| >= 4 && lo <= b[1] <= hi && IsContinuation(b[2]) && IsContinuation(b[3]) then
        Some((((b0 - 0xF0) * 0x40000 + (b[1] as int - 0x80) * 4096 + (b[2] as int - 0x80) * 64 + (b[3] as int - 0x80)) as char, 4))
      else None
    else
      None
  }

  /** `String::from_utf8`: the decoded text, or `None` when the bytes are not well-formed UTF-8. */
  function DecodeUtf8(b: seq<byte>): Option<string>
    decreases |b|
  {
    if b == [] then Some([])
    else
      match DecodeChar(b)
      case None => None
      case Some((c, n)) =>
        match DecodeUtf8(b[n..])
        case None => None
        case Some(rest) => Some([c] + rest)
  }

  /** The shortest UTF-8 encoding of one scalar value. */
  function EncodeChar(c: char): (r: seq<byte>)
    ensures 1 <= |r| <= 4
  {
    var x := c as int;
    if x < 0x80 then [x]
    else if x < 0x800 then [0xC0 + x / 64, 0x80 + x % 64]
    else if x < 0x10000 then [0xE0 + x / 4096, 0x80 + (x / 64) % 64, 0x80 + x % 64]
    else [0xF0 + x / 0x40000, 0x80 + (x / 4096) % 64, 0x80 + (x / 64) % 64, 0x80 + x % 64]
  }

  /** `str::as_bytes`: the UTF-8 encoding of a string. */
  function Encode(s: string): (r: seq<byte>)
    ensures |s| <= |r| <= 4 * |s|
  {
    if s == [] then [] else EncodeChar(s[0]) + Encode(s[1..])
  }

  // Arithmetic on the 6-bit groups of a scalar value, one fact per encoding length.

  lemma Groups2(x: int)
    requires 0x80 <= x < 0x800
    ensures 2 <= x / 64 < 32 && x == (x / 64) * 64 + x % 64
  {
  }

  lemma Groups3(x: int)
    requires 0x800 <= x < 0x10000
    ensures x / 4096 < 16 && x == (x / 4096) * 4096 + ((x / 64) % 64) * 64 + x % 64
  {
    var a := x / 64;
    assert x == a * 64 + x % 64;
    assert a == (a / 64) * 64 + a % 64;
    assert x / 4096 == a / 64;
  }

  lemma Groups4(x: int)
    requires 0x10000 <= x < 0x110000
    ensures x / 0x40000 < 5
    ensures x == (x / 0x40000) * 0x40000 + ((x / 4096) % 64) * 4096 + ((x / 64) % 64) * 64 + x % 64
  {
    var a := x / 64;
    var d := a / 64;
    assert x == a * 64 + x % 64;
    assert a == d * 64 + a % 64;
    assert d == (d / 64) * 64 + d % 64;
    assert x / 4096 == d;
    assert x / 0x40000 == d / 64;
  }

  lemma Digits2(hi: int, lo: int)
    requires 0 <= lo < 64 && 0 <= hi
    ensures (hi * 64 + lo) / 64 == hi && (hi * 64 + lo) % 64 == lo
  {
  }

  lemma Digits3(hi: int, mid: int, lo: int)
    requires 0 <= lo < 64 && 0 <= mid < 64 && 0 <= hi
    ensures var x := hi * 4096 + mid * 64 + lo;
      x / 4096 == hi && (x / 64) % 64 == mid && x % 64 == lo
  {
    var x := hi * 4096 + mid * 64 + lo;
    Digits2(hi * 64 + mid, lo);
    assert x == (hi * 64 + mid) * 64 + lo;
    Digits2(hi, mid);
  }

  lemma Digits4(top: int, hi: int, mid: int, lo: int)
    requires 0 <= lo < 64 && 0 <= mid < 64 && 0 <= hi < 64 && 0 <= top
    ensures var x := top * 0x40000 + hi * 4096 + mid * 64 + lo;
      x / 0x40000 == top && (x / 4096) % 64 == hi && (x / 64) % 64 == mid && x % 64 == lo
  {
    var x := top * 0x40000 + hi * 4096 + mid * 64 + lo;
    var y := top * 4096 + hi * 64 + mid;
    assert x == y * 64 + lo;
    Digits2(y, lo);
    Digits3(top, hi, mid);
    assert x == (top * 64 + hi) * 4096 + mid * 64 + lo;
    Digits3(top * 64 + hi, mid, lo);
  }

  lemma DecodeEncodeChar(c: char, rest: seq<byte>)
    ensures DecodeChar(EncodeChar(c) + rest) == Some((c, |EncodeChar(c)|))
  {
    var x := c as int;
    if x < 0x80 {
    } else if x < 0x800 {
      DecodeEncode2(c, rest);
    } else if x < 0x10000 {
      DecodeEncode3(c, rest);
    } else {
      DecodeEncode4(c, rest);
    }
  }

  lemma DecodeEncode2(c: char, rest: seq<byte>)
    requires 0x80 <= c as int < 0x800
    ensures DecodeChar(EncodeChar(c) + rest) == Some((c, 2))
  {
    var x := c as int;
    var b := EncodeChar(c) + rest;
    Groups2(x);
    var b0, b1 := 0xC0 + x / 64, 0x80 + x % 64;
    assert b[0] == b0 && b[1] == b1;
    assert (b0 - 0xC0) * 64 + (b1 - 0x80) == x;
  }

  lemma DecodeEncode3(c: char, rest: seq<byte>)
    requires 0x800 <= c as int < 0x10000
    ensures DecodeChar(EncodeChar(c) + rest) == Some((c, 3))
  {
    var x := c as int;
    var b := EncodeChar(c) + rest;
    Groups3(x);
    var b0, b1, b2 := 0xE0 + x / 4096, 0x80 + (x / 64) % 64, 0x80 + x % 64;
    assert b[0] == b0 && b[1] == b1 && b[2] == b2;
    assert (b0 - 0xE0) * 4096 + (b1 - 0x80) * 64 + (b2 - 0x80) == x;
  }

  lemma DecodeEncode4(c: char, rest: seq<byte>)
    requires 0x10000 <= c as int
    ensures DecodeChar(EncodeChar(c) + rest) == Some((c, 4))
  {
    var x := c as int;
    var b := EncodeChar(c) + rest;
    Groups4(x);
    var b0, b1, b2, b3 := 0xF0 + x / 0x40000, 0x80 + (x / 4096) % 64, 0x80 + (x / 64) % 64, 0x80 + x % 64;
    assert b[0] == b0 && b[1] == b1 && b[2] == b2 && b[3] == b3;
    assert (b0 - 0xF0) * 0x40000 + (b1 - 0x80) * 4096 + (b2 - 0x80) * 64 + (b3 - 0x80) == x;
  }

  lemma DecodedCharIsEncoding(b: seq<byte>)
    requires |b| > 0 && DecodeChar(b).Some?
    ensures var (c, n) := DecodeChar(b).value; b[..n] == EncodeChar(c)
  {
    var b0 := b[0] as int;
    if b0 < 0x80 {
    } else if b0 <= 0xDF {
      Decoded2(b);
    } else if b0 <= 0xEF {
      Decoded3(b);
    } else {
      Decoded4(b);
    }
  }

  lemma Decoded2(b: seq<byte>)
    requires |b| >= 2 && 0xC2 <= b[0] <= 0xDF && IsContinuation(b[1])
    ensures DecodeChar(b) == Some(((((b[0] as int) - 0xC0) * 64 + (b[1] as int - 0x80)) as char, 2))
    ensures b[..2] == EncodeChar(DecodeChar(b).value.0)
  {
    var hi, lo := b[0] as int - 0xC0, b[1] as int - 0x80;
    Digits2(hi, lo);
    var e := EncodeChar(DecodeChar(b).value.0);
    assert e == [b[0], b[1]];
  }

  lemma Decoded3(b: seq<byte>)
    requires |b| >= 3 && 0xE0 <= b[0] <= 0xEF && DecodeChar(b).Some?
    ensures b[..3] == EncodeChar(DecodeChar(b).value.0) && DecodeChar(b).value.1 == 3
  {
    var hi, mid, lo := b[0] as int - 0xE0, b[1] as int - 0x80, b[2] as int - 0x80;
    Digits3(hi, mid, lo);
    var x := hi * 4096 + mid * 64 + lo;
    assert DecodeChar(b).value.0 as int == x;
    var e := EncodeChar(DecodeChar(b).value.0);
    assert e == [b[0], b[1], b[2]];
  }

  lemma Decoded4(b: seq<byte>)
    requires |b| >= 4 && 0xF0 <= b[0] <= 0xF4 && DecodeChar(b).Some?
    ensures b[..4] == EncodeChar(DecodeChar(b).value.0) && DecodeChar(b).value.1 == 4
  {
    var top, hi, mid, lo := b[0] as int - 0xF0, b[1] as int - 0x80, b[2] as int - 0x80, b[3] as int - 0x80;
    Digits4(top, hi, mid, lo);
    var x := top * 0x40000 + hi * 4096 + mid * 64 + lo;
    assert DecodeChar(b).value.0 as int == x;
    var e := EncodeChar(DecodeChar(b).value.0);
    assert e == [b[0], b[1], b[2], b[3]];
  }

  /** Decoding undoes encoding: every string's encoding is accepted and yields the string. */
  lemma {:induction false} DecodeEncode(s: string)
    ensures DecodeUtf8(Encode(s)) == Some(s)
  {
    if s != [] {
      var e := EncodeChar(s[0]);
      DecodeEncodeChar(s[0], Encode(s[1..]));
      assert (e + Encode(s[1..]))[|e|..] == Encode(s[1..]);
      DecodeEncode(s[1..]);
      assert [s[0]] + s[1..] == s;
    }
  }

  /** A non-empty decoding is the first character followed by the decoding of the rest. */
  lemma DecodeUtf8Cons(b: seq<byte>)
    requires b != [] && DecodeUtf8(b).Some?
    ensures DecodeChar(b).Some?
    ensures var (c, n) := DecodeChar(b).value;
      DecodeUtf8(b[n..]).Some? && DecodeUtf8(b).value == [c] + DecodeUtf8(b[n..]).value
  {
  }

  lemma EncodeCons(c: char, r: string)
    ensures Encode([c] + r) == EncodeChar(c) + Encode(r)
  {
    assert ([c] + r)[1..] == r;
  }

  /** A well-formed non-empty byte string starts with the encoding of its first decoded character. */
  lemma DecodedHead(b: seq<byte>) returns (c: char, n: nat)
    requires b != [] && DecodeUtf8(b).Some?
    ensures 1 <= n <= |b| && b[..n] == EncodeChar(c)
    ensures DecodeUtf8(b[n..]).Some? && DecodeUtf8(b).value == [c] + DecodeUtf8(b[n..]).value
  {
    DecodeUtf8Cons(b);
    c, n := DecodeChar(b).value.0, DecodeChar(b).value.1;
    DecodedCharIsEncoding(b);
  }

  /** Encoding undoes decoding: the decoder accepts only encodings, and nothing is lost. */
  lemma {:induction false} EncodeDecode(b: seq<byte>)
    requires DecodeUtf8(b).Some?
    ensures Encode(DecodeUtf8(b).value) == b
    decreases |b|
  {
    if b != [] {
      var c, n := DecodedHead(b);
      var tail := b[n..];
      var r := DecodeUtf8(tail).value;
      EncodeDecode(tail);
      EncodeCons(c, r);
      assert b == b[..n] + tail;
    }
  }

  /** The bytes are well-formed UTF-8 exactly when they encode some string. */
  lemma ValidIffEncoding(b: seq<byte>)
    ensures DecodeUtf8(b).Some? <==> exists s :: Encode(s) == b
  {
    if DecodeUtf8(b).Some? {
      EncodeDecode(b);
    }
    if s :| Encode(s) == b {
      DecodeEncode(s);
    }
  }

  // ---------------------------------------------------------------------
  // Zero padding: the receive buffer is zero-filled before the read.

  function Zeros(k: nat): (z: seq<byte>)
    ensures |z| == k && forall i :: 0 <= i < k ==> z[i] == 0
  {
    seq(k, _ => 0)
  }

  function Nuls(k: nat): (s: string)
    ensures |s| == k && forall i :: 0 <= i < k ==> s[i] == '\0'
  {
    seq(k, _ => '\0')
  }

  /** A zero byte never continues a multi-byte sequence, so padding cannot change how the head decodes. */
  lemma DecodeCharPadded(b: seq<byte>, k: nat)
    requires |b| > 0
    ensures DecodeChar(b + Zeros(k)) == DecodeChar(b)
  {
    var z := Zeros(k);
    var bz := b + z;
    assert bz[0] == b[0];
    if |b| >= 2 { assert bz[1] == b[1]; } else if k > 0 { assert bz[1] == 0; }
    if |b| >= 3 { assert bz[2] == b[2]; } else if |bz| >= 3 { assert bz[2] == 0; }
    if |b| >= 4 { assert bz[3] == b[3]; } else if |bz| >= 4 { assert bz[3] == 0; }
  }

  /**
   * Decoding the read bytes followed by zero padding: the padding decodes to
   * NUL characters, and the whole is well-formed exactly when the read bytes are.
   */
  lemma {:induction false} DecodePadded(b: seq<byte>, k: nat)
    ensures DecodeUtf8(b + Zeros(k)) ==
      match DecodeUtf8(b)
      case None => None
      case Some(s) => Some(s + Nuls(k))
    decreases |b|
  {
    if b == [] {
      assert b + Zeros(k) == Encode(Nuls(k)) by { EncodeNuls(k); }
      DecodeEncode(Nuls(k));
      assert DecodeUtf8(b) == Some([]) && [] + Nuls(k) == Nuls(k);
    } else {
      DecodeCharPadded(b, k);
      match DecodeChar(b)
      case None =>
      case Some((c, n)) =>
        assert (b + Zeros(k))[n..] == b[n..] + Zeros(k);
        DecodePadded(b[n..], k);
        if DecodeUtf8(b[n..]).Some? {
          var rest := DecodeUtf8(b[n..]).value;
          assert [c] + (rest + Nuls(k)) == ([c] + rest) + Nuls(k);
        }
    }
  }

  lemma {:induction false} EncodeNuls(k: nat)
    ensures Encode(Nuls(k)) == Zeros(k)
  {
    if k > 0 {
      assert Nuls(k)[1..] == Nuls(k - 1);
      EncodeNuls(k - 1);
      assert Zeros(k) == [0] + Zeros(k - 1);
    }
  }

  /** ASCII text encodes byte for byte. */
  lemma {:induction false} EncodeAscii(s: string)
    requires forall i :: 0 <= i < |s| ==> s[i] as int < 0x80
    ensures |Encode(s)| == |s|
    ensures forall i :: 0 <= i < |s| ==> Encode(s)[i] == s[i] as int
  {
    if s != [] {
      EncodeAscii(s[1..]);
      assert Encode(s) == [s[0] as int] + Encode(s[1..]);
    }
  }

  /** Bytes that spell out ASCII text one byte per character are its encoding. */
  lemma AsciiEncoding(s: string, b: seq<byte>)
    requires |s| == |b|
    requires forall i :: 0 <= i < |s| ==> s[i] as int < 0x80 && b[i] == s[i] as int
    ensures Encode(s) == b
  {
    EncodeAscii(s);
  }
}
