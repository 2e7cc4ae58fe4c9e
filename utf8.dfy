/**
 * UTF-8 as Rust's `str::from_utf8` checks it (RFC 3629): no overlong forms,
 * no surrogates, nothing above U+10FFFF. Decoding yields a Dafny string,
 * whose characters are exactly the Unicode scalar values.
 */
module Utf8 {
  import opened Wrappers
  import opened Ber

  predicate IsContinuation(b: byte) {
    0x80 <= b <= 0xBF
  }

  /** Smallest and largest second octet allowed after the lead octet `b0` of a 3- or 4-octet form. */
  function SecondLow(b0: byte): byte {
    if b0 == 0xE0 then 0xA0 else if b0 == 0xF0 then 0x90 else 0x80
  }

  function SecondHigh(b0: byte): byte {
    if b0 == 0xED then 0x9F else if b0 == 0xF4 then 0x8F else 0xBF
  }

  /** The scalar value encoded at the head of `s` and the number of octets it takes. */
  function DecodeScalar(s: seq<byte>): (r: Option<(char, nat)>)
    ensures r.Some? ==> 1 <= r.value.1 <= |s|
  {
    if |s| == 0 then None
    else
      var b0 := s[0];
      if b0 < 0x80 then Some((b0 as int as char, 1))
      else if 0xC2 <= b0 <= 0xDF then
        if |s| >= 2 && IsContinuation(s[1])
        then Some((((b0 as int - 0xC0) * 0x40 + (s[1] as int - 0x80)) as char, 2))
        else None
      else if 0xE0 <= b0 <= 0xEF then
        if |s| >= 3 && SecondLow(b0) <= s[1] <= SecondHigh(b0) && IsContinuation(s[2])
        then Some((((b0 as int - 0xE0) * 0x1000 + (s[1] as int - 0x80) * 0x40
                    + (s[2] as int - 0x80)) as char, 3))
        else None
      else if 0xF0 <= b0 <= 0xF4 then
        if |s| >= 4 && SecondLow(b0) <= s[1] <= SecondHigh(b0)
           && IsContinuation(s[2]) && IsContinuation(s[3])
        then Some((((b0 as int - 0xF0) * 0x4_0000 + (s[1] as int - 0x80) * 0x1000
                    + (s[2] as int - 0x80) * 0x40 + (s[3] as int - 0x80)) as char, 4))
        else None
      else None
  }

  function EncodeScalar(c: char): (r: seq<byte>)
    ensures 1 <= |r| <= 4
  {
    var x := c as int;
    if x < 0x80 then [x as byte]
    else if x < 0x800 then [(0xC0 + x / 0x40) as byte, (0x80 + x % 0x40) as byte]
    else if x < 0x1_0000 then
      [(0xE0 + x / 0x40 / 0x40) as byte, (0x80 + x / 0x40 % 0x40) as byte, (0x80 + x % 0x40) as byte]
    else
      [(0xF0 + x / 0x40 / 0x40 / 0x40) as byte, (0x80 + x / 0x40 / 0x40 % 0x40) as byte,
       (0x80 + x / 0x40 % 0x40) as byte, (0x80 + x % 0x40) as byte]
  }

  lemma DivMod64(x: int, q: int, r: int)
    requires 0 <= r < 0x40 && x == q * 0x40 + r
    ensures x / 0x40 == q && x % 0x40 == r
  {
  }

  /** Decoding an encoded scalar gives back the scalar and the octets it took. */
  lemma DecodeEncodedScalar(c: char, rest: seq<byte>)
    ensures DecodeScalar(EncodeScalar(c) + rest) == Some((c, |EncodeScalar(c)|))
  {
    var x := c as int;
    var e := EncodeScalar(c);
    var s := e + rest;
    assert s[0] == e[0];
    if x < 0x80 {
    } else if x < 0x800 {
      assert s[1] == e[1];
      DivMod64(x, x / 0x40, x % 0x40);
    } else if x < 0x1_0000 {
      assert s[1] == e[1] && s[2] == e[2];
      var a, b, d := x / 0x40 / 0x40, x / 0x40 % 0x40, x % 0x40;
      assert x / 0x40 == a * 0x40 + b;
      assert x == (a * 0x40 + b) * 0x40 + d;
      assert DecodeScalar(s) == Some(((a * 0x1000 + b * 0x40 + d) as char, 3));
    } else {
      assert s[1] == e[1] && s[2] == e[2] && s[3] == e[3];
      var y := x / 0x40 / 0x40;
      var a, b, d, f := y / 0x40, y % 0x40, x / 0x40 % 0x40, x % 0x40;
      assert y == a * 0x40 + b;
      assert x / 0x40 == y * 0x40 + d;
      assert x == ((a * 0x40 + b) * 0x40 + d) * 0x40 + f;
      assert DecodeScalar(s) == Some(((a * 0x4_0000 + b * 0x1000 + d * 0x40 + f) as char, 4));
    }
  }

  lemma EncodeTwo(c: char, a: int, b: int)
    requires 0x80 <= c as int < 0x800 && 0 <= b < 0x40 && c as int == a * 0x40 + b
    ensures EncodeScalar(c) == [(0xC0 + a) as byte, (0x80 + b) as byte]
  {
    DivMod64(c as int, a, b);
  }

  lemma EncodeThree(c: char, a: int, b: int, d: int)
    requires 0x800 <= c as int < 0x1_0000 && 0 <= b < 0x40 && 0 <= d < 0x40
    requires c as int == (a * 0x40 + b) * 0x40 + d
    ensures EncodeScalar(c) == [(0xE0 + a) as byte, (0x80 + b) as byte, (0x80 + d) as byte]
  {
    DivMod64(c as int, a * 0x40 + b, d);
    DivMod64(a * 0x40 + b, a, b);
  }

  lemma EncodeFour(c: char, a: int, b: int, d: int, f: int)
    requires 0x1_0000 <= c as int && 0 <= b < 0x40 && 0 <= d < 0x40 && 0 <= f < 0x40
    requires c as int == ((a * 0x40 + b) * 0x40 + d) * 0x40 + f
    ensures EncodeScalar(c)
         == [(0xF0 + a) as byte, (0x80 + b) as byte, (0x80 + d) as byte, (0x80 + f) as byte]
  {
    DivMod64(c as int, (a * 0x40 + b) * 0x40 + d, f);
    DivMod64((a * 0x40 + b) * 0x40 + d, a * 0x40 + b, d);
    DivMod64(a * 0x40 + b, a, b);
  }

  /** A decoded scalar encodes to exactly the octets it was decoded from. */
  lemma EncodeDecodedScalar(s: seq<byte>)
    requires DecodeScalar(s).Some?
    ensures EncodeScalar(DecodeScalar(s).value.0) == s[..DecodeScalar(s).value.1]
  {
    var cn := DecodeScalar(s).value;
    var b0 := s[0] as int;
    if b0 < 0x80 {
      assert s[..1] == [s[0]];
    } else if b0 <= 0xDF {
      EncodeTwo(cn.0, b0 - 0xC0, s[1] as int - 0x80);
      assert s[..2] == [s[0], s[1]];
    } else if b0 <= 0xEF {
      EncodeThree(cn.0, b0 - 0xE0, s[1] as int - 0x80, s[2] as int - 0x80);
      assert s[..3] == [s[0], s[1], s[2]];
    } else {
      EncodeFour(cn.0, b0 - 0xF0, s[1] as int - 0x80, s[2] as int - 0x80, s[3] as int - 0x80);
      assert s[..4] == [s[0], s[1], s[2], s[3]];
    }
  }

  /** The string `s` holds, or None when `s` is not valid UTF-8 (`str::from_utf8`). */
  function DecodeUtf8(s: seq<byte>): (r: Option<string>)
    ensures r.Some? ==> |r.value| <= |s| && (s != [] ==> r.value != [])
    decreases |s|
  {
    if s == [] then Some([])
    else match DecodeScalar(s)
      case None => None
      case Some(cn) =>
        match DecodeUtf8(s[cn.1..])
        case None => None
        case Some(tail) => Some([cn.0] + tail)
  }

  function EncodeUtf8(str: string): seq<byte> {
    if str == [] then [] else EncodeScalar(str[0]) + EncodeUtf8(str[1..])
  }

  lemma {:induction false} DecodeEncoded(str: string)
    ensures DecodeUtf8(EncodeUtf8(str)) == Some(str)
  {
    if str != [] {
      var head, tail := EncodeScalar(str[0]), EncodeUtf8(str[1..]);
      var s := EncodeUtf8(str);
      assert s == head + tail;
      DecodeEncodedScalar(str[0], tail);
      assert s[|head|..] == tail;
      DecodeEncoded(str[1..]);
      assert [str[0]] + str[1..] == str;
    }
  }

  /** One step of a successful decoding: a scalar, then the decoding of what follows it. */
  lemma DecodeStep(s: seq<byte>) returns (c: char, n: nat, tail: string)
    requires s != [] && DecodeUtf8(s).Some?
    ensures 1 <= n <= |s| && DecodeUtf8(s[n..]) == Some(tail)
    ensures DecodeUtf8(s) == Some([c] + tail) && EncodeScalar(c) == s[..n]
  {
    var cn := DecodeScalar(s).value;
    c, n, tail := cn.0, cn.1, DecodeUtf8(s[cn.1..]).value;
    EncodeDecodedScalar(s);
  }

  lemma {:induction false} EncodeDecoded(s: seq<byte>)
    requires DecodeUtf8(s).Some?
    ensures EncodeUtf8(DecodeUtf8(s).value) == s
    decreases |s|
  {
    if s != [] {
      var c, n, tail := DecodeStep(s);
      var str := [c] + tail;
      assert str[0] == c && str[1..] == tail;
      EncodeDecoded(s[n..]);
      assert s == s[..n] + s[n..];
    }
  }

  /** The octets are valid UTF-8 exactly when they are the encoding of some string. */
  lemma ValidIsEncoding(s: seq<byte>)
    ensures DecodeUtf8(s).Some? <==> exists str :: EncodeUtf8(str) == s
  {
    if DecodeUtf8(s).Some? {
      EncodeDecoded(s);
    }
    if str :| EncodeUtf8(str) == s {
      DecodeEncoded(str);
    }
  }
}
