/**
 * The part of the BER toolkit (ITU-T X.690, definite lengths only) that the
 * manifest decoder calls: identifier and length octets, tag-checked values,
 * unsigned integers, object identifiers and BIT STRINGs.
 *
 * Every reader takes the unread input and returns the value it read together
 * with the input that follows it, so a cursor is a suffix of the input.
 * Tags are compared with the constructed bit (0x20) cleared, as the toolkit
 * compares them; a value whose tag matches but whose form (primitive or
 * constructed) is the wrong one is Malformed.
 */
module Ber {
  import opened Wrappers

  newtype byte = x: int | 0 <= x < 0x100

  datatype Error = Malformed

  // Tag octets with the constructed bit cleared.
  const INTEGER: byte := 0x02
  const BIT_STRING: byte := 0x03
  const OID: byte := 0x06
  const SEQUENCE: byte := 0x10
  const IA5_STRING: byte := 0x16
  const UTC_TIME: byte := 0x17
  const GENERALIZED_TIME: byte := 0x18
  const CTX_0: byte := 0x80

  /** Identifier octet of a constructed SEQUENCE. */
  const SEQUENCE_ID: byte := 0x30

  /** Lengths the four-octet long form can carry. */
  const MAX_LENGTH: nat := 0x1_0000_0000

  predicate IsConstructed(id: byte) {
    (id as int / 0x20) % 2 == 1
  }

  function TagOf(id: byte): byte {
    if IsConstructed(id) then id - 0x20 else id
  }

  /** The next value in `s` carries tag `tag`. */
  predicate Peek(s: seq<byte>, tag: byte) {
    |s| > 0 && TagOf(s[0]) == tag
  }

  /** `r` is what remains of `s` after a prefix of it was read. */
  predicate IsSuffix(r: seq<byte>, s: seq<byte>) {
    |r| <= |s| && r == s[|s| - |r|..]
  }

  lemma SuffixTransitive(a: seq<byte>, b: seq<byte>, c: seq<byte>)
    requires IsSuffix(a, b) && IsSuffix(b, c)
    ensures IsSuffix(a, c)
  {
    assert c[|c| - |b|..][|b| - |a|..] == c[|c| - |a|..];
  }

  // ---------------------------------------------------------------- lengths

  function BigEndian(s: seq<byte>): nat {
    if s == [] then 0 else BigEndian(s[..|s| - 1]) * 0x100 + s[|s| - 1] as nat
  }

  function Pow256(k: nat): (r: nat)
    ensures r > 0
  {
    if k == 0 then 1 else 0x100 * Pow256(k - 1)
  }

  function ToBigEndian(n: nat, k: nat): (r: seq<byte>)
    ensures |r| == k
  {
    if k == 0 then [] else ToBigEndian(n / 0x100, k - 1) + [(n % 0x100) as byte]
  }

  lemma {:induction false} BigEndianRoundTrip(n: nat, k: nat)
    requires n < Pow256(k)
    ensures BigEndian(ToBigEndian(n, k)) == n
  {
    if k > 0 {
      var s := ToBigEndian(n, k);
      assert s[..k - 1] == ToBigEndian(n / 0x100, k - 1);
      BigEndianRoundTrip(n / 0x100, k - 1);
    }
  }

  /** A big-endian number of k octets is below 256^k and reads back as those octets. */
  lemma {:induction false} BigEndianOctets(x: seq<byte>)
    ensures BigEndian(x) < Pow256(|x|)
    ensures ToBigEndian(BigEndian(x), |x|) == x
  {
    if x != [] {
      var init := x[..|x| - 1];
      BigEndianOctets(init);
      assert init + [x[|x| - 1]] == x;
    }
  }

  /**
   * The length `n` can be written in `w` length octets after the first:
   * `w == 0` is the short form, 1 to 4 the long form.
   */
  predicate LengthFits(n: nat, w: nat) {
    if w == 0 then n < 0x80 else w <= 4 && n < Pow256(w)
  }

  /** The length octets for `n` in the form `w`. */
  function EncodeLength(n: nat, w: nat): (r: seq<byte>)
    requires LengthFits(n, w)
    ensures |r| == w + 1
  {
    if w == 0 then [n as byte] else [(0x80 + w) as byte] + ToBigEndian(n, w)
  }

  /**
   * Reads the length octets at the head of `s`: the length and the number of
   * octets it took. The indefinite form (0x80) and long forms of more than
   * four octets are refused; a long form need not be the shortest one.
   */
  function ReadLength(s: seq<byte>): (r: Result<(nat, nat), Error>)
    ensures r.Ok? ==> 1 <= r.value.1 <= |s|
  {
    if |s| == 0 then Err(Malformed)
    else if s[0] < 0x80 then Ok((s[0] as nat, 1))
    else if 0x81 <= s[0] <= 0x84 then
      var k := (s[0] - 0x80) as nat;
      if |s| <= k then Err(Malformed) else Ok((BigEndian(s[1..k + 1]), k + 1))
    else Err(Malformed)
  }

  /** Length octets of every form read back as the length they encode. */
  lemma LengthRoundTrip(n: nat, w: nat, rest: seq<byte>)
    requires LengthFits(n, w)
    ensures ReadLength(EncodeLength(n, w) + rest) == Ok((n, w + 1))
  {
    if w > 0 {
      var s := EncodeLength(n, w) + rest;
      assert s[1..w + 1] == ToBigEndian(n, w);
      BigEndianRoundTrip(n, w);
    }
  }

  /** Whatever length octets ReadLength accepts are the encoding of that length in some form. */
  lemma ReadLengthEncoded(s: seq<byte>) returns (w: nat)
    requires ReadLength(s).Ok?
    ensures var (n, used) := ReadLength(s).value;
      used == w + 1 && LengthFits(n, w) && EncodeLength(n, w) == s[..used]
  {
    if s[0] < 0x80 {
      w := 0;
      assert s[..1] == [s[0]];
    } else {
      w := (s[0] - 0x80) as nat;
      var x := s[1..w + 1];
      BigEndianOctets(x);
      assert s[..w + 1] == [s[0]] + x;
    }
  }

  // ----------------------------------------------------------------- values

  /** The form and the content octets of one encoded value. */
  datatype Value = Value(constructed: bool, content: seq<byte>)

  /** Reads the value at the head of `s`, whatever its tag. */
  function TakeValue(s: seq<byte>): (r: Result<(Value, seq<byte>), Error>)
    requires |s| > 0
    ensures r.Ok? ==> |r.value.1| < |s| && IsSuffix(r.value.1, s)
    ensures r.Ok? ==> r.value.0.constructed == IsConstructed(s[0])
  {
    var len :- ReadLength(s[1..]);
    var start := 1 + len.1;
    if |s| - start < len.0 then Err(Malformed)
    else Ok((Value(IsConstructed(s[0]), s[start..start + len.0]), s[start + len.0..]))
  }

  /** A value with identifier octet `id`, its length written in the form `w`. */
  function EncodeValue(id: byte, w: nat, content: seq<byte>): (r: seq<byte>)
    requires LengthFits(|content|, w)
    ensures |r| > |content|
  {
    [id] + EncodeLength(|content|, w) + content
  }

  /** Reading the encoding of a value gives back its form and content, and the rest. */
  lemma TakeEncodedValue(id: byte, w: nat, content: seq<byte>, rest: seq<byte>)
    requires LengthFits(|content|, w)
    ensures (EncodeValue(id, w, content) + rest)[0] == id
    ensures TakeValue(EncodeValue(id, w, content) + rest)
         == Ok((Value(IsConstructed(id), content), rest))
  {
    EncodedLayout(id, w, content, rest);
    LengthRoundTrip(|content|, w, content + rest);
  }

  /** Where the parts of an encoded value sit. */
  lemma EncodedLayout(id: byte, w: nat, content: seq<byte>, rest: seq<byte>)
    requires LengthFits(|content|, w)
    ensures var s, start := EncodeValue(id, w, content) + rest, w + 2;
      && s[0] == id && s[1..] == EncodeLength(|content|, w) + (content + rest)
      && s[start..start + |content|] == content && s[start + |content|..] == rest
  {
    var s := EncodeValue(id, w, content) + rest;
    Pieces(s, id, EncodeLength(|content|, w), content, rest);
  }

  /** Where the four pieces of `[id] + l + content + rest` sit. */
  lemma Pieces(s: seq<byte>, id: byte, l: seq<byte>, content: seq<byte>, rest: seq<byte>)
    requires s == [id] + l + content + rest
    ensures var start := |l| + 1;
      && s[0] == id && s[1..] == l + (content + rest)
      && s[start..start + |content|] == content && s[start + |content|..] == rest
  {
    assert s == [id] + (l + (content + rest));
  }

  /** Whatever TakeValue accepts is the encoding of the value it returns, in some length form. */
  lemma TakeValueEncoded(s: seq<byte>) returns (w: nat)
    requires |s| > 0 && TakeValue(s).Ok?
    ensures var (v, rest) := TakeValue(s).value;
      && v.constructed == IsConstructed(s[0])
      && LengthFits(|v.content|, w) && s == EncodeValue(s[0], w, v.content) + rest
  {
    var n := ReadLength(s[1..]).value.0;
    w := ReadLengthEncoded(s[1..]);
    assert s[1..][..w + 1] == s[1..w + 2];
    ValueLayout(s, w, n);
  }

  /** Octets that hold an identifier, the length octets for `n` and `n` more octets are an encoded value. */
  lemma ValueLayout(s: seq<byte>, w: nat, n: nat)
    requires LengthFits(n, w) && |s| >= w + 2 + n && EncodeLength(n, w) == s[1..w + 2]
    ensures s == EncodeValue(s[0], w, s[w + 2..w + 2 + n]) + s[w + 2 + n..]
  {
    assert s == [s[0]] + s[1..w + 2] + s[w + 2..w + 2 + n] + s[w + 2 + n..];
  }

  /**
   * A value with tag `tag` in the form `constructed`, if the next value has
   * that tag (the toolkit's take_opt_value_if with a form check); `None` at the
   * end of the input or at another tag.
   */
  function TakeOptValueIf(s: seq<byte>, tag: byte, constructed: bool)
    : (r: Result<Option<(seq<byte>, seq<byte>)>, Error>)
    ensures r.Ok? && r.value.Some? ==> |r.value.value.1| < |s| && IsSuffix(r.value.value.1, s)
    ensures r.Ok? && r.value.None? <==> !Peek(s, tag)
  {
    if !Peek(s, tag) then Ok(None)
    else
      var v :- TakeValue(s);
      if v.0.constructed != constructed then Err(Malformed) else Ok(Some((v.0.content, v.1)))
  }

  /** As TakeOptValueIf, but a missing value is Malformed. */
  function TakeValueIf(s: seq<byte>, tag: byte, constructed: bool)
    : (r: Result<(seq<byte>, seq<byte>), Error>)
    ensures r.Ok? ==> Peek(s, tag) && |r.value.1| < |s|
    ensures r.Ok? <==> TakeOptValueIf(s, tag, constructed).Ok? && TakeOptValueIf(s, tag, constructed).value.Some?
  {
    var v :- TakeOptValueIf(s, tag, constructed);
    if v.None? then Err(Malformed) else Ok(v.value)
  }

  /** Reading a value with the expected tag and form from its encoding. */
  lemma TakeEncodedValueIf(id: byte, w: nat, content: seq<byte>, rest: seq<byte>)
    requires LengthFits(|content|, w)
    ensures TakeOptValueIf(EncodeValue(id, w, content) + rest, TagOf(id), IsConstructed(id))
         == Ok(Some((content, rest)))
    ensures TakeValueIf(EncodeValue(id, w, content) + rest, TagOf(id), IsConstructed(id))
         == Ok((content, rest))
  {
    TakeEncodedValue(id, w, content, rest);
  }

  /**
   * Whatever TakeOptValueIf reads is the encoding, in some length form, of
   * its content under the one identifier octet that has tag `tag` and form
   * `constructed`.
   */
  lemma TakeOptValueIfEncoded(s: seq<byte>, tag: byte, constructed: bool) returns (w: nat)
    requires TakeOptValueIf(s, tag, constructed).Ok? && TakeOptValueIf(s, tag, constructed).value.Some?
    ensures var (content, rest) := TakeOptValueIf(s, tag, constructed).value.value;
      && TagOf(s[0]) == tag && IsConstructed(s[0]) == constructed
      && LengthFits(|content|, w) && s == EncodeValue(s[0], w, content) + rest
  {
    w := TakeValueEncoded(s);
  }

  // ------------------------------------------------------ primitive values

  /** An INTEGER decoded as an unsigned value of any length, kept as its octets. */
  function TakeUnsigned(s: seq<byte>): (r: Result<(seq<byte>, seq<byte>), Error>)
    ensures r.Ok? ==> UnsignedOctets(r.value.0) && |r.value.1| < |s|
    ensures r.Ok? ==> TakeValueIf(s, INTEGER, false) == Ok(r.value)
  {
    var v :- TakeValueIf(s, INTEGER, false);
    if UnsignedOctets(v.0) then Ok(v) else Err(Malformed)
  }

  /** Content octets of a non-negative INTEGER: at least one octet, sign bit clear. */
  predicate UnsignedOctets(content: seq<byte>) {
    |content| > 0 && content[0] < 0x80
  }

  /** The content of an INTEGER read as an 8-bit unsigned value. */
  function ToU8(content: seq<byte>): (r: Result<byte, Error>)
    ensures r == Ok(0) <==> content == [0]
  {
    if |content| == 1 && content[0] < 0x80 then Ok(content[0])
    else if |content| == 2 && content[0] == 0 && content[1] >= 0x80 then Ok(content[1])
    else Err(Malformed)
  }

  /** Skips an OBJECT IDENTIFIER that must equal `oid` (the content octets). */
  function SkipOidIf(s: seq<byte>, oid: seq<byte>): (r: Result<seq<byte>, Error>)
    ensures r.Ok? ==> |r.value| < |s| && TakeValueIf(s, OID, false) == Ok((oid, r.value))
  {
    var v :- TakeValueIf(s, OID, false);
    if v.0 != oid then Err(Malformed) else Ok(v.1)
  }

  /** An encoded OBJECT IDENTIFIER is skipped exactly when it is the expected one. */
  lemma SkipEncodedOid(w: nat, content: seq<byte>, rest: seq<byte>, oid: seq<byte>)
    requires LengthFits(|content|, w)
    ensures SkipOidIf(EncodeValue(OID, w, content) + rest, oid)
         == if content == oid then Ok(rest) else Err(Malformed)
  {
    assert TagOf(OID) == OID && !IsConstructed(OID);
    TakeEncodedValueIf(OID, w, content, rest);
  }

  // ------------------------------------------------------------ BIT STRING

  /** A bit string: the count of unused trailing bits and the octets. */
  datatype BitString = BitString(unused: byte, octets: seq<byte>)

  /** What a BIT STRING's content may be: at most 7 unused bits, none if there are no octets. */
  predicate ValidBitString(b: BitString) {
    b.unused <= 7 && (b.octets == [] ==> b.unused == 0)
  }

  /** The octets of a bit string that has no unused bits. */
  function OctetSlice(b: BitString): (r: Option<seq<byte>>)
    ensures r.Some? <==> b.unused == 0
    ensures r.Some? ==> r.value == b.octets
  {
    if b.unused == 0 then Some(b.octets) else None
  }

  /** Checks a BIT STRING value at the head of `s` and skips it. */
  function SkipBitString(s: seq<byte>): (r: Result<seq<byte>, Error>)
    ensures r.Ok? ==> |r.value| < |s|
  {
    var v :- TakeValueIf(s, BIT_STRING, false);
    var content := v.0;
    if |content| == 0 || content[0] > 7 || (|content| == 1 && content[0] != 0) then Err(Malformed)
    else Ok(v.1)
  }

  /** Reads a BIT STRING value at the head of `s`. */
  function TakeBitString(s: seq<byte>): (r: Result<(BitString, seq<byte>), Error>)
    ensures r.Ok? ==> ValidBitString(r.value.0) && |r.value.1| < |s|
    ensures r.Ok? ==> var (b, rest) := r.value;
      TakeValueIf(s, BIT_STRING, false) == Ok(([b.unused] + b.octets, rest))
  {
    var v :- TakeValueIf(s, BIT_STRING, false);
    if |v.0| == 0 then Err(Malformed)
    else
      var bits := BitString(v.0[0], v.0[1..]);
      assert v.0 == [bits.unused] + bits.octets;
      if ValidBitString(bits) then Ok((bits, v.1)) else Err(Malformed)
  }

  /** A BIT STRING value, its length written in the form `w`. */
  function EncodeBitString(b: BitString, w: nat): seq<byte>
    requires LengthFits(|b.octets| + 1, w)
  {
    EncodeValue(BIT_STRING, w, [b.unused] + b.octets)
  }

  /** The two BIT STRING readers accept the same inputs and stop at the same place. */
  lemma SkipTakeBitStringAgree(s: seq<byte>)
    ensures SkipBitString(s).Ok? <==> TakeBitString(s).Ok?
    ensures SkipBitString(s).Ok? ==> SkipBitString(s).value == TakeBitString(s).value.1
  {
  }

  /** A valid bit string reads back from its encoding in any length form. */
  lemma TakeEncodedBitString(b: BitString, w: nat, rest: seq<byte>)
    requires ValidBitString(b) && LengthFits(|b.octets| + 1, w)
    ensures TakeBitString(EncodeBitString(b, w) + rest) == Ok((b, rest))
  {
    TakeEncodedValueIf(BIT_STRING, w, [b.unused] + b.octets, rest);
    assert ([b.unused] + b.octets)[1..] == b.octets;
  }

  /** Whatever TakeBitString accepts is the encoding of the bit string it returns, in some length form. */
  lemma TakeBitStringEncoded(s: seq<byte>) returns (w: nat)
    requires TakeBitString(s).Ok?
    ensures var (b, rest) := TakeBitString(s).value;
      LengthFits(|b.octets| + 1, w) && s == EncodeBitString(b, w) + rest
  {
    var (b, rest) := TakeBitString(s).value;
    w := TakeOptValueIfEncoded(s, BIT_STRING, false);
    assert s[0] == BIT_STRING;
  }
}
