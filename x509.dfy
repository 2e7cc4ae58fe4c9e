/**
 * The two names the manifest code takes from the X.509 module: the
 * validation error and the validity time. Parsing of UTCTime and
 * GeneralizedTime is not part of this model; a time value is read from a
 * primitive UTCTime or GeneralizedTime value as the big-endian number of its
 * content octets. That orders two timestamps as their text does only when
 * both have the same format and the same length: fractional seconds, and
 * UTCTime's two-digit years across 1950 and 2049, are not ordered this way.
 */
module X509 {
  import opened Wrappers
  import opened Ber

  datatype ValidationError = ValidationError

  /** An abstract, totally ordered point in time. */
  type Time = int

  predicate IsTimeTag(id: byte) {
    id == UTC_TIME || id == GENERALIZED_TIME
  }

  function TimeValue(content: seq<byte>): Time {
    BigEndian(content)
  }

  /** Reads a time value at the head of `s`. */
  function TakeTime(s: seq<byte>): (r: Result<(Time, seq<byte>), Error>)
    ensures r.Ok? ==> |s| > 0 && IsTimeTag(s[0]) && |r.value.1| < |s|
  {
    if |s| == 0 || !IsTimeTag(TagOf(s[0])) then Err(Malformed)
    else
      var v :- TakeValue(s);
      if v.0.constructed then Err(Malformed) else Ok((TimeValue(v.0.content), v.1))
  }

  /** A primitive time value reads back from its encoding; any other identifier is refused. */
  lemma TakeEncodedTime(id: byte, w: nat, content: seq<byte>, rest: seq<byte>)
    requires LengthFits(|content|, w)
    ensures TakeTime(EncodeValue(id, w, content) + rest)
         == if IsTimeTag(id) then Ok((TimeValue(content), rest)) else Err(Malformed)
  {
    TakeEncodedValue(id, w, content, rest);
  }

  /** Whatever TakeTime accepts is the encoding of a primitive time value, in some length form. */
  lemma TakeTimeEncoded(s: seq<byte>) returns (w: nat, content: seq<byte>)
    requires TakeTime(s).Ok?
    ensures var (t, rest) := TakeTime(s).value;
      && IsTimeTag(s[0]) && t == TimeValue(content)
      && LengthFits(|content|, w) && s == EncodeValue(s[0], w, content) + rest
  {
    w := TakeValueEncoded(s);
    content := TakeValue(s).value.0.content;
  }
}
