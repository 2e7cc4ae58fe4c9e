/**
 * ManifestContent: the eContent of an RPKI manifest (section 4.2 of RFC 6486),
 *
 *   Manifest ::= SEQUENCE {
 *     version      [0] INTEGER DEFAULT 0,
 *     manifestNumber   INTEGER,
 *     thisUpdate       GeneralizedTime,
 *     nextUpdate       GeneralizedTime,
 *     fileHashAlg      OBJECT IDENTIFIER,
 *     fileList         SEQUENCE OF FileAndHash }
 *
 * The decoder keeps the manifest number as its octets, the two times, and
 * the raw octets of the fileList, which it only checks with the skip reader.
 */
module Content {
  import opened Wrappers
  import opened Ber
  import opened X509
  import opened Entry

  /** Content octets of the OBJECT IDENTIFIER 2.16.840.1.101.3.4.2.1 (SHA-256). */
  const SHA256_OID: seq<byte> := [0x60, 0x86, 0x48, 0x01, 0x65, 0x03, 0x04, 0x02, 0x01]

  datatype ContentFields = ContentFields(
    manifestNumber: seq<byte>,
    thisUpdate: Time,
    nextUpdate: Time,
    fileList: seq<byte>)

  /** What every decoded manifest content satisfies. */
  predicate ContentInvariant(c: ContentFields) {
    c.thisUpdate <= c.nextUpdate && WellFormedList(c.fileList)
  }

  /** A manifest content can only exist with its invariant. */
  type ManifestContent = c: ContentFields | ContentInvariant(c)
    witness ContentFields([], 0, 0, [])

  /** The optional version `[0]`, which must be 0 when it is present. */
  function SkipVersion(s: seq<byte>): (r: Result<seq<byte>, Error>)
    ensures r.Ok? ==> |r.value| <= |s|
    ensures !Peek(s, CTX_0) ==> r == Ok(s)
    ensures r.Ok? && Peek(s, CTX_0) ==> TakeOptValueIf(s, CTX_0, false) == Ok(Some(([0], r.value)))
  {
    var version :- TakeOptValueIf(s, CTX_0, false);
    match version
    case None => Ok(s)
    case Some(v) =>
      var n :- ToU8(v.0);
      if n != 0 then Err(Malformed) else Ok(v.1)
  }

  /**
   * The fileList SEQUENCE, walked with the skip reader: the captured octets
   * the walk consumed, which must be all of the SEQUENCE's content, and the
   * input after the SEQUENCE.
   */
  function DecodeFileList(s: seq<byte>): (r: Result<(seq<byte>, seq<byte>), Error>)
    ensures r.Ok? <==> TakeValueIf(s, SEQUENCE, true).Ok?
                       && WellFormedList(TakeValueIf(s, SEQUENCE, true).value.0)
    ensures r.Ok? ==> r == TakeValueIf(s, SEQUENCE, true)
  {
    var list :- TakeValueIf(s, SEQUENCE, true);
    var stop :- SkipLoop(list.0);
    var captured := list.0[..|list.0| - |stop|];
    if stop != [] then Err(Malformed)
    else
      assert captured == list.0;
      Ok((captured, list.1))
  }

  /** The fields inside the Manifest SEQUENCE: the closure ManifestContent::decode runs. */
  function DecodeFields(s: seq<byte>): (r: Result<ManifestContent, Error>)
    ensures !Peek(s, CTX_0) ==> r == DecodeBody(s)
    ensures r.Ok? ==> UnsignedOctets(r.value.manifestNumber)
  {
    var afterVersion :- SkipVersion(s);
    DecodeBody(afterVersion)
  }

  /** The fields after the version. */
  function DecodeBody(s: seq<byte>): (r: Result<ManifestContent, Error>)
    ensures r.Ok? ==> Peek(s, INTEGER) && UnsignedOctets(r.value.manifestNumber)
  {
    var number :- TakeUnsigned(s);
    var thisUpdate :- TakeTime(number.1);
    var nextUpdate :- TakeTime(thisUpdate.1);
    if thisUpdate.0 > nextUpdate.0 then Err(Malformed)
    else
      var afterAlg :- SkipOidIf(nextUpdate.1, SHA256_OID);
      var list :- DecodeFileList(afterAlg);
      if list.1 != [] then Err(Malformed)
      else Ok(ContentFields(number.0, thisUpdate.0, nextUpdate.0, list.0))
  }

  /** Decoding of a whole eContent: one Manifest SEQUENCE and nothing after it. */
  function DecodeSpec(data: seq<byte>): (r: Result<ManifestContent, Error>)
    ensures r.Ok? ==> Peek(data, SEQUENCE) && UnsignedOctets(r.value.manifestNumber)
  {
    var outer :- TakeValueIf(data, SEQUENCE, true);
    var content :- DecodeFields(outer.0);
    if outer.1 != [] then Err(Malformed) else Ok(content)
  }

  /**
   * The loop of ManifestContent::decode over the fileList: entries are
   * skipped one by one until the next value is not a SEQUENCE.
   */
  method SkipEntries(entries: seq<byte>) returns (r: Result<seq<byte>, Error>)
    ensures r == SkipLoop(entries)
  {
    var cursor := entries;
    while true
      invariant SkipLoop(cursor) == SkipLoop(entries)
      decreases |cursor|
    {
      var step := SkipOptIn(cursor);
      if step.Err? {
        return Err(step.error);
      }
      if step.value.None? {
        return Ok(cursor);
      }
      cursor := step.value.value;
    }
  }

  /**
   * The fileList part of ManifestContent::decode: the octets the loop
   * consumed inside the SEQUENCE are captured as the fileList.
   */
  method CaptureFileList(s: seq<byte>) returns (r: Result<(seq<byte>, seq<byte>), Error>)
    ensures r == DecodeFileList(s)
  {
    var list :- TakeValueIf(s, SEQUENCE, true);
    var stop :- SkipEntries(list.0);
    var captured := list.0[..|list.0| - |stop|];
    if stop != [] {
      return Err(Malformed);
    }
    assert captured == list.0;
    r := Ok((captured, list.1));
  }

  /** ManifestContent::decode: the Manifest SEQUENCE, then the closure over its content. */
  method DecodeContent(data: seq<byte>) returns (r: Result<ManifestContent, Error>)
    ensures r == DecodeSpec(data)
  {
    var outer :- TakeValueIf(data, SEQUENCE, true);
    var content :- DecodeSequence(outer.0);
    if outer.1 != [] {
      return Err(Malformed);
    }
    r := Ok(content);
  }

  /** The closure ManifestContent::decode runs on the content of the Manifest SEQUENCE. */
  method DecodeSequence(s: seq<byte>) returns (r: Result<ManifestContent, Error>)
    ensures r == DecodeFields(s)
  {
    var afterVersion :- SkipVersion(s);
    var number :- TakeUnsigned(afterVersion);
    var thisUpdate :- TakeTime(number.1);
    var nextUpdate :- TakeTime(thisUpdate.1);
    if thisUpdate.0 > nextUpdate.0 {
      return Err(Malformed);
    }
    var afterAlg :- SkipOidIf(nextUpdate.1, SHA256_OID);
    var list :- CaptureFileList(afterAlg);
    if list.1 != [] {
      return Err(Malformed);
    }
    r := Ok(ContentFields(number.0, thisUpdate.0, nextUpdate.0, list.0));
  }

  // ---------------------------------------------------------------- encoding

  /** Content octets written with the length form `width` (see LengthFits). */
  datatype Part = Part(width: nat, content: seq<byte>)

  /** As Part, with an arbitrary identifier octet: used for the two times. */
  datatype Field = Field(id: byte, width: nat, content: seq<byte>)

  /**
   * The abstract syntax of a Manifest, before encoding, together with the
   * length form of every value, so that every form the reader takes (short,
   * or long with one to four octets, shortest or not) is covered.
   */
  datatype ContentSyntax = ContentSyntax(
    width: nat,
    version: Option<Part>,
    manifestNumber: Part,
    thisUpdate: Field,
    nextUpdate: Field,
    fileHashAlg: Part,
    fileList: Part)

  predicate PartFits(p: Part) {
    LengthFits(|p.content|, p.width)
  }

  predicate FieldFits(f: Field) {
    LengthFits(|f.content|, f.width)
  }

  predicate PartsFit(m: ContentSyntax) {
    && (m.version.Some? ==> PartFits(m.version.value))
    && PartFits(m.manifestNumber)
    && FieldFits(m.thisUpdate) && FieldFits(m.nextUpdate)
    && PartFits(m.fileHashAlg) && PartFits(m.fileList)
  }

  function VersionEncoding(version: Option<Part>): seq<byte>
    requires version.Some? ==> PartFits(version.value)
  {
    if version.None? then [] else EncodeValue(CTX_0, version.value.width, version.value.content)
  }

  /** The encoding of everything after the version. */
  function FieldsEncoding(m: ContentSyntax): seq<byte>
    requires PartsFit(m)
  {
    EncodeValue(INTEGER, m.manifestNumber.width, m.manifestNumber.content)
    + (EncodeValue(m.thisUpdate.id, m.thisUpdate.width, m.thisUpdate.content)
    + (EncodeValue(m.nextUpdate.id, m.nextUpdate.width, m.nextUpdate.content)
    + (EncodeValue(OID, m.fileHashAlg.width, m.fileHashAlg.content)
    + EncodeValue(SEQUENCE_ID, m.fileList.width, m.fileList.content))))
  }

  /** The syntaxes whose encoding the chosen length forms can carry. */
  predicate Fits(m: ContentSyntax) {
    PartsFit(m) && LengthFits(|VersionEncoding(m.version) + FieldsEncoding(m)|, m.width)
  }

  function EncodeContent(m: ContentSyntax): seq<byte>
    requires Fits(m)
  {
    EncodeValue(SEQUENCE_ID, m.width, VersionEncoding(m.version) + FieldsEncoding(m))
  }

  /** What this decoder accepts. */
  predicate Accepted(m: ContentSyntax) {
    (m.version.None? || m.version.value.content == [0]) && BodyAccepted(m)
  }

  /** What is accepted of the fields after the version. */
  predicate BodyAccepted(m: ContentSyntax) {
    && UnsignedOctets(m.manifestNumber.content)
    && IsTimeTag(m.thisUpdate.id) && IsTimeTag(m.nextUpdate.id)
    && TimeValue(m.thisUpdate.content) <= TimeValue(m.nextUpdate.content)
    && m.fileHashAlg.content == SHA256_OID
    && WellFormedList(m.fileList.content)
  }

  function Decoded(m: ContentSyntax): ContentFields {
    ContentFields(m.manifestNumber.content, TimeValue(m.thisUpdate.content),
                  TimeValue(m.nextUpdate.content), m.fileList.content)
  }

  /** An absent version is skipped over; a present one must be exactly the integer 0. */
  lemma SkipEncodedVersion(version: Option<Part>, rest: seq<byte>)
    requires version.Some? ==> PartFits(version.value)
    requires !Peek(rest, CTX_0)
    ensures SkipVersion(VersionEncoding(version) + rest)
         == if version.None? || version.value.content == [0] then Ok(rest) else Err(Malformed)
  {
    if version.Some? {
      assert TagOf(CTX_0) == CTX_0 && !IsConstructed(CTX_0);
      TakeEncodedValueIf(CTX_0, version.value.width, version.value.content, rest);
    } else {
      assert VersionEncoding(version) + rest == rest;
    }
  }

  /** The fileList SEQUENCE reads back exactly when the skip loop consumes all of it. */
  lemma DecodeEncodedFileList(w: nat, list: seq<byte>, rest: seq<byte>)
    requires LengthFits(|list|, w)
    ensures DecodeFileList(EncodeValue(SEQUENCE_ID, w, list) + rest)
         == if WellFormedList(list) then Ok((list, rest)) else Err(Malformed)
  {
    assert TagOf(SEQUENCE_ID) == SEQUENCE && IsConstructed(SEQUENCE_ID);
    TakeEncodedValueIf(SEQUENCE_ID, w, list, rest);
    var s := EncodeValue(SEQUENCE_ID, w, list) + rest;
    assert TakeValueIf(s, SEQUENCE, true) == Ok((list, rest));
    if WellFormedList(list) {
      assert list[..|list| - 0] == list;
    } else if SkipLoop(list).Ok? {
      assert SkipLoop(list).value != [];
    } else {
      assert SkipLoop(list).error == Malformed;
    }
  }

  /** Decoding the fields after the version. */
  lemma DecodeEncodedFields(m: ContentSyntax)
    requires PartsFit(m)
    ensures var s := FieldsEncoding(m);
      !Peek(s, CTX_0)
      && DecodeBody(s) == if BodyAccepted(m) then Ok(Decoded(m)) else Err(Malformed)
  {
    var number, alg, list := m.manifestNumber, m.fileHashAlg, m.fileList;
    var listEnc := EncodeValue(SEQUENCE_ID, list.width, list.content);
    var algEnc := EncodeValue(OID, alg.width, alg.content) + listEnc;
    var nextEnc := EncodeValue(m.nextUpdate.id, m.nextUpdate.width, m.nextUpdate.content) + algEnc;
    var thisEnc := EncodeValue(m.thisUpdate.id, m.thisUpdate.width, m.thisUpdate.content) + nextEnc;
    var s := FieldsEncoding(m);
    assert s == EncodeValue(INTEGER, number.width, number.content) + thisEnc;
    TakeEncodedValueIf(INTEGER, number.width, number.content, thisEnc);
    assert TagOf(INTEGER) == INTEGER && !IsConstructed(INTEGER) && !Peek(s, CTX_0);
    if !UnsignedOctets(number.content) {
      assert TakeUnsigned(s).Err?;
    } else {
      assert TakeUnsigned(s) == Ok((number.content, thisEnc));
      TakeEncodedTime(m.thisUpdate.id, m.thisUpdate.width, m.thisUpdate.content, nextEnc);
      TakeEncodedTime(m.nextUpdate.id, m.nextUpdate.width, m.nextUpdate.content, algEnc);
      var thisTime := TimeValue(m.thisUpdate.content);
      var nextTime := TimeValue(m.nextUpdate.content);
      if IsTimeTag(m.thisUpdate.id) && IsTimeTag(m.nextUpdate.id) && thisTime <= nextTime {
        SkipEncodedOid(alg.width, alg.content, listEnc, SHA256_OID);
        if alg.content == SHA256_OID {
          DecodeEncodedFileList(list.width, list.content, []);
          assert listEnc + [] == listEnc;
        }
      }
    }
  }

  /**
   * The decoder on an encoded Manifest, in any length forms: it accepts
   * exactly the syntaxes this decoder allows (Accepted) and returns their
   * fields, and refuses every other one as Malformed.
   */
  lemma DecodeEncodedContent(m: ContentSyntax)
    requires Fits(m)
    ensures DecodeSpec(EncodeContent(m))
         == if Accepted(m) then Ok(Decoded(m)) else Err(Malformed)
  {
    var fields := FieldsEncoding(m);
    var inner := VersionEncoding(m.version) + fields;
    assert TagOf(SEQUENCE_ID) == SEQUENCE && IsConstructed(SEQUENCE_ID);
    TakeEncodedValueIf(SEQUENCE_ID, m.width, inner, []);
    assert EncodeContent(m) + [] == EncodeContent(m);
    DecodeEncodedFields(m);
    SkipEncodedVersion(m.version, fields);
  }

  /** Whatever SkipVersion accepts starts with the encoding of an absent version or of a version 0. */
  lemma VersionEncoded(s: seq<byte>) returns (version: Option<Part>)
    requires SkipVersion(s).Ok?
    ensures version.Some? ==> PartFits(version.value) && version.value.content == [0]
    ensures s == VersionEncoding(version) + SkipVersion(s).value
  {
    if Peek(s, CTX_0) {
      var w := TakeOptValueIfEncoded(s, CTX_0, false);
      assert s[0] == CTX_0;
      version := Some(Part(w, [0]));
    } else {
      version := None;
      assert VersionEncoding(version) + s == s;
    }
  }

  /**
   * Whatever the last two fields of DecodeBody accept is the encoding of the
   * SHA-256 identifier and of a well-formed fileList, in some length forms.
   */
  lemma TrailerEncoded(t: seq<byte>) returns (alg: Part, list: Part)
    requires SkipOidIf(t, SHA256_OID).Ok?
    requires var l := DecodeFileList(SkipOidIf(t, SHA256_OID).value); l.Ok? && l.value.1 == []
    ensures PartFits(alg) && PartFits(list)
    ensures alg.content == SHA256_OID && WellFormedList(list.content)
    ensures t == EncodeValue(OID, alg.width, alg.content)
               + EncodeValue(SEQUENCE_ID, list.width, list.content)
    ensures DecodeFileList(SkipOidIf(t, SHA256_OID).value) == Ok((list.content, []))
  {
    var afterAlg := SkipOidIf(t, SHA256_OID).value;
    var wa := TakeOptValueIfEncoded(t, OID, false);
    assert t[0] == OID;
    var content := DecodeFileList(afterAlg).value.0;
    var wl := TakeOptValueIfEncoded(afterAlg, SEQUENCE, true);
    assert afterAlg[0] == SEQUENCE_ID;
    alg, list := Part(wa, SHA256_OID), Part(wl, content);
    assert afterAlg == EncodeValue(SEQUENCE_ID, wl, content) + [];
  }

  /**
   * Whatever DecodeBody accepts is the encoding, in some length forms, of
   * fields that BodyAccepted allows, and decodes to them.
   */
  lemma BodyEncoded(s: seq<byte>, width: nat, version: Option<Part>) returns (m: ContentSyntax)
    requires DecodeBody(s).Ok?
    requires version.Some? ==> PartFits(version.value)
    ensures m.width == width && m.version == version
    ensures PartsFit(m) && BodyAccepted(m)
    ensures s == FieldsEncoding(m) && DecodeBody(s) == Ok(Decoded(m))
  {
    var (number, afterNumber) := TakeUnsigned(s).value;
    var wn := TakeOptValueIfEncoded(s, INTEGER, false);
    assert s[0] == INTEGER;
    var (thisTime, afterThis) := TakeTime(afterNumber).value;
    var wt, thisContent := TakeTimeEncoded(afterNumber);
    var (nextTime, afterNext) := TakeTime(afterThis).value;
    var wx, nextContent := TakeTimeEncoded(afterThis);
    var alg, list := TrailerEncoded(afterNext);
    assert DecodeBody(s) == Ok(ContentFields(number, thisTime, nextTime, list.content));
    m := ContentSyntax(width, version, Part(wn, number),
      Field(afterNumber[0], wt, thisContent), Field(afterThis[0], wx, nextContent), alg, list);
  }

  /** Whatever DecodeFields accepts is the encoding of an Accepted version and fields. */
  lemma FieldsEncoded(inner: seq<byte>, width: nat) returns (m: ContentSyntax)
    requires DecodeFields(inner).Ok?
    ensures m.width == width && PartsFit(m) && Accepted(m)
    ensures inner == VersionEncoding(m.version) + FieldsEncoding(m)
    ensures DecodeFields(inner) == Ok(Decoded(m))
  {
    var version := VersionEncoded(inner);
    var afterVersion := SkipVersion(inner).value;
    assert DecodeFields(inner) == DecodeBody(afterVersion);
    m := BodyEncoded(afterVersion, width, version);
  }

  /**
   * The converse of DecodeEncodedContent: every input DecodeSpec accepts is
   * the encoding, in some length forms, of an Accepted syntax, and decodes
   * to that syntax's fields.
   */
  lemma DecodedIsEncoding(data: seq<byte>) returns (m: ContentSyntax)
    requires DecodeSpec(data).Ok?
    ensures Fits(m) && Accepted(m)
    ensures data == EncodeContent(m) && DecodeSpec(data) == Ok(Decoded(m))
  {
    var (inner, after) := TakeValueIf(data, SEQUENCE, true).value;
    var w := TakeOptValueIfEncoded(data, SEQUENCE, true);
    assert data[0] == SEQUENCE_ID && after == [];
    assert DecodeSpec(data) == DecodeFields(inner);
    m := FieldsEncoded(inner, w);
    assert data == EncodeValue(SEQUENCE_ID, w, inner) + [];
  }

  /** A version that is present must be 0: any other value makes decoding fail. */
  lemma VersionMustBeZero(m: ContentSyntax)
    requires Fits(m) && m.version.Some? && m.version.value.content != [0]
    ensures DecodeSpec(EncodeContent(m)) == Err(Malformed)
  {
    DecodeEncodedContent(m);
  }

  /** An absent version and an explicit version 0, in any length form, decode alike. */
  lemma DefaultVersion(m: ContentSyntax, w: nat)
    requires Fits(m) && m.version.None?
    requires Fits(m.(version := Some(Part(w, [0]))))
    ensures DecodeSpec(EncodeContent(m))
         == DecodeSpec(EncodeContent(m.(version := Some(Part(w, [0])))))
  {
    DecodeEncodedContent(m);
    DecodeEncodedContent(m.(version := Some(Part(w, [0]))));
  }

  /** A thisUpdate later than nextUpdate makes decoding fail. */
  lemma ReversedTimesRejected(m: ContentSyntax)
    requires Fits(m) && TimeValue(m.thisUpdate.content) > TimeValue(m.nextUpdate.content)
    ensures DecodeSpec(EncodeContent(m)) == Err(Malformed)
  {
    DecodeEncodedContent(m);
  }

  /** Any digest algorithm other than SHA-256 makes decoding fail. */
  lemma OnlySha256(m: ContentSyntax)
    requires Fits(m) && m.fileHashAlg.content != SHA256_OID
    ensures DecodeSpec(EncodeContent(m)) == Err(Malformed)
  {
    DecodeEncodedContent(m);
  }

  /**
   * A fileList made of encoded entries, the empty one included, is accepted
   * whenever the other fields are, and is kept as exactly those octets.
   */
  lemma EncodedEntriesDecoded(m: ContentSyntax, es: seq<FileAndHash>, fs: seq<EntryForm>)
    requires AllEncodable(es, fs)
    requires Fits(m) && m.fileList.content == EncodeEntries(es, fs)
    ensures DecodeSpec(EncodeContent(m)).Ok? <==> Accepted(m.(fileList := m.fileList.(content := [])))
    ensures DecodeSpec(EncodeContent(m)).Ok? ==> DecodeSpec(EncodeContent(m)).value.fileList == m.fileList.content
  {
    var empty := m.(fileList := m.fileList.(content := []));
    EncodedListWellFormed(es, fs);
    EncodedListWellFormed([], []);
    assert WellFormedList(m.fileList.content) && WellFormedList(empty.fileList.content);
    assert Accepted(m) == Accepted(empty);
    DecodeEncodedContent(m);
  }
}
