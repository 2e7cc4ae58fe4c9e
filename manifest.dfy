/**
 * Manifest: a signed object whose eContent is a ManifestContent. The CMS
 * layer (decoding the signed object and validating its signature and
 * certificate) is supplied by the caller as two functions.
 */
module ManifestObject {
  import opened Wrappers
  import opened Ber
  import opened X509
  import opened Entry
  import opened Content

  /** A decoded CMS signed object, reduced to its envelope and its eContent octets. */
  datatype SignedObject = SignedObject(envelope: seq<byte>, eContent: seq<byte>)

  /** A resource certificate, carried through unchanged. */
  datatype ResourceCert = ResourceCert(raw: seq<byte>)

  datatype Manifest = Manifest(signed: SignedObject, content: ManifestContent)

  /** SignedObject::decode. */
  type DecodeSigned = seq<byte> -> Result<SignedObject, Error>

  /** SignedObject::validate against the issuer's certificate: the EE certificate. */
  type ValidateSigned = (SignedObject, ResourceCert) -> Result<ResourceCert, ValidationError>

  /**
   * Manifest::decode: the signed object first, then its eContent as a
   * ManifestContent; either failure is the result.
   */
  method Decode(source: seq<byte>, decodeSigned: DecodeSigned) returns (r: Result<Manifest, Error>)
    ensures decodeSigned(source).Err? ==> r == Err(decodeSigned(source).error)
    ensures decodeSigned(source).Ok? ==>
      var signed := decodeSigned(source).value;
      && (r.Ok? <==> DecodeSpec(signed.eContent).Ok?)
      && (r.Ok? ==> r.value == Manifest(signed, DecodeSpec(signed.eContent).value))
  {
    var signed :- decodeSigned(source);
    var content :- DecodeContent(signed.eContent);
    r := Ok(Manifest(signed, content));
  }

  /**
   * Manifest::validate: the signed object is validated against the issuer
   * certificate and, when that succeeds, the content is handed out as it
   * was decoded.
   */
  function Validate(m: Manifest, cert: ResourceCert, validateSigned: ValidateSigned)
    : (r: Result<(ResourceCert, ManifestContent), ValidationError>)
    ensures r.Ok? <==> validateSigned(m.signed, cert).Ok?
    ensures r.Ok? ==> r.value.0 == validateSigned(m.signed, cert).value && r.value.1 == m.content
    ensures r.Err? ==> r.error == validateSigned(m.signed, cert).error
  {
    var ee :- validateSigned(m.signed, cert);
    Ok((ee, m.content))
  }

  /**
   * The content a validated manifest hands out is the decoding of its
   * eContent, so its times are in order and its fileList is one the entry
   * readers agree on.
   */
  lemma ValidatedContentDecoded(source: seq<byte>, decodeSigned: DecodeSigned,
                                m: Manifest, cert: ResourceCert, validateSigned: ValidateSigned)
    requires decodeSigned(source).Ok? && m.signed == decodeSigned(source).value
    requires DecodeSpec(m.signed.eContent) == Ok(m.content)
    requires Validate(m, cert, validateSigned).Ok?
    ensures var c := Validate(m, cert, validateSigned).value.1;
      && Ok(c) == DecodeSpec(decodeSigned(source).value.eContent)
      && c.thisUpdate <= c.nextUpdate
      && TakeAll(c.fileList).Ok? && TakeAll(c.fileList).value.1 == []
  {
    ListAgreement(m.content.fileList);
  }
}
