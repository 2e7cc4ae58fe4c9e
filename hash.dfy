/**
 * ManifestHash: the digest a manifest lists for one file, kept as the BIT
 * STRING it was encoded in. SHA-256 is supplied by the caller as a function
 * into 32-octet values; its internals are not part of this model.
 */
module Hash {
  import opened Wrappers
  import opened Ber
  import opened X509

  /** A SHA-256 output. */
  type Digest = d: seq<byte> | |d| == 32 witness seq(32, i => 0)

  type Sha256 = seq<byte> -> Digest

  datatype ManifestHash = ManifestHash(bits: BitString)

  /** The hash a manifest would list for `bytes`. */
  function DigestOf(bytes: seq<byte>, sha256: Sha256): ManifestHash {
    ManifestHash(BitString(0, sha256(bytes)))
  }

  /**
   * Checks `bytes` against the hash. A bit string with unused bits has no
   * octet view; that is a validation error here.
   */
  function Verify(h: ManifestHash, bytes: seq<byte>, sha256: Sha256)
    : (r: Result<(), ValidationError>)
    ensures r.Ok? <==> h == DigestOf(bytes, sha256)
    ensures r.Ok? ==> h.bits.unused == 0 && |h.bits.octets| == 32
    ensures h.bits.unused != 0 ==> r == Err(ValidationError)
  {
    match OctetSlice(h.bits)
    case None => Err(ValidationError)
    case Some(octets) => if octets == sha256(bytes) then Ok(()) else Err(ValidationError)
  }

  /** The digest of X verifies X, and verifies Y exactly when Y has the same digest. */
  lemma VerifyDigestOf(x: seq<byte>, y: seq<byte>, sha256: Sha256)
    ensures Verify(DigestOf(x, sha256), x, sha256).Ok?
    ensures Verify(DigestOf(x, sha256), y, sha256).Ok? <==> sha256(y) == sha256(x)
  {
  }

  /**
   * ManifestHash::verify as written: the octet view of the bit string is
   * unwrapped, and None stands for the panic that follows when the bit
   * string has unused bits.
   */
  function VerifyAsWritten(h: ManifestHash, bytes: seq<byte>, sha256: Sha256)
    : (r: Option<Result<(), ValidationError>>)
    ensures r.None? <==> h.bits.unused != 0
  {
    match OctetSlice(h.bits)
    case None => None
    case Some(octets) => Some(if octets == sha256(bytes) then Ok(()) else Err(ValidationError))
  }

  /** Where the code as written does not panic, it agrees with Verify. */
  lemma VerifyRefinesAsWritten(h: ManifestHash, bytes: seq<byte>, sha256: Sha256)
    ensures VerifyAsWritten(h, bytes, sha256).Some? ==>
      VerifyAsWritten(h, bytes, sha256) == Some(Verify(h, bytes, sha256))
    ensures VerifyAsWritten(h, bytes, sha256).None? ==> Verify(h, bytes, sha256) == Err(ValidationError)
  {
  }
}

