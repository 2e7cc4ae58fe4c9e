# RPKI manifest content decoder

This project models the manifest code of routinator (`src/manifest.rs`) and
proves properties of the model. An RPKI manifest is a CMS signed object. Its
eContent (section 4.2 of RFC 6486) is

    Manifest ::= SEQUENCE {
      version      [0] INTEGER DEFAULT 0,
      manifestNumber   INTEGER,
      thisUpdate       GeneralizedTime,
      nextUpdate       GeneralizedTime,
      fileHashAlg      OBJECT IDENTIFIER,
      fileList         SEQUENCE OF FileAndHash }

The modelled code does four things:

- `ManifestContent::decode` checks the eContent. It walks the fileList with a
  structure-only entry reader (`skip_opt_in`) and keeps the octets that walk
  consumed.
- `iter_uris` and `ManifestIter::next` re-read those octets lazily, one entry
  per call, with the full entry reader (`take_opt_from`).
- `to_uri_etc` resolves each file name against the base rsync URI.
- `ManifestHash::verify` compares a file's SHA-256 digest with the listed hash.

Modules, one per file:

- `Wrappers` — `Option` and `Result`.
- `Ber` — the definite-length subset of BER (ITU-T X.690) that the decoder
  calls, as readers over `seq<byte>`. The first reader returns the value it
  read and the input after it; each later reader continues from that input.
  The module also has an encoder that writes each length in a chosen form
  (short, or long with one to four octets, shortest or not). For the length,
  value, tag-checking and BIT STRING readers, lemmas state both directions:
  every encoding, in any length forms, reads back, and everything the reader
  accepts is such an encoding. `Entry` and `X509` do the same for entries,
  lists of entries and time values.
- `X509` — `ValidationError` and a stub for `Time`.
- `Rsync` — `Uri`, and the type of the URI join, which the caller supplies.
- `Utf8` — `str::from_utf8` (RFC 3629), with an encoder and both round trips.
- `Hash` — `ManifestHash` and `verify`. SHA-256 is a function parameter.
- `Entry` — `FileAndHash`, its two readers, the loops over a whole list, and
  `to_uri_etc`.
- `Content` — `ManifestContent` and its decoder, as an imperative method and
  as a function that specifies it. It also has an encoder of the Manifest
  syntax in every length form, and lemmas that characterise what the decoder
  accepts in both directions.
- `Iter` — the `ManifestIter` class and a client that drains it.
- `ManifestObject` — `Manifest::decode` and `Manifest::validate`. The CMS
  layer is supplied as function parameters.

`ManifestContent` is a subset type. Its fields satisfy `thisUpdate <=
nextUpdate`, and its fileList is one that the skip loop consumes entirely. A
value that breaks either condition cannot be built. So the iterator's class
invariant holds from the moment `IterUris` creates the iterator. In this
model, `Next` then proves that the full reader cannot fail on the octets
left. That failure is the `unwrap` of `ManifestIter::next`.

`ManifestIter::next` unwraps the result of the re-decode. The model proves
that this branch cannot be reached, so `Next` has no error path for it: no
decode failure can happen in this model. The proof rests on how the model
defines the BER toolkit's two BIT STRING readers and its IA5String reader
(see "Left out").

## Model

| member | source | states |
|---|---|---|
| Content.DecodeContent | src/manifest.rs:49-79 | decode as a method: the result is exactly DecodeSpec, i.e. one Manifest SEQUENCE with nothing after it, whose fields decode, every failure being Malformed |
| Content.DecodeSequence | src/manifest.rs:52-78 | the closure over the Manifest SEQUENCE's content as a method: the result is exactly DecodeFields of that content |
| Content.DecodeFileList | src/manifest.rs:68-74 | the fileList SEQUENCE is accepted exactly when the skip loop consumes all of its content, and the captured octets are then that whole content |
| Content.SkipEntries | src/manifest.rs:70-71 | the `while let Some(()) = skip_opt_in` loop stops where the recursive skip loop stops, or fails with its error |
| Content.CaptureFileList | src/manifest.rs:68-74 | sequence-capture-loop as a method gives the same captured octets and remaining input as DecodeFileList |
| Content.DecodeSpec | src/manifest.rs:49-79 | an accepted eContent starts with a SEQUENCE and has an unsigned manifest number; by its subset type the times are in order and the fileList is well formed |
| Content.SkipVersion | src/manifest.rs:53-60 | with no [0] value the input is left as it is; an accepted [0] value is primitive with content exactly the octet 0, and skipping resumes right after it |
| Content.DecodeFields | src/manifest.rs:52-78 | without a leading [0] value the fields decode as DecodeBody; an accepted manifest number is unsigned |
| Content.DecodeBody | src/manifest.rs:61-78 | an accepted body starts with an INTEGER whose content is unsigned, and yields a content of the ManifestContent subset type |
| Content.DecodedIsEncoding | src/manifest.rs:49-79 | every eContent the decoder accepts is the encoding, in some length forms, of an acceptable Manifest syntax, and decodes to its fields |
| Content.FieldsEncoded | src/manifest.rs:52-78 | every content the SEQUENCE closure accepts is the encoding of an acceptable version and fields, and decodes to those fields |
| Content.BodyEncoded | src/manifest.rs:61-78 | every body the decoder accepts is the encoding of an unsigned INTEGER, two time values in order, the SHA-256 OID and a well-formed fileList |
| Content.TrailerEncoded | src/manifest.rs:67-74 | whatever the OID check and fileList capture accept is the SHA-256 OID followed by a well-formed fileList SEQUENCE and nothing else |
| Content.VersionEncoded | src/manifest.rs:53-60 | whatever the version step accepts starts with nothing or with a primitive [0] value of content 0 |
| Content.DecodeEncodedContent | src/manifest.rs:49-79 | on any encoded Manifest, in any length forms, the decoder returns the fields exactly when the syntax is acceptable (version absent or 0, unsigned number, time tags, thisUpdate <= nextUpdate, SHA-256 OID, well-formed fileList) and Malformed otherwise |
| Content.DecodeEncodedFields | src/manifest.rs:61-78 | the fields after the version decode exactly when they are acceptable, and the encoding does not start with a [0] tag |
| Content.SkipEncodedVersion | src/manifest.rs:53-60 | an absent version is skipped, a present one is accepted only when it is the integer 0 |
| Content.DecodeEncodedFileList | src/manifest.rs:68-74 | an encoded fileList SEQUENCE is kept verbatim exactly when the skip loop consumes it, else Malformed |
| Content.VersionMustBeZero | src/manifest.rs:53-60 | a present version other than 0, in any length form, makes decoding fail with Malformed |
| Content.DefaultVersion | src/manifest.rs:53-60 | an absent version and an explicit 0 in any length form give the same decoding result |
| Content.ReversedTimesRejected | src/manifest.rs:62-66 | thisUpdate later than nextUpdate makes decoding fail with Malformed |
| Content.OnlySha256 | src/manifest.rs:67 | any fileHashAlg other than the SHA-256 OID, in any length form, makes decoding fail |
| Content.EncodedEntriesDecoded | src/manifest.rs:68-77 | a fileList of encoded entries, in any length forms, the empty list included, is accepted whenever the other fields are, and stored as exactly those octets |
| Entry.SkipOptIn | src/manifest.rs:117-125 | None exactly when the next value is not a SEQUENCE; otherwise the input strictly shrinks to a suffix |
| Entry.TakeOptFrom | src/manifest.rs:127-139 | a read entry has a valid bit string and the input strictly shrinks to a suffix; None exactly when the next value is not a SEQUENCE |
| Entry.TakeOptFromEncoded | src/manifest.rs:127-139 | whatever entry the full reader reads is, in some length forms, the SEQUENCE of its IA5String file name and its BIT STRING hash, followed by the rest of the input |
| Entry.SkipTakeAgree | src/manifest.rs:117-139 | the two entry readers fail together, return None together, and otherwise stop at the same position |
| Entry.TakeEncodedEntry | src/manifest.rs:117-139 | both readers read an encoded entry back, in any length forms of its SEQUENCE, IA5String and BIT STRING, and stop right after it |
| Entry.TakeAll | src/manifest.rs:98-104 | repeated take_opt_from calls stop at a remainder no longer than the input that does not begin with a SEQUENCE |
| Entry.SkipLoop | src/manifest.rs:70-71 | the skip loop stops at a suffix of the input that does not begin with a SEQUENCE |
| Entry.ListAgreement | src/manifest.rs:68-74 | the skip loop and the repeated full reader fail together, stop at the same place, and read as many entries as the skip loop counts |
| Entry.ListEntries | src/manifest.rs:98-104 | a well-formed fileList yields, with the full reader, exactly SkipCount entries and no leftover octets |
| Entry.EncodedListLoops | src/manifest.rs:68-74 | on encoded entries, in any length forms, followed by a non-SEQUENCE, the skip loop stops at that tail, counts the entries, and the full reader reads them back in order |
| Entry.EncodedListWellFormed | src/manifest.rs:68-74 | the encoding of any list of entries, in any length forms, the empty list included, is a well-formed fileList holding exactly those entries |
| Entry.TakeAllEncoded | src/manifest.rs:98-104 | whatever the repeated full reader reads is the encoding, in some length forms, of the entries it returns, followed by the input where it stopped |
| Entry.WellFormedListEncoded | src/manifest.rs:68-74 | a fileList the skip loop consumes entirely is exactly the encoding, in some length forms, of the entries the full reader reads from it |
| Entry.ToUriEtc | src/manifest.rs:141-153 | a resolved entry carries its hash unchanged |
| Entry.ToUriEtcResult | src/manifest.rs:141-153 | the result is Ok exactly when the file name is the UTF-8 encoding of a name that joins onto the base; the result is then that join with the hash, and ValidationError otherwise |
| Entry.UnusedBitsReachVerify | src/manifest.rs:163-174 | an entry whose hash has one unused bit is accepted by both readers, verify as written panics on it, and Verify returns ValidationError |
| Hash.Verify | src/manifest.rs:163-174 | Ok exactly when the hash is the unused-bit-free bit string of SHA-256 of the bytes; unused bits give ValidationError |
| Hash.VerifyDigestOf | src/manifest.rs:163-174 | the digest of X verifies X, and verifies Y exactly when SHA-256 of Y equals SHA-256 of X |
| Hash.VerifyAsWritten | src/manifest.rs:168 | the code as written panics exactly when the bit string has unused bits |
| Hash.VerifyRefinesAsWritten | src/manifest.rs:163-174 | where the code as written does not panic, Verify returns the same result |
| Iter.ManifestIter.IterUris | src/manifest.rs:81-83 | the iterator starts on the content's fileList with the given base, and its invariant holds |
| Iter.ManifestIter.Next | src/manifest.rs:98-104 | the full reader cannot fail (the unwrap is safe); at the end of the list it yields None and stays put; otherwise it yields the resolution of the first remaining entry and advances past exactly that entry |
| Iter.CollectUris | src/manifest.rs:98-104 | draining the iterator yields one item per entry the skip loop counted, each the resolution of that entry, in order |
| ManifestObject.Decode | src/manifest.rs:20-26 | the signed object's decoding error, or the eContent's decoding error, or the manifest of that object and its decoded content |
| ManifestObject.Validate | src/manifest.rs:28-34 | Ok exactly when the signed object validates; the certificate it yields is returned with the content unchanged |
| ManifestObject.ValidatedContentDecoded | src/manifest.rs:28-34 | the content a validated manifest hands out is the decoding of its eContent, times in order and a fileList the full reader consumes entirely |
| Ber.ToU8 | src/manifest.rs:54 | the version content reads as 0 exactly when it is the single octet 0 |
| Ber.TakeUnsigned | src/manifest.rs:61 | an accepted manifest number is the content of a primitive INTEGER at the head of the input, non-empty with the sign bit clear, and the rest is the input after that INTEGER |
| Ber.TakeValueIf | src/manifest.rs:52 | an accepted value carries the expected tag and leaves a strictly shorter input; it is accepted exactly when the optional reader finds a value of that tag and form |
| Ber.TakeValue | src/manifest.rs:52 | a read value's form is the constructed bit of its identifier, and the input after it is a strict suffix |
| Ber.ReadLength | src/manifest.rs:52 | accepted length octets take at least one and at most all of the input |
| Ber.SkipOidIf | src/manifest.rs:67 | an accepted input starts with a primitive OBJECT IDENTIFIER whose content equals the expected one, and the result is the input after it |
| Ber.SkipEncodedOid | src/manifest.rs:67 | an encoded OBJECT IDENTIFIER is skipped exactly when its content equals the expected one, and Malformed otherwise |
| Ber.SkipBitString | src/manifest.rs:122 | an accepted BIT STRING is skipped and the input strictly shrinks |
| Ber.OctetSlice | src/manifest.rs:168 | the octet view exists exactly when there are no unused bits, and is then the octets |
| Ber.TakeValueEncoded | src/manifest.rs:52 | whatever the value reader accepts is an identifier octet, length octets in some form and the content, followed by the rest |
| Ber.TakeOptValueIfEncoded | src/manifest.rs:53 | whatever the tag-checking reader accepts is the encoding, in some length form, of its content under the one identifier octet with that tag and form |
| Ber.ReadLengthEncoded | src/manifest.rs:52 | whatever the length reader accepts is the encoding of that length in some form |
| Ber.BigEndianOctets | src/manifest.rs:52 | the big-endian number of k octets is below 256^k and writes back to the same octets |
| Ber.TakeOptValueIf | src/manifest.rs:120 | None exactly when the next value does not carry the tag; otherwise the input shrinks to a suffix |
| Ber.TakeEncodedValueIf | src/manifest.rs:52 | a value of the expected tag and form reads back from its encoding with the input after it |
| Ber.LengthRoundTrip | src/manifest.rs:52 | the length octets, short or long of any fitting width, read back as the length they encode and the count of octets used |
| Ber.TakeBitString | src/manifest.rs:136 | an accepted BIT STRING has at most 7 unused bits, and none when it has no octets; its unused-bits octet and octets are the content of a primitive BIT STRING at the head of the input, and the rest is the input after it |
| Ber.TakeBitStringEncoded | src/manifest.rs:136 | whatever the BIT STRING reader accepts is the encoding, in some length form, of the bit string it returns, followed by the rest |
| Ber.SkipTakeBitStringAgree | src/manifest.rs:122 | skipping and taking a BIT STRING accept the same inputs and stop at the same place |
| Ber.TakeEncodedBitString | src/manifest.rs:136 | a valid bit string reads back from its encoding in any length form |
| X509.TakeTime | src/manifest.rs:62-63 | a time is read only from a UTCTime or GeneralizedTime value |
| X509.TakeEncodedTime | src/manifest.rs:62-63 | a primitive time value reads back from its encoding, and any other tag is Malformed |
| X509.TakeTimeEncoded | src/manifest.rs:62-63 | whatever the time reader accepts is a primitive UTCTime or GeneralizedTime value, in some length form, of the returned time |
| Utf8.DecodeUtf8 | src/manifest.rs:146 | a decoded string has at most as many characters as the input has octets, and is empty only for empty input |
| Utf8.DecodeEncoded | src/manifest.rs:146 | decoding the UTF-8 encoding of any string gives back that string |
| Utf8.EncodeDecoded | src/manifest.rs:146 | octets that decode are the encoding of what they decode to |
| Utf8.ValidIsEncoding | src/manifest.rs:146 | octets are valid UTF-8 exactly when they are the encoding of some string |

## Left out

- The CMS layer is not part of this model. `SignedObject::decode` and
  `SignedObject::validate` are function parameters: CMS parsing, signature
  checking and certificate-chain checking are foreign code. The model fixes
  `decode_content` as running the content decoder on the signed object's
  eContent octets.
- `ResourceCert` is an uninterpreted value that is only passed through.
- SHA-256 (`ring::digest`) is an uninterpreted function into 32-octet values.
  The comparison is plain sequence equality; the constant-time property of
  `verify_slices_are_equal` cannot be stated here.
- The internals of `rsync::Uri::join` are not modelled. It is an
  uninterpreted, possibly failing function parameter, stored in the iterator
  as a field.
- `Time::take_from` is a stub. A primitive UTCTime or GeneralizedTime value
  is read as the big-endian number of its content octets. Calendar parsing is
  not modelled, and comparing one format with the other is not meaningful.
- `Bytes` reference counting and cheap cloning are not modelled. All octet
  buffers are immutable `seq<byte>` values, and the iterator's `fileList` is
  a copy of the content's.
- The BER toolkit (`super::ber`) is not part of this model. The rules it
  applies were chosen as follows:
  - Tags are one octet and are compared with the constructed bit cleared; a
    wrong form is Malformed.
  - Lengths are the short form or a long form of one to four octets.
    Indefinite and longer forms are refused.
  - Constructed (segmented) IA5String and BIT STRING encodings are refused.
  - `to_u8` accepts one octet below 0x80, or 0 followed by one octet of 0x80
    or more.
  - `take_unsigned` accepts a non-empty content whose sign bit is clear, with
    no minimality check.
  - A BIT STRING needs its unused-bits octet, at most 7 unused bits, and no
    unused bits when it has no octets.
  - DER minimal-encoding checks are not modelled: a long-form length need
    not be the shortest one.
- `Iter.ManifestIter.Next`: `Mode::Ber.decode` on the iterator's buffer is
  taken to read one value from the front and leave the rest in the buffer,
  with no exhaustion check. That is how the iterator uses it.
- `Entry.SkipTakeAgree` and `Iter.ManifestIter.Next`: the proof that the
  `unwrap` in `ManifestIter::next` cannot fail holds only because the model
  gives `BitString::skip_in` the same checks as `BitString::take_from`, and
  reads IA5String as primitive only in both entry readers. That these
  toolkit readers agree is assumed of the toolkit, not proved about it.
- `Content.DecodeSpec`: the model assumes that `decode_content` (line 22)
  refuses octets after the Manifest SEQUENCE; `ManifestContent::decode`
  itself leaves them unread. The model puts that assumed check in
  `DecodeSpec`.
- Concurrency is not modelled. Each iterator is a separate object
  whose only mutable state is its own `fileList`.

## Findings

| source | as written | input that shows it | evidently intended | confidence | as-written member | corrected member |
|---|---|---|---|---|---|---|
| src/manifest.rs:168 | `verify` unwraps the octet view of the hash bit string, which has none when the bit string has unused bits | an entry whose hash BIT STRING content is `01` followed by 32 octets `ff`; both entry readers accept it, and verifying any file against it panics (Entry.UnusedBitsReachVerify) | a hash with unused bits fails verification with ValidationError | medium, not executed; it depends on the BER toolkit accepting unused bits in a BIT STRING, as the model does | Hash.VerifyAsWritten | Hash.Verify |
