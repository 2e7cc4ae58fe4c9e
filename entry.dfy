/**
 * FileAndHash: one entry of a manifest's fileList,
 * `SEQUENCE { file IA5String, hash BIT STRING }` (section 4.2 of RFC 6486).
 *
 * Two readers exist for an entry: SkipOptIn checks its shape and keeps
 * nothing, TakeOptFrom keeps the file name and the hash. Both return None
 * when the next value is not a SEQUENCE, which ends a list. The repeated
 * readers over a whole list are SkipLoop and TakeAll.
 */
module Entry {
  import opened Wrappers
  import opened Ber
  import opened X509
  import opened Hash
  import opened Utf8
  import opened Rsync

  datatype FileAndHash = FileAndHash(file: seq<byte>, hash: ManifestHash)

  /** Skips one entry; Some(rest) with the input after the entry. */
  function SkipOptIn(s: seq<byte>): (r: Result<Option<seq<byte>>, Error>)
    ensures r.Ok? && r.value.Some? ==> |r.value.value| < |s| && IsSuffix(r.value.value, s)
    ensures r == Ok(None) <==> !Peek(s, SEQUENCE)
  {
    var entry :- TakeOptValueIf(s, SEQUENCE, true);
    match entry
    case None => Ok(None)
    case Some(inside) =>
      var file :- TakeValueIf(inside.0, IA5_STRING, false);
      var after :- SkipBitString(file.1);
      if after != [] then Err(Malformed) else Ok(Some(inside.1))
  }

  /** Reads one entry; Some((entry, rest)) with the input after the entry. */
  function TakeOptFrom(s: seq<byte>): (r: Result<Option<(FileAndHash, seq<byte>)>, Error>)
    ensures r.Ok? && r.value.Some? ==>
      var (e, rest) := r.value.value;
      |rest| < |s| && IsSuffix(rest, s) && ValidBitString(e.hash.bits)
    ensures r == Ok(None) <==> !Peek(s, SEQUENCE)
  {
    var entry :- TakeOptValueIf(s, SEQUENCE, true);
    match entry
    case None => Ok(None)
    case Some(inside) =>
      var file :- TakeValueIf(inside.0, IA5_STRING, false);
      var hash :- TakeBitString(file.1);
      if hash.1 != [] then Err(Malformed)
      else Ok(Some((FileAndHash(file.0, ManifestHash(hash.0)), inside.1)))
  }

  /**
   * The two entry readers accept the same inputs: they fail together, find
   * the end of the list together, and otherwise stop at the same place.
   */
  lemma SkipTakeAgree(s: seq<byte>)
    ensures SkipOptIn(s).Err? <==> TakeOptFrom(s).Err?
    ensures SkipOptIn(s) == Ok(None) <==> TakeOptFrom(s) == Ok(None)
    ensures SkipOptIn(s).Ok? && SkipOptIn(s).value.Some? ==>
      TakeOptFrom(s).Ok? && TakeOptFrom(s).value.Some?
      && TakeOptFrom(s).value.value.1 == SkipOptIn(s).value.value
  {
    var entry := TakeOptValueIf(s, SEQUENCE, true);
    if entry.Ok? && entry.value.Some? {
      var file := TakeValueIf(entry.value.value.0, IA5_STRING, false);
      if file.Ok? {
        SkipTakeBitStringAgree(file.value.1);
      }
    }
  }

  // ---------------------------------------------------------------- encoding

  /** The length forms (see LengthFits) of an entry's SEQUENCE, IA5String and BIT STRING. */
  datatype EntryForm = EntryForm(entry: nat, file: nat, hash: nat)

  /** The file name and the hash fit the length forms chosen for them. */
  predicate FieldsFit(e: FileAndHash, f: EntryForm) {
    LengthFits(|e.file|, f.file) && LengthFits(|e.hash.bits.octets| + 1, f.hash)
  }

  function EntryContent(e: FileAndHash, f: EntryForm): seq<byte>
    requires FieldsFit(e, f)
  {
    EncodeValue(IA5_STRING, f.file, e.file) + EncodeBitString(e.hash.bits, f.hash)
  }

  /** The entries that have an encoding in the forms `f`: a valid bit string, and lengths that fit. */
  predicate Encodable(e: FileAndHash, f: EntryForm) {
    ValidBitString(e.hash.bits) && FieldsFit(e, f) && LengthFits(|EntryContent(e, f)|, f.entry)
  }

  function EncodeEntry(e: FileAndHash, f: EntryForm): seq<byte>
    requires Encodable(e, f)
  {
    EncodeValue(SEQUENCE_ID, f.entry, EntryContent(e, f))
  }

  /** Both readers read an encoded entry back, in any length forms, and stop right after it. */
  lemma TakeEncodedEntry(e: FileAndHash, f: EntryForm, rest: seq<byte>)
    requires Encodable(e, f)
    ensures TakeOptFrom(EncodeEntry(e, f) + rest) == Ok(Some((e, rest)))
    ensures SkipOptIn(EncodeEntry(e, f) + rest) == Ok(Some(rest))
  {
    var s := EncodeEntry(e, f) + rest;
    var content := EntryContent(e, f);
    var bits := EncodeBitString(e.hash.bits, f.hash);
    assert TagOf(SEQUENCE_ID) == SEQUENCE && IsConstructed(SEQUENCE_ID);
    assert TagOf(IA5_STRING) == IA5_STRING && !IsConstructed(IA5_STRING);
    TakeEncodedValueIf(SEQUENCE_ID, f.entry, content, rest);
    assert TakeOptValueIf(s, SEQUENCE, true) == Ok(Some((content, rest)));
    TakeEncodedValueIf(IA5_STRING, f.file, e.file, bits);
    assert TakeValueIf(content, IA5_STRING, false) == Ok((e.file, bits));
    TakeEncodedBitString(e.hash.bits, f.hash, []);
    assert bits + [] == bits;
    assert TakeBitString(bits) == Ok((e.hash.bits, []));
    SkipTakeBitStringAgree(bits);
    assert SkipBitString(bits) == Ok([]);
  }

  /**
   * The converse: whatever entry TakeOptFrom reads is the IA5String and the
   * BIT STRING at the head of the input, in some length forms, so the input
   * is that entry's encoding followed by the rest.
   */
  lemma TakeOptFromEncoded(s: seq<byte>) returns (f: EntryForm)
    requires TakeOptFrom(s).Ok? && TakeOptFrom(s).value.Some?
    ensures var (e, rest) := TakeOptFrom(s).value.value;
      Encodable(e, f) && s == EncodeEntry(e, f) + rest
  {
    var (e, rest) := TakeOptFrom(s).value.value;
    var inside := TakeOptValueIf(s, SEQUENCE, true).value.value.0;
    var we := TakeOptValueIfEncoded(s, SEQUENCE, true);
    assert s[0] == SEQUENCE_ID;
    var afterFile := TakeValueIf(inside, IA5_STRING, false).value.1;
    var wf := TakeOptValueIfEncoded(inside, IA5_STRING, false);
    assert inside[0] == IA5_STRING;
    var wh := TakeBitStringEncoded(afterFile);
    f := EntryForm(we, wf, wh);
    assert afterFile == EncodeBitString(e.hash.bits, wh) + [];
    ContentIs(e, f, inside, afterFile);
  }

  /** The IA5String of `e.file` in front of the BIT STRING of its hash is the content of `e`'s SEQUENCE. */
  lemma ContentIs(e: FileAndHash, f: EntryForm, inside: seq<byte>, afterFile: seq<byte>)
    requires FieldsFit(e, f)
    requires afterFile == EncodeBitString(e.hash.bits, f.hash)
    requires inside == EncodeValue(IA5_STRING, f.file, e.file) + afterFile
    ensures inside == EntryContent(e, f)
  {
  }

  // ------------------------------------------------------------------ lists

  /**
   * The loop `while let Some(()) = skip_opt_in(cons)? {}`: the input where it
   * stops, which is the first position that does not hold a SEQUENCE.
   */
  function SkipLoop(s: seq<byte>): (r: Result<seq<byte>, Error>)
    ensures r.Ok? ==> IsSuffix(r.value, s) && !Peek(r.value, SEQUENCE)
    decreases |s|
  {
    var step :- SkipOptIn(s);
    match step
    case None => Ok(s)
    case Some(rest) =>
      var stop :- SkipLoop(rest);
      SuffixTransitive(stop, rest, s);
      Ok(stop)
  }

  /** How many entries SkipLoop skips before it stops or fails. */
  function SkipCount(s: seq<byte>): nat
    decreases |s|
  {
    match SkipOptIn(s)
    case Ok(Some(rest)) => 1 + SkipCount(rest)
    case _ => 0
  }

  /** TakeOptFrom repeated until it returns None: the entries read and where it stopped. */
  function TakeAll(s: seq<byte>): (r: Result<(seq<FileAndHash>, seq<byte>), Error>)
    ensures r.Ok? ==> |r.value.1| <= |s| && !Peek(r.value.1, SEQUENCE)
    decreases |s|
  {
    var step :- TakeOptFrom(s);
    match step
    case None => Ok(([], s))
    case Some(entry) =>
      var tail :- TakeAll(entry.1);
      Ok(([entry.0] + tail.0, tail.1))
  }

  /** A fileList the decoder accepts: the skip loop consumes all of it. */
  predicate WellFormedList(s: seq<byte>) {
    SkipLoop(s) == Ok([])
  }

  /**
   * The skip loop and the take loop agree on a whole list: they fail
   * together, stop at the same place, and the take loop reads as many
   * entries as the skip loop skips.
   */
  lemma {:induction false} ListAgreement(s: seq<byte>)
    ensures SkipLoop(s).Err? <==> TakeAll(s).Err?
    ensures SkipLoop(s).Ok? ==>
      TakeAll(s).value.1 == SkipLoop(s).value && |TakeAll(s).value.0| == SkipCount(s)
    decreases |s|
  {
    SkipTakeAgree(s);
    match SkipOptIn(s)
    case Err(_) =>
    case Ok(None) =>
    case Ok(Some(rest)) =>
      ListAgreement(rest);
  }

  /** The entries of a fileList the decoder accepted, as many as the skip loop counted. */
  function ListEntries(list: seq<byte>): (es: seq<FileAndHash>)
    requires WellFormedList(list)
    ensures |es| == SkipCount(list) && TakeAll(list) == Ok((es, []))
  {
    ListAgreement(list);
    TakeAll(list).value.0
  }

  /** Every entry has an encoding in the length forms chosen for it. */
  predicate AllEncodable(es: seq<FileAndHash>, fs: seq<EntryForm>) {
    |fs| == |es| && forall i :: 0 <= i < |es| ==> Encodable(es[i], fs[i])
  }

  function EncodeEntries(es: seq<FileAndHash>, fs: seq<EntryForm>): seq<byte>
    requires AllEncodable(es, fs)
  {
    if es == [] then [] else EncodeEntry(es[0], fs[0]) + EncodeEntries(es[1..], fs[1..])
  }

  /** The first step of both readers over an encoded, non-empty list of entries. */
  lemma EncodedListStep(es: seq<FileAndHash>, fs: seq<EntryForm>, tail: seq<byte>)
    requires AllEncodable(es, fs) && es != []
    ensures AllEncodable(es[1..], fs[1..])
    ensures var s, rest := EncodeEntries(es, fs) + tail, EncodeEntries(es[1..], fs[1..]) + tail;
      SkipOptIn(s) == Ok(Some(rest)) && TakeOptFrom(s) == Ok(Some((es[0], rest)))
  {
    var rest := EncodeEntries(es[1..], fs[1..]) + tail;
    assert EncodeEntries(es, fs) + tail == EncodeEntry(es[0], fs[0]) + rest;
    TakeEncodedEntry(es[0], fs[0], rest);
  }

  /**
   * On the encoding of a list of entries, in any length forms, followed by
   * anything that is not a SEQUENCE, the skip loop consumes exactly the
   * encoded entries, counting each, and the take loop reads back exactly
   * those entries.
   */
  lemma {:induction false} EncodedListLoops(es: seq<FileAndHash>, fs: seq<EntryForm>, tail: seq<byte>)
    requires AllEncodable(es, fs)
    requires !Peek(tail, SEQUENCE)
    ensures SkipLoop(EncodeEntries(es, fs) + tail) == Ok(tail)
    ensures SkipCount(EncodeEntries(es, fs) + tail) == |es|
    ensures TakeAll(EncodeEntries(es, fs) + tail) == Ok((es, tail))
  {
    if es == [] {
      assert EncodeEntries(es, fs) + tail == tail;
    } else {
      EncodedListStep(es, fs, tail);
      EncodedListLoops(es[1..], fs[1..], tail);
      LoopsAfterEntry(EncodeEntries(es, fs) + tail, EncodeEntries(es[1..], fs[1..]) + tail, es[0], es[1..], tail);
      HeadTail(es);
    }
  }

  /** A non-empty list is its head in front of its tail. */
  lemma HeadTail(es: seq<FileAndHash>)
    requires es != []
    ensures [es[0]] + es[1..] == es
  {
  }

  /** Where both readers take one entry and then finish at `tail`, they take it and finish at `tail` from the start. */
  lemma LoopsAfterEntry(s: seq<byte>, rest: seq<byte>, e: FileAndHash, es: seq<FileAndHash>, tail: seq<byte>)
    requires SkipOptIn(s) == Ok(Some(rest)) && TakeOptFrom(s) == Ok(Some((e, rest)))
    requires SkipLoop(rest) == Ok(tail) && TakeAll(rest) == Ok((es, tail))
    ensures SkipLoop(s) == Ok(tail) && SkipCount(s) == 1 + SkipCount(rest)
    ensures TakeAll(s) == Ok(([e] + es, tail))
  {
  }

  /**
   * The encoding of a list of entries, the empty list included, in any
   * length forms, is a fileList the skip loop consumes entirely; reading it
   * back gives exactly those entries, as many as the skip loop counts.
   */
  lemma EncodedListWellFormed(es: seq<FileAndHash>, fs: seq<EntryForm>)
    requires AllEncodable(es, fs)
    ensures WellFormedList(EncodeEntries(es, fs))
    ensures SkipCount(EncodeEntries(es, fs)) == |es|
    ensures TakeAll(EncodeEntries(es, fs)) == Ok((es, []))
  {
    assert EncodeEntries(es, fs) + [] == EncodeEntries(es, fs);
    EncodedListLoops(es, fs, []);
  }

  /**
   * The converse of EncodedListLoops: whatever the take loop reads is the
   * encoding of the entries it returns, in some length forms, followed by
   * the input where it stopped.
   */
  lemma {:induction false} TakeAllEncoded(s: seq<byte>) returns (fs: seq<EntryForm>)
    requires TakeAll(s).Ok?
    ensures var (es, stop) := TakeAll(s).value;
      AllEncodable(es, fs) && s == EncodeEntries(es, fs) + stop
    decreases |s|
  {
    TakeAllStep(s);
    if TakeOptFrom(s).value.None? {
      fs := [];
      assert EncodeEntries([], fs) + s == s;
    } else {
      var (e, rest) := TakeOptFrom(s).value.value;
      var f := TakeOptFromEncoded(s);
      var tail := TakeAllEncoded(rest);
      fs := [f] + tail;
      var (es, stop) := TakeAll(rest).value;
      EncodeCons(e, f, es, tail);
      Regroup(s, EncodeEntry(e, f), rest, EncodeEntries(es, tail), stop);
    }
  }

  /** Octets `a` in front of `b + stop` are `a + b` in front of `stop`. */
  lemma Regroup(s: seq<byte>, a: seq<byte>, rest: seq<byte>, b: seq<byte>, stop: seq<byte>)
    requires s == a + rest && rest == b + stop
    ensures s == (a + b) + stop
  {
  }

  /** One round of the take loop: at the end it reads nothing, otherwise one entry and then the rest. */
  lemma TakeAllStep(s: seq<byte>)
    requires TakeAll(s).Ok?
    ensures TakeOptFrom(s).Ok?
    ensures TakeOptFrom(s).value.None? ==> TakeAll(s).value == ([], s)
    ensures TakeOptFrom(s).value.Some? ==>
      var (e, rest) := TakeOptFrom(s).value.value;
      TakeAll(rest).Ok? && TakeAll(s).value == ([e] + TakeAll(rest).value.0, TakeAll(rest).value.1)
  {
  }

  /** An encoded entry in front of an encoded list is the encoding of the longer list. */
  lemma EncodeCons(e: FileAndHash, f: EntryForm, es: seq<FileAndHash>, fs: seq<EntryForm>)
    requires Encodable(e, f) && AllEncodable(es, fs)
    ensures AllEncodable([e] + es, [f] + fs)
    ensures EncodeEntries([e] + es, [f] + fs) == EncodeEntry(e, f) + EncodeEntries(es, fs)
  {
    AllEncodableCons(e, f, es, fs);
    assert ([e] + es)[1..] == es && ([f] + fs)[1..] == fs;
  }

  lemma AllEncodableCons(e: FileAndHash, f: EntryForm, es: seq<FileAndHash>, fs: seq<EntryForm>)
    requires Encodable(e, f) && AllEncodable(es, fs)
    ensures AllEncodable([e] + es, [f] + fs)
  {
    var es', fs' := [e] + es, [f] + fs;
    forall i | 0 <= i < |es'|
      ensures Encodable(es'[i], fs'[i])
    {
      if i > 0 {
        assert es'[i] == es[i - 1] && fs'[i] == fs[i - 1];
      }
    }
  }

  /**
   * A fileList the decoder accepted is exactly the encoding, in some length
   * forms, of the entries the take loop reads from it.
   */
  lemma WellFormedListEncoded(list: seq<byte>) returns (fs: seq<EntryForm>)
    requires WellFormedList(list)
    ensures AllEncodable(ListEntries(list), fs) && list == EncodeEntries(ListEntries(list), fs)
  {
    ListAgreement(list);
    assert TakeAll(list) == Ok((ListEntries(list), []));
    fs := TakeAllEncoded(list);
    assert EncodeEntries(ListEntries(list), fs) + [] == EncodeEntries(ListEntries(list), fs);
  }

  /**
   * An entry whose hash BIT STRING has one unused bit is read by both entry
   * readers, yet the verify as written panics on its hash.
   */
  lemma UnusedBitsReachVerify(bytes: seq<byte>, sha256: Sha256)
    ensures var e := FileAndHash([0x61], ManifestHash(BitString(1, seq(32, i => 0xff))));
      var f := EntryForm(0, 0, 0);
      && Encodable(e, f)
      && TakeOptFrom(EncodeEntry(e, f)) == Ok(Some((e, [])))
      && SkipOptIn(EncodeEntry(e, f)) == Ok(Some([]))
      && VerifyAsWritten(e.hash, bytes, sha256).None?
      && Verify(e.hash, bytes, sha256) == Err(ValidationError)
  {
    var e := FileAndHash([0x61], ManifestHash(BitString(1, seq(32, i => 0xff))));
    var f := EntryForm(0, 0, 0);
    assert Encodable(e, f);
    TakeEncodedEntry(e, f, []);
    assert EncodeEntry(e, f) + [] == EncodeEntry(e, f);
  }

  // ------------------------------------------------------------- resolution

  /**
   * to_uri_etc: the file name must be UTF-8 and must join onto the base URI;
   * either failure is a validation error. The hash is passed on unchanged.
   */
  function ToUriEtc(e: FileAndHash, base: Uri, join: Join)
    : (r: Result<(Uri, ManifestHash), ValidationError>)
    ensures r.Ok? ==> r.value.1 == e.hash
  {
    match DecodeUtf8(e.file)
    case None => Err(ValidationError)
    case Some(name) =>
      match join(base, name)
      case None => Err(ValidationError)
      case Some(uri) => Ok((uri, e.hash))
  }

  /**
   * ToUriEtc succeeds exactly when the file name is the UTF-8 encoding of a
   * name that joins onto the base, and then yields that join and the hash.
   */
  lemma ToUriEtcResult(e: FileAndHash, base: Uri, join: Join)
    ensures ToUriEtc(e, base, join).Ok?
        <==> exists name :: EncodeUtf8(name) == e.file && join(base, name).Some?
    ensures forall name :: EncodeUtf8(name) == e.file ==>
      ToUriEtc(e, base, join)
        == if join(base, name).Some? then Ok((join(base, name).value, e.hash)) else Err(ValidationError)
  {
    forall name | EncodeUtf8(name) == e.file
      ensures DecodeUtf8(e.file) == Some(name)
    {
      DecodeEncoded(name);
    }
    if DecodeUtf8(e.file).Some? {
      EncodeDecoded(e.file);
    }
  }
}
