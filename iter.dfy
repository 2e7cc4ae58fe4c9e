/**
 * ManifestIter: the lazy iterator over a manifest's fileList. Every call of
 * Next reads one entry with the full reader from the captured octets,
 * advances past it and resolves it against the base URI.
 */
module Iter {
  import opened Wrappers
  import opened Ber
  import opened X509
  import opened Hash
  import opened Rsync
  import opened Entry
  import opened Content

  type Item = Result<(Uri, ManifestHash), ValidationError>

  class ManifestIter {
    const base: Uri
    /** The URI join of the rsync module. */
    const join: Join
    /** The entries not yet read. */
    var fileList: seq<byte>

    /** The octets left are still a list the skip loop consumes entirely. */
    ghost predicate Valid()
      reads this
    {
      WellFormedList(fileList)
    }

    /** The entries the iterator has still to yield. */
    ghost function Remaining(): seq<FileAndHash>
      reads this
      requires Valid()
    {
      ListEntries(fileList)
    }

    /** ManifestContent::iter_uris: an iterator over the content's fileList. */
    constructor IterUris(content: ManifestContent, base: Uri, join: Join)
      ensures this.base == base && this.join == join
      ensures fileList == content.fileList
      ensures Valid() && Remaining() == ListEntries(content.fileList)
    {
      this.base := base;
      this.join := join;
      fileList := content.fileList;
    }

    /**
     * ManifestIter::next. The full reader cannot fail on the octets left,
     * which the skip loop accepted, so the result needs no unwrapping; at the
     * end of the list the iterator stays where it is and yields None.
     */
    method Next() returns (item: Option<Item>)
      requires Valid()
      modifies this
      ensures Valid()
      ensures old(Remaining()) == [] ==> item == None && fileList == old(fileList)
      ensures old(Remaining()) != [] ==>
        && item == Some(ToUriEtc(old(Remaining())[0], base, join))
        && Remaining() == old(Remaining())[1..]
        && TakeOptFrom(old(fileList)) == Ok(Some((old(Remaining())[0], fileList)))
    {
      var step := TakeOptFrom(fileList);
      SkipTakeAgree(fileList);
      ListAgreement(fileList);
      assert step.Ok?;
      match step.value
      case None =>
        item := None;
      case Some(read) =>
        var rest := read.1;
        assert SkipLoop(rest) == SkipLoop(fileList);
        ListAgreement(rest);
        fileList := rest;
        item := Some(ToUriEtc(read.0, base, join));
    }
  }

  /**
   * Consuming the whole iterator of a decoded content: one item per entry
   * the skip loop counted, each the resolution of that entry, in order.
   */
  method CollectUris(content: ManifestContent, base: Uri, join: Join) returns (items: seq<Item>)
    ensures |items| == SkipCount(content.fileList)
    ensures forall i :: 0 <= i < |items| ==>
      items[i] == ToUriEtc(ListEntries(content.fileList)[i], base, join)
  {
    var iter := new ManifestIter.IterUris(content, base, join);
    ghost var all := ListEntries(content.fileList);
    items := [];
    while true
      invariant iter.Valid() && iter.base == base && iter.join == join
      invariant |items| <= |all| && iter.Remaining() == all[|items|..]
      invariant forall i :: 0 <= i < |items| ==> items[i] == ToUriEtc(all[i], base, join)
      decreases |iter.Remaining()|
    {
      var item := iter.Next();
      if item.None? {
        break;
      }
      items := items + [item.value];
    }
  }
}
