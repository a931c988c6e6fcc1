/** `RecyclingBin`: the record of deleted pages, an index of their ranges kept in its
    own file, with a set of deleted start offsets that nothing ever fills. */
module Recycling {
  import opened Ints
  import opened Errors
  import opened Files
  import opened Pages
  import opened PageIndex

  class RecyclingBin {
    /** The index the deleted ranges are appended to. */
    const index: ManuscriptIndex
    /** The recorded deleted starts, and the deleted entries by size. */
    const ids: set<u64>
    const sortedArray: seq<IndexEntry>

    /** `init(manuscript:index:)`: `ids` and `sortedArray` start empty, and being
        constants they stay empty, so `contains` is false for the bin's whole life. */
    constructor (index: ManuscriptIndex)
      ensures this.index == index && ids == {} && sortedArray == []
    {
      this.index := index;
      ids := {};
      sortedArray := [];
    }

    predicate Valid()
      reads index.parchment, index.parchment.url
    {
      index.Valid()
    }

    /** `contains(offset:)`: whether `offset` is a recorded deleted start; with the set
        as the constructor leaves it, no offset is contained. */
    predicate Contains(offset: u64)
      ensures ids == {} ==> !Contains(offset)
    {
      offset in ids
    }

    /** `recycle(page:)`: a page whose start is already recorded is left alone;
        any other is appended to the index. */
    method Recycle(page: Page) returns (r: Result<()>)
      requires Valid() && WellFormed(page.range) && |index.parchment.url.bytes| + 16 <= INT_MAX
      modifies index.parchment.url
      ensures Valid()
      ensures Contains(page.range.lower) ==> r == Ok(()) && unchanged(index.parchment.url)
      ensures !Contains(page.range.lower) ==>
                index.parchment.url.present
                && var e := EntryOfPage(page);
                   (e.offset == UINT64_MAX || e.length == UINT64_MAX ==>
                      r == Err(ParchmentErr(MaxUInt64ValueNotAllowed))
                      && index.parchment.url.bytes == old(index.parchment.url.bytes))
                   && (e.offset != UINT64_MAX && e.length != UINT64_MAX ==>
                         index.parchment.url.bytes
                         == old(index.parchment.url.bytes) + EncodeLE(e.offset) + EncodeLE(e.length)
                         && r == (if index.parchment.CanAppend() then Ok(()) else Err(ParchmentErr(CannotAppend))))
    {
      if Contains(page.range.lower) {
        return Ok(());
      }
      r := index.AppendPage(page);
    }
  }
}
