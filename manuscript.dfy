/** `Manuscript`: a numbered collection of pages over three files — the index of page
    ranges, the pages file the ranges point into, and the recycling bin's index — with
    a cache of the pages already handed out. */
module Manuscripts {
  import opened Ints
  import opened Errors
  import opened Files
  import opened Pages
  import opened PageIndex
  import opened Recycling

  /** No two cached pages share a word. */
  predicate Disjoint(pages: map<u64, Page>) {
    forall a, b :: a in pages && b in pages && a != b ==> !Overlaps(pages[a].range, pages[b].range)
  }

  /** What the cache holds: each page under its own number, a range that is not
      reversed, over the manuscript's pages file, and no two of them overlapping. */
  predicate CacheValid(pages: map<u64, Page>, path: string) {
    (forall k :: k in pages ==> pages[k].number == k && WellFormed(pages[k].range) && pages[k].pagesUrl == path)
    && Disjoint(pages)
  }

  /** Some cached page overlaps `range`. */
  predicate Conflicts(pages: map<u64, Page>, range: Range) {
    exists k :: k in pages && Overlaps(pages[k].range, range)
  }

  /** A page that overlaps no cached page can join the cache under a new number. */
  lemma AddKeepsCacheValid(pages: map<u64, Page>, path: string, page: Page)
    requires CacheValid(pages, path) && page.number !in pages
    requires WellFormed(page.range) && page.pagesUrl == path && !Conflicts(pages, page.range)
    ensures CacheValid(pages[page.number := page], path)
  {
    var p := pages[page.number := page];
    forall a, b | a in p && b in p && a != b
      ensures !Overlaps(p[a].range, p[b].range)
    {
      if a == page.number {
        OverlapsSymmetric(p[a].range, p[b].range);
      } else if b != page.number {
        assert p[a] == pages[a] && p[b] == pages[b];
      }
    }
  }

  /** Dropping pages from the cache keeps it valid. */
  lemma RemoveKeepsCacheValid(pages: map<u64, Page>, path: string, gone: set<u64>)
    requires CacheValid(pages, path)
    ensures CacheValid(pages - gone, path)
  {}

  /** The page `append` makes after the index's last entry: `count` words from where
      that entry ends, numbered `number`. It cannot overlap that entry. */
  function PageAfter(number: u64, pages: File, last: IndexEntry, count: nat): (r: Result<Page>)
    reads pages
    requires count <= INT_MAX
    ensures last.offset + last.length > UINT64_MAX ==> r == Err(Trap)
    ensures last.offset + last.length <= UINT64_MAX ==>
              r == PageInit(number, pages, last.offset + last.length, count)
    ensures r.Ok? ==>
              last.offset + last.length <= UINT64_MAX
              && r.value.number == number && r.value.pagesUrl == pages.path
              && r.value.range == Range(last.offset + last.length, last.offset + last.length + count)
              && !Overlaps(Range(last.offset, last.offset + last.length), r.value.range)
  {
    var start := last.offset + last.length;
    if start > UINT64_MAX then Err(Trap)
    else PageInit(number, pages, start, count)
  }

  class Manuscript {
    const pagesUrl: File
    const index: ManuscriptIndex
    const recycling: RecyclingBin
    /** The page cache. Its values are held weakly, so entries may vanish at any
        time (see `Release`). */
    var pages: map<u64, Page>

    constructor (pagesUrl: File, index: ManuscriptIndex, recycling: RecyclingBin)
      ensures this.pagesUrl == pagesUrl && this.index == index && this.recycling == recycling
      ensures pages == map[]
    {
      this.pagesUrl := pagesUrl;
      this.index := index;
      this.recycling := recycling;
      pages := map[];
    }

    /** The three files are distinct, both indexes are valid stores, and the cache
        keeps its invariant. */
    predicate Valid()
      reads this, pagesUrl, index.parchment, index.parchment.url,
            recycling.index.parchment, recycling.index.parchment.url
    {
      pagesUrl.Valid() && index.Valid() && recycling.Valid()
      && index.parchment.url != pagesUrl
      && recycling.index.parchment.url != pagesUrl
      && recycling.index.parchment.url != index.parchment.url
      && CacheValid(pages, pagesUrl.path)
    }

    /** What `get(number:)` yields in the current state. A cached page is returned
        without reading the index, unless its start is recorded as deleted. */
    function Lookup(number: u64): (r: Result<Page>)
      reads this, pagesUrl, index.parchment, index.parchment.url,
            recycling.index.parchment, recycling.index.parchment.url
      requires Valid()
      ensures r.Ok? ==> r.value.number == number && r.value.pagesUrl == pagesUrl.path
      ensures number in pages ==>
                r == if recycling.Contains(pages[number].range.lower) then Err(ManuscriptErr(PageDeleted))
                     else Ok(pages[number])
      ensures number !in pages ==> r == Uncached(number)
    {
      if number in pages then
        if recycling.Contains(pages[number].range.lower) then Err(ManuscriptErr(PageDeleted))
        else Ok(pages[number])
      else Uncached(number)
    }

    /** What `get(number:)` yields for a number the cache does not hold: the entry is
        read from the index; a deleted start or an empty range means the page was
        deleted, a range overlapping a cached page is a conflict, and otherwise the
        page is made over the pages file. */
    function Uncached(number: u64): (r: Result<Page>)
      reads this, pagesUrl, index.parchment, index.parchment.url,
            recycling.index.parchment, recycling.index.parchment.url
      requires Valid()
      ensures index.EntryAt(number).Err? ==> r == Err(index.EntryAt(number).error)
      ensures index.EntryAt(number).Ok? && index.EntryAt(number).value.length == 0 ==>
                r == Err(ManuscriptErr(PageDeleted))
      ensures index.EntryAt(number).Ok? && recycling.Contains(index.EntryAt(number).value.offset) ==>
                r == Err(ManuscriptErr(PageDeleted))
      ensures index.EntryAt(number).Ok? ==>
                var e := index.EntryAt(number).value;
                !recycling.Contains(e.offset) && e.length > 0 ==>
                  (e.offset + e.length > UINT64_MAX ==> r == Err(Trap))
                  && (e.offset + e.length <= UINT64_MAX && Conflicts(pages, Range(e.offset, e.offset + e.length)) ==>
                        r == Err(ManuscriptErr(PageConflict)))
                  && (e.offset + e.length <= UINT64_MAX && !Conflicts(pages, Range(e.offset, e.offset + e.length)) ==>
                        r == PageInit(number, pagesUrl, e.offset, e.length))
      ensures r.Ok? ==>
                var e := index.EntryAt(number);
                e.Ok? && e.value.length > 0
                && r.value.number == number && r.value.pagesUrl == pagesUrl.path
                && r.value.range.lower == e.value.offset
                && r.value.range.upper == e.value.offset + e.value.length
                && !Conflicts(pages, r.value.range)
    {
      var entry :- index.EntryAt(number);
      if recycling.Contains(entry.offset) || entry.length == 0 then Err(ManuscriptErr(PageDeleted))
      else if entry.offset + entry.length > UINT64_MAX then Err(Trap)
      else if Conflicts(pages, Range(entry.offset, entry.offset + entry.length)) then Err(ManuscriptErr(PageConflict))
      else PageInit(number, pagesUrl, entry.offset, entry.length)
    }

    /** `get(number:)`: a page made here is added to the cache, and no other entry
        changes. */
    method Get(number: u64) returns (r: Result<Page>)
      requires Valid() && 2 * number + 1 <= MAX_WORD_OFFSET
      modifies this
      ensures Valid()
      ensures r == old(Lookup(number))
      ensures r.Ok? ==> pages == old(pages)[number := r.value]
      ensures r.Err? ==> pages == old(pages)
    {
      if number in pages {
        var cached := pages[number];
        r := if recycling.Contains(cached.range.lower) then Err(ManuscriptErr(PageDeleted)) else Ok(cached);
        return;
      }
      r := Load(number);
      if r.Ok? {
        AddKeepsCacheValid(pages, pagesUrl.path, r.value);
        pages := pages[number := r.value];
      }
    }

    /** The part of `get(number:)` past the cache: the index is read, and the cache
        scanned for a page overlapping the new range. */
    method Load(number: u64) returns (r: Result<Page>)
      requires Valid() && 2 * number + 1 <= MAX_WORD_OFFSET
      ensures r == Uncached(number)
    {
      var entry :- index.Get(number);
      if recycling.Contains(entry.offset) || entry.length == 0 {
        return Err(ManuscriptErr(PageDeleted));
      }
      if entry.offset + entry.length > UINT64_MAX {
        return Err(Trap);
      }
      var range := Range(entry.offset, entry.offset + entry.length);
      var keys := pages.Keys;
      while keys != {}
        invariant keys <= pages.Keys
        invariant forall k :: k in pages && k !in keys ==> !Overlaps(pages[k].range, range)
        decreases |keys|
      {
        var k :| k in keys;
        if Overlaps(pages[k].range, range) {
          return Err(ManuscriptErr(PageConflict));
        }
        keys := keys - {k};
      }
      r := PageInit(number, pagesUrl, entry.offset, entry.length);
    }

    /** `append(_:)`: the page the new values would occupy, numbered by the index's
        length and starting where the index's last entry ends. Nothing is written and
        the cache is untouched. */
    function Append(page: NewPage): (r: Result<Page>)
      reads this, pagesUrl, index.parchment, index.parchment.url,
            recycling.index.parchment, recycling.index.parchment.url
      requires Valid() && |page.values| <= INT_MAX
      ensures index.EndIndex() == 0 ==> r == Err(ManuscriptErr(EmptyManuscript))
      ensures index.EndIndex() > 0 ==>
                r == PageAfter(index.EndIndex(), pagesUrl, index.EntryOrZero(index.EndIndex() - 1), |page.values|)
      ensures index.EndIndex() > 0 ==>
                var last := index.EntryOrZero(index.EndIndex() - 1);
                (last.offset + last.length > UINT64_MAX ==> r == Err(Trap))
                && (last.offset + last.length <= UINT64_MAX ==>
                      r == PageInit(index.EndIndex(), pagesUrl, last.offset + last.length, |page.values|))
    {
      var number := index.EndIndex();
      if number == 0 then Err(ManuscriptErr(EmptyManuscript))
      else
        PageAfter(number, pagesUrl, index.EntryOrZero(number - 1), |page.values|)
    }

    /** A page `append` makes is numbered by the index's count, starts where the last
        entry ends, is as long as the values, and does not overlap that entry. */
    lemma AppendMade(page: NewPage)
      requires Valid() && |page.values| <= INT_MAX
      ensures var r := Append(page);
              r.Ok? ==>
                index.EndIndex() > 0
                && var last := index.EntryOrZero(index.EndIndex() - 1);
                   last.offset + last.length <= UINT64_MAX
                   && r.value.number == index.EndIndex() && r.value.pagesUrl == pagesUrl.path
                   && r.value.range.lower == last.offset + last.length
                   && r.value.range.upper == last.offset + last.length + |page.values|
                   && !Overlaps(Range(last.offset, last.offset + last.length), r.value.range)
    {}

    /** `delete(page:)`: the page leaves the cache, then is recycled. */
    method Delete(page: Page) returns (r: Result<()>)
      requires Valid() && WellFormed(page.range)
      requires |recycling.index.parchment.url.bytes| + 16 <= INT_MAX
      modifies this, recycling.index.parchment.url
      ensures Valid()
      ensures pages == old(pages) - {page.number}
      ensures recycling.Contains(page.range.lower) ==>
                r == Ok(()) && unchanged(recycling.index.parchment.url)
      ensures var e := EntryOfPage(page);
              var bin := recycling.index.parchment;
              !recycling.Contains(page.range.lower) ==>
              (e.offset == UINT64_MAX || e.length == UINT64_MAX ==>
                 r == Err(ParchmentErr(MaxUInt64ValueNotAllowed)) && bin.url.bytes == old(bin.url.bytes))
              && (e.offset != UINT64_MAX && e.length != UINT64_MAX ==>
                    bin.url.bytes == old(bin.url.bytes) + EncodeLE(e.offset) + EncodeLE(e.length)
                    && r == (if bin.CanAppend() then Ok(()) else Err(ParchmentErr(CannotAppend))))
    {
      RemoveKeepsCacheValid(pages, pagesUrl.path, {page.number});
      pages := pages - {page.number};
      r := recycling.Recycle(page);
    }

    /** Pages whose last outside reference has gone leave the cache. */
    method Release(gone: set<u64>)
      requires Valid()
      modifies this
      ensures Valid() && pages == old(pages) - gone
    {
      RemoveKeepsCacheValid(pages, pagesUrl.path, gone);
      pages := pages - gone;
    }

    /** `endIndex`: the index's pair count halved again, so a quarter of the index's
        words. */
    function EndIndex(): (r: u64)
      reads this, pagesUrl, index.parchment, index.parchment.url,
            recycling.index.parchment, recycling.index.parchment.url
      requires Valid()
      ensures r == |index.Contents()| / 4
    {
      index.EndIndex() / 2
    }

    /** `subscript(position:)` read: the page, or the placeholder page for any
        failure. */
    method SubscriptGet(position: u64) returns (r: Page)
      requires Valid() && 2 * position + 1 <= MAX_WORD_OFFSET
      modifies this
      ensures Valid()
      ensures old(Lookup(position)).Ok? ==> r == old(Lookup(position)).value && pages == old(pages)[position := r]
      ensures old(Lookup(position)).Err? ==> r == Placeholder(pagesUrl.path) && pages == old(pages)
    {
      var g := Get(position);
      r := if g.Ok? then g.value else Placeholder(pagesUrl.path);
    }

    /** `subscript(position:)` write: only a page numbered `position` is recorded, as
        an index `set` whose error is dropped; the cache is untouched. */
    method SubscriptSet(position: u64, newValue: Page)
      requires Valid() && WellFormed(newValue.range) && 2 * position + 1 <= MAX_WORD_OFFSET
      modifies index.parchment.url
      ensures Valid()
      ensures newValue.number != position ==> unchanged(index.parchment.url)
      ensures newValue.number == position ==> |index.Contents()| == old(|index.Contents()|)
      ensures newValue.number == position ==>
                index.Contents() == StoredPair(old(index.Contents()), EntryOfPage(newValue))
      ensures var e := EntryOfPage(newValue);
              (newValue.number == position && e.offset != UINT64_MAX && e.length != UINT64_MAX
               && 2 * position + 1 < |index.Contents()|) ==> index.EntryAt(position) == Ok(e)
    {
      if newValue.number != position {
        return;
      }
      var _ := index.Set(EntryOfPage(newValue));
    }
  }

  /** `ManuscriptIterator`: walks the pages from `index` on. */
  class ManuscriptIterator {
    const manuscript: Manuscript
    var index: u64

    constructor (manuscript: Manuscript, index: u64)
      ensures this.manuscript == manuscript && this.index == index
    {
      this.manuscript := manuscript;
      this.index := index;
    }

    /** `next()`: the page at `index`, advancing past it, or `nil` (staying put) at
        the first page `get` refuses. */
    method Next() returns (r: Option<Page>)
      requires manuscript.Valid() && 2 * index + 1 <= MAX_WORD_OFFSET
      modifies this, manuscript
      ensures manuscript.Valid()
      ensures old(manuscript.Lookup(index)).Ok? ==>
                r == Some(old(manuscript.Lookup(index)).value) && index == old(index) + 1
      ensures old(manuscript.Lookup(index)).Err? ==> r == None && index == old(index)
      ensures old(manuscript.Lookup(index)).Ok? ==>
                manuscript.pages == old(manuscript.pages)[old(index) := old(manuscript.Lookup(index)).value]
      ensures old(manuscript.Lookup(index)).Err? ==> manuscript.pages == old(manuscript.pages)
    {
      var g := manuscript.Get(index);
      if g.Err? {
        return None;
      }
      index := index + 1;
      return Some(g.value);
    }
  }

  /** `makeIterator()`: an iterator from page 0. */
  method MakeIterator(manuscript: Manuscript) returns (it: ManuscriptIterator)
    ensures fresh(it) && it.manuscript == manuscript && it.index == 0
  {
    it := new ManuscriptIterator(manuscript, 0);
  }
}
