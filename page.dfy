/** `Page`: an immutable handle on the words `[location, location + length)` of a
    manuscript's pages file, and `NewPage`, the words a page will hold before it is
    written. */
module Pages {
  import opened Ints
  import opened Errors
  import opened Files
  import Mmap
  import ParchmentMmap

  /** A Swift `Range<UInt64>`: `lower..<upper`, never reversed. */
  datatype Range = Range(lower: u64, upper: u64)

  predicate WellFormed(r: Range) {
    r.lower <= r.upper
  }

  /** `Range.overlaps`: two ranges overlap unless one ends before the other starts or
      either is empty. */
  predicate Overlaps(a: Range, b: Range) {
    !(b.upper <= a.lower || a.upper <= b.lower || a.lower == a.upper || b.lower == b.upper)
  }

  /** Word `x` lies in the range. */
  predicate In(r: Range, x: int) {
    r.lower <= x < r.upper
  }

  /** Two ranges overlap exactly when they have a word in common. */
  lemma OverlapsIffShared(a: Range, b: Range)
    requires WellFormed(a) && WellFormed(b)
    ensures Overlaps(a, b) <==> exists x :: In(a, x) && In(b, x)
  {
    if Overlaps(a, b) {
      var x := Max(a.lower, b.lower);
      assert In(a, x) && In(b, x);
    }
  }

  lemma OverlapsSymmetric(a: Range, b: Range)
    ensures Overlaps(a, b) == Overlaps(b, a)
  {}

  /** A page: its number in the manuscript, the path of the pages file and its range
      of words there. The store the page opens is used only to check it. */
  datatype Page = Page(number: u64, pagesUrl: string, range: Range)

  /** `init(manuscript:)`: the placeholder returned where a page must be but none can
      be made. */
  function Placeholder(pagesUrl: string): (p: Page)
    ensures p.number == 0 && p.range == Range(0, 1) && p.pagesUrl == pagesUrl
  {
    Page(0, pagesUrl, Range(0, 1))
  }

  /** `init(number:manuscript:location:length:)`. The page's own store is opened over
      the pages file at word `location` for `length` words (in the mapped store's
      terms, so its errors are the store's), `location + length` must not overflow,
      and the store must `contains` the range's end: a word index compared with the
      window's size in bytes. */
  function PageInit(number: u64, pages: File, location: u64, length: u64): (r: Result<Page>)
    reads pages
    ensures location > MAX_WORD_OFFSET || length > MAX_WORD_OFFSET ==> r == Err(Trap)
    ensures r.Ok? ==> r.value == Page(number, pages.path, Range(location, location + length))
    ensures r.Ok? <==>
              location <= MAX_WORD_OFFSET && length <= MAX_WORD_OFFSET
              && ParchmentMmap.InitOutcome(pages.present, |pages.bytes|, location, Some(length)).Ok?
              && location + length < WindowBytes(ParchmentMmap.InitOutcome(pages.present, |pages.bytes|, location, Some(length)).value)
    ensures location <= MAX_WORD_OFFSET && length <= MAX_WORD_OFFSET ==>
              var o := ParchmentMmap.InitOutcome(pages.present, |pages.bytes|, location, Some(length));
              (o.Err? ==> r == Err(o.error))
              && (o.Ok? && location + length >= WindowBytes(o.value) ==> r == Err(PageErr(InvalidPage)))
  {
    if location > MAX_WORD_OFFSET || length > MAX_WORD_OFFSET then Err(Trap)
    else
      var window :- ParchmentMmap.InitOutcome(pages.present, |pages.bytes|, location, Some(length));
      if location + length < WindowBytes(window) then Ok(Page(number, pages.path, Range(location, location + length)))
      else Err(PageErr(InvalidPage))
  }

  /** The `fileSize` of a store opened with this outcome: its window size in bytes,
      or 0 without a mapping. It mirrors `ParchmentMmap.ParchmentUnsafe.FileSize` of
      the store `ParchmentMmap.ParchmentUnsafe.Open` builds from that outcome, and the
      test `location + length < WindowBytes(...)` in `PageInit` mirrors that store's
      `Contains`; they are restated here because a function cannot call the method
      that opens the store. */
  function WindowBytes(w: Option<Mmap.Window>): (r: nat)
    ensures w.None? ==> r == 0
    ensures w.Some? ==> r == w.value.size
  {
    if w.None? then 0 else w.value.size
  }

  /** A page of one word at word 7 of an eight-word file lies inside the file, and is
      refused: the end 8 is not below the window's size of 8 bytes. */
  lemma LastWordPageRefused(pages: File)
    requires pages.present && |pages.bytes| == 64
    ensures PageInit(1, pages, 7, 1) == Err(PageErr(InvalidPage))
  {
    assert ParchmentMmap.InitOutcome(true, 64, 7, Some(1)) == Ok(Some(Mmap.Window(56, 8, 64)));
  }

  /** A page is accepted exactly when its window opens and its end word index is below
      the window's byte size, `8 * length`: for `length > 0`, when
      `location < 7 * length`. */
  lemma PageInitBound(number: u64, pages: File, location: u64, length: u64)
    requires location <= MAX_WORD_OFFSET && length <= MAX_WORD_OFFSET
    requires ParchmentMmap.InitOutcome(pages.present, |pages.bytes|, location, Some(length)).Ok?
    requires ParchmentMmap.InitOutcome(pages.present, |pages.bytes|, location, Some(length)).value.Some?
    ensures PageInit(number, pages, location, length).Ok? <==> location < 7 * length
  {}

  /** `==`: the pages file and the range; the number is not compared. */
  predicate PageEquals(a: Page, b: Page) {
    a.pagesUrl == b.pagesUrl && a.range == b.range
  }

  /** What `hash(into:)` combines. */
  function HashInput(p: Page): (string, Range) {
    (p.pagesUrl, p.range)
  }

  /** Equal pages hash alike, and the hash sees everything `==` compares. */
  lemma HashMatchesEquals(a: Page, b: Page)
    ensures PageEquals(a, b) <==> HashInput(a) == HashInput(b)
  {}

  /** Pages that differ only in their number are equal. */
  lemma EqualsIgnoresNumber(p: Page, n: u64)
    ensures PageEquals(p, p.(number := n))
  {}

  lemma PageEqualsEquivalence(a: Page, b: Page, c: Page)
    ensures PageEquals(a, a)
    ensures PageEquals(a, b) ==> PageEquals(b, a)
    ensures PageEquals(a, b) && PageEquals(b, c) ==> PageEquals(a, c)
  {}

  // ------------------------------------------------------------ NewPage

  /** A page not yet written: the words it will hold. */
  datatype NewPage = NewPage(values: seq<u64>)

  /** `init(values:)`: any words, the sentinel included, are kept as given. */
  function FromValues(values: seq<u64>): (p: NewPage)
    ensures p.values == values
  {
    NewPage(values)
  }

  /** `init(value:)`. */
  function FromValue(value: u64): (p: NewPage)
    ensures p == FromValues([value])
  {
    FromValues([value])
  }
}
