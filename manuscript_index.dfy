/** `ManuscriptIndex`: a word store read as a table of `(offset, length)` pairs, pair
    `n` at words `2n` and `2n + 1`, and `IndexEntry`, one row of that table with its
    order. */
module PageIndex {
  import opened Ints
  import opened Errors
  import opened Files
  import opened Pages
  import ParchmentMmap

  /** One row of the index: page `number` occupies `length` words from `offset`. */
  datatype IndexEntry = IndexEntry(number: u64, offset: u64, length: u64)

  /** `<`: by length, then by number, then by offset. */
  predicate Less(a: IndexEntry, b: IndexEntry) {
    if a.length == b.length then
      if a.number == b.number then a.offset < b.offset else a.number < b.number
    else a.length < b.length
  }

  /** `==`: length, offset and number all agree. */
  predicate Equal(a: IndexEntry, b: IndexEntry) {
    if a.length == b.length then
      if a.offset == b.offset then a.number == b.number else false
    else false
  }

  /** The entry's position in the order `<` describes, as one number. */
  function Rank(e: IndexEntry): (r: nat)
    ensures r < TWO_64 * TWO_64 * TWO_64
  {
    RankBound(e);
    (e.length * TWO_64 + e.number) * TWO_64 + e.offset
  }

  lemma RankBound(e: IndexEntry)
    ensures (e.length * TWO_64 + e.number) * TWO_64 + e.offset < TWO_64 * TWO_64 * TWO_64
  {
    assert e.length * TWO_64 + e.number < (e.length + 1) * TWO_64;
    assert e.length * TWO_64 + e.number + 1 <= (e.length + 1) * TWO_64;
    assert (e.length * TWO_64 + e.number + 1) * TWO_64 <= (e.length + 1) * TWO_64 * TWO_64;
    assert (e.length + 1) * TWO_64 * TWO_64 <= TWO_64 * TWO_64 * TWO_64;
  }

  /** For `h < H` and `h' < H`: `a * H + h < b * H + h'` exactly when `a < b`, or
      `a == b` and `h < h'`. */
  lemma LexStep(a: nat, h: nat, b: nat, k: nat, base: nat)
    requires h < base && k < base
    ensures a * base + h < b * base + k <==> a < b || (a == b && h < k)
    ensures a * base + h == b * base + k <==> a == b && h == k
  {
    if a < b {
      assert (a + 1) * base <= b * base;
    } else if b < a {
      assert (b + 1) * base <= a * base;
    }
  }

  /** `<` is the order of the ranks: (length, number, offset) read as one number. */
  lemma LessIsRank(a: IndexEntry, b: IndexEntry)
    ensures Less(a, b) <==> Rank(a) < Rank(b)
    ensures a == b <==> Rank(a) == Rank(b)
  {
    LexStep(a.length, a.number, b.length, b.number, TWO_64);
    LexStep(a.length * TWO_64 + a.number, a.offset, b.length * TWO_64 + b.number, b.offset, TWO_64);
  }

  /** `==` is equality of the three fields. */
  lemma EqualIsIdentity(a: IndexEntry, b: IndexEntry)
    ensures Equal(a, b) <==> a == b
  {}

  /** `<` is a strict total order whose equality is `==`: irreflexive, transitive,
      and exactly one of `a < b`, `a == b`, `b < a` holds. */
  lemma LessStrictTotal(a: IndexEntry, b: IndexEntry, c: IndexEntry)
    ensures !Less(a, a)
    ensures Less(a, b) && Less(b, c) ==> Less(a, c)
    ensures Less(a, b) || Equal(a, b) || Less(b, a)
    ensures !(Less(a, b) && Equal(a, b)) && !(Less(b, a) && Equal(a, b)) && !(Less(a, b) && Less(b, a))
  {
    LessIsRank(a, a);
    LessIsRank(a, b);
    LessIsRank(b, a);
    LessIsRank(b, c);
    LessIsRank(a, c);
  }

  /** The entry a page is recorded under: its number, its first word and its length. */
  function EntryOfPage(page: Page): (e: IndexEntry)
    requires WellFormed(page.range)
    ensures e.number == page.number && e.offset == page.range.lower
    ensures e.offset + e.length == page.range.upper
  {
    IndexEntry(page.number, page.range.lower, page.range.upper - page.range.lower)
  }

  class ManuscriptIndex {
    const parchment: ParchmentMmap.ParchmentUnsafe

    constructor (parchment: ParchmentMmap.ParchmentUnsafe)
      ensures this.parchment == parchment
    {
      this.parchment := parchment;
    }

    predicate Valid()
      reads parchment, parchment.url
    {
      parchment.Valid()
    }

    /** The words of the store, as its mapping shows them. */
    function Contents(): (r: seq<u64>)
      reads parchment, parchment.url
      requires Valid()
      ensures |r| <= MAX_WORD_OFFSET
    {
      parchment.Contents()
    }

    /** What `get(number:)` yields: the pair at words `2n` and `2n + 1`, which fails
        where either word is outside the store, deleted, or there is no mapping. */
    function EntryAt(number: u64): (r: Result<IndexEntry>)
      reads parchment, parchment.url
      requires Valid()
      ensures r.Ok? <==> 2 * number + 1 < |Contents()|
                         && Contents()[2 * number] != UINT64_MAX
                         && Contents()[2 * number + 1] != UINT64_MAX
      ensures r.Ok? ==> r.value == IndexEntry(number, Contents()[2 * number], Contents()[2 * number + 1])
    {
      var offset :- parchment.GetOutcome(2 * number);
      var length :- parchment.GetOutcome(2 * number + 1);
      Ok(IndexEntry(number, offset, length))
    }

    /** `get(number:)`. */
    method Get(number: u64) returns (r: Result<IndexEntry>)
      requires Valid() && 2 * number + 1 <= MAX_WORD_OFFSET
      ensures r == EntryAt(number)
    {
      var offset :- parchment.GetWord(2 * number);
      var length :- parchment.GetWord(2 * number + 1);
      return Ok(IndexEntry(number, offset, length));
    }

    /** `set(entry:)`: the offset is stored at `2n`, then the length at `2n + 1`; the
        second store is not attempted when the first fails, and the first is kept
        when the second fails. */
    method Set(entry: IndexEntry) returns (r: Result<()>)
      requires Valid() && 2 * entry.number + 1 <= MAX_WORD_OFFSET
      modifies parchment.url
      ensures Valid() && |Contents()| == old(|Contents()|)
      ensures r.Ok? <==> entry.offset != UINT64_MAX && entry.length != UINT64_MAX
                         && 2 * entry.number + 1 < |Contents()|
      ensures r.Ok? ==> Contents() == old(Contents())[2 * entry.number := entry.offset]
                                                     [2 * entry.number + 1 := entry.length]
      ensures r.Ok? ==> EntryAt(entry.number) == Ok(entry)
      ensures entry.offset == UINT64_MAX || 2 * entry.number >= old(|Contents()|) ==>
                Contents() == old(Contents())
      ensures r.Err? && entry.offset != UINT64_MAX && 2 * entry.number < old(|Contents()|) ==>
                Contents() == old(Contents())[2 * entry.number := entry.offset]
      ensures entry.offset == UINT64_MAX || (2 * entry.number < old(|Contents()|) && entry.length == UINT64_MAX) ==>
                r == Err(ParchmentErr(MaxUInt64ValueNotAllowed))
      ensures parchment.mapped == null && entry.offset != UINT64_MAX ==> r == Err(ParchmentErr(NoMmapFile))
      ensures (parchment.mapped != null && entry.offset != UINT64_MAX && entry.length != UINT64_MAX
               && 2 * entry.number + 1 >= |Contents()|) ==> r == Err(MmapErr(MmapOutOfBounds))
      ensures Contents() == StoredPair(old(Contents()), entry)
    {
      var n := 2 * entry.number;
      r := parchment.SetWord(n, entry.offset);
      if r.Err? {
        return;
      }
      r := parchment.SetWord(n + 1, entry.length);
    }

    /** `append(entry:)`: the pair `[offset, length]` is appended to the store; the
        entry's number is not recorded. */
    method AppendEntry(entry: IndexEntry) returns (r: Result<()>)
      requires Valid() && |parchment.url.bytes| + 16 <= INT_MAX
      modifies parchment.url
      ensures Valid() && parchment.url.present
      ensures entry.offset == UINT64_MAX || entry.length == UINT64_MAX ==>
                r == Err(ParchmentErr(MaxUInt64ValueNotAllowed))
                && parchment.url.bytes == old(parchment.url.bytes)
      ensures entry.offset != UINT64_MAX && entry.length != UINT64_MAX ==>
                parchment.url.bytes == old(parchment.url.bytes) + EncodeLE(entry.offset) + EncodeLE(entry.length)
                && r == (if parchment.CanAppend() then Ok(()) else Err(ParchmentErr(CannotAppend)))
      ensures entry.offset != UINT64_MAX && entry.length != UINT64_MAX && |old(parchment.url.bytes)| % 8 == 0 ==>
                Words(parchment.url.bytes) == Words(old(parchment.url.bytes)) + [entry.offset, entry.length]
    {
      ghost var before := parchment.url.bytes;
      r := parchment.AppendContents([entry.offset, entry.length]);
      EncodePair(entry.offset, entry.length);
      if entry.offset != UINT64_MAX && entry.length != UINT64_MAX && |before| % 8 == 0 {
        WordsAppend(before, [entry.offset, entry.length]);
      }
    }

    /** `append(page:)`: the page is recorded as its first word and its length. */
    method AppendPage(page: Page) returns (r: Result<()>)
      requires Valid() && WellFormed(page.range) && |parchment.url.bytes| + 16 <= INT_MAX
      modifies parchment.url
      ensures Valid() && parchment.url.present
      ensures var e := EntryOfPage(page);
              (e.offset == UINT64_MAX || e.length == UINT64_MAX ==>
                 r == Err(ParchmentErr(MaxUInt64ValueNotAllowed))
                 && parchment.url.bytes == old(parchment.url.bytes))
              && (e.offset != UINT64_MAX && e.length != UINT64_MAX ==>
                    parchment.url.bytes == old(parchment.url.bytes) + EncodeLE(e.offset) + EncodeLE(e.length)
                    && r == (if parchment.CanAppend() then Ok(()) else Err(ParchmentErr(CannotAppend))))
    {
      r := AppendEntry(EntryOfPage(page));
    }

    /** `endIndex`: the number of complete pairs in the store. */
    function EndIndex(): (r: u64)
      reads parchment, parchment.url
      requires Valid()
      ensures 2 * r <= |Contents()| < 2 * r + 2
    {
      parchment.EndIndex() / 2
    }

    /** `subscript(position:)` read: the entry, or `(0, 0, 0)` for any failure. */
    method SubscriptGet(position: u64) returns (r: IndexEntry)
      requires Valid() && 2 * position + 1 <= MAX_WORD_OFFSET
      ensures r == EntryOrZero(position)
    {
      var g := Get(position);
      r := if g.Ok? then g.value else IndexEntry(0, 0, 0);
    }

    /** What a subscript read yields. */
    function EntryOrZero(position: u64): (r: IndexEntry)
      reads parchment, parchment.url
      requires Valid()
      ensures EntryAt(position).Ok? ==> r == EntryAt(position).value && r.number == position
      ensures EntryAt(position).Err? ==> r == IndexEntry(0, 0, 0)
    {
      if EntryAt(position).Ok? then EntryAt(position).value else IndexEntry(0, 0, 0)
    }

    /** `subscript(position:)` write: a `set` of the new entry whose error is
        dropped. The position is not used: the entry's own number decides where it
        goes. */
    method SubscriptSet(position: u64, newValue: IndexEntry)
      requires Valid() && 2 * newValue.number + 1 <= MAX_WORD_OFFSET
      modifies parchment.url
      ensures Valid() && |Contents()| == old(|Contents()|)
      ensures Contents() == StoredPair(old(Contents()), newValue)
      ensures newValue.offset != UINT64_MAX && newValue.length != UINT64_MAX
              && 2 * newValue.number + 1 < |Contents()| ==>
                EntryAt(newValue.number) == Ok(newValue)
    {
      var _ := Set(newValue);
    }
  }

  /** The words of the store after `set(entry:)`: the offset goes to `2n` unless it is
      the sentinel or out of range, and the length to `2n + 1` only when the offset went
      in and the length is neither the sentinel nor out of range. */
  function StoredPair(ws: seq<u64>, e: IndexEntry): (r: seq<u64>)
    ensures |r| == |ws|
    ensures forall k :: 0 <= k < |ws| && k != 2 * e.number && k != 2 * e.number + 1 ==> r[k] == ws[k]
    ensures e.offset != UINT64_MAX && 2 * e.number < |ws| ==> r[2 * e.number] == e.offset
    ensures e.offset != UINT64_MAX && e.length != UINT64_MAX && 2 * e.number + 1 < |ws| ==>
              r[2 * e.number + 1] == e.length
    ensures e.offset == UINT64_MAX || 2 * e.number >= |ws| ==> r == ws
  {
    var n := 2 * e.number;
    if e.offset == UINT64_MAX || n >= |ws| then ws
    else if e.length == UINT64_MAX || n + 1 >= |ws| then ws[n := e.offset]
    else ws[n := e.offset][n + 1 := e.length]
  }

  lemma EncodePair(a: u64, b: u64)
    ensures EncodeWords([a, b]) == EncodeLE(a) + EncodeLE(b)
  {
    EncodeWordsAppend([], a);
    EncodeWordsAppend([a], b);
    assert [a, b][..1] == [a];
  }

  /** `IndexIterator`: walks the entries from `number` on. */
  class IndexIterator {
    const index: ManuscriptIndex
    var number: u64

    constructor (index: ManuscriptIndex, number: u64)
      ensures this.index == index && this.number == number
    {
      this.index := index;
      this.number := number;
    }

    /** `next()`: the entry at `number`, advancing past it, or `nil` (staying put) at
        the first entry that cannot be read. */
    method Next() returns (r: Option<IndexEntry>)
      requires index.Valid() && 2 * number + 1 <= MAX_WORD_OFFSET
      modifies this
      ensures index.EntryAt(old(number)).Ok? ==>
                r == Some(index.EntryAt(old(number)).value) && number == old(number) + 1
      ensures index.EntryAt(old(number)).Err? ==> r == None && number == old(number)
    {
      var g := index.Get(number);
      if g.Err? {
        return None;
      }
      number := number + 1;
      return Some(g.value);
    }
  }

  /** `makeIterator()`: an iterator from entry 0. */
  method MakeIterator(index: ManuscriptIndex) returns (it: IndexIterator)
    ensures fresh(it) && it.index == index && it.number == 0
  {
    it := new IndexIterator(index, 0);
  }
}
