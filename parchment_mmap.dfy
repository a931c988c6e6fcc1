/** The mapped word store, `ParchmentUnsafe` of `Sources/ParchmentMmap`: a file of
    little-endian words seen through an `MmapFile` window. `UInt64.max` is the
    "deleted" sentinel: it is never accepted as a value, `delete` writes it, a single
    `get` of it fails and a range `get` drops it. The collection view and iterator of
    the `ParchmentMmap` wrapper pass through to this class. */
module ParchmentMmap {
  import opened Ints
  import opened Errors
  import opened Files
  import opened Mmap

  // --------------------------------------------------------- size helpers

  /** `getFileSizeOfUrl`: the size in bytes of a present file. */
  function FileSizeOfUrl(url: File): (r: Result<nat>)
    reads url
    ensures r.Ok? <==> url.present
    ensures r.Ok? ==> r.value == |url.bytes|
    ensures r.Err? ==> r.error == ParchmentErr(FileDoesNotExist)
  {
    if url.present then Ok(|url.bytes|) else Err(ParchmentErr(FileDoesNotExist))
  }

  /** `getFileSizeUInt64OfUrl`: the number of words of a present, word-aligned file. */
  function FileSizeWordsOfUrl(url: File): (r: Result<u64>)
    reads url
    requires url.Valid()
    ensures r.Ok? <==> url.present && |url.bytes| % 8 == 0
    ensures r.Ok? ==> 8 * r.value == |url.bytes| && r.value == |Words(url.bytes)|
    ensures url.present && |url.bytes| % 8 != 0 ==> r == Err(ParchmentErr(InvalidSize(|url.bytes|)))
  {
    var bytes :- FileSizeOfUrl(url);
    if bytes % 8 != 0 then Err(ParchmentErr(InvalidSize(bytes))) else Ok(bytes / 8)
  }

  /** `Int(size * 8)`, with an omitted size counting as 0. */
  function SizeBytes(size: Option<u64>): (r: nat)
    ensures size.None? ==> r == 0
    ensures size.Some? ==> r == 8 * size.value
  {
    if size.None? then 0 else 8 * size.value
  }

  /** Where `init(url, offsetUInt64:, sizeUInt64:)` ends: no mapping for a missing or
      empty file, otherwise the window `MmapFile.init` validates, in bytes. An omitted
      size is passed on as a size of 0, not as an omitted one. `Int(x * 8)` traps for
      a word count past `MAX_WORD_OFFSET`. */
  function InitOutcome(present: bool, fileSize: nat, offset: u64, size: Option<u64>): (r: Result<Option<Window>>)
    ensures offset > MAX_WORD_OFFSET || (size.Some? && size.value > MAX_WORD_OFFSET) ==> r == Err(Trap)
    ensures offset <= MAX_WORD_OFFSET && (size.None? || size.value <= MAX_WORD_OFFSET) ==>
              ((!present || fileSize == 0) <==> r == Ok(None))
    ensures r.Ok? && r.value.Some? ==>
              r.value.value.offset == 8 * offset && r.value.value.fileSize == fileSize
              && r.value.value.size == (if size.None? then 0 else 8 * size.value)
              && r.value.value.offset + r.value.value.size <= fileSize
    ensures offset <= MAX_WORD_OFFSET && (size.None? || size.value <= MAX_WORD_OFFSET) && present && fileSize > 0 ==>
              var w := OpenWindow(present, fileSize, 8 * offset, Some(SizeBytes(size)));
              (r.Err? <==> w.Err?) && (r.Err? ==> r.error == w.error) && (r.Ok? ==> r.value == Some(w.value))
  {
    if offset > MAX_WORD_OFFSET || (size.Some? && size.value > MAX_WORD_OFFSET) then Err(Trap)
    else
      if present && fileSize > 0 then
        var w :- OpenWindow(present, fileSize, 8 * offset, Some(SizeBytes(size)));
        Ok(Some(w))
      else Ok(None)
  }

  /** Opening a non-empty file with the size omitted maps an empty window: every
      `get` and `set` through it is out of bounds until an `append` remaps it. */
  lemma OmittedSizeMapsNothing(fileSize: nat, offset: u64)
    requires offset <= MAX_WORD_OFFSET && 8 * offset < fileSize
    ensures InitOutcome(true, fileSize, offset, None) == Ok(Some(Window(8 * offset, 0, fileSize)))
  {}

  /** The values a range `get` keeps: every word but the sentinel, in order. */
  function WithoutSentinel(ws: seq<u64>): (r: seq<u64>)
    ensures |r| <= |ws|
    ensures multiset(r) == multiset(ws)[UINT64_MAX := 0]
    ensures forall x :: x in r <==> x in ws && x != UINT64_MAX
    ensures UINT64_MAX !in ws ==> r == ws
  {
    if ws == [] then []
    else
      assert ws == [ws[0]] + ws[1..];
      if ws[0] == UINT64_MAX then WithoutSentinel(ws[1..])
      else [ws[0]] + WithoutSentinel(ws[1..])
  }

  /** One word in front of a run: it is kept unless it is the sentinel. */
  lemma WithoutSentinelCons(x: u64, ws: seq<u64>)
    ensures WithoutSentinel([x] + ws) == (if x == UINT64_MAX then [] else [x]) + WithoutSentinel(ws)
  {
    assert ([x] + ws)[0] == x && ([x] + ws)[1..] == ws;
  }

  lemma ConcatAssoc(x: seq<u64>, y: seq<u64>, z: seq<u64>)
    ensures x + (y + z) == (x + y) + z
  {}

  /** Dropping the sentinels keeps the order: it acts on each part of a run alone. */
  lemma {:induction false} WithoutSentinelConcat(a: seq<u64>, b: seq<u64>)
    ensures WithoutSentinel(a + b) == WithoutSentinel(a) + WithoutSentinel(b)
  {
    if a == [] {
      assert a + b == b;
    } else {
      var head: seq<u64> := if a[0] == UINT64_MAX then [] else [a[0]];
      assert a == [a[0]] + a[1..] && a + b == [a[0]] + (a[1..] + b);
      WithoutSentinelCons(a[0], a[1..] + b);
      WithoutSentinelCons(a[0], a[1..]);
      WithoutSentinelConcat(a[1..], b);
      ConcatAssoc(head, WithoutSentinel(a[1..]), WithoutSentinel(b));
    }
  }

  /** The loop of `append(_ contentsOf:)` and `grow`: each word's little-endian bytes
      written, in order, at the end of an open file. */
  method WriteWords(f: File, values: seq<u64>)
    requires f.Valid() && f.present && |f.bytes| + 8 * |values| <= INT_MAX
    modifies f`bytes
    ensures f.Valid() && f.present && f.bytes == old(f.bytes) + EncodeWords(values)
  {
    ghost var start := f.bytes;
    var k := 0;
    while k < |values|
      invariant 0 <= k <= |values|
      invariant f.Valid() && f.bytes == start + EncodeWords(values[..k])
    {
      AppendStep(start, values, k);
      f.AppendBytes(EncodeLE(values[k]));
      k := k + 1;
    }
    assert values[..k] == values;
  }

  /** Writing value `k` extends the bytes of values `..k` to those of `..k + 1`. */
  lemma AppendStep(start: seq<u8>, values: seq<u64>, k: nat)
    requires k < |values|
    ensures start + EncodeWords(values[..k]) + EncodeLE(values[k]) == start + EncodeWords(values[..k + 1])
  {
    assert values[..k + 1] == values[..k] + [values[k]];
    EncodeWordsAppend(values[..k], values[k]);
  }

  /** Bytes appended past a window leave the words it maps as they were. */
  lemma WindowAfterAppend(m: MmapFile, before: seq<u8>, e: seq<u8>)
    requires m.offset + m.size <= |before| && m.size <= INT_MAX && m.file.bytes == before + e
    ensures m.Contents() == Words(before[m.offset..m.offset + m.size])
  {
    assert m.Memory() == before[m.offset..m.offset + m.size];
  }

  /** `n` copies of the sentinel: what `delete(offset:length:)` stores. */
  function Sentinels(n: nat): (r: seq<u64>)
    ensures |r| == n && forall k :: 0 <= k < n ==> r[k] == UINT64_MAX
  {
    seq(n, _ => UINT64_MAX)
  }

  lemma SentinelsPrefix(m: nat, n: nat)
    requires n <= m
    ensures Sentinels(m)[..n] == Sentinels(n)
  {}

  /** The values must all differ from the sentinel. */
  method CheckValues(values: seq<u64>) returns (ok: bool)
    ensures ok <==> UINT64_MAX !in values
  {
    var k := 0;
    while k < |values|
      invariant 0 <= k <= |values|
      invariant UINT64_MAX !in values[..k]
    {
      if values[k] == UINT64_MAX {
        return false;
      }
      assert values[..k + 1] == values[..k] + [values[k]];
      k := k + 1;
    }
    assert values[..k] == values;
    return true;
  }

  // ---------------------------------------------------------------- store

  class ParchmentUnsafe {
    const url: File
    var mapped: MmapFile?

    /** The mapping, when there is one, is a window of this store's own file. */
    predicate Valid()
      reads this, url
    {
      url.Valid() && (mapped != null ==> mapped.file == url && mapped.Valid())
    }

    /** The words the store can reach: the window's words, or none without a mapping. */
    function Contents(): (r: seq<u64>)
      reads this, url
      requires Valid()
      ensures |r| == FileSize() / 8
    {
      if mapped == null then [] else mapped.Contents()
    }

    /** `fileSize`: the window size in bytes, 0 without a mapping. */
    function FileSize(): (r: nat)
      reads this
      ensures mapped == null ==> r == 0
    {
      if mapped == null then 0 else mapped.size
    }

    /** `getSize`: the number of words in the window. */
    function GetSize(): (r: u64)
      reads this, url
      requires Valid()
      ensures r == |Contents()|
    {
      FileSize() / 8
    }

    /** `getFileSize`. */
    function GetFileSize(): (r: nat)
      reads this
      ensures r == FileSize()
    {
      FileSize()
    }

    /** The append guard: the window must end where the file ended when it was mapped. */
    predicate CanAppend()
      reads this
    {
      mapped == null || mapped.offset + mapped.size == mapped.fileSize
    }

    constructor (url: File, mapped: MmapFile?)
      ensures this.url == url && this.mapped == mapped
    {
      this.url := url;
      this.mapped := mapped;
    }

    /** `init(url, offsetUInt64:, sizeUInt64:)`. */
    static method Open(url: File, offset: u64, size: Option<u64>) returns (r: Result<ParchmentUnsafe>)
      requires url.Valid()
      requires offset <= MAX_WORD_OFFSET && (size.Some? ==> size.value <= MAX_WORD_OFFSET)
      ensures var o := InitOutcome(url.present, |url.bytes|, offset, size);
              (r.Err? <==> o.Err?) && (r.Err? ==> r.error == o.error)
              && (r.Ok? ==> fresh(r.value) && r.value.url == url && r.value.Valid()
                            && (r.value.mapped == null <==> o.value.None?)
                            && (r.value.mapped != null ==>
                                  fresh(r.value.mapped)
                                  && Window(r.value.mapped.offset, r.value.mapped.size, r.value.mapped.fileSize)
                                     == o.value.value))
    {
      var m: MmapFile? := null;
      if url.present && |url.bytes| > 0 {
        var window :- MmapFile.Open(url, 8 * offset, Some(SizeBytes(size)));
        m := window;
      }
      var p := new ParchmentUnsafe(url, m);
      return Ok(p);
    }

    /** `append(_ newElement:)`: the sentinel and the append guard are checked first;
        then the file grows by one word and the whole file is mapped afresh. */
    method Append(v: u64) returns (r: Result<()>)
      requires Valid() && |url.bytes| + 8 <= INT_MAX
      modifies this, url
      ensures Valid()
      ensures v == UINT64_MAX ==>
                r == Err(ParchmentErr(MaxUInt64ValueNotAllowed)) && unchanged(this, url)
      ensures v != UINT64_MAX && !old(CanAppend()) ==>
                r == Err(ParchmentErr(CannotAppend)) && unchanged(this, url)
      ensures v != UINT64_MAX && old(CanAppend()) ==>
                r == Ok(()) && url.present && url.bytes == old(url.bytes) + EncodeLE(v)
                && mapped != null && fresh(mapped)
                && mapped.offset == 0 && mapped.size == mapped.fileSize == |url.bytes|
                && Contents() == Words(url.bytes)
    {
      if v == UINT64_MAX {
        return Err(ParchmentErr(MaxUInt64ValueNotAllowed));
      }
      if mapped != null && mapped.offset + mapped.size != mapped.fileSize {
        return Err(ParchmentErr(CannotAppend));
      }
      mapped := null;
      url.OpenCreating();
      url.AppendBytes(EncodeLE(v));
      var m := MmapFile.Open(url, 0, None);
      assert m.Ok?;
      mapped := m.value;
      assert mapped.Memory() == url.bytes;
      return Ok(());
    }

    /** `append(_ contentsOf:)`: the file is opened (and created) first; every value
        is checked before any is written; the append guard is checked only after
        the writes, and the mapping is not refreshed. */
    method AppendContents(values: seq<u64>) returns (r: Result<()>)
      requires Valid() && |url.bytes| + 8 * |values| <= INT_MAX
      modifies url
      ensures Valid() && url.present
      ensures UINT64_MAX in values ==>
                r == Err(ParchmentErr(MaxUInt64ValueNotAllowed)) && url.bytes == old(url.bytes)
      ensures UINT64_MAX !in values ==>
                url.bytes == old(url.bytes) + EncodeWords(values)
                && r == (if CanAppend() then Ok(()) else Err(ParchmentErr(CannotAppend)))
    {
      url.OpenCreating();
      var ok := CheckValues(values);
      if !ok {
        return Err(ParchmentErr(MaxUInt64ValueNotAllowed));
      }
      WriteWords(url, values);
      if !CanAppend() {
        return Err(ParchmentErr(CannotAppend));
      }
      return Ok(());
    }

    /** `grow(_ size:)`: `size` zero words are appended, then the append guard is
        checked against the unrefreshed mapping. */
    method Grow(size: u64) returns (r: Result<()>)
      requires Valid() && size <= INT_MAX && |url.bytes| + 8 * size <= INT_MAX
      modifies url
      ensures Valid() && url.present
      ensures url.bytes == old(url.bytes) + EncodeWords(seq(size, _ => 0))
      ensures r == if CanAppend() then Ok(()) else Err(ParchmentErr(CannotAppend))
    {
      url.OpenCreating();
      WriteWords(url, seq(size, _ => 0));
      assert Valid();
      if !CanAppend() {
        return Err(ParchmentErr(CannotAppend));
      }
      return Ok(());
    }

    /** `set(offset:to:)` for many words: all values are checked first; then the
        window stores the words that fit, and fails at the first that does not. */
    method SetWords(o: u64, values: seq<u64>) returns (r: Result<()>)
      requires Valid() && o <= MAX_WORD_OFFSET
      modifies url
      ensures Valid() && url.present == old(url.present) && |url.bytes| == old(|url.bytes|)
      ensures UINT64_MAX in values ==>
                r == Err(ParchmentErr(MaxUInt64ValueNotAllowed)) && url.bytes == old(url.bytes)
      ensures UINT64_MAX !in values && mapped == null ==>
                r == Err(ParchmentErr(NoMmapFile)) && url.bytes == old(url.bytes)
      ensures UINT64_MAX !in values && mapped != null ==>
                var n := mapped.Fit(o, |values|);
                r == (if n == |values| then Ok(()) else Err(MmapErr(MmapOutOfBounds)))
                && (n == 0 ==> url.bytes == old(url.bytes))
                && (n > 0 ==> Contents() == Patch(old(Contents()), o, values[..n])
                              && url.bytes == Overwrite(old(url.bytes), mapped.offset + 8 * o, EncodeWords(values[..n])))
    {
      var ok := CheckValues(values);
      if !ok {
        return Err(ParchmentErr(MaxUInt64ValueNotAllowed));
      }
      if mapped == null {
        return Err(ParchmentErr(NoMmapFile));
      }
      r := mapped.SetWords(o, values);
    }

    /** `set(offset:to:)` for one word. */
    method SetWord(o: u64, v: u64) returns (r: Result<()>)
      requires Valid() && o <= MAX_WORD_OFFSET
      modifies url
      ensures Valid() && url.present == old(url.present) && |url.bytes| == old(|url.bytes|)
      ensures v == UINT64_MAX ==>
                r == Err(ParchmentErr(MaxUInt64ValueNotAllowed)) && url.bytes == old(url.bytes)
      ensures v != UINT64_MAX && mapped == null ==>
                r == Err(ParchmentErr(NoMmapFile)) && url.bytes == old(url.bytes)
      ensures v != UINT64_MAX && mapped != null && o >= |Contents()| ==>
                r == Err(MmapErr(MmapOutOfBounds)) && url.bytes == old(url.bytes)
      ensures v != UINT64_MAX && mapped != null && o < |Contents()| ==>
                r == Ok(()) && Contents() == old(Contents())[o := v]
                && url.bytes == Overwrite(old(url.bytes), mapped.offset + 8 * o, EncodeLE(v))
    {
      if v == UINT64_MAX {
        return Err(ParchmentErr(MaxUInt64ValueNotAllowed));
      }
      if mapped == null {
        return Err(ParchmentErr(NoMmapFile));
      }
      r := mapped.SetWord(o, v);
    }

    /** `get(offset:length:)`: the words of the range with the sentinels dropped. */
    method GetWords(o: u64, length: u64) returns (r: Result<seq<u64>>)
      requires Valid() && o <= MAX_WORD_OFFSET
      ensures r == if mapped == null then Err(ParchmentErr(NoMmapFile))
                   else if length == 0 then Ok([])
                   else if o + length <= |Contents()| then Ok(WithoutSentinel(Contents()[o..o + length]))
                   else Err(MmapErr(MmapOutOfBounds))
    {
      if mapped == null {
        return Err(ParchmentErr(NoMmapFile));
      }
      var words :- mapped.GetWords(o, length);
      return Ok(WithoutSentinel(words));
    }

    /** `get(offset:)`: the word at `o`; a deleted word is an error. */
    method GetWord(o: u64) returns (r: Result<u64>)
      requires Valid() && o <= MAX_WORD_OFFSET
      ensures r == GetOutcome(o)
    {
      if mapped == null {
        return Err(ParchmentErr(NoMmapFile));
      }
      var result :- mapped.GetWord(o);
      if result == UINT64_MAX {
        return Err(ParchmentErr(MaxUInt64ValueNotAllowed));
      }
      return Ok(result);
    }

    /** What `get(offset:)` yields in the current state. */
    function GetOutcome(o: nat): (r: Result<u64>)
      reads this, url
      requires Valid()
      ensures r.Ok? <==> o < |Contents()| && Contents()[o] != UINT64_MAX
      ensures r.Ok? ==> r.value == Contents()[o]
      ensures mapped == null ==> r == Err(ParchmentErr(NoMmapFile))
    {
      if mapped == null then Err(ParchmentErr(NoMmapFile))
      else if o >= |Contents()| then Err(MmapErr(MmapOutOfBounds))
      else if Contents()[o] == UINT64_MAX then Err(ParchmentErr(MaxUInt64ValueNotAllowed))
      else Ok(Contents()[o])
    }

    /** `contains(offset:)`: compares a word offset with the window size in bytes. */
    function Contains(o: u64): (b: bool)
      reads this
      ensures b <==> o < FileSize()
    {
      o < FileSize()
    }

    /** `delete(offset:)`: the sentinel is stored at `o`. */
    method Delete(o: u64) returns (r: Result<()>)
      requires Valid() && o <= MAX_WORD_OFFSET
      modifies url
      ensures Valid() && url.present == old(url.present) && |url.bytes| == old(|url.bytes|)
      ensures mapped == null ==> r == Err(ParchmentErr(NoMmapFile)) && url.bytes == old(url.bytes)
      ensures mapped != null && o >= |Contents()| ==>
                r == Err(MmapErr(MmapOutOfBounds)) && url.bytes == old(url.bytes)
      ensures mapped != null && o < |Contents()| ==>
                r == Ok(()) && Contents() == old(Contents())[o := UINT64_MAX]
                && url.bytes == Overwrite(old(url.bytes), mapped.offset + 8 * o, EncodeLE(UINT64_MAX))
    {
      if mapped == null {
        return Err(ParchmentErr(NoMmapFile));
      }
      ghost var before := mapped.Contents();
      r := mapped.SetWord(o, UINT64_MAX);
      assert mapped.Contents() == Contents();
    }

    /** `delete(offset:length:)`: the sentinel is stored at `length` words from `o`,
        as far as the window reaches. */
    method DeleteRange(o: u64, length: u64) returns (r: Result<()>)
      requires Valid() && o <= MAX_WORD_OFFSET && length <= INT_MAX
      modifies url
      ensures Valid() && url.present == old(url.present) && |url.bytes| == old(|url.bytes|)
      ensures mapped == null ==> r == Err(ParchmentErr(NoMmapFile)) && url.bytes == old(url.bytes)
      ensures mapped != null ==>
                var n := mapped.Fit(o, length);
                r == (if n == length then Ok(()) else Err(MmapErr(MmapOutOfBounds)))
                && (n == 0 ==> url.bytes == old(url.bytes))
                && (n > 0 ==> Contents() == Patch(old(Contents()), o, Sentinels(n))
                              && url.bytes == Overwrite(old(url.bytes), mapped.offset + 8 * o, EncodeWords(Sentinels(n))))
    {
      if mapped == null {
        return Err(ParchmentErr(NoMmapFile));
      }
      ghost var n := mapped.Fit(o, length);
      SentinelsPrefix(length, n);
      r := mapped.SetWords(o, Sentinels(length));
      assert mapped.Contents() == Contents();
    }

    /** `compact()`: a stub that changes nothing. */
    method Compact() returns (r: Result<()>)
      ensures r == Ok(())
    {
      return Ok(());
    }

    // ------------------------------------------- the collection view

    /** `endIndex`: the number of words in the window. */
    function EndIndex(): (r: u64)
      reads this, url
      requires Valid()
      ensures r == |Contents()|
    {
      GetSize()
    }

    /** `subscript(position:)` read: the stored word, or `UInt64.max` for any failure;
        a deleted word reads as the sentinel either way. */
    method SubscriptGet(position: u64) returns (r: u64)
      requires Valid() && position <= MAX_WORD_OFFSET
      ensures r == if position < |Contents()| then Contents()[position] else UINT64_MAX
    {
      var g := GetWord(position);
      r := if g.Ok? then g.value else UINT64_MAX;
    }

    /** `subscript(position:)` write: a `set` whose error is dropped. */
    method SubscriptSet(position: u64, newValue: u64)
      requires Valid() && position <= MAX_WORD_OFFSET
      modifies url
      ensures Valid() && url.present == old(url.present) && |url.bytes| == old(|url.bytes|)
      ensures Contents() == if newValue != UINT64_MAX && position < old(|Contents()|)
                            then old(Contents())[position := newValue] else old(Contents())
      ensures url.bytes == if newValue != UINT64_MAX && position < old(|Contents()|)
                           then Overwrite(old(url.bytes), mapped.offset + 8 * position, EncodeLE(newValue))
                           else old(url.bytes)
    {
      var _ := SetWord(position, newValue);
    }
  }

  /** `index(after:)`. */
  function IndexAfter(i: u64): (r: u64)
    requires i < UINT64_MAX
    ensures r > i
  {
    i + 1
  }

  /** `index(before:)`. */
  function IndexBefore(i: u64): (r: u64)
    requires i > 0
    ensures r < i
  {
    i - 1
  }

  lemma IndexBeforeAfter(i: u64)
    requires i < UINT64_MAX
    ensures IndexBefore(IndexAfter(i)) == i
  {}

  /** `ParchmentIterator` over the mapped store. */
  class ParchmentIterator {
    const parchment: ParchmentUnsafe
    var index: u64

    constructor (parchment: ParchmentUnsafe, index: u64)
      ensures this.parchment == parchment && this.index == index
    {
      this.parchment := parchment;
      this.index := index;
    }

    /** `next()`: the word at `index`, moving past it; `nil`, staying put, at the first
        failing `get` (the end of the window or a deleted word). */
    method Next() returns (r: Option<u64>)
      requires parchment.Valid() && index <= MAX_WORD_OFFSET
      modifies this
      ensures parchment.GetOutcome(old(index)).Ok? ==>
                r == Some(parchment.Contents()[old(index)]) && index == old(index) + 1
      ensures parchment.GetOutcome(old(index)).Err? ==> r == None && index == old(index)
    {
      var g := parchment.GetWord(index);
      if g.Err? {
        return None;
      }
      index := index + 1;
      return Some(g.value);
    }
  }

  /** `makeIterator()`: an iterator from word 0. */
  method MakeIterator(parchment: ParchmentUnsafe) returns (it: ParchmentIterator)
    ensures fresh(it) && it.parchment == parchment && it.index == 0
  {
    it := new ParchmentIterator(parchment, 0);
  }

  // ------------------------------------------------- static constructors

  /** `getOrCreate(url, offsetUInt64:, sizeUInt64:)`: opens the window when the file
      already holds it; otherwise the window must start at the end of the file, which
      then grows by the missing zero words. */
  method GetOrCreate(url: File, offset: u64, size: u64) returns (r: Result<ParchmentUnsafe>)
    requires url.Valid() && offset <= MAX_WORD_OFFSET && size <= MAX_WORD_OFFSET
    requires |url.bytes| + 8 * size <= INT_MAX
    modifies url
    ensures url.Valid()
    ensures size == 0 ==> r == Err(ParchmentErr(InvalidSize(0))) && unchanged(url)
    ensures size > 0 && old(FileSizeWordsOfUrl(url)).Err? ==>
              r == Err(old(FileSizeWordsOfUrl(url)).error) && unchanged(url)
    ensures size > 0 && old(FileSizeWordsOfUrl(url)).Ok? ==>
              var oldSize := old(FileSizeWordsOfUrl(url)).value;
              (oldSize >= offset + size ==>
                 unchanged(url)
                 && var o := InitOutcome(true, |url.bytes|, offset, Some(size));
                    (r.Err? <==> o.Err?) && (r.Err? ==> r.error == o.error)
                    && (r.Ok? ==> r.value.url == url && r.value.Valid()
                                  && (r.value.mapped == null <==> o.value.None?)
                                  && (r.value.mapped != null ==>
                                        Window(r.value.mapped.offset, r.value.mapped.size, r.value.mapped.fileSize)
                                        == o.value.value)))
              && (oldSize < offset + size && offset != oldSize ==>
                    r == Err(ParchmentErr(InvalidOffset(offset))) && unchanged(url))
              && (oldSize < offset + size && offset == oldSize ==>
                    url.bytes == old(url.bytes) + EncodeWords(seq(size, _ => 0))
                    && Words(url.bytes) == Words(old(url.bytes)) + seq(size, _ => 0)
                    && (oldSize == 0 ==> r.Ok? && r.value.mapped == null && r.value.url == url && r.value.Valid())
                    && (oldSize > 0 ==> r == Err(ParchmentErr(CannotAppend))))
  {
    if size == 0 {
      return Err(ParchmentErr(InvalidSize(0)));
    }
    var oldSize :- FileSizeWordsOfUrl(url);
    var newSize := offset + size;
    if oldSize >= newSize {
      r := ParchmentUnsafe.Open(url, offset, Some(size));
      return;
    }
    if offset != oldSize {
      return Err(ParchmentErr(InvalidOffset(offset)));
    }
    var difference := newSize - oldSize;
    var whole := ParchmentUnsafe.Open(url, 0, None);
    assert whole.Ok?;
    var parchment := whole.value;
    assert parchment.mapped != null ==> parchment.mapped.size == 0;
    WordsAppend(url.bytes, seq(difference, _ => 0));
    var grown := parchment.Grow(difference);
    if grown.Err? {
      return Err(grown.error);
    }
    return Ok(parchment);
  }

  /** `create(url, value:)`: a new file holding the one word `value`, opened as a
      one-word window. */
  method Create(url: File, value: u64) returns (r: Result<ParchmentUnsafe>)
    requires url.Valid()
    modifies url
    ensures url.Valid()
    ensures old(url.present) ==> r == Err(ParchmentErr(FileExists)) && unchanged(url)
    ensures !old(url.present) && value == UINT64_MAX ==>
              r == Err(ParchmentErr(MaxUInt64ValueNotAllowed)) && unchanged(url)
    ensures !old(url.present) && value != UINT64_MAX ==>
              url.present && url.bytes == EncodeLE(value)
              && r.Ok? && r.value.url == url && r.value.Valid() && r.value.mapped != null
              && r.value.mapped.offset == 0 && r.value.mapped.size == 8
              && r.value.Contents() == [value]
  {
    if url.present {
      return Err(ParchmentErr(FileExists));
    }
    if value == UINT64_MAX {
      return Err(ParchmentErr(MaxUInt64ValueNotAllowed));
    }
    url.OpenCreating();
    url.bytes := url.bytes + EncodeLE(value);
    assert url.bytes == EncodeWords([value]) by { EncodeWordsAppend([], value); }
    WordsOfEncode([value]);
    r := ParchmentUnsafe.Open(url, 0, Some(1));
    assert r.Ok?;
    assert r.value.mapped.Memory() == url.bytes;
  }
}
