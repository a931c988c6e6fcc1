/** The streamed word store, `ParchmentUnsafe` of `Sources/ParchmentFile`: a file
    reached through a `FileDescriptor`. Appends write little-endian words at the end
    of the file; `get`, `set` and `delete` go through the descriptor extension, which
    addresses word `i` at byte `8i` of the file and codes words with its own codec.
    `UInt64.max` is the "deleted" sentinel, as in the mapped store. The window fields
    `offset`, `size`, `start` and `end` are set when the store is opened and never
    read again. */
module ParchmentFile {
  import opened Ints
  import opened Errors
  import opened Files
  import opened FileDescriptorExtension
  import ParchmentMmap

  /** The fields `init` sets, in bytes except where noted. */
  datatype Layout = Layout(offset: int, size: int, start: int, end: int)

  /** What `init(url, offsetUInt64:, sizeUInt64:)` sets, for a file that is `present`
      with `fileSize` bytes. A present, empty file is refused. For a present file the
      size is its number of whole words and the end lies past the start by the file's
      size in bytes; `offsetBytes + sizeBytes` traps when that passes `Int.max`. A
      missing file is created, and then the size is the requested size in bytes. */
  function InitLayout(present: bool, fileSize: nat, offset: u64, size: Option<u64>): (r: Result<Layout>)
    requires offset <= MAX_WORD_OFFSET && (size.Some? ==> size.value <= MAX_WORD_OFFSET)
    requires !present ==> 8 * offset + ParchmentMmap.SizeBytes(size) <= INT_MAX
    ensures r == Err(ParchmentErr(FileDoesNotExist)) <==> present && fileSize == 0
    ensures r == Err(Trap) <==> present && fileSize > 0 && 8 * offset + fileSize > INT_MAX
    ensures r.Ok? ==> r.value.offset == r.value.start == 8 * offset && r.value.end <= INT_MAX
    ensures r.Ok? && present ==> 8 * r.value.size <= fileSize < 8 * r.value.size + 8
                                 && r.value.end - r.value.start == fileSize
    ensures r.Ok? && !present ==> r.value.size == r.value.end - r.value.start == ParchmentMmap.SizeBytes(size)
  {
    var offsetBytes := 8 * offset;
    if present then
      if fileSize == 0 then Err(ParchmentErr(FileDoesNotExist))
      else if offsetBytes + fileSize > INT_MAX then Err(Trap)
      else Ok(Layout(offsetBytes, fileSize / 8, offsetBytes, offsetBytes + fileSize))
    else
      Ok(Layout(offsetBytes, ParchmentMmap.SizeBytes(size), offsetBytes, offsetBytes + ParchmentMmap.SizeBytes(size)))
  }

  /** The number of values written before the first sentinel. */
  function SentinelFreePrefix(values: seq<u64>): (n: nat)
    ensures n <= |values| && UINT64_MAX !in values[..n]
    ensures n < |values| ==> values[n] == UINT64_MAX
  {
    if values == [] then 0
    else if values[0] == UINT64_MAX then 0
    else
      var n := 1 + SentinelFreePrefix(values[1..]);
      assert values[..n] == [values[0]] + values[1..][..n - 1];
      n
  }

  /** The prefix is `k` exactly when the values before `k` are free of the sentinel
      and `k` is the end or holds the sentinel. */
  lemma SentinelFreePrefixAt(values: seq<u64>, k: nat)
    requires k <= |values| && UINT64_MAX !in values[..k]
    requires k < |values| ==> values[k] == UINT64_MAX
    ensures SentinelFreePrefix(values) == k
  {}

  class ParchmentUnsafe {
    const url: File
    const descriptor: Descriptor
    const offset: int
    const size: int
    const start: int
    const end: int

    /** The store's descriptor is open on its own file, which therefore exists. */
    predicate Valid()
      reads this, url
    {
      url.present && descriptor.file == url
    }

    /** The descriptor's word codec. */
    function Codec(): WireCodec {
      descriptor.codec
    }

    /** `fileSize`: `File.size` of the path, 0 when it cannot be read. */
    function FileSize(): (r: nat)
      reads url
      ensures url.present ==> r == |url.bytes|
      ensures !url.present ==> r == 0
    {
      if url.present then |url.bytes| else 0
    }

    /** `getSize`: the number of whole words in the file. */
    function GetSize(): (r: nat)
      reads url
      ensures 8 * r <= FileSize() < 8 * r + 8
      ensures url.present ==> r == |Words(url.bytes)|
    {
      FileSize() / 8
    }

    /** `getFileSize`. */
    function GetFileSize(): (r: nat)
      reads url
      ensures url.present ==> r == |url.bytes|
      ensures !url.present ==> r == 0
    {
      FileSize()
    }

    constructor (url: File, descriptor: Descriptor, layout: Layout)
      ensures this.url == url && this.descriptor == descriptor
      ensures Layout(offset, size, start, end) == layout
    {
      this.url := url;
      this.descriptor := descriptor;
      this.offset := layout.offset;
      this.size := layout.size;
      this.start := layout.start;
      this.end := layout.end;
    }

    /** `init(url, offsetUInt64:, sizeUInt64:)`: the fields of `InitLayout`, with the
        file created when it is missing. */
    static method Open(url: File, offset: u64, size: Option<u64>, codec: WireCodec) returns (r: Result<ParchmentUnsafe>)
      requires url.Valid()
      requires offset <= MAX_WORD_OFFSET && (size.Some? ==> size.value <= MAX_WORD_OFFSET)
      requires !url.present ==> 8 * offset + ParchmentMmap.SizeBytes(size) <= INT_MAX
      modifies url
      ensures url.Valid() && url.bytes == old(url.bytes)
      ensures old(url.present) ==> unchanged(url)
      ensures var l := InitLayout(old(url.present), |url.bytes|, offset, size);
              (r.Err? ==> l.Err? && r.error == l.error && url.present == old(url.present))
              && (r.Ok? ==> l.Ok? && fresh(r.value) && fresh(r.value.descriptor)
                            && r.value.url == url && r.value.Codec() == codec && r.value.Valid()
                            && Layout(r.value.offset, r.value.size, r.value.start, r.value.end) == l.value)
      ensures r.Err? <==> InitLayout(old(url.present), |url.bytes|, offset, size).Err?
    {
      var layout :- InitLayout(url.present, |url.bytes|, offset, size);
      url.OpenCreating();
      var descriptor := new Descriptor(url, codec);
      var p := new ParchmentUnsafe(url, descriptor, layout);
      return Ok(p);
    }

    /** `append(_ newElement:)`: the sentinel is refused; otherwise the little-endian
        bytes of the word go at the end of the file. */
    method Append(v: u64) returns (r: Result<()>)
      requires Valid() && |url.bytes| + 8 <= INT_MAX
      modifies url`bytes
      ensures Valid()
      ensures v == UINT64_MAX ==> r == Err(ParchmentErr(MaxUInt64ValueNotAllowed)) && url.bytes == old(url.bytes)
      ensures v != UINT64_MAX ==> r == Ok(()) && url.bytes == old(url.bytes) + EncodeLE(v)
      ensures v != UINT64_MAX && |old(url.bytes)| % 8 == 0 ==> Words(url.bytes) == Words(old(url.bytes)) + [v]
    {
      if v == UINT64_MAX {
        return Err(ParchmentErr(MaxUInt64ValueNotAllowed));
      }
      ghost var before := url.bytes;
      url.AppendBytes(EncodeLE(v));
      if |before| % 8 == 0 {
        WordsAppendOne(before, v);
      }
      return Ok(());
    }

    /** `append(_ contentsOf:)`: the values are appended one by one, so the words
        before a sentinel are already written when it is refused. */
    method AppendContents(values: seq<u64>) returns (r: Result<()>)
      requires Valid() && |url.bytes| + 8 * |values| <= INT_MAX
      modifies url`bytes
      ensures Valid()
      ensures var n := SentinelFreePrefix(values);
              url.bytes == old(url.bytes) + EncodeWords(values[..n])
              && r == if n == |values| then Ok(()) else Err(ParchmentErr(MaxUInt64ValueNotAllowed))
    {
      ghost var start := url.bytes;
      var k := 0;
      while k < |values|
        invariant k <= |values| && UINT64_MAX !in values[..k]
        invariant Valid() && url.bytes == start + EncodeWords(values[..k])
      {
        ParchmentMmap.AppendStep(start, values, k);
        var step := Append(values[k]);
        if step.Err? {
          SentinelFreePrefixAt(values, k);
          return step;
        }
        assert values[..k + 1] == values[..k] + [values[k]];
        k := k + 1;
      }
      SentinelFreePrefixAt(values, k);
      return Ok(());
    }

    /** `grow(_ size:)`: `size` zero words are appended one by one. */
    method Grow(size: u64)
      requires Valid() && size <= INT_MAX && |url.bytes| + 8 * size <= INT_MAX
      modifies url`bytes
      ensures Valid()
      ensures url.bytes == old(url.bytes) + EncodeWords(seq(size, _ => 0))
      ensures |old(url.bytes)| % 8 == 0 ==> Words(url.bytes) == Words(old(url.bytes)) + seq(size, _ => 0)
    {
      ghost var start := url.bytes;
      ghost var zeros: seq<u64> := seq(size, _ => 0);
      var i: nat := 0;
      while i < size
        invariant i <= size
        invariant Valid() && url.bytes == start + EncodeWords(zeros[..i])
      {
        ParchmentMmap.AppendStep(start, zeros, i);
        var _ := Append(0);
        i := i + 1;
      }
      assert zeros[..i] == zeros;
      if |start| % 8 == 0 {
        WordsAppend(start, zeros);
      }
    }

    /** `set(offset:to:)` for many words: every value is checked for the sentinel
        before the descriptor writes them in order. */
    method SetWords(o: u64, values: seq<u64>) returns (r: Result<()>)
      requires Valid() && o + |values| <= MAX_WORD_OFFSET + 1
      modifies url`bytes
      ensures Valid()
      ensures UINT64_MAX in values ==>
                r == Err(ParchmentErr(MaxUInt64ValueNotAllowed)) && url.bytes == old(url.bytes)
      ensures UINT64_MAX !in values ==> (url.bytes, r) == WriteWords(old(url.bytes), o, values, Codec())
    {
      var ok := ParchmentMmap.CheckValues(values);
      if !ok {
        return Err(ParchmentErr(MaxUInt64ValueNotAllowed));
      }
      r := descriptor.SetWords(o, values);
    }

    /** `set(offset:to:)` for one word. */
    method SetWord(o: u64, v: u64) returns (r: Result<()>)
      requires Valid() && o <= MAX_WORD_OFFSET
      modifies url`bytes
      ensures Valid()
      ensures v == UINT64_MAX ==>
                r == Err(ParchmentErr(MaxUInt64ValueNotAllowed)) && url.bytes == old(url.bytes)
      ensures v != UINT64_MAX ==> (url.bytes, r) == WriteAtByte(old(url.bytes), 8 * o, v, Codec())
    {
      if v == UINT64_MAX {
        return Err(ParchmentErr(MaxUInt64ValueNotAllowed));
      }
      r := descriptor.SetWord(o, v);
    }

    /** `get(offset:length:)`: the descriptor's words with the sentinels dropped. */
    method GetWords(o: u64, length: u64) returns (r: Result<seq<u64>>)
      requires Valid() && o + length <= MAX_WORD_OFFSET + 1
      ensures var read := ReadWords(url.bytes, o, length, Codec());
              (r.Err? <==> read.Err?) && (r.Err? ==> r.error == read.error)
              && (r.Ok? ==> r.value == ParchmentMmap.WithoutSentinel(read.value) && |r.value| <= length)
    {
      var words :- descriptor.GetWords(o, length);
      return Ok(ParchmentMmap.WithoutSentinel(words));
    }

    /** What `get(offset:)` yields: the descriptor's word, unless that is the
        sentinel. */
    function GetOutcome(o: nat): (r: Result<u64>)
      reads url
      ensures var w := ReadWord(url.bytes, o, Codec());
              (w.Err? ==> r == w)
              && (w == Ok(UINT64_MAX) ==> r == Err(ParchmentErr(MaxUInt64ValueNotAllowed)))
              && (w.Ok? && w.value != UINT64_MAX ==> r == w)
    {
      match ReadWord(url.bytes, o, Codec())
      case Err(e) => Err(e)
      case Ok(v) => if v == UINT64_MAX then Err(ParchmentErr(MaxUInt64ValueNotAllowed)) else Ok(v)
    }

    /** `get(offset:)`. */
    method GetWord(o: u64) returns (r: Result<u64>)
      requires Valid() && o <= MAX_WORD_OFFSET
      ensures r == GetOutcome(o)
    {
      var result :- descriptor.GetWord(o);
      if result == UINT64_MAX {
        return Err(ParchmentErr(MaxUInt64ValueNotAllowed));
      }
      return Ok(result);
    }

    /** `contains(offset:)`: compares a word offset with the file size in bytes. */
    function Contains(o: u64): (b: bool)
      reads url
      ensures b <==> o < FileSize()
    {
      o < FileSize()
    }

    /** `delete(offset:)`: the sentinel is written at word `o`. */
    method Delete(o: u64) returns (r: Result<()>)
      requires Valid() && o <= MAX_WORD_OFFSET
      modifies url`bytes
      ensures Valid()
      ensures (url.bytes, r) == WriteAtByte(old(url.bytes), 8 * o, UINT64_MAX, Codec())
    {
      r := descriptor.SetWord(o, UINT64_MAX);
    }

    /** `delete(offset:length:)`: the sentinel is written at `length` words from `o`. */
    method DeleteRange(o: u64, length: u64) returns (r: Result<()>)
      requires Valid() && length <= INT_MAX && o + length <= MAX_WORD_OFFSET + 1
      modifies url`bytes
      ensures Valid()
      ensures (url.bytes, r) == WriteWords(old(url.bytes), o, seq(length, _ => UINT64_MAX), Codec())
    {
      var values: seq<u64> := seq(length, _ => UINT64_MAX);
      r := descriptor.SetWords(o, values);
    }

    /** `compact()`: a stub that changes nothing. */
    method Compact() returns (r: Result<()>)
      ensures r == Ok(())
    {
      return Ok(());
    }

    // ------------------------------------------- the collection view

    /** `endIndex`: the number of whole words in the file. */
    function EndIndex(): (r: nat)
      reads url
      ensures r == GetSize()
    {
      FileSize() / 8
    }

    /** `subscript(position:)` read: the word `get` yields, or `UInt64.max` for any
        failure. */
    method SubscriptGet(position: u64) returns (r: u64)
      requires Valid() && position <= MAX_WORD_OFFSET
      ensures var w := ReadWord(url.bytes, position, Codec());
              r == if w.Ok? then w.value else UINT64_MAX
    {
      var g := GetWord(position);
      r := if g.Ok? then g.value else UINT64_MAX;
    }

    /** `subscript(position:)` write: a `set` whose error is dropped. */
    method SubscriptSet(position: u64, newValue: u64)
      requires Valid() && position <= MAX_WORD_OFFSET
      modifies url`bytes
      ensures Valid()
      ensures url.bytes == if newValue == UINT64_MAX then old(url.bytes)
                           else WriteAtByte(old(url.bytes), 8 * position, newValue, Codec()).0
    {
      var _ := SetWord(position, newValue);
    }
  }

  /** `ParchmentIterator` over the streamed store. */
  class ParchmentIterator {
    const parchment: ParchmentUnsafe
    var index: u64

    constructor (parchment: ParchmentUnsafe, index: u64)
      ensures this.parchment == parchment && this.index == index
    {
      this.parchment := parchment;
      this.index := index;
    }

    /** `next()`: the word at `index`, moving past it; `nil`, staying put, at the first
        failing `get`. */
    method Next() returns (r: Option<u64>)
      requires parchment.Valid() && index <= MAX_WORD_OFFSET
      modifies this
      ensures parchment.GetOutcome(old(index)).Ok? ==>
                r == Some(parchment.GetOutcome(old(index)).value) && index == old(index) + 1
      ensures parchment.GetOutcome(old(index)).Err? ==> r == None && index == old(index)
    {
      var g := parchment.GetWord(index);
      if g.Err? {
        return None;
      }
      index := index + 1;
      return Some(g.value);
    }
  }

  /** `makeIterator()`: an iterator from word 0. */
  method MakeIterator(parchment: ParchmentUnsafe) returns (it: ParchmentIterator)
    ensures fresh(it) && it.parchment == parchment && it.index == 0
  {
    it := new ParchmentIterator(parchment, 0);
  }

  // ------------------------------------------------- static constructors

  /** `getOrCreate(url, offsetUInt64:, sizeUInt64:)`: opens the store when the file
      already holds the window; otherwise the window must start at the end of the
      file, which is then opened whole and grown by the missing zero words. */
  method GetOrCreate(url: File, offset: u64, size: u64, codec: WireCodec) returns (r: Result<ParchmentUnsafe>)
    requires url.Valid() && offset <= MAX_WORD_OFFSET && size <= MAX_WORD_OFFSET
    requires |url.bytes| + 8 * size <= INT_MAX
    modifies url
    ensures url.Valid()
    ensures size == 0 ==> r == Err(ParchmentErr(InvalidSize(0))) && unchanged(url)
    ensures size > 0 && old(ParchmentMmap.FileSizeWordsOfUrl(url)).Err? ==>
              r == Err(old(ParchmentMmap.FileSizeWordsOfUrl(url)).error) && unchanged(url)
    ensures size > 0 && old(ParchmentMmap.FileSizeWordsOfUrl(url)).Ok? ==>
              var oldSize := old(ParchmentMmap.FileSizeWordsOfUrl(url)).value;
              (oldSize >= offset + size ==>
                 unchanged(url)
                 && (r.Err? <==> 8 * offset + |url.bytes| > INT_MAX) && (r.Err? ==> r.error == Trap)
                 && (r.Ok? ==> r.value.url == url && r.value.Valid() && r.value.size == oldSize
                               && r.value.Codec() == codec
                               && Layout(r.value.offset, r.value.size, r.value.start, r.value.end)
                                  == InitLayout(true, |url.bytes|, offset, Some(size)).value))
              && (oldSize < offset + size && offset != oldSize ==>
                    r == Err(ParchmentErr(InvalidOffset(offset))) && unchanged(url))
              && (oldSize < offset + size && offset == oldSize == 0 ==>
                    r == Err(ParchmentErr(FileDoesNotExist)) && unchanged(url))
              && (oldSize < offset + size && offset == oldSize > 0 ==>
                    r.Ok? && r.value.url == url && r.value.Valid() && r.value.Codec() == codec
                    && Layout(r.value.offset, r.value.size, r.value.start, r.value.end)
                       == InitLayout(true, |old(url.bytes)|, 0, None).value
                    && url.bytes == old(url.bytes) + EncodeWords(seq(size, _ => 0))
                    && Words(url.bytes) == Words(old(url.bytes)) + seq(size, _ => 0))
  {
    if size == 0 {
      return Err(ParchmentErr(InvalidSize(0)));
    }
    var oldSize :- ParchmentMmap.FileSizeWordsOfUrl(url);
    var newSize := offset + size;
    if oldSize >= newSize {
      r := ParchmentUnsafe.Open(url, offset, Some(size), codec);
      return;
    }
    if offset != oldSize {
      return Err(ParchmentErr(InvalidOffset(offset)));
    }
    var difference := newSize - oldSize;
    var parchment :- ParchmentUnsafe.Open(url, 0, None, codec);
    parchment.Grow(difference);
    return Ok(parchment);
  }

  /** `create(url, value:)`: a new file holding the one little-endian word `value`,
      opened as a store of one word. */
  method Create(url: File, value: u64, codec: WireCodec) returns (r: Result<ParchmentUnsafe>)
    requires url.Valid()
    modifies url
    ensures url.Valid()
    ensures old(url.present) ==> r == Err(ParchmentErr(FileExists)) && unchanged(url)
    ensures !old(url.present) && value == UINT64_MAX ==>
              r == Err(ParchmentErr(MaxUInt64ValueNotAllowed)) && unchanged(url)
    ensures !old(url.present) && value != UINT64_MAX ==>
              url.present && url.bytes == EncodeLE(value) && Words(url.bytes) == [value]
              && r.Ok? && r.value.url == url && r.value.Valid() && r.value.Codec() == codec
              && r.value.size == 1 && r.value.start == 0 && r.value.end == 8
  {
    if url.present {
      return Err(ParchmentErr(FileExists));
    }
    if value == UINT64_MAX {
      return Err(ParchmentErr(MaxUInt64ValueNotAllowed));
    }
    url.OpenCreating();
    url.AppendBytes(EncodeLE(value));
    WordsAppendOne([], value);
    assert [] + EncodeLE(value) == EncodeLE(value);
    r := ParchmentUnsafe.Open(url, 0, Some(1), codec);
  }
}
