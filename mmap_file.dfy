/** `MmapFile`: a shared, read-write mapping of the bytes `[offset, offset + size)` of a
    file, with bounds-checked 8-byte loads and stores. Word `i` of the mapping is at
    byte `8i` of the window; the window's own offset is applied by the mapping. */
module Mmap {
  import opened Ints
  import opened Errors
  import opened Files

  /** What `MmapFile.init` settles: the window's byte offset and size, and the file
      size it saw. */
  datatype Window = Window(offset: nat, size: nat, fileSize: nat)

  /** The checks of `MmapFile.init`, in their order: a negative offset, a missing
      file, an offset at or past the end of the file, and a requested size reaching
      past it. An omitted size is the whole file size, whatever the offset. */
  function OpenWindow(present: bool, fileSize: nat, offset: int, size: Option<nat>): (r: Result<Window>)
    ensures r.Ok? <==> 0 <= offset < fileSize && present
                       && (size.Some? ==> offset + size.value <= fileSize && offset + size.value <= INT_MAX)
    ensures r.Ok? ==> r.value.offset == offset && r.value.fileSize == fileSize
                      && r.value.size == (if size.None? then fileSize else size.value)
    ensures r == Err(MmapErr(MmapInvalidOffset)) <==> offset < 0 || (present && offset >= fileSize)
    ensures r == Err(MmapErr(MmapInvalidSize)) <==>
              0 <= offset < fileSize && present && size.Some?
              && fileSize < offset + size.value <= INT_MAX
    ensures r == Err(NoSuchFile) <==> 0 <= offset && !present
    ensures r == Err(Trap) <==>
              0 <= offset < fileSize && present && size.Some? && offset + size.value > INT_MAX
  {
    if offset < 0 then Err(MmapErr(MmapInvalidOffset))
    else if !present then Err(NoSuchFile)
    else if offset >= fileSize then Err(MmapErr(MmapInvalidOffset))
    else if size.None? then Ok(Window(offset, fileSize, fileSize))
    else if offset + size.value > INT_MAX then Err(Trap)
    else if offset + size.value > fileSize then Err(MmapErr(MmapInvalidSize))
    else Ok(Window(offset, size.value, fileSize))
  }

  /** With the size omitted, the window reaches exactly to the end of the file only
      when it starts at byte 0. */
  lemma OmittedSizeIsFileSize(present: bool, fileSize: nat, offset: int)
    requires OpenWindow(present, fileSize, offset, None).Ok?
    ensures var w := OpenWindow(present, fileSize, offset, None).value;
            w.size == fileSize && (w.offset + w.size == fileSize <==> offset == 0)
  {}

  class MmapFile {
    const file: File
    const offset: nat
    const size: nat
    const fileSize: nat

    /** The window lies inside the file, as every window `Open` returns does while the
        file only grows. */
    predicate Valid()
      reads file
    {
      offset + size <= |file.bytes| && size <= INT_MAX
    }

    /** The mapped bytes. */
    function Memory(): (r: seq<u8>)
      reads file
      requires Valid()
      ensures |r| == size
    {
      file.bytes[offset..offset + size]
    }

    /** The mapped bytes read as words. */
    function Contents(): (r: seq<u64>)
      reads file
      requires Valid()
      ensures |r| == size / 8
    {
      Words(Memory())
    }

    constructor (file: File, w: Window)
      ensures this.file == file && offset == w.offset && size == w.size && fileSize == w.fileSize
    {
      this.file := file;
      offset := w.offset;
      size := w.size;
      fileSize := w.fileSize;
    }

    /** `MmapFile.init(url, offset:, size:)`. The mapping itself is taken to succeed. */
    static method Open(file: File, offset: int, size: Option<nat>) returns (r: Result<MmapFile>)
      requires file.Valid()
      requires size.None? ==> offset <= 0
      ensures r.Err? <==> OpenWindow(file.present, |file.bytes|, offset, size).Err?
      ensures r.Err? ==> r.error == OpenWindow(file.present, |file.bytes|, offset, size).error
      ensures r.Ok? ==> fresh(r.value) && r.value.file == file && r.value.Valid()
                        && Window(r.value.offset, r.value.size, r.value.fileSize)
                           == OpenWindow(file.present, |file.bytes|, offset, size).value
    {
      var w := OpenWindow(file.present, |file.bytes|, offset, size);
      if w.Err? {
        return Err(w.error);
      }
      var m := new MmapFile(file, w.value);
      return Ok(m);
    }

    /** The two guards of the private byte accessors. For a positive length the first
        guard is implied by the second: the access lies wholly inside the window. */
    predicate InBounds(byteOffset: int, length: int)
      ensures length > 0 ==> (InBounds(byteOffset, length) <==> 0 <= byteOffset && byteOffset + length <= size)
    {
      0 <= byteOffset < size && 0 <= byteOffset + length <= size
    }

    /** `set(byteOffset:to:)`: a native (little-endian) store of 8 bytes, then `msync`,
        which is taken to succeed. */
    method SetByteOffset(byteOffset: int, v: u64) returns (r: Result<()>)
      requires Valid()
      modifies file`bytes
      ensures Valid()
      ensures InBounds(byteOffset, 8) ==>
                r == Ok(()) && file.bytes == Overwrite(old(file.bytes), offset + byteOffset, EncodeLE(v))
      ensures !InBounds(byteOffset, 8) ==>
                r == Err(MmapErr(MmapOutOfBounds)) && file.bytes == old(file.bytes)
    {
      if !(0 <= byteOffset < size) {
        return Err(MmapErr(MmapOutOfBounds));
      }
      if !(0 <= byteOffset + 8 <= size) {
        return Err(MmapErr(MmapOutOfBounds));
      }
      file.bytes := Overwrite(file.bytes, offset + byteOffset, EncodeLE(v));
      return Ok(());
    }

    /** `get(byteOffset:length:)`: the guards use `length`, the load always reads 8
        bytes, so a length of at least 8 keeps the load inside the window (the word
        accessor passes 8). */
    method GetByteOffset(byteOffset: int, length: int) returns (r: Result<u64>)
      requires Valid() && length >= 8
      ensures InBounds(byteOffset, length) ==> r == Ok(DecodeLE(Memory()[byteOffset..byteOffset + 8]))
      ensures !InBounds(byteOffset, length) ==> r == Err(MmapErr(MmapOutOfBounds))
    {
      if !(0 <= byteOffset < size) {
        return Err(MmapErr(MmapOutOfBounds));
      }
      if !(0 <= byteOffset + length <= size) {
        return Err(MmapErr(MmapOutOfBounds));
      }
      return Ok(DecodeLE(Memory()[byteOffset..byteOffset + 8]));
    }

    /** `set(offset:to:)` for one word: a store at byte `8 * o` of the window. It
        succeeds exactly when word `o` is a whole word of the window, and then it
        replaces that word and no other byte of the file. */
    method SetWord(o: u64, v: u64) returns (r: Result<()>)
      requires Valid() && o <= MAX_WORD_OFFSET
      modifies file`bytes
      ensures Valid()
      ensures o < size / 8 ==>
                r == Ok(()) && file.bytes == Overwrite(old(file.bytes), offset + 8 * o, EncodeLE(v))
                && Contents() == old(Contents())[o := v]
      ensures o >= size / 8 ==> r == Err(MmapErr(MmapOutOfBounds)) && file.bytes == old(file.bytes)
    {
      ghost var before := file.bytes;
      r := SetByteOffset(8 * o, v);
      if r.Ok? {
        StoredWord(before, offset, size, o, v);
      }
    }

    /** `get(offset:)` for one word: word `o` of the window, or `outOfBounds`. */
    method GetWord(o: u64) returns (r: Result<u64>)
      requires Valid() && o <= MAX_WORD_OFFSET
      ensures r == if o < |Contents()| then Ok(Contents()[o]) else Err(MmapErr(MmapOutOfBounds))
    {
      r := GetByteOffset(8 * o, 8);
    }

    /** How many of `n` words from word `o` the window holds. */
    function Fit(o: nat, n: nat): (k: nat)
      ensures k <= n && (k > 0 ==> o + k <= size / 8)
      ensures k < n ==> o + k >= size / 8
    {
      if o >= size / 8 then 0 else Min(n, size / 8 - o)
    }

    /** `set(offset:to:)` for many words: `values[k]` goes to word `o + k` in
        ascending order; at the first word outside the window it fails and the words
        already stored stay stored. */
    method SetWords(o: u64, values: seq<u64>) returns (r: Result<()>)
      requires Valid() && o <= MAX_WORD_OFFSET
      modifies file`bytes
      ensures Valid()
      ensures r == if Fit(o, |values|) == |values| then Ok(()) else Err(MmapErr(MmapOutOfBounds))
      ensures Fit(o, |values|) == 0 ==> file.bytes == old(file.bytes)
      ensures Fit(o, |values|) > 0 ==>
                file.bytes == Overwrite(old(file.bytes), offset + 8 * o, EncodeWords(values[..Fit(o, |values|)]))
                && Contents() == Patch(old(Contents()), o, values[..Fit(o, |values|)])
    {
      ghost var n := Fit(o, |values|);
      ghost var before := old(file.bytes);
      r := Ok(());
      var k := 0;
      while k < |values|
        invariant 0 <= k <= n
        invariant |file.bytes| == |before| && Valid()
        invariant k == 0 ==> file.bytes == before
        invariant k > 0 ==> file.bytes == Overwrite(before, offset + 8 * o, EncodeWords(values[..k]))
        invariant r == Ok(())
      {
        ghost var prev := file.bytes;
        var step := SetWord(o + k, values[k]);
        if step.Err? {
          r := step;
          break;
        }
        StoreNext(before, offset + 8 * o, values, k, prev);
        k := k + 1;
      }
      assert k == n;
      if n > 0 {
        StoredWords(before, o, values[..n]);
      }
    }

    /** One more word stored after `values[..k]` extends the stored prefix. */
    static lemma StoreNext(before: seq<u8>, p: nat, values: seq<u64>, k: nat, now: seq<u8>)
      requires k < |values| && p + 8 * (k + 1) <= |before|
      requires k == 0 ==> now == before
      requires k > 0 ==> now == Overwrite(before, p, EncodeWords(values[..k]))
      ensures Overwrite(now, p + 8 * k, EncodeLE(values[k]))
              == Overwrite(before, p, EncodeWords(values[..k + 1]))
    {
      assert values[..k + 1] == values[..k] + [values[k]];
      EncodeWordsAppend(values[..k], values[k]);
      if k == 0 {
        assert values[..k] == [];
        assert EncodeWords(values[..k + 1]) == EncodeLE(values[k]);
      } else {
        OverwriteThenOverwrite(before, p, EncodeWords(values[..k]), EncodeLE(values[k]));
      }
    }

    /** Stores of whole words inside the window patch the window's word view. */
    lemma StoredWords(before: seq<u8>, o: nat, vs: seq<u64>)
      requires offset + size <= |before| && 8 * (o + |vs|) <= size
      ensures Words(Overwrite(before, offset + 8 * o, EncodeWords(vs))[offset..offset + size])
              == Patch(Words(before[offset..offset + size]), o, vs)
    {
      WindowStore(before, offset, size, o, EncodeWords(vs));
      WordsOverwrite(before[offset..offset + size], o, vs);
    }

    /** `get(offset:length:)`: the `length` words from word `o`, in order, or the
        error of the first word outside the window. */
    method GetWords(o: u64, length: u64) returns (r: Result<seq<u64>>)
      requires Valid() && o <= MAX_WORD_OFFSET
      ensures r == if length == 0 then Ok([])
                   else if o + length <= |Contents()| then Ok(Contents()[o..o + length])
                   else Err(MmapErr(MmapOutOfBounds))
    {
      var results: seq<u64> := [];
      var index: u64 := 0;
      while index < length
        invariant index <= length
        invariant index > 0 ==> o + index <= |Contents()|
        invariant results == if index == 0 then [] else Contents()[o..o + index]
      {
        var word := GetWord(o + index);
        if word.Err? {
          return Err(word.error);
        }
        results := results + [word.value];
        index := index + 1;
      }
      return Ok(results);
    }
  }

  /** A store at word `o` of a window is a store at word `o` of the window's bytes. */
  lemma WindowStore(before: seq<u8>, off: nat, size: nat, o: nat, e: seq<u8>)
    requires off + size <= |before| && 8 * o + |e| <= size
    ensures Overwrite(before, off + 8 * o, e)[off..off + size] == Overwrite(before[off..off + size], 8 * o, e)
  {
    OverwriteWindow(before, off, size, 8 * o, e);
  }

  /** A store of one word inside a window replaces that word of the window's view. */
  lemma StoredWord(before: seq<u8>, off: nat, size: nat, o: nat, v: u64)
    requires off + size <= |before| && 8 * o + 8 <= size
    ensures Words(Overwrite(before, off + 8 * o, EncodeLE(v))[off..off + size])
            == Words(before[off..off + size])[o := v]
  {
    WindowStore(before, off, size, o, EncodeLE(v));
    WordsOverwriteOne(before[off..off + size], o, v);
  }

  /** Storing `v` at word `o` and loading word `o` gives `v` back. */
  lemma SetThenGet(m: MmapFile, before: seq<u8>, o: nat, v: u64)
    requires m.offset + m.size <= |before| && o < m.size / 8
    ensures Words(Overwrite(before, m.offset + 8 * o, EncodeLE(v))[m.offset..m.offset + m.size])[o] == v
  {
    OverwriteWindow(before, m.offset, m.size, 8 * o, EncodeLE(v));
    WordsOverwriteOne(before[m.offset..m.offset + m.size], o, v);
  }
}
