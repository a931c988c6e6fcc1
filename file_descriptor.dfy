/** The `FileDescriptor` extension of the streamed store: words addressed from the
    start of the file (word `i` at byte `8i`), reached by seeking and then reading or
    writing. The word codec is Datable's `maybeNetworkData`, which is not part of
    this model; it is a parameter. Every access seeks first, so the position of the
    descriptor is not modelled as state. */
module FileDescriptorExtension {
  import opened Ints
  import opened Errors
  import opened Files

  /** `UInt64.maybeNetworkData` and `UInt64(maybeNetworkData:)`: either may fail. */
  datatype WireCodec = WireCodec(encode: u64 -> Option<seq<u8>>, decode: seq<u8> -> Option<u64>)

  /** A codec that always encodes a word as 8 bytes and decodes those bytes back. */
  predicate Faithful(c: WireCodec) {
    forall v: u64 {:trigger c.encode(v)} ::
      c.encode(v).Some? && |c.encode(v).value| == 8 && c.decode(c.encode(v).value) == Some(v)
  }

  /** The buffer `load` returns: `Data(count: n)` is zero-filled, and `read(into:)`
      overwrites its front with what the file delivers; the count read is ignored. */
  function Loaded(b: seq<u8>, p: nat, n: nat): (r: seq<u8>)
    ensures |r| == n
  {
    var delivered := ReadAt(b, p, n);
    delivered + Zeros(n - |delivered|)
  }

  /** Byte `k` of the buffer is the file's byte at `p + k`, or zero past its end. */
  lemma LoadedBytes(b: seq<u8>, p: nat, n: nat)
    ensures forall k :: 0 <= k < n ==> Loaded(b, p, n)[k] == (if p + k < |b| then b[p + k] else 0)
  {}

  /** What `get(byteOffset:length:)` yields for a non-negative byte offset. */
  function ReadAtByte(b: seq<u8>, p: nat, c: WireCodec): Result<u64> {
    match c.decode(Loaded(b, p, 8))
    case None => Err(DescriptorErr(DataConversionFailed))
    case Some(v) => Ok(v)
  }

  /** What `get(offset:)` yields: the word at byte `8 * o`. */
  function ReadWord(b: seq<u8>, o: nat, c: WireCodec): Result<u64> {
    ReadAtByte(b, 8 * o, c)
  }

  /** `prefix` put in front of a successful result; an error passes through. */
  function Prepend(prefix: seq<u64>, r: Result<seq<u64>>): Result<seq<u64>> {
    if r.Ok? then Ok(prefix + r.value) else r
  }

  lemma PrependNothing(r: Result<seq<u64>>)
    ensures Prepend([], r) == r
  {
    if r.Ok? {
      assert [] + r.value == r.value;
    }
  }

  /** What `get(offset:length:)` yields: the words at `o, o + 1, ...` in order, or else
      the error of the first word that fails. */
  function ReadWords(b: seq<u8>, o: nat, n: nat, c: WireCodec): (r: Result<seq<u64>>)
    ensures r.Ok? ==> |r.value| == n
    decreases n
  {
    if n == 0 then Ok([])
    else match ReadWord(b, o, c)
      case Err(e) => Err(e)
      case Ok(v) => Prepend([v], ReadWords(b, o + 1, n - 1, c))
  }

  /** A successful multi-word read holds, at position `k`, what a single read of word
      `o + k` returns. */
  lemma {:induction false} ReadWordsAt(b: seq<u8>, o: nat, n: nat, c: WireCodec)
    ensures ReadWords(b, o, n, c).Ok? ==>
              forall k :: 0 <= k < n ==> ReadWord(b, o + k, c) == Ok(ReadWords(b, o, n, c).value[k])
    decreases n
  {
    var r := ReadWords(b, o, n, c);
    if n > 0 && r.Ok? {
      var rest := ReadWords(b, o + 1, n - 1, c);
      ReadWordsAt(b, o + 1, n - 1, c);
      forall k | 0 <= k < n
        ensures ReadWord(b, o + k, c) == Ok(r.value[k])
      {
        if k > 0 {
          assert r.value[k] == rest.value[k - 1];
          assert o + 1 + (k - 1) == o + k;
        }
      }
    }
  }

  /** Reading word `i` of `n`, which yields `word`, either stops the run with that
      word's error or moves the word from the remaining reads to the results. */
  lemma ReadNext(b: seq<u8>, o: nat, n: nat, i: nat, c: WireCodec, results: seq<u64>, word: Result<u64>)
    requires i < n && word == ReadWord(b, o + i, c)
    ensures word.Err? ==> Prepend(results, ReadWords(b, o + i, n - i, c)) == Err(word.error)
    ensures word.Ok? ==>
              Prepend(results, ReadWords(b, o + i, n - i, c))
              == Prepend(results + [word.value], ReadWords(b, o + i + 1, n - (i + 1), c))
  {
    var rest := ReadWords(b, o + i + 1, n - (i + 1), c);
    if word.Ok? && rest.Ok? {
      assert results + ([word.value] + rest.value) == (results + [word.value]) + rest.value;
    }
  }

  /** The file after `set(byteOffset:to:)` and its outcome. */
  function WriteAtByte(b: seq<u8>, p: int, v: u64, c: WireCodec): (seq<u8>, Result<()>) {
    if p < 0 then (b, Err(DescriptorErr(DescriptorOutOfBounds)))
    else match c.encode(v)
      case None => (b, Err(DescriptorErr(DataConversionFailed)))
      case Some(data) => (WriteAt(b, p, data), Ok(()))
  }

  /** The file after `set(offset:to:)` for many words and its outcome: `values[k]` is
      written at word `o + k` in order, stopping at the first failure. */
  function WriteWords(b: seq<u8>, o: nat, values: seq<u64>, c: WireCodec): (seq<u8>, Result<()>)
    decreases |values|
  {
    if values == [] then (b, Ok(()))
    else
      var (b', r) := WriteAtByte(b, 8 * o, values[0], c);
      if r.Err? then (b, r) else WriteWords(b', o + 1, values[1..], c)
  }

  /** Writing word `k` of a run, which leaves `after` with outcome `step`, either stops
      the run with its error and the file as it was, or leaves the words after `k` to
      be written to `after`. */
  lemma WriteNext(b: seq<u8>, o: nat, values: seq<u64>, k: nat, c: WireCodec, after: seq<u8>, step: Result<()>)
    requires k < |values| && (after, step) == WriteAtByte(b, 8 * (o + k), values[k], c)
    ensures step.Err? ==> WriteWords(b, o + k, values[k..], c) == (b, step)
    ensures step.Ok? ==> WriteWords(b, o + k, values[k..], c) == WriteWords(after, o + k + 1, values[k + 1..], c)
  {
    assert values[k..][1..] == values[k + 1..];
  }

  class Descriptor {
    const file: File
    const codec: WireCodec

    constructor (file: File, codec: WireCodec)
      ensures this.file == file && this.codec == codec
    {
      this.file := file;
      this.codec := codec;
    }

    /** `storeBytes(of:toByteOffset:)`: seek from the start, then `writeAll`. */
    method StoreBytes(data: seq<u8>, toByteOffset: nat)
      modifies file`bytes
      ensures file.bytes == WriteAt(old(file.bytes), toByteOffset, data)
    {
      file.bytes := WriteAt(file.bytes, toByteOffset, data);
    }

    /** `load(fromByteOffset:length:)`: bytes the file does not have stay zero. */
    method Load(fromByteOffset: nat, length: nat) returns (buffer: seq<u8>)
      ensures |buffer| == length
      ensures forall k :: 0 <= k < length ==>
                buffer[k] == (if fromByteOffset + k < |file.bytes| then file.bytes[fromByteOffset + k] else 0)
    {
      buffer := Zeros(length);
      var delivered := ReadAt(file.bytes, fromByteOffset, length);
      buffer := delivered + buffer[|delivered|..];
      LoadedBytes(file.bytes, fromByteOffset, length);
      assert buffer == Loaded(file.bytes, fromByteOffset, length);
    }

    /** `set(byteOffset:to:)`: the only check is the lower bound; an encoding failure
        is reported before anything is written. */
    method SetByteOffset(byteOffset: int, v: u64) returns (r: Result<()>)
      modifies file`bytes
      ensures (file.bytes, r) == WriteAtByte(old(file.bytes), byteOffset, v, codec)
    {
      if byteOffset < 0 {
        return Err(DescriptorErr(DescriptorOutOfBounds));
      }
      var data := codec.encode(v);
      if data.None? {
        return Err(DescriptorErr(DataConversionFailed));
      }
      StoreBytes(data.value, byteOffset);
      return Ok(());
    }

    /** `get(byteOffset:length:)`: the lower-bound check, then an 8-byte `load`; the
        `length` argument is not used. */
    method GetByteOffset(byteOffset: int, length: int) returns (r: Result<u64>)
      ensures byteOffset < 0 ==> r == Err(DescriptorErr(DescriptorOutOfBounds))
      ensures byteOffset >= 0 ==> r == ReadAtByte(file.bytes, byteOffset, codec)
    {
      if byteOffset < 0 {
        return Err(DescriptorErr(DescriptorOutOfBounds));
      }
      var data := Load(byteOffset, 8);
      assert data == Loaded(file.bytes, byteOffset, 8);
      var word := codec.decode(data);
      if word.None? {
        return Err(DescriptorErr(DataConversionFailed));
      }
      return Ok(word.value);
    }

    /** `set(offset:to:)` for one word, at byte `8 * o` from the start of the file. */
    method SetWord(o: u64, v: u64) returns (r: Result<()>)
      requires o <= MAX_WORD_OFFSET
      modifies file`bytes
      ensures (file.bytes, r) == WriteAtByte(old(file.bytes), 8 * o, v, codec)
    {
      r := SetByteOffset(8 * o, v);
    }

    /** `get(offset:)` for one word. */
    method GetWord(o: u64) returns (r: Result<u64>)
      requires o <= MAX_WORD_OFFSET
      ensures r == ReadWord(file.bytes, o, codec)
    {
      r := GetByteOffset(8 * o, 8);
    }

    /** `set(offset:to:)` for many words. */
    method SetWords(o: u64, values: seq<u64>) returns (r: Result<()>)
      requires o + |values| <= MAX_WORD_OFFSET + 1
      modifies file`bytes
      ensures (file.bytes, r) == WriteWords(old(file.bytes), o, values, codec)
    {
      ghost var outcome := WriteWords(file.bytes, o, values, codec);
      var k: nat := 0;
      while k < |values|
        invariant k <= |values|
        invariant outcome == WriteWords(file.bytes, o + k, values[k..], codec)
      {
        ghost var before := file.bytes;
        var step := SetWord(o + k, values[k]);
        WriteNext(before, o, values, k, codec, file.bytes, step);
        if step.Err? {
          return step;
        }
        k := k + 1;
      }
      return Ok(());
    }

    /** `get(offset:length:)`. */
    method GetWords(o: u64, length: u64) returns (r: Result<seq<u64>>)
      requires o + length <= MAX_WORD_OFFSET + 1
      ensures r == ReadWords(file.bytes, o, length, codec)
    {
      ghost var b := file.bytes;
      ghost var outcome := ReadWords(b, o, length, codec);
      var results: seq<u64> := [];
      var index: nat := 0;
      PrependNothing(outcome);
      while index < length
        invariant index <= length && |results| == index
        invariant outcome == Prepend(results, ReadWords(b, o + index, length - index, codec))
      {
        var word := GetWord(o + index);
        ReadNext(b, o, length, index, codec, results, word);
        if word.Err? {
          return Err(word.error);
        }
        results := results + [word.value];
        index := index + 1;
      }
      assert results + [] == results;
      return Ok(results);
    }
  }

  /** A write at `p` followed by a load of the same bytes returns what was written. */
  lemma LoadAfterWrite(b: seq<u8>, p: nat, d: seq<u8>)
    ensures Loaded(WriteAt(b, p, d), p, |d|) == d
  {}

  /** With a faithful codec, the word read back at `o` is the word just set there. */
  lemma GetAfterSet(b: seq<u8>, o: nat, v: u64, c: WireCodec)
    requires Faithful(c)
    ensures ReadWord(WriteAtByte(b, 8 * o, v, c).0, o, c) == Ok(v)
  {
    var data := c.encode(v).value;
    LoadAfterWrite(b, 8 * o, data);
  }

  /** A set never shrinks the file, and a set at word `o` leaves every byte outside
      `[8o, 8o + |data|)` as it was. */
  lemma SetKeepsOtherBytes(b: seq<u8>, o: nat, v: u64, c: WireCodec, k: nat)
    requires k < |b|
    requires c.encode(v).Some? ==> !(8 * o <= k < 8 * o + |c.encode(v).value|)
    ensures |WriteAtByte(b, 8 * o, v, c).0| >= |b|
    ensures WriteAtByte(b, 8 * o, v, c).0[k] == b[k]
  {
    if c.encode(v).Some? {
      WriteAtKeeps(b, 8 * o, c.encode(v).value);
    }
  }

  /** Two files that agree on the bytes `[p, p + n)`, which both have, load the same
      buffer from `p`. */
  lemma LoadedAgrees(x: seq<u8>, y: seq<u8>, p: nat, n: nat)
    requires p + n <= |x| && p + n <= |y|
    requires forall k :: p <= k < p + n ==> x[k] == y[k]
    ensures Loaded(x, p, n) == Loaded(y, p, n)
  {
    assert x[p..p + n] == y[p..p + n];
  }

  /** A run of writes never shrinks the file and keeps every byte below its first word. */
  lemma {:induction false} WriteWordsKeepsBelow(b: seq<u8>, o: nat, values: seq<u64>, c: WireCodec)
    ensures |WriteWords(b, o, values, c).0| >= |b|
    ensures forall k :: 0 <= k < |b| && k < 8 * o ==> WriteWords(b, o, values, c).0[k] == b[k]
    decreases |values|
  {
    if values != [] {
      var step := WriteAtByte(b, 8 * o, values[0], c);
      if step.1.Ok? {
        WriteAtKeeps(b, 8 * o, c.encode(values[0]).value);
        WriteWordsKeepsBelow(step.0, o + 1, values[1..], c);
      }
    }
  }

  /** With a faithful codec every write of a run succeeds, and the words read back
      from where the run started are the values written. */
  lemma {:induction false} ReadAfterWriteWords(b: seq<u8>, o: nat, values: seq<u64>, c: WireCodec)
    requires Faithful(c)
    ensures WriteWords(b, o, values, c).1 == Ok(())
    ensures ReadWords(WriteWords(b, o, values, c).0, o, |values|, c) == Ok(values)
    decreases |values|
  {
    if values != [] {
      var after := WriteWords(b, o, values, c).0;
      var data := c.encode(values[0]).value;
      var b1 := WriteAt(b, 8 * o, data);
      assert WriteWords(b, o, values, c) == WriteWords(b1, o + 1, values[1..], c);
      ReadAfterWriteWords(b1, o + 1, values[1..], c);
      WriteWordsKeepsBelow(b1, o + 1, values[1..], c);
      LoadedAgrees(after, b1, 8 * o, 8);
      LoadAfterWrite(b, 8 * o, data);
      assert ReadWord(after, o, c) == Ok(values[0]);
      assert [values[0]] + values[1..] == values;
    }
  }
}
