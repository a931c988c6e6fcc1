/** Files as byte sequences, the little-endian word encoding the stores write with
    `DatableConfig.endianess = .little`, and the word view of a byte sequence. */
module Files {
  import opened Ints

  /** A file at a fixed path. A file that is not present has no bytes. Both stores
      and the mapped windows act on the one `bytes` sequence, as `MAP_SHARED`
      mappings and descriptors over the same path do. */
  class File {
    const path: string
    var present: bool
    var bytes: seq<u8>

    constructor (path: string, present: bool, bytes: seq<u8>)
      requires (present || bytes == []) && |bytes| <= INT_MAX
      ensures this.path == path && this.present == present && this.bytes == bytes
    {
      this.path := path;
      this.present := present;
      this.bytes := bytes;
    }

    /** What a file-system object satisfies: an absent file is empty, and a size fits
        Foundation's `Int`. */
    predicate Valid()
      reads this
    {
      (present || bytes == []) && |bytes| <= INT_MAX
    }

    /** `FileDescriptor.open(path, .readWrite, options: [.create, ...])`: a missing file
        is created empty; an existing one is left as it is. */
    method OpenCreating()
      requires Valid()
      modifies this
      ensures Valid() && present && bytes == old(bytes)
      ensures old(present) ==> unchanged(this)
    {
      present := true;
    }

    /** `writeAll` at the end of an open file: the bytes are appended. */
    method AppendBytes(d: seq<u8>)
      requires Valid() && present && |bytes| + |d| <= INT_MAX
      modifies this`bytes
      ensures Valid() && present && bytes == old(bytes) + d
    {
      bytes := bytes + d;
    }
  }

  // ------------------------------------------------------- byte sequences

  function Zeros(n: nat): (r: seq<u8>)
    ensures |r| == n && forall k :: 0 <= k < n ==> r[k] == 0
  {
    seq(n, _ => 0)
  }

  /** Replacing `|d|` bytes of `b` at `p`, inside `b` (a store into a mapping). */
  function Overwrite(b: seq<u8>, p: nat, d: seq<u8>): (r: seq<u8>)
    requires p + |d| <= |b|
    ensures |r| == |b|
    ensures r[p..p + |d|] == d
    ensures forall k :: 0 <= k < |b| && !(p <= k < p + |d|) ==> r[k] == b[k]
  {
    b[..p] + d + b[p + |d|..]
  }

  /** `seek(p)` then `writeAll(d)` on a descriptor: a write past the end first fills the
      gap with zero bytes, and the file grows as far as the write reaches. */
  function WriteAt(b: seq<u8>, p: nat, d: seq<u8>): (r: seq<u8>)
    ensures |r| == Max(|b|, p + |d|)
    ensures r[p..p + |d|] == d
  {
    var padded := if p <= |b| then b else b + Zeros(p - |b|);
    padded[..p] + d + padded[Min(p + |d|, |padded|)..]
  }

  /** Outside the written bytes the file keeps its old bytes, and the gap a write past
      the end leaves reads as zeros. */
  lemma WriteAtKeeps(b: seq<u8>, p: nat, d: seq<u8>)
    ensures forall k :: 0 <= k < |b| && !(p <= k < p + |d|) ==> WriteAt(b, p, d)[k] == b[k]
    ensures forall k :: |b| <= k < p ==> WriteAt(b, p, d)[k] == 0
  {}

  /** The bytes a `read` of at most `n` bytes at `p` delivers. */
  function ReadAt(b: seq<u8>, p: nat, n: nat): (r: seq<u8>)
    ensures |r| <= n
    ensures p + |r| <= |b| || r == []
    ensures p < |b| ==> r == b[p..Min(p + n, |b|)]
  {
    if p >= |b| then [] else b[p..Min(p + n, |b|)]
  }

  lemma WriteAtInside(b: seq<u8>, p: nat, d: seq<u8>)
    requires p + |d| <= |b|
    ensures WriteAt(b, p, d) == Overwrite(b, p, d)
  {}

  lemma OverwriteThenOverwrite(b: seq<u8>, p: nat, d1: seq<u8>, d2: seq<u8>)
    requires p + |d1| + |d2| <= |b|
    ensures Overwrite(Overwrite(b, p, d1), p + |d1|, d2) == Overwrite(b, p, d1 + d2)
  {
    var l := Overwrite(Overwrite(b, p, d1), p + |d1|, d2);
    var r := Overwrite(b, p, d1 + d2);
    forall k | 0 <= k < |b| ensures l[k] == r[k] {
      if p <= k < p + |d1| {
        assert l[k] == Overwrite(b, p, d1)[k];
        assert Overwrite(b, p, d1)[p..p + |d1|][k - p] == d1[k - p];
        assert r[p..p + |d1| + |d2|][k - p] == (d1 + d2)[k - p];
      } else if p + |d1| <= k < p + |d1| + |d2| {
        assert l[p + |d1|..p + |d1| + |d2|][k - p - |d1|] == d2[k - p - |d1|];
        assert r[p..p + |d1| + |d2|][k - p] == (d1 + d2)[k - p];
      }
    }
  }

  /** A store into a window `[off, off + s)` of `B` is a store into that slice, and
      leaves `B` outside the slice alone. */
  lemma OverwriteWindow(B: seq<u8>, off: nat, s: nat, p: nat, d: seq<u8>)
    requires off + s <= |B| && p + |d| <= s
    ensures Overwrite(B, off + p, d)[off..off + s] == Overwrite(B[off..off + s], p, d)
  {
    var l := Overwrite(B, off + p, d)[off..off + s];
    var r := Overwrite(B[off..off + s], p, d);
    forall k | 0 <= k < s ensures l[k] == r[k] {
      if p <= k < p + |d| {
        assert Overwrite(B, off + p, d)[off + p..off + p + |d|][k - p] == d[k - p];
        assert r[p..p + |d|][k - p] == d[k - p];
      }
    }
  }

  // --------------------------------------------- the little-endian codec

  /** 256 to the power `n`. */
  function Pow256(n: nat): (r: nat)
    ensures r >= 1
  {
    if n == 0 then 1 else 0x100 * Pow256(n - 1)
  }

  /** The `n` low bytes of `w`, least significant first. */
  function LEBytes(w: nat, n: nat): (r: seq<u8>)
    ensures |r| == n
  {
    if n == 0 then [] else [w % 0x100] + LEBytes(w / 0x100, n - 1)
  }

  /** The number whose bytes, least significant first, are `b`. */
  function FromLE(b: seq<u8>): (r: nat)
    ensures r < Pow256(|b|)
  {
    if b == [] then 0 else b[0] + 0x100 * FromLE(b[1..])
  }

  lemma {:induction false} FromLEBytes(w: nat, n: nat)
    requires w < Pow256(n)
    ensures FromLE(LEBytes(w, n)) == w
  {
    if n > 0 {
      var b := LEBytes(w, n);
      assert b[1..] == LEBytes(w / 0x100, n - 1);
      FromLEBytes(w / 0x100, n - 1);
    }
  }

  lemma {:induction false} BytesFromLE(b: seq<u8>)
    ensures LEBytes(FromLE(b), |b|) == b
  {
    if b != [] {
      var w := FromLE(b);
      assert w % 0x100 == b[0] && w / 0x100 == FromLE(b[1..]);
      BytesFromLE(b[1..]);
    }
  }

  /** `value.data` under `DatableConfig.endianess = .little`, and the native layout of
      a `UInt64` on the little-endian platforms the package is built for. */
  function EncodeLE(w: u64): (r: seq<u8>)
    ensures |r| == 8
  {
    LEBytes(w, 8)
  }

  /** An 8-byte little-endian load. */
  function DecodeLE(b: seq<u8>): (r: u64)
    requires |b| == 8
  {
    assert Pow256(8) == TWO_64;
    FromLE(b)
  }

  lemma DecodeEncode(w: u64)
    ensures DecodeLE(EncodeLE(w)) == w
  {
    assert Pow256(8) == TWO_64;
    FromLEBytes(w, 8);
  }

  lemma EncodeDecode(b: seq<u8>)
    requires |b| == 8
    ensures EncodeLE(DecodeLE(b)) == b
  {
    BytesFromLE(b);
  }

  /** Byte `k` of the encoding holds bits `8k` to `8k + 7` of the word. */
  lemma EncodeLEBytes(w: u64)
    ensures EncodeLE(w) == [w % 0x100, (w / 0x100) % 0x100, (w / 0x1_0000) % 0x100,
                            (w / 0x100_0000) % 0x100, (w / 0x1_0000_0000) % 0x100,
                            (w / 0x100_0000_0000) % 0x100, (w / 0x1_0000_0000_0000) % 0x100,
                            (w / 0x100_0000_0000_0000) % 0x100]
  {
    var w1, w2, w3 := w / 0x100, w / 0x1_0000, w / 0x100_0000;
    var w4, w5, w6, w7 := w / 0x1_0000_0000, w / 0x100_0000_0000, w / 0x1_0000_0000_0000, w / 0x100_0000_0000_0000;
    assert w1 / 0x100 == w2 && w2 / 0x100 == w3 && w3 / 0x100 == w4;
    assert w4 / 0x100 == w5 && w5 / 0x100 == w6 && w6 / 0x100 == w7;
    assert LEBytes(w7, 1) == [w7 % 0x100] + LEBytes(w7 / 0x100, 0);
    assert LEBytes(w6, 2) == [w6 % 0x100] + LEBytes(w7, 1);
    assert LEBytes(w5, 3) == [w5 % 0x100] + LEBytes(w6, 2);
    assert LEBytes(w4, 4) == [w4 % 0x100] + LEBytes(w5, 3);
    assert LEBytes(w3, 5) == [w3 % 0x100] + LEBytes(w4, 4);
    assert LEBytes(w2, 6) == [w2 % 0x100] + LEBytes(w3, 5);
    assert LEBytes(w1, 7) == [w1 % 0x100] + LEBytes(w2, 6);
    assert LEBytes(w, 8) == [w % 0x100] + LEBytes(w1, 7);
  }

  /** The bytes of `ws` written one after another. */
  function EncodeWords(ws: seq<u64>): (r: seq<u8>)
    ensures |r| == 8 * |ws|
  {
    if ws == [] then [] else EncodeWords(ws[..|ws| - 1]) + EncodeLE(ws[|ws| - 1])
  }

  /** Word `i` of `ws` is encoded at bytes `8i` to `8i + 7`. */
  lemma {:induction false} EncodeWordsSlice(ws: seq<u64>, i: nat)
    requires i < |ws|
    ensures EncodeWords(ws)[8 * i..8 * i + 8] == EncodeLE(ws[i])
    decreases |ws|
  {
    var front := EncodeWords(ws[..|ws| - 1]);
    if i < |ws| - 1 {
      EncodeWordsSlice(ws[..|ws| - 1], i);
      assert (front + EncodeLE(ws[|ws| - 1]))[8 * i..8 * i + 8] == front[8 * i..8 * i + 8];
    } else {
      assert (front + EncodeLE(ws[|ws| - 1]))[8 * i..8 * i + 8] == EncodeLE(ws[i]);
    }
  }

  lemma EncodeWordsAppend(ws: seq<u64>, v: u64)
    ensures EncodeWords(ws + [v]) == EncodeWords(ws) + EncodeLE(v)
  {
    assert (ws + [v])[..|ws|] == ws;
  }

  lemma {:induction false} EncodeWordsConcat(a: seq<u64>, b: seq<u64>)
    ensures EncodeWords(a + b) == EncodeWords(a) + EncodeWords(b)
    decreases |b|
  {
    if b == [] {
      assert a + b == a;
    } else {
      var front, v := b[..|b| - 1], b[|b| - 1];
      calc {
        EncodeWords(a + b);
        == { assert (a + b)[..|a + b| - 1] == a + front; }
        EncodeWords(a + front) + EncodeLE(v);
        == { EncodeWordsConcat(a, front); }
        (EncodeWords(a) + EncodeWords(front)) + EncodeLE(v);
        EncodeWords(a) + (EncodeWords(front) + EncodeLE(v));
        EncodeWords(a) + EncodeWords(b);
      }
    }
  }

  // -------------------------------------------------------- the word view

  /** The complete little-endian words of `b`; a trailing partial word is not one. */
  function Words(b: seq<u8>): (r: seq<u64>)
    ensures |r| == |b| / 8
  {
    seq(|b| / 8, i requires 0 <= i < |b| / 8 => DecodeLE(b[8 * i..8 * i + 8]))
  }

  /** `ws` with `|vs|` words replaced by `vs` from position `o`. */
  function Patch(ws: seq<u64>, o: nat, vs: seq<u64>): (r: seq<u64>)
    requires o + |vs| <= |ws|
    ensures |r| == |ws|
    ensures forall i :: 0 <= i < |vs| ==> r[o + i] == vs[i]
    ensures forall i :: 0 <= i < |ws| && !(o <= i < o + |vs|) ==> r[i] == ws[i]
  {
    ws[..o] + vs + ws[o + |vs|..]
  }

  lemma WordsOfEncode(ws: seq<u64>)
    ensures Words(EncodeWords(ws)) == ws
  {
    var b := EncodeWords(ws);
    forall i | 0 <= i < |ws| ensures Words(b)[i] == ws[i] {
      assert Words(b)[i] == DecodeLE(b[8 * i..8 * i + 8]);
      EncodeWordsSlice(ws, i);
      DecodeEncode(ws[i]);
    }
  }

  /** The 8 bytes at word `i` of `b + c` come from `b` while `i` is a word of `b`. */
  lemma WordSliceOfConcat(b: seq<u8>, c: seq<u8>, i: nat)
    requires 8 * i + 8 <= |b|
    ensures (b + c)[8 * i..8 * i + 8] == b[8 * i..8 * i + 8]
  {}

  /** Appending one encoded word to a word-aligned file appends that word. */
  lemma WordsAppendOne(b: seq<u8>, v: u64)
    requires |b| % 8 == 0
    ensures Words(b + EncodeLE(v)) == Words(b) + [v]
  {
    var c := b + EncodeLE(v);
    forall i | 0 <= i < |b| / 8 ensures Words(c)[i] == Words(b)[i] {
      WordSliceOfConcat(b, EncodeLE(v), i);
    }
    assert 8 * (|b| / 8) == |b|;
    assert c[|b|..|b| + 8] == EncodeLE(v);
    DecodeEncode(v);
  }

  /** Appending encoded words to a word-aligned file appends those words. */
  lemma {:induction false} WordsAppend(b: seq<u8>, ws: seq<u64>)
    requires |b| % 8 == 0
    ensures Words(b + EncodeWords(ws)) == Words(b) + ws
    decreases |ws|
  {
    if ws == [] {
      assert b + EncodeWords(ws) == b;
    } else {
      var front := ws[..|ws| - 1];
      var v := ws[|ws| - 1];
      assert ws == front + [v];
      EncodeWordsAppend(front, v);
      assert b + EncodeWords(ws) == (b + EncodeWords(front)) + EncodeLE(v);
      WordsAppend(b, front);
      WordsAppendOne(b + EncodeWords(front), v);
    }
  }

  /** The 8 bytes at word `i` are untouched by a store that does not reach them. */
  lemma WordSliceOfOverwrite(b: seq<u8>, p: nat, d: seq<u8>, i: nat)
    requires p + |d| <= |b| && 8 * i + 8 <= |b|
    requires 8 * i + 8 <= p || p + |d| <= 8 * i
    ensures Overwrite(b, p, d)[8 * i..8 * i + 8] == b[8 * i..8 * i + 8]
  {
    var c := Overwrite(b, p, d);
    forall j | 8 * i <= j < 8 * i + 8 ensures c[j] == b[j] {}
    assert c[8 * i..8 * i + 8] == b[8 * i..8 * i + 8];
  }

  /** Storing one encoded word at word `o` inside `b` replaces word `o`. */
  lemma WordsOverwriteOne(b: seq<u8>, o: nat, v: u64)
    requires 8 * o + 8 <= |b|
    ensures Words(Overwrite(b, 8 * o, EncodeLE(v))) == Words(b)[o := v]
  {
    var c := Overwrite(b, 8 * o, EncodeLE(v));
    forall i | 0 <= i < |b| / 8 && i != o ensures Words(c)[i] == Words(b)[i] {
      WordSliceOfOverwrite(b, 8 * o, EncodeLE(v), i);
    }
    DecodeEncode(v);
  }

  lemma PatchThenPatch(ws: seq<u64>, o: nat, vs: seq<u64>, v: u64)
    requires o + |vs| + 1 <= |ws|
    ensures Patch(ws, o, vs)[o + |vs| := v] == Patch(ws, o, vs + [v])
  {}

  /** Storing encoded words at a word boundary inside `b` patches the word view. */
  lemma {:induction false} WordsOverwrite(b: seq<u8>, o: nat, vs: seq<u64>)
    requires 8 * (o + |vs|) <= |b|
    ensures Words(Overwrite(b, 8 * o, EncodeWords(vs))) == Patch(Words(b), o, vs)
    decreases |vs|
  {
    if vs == [] {
      assert Overwrite(b, 8 * o, []) == b;
      assert Patch(Words(b), o, []) == Words(b);
    } else {
      var front := vs[..|vs| - 1];
      var v := vs[|vs| - 1];
      assert vs == front + [v];
      var e := EncodeWords(front);
      var mid := Overwrite(b, 8 * o, e);
      var p := o + |front|;
      assert Overwrite(b, 8 * o, EncodeWords(vs)) == Overwrite(mid, 8 * p, EncodeLE(v)) by {
        EncodeWordsAppend(front, v);
        OverwriteThenOverwrite(b, 8 * o, e, EncodeLE(v));
      }
      assert Words(mid) == Patch(Words(b), o, front) by {
        WordsOverwrite(b, o, front);
      }
      assert Words(Overwrite(mid, 8 * p, EncodeLE(v))) == Words(mid)[p := v] by {
        WordsOverwriteOne(mid, p, v);
      }
      assert Patch(Words(b), o, front)[p := v] == Patch(Words(b), o, vs) by {
        PatchThenPatch(Words(b), o, front, v);
      }
    }
  }
}
