# Parchment, modelled in Dafny

Parchment keeps arrays of `UInt64` words in files. Each word is stored as 8
little-endian bytes. The value `UInt64.max` is reserved as the "deleted" marker.

## Layers

**Two word stores.** Both are called `ParchmentUnsafe`.
- The mapped store (`Sources/ParchmentMmap`) reads and writes words through a shared
  `mmap` window of the file (`MmapFile`). It writes new words at the end of the file
  through a file descriptor.
- The streamed store (`Sources/ParchmentFile`) reaches every word through a
  `FileDescriptor` extension. That extension seeks to byte `8i`, then reads or writes.

**Collections over the mapped store:**
- a `ManuscriptIndex` of `(offset, length)` pairs;
- `Page`s, ranges of words in a pages file;
- a `RecyclingBin` of deleted ranges;
- a `Manuscript` that hands out pages by number through a cache.

**Helpers:** the `UInt64` extension joins and splits words into 32-, 16- and 8-bit
limbs.

## How the project is organised

Each file is one module. Most modules model one source file. Three are shared
foundations that model no single source file: `Ints`, `Errors` and `Files`. `Pages`
models two source files, and also `Range.overlaps` as `Manuscript.swift` uses it.

| module | file | models |
|---|---|---|
| `Ints` | `ints.dfy` | fixed-width integers and Swift's shifts |
| `Errors` | `errors.dfy` | the error enums, `Option` and `Result` |
| `UInt64Extension` | `uint64_extension.dfy` | `Sources/Parchment/UInt64+Extension.swift` |
| `Files` | `files.dfy` | files as byte sequences; the little-endian word codec |
| `Mmap` | `mmap_file.dfy` | `Sources/Mmap/MmapFile.swift` |
| `FileDescriptorExtension` | `file_descriptor.dfy` | `Sources/ParchmentFile/FileDescriptor+Extension.swift` |
| `ParchmentMmap` | `parchment_mmap.dfy` | `Sources/ParchmentMmap/ParchmentMmap.swift` |
| `ParchmentFile` | `parchment_file.dfy` | `Sources/ParchmentFile/ParchmentFile.swift` |
| `Pages` | `page.dfy` | `Sources/Parchment/Page.swift`, `Sources/ParchmentMmap/NewPage.swift`, and the `overlaps` test of `Sources/ParchmentMmap/Manuscript.swift` |
| `PageIndex` | `manuscript_index.dfy` | `Sources/Parchment/ManuscriptIndex.swift` |
| `Recycling` | `recycling_bin.dfy` | `Sources/ParchmentMmap/RecyclingBin.swift` |
| `Manuscripts` | `manuscript.dfy` | `Sources/ParchmentMmap/Manuscript.swift` |

### Files and windows

A file is a `Files.File` object with three fields:
- its path;
- whether it exists;
- its bytes.

An `MmapFile` window is a view of the bytes `[offset, offset + size)` of that same
object. Stores through the mapping and appends through a descriptor therefore act on
one state, as `MAP_SHARED` makes them do.

### Byte order

The mapped store and the appends use little-endian order, as follows:
- Mapped loads and stores use the native byte order. The package targets only
  little-endian Apple platforms, so that order is little-endian.
- Appends set `DatableConfig.endianess = .little` before calling `.data`.

The streamed store's descriptor extension codes words with Datable's
`maybeNetworkData` instead. That codec is a parameter of the model (`WireCodec`).
Its round trips are proved under the assumption `Faithful(codec)`.

### Traps

A Swift runtime trap (for example an arithmetic overflow) is modelled in one of two
ways:
- When the trap depends on an argument the caller passes, it becomes a `requires`.
  For example, `Int(offset) * 8` needs `offset <= MAX_WORD_OFFSET`.
- When the trap depends on a value read from a file, it becomes the outcome
  `Err(Trap)`. For example, `entry.offset + entry.length` is an addition over index
  entries.

### Behaviour modelled exactly as the code behaves

These behaviours are modelled as written, and the contracts state them:
- `RecyclingBin.ids` is never filled.
- `Manuscript.append` refuses an empty index and persists nothing.
- `Manuscript.endIndex` halves a count that is already halved.
- `contains(offset:)` compares a word index with a size in bytes. A page's own store
  maps `length` words, so `8 * length` bytes. The page is therefore accepted exactly
  when `location + length < 8 * length`, that is when `location < 7 * length`
  (`Pages.PageInitBound`).
- The streamed `append(contentsOf:)` keeps the words written before a sentinel.
- The mapped `append(contentsOf:)` and `grow` check the append guard only after
  writing, and they leave the mapping unrefreshed.

## Model

| member | source | states |
|---|---|---|
| UInt64Extension.Join32 | Sources/Parchment/UInt64+Extension.swift:12-17 | the joined word is `hi * 2^32 + lo`; the shifted limb never overflows |
| UInt64Extension.Join16 | Sources/Parchment/UInt64+Extension.swift:19-28 | the joined word is the positional value of the four 16-bit limbs, most significant first |
| UInt64Extension.Join8 | Sources/Parchment/UInt64+Extension.swift:30-43 | the joined word is the positional value of the eight bytes, most significant first |
| UInt64Extension.Split32Limbs | Sources/Parchment/UInt64+Extension.swift:50-55 | `split()` gives bits 32-63, then bits 0-31 |
| UInt64Extension.Split16Limbs | Sources/Parchment/UInt64+Extension.swift:57-64 | limb `k` of the four holds bits `48-16k` to `63-16k` |
| UInt64Extension.Split8Limbs | Sources/Parchment/UInt64+Extension.swift:66-77 | byte `k` of the eight holds bits `56-8k` to `63-8k` |
| UInt64Extension.JoinSplit32 | Sources/Parchment/UInt64+Extension.swift:50-55 | joining the two halves of a word gives the word back |
| UInt64Extension.SplitJoin32 | Sources/Parchment/UInt64+Extension.swift:12-17 | splitting a joined pair gives the pair back |
| UInt64Extension.JoinSplit16 | Sources/Parchment/UInt64+Extension.swift:57-64 | joining the four limbs of a word gives the word back |
| UInt64Extension.SplitJoin16 | Sources/Parchment/UInt64+Extension.swift:19-28 | splitting four joined limbs gives them back |
| UInt64Extension.JoinSplit8 | Sources/Parchment/UInt64+Extension.swift:66-77 | joining the eight bytes of a word gives the word back |
| UInt64Extension.SplitJoin8 | Sources/Parchment/UInt64+Extension.swift:30-43 | splitting eight joined bytes gives them back |
| UInt64Extension.FromInt64 | Sources/Parchment/UInt64+Extension.swift:45-48 | `init(int64:)` keeps the 64 bits: equal modulo 2^64 |
| UInt64Extension.ToInt64 | Sources/Parchment/UInt64+Extension.swift:79-82 | `.int64` keeps the 64 bits and is negative exactly when bit 63 is set |
| UInt64Extension.Int64RoundTrips | Sources/Parchment/UInt64+Extension.swift:45-82 | the two bit-pattern conversions are inverse in both directions |
| Files.File.OpenCreating | Sources/ParchmentMmap/ParchmentMmap.swift:185 | opening with `.create` makes a missing file exist and empty, and leaves an existing one untouched |
| Files.File.AppendBytes | Sources/ParchmentMmap/ParchmentMmap.swift:176-177 | `writeAll` at the end of the file appends exactly the given bytes |
| Files.WriteAt | Sources/ParchmentFile/FileDescriptor+Extension.swift:83-87 | after the write, the file is long enough and holds the data at the position |
| Files.WriteAtKeeps | Sources/ParchmentFile/FileDescriptor+Extension.swift:83-87 | a write past the end fills the gap with zeros and keeps every byte outside the written range |
| Files.ReadAt | Sources/ParchmentFile/FileDescriptor+Extension.swift:89-102 | `read(into:)` delivers the file's bytes from the position, at most `n`, and nothing at or past the end |
| Files.FromLEBytes | Sources/ParchmentMmap/ParchmentMmap.swift:173-174 | reading back the `n` low bytes of a number below `256^n` gives the number |
| Files.BytesFromLE | Sources/Mmap/MmapFile.swift:145 | the bytes of the number a byte run denotes are that run |
| Files.DecodeEncode | Sources/ParchmentMmap/ParchmentMmap.swift:173-174 | decoding a little-endian word's bytes gives the word back |
| Files.EncodeDecode | Sources/Mmap/MmapFile.swift:145 | encoding the word loaded from eight bytes gives those bytes back |
| Files.EncodeLEBytes | Sources/ParchmentMmap/ParchmentMmap.swift:173-174 | byte `k` of a word's encoding is its `k`-th least significant byte |
| Files.EncodeWordsConcat | Sources/ParchmentMmap/ParchmentMmap.swift:197-203 | writing two runs of words one after the other gives the bytes of the concatenated run |
| Files.WordsOfEncode | Sources/ParchmentMmap/ParchmentMmap.swift:197-203 | the words read from an encoded run are the run |
| Files.WordsAppend | Sources/ParchmentMmap/ParchmentMmap.swift:197-203 | appending a run of words to a whole-word file adds exactly those words to its word view |
| Files.WordsOverwrite | Sources/Mmap/MmapFile.swift:75-82 | storing a run of words in place patches exactly those words of the word view |
| Mmap.OpenWindow | Sources/Mmap/MmapFile.swift:23-64 | the window opens exactly when the offset lies in an existing file and the size fits; each refusal is stated as an if-and-only-if with its error (`invalidOffset`, a missing file, `invalidSize`, and the trap for an end past `Int.max`); an omitted size is the whole file size |
| Mmap.OmittedSizeIsFileSize | Sources/Mmap/MmapFile.swift:61-64 | with the size omitted, the window reaches the end of the file only when it starts at byte 0 |
| Mmap.MmapFile.Open | Sources/Mmap/MmapFile.swift:23-72 | the mapping fails exactly as `OpenWindow` says, and otherwise is a valid window of that file |
| Mmap.MmapFile.InBounds | Sources/Mmap/MmapFile.swift:111-146 | for a positive length, the two guards together say the access lies wholly inside the window, so the first guard is implied by the second |
| Mmap.MmapFile.SetByteOffset | Sources/Mmap/MmapFile.swift:111-131 | an in-bounds store overwrites the 8 bytes at that window position; an out-of-bounds one fails and changes nothing |
| Mmap.MmapFile.GetByteOffset | Sources/Mmap/MmapFile.swift:133-146 | an in-bounds load decodes the 8 bytes at that window position; otherwise it fails with `outOfBounds` |
| Mmap.MmapFile.SetWord | Sources/Mmap/MmapFile.swift:84-88 | an in-window store changes exactly that word of the window; an out-of-window one fails and changes nothing |
| Mmap.MmapFile.GetWord | Sources/Mmap/MmapFile.swift:104-108 | the word at that index of the window, or `outOfBounds` |
| Mmap.MmapFile.SetWords | Sources/Mmap/MmapFile.swift:75-82 | the words that fit are stored in order and the rest are not; it succeeds only when all fit |
| Mmap.MmapFile.GetWords | Sources/Mmap/MmapFile.swift:90-102 | the requested range of the window's words, or `outOfBounds` when it does not fit |
| Mmap.MmapFile.StoredWords | Sources/Mmap/MmapFile.swift:75-82 | whole words stored inside the window patch exactly those words of its word view |
| Mmap.StoredWord | Sources/Mmap/MmapFile.swift:84-88 | one word stored inside a window replaces exactly that word of its word view |
| Mmap.SetThenGet | Sources/Mmap/MmapFile.swift:84-108 | a stored word reads back |
| FileDescriptorExtension.Loaded | Sources/ParchmentFile/FileDescriptor+Extension.swift:89-102 | the loaded buffer always has the requested length |
| FileDescriptorExtension.LoadedBytes | Sources/ParchmentFile/FileDescriptor+Extension.swift:93-99 | buffer byte `k` is the file's byte at `p + k`, or zero past the end of the file |
| FileDescriptorExtension.ReadWords | Sources/ParchmentFile/FileDescriptor+Extension.swift:22-34 | a successful read yields exactly `length` words |
| FileDescriptorExtension.ReadNext | Sources/ParchmentFile/FileDescriptor+Extension.swift:22-34 | one turn of the read loop: a failed word read ends the run with its error, a successful one is kept and the loop goes on |
| FileDescriptorExtension.WriteNext | Sources/ParchmentFile/FileDescriptor+Extension.swift:36-43 | one turn of the write loop: a failed word write ends the run with its error, a successful one is kept and the loop goes on |
| FileDescriptorExtension.ReadWordsAt | Sources/ParchmentFile/FileDescriptor+Extension.swift:22-34 | word `k` of a successful read is the word `get(offset:)` reads at `o + k` |
| FileDescriptorExtension.Descriptor.StoreBytes | Sources/ParchmentFile/FileDescriptor+Extension.swift:83-87 | seeking to the position and writing leaves the file as `WriteAt` describes |
| FileDescriptorExtension.Descriptor.Load | Sources/ParchmentFile/FileDescriptor+Extension.swift:89-102 | the buffer holds the file's bytes from the position, zero-filled past the end |
| FileDescriptorExtension.Descriptor.SetByteOffset | Sources/ParchmentFile/FileDescriptor+Extension.swift:52-65 | a negative offset and a codec failure are refused and write nothing; otherwise the encoded bytes are written there |
| FileDescriptorExtension.Descriptor.GetByteOffset | Sources/ParchmentFile/FileDescriptor+Extension.swift:67-81 | a negative offset is refused; otherwise the buffer of 8 bytes is decoded, or `dataConversionFailed` |
| FileDescriptorExtension.Descriptor.SetWord | Sources/ParchmentFile/FileDescriptor+Extension.swift:45-49 | the word is written at byte `8 * o` |
| FileDescriptorExtension.Descriptor.GetWord | Sources/ParchmentFile/FileDescriptor+Extension.swift:16-20 | the word is read at byte `8 * o` |
| FileDescriptorExtension.Descriptor.SetWords | Sources/ParchmentFile/FileDescriptor+Extension.swift:36-43 | the words are written in order and the first failure stops the loop, keeping what was written |
| FileDescriptorExtension.Descriptor.GetWords | Sources/ParchmentFile/FileDescriptor+Extension.swift:22-34 | the words are read in order, and the first failure is the result |
| FileDescriptorExtension.LoadAfterWrite | Sources/ParchmentFile/FileDescriptor+Extension.swift:83-102 | bytes written at a position are loaded back from it |
| FileDescriptorExtension.GetAfterSet | Sources/ParchmentFile/FileDescriptor+Extension.swift:16-81 | with a faithful codec, a word set at `o` reads back at `o` |
| FileDescriptorExtension.SetKeepsOtherBytes | Sources/ParchmentFile/FileDescriptor+Extension.swift:52-65 | a word write changes no byte outside the bytes it writes |
| FileDescriptorExtension.WriteWordsKeepsBelow | Sources/ParchmentFile/FileDescriptor+Extension.swift:36-43 | writing words from `o` on keeps every byte before byte `8 * o` |
| FileDescriptorExtension.ReadAfterWriteWords | Sources/ParchmentFile/FileDescriptor+Extension.swift:22-43 | with a faithful codec, the words set from `o` all succeed and read back in order |
| ParchmentMmap.FileSizeOfUrl | Sources/ParchmentMmap/ParchmentMmap.swift:17-29 | an existing file's size in bytes; `fileDoesNotExist` otherwise |
| ParchmentMmap.FileSizeWordsOfUrl | Sources/ParchmentMmap/ParchmentMmap.swift:31-40 | the size in words, exactly when the file exists and its size is a multiple of 8; `invalidSize` for a ragged size |
| ParchmentMmap.SizeBytes | Sources/ParchmentMmap/ParchmentMmap.swift:123-130 | the byte size passed to `MmapFile`: `8 * size`, or 0 when the size is omitted |
| ParchmentMmap.InitOutcome | Sources/ParchmentMmap/ParchmentMmap.swift:117-142 | an offset or size whose byte value overflows traps; a missing or empty file maps nothing; otherwise it fails exactly when `OpenWindow` at `8 * offset` for `SizeBytes(size)` bytes fails, with the same error, and succeeds with that window |
| ParchmentMmap.OmittedSizeMapsNothing | Sources/ParchmentMmap/ParchmentMmap.swift:123-130 | an omitted size maps an empty window, not the rest of the file |
| ParchmentMmap.WithoutSentinel | Sources/ParchmentMmap/ParchmentMmap.swift:274-282 | the kept words are the words read with every sentinel removed, as multisets; no other word is added; a sentinel-free run is kept whole |
| ParchmentMmap.WithoutSentinelCons | Sources/ParchmentMmap/ParchmentMmap.swift:274-282 | filtering a run that starts with one word keeps that word exactly when it is not the sentinel, in front of the filtered rest |
| ParchmentMmap.WithoutSentinelConcat | Sources/ParchmentMmap/ParchmentMmap.swift:274-282 | filtering distributes over concatenation, so the kept words stay in the order they were read |
| ParchmentMmap.Sentinels | Sources/ParchmentMmap/ParchmentMmap.swift:315-325 | the run `delete(offset:length:)` stores: `length` sentinels |
| ParchmentMmap.SentinelsPrefix | Sources/ParchmentMmap/ParchmentMmap.swift:315-325 | the first `n` of a run of sentinels are `n` sentinels, which is what the window keeps when the run does not fit |
| ParchmentMmap.WriteWords | Sources/ParchmentMmap/ParchmentMmap.swift:197-203 | the file grows by exactly the little-endian bytes of the values, in order |
| ParchmentMmap.WindowAfterAppend | Sources/ParchmentMmap/ParchmentMmap.swift:205-213 | after bytes are appended, an unrefreshed window still shows the words it showed before |
| ParchmentMmap.CheckValues | Sources/ParchmentMmap/ParchmentMmap.swift:189-195 | the check passes exactly when no value is the sentinel |
| ParchmentMmap.ParchmentUnsafe.Contents | Sources/ParchmentMmap/ParchmentMmap.swift:98-108 | the store's words are the window's whole words; there are none without a mapping |
| ParchmentMmap.ParchmentUnsafe.FileSize | Sources/ParchmentMmap/ParchmentMmap.swift:98-108 | `fileSize` is 0 without a mapping; with one, the store's words are `fileSize / 8` (stated by `Contents`) |
| ParchmentMmap.ParchmentUnsafe.GetSize | Sources/ParchmentMmap/ParchmentMmap.swift:144-147 | the number of words in the window |
| ParchmentMmap.ParchmentUnsafe.GetFileSize | Sources/ParchmentMmap/ParchmentMmap.swift:149-152 | the window size in bytes, 0 without a mapping |
| ParchmentMmap.ParchmentUnsafe.Open | Sources/ParchmentMmap/ParchmentMmap.swift:117-142 | the store opens exactly when `InitOutcome` succeeds, with the window it describes |
| ParchmentMmap.ParchmentUnsafe.Append | Sources/ParchmentMmap/ParchmentMmap.swift:154-181 | the sentinel and a window that does not end at the end of the file are refused, changing nothing; otherwise one word is appended and the whole file is mapped again |
| ParchmentMmap.ParchmentUnsafe.AppendContents | Sources/ParchmentMmap/ParchmentMmap.swift:183-214 | values holding the sentinel are refused before any write; otherwise all values are appended and only then the append guard is checked |
| ParchmentMmap.ParchmentUnsafe.Grow | Sources/ParchmentMmap/ParchmentMmap.swift:216-239 | `size` zero words are appended, and then the append guard is checked |
| ParchmentMmap.ParchmentUnsafe.SetWords | Sources/ParchmentMmap/ParchmentMmap.swift:241-257 | a sentinel among the values is refused, with no write; without a mapping it fails; otherwise the words that fit are patched in, both in the window's words and in the file's bytes at `8 * o` past the window start, and it fails if any does not fit |
| ParchmentMmap.ParchmentUnsafe.SetWord | Sources/ParchmentMmap/ParchmentMmap.swift:259-272 | the sentinel is refused; an in-window word is replaced, and the file's 8 bytes behind it are its little-endian bytes; any other case fails without a change |
| ParchmentMmap.ParchmentUnsafe.GetWords | Sources/ParchmentMmap/ParchmentMmap.swift:274-282 | the range's words with the sentinels dropped, or the error of the mapping |
| ParchmentMmap.ParchmentUnsafe.GetOutcome | Sources/ParchmentMmap/ParchmentMmap.swift:284-298 | `get(offset:)` succeeds exactly when the word is in the window and is not the sentinel |
| ParchmentMmap.ParchmentUnsafe.GetWord | Sources/ParchmentMmap/ParchmentMmap.swift:284-298 | the result is `GetOutcome` |
| ParchmentMmap.ParchmentUnsafe.Contains | Sources/ParchmentMmap/ParchmentMmap.swift:300-303 | true exactly when the word offset is below the window size in bytes |
| ParchmentMmap.ParchmentUnsafe.Delete | Sources/ParchmentMmap/ParchmentMmap.swift:305-313 | the sentinel replaces the word when it is in the window, in the window's words and in the file's bytes; otherwise it fails without a change |
| ParchmentMmap.ParchmentUnsafe.DeleteRange | Sources/ParchmentMmap/ParchmentMmap.swift:315-325 | the sentinel replaces the range's words as far as the window reaches, in the window's words and in the file's bytes; it fails if the range does not fit |
| ParchmentMmap.ParchmentUnsafe.Compact | Sources/ParchmentMmap/ParchmentMmap.swift:327-330 | a stub that succeeds |
| ParchmentMmap.ParchmentUnsafe.EndIndex | Sources/ParchmentMmap/ParchmentMmap.swift:533-536 | the number of words in the window |
| ParchmentMmap.ParchmentUnsafe.SubscriptGet | Sources/ParchmentMmap/ParchmentMmap.swift:538-549 | the stored word, or `UInt64.max` outside the window |
| ParchmentMmap.ParchmentUnsafe.SubscriptSet | Sources/ParchmentMmap/ParchmentMmap.swift:551-563 | the word is replaced when it is in the window and not the sentinel, in the window's words and in the file's bytes; otherwise no word and no byte changes |
| ParchmentMmap.IndexAfter | Sources/ParchmentMmap/ParchmentMmap.swift:567-570 | the next index is greater |
| ParchmentMmap.IndexBefore | Sources/ParchmentMmap/ParchmentMmap.swift:575-578 | the previous index is smaller |
| ParchmentMmap.IndexBeforeAfter | Sources/ParchmentMmap/ParchmentMmap.swift:567-578 | stepping forward and then back returns to the start |
| ParchmentMmap.ParchmentIterator.Next | Sources/ParchmentMmap/ParchmentMmap.swift:612-624 | it yields the readable word and advances, or yields `nil` and stays put |
| ParchmentMmap.MakeIterator | Sources/ParchmentMmap/ParchmentMmap.swift:518-521 | a new iterator over this store, at word 0 |
| ParchmentMmap.GetOrCreate | Sources/ParchmentMmap/ParchmentMmap.swift:42-70 | size 0 is refused and a ragged or missing file passes its size error on; a file at least `offset + size` words long is left unchanged and opened as `init` would: it fails exactly when `InitOutcome` fails, with its error, and otherwise maps exactly `InitOutcome`'s window over that file, or maps nothing when it gives none; a file ending exactly at `offset` grows by the missing zero words, after which an empty file yields a valid, unmapped store of that file and a non-empty one fails the append guard; any other file is `invalidOffset` |
| ParchmentMmap.Create | Sources/ParchmentMmap/ParchmentMmap.swift:72-93 | an existing file and the sentinel are refused; otherwise a new one-word file holding the value is mapped |
| ParchmentFile.InitLayout | Sources/ParchmentFile/ParchmentFile.swift:132-176 | an existing empty file is `fileDoesNotExist`; an end past `Int.max` traps; an existing file's size is its whole words, while a created file's size is the requested bytes |
| ParchmentFile.SentinelFreePrefix | Sources/ParchmentFile/ParchmentFile.swift:188-200 | the number of values before the first sentinel |
| ParchmentFile.SentinelFreePrefixAt | Sources/ParchmentFile/ParchmentFile.swift:188-200 | that number is the unique `k` with no sentinel before it and the sentinel, or the end, at it |
| ParchmentFile.ParchmentUnsafe.FileSize | Sources/ParchmentFile/ParchmentFile.swift:108-118 | the file's size, 0 when it does not exist |
| ParchmentFile.ParchmentUnsafe.GetSize | Sources/ParchmentFile/ParchmentFile.swift:178-181 | the number of whole words in the file |
| ParchmentFile.ParchmentUnsafe.GetFileSize | Sources/ParchmentFile/ParchmentFile.swift:183-186 | the file's size in bytes |
| ParchmentFile.ParchmentUnsafe.Open | Sources/ParchmentFile/ParchmentFile.swift:132-176 | the store opens with `InitLayout`'s fields, creating a missing file, and leaves an existing file as it is |
| ParchmentFile.ParchmentUnsafe.Append | Sources/ParchmentFile/ParchmentFile.swift:188-200 | the sentinel is refused; otherwise one little-endian word is appended, adding one word to the file's words |
| ParchmentFile.ParchmentUnsafe.AppendContents | Sources/ParchmentFile/ParchmentFile.swift:202-210 | the values before the first sentinel are appended; a sentinel then fails the call, keeping them |
| ParchmentFile.ParchmentUnsafe.Grow | Sources/ParchmentFile/ParchmentFile.swift:212-221 | `size` zero words are appended |
| ParchmentFile.ParchmentUnsafe.SetWords | Sources/ParchmentFile/ParchmentFile.swift:223-234 | a sentinel among the values is refused with no write; otherwise the descriptor writes them from `o` |
| ParchmentFile.ParchmentUnsafe.SetWord | Sources/ParchmentFile/ParchmentFile.swift:236-244 | the sentinel is refused; otherwise the descriptor writes the word at `o` |
| ParchmentFile.ParchmentUnsafe.GetWords | Sources/ParchmentFile/ParchmentFile.swift:246-249 | the descriptor's words with the sentinels dropped, or its error |
| ParchmentFile.ParchmentUnsafe.GetOutcome | Sources/ParchmentFile/ParchmentFile.swift:251-260 | the descriptor's word unless it is the sentinel, which is an error |
| ParchmentFile.ParchmentUnsafe.GetWord | Sources/ParchmentFile/ParchmentFile.swift:251-260 | the result is `GetOutcome` |
| ParchmentFile.ParchmentUnsafe.Contains | Sources/ParchmentFile/ParchmentFile.swift:262-265 | true exactly when the word offset is below the file size in bytes |
| ParchmentFile.ParchmentUnsafe.Delete | Sources/ParchmentFile/ParchmentFile.swift:267-270 | the sentinel is written at word `o` |
| ParchmentFile.ParchmentUnsafe.DeleteRange | Sources/ParchmentFile/ParchmentFile.swift:272-277 | the sentinel is written at `length` words from `o` |
| ParchmentFile.ParchmentUnsafe.Compact | Sources/ParchmentFile/ParchmentFile.swift:279-282 | a stub that succeeds |
| ParchmentFile.ParchmentUnsafe.EndIndex | Sources/ParchmentFile/ParchmentFile.swift:485-488 | the number of whole words in the file |
| ParchmentFile.ParchmentUnsafe.SubscriptGet | Sources/ParchmentFile/ParchmentFile.swift:490-501 | the readable word, or `UInt64.max` for any failure |
| ParchmentFile.ParchmentUnsafe.SubscriptSet | Sources/ParchmentFile/ParchmentFile.swift:503-516 | a `set` whose error is dropped: the sentinel writes nothing |
| ParchmentFile.ParchmentIterator.Next | Sources/ParchmentFile/ParchmentFile.swift:564-576 | it yields the readable word and advances, or yields `nil` and stays put |
| ParchmentFile.MakeIterator | Sources/ParchmentFile/ParchmentFile.swift:470-473 | a new iterator over this store, at word 0 |
| ParchmentFile.GetOrCreate | Sources/ParchmentFile/ParchmentFile.swift:48-76 | size 0 is refused and a ragged or missing file passes its size error on; a long enough file is opened with the given codec and `InitLayout`'s offset, size, start and end, trapping past `Int.max`; a non-empty file ending exactly at `offset` grows by the missing zero words with the layout `InitLayout` gives the whole file before it grows, an empty one is `fileDoesNotExist`; any other file is `invalidOffset` |
| ParchmentFile.Create | Sources/ParchmentFile/ParchmentFile.swift:78-99 | an existing file and the sentinel are refused; otherwise a new one-word file holding the value is opened |
| Pages.OverlapsIffShared | Sources/ParchmentMmap/Manuscript.swift:129 | two ranges overlap exactly when they share a word |
| Pages.OverlapsSymmetric | Sources/ParchmentMmap/Manuscript.swift:129 | overlap is symmetric |
| Pages.Placeholder | Sources/Parchment/Page.swift:19-25 | the placeholder is page 0 with range `0..<1` |
| Pages.PageInit | Sources/Parchment/Page.swift:27-39 | page construction traps on an overflowing byte offset; when the page's store fails (`InitOutcome`), that error is the result; when the store opens and the range's end index is not below its size in bytes, the result is `invalidPage`; a page that is made has the range `location..<location + length` |
| Pages.WindowBytes | Sources/ParchmentMmap/ParchmentMmap.swift:98-108 | the store's `fileSize`: the window size, or 0 without one |
| Pages.LastWordPageRefused | Sources/Parchment/Page.swift:35-38 | a one-word page at word 7 of an 8-word file is refused |
| Pages.PageInitBound | Sources/Parchment/Page.swift:35-38 | when the window opens, a page is accepted exactly when `location < 7 * length` |
| Pages.HashMatchesEquals | Sources/Parchment/Page.swift:42-57 | equal pages hash alike, and the hash combines exactly what `==` compares |
| Pages.EqualsIgnoresNumber | Sources/Parchment/Page.swift:44-47 | `==` does not look at the page number |
| Pages.PageEqualsEquivalence | Sources/Parchment/Page.swift:44-47 | `==` is an equivalence |
| Pages.FromValues | Sources/ParchmentMmap/NewPage.swift:21-24 | the new page holds exactly the given values |
| Pages.FromValue | Sources/ParchmentMmap/NewPage.swift:16-19 | the one-value form is the values form with one value |
| PageIndex.Rank | Sources/Parchment/ManuscriptIndex.swift:29-46 | the rank is below 2^192 |
| PageIndex.LessIsRank | Sources/Parchment/ManuscriptIndex.swift:29-46 | `<` is the order of `length * 2^128 + number * 2^64 + offset`, and equal ranks mean equal entries |
| PageIndex.EqualIsIdentity | Sources/Parchment/ManuscriptIndex.swift:48-65 | `==` holds exactly when all three fields agree |
| PageIndex.LessStrictTotal | Sources/Parchment/ManuscriptIndex.swift:29-65 | `<` is irreflexive and transitive, and exactly one of `a < b`, `a == b`, `b < a` holds |
| PageIndex.EntryOfPage | Sources/Parchment/ManuscriptIndex.swift:119-124 | a page is recorded as its number, its first word, and its length `end - start` |
| PageIndex.ManuscriptIndex.Contents | Sources/Parchment/ManuscriptIndex.swift:96-103 | the index's words are its store's words, within the store's reachable offsets |
| PageIndex.ManuscriptIndex.EntryAt | Sources/Parchment/ManuscriptIndex.swift:105-111 | entry `n` is readable exactly when words `2n` and `2n + 1` are in the store and neither is the sentinel, and it is `(n, word 2n, word 2n+1)` |
| PageIndex.ManuscriptIndex.Get | Sources/Parchment/ManuscriptIndex.swift:105-111 | the result is `EntryAt` |
| PageIndex.ManuscriptIndex.Set | Sources/Parchment/ManuscriptIndex.swift:113-117 | success exactly when both values are storable and both words are in the store, after which `get` returns the entry; a failing second store keeps the first; every error value; the new words are `StoredPair` of the old ones |
| PageIndex.ManuscriptIndex.AppendEntry | Sources/Parchment/ManuscriptIndex.swift:126-129 | exactly the two words `[offset, length]` are appended; the number is dropped; a sentinel value is refused with no write |
| PageIndex.ManuscriptIndex.AppendPage | Sources/Parchment/ManuscriptIndex.swift:119-124 | the page's first word and length are appended as one pair |
| PageIndex.ManuscriptIndex.EndIndex | Sources/Parchment/ManuscriptIndex.swift:152-155 | the number of complete pairs: `2r <= words < 2r + 2` |
| PageIndex.ManuscriptIndex.SubscriptGet | Sources/Parchment/ManuscriptIndex.swift:159-170 | the entry, or `(0, 0, 0)` for any failure |
| PageIndex.ManuscriptIndex.EntryOrZero | Sources/Parchment/ManuscriptIndex.swift:159-170 | a readable entry carries the position as its number, and a failure reads as `(0, 0, 0)` |
| PageIndex.ManuscriptIndex.SubscriptSet | Sources/Parchment/ManuscriptIndex.swift:172-182 | a `set` of the new entry, whichever position is written: the new words are `StoredPair` of the old ones, and when it can succeed, the entry reads back |
| PageIndex.IndexIterator.Next | Sources/Parchment/ManuscriptIndex.swift:81-93 | it yields the readable entry and advances, or yields `nil` and stays put |
| PageIndex.MakeIterator | Sources/Parchment/ManuscriptIndex.swift:137-140 | a new iterator over this index, at entry 0 |
| PageIndex.StoredPair | Sources/Parchment/ManuscriptIndex.swift:113-117 | the store after `set(entry:)`: the offset lands at `2n` unless it is the sentinel or out of range, the length at `2n + 1` only after the offset did and when it too is storable and in range, and no other word changes |
| PageIndex.EncodePair | Sources/Parchment/ManuscriptIndex.swift:128 | the bytes of the pair are the two words' bytes in order |
| Recycling.RecyclingBin.constructor | Sources/ParchmentMmap/RecyclingBin.swift:16-23 | the set of deleted starts and the sorted array start empty, and as constants they stay empty |
| Recycling.RecyclingBin.Contains | Sources/ParchmentMmap/RecyclingBin.swift:25-28 | with the set of recorded starts empty, as the constructor leaves it and as a constant keeps it, no offset is contained |
| Recycling.RecyclingBin.Recycle | Sources/ParchmentMmap/RecyclingBin.swift:30-38 | a recorded start is accepted and changes nothing; any other page appends its pair to the bin's index |
| Manuscripts.AddKeepsCacheValid | Sources/ParchmentMmap/Manuscript.swift:115-136 | a page that overlaps no cached page, added under a new number, keeps the cache's ranges pairwise disjoint |
| Manuscripts.RemoveKeepsCacheValid | Sources/ParchmentMmap/Manuscript.swift:159 | removing pages keeps the cache valid |
| Manuscripts.PageAfter | Sources/ParchmentMmap/Manuscript.swift:147-153 | the page after the last entry: an end past `UInt64.max` traps, otherwise it is `PageInit` from that end; a page made starts there, has the given length, and does not overlap the entry |
| Manuscripts.Manuscript.Lookup | Sources/ParchmentMmap/Manuscript.swift:92-139 | a cached page is returned (or `pageDeleted` when its start is recorded) without reading the index; otherwise the result is `Uncached` |
| Manuscripts.Manuscript.Uncached | Sources/ParchmentMmap/Manuscript.swift:104-139 | index errors pass through; a recorded start or an empty range is `pageDeleted`; an end past `UInt64.max` traps; a range overlapping a cached page is `pageConflict`; otherwise the result is exactly `PageInit` of the entry's range; a page that is made has the entry's range and overlaps no cached page |
| Manuscripts.Manuscript.Get | Sources/ParchmentMmap/Manuscript.swift:92-139 | the result is `Lookup`; a success adds only that page to the cache, and the cache's invariant is kept |
| Manuscripts.Manuscript.Load | Sources/ParchmentMmap/Manuscript.swift:104-135 | the scan of the cache finds a conflict exactly when one exists, so the result is `Uncached` |
| Manuscripts.Manuscript.Append | Sources/ParchmentMmap/Manuscript.swift:141-154 | an empty index is `emptyManuscript`; an end of the last entry past `UInt64.max` traps; otherwise the result is exactly `PageInit` of the index's count, the last entry's end and the number of values, with its window errors and `invalidPage`; a page that is made starts where the last entry ends, so it does not overlap that entry |
| Manuscripts.Manuscript.AppendMade | Sources/ParchmentMmap/Manuscript.swift:141-154 | a page `append` makes is numbered by the index's count, starts where the last entry ends, is as long as the values, and does not overlap that entry |
| Manuscripts.Manuscript.Delete | Sources/ParchmentMmap/Manuscript.swift:156-163 | the page leaves the cache, then is recycled with the bin's outcome |
| Manuscripts.Manuscript.Release | Sources/ParchmentMmap/Manuscript.swift:60 | weakly held pages may leave the cache at any time, and its invariant is kept |
| Manuscripts.Manuscript.EndIndex | Sources/ParchmentMmap/Manuscript.swift:186-189 | a quarter of the index's words |
| Manuscripts.Manuscript.SubscriptGet | Sources/ParchmentMmap/Manuscript.swift:193-204 | the page, or the placeholder page for any failure |
| Manuscripts.Manuscript.SubscriptSet | Sources/ParchmentMmap/Manuscript.swift:206-223 | only a page numbered `position` is written to the index, which then holds `StoredPair` of its old words and the page's entry; when that can succeed the entry reads back; any other page changes nothing |
| Manuscripts.ManuscriptIterator.Next | Sources/ParchmentMmap/Manuscript.swift:38-50 | it yields the page `get` returns and advances, or yields `nil` and stays put; the cache gains exactly that page, or is unchanged on failure |
| Manuscripts.MakeIterator | Sources/ParchmentMmap/Manuscript.swift:171-174 | a new iterator over this manuscript, at page 0 |

## Left out

- Concurrency: the `ParchmentActor` and the synchronous `ParchmentMmap`/`ParchmentFile`
  wrappers are not modelled. The wrappers hand each call to the actor, which holds a
  `ParchmentUnsafe`, through Chord's `AsyncAwaitThrowingEffectSynchronizer.sync`. For
  `append`, `set`, `delete` and `compact` that `sync` call carries no `try`. Whether their callers see the write errors therefore depends on Chord
  code that is not part of this model.
- The `ParchmentUnsafe()` placeholder initializer is not modelled. It exists only to
  satisfy protocol conformance.
- `BadIterator` is not modelled.
- Failures of `mmap`, `msync`, `munmap`, `close`, `seek`, and of `read` and `write`
  beyond what the descriptor delivers, are not modelled. These calls are taken to
  succeed.
- A zero-size `mmap`, which the system refuses, is modelled as an empty window.
- Mmap.MmapFile.Open: with the size omitted and a positive offset, `init` maps the whole file size from the offset, past the end of the file. It then reads memory the file does not back. The model requires offset 0 when the size is omitted. The stores call it that way only.
- The `.append` open option is not modelled. Every write goes where the model's explicit
  seek puts it. The streamed store opens its descriptor with `.append`
  (`Sources/ParchmentFile/ParchmentFile.swift:154` and `:169`), and under `O_APPEND` every
  write lands at the end of the file whatever the seek. So in the program,
  `ParchmentFile.ParchmentUnsafe.SetWords`, `SetWord`, `Delete`, `DeleteRange` and
  `SubscriptSet` append their bytes at the end of the file. Their contracts here state an
  overwrite at byte `8 * o` instead.
- Files are not modelled as changing underneath the program.
- `Manuscript.init` is not modelled. It creates a directory, three files and the
  header store. The manuscript's index, its pages file and its bin are taken as
  given.
- `RecyclingBin.reuse` is commented out in the source and is not modelled.
- The `compact()` stubs of both stores (`Sources/ParchmentMmap/ParchmentMmap.swift:327-330`
  and `Sources/ParchmentFile/ParchmentFile.swift:279-282`) do nothing and succeed, and are
  modelled that way.
- Manuscripts.Manuscript.Get: the page cache is an `NSMapTable` with weak values and
  `PageNumber` keys. It is modelled as a map from number to page whose entries may
  vanish (`Release`). `PageNumber` defines no equality of its own, so a lookup by a
  freshly made key may well miss a page that is cached. The model keys the cache by
  the number's value instead, which is what the cache is evidently for. The
  `badPageNumber` branches are not modelled either, as a map cannot reach them.
- Pages.PageInit: the `parchment` a page keeps is not modelled. It is used only for
  the `contains` check at construction.
- PageIndex.ManuscriptIndex: its store is `Parchment(url)`, a protocol whose concrete
  type the index source does not fix. It is modelled over the mapped store's
  `ParchmentUnsafe`, which the manuscript's own pages use.
- Pages.PageInit: the check on the page's own store uses the mapped store's
  `InitOutcome`, as `Page.swift` builds a mapped `ParchmentUnsafe`.
- `index(after:)` and `index(before:)` of the streamed store are not modelled
  separately. They are the same as the mapped store's `ParchmentMmap.IndexAfter` and
  `ParchmentMmap.IndexBefore`. The same goes for `getFileSizeOfUrl`,
  `getFileSizeUInt64OfUrl` and the error enum that the streamed store declares again.
- FileDescriptorExtension.WireCodec: Datable's `maybeNetworkData` is a parameter of
  the model, and its byte order is not fixed. Round trips are proved for a codec that
  encodes every word as 8 bytes and decodes them back.
- UInt64Extension: the joins and splits are not used by the stores, which code words
  as bytes directly.
- ParchmentMmap.ParchmentUnsafe.AppendContents and ParchmentMmap.ParchmentUnsafe.Grow:
  the contracts state the file's new bytes, not the window. That the unrefreshed window
  still shows the old words is stated separately, by `ParchmentMmap.WindowAfterAppend`.
