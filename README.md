# Analogue 3D labels tool, modelled in Dafny

The tool adds custom cartridge label images to the `labels.db` file of an
Analogue 3D. The file holds two regions:

- an index of little-endian 32-bit cartridge signatures, from offset 0x100,
  ended by the sentinel word 0xFFFFFFFF and read for at most 4096 words;
- an image table from offset 0x4100, holding one block of 25,600 bytes per
  signature, in index order.

Each block holds 74 x 86 pixels as B, G, R, A bytes, followed by 0x90 bytes
of 0xFF.

A run does the following:

1. It turns every command-line argument into a signature. The signature is
   the file name without its directory and extension, read as up to eight
   hex digits.
2. It reads the index and the blocks.
3. It sorts the custom images by signature.
4. It merges them into the index with a two-pointer merge. An existing entry
   below the next custom signature is kept. A custom image below the next
   existing entry is inserted. An equal signature has its block replaced by
   the loaded image.
5. It writes the index and the blocks back in place.

The model has one module per part of `main.go`:

| module | file | what it models |
|---|---|---|
| `Common` | common.dfy | constants, `Image`, errors, `Result`/`Option` |
| `Bytes` | bytes.dfy | the file as `seq<byte>`, positioned writes, little-endian words |
| `IndexCodec` | index_codec.dfy | index read loop and index write |
| `BlockCodec` | block_codec.dfy | block read loop and block write loop |
| `PixelEncoder` | pixel_encoder.dfy | the B,G,R,A + padding emission of `loadImage` |
| `Merge` | merge.dfy | `buildNewDB`: the sort and the merge loop |
| `HexKey` | hex_key.dfy | `HexStringTransform`, the file-name stem, `generateListFromArgs` |
| `Database` | database.dfy | one whole run of `main` on the file's bytes |

The loops of the source are methods with loop invariants:

- the index and block read loops;
- the block write loop;
- the merge loop of `buildNewDB`;
- the encoding loops of `loadImage`;
- the argument loop.

Each such method is proved equal to a specification function. The
properties of the tool are lemmas about those functions.

Every failure the model keeps is an `Err` value:

- a bad file name;
- a file too short for its index or blocks;
- an image that cannot be loaded.

The other `log.Fatal` calls of the tool (usage, `filepath.Abs`, opening,
seeking and writing the file) are listed under "## Left out".

The entry size is 74 * 86 * 4 + 0x90 = 25,600 bytes, as `main.go:31`
computes it. The code writes the index without checking that it fits its
4096 slots (main.go:101-106); `IndexCodec.OverfullIndexTruncates` states
what is then read back. The round-trip lemmas take "at most 4096 keys, none
equal to the sentinel" as a precondition.

## Model

| member | source | states |
|---|---|---|
| Bytes.WriteAt | main.go:97-114 | a positioned write keeps the bytes outside the written range, puts the data at the offset and zero-fills a gap past the old end of the file |
| Bytes.WriteAtConsecutive | main.go:110-114 | writing two pieces one after the other equals writing their concatenation once |
| Bytes.LeRoundTrip | main.go:72 | decoding the four little-endian bytes of a word gives the word back |
| IndexCodec.ReadIndex | main.go:64-79 | the read loop returns exactly what the index reader specification gives for the file |
| IndexCodec.ScanOkMeaning | main.go:70-79 | a successful scan returns at most n words, each equal to the word stored at its offset and none the sentinel, and stops early only at a sentinel |
| IndexCodec.ScanErrMeaning | main.go:70-79 | a failing scan fails with Truncated, and only when the file ends inside a word reached before any sentinel |
| IndexCodec.ReadIndexMeaning | main.go:70-79 | reading the index gives at most 4096 words, never the sentinel, each the little-endian word at 0x100 + 4k, and the sentinel follows when fewer than 4096 are read; it fails with Truncated exactly when the file ends before a sentinel or the 4096th word |
| IndexCodec.Until | main.go:75-77 | the words kept are the prefix before the first sentinel, and a shorter result is followed by the sentinel |
| IndexCodec.ScanWords | main.go:70-79 | scanning a file whose words are ws gives the words of ws before the first sentinel, cut at n |
| IndexCodec.WriteIndexWords | main.go:97-106 | after the index write, word k from 0x100 is the k-th key, and word count-of-keys is the sentinel |
| IndexCodec.IndexReadBack | main.go:101-106 | reading a freshly written index gives the keys before the first one equal to the sentinel, cut at 4096 |
| IndexCodec.IndexRoundTrip | main.go:101-106 | with at most 4096 keys and none equal to the sentinel, writing then reading the index gives the keys back |
| IndexCodec.SentinelKeyTruncatesIndex | main.go:75-77 | a key equal to 0xFFFFFFFF, which key parsing accepts, cuts the index short when read back |
| IndexCodec.OverfullIndexTruncates | main.go:70 | with more than 4096 keys, none of them the sentinel 0xFFFFFFFF, the write succeeds and the reader returns only the first 4096 |
| BlockCodec.SlotMono | main.go:85-90 | the blocks of consecutive index entries do not overlap |
| BlockCodec.ReadBlocksSpec | main.go:81-91 | reading n blocks succeeds exactly when the file holds n blocks from 0x4100, fails with Truncated otherwise, and block k is the EntrySize bytes at 0x4100 + k * EntrySize |
| BlockCodec.ReadBlocks | main.go:81-91 | the block read loop returns what the block reader specification gives |
| BlockCodec.WriteBlocks | main.go:107-114 | the block write loop leaves the file as one write of the concatenated blocks at 0x4100 |
| BlockCodec.ConcatLayout | main.go:110-114 | concatenated EntrySize blocks put block k at k * EntrySize |
| BlockCodec.BlocksRoundTrip | main.go:81-114 | writing EntrySize blocks from 0x4100 and reading as many back gives the same blocks |
| PixelEncoder.Fill | main.go:219-222 | the padding is that many bytes, all 0xFF |
| PixelEncoder.EncodeImage | main.go:210-222 | the nested row and column loops and the padding loop build exactly the block the encoder specification gives |
| PixelEncoder.RowOffsetProduct | main.go:210-218 | row y of a w-pixel-wide image starts 4 * y * w bytes into its block |
| PixelEncoder.EncodeLayout | main.go:210-222 | the block of a w x h image holds the pixel bytes of its h rows followed by 0x90 bytes of 0xFF; the four bytes at the start of row y plus 4x are B, G, R, A of pixel (x, y) |
| PixelEncoder.EncodedBlockSize | main.go:31 | a 74 x 86 image encodes to exactly 25,600 bytes |
| PixelEncoder.DecodePixel | main.go:214-215 | the pixel read back from a block's B, G, R, A bytes is the pixel written there |
| PixelEncoder.EncodeDecodeRoundTrip | main.go:210-222 | decoding the block of an image gives the image back |
| PixelEncoder.LoadImageSize | main.go:202-225 | loading succeeds exactly when decoding succeeds, and a resized image always gives an EntrySize block |
| Merge.Insert | main.go:144-151 | inserting into a sorted list gives a sorted permutation of the list plus the element |
| Merge.SortBySignature | main.go:144-151 | the sorted custom images are a permutation of the given ones, ascending by signature |
| Merge.MergeSpec | main.go:158-195 | a successful merge yields signature and block arrays of equal length |
| Merge.MergeEntries | main.go:153-197 | the two-pointer merge loop and both drains compute exactly the merge specification |
| Merge.BuildNewDB | main.go:143-198 | buildNewDB is the merge of the existing entries with the custom images sorted by signature |
| Merge.MergeLoads | main.go:165-193 | the merge succeeds exactly when every custom image loads; it then loads every custom path once, in sorted order, and never an existing entry |
| Merge.MergeFirstFailure | main.go:165-168 | a failing merge reports the first custom image, in sorted order, that does not load |
| Merge.MergeKeys | main.go:158-195 | the merged index holds exactly the existing signatures and the custom ones |
| Merge.MergeBlocks | main.go:158-195 | every merged block is a stored block or one the loader returned for a custom image |
| Merge.MergeBound | main.go:158-195 | the merged index is no longer than the existing index and the custom list together |
| Merge.MergeOrder | main.go:143-198 | a strictly ascending index merged with sorted custom images is ascending, and strictly ascending when the custom signatures are distinct |
| Merge.MergeLength | main.go:158-195 | with distinct keys on both sides the merged length is the sum of both lengths minus the number of common keys |
| Merge.LoadedMapAt | main.go:163-179 | in the table of loaded images, a custom signature maps to the block of its first image in the list |
| Merge.AsMapAt | main.go:159-162 | in the lookup table of an index, a signature maps to the block of its first entry |
| Merge.MergeMap | main.go:158-195 | as a lookup table, the merged database is the old one with every loaded custom image added or overriding its signature's block |
| Merge.MergeReplaces | main.go:171-179 | when the existing index is strictly ascending and no two custom images share a signature, a custom signature appears exactly once in the merged index, and its block is the one the loader returned for that image's path |
| Merge.MergeKeeps | main.go:159-162 | when the existing index is strictly ascending (custom images sorted, repeats allowed), an existing entry whose signature no custom image has appears exactly once, with its original block |
| Merge.MergeOnce | main.go:159-185 | a key no custom image has occurs at most once in the merged index when it occurs at most once in the existing one: the merge copies existing entries and adds custom ones, never duplicating an existing entry |
| Merge.MergeIntoEmpty | main.go:187-194 | merged into an empty database, the custom images become the index in order, with their loaded blocks |
| Merge.MergeRepeats | main.go:163-179 | two custom images with the same signature are both written, so the merged index holds that signature at two different positions |
| Merge.MergeDuplicateCustom | main.go:163-179 | merging a stored entry of signature 5 with two custom images of signature 5 gives the index [5, 5], the stored block replaced |
| HexKey.LowerAll | main.go:250 | lowering keeps the length and lowers each ASCII letter |
| HexKey.ByteLen | main.go:256 | the byte length of a string is between one and four bytes per character |
| HexKey.AsciiByteLen | main.go:256 | an ASCII string has one byte per character |
| HexKey.TrimSpace | main.go:244 | the trimmed string neither starts nor ends with white space, and is empty exactly when the whole string is white space |
| HexKey.TrimSpaceAround | main.go:244 | trimming removes exactly the white space put around a string that does not start or end with white space |
| HexKey.TrimHexPrefix | main.go:250 | a string starting with "0x" loses those two characters; any other string is returned unchanged |
| HexKey.PadDigits | main.go:258-260 | a key shorter than eight characters gets zeros in front up to eight characters; a longer one is kept |
| HexKey.DecodeHex | main.go:262-265 | hex decoding fails exactly on a non-hex character (reported first) or an odd length, and otherwise gives half as many bytes |
| HexKey.HexStringTransform | main.go:243-268 | the only errors are an empty key, a key that is too long and a bad hex character |
| HexKey.PaddedLength | main.go:255-260 | a padded key of hex digits has exactly eight digits |
| HexKey.DecodeEight | main.go:262-267 | eight hex digits decoded to bytes and read big-endian give the number they spell |
| HexKey.HexStringTransformMeaning | main.go:243-268 | a blank string gives 0; otherwise a missing key, more than eight bytes or a non-hex character is an error, and one to eight hex digits give the number they spell, zero-padded on the left |
| HexKey.HexDigitsValue | main.go:262-267 | the n canonical hex digits of a value below 16^n spell that value |
| HexKey.FormatKeyRoundTrip | main.go:243-268 | a signature's eight hex digits in any case, with or without a 0x or 0X prefix and with white space around, parse back to the signature |
| HexKey.BlankKeyExamples | main.go:244-247 | an empty or all-white-space name gives signature 0 |
| HexKey.BarePrefixEmpty | main.go:244-253 | a bare "0x" or "0X", with any white space around it, is the empty-key error |
| HexKey.Base | main.go:130 | the base name is never empty and holds no '/' unless it is the root |
| HexKey.Ext | main.go:130 | the extension is empty or a '.'-led suffix of the path holding no '/' |
| HexKey.ExtAt | main.go:130 | the extension starts at the last '.' of the last path element |
| HexKey.TrimSuffix | main.go:130 | a string ending with the suffix loses exactly that suffix; any other string is returned unchanged |
| HexKey.FileStemOfName | main.go:130 | the stem of a path is the file name with its directory and only its last extension removed; a name without a '.' is its own stem |
| HexKey.ParseArgsOk | main.go:119-139 | the argument list succeeds exactly when every argument parses, and then has one image per argument, in order, with the absolute path and its signature |
| HexKey.ParseArgsFirstError | main.go:130-133 | a failing argument list reports the error of the first argument that does not parse |
| HexKey.GenerateList | main.go:119-139 | the argument loop computes exactly the argument-list specification with the tool's file-name parser |
| Database.ReadDb | main.go:64-91 | reading the database gives equally long index and block arrays, at most 4096 entries, no sentinel key and blocks of EntrySize, or Truncated |
| Database.UpdateDatabase | main.go:53-114 | a run computes exactly the run specification: parse, read, merge, write, stopping at the first error |
| Database.IndexUnderImages | main.go:97-114 | writing the blocks after the index never changes what the index reader sees |
| Database.DbRoundTrip | main.go:64-114 | writing a database of at most 4096 sentinel-free keys with EntrySize blocks and reading it back gives the same database |
| Database.MergedBlockSizes | main.go:158-195 | every block of a successful merge of a read database has EntrySize bytes |
| Database.UpdateReadBack | main.go:53-114 | after a successful run whose merged index fits in 4096 slots and where no argument names the signature ffffffff (the sentinel), the next read gives exactly the merged database, which as a lookup table is the old one with the custom images added or replacing |
| Database.UpdateFailure | main.go:53-91 | a failed run failed on the first unparsable argument, on a truncated file, or on a custom image path that does not load |

## Left out

- Opening, seeking and closing the file, and I/O errors on them (main.go:58-62, 65-67, 81-83, 97-99, 107-109). The file is its byte content, and a write never fails.
- The in-place update of the open file. The model returns the new content as a value; no other reader shares the file during a run.
- The argument-count check and its usage message (main.go:45-48), and `filepath.Abs` of the database path (main.go:49-52).
- `filepath.Abs` of each argument (main.go:122) is the parameter `abs`. Its failure when the working directory cannot be read is not modelled.
- `getImg`, `image.Decode` and `imaging.Resize` with the Lanczos filter (main.go:204-208, 229-238) are the parameter `load`. It returns the resized pixel grid or nothing. Decoding and floating-point resampling are not modelled. The lemmas that need 74 x 86 pictures take that as a precondition (`Database.Resized`).
- Logging (main.go:96, 203) and the distinction between the many `log.Fatal` messages. Each failure is one `Error` value.
- The unused `header` constant (main.go:40-41).
- Merge.SortBySignature: `slices.SortFunc` is not stable. The model sorts with one particular insertion sort and states only what the source relies on: a permutation, ascending by signature. All merge lemmas hold for any ascending custom list.
- HexKey.LowerAll: `strings.ToLower` is modelled for ASCII letters only. Non-ASCII letters that lower to ASCII (the Kelvin sign, for example) are left unchanged.
- HexKey.Base: `filepath.Base` and `filepath.Ext` are modelled with '/' as the only separator, as on Unix; Windows volume names and '\' are not.
- HexKey.DecodeHex: the odd-length error of `hex.DecodeString` is modelled, but `HexStringTransform` never reaches it. Every key shorter than eight characters is padded to eight first.
