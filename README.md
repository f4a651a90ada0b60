# Datacraft map codec, modelled in Dafny

Datacraft stores an arbitrary file in a Minecraft world as a run of map
records. Each map holds a 128 x 128 array of signed-byte colour values.
This project models the codec and its sequencing in `datacraft_demo.py`:

- the per-byte remap between a raw byte `v` (0..255) and a colour
  (`v` when `v < 128`, `v - 256` otherwise) and back (module `ByteColor`);
- `bytes_to_colors`, which zero-pads a chunk to the map size, cuts it to the
  map size and remaps each byte, and `colors_to_bytes`, which remaps each
  colour back (module `ChunkCodec`);
- `encode_file`, which slices the file into `ceil(size / MAP_SIZE)`
  contiguous chunks, gives chunk `i` the map id `start_id + i` and describes
  the run (original size, map count, first and last id), and
  `decode_maps`, which fetches the maps of an id range in order, fails on the
  first missing one, concatenates their bytes and trims the zero padding to
  the original size (module `MapStore`);
- two concrete runs at the real map size and a missing-map failure
  (module `Scenarios`).

The map size is a parameter `size > 0` of the encoder, so the lemmas hold
for any map size; `MapStore.MapSize` is the real 16384. The world's map
files are a store `map<int, seq<Color>>` from map id to colour array.
Writing a map file overwrites any earlier file with that id, so writing the
records is the map update `Saved`. The metadata file is reduced to the
original size it holds: `None` when there is no metadata file. Bytes and
colours are the subset types `Byte` (0..255) and `Color` (-128..127). The
decoder's loops are methods proved against specification functions
(`Gather`, `Trim`, `Decode`). The round-trip lemmas are stated about those
functions.

Edge cases the model keeps from the code:
- The padding trim is skipped when the recorded original size is 0, because
  `if original_size` treats 0 as false (datacraft_demo.py:196).
- A negative recorded size is not ignored. It becomes Python's negative
  slice, which drops that many bytes from the end (`MapStore.SliceTo`,
  datacraft_demo.py:198).
- A negative `num_maps` makes `range(num_maps)` empty, so decoding succeeds
  with empty output (datacraft_demo.py:171).

## Model

| member | source | states |
|---|---|---|
| `ByteColor.ToColor` | datacraft_demo.py:31 | the colour is the unique value in [-128,127] congruent to the byte modulo 256; it is negative exactly when the byte is at least 128 |
| `ByteColor.ToByte` | datacraft_demo.py:43 | the byte is the unique value in [0,255] congruent to the colour modulo 256; it is at least 128 exactly when the colour is negative |
| `ByteColor.ByteColorByte` | datacraft_demo.py:31-43 | byte -> colour -> byte is the identity on [0,255] |
| `ByteColor.ColorByteColor` | datacraft_demo.py:31-43 | colour -> byte -> colour is the identity on [-128,127] |
| `ByteColor.RemapsInjective` | datacraft_demo.py:31-43 | both remaps are injective, so they form a bijection between [0,255] and [-128,127] |
| `ChunkCodec.BytesToColors` | datacraft_demo.py:20-34 | for any byte input the result has exactly `size` colours; position `k` is the remapped `data[k]` while the data lasts and 0 beyond it |
| `ChunkCodec.ColorsToBytes` | datacraft_demo.py:36-45 | the result has the input's length, and position `k` is the unsigned remap of colour `k` |
| `ChunkCodec.EncodeChunkTruncates` | datacraft_demo.py:29 | a chunk longer than the map is cut to its first `size` bytes and is not rejected |
| `ChunkCodec.ChunkRoundTrip` | datacraft_demo.py:20-45 | for a chunk no longer than the map, decoding its colours gives the chunk followed by zero padding; the first `len(chunk)` bytes are the chunk itself |
| `ChunkCodec.ColorsRoundTrip` | datacraft_demo.py:20-45 | the bytes of a colour array encode back to the same colours |
| `MapStore.NumMaps` | datacraft_demo.py:103 | the map count is the ceiling of file size / map size: `n` maps cover the file, and `n - 1` maps do not |
| `MapStore.ChunkStartInside` | datacraft_demo.py:110-113 | every chunk index below the map count starts inside the file, and its whole window lies within the `n` maps |
| `MapStore.ChunkLengths` | datacraft_demo.py:110-113 | every chunk except the last holds exactly `size` bytes; the last holds between 1 and `size` bytes |
| `MapStore.ChunksConcat` | datacraft_demo.py:110-113 | the chunks concatenated in order are exactly the file |
| `MapStore.EncodeFile` | datacraft_demo.py:102-139 | it writes `ceil(len / size)` records; record `i` has id `start_id + i`, so ids are contiguous and strictly increasing; each record has `size` colours and holds chunk `i`; the metadata is (file size, map count, start id, start id + count - 1) |
| `MapStore.SavedKeys` | datacraft_demo.py:69-73 | writing records adds exactly their ids to the store |
| `MapStore.SavedUntouched` | datacraft_demo.py:69-73 | maps with an id that no written record carries are unchanged |
| `MapStore.SavedLastWrite` | datacraft_demo.py:69-73 | for each id, the store holds the last record written under it |
| `MapStore.SavedContiguous` | datacraft_demo.py:116-118 | after records with ids `start_id + i` are written, id `start_id + i` holds record `i` |
| `MapStore.SavedEncoded` | datacraft_demo.py:113-118 | after a run's records are written, map `start_id + i` holds the colours of chunk `i` |
| `MapStore.Padded` | datacraft_demo.py:25-26 | the padded file fills a whole number of maps and starts with the file |
| `MapStore.ChunkDecodesToWindow` | datacraft_demo.py:113-115 | decoding the map of chunk `i` gives window `i` of the zero-padded file |
| `MapStore.Gather` | datacraft_demo.py:168-190 | fetching the maps fails exactly when some id in the range has no map; the reported id is the first missing one |
| `MapStore.GatherEncoded` | datacraft_demo.py:168-190 | after a run's records are written over any store, gathering its first `k` maps gives the first `k * size` bytes of the padded file |
| `MapStore.GatherLength` | datacraft_demo.py:168-190 | when every map in range is present and holds `size` colours, gathering succeeds with `n * size` bytes |
| `MapStore.SliceTo` | datacraft_demo.py:198 | Python's `s[:n]` gives a prefix of `s`; its length is `min(n, len)`, or `max(0, len + n)` when `n` is negative |
| `MapStore.Trim` | datacraft_demo.py:196-198 | the result is a prefix of the buffer; it is cut to the original size only when that size is present, non-zero and smaller than the buffer; otherwise the buffer is returned whole |
| `MapStore.DecodeMaps` | datacraft_demo.py:166-198 | decoding fails exactly when an id in `[start_id, start_id + num_maps)` has no map; it names the first missing id and gives no output; otherwise it returns the trimmed concatenation `Decode` specifies |
| `MapStore.RoundTrip` | datacraft_demo.py:102-198 | decoding a run with the map count and original size from its metadata, over the store its records were written to, gives back exactly the file |
| `MapStore.TrimPadded` | datacraft_demo.py:196-198 | cutting the zero-padded file to the recorded original size gives back exactly the file, including when it is empty or a whole number of maps |
| `MapStore.DecodeWithoutMetadata` | datacraft_demo.py:196-200 | without metadata nothing is trimmed: the output is the zero-padded file, a whole number of maps long |
| `MapStore.EncodeThenDecode` | datacraft_demo.py:102-198 | encoding a file with `EncodeFile` and decoding the reported range with `DecodeMaps` gives back the file |
| `Scenarios.TwentyThousandZeros` | datacraft_demo.py:102-139 | 20000 zero bytes from id 1000000 take maps 1000000 and 1000001, with metadata (20000, 2, 1000000, 1000001), and decode to the same 20000 zeros |
| `Scenarios.SingleByte` | datacraft_demo.py:25-34 | a single byte 0xFF takes one map with colour -1 at position 0 and 0 at positions 1..16383, and decodes back to that byte |
| `Scenarios.SecondMapMissing` | datacraft_demo.py:171-177 | asking for two maps when only the first exists fails on id 1000001 |

## Left out

- The map record's container format is not modelled: building the NBT compound, the fixed descriptive fields (scale, dimension, tracking flags, `xCenter`/`zCenter = id * 128`, banners, frames, `DataVersion`) and the gzip save and load (datacraft_demo.py:47-73, 180-186). A record is its colour array in the store.
- MapStore.EncodeFile: accepts every start id. The source stores `map_id * 128` as a 32-bit NBT Int (datacraft_demo.py:57-58), and `update_idcounts` stores `start_id + num_maps - 1` as another (datacraft_demo.py:80, 123). Encoding therefore aborts, before the metadata is written, when any map id times 128 leaves the signed 32-bit range, or when `start_id + num_maps - 1` does. For an empty file that last value is `start_id - 1`. The model does not capture these aborts.
- MapStore.RoundTrip: holds only for runs the source completes, that is, runs that avoid the 32-bit aborts in the line above. It also assumes that decoding reads back the original size written at datacraft_demo.py:136. Decoding takes the first metadata line that contains the text `OriginalSize:` (datacraft_demo.py:160-164), and the `Filename:` line written before it (datacraft_demo.py:135) holds the input's base name. A base name that contains `OriginalSize:` or a newline can make datacraft_demo.py:162 read a different size or raise, so the output may be cut wrongly or not written. The same limits apply to MapStore.EncodeThenDecode.
- `update_idcounts` (datacraft_demo.py:75-83) is not modelled. It only writes the highest id to a file, and nothing in the codec reads it.
- Filesystem work is not modelled. This covers the existence checks for the input file, the world and the data folder, which end a run with `False`, plus directory creation, reading the input and writing the output (datacraft_demo.py:87-100, 149-151, 203-204).
- The metadata text file is reduced to what decoding uses. Finding `mapstore_meta_<start_id>.txt`, taking its first line that contains `OriginalSize:` and parsing it with `split`/`int` become the optional original size. The informational `Filename:` line (the input's base name) is not modelled; its effect on that lookup is stated under MapStore.RoundTrip above.
- Console output is not modelled: progress percentages, sizes in KB (floating point), the `/give` hints and the advisory "blank/corrupted" warning on an all-zero first 1000 bytes (datacraft_demo.py:209-212). None of them changes the result.
- MapStore.NumMaps: uses exact integer ceiling division. The source divides in floating point, which gives the same count for files smaller than 2^53 bytes.
- ChunkCodec.ColorsToBytes: takes colours typed in [-128,127], because a map's colour array is a signed-byte array, so no other value can be read from the store. Colours outside that range, which the source would map through line 43 (and reject at line 44 only when the result leaves 0..255), are not modelled.
- The command-line front end (`main`, argument parsing, the default start id as an argument default, exit codes) is not modelled (datacraft_demo.py:216-258).
