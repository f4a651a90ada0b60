/**
 * Sequencing of the codec over a whole file.
 *
 * Encoding slices a file into contiguous chunks of the map size, turns
 * chunk `i` into the map record with id `startId + i` and describes the run
 * in a metadata record. Decoding fetches the records of an id range in
 * order, concatenates their bytes and trims the zero padding using the
 * original size from the metadata, when it is known.
 *
 * The world's map files are abstracted as a store from map id to the
 * record's colour array; the metadata file as the original size it holds,
 * if any.
 */
module MapStore {
  import opened Results
  import opened ByteColor
  import opened ChunkCodec

  /** The number of bytes one map holds: 128 x 128 pixels. */
  const MapSize: nat := 128 * 128

  /** The first map id of a run when the caller names none. */
  const DefaultStartId: int := 1000000

  /** The record store: map id to the colour array of that map. */
  type Store = map<int, seq<Color>>

  /** One map record written by an encode run. */
  datatype MapRecord = MapRecord(id: int, colors: seq<Color>)

  /** What an encode run records about itself. */
  datatype RunMetadata = RunMetadata(originalSize: nat, maps: nat, startId: int, endId: int)

  /** Why a decode run stopped without output. */
  datatype DecodeError = MissingRecord(id: int)

  function Min(a: int, b: int): int { if a <= b then a else b }

  function Max(a: int, b: int): int { if a >= b then a else b }

  // ---------------------------------------------------------------------
  // Encoding
  // ---------------------------------------------------------------------

  /** The number of maps for a file of `fileSize` bytes: the ceiling of `fileSize / size`. */
  function NumMaps(fileSize: nat, size: nat): (n: nat)
    requires size > 0
    ensures fileSize <= n * size
    ensures n == 0 || (n - 1) * size < fileSize
  {
    (fileSize + size - 1) / size
  }

  /** Every chunk index below the map count starts inside the file. */
  lemma ChunkStartInside(fileSize: nat, i: nat, size: nat)
    requires size > 0 && i < NumMaps(fileSize, size)
    ensures i * size < fileSize
    ensures i * size + size <= NumMaps(fileSize, size) * size
  {
    var n := NumMaps(fileSize, size);
    MulMonotone(i, n - 1, size);
  }

  lemma MulMonotone(a: nat, b: nat, c: nat)
    requires a <= b
    ensures a * c <= b * c
  {
  }

  /** Chunk `i` of a file: the bytes from `i * size` up to `(i + 1) * size` or the end of the file. */
  function ChunkOf(file: seq<Byte>, i: nat, size: nat): seq<Byte>
    requires size > 0 && i < NumMaps(|file|, size)
  {
    ChunkStartInside(|file|, i, size);
    file[i * size .. Min((i + 1) * size, |file|)]
  }

  /** The chunks of a file, in order. */
  function Chunks(file: seq<Byte>, size: nat): (chunks: seq<seq<Byte>>)
    requires size > 0
    ensures |chunks| == NumMaps(|file|, size)
  {
    seq(NumMaps(|file|, size), i requires 0 <= i < NumMaps(|file|, size) => ChunkOf(file, i, size))
  }

  /** The records an encode run writes: chunk `i` as the map with id `startId + i`. */
  function EncodeRecords(file: seq<Byte>, startId: int, size: nat): seq<MapRecord>
    requires size > 0
  {
    var chunks := Chunks(file, size);
    seq(|chunks|, i requires 0 <= i < |chunks| => MapRecord(startId + i, EncodeChunk(chunks[i], size)))
  }

  /** The metadata an encode run writes: original size, map count and id range. */
  function EncodeMetadata(file: seq<Byte>, startId: int, size: nat): RunMetadata
    requires size > 0
  {
    var n := NumMaps(|file|, size);
    RunMetadata(|file|, n, startId, startId + n - 1)
  }

  /**
   * Encode a file into map records, slicing chunk after chunk and giving
   * each the next id, then describe the run.
   */
  method EncodeFile(file: seq<Byte>, startId: int, size: nat) returns (records: seq<MapRecord>, meta: RunMetadata)
    requires size > 0
    ensures |records| == NumMaps(|file|, size)
    ensures forall i :: 0 <= i < |records| ==> records[i].id == startId + i
    ensures forall i :: 0 <= i < |records| ==> |records[i].colors| == size
    ensures records == EncodeRecords(file, startId, size)
    ensures meta == RunMetadata(|file|, |records|, startId, startId + |records| - 1)
  {
    var fileSize := |file|;
    var numMaps := NumMaps(fileSize, size);
    records := [];
    for i := 0 to numMaps
      invariant records == EncodeRecords(file, startId, size)[..i]
    {
      ChunkStartInside(fileSize, i, size);
      var startByte := i * size;
      var endByte := Min((i + 1) * size, fileSize);
      var chunk := file[startByte..endByte];
      var colors := BytesToColors(chunk, size);
      records := records + [MapRecord(startId + i, colors)];
    }
    meta := RunMetadata(fileSize, numMaps, startId, startId + numMaps - 1);
  }

  /** Every chunk but the last fills a whole map; the last one holds between 1 and `size` bytes. */
  lemma ChunkLengths(file: seq<Byte>, i: nat, size: nat)
    requires size > 0 && i < NumMaps(|file|, size)
    ensures i < NumMaps(|file|, size) - 1 ==> |ChunkOf(file, i, size)| == size
    ensures i == NumMaps(|file|, size) - 1 ==> 0 < |ChunkOf(file, i, size)| <= size
  {
    ChunkStartInside(|file|, i, size);
    if i < NumMaps(|file|, size) - 1 {
      ChunkStartInside(|file|, i + 1, size);
    }
  }

  /** The concatenation of a sequence of byte chunks, in order. */
  function Concat(chunks: seq<seq<Byte>>): seq<Byte>
  {
    if chunks == [] then [] else Concat(chunks[..|chunks| - 1]) + chunks[|chunks| - 1]
  }

  /** The chunks, concatenated in order, are exactly the file. */
  lemma {:induction false} ChunksConcat(file: seq<Byte>, size: nat)
    requires size > 0
    ensures Concat(Chunks(file, size)) == file
  {
    var chunks := Chunks(file, size);
    ChunksConcatPrefix(file, size, |chunks|);
    assert chunks[..|chunks|] == chunks;
  }

  lemma {:induction false} ChunksConcatPrefix(file: seq<Byte>, size: nat, k: nat)
    requires size > 0 && k <= NumMaps(|file|, size)
    ensures Concat(Chunks(file, size)[..k]) == file[..Min(k * size, |file|)]
  {
    var chunks := Chunks(file, size);
    if k > 0 {
      var lo := (k - 1) * size;
      var hi := Min(k * size, |file|);
      ChunksConcatPrefix(file, size, k - 1);
      ChunkStartInside(|file|, k - 1, size);
      assert lo + size == k * size;
      assert Concat(chunks[..k]) == Concat(chunks[..k - 1]) + chunks[k - 1] by {
        assert chunks[..k][..k - 1] == chunks[..k - 1];
      }
      assert chunks[k - 1] == file[lo..hi];
      assert file[..lo] + file[lo..hi] == file[..hi];
    }
  }

  // ---------------------------------------------------------------------
  // Writing records
  // ---------------------------------------------------------------------

  /** The ids of a sequence of records. */
  function Ids(records: seq<MapRecord>): set<int>
  {
    set r | r in records :: r.id
  }

  /** The store after writing `records` one after another; a later write replaces an earlier one. */
  function Saved(store: Store, records: seq<MapRecord>): Store
    decreases |records|
  {
    if records == [] then store
    else Saved(store[records[0].id := records[0].colors], records[1..])
  }

  lemma IdsOfTail(records: seq<MapRecord>)
    requires records != []
    ensures Ids(records) == {records[0].id} + Ids(records[1..])
  {
    assert records == [records[0]] + records[1..];
  }

  /** Writing records adds exactly their ids to the store. */
  lemma {:induction false} SavedKeys(store: Store, records: seq<MapRecord>)
    ensures Saved(store, records).Keys == store.Keys + Ids(records)
    decreases |records|
  {
    if records != [] {
      SavedKeys(store[records[0].id := records[0].colors], records[1..]);
      IdsOfTail(records);
    }
  }

  /** Writing records leaves every map whose id none of them carries as it was. */
  lemma {:induction false} SavedUntouched(store: Store, records: seq<MapRecord>, id: int)
    requires id in store && id !in Ids(records)
    ensures id in Saved(store, records) && Saved(store, records)[id] == store[id]
    decreases |records|
  {
    if records != [] {
      IdsOfTail(records);
      SavedUntouched(store[records[0].id := records[0].colors], records[1..], id);
    }
  }

  /** The record last written under an id is the one the store holds for it. */
  lemma {:induction false} SavedLastWrite(store: Store, records: seq<MapRecord>, j: nat)
    requires j < |records|
    requires forall k :: j < k < |records| ==> records[k].id != records[j].id
    ensures records[j].id in Saved(store, records)
    ensures Saved(store, records)[records[j].id] == records[j].colors
    decreases |records|
  {
    var first := records[0];
    var rest := records[1..];
    var written := store[first.id := first.colors];
    if j == 0 {
      forall r | r in rest
        ensures r.id != first.id
      {
        var k :| 0 <= k < |rest| && rest[k] == r;
        assert records[k + 1] == r;
      }
      SavedUntouched(written, rest, first.id);
    } else {
      forall k | j - 1 < k < |rest|
        ensures rest[k].id != rest[j - 1].id
      {
        assert rest[k] == records[k + 1];
      }
      SavedLastWrite(written, rest, j - 1);
    }
  }

  // ---------------------------------------------------------------------
  // Decoding
  // ---------------------------------------------------------------------

  /** Every id in `[start, start + n)` has a record. */
  predicate AllPresent(store: Store, start: int, n: nat)
  {
    forall id :: start <= id < start + n ==> id in store
  }

  /** `id` is the first id in `[start, start + n)` without a record. */
  predicate IsFirstMissing(store: Store, start: int, n: nat, id: int)
  {
    start <= id < start + n && id !in store && AllPresent(store, start, id - start)
  }

  /**
   * Fetch the records `start .. start + n - 1` in id order and concatenate
   * their bytes, or report the first id that has no record.
   */
  function Gather(store: Store, start: int, n: nat): (r: Result<seq<Byte>, DecodeError>)
    ensures r.Failure? <==> !AllPresent(store, start, n)
    ensures r.Failure? ==> IsFirstMissing(store, start, n, r.error.id)
  {
    if n == 0 then Success([])
    else
      match Gather(store, start, n - 1)
      case Failure(e) => Failure(e)
      case Success(prefix) =>
        if start + n - 1 in store then Success(prefix + DecodeChunk(store[start + n - 1]))
        else Failure(MissingRecord(start + n - 1))
  }

  /** Python's `s[:n]`: a negative `n` counts from the end. */
  function SliceTo(s: seq<Byte>, n: int): (out: seq<Byte>)
    ensures out <= s
    ensures |out| == if n >= 0 then Min(n, |s|) else Max(0, |s| + n)
  {
    if n >= 0 then s[..Min(n, |s|)] else s[..Max(0, |s| + n)]
  }

  /**
   * Strip padding: cut the buffer to the original size when that size is
   * known, non-zero and smaller than the buffer; keep it whole otherwise.
   */
  function Trim(buffer: seq<Byte>, originalSize: Option<int>): (out: seq<Byte>)
    ensures out <= buffer
    ensures originalSize.Some? && 0 < originalSize.value < |buffer| ==> |out| == originalSize.value
    ensures originalSize.Some? && originalSize.value < 0 ==> |out| == Max(0, |buffer| + originalSize.value)
    ensures originalSize.None? || originalSize.value == 0 || originalSize.value >= |buffer| ==> out == buffer
  {
    if originalSize.Some? && originalSize.value != 0 && originalSize.value < |buffer| then
      SliceTo(buffer, originalSize.value)
    else
      buffer
  }

  /** A decode run: gather `numMaps` records from `startId` (none if `numMaps` is negative), then trim. */
  function Decode(store: Store, startId: int, numMaps: int, originalSize: Option<int>): Result<seq<Byte>, DecodeError>
  {
    match Gather(store, startId, if numMaps < 0 then 0 else numMaps)
    case Failure(e) => Failure(e)
    case Success(buffer) => Success(Trim(buffer, originalSize))
  }

  /**
   * Decode maps back into the original bytes: fetch the records in id
   * order, stopping at the first missing one, extend the output with each
   * record's bytes and trim the padding.
   */
  method DecodeMaps(store: Store, startId: int, numMaps: int, originalSize: Option<int>)
    returns (r: Result<seq<Byte>, DecodeError>)
    ensures r.Failure? <==> exists id :: startId <= id < startId + numMaps && id !in store
    ensures r.Failure? ==> startId <= r.error.id < startId + numMaps && r.error.id !in store
    ensures r.Failure? ==> forall id :: startId <= id < r.error.id ==> id in store
    ensures r == Decode(store, startId, numMaps, originalSize)
  {
    var output: seq<Byte> := [];
    var i := 0;
    while i < numMaps
      invariant 0 <= i <= Max(0, numMaps)
      invariant Gather(store, startId, i) == Success(output)
      decreases numMaps - i
    {
      var mapId := startId + i;
      if mapId !in store {
        assert !AllPresent(store, startId, numMaps);
        return Failure(MissingRecord(mapId));
      }
      var chunkBytes := ColorsToBytes(store[mapId]);
      output := output + chunkBytes;
      i := i + 1;
    }
    assert i == if numMaps < 0 then 0 else numMaps;
    ghost var buffer := output;
    if originalSize.Some? && originalSize.value != 0 && originalSize.value < |output| {
      output := SliceTo(output, originalSize.value);
    }
    assert output == Trim(buffer, originalSize);
    return Success(output);
  }

  // ---------------------------------------------------------------------
  // Round trip
  // ---------------------------------------------------------------------

  /** The file followed by zero bytes up to a whole number of maps: what the maps of a run hold. */
  function Padded(file: seq<Byte>, size: nat): (p: seq<Byte>)
    requires size > 0
    ensures |p| == NumMaps(|file|, size) * size
    ensures p[..|file|] == file
    ensures forall k :: |file| <= k < |p| ==> p[k] == 0
  {
    file + Zeros(NumMaps(|file|, size) * size - |file|)
  }

  /** Decoding the map of chunk `i` gives the `i`-th map-sized window of the padded file. */
  lemma ChunkDecodesToWindow(file: seq<Byte>, i: nat, size: nat)
    requires size > 0 && i < NumMaps(|file|, size)
    ensures i * size + size <= |Padded(file, size)|
    ensures DecodeChunk(EncodeChunk(ChunkOf(file, i, size), size)) == Padded(file, size)[i * size .. i * size + size]
  {
    var chunk := ChunkOf(file, i, size);
    var p := Padded(file, size);
    ChunkStartInside(|file|, i, size);
    ChunkLengths(file, i, size);
    ChunkRoundTrip(chunk, size);
    var window := p[i * size .. i * size + size];
    forall k | 0 <= k < size
      ensures (chunk + Zeros(size - |chunk|))[k] == window[k]
    {
      if k < |chunk| {
        assert chunk[k] == file[i * size + k];
      }
    }
  }

  /** After a run's records are written, map `startId + i` holds the colours of chunk `i`. */
  lemma SavedEncoded(file: seq<Byte>, startId: int, size: nat, store: Store, i: nat)
    requires size > 0 && i < NumMaps(|file|, size)
    ensures startId + i in Saved(store, EncodeRecords(file, startId, size))
    ensures Saved(store, EncodeRecords(file, startId, size))[startId + i] == EncodeChunk(ChunkOf(file, i, size), size)
  {
    var records := EncodeRecords(file, startId, size);
    assert forall j :: 0 <= j < |records| ==> records[j].id == startId + j;
    SavedContiguous(store, records, startId, i);
  }

  /** Writing records with ids `startId, startId + 1, ...` leaves record `i` under id `startId + i`. */
  lemma SavedContiguous(store: Store, records: seq<MapRecord>, startId: int, i: nat)
    requires forall j :: 0 <= j < |records| ==> records[j].id == startId + j
    requires i < |records|
    ensures startId + i in Saved(store, records)
    ensures Saved(store, records)[startId + i] == records[i].colors
  {
    var r := Saved(store, records);
    var rec := records[i];
    assert rec.id == startId + i;
    forall m | i < m < |records|
      ensures records[m].id != rec.id
    {
      assert records[m].id == startId + m;
    }
    SavedLastWrite(store, records, i);
  }

  /** Gathering the first `k` maps of a run, after its records are written, gives the first `k` windows of the padded file. */
  lemma {:induction false} GatherEncoded(file: seq<Byte>, startId: int, size: nat, store: Store, k: nat)
    requires size > 0 && k <= NumMaps(|file|, size)
    ensures k * size <= |Padded(file, size)|
    ensures Gather(Saved(store, EncodeRecords(file, startId, size)), startId, k)
            == Success(Padded(file, size)[..k * size])
  {
    MulMonotone(k, NumMaps(|file|, size), size);
    if k > 0 {
      var saved := Saved(store, EncodeRecords(file, startId, size));
      var p := Padded(file, size);
      var lo := (k - 1) * size;
      GatherEncoded(file, startId, size, store, k - 1);
      SavedEncoded(file, startId, size, store, k - 1);
      ChunkDecodesToWindow(file, k - 1, size);
      assert lo + size == k * size;
      GatherStep(saved, startId, k, p[..lo], p[lo .. k * size]);
      assert p[..lo] + p[lo .. k * size] == p[..k * size];
    }
  }

  /** One step of gathering: a present record's bytes go after those of the records before it. */
  lemma GatherStep(store: Store, start: int, k: nat, prefix: seq<Byte>, last: seq<Byte>)
    requires k > 0 && Gather(store, start, k - 1) == Success(prefix)
    requires start + k - 1 in store && DecodeChunk(store[start + k - 1]) == last
    ensures Gather(store, start, k) == Success(prefix + last)
  {
  }

  /**
   * Full round trip: decoding, over the store the records were written to,
   * the id range and original size from the run's metadata gives back
   * exactly the file, whatever the store held before.
   */
  lemma RoundTrip(file: seq<Byte>, startId: int, size: nat, store: Store)
    requires size > 0
    ensures var meta := EncodeMetadata(file, startId, size);
            Decode(Saved(store, EncodeRecords(file, startId, size)), meta.startId, meta.maps, Some(meta.originalSize))
            == Success(file)
  {
    var n := NumMaps(|file|, size);
    var p := Padded(file, size);
    var saved := Saved(store, EncodeRecords(file, startId, size));
    GatherEncoded(file, startId, size, store, n);
    assert p[..n * size] == p;
    assert Gather(saved, startId, n) == Success(p);
    TrimPadded(file, size);
  }

  /** Trimming the padded file to the file's own size gives back the file. */
  lemma TrimPadded(file: seq<Byte>, size: nat)
    requires size > 0
    ensures Trim(Padded(file, size), Some(|file|)) == file
  {
    var p := Padded(file, size);
    if 0 < |file| == |p| {
      assert p == p[..|file|];
    }
  }

  /** Without metadata nothing is trimmed: the output is the padded file, a whole number of maps. */
  lemma DecodeWithoutMetadata(file: seq<Byte>, startId: int, size: nat, store: Store)
    requires size > 0
    ensures var out := Decode(Saved(store, EncodeRecords(file, startId, size)), startId, NumMaps(|file|, size), None);
            out == Success(Padded(file, size)) && |out.value| == NumMaps(|file|, size) * size
  {
    var n := NumMaps(|file|, size);
    GatherEncoded(file, startId, size, store, n);
    assert Padded(file, size)[..n * size] == Padded(file, size);
  }

  /** Over any store whose maps in range all hold `size` colours, the gathered buffer is `n * size` bytes. */
  lemma {:induction false} GatherLength(store: Store, start: int, n: nat, size: nat)
    requires AllPresent(store, start, n)
    requires forall id :: start <= id < start + n ==> |store[id]| == size
    ensures Gather(store, start, n).Success?
    ensures |Gather(store, start, n).value| == n * size
  {
    if n > 0 {
      GatherLength(store, start, n - 1, size);
      assert (n - 1) * size + size == n * size;
    }
  }

  /**
   * Encode followed by decode, driven as a user would: decode the id range
   * and original size that the encode run reported, over the store its
   * records were written to.
   */
  method EncodeThenDecode(file: seq<Byte>, startId: int, size: nat, store: Store) returns (r: Result<seq<Byte>, DecodeError>)
    requires size > 0
    ensures r == Success(file)
  {
    var records, meta := EncodeFile(file, startId, size);
    r := DecodeMaps(Saved(store, records), meta.startId, meta.maps, Some(meta.originalSize));
    RoundTrip(file, startId, size, store);
  }
}
