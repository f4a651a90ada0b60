/** Concrete runs at the real map size of 128 x 128 bytes. */
module Scenarios {
  import opened Results
  import opened ByteColor
  import opened ChunkCodec
  import opened MapStore

  /**
   * 20000 zero bytes from the default start id take two maps, ids 1000000
   * and 1000001, and decode back to exactly 20000 zero bytes.
   */
  lemma TwentyThousandZeros(store: Store)
    ensures var file := Zeros(20000);
            var records := EncodeRecords(file, DefaultStartId, MapSize);
            && |records| == 2
            && records[0].id == 1000000 && records[1].id == 1000001
            && EncodeMetadata(file, DefaultStartId, MapSize) == RunMetadata(20000, 2, 1000000, 1000001)
            && Decode(Saved(store, records), 1000000, 2, Some(20000)) == Success(file)
  {
    RoundTrip(Zeros(20000), DefaultStartId, MapSize, store);
  }

  /**
   * A single 0xFF byte takes one map whose first colour is -1 and whose
   * other 16383 colours are padding zeros; it decodes back to that byte.
   */
  lemma SingleByte(store: Store)
    ensures var file: seq<Byte> := [255];
            var records := EncodeRecords(file, DefaultStartId, MapSize);
            && |records| == 1
            && records[0].id == DefaultStartId
            && |records[0].colors| == 16384
            && records[0].colors[0] == -1
            && (forall k :: 1 <= k < 16384 ==> records[0].colors[k] == 0)
            && Decode(Saved(store, records), DefaultStartId, 1, Some(1)) == Success(file)
  {
    var file: seq<Byte> := [255];
    assert ChunkOf(file, 0, MapSize) == file;
    RoundTrip(file, DefaultStartId, MapSize, store);
  }

  /** Asking for two maps when only the first was written fails on the second id, with no output. */
  lemma SecondMapMissing(colors: seq<Color>)
    ensures Decode(map[1000000 := colors], 1000000, 2, Some(20000)) == Failure(MissingRecord(1000001))
  {
    var store := map[1000000 := colors];
    assert !AllPresent(store, 1000000, 2) by {
      assert 1000001 !in store;
    }
  }
}
