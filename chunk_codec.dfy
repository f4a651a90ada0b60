/**
 * The per-chunk codec: one chunk of file bytes becomes one map's colour
 * array (zero-padded, or truncated, to exactly the map size), and a colour
 * array becomes bytes again, position by position.
 */
module ChunkCodec {
  import opened ByteColor

  /**
   * What one map holds for a chunk `data`: exactly `size` colours, position
   * `k` carrying the remapped `data[k]` while `data` lasts and 0 after it.
   */
  function EncodeChunk(data: seq<Byte>, size: nat): seq<Color>
  {
    seq(size, k requires 0 <= k < size => if k < |data| then ToColor(data[k]) else 0)
  }

  /** The bytes a colour array stands for, one per colour. */
  function DecodeChunk(colors: seq<Color>): seq<Byte>
  {
    seq(|colors|, k requires 0 <= k < |colors| => ToByte(colors[k]))
  }

  /**
   * Pad `data` with zero bytes up to `size`, keep its first `size` bytes and
   * remap each one, appending to the colour list.
   */
  method BytesToColors(data: seq<Byte>, size: nat) returns (colors: seq<Color>)
    ensures |colors| == size
    ensures forall k :: 0 <= k < |data| && k < size ==> colors[k] == ToColor(data[k])
    ensures forall k :: |data| <= k < size ==> colors[k] == 0
    ensures colors == EncodeChunk(data, size)
  {
    var padded := data;
    if |padded| < size {
      padded := padded + Zeros(size - |padded|);
    }
    var window := padded[..size];
    colors := [];
    for i := 0 to |window|
      invariant |colors| == i
      invariant forall k :: 0 <= k < i ==> colors[k] == ToColor(window[k])
    {
      colors := colors + [ToColor(window[i])];
    }
  }

  /** Remap each colour back to a byte, appending to a byte buffer. */
  method ColorsToBytes(colors: seq<Color>) returns (data: seq<Byte>)
    ensures |data| == |colors|
    ensures forall k :: 0 <= k < |colors| ==> data[k] == ToByte(colors[k])
    ensures data == DecodeChunk(colors)
  {
    data := [];
    for i := 0 to |colors|
      invariant |data| == i
      invariant forall k :: 0 <= k < i ==> data[k] == ToByte(colors[k])
    {
      data := data + [ToByte(colors[i])];
    }
  }

  /** Only the first `size` bytes of an over-long chunk reach the map; nothing is rejected. */
  lemma EncodeChunkTruncates(data: seq<Byte>, size: nat)
    requires |data| > size
    ensures EncodeChunk(data, size) == EncodeChunk(data[..size], size)
  {
  }

  /**
   * Chunk round trip: decoding the map of a chunk no longer than the map
   * gives back the chunk followed by zero padding up to the map size.
   */
  lemma ChunkRoundTrip(data: seq<Byte>, size: nat)
    requires |data| <= size
    ensures DecodeChunk(EncodeChunk(data, size)) == data + Zeros(size - |data|)
    ensures DecodeChunk(EncodeChunk(data, size))[..|data|] == data
  {
    var r := DecodeChunk(EncodeChunk(data, size));
    forall k | 0 <= k < size
      ensures r[k] == (data + Zeros(size - |data|))[k]
    {
      if k < |data| {
        ByteColorByte(data[k]);
      }
    }
  }

  /** The other direction: encoding the bytes of a full colour array gives it back. */
  lemma ColorsRoundTrip(colors: seq<Color>)
    ensures EncodeChunk(DecodeChunk(colors), |colors|) == colors
  {
    var r := EncodeChunk(DecodeChunk(colors), |colors|);
    forall k | 0 <= k < |colors|
      ensures r[k] == colors[k]
    {
      ColorByteColor(colors[k]);
    }
  }
}
