/**
 * How `DigolePrimitive._write` cuts an outbound byte string into the pieces
 * that go onto the bus, and the facts that make that cutting lossless.
 */
module Chunking {
  import opened Encoding

  /** The largest single bus write `_write` makes. */
  const ChunkSize := 64

  function Min(a: int, b: int): int { if a <= b then a else b }

  /** The pieces `for i in range(start, len(v), 64): v[i:i+64]` visits. */
  function Slices(v: seq<byte>, start: nat): seq<seq<byte>>
    decreases |v| - start
  {
    if start >= |v| then []
    else [v[start..Min(start + ChunkSize, |v|)]] + Slices(v, start + ChunkSize)
  }

  /** The bus writes `_write(v)` makes, in order. */
  function Chunks(v: seq<byte>): seq<seq<byte>>
  {
    if |v| > ChunkSize then Slices(v, 0) else [v]
  }

  lemma {:induction false} SlicesFlatten(v: seq<byte>, start: nat)
    requires start <= |v|
    ensures Flatten(Slices(v, start)) == v[start..]
    decreases |v| - start
  {
    if start < |v| {
      var end := Min(start + ChunkSize, |v|);
      SlicesFlatten(v, end);
      if end < |v| {
        assert Slices(v, start + ChunkSize) == Slices(v, end);
      } else {
        assert Slices(v, start + ChunkSize) == [];
      }
      assert v[start..] == v[start..end] + v[end..];
    }
  }

  /** No byte is lost, repeated or moved: the pieces put back together give `v`. */
  lemma ChunksFlatten(v: seq<byte>)
    ensures Flatten(Chunks(v)) == v
  {
    if |v| > ChunkSize {
      SlicesFlatten(v, 0);
    } else {
      assert Flatten([v]) == v + Flatten([]);
    }
  }

  lemma {:induction false} SlicesCount(v: seq<byte>, start: nat)
    requires start <= |v|
    ensures |Slices(v, start)| == (|v| - start + ChunkSize - 1) / ChunkSize
    decreases |v| - start
  {
    if start < |v| {
      if start + ChunkSize <= |v| {
        SlicesCount(v, start + ChunkSize);
      } else {
        assert Slices(v, start + ChunkSize) == [];
      }
    }
  }

  lemma {:induction false} SlicesAt(v: seq<byte>, start: nat, k: nat)
    requires k < |Slices(v, start)|
    ensures start + ChunkSize * k < |v|
    ensures Slices(v, start)[k] == v[start + ChunkSize * k .. Min(start + ChunkSize * k + ChunkSize, |v|)]
    decreases k
  {
    if k > 0 {
      SlicesAt(v, start + ChunkSize, k - 1);
      assert start + ChunkSize + ChunkSize * (k - 1) == start + ChunkSize * k;
    }
  }

  /**
   * `_write(v)` with `len(v) <= 64` is one bus write of `v`; a longer `v`
   * becomes the consecutive slices `v[64k : 64k+64]`, every one non-empty and
   * at most 64 bytes long, and there are ceil(len(v) / 64) of them.
   */
  lemma ChunksShape(v: seq<byte>)
    ensures |v| <= ChunkSize ==> Chunks(v) == [v]
    ensures |v| > ChunkSize ==>
      && |Chunks(v)| == (|v| + ChunkSize - 1) / ChunkSize
      && forall k :: 0 <= k < |Chunks(v)| ==>
           ChunkSize * k < |v| && Chunks(v)[k] == v[ChunkSize * k .. Min(ChunkSize * k + ChunkSize, |v|)]
    ensures forall k :: 0 <= k < |Chunks(v)| ==> |Chunks(v)[k]| <= ChunkSize
    ensures |v| > ChunkSize ==> forall k :: 0 <= k < |Chunks(v)| ==> Chunks(v)[k] != []
  {
    if |v| > ChunkSize {
      SlicesCount(v, 0);
      forall k | 0 <= k < |Chunks(v)|
        ensures ChunkSize * k < |v| && Chunks(v)[k] == v[ChunkSize * k .. Min(ChunkSize * k + ChunkSize, |v|)]
      {
        SlicesAt(v, 0, k);
      }
    }
  }
}
