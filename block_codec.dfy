/** The image table of `labels.db`: fixed-size blocks laid end to end from
    offset 0x4100, the k-th block belonging to the k-th index word
    (main.go:81-91 reads it, main.go:107-114 writes it). */
module BlockCodec {
  import opened Common
  import opened Bytes

  /** Bytes taken by the first k blocks: k * EntrySize, built up one block
      at a time as the read and write loops advance. */
  function Slot(k: nat): nat
  {
    if k == 0 then 0 else Slot(k - 1) + EntrySize
  }

  lemma {:induction false} SlotValue(k: nat)
    ensures Slot(k) == k * EntrySize
  {
    if k > 0 {
      SlotValue(k - 1);
    }
  }

  lemma {:induction false} SlotMono(a: nat, b: nat)
    requires a < b
    ensures Slot(a) + EntrySize <= Slot(b)
    decreases b
  {
    if a + 1 < b {
      SlotMono(a, b - 1);
    }
  }

  lemma SlotsFit(count: nat)
    ensures forall k :: 0 <= k < count ==> Slot(k) + EntrySize <= Slot(count)
  {
    forall k | 0 <= k < count ensures Slot(k) + EntrySize <= Slot(count) {
      SlotMono(k, count);
    }
  }

  /** Start of the k-th block of the image table. */
  function BlockOffset(k: nat): nat
  {
    ImgsStart + Slot(k)
  }

  /** What reading `count` blocks gives: the count consecutive EntrySize
      chunks from 0x4100, or Truncated when the file ends before the last
      one is complete. Reading no block never fails. */
  function ReadBlocksSpec(file: seq<byte>, count: nat): (r: Result<seq<Block>>)
    ensures r.Ok? <==> count == 0 || BlockOffset(count) <= |file|
    ensures r.Err? ==> r.error == Truncated
    ensures r.Ok? ==> |r.value| == count && forall k :: 0 <= k < count ==>
      BlockOffset(k) + EntrySize <= |file| && r.value[k] == file[BlockOffset(k) .. BlockOffset(k) + EntrySize]
  {
    if count == 0 then Ok([])
    else if BlockOffset(count) <= |file| then
      SlotsFit(count);
      Ok(seq(count, k requires 0 <= k < count => file[BlockOffset(k) .. BlockOffset(k) + EntrySize]))
    else Err(Truncated)
  }

  /** The block read loop (main.go:81-91): one EntrySize chunk per index
      word, read one after the other from 0x4100. */
  method ReadBlocks(file: seq<byte>, count: nat) returns (r: Result<seq<Block>>)
    ensures r == ReadBlocksSpec(file, count)
  {
    var imgs: seq<Block> := [];
    var pos := ImgsStart;
    var k := 0;
    while k < count
      invariant k <= count && |imgs| == k && pos == BlockOffset(k)
      invariant forall j :: 0 <= j < k ==>
        BlockOffset(j) + EntrySize <= |file| && imgs[j] == file[BlockOffset(j) .. BlockOffset(j) + EntrySize]
    {
      if |file| < pos + EntrySize {
        if k + 1 < count {
          SlotMono(k + 1, count);
        }
        return Err(Truncated);
      }
      imgs := imgs + [file[pos .. pos + EntrySize]];
      pos := pos + EntrySize;
      k := k + 1;
    }
    if count > 0 {
      assert BlockOffset(count - 1) + EntrySize <= |file|;
      assert imgs == ReadBlocksSpec(file, count).value;
    }
    return Ok(imgs);
  }

  /** The blocks written one after the other into a single byte stream. */
  function Concat(blocks: seq<Block>): (r: seq<byte>)
  {
    if blocks == [] then [] else Concat(blocks[..|blocks| - 1]) + blocks[|blocks| - 1]
  }

  /** The block write loop (main.go:107-114): each block is written where
      the previous one ended, starting at 0x4100. */
  method WriteBlocks(file: seq<byte>, blocks: seq<Block>) returns (out: seq<byte>)
    ensures out == WriteAt(file, ImgsStart, Concat(blocks))
  {
    out := file;
    var pos := ImgsStart;
    var i := 0;
    while i < |blocks|
      invariant i <= |blocks|
      invariant pos == ImgsStart + |Concat(blocks[..i])|
      invariant out == WriteAt(file, ImgsStart, Concat(blocks[..i]))
    {
      assert blocks[..i + 1][..i] == blocks[..i];
      WriteAtConsecutive(file, ImgsStart, Concat(blocks[..i]), blocks[i]);
      out := WriteAt(out, pos, blocks[i]);
      pos := pos + |blocks[i]|;
      i := i + 1;
    }
    assert blocks[..i] == blocks;
  }

  /** Concatenating blocks of EntrySize bytes puts the k-th block at Slot(k). */
  lemma {:induction false} ConcatLayout(blocks: seq<Block>)
    requires forall b :: b in blocks ==> |b| == EntrySize
    ensures |Concat(blocks)| == Slot(|blocks|)
    ensures forall k :: 0 <= k < |blocks| ==>
      Slot(k) + EntrySize <= |Concat(blocks)| &&
      Concat(blocks)[Slot(k) .. Slot(k) + EntrySize] == blocks[k]
  {
    if blocks != [] {
      var n := |blocks| - 1;
      var init := blocks[..n];
      assert forall b :: b in init ==> b in blocks;
      ConcatLayout(init);
      var c := Concat(blocks);
      assert c == Concat(init) + blocks[n];
      forall k | 0 <= k < |blocks|
        ensures Slot(k) + EntrySize <= |c|
        ensures c[Slot(k) .. Slot(k) + EntrySize] == blocks[k]
      {
        if k < n {
          SlotMono(k, n);
          assert c[Slot(k) .. Slot(k) + EntrySize] == Concat(init)[Slot(k) .. Slot(k) + EntrySize];
        }
      }
    }
  }

  /** Writing blocks of EntrySize bytes at 0x4100 and then reading as many
      blocks as were written gives the same blocks back, whatever the file
      held before. */
  lemma BlocksRoundTrip(file: seq<byte>, blocks: seq<Block>)
    requires forall b :: b in blocks ==> |b| == EntrySize
    ensures ReadBlocksSpec(WriteAt(file, ImgsStart, Concat(blocks)), |blocks|) == Ok(blocks)
  {
    var out := WriteAt(file, ImgsStart, Concat(blocks));
    var c := Concat(blocks);
    ConcatLayout(blocks);
    if blocks != [] {
      assert BlockOffset(|blocks|) <= |out|;
      var r := ReadBlocksSpec(out, |blocks|).value;
      forall k | 0 <= k < |blocks| ensures r[k] == blocks[k] {
        WriteAtSlice(file, ImgsStart, c, Slot(k), Slot(k) + EntrySize);
      }
      assert r == blocks;
    }
  }
}
