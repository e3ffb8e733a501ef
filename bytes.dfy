/** The database file as a byte sequence: positioned writes (Go's `Seek`
    followed by `Write`) and little-endian 32-bit words. */
module Bytes {
  import opened Common

  function Zeros(n: nat): (r: seq<byte>)
    ensures |r| == n && forall k :: 0 <= k < n ==> r[k] == 0
  {
    seq(n, _ => 0)
  }

  /** The file after writing `data` at offset `off`: bytes before and after
      the written range are kept, and a gap between the old end of the file
      and `off` reads as zeros (a write past the end extends the file). An
      empty write changes nothing. */
  function WriteAt(file: seq<byte>, off: nat, data: seq<byte>): (r: seq<byte>)
    ensures |r| == if data == [] || off + |data| <= |file| then |file| else off + |data|
    ensures forall k :: 0 <= k < |r| ==>
      r[k] == (if off <= k < off + |data| then data[k - off]
               else if k < |file| then file[k] else 0)
  {
    if data == [] then file
    else
      var padded := if |file| < off then file + Zeros(off - |file|) else file;
      padded[..off] + data + (if off + |data| < |padded| then padded[off + |data|..] else [])
  }

  /** Two consecutive writes equal one write of the concatenation: this is
      what lets a loop of `binary.Write` calls be read as one write. */
  lemma WriteAtConsecutive(file: seq<byte>, off: nat, a: seq<byte>, b: seq<byte>)
    ensures WriteAt(WriteAt(file, off, a), off + |a|, b) == WriteAt(file, off, a + b)
  {
    var lhs := WriteAt(WriteAt(file, off, a), off + |a|, b);
    var rhs := WriteAt(file, off, a + b);
    assert |lhs| == |rhs|;
    forall k | 0 <= k < |lhs| ensures lhs[k] == rhs[k] {
      if off + |a| <= k < off + |a| + |b| {
        assert (a + b)[k - off] == b[k - off - |a|];
      } else if off <= k < off + |a| {
        assert (a + b)[k - off] == a[k - off];
      }
    }
  }

  /** The written range reads back as the data written. */
  lemma WriteAtSlice(file: seq<byte>, off: nat, data: seq<byte>, i: nat, j: nat)
    requires i <= j <= |data| && data != []
    ensures off + j <= |WriteAt(file, off, data)|
    ensures WriteAt(file, off, data)[off + i .. off + j] == data[i..j]
  {
  }

  /** The little-endian encoding of a word (`binary.LittleEndian`). */
  function LeBytes(w: u32): (r: seq<byte>)
    ensures |r| == 4
  {
    var v := w as int;
    [(v % 0x100) as byte, (v / 0x100 % 0x100) as byte,
     (v / 0x1_0000 % 0x100) as byte, (v / 0x100_0000) as byte]
  }

  /** The word whose little-endian bytes are b0, b1, b2, b3. */
  function LeWord(b0: byte, b1: byte, b2: byte, b3: byte): (w: u32)
  {
    (b0 as int + 0x100 * b1 as int + 0x1_0000 * b2 as int + 0x100_0000 * b3 as int) as u32
  }

  /** The little-endian word stored at `off`. */
  function WordAt(file: seq<byte>, off: nat): u32
    requires off + 4 <= |file|
  {
    LeWord(file[off], file[off + 1], file[off + 2], file[off + 3])
  }

  /** Decoding the little-endian bytes of a word gives the word back. */
  lemma LeRoundTrip(w: u32)
    ensures LeWord(LeBytes(w)[0], LeBytes(w)[1], LeBytes(w)[2], LeBytes(w)[3]) == w
  {
    var v := w as int;
    var q1 := v / 0x100;
    var q2 := q1 / 0x100;
    assert v == q1 * 0x100 + v % 0x100;
    assert q1 == q2 * 0x100 + q1 % 0x100;
    assert q2 == v / 0x1_0000;
    assert q2 / 0x100 == v / 0x100_0000;
    assert q2 == (q2 / 0x100) * 0x100 + q2 % 0x100;
  }

  /** The little-endian bytes of a sequence of words, one word after the
      other (`binary.Write` of a `[]uint32`). */
  function LeWords(ws: seq<u32>): (r: seq<byte>)
    ensures |r| == 4 * |ws|
  {
    if ws == [] then [] else LeBytes(ws[0]) + LeWords(ws[1..])
  }

  lemma {:induction false} LeWordsAt(ws: seq<u32>, k: nat)
    requires k < |ws|
    ensures LeWords(ws)[4 * k .. 4 * k + 4] == LeBytes(ws[k])
  {
    if k > 0 {
      LeWordsAt(ws[1..], k - 1);
      assert LeWords(ws) == LeBytes(ws[0]) + LeWords(ws[1..]);
      assert LeWords(ws)[4 * k .. 4 * k + 4] == LeWords(ws[1..])[4 * (k - 1) .. 4 * (k - 1) + 4];
    }
  }

  lemma LeWordsAppend(ws: seq<u32>, w: u32)
    ensures LeWords(ws + [w]) == LeWords(ws) + LeBytes(w)
  {
    if ws != [] {
      assert (ws + [w])[1..] == ws[1..] + [w];
      LeWordsAppend(ws[1..], w);
    }
  }
}
