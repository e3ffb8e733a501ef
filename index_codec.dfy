/** The signature index of `labels.db`: little-endian 32-bit words from
    offset 0x100, ended by the sentinel 0xFFFFFFFF (main.go:64-79 reads it,
    main.go:97-106 writes it). */
module IndexCodec {
  import opened Common
  import opened Bytes

  /** Reading at most `n` words from `off`: stop before the sentinel, fail
      when the file ends inside the word being read. */
  function ScanIndex(file: seq<byte>, off: nat, n: nat): Result<seq<u32>>
    decreases n
  {
    if n == 0 then Ok([])
    else if |file| < off + 4 then Err(Truncated)
    else if WordAt(file, off) == IndexEOF then Ok([])
    else Prepend([WordAt(file, off)], ScanIndex(file, off + 4, n - 1))
  }

  /** What the index reader of the tool returns for a file. */
  function ReadIndexSpec(file: seq<byte>): Result<seq<u32>>
  {
    ScanIndex(file, IndexStart, MaxSlots)
  }

  /** The index read loop (main.go:64-79): at most MaxSlots words, stopping
      at the sentinel. */
  method ReadIndex(file: seq<byte>) returns (r: Result<seq<u32>>)
    ensures r == ReadIndexSpec(file)
  {
    var sigs: seq<u32> := [];
    var i := 0;
    PrependNothing(ReadIndexSpec(file));
    while i < MaxSlots
      invariant 0 <= i <= MaxSlots && |sigs| == i
      invariant ReadIndexSpec(file) == Prepend(sigs, ScanIndex(file, IndexStart + 4 * i, MaxSlots - i))
    {
      var off := IndexStart + 4 * i;
      if |file| < off + 4 {
        return Err(Truncated);
      }
      var sig := WordAt(file, off);
      if sig == IndexEOF {
        assert sigs + [] == sigs;
        return Ok(sigs);
      }
      PrependTwice(sigs, sig, ScanIndex(file, off + 4, MaxSlots - i - 1));
      sigs := sigs + [sig];
      i := i + 1;
    }
    assert sigs + [] == sigs;
    return Ok(sigs);
  }

  lemma {:induction false} ScanOkMeaning(file: seq<byte>, off: nat, n: nat)
    requires ScanIndex(file, off, n).Ok?
    ensures |ScanIndex(file, off, n).value| <= n
    ensures forall k :: 0 <= k < |ScanIndex(file, off, n).value| ==>
      off + 4 * k + 4 <= |file| && WordAt(file, off + 4 * k) == ScanIndex(file, off, n).value[k] != IndexEOF
    ensures |ScanIndex(file, off, n).value| < n ==>
      var m := |ScanIndex(file, off, n).value|;
      off + 4 * m + 4 <= |file| && WordAt(file, off + 4 * m) == IndexEOF
    decreases n
  {
    var keys := ScanIndex(file, off, n).value;
    if n > 0 && WordAt(file, off) != IndexEOF {
      var rest := ScanIndex(file, off + 4, n - 1);
      ScanOkMeaning(file, off + 4, n - 1);
      assert keys == [WordAt(file, off)] + rest.value;
      forall k | 0 <= k < |keys|
        ensures off + 4 * k + 4 <= |file| && WordAt(file, off + 4 * k) == keys[k] != IndexEOF
      {
        if k > 0 {
          assert off + 4 + 4 * (k - 1) == off + 4 * k;
          assert keys[k] == rest.value[k - 1];
        }
      }
      assert off + 4 + 4 * |rest.value| == off + 4 * |keys|;
    }
  }

  /** The m words from `off` are all in the file and none is the sentinel. */
  ghost predicate WordsBefore(file: seq<byte>, off: nat, m: nat)
  {
    forall k :: 0 <= k < m ==> off + 4 * k + 4 <= |file| && WordAt(file, off + 4 * k) != IndexEOF
  }

  /** One more word in front of words that are not the sentinel. */
  lemma WordsBeforeCons(file: seq<byte>, off: nat, m: nat)
    requires off + 4 <= |file| && WordAt(file, off) != IndexEOF
    requires WordsBefore(file, off + 4, m)
    ensures WordsBefore(file, off, m + 1)
  {
    forall k | 0 <= k < m + 1
      ensures off + 4 * k + 4 <= |file| && WordAt(file, off + 4 * k) != IndexEOF
    {
      if k > 0 {
        assert off + 4 + 4 * (k - 1) == off + 4 * k;
      }
    }
  }

  lemma {:induction false} ScanErrMeaning(file: seq<byte>, off: nat, n: nat)
    requires ScanIndex(file, off, n).Err?
    ensures ScanIndex(file, off, n).error == Truncated
    ensures exists m :: 0 <= m < n && |file| < off + 4 * m + 4 && WordsBefore(file, off, m)
    decreases n
  {
    if |file| < off + 4 {
      assert WordsBefore(file, off, 0);
      assert |file| < off + 4 * 0 + 4;
    } else {
      ScanErrMeaning(file, off + 4, n - 1);
      var m :| 0 <= m < n - 1 && |file| < off + 4 + 4 * m + 4 && WordsBefore(file, off + 4, m);
      WordsBeforeCons(file, off, m);
      assert off + 4 + 4 * m + 4 == off + 4 * (m + 1) + 4;
    }
  }

  /** Reading the index yields the words before the first sentinel, at most
      MaxSlots of them, and never the sentinel itself; it fails only when the
      file ends before the reader reaches a sentinel or its MaxSlots-th word
      (main.go:70-79). */
  lemma ReadIndexMeaning(file: seq<byte>)
    ensures ReadIndexSpec(file).Ok? ==>
      var keys := ReadIndexSpec(file).value;
      && |keys| <= MaxSlots
      && IndexEOF !in keys
      && (forall k :: 0 <= k < |keys| ==>
            IndexStart + 4 * k + 4 <= |file| && WordAt(file, IndexStart + 4 * k) == keys[k])
      && (|keys| < MaxSlots ==>
            IndexStart + 4 * |keys| + 4 <= |file| && WordAt(file, IndexStart + 4 * |keys|) == IndexEOF)
    ensures ReadIndexSpec(file).Err? ==>
      && ReadIndexSpec(file).error == Truncated
      && exists m :: 0 <= m < MaxSlots && |file| < IndexStart + 4 * m + 4 && WordsBefore(file, IndexStart, m)
  {
    if ReadIndexSpec(file).Ok? {
      ScanOkMeaning(file, IndexStart, MaxSlots);
    } else {
      ScanErrMeaning(file, IndexStart, MaxSlots);
    }
  }

  /** The words of `ws` before its first sentinel. */
  function Until(ws: seq<u32>): (r: seq<u32>)
    ensures |r| <= |ws| && r == ws[..|r|] && IndexEOF !in r
    ensures |r| < |ws| ==> ws[|r|] == IndexEOF
  {
    if ws == [] || ws[0] == IndexEOF then [] else [ws[0]] + Until(ws[1..])
  }

  lemma {:induction false} UntilNoSentinel(ws: seq<u32>)
    requires IndexEOF !in ws
    ensures Until(ws) == ws && Until(ws + [IndexEOF]) == ws
  {
    if ws != [] {
      assert (ws + [IndexEOF])[1..] == ws[1..] + [IndexEOF];
      UntilNoSentinel(ws[1..]);
    }
  }

  lemma WordsShift(file: seq<byte>, off: nat, ws: seq<u32>, n: nat)
    requires 0 < n && 0 < |ws|
    requires forall k :: 0 <= k < n && k < |ws| ==>
      off + 4 * k + 4 <= |file| && WordAt(file, off + 4 * k) == ws[k]
    ensures forall k :: 0 <= k < n - 1 && k < |ws| - 1 ==>
      off + 4 + 4 * k + 4 <= |file| && WordAt(file, off + 4 + 4 * k) == ws[1..][k]
  {
    forall k | 0 <= k < n - 1 && k < |ws| - 1
      ensures off + 4 + 4 * k + 4 <= |file| && WordAt(file, off + 4 + 4 * k) == ws[1..][k]
    {
      assert off + 4 + 4 * k == off + 4 * (k + 1);
    }
  }

  lemma ScanStep(file: seq<byte>, off: nat, n: nat, pre: seq<u32>)
    requires 0 < n && 0 < |pre| && off + 4 <= |file|
    requires WordAt(file, off) == pre[0] != IndexEOF
    requires ScanIndex(file, off + 4, n - 1) == Ok(Until(pre[1..]))
    ensures ScanIndex(file, off, n) == Ok(Until(pre))
  {
    assert Until(pre) == [pre[0]] + Until(pre[1..]);
  }

  lemma TailPrefix(ws: seq<u32>, n: nat)
    requires 0 < n && 0 < |ws| && (n <= |ws| || IndexEOF in ws) && ws[0] != IndexEOF
    ensures n - 1 <= |ws[1..]| || IndexEOF in ws[1..]
    ensures ws[..if n <= |ws| then n else |ws|][1..] == ws[1..][..if n - 1 <= |ws[1..]| then n - 1 else |ws[1..]|]
  {
    assert IndexEOF in ws ==> IndexEOF in ws[1..] by {
      assert ws == [ws[0]] + ws[1..];
    }
  }

  /** A scan over a region holding the words `ws` returns the words before
      the first sentinel among the first `n`. */
  lemma {:induction false} ScanWords(file: seq<byte>, off: nat, ws: seq<u32>, n: nat)
    requires n <= |ws| || IndexEOF in ws
    requires forall k :: 0 <= k < n && k < |ws| ==>
      off + 4 * k + 4 <= |file| && WordAt(file, off + 4 * k) == ws[k]
    ensures ScanIndex(file, off, n) == Ok(Until(ws[..if n <= |ws| then n else |ws|]))
    decreases n
  {
    var m := if n <= |ws| then n else |ws|;
    if n == 0 {
      assert ws[..m] == [];
    } else {
      assert |ws| > 0;
      assert off + 4 * 0 + 4 <= |file| && WordAt(file, off + 4 * 0) == ws[0];
      var w := WordAt(file, off);
      var pre := ws[..m];
      assert pre[0] == w;
      if w == IndexEOF {
        assert ScanIndex(file, off, n) == Ok([]);
        assert Until(pre) == [];
      } else {
        WordsShift(file, off, ws, n);
        TailPrefix(ws, n);
        ScanWords(file, off + 4, ws[1..], n - 1);
        ScanStep(file, off, n, pre);
      }
    }
  }

  /** The index writer (main.go:97-106): the keys little-endian from
      offset 0x100, then one sentinel word, with no check that they fit
      below the image table. */
  function WriteIndex(file: seq<byte>, keys: seq<u32>): seq<byte>
  {
    WriteAt(WriteAt(file, IndexStart, LeWords(keys)), IndexStart + 4 * |keys|, LeBytes(IndexEOF))
  }

  /** After WriteIndex the k-th word from 0x100 is the k-th of the keys
      followed by the sentinel. */
  lemma WriteIndexWords(file: seq<byte>, keys: seq<u32>, k: nat)
    requires k <= |keys|
    ensures IndexStart + 4 * k + 4 <= |WriteIndex(file, keys)|
    ensures WordAt(WriteIndex(file, keys), IndexStart + 4 * k) == (keys + [IndexEOF])[k]
  {
    var ws := keys + [IndexEOF];
    WriteAtConsecutive(file, IndexStart, LeWords(keys), LeBytes(IndexEOF));
    LeWordsAppend(keys, IndexEOF);
    var out := WriteIndex(file, keys);
    assert out == WriteAt(file, IndexStart, LeWords(ws));
    LeWordsAt(ws, k);
    var b := LeBytes(ws[k]);
    assert out[IndexStart + 4 * k] == LeWords(ws)[4 * k] == b[0];
    assert out[IndexStart + 4 * k + 1] == LeWords(ws)[4 * k + 1] == b[1];
    assert out[IndexStart + 4 * k + 2] == LeWords(ws)[4 * k + 2] == b[2];
    assert out[IndexStart + 4 * k + 3] == LeWords(ws)[4 * k + 3] == b[3];
    LeRoundTrip(ws[k]);
  }

  /** All the words WriteIndex leaves from 0x100: the keys, then the
      sentinel. */
  lemma WrittenWords(file: seq<byte>, keys: seq<u32>)
    ensures forall k :: 0 <= k < |keys| + 1 ==>
      IndexStart + 4 * k + 4 <= |WriteIndex(file, keys)| &&
      WordAt(WriteIndex(file, keys), IndexStart + 4 * k) == (keys + [IndexEOF])[k]
  {
    forall k | 0 <= k < |keys| + 1
      ensures IndexStart + 4 * k + 4 <= |WriteIndex(file, keys)|
      ensures WordAt(WriteIndex(file, keys), IndexStart + 4 * k) == (keys + [IndexEOF])[k]
    {
      WriteIndexWords(file, keys, k);
    }
  }

  /** What reading back a freshly written index gives in every case: the
      keys before the first one equal to the sentinel, cut at MaxSlots. */
  lemma IndexReadBack(file: seq<byte>, keys: seq<u32>)
    ensures var n := if |keys| + 1 <= MaxSlots then |keys| + 1 else MaxSlots;
      ReadIndexSpec(WriteIndex(file, keys)) == Ok(Until((keys + [IndexEOF])[..n]))
  {
    var ws := keys + [IndexEOF];
    WrittenWords(file, keys);
    assert ws[|keys|] == IndexEOF;
    ScanWords(WriteIndex(file, keys), IndexStart, ws, MaxSlots);
  }

  /** Writing the keys and then reading the index gives the same keys, as
      long as none of them is the sentinel and they fit in the MaxSlots
      words the reader looks at (main.go:70-79, 101-106). */
  lemma IndexRoundTrip(file: seq<byte>, keys: seq<u32>)
    requires IndexEOF !in keys && |keys| <= MaxSlots
    ensures ReadIndexSpec(WriteIndex(file, keys)) == Ok(keys)
  {
    IndexReadBack(file, keys);
    UntilNoSentinel(keys);
    var ws := keys + [IndexEOF];
    if |keys| < MaxSlots {
      assert ws[..|keys| + 1] == ws;
    } else {
      assert ws[..MaxSlots] == keys;
    }
  }

  /** A key equal to the sentinel, which HexStringTransform accepts
      ("ffffffff"), cuts the index short when it is read back. */
  lemma SentinelKeyTruncatesIndex(file: seq<byte>)
    ensures ReadIndexSpec(WriteIndex(file, [0x3274_BDAF, IndexEOF, 0x0000_00AB])) == Ok([0x3274_BDAF])
  {
    var keys: seq<u32> := [0x3274_BDAF, IndexEOF, 0x0000_00AB];
    IndexReadBack(file, keys);
    assert |keys| + 1 <= MaxSlots;
    var ws := (keys + [IndexEOF])[..4];
    assert ws == [0x3274_BDAF, IndexEOF, 0x0000_00AB, IndexEOF];
    assert ws[1..][0] == IndexEOF;
    assert Until(ws[1..]) == [];
    assert Until(ws) == [0x3274_BDAF] + Until(ws[1..]);
    assert Until(ws) == [0x3274_BDAF];
  }

  /** More keys than MaxSlots: the writer does not refuse them, and the
      reader returns only the first MaxSlots of them. */
  lemma OverfullIndexTruncates(file: seq<byte>, keys: seq<u32>)
    requires |keys| > MaxSlots && IndexEOF !in keys
    ensures ReadIndexSpec(WriteIndex(file, keys)) == Ok(keys[..MaxSlots])
  {
    IndexReadBack(file, keys);
    var ws := (keys + [IndexEOF])[..MaxSlots];
    assert ws == keys[..MaxSlots];
    UntilNoSentinel(keys[..MaxSlots]);
  }
}
