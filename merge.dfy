/** `buildNewDB` (main.go:141-198): the custom images are sorted by
    signature and merged into the signatures and blocks read from the
    database. An existing entry whose signature is smaller than the next
    custom one is kept; a custom entry whose signature is smaller is loaded
    and inserted; equal signatures mean the custom image replaces the stored
    block. `loadImage` is an injected resolver from a path to a block, or to
    nothing when the image cannot be loaded (the tool then exits). */
module Merge {
  import opened Common

  /** The result of a merge: the new parallel signature and block arrays,
      and the paths handed to the resolver, in the order it was called. */
  datatype Merged = Merged(sigs: seq<u32>, imgs: seq<Block>, loaded: seq<string>)

  /** The custom images are in ascending signature order (what the
      `slices.SortFunc` call establishes). */
  ghost predicate SortedBySig(custom: seq<Image>) {
    forall i, j :: 0 <= i < j < |custom| ==> custom[i].signature <= custom[j].signature
  }

  /** ... and no two of them share a signature. */
  ghost predicate StrictlyBySig(custom: seq<Image>) {
    forall i, j :: 0 <= i < j < |custom| ==> custom[i].signature < custom[j].signature
  }

  // ---------------------------------------------------------------------
  // Sorting the custom images (main.go:144-151)
  // ---------------------------------------------------------------------

  /** `c` inserted into an ascending list before the first larger-or-equal
      signature. */
  function Insert(c: Image, sorted: seq<Image>): (r: seq<Image>)
    requires SortedBySig(sorted)
    ensures multiset(r) == multiset(sorted) + multiset{c}
    ensures forall k :: 0 <= k < |r| ==> r[k] == c || r[k] in sorted
    ensures SortedBySig(r)
  {
    if sorted == [] then [c]
    else if c.signature <= sorted[0].signature then
      InsertBelow(c, sorted);
      [c] + sorted
    else
      var rest := Insert(c, sorted[1..]);
      assert sorted == [sorted[0]] + sorted[1..];
      InsertAbove(sorted[0], c, sorted[1..], rest);
      assert multiset([sorted[0]] + rest) == multiset{sorted[0]} + multiset(rest);
      [sorted[0]] + rest
  }

  lemma InsertBelow(c: Image, sorted: seq<Image>)
    requires SortedBySig(sorted) && sorted != [] && c.signature <= sorted[0].signature
    ensures SortedBySig([c] + sorted)
  {
    var r := [c] + sorted;
    forall i, j | 0 <= i < j < |r| ensures r[i].signature <= r[j].signature {
      if i == 0 {
        assert r[j] == sorted[j - 1];
      } else {
        assert r[i] == sorted[i - 1] && r[j] == sorted[j - 1];
      }
    }
  }

  lemma InsertAbove(head: Image, c: Image, tail: seq<Image>, rest: seq<Image>)
    requires SortedBySig([head] + tail) && head.signature < c.signature && SortedBySig(rest)
    requires forall k :: 0 <= k < |rest| ==> rest[k] == c || rest[k] in tail
    ensures SortedBySig([head] + rest)
  {
    var r := [head] + rest;
    forall i, j | 0 <= i < j < |r| ensures r[i].signature <= r[j].signature {
      if i == 0 {
        assert r[0] == head && r[j] == rest[j - 1];
        if r[j] != c {
          var t :| 0 <= t < |tail| && tail[t] == r[j];
          assert ([head] + tail)[0] == head && ([head] + tail)[t + 1] == tail[t];
        }
      } else {
        assert r[i] == rest[i - 1] && r[j] == rest[j - 1];
      }
    }
  }

  /** The custom images sorted by signature. `slices.SortFunc` is not
      stable, so the tool may order images with equal signatures either
      way; this is one of the orders it may produce, and every lemma below
      holds for any ascending order. */
  function SortBySignature(imgs: seq<Image>): (r: seq<Image>)
    ensures multiset(r) == multiset(imgs)
    ensures SortedBySig(r)
  {
    if imgs == [] then []
    else
      assert imgs == [imgs[0]] + imgs[1..];
      Insert(imgs[0], SortBySignature(imgs[1..]))
  }

  // ---------------------------------------------------------------------
  // The merge, as a specification function
  // ---------------------------------------------------------------------

  /** `prefix` in front of the entries of a successful merge; a failure
      stays a failure. */
  function Emits(prefix: Merged, r: Result<Merged>): Result<Merged>
  {
    match r
    case Ok(m) => Ok(Merged(prefix.sigs + m.sigs, prefix.imgs + m.imgs, prefix.loaded + m.loaded))
    case Err(e) => Err(e)
  }

  /** The merge of the existing entries with the (sorted) custom images, one
      step of the source's loop per call: keep, insert, replace, or one of
      the two drains after the loop. */
  function MergeSpec(sigs: seq<u32>, imgs: seq<Block>, custom: seq<Image>,
                     resolve: string -> Option<Block>): (r: Result<Merged>)
    requires |sigs| == |imgs|
    ensures r.Ok? ==> |r.value.sigs| == |r.value.imgs|
    decreases |sigs| + |custom|
  {
    if custom == [] then
      // the existing entries left over are appended as they are (main.go:183-185)
      Ok(Merged(sigs, imgs, []))
    else if sigs != [] && sigs[0] < custom[0].signature then
      // keep the existing entry (main.go:159-162)
      Emits(Merged([sigs[0]], [imgs[0]], []), MergeSpec(sigs[1..], imgs[1..], custom, resolve))
    else
      var c := custom[0];
      match resolve(c.filepath)
      case None => Err(LoadFailed(c.filepath))
      case Some(b) =>
        if sigs != [] && sigs[0] == c.signature then
          // replace the existing block by the loaded one (main.go:171-179)
          Emits(Merged([c.signature], [b], [c.filepath]), MergeSpec(sigs[1..], imgs[1..], custom[1..], resolve))
        else
          // insert the custom entry (main.go:163-170), or drain the custom
          // entries left over (main.go:187-194)
          Emits(Merged([c.signature], [b], [c.filepath]), MergeSpec(sigs, imgs, custom[1..], resolve))
  }

  lemma EmitsTwice(p: Merged, q: Merged, r: Result<Merged>)
    ensures Emits(p, Emits(q, r)) == Emits(Merged(p.sigs + q.sigs, p.imgs + q.imgs, p.loaded + q.loaded), r)
  {
    if r.Ok? {
      var m := r.value;
      assert p.sigs + (q.sigs + m.sigs) == (p.sigs + q.sigs) + m.sigs;
      assert p.imgs + (q.imgs + m.imgs) == (p.imgs + q.imgs) + m.imgs;
      assert p.loaded + (q.loaded + m.loaded) == (p.loaded + q.loaded) + m.loaded;
    }
  }

  lemma EmitsNothing(r: Result<Merged>)
    ensures Emits(Merged([], [], []), r) == r
  {
    if r.Ok? {
      assert [] + r.value.sigs == r.value.sigs;
      assert [] + r.value.imgs == r.value.imgs;
      assert [] + r.value.loaded == r.value.loaded;
    }
  }

  /** One step of the loop that keeps the existing entry i. */
  lemma KeepStep(sigs: seq<u32>, imgs: seq<Block>, custom: seq<Image>,
                 resolve: string -> Option<Block>, i: nat, j: nat)
    requires |sigs| == |imgs| && i < |sigs| && j < |custom| && sigs[i] < custom[j].signature
    ensures MergeSpec(sigs[i..], imgs[i..], custom[j..], resolve)
      == Emits(Merged([sigs[i]], [imgs[i]], []), MergeSpec(sigs[i + 1..], imgs[i + 1..], custom[j..], resolve))
  {
    assert sigs[i..][1..] == sigs[i + 1..] && imgs[i..][1..] == imgs[i + 1..];
  }

  /** One step that loads custom image j: it replaces entry i when the
      signatures are equal, and is inserted otherwise (also when the
      existing entries are used up). */
  lemma LoadStep(sigs: seq<u32>, imgs: seq<Block>, custom: seq<Image>,
                 resolve: string -> Option<Block>, i: nat, j: nat, b: Block)
    requires |sigs| == |imgs| && i <= |sigs| && j < |custom|
    requires i < |sigs| ==> custom[j].signature <= sigs[i]
    requires resolve(custom[j].filepath) == Some(b)
    ensures var next := if i < |sigs| && sigs[i] == custom[j].signature then i + 1 else i;
      MergeSpec(sigs[i..], imgs[i..], custom[j..], resolve)
      == Emits(Merged([custom[j].signature], [b], [custom[j].filepath]),
               MergeSpec(sigs[next..], imgs[next..], custom[j + 1..], resolve))
  {
    assert custom[j..][0] == custom[j] && custom[j..][1..] == custom[j + 1..];
    if i < |sigs| {
      assert sigs[i..][0] == sigs[i];
      assert sigs[i..][1..] == sigs[i + 1..] && imgs[i..][1..] == imgs[i + 1..];
    }
  }

  /** A step whose image cannot be loaded ends the merge with that path. */
  lemma FailStep(sigs: seq<u32>, imgs: seq<Block>, custom: seq<Image>,
                 resolve: string -> Option<Block>, i: nat, j: nat, prev: Merged)
    requires |sigs| == |imgs| && i <= |sigs| && j < |custom|
    requires i < |sigs| ==> custom[j].signature <= sigs[i]
    requires resolve(custom[j].filepath) == None
    ensures Emits(prev, MergeSpec(sigs[i..], imgs[i..], custom[j..], resolve)) == Err(LoadFailed(custom[j].filepath))
  {
    assert custom[j..][0] == custom[j];
    if i < |sigs| {
      assert sigs[i..][0] == sigs[i];
    }
  }

  /** Once the custom images are used up, the rest of the existing entries
      follow unchanged. */
  lemma DrainStep(sigs: seq<u32>, imgs: seq<Block>, custom: seq<Image>,
                  resolve: string -> Option<Block>, i: nat, j: nat, prev: Merged)
    requires |sigs| == |imgs| && i <= |sigs| && j == |custom|
    ensures Emits(prev, MergeSpec(sigs[i..], imgs[i..], custom[j..], resolve))
      == Ok(Merged(prev.sigs + sigs[i..], prev.imgs + imgs[i..], prev.loaded))
  {
    assert custom[j..] == [] && prev.loaded + [] == prev.loaded;
  }

  // ---------------------------------------------------------------------
  // The merge loop (main.go:153-197)
  // ---------------------------------------------------------------------

  /** The two-index merge loop of buildNewDB and its two drains, appending
      to the growing signature and block arrays. */
  method MergeEntries(sigs: seq<u32>, imgs: seq<Block>, custom: seq<Image>,
                      resolve: string -> Option<Block>) returns (r: Result<Merged>)
    requires |sigs| == |imgs|
    ensures r == MergeSpec(sigs, imgs, custom, resolve)
  {
    var newSigs: seq<u32> := [];
    var newImgs: seq<Block> := [];
    var loaded: seq<string> := [];
    var i := 0;
    var j := 0;
    EmitsNothing(MergeSpec(sigs, imgs, custom, resolve));
    while i < |sigs| && j < |custom|
      invariant 0 <= i <= |sigs| && 0 <= j <= |custom|
      invariant MergeSpec(sigs, imgs, custom, resolve)
        == Emits(Merged(newSigs, newImgs, loaded), MergeSpec(sigs[i..], imgs[i..], custom[j..], resolve))
      decreases |sigs| - i + |custom| - j
    {
      var prev := Merged(newSigs, newImgs, loaded);
      if sigs[i] < custom[j].signature {
        KeepStep(sigs, imgs, custom, resolve, i, j);
        EmitsTwice(prev, Merged([sigs[i]], [imgs[i]], []),
                   MergeSpec(sigs[i + 1..], imgs[i + 1..], custom[j..], resolve));
        newSigs := newSigs + [sigs[i]];
        newImgs := newImgs + [imgs[i]];
        loaded := loaded + [];
        i := i + 1;
      } else {
        var path := custom[j].filepath;
        match resolve(path)
        case None =>
          FailStep(sigs, imgs, custom, resolve, i, j, prev);
          return Err(LoadFailed(path));
        case Some(b) =>
          LoadStep(sigs, imgs, custom, resolve, i, j, b);
          var next := if sigs[i] > custom[j].signature then i else i + 1;
          EmitsTwice(prev, Merged([custom[j].signature], [b], [path]),
                     MergeSpec(sigs[next..], imgs[next..], custom[j + 1..], resolve));
          newSigs := newSigs + [custom[j].signature];
          newImgs := newImgs + [b];
          loaded := loaded + [path];
          // an equal signature replaces the stored block; a larger stored
          // one waits for the next custom image
          i := next;
          j := j + 1;
      }
    }

    if i < |sigs| {
      DrainStep(sigs, imgs, custom, resolve, i, j, Merged(newSigs, newImgs, loaded));
      newSigs := newSigs + sigs[i..];
      newImgs := newImgs + imgs[i..];
    } else {
      while j < |custom|
        invariant j <= |custom|
        invariant MergeSpec(sigs, imgs, custom, resolve)
          == Emits(Merged(newSigs, newImgs, loaded), MergeSpec(sigs[i..], imgs[i..], custom[j..], resolve))
      {
        var path := custom[j].filepath;
        match resolve(path)
        case None =>
          FailStep(sigs, imgs, custom, resolve, i, j, Merged(newSigs, newImgs, loaded));
          return Err(LoadFailed(path));
        case Some(b) =>
          LoadStep(sigs, imgs, custom, resolve, i, j, b);
          EmitsTwice(Merged(newSigs, newImgs, loaded), Merged([custom[j].signature], [b], [path]),
                     MergeSpec(sigs[i..], imgs[i..], custom[j + 1..], resolve));
          newSigs := newSigs + [custom[j].signature];
          newImgs := newImgs + [b];
          loaded := loaded + [path];
          j := j + 1;
      }
      DrainStep(sigs, imgs, custom, resolve, i, j, Merged(newSigs, newImgs, loaded));
      assert sigs[i..] == [] && newSigs + [] == newSigs && newImgs + [] == newImgs;
    }
    return Ok(Merged(newSigs, newImgs, loaded));
  }

  /** buildNewDB: sort the custom images by signature, then merge. */
  method BuildNewDB(sigs: seq<u32>, imgs: seq<Block>, customImgs: seq<Image>,
                    resolve: string -> Option<Block>) returns (r: Result<Merged>)
    requires |sigs| == |imgs|
    ensures r == MergeSpec(sigs, imgs, SortBySignature(customImgs), resolve)
  {
    var sorted := SortBySignature(customImgs);
    r := MergeEntries(sigs, imgs, sorted, resolve);
  }

  // ---------------------------------------------------------------------
  // Properties of the merge
  // ---------------------------------------------------------------------

  lemma SignaturesCons(custom: seq<Image>)
    requires custom != []
    ensures Signatures(custom) == [custom[0].signature] + Signatures(custom[1..])
    ensures Paths(custom) == [custom[0].filepath] + Paths(custom[1..])
  {
  }

  lemma UnfoldKeep(sigs: seq<u32>, imgs: seq<Block>, custom: seq<Image>,
                   resolve: string -> Option<Block>)
    requires |sigs| == |imgs| && sigs != [] && custom != [] && sigs[0] < custom[0].signature
    ensures MergeSpec(sigs, imgs, custom, resolve)
      == Emits(Merged([sigs[0]], [imgs[0]], []), MergeSpec(sigs[1..], imgs[1..], custom, resolve))
  {
  }

  /** How many existing entries a loaded custom image consumes: one when it
      replaces the first of them, none when it is inserted before it. */
  function Consumed(sigs: seq<u32>, c: Image): nat
  {
    if sigs != [] && sigs[0] == c.signature then 1 else 0
  }

  lemma UnfoldLoad(sigs: seq<u32>, imgs: seq<Block>, custom: seq<Image>,
                   resolve: string -> Option<Block>)
    requires |sigs| == |imgs| && custom != [] && !(sigs != [] && sigs[0] < custom[0].signature)
    requires resolve(custom[0].filepath).Some?
    ensures Consumed(sigs, custom[0]) <= |sigs|
    ensures MergeSpec(sigs, imgs, custom, resolve)
      == Emits(Merged([custom[0].signature], [resolve(custom[0].filepath).value], [custom[0].filepath]),
               MergeSpec(sigs[Consumed(sigs, custom[0])..], imgs[Consumed(sigs, custom[0])..], custom[1..], resolve))
  {
  }

  lemma UnfoldFail(sigs: seq<u32>, imgs: seq<Block>, custom: seq<Image>,
                   resolve: string -> Option<Block>)
    requires |sigs| == |imgs| && custom != [] && !(sigs != [] && sigs[0] < custom[0].signature)
    requires resolve(custom[0].filepath).None?
    ensures MergeSpec(sigs, imgs, custom, resolve) == Err(LoadFailed(custom[0].filepath))
  {
  }

  /** The merge succeeds exactly when every custom image can be loaded; it
      then hands every custom path to the resolver once, in sorted order,
      and never loads an existing entry. */
  lemma {:induction false} MergeLoads(sigs: seq<u32>, imgs: seq<Block>, custom: seq<Image>,
                                      resolve: string -> Option<Block>)
    requires |sigs| == |imgs|
    ensures var r := MergeSpec(sigs, imgs, custom, resolve);
      r.Ok? <==> forall j :: 0 <= j < |custom| ==> resolve(custom[j].filepath).Some?
    ensures var r := MergeSpec(sigs, imgs, custom, resolve);
      r.Ok? ==> r.value.loaded == Paths(custom)
    decreases |sigs| + |custom|
  {
    if custom == [] {
    } else if sigs != [] && sigs[0] < custom[0].signature {
      UnfoldKeep(sigs, imgs, custom, resolve);
      MergeLoads(sigs[1..], imgs[1..], custom, resolve);
    } else if resolve(custom[0].filepath).None? {
      UnfoldFail(sigs, imgs, custom, resolve);
    } else {
      var tail := custom[1..];
      var d := Consumed(sigs, custom[0]);
      UnfoldLoad(sigs, imgs, custom, resolve);
      MergeLoads(sigs[d..], imgs[d..], tail, resolve);
      SignaturesCons(custom);
      assert forall j :: 0 < j < |custom| ==> custom[j] == tail[j - 1];
    }
  }

  /** When the merge fails, the error names the first custom image (in
      sorted order) that could not be loaded. */
  lemma {:induction false} MergeFirstFailure(sigs: seq<u32>, imgs: seq<Block>, custom: seq<Image>,
                                             resolve: string -> Option<Block>)
    requires |sigs| == |imgs| && MergeSpec(sigs, imgs, custom, resolve).Err?
    ensures var e := MergeSpec(sigs, imgs, custom, resolve).error;
      exists j :: (0 <= j < |custom| && e == LoadFailed(custom[j].filepath) &&
                   resolve(custom[j].filepath) == None &&
                   forall j' :: 0 <= j' < j ==> resolve(custom[j'].filepath).Some?)
    decreases |sigs| + |custom|
  {
    var e := MergeSpec(sigs, imgs, custom, resolve).error;
    if sigs != [] && sigs[0] < custom[0].signature {
      UnfoldKeep(sigs, imgs, custom, resolve);
      MergeFirstFailure(sigs[1..], imgs[1..], custom, resolve);
    } else if resolve(custom[0].filepath).None? {
      UnfoldFail(sigs, imgs, custom, resolve);
      assert e == LoadFailed(custom[0].filepath);
    } else {
      var tail := custom[1..];
      var d := Consumed(sigs, custom[0]);
      UnfoldLoad(sigs, imgs, custom, resolve);
      MergeFirstFailure(sigs[d..], imgs[d..], tail, resolve);
      var j :| 0 <= j < |tail| && e == LoadFailed(tail[j].filepath) &&
        resolve(tail[j].filepath) == None &&
        forall j' :: 0 <= j' < j ==> resolve(tail[j'].filepath).Some?;
      assert custom[j + 1] == tail[j];
      assert forall j' :: 0 < j' < j + 1 ==> custom[j'] == tail[j' - 1];
    }
  }

  /** The merged index holds exactly the existing signatures and the
      custom ones. */
  lemma {:induction false} MergeKeys(sigs: seq<u32>, imgs: seq<Block>, custom: seq<Image>,
                                     resolve: string -> Option<Block>)
    requires |sigs| == |imgs| && MergeSpec(sigs, imgs, custom, resolve).Ok?
    ensures var m := MergeSpec(sigs, imgs, custom, resolve).value;
      forall k :: k in m.sigs <==> k in sigs || k in Signatures(custom)
    decreases |sigs| + |custom|
  {
    if custom == [] {
    } else if sigs != [] && sigs[0] < custom[0].signature {
      MergeKeys(sigs[1..], imgs[1..], custom, resolve);
      assert sigs == [sigs[0]] + sigs[1..];
    } else {
      SignaturesCons(custom);
      var b := resolve(custom[0].filepath).value;
      if sigs != [] && sigs[0] == custom[0].signature {
        MergeKeys(sigs[1..], imgs[1..], custom[1..], resolve);
        assert sigs == [sigs[0]] + sigs[1..];
      } else {
        MergeKeys(sigs, imgs, custom[1..], resolve);
      }
    }
  }

  /** Every block of the merged database is one that was stored before or
      one the resolver returned for a custom image: the merge makes up no
      image data. */
  lemma {:induction false} MergeBlocks(sigs: seq<u32>, imgs: seq<Block>, custom: seq<Image>,
                                       resolve: string -> Option<Block>)
    requires |sigs| == |imgs| && MergeSpec(sigs, imgs, custom, resolve).Ok?
    ensures var m := MergeSpec(sigs, imgs, custom, resolve).value;
      forall b :: b in m.imgs ==>
        b in imgs || exists j :: 0 <= j < |custom| && resolve(custom[j].filepath) == Some(b)
    decreases |sigs| + |custom|
  {
    if custom == [] {
    } else if sigs != [] && sigs[0] < custom[0].signature {
      UnfoldKeep(sigs, imgs, custom, resolve);
      MergeBlocks(sigs[1..], imgs[1..], custom, resolve);
      assert imgs == [imgs[0]] + imgs[1..];
    } else {
      var tail := custom[1..];
      var d := Consumed(sigs, custom[0]);
      UnfoldLoad(sigs, imgs, custom, resolve);
      MergeBlocks(sigs[d..], imgs[d..], tail, resolve);
      assert forall b :: b in imgs[d..] ==> b in imgs;
      assert forall j :: 0 <= j < |tail| ==> tail[j] == custom[j + 1];
    }
  }

  /** The merged index is never longer than the existing one and the custom
      list together. */
  lemma {:induction false} MergeBound(sigs: seq<u32>, imgs: seq<Block>, custom: seq<Image>,
                                      resolve: string -> Option<Block>)
    requires |sigs| == |imgs| && MergeSpec(sigs, imgs, custom, resolve).Ok?
    ensures |MergeSpec(sigs, imgs, custom, resolve).value.sigs| <= |sigs| + |custom|
    decreases |sigs| + |custom|
  {
    if custom == [] {
    } else if sigs != [] && sigs[0] < custom[0].signature {
      UnfoldKeep(sigs, imgs, custom, resolve);
      MergeBound(sigs[1..], imgs[1..], custom, resolve);
    } else {
      var d := Consumed(sigs, custom[0]);
      UnfoldLoad(sigs, imgs, custom, resolve);
      MergeBound(sigs[d..], imgs[d..], custom[1..], resolve);
    }
  }

  lemma AscendingCons(x: u32, s: seq<u32>)
    requires Ascending(s) && forall y :: y in s ==> x <= y
    ensures Ascending([x] + s)
  {
    var r := [x] + s;
    forall i, j | 0 <= i < j < |r| ensures r[i] <= r[j] {
      assert r[0] == x && r[j] == s[j - 1] && s[j - 1] in s;
      if i > 0 {
        assert r[i] == s[i - 1];
      }
    }
  }

  lemma StrictlyAscendingCons(x: u32, s: seq<u32>)
    requires StrictlyAscending(s) && forall y :: y in s ==> x < y
    ensures StrictlyAscending([x] + s)
  {
    var r := [x] + s;
    forall i, j | 0 <= i < j < |r| ensures r[i] < r[j] {
      assert r[0] == x && r[j] == s[j - 1] && s[j - 1] in s;
      if i > 0 {
        assert r[i] == s[i - 1];
      }
    }
  }

  /** The custom images after the first stay sorted, and none of their
      signatures is below the first one's. */
  lemma CustomTail(custom: seq<Image>)
    requires custom != [] && SortedBySig(custom)
    ensures SortedBySig(custom[1..])
    ensures StrictlyBySig(custom) ==> StrictlyBySig(custom[1..])
    ensures forall y :: y in Signatures(custom[1..]) ==>
      custom[0].signature <= y && (StrictlyBySig(custom) ==> custom[0].signature < y)
  {
    var tail := custom[1..];
    forall i, j | 0 <= i < j < |tail| ensures tail[i].signature <= tail[j].signature {
      assert tail[i] == custom[i + 1] && tail[j] == custom[j + 1];
    }
    if StrictlyBySig(custom) {
      forall i, j | 0 <= i < j < |tail| ensures tail[i].signature < tail[j].signature {
        assert tail[i] == custom[i + 1] && tail[j] == custom[j + 1];
      }
    }
    forall y | y in Signatures(tail)
      ensures custom[0].signature <= y && (StrictlyBySig(custom) ==> custom[0].signature < y)
    {
      var t :| 0 <= t < |tail| && Signatures(tail)[t] == y;
      assert custom[t + 1] == tail[t];
    }
  }

  /** The existing signatures after the first stay strictly ascending and
      lie above the first one. */
  lemma SigsTail(sigs: seq<u32>)
    requires sigs != [] && StrictlyAscending(sigs)
    ensures StrictlyAscending(sigs[1..])
    ensures forall y :: y in sigs[1..] ==> sigs[0] < y
  {
    forall i, j | 0 <= i < j < |sigs[1..]| ensures sigs[1..][i] < sigs[1..][j] {
      assert sigs[1..][i] == sigs[i + 1] && sigs[1..][j] == sigs[j + 1];
    }
    forall y | y in sigs[1..] ensures sigs[0] < y {
      var t :| 0 <= t < |sigs[1..]| && sigs[1..][t] == y;
      assert sigs[1..][t] == sigs[t + 1];
    }
  }

  /** Merging ascending custom images into a strictly ascending index gives
      an ascending index, and a strictly ascending one when no two custom
      images share a signature: the merged index stays sorted. */
  lemma {:induction false} MergeOrder(sigs: seq<u32>, imgs: seq<Block>, custom: seq<Image>,
                                      resolve: string -> Option<Block>)
    requires |sigs| == |imgs| && StrictlyAscending(sigs) && SortedBySig(custom)
    requires MergeSpec(sigs, imgs, custom, resolve).Ok?
    ensures Ascending(MergeSpec(sigs, imgs, custom, resolve).value.sigs)
    ensures StrictlyBySig(custom) ==> StrictlyAscending(MergeSpec(sigs, imgs, custom, resolve).value.sigs)
    decreases |sigs| + |custom|
  {
    if custom == [] {
      return;
    }
    var m := MergeSpec(sigs, imgs, custom, resolve).value;
    var c := custom[0].signature;
    CustomTail(custom);
    if sigs != [] && sigs[0] < c {
      UnfoldKeep(sigs, imgs, custom, resolve);
      SigsTail(sigs);
      MergeOrder(sigs[1..], imgs[1..], custom, resolve);
      MergeKeys(sigs[1..], imgs[1..], custom, resolve);
      var m' := MergeSpec(sigs[1..], imgs[1..], custom, resolve).value;
      assert m.sigs == [sigs[0]] + m'.sigs;
      AscendingCons(sigs[0], m'.sigs);
      if StrictlyBySig(custom) {
        StrictlyAscendingCons(sigs[0], m'.sigs);
      }
    } else {
      if resolve(custom[0].filepath).None? {
        UnfoldFail(sigs, imgs, custom, resolve);
        assert false;
      }
      UnfoldLoad(sigs, imgs, custom, resolve);
      AboveConsumed(sigs, custom[0]);
      var d := Consumed(sigs, custom[0]);
      MergeOrder(sigs[d..], imgs[d..], custom[1..], resolve);
      MergeKeys(sigs[d..], imgs[d..], custom[1..], resolve);
      var m' := MergeSpec(sigs[d..], imgs[d..], custom[1..], resolve).value;
      assert m.sigs == [c] + m'.sigs;
      AscendingCons(c, m'.sigs);
      if StrictlyBySig(custom) {
        StrictlyAscendingCons(c, m'.sigs);
      }
    }
  }

  /** What is left of a strictly ascending index once a custom image that
      is not above its first key has been placed lies strictly above it. */
  lemma AboveConsumed(sigs: seq<u32>, c: Image)
    requires StrictlyAscending(sigs) && !(sigs != [] && sigs[0] < c.signature)
    ensures Consumed(sigs, c) <= |sigs|
    ensures StrictlyAscending(sigs[Consumed(sigs, c)..])
    ensures forall y :: y in sigs[Consumed(sigs, c)..] ==> c.signature < y
  {
    if sigs == [] {
      return;
    }
    SigsTail(sigs);
    if sigs[0] != c.signature {
      assert sigs[0..] == sigs;
      forall y | y in sigs ensures c.signature < y {
        var t :| 0 <= t < |sigs| && sigs[t] == y;
        if t > 0 {
          assert sigs[0] < sigs[t];
        }
      }
    }
  }

  /** The signatures present in both the index and the custom images. */
  ghost function CommonKeys(sigs: seq<u32>, custom: seq<Image>): set<u32>
  {
    set k | k in sigs && k in Signatures(custom)
  }

  /** With no repeated signature on either side, the merged index has one
      entry per existing signature plus one per custom image, less one per
      signature the two share: a replaced entry is not duplicated. */
  lemma {:induction false} MergeLength(sigs: seq<u32>, imgs: seq<Block>, custom: seq<Image>,
                                       resolve: string -> Option<Block>)
    requires |sigs| == |imgs| && StrictlyAscending(sigs) && StrictlyBySig(custom)
    requires MergeSpec(sigs, imgs, custom, resolve).Ok?
    ensures |MergeSpec(sigs, imgs, custom, resolve).value.sigs| == |sigs| + |custom| - |CommonKeys(sigs, custom)|
    decreases |sigs| + |custom|
  {
    if custom == [] {
      assert CommonKeys(sigs, custom) == {};
      return;
    }
    var c := custom[0].signature;
    var tail := custom[1..];
    CustomTail(custom);
    SignaturesCons(custom);
    if sigs != [] {
      SigsTail(sigs);
    }
    if sigs != [] && sigs[0] < c {
      MergeLength(sigs[1..], imgs[1..], custom, resolve);
      CommonDropKey(sigs, custom);
    } else if sigs != [] && sigs[0] == c {
      MergeLength(sigs[1..], imgs[1..], tail, resolve);
      CommonShared(sigs, custom);
    } else {
      MergeLength(sigs, imgs, tail, resolve);
      CommonDropImage(sigs, custom);
    }
  }

  lemma CommonDropKey(sigs: seq<u32>, custom: seq<Image>)
    requires sigs != [] && sigs[0] !in Signatures(custom)
    ensures CommonKeys(sigs, custom) == CommonKeys(sigs[1..], custom)
  {
    assert sigs == [sigs[0]] + sigs[1..];
  }

  lemma CommonDropImage(sigs: seq<u32>, custom: seq<Image>)
    requires custom != [] && custom[0].signature !in sigs
    ensures CommonKeys(sigs, custom) == CommonKeys(sigs, custom[1..])
  {
    SignaturesCons(custom);
  }

  lemma CommonShared(sigs: seq<u32>, custom: seq<Image>)
    requires sigs != [] && custom != [] && sigs[0] == custom[0].signature
    requires StrictlyAscending(sigs) && StrictlyBySig(custom)
    ensures |CommonKeys(sigs, custom)| == 1 + |CommonKeys(sigs[1..], custom[1..])|
  {
    var c := sigs[0];
    SigsTail(sigs);
    CustomTail(custom);
    SignaturesCons(custom);
    assert sigs == [sigs[0]] + sigs[1..];
    assert CommonKeys(sigs, custom) == {c} + CommonKeys(sigs[1..], custom[1..]);
  }

  /** The database read as a lookup table from signature to block; when a
      signature occurs more than once, its first entry is the one taken. */
  function AsMap(sigs: seq<u32>, imgs: seq<Block>): map<u32, Block>
    requires |sigs| == |imgs|
  {
    if sigs == [] then map[] else AsMap(sigs[1..], imgs[1..])[sigs[0] := imgs[0]]
  }

  /** The blocks the custom images load to, by signature; for a repeated
      signature the first image in the list is the one taken. */
  function LoadedMap(custom: seq<Image>, resolve: string -> Option<Block>): map<u32, Block>
  {
    if custom == [] then map[]
    else
      match resolve(custom[0].filepath)
      case Some(b) => LoadedMap(custom[1..], resolve)[custom[0].signature := b]
      case None => LoadedMap(custom[1..], resolve)
  }

  lemma {:induction false} AsMapAt(sigs: seq<u32>, imgs: seq<Block>, i: nat)
    requires |sigs| == |imgs| && i < |sigs|
    requires forall t :: 0 <= t < i ==> sigs[t] != sigs[i]
    ensures sigs[i] in AsMap(sigs, imgs) && AsMap(sigs, imgs)[sigs[i]] == imgs[i]
  {
    if i > 0 {
      assert forall t :: 0 <= t < i - 1 ==> sigs[1..][t] == sigs[t + 1];
      AsMapAt(sigs[1..], imgs[1..], i - 1);
    }
  }

  lemma {:induction false} LoadedMapKeys(custom: seq<Image>, resolve: string -> Option<Block>)
    ensures forall k :: k in LoadedMap(custom, resolve) ==> k in Signatures(custom)
  {
    if custom != [] {
      LoadedMapKeys(custom[1..], resolve);
      SignaturesCons(custom);
    }
  }

  lemma {:induction false} LoadedMapAt(custom: seq<Image>, resolve: string -> Option<Block>, j: nat)
    requires j < |custom| && resolve(custom[j].filepath).Some?
    requires forall t :: 0 <= t < j ==> custom[t].signature != custom[j].signature
    ensures custom[j].signature in LoadedMap(custom, resolve)
    ensures LoadedMap(custom, resolve)[custom[j].signature] == resolve(custom[j].filepath).value
  {
    if j > 0 {
      assert forall t :: 0 <= t < j - 1 ==> custom[1..][t] == custom[t + 1];
      LoadedMapAt(custom[1..], resolve, j - 1);
    }
  }

  lemma UpdateUnder(a: map<u32, Block>, l: map<u32, Block>, k: u32, v: Block)
    requires k !in l
    ensures (a + l)[k := v] == a[k := v] + l
  {
  }

  lemma UpdateOver(a: map<u32, Block>, l: map<u32, Block>, k: u32, v: Block)
    ensures (a + l)[k := v] == a + l[k := v]
  {
  }

  lemma UpdateShadowed(a: map<u32, Block>, l: map<u32, Block>, k: u32, v: Block)
    requires k in l
    ensures a[k := v] + l == a + l
  {
  }

  /** Read as a lookup table, the merged database is the existing one with
      every loaded custom image added or overriding the stored block of its
      signature. This needs only the custom images sorted: the existing
      signatures may be in any order and may repeat. */
  lemma {:induction false} MergeMap(sigs: seq<u32>, imgs: seq<Block>, custom: seq<Image>,
                                    resolve: string -> Option<Block>)
    requires |sigs| == |imgs| && SortedBySig(custom)
    requires MergeSpec(sigs, imgs, custom, resolve).Ok?
    ensures var m := MergeSpec(sigs, imgs, custom, resolve).value;
      AsMap(m.sigs, m.imgs) == AsMap(sigs, imgs) + LoadedMap(custom, resolve)
    decreases |sigs| + |custom|
  {
    if custom == [] {
      assert AsMap(sigs, imgs) + map[] == AsMap(sigs, imgs);
      return;
    }
    var c := custom[0].signature;
    var tail := custom[1..];
    CustomTail(custom);
    if sigs != [] && sigs[0] < c {
      MergeMap(sigs[1..], imgs[1..], custom, resolve);
      MapKeepStep(sigs, imgs, custom, resolve);
    } else {
      var d := Consumed(sigs, custom[0]);
      UnfoldLoad(sigs, imgs, custom, resolve);
      MergeMap(sigs[d..], imgs[d..], tail, resolve);
      MapLoadStep(sigs, imgs, custom, resolve);
    }
  }

  /** The lookup table of a non-empty index: its first entry over the rest. */
  lemma AsMapCons(sigs: seq<u32>, imgs: seq<Block>)
    requires |sigs| == |imgs| && sigs != []
    ensures AsMap(sigs, imgs) == AsMap(sigs[1..], imgs[1..])[sigs[0] := imgs[0]]
  {
  }

  /** A key below the first signature of an ascending custom list is no key
      of its loaded table. */
  lemma BelowLoaded(custom: seq<Image>, resolve: string -> Option<Block>, k: u32)
    requires custom != [] && SortedBySig(custom) && k < custom[0].signature
    ensures k !in LoadedMap(custom, resolve)
  {
    LoadedMapKeys(custom, resolve);
    forall t | 0 <= t < |custom| ensures Signatures(custom)[t] != k {
      if t > 0 {
        assert custom[0].signature <= custom[t].signature;
      }
    }
  }

  lemma MapKeepStep(sigs: seq<u32>, imgs: seq<Block>, custom: seq<Image>,
                    resolve: string -> Option<Block>)
    requires |sigs| == |imgs| && sigs != [] && custom != [] && sigs[0] < custom[0].signature
    requires SortedBySig(custom) && MergeSpec(sigs[1..], imgs[1..], custom, resolve).Ok?
    requires var m' := MergeSpec(sigs[1..], imgs[1..], custom, resolve).value;
      AsMap(m'.sigs, m'.imgs) == AsMap(sigs[1..], imgs[1..]) + LoadedMap(custom, resolve)
    ensures MergeSpec(sigs, imgs, custom, resolve).Ok?
    ensures var m := MergeSpec(sigs, imgs, custom, resolve).value;
      AsMap(m.sigs, m.imgs) == AsMap(sigs, imgs) + LoadedMap(custom, resolve)
  {
    UnfoldKeep(sigs, imgs, custom, resolve);
    var m := MergeSpec(sigs, imgs, custom, resolve).value;
    var m' := MergeSpec(sigs[1..], imgs[1..], custom, resolve).value;
    var l := LoadedMap(custom, resolve);
    assert m.sigs[0] == sigs[0] && m.imgs[0] == imgs[0];
    assert m.sigs[1..] == m'.sigs && m.imgs[1..] == m'.imgs;
    AsMapCons(m.sigs, m.imgs);
    AsMapCons(sigs, imgs);
    BelowLoaded(custom, resolve, sigs[0]);
    UpdateUnder(AsMap(sigs[1..], imgs[1..]), l, sigs[0], imgs[0]);
  }

  /** The loaded table of a custom list whose first image loads to `b`. */
  lemma LoadedMapCons(custom: seq<Image>, resolve: string -> Option<Block>, b: Block)
    requires custom != [] && resolve(custom[0].filepath) == Some(b)
    ensures LoadedMap(custom, resolve) == LoadedMap(custom[1..], resolve)[custom[0].signature := b]
  {
  }

  lemma MapLoadStep(sigs: seq<u32>, imgs: seq<Block>, custom: seq<Image>,
                    resolve: string -> Option<Block>)
    requires |sigs| == |imgs| && custom != [] && !(sigs != [] && sigs[0] < custom[0].signature)
    requires resolve(custom[0].filepath).Some?
    requires Consumed(sigs, custom[0]) <= |sigs|
    requires var d := Consumed(sigs, custom[0]);
      MergeSpec(sigs[d..], imgs[d..], custom[1..], resolve).Ok? &&
      var m' := MergeSpec(sigs[d..], imgs[d..], custom[1..], resolve).value;
      AsMap(m'.sigs, m'.imgs) == AsMap(sigs[d..], imgs[d..]) + LoadedMap(custom[1..], resolve)
    ensures MergeSpec(sigs, imgs, custom, resolve).Ok?
    ensures var m := MergeSpec(sigs, imgs, custom, resolve).value;
      AsMap(m.sigs, m.imgs) == AsMap(sigs, imgs) + LoadedMap(custom, resolve)
  {
    var c := custom[0].signature;
    var b := resolve(custom[0].filepath).value;
    var d := Consumed(sigs, custom[0]);
    UnfoldLoad(sigs, imgs, custom, resolve);
    var m := MergeSpec(sigs, imgs, custom, resolve).value;
    var m' := MergeSpec(sigs[d..], imgs[d..], custom[1..], resolve).value;
    var rest := AsMap(sigs[d..], imgs[d..]);
    var l' := LoadedMap(custom[1..], resolve);
    assert m.sigs[0] == c && m.imgs[0] == b;
    assert m.sigs[1..] == m'.sigs && m.imgs[1..] == m'.imgs;
    AsMapCons(m.sigs, m.imgs);
    LoadedMapCons(custom, resolve, b);
    UpdateOver(rest, l', c, b);
    if d == 1 {
      AsMapCons(sigs, imgs);
      UpdateShadowed(rest, LoadedMap(custom, resolve), c, imgs[0]);
    } else {
      assert sigs[d..] == sigs && imgs[d..] == imgs;
    }
  }

  /** A custom image's signature appears exactly once in the merged index
      (given no repeated signature on either side), with the block loaded
      from that image: an existing block of the same signature is replaced. */
  lemma MergeReplaces(sigs: seq<u32>, imgs: seq<Block>, custom: seq<Image>,
                      resolve: string -> Option<Block>, j: nat)
    requires |sigs| == |imgs| && StrictlyAscending(sigs) && StrictlyBySig(custom)
    requires MergeSpec(sigs, imgs, custom, resolve).Ok? && j < |custom|
    ensures var m := MergeSpec(sigs, imgs, custom, resolve).value;
      exists idx :: 0 <= idx < |m.sigs| && m.sigs[idx] == custom[j].signature &&
        Some(m.imgs[idx]) == resolve(custom[j].filepath)
    ensures var m := MergeSpec(sigs, imgs, custom, resolve).value;
      forall a, b :: (0 <= a < |m.sigs| && 0 <= b < |m.sigs| &&
                      m.sigs[a] == custom[j].signature && m.sigs[b] == custom[j].signature) ==> a == b
  {
    var m := MergeSpec(sigs, imgs, custom, resolve).value;
    var k := custom[j].signature;
    MergeOrder(sigs, imgs, custom, resolve);
    MergeKeys(sigs, imgs, custom, resolve);
    MergeMap(sigs, imgs, custom, resolve);
    MergeLoads(sigs, imgs, custom, resolve);
    assert k in Signatures(custom);
    var idx :| 0 <= idx < |m.sigs| && m.sigs[idx] == k;
    AsMapAt(m.sigs, m.imgs, idx);
    LoadedMapAt(custom, resolve, j);
  }

  /** `k` occurs at most once in `s`. */
  ghost predicate AtMostOnce(s: seq<u32>, k: u32)
  {
    forall a, b :: 0 <= a < |s| && 0 <= b < |s| && s[a] == k && s[b] == k ==> a == b
  }

  lemma AtMostOnceTail(s: seq<u32>, k: u32)
    requires s != [] && AtMostOnce(s, k)
    ensures AtMostOnce(s[1..], k)
    ensures s[0] == k ==> k !in s[1..]
  {
    var t := s[1..];
    assert forall j :: 0 <= j < |t| ==> t[j] == s[j + 1];
  }

  lemma AtMostOnceCons(x: u32, s: seq<u32>, k: u32)
    requires AtMostOnce(s, k) && (x == k ==> k !in s)
    ensures AtMostOnce([x] + s, k)
  {
    var t := [x] + s;
    assert forall a :: 0 < a < |t| ==> t[a] == s[a - 1];
  }

  /** A key that no custom image has occurs in the merged index no more
      often than in the existing one: the merge only copies existing
      entries (main.go:159-162, 183-185) and adds custom ones. */
  lemma {:induction false} MergeOnce(sigs: seq<u32>, imgs: seq<Block>, custom: seq<Image>,
                                     resolve: string -> Option<Block>, k: u32)
    requires |sigs| == |imgs| && MergeSpec(sigs, imgs, custom, resolve).Ok?
    requires AtMostOnce(sigs, k) && k !in Signatures(custom)
    ensures AtMostOnce(MergeSpec(sigs, imgs, custom, resolve).value.sigs, k)
    decreases |sigs| + |custom|
  {
    if custom == [] {
      return;
    }
    var m := MergeSpec(sigs, imgs, custom, resolve).value;
    SignaturesCons(custom);
    if sigs != [] && sigs[0] < custom[0].signature {
      UnfoldKeep(sigs, imgs, custom, resolve);
      var m' := MergeSpec(sigs[1..], imgs[1..], custom, resolve).value;
      AtMostOnceTail(sigs, k);
      MergeOnce(sigs[1..], imgs[1..], custom, resolve, k);
      if sigs[0] == k {
        MergeKeys(sigs[1..], imgs[1..], custom, resolve);
      }
      assert m.sigs == [sigs[0]] + m'.sigs;
      AtMostOnceCons(sigs[0], m'.sigs, k);
    } else {
      if resolve(custom[0].filepath).None? {
        UnfoldFail(sigs, imgs, custom, resolve);
        assert false;
      }
      var d := Consumed(sigs, custom[0]);
      UnfoldLoad(sigs, imgs, custom, resolve);
      var m' := MergeSpec(sigs[d..], imgs[d..], custom[1..], resolve).value;
      if d == 1 {
        AtMostOnceTail(sigs, k);
      } else {
        assert sigs[d..] == sigs;
      }
      MergeOnce(sigs[d..], imgs[d..], custom[1..], resolve, k);
      assert m.sigs == [custom[0].signature] + m'.sigs;
      AtMostOnceCons(custom[0].signature, m'.sigs, k);
    }
  }

  /** An existing entry whose signature no custom image has appears exactly
      once in the merged index, with its stored block unchanged. Custom
      images may share a signature. */
  lemma MergeKeeps(sigs: seq<u32>, imgs: seq<Block>, custom: seq<Image>,
                   resolve: string -> Option<Block>, i: nat)
    requires |sigs| == |imgs| && StrictlyAscending(sigs) && SortedBySig(custom)
    requires MergeSpec(sigs, imgs, custom, resolve).Ok? && i < |sigs|
    requires sigs[i] !in Signatures(custom)
    ensures var m := MergeSpec(sigs, imgs, custom, resolve).value;
      exists idx :: 0 <= idx < |m.sigs| && m.sigs[idx] == sigs[i] && m.imgs[idx] == imgs[i]
    ensures var m := MergeSpec(sigs, imgs, custom, resolve).value;
      forall a, b :: (0 <= a < |m.sigs| && 0 <= b < |m.sigs| &&
                      m.sigs[a] == sigs[i] && m.sigs[b] == sigs[i]) ==> a == b
  {
    var m := MergeSpec(sigs, imgs, custom, resolve).value;
    var k := sigs[i];
    assert AtMostOnce(sigs, k);
    MergeOnce(sigs, imgs, custom, resolve, k);
    MergeKeys(sigs, imgs, custom, resolve);
    MergeMap(sigs, imgs, custom, resolve);
    LoadedMapKeys(custom, resolve);
    var idx :| 0 <= idx < |m.sigs| && m.sigs[idx] == k;
    AsMapAt(m.sigs, m.imgs, idx);
    AsMapAt(sigs, imgs, i);
  }

  /** Merged into an empty database, the custom images become the index in
      their (sorted) order, each with the block it loads to. */
  lemma {:induction false} MergeIntoEmpty(custom: seq<Image>, resolve: string -> Option<Block>)
    requires MergeSpec([], [], custom, resolve).Ok?
    ensures var m := MergeSpec([], [], custom, resolve).value;
      m.sigs == Signatures(custom) &&
      forall k :: 0 <= k < |custom| ==> resolve(custom[k].filepath) == Some(m.imgs[k])
  {
    if custom != [] {
      if resolve(custom[0].filepath).None? {
        UnfoldFail([], [], custom, resolve);
        assert false;
      }
      var b := resolve(custom[0].filepath).value;
      UnfoldLoad([], [], custom, resolve);
      assert Consumed([], custom[0]) == 0;
      var rest := MergeSpec([], [], custom[1..], resolve);
      assert rest.Ok?;
      MergeIntoEmpty(custom[1..], resolve);
      SignaturesCons(custom);
      var m := MergeSpec([], [], custom, resolve).value;
      assert m.sigs == [custom[0].signature] + rest.value.sigs;
      assert m.imgs == [b] + rest.value.imgs;
      forall k | 0 < k < |custom| ensures resolve(custom[k].filepath) == Some(m.imgs[k]) {
        assert custom[k] == custom[1..][k - 1];
        assert m.imgs[k] == rest.value.imgs[k - 1];
      }
    }
  }

  /** `k` occurs at two different positions of `s`. */
  ghost predicate Twice(s: seq<u32>, k: u32)
  {
    exists a, b :: 0 <= a < b < |s| && s[a] == k && s[b] == k
  }

  lemma TwiceCons(x: u32, s: seq<u32>, k: u32)
    requires Twice(s, k)
    ensures Twice([x] + s, k)
  {
    var a, b :| 0 <= a < b < |s| && s[a] == k && s[b] == k;
    assert ([x] + s)[a + 1] == k && ([x] + s)[b + 1] == k;
  }

  lemma TwiceHead(k: u32, s: seq<u32>)
    requires k in s
    ensures Twice([k] + s, k)
  {
    var b :| 0 <= b < |s| && s[b] == k;
    assert ([k] + s)[0] == k && ([k] + s)[b + 1] == k;
  }

  /** Two custom images with the same signature are both written: the
      merged index then holds that signature twice. Nothing in the merge
      removes the repeat (main.go:163-179). */
  lemma {:induction false} MergeRepeats(sigs: seq<u32>, imgs: seq<Block>, custom: seq<Image>,
                                        resolve: string -> Option<Block>, j: nat)
    requires |sigs| == |imgs| && j + 1 < |custom|
    requires custom[j].signature == custom[j + 1].signature
    requires MergeSpec(sigs, imgs, custom, resolve).Ok?
    ensures Twice(MergeSpec(sigs, imgs, custom, resolve).value.sigs, custom[j].signature)
    decreases |sigs| + |custom|
  {
    var m := MergeSpec(sigs, imgs, custom, resolve).value;
    var k := custom[j].signature;
    if sigs != [] && sigs[0] < custom[0].signature {
      UnfoldKeep(sigs, imgs, custom, resolve);
      var m' := MergeSpec(sigs[1..], imgs[1..], custom, resolve).value;
      MergeRepeats(sigs[1..], imgs[1..], custom, resolve, j);
      assert m.sigs == [sigs[0]] + m'.sigs;
      TwiceCons(sigs[0], m'.sigs, k);
    } else {
      if resolve(custom[0].filepath).None? {
        UnfoldFail(sigs, imgs, custom, resolve);
        assert false;
      }
      var d := Consumed(sigs, custom[0]);
      UnfoldLoad(sigs, imgs, custom, resolve);
      var tail := custom[1..];
      var m' := MergeSpec(sigs[d..], imgs[d..], tail, resolve).value;
      assert m.sigs == [custom[0].signature] + m'.sigs;
      if j == 0 {
        MergeKeys(sigs[d..], imgs[d..], tail, resolve);
        assert Signatures(tail)[0] == k;
        assert k in Signatures(tail);
        TwiceHead(k, m'.sigs);
      } else {
        assert tail[j - 1] == custom[j] && tail[j] == custom[j + 1];
        MergeRepeats(sigs[d..], imgs[d..], tail, resolve, j - 1);
        TwiceCons(custom[0].signature, m'.sigs, k);
      }
    }
  }

  /** An instance of MergeRepeats: a stored entry of signature 5 and two
      custom images of signature 5 give the index [5, 5], the stored block
      replaced by the first custom image. */
  lemma MergeDuplicateCustom()
    ensures MergeSpec([5], [[1]], [Image("a.png", 5), Image("b.png", 5)], p => Some([2]))
      == Ok(Merged([5, 5], [[2], [2]], ["a.png", "b.png"]))
  {
    var custom := [Image("a.png", 5), Image("b.png", 5)];
    var resolve: string -> Option<Block> := p => Some([2]);
    var last := [Image("b.png", 5)];
    assert custom[1..] == last && last[1..] == [];
    assert resolve("a.png") == Some([2]) && resolve("b.png") == Some([2]);
    var m0 := MergeSpec([], [], [], resolve);
    assert m0 == Ok(Merged([], [], []));
    assert [5 as u32] + [] == [5] && [[2 as byte]] + [] == [[2]] && ["b.png"] + [] == ["b.png"];
    assert MergeSpec([], [], last, resolve) == Emits(Merged([5], [[2]], ["b.png"]), m0);
    assert MergeSpec([], [], last, resolve) == Ok(Merged([5], [[2]], ["b.png"]));
    assert MergeSpec([5], [[1]], custom, resolve)
      == Emits(Merged([5], [[2]], ["a.png"]), MergeSpec([], [], last, resolve));
    assert [5 as u32] + [5] == [5, 5] && [[2 as byte]] + [[2]] == [[2], [2]];
    assert ["a.png"] + ["b.png"] == ["a.png", "b.png"];
  }
}
