/** One run of the tool (main.go:44-115): the custom images named on the
    command line are merged into `labels.db`, which is rewritten in place.
    The file is its byte content; opening, seeking and closing it are the
    positioned reads and writes of the codec modules. */
module Database {
  import opened Common
  import opened Bytes
  import opened IndexCodec
  import opened BlockCodec
  import opened Merge
  import opened HexKey
  import opened PixelEncoder

  /** The database as the tool holds it in memory: parallel signature and
      block arrays. */
  datatype Db = Db(sigs: seq<u32>, imgs: seq<Block>)

  /** The image loader the tool hands to the merge (loadImage): decode and
      resize the file at the path, then encode it as a block. */
  function Resolver(load: string -> Option<Grid>): string -> Option<Block>
  {
    p => LoadImage(load, p)
  }

  /** The decoder-and-resize step always yields a label-sized picture
      (imaging.Resize to width x height). */
  ghost predicate Resized(load: string -> Option<Grid>)
  {
    forall p :: load(p).Some? ==> IsGrid(load(p).value, Width, Height)
  }

  /** Reading the database (main.go:64-91): the index, then one block per
      signature. */
  function ReadDb(file: seq<byte>): (r: Result<Db>)
    ensures r.Ok? ==> |r.value.sigs| == |r.value.imgs| <= MaxSlots && IndexEOF !in r.value.sigs
    ensures r.Ok? ==> forall b :: b in r.value.imgs ==> |b| == EntrySize
    ensures r.Err? ==> r.error == Truncated
  {
    ReadIndexMeaning(file);
    match ReadIndexSpec(file)
    case Err(e) => Err(e)
    case Ok(sigs) =>
      match ReadBlocksSpec(file, |sigs|)
      case Err(e) => Err(e)
      case Ok(imgs) => Ok(Db(sigs, imgs))
  }

  /** Writing the database back in place (main.go:95-114): the index with
      its sentinel from 0x100, then the blocks from 0x4100. */
  function WriteDb(file: seq<byte>, db: Db): seq<byte>
  {
    WriteAt(WriteIndex(file, db.sigs), ImgsStart, Concat(db.imgs))
  }

  /** What one run does to the file: the rewritten file, or the error that
      made the tool stop before writing anything. */
  function UpdateSpec(file: seq<byte>, args: seq<string>, abs: string -> string,
                      load: string -> Option<Grid>): Result<seq<byte>>
  {
    match ParseArgs(args, abs, ArgSignature)
    case Err(e) => Err(e)
    case Ok(custom) =>
      match ReadDb(file)
      case Err(e) => Err(e)
      case Ok(db) =>
        match MergeSpec(db.sigs, db.imgs, SortBySignature(custom), Resolver(load))
        case Err(e) => Err(e)
        case Ok(m) => Ok(WriteDb(file, Db(m.sigs, m.imgs)))
  }

  /** The body of main: parse the arguments, read the index and the blocks,
      merge, write back. */
  method UpdateDatabase(file: seq<byte>, args: seq<string>, abs: string -> string,
                        load: string -> Option<Grid>) returns (r: Result<seq<byte>>)
    ensures r == UpdateSpec(file, args, abs, load)
  {
    var custom := GenerateList(args, abs);
    if custom.Err? {
      return Err(custom.error);
    }
    var sigs := ReadIndex(file);
    if sigs.Err? {
      return Err(sigs.error);
    }
    ReadIndexMeaning(file);
    var imgs := ReadBlocks(file, |sigs.value|);
    if imgs.Err? {
      return Err(imgs.error);
    }
    var merged := BuildNewDB(sigs.value, imgs.value, custom.value, Resolver(load));
    if merged.Err? {
      return Err(merged.error);
    }
    var out := WriteIndex(file, merged.value.sigs);
    out := WriteBlocks(out, merged.value.imgs);
    return Ok(out);
  }

  /** The blocks are written after the index and start at 0x4100, which is
      past the last of the MaxSlots index words: they never change what the
      index reader sees, even when a full index's sentinel is overwritten. */
  lemma IndexUnderImages(file: seq<byte>, sigs: seq<u32>, data: seq<byte>)
    ensures ReadIndexSpec(WriteAt(WriteIndex(file, sigs), ImgsStart, data)) == ReadIndexSpec(WriteIndex(file, sigs))
  {
    var wi := WriteIndex(file, sigs);
    var out := WriteAt(wi, ImgsStart, data);
    var ws := sigs + [IndexEOF];
    forall k | 0 <= k < MaxSlots && k < |ws|
      ensures IndexStart + 4 * k + 4 <= |out|
      ensures WordAt(out, IndexStart + 4 * k) == ws[k]
    {
      WriteIndexWords(file, sigs, k);
      var o := IndexStart + 4 * k;
      assert out[o] == wi[o] && out[o + 1] == wi[o + 1] && out[o + 2] == wi[o + 2] && out[o + 3] == wi[o + 3];
    }
    assert ws[|sigs|] == IndexEOF;
    ScanWords(out, IndexStart, ws, MaxSlots);
    IndexReadBack(file, sigs);
  }

  /** Reading back a written database gives the same signatures and
      blocks, as long as the index fits its MaxSlots words, holds no
      sentinel and every block has the entry size. */
  lemma DbRoundTrip(file: seq<byte>, db: Db)
    requires |db.sigs| == |db.imgs| <= MaxSlots && IndexEOF !in db.sigs
    requires forall b :: b in db.imgs ==> |b| == EntrySize
    ensures ReadDb(WriteDb(file, db)) == Ok(db)
  {
    IndexUnderImages(file, db.sigs, Concat(db.imgs));
    IndexRoundTrip(file, db.sigs);
    BlocksRoundTrip(WriteIndex(file, db.sigs), db.imgs);
  }

  /** A signature of the sorted custom list is the signature of one of the
      custom images. */
  lemma SortedSignatures(custom: seq<Image>, k: u32)
    requires k in Signatures(SortBySignature(custom))
    ensures k in Signatures(custom)
  {
    var sorted := SortBySignature(custom);
    var j :| 0 <= j < |sorted| && Signatures(sorted)[j] == k;
    assert sorted[j] in multiset(custom);
    var i :| 0 <= i < |custom| && custom[i] == sorted[j];
    assert Signatures(custom)[i] == k;
  }

  /** A path the sorted custom list loads is the path of one of the custom
      images. */
  lemma SortedPath(custom: seq<Image>, j: nat)
    requires j < |SortBySignature(custom)|
    ensures SortBySignature(custom)[j] in custom
  {
    assert SortBySignature(custom)[j] in multiset(custom);
  }

  /** Every block of a successful merge has the entry size: the stored ones
      by the layout of the file, the loaded ones because the loader resizes. */
  lemma MergedBlockSizes(db: Db, custom: seq<Image>, load: string -> Option<Grid>)
    requires |db.sigs| == |db.imgs| && forall b :: b in db.imgs ==> |b| == EntrySize
    requires Resized(load)
    requires MergeSpec(db.sigs, db.imgs, custom, Resolver(load)).Ok?
    ensures forall b :: b in MergeSpec(db.sigs, db.imgs, custom, Resolver(load)).value.imgs ==> |b| == EntrySize
  {
    var m := MergeSpec(db.sigs, db.imgs, custom, Resolver(load)).value;
    MergeBlocks(db.sigs, db.imgs, custom, Resolver(load));
    forall b | b in m.imgs ensures |b| == EntrySize {
      if b !in db.imgs {
        var j :| 0 <= j < |custom| && Resolver(load)(custom[j].filepath) == Some(b);
        LoadImageSize(load, custom[j].filepath);
      }
    }
  }

  /** After a successful run the tool reads back exactly the merged
      database, and read as a lookup table that database is the old one
      with every custom image added or replacing the stored picture of its
      signature. It holds when the merged index fits the MaxSlots words the
      reader looks at and no argument is named after the sentinel
      (ffffffff). */
  lemma UpdateReadBack(file: seq<byte>, args: seq<string>, abs: string -> string,
                       load: string -> Option<Grid>, custom: seq<Image>, db: Db)
    requires ParseArgs(args, abs, ArgSignature) == Ok(custom)
    requires ReadDb(file) == Ok(db)
    requires Resized(load)
    requires MergeSpec(db.sigs, db.imgs, SortBySignature(custom), Resolver(load)).Ok?
    requires |MergeSpec(db.sigs, db.imgs, SortBySignature(custom), Resolver(load)).value.sigs| <= MaxSlots
    requires IndexEOF !in Signatures(custom)
    ensures var m := MergeSpec(db.sigs, db.imgs, SortBySignature(custom), Resolver(load)).value;
      && UpdateSpec(file, args, abs, load) == Ok(WriteDb(file, Db(m.sigs, m.imgs)))
      && ReadDb(WriteDb(file, Db(m.sigs, m.imgs))) == Ok(Db(m.sigs, m.imgs))
      && AsMap(m.sigs, m.imgs) == AsMap(db.sigs, db.imgs) + LoadedMap(SortBySignature(custom), Resolver(load))
  {
    var sorted := SortBySignature(custom);
    var m := MergeSpec(db.sigs, db.imgs, sorted, Resolver(load)).value;
    ParseArgsOk(args, abs, ArgSignature);
    MergeKeys(db.sigs, db.imgs, sorted, Resolver(load));
    if IndexEOF in Signatures(sorted) {
      SortedSignatures(custom, IndexEOF);
    }
    MergedBlockSizes(db, sorted, load);
    DbRoundTrip(file, Db(m.sigs, m.imgs));
    MergeMap(db.sigs, db.imgs, sorted, Resolver(load));
  }

  /** A run fails, and writes nothing, in exactly one of three ways: an
      argument whose file name is not a signature (the first such, in
      argument order), a file too short for its index or blocks, or a
      custom image that cannot be loaded. */
  lemma UpdateFailure(file: seq<byte>, args: seq<string>, abs: string -> string,
                      load: string -> Option<Grid>)
    requires UpdateSpec(file, args, abs, load).Err?
    ensures var e := UpdateSpec(file, args, abs, load).error;
      || (ParseArgs(args, abs, ArgSignature).Err? &&
          exists k :: 0 <= k < |args| && ArgSignature(args[k]) == Err(e) &&
                      forall k' :: 0 <= k' < k ==> ArgSignature(args[k']).Ok?)
      || (ParseArgs(args, abs, ArgSignature).Ok? && ReadDb(file).Err? && e == Truncated)
      || (ParseArgs(args, abs, ArgSignature).Ok? && ReadDb(file).Ok? &&
          exists k :: 0 <= k < |args| && e == LoadFailed(abs(args[k])) && load(abs(args[k])).None?)
  {
    var e := UpdateSpec(file, args, abs, load).error;
    var parsed := ParseArgs(args, abs, ArgSignature);
    if parsed.Err? {
      ParseArgsFirstError(args, abs, ArgSignature);
    } else if ReadDb(file).Ok? {
      var db := ReadDb(file).value;
      var sorted := SortBySignature(parsed.value);
      MergeFirstFailure(db.sigs, db.imgs, sorted, Resolver(load));
      var j :| 0 <= j < |sorted| && e == LoadFailed(sorted[j].filepath) &&
        Resolver(load)(sorted[j].filepath) == None;
      SortedPath(parsed.value, j);
      ParseArgsOk(args, abs, ArgSignature);
      var i :| 0 <= i < |parsed.value| && parsed.value[i] == sorted[j];
      assert parsed.value[i].filepath == abs(args[i]);
    }
  }
}
