/** The pixel encoder of `loadImage` (main.go:202-225): an image already
    resized to 74 x 86 becomes one image-table block of B, G, R, A bytes per
    pixel, row by row, followed by 0x90 bytes of 0xFF. */
module PixelEncoder {
  import opened Common

  /** One pixel as `NRGBAAt` reports it (non-premultiplied colour). */
  datatype NRGBA = NRGBA(r: byte, g: byte, b: byte, a: byte)

  /** A resized image: rows from top to bottom, each from left to right. */
  type Grid = seq<seq<NRGBA>>

  /** `img` is a rectangle of h rows of w pixels. */
  ghost predicate IsGrid(img: Grid, w: nat, h: nat) {
    |img| == h && forall y :: 0 <= y < h ==> |img[y]| == w
  }

  /** The four bytes one pixel contributes, blue first. */
  function PixelBytes(p: NRGBA): seq<byte> {
    [p.b, p.g, p.r, p.a]
  }

  function RowBytes(row: seq<NRGBA>): (r: seq<byte>)
    ensures |r| == 4 * |row|
  {
    if row == [] then [] else RowBytes(row[..|row| - 1]) + PixelBytes(row[|row| - 1])
  }

  function GridBytes(rows: Grid): seq<byte>
  {
    if rows == [] then [] else GridBytes(rows[..|rows| - 1]) + RowBytes(rows[|rows| - 1])
  }

  /** n bytes of 0xFF. */
  function Fill(n: nat): (r: seq<byte>)
    ensures |r| == n && forall k :: 0 <= k < n ==> r[k] == 0xFF
  {
    seq(n, _ => 0xFF)
  }

  /** The block `loadImage` returns for an image: its pixels as B, G, R, A,
      row-major, then ImgPadding bytes of 0xFF. */
  function EncodeSpec(img: Grid): seq<byte>
  {
    GridBytes(img) + Fill(ImgPadding)
  }

  /** The encoding loops of loadImage (main.go:210-222): rows outer, columns
      inner, four bytes appended per pixel, then the padding loop. */
  method EncodeImage(img: Grid) returns (bgra: seq<byte>)
    ensures bgra == EncodeSpec(img)
  {
    bgra := [];
    var y := 0;
    while y < |img|
      invariant y <= |img|
      invariant bgra == GridBytes(img[..y])
    {
      var x := 0;
      while x < |img[y]|
        invariant x <= |img[y]|
        invariant bgra == GridBytes(img[..y]) + RowBytes(img[y][..x])
      {
        var c := img[y][x];
        assert img[y][..x + 1][..x] == img[y][..x];
        bgra := bgra + [c.b, c.g, c.r, c.a];
        x := x + 1;
      }
      assert img[..y + 1][..y] == img[..y];
      assert img[y][..x] == img[y];
      y := y + 1;
    }
    assert img[..y] == img;
    var i := 0;
    while i < ImgPadding
      invariant i <= ImgPadding
      invariant bgra == GridBytes(img) + Fill(i)
    {
      assert Fill(i + 1) == Fill(i) + [0xFF];
      bgra := bgra + [0xFF];
      i := i + 1;
    }
  }

  /** Where row y of a w-pixel-wide image starts in its block: four bytes
      for every pixel of the rows above it. */
  function RowOffset(w: nat, y: nat): nat
  {
    if y == 0 then 0 else RowOffset(w, y - 1) + 4 * w
  }

  /** Row y starts at byte 4 * y * w. */
  lemma {:induction false} RowOffsetProduct(w: nat, y: nat)
    ensures RowOffset(w, y) == 4 * (y * w)
  {
    if y > 0 {
      RowOffsetProduct(w, y - 1);
      assert (y - 1) * w + w == y * w;
    }
  }

  /** A row ends no later than where any row below it starts. */
  lemma {:induction false} RowOffsetMono(w: nat, y: nat, h: nat)
    requires y < h
    ensures RowOffset(w, y) + 4 * w <= RowOffset(w, h)
    decreases h
  {
    if y + 1 < h {
      RowOffsetMono(w, y, h - 1);
    }
  }

  lemma {:induction false} RowLayout(row: seq<NRGBA>, x: nat)
    requires x < |row|
    ensures RowBytes(row)[4 * x .. 4 * x + 4] == PixelBytes(row[x])
  {
    var n := |row| - 1;
    if x < n {
      RowLayout(row[..n], x);
      assert RowBytes(row)[4 * x .. 4 * x + 4] == RowBytes(row[..n])[4 * x .. 4 * x + 4];
    }
  }

  lemma {:induction false} GridLength(img: Grid, w: nat, h: nat)
    requires IsGrid(img, w, h)
    ensures |GridBytes(img)| == RowOffset(w, h)
  {
    if h > 0 {
      assert IsGrid(img[..h - 1], w, h - 1);
      GridLength(img[..h - 1], w, h - 1);
    }
  }

  /** A slice that lies inside the left operand of a concatenation. */
  lemma SliceLeft(a: seq<byte>, b: seq<byte>, i: nat, j: nat)
    requires i <= j <= |a|
    ensures (a + b)[i..j] == a[i..j]
  {
  }

  /** A slice that lies inside the right operand of a concatenation. */
  lemma SliceRight(a: seq<byte>, b: seq<byte>, i: nat, j: nat)
    requires |a| <= i <= j <= |a| + |b|
    ensures (a + b)[i..j] == b[i - |a| .. j - |a|]
  {
  }

  /** Pixel x of row y sits 4 * x bytes after the bytes of the rows above
      it. */
  lemma {:induction false} GridLayout(img: Grid, y: nat, x: nat)
    requires y < |img| && x < |img[y]|
    ensures |GridBytes(img[..y])| + 4 * x + 4 <= |GridBytes(img)|
    ensures GridBytes(img)[|GridBytes(img[..y])| + 4 * x .. |GridBytes(img[..y])| + 4 * x + 4]
      == PixelBytes(img[y][x])
  {
    var n := |img| - 1;
    var init := img[..n];
    var row := RowBytes(img[n]);
    var o := |GridBytes(img[..y])| + 4 * x;
    assert GridBytes(img) == GridBytes(init) + row;
    if y < n {
      assert init[..y] == img[..y];
      GridLayout(init, y, x);
      SliceLeft(GridBytes(init), row, o, o + 4);
    } else {
      assert img[..y] == init;
      RowLayout(img[y], x);
      SliceRight(GridBytes(init), row, o, o + 4);
    }
  }

  /** Pixel (x, y) of a w x h image lands 4 * x bytes into row y of its
      block. */
  lemma EncodePixel(img: Grid, w: nat, h: nat, y: nat, x: nat)
    requires IsGrid(img, w, h) && y < h && x < w
    ensures RowOffset(w, y) + 4 * x + 4 <= RowOffset(w, h) <= |EncodeSpec(img)|
    ensures EncodeSpec(img)[RowOffset(w, y) + 4 * x .. RowOffset(w, y) + 4 * x + 4] == PixelBytes(img[y][x])
  {
    GridLayout(img, y, x);
    assert IsGrid(img[..y], w, y);
    GridLength(img[..y], w, y);
    GridLength(img, w, h);
    var i := RowOffset(w, y) + 4 * x;
    SliceLeft(GridBytes(img), Fill(ImgPadding), i, i + 4);
  }

  /** Every byte of a w x h image's block after its pixel bytes is 0xFF. */
  lemma EncodePadding(img: Grid, w: nat, h: nat)
    requires IsGrid(img, w, h)
    ensures |EncodeSpec(img)| == RowOffset(w, h) + ImgPadding
    ensures forall k :: RowOffset(w, h) <= k < |EncodeSpec(img)| ==> EncodeSpec(img)[k] == 0xFF
  {
    var g := GridBytes(img);
    GridLength(img, w, h);
    forall k | |g| <= k < |EncodeSpec(img)| ensures EncodeSpec(img)[k] == 0xFF {
      assert EncodeSpec(img)[k] == Fill(ImgPadding)[k - |g|];
    }
  }

  /** Pixel (x, y) of an image is the four bytes at RowOffset(w, y) + 4 * x
      of the block, in the order blue, green, red, alpha. */
  ghost predicate PixelPlaced(block: seq<byte>, img: Grid, w: nat, y: nat, x: nat)
    requires y < |img| && x < |img[y]|
  {
    RowOffset(w, y) + 4 * x + 4 <= |block| &&
    block[RowOffset(w, y) + 4 * x .. RowOffset(w, y) + 4 * x + 4] == PixelBytes(img[y][x])
  }

  /** The block of a w x h image holds RowOffset(w, h) = 4 * h * w pixel
      bytes, every pixel in its place, and then 0x90 bytes of 0xFF
      (main.go:210-222). */
  lemma EncodeLayout(img: Grid, w: nat, h: nat)
    requires IsGrid(img, w, h)
    ensures |EncodeSpec(img)| == RowOffset(w, h) + ImgPadding
    ensures forall y, x :: 0 <= y < h && 0 <= x < w ==> PixelPlaced(EncodeSpec(img), img, w, y, x)
    ensures forall k :: RowOffset(w, h) <= k < |EncodeSpec(img)| ==> EncodeSpec(img)[k] == 0xFF
  {
    EncodePadding(img, w, h);
    forall y, x | 0 <= y < h && 0 <= x < w
      ensures PixelPlaced(EncodeSpec(img), img, w, y, x)
    {
      EncodePixel(img, w, h, y, x);
    }
  }

  /** An image of the target size always yields a block of exactly
      EntrySize (25600) bytes (main.go:31). */
  lemma EncodedBlockSize(img: Grid)
    requires IsGrid(img, Width, Height)
    ensures |EncodeSpec(img)| == EntrySize == 25600
  {
    EncodePadding(img, Width, Height);
    RowOffsetProduct(Width, Height);
  }

  /** The pixel at byte offset i of a block, read back from B, G, R, A. */
  function PixelAt(block: seq<byte>, i: nat): NRGBA
    requires i + 4 <= |block|
  {
    NRGBA(r := block[i + 2], g := block[i + 1], b := block[i], a := block[i + 3])
  }

  /** The w x h image a block describes: the inverse of the encoder. */
  function DecodeBlock(block: seq<byte>, w: nat, h: nat): (img: Grid)
    requires RowOffset(w, h) <= |block|
    ensures IsGrid(img, w, h)
  {
    seq(h, y requires 0 <= y < h =>
      seq(w, x requires 0 <= x < w =>
        RowOffsetMono(w, y, h);
        PixelAt(block, RowOffset(w, y) + 4 * x)))
  }

  lemma DecodePixel(img: Grid, w: nat, h: nat, y: nat, x: nat)
    requires IsGrid(img, w, h) && y < h && x < w
    requires RowOffset(w, h) <= |EncodeSpec(img)|
    ensures DecodeBlock(EncodeSpec(img), w, h)[y][x] == img[y][x]
  {
    var e := EncodeSpec(img);
    var i := RowOffset(w, y) + 4 * x;
    EncodePixel(img, w, h, y, x);
    var s := e[i .. i + 4];
    assert s == PixelBytes(img[y][x]);
    assert PixelAt(e, i) == NRGBA(r := s[2], g := s[1], b := s[0], a := s[3]);
    assert DecodeBlock(e, w, h)[y][x] == PixelAt(e, i);
  }

  /** Decoding the block of an image gives the image back: the encoder loses
      nothing and puts every pixel where the decoder looks for it. */
  lemma EncodeDecodeRoundTrip(img: Grid, w: nat, h: nat)
    requires IsGrid(img, w, h)
    ensures RowOffset(w, h) <= |EncodeSpec(img)|
    ensures DecodeBlock(EncodeSpec(img), w, h) == img
  {
    GridLength(img, w, h);
    var d := DecodeBlock(EncodeSpec(img), w, h);
    forall y | 0 <= y < h ensures d[y] == img[y] {
      forall x | 0 <= x < w ensures d[y][x] == img[y][x] {
        DecodePixel(img, w, h, y, x);
      }
    }
  }

  /** `loadImage` as a resolver: decoding and resizing the file (`load`,
      getImg and imaging.Resize) may fail; the result is then encoded. */
  function LoadImage(load: string -> Option<Grid>, path: string): Option<Block>
  {
    match load(path)
    case None => None
    case Some(img) => Some(EncodeSpec(img))
  }

  /** Every block loadImage produces from a 74 x 86 image is EntrySize bytes. */
  lemma LoadImageSize(load: string -> Option<Grid>, path: string)
    requires load(path).Some? ==> IsGrid(load(path).value, Width, Height)
    ensures LoadImage(load, path).Some? <==> load(path).Some?
    ensures LoadImage(load, path).Some? ==> |LoadImage(load, path).value| == EntrySize
  {
    if load(path).Some? {
      EncodedBlockSize(load(path).value);
    }
  }
}
