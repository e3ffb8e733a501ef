/** Types and layout constants of the Analogue 3D `labels.db` file, shared by
    every other module of the model. */
module Common {

  /** One byte of the database file or of a pixel block. */
  newtype byte = x: int | 0 <= x < 0x100

  /** Go's `uint32`: a cartridge signature or an index word. */
  newtype u32 = x: int | 0 <= x < 0x1_0000_0000

  /** One fixed-size pixel block of the image table. */
  type Block = seq<byte>

  // Dimensions of one label image, in pixels.
  const Height: nat := 86
  const Width: nat := 74
  /** Bytes of 0xFF filler appended after the pixels of every block. */
  const ImgPadding: nat := 0x90
  /** Size of one image-table entry: 86 * 74 * 4 + 0x90 = 25600 bytes. */
  const EntrySize: nat := Height * Width * 4 + ImgPadding

  /** File offset of the signature index. */
  const IndexStart: nat := 0x100
  /** The word that ends the signature index. */
  const IndexEOF: u32 := 0xFFFF_FFFF
  /** File offset of the first image block. */
  const ImgsStart: nat := 0x4100
  /** Number of 32-bit words between IndexStart and ImgsStart (4096): the
      most words the index reader ever reads. */
  const MaxSlots: nat := (ImgsStart - IndexStart) / 4

  /** A custom image given on the command line: where to load it from and
      the signature its file name spells. */
  datatype Image = Image(filepath: string, signature: u32)

  /** The failures the tool reports (and then exits on). */
  datatype Error =
    | Truncated               // binary.Read ran out of file (io.EOF / io.ErrUnexpectedEOF)
    | LoadFailed(path: string) // loadImage could not open or decode an image
    | EmptyKey                // "invalid string provided": nothing left after the 0x prefix
    | KeyTooLong              // "hex string too long"
    | InvalidHexByte          // hex.InvalidByteError
    | OddHexLength            // hex.ErrLength

  datatype Result<T> = Ok(value: T) | Err(error: Error)

  datatype Option<T> = None | Some(value: T)

  /** The signatures of a list of custom images, in order. */
  function Signatures(imgs: seq<Image>): (r: seq<u32>)
    ensures |r| == |imgs|
    ensures forall k :: 0 <= k < |imgs| ==> r[k] == imgs[k].signature
  {
    seq(|imgs|, k requires 0 <= k < |imgs| => imgs[k].signature)
  }

  /** The file paths of a list of custom images, in order. */
  function Paths(imgs: seq<Image>): (r: seq<string>)
    ensures |r| == |imgs|
    ensures forall k :: 0 <= k < |imgs| ==> r[k] == imgs[k].filepath
  {
    seq(|imgs|, k requires 0 <= k < |imgs| => imgs[k].filepath)
  }

  /** Every element is at most the next one. */
  ghost predicate Ascending(s: seq<u32>) {
    forall i, j :: 0 <= i < j < |s| ==> s[i] <= s[j]
  }

  /** Every element is smaller than the next one (so no key repeats). */
  ghost predicate StrictlyAscending(s: seq<u32>) {
    forall i, j :: 0 <= i < j < |s| ==> s[i] < s[j]
  }

  /** `prefix` followed by the elements of a successful result; errors pass
      through. */
  function Prepend<T>(prefix: seq<T>, r: Result<seq<T>>): Result<seq<T>>
  {
    match r
    case Ok(xs) => Ok(prefix + xs)
    case Err(e) => Err(e)
  }

  lemma PrependNothing<T>(r: Result<seq<T>>)
    ensures Prepend([], r) == r
  {
    if r.Ok? {
      assert [] + r.value == r.value;
    }
  }

  lemma PrependTwice<T>(prefix: seq<T>, x: T, r: Result<seq<T>>)
    ensures Prepend(prefix, Prepend([x], r)) == Prepend(prefix + [x], r)
  {
    if r.Ok? {
      assert prefix + ([x] + r.value) == (prefix + [x]) + r.value;
    }
  }
}
