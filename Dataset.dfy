/**
 * The decoded image records the volume manager works on: one slice (a
 * single-frame dataset), its optional attributes, and the outcome of reading
 * one uploaded file. The codec itself is outside the model: what it produced
 * for a file is an input (`DecodeResult`).
 */
module Dataset {

  datatype Option<+T> = None | Some(value: T)

  /** An attribute as the source reads it: absent from the dataset (the caller
      substitutes a default), present and convertible to the wanted number type,
      or present but not convertible (`int(...)`/`float(...)` raises). */
  datatype Attr<+T> = Missing | Present(value: T) | Malformed

  /** Pixel payload of one frame; never interpreted by the model. */
  type Pixels = seq<int>

  /** The attributes the segmentation builder copies from a reference slice,
      plus every other attribute as an opaque payload. */
  datatype Header = Header(
    patientName: Option<string>,
    patientId: Option<string>,
    studyInstanceUid: Option<string>,
    seriesInstanceUid: Option<string>,
    frameOfReferenceUid: Option<string>,
    pixelSpacing: Option<seq<real>>,
    sliceThickness: Option<real>,
    other: map<string, string>)

  /** One decoded dataset. `zPos` is the third component of its patient
      position, `numberOfFrames` and `instanceNumber` the integer attributes. */
  datatype Slice = Slice(
    zPos: Attr<real>,
    instanceNumber: Attr<int>,
    numberOfFrames: Attr<int>,
    rows: nat,
    columns: nat,
    pixelData: Pixels,
    header: Header)

  /** What reading (and decompressing) one uploaded file gave. For a dataset,
      `frames` is the decoded pixel array indexed by frame, or None when
      decoding the pixel array fails. */
  datatype DecodeResult =
    | DecodeFailed
    | Decoded(ds: Slice, frames: Option<seq<Pixels>>)

  /** The single-frame copy of `ds` holding frame `px` as instance `n`. */
  function FrameOf(ds: Slice, px: Pixels, n: int): (f: Slice)
    ensures f.numberOfFrames == Present(1) && f.instanceNumber == Present(n)
    ensures f.pixelData == px
    ensures SameGeometryAndHeader(f, ds)
  {
    ds.(pixelData := px, numberOfFrames := Present(1), instanceNumber := Present(n))
  }

  /** Two slices agree on every attribute that frame splitting leaves alone. */
  predicate SameGeometryAndHeader(a: Slice, b: Slice)
  {
    a.zPos == b.zPos && a.rows == b.rows && a.columns == b.columns && a.header == b.header
  }
}
