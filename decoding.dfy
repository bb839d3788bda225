/**
 * The decoding steps of `ImageManager.loadImage` around an abstract decoder:
 * the outcome of each `BitmapFactory` and `createScaledBitmap` call, and the
 * rescale step that follows the source decodes.
 */
module Decoding {
  import opened Wrappers
  import opened JavaInt
  import opened Bitmaps

  /** What one decode call produces: a bitmap, null, or an `OutOfMemoryError`. */
  datatype Decoded = Pixels(bitmap: Bitmap) | NoBitmap | DecodeOutOfMemory

  /**
   * The foreign decoding primitives: `BitmapFactory.decodeFile(path, opts)`,
   * `BitmapFactory.decodeResource(application.getResources(), resId, opts)` and
   * `Bitmap.createScaledBitmap(src, width, height, true)`, with the sample size
   * of `opts` made explicit.
   */
  datatype Decoder = Decoder(
    decodeFile: (string, Int32) -> Decoded,
    decodeResource: (Int32, Int32) -> Decoded,
    createScaled: (Bitmap, Int32, Int32) -> Decoded)

  /** A place `loadImage` decodes from: a file path, or a resource of the application. */
  datatype Source = FileSource(path: string) | ResourceSource(resId: Int32)

  function Decode(dec: Decoder, src: Source, sample: Int32): Decoded
  {
    match src
    case FileSource(path) => dec.decodeFile(path, sample)
    case ResourceSource(resId) => dec.decodeResource(resId, sample)
  }

  /** Where the source decodes stand: stopped early with null, a (possibly null) bitmap, or out of memory. */
  datatype Stage = Stopped | Have(bitmap: Option<Bitmap>) | StageOutOfMemory

  function StageOf(d: Decoded): (s: Stage)
    ensures s.Have? <==> !d.DecodeOutOfMemory?
    ensures s.Have? ==> s.bitmap == BitmapOf(d)
  {
    match d
    case Pixels(b) => Have(Some(b))
    case NoBitmap => Have(None)
    case DecodeOutOfMemory => StageOutOfMemory
  }

  function BitmapOf(d: Decoded): Option<Bitmap>
  {
    if d.Pixels? then Some(d.bitmap) else None
  }

  /**
   * The outcome of `loadImage`: the returned bitmap with the intermediate
   * bitmaps it recycled on the way; an `OutOfMemoryError`; or a
   * `NullPointerException` (only the as-written rescale throws one).
   */
  datatype LoadResult = Done(bitmap: Option<Bitmap>, disposed: set<Bitmap>) | OutOfMemory | NullPointer

  /** `opts.inSampleSize` in preview mode. */
  const PreviewSampleSize: Int32 := 8

  /** Whether `loadImage` rescales: only a full load with both desired dimensions positive. */
  predicate Rescales(width: Int32, height: Int32, preview: bool)
  {
    !preview && width > 0 && height > 0
  }

  /**
   * The scaling step (ImageManager.java:327-333) as written: `createScaledBitmap(bmp, ...)`
   * is called even when `bmp` is null, and `bmp` is recycled whenever the
   * result is non-null, also when the result is `bmp` itself.
   */
  function RescaleAsWritten(bmp: Option<Bitmap>, width: Int32, height: Int32, preview: bool, dec: Decoder): (r: LoadResult)
    ensures !Rescales(width, height, preview) ==> r == Done(bmp, {})
    ensures Rescales(width, height, preview) && bmp.None? ==> r == NullPointer
  {
    if !Rescales(width, height, preview) then Done(bmp, {})
    else if bmp.None? then NullPointer
    else match dec.createScaled(bmp.value, width, height)
      case Pixels(s) => Done(Some(s), {bmp.value})
      case NoBitmap => Done(bmp, {})
      case DecodeOutOfMemory => OutOfMemory
  }

  /**
   * The scaling step as intended: a null decode stays null, and the
   * intermediate bitmap is recycled only when a different scaled bitmap
   * replaces it.
   */
  function Rescale(bmp: Option<Bitmap>, width: Int32, height: Int32, preview: bool, dec: Decoder): (r: LoadResult)
    ensures !r.NullPointer?
    ensures !Rescales(width, height, preview) || bmp.None? ==> r == Done(bmp, {})
    ensures r.Done? && r.bitmap.Some? ==> r.bitmap.value !in r.disposed
    ensures r.Done? && r.bitmap == bmp ==> r.disposed == {}
    ensures r.Done? && r.bitmap != bmp ==>
      && Rescales(width, height, preview) && bmp.Some? && r.bitmap.Some?
      && dec.createScaled(bmp.value, width, height) == Pixels(r.bitmap.value)
      && r.disposed == {bmp.value}
    ensures r.OutOfMemory? <==>
      Rescales(width, height, preview) && bmp.Some? && dec.createScaled(bmp.value, width, height).DecodeOutOfMemory?
    // a different scaled bitmap takes the intermediate's place, which is recycled
    ensures Rescales(width, height, preview) && bmp.Some? && dec.createScaled(bmp.value, width, height).Pixels?
              && dec.createScaled(bmp.value, width, height).bitmap != bmp.value ==>
      r == Done(Some(dec.createScaled(bmp.value, width, height).bitmap), {bmp.value})
    // no scaled bitmap, or the intermediate itself: it is returned as it is
    ensures Rescales(width, height, preview) && bmp.Some?
              && (dec.createScaled(bmp.value, width, height).NoBitmap?
                  || dec.createScaled(bmp.value, width, height) == Pixels(bmp.value)) ==>
      r == Done(bmp, {})
  {
    if !Rescales(width, height, preview) || bmp.None? then Done(bmp, {})
    else match dec.createScaled(bmp.value, width, height)
      case Pixels(s) => if s == bmp.value then Done(bmp, {}) else Done(Some(s), {bmp.value})
      case NoBitmap => Done(bmp, {})
      case DecodeOutOfMemory => OutOfMemory
  }

  /** `createScaledBitmap` as Android implements it: a request for the source's own size returns the source. */
  ghost predicate KeepsSameSize(dec: Decoder)
  {
    forall b: Bitmap :: dec.createScaled(b, b.width, b.height) == Pixels(b)
  }

  /** As written, a full load with desired dimensions throws when the source decoded to null. */
  lemma RescaleAsWrittenThrowsOnNull(dec: Decoder)
    ensures RescaleAsWritten(None, 100, 50, false, dec) == NullPointer
  {
  }

  /**
   * As written, asking for a bitmap's own size returns that bitmap already
   * recycled; the corrected step returns it intact.
   */
  lemma RescaleAsWrittenRecyclesResult(dec: Decoder, b: Bitmap)
    requires KeepsSameSize(dec)
    requires b.width > 0 && b.height > 0
    ensures RescaleAsWritten(Some(b), b.width, b.height, false, dec) == Done(Some(b), {b})
    ensures Rescale(Some(b), b.width, b.height, false, dec) == Done(Some(b), {})
  {
    assert dec.createScaled(b, b.width, b.height) == Pixels(b);
  }
}
