/**
 * Decoded bitmaps as opaque handles, and `ImageManager.LoadedBitmap`: a cache
 * entry that holds its bitmap either strongly or through a weak reference.
 */
module Bitmaps {
  import opened Wrappers
  import opened JavaInt

  /** `Bitmap.Config`: the four formats the size table names, and any other (the `default` branch). */
  datatype Config = Alpha8 | Rgb565 | Argb4444 | Argb8888 | OtherConfig

  /**
   * A decoded `android.graphics.Bitmap`: an identity, its size and its pixel
   * format (`getConfig()` may be null).  Pixels and `recycle()` are foreign
   * calls; the engine records recycled handles in a set.
   */
  datatype Bitmap = Bitmap(id: nat, width: Int32, height: Int32, config: Option<Config>)

  /** The bytes-per-pixel table of the status log; no format (null) counts 0, any other format 4. */
  function BytesPerPixel(config: Option<Config>): (bpp: int)
    ensures bpp == 0 <==> config.None?
    ensures config == Some(Alpha8) ==> bpp == 1
    ensures config == Some(Rgb565) || config == Some(Argb4444) ==> bpp == 2
    ensures config == Some(Argb8888) || config == Some(OtherConfig) ==> bpp == 4
  {
    match config
    case None => 0
    case Some(Alpha8) => 1
    case Some(Rgb565) => 2
    case Some(Argb4444) => 2
    case Some(Argb8888) => 4
    case Some(OtherConfig) => 4
  }

  /** The exact number of bytes a bitmap's pixels take; 0 when no bitmap is observable. */
  function ExactSize(b: Option<Bitmap>): int
  {
    match b
    case None => 0
    case Some(bmp) => bmp.width as int * bmp.height as int * BytesPerPixel(bmp.config)
  }

  /** `bmp.getWidth() * bmp.getHeight() * bpp`, each product in Java `int`. */
  function BitmapSize(b: Option<Bitmap>): (size: Int32)
    ensures size == Wrap(ExactSize(b))
  {
    match b
    case None => 0
    case Some(bmp) =>
      var wh := bmp.width as int * bmp.height as int;
      var bpp := BytesPerPixel(bmp.config);
      WrapAffine(wh, bpp, 0);
      assert Wrap(wh) as int * bpp == bpp * Wrap(wh) as int;
      Wrap(Wrap(wh) as int * bpp)
  }

  /** `java.lang.ref.WeakReference<Bitmap>`: `get()` yields the referent until the collector clears it. */
  datatype WeakReference = WeakReference(referent: Option<Bitmap>)

  /** `LoadedBitmap`: exactly one of its two fields is used, according to `strong`. */
  datatype LoadedBitmap = LoadedBitmap(weakBitmap: Option<WeakReference>, bitmap: Option<Bitmap>)

  predicate IsStrong(e: LoadedBitmap)
  {
    e.weakBitmap.None?
  }

  /** `getBitmap()`: the strong field, or what the weak reference still yields. */
  function GetBitmap(e: LoadedBitmap): Option<Bitmap>
  {
    if e.weakBitmap.None? then e.bitmap else e.weakBitmap.value.referent
  }

  /** `new LoadedBitmap(bitmap, strong)`: a fresh entry yields the bitmap it was given, whatever its mode. */
  function NewLoadedBitmap(bitmap: Option<Bitmap>, strong: bool): (e: LoadedBitmap)
    ensures IsStrong(e) == strong
    ensures GetBitmap(e) == bitmap
  {
    LoadedBitmap(if strong then None else Some(WeakReference(bitmap)), if strong then bitmap else None)
  }

  /**
   * What a collection by the garbage collector leaves of an entry: a weak
   * reference is cleared, a strong entry is untouched.
   */
  function Collected(e: LoadedBitmap): (c: LoadedBitmap)
    ensures IsStrong(c) == IsStrong(e)
    ensures IsStrong(e) ==> GetBitmap(c) == GetBitmap(e)
    ensures !IsStrong(e) ==> GetBitmap(c) == None
  {
    if e.weakBitmap.None? then e else e.(weakBitmap := Some(WeakReference(None)))
  }
}
