/**
 * ImageManagerRequest: the description of one image (its source and decode
 * options) and the identity `equals`/`hashCode` give it.  The cache map and
 * both load lists are keyed by that identity.
 */
module Requests {
  import opened Wrappers
  import opened JavaInt

  /** An `android.content.res.Resources` object, known only by identity. */
  datatype Resources = Resources(id: nat)

  /** An `android.net.Uri`, known through its `toString()` form. */
  datatype Uri = Uri(text: string)

  /**
   * The request's public fields.  `ImageManagerRequest.java` declares no `uri`
   * field, though `ImageManager` reads `req.uri` (ImageManager.java:259, 313,
   * 563, 607); it is modelled as an ordinary optional field.
   */
  datatype Request = Request(
    filename: Option<string>,
    resources: Option<Resources>,
    resId: Int32,
    subsample: Int32,
    width: Int32,
    height: Int32,
    preview: bool,
    strong: bool,
    uri: Option<Uri>)

  /** The seven fields `equals` and `hashCode` read; `resources` and `uri` are not among them. */
  datatype Key = Key(
    filename: Option<string>,
    height: Int32,
    preview: bool,
    resId: Int32,
    strong: bool,
    subsample: Int32,
    width: Int32)

  function KeyOf(r: Request): Key
  {
    Key(r.filename, r.height, r.preview, r.resId, r.strong, r.subsample, r.width)
  }

  /** `new ImageManagerRequest(filename)`: every other field keeps its declared default. */
  function FromFilename(filename: Option<string>): (r: Request)
    ensures r.filename == filename && r.resources == None && r.resId == -1
    ensures r.subsample == 1 && r.width == -1 && r.height == -1
    ensures r.preview && !r.strong && r.uri == None
  {
    Request(filename, None, -1, 1, -1, -1, true, false, None)
  }

  /** `new ImageManagerRequest(resources, resId)`: every other field keeps its declared default. */
  function FromResources(resources: Option<Resources>, resId: Int32): (r: Request)
    ensures r.filename == None && r.resources == resources && r.resId == resId
    ensures r.subsample == 1 && r.width == -1 && r.height == -1
    ensures r.preview && !r.strong && r.uri == None
  {
    Request(None, resources, resId, 1, -1, -1, true, false, None)
  }

  /** Both constructors give the same decode options: they differ only in the source fields. */
  lemma ConstructorsShareDefaults(filename: Option<string>, resources: Option<Resources>, resId: Int32)
    ensures FromFilename(filename).(filename := None, resources := resources, resId := resId)
         == FromResources(resources, resId)
  {
  }

  /** The field-by-field comparison at the heart of `equals`, in the source's order. */
  function Equals(a: Request, b: Request): (r: bool)
    ensures r <==> KeyOf(a) == KeyOf(b)
  {
    if a.filename.None? && b.filename.Some? then false
    else if a.filename.Some? && a.filename != b.filename then false
    else if a.height != b.height then false
    else if a.preview != b.preview then false
    else if a.resId != b.resId then false
    else if a.strong != b.strong then false
    else if a.subsample != b.subsample then false
    else if a.width != b.width then false
    else true
  }

  /** What `equals(Object)` can be handed: null, a request (by reference), or an object of another class. */
  datatype Object = Null | RequestObject(ref: nat, value: Request) | OtherObject(ref: nat)

  /** `equals(Object)` called on the request `value` stored at reference `self`. */
  function EqualsObject(self: nat, value: Request, obj: Object): (r: bool)
    ensures obj.Null? || obj.OtherObject? ==> !r
    ensures obj.RequestObject? && obj.ref != self ==> (r <==> KeyOf(value) == KeyOf(obj.value))
    ensures obj == RequestObject(self, value) ==> r
  {
    if obj.RequestObject? && obj.ref == self then true
    else if obj.Null? then false
    else if !obj.RequestObject? then false
    else Equals(value, obj.value)
  }

  lemma EqualsReflexive(a: Request)
    ensures Equals(a, a)
  {
  }

  lemma EqualsSymmetric(a: Request, b: Request)
    ensures Equals(a, b) == Equals(b, a)
  {
  }

  lemma EqualsTransitive(a: Request, b: Request, c: Request)
    requires Equals(a, b) && Equals(b, c)
    ensures Equals(a, c)
  {
  }

  /** `resources` takes no part in identity: changing it changes neither `equals` nor `hashCode`. */
  lemma ResourcesIgnored(a: Request, res: Option<Resources>)
    ensures Equals(a, a.(resources := res)) && HashCode(a) == HashCode(a.(resources := res))
  {
  }

  /**
   * Neither does `uri`: two requests for different remote images with the same
   * decode options collide in the cache and in the load queue.
   */
  lemma UriIgnored(a: Request, u1: Uri, u2: Uri)
    ensures Equals(a.(uri := Some(u1)), a.(uri := Some(u2)))
    ensures HashCode(a.(uri := Some(u1))) == HashCode(a.(uri := Some(u2)))
  {
  }

  function FilenameHash(filename: Option<string>): Int32
  {
    match filename
    case None => 0
    case Some(s) => StringHash(s)
  }

  /** `Boolean.hashCode`. */
  function BoolHash(b: bool): int
  {
    if b then 1231 else 1237
  }

  /** One step of `hashCode`: `result = 31 * result + f` in `int`. */
  function HashStep(result: Int32, f: int): Int32
  {
    Wrap(31 * result as int + f)
  }

  /** The values `hashCode` folds in, in its order: filename, height, preview, resId, strong, subsample, width. */
  function HashFields(r: Request): (fs: seq<int>)
    ensures |fs| == 7
  {
    [FilenameHash(r.filename) as int, r.height as int, BoolHash(r.preview), r.resId as int,
     BoolHash(r.strong), r.subsample as int, r.width as int]
  }

  /** `result = 1; result = 31 * result + f` for each `f` in turn, in `int`. */
  function HashFold(fs: seq<int>): Int32
  {
    if fs == [] then 1 else HashStep(HashFold(fs[..|fs| - 1]), fs[|fs| - 1])
  }

  /** `hashCode`, over the seven fields `equals` compares: the key polynomial under 32-bit wrap-around. */
  function HashCode(r: Request): (h: Int32)
    ensures h == Wrap(KeyPolynomial(KeyOf(r)))
  {
    HashFoldIsWrappedHorner(HashFields(r));
    HornerExpands(HashFields(r));
    HashFold(HashFields(r))
  }

  /**
   * The exact sum that `hashCode` reduces modulo 2^32: the polynomial
   * 31^7 + 31^6 f + 31^5 height + ... + width over the key fields.
   */
  function KeyPolynomial(k: Key): int
  {
    27512614111
      + 887503681 * (FilenameHash(k.filename) as int)
      + 28629151 * (k.height as int)
      + 923521 * BoolHash(k.preview)
      + 29791 * (k.resId as int)
      + 961 * BoolHash(k.strong)
      + 31 * (k.subsample as int)
      + k.width as int
  }

  /** The same fold on unbounded integers. */
  function HornerFold(fs: seq<int>): int
  {
    if fs == [] then 1 else 31 * HornerFold(fs[..|fs| - 1]) + fs[|fs| - 1]
  }

  lemma HashStepOfWrapped(p: int, f: int)
    ensures HashStep(Wrap(p), f) == Wrap(31 * p + f)
  {
    WrapAffine(p, 31, f);
  }

  /** Wrapping after every step of the fold is wrapping once at the end. */
  lemma {:induction false} HashFoldIsWrappedHorner(fs: seq<int>)
    ensures HashFold(fs) == Wrap(HornerFold(fs))
  {
    if fs != [] {
      HashFoldIsWrappedHorner(fs[..|fs| - 1]);
      HashStepOfWrapped(HornerFold(fs[..|fs| - 1]), fs[|fs| - 1]);
    }
  }

  /** Seven steps of Horner's rule from 1 expand to the key polynomial. */
  lemma HornerExpands(fs: seq<int>)
    requires |fs| == 7
    ensures HornerFold(fs)
         == 27512614111 + 887503681 * fs[0] + 28629151 * fs[1] + 923521 * fs[2]
          + 29791 * fs[3] + 961 * fs[4] + 31 * fs[5] + fs[6]
  {
    assert HornerFold(fs[..1]) == 31 + fs[0] by { assert fs[..1][..0] == []; }
    assert HornerFold(fs[..2]) == 31 * HornerFold(fs[..1]) + fs[1] by { assert fs[..2][..1] == fs[..1]; }
    assert HornerFold(fs[..3]) == 31 * HornerFold(fs[..2]) + fs[2] by { assert fs[..3][..2] == fs[..2]; }
    assert HornerFold(fs[..4]) == 31 * HornerFold(fs[..3]) + fs[3] by { assert fs[..4][..3] == fs[..3]; }
    assert HornerFold(fs[..5]) == 31 * HornerFold(fs[..4]) + fs[4] by { assert fs[..5][..4] == fs[..4]; }
    assert HornerFold(fs[..6]) == 31 * HornerFold(fs[..5]) + fs[5] by { assert fs[..6][..5] == fs[..5]; }
    assert HornerFold(fs) == 31 * HornerFold(fs[..6]) + fs[6];
  }

  /** Equal requests hash alike, as `HashMap` keys must. */
  lemma HashConsistentWithEquals(a: Request, b: Request)
    requires Equals(a, b)
    ensures HashCode(a) == HashCode(b)
  {
  }
}
