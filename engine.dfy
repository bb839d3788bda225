/**
 * ImageManager: the cache of decoded images keyed by request identity, the
 * load and download queues with their in-flight lists, and the operations of
 * the dispatch path and the worker loops, each run as one atomic step.
 */
module Engine {
  import opened Wrappers
  import opened JavaInt
  import opened Seqs
  import opened Requests
  import opened Bitmaps
  import opened Decoding

  /** The identities of a list of requests, in order. */
  function Keys(s: seq<Request>): seq<Key>
  {
    seq(|s|, i requires 0 <= i < |s| => KeyOf(s[i]))
  }

  lemma KeysConcat(a: seq<Request>, b: seq<Request>)
    ensures Keys(a + b) == Keys(a) + Keys(b)
  {
  }

  /** `remove(req)` on a list or queue of requests: drops the first element `equals` to `req`. */
  function RemoveKey(s: seq<Request>, k: Key): seq<Request>
  {
    if s == [] then []
    else if KeyOf(s[0]) == k then s[1..]
    else [s[0]] + RemoveKey(s[1..], k)
  }

  /**
   * `remove(req)` on a request list drops the first element equal to `req`, keeping
   * every other element in order, and leaves a list holding none unchanged.
   */
  lemma {:induction false} RemoveKeyAt(s: seq<Request>, k: Key, i: nat)
    requires i < |s| && KeyOf(s[i]) == k && k !in Keys(s[..i])
    ensures RemoveKey(s, k) == s[..i] + s[i + 1..]
  {
    if i > 0 {
      assert Keys(s[..i])[0] == KeyOf(s[0]);
      assert s[1..][..i - 1] == s[1..i];
      assert Keys(s[1..i]) == Keys(s[..i])[1..];
      RemoveKeyAt(s[1..], k, i - 1);
      assert s[..i] == [s[0]] + s[1..i];
      assert s[i + 1..] == s[1..][i..];
    }
  }

  lemma {:induction false} RemoveKeyAbsent(s: seq<Request>, k: Key)
    requires k !in Keys(s)
    ensures RemoveKey(s, k) == s
  {
    if s != [] {
      assert Keys(s)[0] == KeyOf(s[0]);
      assert Keys(s[1..]) == Keys(s)[1..];
      RemoveKeyAbsent(s[1..], k);
      assert s == [s[0]] + s[1..];
    }
  }

  /** Removing by identity from a request list is removing the first equal key from its keys. */
  lemma {:induction false} KeysRemoveKey(s: seq<Request>, k: Key)
    ensures Keys(RemoveKey(s, k)) == RemoveFirst(Keys(s), k)
  {
    if s != [] {
      assert Keys(s) == [KeyOf(s[0])] + Keys(s[1..]);
      if KeyOf(s[0]) != k {
        KeysRemoveKey(s[1..], k);
        KeysConcat([s[0]], RemoveKey(s[1..], k));
      }
    }
  }

  lemma EnqueueKeepsDistinct(q: seq<Request>, l: seq<Request>, r: Request)
    requires NoDup(Keys(q + l)) && KeyOf(r) !in Keys(q) && KeyOf(r) !in Keys(l)
    ensures NoDup(Keys((q + [r]) + l))
  {
    KeysConcat(q, l);
    KeysConcat(q + [r], l);
    KeysConcat(q, [r]);
    assert Keys([r]) == [KeyOf(r)];
    NoDupEnqueue(Keys(q), Keys(l), KeyOf(r));
  }

  lemma TakeKeepsDistinct(q: seq<Request>, l: seq<Request>)
    requires NoDup(Keys(q + l)) && q != []
    ensures NoDup(Keys(q[1..] + (l + [q[0]])))
  {
    KeysConcat(q, l);
    KeysConcat(q[1..], l + [q[0]]);
    KeysConcat(l, [q[0]]);
    assert Keys([q[0]]) == [Keys(q)[0]];
    assert Keys(q[1..]) == Keys(q)[1..];
    NoDupTake(Keys(q), Keys(l));
  }

  lemma RemoveKeepsDistinct(q: seq<Request>, l: seq<Request>, k: Key)
    requires NoDup(Keys(q + l))
    ensures NoDup(Keys(RemoveKey(q, k) + l)) && NoDup(Keys(q + RemoveKey(l, k)))
  {
    KeysConcat(q, l);
    KeysConcat(RemoveKey(q, k), l);
    KeysConcat(q, RemoveKey(l, k));
    KeysRemoveKey(q, k);
    KeysRemoveKey(l, k);
    NoDupRemoveLeft(Keys(q), Keys(l), k);
    NoDupRemoveRight(Keys(q), Keys(l), k);
  }

  /** After removing a key from a queue whose keys are all distinct, no element of the queue has that key. */
  lemma RemoveKeyRemoves(q: seq<Request>, l: seq<Request>, k: Key)
    requires NoDup(Keys(q + l))
    ensures k !in Keys(RemoveKey(q, k))
  {
    KeysConcat(q, l);
    NoDupConcat(Keys(q), Keys(l));
    KeysRemoveKey(q, k);
    RemoveFirstNoDup(Keys(q), k);
  }

  /** Emptying the queue keeps the in-flight list's keys distinct. */
  lemma ClearKeepsDistinct(q: seq<Request>, l: seq<Request>)
    requires NoDup(Keys(q + l))
    ensures NoDup(Keys([] + l))
  {
    KeysConcat(q, l);
    NoDupConcat(Keys(q), Keys(l));
    assert [] + l == l;
  }

  /** Appending a request whose key a list lacks, then removing that key, restores the list. */
  lemma {:induction false} RemoveKeyAppended(s: seq<Request>, r: Request)
    requires KeyOf(r) !in Keys(s)
    ensures RemoveKey(s + [r], KeyOf(r)) == s
  {
    if s != [] {
      assert Keys(s) == [KeyOf(s[0])] + Keys(s[1..]);
      assert (s + [r])[1..] == s[1..] + [r];
      RemoveKeyAppended(s[1..], r);
    }
  }

  /** The set that holds `b`'s bitmap, or nothing when `b` is null. */
  function AsSet(b: Option<Bitmap>): set<Bitmap>
  {
    if b.Some? then {b.value} else {}
  }

  /** The bitmaps that `getBitmap()` still yields over the entries of a cache map. */
  function Observable(m: map<Key, LoadedBitmap>): set<Bitmap>
  {
    set k | k in m && GetBitmap(m[k]).Some? :: GetBitmap(m[k]).value
  }

  lemma ObservableGrows(m: map<Key, LoadedBitmap>, pending: set<Key>, k: Key)
    requires k in pending && k in m
    ensures Observable(m - (pending - {k})) == Observable(m - pending) + AsSet(GetBitmap(m[k]))
  {
    var before, after := m - pending, m - (pending - {k});
    assert after == before[k := m[k]];
    forall b | b in Observable(after) ensures b in Observable(before) + AsSet(GetBitmap(m[k])) {
      var j :| j in after && GetBitmap(after[j]).Some? && GetBitmap(after[j]).value == b;
      if j != k {
        assert j in before;
      }
    }
    forall b | b in Observable(before) + AsSet(GetBitmap(m[k])) ensures b in Observable(after) {
      if b in Observable(before) {
        var j :| j in before && GetBitmap(before[j]).Some? && GetBitmap(before[j]).value == b;
        assert j in after && after[j] == before[j];
      } else {
        assert k in after && after[k] == m[k];
      }
    }
  }

  /** The cache after the collector has visited the keys `ks` in turn, one `Collect` step each. */
  function AfterCollections(m: map<Key, LoadedBitmap>, ks: seq<Key>): map<Key, LoadedBitmap>
  {
    if ks == [] then m
    else
      var before := AfterCollections(m, ks[..|ks| - 1]);
      var k := ks[|ks| - 1];
      if k in before then before[k := Collected(before[k])] else before
  }

  /**
   * Retention under any number of collections: no entry disappears or changes
   * mode, a strong entry still yields its bitmap, and a weak entry the
   * collector has visited yields null.
   */
  lemma {:induction false} StrongEntriesSurvive(m: map<Key, LoadedBitmap>, ks: seq<Key>)
    ensures AfterCollections(m, ks).Keys == m.Keys
    ensures forall j :: j in m ==> IsStrong(AfterCollections(m, ks)[j]) == IsStrong(m[j])
    ensures forall j :: j in m && IsStrong(m[j]) ==> GetBitmap(AfterCollections(m, ks)[j]) == GetBitmap(m[j])
    ensures forall j :: j in m && !IsStrong(m[j]) && j in ks ==> GetBitmap(AfterCollections(m, ks)[j]) == None
  {
    if ks != [] {
      var init := ks[..|ks| - 1];
      StrongEntriesSurvive(m, init);
      forall j | j in m && !IsStrong(m[j]) && j in ks
        ensures GetBitmap(AfterCollections(m, ks)[j]) == None
      {
        if j != ks[|ks| - 1] {
          assert j in init by {
            var i :| 0 <= i < |ks| && ks[i] == j;
            assert init[i] == j;
          }
        }
      }
    }
  }

  /** The subdirectory of the application's cache that holds downloaded images. */
  const ImageDirectory: string := "/image_manager/"

  class ImageManager {
    /** `application.getCacheDir()`. */
    const cacheDir: string

    /** Requests in the order they were last asked for. */
    var requests: seq<Key>
    /** Requests waiting for a load worker (a FIFO queue). */
    var loadQueue: seq<Request>
    /** Requests a load worker has taken and not yet finished. */
    var loadingReqs: seq<Request>
    /** The cache. */
    var loaded: map<Key, LoadedBitmap>
    /** URIs waiting for a download worker (a FIFO queue). */
    var downloadQueue: seq<Uri>
    /** URIs a download worker has taken and not yet finished. */
    var downloadingUris: seq<Uri>
    /** The paths that exist on the device as regular files (`exists() && !isDirectory()`). */
    var files: set<string>
    /** The bitmaps on which `recycle()` has been called. */
    var recycled: set<Bitmap>

    /**
     * What the manager keeps true between steps: the recency list, the load
     * queue with the in-flight loads, and the download queue with the
     * in-flight downloads are each free of duplicates.
     */
    ghost predicate Valid()
      reads this
    {
      RecencyDistinct() && LoadsDistinct() && DownloadsDistinct()
    }

    /** Each request appears at most once in the recency list. */
    ghost predicate RecencyDistinct()
      reads this`requests
    {
      NoDup(requests)
    }

    /** No request is queued twice, or both queued and in flight. */
    ghost predicate LoadsDistinct()
      reads this`loadQueue, this`loadingReqs
    {
      NoDup(Keys(loadQueue + loadingReqs))
    }

    /** No URI is queued twice, or both queued and in flight. */
    ghost predicate DownloadsDistinct()
      reads this`downloadQueue, this`downloadingUris
    {
      NoDup(downloadQueue + downloadingUris)
    }

    /** The manager as the static initializer leaves it, on a device holding `files`. */
    constructor (cacheDir: string, files: set<string>)
      ensures Valid()
      ensures this.cacheDir == cacheDir && this.files == files
      ensures requests == [] && loadQueue == [] && loadingReqs == [] && loaded == map[]
      ensures downloadQueue == [] && downloadingUris == [] && recycled == {}
    {
      this.cacheDir := cacheDir;
      this.files := files;
      requests, loadQueue, loadingReqs, loaded := [], [], [], map[];
      downloadQueue, downloadingUris, recycled := [], [], {};
    }

    predicate IsImageLoaded(k: Key)
      reads this`loaded
    {
      k in loaded
    }

    /** Queued for a load worker, or being loaded by one. */
    predicate IsImageLoading(k: Key)
      reads this`loadQueue, this`loadingReqs
    {
      k in Keys(loadQueue) || k in Keys(loadingReqs)
    }

    /** The bitmap the cache currently yields for `k`, or null. */
    function GetLoadedBitmap(k: Key): Option<Bitmap>
      reads this`loaded
    {
      if IsImageLoaded(k) then GetBitmap(loaded[k]) else None
    }

    /**
     * `getFilenameForUri`: `<cacheDir>/image_manager/<hash>`, the hash being
     * `String.hashCode` of the URI's text in decimal.
     */
    function FilenameForUri(uri: Uri): (path: string)
      ensures |path| > |cacheDir + ImageDirectory|
      ensures path[..|cacheDir + ImageDirectory|] == cacheDir + ImageDirectory
      ensures forall i :: |cacheDir + ImageDirectory| <= i < |path| ==> path[i] != '/'
    {
      cacheDir + ImageDirectory + IntToString(StringHash(uri.text))
    }

    /** Two URIs share a cache file exactly when their texts have the same `String.hashCode`. */
    lemma FilenameForUriShared(u1: Uri, u2: Uri)
      ensures FilenameForUri(u1) == FilenameForUri(u2) <==> StringHash(u1.text) == StringHash(u2.text)
    {
      var prefix := cacheDir + ImageDirectory;
      var s1, s2 := IntToString(StringHash(u1.text)), IntToString(StringHash(u2.text));
      if FilenameForUri(u1) == FilenameForUri(u2) {
        assert s1 == FilenameForUri(u1)[|prefix|..];
        assert s2 == FilenameForUri(u2)[|prefix|..];
      }
      IntToStringInjective(StringHash(u1.text), StringHash(u2.text));
    }

    /** So distinct URIs can be served from one cache file: "Aa" and "BB" hash alike. */
    lemma DistinctUrisShareFile()
      ensures Uri("Aa") != Uri("BB") && FilenameForUri(Uri("Aa")) == FilenameForUri(Uri("BB"))
    {
      assert StringHash("Aa") == 2112 by {
        assert "Aa"[..1] == "A";
        assert StringHash("A") == 65 by { assert "A"[..0] == ""; }
      }
      assert StringHash("BB") == 2112 by {
        assert "BB"[..1] == "B";
        assert StringHash("B") == 66 by { assert "B"[..0] == ""; }
      }
    }

    /** Queued for a download worker, or being downloaded by one. */
    predicate IsImageDownloading(uri: Uri)
      reads this`downloadQueue, this`downloadingUris
    {
      uri in downloadQueue || uri in downloadingUris
    }

    /** A URI counts as downloaded when no download of it is pending and its cache file is a regular file. */
    predicate IsImageDownloaded(uri: Uri)
      reads this`files, this`downloadQueue, this`downloadingUris
      ensures IsImageDownloading(uri) ==> !IsImageDownloaded(uri)
      ensures IsImageDownloaded(uri) ==> FilenameForUri(uri) in files
    {
      !IsImageDownloading(uri) && FilenameForUri(uri) in files
    }

    /** A remote request whose image is not yet on the device. */
    predicate AwaitsDownload(req: Request)
      reads this`files, this`downloadQueue, this`downloadingUris
    {
      req.uri.Some? && !IsImageDownloaded(req.uri.value)
    }

    /**
     * The places `loadImage` decodes from, in the order it tries them:
     * the file name, the application resource, the URI's cache file.
     */
    function Sources(req: Request): seq<Source>
    {
      (if req.filename.Some? then [FileSource(req.filename.value)] else [])
        + (if req.resId >= 0 then [ResourceSource(req.resId)] else [])
        + (if req.uri.Some? then [FileSource(FilenameForUri(req.uri.value))] else [])
    }

    /** Reference for the last-one-wins rule: the bitmap decoded from the last source, or null. */
    function LastDecoded(req: Request, sample: Int32, dec: Decoder): Option<Bitmap>
    {
      var srcs := Sources(req);
      if srcs == [] then None else BitmapOf(Decode(dec, srcs[|srcs| - 1], sample))
    }

    /**
     * Whether one of the decodes `loadImage` performs runs out of memory. A
     * missing file ends the load before any decode. The file and the resource
     * are decoded before the URI's download is checked, and the URI's cache
     * file is decoded only once it is downloaded.
     */
    predicate DecodeRunsOutOfMemory(req: Request, sample: Int32, dec: Decoder)
      reads this`files, this`downloadQueue, this`downloadingUris
    {
      && (req.filename.None? || req.filename.value in files)
      && (|| (req.filename.Some? && dec.decodeFile(req.filename.value, sample).DecodeOutOfMemory?)
          || (req.resId >= 0 && dec.decodeResource(req.resId, sample).DecodeOutOfMemory?)
          || (req.uri.Some? && IsImageDownloaded(req.uri.value)
              && dec.decodeFile(FilenameForUri(req.uri.value), sample).DecodeOutOfMemory?))
    }

    /**
     * ImageManager.java:295-324, in `loadImage`: decode from every source the request sets,
     * each overwriting the previous bitmap; stop with null when the file does
     * not exist or the URI is not downloaded.
     */
    function DecodeSources(req: Request, sample: Int32, dec: Decoder): (s: Stage)
      reads this`files, this`downloadQueue, this`downloadingUris
      ensures s.Have? ==> s.bitmap == LastDecoded(req, sample, dec)
      ensures req.filename.Some? && req.filename.value !in files ==> s == Stopped
      ensures AwaitsDownload(req) ==> s.Stopped? || s.StageOutOfMemory?
      ensures s.Stopped? ==> (req.filename.Some? && req.filename.value !in files) || AwaitsDownload(req)
      ensures s.StageOutOfMemory? ==>
        exists i :: 0 <= i < |Sources(req)| && Decode(dec, Sources(req)[i], sample).DecodeOutOfMemory?
      ensures s.Have? ==>
        forall i :: 0 <= i < |Sources(req)| ==> !Decode(dec, Sources(req)[i], sample).DecodeOutOfMemory?
      ensures s.StageOutOfMemory? <==> DecodeRunsOutOfMemory(req, sample, dec)
    {
      var afterFile :=
        if req.filename.None? then Have(None)
        else if req.filename.value !in files then Stopped
        else StageOf(dec.decodeFile(req.filename.value, sample));
      if !afterFile.Have? then
        assert afterFile.StageOutOfMemory? ==> Sources(req)[0] == FileSource(req.filename.value);
        afterFile
      else
        var afterRes := if req.resId >= 0 then StageOf(dec.decodeResource(req.resId, sample)) else afterFile;
        var fileSrcs := if req.filename.Some? then [FileSource(req.filename.value)] else [];
        assert req.resId >= 0 ==> Sources(req)[|fileSrcs|] == ResourceSource(req.resId);
        if !afterRes.Have? || req.uri.None? then afterRes
        else if !IsImageDownloaded(req.uri.value) then Stopped
        else
          var last := FileSource(FilenameForUri(req.uri.value));
          assert Sources(req)[|Sources(req)| - 1] == last;
          StageOf(Decode(dec, last, sample))
    }

    /**
     * `loadImage(req, preview)` with the rescale step as intended: the sample
     * size is 8 in preview mode and `req.subsample` otherwise; a missing file
     * or an undownloaded URI yields null; only a full load with both desired
     * dimensions positive rescales.
     */
    function LoadImage(req: Option<Request>, preview: bool, dec: Decoder): (r: LoadResult)
      reads this`files, this`downloadQueue, this`downloadingUris
      ensures req.None? ==> r == Done(None, {})
      ensures !r.NullPointer?
      ensures r.Done? && r.bitmap.Some? ==> r.bitmap.value !in r.disposed
      ensures preview && r.Done? ==> r.disposed == {}
      ensures req.Some? && req.value.filename.Some? && req.value.filename.value !in files ==> r == Done(None, {})
      ensures req.Some? && AwaitsDownload(req.value) ==> r == Done(None, {}) || r == OutOfMemory
      ensures req.Some? && preview && r.Done? && r.bitmap.Some? ==>
        r.bitmap == LastDecoded(req.value, PreviewSampleSize, dec)
      ensures req.Some? && !preview && r.Done? && r.disposed == {} && r.bitmap.Some? ==>
        r.bitmap == LastDecoded(req.value, req.value.subsample, dec)
      ensures req.Some? && r.Done? && r.disposed != {} ==>
        && Rescales(req.value.width, req.value.height, preview)
        && r.disposed == AsSet(LastDecoded(req.value, req.value.subsample, dec))
        && r.bitmap != LastDecoded(req.value, req.value.subsample, dec)
      // an available source that decodes without running out of memory: the last decode, rescaled
      ensures req.Some? ==>
        var sample := if preview then PreviewSampleSize else req.value.subsample;
        (req.value.filename.None? || req.value.filename.value in files) && !AwaitsDownload(req.value)
        && (forall i :: 0 <= i < |Sources(req.value)| ==> !Decode(dec, Sources(req.value)[i], sample).DecodeOutOfMemory?)
        ==> r == Rescale(LastDecoded(req.value, sample, dec), req.value.width, req.value.height, preview, dec)
      // a decode that runs out of memory propagates; otherwise an undownloaded URI yields null
      ensures req.Some? ==>
        var sample := if preview then PreviewSampleSize else req.value.subsample;
        && (DecodeRunsOutOfMemory(req.value, sample, dec) ==> r == OutOfMemory)
        && (AwaitsDownload(req.value) && !DecodeRunsOutOfMemory(req.value, sample, dec) ==> r == Done(None, {}))
    {
      if req.None? then Done(None, {})
      else
        var sample := if preview then PreviewSampleSize else req.value.subsample;
        match DecodeSources(req.value, sample, dec)
        case Stopped => Done(None, {})
        case StageOutOfMemory => OutOfMemory
        case Have(b) => Rescale(b, req.value.width, req.value.height, preview, dec)
    }

    /** `loadImage` as written: identical but for the rescale step. */
    function LoadImageAsWritten(req: Option<Request>, preview: bool, dec: Decoder): (r: LoadResult)
      reads this`files, this`downloadQueue, this`downloadingUris
      ensures r.NullPointer? <==>
        && req.Some? && Rescales(req.value.width, req.value.height, preview)
        && DecodeSources(req.value, req.value.subsample, dec) == Have(None)
    {
      if req.None? then Done(None, {})
      else
        var sample := if preview then PreviewSampleSize else req.value.subsample;
        match DecodeSources(req.value, sample, dec)
        case Stopped => Done(None, {})
        case StageOutOfMemory => OutOfMemory
        case Have(b) => RescaleAsWritten(b, req.value.width, req.value.height, preview, dec)
    }

    /**
     * A full load of a request that names no source but asks for a size
     * throws `NullPointerException` as written; the corrected load yields null.
     */
    lemma LoadWithoutSourceThrows(dec: Decoder)
      ensures var req := FromFilename(None).(width := 100, height := 50);
        LoadImageAsWritten(Some(req), false, dec) == NullPointer
        && LoadImage(Some(req), false, dec) == Done(None, {})
    {
    }

    /** The load queue after `getImage`'s guarded `queueImageLoad(req)`: appended only when not already loading. */
    function QueuedLoad(req: Request): seq<Request>
      reads this`loadQueue, this`loadingReqs
    {
      if IsImageLoading(KeyOf(req)) then loadQueue else loadQueue + [req]
    }

    /** `queueImageLoad`: append to the load queue; the caller checks for duplicates. */
    method QueueImageLoad(req: Request)
      modifies this`loadQueue
      ensures loadQueue == old(loadQueue) + [req]
    {
      loadQueue := loadQueue + [req];
    }

    /** `queueImageDownload`: append the request's URI to the download queue; the caller checks for duplicates. */
    method QueueImageDownload(req: Request)
      requires req.uri.Some?
      modifies this`downloadQueue
      ensures downloadQueue == old(downloadQueue) + [req.uri.value]
    {
      downloadQueue := downloadQueue + [req.uri.value];
    }

    /** ImageManager.java:609-611, in `getImage`: queue the download of the request's URI unless it is already pending. */
    method RequestDownload(req: Request)
      requires Valid() && req.uri.Some?
      modifies this`downloadQueue
      ensures Valid()
      ensures downloadQueue == if old(IsImageDownloading(req.uri.value)) then old(downloadQueue)
                               else old(downloadQueue) + [req.uri.value]
    {
      if !IsImageDownloading(req.uri.value) {
        NoDupEnqueue(downloadQueue, downloadingUris, req.uri.value);
        QueueImageDownload(req);
      }
    }

    /**
     * ImageManager.java:616-637, in `getImage`: in preview mode decode at sample size 8
     * and install the result, giving up with null when there is none; on
     * out-of-memory carry on without a preview.  Then queue the full load
     * unless it is already queued or in flight.
     */
    method LoadPreview(req: Request, dec: Decoder) returns (bmp: Option<Bitmap>)
      requires Valid()
      modifies this`loaded, this`loadQueue
      ensures Valid()
      ensures var r := old(LoadImage(Some(req), true, dec));
        && (req.preview && r.Done? && r.bitmap.None? ==>
              bmp == None && loaded == old(loaded) && loadQueue == old(loadQueue))
        && (req.preview && r.Done? && r.bitmap.Some? ==>
              && bmp == r.bitmap
              && loaded == old(loaded)[KeyOf(req) := NewLoadedBitmap(r.bitmap, req.strong)]
              && loadQueue == old(QueuedLoad(req)))
        && (!req.preview || r.OutOfMemory? ==>
              bmp == None && loaded == old(loaded) && loadQueue == old(QueuedLoad(req)))
    {
      bmp := None;
      if req.preview {
        var r := LoadImage(Some(req), true, dec);
        if r.Done? {
          bmp := r.bitmap;
          if bmp.None? {
            return;
          }
          loaded := loaded[KeyOf(req) := NewLoadedBitmap(bmp, req.strong)];
        }
      }
      if !IsImageLoading(KeyOf(req)) {
        EnqueueKeepsDistinct(loadQueue, loadingReqs, req);
        QueueImageLoad(req);
      }
    }

    /**
     * `getImage(req)`: record the request as most recent; return a cached
     * bitmap if the cache yields one; otherwise, for a URI not yet
     * downloaded, queue its download and return null; otherwise decode a
     * preview inline (when enabled), install it, and queue the full load
     * unless it is already queued or in flight.
     */
    method GetImage(req: Request, dec: Decoder) returns (bmp: Option<Bitmap>)
      requires Valid()
      modifies this`requests, this`loaded, this`loadQueue, this`downloadQueue
      ensures Valid()
      ensures requests == RemoveFirst(old(requests), KeyOf(req)) + [KeyOf(req)]
      ensures requests[|requests| - 1] == KeyOf(req) && KeyOf(req) !in requests[..|requests| - 1]
      ensures bmp.Some? ==> GetLoadedBitmap(KeyOf(req)) == bmp
      // a cache hit changes no queue and no cache entry
      ensures old(GetLoadedBitmap(KeyOf(req))).Some? ==>
        && bmp == old(GetLoadedBitmap(KeyOf(req)))
        && loaded == old(loaded) && loadQueue == old(loadQueue) && downloadQueue == old(downloadQueue)
      // a remote image not yet on the device: queue its download once, touch nothing else
      ensures old(GetLoadedBitmap(KeyOf(req))).None? && old(AwaitsDownload(req)) ==>
        && bmp == None && loaded == old(loaded) && loadQueue == old(loadQueue)
        && downloadQueue == (if old(IsImageDownloading(req.uri.value)) then old(downloadQueue)
                             else old(downloadQueue) + [req.uri.value])
      // the source is available
      ensures old(GetLoadedBitmap(KeyOf(req))).None? && !old(AwaitsDownload(req)) ==>
        var r := old(LoadImage(Some(req), true, dec));
        && downloadQueue == old(downloadQueue)
        && (req.preview && r.Done? && r.bitmap.None? ==>
              bmp == None && loaded == old(loaded) && loadQueue == old(loadQueue))
        && (req.preview && r.Done? && r.bitmap.Some? ==>
              && bmp == r.bitmap
              && loaded == old(loaded)[KeyOf(req) := NewLoadedBitmap(r.bitmap, req.strong)]
              && loadQueue == old(QueuedLoad(req)))
        && (!req.preview || r.OutOfMemory? ==>
              bmp == None && loaded == old(loaded) && loadQueue == old(QueuedLoad(req)))
    {
      var k := KeyOf(req);
      MoveToBack(requests, k);
      requests := RemoveFirst(requests, k) + [k];

      bmp := None;
      if IsImageLoaded(k) {
        bmp := GetLoadedBitmap(k);
      }
      if bmp.Some? {
        return;
      }

      if req.uri.Some? && !IsImageDownloaded(req.uri.value) {
        RequestDownload(req);
        return;
      }

      bmp := LoadPreview(req, dec);
    }

    /**
     * `unloadImage(req)`: forget the request, drop it from the load queue,
     * recycle the bitmap the cache yields for it and remove the entry.  An
     * in-flight load of the same key is not cancelled.
     */
    method UnloadImage(req: Request)
      requires Valid()
      modifies this`requests, this`loadQueue, this`recycled, this`loaded
      ensures Valid()
      ensures requests == RemoveFirst(old(requests), KeyOf(req))
      ensures loadQueue == RemoveKey(old(loadQueue), KeyOf(req))
      ensures recycled == old(recycled) + AsSet(old(GetLoadedBitmap(KeyOf(req))))
      ensures loaded == old(loaded) - {KeyOf(req)}
      ensures KeyOf(req) !in requests && KeyOf(req) !in Keys(loadQueue)
    {
      var k := KeyOf(req);
      RemoveFirstRemoves(requests, k);
      requests := RemoveFirst(requests, k);
      RemoveKeepsDistinct(loadQueue, loadingReqs, k);
      RemoveKeyRemoves(loadQueue, loadingReqs, k);
      loadQueue := RemoveKey(loadQueue, k);
      var bmp := GetLoadedBitmap(k);
      if bmp.Some? {
        recycled := recycled + {bmp.value};
      }
      loaded := loaded - {k};
    }

    /**
     * `cleanUp()`: recycle every bitmap the cache yields, then clear the
     * cache, the load queue and the recency list.  Downloads, in-flight loads
     * and files on the device are left alone.
     */
    method CleanUp()
      requires Valid()
      modifies this`loaded, this`recycled, this`loadQueue, this`requests
      ensures Valid()
      ensures loaded == map[] && loadQueue == [] && requests == []
      ensures recycled == old(recycled) + Observable(old(loaded))
    {
      var pending := loaded.Keys;
      assert old(loaded) - pending == map[];
      while pending != {}
        invariant pending <= loaded.Keys
        invariant loaded == old(loaded)
        invariant Valid()
        invariant recycled == old(recycled) + Observable(old(loaded) - pending)
        decreases pending
      {
        var k :| k in pending;
        var bmp := GetLoadedBitmap(k);
        if bmp.Some? {
          recycled := recycled + {bmp.value};
        }
        ObservableGrows(loaded, pending, k);
        pending := pending - {k};
      }
      assert old(loaded) - {} == old(loaded);
      ClearKeepsDistinct(loadQueue, loadingReqs);
      loaded := map[];
      loadQueue := [];
      requests := [];
    }

    /** ImageManager.java:84, in the load loop: a worker takes the head of the load queue and marks it in flight. */
    method WorkerTake() returns (req: Request)
      requires Valid() && loadQueue != []
      modifies this`loadQueue, this`loadingReqs
      ensures Valid()
      ensures req == old(loadQueue[0])
      ensures loadQueue == old(loadQueue[1..]) && loadingReqs == old(loadingReqs) + [req]
    {
      TakeKeepsDistinct(loadQueue, loadingReqs);
      req := loadQueue[0];
      loadQueue := loadQueue[1..];
      loadingReqs := loadingReqs + [req];
    }

    /**
     * ImageManager.java:89-121, in the load loop: the full decode of a request the worker
     * holds.  On success the bitmap the cache yielded for the key is recycled
     * and the new entry, with the request's retention mode, replaces it; on
     * out-of-memory the worker runs `cleanUp()`.  Either way the request
     * leaves the in-flight list.
     */
    method WorkerFinish(req: Request, dec: Decoder)
      requires Valid() && req in loadingReqs
      modifies this`loaded, this`recycled, this`loadQueue, this`requests, this`loadingReqs
      ensures Valid()
      ensures loadingReqs == RemoveKey(old(loadingReqs), KeyOf(req))
      ensures var r := old(LoadImage(Some(req), false, dec));
        && (r.Done? ==>
              && loaded == old(loaded)[KeyOf(req) := NewLoadedBitmap(r.bitmap, req.strong)]
              && recycled == old(recycled) + r.disposed + AsSet(old(GetLoadedBitmap(KeyOf(req))))
              && loadQueue == old(loadQueue) && requests == old(requests))
        && (r.OutOfMemory? ==>
              && loaded == map[] && loadQueue == [] && requests == []
              && recycled == old(recycled) + Observable(old(loaded)))
    {
      var k := KeyOf(req);
      var r := LoadImage(Some(req), false, dec);
      if r.Done? {
        recycled := recycled + r.disposed;
        if IsImageLoaded(k) {
          var prev := GetLoadedBitmap(k);
          if prev.Some? && prev.value !in recycled {
            recycled := recycled + {prev.value};
          }
        }
        loaded := loaded[k := NewLoadedBitmap(r.bitmap, req.strong)];
      } else {
        CleanUp();
      }
      RemoveKeepsDistinct(loadQueue, loadingReqs, k);
      loadingReqs := RemoveKey(loadingReqs, k);
    }

    /**
     * One whole iteration of the load loop, run atomically: it leaves the
     * in-flight list as it found it.
     */
    method WorkerStep(dec: Decoder) returns (req: Request)
      requires Valid() && loadQueue != []
      modifies this`loaded, this`recycled, this`loadQueue, this`requests, this`loadingReqs
      ensures Valid()
      ensures req == old(loadQueue[0]) && loadingReqs == old(loadingReqs)
      ensures var r := old(LoadImage(Some(loadQueue[0]), false, dec));
        && (r.Done? ==>
              && loaded == old(loaded)[KeyOf(req) := NewLoadedBitmap(r.bitmap, req.strong)]
              && recycled == old(recycled) + r.disposed + AsSet(old(GetLoadedBitmap(KeyOf(req))))
              && loadQueue == old(loadQueue[1..]) && requests == old(requests))
        && (r.OutOfMemory? ==>
              && loaded == map[] && loadQueue == [] && requests == []
              && recycled == old(recycled) + Observable(old(loaded)))
    {
      KeysConcat(loadQueue, loadingReqs);
      NoDupConcat(Keys(loadQueue), Keys(loadingReqs));
      assert KeyOf(loadQueue[0]) == Keys(loadQueue)[0];
      ghost var inFlight := loadingReqs;
      req := WorkerTake();
      WorkerFinish(req, dec);
      RemoveKeyAppended(inFlight, req);
    }

    /** ImageManager.java:152, in the download loop: a worker takes the head of the download queue and marks it in flight. */
    method DownloadTake() returns (uri: Uri)
      requires Valid() && downloadQueue != []
      modifies this`downloadQueue, this`downloadingUris
      ensures Valid()
      ensures uri == old(downloadQueue[0])
      ensures downloadQueue == old(downloadQueue[1..]) && downloadingUris == old(downloadingUris) + [uri]
    {
      NoDupTake(downloadQueue, downloadingUris);
      uri := downloadQueue[0];
      downloadQueue := downloadQueue[1..];
      downloadingUris := downloadingUris + [uri];
    }

    /**
     * ImageManager.java:155-167, in the download loop: the download either left a file at
     * the URI's cache path (`created`) or failed before creating one; then the
     * URI leaves the in-flight list.
     */
    method DownloadFinish(uri: Uri, created: bool)
      requires Valid() && uri in downloadingUris
      modifies this`files, this`downloadingUris
      ensures Valid()
      ensures files == if created then old(files) + {FilenameForUri(uri)} else old(files)
      ensures downloadingUris == RemoveFirst(old(downloadingUris), uri)
      ensures !IsImageDownloading(uri)
      ensures created ==> IsImageDownloaded(uri)
    {
      NoDupConcat(downloadQueue, downloadingUris);
      NoDupRemoveRight(downloadQueue, downloadingUris, uri);
      RemoveFirstRemoves(downloadingUris, uri);
      if created {
        files := files + {FilenameForUri(uri)};
      }
      downloadingUris := RemoveFirst(downloadingUris, uri);
    }

    /** One whole iteration of the download loop, run atomically. */
    method DownloadStep(created: bool) returns (uri: Uri)
      requires Valid() && downloadQueue != []
      modifies this`files, this`downloadQueue, this`downloadingUris
      ensures Valid()
      ensures uri == old(downloadQueue[0])
      ensures downloadQueue == old(downloadQueue[1..]) && downloadingUris == old(downloadingUris)
      ensures files == if created then old(files) + {FilenameForUri(uri)} else old(files)
    {
      NoDupConcat(downloadQueue, downloadingUris);
      ghost var inFlight := downloadingUris;
      uri := DownloadTake();
      DownloadFinish(uri, created);
      RemoveFirstAppended(inFlight, uri);
    }

    /** The garbage collector clears the weak reference of the entry for `k`, if it is weak. */
    method Collect(k: Key)
      requires Valid() && k in loaded
      modifies this`loaded
      ensures Valid()
      ensures loaded == old(loaded)[k := Collected(old(loaded)[k])]
      ensures loaded == AfterCollections(old(loaded), [k])
      ensures forall j :: j in loaded && IsStrong(loaded[j]) ==> GetLoadedBitmap(j) == old(GetLoadedBitmap(j))
    {
      assert [k][..0] == [];
      loaded := loaded[k := Collected(loaded[k])];
    }

    /** The exact number of bytes of the bitmaps the cache yields for `keys`, in that order. */
    function SizeSum(keys: seq<Key>): int
      reads this`loaded
    {
      if keys == [] then 0
      else SizeSum(keys[..|keys| - 1]) + ExactSize(GetLoadedBitmap(keys[|keys| - 1]))
    }

    lemma SizeSumPrefix(keys: seq<Key>, i: nat)
      requires i < |keys|
      ensures SizeSum(keys[..i + 1]) == SizeSum(keys[..i]) + ExactSize(GetLoadedBitmap(keys[i]))
    {
      assert keys[..i + 1][..i] == keys[..i];
    }

    lemma {:induction false} SizeSumConcat(a: seq<Key>, b: seq<Key>)
      ensures SizeSum(a + b) == SizeSum(a) + SizeSum(b)
      decreases |b|
    {
      if b == [] {
        assert a + b == a;
      } else {
        var init := b[..|b| - 1];
        assert (a + b)[..|a + b| - 1] == a + init;
        assert (a + b)[|a + b| - 1] == b[|b| - 1];
        SizeSumConcat(a, init);
      }
    }

    /** Taking one key out of the middle of the order takes its bitmap's bytes out of the sum. */
    lemma SizeSumRemoveAt(b: seq<Key>, j: nat)
      requires j < |b|
      ensures SizeSum(b) == SizeSum(b[..j] + b[j + 1..]) + ExactSize(GetLoadedBitmap(b[j]))
    {
      assert b == b[..j] + ([b[j]] + b[j + 1..]);
      SizeSumConcat(b[..j], [b[j]] + b[j + 1..]);
      SizeSumConcat([b[j]], b[j + 1..]);
      SizeSumConcat(b[..j], b[j + 1..]);
      assert [b[j]][..0] == [];
    }

    /** The estimate does not depend on the order in which the map hands out its values. */
    lemma {:induction false} SizeSumOrderIndependent(a: seq<Key>, b: seq<Key>)
      requires multiset(a) == multiset(b)
      ensures SizeSum(a) == SizeSum(b)
      decreases |a|
    {
      if a != [] {
        var j := MatchLast(a, b);
        SizeSumOrderIndependent(a[..|a| - 1], b[..j] + b[j + 1..]);
        SizeSumRemoveAt(b, j);
      }
    }

    /**
     * The size estimate of `logImageManagerStatus`: `totalSize += w * h * bpp`
     * in Java `int` over the cache's values in `order`, skipping entries whose
     * bitmap is gone.
     */
    method EstimatedSize(order: seq<Key>) returns (total: Int32)
      requires NoDup(order) && forall k :: k in order <==> k in loaded
      ensures total == Wrap(SizeSum(order))
    {
      total := 0;
      var i := 0;
      while i < |order|
        invariant 0 <= i <= |order|
        invariant total == Wrap(SizeSum(order[..i]))
      {
        SizeSumPrefix(order, i);
        var bmp := GetLoadedBitmap(order[i]);
        if bmp.Some? {
          WrapAdd(SizeSum(order[..i]), ExactSize(bmp));
          total := Wrap(total as int + BitmapSize(bmp) as int);
        }
        i := i + 1;
      }
      assert order[..|order|] == order;
    }
  }
}
