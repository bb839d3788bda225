# android-image-manager in Dafny

A model of the image cache of Polidea's android-image-manager, with proofs about it.

**Requests.** An `ImageManagerRequest` describes an image: a file name, an
application resource id or a remote URI, plus decode options (subsample,
desired width and height, preview, strong). Its `equals` and `hashCode` decide
which requests share a cache slot.

**Engine.** `ImageManager` keeps a recency list of requests and a cache map
from requests to `LoadedBitmap` entries. A load queue feeds the decoding
workers and a download queue feeds the download workers, and each queue has
a list of the items its workers are busy with. `getImage` answers from the
cache when it can. Otherwise it:
- queues a download for a remote image not yet on the device;
- decodes a low-resolution preview inline, when preview is enabled;
- queues the full load.

A load worker decodes the full image and replaces the preview, recycling the
bitmap it supersedes. On out-of-memory it runs `cleanUp`. A download worker
fetches a URI into a file under `<cacheDir>/image_manager/`.

**Files.**

| file | module | contents |
|---|---|---|
| `wrappers.dfy` | `Wrappers` | `Option` |
| `java_int.dfy` | `JavaInt` | Java `int` as a 32-bit two's-complement value (`Int32`, `Wrap`); `String.hashCode`; `String.valueOf(int)` |
| `seqs.dfy` | `Seqs` | `List.remove(Object)` on sequences; duplicate-freedom lemmas |
| `request.dfy` | `Requests` | the request datatype, its constructors, `equals`, `hashCode` |
| `bitmap.dfy` | `Bitmaps` | bitmap handles, the bytes-per-pixel table, `LoadedBitmap` with strong and weak retention |
| `decoding.dfy` | `Decoding` | the decoder interface and the rescale step of `loadImage` |
| `engine.dfy` | `Engine` | class `ImageManager`: the static state and every operation on it |

**State and operations.**
- The static fields of `ImageManager` become the fields of class `Engine.ImageManager`. Each state-changing operation is a method with a `modifies` clause.
- `Valid()` is the invariant of the manager's state. It says three things:
  - the recency list has no duplicates;
  - no request key occurs twice across the load queue and the in-flight loads;
  - no URI occurs twice across the download queue and the in-flight downloads.
- The constructor establishes `Valid()`. `GetImage`, `RequestDownload`, `LoadPreview`, `UnloadImage`, `CleanUp`, the six worker steps and `Collect` require it and keep it.
- `QueueImageLoad` and `QueueImageDownload` neither require nor ensure it: they append unconditionally, as the source does. Their callers only call them when the item is neither queued nor in flight, and then `EnqueueKeepsDistinct` and `NoDupEnqueue` show that `Valid()` survives.
- `EstimatedSize` changes no state.
- Each worker-loop iteration is split in two. `WorkerTake` is the `take()` that marks a request in flight. `WorkerFinish` is the rest of the iteration. `WorkerStep` runs both as one atomic step. Downloads are split the same way: `DownloadTake`, `DownloadFinish` and `DownloadStep`.
- The foreign calls become explicit parameters:
  - decoding and scaling are a `Decoding.Decoder` value holding three total functions;
  - whether a download created its file is a boolean;
  - the file system is the set `files` of paths that exist as regular files;
  - `recycle()` adds the bitmap to the set `recycled`;
  - the garbage collector clearing a weak reference is the step `Collect`.
- `ImageManagerRequest.java` declares no `uri` field, though `ImageManager` reads `req.uri` (ImageManager.java:259, 313, 563, 607). It is modelled as an ordinary optional field. Like `resources`, it takes no part in `equals` or `hashCode`, so two requests that differ only in `uri` collide. The model keeps this collision (`Requests.UriIgnored`).

## Model

| member | source | states |
|---|---|---|
| `Requests.FromFilename` | src/pl/polidea/imagemanager/ImageManagerRequest.java:17-62 | The filename constructor sets the file name and leaves the declared defaults: `resId` -1, `subsample` 1, width and height -1, preview on, strong off, no resources, no URI. |
| `Requests.FromResources` | src/pl/polidea/imagemanager/ImageManagerRequest.java:17-75 | The resources constructor sets `resources` and `resId`, leaves the file name null and keeps the same defaults. |
| `Requests.ConstructorsShareDefaults` | src/pl/polidea/imagemanager/ImageManagerRequest.java:60-75 | The two constructors differ only in the source fields. |
| `Requests.Equals` | src/pl/polidea/imagemanager/ImageManagerRequest.java:103-128 | The field chain holds exactly when the seven key fields agree: file name (null-safe), height, preview, resId, strong, subsample, width. |
| `Requests.EqualsObject` | src/pl/polidea/imagemanager/ImageManagerRequest.java:92-129 | `equals(Object)` is false for null and for an object of another class. It is true for the same reference. For another request it is true exactly when the keys agree. |
| `Requests.EqualsReflexive` | src/pl/polidea/imagemanager/ImageManagerRequest.java:92-129 | `equals` is reflexive. |
| `Requests.EqualsSymmetric` | src/pl/polidea/imagemanager/ImageManagerRequest.java:103-128 | `equals` is symmetric. |
| `Requests.EqualsTransitive` | src/pl/polidea/imagemanager/ImageManagerRequest.java:103-128 | `equals` is transitive. |
| `Requests.ResourcesIgnored` | src/pl/polidea/imagemanager/ImageManagerRequest.java:78-129 | Changing `resources` changes neither `equals` nor `hashCode`. |
| `Requests.UriIgnored` | src/pl/polidea/imagemanager/ImageManagerRequest.java:78-129 | Requests that differ only in `uri` are equal and hash alike. |
| `Requests.HashFoldIsWrappedHorner` | src/pl/polidea/imagemanager/ImageManagerRequest.java:79-88 | Wrapping to 32 bits after each `result = 31 * result + f` gives the same value as computing exactly and wrapping once at the end. |
| `Requests.KeyOf` | src/pl/polidea/imagemanager/ImageManagerRequest.java:103-128 | The identity of a request: the seven fields `equals` compares and `hashCode` folds in. `resources` and `uri` are not among them. Its properties are the contracts of `Equals` and `HashCode`. |
| `Requests.HashCode` | src/pl/polidea/imagemanager/ImageManagerRequest.java:78-89 | `hashCode` is the polynomial 31^7 + 31^6·filename hash + … + width, reduced modulo 2^32. Booleans count as 1231 and 1237. |
| `Requests.HashConsistentWithEquals` | src/pl/polidea/imagemanager/ImageManagerRequest.java:78-129 | Equal requests have equal `hashCode`. |
| `JavaInt.Wrap` | src/pl/polidea/imagemanager/ImageManagerRequest.java:81-87 | Java `int` arithmetic: the result is congruent to the exact value modulo 2^32, and equal to it when the exact value is in range. |
| `JavaInt.StringHash` | src/pl/polidea/imagemanager/ImageManager.java:238-240 | `String.hashCode` (`h = 31*h + c`) is the exact polynomial over the characters, reduced modulo 2^32. |
| `JavaInt.IntToString` | src/pl/polidea/imagemanager/ImageManager.java:239 | `String.valueOf(int)` is a nonempty string of decimal digits and `-`. It starts with `-` exactly when the value is negative. |
| `JavaInt.IntToStringRoundTrip` | src/pl/polidea/imagemanager/ImageManager.java:239 | Parsing the decimal form gives back the value. |
| `JavaInt.IntToStringInjective` | src/pl/polidea/imagemanager/ImageManager.java:239 | Distinct values have distinct decimal forms. |
| `Seqs.RemoveFirst` | src/pl/polidea/imagemanager/ImageManager.java:592 | `remove(req)` leaves a list without `req` unchanged, and otherwise shortens it by one. |
| `Seqs.RemoveFirstAt` | src/pl/polidea/imagemanager/ImageManager.java:592 | `remove(req)` drops the first occurrence of `req` and keeps every other element in its order. |
| `Seqs.RemoveFirstMultiset` | src/pl/polidea/imagemanager/ImageManager.java:592 | `remove(req)` takes away one occurrence of `req` and nothing else. |
| `Seqs.RemoveFirstNoDup` | src/pl/polidea/imagemanager/ImageManager.java:357 | On a duplicate-free list, `remove(req)` keeps it duplicate-free and removes exactly `req`. |
| `Seqs.MoveToBack` | src/pl/polidea/imagemanager/ImageManager.java:591-594 | `remove(req); add(req)` on a duplicate-free list leaves `req` exactly once, as the last element, and keeps every other element. |
| `Bitmaps.BytesPerPixel` | src/pl/polidea/imagemanager/ImageManager.java:519-535 | The bytes-per-pixel table: 0 for no config, 1 for ALPHA_8, 2 for RGB_565 and ARGB_4444, 4 for ARGB_8888 and for any other config. |
| `Bitmaps.BitmapSize` | src/pl/polidea/imagemanager/ImageManager.java:538 | `width * height * bpp`, computed in Java `int`, is the exact product modulo 2^32. |
| `Bitmaps.NewLoadedBitmap` | src/pl/polidea/imagemanager/ImageManager.java:181-193 | A new entry has the requested retention mode, and `getBitmap()` yields the bitmap it was given. |
| `Bitmaps.Collected` | src/pl/polidea/imagemanager/ImageManager.java:191 | A collection clears a weak entry, so that `getBitmap()` yields null. A strong entry is not affected. |
| `Bitmaps.GetBitmap` | src/pl/polidea/imagemanager/ImageManager.java:190-192 | `getBitmap()` yields the strong field, or else what the weak reference still yields. Its behaviour under construction and collection is stated by `NewLoadedBitmap` and `Collected`. |
| `Decoding.RescaleAsWritten` | src/pl/polidea/imagemanager/ImageManager.java:327-333 | The rescale step as written. It is skipped unless this is a full load with both desired dimensions positive. It throws `NullPointerException` on a null bitmap. |
| `Decoding.Rescale` | src/pl/polidea/imagemanager/ImageManager.java:327-333 | The corrected rescale step. It never throws. Without a rescale, or with a null bitmap, the bitmap is returned unchanged. When scaling yields a different bitmap, that bitmap is returned and the intermediate is recycled. When it yields nothing or the same bitmap, the input is returned and nothing is recycled. The returned bitmap is never recycled. It reports out-of-memory exactly when the scaling call does. |
| `Decoding.RescaleAsWrittenThrowsOnNull` | src/pl/polidea/imagemanager/ImageManager.java:327-328 | As written, a full load that asks for a size throws on a null decode. |
| `Decoding.RescaleAsWrittenRecyclesResult` | src/pl/polidea/imagemanager/ImageManager.java:328-331 | When scaling to the bitmap's own size returns that bitmap, the as-written step returns it already recycled. The corrected step returns it intact. |
| `Engine.RemoveKey` | src/pl/polidea/imagemanager/ImageManager.java:358 | `remove(req)` on a request list, comparing with `equals`. Its meaning is stated by `RemoveKeyAt`, `RemoveKeyAbsent` and `KeysRemoveKey`. |
| `Engine.RemoveKeyAt` | src/pl/polidea/imagemanager/ImageManager.java:358 | Removing a request drops the first element equal to it and keeps every other element in its order. |
| `Engine.RemoveKeyAbsent` | src/pl/polidea/imagemanager/ImageManager.java:121 | Removing a request that no element equals leaves the list unchanged. |
| `Engine.KeysRemoveKey` | src/pl/polidea/imagemanager/ImageManager.java:358 | Removing a request from a queue removes the first equal key from the queue's keys. |
| `Engine.EnqueueKeepsDistinct` | src/pl/polidea/imagemanager/ImageManager.java:635-636 | Enqueueing a key that is neither queued nor in flight keeps the keys in queue and in-flight list distinct. |
| `Engine.TakeKeepsDistinct` | src/pl/polidea/imagemanager/ImageManager.java:84 | Moving the head of the queue into the in-flight list keeps the keys distinct. |
| `Engine.RemoveKeepsDistinct` | src/pl/polidea/imagemanager/ImageManager.java:121 | Removing a key from either the queue or the in-flight list keeps the keys distinct. |
| `Engine.RemoveKeyRemoves` | src/pl/polidea/imagemanager/ImageManager.java:358 | After `loadQueue.remove(req)`, no queued request equals `req`. |
| `Engine.RemoveKeyAppended` | src/pl/polidea/imagemanager/ImageManager.java:84-121 | Adding a request to the in-flight list and then removing it restores the list. |
| `Engine.StrongEntriesSurvive` | src/pl/polidea/imagemanager/ImageManager.java:181-192 | After any sequence of `Collect` steps the cache has the same keys and modes. Every strong entry still yields its bitmap. Every weak entry the collector visited yields null. |
| `Engine.ClearKeepsDistinct` | src/pl/polidea/imagemanager/ImageManager.java:465 | Clearing the load queue keeps the in-flight keys distinct. |
| `Engine.ObservableGrows` | src/pl/polidea/imagemanager/ImageManager.java:450-463 | Visiting one more key in the `cleanUp` loop adds exactly that entry's observable bitmap to the recycled ones. |
| `Engine.ImageManager.constructor` | src/pl/polidea/imagemanager/ImageManager.java:198-203 | The manager starts with every list, queue and map empty and nothing recycled. |
| `Engine.ImageManager.IsImageLoaded` | src/pl/polidea/imagemanager/ImageManager.java:219-221 | A request is loaded exactly when its key is in the cache map. `GetImage` and `UnloadImage` state how this changes. |
| `Engine.ImageManager.IsImageLoading` | src/pl/polidea/imagemanager/ImageManager.java:223-225 | A request is loading exactly when an equal request is queued or in flight. `LoadPreview` relies on it to queue a key at most once. |
| `Engine.ImageManager.GetLoadedBitmap` | src/pl/polidea/imagemanager/ImageManager.java:234-236 | The bitmap the cache yields for a key, or null when the key is not cached. The strong-retention facts are stated by `Collect` and `StrongEntriesSurvive`. |
| `Engine.ImageManager.FilenameForUri` | src/pl/polidea/imagemanager/ImageManager.java:238-240 | The cache path is `<cacheDir>/image_manager/` followed by a nonempty name containing no `/`. |
| `Engine.ImageManager.FilenameForUriShared` | src/pl/polidea/imagemanager/ImageManager.java:238-240 | Two URIs share a cache file exactly when their texts have the same `String.hashCode`. |
| `Engine.ImageManager.DistinctUrisShareFile` | src/pl/polidea/imagemanager/ImageManager.java:238-240 | The distinct URIs "Aa" and "BB" map to the same cache file. |
| `Engine.ImageManager.IsImageDownloading` | src/pl/polidea/imagemanager/ImageManager.java:251-253 | A URI is downloading exactly when it is in the download queue or in flight. `RequestDownload` uses it to queue a URI at most once. |
| `Engine.ImageManager.IsImageDownloaded` | src/pl/polidea/imagemanager/ImageManager.java:242-249 | A URI that is queued or downloading never counts as downloaded. A downloaded URI's cache path is a regular file. |
| `Engine.ImageManager.DecodeSources` | src/pl/polidea/imagemanager/ImageManager.java:295-324 | Decoding from the sources yields the decode of the last source in the order file, resource, URI; a later source overwrites an earlier one. It stops with null when the file is missing or is a directory, or when the URI is not downloaded. Out-of-memory is reported exactly when one of the decodes it performs runs out of memory (`DecodeRunsOutOfMemory`). A missing file stops it before any decode. The file and the resource are decoded before the URI's download is checked, so their out-of-memory is reported even for an undownloaded URI. |
| `Engine.ImageManager.LoadImage` | src/pl/polidea/imagemanager/ImageManager.java:272-344 | `loadImage` with the corrected rescale. A null request yields null. A missing file yields null. A decode that runs out of memory makes the load report out-of-memory, also when the URI is not downloaded. Otherwise an undownloaded URI yields null. When the file exists, the URI is downloaded and no decode runs out of memory, the result is the rescale of the last source's decode. A preview load decodes at sample size 8 and never recycles. A full load decodes at `req.subsample`. It recycles only when it rescales, and then only the decoded intermediate, never the bitmap it returns. It never throws `NullPointerException`. |
| `Engine.ImageManager.LoadImageAsWritten` | src/pl/polidea/imagemanager/ImageManager.java:272-344 | `loadImage` as written throws `NullPointerException` exactly when a full load that rescales decodes to null. |
| `Engine.ImageManager.LoadWithoutSourceThrows` | src/pl/polidea/imagemanager/ImageManager.java:292-333 | A full load of a request with no source and a desired size throws as written, and yields null when corrected. |
| `Engine.ImageManager.QueueImageLoad` | src/pl/polidea/imagemanager/ImageManager.java:227-232 | Appends the request to the load queue. |
| `Engine.ImageManager.QueueImageDownload` | src/pl/polidea/imagemanager/ImageManager.java:255-260 | Appends the request's URI to the download queue. |
| `Engine.ImageManager.RequestDownload` | src/pl/polidea/imagemanager/ImageManager.java:609-611 | Queues the URI only if it is neither queued nor downloading, and keeps the download lists duplicate-free. |
| `Engine.ImageManager.LoadPreview` | src/pl/polidea/imagemanager/ImageManager.java:616-637 | In preview mode:<br>- a non-null preview is installed and returned;<br>- a null preview returns null and queues nothing;<br>- on out-of-memory nothing is installed.<br>Otherwise, and after a successful preview, the full load is queued unless the key is already loading. |
| `Engine.ImageManager.GetImage` | src/pl/polidea/imagemanager/ImageManager.java:587-640 | Keeps `Valid()`. After the call the request occurs exactly once in the recency list, as the last element. On a cache hit it returns the cached bitmap and changes no queue and no cache entry. For a remote image not yet downloaded it returns null, leaves the cache and the load queue alone, and queues the URI once. Otherwise it follows the preview path of `LoadPreview`. A returned bitmap is what the cache now yields for the key. |
| `Engine.ImageManager.UnloadImage` | src/pl/polidea/imagemanager/ImageManager.java:352-368 | Removes the key from the recency list, the load queue and the cache, and recycles its bitmap if one is observable. The in-flight loads and everything else are not touched (by the frame). |
| `Engine.ImageManager.CleanUp` | src/pl/polidea/imagemanager/ImageManager.java:445-471 | Empties the cache, the load queue and the recency list, and recycles every bitmap the cache yielded. Downloads, in-flight loads and files are not touched (by the frame). |
| `Engine.ImageManager.WorkerTake` | src/pl/polidea/imagemanager/ImageManager.java:84 | Takes the head of the load queue (FIFO) and marks it in flight. |
| `Engine.ImageManager.WorkerFinish` | src/pl/polidea/imagemanager/ImageManager.java:89-121 | On success it recycles the bitmap the key's entry yielded, plus the rescale intermediate, and installs the result with the request's retention mode, even a null result. On out-of-memory it has the effect of `cleanUp`. Either way the request leaves the in-flight list. |
| `Engine.ImageManager.WorkerStep` | src/pl/polidea/imagemanager/ImageManager.java:84-121 | One whole iteration: it takes the head of the queue, has the effect of `WorkerFinish`, and leaves the in-flight list as it found it. |
| `Engine.ImageManager.DownloadTake` | src/pl/polidea/imagemanager/ImageManager.java:152 | Takes the head of the download queue and marks it in flight. |
| `Engine.ImageManager.DownloadFinish` | src/pl/polidea/imagemanager/ImageManager.java:155-167 | A successful download creates the URI's cache file, and the URI leaves the in-flight list. Afterwards the URI is not downloading, and after a success it counts as downloaded. |
| `Engine.ImageManager.DownloadStep` | src/pl/polidea/imagemanager/ImageManager.java:152-167 | One whole iteration: it dequeues the head, may create its file, and leaves the in-flight list as it found it. |
| `Engine.ImageManager.Collect` | src/pl/polidea/imagemanager/ImageManager.java:191 | The collector clears one weak entry; this is one step of `AfterCollections`. Every strong entry still yields its bitmap. |
| `Engine.ImageManager.EstimatedSize` | src/pl/polidea/imagemanager/ImageManager.java:509-538 | The `totalSize` loop computes the sum, over the cache's entries, of the bytes of the bitmap each entry still yields, wrapped to a Java `int`. Two entries that share one bitmap handle count it twice, as the loop does. |
| `Engine.ImageManager.SizeSumOrderIndependent` | src/pl/polidea/imagemanager/ImageManager.java:511 | The estimate does not depend on the order in which `loaded.values()` is iterated. |

## Left out

- **Threads and blocking.**
  - Threads, `synchronized` and `BlockingQueue.take()` are not modelled.
  - The static initializer that starts the worker threads (lines 642-653) is not modelled.
  - Each loop iteration is one atomic method, so the check-then-act race between lines 635 and 636 is out of scope.
  - An interrupted `take()` ends the loop. That exit is not modelled.
- **Decoding and recycling.**
  - `BitmapFactory.decodeFile`, `decodeResource` and `Bitmap.createScaledBitmap` are the functions of a `Decoder` value.
  - Fresh bitmap handles, and the aliasing between handles, are whatever that decoder returns.
  - `recycle()` only adds the bitmap to `recycled`. The model does not track later use of a recycled bitmap.
- **Downloads.** The HTTP fetch and the file copy (`downloadImage`, `readFile`) reduce to the boolean `created` of `DownloadFinish`. A file that was partly written before an error is not modelled.
- **File system.** `File.exists() && !isDirectory()` is membership in `files`.
- **The garbage collector.** It appears only as the environment step `Collect`. When it runs is not modelled.
- **Size estimate.** `logImageManagerStatus` is modelled only for its size estimate. The logging, the uptime (a float) and the `/ 1024` kilobyte display are left out, and so is every other `Log` call.
- **Out of scope.**
  - `getImageSize` is a bounds-only decode, that is, a foreign call.
  - `init` and `setLoggingEnabled` only assign configuration.
  - `toString` only formats.
  - `ManagedImageView.java` is not part of this model.
- **`String.hashCode`.** It is taken over Dafny characters (code points). Java sums UTF-16 code units, so the two agree only on text in the Basic Multilingual Plane.
- **`cleanUp`'s comment.** The doc comment on `cleanUp` says it deletes downloaded images, but the body does not. The model follows the body.
- **The recency list.** The code never trims `requests`, and the model keeps it unbounded.
- **Uncaught NullPointerException.** As written, when `loadImage` throws `NullPointerException` inside a worker, the thread ends and the request stays in `loadingReqs`. The model does not represent that run. `LoadImageAsWritten` only exhibits that the exception is thrown, and the workers use the corrected `LoadImage`.
- **Requests as values.** `ImageManagerRequest` is a mutable class, and the manager keeps the caller's objects by reference: in `requests` (line 593), in `loadQueue` (231), in `loadingReqs` (84) and as keys of `loaded` (110, 624). The model treats each request as a value. It therefore assumes that no caller changes a request after passing it to `getImage`. `ManagedImageView`'s setters do change their request in place. In the source, a queued load then decodes the changed fields. A `loaded` entry can also be stranded under a stale hash code, where neither `isImageLoaded` nor `cleanUp` finds it, so it is never recycled. The model does not capture this aliasing.
- **`EstimatedSize`.** The iteration order of `loaded.values()` is a parameter whose only constraint is that it lists each key once.

## Findings

| source | as written | input that shows it | evidently intended | confidence | as-written member | corrected member |
|---|---|---|---|---|---|---|
| src/pl/polidea/imagemanager/ImageManager.java:327-333 | `createScaledBitmap(bmp, …)` is called even when every source decoded to null, so it throws `NullPointerException`. | `loadImage(req, false)` where `req` has no file name, `resId` -1, no URI, width 100 and height 50 (`LoadWithoutSourceThrows`). The same happens when a decoder returns null for an existing file. | A null decode stays null and is handed back. | not executed | `Decoding.RescaleAsWritten`, `Engine.ImageManager.LoadImageAsWritten` | `Decoding.Rescale`, `Engine.ImageManager.LoadImage` |
| src/pl/polidea/imagemanager/ImageManager.java:328-331 | `bmp.recycle()` runs whenever the scaled bitmap is non-null, also when `createScaledBitmap` returned `bmp` itself. | A bitmap of 100x50 requested at width 100 and height 50, when `createScaledBitmap` returns its input for its own size (`RescaleAsWrittenRecyclesResult`). | Only a replaced intermediate bitmap is recycled. The returned bitmap is never recycled. | not executed | `Decoding.RescaleAsWritten` | `Decoding.Rescale` |
