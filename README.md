# Segmentation inference service: a verified model of its request handling and array work

The service answers `POST /inference` with a binary segmentation mask for an
uploaded multi-band GeoTIFF. This project models the parts of it that are its
own logic rather than library calls:

- **Upload validation** (`app.py`, `inference`). The handler checks, in order,
  that there is a `file` part, that the last `.`-separated segment of its name
  is `tif` or `tiff` in any case, and that the name is not empty. Each failed
  check is a 400 with its own message. Python's `rsplit('.')` and `lower()`
  are modelled in module `Strings`. `Split` is proved to be the inverse of
  `Join`. The last segment is proved to be the longest dot-free suffix of the
  name.
- **Request outcome and temporary file** (`app.py`, `inference`). An accepted
  upload is written to a fresh temporary file and the pipeline is run on it.
  The answer is 200 `application/octet-stream` with the mask, or 500 with the
  exception text, and the file is removed on both paths. `Handler.FileSystem`
  is a class holding the existing files and a ghost record of creations and
  removals.
  `Handler.Inference` proves that a rejected request leaves the file system
  and the record alone. It also proves that an accepted one creates exactly one
  fresh file and removes it again, whatever the pipeline does.
- **Crop planning** (`utils.py`, `read_crop`). Padding is refused. The band
  list defaults to `1..count`. A crop that is not four numbers long is
  refused. The crop's width and height are clamped to the dataset, and the
  metadata dictionary gets the new `count`, `height`, `width` and `transform`.
  The two assertions after the clamp are Dafny `assert` statements in
  `Crop.ReadCrop`, so the verifier proves they can never fail.
- **Normalisation and thresholding** (`utils.py`, `infer_image`). These are
  in-place loops over `array3<real>` (band, row, column) and `array2<real>`.
  Each band is clipped to its 90th percentile `p` and divided by it when
  `p > 0`. The percentile is a function parameter evaluated on the band when
  its turn comes, as in the source. The method proves that this equals the
  percentile of the band as it was on entry. The raw network output is then
  thresholded in two passes (`> 0.5` to 1, then `<= 0.5` to 0). The proof
  shows the second pass leaves the cells set to 1 alone.

Behaviour of the code that differs from a plain reading of its design:

- An empty file name is answered with "File type not permitted". The
  `"No selected file"` branch can never be reached, because `"".rsplit('.')`
  is `[""]` and fails the extension test first
  (`Upload.NoSelectedFileUnreachable`).
- A name with no dot is judged whole, so the bare name `TIFF` is accepted.
- A rejected upload never creates a temporary file, so there is nothing to
  clean up on the 400 paths.
- In a band whose percentile is positive, values are at most 1, and at least
  0 only where the raw value is non-negative; a negative value stays negative
  after division. A band whose percentile is 0 or negative is skipped and
  keeps its raw values, which may exceed 1.
- A crop whose offset lies beyond the dataset's edge is clamped to a negative
  width or height (`Crop.ClampPastEdgeIsNegative`). The clamp keeps
  `px + w <= width`, not `w >= 0`. rasterio then refuses that window, so
  `read_crop` raises for such a crop.

## Model

| member | source | states |
|---|---|---|
| `Strings.Split` | app.py:39 | `rsplit('.')` yields at least one piece, no piece contains the separator, and joining the pieces gives the string back |
| `Strings.SplitJoin` | app.py:39 | splitting a join of separator-free pieces gives back exactly those pieces (the other half of the round trip) |
| `Strings.LastSegment` | app.py:39 | `rsplit('.')[-1]` is a dot-free suffix of the name that is either the whole name or preceded by a dot |
| `Strings.LastSegmentUnique` | app.py:39 | any dot-free suffix that is the whole name or follows a dot is the last segment |
| `Strings.LowerChar` | app.py:39 | an ASCII capital becomes the matching small letter, any other character is kept, and the result is never an ASCII capital |
| `Strings.Lower` | app.py:39 | lower-casing keeps the length; only ASCII letters are lowered (Unicode case mapping is not modelled) |
| `Strings.LowerEffect` | app.py:39 | the lowered name has no ASCII capital, differs from the name only at ASCII capitals, and lowering again changes nothing |
| `Upload.ExtensionPermitted` | app.py:39-40 | the extension test holds iff the lower-cased name is `tif`/`tiff` or ends in `.tif`/`.tiff` |
| `Upload.Validate` | app.py:33-43 | an accepted request has a `file` part and carries exactly that part on |
| `Upload.SplitTestIff` | app.py:39-40 | the test as computed (split, take the last piece, lower-case, look up in `['tif', 'tiff']`) holds iff the lower-cased name is `tif`/`tiff` or ends in `.tif`/`.tiff` (both directions) |
| `Upload.AcceptedIff` | app.py:34-43 | a request is accepted iff it has a `file` part whose name, lower-cased, is or ends in a raster extension |
| `Upload.MissingPartFirst` | app.py:34-35 | no `file` part gives "No file part", whatever else the request holds |
| `Upload.WrongExtensionMessage` | app.py:39-40 | a `file` part whose name is not a raster name gets 400 "File type not permitted" |
| `Upload.NoSelectedFileUnreachable` | app.py:39-43 | "No selected file" is never the answer; an empty name gets "File type not permitted" |
| `Upload.ExampleUpperCase` | app.py:39-40 | `a.TIF` passes the extension test |
| `Upload.ExampleSeveralDots` | app.py:39-40 | `x.y.tiff` passes and `x.tif.png` fails the extension test |
| `Upload.ExampleNoDot` | app.py:39-40 | the bare `TIFF` passes and the empty name fails the extension test |
| `Handler.Respond` | app.py:34-65 | status 400 iff validation fails, with that rejection's message; 200 with `application/octet-stream` and the mask iff the pipeline returns; 500 with the exception text otherwise; no other status |
| `Handler.MissingPartResponse` | app.py:34-35 | a request without `file` gets 400 with body "No file part" |
| `Handler.FileSystem.CreateTemp` | app.py:48 | `NamedTemporaryFile(delete=False)` adds one empty file under a name no existing file has, and records its creation |
| `Handler.FileSystem.Save` | app.py:49 | saving the upload sets that file's contents and changes nothing else |
| `Handler.FileSystem.Remove` | app.py:66-68 | `os.remove` deletes exactly that file and records its removal |
| `Handler.Inference` | app.py:30-68 | the answer is `Respond`'s; the set of files is as before; a rejection creates nothing; an acceptance records exactly one creation of a fresh file followed by its removal, on the success and the exception path alike |
| `Crop.DefaultBands` | utils.py:39-40 | the default band list is `1, 2, ..., count`: length `count`, starts at 1, steps by 1, holds exactly the numbers `1..count` |
| `Crop.ClampExtent` | utils.py:49-50 | the clamped extent keeps `offset + extent <= bound`, never grows, and is either unchanged or reaches the bound exactly |
| `Crop.ClampKeepsFittingExtent` | utils.py:49-50 | a window that already fits is not clamped |
| `Crop.ClampPastEdgeIsNegative` | utils.py:49-50 | an offset past the edge yields a negative clamped extent |
| `Crop.ReadCrop` | utils.py:26-63 | `pad` fails with the padding error before anything else; a crop not of length 4 fails; otherwise the bands are the given list or `1..count`, `count` in meta is their number, the window is the clamped crop and always fits the dataset, and meta gains `height`, `width` and `transform` only when cropping, every other key unchanged |
| `Pipeline.Normalized` | utils.py:155-157 | with `p > 0` a value becomes at most 1, at least 0 when it was non-negative, exactly 1 when it was at or above `p`; with `p <= 0` it is unchanged |
| `Pipeline.NormalizedScaleInvariant` | utils.py:152-157 | scaling a value and its band's positive percentile by the same positive factor leaves the normalised value unchanged |
| `Pipeline.NormalizedMonotonic` | utils.py:155-157 | normalisation preserves the order of values within a band |
| `Pipeline.ClipBand` | utils.py:156 | values of the band above `p` become `p`; other values and other bands are unchanged |
| `Pipeline.ScaleBand` | utils.py:157 | every value of the band is divided by `p`; other bands are unchanged |
| `Pipeline.NormalizeBands` | utils.py:152-157 | each value of each band becomes `Normalized` of its original value against the percentile of its original band |
| `Pipeline.Binarized` | utils.py:161-162 | a mask value is 0 or 1, and 1 exactly when the raw value exceeds 0.5 |
| `Pipeline.Threshold` | utils.py:160-162 | after the two masked assignments every cell is `Binarized` of its raw value |

## Left out

- Model loading and the network's forward pass (utils.py:11-16, 159) are opaque pretrained weights. The raw output is the input array of `Pipeline.Threshold`.
- The reshape to 512 by 512 (utils.py:160) is left out. `Pipeline.Threshold` works on an array of any shape, and a size mismatch would be one more exception the handler reports as 500.
- `np.percentile` (utils.py:154) is a function parameter of `Pipeline.NormalizeBands`. How numpy interpolates is not modelled.
- Floating point is modelled as `real`. NaN, which passes neither `> 0.5` nor `<= 0.5` and so stays NaN, and rounding in the division are not captured.
- The slice to the first ten bands and the cast to float (utils.py:150) are library calls. `Pipeline.NormalizeBands` takes the sliced array.
- rasterio I/O is left out: `_ensure_opened` (utils.py:21-23), building `rasterio.windows.Window` (utils.py:55), `rasterio.windows.transform` (utils.py:62) and `ds.read` (utils.py:63). The dataset is its width, height, band count and metadata. The read is returned as a `Crop.ReadRequest`, and the new transform is a function parameter.
- Crop.ReadCrop: `Ok` means only that the read request was formed. rasterio rejects a window of negative width or height, so for a crop that starts past the dataset's edge the source raises when it builds or reads the window, while the model returns `Ok` with that negative window.
- `Crop.ReadCrop` takes crop values as integers. Python would also accept floats there.
- `Crop.ReadCrop` does not model the `assert` statements being stripped under `python -O`.
- `infer_image` itself is a function parameter of `Handler.Inference`, from the uploaded bytes to a mask or an exception text. Its exceptions cover decode errors, a wrong shape and network errors alike.
- `np.save` serialisation into `BytesIO` (app.py:57-59) is left out. The 200 body carries the mask array itself.
- Failures while creating or writing the temporary file, and `os.remove` failing (app.py:48-50, 68), are not modelled.
- Temporary file names are numbers handed out in order rather than random names. Only their freshness is modelled.
- Strings.LowerChar, Strings.Lower, Strings.LowerEffect: only ASCII letters are lowered, one character at a time. Python's full Unicode `lower()` (which lowers other scripts and can change the length) is not modelled, so their contracts hold of the ASCII model only.
- Flask routing, `/` and `/healthz` (app.py:18-27), logging and `app.run` are plumbing with no logic to prove.
- `plot_rgb` (utils.py:66-134) is matplotlib plotting. It also uses the undefined names `px`, `py`, `w`, `h` at utils.py:97.
- `tif_to_image` (utils.py:137-141) is a thin wrapper over `read_crop` whose `bands` parameter defaults to a ten-band list.
- The optional plotting in `infer_image` (utils.py:164-167) is left out.
