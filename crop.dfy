/** `read_crop` (utils.py): decide which bands and which window of a raster
    to read, and the metadata that describes the result. The raster itself is
    described by its width, height, band count and metadata dictionary; the
    read is returned as a request rather than performed. */
module Crop {
  import opened Wrappers

  /** A metadata value. Only the integer entries are interpreted here; the
      rest (driver, dtype, nodata, crs, transform) are carried as they come. */
  datatype MetaValue = IntValue(n: int) | OtherValue(repr: string)

  type Meta = map<string, MetaValue>

  /** The keys `read_crop` rewrites. */
  const CountKey: string := "count"
  const HeightKey: string := "height"
  const WidthKey: string := "width"
  const TransformKey: string := "transform"

  /** An opened raster dataset. */
  datatype Dataset = Dataset(width: int, height: int, count: nat, meta: Meta)

  /** A raster window: column and row offset, then width and height. */
  datatype Window = Window(colOff: int, rowOff: int, width: int, height: int)

  /** The two ways `read_crop` fails: `ValueError` for padding and the
      `AssertionError` for a crop that is not four numbers long. */
  datatype ReadError = PaddingNotImplemented | MalformedCrop

  /** The read `read_crop` performs (which bands, which window) together
      with the metadata it returns. `Ok` means only that the request was
      formed; the read itself is not modelled. */
  datatype ReadRequest = ReadRequest(bands: seq<int>, window: Option<Window>, meta: Meta)

  datatype ReadResult = Ok(request: ReadRequest) | Err(error: ReadError)

  /** The default band list of utils.py:39-40: every band of the dataset,
      numbered from 1, in order. */
  function DefaultBands(count: nat): (bands: seq<int>)
    ensures |bands| == count
    ensures count > 0 ==> bands[0] == 1 && bands[count - 1] == count
    ensures forall k :: 0 <= k < count - 1 ==> bands[k + 1] == bands[k] + 1
    ensures forall b :: b in bands <==> 1 <= b <= count
  {
    var bands := seq(count, i => i + 1);
    forall b | 1 <= b <= count
      ensures b in bands
    {
      assert bands[b - 1] == b;
    }
    bands
  }

  /** The clamp of utils.py:49-50, applied to the width against the dataset
      width and to the height against the dataset height: the largest extent,
      no greater than the requested one, that keeps the window inside
      `bound`. */
  function ClampExtent(offset: int, extent: int, bound: int): (e: int)
    ensures offset + e <= bound
    ensures e <= extent
    ensures e == extent || offset + e == bound
  {
    if offset + extent > bound then bound - offset else extent
  }

  /** Clamping only ever shrinks, and never shrinks a window that fits. */
  lemma ClampKeepsFittingExtent(offset: int, extent: int, bound: int)
    requires offset + extent <= bound
    ensures ClampExtent(offset, extent, bound) == extent
  {
  }

  /** A window starting beyond the dataset is clamped to a negative extent:
      the clamp keeps `offset + extent <= bound`, not `extent >= 0`. */
  lemma ClampPastEdgeIsNegative(offset: int, extent: int, bound: int)
    requires offset > bound && extent >= 0
    ensures ClampExtent(offset, extent, bound) < 0
  {
  }

  /** The source, step by step: refuse padding, default the band list, check
      and clamp the crop (its two assertions are the `assert` statements
      below, proved to hold), then update `meta`. `windowTransform` stands for
      the library call that shifts the dataset's transform to the window
      (utils.py:62). */
  method ReadCrop(ds: Dataset, crop: Option<seq<int>>, bands: Option<seq<int>>, pad: bool,
                  windowTransform: Window -> MetaValue)
    returns (r: ReadResult)
    ensures pad ==> r == Err(PaddingNotImplemented)
    ensures !pad && crop.Some? && |crop.value| != 4 ==> r == Err(MalformedCrop)
    ensures r.Ok? <==> !pad && (crop.None? || |crop.value| == 4)
    ensures r.Ok? ==>
              r.request.bands == (if bands.Some? then bands.value else DefaultBands(ds.count))
    ensures r.Ok? ==>
              CountKey in r.request.meta &&
              r.request.meta[CountKey] == IntValue(|r.request.bands|)
    ensures r.Ok? && crop.None? ==>
              r.request.window.None? &&
              r.request.meta == ds.meta[CountKey := IntValue(|r.request.bands|)]
    ensures r.Ok? && crop.Some? ==>
              var c := crop.value;
              var w := ClampExtent(c[0], c[2], ds.width);
              var h := ClampExtent(c[1], c[3], ds.height);
              r.request.window == Some(Window(c[0], c[1], w, h)) &&
              r.request.meta == ds.meta[CountKey := IntValue(|r.request.bands|)]
                                       [HeightKey := IntValue(h)]
                                       [WidthKey := IntValue(w)]
                                       [TransformKey := windowTransform(Window(c[0], c[1], w, h))]
    ensures r.Ok? && r.request.window.Some? ==>
              var win := r.request.window.value;
              win.colOff + win.width <= ds.width && win.rowOff + win.height <= ds.height
  {
    if pad {
      return Err(PaddingNotImplemented);
    }
    var bandList := if bands.Some? then bands.value else DefaultBands(ds.count);
    var window: Option<Window> := None;
    if crop.Some? {
      if |crop.value| != 4 {
        return Err(MalformedCrop);
      }
      var px, py, w, h := crop.value[0], crop.value[1], crop.value[2], crop.value[3];
      w := if px + w > ds.width then ds.width - px else w;
      h := if py + h > ds.height then ds.height - py else h;
      assert px + w <= ds.width;
      assert py + h <= ds.height;
      window := Some(Window(px, py, w, h));
    }
    var meta := ds.meta;
    meta := meta[CountKey := IntValue(|bandList|)];
    if crop.Some? {
      var win := window.value;
      meta := meta[HeightKey := IntValue(win.height)];
      meta := meta[WidthKey := IntValue(win.width)];
      meta := meta[TransformKey := windowTransform(win)];
    }
    r := Ok(ReadRequest(bandList, window, meta));
  }
}
