/**
 * The aligner stage. A first pass records, for every PNG of the download
 * directory, its size and where the template (the anchor feature) was found,
 * and keeps the largest distance from the template to each border; the
 * canvas is as wide as the largest left plus the largest right distance, and
 * as tall likewise. A second pass pastes every image on a white canvas of
 * that size so that its template lands at `(max_left, max_top)`.
 * Reading an image and OpenCV's template match are outside the model: they
 * are the `measure` function, giving a file's size and the match location.
 */
module Aligner {
  import opened Wrappers
  import Utils
  import opened Imaging

  /** What `cv.imread` and `cv.minMaxLoc(cv.matchTemplate(...))` report for one file. */
  datatype Measurement = Measurement(width: nat, height: nat, x: nat, y: nat)

  /** `ImageDto`: file name, `dimensions = (width, height)`, `template_location = (x, y)`. */
  datatype ImageDto = ImageDto(filename: string, width: nat, height: nat, x: nat, y: nat)

  /** The four running maxima `max_left, max_top, max_right, max_bottom`. */
  datatype Borders = Borders(left: nat, top: nat, right: nat, bottom: nat)

  function Max(a: int, b: int): int { if a < b then b else a }

  function ToDto(name: string, m: Measurement): ImageDto {
    ImageDto(name, m.width, m.height, m.x, m.y)
  }

  /** The DTOs the first loop appends, one per PNG name, in listing order. */
  function Dtos(names: seq<string>, measure: string -> Measurement): (dtos: seq<ImageDto>)
    ensures |dtos| <= |names|
    ensures forall d :: d in dtos ==>
      d.filename in names && Utils.IsPng(d.filename) && d == ToDto(d.filename, measure(d.filename))
  {
    if names == [] then []
    else
      var last := names[|names| - 1];
      Dtos(names[..|names| - 1], measure) + (if Utils.IsPng(last) then [ToDto(last, measure(last))] else [])
  }

  /** One step of the first loop's four `max` updates. */
  function Extend(b: Borders, d: ImageDto): (e: Borders)
    ensures b.left <= e.left && d.x <= e.left && (e.left == b.left || e.left == d.x)
    ensures b.top <= e.top && d.y <= e.top && (e.top == b.top || e.top == d.y)
    ensures b.right <= e.right && d.width - d.x <= e.right && (e.right == b.right || e.right == d.width - d.x)
    ensures b.bottom <= e.bottom && d.height - d.y <= e.bottom && (e.bottom == b.bottom || e.bottom == d.height - d.y)
  {
    Borders(Max(b.left, d.x), Max(b.top, d.y), Max(b.right, d.width - d.x), Max(b.bottom, d.height - d.y))
  }

  /** The maxima after visiting `dtos` in order, starting from all zeros. */
  function Maxima(dtos: seq<ImageDto>): (b: Borders)
    ensures forall d :: d in dtos ==> Extend(b, d) == b
  {
    if dtos == [] then Borders(0, 0, 0, 0)
    else
      var init := dtos[..|dtos| - 1];
      assert dtos == init + [dtos[|dtos| - 1]];
      Extend(Maxima(init), dtos[|dtos| - 1])
  }

  /** Every image's distances from its template to the four borders are within `b`. */
  predicate Bounds(b: Borders, dtos: seq<ImageDto>) {
    forall d :: d in dtos ==>
      d.x <= b.left && d.y <= b.top && d.width - d.x <= b.right && d.height - d.y <= b.bottom
  }

  /** Each maximum is 0 or the distance of some image. */
  predicate Attained(b: Borders, dtos: seq<ImageDto>) {
    && (b.left == 0 || exists d :: d in dtos && d.x == b.left)
    && (b.top == 0 || exists d :: d in dtos && d.y == b.top)
    && (b.right == 0 || exists d :: d in dtos && d.width - d.x == b.right)
    && (b.bottom == 0 || exists d :: d in dtos && d.height - d.y == b.bottom)
  }

  /** The maxima bound every image. */
  lemma {:induction false} MaximaBound(dtos: seq<ImageDto>)
    ensures Bounds(Maxima(dtos), dtos)
  {
    if dtos != [] {
      var init := dtos[..|dtos| - 1];
      MaximaBound(init);
      assert dtos == init + [dtos[|dtos| - 1]];
    }
  }

  /** Each maximum is reached by one of the images, or is the initial 0. */
  lemma {:induction false} MaximaAttained(dtos: seq<ImageDto>)
    ensures Attained(Maxima(dtos), dtos)
  {
    if dtos != [] {
      var init := dtos[..|dtos| - 1];
      MaximaAttained(init);
      assert dtos == init + [dtos[|dtos| - 1]];
      forall d | d in init ensures d in dtos { }
    }
  }

  /** The maxima bound every image and each is reached by one of them (or is 0). */
  lemma MaximaExact(dtos: seq<ImageDto>)
    ensures Bounds(Maxima(dtos), dtos) && Attained(Maxima(dtos), dtos)
  {
    MaximaBound(dtos);
    MaximaAttained(dtos);
  }

  /** The maxima depend only on which images there are, not on the order they are visited in. */
  lemma MaximaOrderFree(dtos: seq<ImageDto>, other: seq<ImageDto>)
    requires forall d :: d in dtos <==> d in other
    ensures Maxima(dtos) == Maxima(other)
  {
    MaximaExact(dtos);
    MaximaExact(other);
  }

  /** The canvas `(new_w, new_h)`. */
  function CanvasWidth(b: Borders): nat { b.left + b.right }
  function CanvasHeight(b: Borders): nat { b.top + b.bottom }

  /** The paste box `(paste_x, paste_y)` of one image. */
  function PasteX(d: ImageDto, b: Borders): int { b.left - d.x }
  function PasteY(d: ImageDto, b: Borders): int { b.top - d.y }

  /**
   * With the maxima of the whole batch, every image is pasted at a
   * non-negative offset, fits in the canvas, and has its template on the
   * common point `(max_left, max_top)`.
   */
  lemma Placement(dtos: seq<ImageDto>, d: ImageDto)
    requires d in dtos
    ensures var b := Maxima(dtos);
      && 0 <= PasteX(d, b) && PasteX(d, b) + d.width <= CanvasWidth(b)
      && 0 <= PasteY(d, b) && PasteY(d, b) + d.height <= CanvasHeight(b)
      && PasteX(d, b) + d.x == b.left && PasteY(d, b) + d.y == b.top
  {
    MaximaBound(dtos);
    var b := Maxima(dtos);
    assert d.x <= b.left && d.y <= b.top && d.width - d.x <= b.right && d.height - d.y <= b.bottom;
  }

  /** The first loop: measure every PNG and keep the running maxima. */
  method MeasureAll(names: seq<string>, measure: string -> Measurement) returns (dtos: seq<ImageDto>, b: Borders)
    ensures dtos == Dtos(names, measure)
    ensures b == Maxima(dtos)
    ensures Bounds(b, dtos) && Attained(b, dtos)
  {
    var maxLeft: int, maxTop: int, maxRight: int, maxBottom: int := 0, 0, 0, 0;
    dtos := [];
    for i := 0 to |names|
      invariant dtos == Dtos(names[..i], measure)
      invariant 0 <= maxLeft && 0 <= maxTop && 0 <= maxRight && 0 <= maxBottom
      invariant Borders(maxLeft, maxTop, maxRight, maxBottom) == Maxima(dtos)
    {
      var name := names[i];
      assert names[..i + 1][..i] == names[..i];
      if !Utils.IsPng(name) {
        continue;
      }
      var m := measure(name);
      var x: int, y: int, w: int, h: int := m.x, m.y, m.width, m.height;
      maxLeft := Max(maxLeft, x);
      maxTop := Max(maxTop, y);
      maxRight := Max(maxRight, w - x);
      maxBottom := Max(maxBottom, h - y);
      dtos := dtos + [ImageDto(name, w, h, x, y)];
    }
    assert names[..|names|] == names;
    b := Borders(maxLeft, maxTop, maxRight, maxBottom);
    MaximaExact(dtos);
  }

  /** Visiting the listing in another order gives the same canvas. */
  lemma CanvasOrderFree(names: seq<string>, other: seq<string>, measure: string -> Measurement)
    requires multiset(names) == multiset(other)
    ensures Maxima(Dtos(names, measure)) == Maxima(Dtos(other, measure))
  {
    forall d ensures d in Dtos(names, measure) <==> d in Dtos(other, measure) {
      DtosMembers(names, measure, d);
      DtosMembers(other, measure, d);
      if exists f :: f in names && Utils.IsPng(f) && d == ToDto(f, measure(f)) {
        var f :| f in names && Utils.IsPng(f) && d == ToDto(f, measure(f));
        assert f in multiset(other);
      }
      if exists f :: f in other && Utils.IsPng(f) && d == ToDto(f, measure(f)) {
        var f :| f in other && Utils.IsPng(f) && d == ToDto(f, measure(f));
        assert f in multiset(names);
      }
    }
    MaximaOrderFree(Dtos(names, measure), Dtos(other, measure));
  }

  lemma {:induction false} DtosMembers(names: seq<string>, measure: string -> Measurement, d: ImageDto)
    ensures d in Dtos(names, measure) <==> exists f :: f in names && Utils.IsPng(f) && d == ToDto(f, measure(f))
  {
    if names != [] {
      var init := names[..|names| - 1];
      DtosMembers(init, measure, d);
      assert names == init + [names[|names| - 1]];
    }
  }

  /** One DTO per PNG name, in listing order, recording that file's measurement. */
  lemma {:induction false} DtosFollowListing(names: seq<string>, measure: string -> Measurement)
    ensures var pngs := Utils.PngNames(names);
      && |Dtos(names, measure)| == |pngs|
      && forall k :: 0 <= k < |pngs| ==> Dtos(names, measure)[k] == ToDto(pngs[k], measure(pngs[k]))
  {
    if names != [] {
      var init := names[..|names| - 1];
      var last := names[|names| - 1];
      DtosFollowListing(init, measure);
      Utils.PngNamesSnoc(init, last);
      assert names == init + [last];
    }
  }

  /**
   * The second loop: each original, pasted on a white canvas of the common
   * size at its offset. `originals[k]` is the image `dtos[k]` was measured on.
   */
  method AlignAll(originals: seq<array2<Color>>, dtos: seq<ImageDto>, b: Borders) returns (aligned: seq<array2<Color>>)
    requires |originals| == |dtos|
    requires forall k :: 0 <= k < |dtos| ==>
      originals[k].Length0 == dtos[k].height && originals[k].Length1 == dtos[k].width
    requires b == Maxima(dtos)
    ensures |aligned| == |dtos|
    ensures forall k :: 0 <= k < |dtos| ==> fresh(aligned[k])
    ensures forall k :: 0 <= k < |dtos| ==> Aligned(aligned[k], originals[k], dtos[k], b)
  {
    aligned := [];
    for k := 0 to |dtos|
      invariant |aligned| == k
      invariant forall j :: 0 <= j < k ==> fresh(aligned[j])
      invariant forall j :: 0 <= j < k ==> Aligned(aligned[j], originals[j], dtos[j], b)
    {
      var d := dtos[k];
      var pasteX, pasteY := b.left - d.x, b.top - d.y;
      var canvas := NewAndPaste(originals[k], b.left + b.right, b.top + b.bottom, pasteX, pasteY, WHITE);
      Placement(dtos, d);
      AlignedFromPaste(canvas, originals[k], d, b);
      aligned := aligned + [canvas];
    }
  }

  /**
   * `canvas` is the aligned version of `original`: canvas-sized, every
   * original pixel at its offset (nothing clipped), the template's pixel on
   * `(max_left, max_top)`, and white everywhere else.
   */
  ghost predicate Aligned(canvas: array2<Color>, original: array2<Color>, d: ImageDto, b: Borders)
    reads canvas, original
  {
    && canvas.Length0 == CanvasHeight(b) && canvas.Length1 == CanvasWidth(b)
    && original.Length0 == d.height && original.Length1 == d.width
    && PastedWhole(canvas, original, PasteX(d, b), PasteY(d, b))
    && (d.y < d.height && d.x < d.width ==>
          b.top < canvas.Length0 && b.left < canvas.Length1 && canvas[b.top, b.left] == original[d.y, d.x])
    && WhiteOutside(canvas, original, PasteX(d, b), PasteY(d, b))
  }

  /** Every pixel of `original` lies on `canvas` at offset `(px, py)`. */
  ghost predicate PastedWhole(canvas: array2<Color>, original: array2<Color>, px: int, py: int)
    reads canvas, original
  {
    forall i, j :: 0 <= i < original.Length0 && 0 <= j < original.Length1 ==>
      0 <= py + i < canvas.Length0 && 0 <= px + j < canvas.Length1
      && canvas[py + i, px + j] == original[i, j]
  }

  /** Every canvas pixel the paste at `(px, py)` does not cover is white. */
  ghost predicate WhiteOutside(canvas: array2<Color>, original: array2<Color>, px: int, py: int)
    reads canvas, original
  {
    forall r, c :: 0 <= r < canvas.Length0 && 0 <= c < canvas.Length1 && !Covers(original, px, py, r, c)
      ==> canvas[r, c] == WHITE
  }

  /** The canvas NewAndPaste returns at the batch's offsets is aligned. */
  lemma AlignedFromPaste(canvas: array2<Color>, original: array2<Color>, d: ImageDto, b: Borders)
    requires original.Length0 == d.height && original.Length1 == d.width
    requires canvas.Length0 == CanvasHeight(b) && canvas.Length1 == CanvasWidth(b)
    requires 0 <= PasteX(d, b) && PasteX(d, b) + d.width <= CanvasWidth(b)
    requires 0 <= PasteY(d, b) && PasteY(d, b) + d.height <= CanvasHeight(b)
    requires PasteX(d, b) + d.x == b.left && PasteY(d, b) + d.y == b.top
    requires forall r, c :: 0 <= r < canvas.Length0 && 0 <= c < canvas.Length1 ==>
      canvas[r, c] == if Covers(original, PasteX(d, b), PasteY(d, b), r, c)
        then original[r - PasteY(d, b), c - PasteX(d, b)] else WHITE
    ensures Aligned(canvas, original, d, b)
  {
    var px, py := PasteX(d, b), PasteY(d, b);
    PastedInside(canvas, original, px, py);
    if d.y < d.height && d.x < d.width {
      assert canvas[py + d.y, px + d.x] == original[d.y, d.x];
    }
  }

  /** Reading a pasted canvas back at the paste offset gives the original. */
  lemma PastedInside(canvas: array2<Color>, original: array2<Color>, px: int, py: int)
    requires 0 <= px && px + original.Length1 <= canvas.Length1
    requires 0 <= py && py + original.Length0 <= canvas.Length0
    requires forall r, c :: 0 <= r < canvas.Length0 && 0 <= c < canvas.Length1 ==>
      canvas[r, c] == if Covers(original, px, py, r, c) then original[r - py, c - px] else WHITE
    ensures PastedWhole(canvas, original, px, py)
    ensures WhiteOutside(canvas, original, px, py)
  {
    forall i, j | 0 <= i < original.Length0 && 0 <= j < original.Length1
      ensures canvas[py + i, px + j] == original[i, j]
    {
      var r, c := py + i, px + j;
      assert Covers(original, px, py, r, c);
      assert r - py == i && c - px == j;
    }
  }

  /**
   * The aligner stage on the download directory's `listing`: a name without
   * an ordinal fails the listing before anything is measured; otherwise the
   * sorted PNG names are measured, then aligned in that order. `files`
   * gives every file's pixels, of the size `measure` reports.
   */
  method AlignStage(listing: seq<string>, measure: string -> Measurement, files: map<string, array2<Color>>)
    returns (r: Result<Borders>, dtos: seq<ImageDto>, aligned: seq<array2<Color>>)
    requires forall name :: name in listing ==>
      name in files && files[name].Length0 == measure(name).height && files[name].Length1 == measure(name).width
    ensures Utils.ListImages(listing).Err? ==> r == Err(Utils.ListImages(listing).error) && aligned == []
    ensures Utils.ListImages(listing).Ok? ==>
      var names := Utils.ListImages(listing).value;
      && dtos == Dtos(names, measure)
      && r == Ok(Maxima(dtos))
      && |aligned| == |names| == |dtos|
      && forall k :: 0 <= k < |names| ==>
           dtos[k].filename == names[k] && Aligned(aligned[k], files[names[k]], dtos[k], r.value)
  {
    var listed := Utils.ListImages(listing);
    if listed.Err? {
      return Err(listed.error), [], [];
    }
    var b;
    dtos, b, aligned := AlignNames(listed.value, measure, files);
    r := Ok(b);
  }

  /** Both loops over the sorted PNG `names`. */
  method AlignNames(names: seq<string>, measure: string -> Measurement, files: map<string, array2<Color>>)
    returns (dtos: seq<ImageDto>, b: Borders, aligned: seq<array2<Color>>)
    requires forall f :: f in names ==> Utils.IsPng(f) && f in files
    requires forall f :: f in names ==> files[f].Length0 == measure(f).height && files[f].Length1 == measure(f).width
    ensures dtos == Dtos(names, measure) && b == Maxima(dtos)
    ensures |aligned| == |names| == |dtos|
    ensures forall k :: 0 <= k < |names| ==>
      dtos[k].filename == names[k] && Aligned(aligned[k], files[names[k]], dtos[k], b)
  {
    dtos, b := MeasureAll(names, measure);
    DtosOfPngs(names, measure);
    var originals := seq(|names|, k requires 0 <= k < |names| => files[names[k]]);
    aligned := AlignAll(originals, dtos, b);
  }

  /** A list of PNG names gets exactly one DTO per name, position by position. */
  lemma DtosOfPngs(names: seq<string>, measure: string -> Measurement)
    requires forall f :: f in names ==> Utils.IsPng(f)
    ensures |Dtos(names, measure)| == |names|
    ensures forall k :: 0 <= k < |names| ==> Dtos(names, measure)[k] == ToDto(names[k], measure(names[k]))
  {
    DtosFollowListing(names, measure);
    Utils.PngNamesOfPngs(names);
  }
}
