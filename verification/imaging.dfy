/**
 * The two PIL operations the aligner and the annotator build their output
 * with: `Image.new(mode, (width, height), color)` and
 * `image.paste(original, box=(x, y))`. An image is a 2-D array indexed
 * `[row, column]`, so PIL's size `(width, height)` is `Length1 x Length0`.
 */
module Imaging {

  datatype Color = Color(red: nat, green: nat, blue: nat)

  /** The background `(255, 255, 255, 0)` both stages create their canvas with. */
  const WHITE := Color(255, 255, 255)

  /** Canvas cell `(r, c)` receives original cell `(r - y, c - x)`, when that cell exists. */
  predicate Covers(original: array2<Color>, x: int, y: int, r: int, c: int)
  {
    y <= r < y + original.Length0 && x <= c < x + original.Length1
  }

  /**
   * A `width x height` canvas of `background` with `original` pasted so that
   * its top-left corner lands on `(x, y)`; the parts of `original` that fall
   * outside the canvas are clipped, as PIL does.
   */
  method NewAndPaste(original: array2<Color>, width: nat, height: nat, x: int, y: int, background: Color)
    returns (canvas: array2<Color>)
    ensures fresh(canvas) && canvas.Length0 == height && canvas.Length1 == width
    ensures forall r, c :: 0 <= r < height && 0 <= c < width ==>
      canvas[r, c] == if Covers(original, x, y, r, c) then original[r - y, c - x] else background
  {
    canvas := new Color[height, width]((_, _) => background);
    var i := 0;
    while i < original.Length0
      invariant 0 <= i <= original.Length0
      invariant forall r, c :: 0 <= r < height && 0 <= c < width ==>
        canvas[r, c] == if y <= r < y + i && x <= c < x + original.Length1 then original[r - y, c - x] else background
    {
      var j := 0;
      while j < original.Length1
        invariant 0 <= j <= original.Length1
        invariant forall r, c :: 0 <= r < height && 0 <= c < width ==>
          canvas[r, c] ==
            if (y <= r < y + i && x <= c < x + original.Length1) || (r == y + i && x <= c < x + j)
            then original[r - y, c - x] else background
      {
        if 0 <= y + i < height && 0 <= x + j < width {
          canvas[y + i, x + j] := original[i, j];
        }
        j := j + 1;
      }
      i := i + 1;
    }
  }
}
