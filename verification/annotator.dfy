/**
 * The annotator stage: a caption band is added above every aligned image and
 * the lightsaber name from the file name is written in it. Font loading,
 * text measurement and drawing are outside the model; the font's size is
 * the one it is requested with, `h // 20`.
 */
module Annotator {
  import opened Wrappers
  import opened Text
  import opened Imaging
  import Utils
  import Downloader

  /** `number, name = fname.split("_")`, with the extension removed from `name`. */
  datatype Caption = Caption(number: string, name: string)

  /**
   * The file name's two `_`-separated parts, the second cut at its last `.`.
   * Python raises when there are not exactly two parts, and when the second
   * part has no `.`.
   */
  function ParseCaption(fname: string): (r: Result<Caption>)
    ensures r.Ok? ==> '_' !in r.value.number && '_' !in r.value.name
    ensures r.Err? <==> multiset(fname)['_'] != 1 || '.' !in Split(fname, '_')[1]
  {
    var parts := Split(fname, '_');
    SplitCount(fname, '_');
    if |parts| != 2 then Err(UnpackMismatch(|parts|))
    else
      match RIndex(parts[1], '.')
      case None => Err(SubstringNotFound)
      case Some(i) => Ok(Caption(parts[0], parts[1][..i]))
  }

  /** Every accepted name is `number_caption.ext`, with no `.` in `ext`. */
  lemma ParseCaptionSound(fname: string)
    requires ParseCaption(fname).Ok?
    ensures var c := ParseCaption(fname).value;
      exists ext :: '.' !in ext && '_' !in ext && fname == c.number + "_" + c.name + "." + ext
  {
    SplitCount(fname, '_');
    SplitInTwo(fname, '_');
    var parts := Split(fname, '_');
    assert parts[1] in parts;
    var ext := CutAtDot(parts[0], parts[1], RIndex(parts[1], '.').value);
  }

  /** Cutting the part after `_` at its last `.` leaves an extension with no `.` and no `_`. */
  lemma CutAtDot(number: string, name: string, i: nat) returns (ext: string)
    requires i < |name| && name[i] == '.' && '.' !in name[i + 1..] && '_' !in name
    ensures '.' !in ext && '_' !in ext
    ensures number + "_" + name == number + "_" + name[..i] + "." + ext
  {
    ext := name[i + 1..];
    assert name == name[..i] + "." + ext;
    assert forall k :: 0 <= k < |ext| ==> ext[k] == name[i + 1 + k];
  }

  /** Round trip: a name built as `number_caption.ext` gives its number and caption back. */
  lemma ParseCaptionComplete(number: string, caption: string, ext: string)
    requires '_' !in number && '_' !in caption && '_' !in ext && '.' !in ext
    ensures ParseCaption(number + "_" + caption + "." + ext) == Ok(Caption(number, caption))
  {
    var second := caption + "." + ext;
    assert number + "_" + caption + "." + ext == number + "_" + second;
    SplitOfTwo(number, second, '_');
    LastDot(caption, ext);
  }

  /** The last `.` of `caption.ext` is the one before `ext`. */
  lemma LastDot(caption: string, ext: string)
    requires '.' !in ext
    ensures RIndex(caption + "." + ext, '.') == Some(|caption|)
    ensures (caption + "." + ext)[..|caption|] == caption
  {
    var second := caption + "." + ext;
    assert second[|caption|] == '.';
    assert second[|caption| + 1..] == ext;
    RIndexOfLast(second, '.', |caption|);
  }

  /**
   * A file the downloader saved gets its lightsaber name as caption, as long
   * as the name has no `_`; a name with a `_` makes the unpacking fail.
   */
  lemma DownloadedFileCaption(p: Downloader.Post)
    requires Downloader.ValidDay(p.day) && Downloader.ValidName(p.name)
    ensures '_' !in p.name ==> ParseCaption(Downloader.FileName(p)) == Ok(Caption(p.day, p.name))
    ensures '_' in p.name ==> ParseCaption(Downloader.FileName(p)).Err?
  {
    var f := Downloader.FileName(p);
    assert f == p.day + "_" + p.name + ".png";
    assert '_' !in p.day by {
      forall i | 0 <= i < |p.day| ensures p.day[i] != '_' {
        assert IsDigit(p.day[i]);
      }
    }
    if '_' !in p.name {
      PngCaption(p.day, p.name, f);
    } else {
      SecondUnderscore(p.day, p.name, ".png");
    }
  }

  /** `number_caption.png` gives its number and caption back. */
  lemma PngCaption(number: string, caption: string, f: string)
    requires '_' !in number && '_' !in caption
    requires f == number + "_" + caption + ".png"
    ensures ParseCaption(f) == Ok(Caption(number, caption))
  {
    DotThenExtension(number + "_" + caption, ".png", "png");
    ParseCaptionComplete(number, caption, "png");
  }

  /** `stem + ".png"` regrouped as `stem + "." + "png"`, proved apart so that `DownloadedFileCaption` does not expand string literals. */
  lemma DotThenExtension(stem: string, dotted: string, ext: string)
    requires dotted == "." + ext
    ensures stem + dotted == stem + "." + ext
  {
  }

  /** A name with a `_` after the first separator has at least two of them. */
  lemma SecondUnderscore(number: string, name: string, tail: string)
    requires '_' in name
    ensures multiset(number + "_" + name + tail)['_'] >= 2
  {
    assert multiset(number + "_" + name + tail) == multiset(number) + multiset{'_'} + multiset(name) + multiset(tail);
  }

  /** The size of the caption font, its margin, the band height and the new image size. */
  datatype Layout = Layout(fontSize: nat, topMargin: nat, topOffset: nat, width: nat, height: nat)

  /** Everything is derived from the size `(w, h)` of the first aligned image. */
  function ComputeLayout(w: nat, h: nat): (l: Layout)
    ensures 20 * l.fontSize <= h < 20 * (l.fontSize + 1)
    ensures 8 * l.topMargin <= l.fontSize < 8 * (l.topMargin + 1)
    ensures l.topOffset == l.topMargin + l.fontSize + l.topMargin
    ensures l.width == w && l.height == h + l.topOffset
  {
    var fontSize := h / 20;
    var topMargin := fontSize / 8;
    var topOffset := fontSize + 2 * topMargin;
    Layout(fontSize, topMargin, topOffset, w, h + topOffset)
  }

  /**
   * The text, drawn at `y = top_margin` with the font's size, stays inside
   * the band once the image is at least 20 rows high; below that the band is
   * empty.
   */
  lemma TextInsideBand(w: nat, h: nat)
    ensures var l := ComputeLayout(w, h);
      && (h >= 20 ==> l.topMargin < l.topOffset && l.topMargin + l.fontSize <= l.topOffset)
      && (h < 20 ==> l.topOffset == 0 && l.height == h)
  {
  }

  /**
   * `annotated` is the new canvas of size `l` with `original` pasted at
   * `(0, top_offset)`: cell `(r, c)` is original cell `(r - top_offset, c)`
   * where that cell exists and white elsewhere.
   */
  ghost predicate Offset(annotated: array2<Color>, original: array2<Color>, l: Layout)
    reads annotated, original
  {
    && annotated.Length0 == l.height && annotated.Length1 == l.width
    && forall r, c :: 0 <= r < l.height && 0 <= c < l.width ==>
         annotated[r, c] == if Covers(original, 0, l.topOffset, r, c) then original[r - l.topOffset, c] else WHITE
  }

  /** The white canvas with the original pasted below the caption band. */
  method OffsetImage(original: array2<Color>, l: Layout) returns (annotated: array2<Color>)
    ensures fresh(annotated)
    ensures Offset(annotated, original, l)
  {
    annotated := NewAndPaste(original, l.width, l.height, 0, l.topOffset, WHITE);
  }

  /**
   * For an original of the sampled size, its pixels fill rows
   * `top_offset .. new_h - 1` across the full width, and the band above is
   * white until the caption is drawn.
   */
  lemma OffsetOfSampledSize(annotated: array2<Color>, original: array2<Color>, l: Layout)
    requires Offset(annotated, original, l)
    requires original.Length0 + l.topOffset == l.height && original.Length1 == l.width
    ensures forall r, c :: 0 <= r < l.topOffset && 0 <= c < l.width ==> annotated[r, c] == WHITE
    ensures forall r, c :: 0 <= r < original.Length0 && 0 <= c < l.width ==>
      annotated[r + l.topOffset, c] == original[r, c]
  {
    forall r, c | 0 <= r < original.Length0 && 0 <= c < l.width
      ensures annotated[r + l.topOffset, c] == original[r, c]
    {
      assert Covers(original, 0, l.topOffset, r + l.topOffset, c);
    }
  }

  /** The first `|captions|` names unpack to `captions`. */
  predicate Unpacked(names: seq<string>, captions: seq<Caption>) {
    |captions| <= |names| && forall j :: 0 <= j < |captions| ==> ParseCaption(names[j]) == Ok(captions[j])
  }

  lemma UnpackedSnoc(names: seq<string>, captions: seq<Caption>, c: Caption)
    requires Unpacked(names, captions) && |captions| < |names|
    requires ParseCaption(names[|captions|]) == Ok(c)
    ensures Unpacked(names, captions + [c])
  {
  }

  /** The first `|annotated|` names' images are offset below the caption band. */
  ghost predicate Annotated(annotated: seq<array2<Color>>, names: seq<string>, files: map<string, array2<Color>>, l: Layout)
    reads set j | 0 <= j < |annotated| :: annotated[j]
    reads set j | 0 <= j < |annotated| && j < |names| && names[j] in files :: files[names[j]]
  {
    && |annotated| <= |names|
    && (forall j :: 0 <= j < |annotated| ==> names[j] in files)
    && forall j :: 0 <= j < |annotated| ==> Offset(annotated[j], files[names[j]], l)
  }

  lemma AnnotatedSnoc(annotated: seq<array2<Color>>, names: seq<string>, files: map<string, array2<Color>>,
                      l: Layout, image: array2<Color>)
    requires Annotated(annotated, names, files, l) && |annotated| < |names| && names[|annotated|] in files
    requires Offset(image, files[names[|annotated|]], l)
    ensures Annotated(annotated + [image], names, files, l)
  {
  }

  /**
   * The per-file loop with the layout `l`: it stops at the first name that
   * does not unpack, after annotating the ones before it.
   */
  method AnnotateEach(names: seq<string>, files: map<string, array2<Color>>, l: Layout)
    returns (failure: Option<Error>, captions: seq<Caption>, annotated: seq<array2<Color>>)
    requires forall name :: name in names ==> name in files
    ensures |captions| == |annotated| <= |names|
    ensures forall k :: 0 <= k < |captions| ==> ParseCaption(names[k]) == Ok(captions[k])
    ensures forall k :: 0 <= k < |captions| ==> Offset(annotated[k], files[names[k]], l)
    ensures failure.None? <==> |captions| == |names|
    ensures failure.Some? ==> ParseCaption(names[|captions|]) == Err(failure.value)
  {
    captions, annotated := [], [];
    for k := 0 to |names|
      invariant |captions| == |annotated| == k
      invariant Unpacked(names, captions)
      invariant Annotated(annotated, names, files, l)
    {
      var caption := ParseCaption(names[k]);
      if caption.Err? {
        return Some(caption.error), captions, annotated;
      }
      UnpackedSnoc(names, captions, caption.value);
      var image := OffsetImage(files[names[k]], l);
      AnnotatedSnoc(annotated, names, files, l, image);
      captions, annotated := captions + [caption.value], annotated + [image];
    }
    failure := None;
  }

  /**
   * The annotation stage over the sorted `names`, with `files` giving each
   * file's pixels. It fails when there are no names (the sample image is
   * `[0]`) and at the first name that does not unpack; the images annotated
   * before that failure have been written. Otherwise every image is
   * annotated, in order, with the layout of the first one.
   */
  method AnnotateNames(names: seq<string>, files: map<string, array2<Color>>)
    returns (r: Result<Layout>, captions: seq<Caption>, annotated: seq<array2<Color>>)
    requires forall name :: name in names ==> name in files
    ensures |captions| == |annotated| <= |names|
    ensures names == [] ==> r == Err(EmptyListing)
    ensures names != [] ==>
      var l := ComputeLayout(files[names[0]].Length1, files[names[0]].Length0);
      && (forall k :: 0 <= k < |captions| ==>
            ParseCaption(names[k]) == Ok(captions[k]) && Offset(annotated[k], files[names[k]], l))
      && (r.Ok? <==> |captions| == |names|)
      && (r.Ok? ==> r.value == l)
      && (r.Err? ==> ParseCaption(names[|captions|]) == Err(r.error))
  {
    if names == [] {
      return Err(EmptyListing), [], [];
    }
    var sample := files[names[0]];
    var l := ComputeLayout(sample.Length1, sample.Length0);
    var failure;
    failure, captions, annotated := AnnotateEach(names, files, l);
    r := if failure.Some? then Err(failure.value) else Ok(l);
  }

  /** The annotator stage: the aligned directory's listing fails, or the loop runs over its sorted names. */
  method AnnotateAll(listing: seq<string>, files: map<string, array2<Color>>)
    returns (r: Result<Layout>, captions: seq<Caption>, annotated: seq<array2<Color>>)
    requires forall name :: name in listing ==> name in files
    ensures Utils.ListImages(listing).Err? ==> r == Err(Utils.ListImages(listing).error) && captions == []
    ensures Utils.ListImages(listing) == Ok([]) ==> r == Err(EmptyListing)
    ensures Utils.ListImages(listing).Ok? ==> |captions| == |annotated| <= |Utils.ListImages(listing).value|
    ensures r.Ok? ==> Utils.ListImages(listing).Ok? && |captions| == |Utils.ListImages(listing).value|
    ensures Utils.ListImages(listing).Ok? && Utils.ListImages(listing).value != [] ==>
      var names := Utils.ListImages(listing).value;
      var l := ComputeLayout(files[names[0]].Length1, files[names[0]].Length0);
      && (forall k :: 0 <= k < |captions| ==>
            ParseCaption(names[k]) == Ok(captions[k]) && Offset(annotated[k], files[names[k]], l))
      && (r.Ok? <==> |captions| == |names|)
      && (r.Ok? ==> r.value == l)
      && (r.Err? ==> ParseCaption(names[|captions|]) == Err(r.error))
  {
    var listed := Utils.ListImages(listing);
    if listed.Err? {
      return Err(listed.error), [], [];
    }
    r, captions, annotated := AnnotateNames(listed.value, files);
  }
}
