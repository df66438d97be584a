# Grievous lightsaber video — a Dafny model of its pipeline stages

The system turns a Reddit user's daily "Every day General Grievous adds a
unique lightsaber to his collection. Day N: Name" posts into a video. It runs
in stages that each read one directory of PNG files and write the next:

- **downloader**: recognises the post titles, skips days already on disk and
  saves new images as `N_Name.png`; it reports whether anything new came in.
- **aligner**: finds the same template (Grievous' eyes) in every image. It then
  pastes every image on one white canvas, so that all templates land on the
  same point.
- **annotator**: adds a white caption band above every aligned image. The
  lightsaber name taken from the file name is written in that band.
- **composer**: writes the annotated images as a 20-frames-per-second video.
  Each image fades in over the previous one through a growing circular mask,
  and the caption band is never faded. The last image is held for five
  seconds.
- **listing** (`get_images_in_dir`), shared by every stage: the `.png` names
  of a directory, sorted by the integer before their first `_`.

The Dafny modules follow that structure:

| file | module | what it holds |
|---|---|---|
| `wrappers.dfy` | `Wrappers` | `Option`, `Result` and the Python exceptions the model can raise |
| `text.dfy` | `Text` | the Python string operations used: `split`, `rindex`, `endswith`, `int()` |
| `utils.dfy` | `Utils` | the directory listing: a filter and a stable sort by numeric key |
| `downloader.dfy` | `Downloader` | the title pattern as a parser, the skip/download decision, the stage loop |
| `imaging.dfy` | `Imaging` | PIL's `Image.new` and `paste` on a 2-D array of colours |
| `aligner.dfy` | `Aligner` | the two alignment loops: running maxima, then offsets and pasting |
| `annotator.dfy` | `Annotator` | caption parsing, band layout arithmetic, the per-file loop |
| `composer.dfy` | `Composer` | masks, the fade arithmetic, the frame schedule and the writing loop |

The directory listing, each image's pixels and the template match location
are inputs to the model. A frame is a flat row-major `height x width x 3`
array of reals, the layout numpy uses. The video is the sequence of written
frames.

## Model

| member | source | states |
|---|---|---|
| Text.Before | utils.py:16 | `s.split("_")[0]`: a prefix of `s` without the separator, followed by the separator unless it is all of `s` |
| Text.Split | stages/annotator.py:25 | `str.split`: at least one part, the first is `Before`, no part contains the separator |
| Text.JoinSplit | stages/annotator.py:25 | joining the parts of a split with the separator gives the string back |
| Text.SplitJoin | stages/annotator.py:25 | splitting a join of separator-free parts gives the parts back |
| Text.SplitCount | stages/annotator.py:25 | a split has one part more than the string has separators |
| Text.RIndex | stages/annotator.py:27 | `str.rindex`: absent exactly when the character does not occur, otherwise its last occurrence |
| Text.ParseInt | utils.py:16 | `int()` gives a negative number only for text containing `-` |
| Text.ParseIntDigits | utils.py:16 | `int()` of a non-empty run of ASCII digits is their decimal value |
| Text.ParseIntNoDigits | utils.py:16 | `int()` rejects text that contains no digit |
| Text.ParseIntKeepsSeparator | utils.py:16 | a digit run behind one of `\x1c`-`\x1f` is rejected: `int()` does not strip those characters |
| Text.ReadSigned | utils.py:16 | once whitespace is stripped, a negative value is read only after a leading `-` |
| Text.ParseIntOfText | utils.py:16 | whitespace, an optional sign and a non-empty digit run read as the signed decimal value of the digits |
| Text.ParseIntAccepts | utils.py:16 | `int()` accepts only such text, and its value is the one above |
| Utils.PngNames | utils.py:16 | the comprehension keeps exactly the names ending in `.png` |
| Utils.PngNamesAppend | utils.py:16 | the comprehension filters piecewise: the PNG names of a concatenation are those of each part, in order |
| Utils.PngNamesSnoc | utils.py:16 | one more listed name is appended to the PNG names exactly when it ends in `.png`, so the filter keeps listing order and multiplicity |
| Utils.Insert | utils.py:16 | one insertion step of the sort keeps the same names |
| Utils.InsertSorted | utils.py:16 | inserting into a sorted list keeps it sorted by the key |
| Utils.SortBy | utils.py:16 | `sorted(..., key=...)` returns a permutation of its input that is non-decreasing in the key |
| Utils.SortStable | utils.py:16 | the sort is stable: names with equal keys keep their input order |
| Utils.SortSortedIdentity | utils.py:16 | sorting an already sorted list changes nothing |
| Utils.FirstWithoutOrdinal | utils.py:16 | `None` exactly when every name has an integer before its first `_`; otherwise the position of the first name without one, every name before it having one |
| Utils.ListImages | utils.py:10-16 | fails exactly when some `.png` name has no integer before its first `_`; the error holds the text of the first such `.png` name in listing order, since `sorted` computes every key before sorting; non-`.png` names never cause a failure; otherwise the result holds exactly the `.png` names (a permutation), sorted by their integer |
| Utils.PngNamesOfPngs | utils.py:16 | filtering a list of `.png` names keeps it unchanged |
| Utils.ListImagesIdempotent | utils.py:16 | listing the listing's own output gives the same list |
| Utils.ListImagesStable | utils.py:16 | names with the same day number keep their directory order |
| Utils.OrdinalOfDigits | utils.py:13-16 | the key of `digits_rest` is the decimal value of `digits` |
| Utils.ExampleKeyTwo | utils.py:13 | the key of `2_a.png` is 2 |
| Utils.ExampleKeyTen | utils.py:13 | the key of `10_b.png` is 10 |
| Utils.NumericNotLexical | utils.py:13-16 | in every listing result, `2_a.png` comes before `10_b.png`: numeric order, not text order |
| Utils.ListImagesRejects | utils.py:16 | a listing containing `7.png` fails on the literal `7.png`, even next to a non-PNG file |
| Downloader.LeadingDigits | stages/downloader.py:8 | `(\d+)` takes the longest leading run of ASCII digits |
| Downloader.ParseName | stages/downloader.py:8 | `([^\.]+)\.?$`: a non-empty name without `.`, then nothing, a `.`, or a `.` and a final newline |
| Downloader.ParseTitle | stages/downloader.py:8 | a match yields a non-empty digit day and a non-empty, dot-free name |
| Downloader.ParseTitleSound | stages/downloader.py:8 | every matched title is exactly head, any character, ` Day `, day, `: `, name and an accepted ending |
| Downloader.ParseTitleComplete | stages/downloader.py:8 | round trip: every title built from a valid day and name matches and yields that day and name |
| Downloader.DotInNameRejected | stages/downloader.py:8 | a `.` inside the name makes the title not match |
| Downloader.AnyCharAfterCollection | stages/downloader.py:8 | the unescaped `.` after "collection" accepts any character |
| Downloader.FileName | stages/downloader.py:26 | the saved name is a `.png` that starts with the day and `_` |
| Downloader.ProcessPost | stages/downloader.py:11-28 | not matched means no download; a failed listing is an error; an existing file whose text before `_` equals the day means no download; otherwise it downloads to `day_name.png`, which is not yet listed |
| Downloader.FileNameListed | stages/downloader.py:26 | the saved file is a `.png` whose text before the first `_` is the day |
| Downloader.DayComparedAsText | stages/downloader.py:21-23 | the duplicate check compares text: a file `0<day>_…` has the same integer key, yet the post is still downloaded |
| Downloader.Run | stages/downloader.py:41-47 | the listing grows by at most the number of posts, and once a post was downloaded the stage returns true unless a later listing fails |
| Downloader.DownloadAll | stages/downloader.py:31-47 | the stage loop processes the posts in order, adding each saved file to the listing; it returns true exactly when some file was added, and it stops at the first failing listing |
| Downloader.ListImagesExtend | stages/downloader.py:21-26 | adding files whose names start with an integer and `_` keeps a working listing working |
| Downloader.RunGrows | stages/downloader.py:41-47 | the loop only adds files |
| Downloader.RunCovers | stages/downloader.py:41-47 | after a run that did not fail, every matching post has its day on file and the listing works |
| Downloader.RunCoveredIdle | stages/downloader.py:21-47 | when every matching post's day is on file, the loop downloads nothing and returns false |
| Downloader.RerunDownloadsNothing | stages/downloader.py:31-47 | a second run over the same posts downloads nothing and returns false |
| Imaging.NewAndPaste | stages/aligner.py:75-79 | `Image.new` then `paste`: each canvas cell holds the original's pixel at the offset where that pixel exists, and the background elsewhere; parts outside are clipped |
| Aligner.Dtos | stages/aligner.py:42-66 | there are no more DTOs than listed names; each DTO is a `.png` name of the listing with its own measurement |
| Aligner.Extend | stages/aligner.py:57-60 | each of the four `max` updates is at least the old maximum and the image's distance, and equals one of them |
| Aligner.Maxima | stages/aligner.py:37-60 | extending the final maxima with any visited image changes nothing: they already bound every image |
| Aligner.MeasureAll | stages/aligner.py:37-66 | the first loop gives one DTO per `.png` name and the four running maxima of the template-to-border distances; each maximum bounds every image and is reached by one of them, or is 0 |
| Aligner.DtosFollowListing | stages/aligner.py:44-66 | one DTO per `.png` name, in listing order, recording that file's size and template location |
| Aligner.DtosMembers | stages/aligner.py:44-66 | a DTO exists exactly for the `.png` names of the listing |
| Aligner.MaximaBound | stages/aligner.py:57-60 | `max_left >= x`, `max_top >= y`, `max_right >= w - x` and `max_bottom >= h - y` for every image |
| Aligner.MaximaAttained | stages/aligner.py:37-60 | each maximum is 0 or the distance of some image |
| Aligner.MaximaExact | stages/aligner.py:37-60 | the maxima are the true maxima of the batch, or 0 |
| Aligner.MaximaOrderFree | stages/aligner.py:57-60 | the maxima depend only on which images there are |
| Aligner.CanvasOrderFree | stages/aligner.py:42-68 | visiting the files in another order gives the same canvas |
| Aligner.Placement | stages/aligner.py:68-78 | paste offsets are never negative, every image fits in the canvas, and every template lands on `(max_left, max_top)` |
| Aligner.AlignAll | stages/aligner.py:72-81 | the second loop gives every image a canvas of the common size: the whole original at its offset, the template pixel at `(max_left, max_top)`, white elsewhere |
| Aligner.AlignedFromPaste | stages/aligner.py:75-79 | a pasted canvas with in-range offsets has the aligned layout |
| Aligner.PastedInside | stages/aligner.py:75-79 | reading a pasted canvas at the paste offset gives back every original pixel, and every uncovered cell is white |
| Aligner.AlignNames | stages/aligner.py:42-81 | both loops over sorted PNG names: one DTO per name, in order, the batch maxima, and one aligned canvas per name |
| Aligner.AlignStage | stages/aligner.py:42-81 | a listing with a PNG name without an ordinal fails before anything is measured; otherwise the sorted names are measured and aligned in that order |
| Annotator.ParseCaption | stages/annotator.py:25-27 | exactly two `_`-separated parts, and a `.` in the second, else an error; neither returned part contains `_` |
| Annotator.ParseCaptionSound | stages/annotator.py:25-27 | an accepted name is `number_caption.ext` with no `.` or `_` in `ext` |
| Annotator.ParseCaptionComplete | stages/annotator.py:25-27 | round trip: `number_caption.ext` yields `number` and `caption` |
| Annotator.DownloadedFileCaption | stages/annotator.py:25-27 | a file saved by the downloader yields its lightsaber name as caption; a name containing `_` makes the stage fail |
| Annotator.ComputeLayout | stages/annotator.py:16-21 | `font_size = h // 20`, `top_margin = font_size // 8`, `top_offset = font_size + 2 * top_margin`, new size `(w, h + top_offset)` |
| Annotator.TextInsideBand | stages/annotator.py:18-37 | for images at least 20 rows high, a box `font_size` rows tall drawn at `top_margin` lies inside the band; below that the band is empty |
| Annotator.OffsetImage | stages/annotator.py:30-32 | white canvas of the new size with the original pasted at `(0, top_offset)` |
| Annotator.OffsetOfSampledSize | stages/annotator.py:21-32 | an original of the sampled size fills rows `top_offset .. new_h - 1` across the full width; the band above is white |
| Annotator.AnnotateEach | stages/annotator.py:23-32 | the per-file loop annotates files in order and stops at the first name that does not unpack |
| Annotator.AnnotateNames | stages/annotator.py:11-32 | no files is an error (`[0]`); the layout comes from the first image and every file shares it; the result is the captions and offset images up to the first failing name |
| Annotator.AnnotateAll | stages/annotator.py:11-32 | a failing directory listing fails the stage before anything is written; otherwise the captions are those of the sorted names, every image is offset with the first image's layout, and the stage succeeds exactly when every name unpacks |
| Composer.CircleValue | stages/composer.py:24-26 | a mask value is in `[0, 1]`, and positive exactly inside the radius |
| Composer.Radius | stages/composer.py:46-47 | `linspace(50, 3w, 20)` starts at 50 and ends at `3w` |
| Composer.RadiusStep | stages/composer.py:47 | consecutive radii are `(3w - 50) / 19` apart |
| Composer.RadiusPositive | stages/composer.py:47 | every `linspace(50, 3w, 20)` radius is positive |
| Composer.CircleAt | stages/composer.py:11-47 | the circle mask value is in `[0, 1]` and positive exactly when the distance from `(w // 2, h // 2)` is below the radius, with the row measured from `w // 2` and the column from `h // 2` as `np.mgrid` pairs them |
| Composer.MaskAt | stages/composer.py:46-52 | every mask value is in `[0, 1]` |
| Composer.BandIsTopRows | stages/composer.py:50-52 | the overridden prefix of the buffer is exactly the top `frame_height // 16` rows |
| Composer.MaskBounds | stages/composer.py:46-52 | mask values are in `[0, 1]` and exactly 1 in the top `frame_height // 16` rows |
| Composer.CreateMasks | stages/composer.py:46-52 | `FPS` fresh, distinct masks, each equal to the circle mask with its top band set to 1 in place |
| Composer.SetBand | stages/composer.py:50-52 | setting the first `top_margin` rows to 1 in place turns a circle mask into the final mask of the same index |
| Composer.Blended | stages/composer.py:77-81 | each blended value is `(1 - m) * previous + m * current` |
| Composer.BlendedValue | stages/composer.py:77-81 | a blended value is `(1 - m) * previous + m * current`: the incoming frame where `m = 1`, the previous frame where `m = 0`, and between the two otherwise |
| Composer.Copy | stages/composer.py:55-56 | a work buffer starts as a copy of the first frame |
| Composer.Multiply | stages/composer.py:77-78 | `cv.multiply` leaves the elementwise product in the destination buffer |
| Composer.OneMinus | stages/composer.py:78 | `1 - mask` is a fresh array of the elementwise complements |
| Composer.AddInPlace | stages/composer.py:81 | `cv.add` into its first operand leaves the elementwise sum there |
| Composer.FadeFrame | stages/composer.py:76-83 | the two buffer multiplications and the add leave the blended frame in the background buffer, and that frame is what is written |
| Composer.ImageSteps | stages/composer.py:67-76 | image `i` is written for one second, the last image for five |
| Composer.Schedule | stages/composer.py:58-85 | `n >= 1` images give `FPS * (n + 4)` frames; none give none |
| Composer.ScheduleAt | stages/composer.py:67-85 | frame `FPS * i + j` shows image `i`; it is a fade of image `i - 1` into image `i` through mask `j` exactly when `i > 0` and `j < FPS` (the first second) |
| Composer.ScheduleWellFormed | stages/composer.py:54-85 | every frame refers to existing images and masks, and every fade goes from an image to the next one |
| Composer.FadeKeepsCaption | stages/composer.py:50-81 | during a fade, the caption rows show the incoming image, and every other value lies between the old and the new image |
| Composer.SteadyFrame | stages/composer.py:71-73 | the first image and every hold repeat are written unchanged |
| Composer.ImageStepAt | stages/composer.py:67-76 | within image `i`'s seconds, frame `k` of second `second` shows the image, except in the first second of every image but the first, where it fades through mask `k` |
| Composer.WriteFrame | stages/composer.py:71-83 | one written frame is the scheduled step for its image, second and frame index: the image itself, or the blend through that frame's mask |
| Composer.WriteImage | stages/composer.py:67-83 | the two inner loops write exactly the scheduled frames of one image |
| Composer.ComposeStage | stages/composer.py:35-87 | a listing with a PNG name without an ordinal fails with that name's error; an empty one fails at `fnames[0]`; otherwise the video is the schedule rendered with the images in listing order |
| Composer.Compose | stages/composer.py:31-87 | an empty listing fails (`fnames[0]`); otherwise the written frames are exactly the schedule rendered with the images and masks |

## Left out

- Reading and writing files, `os.listdir`, `cv.imread`, `Image.open`/`save` and the `VideoWriter` are not modelled. A listing is a sequence of names, an image is an array, and the video is a sequence of frames.
- The network calls (`praw` for the posts, `urllib.request.urlretrieve` for the image) are not modelled. The downloader takes the post titles as input and records a download by adding the file name to the listing.
- OpenCV's `matchTemplate` and `minMaxLoc` are a foreign numeric routine. `Aligner.MeasureAll` takes their result, with the image size, from a `measure` function of the file name.
- Floating point is not modelled. Masks and blends are over exact reals. The pixel-to-centre distance `np.sqrt(...)` is an abstract non-negative function of the offsets from the centre. `Radius` is the exact real `linspace` value.
- Composer.Compose: the written frames are not cast with `astype(np.uint8)`, and images are not converted to `float32`.
- Composer.Compose: all images must have the first image's size. Python's `cv.multiply` would raise on a mismatch; that error path is not modelled.
- Aligner.AlignAll: each original must have the size it was measured at; in the Python code both come from the same file.
- Aligner.AlignStage: the same holds for every listed file, whose pixels and measurement are both inputs.
- Composer.ComposeStage: every listed file must have the given frame size, as for `Composer.Compose`; the frame size is an input, where `main` reads it from the first frame.
- Font loading, text measurement and drawing are not modelled (`ImageFont.truetype`, `draw.textsize`, `draw.text`). The text's height is taken to be the requested font size `h // 20`; the height `draw.textsize` would measure is not modelled.
- Pixel modes and alpha are not modelled: the `(255, 255, 255, 0)` background is the colour white.
- Python's `int()` and the regular expression's `\d` also accept non-ASCII digits, and `int()` also strips non-ASCII whitespace. The model accepts only ASCII digits, and strips only space and `\t` through `\r`, the ASCII whitespace `int()` strips.
- Text.ParseInt: Python's `int()` also accepts single `_` characters between digits; the model does not. It is only applied to the text before a file name's first `_`, which holds none.
- `stages/resizer.py` is not part of this model. It is a thin wrapper over PIL's `thumbnail`, whose aspect-ratio arithmetic is not in the repository.
- `app.py` is not part of this model. Its only logic is the early return when the downloader found nothing new, which is the boolean `Downloader.DownloadAll` returns.
- Progress messages printed by the stages are not modelled.
- Downloader.ProcessPost: `urlretrieve` is taken to succeed and to create exactly the file `N_Name.png`. A name containing `/` would make Python look for a missing subdirectory and raise `FileNotFoundError`; the model records the download instead.
