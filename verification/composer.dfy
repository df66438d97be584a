/**
 * The composer stage: the annotated images become a video at `FPS` frames
 * per second. The first image is shown for one second; every later image
 * fades in over the previous one during its first second through a circular
 * mask that grows from the centre; the last image is then held for four
 * more seconds. A frame is a flat row-major `height x width x 3` buffer of
 * reals, as numpy stores it; reading images and encoding the video are
 * outside the model, and the video is the sequence of written frames.
 */
module Composer {
  import opened Wrappers
  import Utils

  const FPS: nat := 20
  const CHANNELS: nat := 3
  /** How many times the last image's second is written. */
  const HOLD: nat := 5

  /** The pixel-to-centre distance: any non-negative function of the offsets from the centre. */
  ghost predicate IsDistance(dist: (int, int) -> real) {
    forall dr, dc :: dist(dr, dc) >= 0.0
  }

  /** The value `create_circle_mask` gives a cell at distance `d` from the centre. */
  function CircleValue(d: real, radius: real): (v: real)
    requires d >= 0.0
    ensures 0.0 <= v <= 1.0
    ensures v > 0.0 <==> d < radius
  {
    if d < radius then
      assert radius > 0.0;
      assert d / radius < 1.0 by {
        RatioBelowOne(d, radius);
      }
      1.0 - d / radius
    else 0.0
  }

  lemma RatioBelowOne(d: real, radius: real)
    requires 0.0 <= d < radius
    ensures d / radius < 1.0
  {
    var q := d / radius;
    assert q * radius == d;
  }

  /** `np.linspace(50, frame_width * 3, FPS)[k]` */
  function Radius(k: nat, width: nat): (r: real)
    ensures k == 0 ==> r == 50.0
    ensures k == FPS - 1 ==> r == (3 * width) as real
  {
    50.0 + (k as real) * ((3 * width) as real - 50.0) / ((FPS - 1) as real)
  }

  /** Consecutive radii are one nineteenth of the range apart, as `linspace` spaces them. */
  lemma RadiusStep(k: nat, width: nat)
    requires k + 1 < FPS
    ensures Radius(k + 1, width) - Radius(k, width) == ((3 * width) as real - 50.0) / 19.0
  {
    var span := (3 * width) as real - 50.0;
    assert (k + 1) as real * span == (k as real) * span + span;
  }

  /** Every radius is positive, so every mask has a non-empty disc. */
  lemma RadiusPositive(k: nat, width: nat)
    requires k < FPS && width > 0
    ensures Radius(k, width) > 0.0
  {
    var span := (3 * width) as real - 50.0;
    var kr := k as real;
    assert 0.0 <= kr <= 19.0;
    assert Radius(k, width) == 50.0 + kr * span / 19.0;
    if span < 0.0 {
      ScaledBelow(kr, span);
      assert 50.0 + span > 0.0;
    } else {
      NonNegProduct(kr, span);
    }
  }

  lemma NonNegProduct(a: real, b: real)
    requires a >= 0.0 && b >= 0.0
    ensures a * b >= 0.0
  {
  }

  /** A factor of at most 19 scales a non-positive `span` no lower than `span` itself. */
  lemma ScaledBelow(kr: real, span: real)
    requires 0.0 <= kr <= 19.0 && span < 0.0
    ensures kr * span / 19.0 >= span
  {
    NonNegProduct(19.0 - kr, -span);
    assert (19.0 - kr) * (-span) == kr * span - 19.0 * span;
  }

  /** Row and column of the flat buffer element `idx`, for a frame `width` pixels wide. */
  function Row(idx: nat, width: nat): nat {
    if width == 0 then 0 else idx / (width * CHANNELS)
  }

  function Column(idx: nat, width: nat): nat {
    if width == 0 then 0 else (idx / CHANNELS) % width
  }

  /**
   * `create_circle_mask((h, w, 3), (w // 2, h // 2), radius)` at `idx`: the
   * row is measured from `w // 2` and the column from `h // 2`, as
   * `create_circle_mask` pairs `np.mgrid`'s first axis with `center[0]`.
   */
  function CircleAt(k: nat, idx: nat, height: nat, width: nat, dist: (int, int) -> real): (v: real)
    requires IsDistance(dist)
    ensures 0.0 <= v <= 1.0
    ensures v > 0.0 <==> dist(Row(idx, width) - width / 2, Column(idx, width) - height / 2) < Radius(k, width)
  {
    CircleValue(dist(Row(idx, width) - width / 2, Column(idx, width) - height / 2), Radius(k, width))
  }

  /** The number of leading buffer elements in the top `height // 16` rows. */
  function Band(height: nat, width: nat): (b: nat)
    ensures b <= height * width * CHANNELS
  {
    MulMono(height / 16, height, width * CHANNELS);
    (height / 16) * (width * CHANNELS)
  }

  lemma MulMono(a: nat, b: nat, m: nat)
    requires a <= b
    ensures a * m <= b * m
  {
  }

  /** Mask `k` after the top-band override: 1 in the caption rows, the fading disc elsewhere. */
  function MaskAt(k: nat, idx: nat, height: nat, width: nat, dist: (int, int) -> real): (v: real)
    requires IsDistance(dist)
    ensures 0.0 <= v <= 1.0
  {
    if idx < Band(height, width) then 1.0 else CircleAt(k, idx, height, width, dist)
  }

  function MaskValues(k: nat, height: nat, width: nat, dist: (int, int) -> real): (m: seq<real>)
    requires IsDistance(dist)
    ensures |m| == height * width * CHANNELS
  {
    seq(height * width * CHANNELS, idx requires 0 <= idx => MaskAt(k, idx, height, width, dist))
  }

  /** The `FPS` masks, in the order the sub-steps of a second use them. */
  function Masks(height: nat, width: nat, dist: (int, int) -> real): (ms: seq<seq<real>>)
    requires IsDistance(dist)
    ensures |ms| == FPS
  {
    seq(FPS, k requires 0 <= k => MaskValues(k, height, width, dist))
  }

  /** The band is exactly the rows above `height // 16`. */
  lemma BandIsTopRows(idx: nat, height: nat, width: nat)
    requires width > 0
    ensures idx < Band(height, width) <==> Row(idx, width) < height / 16
  {
    var m := width * CHANNELS;
    var q := height / 16;
    var r := idx / m;
    assert idx == r * m + idx % m;
    if r < q {
      MulMono(r + 1, q, m);
    } else {
      MulMono(q, r, m);
    }
  }

  /** Every mask value lies in [0, 1], and the caption rows are exactly 1 in every mask. */
  lemma MaskBounds(k: nat, idx: nat, height: nat, width: nat, dist: (int, int) -> real)
    requires IsDistance(dist) && width > 0
    ensures 0.0 <= MaskAt(k, idx, height, width, dist) <= 1.0
    ensures Row(idx, width) < height / 16 ==> MaskAt(k, idx, height, width, dist) == 1.0
  {
    BandIsTopRows(idx, height, width);
  }

  /** Mask `k` before the top-band override: the fading disc alone. */
  function CircleValues(k: nat, height: nat, width: nat, dist: (int, int) -> real): (m: seq<real>)
    requires IsDistance(dist)
    ensures |m| == height * width * CHANNELS
  {
    seq(height * width * CHANNELS, idx requires 0 <= idx => CircleAt(k, idx, height, width, dist))
  }

  /** The masks: `FPS` circle masks, then their top band set to 1 in place. */
  method CreateMasks(height: nat, width: nat, dist: (int, int) -> real) returns (masks: seq<array<real>>)
    requires IsDistance(dist)
    ensures |masks| == FPS
    ensures forall k :: 0 <= k < FPS ==> fresh(masks[k])
    ensures forall k, l :: 0 <= k < l < FPS ==> masks[k] != masks[l]
    ensures forall k :: 0 <= k < FPS ==> masks[k][..] == MaskValues(k, height, width, dist)
  {
    var size := height * width * CHANNELS;
    masks := [];
    for k := 0 to FPS
      invariant |masks| == k
      invariant forall j :: 0 <= j < k ==> fresh(masks[j])
      invariant forall j, l :: 0 <= j < l < k ==> masks[j] != masks[l]
      invariant forall j :: 0 <= j < k ==> masks[j][..] == CircleValues(j, height, width, dist)
    {
      var mask := new real[size](idx requires 0 <= idx => CircleAt(k, idx, height, width, dist));
      masks := masks + [mask];
    }
    for k := 0 to FPS
      invariant forall j :: 0 <= j < k ==> masks[j][..] == MaskValues(j, height, width, dist)
      invariant forall j :: k <= j < FPS ==> masks[j][..] == CircleValues(j, height, width, dist)
    {
      SetBand(masks[k], k, height, width, dist);
    }
  }

  /** `mask[:band] = 1`: turns circle mask `k` into mask `k`. */
  method SetBand(mask: array<real>, k: nat, height: nat, width: nat, dist: (int, int) -> real)
    requires IsDistance(dist)
    requires mask[..] == CircleValues(k, height, width, dist)
    modifies mask
    ensures mask[..] == MaskValues(k, height, width, dist)
  {
    var band := Band(height, width);
    for idx := 0 to band
      invariant forall e :: 0 <= e < mask.Length ==> mask[e] == if e < idx then 1.0 else CircleAt(k, e, height, width, dist)
    {
      mask[idx] := 1.0;
    }
  }

  // ---------------------------------------------------------------------
  // Element-wise arithmetic on frames

  function Product(a: seq<real>, b: seq<real>): (r: seq<real>)
    requires |a| == |b|
    ensures |r| == |a|
    ensures forall i :: 0 <= i < |a| ==> r[i] == a[i] * b[i]
  {
    seq(|a|, i requires 0 <= i < |a| => a[i] * b[i])
  }

  function Sum(a: seq<real>, b: seq<real>): (r: seq<real>)
    requires |a| == |b|
    ensures |r| == |a|
    ensures forall i :: 0 <= i < |a| ==> r[i] == a[i] + b[i]
  {
    seq(|a|, i requires 0 <= i < |a| => a[i] + b[i])
  }

  function Complement(a: seq<real>): (r: seq<real>)
    ensures |r| == |a|
    ensures forall i :: 0 <= i < |a| ==> r[i] == 1.0 - a[i]
  {
    seq(|a|, i requires 0 <= i < |a| => 1.0 - a[i])
  }

  /** `(1 - mask) * previous + mask * current`, the frame written while `current` fades in. */
  function Blended(mask: seq<real>, current: seq<real>, previous: seq<real>): (r: seq<real>)
    requires |mask| == |current| == |previous|
    ensures |r| == |mask|
    ensures forall i :: 0 <= i < |mask| ==> r[i] == (1.0 - mask[i]) * previous[i] + mask[i] * current[i]
  {
    Sum(Product(Complement(mask), previous), Product(mask, current))
  }

  /** Each blended value is the mask-weighted mix of the two frames, so it lies between them. */
  lemma BlendedValue(mask: seq<real>, current: seq<real>, previous: seq<real>, i: nat)
    requires |mask| == |current| == |previous| && i < |mask|
    requires 0.0 <= mask[i] <= 1.0
    ensures Blended(mask, current, previous)[i] == (1.0 - mask[i]) * previous[i] + mask[i] * current[i]
    ensures mask[i] == 1.0 ==> Blended(mask, current, previous)[i] == current[i]
    ensures mask[i] == 0.0 ==> Blended(mask, current, previous)[i] == previous[i]
    ensures current[i] <= previous[i] ==> current[i] <= Blended(mask, current, previous)[i] <= previous[i]
    ensures previous[i] <= current[i] ==> previous[i] <= Blended(mask, current, previous)[i] <= current[i]
  {
    var m, d := mask[i], current[i] - previous[i];
    assert Blended(mask, current, previous)[i] == previous[i] + m * d;
    var c := 1.0 - m;
    assert c >= 0.0;
    if d <= 0.0 {
      assert m >= 0.0 && 0.0 - d >= 0.0;
      assert m * (0.0 - d) >= 0.0;
      assert c * d <= 0.0;
    } else {
      assert m * d >= 0.0;
      assert c * d >= 0.0;
    }
  }

  method Multiply(a: array<real>, b: array<real>, dst: array<real>)
    requires a.Length == b.Length == dst.Length
    requires dst != a && dst != b
    modifies dst
    ensures dst[..] == Product(a[..], b[..])
  {
    for i := 0 to dst.Length
      invariant forall j :: 0 <= j < i ==> dst[j] == a[j] * b[j]
    {
      dst[i] := a[i] * b[i];
    }
    assert forall j :: 0 <= j < dst.Length ==> dst[..][j] == Product(a[..], b[..])[j];
  }

  method OneMinus(a: array<real>) returns (r: array<real>)
    ensures fresh(r)
    ensures r[..] == Complement(a[..])
  {
    r := new real[a.Length](i requires 0 <= i < a.Length reads a => 1.0 - a[i]);
  }

  method AddInPlace(acc: array<real>, x: array<real>)
    requires acc.Length == x.Length && acc != x
    modifies acc
    ensures acc[..] == Sum(old(acc[..]), x[..])
  {
    forall i | 0 <= i < acc.Length {
      acc[i] := acc[i] + x[i];
    }
  }

  method Copy(a: array<real>) returns (r: array<real>)
    ensures fresh(r)
    ensures r[..] == a[..]
  {
    r := new real[a.Length](i requires 0 <= i < a.Length reads a => a[i]);
  }

  // ---------------------------------------------------------------------
  // The frame schedule

  /** A written frame: image `image` as it is, or image `to` faded in over image `from` through mask `mask`. */
  datatype Step = Verbatim(image: nat) | Fade(from: nat, to: nat, mask: nat)

  /** How many seconds image `i` of `n` is written for. */
  function Seconds(i: nat, n: nat): nat {
    if i + 1 == n then HOLD else 1
  }

  /** The frames written for image `i` of `n`: a fade over the first second of every image but the first. */
  function ImageSteps(i: nat, n: nat): (steps: seq<Step>)
    ensures |steps| == Seconds(i, n) * FPS
  {
    seq(Seconds(i, n) * FPS, j requires 0 <= j => if i == 0 || j >= FPS then Verbatim(i) else Fade(i - 1, i, j))
  }

  /** The frames written for images `0 .. m - 1` of `n`. */
  function ScheduleUpTo(m: nat, n: nat): seq<Step>
  {
    if m == 0 then [] else ScheduleUpTo(m - 1, n) + ImageSteps(m - 1, n)
  }

  /** Every frame written for `n` images, in order: one second per image plus four more of the last. */
  function Schedule(n: nat): (steps: seq<Step>)
    ensures |steps| == if n == 0 then 0 else FPS * (n + HOLD - 1)
  {
    if n == 0 then ScheduleUpTo(n, n)
    else
      ScheduleUpToLength(n - 1, n);
      ScheduleUpTo(n, n)
  }

  lemma {:induction false} ScheduleUpToLength(m: nat, n: nat)
    requires m < n
    ensures |ScheduleUpTo(m, n)| == FPS * m
  {
    if m > 0 {
      ScheduleUpToLength(m - 1, n);
    }
  }

  lemma {:induction false} ScheduleUpToPrefix(m: nat, m': nat, n: nat)
    requires m <= m' <= n
    ensures ScheduleUpTo(m, n) <= ScheduleUpTo(m', n)
  {
    if m < m' {
      ScheduleUpToPrefix(m, m' - 1, n);
    }
  }

  /**
   * Frame `FPS * i + j` shows image `i`: during the first second of every
   * image after the first it is image `i` faded in over image `i - 1`
   * through mask `j`, otherwise image `i` itself.
   */
  lemma ScheduleAt(n: nat, i: nat, j: nat)
    requires i < n && j < Seconds(i, n) * FPS
    ensures FPS * i + j < |Schedule(n)|
    ensures Schedule(n)[FPS * i + j] == if i == 0 || j >= FPS then Verbatim(i) else Fade(i - 1, i, j)
  {
    ScheduleUpToLength(i, n);
    ScheduleUpToPrefix(i + 1, n, n);
    assert ScheduleUpTo(i + 1, n)[FPS * i + j] == ImageSteps(i, n)[j];
  }

  /** Every frame refers to images that exist, and every fade goes from one image to the next. */
  lemma {:induction false} ScheduleWellFormed(m: nat, n: nat)
    requires m <= n
    ensures forall s :: s in ScheduleUpTo(m, n) ==> StepFits(s, n)
    ensures forall s :: s in ScheduleUpTo(m, n) && s.Fade? ==> s.to == s.from + 1
  {
    if m > 0 {
      ScheduleWellFormed(m - 1, n);
    }
  }

  predicate StepFits(s: Step, n: nat) {
    match s
    case Verbatim(i) => i < n
    case Fade(from, to, k) => from < n && to < n && k < FPS
  }

  /** All frames and masks have the same number of elements. */
  predicate Uniform(images: seq<seq<real>>, masks: seq<seq<real>>) {
    |masks| == FPS &&
    (forall i :: 0 <= i < |images| ==> |images[i]| == |masks[0]|) &&
    (forall k :: 0 <= k < FPS ==> |masks[k]| == |masks[0]|)
  }

  function Render(s: Step, images: seq<seq<real>>, masks: seq<seq<real>>): (frame: seq<real>)
    requires Uniform(images, masks) && StepFits(s, |images|)
    ensures |frame| == |masks[0]|
  {
    match s
    case Verbatim(i) => images[i]
    case Fade(from, to, k) => Blended(masks[k], images[to], images[from])
  }

  function RenderAll(steps: seq<Step>, images: seq<seq<real>>, masks: seq<seq<real>>): (video: seq<seq<real>>)
    requires Uniform(images, masks) && forall s :: s in steps ==> StepFits(s, |images|)
    ensures |video| == |steps|
    ensures forall p :: 0 <= p < |video| ==> |video[p]| == |masks[0]|
  {
    seq(|steps|, p requires 0 <= p < |steps| => Render(steps[p], images, masks))
  }

  /** The video the composer writes for `images` with `masks`. */
  function Video(images: seq<seq<real>>, masks: seq<seq<real>>): (video: seq<seq<real>>)
    requires Uniform(images, masks)
    ensures |video| == |Schedule(|images|)|
    ensures forall p :: 0 <= p < |video| ==> |video[p]| == |masks[0]|
  {
    ScheduleWellFormed(|images|, |images|);
    RenderAll(Schedule(|images|), images, masks)
  }

  /**
   * While an image fades in, its caption rows are already shown in full and
   * every other value lies between the old and the new image.
   */
  lemma FadeKeepsCaption(images: seq<seq<real>>, height: nat, width: nat, dist: (int, int) -> real, i: nat, j: nat, idx: nat)
    requires IsDistance(dist) && width > 0
    requires forall t :: 0 <= t < |images| ==> |images[t]| == height * width * CHANNELS
    requires 0 < i < |images| && j < FPS && idx < height * width * CHANNELS
    ensures Uniform(images, Masks(height, width, dist))
    ensures FPS * i + j < |Video(images, Masks(height, width, dist))|
    ensures Row(idx, width) < height / 16 ==> Video(images, Masks(height, width, dist))[FPS * i + j][idx] == images[i][idx]
    ensures images[i][idx] <= images[i - 1][idx] ==>
      images[i][idx] <= Video(images, Masks(height, width, dist))[FPS * i + j][idx] <= images[i - 1][idx]
    ensures images[i - 1][idx] <= images[i][idx] ==>
      images[i - 1][idx] <= Video(images, Masks(height, width, dist))[FPS * i + j][idx] <= images[i][idx]
  {
    var masks := Masks(height, width, dist);
    ScheduleAt(|images|, i, j);
    MaskBounds(j, idx, height, width, dist);
    BlendedValue(masks[j], images[i], images[i - 1], idx);
  }

  /** After its first second, and for the whole first second of the first image, a frame is the image itself. */
  lemma SteadyFrame(images: seq<seq<real>>, masks: seq<seq<real>>, i: nat, j: nat)
    requires Uniform(images, masks)
    requires i < |images| && j < Seconds(i, |images|) * FPS && (i == 0 || j >= FPS)
    ensures FPS * i + j < |Video(images, masks)|
    ensures Video(images, masks)[FPS * i + j] == images[i]
  {
    ScheduleAt(|images|, i, j);
  }

  // ---------------------------------------------------------------------
  // The composing loop

  function Snapshot(images: seq<array<real>>): (r: seq<seq<real>>)
    reads set i | 0 <= i < |images| :: images[i]
    ensures |r| == |images|
    ensures forall i :: 0 <= i < |images| ==> r[i] == images[i][..]
  {
    seq(|images|, i requires 0 <= i < |images| reads set j | 0 <= j < |images| :: images[j] => images[i][..])
  }

  /** One fading frame, computed in the two work buffers as `main` does. */
  method FadeFrame(mask: array<real>, current: array<real>, previous: array<real>,
                   foreground: array<real>, background: array<real>) returns (written: seq<real>)
    requires mask.Length == current.Length == previous.Length == foreground.Length == background.Length
    requires foreground != background
    requires foreground !in {mask, current, previous} && background !in {mask, current, previous}
    modifies foreground, background
    ensures written == Blended(mask[..], current[..], previous[..])
    ensures background[..] == written
  {
    Multiply(mask, current, foreground);
    var inverse := OneMinus(mask);
    Multiply(inverse, previous, background);
    AddInPlace(background, foreground);
    written := background[..];
  }

  /** `RenderAll` distributes over concatenation. */
  lemma RenderAllAppend(a: seq<Step>, b: seq<Step>, images: seq<seq<real>>, masks: seq<seq<real>>)
    requires Uniform(images, masks)
    requires forall s :: s in a ==> StepFits(s, |images|)
    requires forall s :: s in b ==> StepFits(s, |images|)
    ensures RenderAll(a + b, images, masks) == RenderAll(a, images, masks) + RenderAll(b, images, masks)
  {
  }

  /** `RenderAll` over one more step of `steps` renders that step last. */
  lemma RenderAllSnoc(steps: seq<Step>, m: nat, images: seq<seq<real>>, masks: seq<seq<real>>)
    requires Uniform(images, masks) && m < |steps|
    requires forall s :: s in steps ==> StepFits(s, |images|)
    ensures RenderAll(steps[..m + 1], images, masks) == RenderAll(steps[..m], images, masks) + [Render(steps[m], images, masks)]
  {
    assert steps[..m + 1] == steps[..m] + [steps[m]];
  }

  /** Frame `k` of second `second` of image `i` shows the image, except during the fade of the first second. */
  lemma ImageStepAt(i: nat, n: nat, second: nat, k: nat)
    requires i < n && second < Seconds(i, n) && k < FPS
    ensures FPS * second + k < |ImageSteps(i, n)|
    ensures ImageSteps(i, n)[FPS * second + k] == if i == 0 || second > 0 then Verbatim(i) else Fade(i - 1, i, k)
    ensures StepFits(ImageSteps(i, n)[FPS * second + k], n)
  {
  }

  /**
   * Frame `k` of second `second` of image `i`: the image itself, or during
   * the first second of every image but the first, the fade through mask `k`.
   */
  method WriteFrame(i: nat, n: nat, second: nat, k: nat, frame: array<real>, previous: array?<real>, mask: array<real>,
                    foreground: array<real>, background: array<real>,
                    ghost images: seq<seq<real>>, ghost maskValues: seq<seq<real>>)
    returns (next: seq<real>)
    requires i < n == |images| && Uniform(images, maskValues)
    requires second < Seconds(i, n) && k < FPS
    requires frame[..] == images[i]
    requires previous == null <==> i == 0
    requires previous != null ==> previous[..] == images[i - 1]
    requires mask[..] == maskValues[k]
    requires foreground.Length == background.Length == frame.Length && foreground != background
    requires foreground != frame && background != frame && foreground != previous && background != previous
    requires mask != foreground && mask != background
    modifies foreground, background
    ensures FPS * second + k < |ImageSteps(i, n)| && StepFits(ImageSteps(i, n)[FPS * second + k], n)
    ensures next == Render(ImageSteps(i, n)[FPS * second + k], images, maskValues)
  {
    ImageStepAt(i, n, second, k);
    if previous == null || second > 0 {
      next := frame[..];
    } else {
      next := FadeFrame(mask, frame, previous, foreground, background);
    }
  }

  /**
   * The frames written for image `i` of `n` (the two inner loops of
   * `main`); `previous` is the image before it, or null for the first.
   */
  method WriteImage(i: nat, n: nat, frame: array<real>, previous: array?<real>, masks: seq<array<real>>,
                    foreground: array<real>, background: array<real>,
                    ghost images: seq<seq<real>>, ghost maskValues: seq<seq<real>>)
    returns (written: seq<seq<real>>)
    requires i < n == |images| && Uniform(images, maskValues)
    requires frame[..] == images[i]
    requires previous == null <==> i == 0
    requires previous != null ==> previous[..] == images[i - 1]
    requires |masks| == FPS && forall k :: 0 <= k < FPS ==> masks[k][..] == maskValues[k]
    requires foreground.Length == background.Length == frame.Length && foreground != background
    requires foreground != frame && background != frame && foreground != previous && background != previous
    requires forall k :: 0 <= k < FPS ==> masks[k] != foreground && masks[k] != background
    modifies foreground, background
    ensures forall s :: s in ImageSteps(i, n) ==> StepFits(s, n)
    ensures written == RenderAll(ImageSteps(i, n), images, maskValues)
  {
    ghost var steps := ImageSteps(i, n);
    var seconds := if i == n - 1 then HOLD else 1;
    written := [];
    for second := 0 to seconds
      invariant forall k :: 0 <= k < FPS ==> masks[k][..] == maskValues[k]
      invariant frame[..] == images[i] && (previous != null ==> previous[..] == images[i - 1])
      invariant written == RenderAll(steps[..FPS * second], images, maskValues)
    {
      for k := 0 to FPS
        invariant forall k :: 0 <= k < FPS ==> masks[k][..] == maskValues[k]
        invariant frame[..] == images[i] && (previous != null ==> previous[..] == images[i - 1])
        invariant written == RenderAll(steps[..FPS * second + k], images, maskValues)
      {
        var next := WriteFrame(i, n, second, k, frame, previous, masks[k], foreground, background, images, maskValues);
        RenderAllSnoc(steps, FPS * second + k, images, maskValues);
        written := written + [next];
      }
    }
    assert steps[..FPS * seconds] == steps;
  }

  /**
   * The video loop of `main`: writes `FPS` frames per second of the
   * schedule. An empty listing fails, as `fnames[0]` does.
   */
  method Compose(images: seq<array<real>>, height: nat, width: nat, dist: (int, int) -> real)
    returns (r: Result<seq<seq<real>>>)
    requires IsDistance(dist)
    requires forall i :: 0 <= i < |images| ==> images[i].Length == height * width * CHANNELS
    ensures r.Err? <==> images == []
    ensures r.Err? ==> r.error == EmptyListing
    ensures Uniform(Snapshot(images), Masks(height, width, dist))
    ensures r.Ok? ==> r.value == Video(Snapshot(images), Masks(height, width, dist))
  {
    ghost var frames := Snapshot(images);
    ghost var maskValues := Masks(height, width, dist);
    assert Uniform(frames, maskValues);
    var n := |images|;
    if n == 0 {
      return Err(EmptyListing);
    }
    var masks := CreateMasks(height, width, dist);
    var foreground := Copy(images[0]);
    var background := Copy(images[0]);
    var previous: array?<real> := null;
    var video: seq<seq<real>> := [];
    for i := 0 to n
      modifies foreground, background
      invariant forall t :: 0 <= t < n ==> images[t][..] == frames[t]
      invariant forall k :: 0 <= k < FPS ==> masks[k][..] == maskValues[k]
      invariant previous == if i == 0 then null else images[i - 1]
      invariant forall s :: s in ScheduleUpTo(i, n) ==> StepFits(s, n)
      invariant video == RenderAll(ScheduleUpTo(i, n), frames, maskValues)
    {
      var written := WriteImage(i, n, images[i], previous, masks, foreground, background, frames, maskValues);
      RenderAllAppend(ScheduleUpTo(i, n), ImageSteps(i, n), frames, maskValues);
      video := video + written;
      previous := images[i];
    }
    return Ok(video);
  }

  /** The annotated images in the order of `names`, with `files` giving each file's frame. */
  function Frames(names: seq<string>, files: map<string, array<real>>): (images: seq<array<real>>)
    requires forall f :: f in names ==> f in files
    ensures |images| == |names|
    ensures forall k :: 0 <= k < |names| ==> images[k] == files[names[k]]
  {
    seq(|names|, k requires 0 <= k < |names| => files[names[k]])
  }

  /**
   * The composer stage on the annotated directory's `listing`: the listing
   * fails on a PNG name without an ordinal, an empty one fails at
   * `fnames[0]`, and otherwise the video shows the images in listing order.
   */
  method ComposeStage(listing: seq<string>, files: map<string, array<real>>, height: nat, width: nat,
                      dist: (int, int) -> real)
    returns (r: Result<seq<seq<real>>>)
    requires IsDistance(dist)
    requires forall f :: f in listing ==> f in files && files[f].Length == height * width * CHANNELS
    ensures Utils.ListImages(listing).Err? ==> r == Err(Utils.ListImages(listing).error)
    ensures Utils.ListImages(listing) == Ok([]) ==> r == Err(EmptyListing)
    ensures Utils.ListImages(listing).Ok? && Utils.ListImages(listing).value != [] ==>
      var images := Frames(Utils.ListImages(listing).value, files);
      Uniform(Snapshot(images), Masks(height, width, dist)) &&
      r == Ok(Video(Snapshot(images), Masks(height, width, dist)))
  {
    var listed := Utils.ListImages(listing);
    if listed.Err? {
      return Err(listed.error);
    }
    assert forall f :: f in listed.value ==> f in listing;
    var images := Frames(listed.value, files);
    r := Compose(images, height, width, dist);
  }
}
