/** Pixel utilities (utils.py): channel normalisation and reversal, white
    compositing, RGBA assembly and the output size of the aspect-preserving
    downscale. */
module ImageUtils {
  import opened Grids

  /** A 3-channel pixel in storage order: channel 0, 1, 2. */
  datatype Px = Px(c0: Byte, c1: Byte, c2: Byte)

  /** A 4-channel pixel in storage order. */
  datatype Px4 = Px4(c0: Byte, c1: Byte, c2: Byte, c3: Byte)

  type Image = seq<seq<Px>>

  /** An array as `rgb_to_bgr` may receive it: 2-D (gray), or 3-D with
      `depth` channels per pixel. */
  datatype NdImage = Plane(g: seq<seq<Byte>>) | Stacked(px: seq<seq<seq<Byte>>>, depth: nat)

  predicate WellFormed(img: NdImage) {
    match img
    case Plane(g) => IsRect(g)
    case Stacked(px, d) =>
      IsRect(px) && forall y, x | 0 <= y < |px| && 0 <= x < Width(px) :: |px[y][x]| == d
  }

  datatype ImageError =
    | EmptyInput            // `None` passed in: ValueError
    | EmptyImage            // no pixels: cvtColor rejects an empty array
    | BadChannels(depth: nat)  // cvtColor RGB2BGR accepts 3 or 4 channels only
    | GrabCutNoSamples      // grabCut found no foreground or no background cell in its mask
    | KmeansNoSamples       // kmeans asserts K > 0 and at least K samples
    | LabelsReshape(labels: nat, pixels: nat)  // reshape of that many labels to that many pixels: ValueError

  datatype Result<T> = Ok(value: T) | Err(error: ImageError)

  // ---------- channel order ----------

  /** `cvtColor` with `COLOR_BGR2RGB` (the same swap as `COLOR_RGB2BGR`):
      channels 0 and 2 change places. */
  function ToRgb(img: Image): (r: Image)
    ensures |r| == |img| && forall y | 0 <= y < |img| :: |r[y]| == |img[y]|
  {
    seq(|img|, y requires 0 <= y < |img| =>
      seq(|img[y]|, x requires 0 <= x < |img[y]| =>
        Px(img[y][x].c2, img[y][x].c1, img[y][x].c0)))
  }

  /** Swapping the outer channels twice gives the image back. */
  lemma ToRgbInvolution(img: Image)
    ensures ToRgb(ToRgb(img)) == img
  {
    var r := ToRgb(ToRgb(img));
    forall y | 0 <= y < |img| ensures r[y] == img[y] {
      assert forall x | 0 <= x < |img[y]| :: r[y][x] == img[y][x];
    }
  }

  /** Lines 15-18 of the channel normaliser: a 2-D array becomes three equal
      channels, an RGBA array loses its alpha; cvtColor then accepts only
      three channels. */
  function AsThreeChannels(img: NdImage): (r: Result<Image>)
    requires WellFormed(img)
  {
    match img
    case Plane(g) =>
      Ok(seq(|g|, y requires 0 <= y < |g| =>
        seq(|g[y]|, x requires 0 <= x < |g[y]| => Px(g[y][x], g[y][x], g[y][x]))))
    case Stacked(px, d) =>
      if d == 3 || d == 4 then
        Ok(seq(|px|, y requires 0 <= y < |px| =>
          seq(Width(px), x requires 0 <= x < Width(px) => Px(px[y][x][0], px[y][x][1], px[y][x][2]))))
      else Err(BadChannels(d))
  }

  function PixelCount(img: NdImage): nat {
    match img
    case Plane(g) => |g| * Width(g)
    case Stacked(px, _) => |px| * Width(px)
  }

  /** `rgb_to_bgr`: reject a missing image, normalise the channels, then
      reverse their order. */
  function RgbToBgr(img: Option<NdImage>): (r: Result<Image>)
    requires img.Some? ==> WellFormed(img.value)
    ensures img.None? <==> r == Err(EmptyInput)
    ensures r.Ok? ==> IsRect(r.value) && |r.value| > 0 && Width(r.value) > 0
  {
    match img
    case None => Err(EmptyInput)
    case Some(i) =>
      if PixelCount(i) == 0 then Err(EmptyImage)
      else
        match AsThreeChannels(i)
        case Err(e) => Err(e)
        case Ok(rgb) => Ok(ToRgb(rgb))
  }

  datatype Option<T> = None | Some(value: T)

  /** A gray image comes back with three equal channels. */
  lemma RgbToBgrGray(g: seq<seq<Byte>>)
    requires IsRect(g) && |g| > 0 && Width(g) > 0
    ensures var r := RgbToBgr(Some(Plane(g)));
      r.Ok? && HasShape(r.value, |g|, Width(g)) &&
      forall y, x | 0 <= y < |g| && 0 <= x < Width(g) :: r.value[y][x] == Px(g[y][x], g[y][x], g[y][x])
  {
  }

  /** A 3- or 4-channel image (r, g, b[, a]) comes back as (b, g, r): the
      alpha channel is dropped and the colour channels reversed. */
  lemma RgbToBgrPixels(px: seq<seq<seq<Byte>>>, d: nat)
    requires WellFormed(Stacked(px, d)) && (d == 3 || d == 4) && |px| > 0 && Width(px) > 0
    ensures var r := RgbToBgr(Some(Stacked(px, d)));
      r.Ok? && HasShape(r.value, |px|, Width(px)) &&
      forall y, x | 0 <= y < |px| && 0 <= x < Width(px) ::
        r.value[y][x] == Px(px[y][x][2], px[y][x][1], px[y][x][0])
  {
  }

  /** Any other channel count is rejected, as cvtColor rejects it. */
  lemma RgbToBgrBadDepth(px: seq<seq<seq<Byte>>>, d: nat)
    requires WellFormed(Stacked(px, d)) && d != 3 && d != 4 && |px| > 0 && Width(px) > 0
    ensures RgbToBgr(Some(Stacked(px, d))) == Err(BadChannels(d))
  {
  }

  /** `to_rgb` undoes `rgb_to_bgr` on a 3-channel image. */
  lemma ToRgbUndoesRgbToBgr(px: seq<seq<seq<Byte>>>)
    requires WellFormed(Stacked(px, 3)) && |px| > 0 && Width(px) > 0
    ensures var r := RgbToBgr(Some(Stacked(px, 3)));
      r.Ok? && HasShape(ToRgb(r.value), |px|, Width(px)) &&
      forall y, x | 0 <= y < |px| && 0 <= x < Width(px) ::
        ToRgb(r.value)[y][x] == Px(px[y][x][0], px[y][x][1], px[y][x][2])
  {
    var rgb := AsThreeChannels(Stacked(px, 3)).value;
    ToRgbInvolution(rgb);
  }

  // ---------- compositing ----------

  predicate SameShape(img: Image, mask: seq<seq<Byte>>) {
    IsRect(img) && HasShape(mask, |img|, Width(img))
  }

  const White := Px(255, 255, 255)

  /** `compose_on_white`: the image where the mask is above 127, white elsewhere. */
  function ComposeOnWhite(img: Image, mask: seq<seq<Byte>>): (r: Image)
    requires SameShape(img, mask)
    ensures HasShape(r, |img|, Width(img))
  {
    var h, w := |img|, Width(img);
    seq(h, y requires 0 <= y < h => seq(w, x requires 0 <= x < w =>
      if mask[y][x] > 127 then img[y][x] else White))
  }

  /** The composite keeps exactly the foreground pixels of the binarised mask
      and paints every other pixel white. */
  lemma ComposeOnWhiteSpec(img: Image, mask: seq<seq<Byte>>)
    requires SameShape(img, mask)
    ensures var r := ComposeOnWhite(img, mask);
      forall p | p in Domain(|img|, Width(img)) ::
        r[p.0][p.1] == if p in Binarize(mask) then img[p.0][p.1] else White
  {
    var h, w := |img|, Width(img);
    assert h > 0 ==> Width(mask) == w;
  }

  /** Compositing again on the same mask changes nothing. */
  lemma ComposeOnWhiteIdempotent(img: Image, mask: seq<seq<Byte>>)
    requires SameShape(img, mask)
    ensures SameShape(ComposeOnWhite(img, mask), mask)
    ensures ComposeOnWhite(ComposeOnWhite(img, mask), mask) == ComposeOnWhite(img, mask)
  {
    var c := ComposeOnWhite(img, mask);
    assert |img| > 0 ==> Width(c) == Width(img);
    var cc := ComposeOnWhite(c, mask);
    forall y | 0 <= y < |img| ensures cc[y] == c[y] {
      forall x | 0 <= x < Width(img) ensures cc[y][x] == c[y][x] {
      }
    }
  }

  /** `bgr_to_rgba_pil` channel layout: split (b, g, r), merge (r, g, b, mask). */
  function BgrToRgba(img: Image, mask: seq<seq<Byte>>): (r: seq<seq<Px4>>)
    requires SameShape(img, mask)
    ensures HasShape(r, |img|, Width(img))
  {
    var h, w := |img|, Width(img);
    seq(h, y requires 0 <= y < h => seq(w, x requires 0 <= x < w =>
      Px4(img[y][x].c2, img[y][x].c1, img[y][x].c0, mask[y][x])))
  }

  /** The colour part of the RGBA image is the RGB image and its alpha is
      the mask value unchanged. */
  lemma BgrToRgbaSpec(img: Image, mask: seq<seq<Byte>>)
    requires SameShape(img, mask)
    ensures var r := BgrToRgba(img, mask);
      forall y, x | 0 <= y < |img| && 0 <= x < Width(img) ::
        Px(r[y][x].c0, r[y][x].c1, r[y][x].c2) == ToRgb(img)[y][x] && r[y][x].c3 == mask[y][x]
  {
  }

  // ---------- downscale_keep_aspect ----------

  /** The target (height, width) handed to cv2.resize, as written:
      `int(w * scale)` and `int(h * scale)` with `scale = max_side / max(h, w)`,
      computed exactly. */
  function DownscaleSizeAsWritten(h: nat, w: nat, maxSide: nat): (int, int) {
    var m := Max(h, w);
    if m <= maxSide then (h, w) else (h * maxSide / m, w * maxSide / m)
  }

  /** A 1-by-2000 image with `max_side` 1600 asks for height 0. */
  lemma DownscaleZeroSide()
    ensures DownscaleSizeAsWritten(1, 2000, 1600) == (0, 1600)
  {
  }

  /** The target size with each side kept at least 1. */
  function DownscaleSize(h: nat, w: nat, maxSide: nat): (r: (nat, nat))
    ensures r.0 >= 1 && r.1 >= 1
  {
    var m := Max(h, w);
    if m <= maxSide then (Max(h, 1), Max(w, 1)) else (Max(h * maxSide / m, 1), Max(w * maxSide / m, 1))
  }

  /** An image that fits keeps its size; one that does not gets its long
      side equal to max_side, and each side is the floor of its scaled
      length whenever that is at least 1. */
  lemma DownscaleSizeSpec(h: nat, w: nat, maxSide: nat)
    requires h >= 1 && w >= 1
    ensures var m, r := Max(h, w), DownscaleSize(h, w, maxSide);
      (m <= maxSide ==> r == (h, w)) &&
      (m > maxSide && maxSide >= 1 ==>
        r.0 <= maxSide && r.1 <= maxSide && (r.0 == maxSide || r.1 == maxSide) &&
        (h * maxSide >= m ==> r.0 * m <= h * maxSide < (r.0 + 1) * m) &&
        (w * maxSide >= m ==> r.1 * m <= w * maxSide < (r.1 + 1) * m))
  {
    var m := Max(h, w);
    if m > maxSide && maxSide >= 1 {
      var qh, qw := h * maxSide / m, w * maxSide / m;
      DivBounds(h, maxSide, m);
      DivBounds(w, maxSide, m);
      FloorAtLeastOne(h, maxSide, m);
      FloorAtLeastOne(w, maxSide, m);
      assert qh == maxSide || qw == maxSide by {
        DivExact(m, maxSide);
      }
    }
  }

  lemma DivExact(m: nat, s: nat)
    requires m >= 1
    ensures m * s / m == s
  {
    var q := m * s / m;
    assert q * m + m * s % m == m * s;
    MulCancel(q, s, m);
    MulStrict(s, q + 1, m);
  }

  lemma MulStrict(a: int, b: int, m: int)
    requires m >= 1 && a * m < b * m
    ensures a < b
  {
  }

  /** The floor is at least 1 exactly when the scaled length is at least m. */
  lemma FloorAtLeastOne(a: nat, s: nat, m: nat)
    requires m >= 1
    ensures a * s >= m <==> a * s / m >= 1
  {
  }

  /** Floor division of a side scaled by s / m, for a side at most m. */
  lemma DivBounds(a: nat, s: nat, m: nat)
    requires 1 <= a <= m
    ensures a * s / m <= s
    ensures (a * s / m) * m <= a * s < (a * s / m + 1) * m
  {
    var q := a * s / m;
    assert q * m + a * s % m == a * s;
    MulMono(a, m, s);
    MulCancel(q, s, m);
  }

  lemma MulCancel(q: int, s: int, m: int)
    requires m >= 1 && q * m <= s * m
    ensures q <= s
  {
  }

  /** `downscale_keep_aspect`: the image unchanged with scale 1.0 when it
      fits, otherwise the resized image (`resize` stands for cv2.resize with
      INTER_AREA) and the scale factor. */
  function Downscale(img: Image, maxSide: nat, resize: (Image, nat, nat) -> (Cell -> Px)): (r: (Image, real))
    requires IsRect(img) && |img| >= 1 && Width(img) >= 1
    ensures var m := Max(|img|, Width(img));
      (m <= maxSide ==> r == (img, 1.0)) &&
      (m > maxSide ==>
        r.1 == maxSide as real / m as real && r.1 < 1.0 &&
        HasShape(r.0, DownscaleSize(|img|, Width(img), maxSide).0, DownscaleSize(|img|, Width(img), maxSide).1))
  {
    var h, w := |img|, Width(img);
    var m := Max(h, w);
    if m <= maxSide then (img, 1.0)
    else
      var size := DownscaleSize(h, w, maxSide);
      (Tabulate(size.0, size.1, resize(img, size.0, size.1)), maxSide as real / m as real)
  }
}
