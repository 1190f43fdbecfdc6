/** GrabCut refinement (grabcut_refine.py): a four-code trimap is built from
    the mask, handed to GrabCut, collapsed back to a 0/255 mask and
    post-processed again. GrabCut itself is a parameter. */
module GrabCutRefine {
  import opened Grids
  import opened Morphology
  import opened PostProcess
  import opened ImageUtils

  /** OpenCV's GrabCut mask codes. */
  const Bgd: int := 0
  const Fgd: int := 1
  const PrBgd: int := 2
  const PrFgd: int := 3

  /** Default iteration count of `refine_with_grabcut`. */
  const DefaultIterCount: int := 5

  /** `cv2.grabCut` in `GC_INIT_WITH_MASK` mode on a mask it accepts: from
      the image, the trimap and the iteration count, the code it leaves in
      each cell. */
  type GrabCut = (Image, seq<seq<int>>, int) -> (Cell -> int)

  /** The mask eroded twice by 3x3: certainly foreground. */
  function SureFg(h: nat, w: nat, mask: set<Cell>): set<Cell> {
    ErodeN(h, w, mask, 2)
  }

  /** The complement eroded twice by 3x3: certainly background. */
  function SureBg(h: nat, w: nat, mask: set<Cell>): set<Cell> {
    ErodeN(h, w, Domain(h, w) - mask, 2)
  }

  /** The code the four masked assignments leave in a cell: the last write
      that covers it wins. */
  function TrimapCode(h: nat, w: nat, mask: set<Cell>, p: Cell): int {
    if p in SureBg(h, w, mask) then Bgd
    else if p in SureFg(h, w, mask) then Fgd
    else if p in mask then PrFgd
    else PrBgd
  }

  function TrimapGrid(h: nat, w: nat, mask: set<Cell>): seq<seq<int>> {
    Tabulate(h, w, p => TrimapCode(h, w, mask, p))
  }

  /** Lines 13-16: fill with `GC_PR_BGD`, then overwrite the mask cells,
      the sure-foreground cells and the sure-background cells, in that order. */
  method BuildTrimap(h: nat, w: nat, mask: set<Cell>) returns (gc: array2<int>)
    requires mask <= Domain(h, w)
    ensures fresh(gc) && gc.Length0 == h && gc.Length1 == w
    ensures forall y, x | 0 <= y < h && 0 <= x < w :: gc[y, x] == TrimapCode(h, w, mask, (y, x))
  {
    var sureFg := ErodeN(h, w, mask, 2);
    var sureBg := ErodeN(h, w, Domain(h, w) - mask, 2);
    gc := new int[h, w]((y, x) => PrBgd);
    forall y, x | 0 <= y < h && 0 <= x < w && (y, x) in mask {
      gc[y, x] := PrFgd;
    }
    forall y, x | 0 <= y < h && 0 <= x < w && (y, x) in sureFg {
      gc[y, x] := Fgd;
    }
    forall y, x | 0 <= y < h && 0 <= x < w && (y, x) in sureBg {
      gc[y, x] := Bgd;
    }
  }

  /** Every cell holds one of the four codes; a cell is a mask pixel exactly
      when its code is `GC_FGD` or `GC_PR_FGD`, so a `GC_FGD` cell is always
      a mask pixel and a `GC_BGD` cell never is. */
  lemma TrimapSpec(h: nat, w: nat, mask: set<Cell>, p: Cell)
    requires mask <= Domain(h, w) && InBounds(h, w, p)
    ensures var c := TrimapCode(h, w, mask, p);
      (c == Bgd || c == Fgd || c == PrBgd || c == PrFgd) &&
      (p in mask <==> c == Fgd || c == PrFgd) &&
      (p in SureFg(h, w, mask) <==> c == Fgd) &&
      (p in SureBg(h, w, mask) <==> c == Bgd)
  {
    ErodeNShrinks(h, w, mask, 2);
    ErodeNShrinks(h, w, Domain(h, w) - mask, 2);
  }

  /** `np.where((gc == GC_FGD) | (gc == GC_PR_FGD), 255, 0)`. */
  function Collapse(codes: seq<seq<int>>): (m: seq<seq<Byte>>)
    requires IsRect(codes)
    ensures HasShape(m, |codes|, Width(codes)) && IsBinaryU8(m)
  {
    ToU8(|codes|, Width(codes), set y, x | 0 <= y < |codes| && 0 <= x < Width(codes) &&
      (codes[y][x] == Fgd || codes[y][x] == PrFgd) :: (y, x))
  }

  /** The collapsed mask is foreground exactly where the code is `GC_FGD`
      or `GC_PR_FGD`. */
  lemma CollapseSpec(codes: seq<seq<int>>)
    requires IsRect(codes)
    ensures forall y, x | 0 <= y < |codes| && 0 <= x < Width(codes) ::
      ((y, x) in Binarize(Collapse(codes)) <==> codes[y][x] == Fgd || codes[y][x] == PrFgd)
  {
    var s := set y, x | 0 <= y < |codes| && 0 <= x < Width(codes) &&
      (codes[y][x] == Fgd || codes[y][x] == PrFgd) :: (y, x);
    BinarizeToU8(|codes|, Width(codes), s);
  }

  /** Collapsing the trimap that GrabCut left untouched gives back the mask. */
  lemma CollapseTrimap(h: nat, w: nat, mask: set<Cell>)
    requires mask <= Domain(h, w)
    ensures IsRect(TrimapGrid(h, w, mask))
    ensures Binarize(Collapse(TrimapGrid(h, w, mask))) == mask
  {
    var g := TrimapGrid(h, w, mask);
    assert h > 0 ==> Width(g) == w;
    CollapseSpec(g);
    forall p | p in Domain(h, w) ensures p in Binarize(Collapse(g)) <==> p in mask {
      TrimapSpec(h, w, mask, p);
    }
  }

  /** GrabCut keeps the hard labels: a `GC_FGD` or `GC_BGD` cell keeps its code. */
  predicate KeepsHardLabels(h: nat, w: nat, mask: set<Cell>, out: Cell -> int) {
    forall y, x | 0 <= y < h && 0 <= x < w ::
      (TrimapCode(h, w, mask, (y, x)) == Fgd ==> out((y, x)) == Fgd) &&
      (TrimapCode(h, w, mask, (y, x)) == Bgd ==> out((y, x)) == Bgd)
  }

  /** When GrabCut keeps the hard labels, the collapsed mask contains the
      sure foreground and avoids the sure background. */
  lemma CollapseKeepsSureRegions(h: nat, w: nat, mask: set<Cell>, out: Cell -> int)
    requires mask <= Domain(h, w) && KeepsHardLabels(h, w, mask, out)
    ensures var g := Tabulate(h, w, out);
      IsRect(g) &&
      SureFg(h, w, mask) <= Binarize(Collapse(g)) &&
      SureBg(h, w, mask) !! Binarize(Collapse(g))
  {
    var g := Tabulate(h, w, out);
    assert h > 0 ==> Width(g) == w;
    CollapseSpec(g);
    ErodeNShrinks(h, w, mask, 2);
    ErodeNShrinks(h, w, Domain(h, w) - mask, 2);
    forall p | p in SureFg(h, w, mask) ensures p in Binarize(Collapse(g)) {
      TrimapSpec(h, w, mask, p);
    }
    forall p | p in SureBg(h, w, mask) ensures p !in Binarize(Collapse(g)) {
      TrimapSpec(h, w, mask, p);
    }
  }

  /** `cv2.grabCut` seeds its colour models from the mask: it rejects a
      mask without a background-class cell (`GC_BGD` or `GC_PR_BGD`) or
      without a foreground-class cell (`GC_FGD` or `GC_PR_FGD`). */
  predicate HasBothClasses(codes: seq<seq<int>>) {
    (exists y, x | 0 <= y < |codes| && 0 <= x < |codes[y]| :: codes[y][x] == Bgd || codes[y][x] == PrBgd) &&
    (exists y, x | 0 <= y < |codes| && 0 <= x < |codes[y]| :: codes[y][x] == Fgd || codes[y][x] == PrFgd)
  }

  /** The trimap cell of a pixel is foreground-class exactly when the pixel
      is a mask pixel, and background-class otherwise. */
  lemma TrimapCell(h: nat, w: nat, mask: set<Cell>, y: int, x: int)
    requires mask <= Domain(h, w) && 0 <= y < h && 0 <= x < w
    ensures var g := TrimapGrid(h, w, mask);
      |g| == h && |g[y]| == w &&
      ((y, x) in mask <==> g[y][x] == Fgd || g[y][x] == PrFgd) &&
      ((y, x) !in mask <==> g[y][x] == Bgd || g[y][x] == PrBgd)
  {
    TrimapSpec(h, w, mask, (y, x));
  }

  /** GrabCut accepts the trimap exactly when the mask is neither empty nor
      the whole image. */
  lemma TrimapAccepted(h: nat, w: nat, mask: set<Cell>)
    requires mask <= Domain(h, w)
    ensures HasBothClasses(TrimapGrid(h, w, mask)) <==> mask != {} && mask != Domain(h, w)
  {
    if mask != {} && mask != Domain(h, w) {
      var p :| p in mask;
      var q := Outside(mask, Domain(h, w));
      BothClassesFrom(h, w, mask, p, q);
    }
    if HasBothClasses(TrimapGrid(h, w, mask)) {
      MaskSplitFrom(h, w, mask);
    }
  }

  /** A proper subset misses some element of the whole. */
  lemma Outside(a: set<Cell>, b: set<Cell>) returns (q: Cell)
    requires a <= b && a != b
    ensures q in b - a
  {
    assert !(b <= a);
    q :| q in b && q !in a;
  }

  lemma BothClassesFrom(h: nat, w: nat, mask: set<Cell>, p: Cell, q: Cell)
    requires mask <= Domain(h, w) && p in mask && q in Domain(h, w) - mask
    ensures HasBothClasses(TrimapGrid(h, w, mask))
  {
    var g := TrimapGrid(h, w, mask);
    TrimapCell(h, w, mask, p.0, p.1);
    TrimapCell(h, w, mask, q.0, q.1);
    assert 0 <= q.0 < |g| && 0 <= q.1 < |g[q.0]| && (g[q.0][q.1] == Bgd || g[q.0][q.1] == PrBgd);
    assert 0 <= p.0 < |g| && 0 <= p.1 < |g[p.0]| && (g[p.0][p.1] == Fgd || g[p.0][p.1] == PrFgd);
  }

  lemma MaskSplitFrom(h: nat, w: nat, mask: set<Cell>)
    requires mask <= Domain(h, w) && HasBothClasses(TrimapGrid(h, w, mask))
    ensures mask != {} && mask != Domain(h, w)
  {
    var g := TrimapGrid(h, w, mask);
    var y, x :| 0 <= y < |g| && 0 <= x < |g[y]| && (g[y][x] == Fgd || g[y][x] == PrFgd);
    TrimapCell(h, w, mask, y, x);
    assert (y, x) in mask;
    var y', x' :| 0 <= y' < |g| && 0 <= x' < |g[y']| && (g[y'][x'] == Bgd || g[y'][x'] == PrBgd);
    TrimapCell(h, w, mask, y', x');
    assert (y', x') in Domain(h, w) && (y', x') !in mask;
  }

  /** What `refine_with_grabcut` returns: binarise, build the trimap, let
      GrabCut rewrite it (or reject it), collapse, post-process. */
  function Refined(img: Image, maskU8: seq<seq<Byte>>, iterCount: int, minHole: int, minObj: int,
                   rule: HoleRule, grabCut: GrabCut): (r: Result<seq<seq<Byte>>>)
    requires IsRect(maskU8)
    ensures r.Ok? ==> HasShape(r.value, |maskU8|, Width(maskU8)) && IsBinaryU8(r.value)
    ensures r.Err? ==> r.error == GrabCutNoSamples
  {
    var h, w := |maskU8|, Width(maskU8);
    var trimap := TrimapGrid(h, w, Binarize(maskU8));
    if !HasBothClasses(trimap) then Err(GrabCutNoSamples)
    else
      var g := Tabulate(h, w, grabCut(img, trimap, iterCount));
      assert h > 0 ==> Width(g) == w;
      Ok(Postprocess(Collapse(g), minHole, minObj, rule))
  }

  /** Refinement fails, as GrabCut rejects the trimap, exactly when the mask
      is empty or covers the whole image. Otherwise the refined mask is a
      0/255 mask of the input's shape, and it is the post-processed collapse
      of GrabCut's codes: the cleaned collapse itself, or one 8-connected
      component of it. */
  lemma RefinedOutcome(img: Image, maskU8: seq<seq<Byte>>, iterCount: int, minHole: int, minObj: int,
                       rule: HoleRule, grabCut: GrabCut)
    requires IsRect(maskU8)
    ensures var h, w := |maskU8|, Width(maskU8);
      var r := Refined(img, maskU8, iterCount, minHole, minObj, rule, grabCut);
      (r.Ok? <==> Binarize(maskU8) != {} && Binarize(maskU8) != Domain(h, w)) &&
      (r.Err? ==> r.error == GrabCutNoSamples) &&
      (r.Ok? ==>
        var c := Collapse(Tabulate(h, w, grabCut(img, TrimapGrid(h, w, Binarize(maskU8)), iterCount)));
        var f := Binarize(FillSmallHoles(MorphOpenClose(c), minHole, rule));
        IsRect(c) && HasShape(r.value, h, w) && IsBinaryU8(r.value) && Binarize(r.value) <= f &&
        (Binarize(r.value) == f || exists p :: KeptLargest(f, MinArea(minObj), p, Binarize(r.value))))
  {
    var h, w := |maskU8|, Width(maskU8);
    TrimapAccepted(h, w, Binarize(maskU8));
    var g := Tabulate(h, w, grabCut(img, TrimapGrid(h, w, Binarize(maskU8)), iterCount));
    assert h > 0 ==> Width(g) == w;
    PostprocessOutcome(Collapse(g), minHole, minObj, rule);
  }

  /** Refinement fails exactly when the mask is empty or covers the whole
      image, and then with `GrabCutNoSamples`. */
  lemma RefinedFails(img: Image, maskU8: seq<seq<Byte>>, iterCount: int, minHole: int, minObj: int,
                     rule: HoleRule, grabCut: GrabCut)
    requires IsRect(maskU8)
    ensures var r := Refined(img, maskU8, iterCount, minHole, minObj, rule, grabCut);
      (r.Err? <==> Binarize(maskU8) == {} || Binarize(maskU8) == Domain(|maskU8|, Width(maskU8))) &&
      (r.Err? ==> r.error == GrabCutNoSamples)
  {
    TrimapAccepted(|maskU8|, Width(maskU8), Binarize(maskU8));
  }

  /** A mask that covers the whole image is rejected: every trimap cell is
      foreground-class. */
  lemma RefinedFullMask(img: Image, h: nat, w: nat, iterCount: int, minHole: int, minObj: int,
                        rule: HoleRule, grabCut: GrabCut)
    ensures IsRect(ToU8(h, w, Domain(h, w)))
    ensures Refined(img, ToU8(h, w, Domain(h, w)), iterCount, minHole, minObj, rule, grabCut) == Err(GrabCutNoSamples)
  {
    BinarizeToU8(h, w, Domain(h, w));
    TrimapAccepted(h, w, Domain(h, w));
  }

  /** `refine_with_grabcut`: the trimap is built in place, GrabCut rejects it
      or overwrites it in place, and the collapse is post-processed. */
  method RefineWithGrabCut(img: Image, maskU8: seq<seq<Byte>>, iterCount: int, minHole: int, minObj: int,
                           rule: HoleRule, grabCut: GrabCut) returns (refined: Result<seq<seq<Byte>>>)
    requires IsRect(maskU8)
    ensures refined == Refined(img, maskU8, iterCount, minHole, minObj, rule, grabCut)
    ensures refined.Ok? ==> HasShape(refined.value, |maskU8|, Width(maskU8)) && IsBinaryU8(refined.value)
  {
    var h, w := |maskU8|, Width(maskU8);
    var mask := Binarize(maskU8);
    var gc := BuildTrimap(h, w, mask);
    assert Snapshot(gc) == TrimapGrid(h, w, mask) by {
      var s, t := Snapshot(gc), TrimapGrid(h, w, mask);
      forall y | 0 <= y < h ensures s[y] == t[y] { }
    }
    if !HasBothClasses(Snapshot(gc)) {
      return Err(GrabCutNoSamples);
    }
    var out := grabCut(img, Snapshot(gc), iterCount);
    forall y, x | 0 <= y < h && 0 <= x < w {
      gc[y, x] := out((y, x));
    }
    var codes := Snapshot(gc);
    assert codes == Tabulate(h, w, out) by {
      var t := Tabulate(h, w, out);
      forall y | 0 <= y < h ensures codes[y] == t[y] { }
    }
    assert h > 0 ==> Width(codes) == w;
    refined := Ok(Postprocess(Collapse(codes), minHole, minObj, rule));
  }
}
