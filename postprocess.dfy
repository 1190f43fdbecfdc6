/** The mask post-processor (postprocess.py): opening and closing, small-hole
    filling and keeping the largest 8-connected component. Every stage takes a
    mask in 0/255 form, binarises it at > 127 and returns a fresh 0/255 mask
    of the same shape. */
module PostProcess {
  import opened Grids
  import opened Morphology
  import opened Components

  // ---------- morph_open_close ----------

  /** Binarise, open once, then close with two iterations (3x3 kernel). */
  function MorphOpenClose(m: seq<seq<Byte>>): (r: seq<seq<Byte>>)
    requires IsRect(m)
    ensures HasShape(r, |m|, Width(m)) && IsBinaryU8(r)
  {
    var h, w := |m|, Width(m);
    ToU8(h, w, Close(h, w, Open(h, w, Binarize(m)), 2))
  }

  lemma DilateMonotone(h: nat, w: nat, a: set<Cell>, b: set<Cell>)
    requires a <= b
    ensures Dilate(h, w, a) <= Dilate(h, w, b)
  {
    forall p | p in Dilate(h, w, a) ensures p in Dilate(h, w, b) {
      DilateAt(h, w, a, p);
      DilateAt(h, w, b, p);
    }
  }

  lemma {:induction false} CloseMonotone(h: nat, w: nat, a: set<Cell>, b: set<Cell>, n: nat)
    requires a <= b
    ensures Close(h, w, a, n) <= Close(h, w, b, n)
  {
    DilateNMonotone(h, w, a, b, n);
    ErodeNMonotone(h, w, DilateN(h, w, a, n), DilateN(h, w, b, n), n);
  }

  lemma {:induction false} DilateNMonotone(h: nat, w: nat, a: set<Cell>, b: set<Cell>, n: nat)
    requires a <= b
    ensures DilateN(h, w, a, n) <= DilateN(h, w, b, n)
  {
    if n > 0 {
      var da, db := DilateN(h, w, a, n - 1), DilateN(h, w, b, n - 1);
      DilateNMonotone(h, w, a, b, n - 1);
      DilateMonotone(h, w, da, db);
      assert DilateN(h, w, a, n) == Dilate(h, w, da);
      assert DilateN(h, w, b, n) == Dilate(h, w, db);
    }
  }

  /** The result keeps every pixel the opening of the input keeps, and adds
      none that the closing of the input would not add. */
  lemma MorphOpenCloseBounds(m: seq<seq<Byte>>)
    requires IsRect(m)
    ensures var h, w, b := |m|, Width(m), Binarize(m);
      var r := MorphOpenClose(m);
      IsRect(r) && Open(h, w, b) <= Binarize(r) <= Close(h, w, b, 2)
  {
    var h, w, b := |m|, Width(m), Binarize(m);
    var o := Open(h, w, b);
    var c := Close(h, w, o, 2);
    assert o <= Domain(h, w);
    CloseGrows(h, w, o, 2);
    assert o * Domain(h, w) == o;
    OpenShrinks(h, w, b);
    CloseMonotone(h, w, o, b, 2);
    assert c <= Domain(h, w);
    BinarizeToU8(h, w, c);
  }

  // ---------- fill_small_holes ----------

  /** How `skimage.morphology.remove_small_holes` picks the background regions
      it fills: the connectivity of the background, whether a region must be
      strictly smaller than the threshold (`<`) or at most it (`<=`), and
      whether regions touching the image frame are filled too. */
  datatype HoleRule = HoleRule(conn: Connectivity, strictBelow: bool, fillFrameTouching: bool)

  /** A background region small enough, and placed right, to be filled. */
  predicate SmallHole(rule: HoleRule, h: nat, w: nat, c: set<Cell>, minHole: int) {
    (if rule.strictBelow then |c| < minHole else |c| <= minHole) &&
    (rule.fillFrameTouching || forall q | q in c :: !OnFrame(h, w, q))
  }

  /** The background region of p counts as a small hole. */
  predicate IsHole(rule: HoleRule, h: nat, w: nat, bg: set<Cell>, minHole: int, p: Cell)
    requires p in bg
  {
    SmallHole(rule, h, w, Component(rule.conn, bg, p), minHole)
  }

  function Filled(rule: HoleRule, h: nat, w: nat, fg: set<Cell>, minHole: int): set<Cell> {
    var bg := Domain(h, w) - fg;
    fg + set p | p in bg && IsHole(rule, h, w, bg, minHole, p)
  }

  /** Binarise, and with a positive threshold fill the small holes. */
  function FillSmallHoles(m: seq<seq<Byte>>, minHole: int, rule: HoleRule): (r: seq<seq<Byte>>)
    requires IsRect(m)
    ensures HasShape(r, |m|, Width(m)) && IsBinaryU8(r)
  {
    var h, w, fg := |m|, Width(m), Binarize(m);
    if minHole > 0 then ToU8(h, w, Filled(rule, h, w, fg, minHole)) else ToU8(h, w, fg)
  }

  /** With a non-positive threshold the stage only re-binarises. */
  lemma FillSmallHolesOff(m: seq<seq<Byte>>, minHole: int, rule: HoleRule)
    requires IsRect(m) && minHole <= 0
    ensures IsRect(FillSmallHoles(m, minHole, rule))
    ensures forall y, x | 0 <= y < |m| && 0 <= x < Width(m) ::
      (FillSmallHoles(m, minHole, rule)[y][x] == 255 <==> m[y][x] > 127)
  {
    BinarizeToU8(|m|, Width(m), Binarize(m));
  }

  /** On pixel sets: filling adds whole background regions that are small
      holes, and every small hole. */
  lemma FilledSpec(rule: HoleRule, h: nat, w: nat, fg: set<Cell>, minHole: int)
    requires fg <= Domain(h, w)
    ensures var bg, f := Domain(h, w) - fg, Filled(rule, h, w, fg, minHole);
      fg <= f <= Domain(h, w) &&
      (forall p, c | p in f - fg && IsComponent(rule.conn, bg, p, c) :: c <= f - fg && SmallHole(rule, h, w, c, minHole)) &&
      (forall p, c | p in bg && IsComponent(rule.conn, bg, p, c) && SmallHole(rule, h, w, c, minHole) :: p in f)
  {
    var bg := Domain(h, w) - fg;
    var f := Filled(rule, h, w, fg, minHole);
    forall p, c | p in f - fg && IsComponent(rule.conn, bg, p, c)
      ensures c <= f - fg && SmallHole(rule, h, w, c, minHole)
    {
      ComponentUnique(rule.conn, bg, p, c);
      forall q | q in c ensures q in f - fg {
        SameComponent(rule.conn, bg, p, q);
      }
    }
    forall p, c | p in bg && IsComponent(rule.conn, bg, p, c) && SmallHole(rule, h, w, c, minHole)
      ensures p in f
    {
      ComponentUnique(rule.conn, bg, p, c);
    }
  }

  /** Hole filling only adds foreground, and only whole background regions
      that obey the rule; every such region is filled. */
  lemma FillSmallHolesSpec(m: seq<seq<Byte>>, minHole: int, rule: HoleRule)
    requires IsRect(m) && minHole > 0
    ensures var h, w, fg := |m|, Width(m), Binarize(m);
      var bg := Domain(h, w) - fg;
      var r := FillSmallHoles(m, minHole, rule);
      IsRect(r) && fg <= Binarize(r) &&
      (forall p, c | p in Binarize(r) - fg && IsComponent(rule.conn, bg, p, c) ::
         c <= Binarize(r) - fg && SmallHole(rule, h, w, c, minHole)) &&
      (forall p, c | p in bg && IsComponent(rule.conn, bg, p, c) && SmallHole(rule, h, w, c, minHole) ::
         p in Binarize(r))
  {
    var h, w, fg := |m|, Width(m), Binarize(m);
    FilledSpec(rule, h, w, fg, minHole);
    BinarizeToU8(h, w, Filled(rule, h, w, fg, minHole));
  }

  // ---------- keep_largest_component ----------

  /** A labelled region as `regionprops` reports it: its label's first
      pixel in raster order, and its area. */
  datatype Region = Region(seed: Cell, area: nat)

  /** The regions of the labelling, in label order. */
  function RegionProps(fg: set<Cell>, seeds: seq<Cell>): (rs: seq<Region>)
    requires AllIn(seeds, fg)
    ensures |rs| == |seeds|
    ensures forall k | 0 <= k < |seeds| :: rs[k] == Region(seeds[k], |Component(Eight, fg, seeds[k])|)
  {
    seq(|seeds|, k requires 0 <= k < |seeds| => Region(seeds[k], |Component(Eight, fg, seeds[k])|))
  }

  predicate SeedOrder(rs: seq<Region>) {
    forall i, j | 0 <= i < j < |rs| :: Before(rs[i].seed, rs[j].seed)
  }

  /** The regions whose area reaches the threshold, in label order. */
  function Qualifying(rs: seq<Region>, thr: int): (r: seq<Region>)
    ensures forall j | 0 <= j < |r| :: r[j] in rs && r[j].area >= thr
    ensures forall k | 0 <= k < |rs| && rs[k].area >= thr :: rs[k] in r
  {
    if |rs| == 0 then []
    else
      var n := |rs| - 1;
      var rest := Qualifying(rs[..n], thr);
      assert forall k | 0 <= k < n :: rs[..n][k] == rs[k];
      if rs[n].area >= thr then rest + [rs[n]] else rest
  }

  /** Filtering keeps the label order. */
  lemma {:induction false} QualifyingOrder(rs: seq<Region>, thr: int)
    requires SeedOrder(rs)
    ensures SeedOrder(Qualifying(rs, thr))
  {
    if |rs| > 0 {
      var n := |rs| - 1;
      var rest := Qualifying(rs[..n], thr);
      assert SeedOrder(rs[..n]);
      QualifyingOrder(rs[..n], thr);
      if rs[n].area >= thr {
        forall j | 0 <= j < |rest| ensures Before(rest[j].seed, rs[n].seed) {
          var k :| 0 <= k < n && rs[..n][k] == rest[j];
          assert rs[k] == rest[j];
        }
        AppendOrder(rest, rs[n]);
      }
    }
  }

  lemma AppendOrder(rs: seq<Region>, last: Region)
    requires SeedOrder(rs)
    requires forall j | 0 <= j < |rs| :: Before(rs[j].seed, last.seed)
    ensures SeedOrder(rs + [last])
  {
  }

  /** In label order, a region that starts earlier has a smaller index. */
  lemma OrderIndex(rs: seq<Region>, a: nat, b: nat)
    requires SeedOrder(rs) && a < |rs| && b < |rs| && Before(rs[a].seed, rs[b].seed)
    ensures a < b
  {
  }

  /** `max(regions, key=lambda r: r.area)`: the first region of largest area. */
  function LargestRegion(rs: seq<Region>): (b: nat)
    requires |rs| > 0
    ensures b < |rs|
    ensures forall j | 0 <= j < |rs| :: rs[j].area <= rs[b].area
    ensures forall j | 0 <= j < b :: rs[j].area < rs[b].area
  {
    if |rs| == 1 then 0
    else
      var n := |rs| - 1;
      var b := LargestRegion(rs[..n]);
      if rs[n].area > rs[b].area then n else b
  }

  /** The threshold `max(min_obj, 1)`. */
  function MinArea(minObj: int): int { Max(minObj, 1) }

  /** Binarise; keep only the largest 8-connected component whose area is at
      least max(min_obj, 1), or return the binarised mask when no component
      has that area. */
  function KeepLargestComponent(m: seq<seq<Byte>>, minObj: int): (r: seq<seq<Byte>>)
    requires IsRect(m)
    ensures HasShape(r, |m|, Width(m)) && IsBinaryU8(r)
  {
    var h, w, fg := |m|, Width(m), Binarize(m);
    var seeds := Seeds(Eight, fg, h, w);
    if |seeds| == 0 then ToU8(h, w, fg)
    else
      var regions := Qualifying(RegionProps(fg, seeds), MinArea(minObj));
      if |regions| == 0 then ToU8(h, w, fg)
      else ToU8(h, w, Component(Eight, fg, regions[LargestRegion(regions)].seed))
  }

  /** c, the component of p, is the one to keep: it reaches the threshold, p
      is its first pixel in raster order, and every other component that
      reaches the threshold is smaller, or as large and starting later. */
  ghost predicate KeptLargest(fg: set<Cell>, thr: int, p: Cell, c: set<Cell>) {
    IsComponent(Eight, fg, p, c) && |c| >= thr &&
    (forall e | e in c :: !Before(e, p)) &&
    forall q, d | IsComponent(Eight, fg, q, d) && |d| >= thr ::
      |d| < |c| || (|d| == |c| && forall e | e in d :: !Before(e, p))
  }

  /** Fail-open: when no component reaches the threshold (in particular when
      there is no foreground) the binarised mask comes back unchanged. */
  lemma KeepLargestFailOpen(m: seq<seq<Byte>>, minObj: int)
    requires IsRect(m)
    requires forall p, c | IsComponent(Eight, Binarize(m), p, c) :: |c| < MinArea(minObj)
    ensures KeepLargestComponent(m, minObj) == ToU8(|m|, Width(m), Binarize(m))
  {
    var h, w, fg := |m|, Width(m), Binarize(m);
    var seeds := Seeds(Eight, fg, h, w);
    var rs := RegionProps(fg, seeds);
    var regions := Qualifying(rs, MinArea(minObj));
    if |regions| > 0 {
      var k :| 0 <= k < |rs| && rs[k] == regions[0];
      ComponentIsComponent(Eight, fg, seeds[k]);
      assert false;
    }
  }

  /** Every component of fg is the component of one of the seeds. */
  lemma ComponentOfSomeSeed(fg: set<Cell>, h: nat, w: nat, q: Cell, d: set<Cell>) returns (k: nat)
    requires fg <= Domain(h, w) && IsComponent(Eight, fg, q, d)
    ensures k < |Seeds(Eight, fg, h, w)| && d == Component(Eight, fg, Seeds(Eight, fg, h, w)[k])
    ensures forall e | e in d :: !Before(e, Seeds(Eight, fg, h, w)[k])
  {
    var seeds := Seeds(Eight, fg, h, w);
    SeedsSpec(Eight, fg, h, w);
    ComponentUnique(Eight, fg, q, d);
    k :| 0 <= k < |seeds| && q in Component(Eight, fg, seeds[k]);
    SameComponent(Eight, fg, seeds[k], q);
  }

  /** The regions come in label order. */
  lemma RegionPropsOrder(fg: set<Cell>, h: nat, w: nat)
    requires fg <= Domain(h, w)
    ensures SeedOrder(RegionProps(fg, Seeds(Eight, fg, h, w)))
  {
    SeedsSpec(Eight, fg, h, w);
  }

  /** The region max() picks among the qualifying ones. */
  function Chosen(fg: set<Cell>, h: nat, w: nat, thr: int): (reg: Region)
    requires |Qualifying(RegionProps(fg, Seeds(Eight, fg, h, w)), thr)| > 0
  {
    var regions := Qualifying(RegionProps(fg, Seeds(Eight, fg, h, w)), thr);
    regions[LargestRegion(regions)]
  }

  /** On regions in label order: every region reaching the threshold is
      beaten by the chosen one, or ties with it and comes no earlier. */
  lemma ChosenBeats(rs: seq<Region>, thr: int, k: nat)
    requires SeedOrder(rs) && k < |rs| && rs[k].area >= thr
    ensures |Qualifying(rs, thr)| > 0
    ensures var regions := Qualifying(rs, thr);
      exists i | 0 <= i < |rs| :: rs[i] == regions[LargestRegion(regions)] &&
        (rs[k].area < rs[i].area || (rs[k].area == rs[i].area && i <= k))
  {
    QualifyingOrder(rs, thr);
    var regions := Qualifying(rs, thr);
    var j :| 0 <= j < |regions| && regions[j] == rs[k];
    var b := LargestRegion(regions);
    var i :| 0 <= i < |rs| && rs[i] == regions[b];
    if i > k {
      OrderIndex(regions, j, b);
    }
  }

  /** Every qualifying component of fg gives a qualifying region, and the
      chosen region beats it, or ties with it and starts no later. */
  lemma LargestBeatsOthers(fg: set<Cell>, h: nat, w: nat, thr: int, q: Cell, d: set<Cell>)
    requires fg <= Domain(h, w)
    requires IsComponent(Eight, fg, q, d) && |d| >= thr
    ensures |Qualifying(RegionProps(fg, Seeds(Eight, fg, h, w)), thr)| > 0
    ensures var reg := Chosen(fg, h, w, thr);
      reg.seed in fg && reg.area == |Component(Eight, fg, reg.seed)| &&
      (|d| < reg.area || (|d| == reg.area && forall e | e in d :: !Before(e, reg.seed)))
  {
    var seeds := Seeds(Eight, fg, h, w);
    var k := ComponentOfSomeSeed(fg, h, w, q, d);
    var rs := RegionProps(fg, seeds);
    RegionPropsOrder(fg, h, w);
    ChosenBeats(rs, thr, k);
    var regions := Qualifying(rs, thr);
    var i :| 0 <= i < |rs| && rs[i] == regions[LargestRegion(regions)] &&
      (rs[k].area < rs[i].area || (rs[k].area == rs[i].area && i <= k));
    if |d| == rs[i].area {
      assert i == k || Before(rs[i].seed, rs[k].seed);
    }
  }

  /** Otherwise exactly one component comes back: the largest qualifying one,
      the first in label order among equals; it is a subset of the input. */
  lemma KeepLargestSingle(m: seq<seq<Byte>>, minObj: int)
    requires IsRect(m)
    requires exists p, c :: IsComponent(Eight, Binarize(m), p, c) && |c| >= MinArea(minObj)
    ensures var r := KeepLargestComponent(m, minObj);
      IsRect(r) && Binarize(r) <= Binarize(m) &&
      exists p :: KeptLargest(Binarize(m), MinArea(minObj), p, Binarize(r))
  {
    var h, w, fg := |m|, Width(m), Binarize(m);
    var thr := MinArea(minObj);
    var p0, c0 :| IsComponent(Eight, fg, p0, c0) && |c0| >= thr;
    LargestBeatsOthers(fg, h, w, thr, p0, c0);
    var p := Chosen(fg, h, w, thr).seed;
    var c := Component(Eight, fg, p);
    assert |Seeds(Eight, fg, h, w)| > 0;
    assert KeepLargestComponent(m, minObj) == ToU8(h, w, c);
    BinarizeToU8(h, w, c);
    ComponentIsComponent(Eight, fg, p);
    forall q, d | IsComponent(Eight, fg, q, d) && |d| >= thr
      ensures |d| < |c| || (|d| == |c| && forall e | e in d :: !Before(e, p))
    {
      LargestBeatsOthers(fg, h, w, thr, q, d);
    }
    assert KeptLargest(fg, thr, p, c);
  }

  // ---------- postprocess ----------

  /** The full chain: open/close, fill small holes, keep the largest component. */
  function Postprocess(m: seq<seq<Byte>>, minHole: int, minObj: int, rule: HoleRule): (r: seq<seq<Byte>>)
    requires IsRect(m)
    ensures HasShape(r, |m|, Width(m)) && IsBinaryU8(r)
  {
    var m1 := MorphOpenClose(m);
    var m2 := FillSmallHoles(m1, minHole, rule);
    KeepLargestComponent(m2, minObj)
  }

  /** The post-processed mask is the hole-filled mask itself, or one
      8-connected component of it. */
  lemma PostprocessOutcome(m: seq<seq<Byte>>, minHole: int, minObj: int, rule: HoleRule)
    requires IsRect(m)
    ensures var f := Binarize(FillSmallHoles(MorphOpenClose(m), minHole, rule));
      var r := Postprocess(m, minHole, minObj, rule);
      IsRect(r) && Binarize(r) <= f &&
      (Binarize(r) == f || exists p :: KeptLargest(f, MinArea(minObj), p, Binarize(r)))
  {
    var m2 := FillSmallHoles(MorphOpenClose(m), minHole, rule);
    var f := Binarize(m2);
    if exists p, c :: IsComponent(Eight, f, p, c) && |c| >= MinArea(minObj) {
      KeepLargestSingle(m2, minObj);
    } else {
      KeepLargestFailOpen(m2, minObj);
      BinarizeToU8(|m2|, Width(m2), f);
    }
  }
}
