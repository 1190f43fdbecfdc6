/** The segmentation pipeline (pipeline.py): thresholds derived from the
    image area, the per-cluster cues and scores that choose the foreground
    cluster, the k-means feature layout, and the order of the stages in
    `segment_image`. Colour conversion, blurring, k-means, Canny, saliency,
    the centre prior, resizing and GrabCut are parameters. */
module Pipeline {
  import opened Grids
  import opened PostProcess
  import opened ImageUtils
  import opened GrabCutRefine

  // ---------- _dynamic_sizes ----------

  /** A non-positive `min_hole` becomes `max(int(0.0008 * area), 32)` and a
      non-positive `min_obj` becomes `max(int(0.008 * area), 128)`, computed
      exactly as area / 1250 and area / 125. */
  function DynamicSizes(h: nat, w: nat, minHole: int, minObj: int): (int, int) {
    var area := h * w;
    (if minHole <= 0 then Max(area / 1250, 32) else minHole,
     if minObj <= 0 then Max(area / 125, 128) else minObj)
  }

  /** Positive thresholds pass through; derived ones are at least 32 and 128
      and otherwise the floor of 0.08% and 0.8% of the area. Both results are
      always positive, so the later stages always filter. */
  lemma DynamicSizesSpec(h: nat, w: nat, minHole: int, minObj: int)
    ensures var r := DynamicSizes(h, w, minHole, minObj);
      r.0 >= 1 && r.1 >= 1 &&
      (minHole > 0 ==> r.0 == minHole) &&
      (minObj > 0 ==> r.1 == minObj) &&
      (minHole <= 0 ==>
         r.0 >= 32 && (r.0 == 32 ==> h * w < 33 * 1250) &&
         (r.0 > 32 ==> r.0 * 1250 <= h * w < (r.0 + 1) * 1250)) &&
      (minObj <= 0 ==>
         r.1 >= 128 && (r.1 == 128 ==> h * w < 129 * 125) &&
         (r.1 > 128 ==> r.1 * 125 <= h * w < (r.1 + 1) * 125))
  {
  }

  /** A 1000-by-1000 image derives (800, 8000). */
  lemma DynamicSizesMegapixel()
    ensures DynamicSizes(1000, 1000, 0, 0) == (800, 8000)
  {
  }

  // ---------- ratios over boolean grids ----------

  predicate SameGrid<T, U>(a: seq<seq<T>>, b: seq<seq<U>>) {
    IsRect(a) && HasShape(b, |a|, Width(a))
  }

  /** Of the pixels a selects, the share that b selects too:
      `(a & b).sum() / max(a.sum(), 1)`. */
  function Share(a: seq<seq<bool>>, b: seq<seq<bool>>): real
    requires SameGrid(a, b)
  {
    CountOf(AndGrid(a, b)) as real / Max(CountOf(a), 1) as real
  }

  /** A share lies in [0, 1] and is 0 when a selects nothing. */
  lemma ShareBounds(a: seq<seq<bool>>, b: seq<seq<bool>>)
    requires SameGrid(a, b)
    ensures 0.0 <= Share(a, b) <= 1.0
    ensures CountOf(a) == 0 ==> Share(a, b) == 0.0
  {
    CountAndAtMost(a, b);
    var n, d := CountOf(AndGrid(a, b)), Max(CountOf(a), 1);
    FractionAtMostOne(n as real, d as real);
  }

  lemma FractionAtMostOne(n: real, d: real)
    requires 0.0 <= n <= d && d > 0.0
    ensures 0.0 <= n / d <= 1.0
  {
    assert n / d * d == n;
  }

  /** The outer one-pixel frame as a boolean grid. */
  function FrameGrid(h: nat, w: nat): seq<seq<bool>> {
    Tabulate(h, w, p => OnFrame(h, w, p))
  }

  /** The share of a mask's pixels that lie on the image frame. */
  function FrameRatio(mask: seq<seq<bool>>): real
    requires IsRect(mask)
  {
    var f := FrameGrid(|mask|, Width(mask));
    assert |mask| > 0 ==> Width(f) == Width(mask);
    Share(mask, f)
  }

  /** Line 40: a zeroed boolean array whose first and last rows and first
      and last columns are then set. */
  method FrameArray(h: nat, w: nat) returns (border: array2<bool>)
    requires h >= 1 && w >= 1
    ensures fresh(border) && border.Length0 == h && border.Length1 == w
    ensures forall y, x | 0 <= y < h && 0 <= x < w :: border[y, x] == OnFrame(h, w, (y, x))
  {
    border := new bool[h, w]((y, x) => false);
    var bottom, right := h - 1, w - 1;
    forall x | 0 <= x < w {
      border[0, x] := true;
    }
    forall x | 0 <= x < w {
      border[bottom, x] := true;
    }
    forall y | 0 <= y < h {
      border[y, 0] := true;
    }
    forall y | 0 <= y < h {
      border[y, right] := true;
    }
  }

  /** `_touch_border_ratio`: the frame array counted against the mask. */
  method TouchBorderRatio(mask: seq<seq<bool>>) returns (r: real)
    requires IsRect(mask) && |mask| >= 1 && Width(mask) >= 1
    ensures r == FrameRatio(mask)
    ensures 0.0 <= r <= 1.0
    ensures CountOf(mask) == 0 ==> r == 0.0
  {
    var h, w := |mask|, Width(mask);
    var border := FrameArray(h, w);
    var b := Snapshot(border);
    var f := FrameGrid(h, w);
    forall y | 0 <= y < h ensures b[y] == f[y] {
      assert forall x | 0 <= x < w :: b[y][x] == f[y][x];
    }
    assert b == f;
    var den := Max(CountOf(mask), 1);
    r := CountOf(AndGrid(mask, b)) as real / den as real;
    ShareBounds(mask, b);
  }

  /** `edges > 0` as a boolean grid. */
  function Positive(edges: seq<seq<Byte>>): (g: seq<seq<bool>>)
    ensures |g| == |edges| && forall y | 0 <= y < |edges| :: |g[y]| == |edges[y]|
  {
    seq(|edges|, y requires 0 <= y < |edges| =>
      seq(|edges[y]|, x requires 0 <= x < |edges[y]| => edges[y][x] > 0))
  }

  /** `_edge_density`: the share of the mask's pixels on which the edge map
      (Canny with thresholds 80 and 160) is non-zero. */
  function EdgeDensity(edges: seq<seq<Byte>>, mask: seq<seq<bool>>): real
    requires SameGrid(mask, edges)
  {
    Share(mask, Positive(edges))
  }

  /** Edge density lies in [0, 1] and is 0 for an empty mask. */
  lemma EdgeDensityBounds(edges: seq<seq<Byte>>, mask: seq<seq<bool>>)
    requires SameGrid(mask, edges)
    ensures 0.0 <= EdgeDensity(edges, mask) <= 1.0
    ensures CountOf(mask) == 0 ==> EdgeDensity(edges, mask) == 0.0
  {
    ShareBounds(mask, Positive(edges));
  }

  // ---------- _pick_foreground_cluster ----------

  /** The score weights. */
  const TouchWeight: real := 1.6
  const EdgeWeight: real := 1.2
  const SaliencyWeight: real := 0.9
  const CentreWeight: real := 0.7
  const AreaWeight: real := 0.5

  /** The cue maps of one image: the label grid (at least one pixel), the
      edge map, the saliency map and the centre prior, all of one shape. */
  predicate Cues(labels: seq<seq<nat>>, edges: seq<seq<Byte>>, sal: seq<seq<real>>, cen: seq<seq<real>>) {
    IsRect(labels) && |labels| >= 1 && Width(labels) >= 1 &&
    HasShape(edges, |labels|, Width(labels)) &&
    HasShape(sal, |labels|, Width(labels)) &&
    HasShape(cen, |labels|, Width(labels))
  }

  /** `labels == k`. */
  function LabelMask(labels: seq<seq<nat>>, k: int): (mk: seq<seq<bool>>)
    requires IsRect(labels)
    ensures HasShape(mk, |labels|, Width(labels))
  {
    seq(|labels|, y requires 0 <= y < |labels| =>
      seq(Width(labels), x requires 0 <= x < Width(labels) => labels[y][x] == k))
  }

  /** `float(v[m].mean()) if m.any() else 0.0`. */
  function MeanOver(v: seq<seq<real>>, m: seq<seq<bool>>): real
    requires |v| == |m| && forall y | 0 <= y < |m| :: |v[y]| == |m[y]|
  {
    if CountOf(m) > 0 then SumOver(v, m) / CountOf(m) as real else 0.0
  }

  /** The weighted score: few border pixels, many edges, salient, near the
      centre, not too large. */
  function Score(touch: real, edge: real, salMean: real, cenMean: real, area: real): real {
    TouchWeight * (1.0 - touch) + EdgeWeight * edge + SaliencyWeight * salMean +
    CentreWeight * cenMean + AreaWeight * (1.0 - area)
  }

  /** `mk.mean()`: the share of all pixels that the mask selects. */
  function AreaFraction(mk: seq<seq<bool>>): real
    requires |mk| >= 1 && Width(mk) >= 1
  {
    CountOf(mk) as real / (|mk| * Width(mk)) as real
  }

  /** The score of cluster k. */
  function ClusterScore(labels: seq<seq<nat>>, edges: seq<seq<Byte>>, sal: seq<seq<real>>, cen: seq<seq<real>>, k: int): real
    requires Cues(labels, edges, sal, cen)
  {
    var mk := LabelMask(labels, k);
    Score(FrameRatio(mk), EdgeDensity(edges, mk), MeanOver(sal, mk), MeanOver(cen, mk), AreaFraction(mk))
  }

  /** A cluster no pixel carries scores 1.6 + 0.5: no frame contact, no
      edges, zero means and zero area. */
  lemma EmptyClusterScore(labels: seq<seq<nat>>, edges: seq<seq<Byte>>, sal: seq<seq<real>>, cen: seq<seq<real>>, k: int)
    requires Cues(labels, edges, sal, cen)
    requires forall y, x | 0 <= y < |labels| && 0 <= x < Width(labels) :: labels[y][x] != k
    ensures ClusterScore(labels, edges, sal, cen, k) == TouchWeight + AreaWeight
  {
    var mk := LabelMask(labels, k);
    NoneSelected(mk);
    var f := FrameGrid(|labels|, Width(labels));
    assert Width(f) == Width(labels);
    ShareBounds(mk, f);
    ShareBounds(mk, Positive(edges));
  }

  /** A grid with no true pixel counts 0. */
  lemma {:induction false} NoneSelected(m: seq<seq<bool>>)
    requires forall y, x | 0 <= y < |m| && 0 <= x < |m[y]| :: !m[y][x]
    ensures CountOf(m) == 0
  {
    if |m| > 0 {
      NoneSelected(m[..|m| - 1]);
      NoneInRow(m[|m| - 1]);
    }
  }

  lemma {:induction false} NoneInRow(r: seq<bool>)
    requires forall x | 0 <= x < |r| :: !r[x]
    ensures CountRow(r) == 0
  {
    if |r| > 0 {
      NoneInRow(r[..|r| - 1]);
    }
  }

  /** `labels.max()`. */
  function MaxLabel(labels: seq<seq<nat>>): (m: nat)
    requires |labels| >= 1 && forall y | 0 <= y < |labels| :: |labels[y]| >= 1
    ensures forall y, x | 0 <= y < |labels| && 0 <= x < |labels[y]| :: labels[y][x] <= m
    ensures exists y, x | 0 <= y < |labels| && 0 <= x < |labels[y]| :: labels[y][x] == m
  {
    var n := |labels| - 1;
    var last := RowMax(labels[n]);
    if n == 0 then last
    else
      var rest := MaxLabel(labels[..n]);
      assert forall y | 0 <= y < n :: labels[..n][y] == labels[y];
      Grids.Max(rest, last)
  }

  function RowMax(r: seq<nat>): (m: nat)
    requires |r| >= 1
    ensures forall x | 0 <= x < |r| :: r[x] <= m
    ensures exists x | 0 <= x < |r| :: r[x] == m
  {
    var n := |r| - 1;
    if n == 0 then r[0]
    else
      var rest := RowMax(r[..n]);
      assert forall x | 0 <= x < n :: r[..n][x] == r[x];
      Grids.Max(rest, r[n])
  }

  /** `np.argmax`: the first index of a largest element. */
  function ArgMaxFirst(s: seq<real>): (b: nat)
    requires |s| >= 1
    ensures b < |s|
    ensures forall j | 0 <= j < |s| :: s[j] <= s[b]
    ensures forall j | 0 <= j < b :: s[j] < s[b]
  {
    if |s| == 1 then 0
    else
      var n := |s| - 1;
      var b := ArgMaxFirst(s[..n]);
      if s[n] > s[b] then n else b
  }

  /** The scores of clusters 0 .. max label. */
  function Scores(labels: seq<seq<nat>>, edges: seq<seq<Byte>>, sal: seq<seq<real>>, cen: seq<seq<real>>): (s: seq<real>)
    requires Cues(labels, edges, sal, cen)
    ensures |s| == MaxLabel(labels) + 1
  {
    seq(MaxLabel(labels) + 1, k requires 0 <= k <= MaxLabel(labels) => ClusterScore(labels, edges, sal, cen, k))
  }

  /** The cluster `_pick_foreground_cluster` returns. */
  function ChosenCluster(labels: seq<seq<nat>>, edges: seq<seq<Byte>>, sal: seq<seq<real>>, cen: seq<seq<real>>): nat
    requires Cues(labels, edges, sal, cen)
  {
    ArgMaxFirst(Scores(labels, edges, sal, cen))
  }

  /** `_pick_foreground_cluster`: score clusters 0 .. max label in a loop,
      appending each score, and return the first index of the best score. */
  method PickForegroundCluster(labels: seq<seq<nat>>, edges: seq<seq<Byte>>, sal: seq<seq<real>>, cen: seq<seq<real>>)
    returns (kfg: nat)
    requires Cues(labels, edges, sal, cen)
    ensures kfg == ChosenCluster(labels, edges, sal, cen)
    ensures kfg <= MaxLabel(labels)
  {
    var clusters := MaxLabel(labels) + 1;
    var scores: seq<real> := [];
    for k := 0 to clusters
      invariant |scores| == k
      invariant forall j | 0 <= j < k :: scores[j] == ClusterScore(labels, edges, sal, cen, j)
    {
      var mk := LabelMask(labels, k);
      var area := AreaFraction(mk);
      var edge := EdgeDensity(edges, mk);
      var touch := TouchBorderRatio(mk);
      var salMean := MeanOver(sal, mk);
      var cenMean := MeanOver(cen, mk);
      scores := scores + [Score(touch, edge, salMean, cenMean, area)];
    }
    var all := Scores(labels, edges, sal, cen);
    assert forall j | 0 <= j < clusters :: scores[j] == all[j];
    assert scores == all;
    kfg := ArgMaxFirst(scores);
  }

  /** The chosen cluster is a label in [0, max label] whose score no cluster
      beats, and every cluster before it scores strictly less. */
  lemma ChosenClusterSpec(labels: seq<seq<nat>>, edges: seq<seq<Byte>>, sal: seq<seq<real>>, cen: seq<seq<real>>)
    requires Cues(labels, edges, sal, cen)
    ensures var k := ChosenCluster(labels, edges, sal, cen);
      k <= MaxLabel(labels) &&
      (forall j | 0 <= j <= MaxLabel(labels) ::
        ClusterScore(labels, edges, sal, cen, j) <= ClusterScore(labels, edges, sal, cen, k)) &&
      (forall j | 0 <= j < k ::
        ClusterScore(labels, edges, sal, cen, j) < ClusterScore(labels, edges, sal, cen, k))
  {
    var s := Scores(labels, edges, sal, cen);
    var k := ArgMaxFirst(s);
    assert s[k] == ClusterScore(labels, edges, sal, cen, k);
    forall j | 0 <= j <= MaxLabel(labels)
      ensures ClusterScore(labels, edges, sal, cen, j) <= ClusterScore(labels, edges, sal, cen, k)
    {
      assert s[j] == ClusterScore(labels, edges, sal, cen, j);
    }
    forall j | 0 <= j < k
      ensures ClusterScore(labels, edges, sal, cen, j) < ClusterScore(labels, edges, sal, cen, k)
    {
      assert s[j] == ClusterScore(labels, edges, sal, cen, j);
    }
  }

  /** A label grid of zeros has one cluster, and it is chosen. */
  lemma SingleClusterChosen(labels: seq<seq<nat>>, edges: seq<seq<Byte>>, sal: seq<seq<real>>, cen: seq<seq<real>>)
    requires Cues(labels, edges, sal, cen)
    requires forall y, x | 0 <= y < |labels| && 0 <= x < Width(labels) :: labels[y][x] == 0
    ensures MaxLabel(labels) == 0 && ChosenCluster(labels, edges, sal, cen) == 0
  {
    var m := MaxLabel(labels);
    var y, x :| 0 <= y < |labels| && 0 <= x < |labels[y]| && labels[y][x] == m;
  }

  // ---------- _to_lab_features and the label reshape ----------

  /** One pixel in CIE L*a*b*. */
  datatype Lab = Lab(l: real, a: real, b: real)

  /** The feature row of pixel (y, x): its L, a, b, and with `add_xy` its
      column and row, each scaled to [0, 1] and weighted. */
  function FeatureRow(lab: seq<seq<Lab>>, y: nat, x: nat, addXY: bool, xyWeight: real): seq<real>
    requires IsRect(lab) && y < |lab| && x < Width(lab)
  {
    var h, w, c := |lab|, Width(lab), lab[y][x];
    [c.l, c.a, c.b] +
    if addXY then [x as real / Grids.Max(w - 1, 1) as real * xyWeight, y as real / Grids.Max(h - 1, 1) as real * xyWeight]
    else []
  }

  /** `_to_lab_features`: one row per pixel in row-major order. */
  function LabFeatures(lab: seq<seq<Lab>>, addXY: bool, xyWeight: real): seq<seq<real>>
    requires IsRect(lab)
  {
    var h, w := |lab|, Width(lab);
    seq(h * w, i requires 0 <= i < h * w =>
      RowOf(h, w, i);
      FeatureRow(lab, i / w, i % w, addXY, xyWeight))
  }

  /** Row i of an h-by-w row-major layout belongs to pixel (i / w, i % w). */
  lemma RowOf(h: nat, w: nat, i: int)
    requires 0 <= i < h * w
    ensures w >= 1 && 0 <= i / w < h && 0 <= i % w < w
  {
    assert w >= 1;
    assert (i / w) * w + i % w == i;
    MulStrict(i / w, h, w);
  }

  /** Pixel (y, x) sits at row y * W + x. */
  lemma RowIndex(h: nat, w: nat, y: nat, x: nat)
    requires y < h && x < w
    ensures y * w + x < h * w && (y * w + x) / w == y && (y * w + x) % w == x
  {
    MulMono(y + 1, h, w);
    DivModUnique(y * w + x, w, y, x);
  }

  /** Quotient and remainder are unique. */
  lemma DivModUnique(a: int, w: int, q: int, r: int)
    requires w >= 1 && 0 <= r < w && a == q * w + r
    ensures a / w == q && a % w == r
  {
    var q', r' := a / w, a % w;
    assert q' * w + r' == q * w + r;
    assert (q' - q) * w == r - r';
    MulStrict(q' - q, 1, w);
    MulStrict(-1, q' - q, w);
  }

  /** The features have H * W rows of 3 columns, or 5 with `add_xy`; the row
      of pixel (y, x) is row y * W + x and holds its colour, then x / max(W - 1, 1)
      and y / max(H - 1, 1), each times the weight. */
  lemma LabFeaturesLayout(lab: seq<seq<Lab>>, addXY: bool, xyWeight: real, y: nat, x: nat)
    requires IsRect(lab) && y < |lab| && x < Width(lab)
    ensures var f, h, w := LabFeatures(lab, addXY, xyWeight), |lab|, Width(lab);
      |f| == h * w && y * w + x < h * w &&
      var row := f[y * w + x];
      |row| == (if addXY then 5 else 3) &&
      row[0] == lab[y][x].l && row[1] == lab[y][x].a && row[2] == lab[y][x].b &&
      (addXY ==> row[3] == x as real / Grids.Max(w - 1, 1) as real * xyWeight &&
                 row[4] == y as real / Grids.Max(h - 1, 1) as real * xyWeight)
  {
    RowIndex(|lab|, Width(lab), y, x);
  }

  /** Grid g holds flat(y * w + x) at each pixel (y, x) of an h-by-w image. */
  predicate RowMajor(g: seq<seq<nat>>, flat: int -> nat, h: nat, w: nat)
    requires HasShape(g, h, w)
  {
    forall y, x | 0 <= y < h && 0 <= x < w :: g[y][x] == flat(y * w + x)
  }

  /** `labels.reshape(H, W)`: the label of feature row y * W + x goes to pixel (y, x). */
  function Reshape(flat: int -> nat, h: nat, w: nat): (g: seq<seq<nat>>)
    ensures HasShape(g, h, w) && RowMajor(g, flat, h, w)
  {
    Tabulate(h, w, (p: Cell) => flat(p.0 * w + p.1))
  }

  // ---------- segment_image ----------

  /** The fields of `SegConfig` the modelled stages read, and the k-means
      settings handed on to k-means. */
  datatype SegConfig = SegConfig(
    k: nat, addXY: bool, xyWeight: real, blurSigma: real,
    kmeansAttempts: nat, maxIter: nat, eps: real,
    minHole: int, minObj: int, refineGC: bool, maxSide: nat)

  const DefaultConfig := SegConfig(2, false, 0.40, 1.0, 6, 100, 0.5, 0, 0, false, 1600)

  /** `segment_image` asks GrabCut for five iterations. */
  const RefineIterations: int := 5

  /** Under the default configuration both thresholds are derived from the
      area, refinement is off, and the iteration count `segment_image` passes
      is `refine_with_grabcut`'s own default. */
  lemma DefaultConfigThresholds(h: nat, w: nat)
    ensures !DefaultConfig.refineGC && RefineIterations == DefaultIterCount
    ensures DynamicSizes(h, w, DefaultConfig.minHole, DefaultConfig.minObj) == (Max(h * w / 1250, 32), Max(h * w / 125, 128))
  {
  }

  /** The library routines the pipeline calls, each as a function of its
      inputs: the resize, the Gaussian blur, the Lab conversion, k-means
      (one label per feature row), Canny on the gray image, the saliency map,
      the centre prior, GrabCut, and the hole rule of `remove_small_holes`. */
  datatype Collaborators = Collaborators(
    resize: (Image, nat, nat) -> (Cell -> Px),
    blur: (Image, real) -> (Cell -> Px),
    toLab: Image -> (Cell -> Lab),
    kmeans: (seq<seq<real>>, SegConfig) -> (int -> nat),
    edges: Image -> (Cell -> Byte),
    saliency: Image -> (Cell -> real),
    centre: (nat, nat) -> (Cell -> real),
    grabCut: GrabCut,
    holeRule: HoleRule)

  /** `_kmeans_labels`: blur when sigma is positive, convert to Lab, build
      the features, cluster, reshape to the image's shape. */
  function KmeansLabels(img: Image, cfg: SegConfig, co: Collaborators): (labels: seq<seq<nat>>)
    requires IsRect(img)
    ensures HasShape(labels, |img|, Width(img))
  {
    var feats := LabFeatures(WorkingLab(img, cfg, co), cfg.addXY, cfg.xyWeight);
    Reshape(co.kmeans(feats, cfg), |img|, Width(img))
  }

  /** The number of samples `cv2.kmeans` clusters. The feature matrix has one
      row per pixel, except that a matrix with a single row (a 1x1 image) is
      read as one sample per column. */
  function KmeansSamples(h: nat, w: nat, addXY: bool): nat {
    if h * w == 1 then (if addXY then 5 else 3) else h * w
  }

  /** Where `_kmeans_labels` raises: `cv2.kmeans` asserts K > 0 and at least
      K samples, and `labels.reshape(H, W)` needs exactly one label per pixel. */
  function LabelsFailure(h: nat, w: nat, cfg: SegConfig): (f: Option<ImageError>)
    ensures f.Some? ==> f.value == KmeansNoSamples || f.value.LabelsReshape?
  {
    var n := KmeansSamples(h, w, cfg.addXY);
    if cfg.k == 0 || n < cfg.k then Some(KmeansNoSamples)
    else if n != h * w then Some(LabelsReshape(n, h * w))
    else None
  }

  /** Clustering a non-empty image succeeds exactly when it has at least two
      pixels and at least K of them, with K positive. A single pixel always
      fails, in the reshape when K fits the 3 or 5 feature columns. */
  lemma LabelsFailureSpec(h: nat, w: nat, cfg: SegConfig)
    requires h >= 1 && w >= 1
    ensures var f := LabelsFailure(h, w, cfg);
      (f.None? <==> h * w >= 2 && 1 <= cfg.k <= h * w) &&
      (h * w == 1 && 1 <= cfg.k <= (if cfg.addXY then 5 else 3) ==>
        f == Some(LabelsReshape(if cfg.addXY then 5 else 3, 1))) &&
      (h * w >= 2 && f.Some? ==> f == Some(KmeansNoSamples))
  {
    if h * w >= 2 {
      assert KmeansSamples(h, w, cfg.addXY) == h * w;
    } else {
      assert h * w == 1 by { assert h * w >= 1 * 1; }
    }
  }

  /** The Lab image k-means clusters: blurred first when `blur_sigma > 0`. */
  function WorkingLab(img: Image, cfg: SegConfig, co: Collaborators): (lab: seq<seq<Lab>>)
    requires IsRect(img)
    ensures IsRect(lab) && HasShape(lab, |img|, Width(img))
  {
    var h, w := |img|, Width(img);
    var work := if cfg.blurSigma > 0.0 then Tabulate(h, w, co.blur(img, cfg.blurSigma)) else img;
    var lab := Tabulate(h, w, co.toLab(work));
    assert h > 0 ==> Width(lab) == w;
    lab
  }

  /** Pixel (y, x) gets the label k-means gave to feature row y * W + x, and
      that row starts with the pixel's own Lab colour. */
  lemma KmeansLabelsAt(img: Image, cfg: SegConfig, co: Collaborators, y: nat, x: nat)
    requires IsRect(img) && y < |img| && x < Width(img)
    ensures var lab := WorkingLab(img, cfg, co);
      var feats := LabFeatures(lab, cfg.addXY, cfg.xyWeight);
      var row := y * Width(img) + x;
      row < |feats| &&
      KmeansLabels(img, cfg, co)[y][x] == co.kmeans(feats, cfg)(row) &&
      feats[row][0] == lab[y][x].l && feats[row][1] == lab[y][x].a && feats[row][2] == lab[y][x].b
  {
    var lab := WorkingLab(img, cfg, co);
    assert Width(lab) == Width(img);
    LabFeaturesLayout(lab, cfg.addXY, cfg.xyWeight, y, x);
  }

  /** `(labels == k_fg).astype(np.uint8) * 255`. */
  function RawMask(labels: seq<seq<nat>>, kfg: nat): (m: seq<seq<Byte>>)
    requires IsRect(labels)
  {
    var h, w := |labels|, Width(labels);
    Tabulate(h, w, p => if InBounds(h, w, p) && labels[p.0][p.1] == kfg then 255 else 0)
  }

  /** The raw mask is a 0/255 mask whose foreground is exactly the pixels
      labelled k_fg. */
  lemma RawMaskSpec(labels: seq<seq<nat>>, kfg: nat)
    requires IsRect(labels)
    ensures var m := RawMask(labels, kfg);
      IsRect(m) && IsBinaryU8(m) && HasShape(m, |labels|, Width(labels)) &&
      forall y, x | 0 <= y < |labels| && 0 <= x < Width(labels) ::
        ((y, x) in Binarize(m) <==> labels[y][x] == kfg)
  {
    var m := RawMask(labels, kfg);
    assert |labels| > 0 ==> Width(m) == Width(labels);
  }

  /** The working image: RGB to BGR, then downscaled to fit max_side. */
  function Prepared(rgb: Image, maxSide: nat, co: Collaborators): (img: Image)
    requires IsRect(rgb) && |rgb| >= 1 && Width(rgb) >= 1
    ensures IsRect(img) && |img| >= 1 && Width(img) >= 1
  {
    var bgr := ToRgb(rgb);
    assert Width(bgr) == Width(rgb);
    Downscale(bgr, maxSide, co.resize).0
  }

  /** The foreground cluster chosen from the working image's cues. */
  function ForegroundCluster(img: Image, cfg: SegConfig, co: Collaborators): nat
    requires IsRect(img) && |img| >= 1 && Width(img) >= 1
  {
    var h, w := |img|, Width(img);
    ChosenCluster(KmeansLabels(img, cfg, co), Tabulate(h, w, co.edges(img)), Tabulate(h, w, co.saliency(img)),
                  Tabulate(h, w, co.centre(h, w)))
  }

  /** The raw mask of the working image. */
  function Raw(img: Image, cfg: SegConfig, co: Collaborators): (m: seq<seq<Byte>>)
    requires IsRect(img) && |img| >= 1 && Width(img) >= 1
    ensures IsRect(m) && HasShape(m, |img|, Width(img)) && IsBinaryU8(m)
  {
    var labels := KmeansLabels(img, cfg, co);
    RawMaskSpec(labels, ForegroundCluster(img, cfg, co));
    RawMask(labels, ForegroundCluster(img, cfg, co))
  }

  /** The thresholds derived for the working image. */
  function Thresholds(img: Image, cfg: SegConfig): (int, int) {
    DynamicSizes(|img|, Width(img), cfg.minHole, cfg.minObj)
  }

  /** The raw mask after `postprocess`. */
  function Postprocessed(img: Image, cfg: SegConfig, co: Collaborators): (m: seq<seq<Byte>>)
    requires IsRect(img) && |img| >= 1 && Width(img) >= 1
    ensures HasShape(m, |img|, Width(img)) && IsBinaryU8(m)
  {
    var dyn := Thresholds(img, cfg);
    Postprocess(Raw(img, cfg, co), dyn.0, dyn.1, co.holeRule)
  }

  /** The mask after post-processing and, when enabled, GrabCut refinement,
      which GrabCut may reject. */
  function ForegroundMask(img: Image, cfg: SegConfig, co: Collaborators): (r: Result<seq<seq<Byte>>>)
    requires IsRect(img) && |img| >= 1 && Width(img) >= 1
    ensures r.Ok? ==> HasShape(r.value, |img|, Width(img)) && IsBinaryU8(r.value) && SameShape(img, r.value)
    ensures r.Err? ==> r.error == GrabCutNoSamples
  {
    var pm := Postprocessed(img, cfg, co);
    var dyn := Thresholds(img, cfg);
    if cfg.refineGC then Refined(img, pm, RefineIterations, dyn.0, dyn.1, co.holeRule, co.grabCut)
    else Ok(pm)
  }

  /** The four images `segment_image` returns (the analysis text is not modelled). */
  datatype SegOutput = SegOutput(original: Image, mask: seq<seq<Byte>>, white: Image, transparent: seq<seq<Px4>>)

  /** What `segment_image` computes from an optional RGB image. */
  function Segment(imgRgb: Option<Image>, cfg: SegConfig, co: Collaborators): (r: Result<SegOutput>)
    requires imgRgb.Some? ==> IsRect(imgRgb.value)
    ensures imgRgb.None? <==> r == Err(EmptyInput)
  {
    match imgRgb
    case None => Err(EmptyInput)
    case Some(rgb) =>
      if |rgb| == 0 || Width(rgb) == 0 then Err(EmptyImage)
      else
        var img := Prepared(rgb, cfg.maxSide, co);
        match LabelsFailure(|img|, Width(img), cfg)
        case Some(e) => Err(e)
        case None =>
          match ForegroundMask(img, cfg, co)
          case Err(e) => Err(e)
          case Ok(mask) => Ok(SegOutput(ToRgb(img), mask, ToRgb(ComposeOnWhite(img, mask)), BgrToRgba(img, mask)))
  }

  /** The raw mask is the chosen cluster: foreground exactly where the label
      is k_fg, the first cluster of best score. */
  lemma RawIsChosenCluster(img: Image, cfg: SegConfig, co: Collaborators)
    requires IsRect(img) && |img| >= 1 && Width(img) >= 1
    ensures var labels, kfg := KmeansLabels(img, cfg, co), ForegroundCluster(img, cfg, co);
      forall y, x | 0 <= y < |img| && 0 <= x < Width(img) ::
        ((y, x) in Binarize(Raw(img, cfg, co)) <==> labels[y][x] == kfg)
  {
    var labels, kfg := KmeansLabels(img, cfg, co), ForegroundCluster(img, cfg, co);
    assert Raw(img, cfg, co) == RawMask(labels, kfg);
    RawMaskSpec(labels, kfg);
  }

  /** The post-processed mask is the hole-filled raw mask, or one 8-connected
      component of it, with the derived thresholds. */
  lemma PostprocessedOutcome(img: Image, cfg: SegConfig, co: Collaborators)
    requires IsRect(img) && |img| >= 1 && Width(img) >= 1
    ensures var dyn, raw, pm := Thresholds(img, cfg), Raw(img, cfg, co), Postprocessed(img, cfg, co);
      var f := Binarize(FillSmallHoles(MorphOpenClose(raw), dyn.0, co.holeRule));
      IsRect(pm) && Binarize(pm) <= f &&
      (Binarize(pm) == f || exists p :: KeptLargest(f, MinArea(dyn.1), p, Binarize(pm)))
  {
    var dyn := Thresholds(img, cfg);
    PostprocessOutcome(Raw(img, cfg, co), dyn.0, dyn.1, co.holeRule);
  }

  /** Without refinement the post-processed mask reaches the outputs
      unchanged; with it, GrabCut runs with five iterations and the same
      thresholds. */
  lemma ForegroundMaskStages(img: Image, cfg: SegConfig, co: Collaborators)
    requires IsRect(img) && |img| >= 1 && Width(img) >= 1
    ensures var pm, dyn := Postprocessed(img, cfg, co), Thresholds(img, cfg);
      IsRect(pm) &&
      (!cfg.refineGC ==> ForegroundMask(img, cfg, co) == Ok(pm)) &&
      (cfg.refineGC ==>
        ForegroundMask(img, cfg, co) == Refined(img, pm, RefineIterations, dyn.0, dyn.1, co.holeRule, co.grabCut))
  {
  }

  /** The final mask is missing, with GrabCut's rejection, exactly when
      refinement is on and the post-processed mask is empty or covers the
      whole working image. */
  lemma ForegroundMaskFails(img: Image, cfg: SegConfig, co: Collaborators)
    requires IsRect(img) && |img| >= 1 && Width(img) >= 1
    ensures var pm, r := Postprocessed(img, cfg, co), ForegroundMask(img, cfg, co);
      IsRect(pm) &&
      (r.Err? <==> cfg.refineGC && (Binarize(pm) == {} || Binarize(pm) == Domain(|img|, Width(img)))) &&
      (r.Err? ==> r.error == GrabCutNoSamples)
  {
    var pm, dyn := Postprocessed(img, cfg, co), Thresholds(img, cfg);
    assert |pm| == |img| && Width(pm) == Width(img);
    ForegroundMaskStages(img, cfg, co);
    RefinedFails(img, pm, RefineIterations, dyn.0, dyn.1, co.holeRule, co.grabCut);
  }

  /** A single-pixel image never yields outputs: its working image is one
      pixel, so clustering fails. */
  lemma SegmentSinglePixel(rgb: Image, cfg: SegConfig, co: Collaborators)
    requires IsRect(rgb) && |rgb| == 1 && Width(rgb) == 1
    ensures Segment(Some(rgb), cfg, co).Err?
    ensures cfg == DefaultConfig ==> Segment(Some(rgb), cfg, co) == Err(LabelsReshape(3, 1))
  {
    PreparedSinglePixel(rgb, cfg.maxSide, co);
    LabelsFailureSpec(1, 1, cfg);
    SegmentOutcome(rgb, cfg, co);
  }

  /** Preparing a single-pixel image leaves one pixel, whatever `max_side` is. */
  lemma PreparedSinglePixel(rgb: Image, maxSide: nat, co: Collaborators)
    requires IsRect(rgb) && |rgb| == 1 && Width(rgb) == 1
    ensures var img := Prepared(rgb, maxSide, co); |img| == 1 && Width(img) == 1
  {
    PreparedSize(rgb, maxSide, co);
    if maxSide == 0 {
      assert DownscaleSize(1, 1, 0) == (1, 1);
    }
  }

  /** The outputs agree with each other: the white composite shows the
      original where the mask is foreground and white elsewhere, and the RGBA
      image carries the original's colours with the mask as alpha. */
  lemma OutputsAgree(img: Image, mask: seq<seq<Byte>>)
    requires SameShape(img, mask)
    ensures var original, white, rgba := ToRgb(img), ToRgb(ComposeOnWhite(img, mask)), BgrToRgba(img, mask);
      HasShape(original, |img|, Width(img)) && HasShape(white, |img|, Width(img)) &&
      forall y, x | 0 <= y < |img| && 0 <= x < Width(img) ::
        white[y][x] == (if mask[y][x] > 127 then original[y][x] else White) &&
        Px(rgba[y][x].c0, rgba[y][x].c1, rgba[y][x].c2) == original[y][x] &&
        rgba[y][x].c3 == mask[y][x]
  {
    var c := ComposeOnWhite(img, mask);
    assert |img| > 0 ==> Width(c) == Width(img);
    BgrToRgbaSpec(img, mask);
  }

  /** A present, non-empty image yields the four outputs, built from the
      working image and its final mask, exactly when clustering succeeds and
      the final mask exists; otherwise the first failure is the result. */
  lemma SegmentOutcome(rgb: Image, cfg: SegConfig, co: Collaborators)
    requires IsRect(rgb) && |rgb| >= 1 && Width(rgb) >= 1
    ensures var r, img := Segment(Some(rgb), cfg, co), Prepared(rgb, cfg.maxSide, co);
      var lf, fm := LabelsFailure(|img|, Width(img), cfg), ForegroundMask(img, cfg, co);
      (lf.Some? ==> r == Err(lf.value)) &&
      (r.Ok? <==> lf.None? && fm.Ok?) &&
      (lf.None? && fm.Err? ==> r == Err(fm.error)) &&
      (lf.None? && fm.Ok? ==>
        r.value.mask == fm.value &&
        r.value.original == ToRgb(img) &&
        r.value.white == ToRgb(ComposeOnWhite(img, fm.value)) &&
        r.value.transparent == BgrToRgba(img, fm.value))
  {
  }

  /** The working image is the input when it fits in max_side, and otherwise
      has the downscaled size, each side between 1 and max_side. */
  lemma PreparedSize(rgb: Image, maxSide: nat, co: Collaborators)
    requires IsRect(rgb) && |rgb| >= 1 && Width(rgb) >= 1
    ensures var img, h, w := Prepared(rgb, maxSide, co), |rgb|, Width(rgb);
      (Max(h, w) <= maxSide ==> img == ToRgb(rgb)) &&
      (Max(h, w) > maxSide ==>
        |img| == DownscaleSize(h, w, maxSide).0 && Width(img) == DownscaleSize(h, w, maxSide).1 &&
        (maxSide >= 1 ==> |img| <= maxSide && Width(img) <= maxSide))
  {
    DownscaleSizeSpec(|rgb|, Width(rgb), maxSide);
  }

  /** `segment_image`: a missing image is rejected before any work; then
      convert, downscale, cluster, choose the foreground cluster, derive the
      thresholds, post-process, optionally refine, and compose the outputs. */
  method SegmentImage(imgRgb: Option<Image>, cfg: SegConfig, co: Collaborators) returns (r: Result<SegOutput>)
    requires imgRgb.Some? ==> IsRect(imgRgb.value)
    ensures r == Segment(imgRgb, cfg, co)
  {
    if imgRgb.None? {
      return Err(EmptyInput);
    }
    var rgb := imgRgb.value;
    if |rgb| == 0 || Width(rgb) == 0 {
      return Err(EmptyImage);
    }
    var img := Prepared(rgb, cfg.maxSide, co);
    var h, w := |img|, Width(img);
    var failure := LabelsFailure(h, w, cfg);
    if failure.Some? {
      return Err(failure.value);
    }
    var labels := KmeansLabels(img, cfg, co);
    var kfg := PickForegroundCluster(labels, Tabulate(h, w, co.edges(img)), Tabulate(h, w, co.saliency(img)),
                                     Tabulate(h, w, co.centre(h, w)));
    var raw := RawMask(labels, kfg);
    assert raw == Raw(img, cfg, co);
    var dyn := DynamicSizes(h, w, cfg.minHole, cfg.minObj);
    var mask := Postprocess(raw, dyn.0, dyn.1, co.holeRule);
    if cfg.refineGC {
      var refined := RefineWithGrabCut(img, mask, RefineIterations, dyn.0, dyn.1, co.holeRule, co.grabCut);
      if refined.Err? {
        return Err(refined.error);
      }
      mask := refined.value;
    }
    assert Ok(mask) == ForegroundMask(img, cfg, co);
    r := Ok(SegOutput(ToRgb(img), mask, ToRgb(ComposeOnWhite(img, mask)), BgrToRgba(img, mask)));
  }
}
