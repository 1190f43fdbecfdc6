/** Connected components of a pixel set, and the order in which a raster
    scan labels them (`skimage.measure.label`, and the background labelling
    inside `remove_small_holes`).

    A component is characterised without paths: the component of a
    foreground pixel p is the least set that contains p and is closed under
    stepping to an adjacent foreground pixel. That is exactly the set of
    pixels reachable from p. */
module Components {
  import opened Grids

  /** 4-connectivity (`connectivity=1`) or 8-connectivity (`connectivity=2`). */
  datatype Connectivity = Four | Eight

  predicate Adjacent(conn: Connectivity, p: Cell, q: Cell) {
    p != q && -1 <= p.0 - q.0 <= 1 && -1 <= p.1 - q.1 <= 1 &&
    (conn == Four ==> p.0 == q.0 || p.1 == q.1)
  }

  /** No pixel of s is adjacent to a pixel of s outside c. */
  ghost predicate Closed(conn: Connectivity, s: set<Cell>, c: set<Cell>) {
    forall p, q | p in c && q in s && Adjacent(conn, p, q) :: q in c
  }

  /** c is the component of s that contains p: the least closed set containing p. */
  ghost predicate IsComponent(conn: Connectivity, s: set<Cell>, p: Cell, c: set<Cell>) {
    p in c && c <= s && Closed(conn, s, c) &&
    forall d: set<Cell> | p in d && Closed(conn, s, d) :: c <= d
  }

  /** One flooding round: t together with every pixel of s adjacent to t. */
  function Step(conn: Connectivity, s: set<Cell>, t: set<Cell>): set<Cell> {
    t + set q | q in s && exists p | p in t :: Adjacent(conn, p, q)
  }

  lemma SubsetCard(a: set<Cell>, b: set<Cell>)
    requires a <= b
    ensures |a| <= |b|
  {
    assert b == a + (b - a);
  }

  lemma FewerMissing(s: set<Cell>, t: set<Cell>, t': set<Cell>)
    requires t <= t' <= s && t != t'
    ensures |s - t'| < |s - t|
  {
    var q :| q in t' && q !in t;
    SubsetCard(s - t', (s - t) - {q});
  }

  /** Floods t inside s until nothing more is reachable. */
  function Grow(conn: Connectivity, s: set<Cell>, t: set<Cell>): (r: set<Cell>)
    requires t <= s
    ensures t <= r <= s
    decreases |s - t|
  {
    var t' := Step(conn, s, t);
    if t' == t then t
    else
      FewerMissing(s, t, t');
      Grow(conn, s, t')
  }

  /** The component of s containing p, by flooding from p. */
  function Component(conn: Connectivity, s: set<Cell>, p: Cell): (c: set<Cell>)
    requires p in s
  {
    Grow(conn, s, {p})
  }

  lemma {:induction false} GrowClosed(conn: Connectivity, s: set<Cell>, t: set<Cell>)
    requires t <= s
    ensures Closed(conn, s, Grow(conn, s, t))
    decreases |s - t|
  {
    var t' := Step(conn, s, t);
    if t' == t {
      forall p, q | p in t && q in s && Adjacent(conn, p, q) ensures q in t {
        assert q in t';
      }
    } else {
      FewerMissing(s, t, t');
      GrowClosed(conn, s, t');
    }
  }

  lemma {:induction false} GrowLeast(conn: Connectivity, s: set<Cell>, t: set<Cell>, d: set<Cell>)
    requires t <= s && t <= d && Closed(conn, s, d)
    ensures Grow(conn, s, t) <= d
    decreases |s - t|
  {
    var t' := Step(conn, s, t);
    if t' != t {
      assert t' <= d;
      FewerMissing(s, t, t');
      GrowLeast(conn, s, t', d);
    }
  }

  /** Flooding from p yields exactly the component of p. */
  lemma ComponentIsComponent(conn: Connectivity, s: set<Cell>, p: Cell)
    requires p in s
    ensures IsComponent(conn, s, p, Component(conn, s, p))
  {
    GrowClosed(conn, s, {p});
    forall d: set<Cell> | p in d && Closed(conn, s, d) ensures Component(conn, s, p) <= d {
      GrowLeast(conn, s, {p}, d);
    }
  }

  /** A pixel's component is unique. */
  lemma ComponentUnique(conn: Connectivity, s: set<Cell>, p: Cell, c: set<Cell>)
    requires IsComponent(conn, s, p, c)
    ensures p in s && c == Component(conn, s, p)
  {
    ComponentIsComponent(conn, s, p);
  }

  /** Two pixels of one component have the same component: components
      partition the foreground. */
  lemma SameComponent(conn: Connectivity, s: set<Cell>, p: Cell, q: Cell)
    requires p in s && q in Component(conn, s, p)
    ensures q in s && Component(conn, s, q) == Component(conn, s, p)
  {
    var cp := Component(conn, s, p);
    ComponentIsComponent(conn, s, p);
    var cq := Component(conn, s, q);
    ComponentIsComponent(conn, s, q);
    assert cq <= cp;
    if p !in cq {
      var b := cp - cq;
      forall a, e | a in b && e in s && Adjacent(conn, a, e) ensures e in b {
        assert Adjacent(conn, e, a);
      }
      assert Closed(conn, s, b);
      assert false;
    }
    assert cp <= cq;
  }

  // ---------- labelling order ----------

  /** Raster (row-major) order of pixels. */
  predicate Before(p: Cell, q: Cell) {
    p.0 < q.0 || (p.0 == q.0 && p.1 < q.1)
  }

  predicate AllIn(seeds: seq<Cell>, s: set<Cell>) {
    forall k | 0 <= k < |seeds| :: seeds[k] in s
  }

  /** Some already labelled component contains p. */
  predicate Covered(conn: Connectivity, s: set<Cell>, seeds: seq<Cell>, p: Cell)
    requires AllIn(seeds, s)
  {
    exists k | 0 <= k < |seeds| :: p in Component(conn, s, seeds[k])
  }

  /** The seeds of the components in label order, continuing a scan at
      (y, x): a pixel of s that no earlier component contains starts the
      next label. */
  function ScanSeeds(conn: Connectivity, s: set<Cell>, h: nat, w: nat, y: nat, x: nat, seeds: seq<Cell>): (r: seq<Cell>)
    requires AllIn(seeds, s)
    ensures AllIn(r, s)
    decreases h - y, w - x
  {
    if y >= h then seeds
    else if x >= w then ScanSeeds(conn, s, h, w, y + 1, 0, seeds)
    else
      var p := (y, x);
      var seeds' := if p in s && !Covered(conn, s, seeds, p) then seeds + [p] else seeds;
      ScanSeeds(conn, s, h, w, y, x + 1, seeds')
  }

  /** One seed per component of s, in the order a raster scan labels them. */
  function Seeds(conn: Connectivity, s: set<Cell>, h: nat, w: nat): (r: seq<Cell>)
    ensures AllIn(r, s)
  {
    ScanSeeds(conn, s, h, w, 0, 0, [])
  }

  predicate Increasing(seeds: seq<Cell>) {
    forall i, j | 0 <= i < j < |seeds| :: Before(seeds[i], seeds[j])
  }

  /** Each seed is the first pixel, in raster order, of its component. */
  ghost predicate SeedsFirst(conn: Connectivity, s: set<Cell>, seeds: seq<Cell>)
    requires AllIn(seeds, s)
  {
    forall k, q | 0 <= k < |seeds| && q in Component(conn, s, seeds[k]) :: !Before(q, seeds[k])
  }

  /** What holds of the seeds when the scan stands at (y, x). */
  ghost predicate ScanInv(conn: Connectivity, s: set<Cell>, seeds: seq<Cell>, y: int, x: int)
    requires AllIn(seeds, s)
  {
    Increasing(seeds) &&
    (forall k | 0 <= k < |seeds| :: Before(seeds[k], (y, x))) &&
    (forall q | q in s && Before(q, (y, x)) :: Covered(conn, s, seeds, q)) &&
    SeedsFirst(conn, s, seeds)
  }

  lemma CoveredExtend(conn: Connectivity, s: set<Cell>, seeds: seq<Cell>, p: Cell, q: Cell)
    requires AllIn(seeds, s) && p in s && Covered(conn, s, seeds, q)
    ensures AllIn(seeds + [p], s) && Covered(conn, s, seeds + [p], q)
  {
    var k :| 0 <= k < |seeds| && q in Component(conn, s, seeds[k]);
    assert (seeds + [p])[k] == seeds[k];
  }

  /** Scanning a pixel that starts a new label keeps the invariant. */
  lemma ScanAddInv(conn: Connectivity, s: set<Cell>, seeds: seq<Cell>, y: int, x: int)
    requires AllIn(seeds, s) && ScanInv(conn, s, seeds, y, x)
    requires (y, x) in s && !Covered(conn, s, seeds, (y, x))
    ensures AllIn(seeds + [(y, x)], s) && ScanInv(conn, s, seeds + [(y, x)], y, x + 1)
  {
    var p := (y, x);
    var seeds' := seeds + [p];
    assert AllIn(seeds', s);
    ComponentIsComponent(conn, s, p);
    forall q | q in s && Before(q, (y, x + 1)) ensures Covered(conn, s, seeds', q) {
      if q == p {
        assert q in Component(conn, s, seeds'[|seeds|]);
      } else {
        assert Before(q, (y, x));
        CoveredExtend(conn, s, seeds, p, q);
      }
    }
    forall k, q | 0 <= k < |seeds'| && q in Component(conn, s, seeds'[k]) ensures !Before(q, seeds'[k]) {
      if k < |seeds| {
        assert seeds'[k] == seeds[k];
      } else {
        NewSeedFirst(conn, s, seeds, p, q);
      }
    }
  }

  /** A new seed is the first pixel of its component: any earlier pixel of
      it was covered already, and so would the seed be. */
  lemma NewSeedFirst(conn: Connectivity, s: set<Cell>, seeds: seq<Cell>, p: Cell, q: Cell)
    requires AllIn(seeds, s) && ScanInv(conn, s, seeds, p.0, p.1)
    requires p in s && !Covered(conn, s, seeds, p) && q in Component(conn, s, p)
    ensures !Before(q, p)
  {
    if Before(q, p) {
      SameComponent(conn, s, p, q);
      var j :| 0 <= j < |seeds| && q in Component(conn, s, seeds[j]);
      SameComponent(conn, s, seeds[j], q);
      ComponentIsComponent(conn, s, p);
      assert false;
    }
  }

  /** Scanning a pixel that starts no label keeps the invariant. */
  lemma ScanSkipInv(conn: Connectivity, s: set<Cell>, seeds: seq<Cell>, y: int, x: int)
    requires AllIn(seeds, s) && ScanInv(conn, s, seeds, y, x)
    requires (y, x) in s ==> Covered(conn, s, seeds, (y, x))
    ensures ScanInv(conn, s, seeds, y, x + 1)
  {
    forall q | q in s && Before(q, (y, x + 1)) ensures Covered(conn, s, seeds, q) {
      if q != (y, x) {
        assert Before(q, (y, x));
      }
    }
  }

  /** Moving past the end of a row keeps the invariant. */
  lemma ScanRowInv(conn: Connectivity, s: set<Cell>, h: nat, w: nat, seeds: seq<Cell>, y: int, x: int)
    requires s <= Domain(h, w) && x >= w
    requires AllIn(seeds, s) && ScanInv(conn, s, seeds, y, x)
    ensures ScanInv(conn, s, seeds, y + 1, 0)
  {
    forall q | q in s && Before(q, (y + 1, 0)) ensures Covered(conn, s, seeds, q) {
      assert InBounds(h, w, q);
      assert Before(q, (y, x));
    }
  }

  lemma {:induction false} ScanSeedsInv(conn: Connectivity, s: set<Cell>, h: nat, w: nat, y: nat, x: nat, seeds: seq<Cell>)
    requires s <= Domain(h, w) && AllIn(seeds, s)
    requires ScanInv(conn, s, seeds, y, x)
    ensures var r := ScanSeeds(conn, s, h, w, y, x, seeds);
      Increasing(r) && SeedsFirst(conn, s, r) && forall q | q in s :: Covered(conn, s, r, q)
    decreases h - y, w - x
  {
    if y >= h {
      forall q | q in s ensures Covered(conn, s, seeds, q) {
        assert InBounds(h, w, q);
        assert Before(q, (y, x));
      }
    } else if x >= w {
      ScanRowInv(conn, s, h, w, seeds, y, x);
      ScanSeedsInv(conn, s, h, w, y + 1, 0, seeds);
    } else if (y, x) in s && !Covered(conn, s, seeds, (y, x)) {
      ScanAddInv(conn, s, seeds, y, x);
      ScanSeedsInv(conn, s, h, w, y, x + 1, seeds + [(y, x)]);
    } else {
      ScanSkipInv(conn, s, seeds, y, x);
      ScanSeedsInv(conn, s, h, w, y, x + 1, seeds);
    }
  }

  /** The labelling: seeds in increasing raster order, each the first pixel
      of its component, the components pairwise distinct, and together they
      cover every pixel of s. */
  lemma SeedsSpec(conn: Connectivity, s: set<Cell>, h: nat, w: nat)
    requires s <= Domain(h, w)
    ensures var r := Seeds(conn, s, h, w);
      Increasing(r) && SeedsFirst(conn, s, r) &&
      (forall q | q in s :: Covered(conn, s, r, q)) &&
      (forall i, j | 0 <= i < j < |r| :: r[j] !in Component(conn, s, r[i]))
  {
    var r := Seeds(conn, s, h, w);
    ScanSeedsInv(conn, s, h, w, 0, 0, []);
    forall i, j | 0 <= i < j < |r| ensures r[j] !in Component(conn, s, r[i]) {
      if r[j] in Component(conn, s, r[i]) {
        SameComponent(conn, s, r[i], r[j]);
        ComponentIsComponent(conn, s, r[i]);
        assert false;
      }
    }
  }
}
