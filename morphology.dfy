/** 3x3 binary morphology as OpenCV performs it with a full 3x3 kernel and its
    default border: a pixel outside the image counts as foreground for an
    erosion and as background for a dilation. Masks are pixel sets inside
    Domain(h, w). */
module Morphology {
  import opened Grids

  /** The 3x3 window around (y, x), clipped to the image. */
  predicate InWindow(h: int, w: int, y: int, x: int, v: int, u: int) {
    y - 1 <= v <= y + 1 && x - 1 <= u <= x + 1 && 0 <= v < h && 0 <= u < w
  }

  /** `cv2.erode` with a 3x3 kernel, one iteration. */
  function Erode(h: nat, w: nat, s: set<Cell>): (r: set<Cell>)
    ensures r <= Domain(h, w)
  {
    set y, x | 0 <= y < h && 0 <= x < w &&
      (forall v, u | y - 1 <= v <= y + 1 && x - 1 <= u <= x + 1 && 0 <= v < h && 0 <= u < w :: (v, u) in s)
      :: (y, x)
  }

  /** `cv2.dilate` with a 3x3 kernel, one iteration. */
  function Dilate(h: nat, w: nat, s: set<Cell>): (r: set<Cell>)
    ensures r <= Domain(h, w)
  {
    set y, x | 0 <= y < h && 0 <= x < w &&
      (exists v, u | y - 1 <= v <= y + 1 && x - 1 <= u <= x + 1 && 0 <= v < h && 0 <= u < w :: (v, u) in s)
      :: (y, x)
  }

  lemma ErodeAt(h: nat, w: nat, s: set<Cell>, p: Cell)
    ensures p in Erode(h, w, s) <==>
      InBounds(h, w, p) && forall v, u | InWindow(h, w, p.0, p.1, v, u) :: (v, u) in s
  {
  }

  lemma DilateAt(h: nat, w: nat, s: set<Cell>, p: Cell)
    ensures p in Dilate(h, w, s) <==>
      InBounds(h, w, p) && exists v, u | InWindow(h, w, p.0, p.1, v, u) :: (v, u) in s
  {
  }

  /** Erosion repeated n times (`iterations=n`). */
  function ErodeN(h: nat, w: nat, s: set<Cell>, n: nat): (r: set<Cell>)
    ensures n > 0 ==> r <= Domain(h, w)
  {
    if n == 0 then s else Erode(h, w, ErodeN(h, w, s, n - 1))
  }

  /** Dilation repeated n times (`iterations=n`). */
  function DilateN(h: nat, w: nat, s: set<Cell>, n: nat): (r: set<Cell>)
    ensures n > 0 ==> r <= Domain(h, w)
  {
    if n == 0 then s else Dilate(h, w, DilateN(h, w, s, n - 1))
  }

  /** `MORPH_OPEN`, one iteration: erode, then dilate. */
  function Open(h: nat, w: nat, s: set<Cell>): set<Cell> {
    Dilate(h, w, Erode(h, w, s))
  }

  /** `MORPH_CLOSE` with n iterations: dilate n times, then erode n times. */
  function Close(h: nat, w: nat, s: set<Cell>, n: nat): set<Cell> {
    ErodeN(h, w, DilateN(h, w, s, n), n)
  }

  // ---------- properties ----------

  /** Erosion only removes pixels. */
  lemma ErodeShrinks(h: nat, w: nat, s: set<Cell>)
    ensures Erode(h, w, s) <= s
  {
    forall p | p in Erode(h, w, s) ensures p in s {
      assert InWindow(h, w, p.0, p.1, p.0, p.1);
    }
  }

  lemma {:induction false} ErodeNShrinks(h: nat, w: nat, s: set<Cell>, n: nat)
    ensures ErodeN(h, w, s, n) <= s
  {
    if n > 0 {
      ErodeNShrinks(h, w, s, n - 1);
      ErodeShrinks(h, w, ErodeN(h, w, s, n - 1));
    }
  }

  /** Dilation keeps every in-image pixel. */
  lemma DilateGrows(h: nat, w: nat, s: set<Cell>)
    ensures s * Domain(h, w) <= Dilate(h, w, s)
  {
    forall p | p in s * Domain(h, w) ensures p in Dilate(h, w, s) {
      assert InWindow(h, w, p.0, p.1, p.0, p.1);
    }
  }

  lemma ErodeMonotone(h: nat, w: nat, a: set<Cell>, b: set<Cell>)
    requires a <= b
    ensures Erode(h, w, a) <= Erode(h, w, b)
  {
  }

  lemma {:induction false} ErodeNMonotone(h: nat, w: nat, a: set<Cell>, b: set<Cell>, n: nat)
    requires a <= b
    ensures ErodeN(h, w, a, n) <= ErodeN(h, w, b, n)
  {
    if n > 0 {
      var ea, eb := ErodeN(h, w, a, n - 1), ErodeN(h, w, b, n - 1);
      ErodeNMonotone(h, w, a, b, n - 1);
      ErodeMonotone(h, w, ea, eb);
      assert ErodeN(h, w, a, n) == Erode(h, w, ea);
      assert ErodeN(h, w, b, n) == Erode(h, w, eb);
    }
  }

  /** The opening never adds foreground: a pixel survives only if some whole
      clipped 3x3 window around a neighbour of it was foreground. */
  lemma OpenShrinks(h: nat, w: nat, s: set<Cell>)
    ensures Open(h, w, s) <= s
  {
    var e := Erode(h, w, s);
    forall p | p in Open(h, w, s) ensures p in s {
      DilateAt(h, w, e, p);
      var v, u :| InWindow(h, w, p.0, p.1, v, u) && (v, u) in e;
      ErodeAt(h, w, s, (v, u));
      assert InWindow(h, w, v, u, p.0, p.1);
    }
  }

  /** One dilate-then-erode round never removes an in-image pixel. */
  lemma CloseOnceGrows(h: nat, w: nat, s: set<Cell>)
    ensures s * Domain(h, w) <= Erode(h, w, Dilate(h, w, s))
  {
    var d := Dilate(h, w, s);
    forall p | p in s * Domain(h, w) ensures p in Erode(h, w, d) {
      forall v, u | InWindow(h, w, p.0, p.1, v, u) ensures (v, u) in d {
        assert InWindow(h, w, v, u, p.0, p.1);
      }
    }
  }

  /** The closing with n iterations never removes an in-image pixel. */
  lemma {:induction false} CloseGrows(h: nat, w: nat, s: set<Cell>, n: nat)
    ensures s * Domain(h, w) <= Close(h, w, s, n)
  {
    if n > 0 {
      var d := DilateN(h, w, s, n - 1);
      var c := Erode(h, w, Dilate(h, w, d));
      CloseGrows(h, w, s, n - 1);
      CloseOnceGrows(h, w, d);
      ErodeNMonotone(h, w, d * Domain(h, w), c, n - 1);
      ErodeNCommute(h, w, Dilate(h, w, d), n - 1);
      if n - 1 > 0 { ErodeNOutside(h, w, d, n - 1); }
    }
  }

  /** Eroding n+1 times is one erosion after n, or n after one. */
  lemma {:induction false} ErodeNCommute(h: nat, w: nat, s: set<Cell>, n: nat)
    ensures Erode(h, w, ErodeN(h, w, s, n)) == ErodeN(h, w, Erode(h, w, s), n)
  {
    if n > 0 {
      ErodeNCommute(h, w, s, n - 1);
    }
  }

  /** Pixels outside the image play no part in erosion. */
  lemma {:induction false} ErodeNOutside(h: nat, w: nat, s: set<Cell>, n: nat)
    requires n > 0
    ensures ErodeN(h, w, s, n) == ErodeN(h, w, s * Domain(h, w), n)
  {
    if n == 1 {
      assert Erode(h, w, s) == Erode(h, w, s * Domain(h, w));
    } else {
      ErodeNOutside(h, w, s, n - 1);
    }
  }

  /** OpenCV's border rule: an all-foreground image erodes to itself, where
      a zero-padded border would strip the frame. */
  lemma ErodeFullImage(h: nat, w: nat)
    ensures Erode(h, w, Domain(h, w)) == Domain(h, w)
  {
  }

  /** ... and an empty image stays empty under dilation. */
  lemma DilateEmpty(h: nat, w: nat)
    ensures Dilate(h, w, {}) == {}
  {
  }
}
