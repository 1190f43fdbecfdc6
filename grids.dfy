/** Pixel grids, binary masks as sets of pixel positions, and the 0/255
    interchange form in which every stage of the segmenter passes masks on. */
module Grids {

  /** One 8-bit channel value (numpy `uint8`). */
  type Byte = x: int | 0 <= x < 256

  /** A pixel position: (row, column). */
  type Cell = (int, int)

  function Max(a: int, b: int): int { if a >= b then a else b }

  /** Number of columns of a grid, read off its first row. */
  function Width<T>(g: seq<seq<T>>): nat { if |g| == 0 then 0 else |g[0]| }

  predicate HasShape<T>(g: seq<seq<T>>, h: nat, w: nat) {
    |g| == h && forall y | 0 <= y < h :: |g[y]| == w
  }

  /** A grid whose rows all have the same length (a 2-D numpy array). */
  predicate IsRect<T>(g: seq<seq<T>>) { HasShape(g, |g|, Width(g)) }

  predicate InBounds(h: int, w: int, p: Cell) { 0 <= p.0 < h && 0 <= p.1 < w }

  /** Every pixel position of an h-by-w image. */
  function Domain(h: nat, w: nat): (d: set<Cell>)
    ensures forall p :: p in d <==> InBounds(h, w, p)
  {
    set y, x | 0 <= y < h && 0 <= x < w :: (y, x)
  }

  /** The outer one-pixel frame of an h-by-w image. */
  predicate OnFrame(h: int, w: int, p: Cell) {
    InBounds(h, w, p) && (p.0 == 0 || p.0 == h - 1 || p.1 == 0 || p.1 == w - 1)
  }

  /** The foreground of an 8-bit mask: the pixels strictly above 127. */
  function Binarize(m: seq<seq<Byte>>): (s: set<Cell>)
    requires IsRect(m)
    ensures s <= Domain(|m|, Width(m))
    ensures forall y, x :: (y, x) in s <==> 0 <= y < |m| && 0 <= x < Width(m) && m[y][x] > 127
  {
    set y, x | 0 <= y < |m| && 0 <= x < Width(m) && m[y][x] > 127 :: (y, x)
  }

  /** The 0/255 form of a mask (`(mask * 255).astype(np.uint8)`). */
  function ToU8(h: nat, w: nat, s: set<Cell>): (m: seq<seq<Byte>>)
    ensures HasShape(m, h, w) && IsBinaryU8(m)
    ensures forall y, x | 0 <= y < h && 0 <= x < w :: m[y][x] == if (y, x) in s then 255 else 0
  {
    seq(h, y => seq(w, x => if (y, x) in s then 255 else 0))
  }

  /** A mask in 0/255 form, as every stage returns it. */
  predicate IsBinaryU8(m: seq<seq<Byte>>) {
    forall y, x | 0 <= y < |m| && 0 <= x < |m[y]| :: m[y][x] == 0 || m[y][x] == 255
  }

  /** Re-binarising a 0/255 mask gives back exactly the pixel set it was made from. */
  lemma BinarizeToU8(h: nat, w: nat, s: set<Cell>)
    requires s <= Domain(h, w)
    ensures IsRect(ToU8(h, w, s))
    ensures Binarize(ToU8(h, w, s)) == s
  {
    var m := ToU8(h, w, s);
    assert h > 0 ==> Width(m) == w;
    forall p | p in s ensures p in Binarize(m) {
      assert InBounds(h, w, p);
    }
  }

  /** A 0/255 mask is determined by its foreground. */
  lemma ToU8Binarize(m: seq<seq<Byte>>)
    requires IsRect(m) && IsBinaryU8(m)
    ensures ToU8(|m|, Width(m), Binarize(m)) == m
  {
    var r := ToU8(|m|, Width(m), Binarize(m));
    forall y | 0 <= y < |m| ensures r[y] == m[y] {
      forall x | 0 <= x < Width(m) ensures r[y][x] == m[y][x] {
        assert m[y][x] == 0 || m[y][x] == 255;
      }
    }
  }

  /** Materialises a per-pixel function over an h-by-w image. */
  function Tabulate<T>(h: nat, w: nat, f: Cell -> T): (g: seq<seq<T>>)
    ensures HasShape(g, h, w)
    ensures forall y, x | 0 <= y < h && 0 <= x < w :: g[y][x] == f((y, x))
  {
    seq(h, y => seq(w, x => f((y, x))))
  }

  lemma MulMono(a: int, b: int, c: nat)
    requires a <= b
    ensures a * c <= b * c
  {
  }

  /** The contents of a 2-D array, row by row. */
  function Snapshot<T>(a: array2<T>): (g: seq<seq<T>>)
    reads a
    ensures HasShape(g, a.Length0, a.Length1)
    ensures forall y, x | 0 <= y < a.Length0 && 0 <= x < a.Length1 :: g[y][x] == a[y, x]
  {
    seq(a.Length0, y requires 0 <= y < a.Length0 reads a =>
      seq(a.Length1, x requires 0 <= x < a.Length1 reads a => a[y, x]))
  }

  // ---------- counting over boolean grids (numpy `.sum()` on a bool array) ----------

  function CountRow(r: seq<bool>): nat {
    if |r| == 0 then 0 else CountRow(r[..|r| - 1]) + (if r[|r| - 1] then 1 else 0)
  }

  /** Number of true pixels of a boolean grid. */
  function CountOf(m: seq<seq<bool>>): nat {
    if |m| == 0 then 0 else CountOf(m[..|m| - 1]) + CountRow(m[|m| - 1])
  }

  /** Pixelwise conjunction of two boolean grids of the same shape (`a & b`). */
  function AndGrid(a: seq<seq<bool>>, b: seq<seq<bool>>): (r: seq<seq<bool>>)
    requires |a| == |b| && forall y | 0 <= y < |a| :: |a[y]| == |b[y]|
    ensures |r| == |a| && forall y | 0 <= y < |a| :: |r[y]| == |a[y]|
  {
    seq(|a|, y requires 0 <= y < |a| => seq(|a[y]|, x requires 0 <= x < |a[y]| => a[y][x] && b[y][x]))
  }

  lemma {:induction false} CountRowAnd(a: seq<bool>, b: seq<bool>)
    requires |a| == |b|
    ensures CountRow(seq(|a|, x requires 0 <= x < |a| => a[x] && b[x])) <= CountRow(a)
  {
    if |a| > 0 {
      var n := |a| - 1;
      var ab := seq(|a|, x requires 0 <= x < |a| => a[x] && b[x]);
      var ab' := seq(n, x requires 0 <= x < n => a[..n][x] && b[..n][x]);
      assert ab[..n] == ab';
      CountRowAnd(a[..n], b[..n]);
    }
  }

  /** Restricting a mask never adds pixels: |a & b| <= |a|. */
  lemma {:induction false} CountAndAtMost(a: seq<seq<bool>>, b: seq<seq<bool>>)
    requires |a| == |b| && forall y | 0 <= y < |a| :: |a[y]| == |b[y]|
    ensures CountOf(AndGrid(a, b)) <= CountOf(a)
  {
    if |a| > 0 {
      var n := |a| - 1;
      assert AndGrid(a, b)[..n] == AndGrid(a[..n], b[..n]);
      CountAndAtMost(a[..n], b[..n]);
      CountRowAnd(a[n], b[n]);
      assert AndGrid(a, b)[n] == seq(|a[n]|, x requires 0 <= x < |a[n]| => a[n][x] && b[n][x]);
    }
  }

  /** Sum of a real-valued grid over the pixels a boolean grid selects. */
  function SumRow(v: seq<real>, r: seq<bool>): real
    requires |v| == |r|
  {
    if |r| == 0 then 0.0
    else SumRow(v[..|r| - 1], r[..|r| - 1]) + (if r[|r| - 1] then v[|r| - 1] else 0.0)
  }

  function SumOver(v: seq<seq<real>>, m: seq<seq<bool>>): real
    requires |v| == |m| && forall y | 0 <= y < |m| :: |v[y]| == |m[y]|
  {
    if |m| == 0 then 0.0
    else SumOver(v[..|m| - 1], m[..|m| - 1]) + SumRow(v[|m| - 1], m[|m| - 1])
  }
}
