/** The Python `non_max_supression`: nested loops over a freshly zeroed image,
    taking each pixel's region as a numpy slice clipped at the borders and
    comparing the pixel with `np.max` of that region. */
module PyNms {
  import opened Grids

  /** numpy/Python slicing `s[lo:hi]` for non-negative bounds: the stop is
      truncated to the length and an empty range gives an empty slice. */
  function Slice<T>(s: seq<T>, lo: nat, hi: nat): (r: seq<T>)
    ensures |r| == if lo < hi && lo < |s| then (if hi < |s| then hi else |s|) - lo else 0
    ensures forall k :: 0 <= k < |r| ==> r[k] == s[lo + k]
  {
    var stop := if hi < |s| then hi else |s|;
    if lo < stop then s[lo..stop] else []
  }

  /** The slice end `i+2` of the window is clipped, never wrapped: the slice
      is exactly rows (or columns) Lo(i)..Hi(i, |s|). */
  lemma WindowSliceIsClipped<T>(s: seq<T>, i: nat)
    requires i < |s|
    ensures Slice(s, Lo(i), i + 2) == s[Lo(i)..Hi(i, |s|) + 1]
  {
  }

  /** numpy 2D slicing `g[r0:r1, c0:c1]`. */
  function Slice2(g: Grid, r0: nat, r1: nat, c0: nat, c1: nat): Grid {
    var rows := Slice(g, r0, r1);
    seq(|rows|, a requires 0 <= a < |rows| => Slice(rows[a], c0, c1))
  }

  /** The largest element of a non-empty sequence. */
  function Max(s: seq<real>): (m: real)
    requires |s| > 0
    ensures m in s
    ensures forall k :: 0 <= k < |s| ==> s[k] <= m
  {
    if |s| == 1 then s[0]
    else
      var m0 := Max(s[..|s| - 1]);
      if m0 < s[|s| - 1] then s[|s| - 1] else m0
  }

  predicate NonEmptyRegion(r: Grid) {
    |r| > 0 && forall a :: 0 <= a < |r| ==> |r[a]| > 0
  }

  /** `np.max` of a non-empty 2D region: a cell of the region no smaller than
      any other cell. */
  function GridMax(r: Grid): (m: real)
    requires NonEmptyRegion(r)
    ensures exists a, b :: 0 <= a < |r| && 0 <= b < |r[a]| && r[a][b] == m
    ensures forall a, b :: 0 <= a < |r| && 0 <= b < |r[a]| ==> r[a][b] <= m
  {
    var last := Max(r[|r| - 1]);
    if |r| == 1 then last
    else
      var m0 := GridMax(r[..|r| - 1]);
      if m0 < last then last else m0
  }

  /** The region numpy takes for pixel (i, j). */
  function Region(g: Grid, i: nat, j: nat): Grid {
    Slice2(g, Lo(i), i + 2, Lo(j), j + 2)
  }

  /** The region of (i, j) is the clipped window: its cell (a, b) is the
      image cell (Lo(i) + a, Lo(j) + b), and it spans Lo..Hi in both axes. */
  lemma RegionIsWindow(g: Grid, i: nat, j: nat)
    requires IsRect(g) && InBounds(g, i, j)
    ensures NonEmptyRegion(Region(g, i, j))
    ensures |Region(g, i, j)| == Hi(i, |g|) - Lo(i) + 1
    ensures forall a :: 0 <= a < |Region(g, i, j)| ==> |Region(g, i, j)[a]| == Hi(j, Width(g)) - Lo(j) + 1
    ensures forall a, b :: 0 <= a < |Region(g, i, j)| && 0 <= b < |Region(g, i, j)[a]| ==>
              Region(g, i, j)[a][b] == g[Lo(i) + a][Lo(j) + b]
  {
    var rows := Slice(g, Lo(i), i + 2);
    forall a | 0 <= a < |rows| ensures |rows[a]| == Width(g) {
      assert rows[a] == g[Lo(i) + a];
    }
  }

  /** numpy's maximum of the region of (i, j) is the maximum of the clipped
      window: no window cell exceeds it and some window cell attains it. */
  lemma RegionMaxIsWindowMax(g: Grid, i: nat, j: nat)
    requires IsRect(g) && InBounds(g, i, j)
    ensures NonEmptyRegion(Region(g, i, j))
    ensures IsWindowMax(g, i, j, GridMax(Region(g, i, j)))
  {
    RegionIsWindow(g, i, j);
    var region := Region(g, i, j);
    var m := GridMax(region);
    forall a, b | InWindow(g, i, j, a, b) ensures g[a][b] <= m {
      assert region[a - Lo(i)][b - Lo(j)] == g[a][b];
    }
    var x, y :| 0 <= x < |region| && 0 <= y < |region[x]| && region[x][y] == m;
    assert InWindow(g, i, j, Lo(i) + x, Lo(j) + y);
  }

  /** The maximum of the numpy region of (i, j), sliced from one row and
      column before the pixel to one after it: the maximum of the clipped
      window, which equals the pixel exactly when the pixel is a local
      maximum. */
  method RegionMax(g: Grid, i: nat, j: nat) returns (maxVal: real)
    requires IsRect(g) && InBounds(g, i, j)
    ensures maxVal == g[i][j] <==> IsLocalMax(g, i, j)
  {
    RegionMaxIsWindowMax(g, i, j);
    var region := Region(g, i, j);
    maxVal := GridMax(region);
    WindowMaxTest(g, i, j, maxVal);
  }

  /** `non_max_supression(img)`: the input is only read, the output is a
      fresh array of the same shape holding the suppressed image. */
  method NonMaxSuppression(img: array2<real>) returns (supressed: array2<real>)
    ensures fresh(supressed)
    ensures supressed.Length0 == img.Length0 && supressed.Length1 == img.Length1
    ensures Rows(supressed) == Nms(Rows(img))
  {
    supressed := new real[img.Length0, img.Length1]((_, _) => 0.0);
    var g := Rows(img);
    for i := 0 to img.Length0
      invariant forall a, b :: 0 <= a < i && 0 <= b < img.Length1 ==> supressed[a, b] == Suppressed(g, a, b)
      invariant forall a, b :: i <= a < img.Length0 && 0 <= b < img.Length1 ==> supressed[a, b] == 0.0
    {
      for j := 0 to img.Length1
        invariant forall a, b :: 0 <= a < i && 0 <= b < img.Length1 ==> supressed[a, b] == Suppressed(g, a, b)
        invariant forall b :: 0 <= b < j ==> supressed[i, b] == Suppressed(g, i, b)
        invariant forall a, b :: i <= a < img.Length0 && 0 <= b < img.Length1 && (a > i || b >= j) ==> supressed[a, b] == 0.0
      {
        var maxVal := RegionMax(g, i, j);
        var currentVal := img[i, j];
        if maxVal == currentVal {
          supressed[i, j] := currentVal;
        }
        assert supressed[i, j] == Suppressed(g, i, j);
      }
    }
    GridExt(Rows(supressed), Nms(g));
  }
}
