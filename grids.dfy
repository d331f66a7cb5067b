/** Images as values, the clipped 3x3 neighbourhood, and the reference
    definition of 3x3 non-maximum suppression shared by the Python and the
    C++ implementations. */
module Grids {

  /** A grayscale image as a row-major grid of samples. */
  type Grid = seq<seq<real>>

  function Width(g: Grid): nat {
    if |g| == 0 then 0 else |g[0]|
  }

  /** Every row has the same length (a 2D numpy array). */
  predicate IsRect(g: Grid) {
    forall i :: 0 <= i < |g| ==> |g[i]| == Width(g)
  }

  predicate InBounds(g: Grid, i: int, j: int) {
    0 <= i < |g| && 0 <= j < Width(g)
  }

  predicate SameShape(g: Grid, h: Grid) {
    |g| == |h| && Width(g) == Width(h)
  }

  /** The value view of a 2D array. */
  function Rows(a: array2<real>): (g: Grid)
    reads a
    ensures |g| == a.Length0 && IsRect(g)
    ensures a.Length0 > 0 ==> Width(g) == a.Length1
    ensures forall i, j :: 0 <= i < a.Length0 && 0 <= j < a.Length1 ==> g[i][j] == a[i, j]
  {
    seq(a.Length0, i reads a requires 0 <= i < a.Length0 =>
      seq(a.Length1, j reads a requires 0 <= j < a.Length1 => a[i, j]))
  }

  /** Two grids with the same rows and the same cells are equal. */
  lemma GridExt(g: Grid, h: Grid)
    requires |g| == |h|
    requires forall i :: 0 <= i < |g| ==> |g[i]| == |h[i]|
    requires forall i, j :: 0 <= i < |g| && 0 <= j < |g[i]| ==> g[i][j] == h[i][j]
    ensures g == h
  {
    forall i | 0 <= i < |g| ensures g[i] == h[i] {
      assert forall j :: 0 <= j < |g[i]| ==> g[i][j] == h[i][j];
    }
  }

  /** First row (or column) of the window around index i: max(i-1, 0). */
  function Lo(i: int): int {
    if i - 1 > 0 then i - 1 else 0
  }

  /** Last row (or column) of the window around index i in a dimension of
      size n: min(i+1, n-1). */
  function Hi(i: int, n: int): int {
    if i + 1 < n - 1 then i + 1 else n - 1
  }

  /** (a, b) lies in the neighbourhood of (i, j) clipped at the borders. */
  predicate InWindow(g: Grid, i: int, j: int, a: int, b: int) {
    Lo(i) <= a <= Hi(i, |g|) && Lo(j) <= b <= Hi(j, Width(g))
  }

  /** The clipped window is exactly the in-bounds part of the 3x3 block
      centred on (i, j): never padded, wrapped or re-centred. It always
      contains (i, j) itself. */
  lemma WindowIsClippedNeighbourhood(g: Grid, i: int, j: int, a: int, b: int)
    requires InBounds(g, i, j)
    ensures InWindow(g, i, j, i, j)
    ensures InWindow(g, i, j, a, b) <==> InBounds(g, a, b) && -1 <= a - i <= 1 && -1 <= b - j <= 1
  {
  }

  /** A window holds 1 to 3 rows and 1 to 3 columns: 1, 2, 3, 4, 6 or 9 cells. */
  lemma WindowExtent(i: int, n: int)
    requires 0 <= i < n
    ensures 0 <= Lo(i) <= i <= Hi(i, n) < n
    ensures 1 <= Hi(i, n) - Lo(i) + 1 <= 3
    ensures n >= 3 ==> (Hi(i, n) - Lo(i) + 1 == 3 <==> 0 < i < n - 1)
  {
  }

  /** The pixel equals the maximum of its clipped window, i.e. no cell of the
      window is larger. */
  ghost predicate IsLocalMax(g: Grid, i: int, j: int)
    requires IsRect(g) && InBounds(g, i, j)
  {
    forall a, b :: InWindow(g, i, j, a, b) ==> g[a][b] <= g[i][j]
  }

  /** m is the maximum of the clipped window of (i, j): no cell of the
      window exceeds it and some cell attains it. */
  ghost predicate IsWindowMax(g: Grid, i: int, j: int, m: real)
    requires IsRect(g) && InBounds(g, i, j)
  {
    && (forall a, b :: InWindow(g, i, j, a, b) ==> g[a][b] <= m)
    && (exists a, b :: InWindow(g, i, j, a, b) && g[a][b] == m)
  }

  /** The test both implementations apply: the window maximum equals the
      pixel exactly when the pixel is a local maximum. */
  lemma WindowMaxTest(g: Grid, i: int, j: int, m: real)
    requires IsRect(g) && InBounds(g, i, j) && IsWindowMax(g, i, j, m)
    ensures m == g[i][j] <==> IsLocalMax(g, i, j)
  {
    assert InWindow(g, i, j, i, j);
    if IsLocalMax(g, i, j) {
      var a, b :| InWindow(g, i, j, a, b) && g[a][b] == m;
      assert g[a][b] <= g[i][j];
    }
  }

  /** A window has only one maximum. */
  lemma WindowMaxUnique(g: Grid, i: int, j: int, m: real, n: real)
    requires IsRect(g) && InBounds(g, i, j)
    requires IsWindowMax(g, i, j, m) && IsWindowMax(g, i, j, n)
    ensures m == n
  {
    var a, b :| InWindow(g, i, j, a, b) && g[a][b] == m;
    var c, d :| InWindow(g, i, j, c, d) && g[c][d] == n;
    assert g[a][b] <= n && g[c][d] <= m;
  }

  /** The output pixel of non-maximum suppression at (i, j). */
  ghost function Suppressed(g: Grid, i: int, j: int): real
    requires IsRect(g) && InBounds(g, i, j)
  {
    if IsLocalMax(g, i, j) then g[i][j] else 0.0
  }

  /** 3x3 non-maximum suppression: a fresh image of the input's shape where a
      pixel keeps its value when it equals the maximum of its clipped window
      and is 0 otherwise. */
  ghost function Nms(g: Grid): (r: Grid)
    requires IsRect(g)
    ensures SameShape(r, g) && IsRect(r)
    ensures forall i, j :: InBounds(g, i, j) ==> r[i][j] == g[i][j] || r[i][j] == 0.0
    ensures forall i, j :: InBounds(g, i, j) ==> r[i][j] == Suppressed(g, i, j)
  {
    seq(|g|, i requires 0 <= i < |g| =>
      seq(Width(g), j requires 0 <= j < Width(g) => Suppressed(g, i, j)))
  }

  /** Plateau: on a constant image every pixel ties with its window maximum,
      so every pixel survives. */
  lemma ConstantImageSurvives(g: Grid, c: real)
    requires IsRect(g)
    requires forall i, j :: InBounds(g, i, j) ==> g[i][j] == c
    ensures Nms(g) == g
  {
    var r := Nms(g);
    forall i, j | InBounds(g, i, j) ensures r[i][j] == g[i][j] {
      assert IsLocalMax(g, i, j) by {
        forall a, b | InWindow(g, i, j, a, b) ensures g[a][b] <= g[i][j] {
          assert InBounds(g, a, b);
        }
      }
    }
    GridExt(r, g);
  }

  /** A pixel no smaller than any pixel of the image always survives. */
  lemma GlobalMaxSurvives(g: Grid, i: int, j: int)
    requires IsRect(g) && InBounds(g, i, j)
    requires forall a, b :: InBounds(g, a, b) ==> g[a][b] <= g[i][j]
    ensures Nms(g)[i][j] == g[i][j]
  {
    assert IsLocalMax(g, i, j) by {
      forall a, b | InWindow(g, i, j, a, b) ensures g[a][b] <= g[i][j] {
        assert InBounds(g, a, b);
      }
    }
  }

  predicate NonNegative(g: Grid) {
    forall i, j :: 0 <= i < |g| && 0 <= j < |g[i]| ==> g[i][j] >= 0.0
  }

  /** Suppression keeps a non-negative image non-negative. */
  lemma NmsNonNegative(g: Grid)
    requires IsRect(g) && NonNegative(g)
    ensures NonNegative(Nms(g))
  {
    var r := Nms(g);
    forall i, j | 0 <= i < |r| && 0 <= j < |r[i]| ensures r[i][j] >= 0.0 {
      assert InBounds(g, i, j);
    }
  }

  /** On a non-negative image suppression is idempotent: every survivor is
      still the maximum of its window once its neighbours are 0 or smaller
      survivors, and a suppressed pixel is 0 either way. */
  lemma NmsIdempotent(g: Grid)
    requires IsRect(g) && NonNegative(g)
    ensures Nms(Nms(g)) == Nms(g)
  {
    var s := Nms(g);
    var t := Nms(s);
    forall i, j | InBounds(s, i, j) ensures t[i][j] == s[i][j] {
      assert InBounds(g, i, j);
      if IsLocalMax(g, i, j) {
        assert IsLocalMax(s, i, j) by {
          forall a, b | InWindow(s, i, j, a, b) ensures s[a][b] <= s[i][j] {
            assert InWindow(g, i, j, a, b) && InBounds(g, a, b);
            assert g[a][b] <= g[i][j];
            assert g[i][j] >= 0.0;
          }
        }
      } else {
        assert s[i][j] == 0.0;
      }
    }
    GridExt(t, s);
  }

  /** Without the sign condition idempotence fails: in [[-1, -2]] the first
      pixel survives, the second becomes 0, and then 0 beats -1. */
  lemma NmsNotIdempotentOnNegatives()
    ensures var g: Grid := [[-1.0, -2.0]]; IsRect(g) && Nms(Nms(g)) != Nms(g)
  {
    var g: Grid := [[-1.0, -2.0]];
    assert InWindow(g, 0, 0, 0, 1) && InWindow(g, 0, 1, 0, 0);
    assert IsLocalMax(g, 0, 0);
    assert !IsLocalMax(g, 0, 1);
    var s := Nms(g);
    assert s[0][0] == -1.0 && s[0][1] == 0.0;
    assert InWindow(s, 0, 0, 0, 1);
    assert !IsLocalMax(s, 0, 0);
    assert Nms(s)[0][0] == 0.0;
  }

  /** (a, b) comes strictly before (c, d) in row-major order. */
  predicate Before(a: int, b: int, c: int, d: int) {
    a < c || (a == c && b < d)
  }

  /** On an image that strictly increases in row-major order only the last
      pixel is a local maximum: every other pixel has a larger right or lower
      neighbour. */
  lemma IncreasingImageKeepsOnlyLast(g: Grid, i: int, j: int)
    requires IsRect(g) && InBounds(g, i, j)
    requires forall a, b, c, d :: InBounds(g, a, b) && InBounds(g, c, d) && Before(a, b, c, d) ==> g[a][b] < g[c][d]
    ensures Nms(g)[i][j] == if i == |g| - 1 && j == Width(g) - 1 then g[i][j] else 0.0
  {
    if i == |g| - 1 && j == Width(g) - 1 {
      assert IsLocalMax(g, i, j) by {
        forall a, b | InWindow(g, i, j, a, b) ensures g[a][b] <= g[i][j] {
          assert InBounds(g, a, b);
          if a != i || b != j {
            assert Before(a, b, i, j);
          }
        }
      }
    } else if j < Width(g) - 1 {
      assert InWindow(g, i, j, i, j + 1) && Before(i, j, i, j + 1);
      assert g[i][j] < g[i][j + 1];
    } else {
      assert InWindow(g, i, j, i + 1, j) && Before(i, j, i + 1, j);
      assert g[i][j] < g[i + 1][j];
    }
  }
}
