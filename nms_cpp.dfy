/** The C++ `nonMaxSupression` of the Boost.Python module `imageModule`:
    for every pixel it clears a `region` vector, pushes the cells of the
    clipped 3x3 window row by row, takes `std::max_element` of it and copies
    the pixel into the zeroed output when it equals that maximum. */
module CppNms {
  import opened Grids
  import PyNms

  /** Preconditions of Block: rows r0..r1-1 exist and each has columns
      c0..c1-1. */
  predicate BlockFits(g: Grid, r0: nat, r1: nat, c0: nat, c1: nat) {
    r1 <= |g| && c0 <= c1 && forall x :: r0 <= x < r1 ==> c1 <= |g[x]|
  }

  /** What the region loops push, in order: rows r0..r1-1, each restricted to
      columns c0..c1-1. */
  function Block(g: Grid, r0: nat, r1: nat, c0: nat, c1: nat): seq<real>
    requires BlockFits(g, r0, r1, c0, c1)
    decreases r1
  {
    if r1 <= r0 then [] else Block(g, r0, r1 - 1, c0, c1) + g[r1 - 1][c0..c1]
  }

  /** Extending a slice by one element appends that element. */
  lemma SliceSnoc(s: seq<real>, lo: nat, hi: nat)
    requires lo <= hi < |s|
    ensures s[lo..hi + 1] == s[lo..hi] + [s[hi]]
  {
  }

  /** Gathering one more row appends its columns c0..c1-1. */
  lemma BlockSnoc(g: Grid, r0: nat, r: nat, c0: nat, c1: nat)
    requires BlockFits(g, r0, r + 1, c0, c1) && r0 <= r
    ensures BlockFits(g, r0, r, c0, c1)
    ensures Block(g, r0, r + 1, c0, c1) == Block(g, r0, r, c0, c1) + g[r][c0..c1]
  {
  }

  /** Every cell of the block's rows and columns is gathered. */
  lemma {:induction false} BlockContains(g: Grid, r0: nat, r1: nat, c0: nat, c1: nat, x: nat, y: nat)
    requires BlockFits(g, r0, r1, c0, c1) && r0 <= x < r1 && c0 <= y < c1
    ensures g[x][y] in Block(g, r0, r1, c0, c1)
  {
    if x == r1 - 1 {
      assert g[x][c0..c1][y - c0] == g[x][y];
    } else {
      BlockContains(g, r0, r1 - 1, c0, c1, x, y);
    }
  }

  /** Every gathered value is a cell of the block's rows and columns. */
  lemma {:induction false} BlockFromCells(g: Grid, r0: nat, r1: nat, c0: nat, c1: nat, k: nat)
    requires BlockFits(g, r0, r1, c0, c1) && k < |Block(g, r0, r1, c0, c1)|
    ensures exists x, y :: r0 <= x < r1 && c0 <= y < c1 && Block(g, r0, r1, c0, c1)[k] == g[x][y]
  {
    var prev := Block(g, r0, r1 - 1, c0, c1);
    if k < |prev| {
      BlockFromCells(g, r0, r1 - 1, c0, c1, k);
    } else {
      var y := c0 + (k - |prev|);
      assert Block(g, r0, r1, c0, c1)[k] == g[r1 - 1][y];
    }
  }

  /** `std::max_element`: the position of the first largest element. */
  function MaxElement(s: seq<real>): (k: nat)
    requires |s| > 0
    ensures k < |s|
    ensures forall m :: 0 <= m < |s| ==> s[m] <= s[k]
    ensures forall m :: 0 <= m < k ==> s[m] < s[k]
  {
    if |s| == 1 then 0
    else
      var k0 := MaxElement(s[..|s| - 1]);
      if s[k0] < s[|s| - 1] then |s| - 1 else k0
  }

  /** The region gathered for pixel (i, j). */
  function Region(g: Grid, i: nat, j: nat): seq<real>
    requires IsRect(g) && InBounds(g, i, j)
  {
    Block(g, Lo(i), Hi(i, |g|) + 1, Lo(j), Hi(j, Width(g)) + 1)
  }

  /** The gathered region of (i, j) is never empty (so dereferencing
      `max_element` is safe), and its largest element is the maximum of the
      clipped window. */
  lemma RegionMaxIsWindowMax(g: Grid, i: nat, j: nat)
    requires IsRect(g) && InBounds(g, i, j)
    ensures |Region(g, i, j)| > 0
    ensures IsWindowMax(g, i, j, Region(g, i, j)[MaxElement(Region(g, i, j))])
  {
    var r0, r1, c0, c1 := Lo(i), Hi(i, |g|) + 1, Lo(j), Hi(j, Width(g)) + 1;
    var region := Region(g, i, j);
    BlockContains(g, r0, r1, c0, c1, i, j);
    var k := MaxElement(region);
    forall a, b | InWindow(g, i, j, a, b) ensures g[a][b] <= region[k] {
      BlockContains(g, r0, r1, c0, c1, a, b);
    }
    BlockFromCells(g, r0, r1, c0, c1, k);
    var x, y :| r0 <= x < r1 && c0 <= y < c1 && region[k] == g[x][y];
    assert InWindow(g, i, j, x, y);
  }

  /** The C++ region maximum and numpy's region maximum agree at every pixel. */
  lemma RegionMaxAgrees(g: Grid, i: nat, j: nat)
    requires IsRect(g) && InBounds(g, i, j)
    ensures |Region(g, i, j)| > 0 && PyNms.NonEmptyRegion(PyNms.Region(g, i, j))
    ensures Region(g, i, j)[MaxElement(Region(g, i, j))] == PyNms.GridMax(PyNms.Region(g, i, j))
  {
    RegionMaxIsWindowMax(g, i, j);
    PyNms.RegionMaxIsWindowMax(g, i, j);
    WindowMaxUnique(g, i, j, Region(g, i, j)[MaxElement(Region(g, i, j))], PyNms.GridMax(PyNms.Region(g, i, j)));
  }

  /** The inner region loop for one row of the window: push the row's cells
      in columns max(j-1, 0)..min(j+1, columns-1), in order. */
  method PushRow(row: seq<real>, region: seq<real>, j: nat) returns (pushed: seq<real>)
    requires j < |row|
    ensures pushed == region + row[Lo(j)..Hi(j, |row|) + 1]
  {
    var columns := |row|;
    pushed := region;
    var yReg := if j - 1 > 0 then j - 1 else 0;
    while yReg <= (if j + 1 < columns - 1 then j + 1 else columns - 1)
      invariant Lo(j) <= yReg <= Hi(j, columns) + 1
      invariant pushed == region + row[Lo(j)..yReg]
    {
      SliceSnoc(row, Lo(j), yReg);
      pushed := pushed + [row[yReg]];
      yReg := yReg + 1;
    }
  }

  /** The region of one pixel: clear `region` and push the cells of the
      clipped window of (i, j) row by row. The image is only read, through
      Python indexing `img[xReg][yReg]`, so it is passed as its value. */
  method GatherRegion(g: Grid, i: nat, j: nat) returns (region: seq<real>)
    requires IsRect(g) && InBounds(g, i, j)
    ensures region == Region(g, i, j)
  {
    var rows := |g|;
    region := [];
    var xReg := if i - 1 > 0 then i - 1 else 0;
    while xReg <= (if i + 1 < rows - 1 then i + 1 else rows - 1)
      invariant Lo(i) <= xReg <= Hi(i, rows) + 1
      invariant region == Block(g, Lo(i), xReg, Lo(j), Hi(j, Width(g)) + 1)
    {
      BlockSnoc(g, Lo(i), xReg, Lo(j), Hi(j, Width(g)) + 1);
      region := PushRow(g[xReg], region, j);
      xReg := xReg + 1;
    }
  }

  /** The `*max_element` of one pixel's region: the largest gathered value, which equals the
      pixel exactly when the pixel is a local maximum. */
  method GatherRegionMax(g: Grid, i: nat, j: nat) returns (max: real)
    requires IsRect(g) && InBounds(g, i, j)
    ensures max == g[i][j] <==> IsLocalMax(g, i, j)
  {
    var region := GatherRegion(g, i, j);
    RegionMaxIsWindowMax(g, i, j);
    max := region[MaxElement(region)];
    WindowMaxTest(g, i, j, max);
  }

  /** `nonMaxSupression(img)`: a zeroed array of the input's shape where each
      pixel equal to its region maximum is copied from the input. */
  method NonMaxSuppression(img: array2<real>) returns (supr: array2<real>)
    ensures fresh(supr)
    ensures supr.Length0 == img.Length0 && supr.Length1 == img.Length1
    ensures Rows(supr) == Nms(Rows(img))
  {
    var rows, columns := img.Length0, img.Length1;
    supr := new real[rows, columns]((_, _) => 0.0);
    var g := Rows(img);
    var i := 0;
    while i < rows
      invariant 0 <= i <= rows
      invariant forall a, b :: 0 <= a < i && 0 <= b < columns ==> supr[a, b] == Suppressed(g, a, b)
      invariant forall a, b :: i <= a < rows && 0 <= b < columns ==> supr[a, b] == 0.0
    {
      var j := 0;
      while j < columns
        invariant 0 <= j <= columns
        invariant forall a, b :: 0 <= a < i && 0 <= b < columns ==> supr[a, b] == Suppressed(g, a, b)
        invariant forall b :: 0 <= b < j ==> supr[i, b] == Suppressed(g, i, b)
        invariant forall a, b :: i <= a < rows && 0 <= b < columns && (a > i || b >= j) ==> supr[a, b] == 0.0
      {
        var currentValue := img[i, j];
        var max := GatherRegionMax(g, i, j);
        if max == img[i, j] {
          supr[i, j] := img[i, j];
        }
        assert supr[i, j] == Suppressed(g, i, j);
        j := j + 1;
      }
      i := i + 1;
    }
    GridExt(Rows(supr), Nms(g));
  }
}
