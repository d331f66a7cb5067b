/** The Laplacian scale space of `non-max-supression.py`: the LoG filter built
    from OpenCV's separable kernels, and the driver that builds one suppressed
    level per scale. OpenCV itself is not modelled: its three calls are
    function values supplied by the caller. */
module ScaleSpace {
  import opened Grids
  import PyNms
  import CppNms

  /** A separable kernel: its coefficients laid out as a ksize x 1 column, as
      OpenCV returns them, or as a 1 x ksize row once transposed. */
  datatype Kernel = Column(coeffs: seq<real>) | Row(coeffs: seq<real>)

  /** `cv2.filter2D(src, cv2.CV_64F, kernel, borderType=border)`: the
      output has the shape of its source. */
  type Filter = f: (Grid, Kernel, int) -> Grid
    | forall src, kernel, border :: IsRect(src) ==> IsRect(f(src, kernel, border)) && SameShape(f(src, kernel, border), src)
    witness (src: Grid, kernel: Kernel, border: int) => src

  datatype Cv2 = Cv2(
    filter2D: Filter,
    getGaussianKernel: (int, real) -> seq<real>,
    getDerivKernels: (int, int, int) -> (seq<real>, seq<real>))

  function Filter2D(cv: Cv2, src: Grid, kernel: Kernel, border: int): (r: Grid)
    requires IsRect(src)
    ensures IsRect(r) && SameShape(r, src)
  {
    cv.filter2D(src, kernel, border)
  }

  function Reverse(s: seq<real>): (r: seq<real>)
    ensures |r| == |s|
    ensures forall k :: 0 <= k < |s| ==> r[k] == s[|s| - 1 - k]
  {
    if |s| == 0 then [] else [s[|s| - 1]] + Reverse(s[..|s| - 1])
  }

  /** `np.flip(k)` with no axis: the coefficients reversed, the layout
      kept. */
  function Flip(k: Kernel): Kernel {
    match k
    case Column(c) => Column(Reverse(c))
    case Row(c) => Row(Reverse(c))
  }

  /** `k.T`: a column becomes a row and a row a column. */
  function Transpose(k: Kernel): Kernel {
    match k
    case Column(c) => Row(c)
    case Row(c) => Column(c)
  }

  /** `apply_kernel`: the separable convolution, correlating with the flipped
      X kernel transposed to a row and then with the flipped Y kernel. The
      result has the image's shape. */
  function ApplyKernel(cv: Cv2, img: Grid, kx: Kernel, ky: Kernel, border: int): (r: Grid)
    requires IsRect(img)
    ensures IsRect(r) && SameShape(r, img)
  {
    var kxFlip := Flip(kx);
    var kyFlip := Flip(ky);
    var convX := Filter2D(cv, img, Transpose(kxFlip), border);
    Filter2D(cv, convX, kyFlip, border)
  }

  /** `gaussian_kernel`: an OpenCV Gaussian kernel per axis, applied as a
      separable convolution. */
  function GaussianKernel(cv: Cv2, img: Grid, ksizeX: int, ksizeY: int, sigmaX: real, sigmaY: real, border: int): (r: Grid)
    requires IsRect(img)
    ensures IsRect(r) && SameShape(r, img)
  {
    var kernelX := Column(cv.getGaussianKernel(ksizeX, sigmaX));
    var kernelY := Column(cv.getGaussianKernel(ksizeY, sigmaY));
    ApplyKernel(cv, img, kernelX, kernelY, border)
  }

  /** `derivative_kernel`: the normalised Sobel derivative kernels of orders
      dx and dy, applied as a separable convolution. */
  function DerivativeKernel(cv: Cv2, img: Grid, dx: int, dy: int, ksize: int, border: int): (r: Grid)
    requires IsRect(img)
    ensures IsRect(r) && SameShape(r, img)
  {
    var kernels := cv.getDerivKernels(dx, dy, ksize);
    ApplyKernel(cv, img, Column(kernels.0), Column(kernels.1), border)
  }

  /** numpy `a + b` on two arrays of one shape. */
  function Add(a: Grid, b: Grid): (r: Grid)
    requires IsRect(a) && IsRect(b) && SameShape(a, b)
    ensures IsRect(r) && SameShape(r, a)
    ensures forall i, j :: InBounds(a, i, j) ==> r[i][j] == a[i][j] + b[i][j]
  {
    seq(|a|, i requires 0 <= i < |a| =>
      seq(Width(a), j requires 0 <= j < Width(a) => a[i][j] + b[i][j]))
  }

  /** The order of the two second derivatives in the Laplacian is
      immaterial. */
  lemma AddCommutative(a: Grid, b: Grid)
    requires IsRect(a) && IsRect(b) && SameShape(a, b)
    ensures Add(a, b) == Add(b, a)
  {
    GridExt(Add(a, b), Add(b, a));
  }

  /** `log_kernel`: the second X derivative plus the second Y derivative of
      the Gaussian-smoothed image. The result has the image's shape and each
      pixel is the sum of the two derivative images at that pixel. */
  function LogKernel(cv: Cv2, img: Grid, ksize: int, sigmaX: real, sigmaY: real, border: int): (r: Grid)
    requires IsRect(img)
    ensures IsRect(r) && SameShape(r, img)
    ensures var gauss := GaussianKernel(cv, img, ksize, ksize, sigmaX, sigmaY, border);
            forall i, j :: InBounds(img, i, j) ==>
              r[i][j] == DerivativeKernel(cv, gauss, 2, 0, ksize, border)[i][j] + DerivativeKernel(cv, gauss, 0, 2, ksize, border)[i][j]
  {
    var gauss := GaussianKernel(cv, img, ksize, ksize, sigmaX, sigmaY, border);
    var dx2 := DerivativeKernel(cv, gauss, 2, 0, ksize, border);
    var dy2 := DerivativeKernel(cv, gauss, 0, 2, ksize, border);
    Add(dx2, dy2)
  }

  /** `v ** 2`. */
  function Square(v: real): (r: real)
    ensures r >= 0.0
  {
    v * v
  }

  /** A level before suppression: the LoG response normalised by sigma
      squared, then squared pointwise. */
  function Level(log: Grid, sigma: real): (r: Grid)
    requires IsRect(log)
    ensures IsRect(r) && SameShape(r, log)
    ensures forall i, j :: InBounds(log, i, j) ==> r[i][j] == Square(log[i][j] * Square(sigma))
  {
    seq(|log|, i requires 0 <= i < |log| =>
      seq(Width(log), j requires 0 <= j < Width(log) =>
        var v := log[i][j] * Square(sigma); v * v))
  }

  /** Squaring makes every level non-negative, so suppression is pixelwise
      non-negative too and leaves the suppressed level fixed. */
  lemma LevelIsNmsFixpoint(log: Grid, sigma: real)
    requires IsRect(log)
    ensures NonNegative(Level(log, sigma))
    ensures NonNegative(Nms(Level(log, sigma)))
    ensures Nms(Nms(Level(log, sigma))) == Nms(Level(log, sigma))
  {
    var l := Level(log, sigma);
    forall i, j | 0 <= i < |l| && 0 <= j < |l[i]| ensures l[i][j] >= 0.0 {
      assert InBounds(log, i, j);
    }
    NmsNonNegative(l);
    NmsIdempotent(l);
  }

  /** A fresh array holding the grid: the ndarray numpy's `dx2 + dy2`
      returns, which the normalisation then updates in place. */
  method NewImage(g: Grid) returns (a: array2<real>)
    requires IsRect(g)
    ensures fresh(a)
    ensures Rows(a) == g
  {
    a := new real[|g|, Width(g)]((i, j) requires 0 <= i < |g| && 0 <= j < Width(g) => g[i][j]);
    GridExt(Rows(a), g);
  }

  /** Normalisation and squaring of one level: multiply the LoG response by
      sigma squared in place, on the array the sum of the two derivative
      images produced, then square it into a fresh array. */
  method NormaliseAndSquare(log: Grid, sigma: real) returns (squared: array2<real>)
    requires IsRect(log)
    ensures fresh(squared)
    ensures Rows(squared) == Level(log, sigma)
  {
    var levelImg := NewImage(log);
    forall i, j | 0 <= i < levelImg.Length0 && 0 <= j < levelImg.Length1 {
      levelImg[i, j] := levelImg[i, j] * Square(sigma);
    }
    assert forall i, j :: 0 <= i < levelImg.Length0 && 0 <= j < levelImg.Length1 ==>
      levelImg[i, j] == log[i][j] * Square(sigma);
    squared := new real[levelImg.Length0, levelImg.Length1]((i, j) reads levelImg
      requires 0 <= i < levelImg.Length0 && 0 <= j < levelImg.Length1 => Square(levelImg[i, j]));
    ghost var r, l := Rows(squared), Level(log, sigma);
    forall i, j | 0 <= i < |r| && 0 <= j < |r[i]| ensures r[i][j] == l[i][j] {
      assert InBounds(log, i, j);
      assert r[i][j] == Square(levelImg[i, j]);
    }
    GridExt(r, l);
  }

  /** Suppression of one level: the C++ routine when `boost` is set and the Python
      one otherwise; both give the suppressed level. */
  method SuppressLevel(levelImg: array2<real>, boost: bool) returns (supressedLevel: array2<real>)
    ensures fresh(supressedLevel)
    ensures Rows(supressedLevel) == Nms(Rows(levelImg))
  {
    if boost {
      supressedLevel := CppNms.NonMaxSuppression(levelImg);
    } else {
      supressedLevel := PyNms.NonMaxSuppression(levelImg);
    }
  }

  /** The level the driver produces at scale sigma: the suppressed, squared,
      sigma-squared-normalised LoG response of the image. */
  ghost function ScaleLevel(cv: Cv2, img: Grid, ksize: int, border: int, sigma: real): (r: Grid)
    requires IsRect(img)
    ensures IsRect(r) && SameShape(r, img) && NonNegative(r)
  {
    var log := LogKernel(cv, img, ksize, sigma, sigma, border);
    LevelIsNmsFixpoint(log, sigma);
    Nms(Level(log, sigma))
  }

  /** One pass of the driver: LoG, normalisation, squaring and the
      suppression `boost` selects. */
  method ComputeLevel(cv: Cv2, img: array2<real>, ksize: int, border: int, sigma: real, boost: bool)
    returns (supressedLevel: array2<real>)
    ensures fresh(supressedLevel)
    ensures Rows(supressedLevel) == ScaleLevel(cv, Rows(img), ksize, border, sigma)
  {
    var log := LogKernel(cv, Rows(img), ksize, sigma, sigma, border);
    var levelImg := NormaliseAndSquare(log, sigma);
    supressedLevel := SuppressLevel(levelImg, boost);
  }

  /** The sigma of pass t as the loop computes it: `sigma *= sigma_inc`
      applied t times to the initial sigma. */
  function Sigma(sigma0: real, sigmaInc: real, t: nat): real {
    if t == 0 then sigma0 else Sigma(sigma0, sigmaInc, t - 1) * sigmaInc
  }

  /** `sigma_list` after t passes: the sigmas of passes 0 .. t-1 in order. */
  function SigmaList(sigma0: real, sigmaInc: real, t: nat): (r: seq<real>)
    ensures |r| == t
  {
    if t == 0 then [] else SigmaList(sigma0, sigmaInc, t - 1) + [Sigma(sigma0, sigmaInc, t - 1)]
  }

  /** Entry s of the list is the sigma of pass s. */
  lemma {:induction false} SigmaListAt(sigma0: real, sigmaInc: real, t: nat)
    ensures forall s :: 0 <= s < t ==> SigmaList(sigma0, sigmaInc, t)[s] == Sigma(sigma0, sigmaInc, s)
  {
    if t > 0 {
      SigmaListAt(sigma0, sigmaInc, t - 1);
    }
  }

  /** `sigma_inc ** t`. */
  function Pow(b: real, t: nat): real {
    if t == 0 then 1.0 else Pow(b, t - 1) * b
  }

  /** The repeated multiplication is the geometric progression
      sigma * sigma_inc^t. */
  lemma {:induction false} SigmaIsGeometric(sigma0: real, sigmaInc: real, t: nat)
    ensures Sigma(sigma0, sigmaInc, t) == sigma0 * Pow(sigmaInc, t)
  {
    if t > 0 {
      SigmaIsGeometric(sigma0, sigmaInc, t - 1);
      var p := Pow(sigmaInc, t - 1);
      assert (sigma0 * p) * sigmaInc == sigma0 * (p * sigmaInc);
    }
  }

  /** Entry s of `sigma_list` is sigma * sigma_inc^s. */
  lemma SigmaListIsGeometric(sigma0: real, sigmaInc: real, t: nat)
    ensures forall s :: 0 <= s < t ==> SigmaList(sigma0, sigmaInc, t)[s] == sigma0 * Pow(sigmaInc, s)
  {
    SigmaListAt(sigma0, sigmaInc, t);
    forall s | 0 <= s < t {
      SigmaIsGeometric(sigma0, sigmaInc, s);
    }
  }

  lemma MulPositive(x: real, y: real)
    requires x > 0.0 && y > 0.0
    ensures x * y > 0.0
  {
  }

  /** A positive initial sigma and a positive factor keep every sigma
      positive. */
  lemma {:induction false} SigmaPositive(sigma0: real, sigmaInc: real, t: nat)
    requires sigma0 > 0.0 && sigmaInc > 0.0
    ensures Sigma(sigma0, sigmaInc, t) > 0.0
  {
    if t > 0 {
      SigmaPositive(sigma0, sigmaInc, t - 1);
      MulPositive(Sigma(sigma0, sigmaInc, t - 1), sigmaInc);
    }
  }

  /** A factor above 1 makes each pass's sigma larger than the last. */
  lemma SigmaGrows(sigma0: real, sigmaInc: real, t: nat)
    requires sigma0 > 0.0 && sigmaInc > 1.0
    ensures Sigma(sigma0, sigmaInc, t) < Sigma(sigma0, sigmaInc, t + 1)
  {
    var p := Sigma(sigma0, sigmaInc, t);
    SigmaPositive(sigma0, sigmaInc, t);
    MulPositive(p, sigmaInc - 1.0);
    assert p * sigmaInc - p == p * (sigmaInc - 1.0);
  }

  /** With sigma > 0 and sigma_inc > 1 the scales are positive and strictly
      ascending. */
  lemma {:induction false} SigmasAscending(sigma0: real, sigmaInc: real, s: nat, t: nat)
    requires sigma0 > 0.0 && sigmaInc > 1.0 && s < t
    ensures 0.0 < Sigma(sigma0, sigmaInc, s) < Sigma(sigma0, sigmaInc, t)
    decreases t
  {
    SigmaPositive(sigma0, sigmaInc, s);
    SigmaGrows(sigma0, sigmaInc, t - 1);
    if s < t - 1 {
      SigmasAscending(sigma0, sigmaInc, s, t - 1);
    }
  }

  /** So `sigma_list` is strictly ascending. */
  lemma SigmaListAscending(sigma0: real, sigmaInc: real, t: nat)
    requires sigma0 > 0.0 && sigmaInc > 1.0
    ensures forall s, u :: 0 <= s < u < t ==> 0.0 < SigmaList(sigma0, sigmaInc, t)[s] < SigmaList(sigma0, sigmaInc, t)[u]
  {
    SigmaListAt(sigma0, sigmaInc, t);
    forall s, u | 0 <= s < u < t {
      SigmasAscending(sigma0, sigmaInc, s, u);
    }
  }

  /** The driver's default initial sigma and factor. */
  const DefaultSigma: real := 1.0
  const DefaultSigmaInc: real := 1.2

  /** With the default initial sigma and factor, the sigmas are positive and
      strictly ascending. */
  lemma DefaultSigmasAscending(t: nat)
    ensures forall s, u :: 0 <= s < u < t ==>
              0.0 < SigmaList(DefaultSigma, DefaultSigmaInc, t)[s] < SigmaList(DefaultSigma, DefaultSigmaInc, t)[u]
  {
    var list := SigmaList(DefaultSigma, DefaultSigmaInc, t);
    SigmaListAt(DefaultSigma, DefaultSigmaInc, t);
    forall s, u | 0 <= s < u < t ensures 0.0 < list[s] < list[u] {
      SigmasAscending(DefaultSigma, DefaultSigmaInc, s, u);
    }
  }

  /** No array occurs twice. */
  predicate Distinct(arrays: seq<array2<real>>) {
    forall s, u :: 0 <= s < u < |arrays| ==> arrays[s] != arrays[u]
  }

  lemma DistinctSnoc(arrays: seq<array2<real>>, a: array2<real>)
    requires Distinct(arrays) && a !in arrays
    ensures Distinct(arrays + [a])
  {
  }

  /** `laplacian_scale_space(img, ksize, border, N, sigma, sigma_inc, boost)`:
      N levels (none when N is 0 or negative, like `range(N)`); `sigma_list`
      holds the sigma of each pass (SigmaListIsGeometric and
      SigmaListAscending say what those are), level t is the suppressed,
      squared, normalised LoG response at `sigma_list[t]` whichever
      suppression `boost` selects, and every level is a distinct fresh
      array. The initial sigma defaults to 1.0, the factor to 1.2 and `boost`
      to false. */
  method LaplacianScaleSpace(cv: Cv2, img: array2<real>, ksize: int, border: int, n: int,
                             sigma0: real := DefaultSigma, sigmaInc: real := DefaultSigmaInc, boost: bool := false)
    returns (scaleSpace: seq<array2<real>>, sigmaList: seq<real>)
    ensures |scaleSpace| == |sigmaList| == if n > 0 then n else 0
    ensures sigmaList == SigmaList(sigma0, sigmaInc, |sigmaList|)
    ensures forall t :: 0 <= t < |scaleSpace| ==> fresh(scaleSpace[t])
    ensures Distinct(scaleSpace)
    ensures forall t :: 0 <= t < |scaleSpace| ==>
              Rows(scaleSpace[t]) == ScaleLevel(cv, Rows(img), ksize, border, sigmaList[t])
  {
    ghost var g := Rows(img);
    scaleSpace := [];
    sigmaList := [];
    var sigma := sigma0;
    var t := 0;
    while t < n
      invariant 0 <= t <= (if n > 0 then n else 0)
      invariant |scaleSpace| == |sigmaList| == t
      invariant sigma == Sigma(sigma0, sigmaInc, t)
      invariant sigmaList == SigmaList(sigma0, sigmaInc, t)
      invariant forall s :: 0 <= s < t ==> fresh(scaleSpace[s])
      invariant Distinct(scaleSpace)
      invariant forall s :: 0 <= s < t ==> Rows(scaleSpace[s]) == ScaleLevel(cv, g, ksize, border, sigmaList[s])
    {
      var supressedLevel := ComputeLevel(cv, img, ksize, border, sigma, boost);
      DistinctSnoc(scaleSpace, supressedLevel);
      scaleSpace := scaleSpace + [supressedLevel];
      sigmaList := sigmaList + [sigma];
      sigma := sigma * sigmaInc;
      t := t + 1;
    }
  }
}
