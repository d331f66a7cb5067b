# Non-maximum suppression and the Laplacian scale space, with Boost.Python examples

This project models a small Boost.Python repository and proves properties of it.

- **Non-maximum suppression, written twice.** The repository's main routine is 3x3 non-maximum suppression (NMS) of a grayscale image. There is a Python version, `non_max_supression`, working on numpy slices. There is a C++ version, `nonMaxSupression`, exposed to Python through Boost.Python. Both are modelled as loops over 2D arrays. Both are proved to compute one reference definition, `Grids.Nms`: a pixel keeps its value when it equals the maximum of its 3x3 window clipped at the image border, and is 0 otherwise. It follows that the two implementations agree on every image.
- **The Laplacian scale space.** The driver `laplacian_scale_space` builds one suppressed level per scale from the Laplacian-of-Gaussian (LoG) filter, which is assembled from OpenCV's separable kernels. OpenCV is not modelled: its three calls are function values the caller supplies, and the model only assumes that `filter2D` keeps the shape of its image. The driver is modelled as a loop. It is proved to return one level per pass, and each level is the suppressed, squared, sigma-normalised LoG response at that pass's sigma. The sigmas are proved to form the geometric progression sigma·sigma_inc^t, and to be strictly ascending when sigma > 0 and sigma_inc > 1.
- **The Boost.Python list utilities** `getIntList` and `flatten2DList` (module `objetos`). Python lists are modelled as sequences of object values.
- **The `Punto3D<int>` class** (module `claseEjemplo`): a Dafny class with three C `int` fields, its getters, setters and `operator+`.

Files:

| file | module | models |
|---|---|---|
| grids.dfy | Grids | images as values, the clipped window, the reference NMS and its properties |
| nms_python.dfy | PyNms | `non_max_supression` (numpy slicing and `np.max`) |
| nms_cpp.dfy | CppNms | `nonMaxSupression` (region vector and `std::max_element`) |
| scale_space.dfy | ScaleSpace | `apply_kernel`, `gaussian_kernel`, `derivative_kernel`, `log_kernel`, `laplacian_scale_space` |
| objetos.dfy | Objetos | `getIntList`, `flatten2DList` |
| punto3d.dfy | ClaseEjemplo | `Punto3D<int>`, `operator+` |

## Model

| member | source | states |
|---|---|---|
| Grids.Rows | nonMaxSupression/non-max-supression.py:228 | the value view of a 2D array: a rectangular grid with the array's dimensions whose cell (i, j) is `img[i, j]` |
| Grids.WindowIsClippedNeighbourhood | nonMaxSupression/non-max-supression.py:225 | the window of (i, j) always contains (i, j), and it is exactly the in-bounds cells at distance at most 1 in each axis: never padded, wrapped or re-centred |
| Grids.WindowExtent | nonMaxSupression/imageModule.cpp:34-36 | the window spans max(i-1, 0)..min(i+1, n-1), which is 1 to 3 indices and inside the image; it spans 3 exactly for interior indices |
| Grids.WindowMaxTest | nonMaxSupression/non-max-supression.py:229-233 | comparing the pixel with its window maximum succeeds exactly when no window cell exceeds the pixel |
| Grids.WindowMaxUnique | nonMaxSupression/imageModule.cpp:43 | a window has a single maximum value, whichever routine finds it |
| Grids.Nms | nonMaxSupression/non-max-supression.py:218-236 | the suppressed image has the input's shape; each pixel is either the input pixel, when it equals its window maximum (ties survive), or 0 |
| Grids.ConstantImageSurvives | nonMaxSupression/non-max-supression.py:233 | on a constant image every pixel ties with its window maximum, so suppression returns the image unchanged |
| Grids.GlobalMaxSurvives | nonMaxSupression/non-max-supression.py:229-234 | a pixel no smaller than any pixel of the image always keeps its value |
| Grids.NmsNonNegative | nonMaxSupression/non-max-supression.py:218-234 | suppressing a non-negative image gives a non-negative image |
| Grids.NmsIdempotent | nonMaxSupression/non-max-supression.py:233-234 | on a non-negative image suppressing twice is the same as suppressing once |
| Grids.NmsNotIdempotentOnNegatives | nonMaxSupression/non-max-supression.py:218-234 | without the sign condition idempotence fails: on [[-1, -2]] a second pass clears the surviving -1, because the 0 left beside it is larger |
| Grids.IncreasingImageKeepsOnlyLast | nonMaxSupression/non-max-supression.py:225-234 | on an image that strictly increases in row-major order only the last pixel survives |
| PyNms.Slice | nonMaxSupression/non-max-supression.py:225 | Python slicing `s[lo:hi]` truncates the stop at the length and gives an empty slice for an empty range; element k of the slice is element lo+k |
| PyNms.WindowSliceIsClipped | nonMaxSupression/non-max-supression.py:225 | the slice `max(i-1,0):i+2` is exactly the window indices max(i-1,0)..min(i+1,n-1): the `i+2` stop is clipped, not wrapped |
| PyNms.Max | nonMaxSupression/non-max-supression.py:229 | the maximum of a non-empty sequence is one of its elements and no element exceeds it |
| PyNms.GridMax | nonMaxSupression/non-max-supression.py:229 | `np.max` of a non-empty 2D region is a cell of the region that no cell exceeds |
| PyNms.RegionIsWindow | nonMaxSupression/non-max-supression.py:225 | the numpy region of (i, j) is non-empty, spans the window's rows and columns, and its cell (a, b) is image cell (max(i-1,0)+a, max(j-1,0)+b) |
| PyNms.RegionMaxIsWindowMax | nonMaxSupression/non-max-supression.py:225-229 | `np.max` of the region is the maximum of the clipped window of (i, j) |
| PyNms.RegionMax | nonMaxSupression/non-max-supression.py:225-229 | the region maximum equals the pixel exactly when the pixel is a local maximum |
| PyNms.NonMaxSuppression | nonMaxSupression/non-max-supression.py:208-236 | returns a fresh array of the input's dimensions that holds the suppressed image; the input is only read |
| CppNms.BlockContains | nonMaxSupression/imageModule.cpp:34-40 | every cell of the window's rows and columns is pushed into the region |
| CppNms.BlockFromCells | nonMaxSupression/imageModule.cpp:34-40 | every value pushed into the region is a cell of the window |
| CppNms.MaxElement | nonMaxSupression/imageModule.cpp:43 | `std::max_element` gives the position of an element no other exceeds, and no earlier element equals it (the first maximum) |
| CppNms.RegionMaxIsWindowMax | nonMaxSupression/imageModule.cpp:31-43 | the gathered region is never empty, so dereferencing `max_element` is safe, and its largest element is the maximum of the clipped window |
| CppNms.RegionMaxAgrees | nonMaxSupression/imageModule.cpp:34-46 | at every pixel the C++ region maximum equals numpy's `np.max` of the Python region |
| CppNms.PushRow | nonMaxSupression/imageModule.cpp:36-39 | the inner loop appends the row's cells in columns max(j-1,0)..min(j+1,columns-1), in order, to the region |
| CppNms.GatherRegion | nonMaxSupression/imageModule.cpp:31-40 | a region cleared for each pixel holds exactly the window's cells row by row, so nothing from earlier pixels leaks in |
| CppNms.GatherRegionMax | nonMaxSupression/imageModule.cpp:31-46 | the gathered maximum equals the pixel exactly when the pixel is a local maximum |
| CppNms.NonMaxSuppression | nonMaxSupression/imageModule.cpp:8-54 | returns a fresh zero-initialised array of the input's shape; rows already processed are final and later rows are still 0; the result is the suppressed image, the same as the Python routine gives |
| ScaleSpace.Filter2D | nonMaxSupression/non-max-supression.py:128-129 | `cv2.filter2D` gives an image of its source's shape |
| ScaleSpace.Reverse | nonMaxSupression/non-max-supression.py:124-125 | element k of the reversed coefficients is element n-1-k of the original |
| ScaleSpace.ApplyKernel | nonMaxSupression/non-max-supression.py:110-131 | the separable convolution keeps the image's shape |
| ScaleSpace.GaussianKernel | nonMaxSupression/non-max-supression.py:134-154 | Gaussian smoothing keeps the image's shape |
| ScaleSpace.DerivativeKernel | nonMaxSupression/non-max-supression.py:157-177 | the derivative filter keeps the image's shape |
| ScaleSpace.Add | nonMaxSupression/non-max-supression.py:203 | the numpy sum of two images of one shape has that shape and is the pixelwise sum |
| ScaleSpace.AddCommutative | nonMaxSupression/non-max-supression.py:203 | the order of the two second derivatives in the Laplacian does not matter |
| ScaleSpace.LogKernel | nonMaxSupression/non-max-supression.py:180-205 | the LoG response has the image's shape, and each pixel is the second X derivative plus the second Y derivative of the Gaussian-smoothed image at that pixel |
| ScaleSpace.Square | nonMaxSupression/non-max-supression.py:270 | a square is never negative |
| ScaleSpace.Level | nonMaxSupression/non-max-supression.py:267-270 | the level before suppression has the response's shape, and each pixel is (response · sigma²)² |
| ScaleSpace.LevelIsNmsFixpoint | nonMaxSupression/non-max-supression.py:267-280 | every level is non-negative before and after suppression, and suppressing a suppressed level changes nothing |
| ScaleSpace.NewImage | nonMaxSupression/non-max-supression.py:264 | a fresh array holding the given image |
| ScaleSpace.NormaliseAndSquare | nonMaxSupression/non-max-supression.py:267-270 | scaling in place by sigma² and then squaring into a new array gives the level before suppression |
| ScaleSpace.SuppressLevel | nonMaxSupression/non-max-supression.py:273-280 | whichever suppression `boost` selects, the result is a fresh array holding the suppressed level |
| ScaleSpace.ScaleLevel | nonMaxSupression/non-max-supression.py:264-280 | a driver level has the image's shape and is non-negative |
| ScaleSpace.ComputeLevel | nonMaxSupression/non-max-supression.py:264-280 | one pass of the driver returns a fresh array holding the level at the given sigma |
| ScaleSpace.SigmaList | nonMaxSupression/non-max-supression.py:289 | after t passes `sigma_list` holds t sigmas |
| ScaleSpace.SigmaListAt | nonMaxSupression/non-max-supression.py:289-292 | entry s of `sigma_list` is the sigma of pass s |
| ScaleSpace.SigmaIsGeometric | nonMaxSupression/non-max-supression.py:292 | multiplying by `sigma_inc` once per pass gives sigma·sigma_inc^t at pass t |
| ScaleSpace.SigmaListIsGeometric | nonMaxSupression/non-max-supression.py:262-292 | entry s of `sigma_list` is sigma·sigma_inc^s |
| ScaleSpace.SigmaPositive | nonMaxSupression/non-max-supression.py:292 | a positive initial sigma and a positive factor keep every sigma positive |
| ScaleSpace.SigmaGrows | nonMaxSupression/non-max-supression.py:292 | with a factor above 1, each pass's sigma is larger than the previous one |
| ScaleSpace.SigmasAscending | nonMaxSupression/non-max-supression.py:262-292 | with sigma > 0 and sigma_inc > 1, the sigmas of passes s < t are positive and strictly increasing |
| ScaleSpace.SigmaListAscending | nonMaxSupression/non-max-supression.py:262-292 | with sigma > 0 and sigma_inc > 1, `sigma_list` is positive and strictly ascending |
| ScaleSpace.DefaultSigmasAscending | nonMaxSupression/non-max-supression.py:239 | with the default sigma 1.0 and sigma_inc 1.2, `sigma_list` is positive and strictly ascending |
| ScaleSpace.LaplacianScaleSpace | nonMaxSupression/non-max-supression.py:239-296 | with sigma, sigma_inc and boost defaulting to 1.0, 1.2 and false, returns two lists of length N (empty when N <= 0); `sigma_list` holds the sigma of every pass; level t is a fresh array, distinct from the others, holding the suppressed, squared, normalised LoG response at `sigma_list[t]`, whichever suppression `boost` selects |
| Objetos.IntsOfIsOrderedSubsequence | basicExamples/objetos.cpp:33-43 | the result is the converted input elements in their original order: entry k comes from the k-th accepted position, the positions strictly increase, and a position is used exactly when its element converts |
| Objetos.IntsOfLength | basicExamples/objetos.cpp:36-43 | the result is no longer than the input, and it is exactly as long if and only if every element converts |
| Objetos.IntsOfAppend | basicExamples/objetos.cpp:33-43 | filtering the concatenation of two lists is the concatenation of the two filtered lists |
| Objetos.GetIntList | basicExamples/objetos.cpp:26-47 | when no conversion raises, returns a new list of the converted elements in order; otherwise fails at the first element whose conversion raises, after only non-raising elements |
| Objetos.ConcatLength | basicExamples/objetos.cpp:70-80 | the flattened list is as long as all the inner lists together |
| Objetos.ConcatAt | basicExamples/objetos.cpp:70-79 | element j of inner list i lands at offset (sum of the lengths of the earlier inner lists) + j |
| Objetos.ConcatOfEmpties | basicExamples/objetos.cpp:68-82 | flattening an empty outer list, or a list of empty lists, gives an empty list |
| Objetos.InnerLists | basicExamples/objetos.cpp:72 | one inner list per outer element, holding that element's items |
| Objetos.AppendInner | basicExamples/objetos.cpp:73-79 | the inner loop appends the inner list's items, in order, to the flattened list |
| Objetos.Flatten2DList | basicExamples/objetos.cpp:65-83 | when every outer element is a list, returns the in-order concatenation of the inner lists; otherwise fails at the first outer element that is not a list |
| ClaseEjemplo.Sum | classExamples/claseEjemplo.cpp:57-59 | with no `int` overflow, each coordinate of the sum is the sum of the operands' coordinates |
| ClaseEjemplo.SumCommutative | classExamples/claseEjemplo.cpp:57-59 | `p1 + p2` and `p2 + p1` overflow together and are equal otherwise |
| ClaseEjemplo.SumIdentity | classExamples/claseEjemplo.cpp:57-61 | adding Punto3D(0, 0, 0) on either side never overflows and gives the point back |
| ClaseEjemplo.SumAssociative | classExamples/claseEjemplo.cpp:57-59 | where the partial sums of both groupings fit in an `int`, (a + b) + c equals a + (b + c) |
| ClaseEjemplo.GroupingDecidesOverflow | classExamples/claseEjemplo.cpp:57-59 | one grouping of three sums can fit while the other overflows: (-1 + max) + 1 fits, max + 1 does not |
| ClaseEjemplo.SumCanOverflow | classExamples/claseEjemplo.cpp:57 | the largest `int` plus one overflows, so the no-overflow condition really restricts the operands |
| ClaseEjemplo.Punto3D.constructor | classExamples/claseEjemplo.cpp:11-26 | after `Punto3D(x, y, z)` the getters return x, y and z |
| ClaseEjemplo.Punto3D.Value | classExamples/claseEjemplo.cpp:13-26 | the point's coordinates are what `getX`, `getY` and `getZ` return |
| ClaseEjemplo.Punto3D.SetX | classExamples/claseEjemplo.cpp:28-31 | after `setX(v)` the x coordinate is v, and y and z are unchanged |
| ClaseEjemplo.Punto3D.SetY | classExamples/claseEjemplo.cpp:33-36 | after `setY(v)` the y coordinate is v, and x and z are unchanged |
| ClaseEjemplo.Punto3D.SetZ | classExamples/claseEjemplo.cpp:38-41 | after `setZ(v)` the z coordinate is v, and x and y are unchanged |
| ClaseEjemplo.Plus | classExamples/claseEjemplo.cpp:54-64 | with no `int` overflow, `p1 + p2` is a new point holding the component-wise sums, and neither operand changes |
| ClaseEjemplo.SetThroughAlias | classExamples/clase_ejemplo.py:5-12 | after `p3 = p1`, setting `p3.y` changes the object p1 names as well, and no other point |

## Left out

- OpenCV (`filter2D`, `getGaussianKernel`, `getDerivKernels`, `imread`, `cvtColor`, `circle`) is foreign code. Its three filter calls are function values in `ScaleSpace.Cv2`. The only property assumed is that `filter2D` maps a rectangular image to a rectangular image of the same shape. The kernel coefficients, the border modes and the convolution arithmetic are not modelled.
- ScaleSpace.LogKernel: states the shape of the Laplacian of Gaussian and how it is assembled, not its numerical values, because the filters are abstract.
- Pixels are mathematical reals. NaN and rounding are not modelled, and neither is the dtype of the arrays. The C++ routine always allocates `double`, while `np.zeros_like` keeps the input's dtype.
- ScaleSpace.SigmaListIsGeometric: the code multiplies sigma by `sigma_inc` once per pass. Over the reals that equals the closed form sigma·sigma_inc^t; in floating point the two can differ in the last bits.
- ScaleSpace.SigmaListAscending: only holds for sigma > 0 and sigma_inc > 1. Nothing in the driver checks it; `ScaleSpace.DefaultSigmasAscending` shows that the defaults, 1.0 and 1.2, satisfy it.
- Grids.NmsIdempotent: only for non-negative images. The driver always feeds squared values, and `Grids.NmsNotIdempotentOnNegatives` shows that the restriction is needed.
- The timing calls and prints in the driver (non-max-supression.py:259, 274-285, 294) are left out.
- The image transforms, the visualisation functions and the script part of non-max-supression.py are not part of this model.
- The Boost.Python plumbing is left out: `Py_Initialize`, `np::initialize`, shape extraction and module registration. The C++ routine is given a 2D array of reals, and indexing through `img[i][j]` is modelled as reading that array.
- ScaleSpace.LaplacianScaleSpace: the lists hold distinct fresh arrays. How the caller's Python references to them alias each other afterwards is not modelled.
- Objetos.GetIntList: the exact rule `bp::extract<int>` applies is a parameter of the model. For each object, the parameter says whether the object converts to a value, does not convert, or makes the conversion raise (an OverflowError for an `int` out of range).
- Objetos.Flatten2DList: objects are values, so the flattened list holds the inner lists' items as values. That the items are the same Python objects, shared with the inner lists, is not modelled. Both list functions take their argument as a sequence value, so they cannot modify it.
- `checkListTypes` and `iterateDictionary` (objetos.cpp:7-24, 49-63) are left out: they only print.
- `Punto3D::distancia` and `toString` (claseEjemplo.cpp:43-51) are left out: they are floating-point `sqrt`/`pow` and string formatting.
- ClaseEjemplo.Plus: requires that no coordinate sum overflows a C `int`. Signed overflow is undefined behaviour in C++, so no result is modelled for it.
- basicExamples/basic.cpp, helloWorld/hello.cpp and the driver scripts objetos.py and clase_ejemplo.py are left out: they are thin wrappers and demonstrations. The one exception is the aliasing step of clase_ejemplo.py, which `ClaseEjemplo.SetThroughAlias` models.
- The driver's docstring promises N images. For N <= 0 the code returns two empty lists, as `range(N)` does, and the model follows the code.
