# im-proc core, modelled in Dafny

This project models the verifiable core of the `im-proc` image-processing
exercises, which are written in C on top of the `bcl`/`pnm` image library,
together with the `Collection` object store of the Pandore headers. The
model covers:

- **`Pandore`** (`collection.dfy`): the `Collection` class of
  `pvisu/src/pandore/collection.h`, a `std::map` from names to bundled
  objects. It covers set-or-replace, lookup, existence, erase, rename, clear,
  ordered listing, clone and assignment, the typed getters and setters (the
  `dynamic_cast` checks become a tagged variant and an `Abort` error), and
  `GetNArrays`, which returns the minimum size over `name.1 .. name.n`.
- **`ColorSpace`** (`colorspace.dfy`): the buffer code of
  `colorization/colorization.c`, covering:
  - `init_data`;
  - the zero-log guard of `rgb_to_lalphabeta`;
  - the per-channel running extents of `lalphabeta_to_rgb`;
  - the affine stretch of `construct_image`.

  The float buffer is an `array3<Float>` whose components are a real or one
  of the two infinities. `log10f`, `pow` and `sqrt` are parameters.
- **`Colorization`** (`colorization.dfy`): the colorization algorithm. It
  covers:
  - drawing samples without replacement, by marking drawn pixels with
    `INFINITY`;
  - the clipped 4x4 luminance window (average plus population standard
    deviation);
  - the first-minimum nearest-luminance search;
  - the colorize loop of `process`, which overwrites only the chroma
    channels and counts matches in `hist`;
  - the argument check of `main`.
- **`StructuringElement`** (`se.dfy`): the structuring-element builders of
  `morphology/se.c` and their dispatcher `se`.
- **`ZoomFft`**, **`Padding`** and **`ResampleFilter`** (`fft.dfy`,
  `padding.dfy`, `filter.dfy`): the index logic of the zoom tools, covering:
  - the quadrant swap `decenter`;
  - the clamp of `backward`;
  - grey conversion, centred zero-padding and write-back;
  - filter-name lookup;
  - the kernel window and box-kernel selection;
  - the averaging of two images;
  - the quarter-turn rotation.
- **`Color2Mean`**, **`ExtractChannel`**, **`Gray2Color`**, **`Normalize`**
  and **`ExtractSubimage`**: the `main` of each `bcl-basis` tool, covering
  the argument check and the per-pixel loop.

The following conventions hold throughout:

- An image is an `array3<UShort>` indexed `[row, column, channel]` with three
  channels (module `Pnm`).
- A destination image is passed in. It is never assumed to be zero-filled,
  so "not written" means "equal to its old contents".
- The flat column-major buffers of the zoom tools, where the entry at row `i`
  and column `j` is at `i + rows * j`, are `array2`s indexed `[i, j]`.
  `ZoomFft.FlatIndex` shows that this indexing is one to one.
- Each tool's `usage()` path is the result `Usage`, with nothing written.

## Model

| member | source | states |
|---|---|---|
| `Pandore.BelowIrreflexive` | im-proc/pvisu/src/pandore/collection.h:227-235 | No name comes before itself in the map's key order (lexicographic order on strings). |
| `Pandore.BelowTransitive` | im-proc/pvisu/src/pandore/collection.h:227-235 | The key order is transitive. |
| `Pandore.BelowTotal` | im-proc/pvisu/src/pandore/collection.h:227-235 | Any two distinct names are ordered one way or the other. |
| `Pandore.FirstExists` | im-proc/pvisu/src/pandore/collection.h:227-235 | A non-empty set of keys has a first key, which is where iteration starts. |
| `Pandore.Decimal` | im-proc/pvisu/src/pandore/collection.h:520-521 | The decimal text of a number is a non-empty string of digits, and it is one digit long exactly below 10. |
| `Pandore.DecimalInjective` | im-proc/pvisu/src/pandore/collection.h:520-521 | Distinct numbers have distinct decimal texts. |
| `Pandore.Member` | im-proc/pvisu/src/pandore/collection.h:520-521 | The member name `name.i` starts with `name` followed by a dot. |
| `Pandore.MemberInjective` | im-proc/pvisu/src/pandore/collection.h:520-521 | `name.i` and `name.j` are the same entry only when i == j. |
| `Pandore.MinSize` | im-proc/pvisu/src/pandore/collection.h:515-528 | The minimum size is at most MAXLONG and at most every array's size. It is either MAXLONG or the size of one of the arrays. |
| `Pandore.Collection.constructor` | im-proc/pvisu/src/pandore/collection.h:533 | A new collection holds no entries. |
| `Pandore.Collection.Get` | im-proc/pvisu/src/pandore/collection.h:321-324 | Get returns the stored object exactly when the name is a key, and no object (NULL) otherwise. |
| `Pandore.Collection.Exists` | im-proc/pvisu/src/pandore/collection.h:193-196 | Exists(name) holds if and only if Get(name) returns an object. |
| `Pandore.Collection.Set` | im-proc/pvisu/src/pandore/collection.h:306-314 | After Set, the name maps to the new object and every other name keeps its object. The count is unchanged when the name existed and grows by one otherwise. |
| `Pandore.Collection.Erase` | im-proc/pvisu/src/pandore/collection.h:150-157 | Erase removes exactly that name. Erasing a missing name changes nothing, and the count drops by one only when the name was present. |
| `Pandore.Collection.Rename` | im-proc/pvisu/src/pandore/collection.h:178-185 | Rename does nothing if the old name is absent. Otherwise the new name maps to the old name's object and the old name is gone, so Rename(x, x) removes x. Other names are unaffected. |
| `Pandore.Collection.Delete` | im-proc/pvisu/src/pandore/collection.h:164-170 | Delete leaves the collection empty: no name exists. |
| `Pandore.Collection.List` | im-proc/pvisu/src/pandore/collection.h:227-235 | List returns every key exactly once, in strictly ascending map order. |
| `Pandore.Collection.Clone` | im-proc/pvisu/src/pandore/collection.h:123-130 | Clone returns a new collection with the same entries. |
| `Pandore.Collection.SetAll` | im-proc/pvisu/src/pandore/collection.h:140-142 | The loop that sets each name of the other collection: every listed name ends holding the given entry, and every other entry is kept. |
| `Pandore.Collection.AssignAsWritten` | im-proc/pvisu/src/pandore/collection.h:137-144 | As written, `operator=` copies the other collection's entries, but self-assignment leaves the collection empty. |
| `Pandore.Collection.Assign` | im-proc/pvisu/src/pandore/collection.h:137-144 | Corrected assignment: the collection ends with exactly the other collection's old entries, including when it is assigned to itself. |
| `Pandore.Collection.GetValue` | im-proc/pvisu/src/pandore/collection.h:349-356 | GetValue succeeds exactly when the name holds a value of the requested type, and then returns that value. Otherwise it aborts with "cannot convert" for that name. |
| `Pandore.Collection.GetArray` | im-proc/pvisu/src/pandore/collection.h:384-392 | GetArray succeeds exactly when the name holds an array of the requested type, and then returns it. Otherwise it aborts for that name. |
| `Pandore.Collection.GetArraySize` | im-proc/pvisu/src/pandore/collection.h:404-412 | GetArraySize succeeds exactly when GetArray does, and returns that array's length. |
| `Pandore.Collection.GetPobject` | im-proc/pvisu/src/pandore/collection.h:436-444 | GetPobject succeeds exactly when the name holds a Pandore object, and then returns it. Otherwise it aborts for that name. |
| `Pandore.Collection.GetPArray` | im-proc/pvisu/src/pandore/collection.h:472-480 | GetPArray succeeds exactly when the name holds an object array, and then returns it. Otherwise it aborts for that name. |
| `Pandore.Collection.GetPArraySize` | im-proc/pvisu/src/pandore/collection.h:492-500 | GetPArraySize succeeds exactly when GetPArray does, and returns that array's length. |
| `Pandore.Collection.SetValue` | im-proc/pvisu/src/pandore/collection.h:335-337 | SetValue stores a value bundle under the name, and GetValue with the same type then returns it. |
| `Pandore.Collection.SetArray` | im-proc/pvisu/src/pandore/collection.h:370-372 | SetArray stores an array bundle, and GetArray and GetArraySize then return it and its length. |
| `Pandore.Collection.SetPobject` | im-proc/pvisu/src/pandore/collection.h:423-425 | SetPobject stores an object bundle, and GetPobject then returns it. |
| `Pandore.Collection.SetPArray` | im-proc/pvisu/src/pandore/collection.h:457-459 | SetPArray stores an object-array bundle, and GetPArray and GetPArraySize then return it and its length. |
| `Pandore.Collection.GetNArrays` | im-proc/pvisu/src/pandore/collection.h:513-530 | GetNArrays succeeds if and only if `name.1 .. name.n` are all arrays of the type. It then returns those n arrays in order, with their minimum size (MAXLONG when n = 0). Otherwise it aborts at the first member that is not such an array. |
| `Pandore.SelfAssignmentLosesEntries` | im-proc/pvisu/src/pandore/collection.h:137-144 | A collection holding an entry loses it when assigned to itself with the code as written. |
| `Pandore.SelfAssignmentKeepsEntries` | im-proc/pvisu/src/pandore/collection.h:137-144 | With the corrected assignment, the same collection keeps its entry. |
| `Colorization.MainExit` | im-proc/colorization/colorization.c:328-333 | `main` stops with usage exactly when it does not get three arguments. |
| `ColorSpace.InitData` | im-proc/colorization/colorization.c:57-69 | InitData makes every buffer component finite and equal to the image component. |
| `ColorSpace.DotOfZero` | im-proc/colorization/colorization.c:86-92 | A row times a zero vector is 0. |
| `ColorSpace.ApplyToZero` | im-proc/colorization/colorization.c:86-92 | Every matrix sends the zero vector to zero. |
| `ColorSpace.MatVec` | im-proc/colorization/colorization.c:86-92 | The row-by-row accumulation loop computes the matrix-vector product. |
| `ColorSpace.LogGuard` | im-proc/colorization/colorization.c:97-99 | The log term is replaced by 0 exactly when the LMS component is 0. Otherwise it is log10 of the component. |
| `ColorSpace.LogLms` | im-proc/colorization/colorization.c:94-101 | Each of the three log-LMS components is the guarded log of its LMS component. |
| `ColorSpace.BlackIsOrigin` | im-proc/colorization/colorization.c:77-106 | Because of the guard, a black pixel maps to the origin of Lαβ space whatever log10 is. |
| `ColorSpace.RgbToLalphabeta` | im-proc/colorization/colorization.c:77-106 | Every pixel is replaced in place by its Lαβ transform. The transform of each pixel uses only that pixel's old value. |
| `ColorSpace.FMin` | im-proc/colorization/colorization.c:139-141 | The running minimum is one of its two arguments and at most both, in the order where -∞ < reals < +∞. |
| `ColorSpace.FMax` | im-proc/colorization/colorization.c:142-144 | The running maximum is one of its two arguments and at least both. |
| `ColorSpace.WidenExtents` | im-proc/colorization/colorization.c:139-144 | Each channel's minimum and maximum absorb the new component. |
| `ColorSpace.ConvertPixel` | im-proc/colorization/colorization.c:121-146 | One pixel is converted back to RGB and widens the extents. No other pixel changes, and the extent invariant moves one pixel forward. |
| `ColorSpace.UpdateExtents` | im-proc/colorization/colorization.c:139-144 | Each channel's extents become the minimum and maximum of their old value and the new component. The extent invariant then holds up to and including pixel (i, j). |
| `ColorSpace.ChannelStep` | im-proc/colorization/colorization.c:139-144 | Widening one channel's extents to pixel (i, j) keeps them covering the earlier pixels, covers (i, j), and keeps a moved extent attained by some pixel up to (i, j). |
| `ColorSpace.LalphabetaToRgb` | im-proc/colorization/colorization.c:114-150 | Every pixel is replaced by its RGB transform. Afterwards, for each channel: every component lies between minValue[c] and maxValue[c]; the extents only widen; and each bound is either its initial value or attained by some component. |
| `ColorSpace.StretchIsScaledOffset` | im-proc/colorization/colorization.c:248-249 | The affine map of `construct_image` is 255 · (x − lo) / (hi − lo). |
| `ColorSpace.StretchEnds` | im-proc/colorization/colorization.c:248-249 | The map sends minValue[c] to 0 and maxValue[c] to 255. |
| `ColorSpace.StretchBetween` | im-proc/colorization/colorization.c:248-249 | A component between the extents lands in [0, 255]. |
| `ColorSpace.OutComponent` | im-proc/colorization/colorization.c:248-250 | The truncated output component is at most 255. It is 0 at the minimum and 255 at the maximum. |
| `ColorSpace.ConstructImage` | im-proc/colorization/colorization.c:240-254 | Every image component is the truncation of the stretched buffer component, and lies in [0, 255]. |
| `Colorization.RowCountIsOverlap` | im-proc/colorization/colorization.c:198-199 | The columns counted on a window row are the overlap of [y−2, y+2) with the image's columns. |
| `Colorization.WinCountIsArea` | im-proc/colorization/colorization.c:196-201 | The window count is the product of the row overlap and the column overlap. |
| `Colorization.WindowSize` | im-proc/colorization/colorization.c:196-203 | For a pixel inside the image, the clipped window holds between 1 and 16 pixels. |
| `Colorization.WinAccConstant` | im-proc/colorization/colorization.c:196-202 | On a window where the accumulated term is constant k, the accumulator is k added once per window pixel. |
| `Colorization.LuminanceAtLeastAverage` | im-proc/colorization/colorization.c:203-214 | For a square root, the luminance signature is at least the window average. |
| `Colorization.UniformWindowAverage` | im-proc/colorization/colorization.c:196-203 | On a uniform window the average is the common value. |
| `Colorization.UniformWindowLuminance` | im-proc/colorization/colorization.c:203-214 | On a uniform window the signature is the common value, because the deviation is 0. |
| `Colorization.WindowSum` | im-proc/colorization/colorization.c:193-202 | The first pass returns the sum of L over the clipped window and the number of pixels in it. |
| `Colorization.WindowDeviation` | im-proc/colorization/colorization.c:205-210 | The second pass returns the sum of squared deviations from the given average over the same window. |
| `Colorization.LuminanceOfSums` | im-proc/colorization/colorization.c:203-214 | The two passes' results, divided and combined as the code does, are the window average and the signature. |
| `Colorization.ComputeLuminance` | im-proc/colorization/colorization.c:188-215 | `compute_luminance` returns the window average plus the population standard deviation of L over the clipped window. |
| `Colorization.Distance` | im-proc/colorization/colorization.c:230 | The distance is non-negative and is one of a − b and b − a. |
| `Colorization.FindLuminance` | im-proc/colorization/colorization.c:224-237 | The result is an index in [0, SAMPLES) whose sample L is nearest to lum. Every earlier sample is strictly farther, so ties go to the lowest index. |
| `Colorization.NearestIsUnique` | im-proc/colorization/colorization.c:229-235 | At most one index is the first nearest, so the search result is determined. |
| `Colorization.UnmarkedCell` | im-proc/colorization/colorization.c:166-169 | While fewer pixels are marked than the image holds, there is an unmarked pixel for the random draw to find. |
| `Colorization.TakeSample` | im-proc/colorization/colorization.c:169-174 | Slot i receives the pixel's three components and the pixel becomes INFINITY in all channels. Nothing else changes. |
| `Colorization.GenerateSamples` | im-proc/colorization/colorization.c:159-177 | All SAMPLES slots are filled from pairwise distinct pixels, each holding that pixel's old components. Exactly the drawn pixels are INFINITY afterwards, and every other component is unchanged. |
| `Colorization.HistogramCountsEveryPixel` | im-proc/colorization/colorization.c:289-297 | A histogram that counts each matched index sums to the number of matches. |
| `Colorization.SetColour` | im-proc/colorization/colorization.c:298-300 | Channels 1 and 2 of the pixel take the sample's. Channel 0 and every other pixel keep their values. |
| `Colorization.TransferPixel` | im-proc/colorization/colorization.c:295-300 | One pixel is matched to the first nearest sample of its luminance. Its chroma is copied, its hist bin grows by one, and L is unchanged. |
| `Colorization.ColorizeRow` | im-proc/colorization/colorization.c:294-301 | A row is colorized pixel by pixel. Other rows are untouched, and hist grows by the row's match counts. |
| `Colorization.Colorize` | im-proc/colorization/colorization.c:293-301 | The colorize loop keeps channel 0 of every pixel. Each pixel's match is the first nearest sample to the luminance of its window in the unchanged L plane, so visiting order does not matter. Channels 1 and 2 are the matched sample's, and hist grows by the match counts, summing to rows·cols when it starts at zero. |
| `Colorization.CountAppend` | im-proc/colorization/colorization.c:297 | Counting matches over two runs of pixels adds up. |
| `StructuringElement.ShapeOf` | im-proc/morphology/se.c:124-158 | Shape codes 0 to 8 select a builder (0 square, 8 plus), and any other code is the usage error. |
| `StructuringElement.DiamondIsL1Ball` | im-proc/morphology/se.c:22-41 | On an odd side, the diamond builder's offset computation paints (i, j) exactly when abs(i−c) + abs(j−c) ≤ c. |
| `StructuringElement.DiamondRightIsL1` | im-proc/morphology/se.c:29-34 | On an odd side 2c + 1, the right offset after its two corrections is 2c − abs(i − c). |
| `StructuringElement.ShapeIsSymmetric` | im-proc/morphology/se.c:9-117 | Every shape on an odd side is symmetric about the centre. |
| `StructuringElement.CentreInShape` | im-proc/morphology/se.c:120-160 | Every shape, including cross and plus, contains the centre pixel. |
| `StructuringElement.Paint` | im-proc/morphology/se.c:74-87 | The builders' double loop writes 255 in all three channels of exactly the pixels that pass the test. Other components are not touched. |
| `StructuringElement.Build` | im-proc/morphology/se.c:9-117 | Each single builder paints its shape in 255 and touches nothing off it: all pixels for square; the diamond and disk tests; column c, row c, j == i and j == size−i−1 for the lines and diagonals. |
| `StructuringElement.Se` | im-proc/morphology/se.c:120-160 | An unknown shape code is the usage error, with nothing written. Otherwise the shape is painted on the (2hs+1)² image, cross as the union of the two diagonals and plus as the union of the two lines. |
| `ZoomFft.FlatIndex` | im-proc/zoom/fft.c:17-20 | Column-major positions i + rows·j lie inside the buffer and are one to one. |
| `ZoomFft.ShiftIsHalfRotation` | im-proc/zoom/fft.c:17-20 | On an even length, the quadrant swap is the cyclic shift by half the length. |
| `ZoomFft.ShiftInvolution` | im-proc/zoom/fft.c:14-21 | The swap stays in the swapped part and undoes itself. |
| `ZoomFft.Decenter` | im-proc/zoom/fft.c:14-21 | `decenter` writes each swapped position of `tmp` with the entry of `tab` the quadrant swap names, and reads `tab` only. On an odd size, the last row or column of `tmp` is left as it was. |
| `ZoomFft.SwapColumns` | im-proc/zoom/fft.c:16-21 | One pass of the inner loop writes columns j and j + cols/2 of `tmp` over the swapped rows with the swapped entries of `tab`. Every other position is left as it was. |
| `ZoomFft.DecenterTwice` | im-proc/zoom/fft.c:47-66 | On even sizes, decentring twice, as `forward` then `backward` do, gives back the original buffer. |
| `ZoomFft.Clamp` | im-proc/zoom/fft.c:75-78 | A negative real part gives 0 and one above 255 gives 255. In between, the grey level is the truncation of the real part, so it always lies in [0, 255]. |
| `ZoomFft.ClampMonotonic` | im-proc/zoom/fft.c:75-78 | A larger real part never gives a smaller grey level. |
| `ZoomFft.NormaliseAndClamp` | im-proc/zoom/fft.c:73-78 | Every output entry is the clamp of the real part divided by the previous image size. |
| `Padding.MainExit` | im-proc/zoom/padding.c:112-113 | `main` stops with usage unless it gets exactly three arguments. |
| `Padding.Grey` | im-proc/zoom/padding.c:39-42 | The grey level is the 16-bit-wrapped sum divided by 3. Without wrap-around it lies between the smallest and the largest component. |
| `Padding.GenerateGrayImage` | im-proc/zoom/padding.c:34-44 | Entry (i, j) of the grey buffer is the grey level of pixel (i, j). |
| `Padding.CentredBlockInside` | im-proc/zoom/padding.c:63-67 | For factor ≥ 1, the centred block and every write position lie inside the enlarged buffer. |
| `Padding.ResizeComplexArray` | im-proc/zoom/padding.c:55-68 | The enlarged buffer holds the input, centred at (rows·factor/2 − rows/2, cols·factor/2 − cols/2), and zero everywhere else. |
| `Padding.Fill` | im-proc/zoom/padding.c:58-60 | Every entry of the enlarged buffer becomes zero. |
| `Padding.SetComp` | im-proc/zoom/padding.c:18-24 | All three channels of pixel (i, j) get buffer entry (i, j). The rest of the image is not touched. |
| `ResampleFilter.FilterNumber` | im-proc/zoom/filter.c:120-130 | The names box, tent, bell and mitch map to 0 to 3, and no other name has a number. |
| `ResampleFilter.ParseMain` | im-proc/zoom/filter.c:116-130 | `main` stops with usage exactly when argc ≠ 5 or the name is unknown. Otherwise it yields that name's filter number. |
| `ResampleFilter.HalfWidth` | im-proc/zoom/filter.c:43 | The half-width (n+1)/2 is 0 for box and never exceeds the filter number. |
| `ResampleFilter.BoxSelectsCentre` | im-proc/zoom/filter.c:61-69 | k − col lies in [−0.5, 0.5) exactly when k == col. |
| `ResampleFilter.KernelSums` | im-proc/zoom/filter.c:40-81 | left = max(col − WF, 0) and right = min(col + WF, w·factor), and col lies in the window. Box sums the single sample at k == col, while tent, bell and mitch leave the sums at 0. |
| `ResampleFilter.KernelWindow` | im-proc/zoom/filter.c:43-53 | left is col − WF clamped at 0, and right is col + WF clamped at w·factor. The window contains col and is at most 2·WF wide. |
| `ResampleFilter.BoxSums` | im-proc/zoom/filter.c:55-81 | Over the window, the box kernel adds only the sample at k == col, since only there does −0.5 ≤ k − col < 0.5 hold. The other kernels leave every sum at 0. |
| `ResampleFilter.Average` | im-proc/zoom/filter.c:97-99 | Without 16-bit wrap-around, the stored value is (a + b)/2, between a and b. |
| `ResampleFilter.ReconstructImage` | im-proc/zoom/filter.c:92-104 | Every component is the average of the two filtered images' components at the same place. |
| `ResampleFilter.RotateAsWrittenOnlySquare` | im-proc/zoom/filter.c:16-27 | The accesses of `rotate_image` as written stay inside the images if and only if w == h. |
| `ResampleFilter.RotateAsWrittenTwoByOne` | im-proc/zoom/filter.c:17-22 | A one-row, two-column image already makes an access fall outside. |
| `ResampleFilter.RotateImage` | im-proc/zoom/filter.c:16-27 | Corrected rotation: source pixel (i, j) goes to (j, h−1−i) of a w × h image. |
| `ResampleFilter.RotationIsBijective` | im-proc/zoom/filter.c:17-22 | The rotation's position map is one to one. On a square image, the code as written stays in bounds, and on each step it writes at (i, h−j−1) the entry (j, i) that the rotation puts there. |
| `ResampleFilter.RotateImageAsWritten` | im-proc/zoom/filter.c:16-27 | On a square image, the loops as written (read (j, i), write (i, h−j−1)) leave every entry of `imd` equal to the one `RotateImage` gives. |
| `Pnm.ToUShort` | im-proc/bcl-basis/normalize.c:43 | Converting a float to `unsigned short` truncates: the result is at most x and more than x − 1. |
| `Normalize.AffineEnds` | im-proc/bcl-basis/normalize.c:40-42 | Component 0 maps to min and component maxval maps to max. |
| `Normalize.AffineMonotonic` | im-proc/bcl-basis/normalize.c:40-42 | With max ≥ min, the map is nondecreasing. |
| `Normalize.AffineBetween` | im-proc/bcl-basis/normalize.c:40-42 | A component in [0, maxval] lands between min and max. |
| `Normalize.Normalized` | im-proc/bcl-basis/normalize.c:39-43 | The written component lies between the truncations of min and max. It is min's truncation for 0 and max's for maxval. |
| `Normalize.NormalizeMain` | im-proc/bcl-basis/normalize.c:17-46 | `main` gives usage, with nothing written, unless argc == 5. Otherwise every component is mapped by the same affine map, from the same pixel and channel. |
| `Color2Mean.Mean` | im-proc/bcl-basis/color2mean.c:30-33 | The integer mean lies between the smallest and largest component, and is the common value of a grey pixel. |
| `Color2Mean.Color2MeanMain` | im-proc/bcl-basis/color2mean.c:17-38 | `main` gives usage unless argc == 3. Otherwise all three channels of each pixel are its mean. |
| `ExtractChannel.ExtractChannelMain` | im-proc/bcl-basis/extract-channel.c:17-37 | `main` gives usage when argc ≠ 4 or the channel is outside [0, 2]. Otherwise every channel is the selected input channel, which is the identity on a grey image. |
| `Gray2Color.Gray2ColorMain` | im-proc/bcl-basis/gray2color.c:17-48 | `main` gives usage unless argc == 5. Otherwise, on the red image's size, channel 0 comes from red, 1 from green and 2 from blue. |
| `ExtractSubimage.AsWrittenFitsOnlySquare` | im-proc/bcl-basis/extract-subimage.c:28-34 | With the destination allocated as `pnm_new(rows, cols)`, every write fits if and only if rows == cols. |
| `ExtractSubimage.AsWrittenOneByTwo` | im-proc/bcl-basis/extract-subimage.c:28-34 | rows = 1, cols = 2 already writes outside the destination. |
| `ExtractSubimage.ExtractSubimageMain` | im-proc/bcl-basis/extract-subimage.c:17-37 | `main` gives usage unless argc == 7. Otherwise imd(i, j, c) = ims(i + base_row, j + base_col, c) on a rows × cols destination. |

## Left out

- The `pnm` image library is not part of this model. That covers `pnm_load`, `pnm_save`, `pnm_new`, `pnm_free` and `pnm_maxval`. Images are arrays passed in, and `maxval` is a parameter.
- FFTW (`fftw_plan_dft_2d`, `fftw_execute`), `freq2spectra` and `spectra2freq` are foreign floating-point calls, left out. So are `do_padding`, which only chains them, and the allocation checks of `forward` and `backward`.
- Floating point: every `float` is a real, so IEEE rounding, NaN and overflow are not modelled. `log10f`, `pow` and `sqrt` are function parameters. Of `sqrt`, only that it is the non-negative square root is used.
- The colour matrices of `colorization.c` are kept as constants, but nothing is proved about their numerical values. That includes the fact that `LOGLMS2LAB` and `LAB2LOGLMS` are not mutual inverses (0.5573 against 0.5773).
- `rand()` and `srand(time(NULL))`: the random draw in `generate_samples` becomes a choice among the unmarked pixels, so rejected draws are not modelled.
- The rest of `process` in `colorization.c` is not a single method: loading, buffer allocation, and the order in which the steps are called. The global `minValue`, `maxValue`, `min` and `max` become arrays and constants passed to the steps.
- `Colorization.GenerateSamples`: requires every buffer component to be finite on entry and the image to hold at least SAMPLES pixels. With fewer, the source loops forever.
- `Colorization.Colorize`: the `int` counters of `hist` are unbounded, so their overflow is not modelled.
- `ColorSpace.ConstructImage`: requires the extents of each channel to be finite, distinct and covering the buffer. When they are equal, the source divides by zero.
- `Normalize.NormalizeMain`: requires min and max in [0, 65536), where the conversion to `unsigned short` is defined in C. Values outside that range are left out.
- `ResampleFilter.KernelSums`: requires the one box sample, at row j/factor and column i/factor, to be inside the source image. The source reads the image with a column-range number as its row index, and the model does not follow that read out of bounds. The write-back of `compute_filter` (`filter.c:84`, which passes float coordinates) and its outer loops are left out, and so are the unwritten tent, bell and mitch kernels.
- `Padding.ResizeComplexArray`: requires factor ≥ 1. `main` passes `atoi(argv[1])` unchecked (`padding.c:115-119`). With factor 0, `starting_col` is negative and the copy writes outside `out`, so that case is undefined behaviour that the model does not follow.
- `Gray2Color.Gray2ColorMain`: requires the green and blue images to be at least as large as the red one. `gray2color.c` never compares the three sizes, and a smaller green or blue image is read out of bounds, which the model does not follow.
- `ExtractSubimage.ExtractSubimageMain`: requires the window to lie inside `ims`, and takes rows and cols as naturals. `extract-subimage.c:22-33` checks neither: a window reaching outside the image, or a negative `atoi` result, is an out-of-bounds access or an invalid allocation, which the model does not follow.
- `ZoomFft.NormaliseAndClamp`: the per-pixel `printf` of `backward` (`fft.c:80`) is output only, and is left out.
- `ResampleFilter.KernelSums`: accepts every column j < w·factor, while the loop of `compute_filter` stops at j < w·factor − 1 (`filter.c:41`). The last output column is never computed by the source. The model states what one step computes and leaves the loop bounds out.
- `Pandore.MinSize`: assumes MAXLONG is 2^31 − 1. `GetNArrays` takes a non-negative n; a negative `Long` n (an invalid `new T*[n]`) is left out.
- The `Collection` features left out are: serialisation (`LoadAttributes`, `SaveAttributes`, `LoadData`, `SaveData`, `NbOf`), `GetType`, `Mask` and `UnMask`, `Type` and `Name`, and the destructor. Object ownership is not modelled: the `delete` of replaced or erased objects, and deep copies made by `Clone`. Bundled objects are values.
- `Padding.Grey` and `ResampleFilter.Average` model the `unsigned short` wrap-around explicitly. Their between-the-components promise is stated only where no wrap-around occurs.
- `color-transfer/color-transfer.c`, `zoom/copy.c`, `morphology/make-se.c` and the `fourier` tools are not part of this model.

## Findings

| source | as written | input that shows it | evidently intended | confidence | as-written member | corrected member |
|---|---|---|---|---|---|---|
| im-proc/pvisu/src/pandore/collection.h:137-144 | `operator=` calls `Delete()` on itself before copying the other collection's entries | `c = c` on a collection holding one entry: afterwards it is empty | self-assignment leaves the collection unchanged | not executed | `Pandore.SelfAssignmentLosesEntries` | `Pandore.Collection.Assign` |
| im-proc/bcl-basis/extract-subimage.c:28 | the destination is `pnm_new(rows, cols)`, i.e. width rows and height cols, and then written at row i < rows and column j < cols | rows = 1, cols = 2: the write at row 0, column 1 falls outside a 1-wide image | `pnm_new(cols, rows)`, a rows-high and cols-wide destination | not executed | `ExtractSubimage.AsWrittenOneByTwo` | `ExtractSubimage.ExtractSubimageMain` |
| im-proc/zoom/filter.c:17-22 | `rotate_image` reads `ims` at (j, i) and writes `imd` at (i, h−j−1) for i < h, j < w, on images h high and w wide | w = 2, h = 1: the read at (1, 0) falls outside a one-row image | a quarter turn, with (i, j) sent to (j, h−1−i) in a w-high, h-wide image | not executed | `ResampleFilter.RotateAsWrittenTwoByOne` | `ResampleFilter.RotateImage` |
