# Raster pipeline of the pole-detection image library

This project models the core of a small C image library: the raster layer, convolution and kernels, the Harris corner detector, the optical-flow structure tensor, and the point-marking helpers of the pole detector. Pixel values are mathematical reals, not C floats.

An image has width `w`, height `h`, `c` channels and a planar buffer. Pixel `(x, y)` of channel `ch` sits at `x + y*w + ch*w*h`. `get_pixel` clamps each coordinate into range on its own. `set_pixel` silently drops writes outside the image.

Modules, one per source file:

- `Raster` (src/hw0/process_image.c, get/set): planar addressing; `Img`, the image as a value; and the class `Image`, an image in memory. `Image` keeps its shape and buffer pointer fixed, as the C struct does, and only the buffer's contents change. `Image.View()` is the current value.
- `Process` (src/hw0/process_image.c):
  - `copy_image`, `rgb_to_grayscale`;
  - the in-place `shift_image`, `scale_image` and `clamp_image`;
  - the three-way min and max.
- `Filter` (src/hw2/filter_image.c):
  - `l1_normalize`, `make_box_filter`;
  - `convolve_image`: footprint sum, a one-channel kernel broadcast to every channel, optional channel collapse;
  - the fixed 3x3 kernels, `add_image` and `sub_image`, `feature_normalize`.
- `Harris` (src/hw3/harris_image.c):
  - `describe_index`, `mark_spot`;
  - separable `smooth_image`, `structure_matrix`, `cornerness_response`, `nms_image`;
  - the corner scan of `harris_corner_detector`, with its index buffer that doubles as it fills.
- `Flow` (src/hw4/flow_image.c):
  - `make_integral_image`, `box_filter_image`;
  - `time_structure_matrix`;
  - `velocity_image`, its strided sampling and its 2x2 solve;
  - `constrain_image`.
- `Pole` (src/project/detect_pole_backup.c): `in_image`, `mark_point_exact` and `mark_point`.

Every C routine that fills or updates a buffer is a method over `Image`. Its loops carry invariants in pixel coordinates. Each method is proved equal to a specification function on `Img` built with `Tabulate`, and the properties of the source are lemmas about those functions.

Three quirks follow the code as written:

- The non-maximum suppression window is half-open and skips negative coordinates.
- Descriptor entries hold the centre value minus the neighbour (src/hw3/harris_image.c:44).
- `mark_point` paints bars that are asymmetric about the point.

Four defects of src/hw4/flow_image.c are listed under Findings. The operations follow the code there too. The corrected definitions sit beside them, with their intended properties proved.

## Model

| member | source | states |
|---|---|---|
| Raster.Clamp | src/hw0/process_image.c:9-28 | the per-axis clamp lands in [0, n) and keeps an in-range coordinate |
| Raster.Img.GetPixel | src/hw0/process_image.c:7-32 | for in-range coordinates the read is the buffer cell x + y*w + ch*w*h, which lies inside the buffer |
| Raster.GetPixelClamped | src/hw0/process_image.c:7-32 | every read equals the read at the clamped coordinates, that pixel is inside the image and its address inside the buffer; below 0 reads index 0 and past the end reads the last index, on each axis independently |
| Raster.CDiv | src/hw3/harris_image.c:41-42 | C's division truncates toward zero: the remainder takes the sign of the dividend and is smaller than the divisor, so -5/2 is -2, not -3 |
| Raster.IndexInBuffer | src/hw0/process_image.c:31 | an in-range coordinate triple addresses a cell below w*h*c |
| Raster.IndexInjective | src/hw0/process_image.c:37 | distinct in-range coordinates address distinct cells, so a write touches one pixel only |
| Raster.IndexDecompose | src/hw0/process_image.c:31 | the planar address decodes back to its column, row and channel |
| Raster.Image.SetPixel | src/hw0/process_image.c:34-39 | an in-range write replaces exactly cell x + y*w + ch*w*h by v; an out-of-range write leaves the buffer unchanged |
| Raster.Image.constructor | src/hw0/process_image.c:43 | make_image gives a fresh buffer of w*h*c cells and promises nothing about its contents |
| Process.CopyImage | src/hw0/process_image.c:41-52 | a fresh image of the same shape equal to the source pixel for pixel |
| Process.RgbToGrayscale | src/hw0/process_image.c:54-69 | for c == 3, a fresh w-by-h one-channel image whose pixel is 0.299 R + 0.587 G + 0.114 B |
| Process.GrayscaleOfGray | src/hw0/process_image.c:64 | the luma weights sum to one, so a gray pixel keeps its level |
| Process.ShiftImage | src/hw0/process_image.c:71-78 | the new image is the old one with channel ch shifted by v |
| Process.ShiftedAt | src/hw0/process_image.c:71-78 | shifting adds v to every pixel of channel ch and keeps every other channel |
| Process.ShiftedOutside | src/hw0/process_image.c:71-78 | a channel the image does not have changes nothing |
| Process.ShiftedInverse | src/hw0/process_image.c:71-78 | shifting by v and then by -v restores the image |
| Process.ScaleImage | src/hw0/process_image.c:80-87 | the new image is the old one with channel ch multiplied by v |
| Process.ScaledOutside | src/hw0/process_image.c:80-87 | a channel the image does not have changes nothing |
| Process.ScaledInverse | src/hw0/process_image.c:80-87 | scaling by v and then by its inverse restores the image |
| Process.ClampImage | src/hw0/process_image.c:89-103 | the new image is the old one with every value clamped into [0, 1] |
| Process.ClampedAt | src/hw0/process_image.c:89-103 | after clamping every value is in [0, 1]; values already there are untouched, negatives become 0, values above 1 become 1 |
| Process.ClampedIdempotent | src/hw0/process_image.c:89-103 | clamping twice is clamping once |
| Process.ThreeWayMax | src/hw0/process_image.c:107-110 | the result is one of the arguments and at least each of them |
| Process.ThreeWayMin | src/hw0/process_image.c:112-115 | the result is one of the arguments and at most each of them |
| Process.ThreeWayMinIsNegatedMax | src/hw0/process_image.c:107-115 | the minimum is the negated maximum of the negated arguments |
| Filter.PixelSum | src/hw2/filter_image.c:13-20 | the first loop nest returns the total of the buffer in planar scan order |
| Filter.L1Normalize | src/hw2/filter_image.c:11-28 | every value is divided by the buffer total |
| Filter.L1NormalizedAt | src/hw2/filter_image.c:24 | each pixel of the result is the pixel divided by the total |
| Filter.L1NormalizedSumsToOne | src/hw2/filter_image.c:11-28 | for a nonzero total the normalised values sum to one |
| Filter.FillPlane | src/hw2/filter_image.c:33-37 | the set_pixel loop of make_box_filter fills channel 0 with the constant |
| Filter.MakeBoxFilter | src/hw2/filter_image.c:30-40 | a fresh w-by-w one-channel kernel equal to the box kernel, every entry 1 / (w*w) |
| Filter.BoxKernelSumsToOne | src/hw2/filter_image.c:30-40 | the box kernel is w-by-w with one channel and sums to one |
| Filter.BoxKernelIsNormalizedOnes | src/hw2/filter_image.c:30-40 | the all-ones kernel sums to w*w and its L1 normalisation is the box kernel |
| Filter.FootprintValue | src/hw2/filter_image.c:51-68 | the inner two loops accumulate the footprint sum of weight times clamped pixel, kernel centred at (w/2, h/2), columns outermost |
| Filter.PreservedConvolution | src/hw2/filter_image.c:44-73 | a fresh image holding the footprint sum at every pixel of every channel |
| Filter.ChannelTotal | src/hw2/filter_image.c:81-84 | the sum over all channels at (x, y) |
| Filter.CollapseChannels | src/hw2/filter_image.c:76-89 | a fresh one-channel image of per-pixel channel sums |
| Filter.ConvolveImage | src/hw2/filter_image.c:42-94 | the result is the per-channel convolution when preserve is nonzero and its channel collapse otherwise |
| Filter.PreservedAt | src/hw2/filter_image.c:47-73 | the per-channel result has im's shape and holds the footprint sum at each pixel |
| Filter.ConvolvedAt | src/hw2/filter_image.c:42-94 | the result is im.w by im.h with im.c channels or one; each pixel is the footprint sum, or the sum over channels of them when collapsed |
| Filter.ConvolveIdentity | src/hw2/filter_image.c:53-70 | a 1x1 one-channel kernel of weight 1 with preserve returns the image unchanged |
| Filter.OneIsUnitKernel | src/hw2/filter_image.c:53-70 | the 1x1 kernel holding 1 is such a unit kernel |
| Filter.ConvolveZero | src/hw2/filter_image.c:42-94 | every kernel maps the zero image to zero, collapsed or not |
| Filter.BalancedOfFlat | src/hw2/filter_image.c:53-68 | over a flat image a 3x3 kernel whose entries sum to 0 gives footprint sum 0 everywhere, borders included |
| Filter.GxOfFlat | src/hw2/filter_image.c:200-214 | the gx kernel, collapsed, maps a flat image to zero |
| Filter.GyOfFlat | src/hw2/filter_image.c:216-230 | the gy kernel, collapsed, maps a flat image to zero |
| Filter.Kernel3At | src/hw2/filter_image.c:104-108 | pixel (x, y) of a 3x3 kernel is vals[y][x] |
| Filter.MakeKernel3 | src/hw2/filter_image.c:98-109 | the fill loop gives a fresh 3x3 one-channel kernel holding the table |
| Filter.MakeHighpassFilter | src/hw2/filter_image.c:96-110 | the kernel holds exactly the highpass table |
| Filter.MakeSharpenFilter | src/hw2/filter_image.c:112-126 | the kernel holds exactly the sharpen table |
| Filter.MakeEmbossFilter | src/hw2/filter_image.c:128-142 | the kernel holds exactly the emboss table |
| Filter.MakeGxFilter | src/hw2/filter_image.c:200-214 | the kernel holds exactly the gx table |
| Filter.MakeGyFilter | src/hw2/filter_image.c:216-230 | the kernel holds exactly the gy table |
| Filter.FixedKernelWeights | src/hw2/filter_image.c:96-230 | highpass, gx and gy sum to 0; sharpen and emboss sum to 1 |
| Filter.AddImage | src/hw2/filter_image.c:172-184 | a fresh image of a's shape holding a plus b's clamped read at every pixel |
| Filter.SubImage | src/hw2/filter_image.c:186-198 | a fresh image of a's shape holding a minus b's clamped read at every pixel |
| Filter.SubAddInverse | src/hw2/filter_image.c:172-198 | subtracting b undoes adding b, whatever b's shape |
| Filter.AddSubInverse | src/hw2/filter_image.c:172-198 | adding b undoes subtracting b |
| Filter.AddedCommutes | src/hw2/filter_image.c:172-184 | for images of one shape the sum does not depend on the order |
| Filter.LowestBounds | src/hw2/filter_image.c:236-245 | the running fmin started at INT_MAX is at most every value and is INT_MAX or one of the values |
| Filter.HighestBounds | src/hw2/filter_image.c:235-244 | the running fmax started at INT_MIN is at least every value and is INT_MIN or one of the values |
| Filter.ExtremesAttained | src/hw2/filter_image.c:235-247 | within the int range the running minimum and maximum occur in the image |
| Filter.Extremes | src/hw2/filter_image.c:238-247 | the first loop nest returns the running minimum and maximum of the scan |
| Filter.Rescale | src/hw2/filter_image.c:250-258 | every value v becomes (v - low) / (high - low) |
| Filter.Zero | src/hw2/filter_image.c:259-267 | every value becomes 0 |
| Filter.FeatureNormalize | src/hw2/filter_image.c:232-268 | the image is rescaled by its running extremes when they differ and zeroed otherwise |
| Filter.FeatureNormalizedRange | src/hw2/filter_image.c:232-268 | every result value is in [0, 1]; a value maps to 0 iff it is the minimum and to 1 iff it is the maximum; with no spread everything is 0 |
| Filter.FeatureNormalizedExtremes | src/hw2/filter_image.c:250-258 | within the int range and with some spread, 0 and 1 both occur in the result |
| Filter.FeatureNormalizedFlat | src/hw2/filter_image.c:259-267 | a constant image within the int range normalises to all 0 |
| Filter.FeatureNormalizeIdempotent | src/hw2/filter_image.c:232-268 | within the int range normalising twice is normalising once |
| Harris.Described | src/hw3/harris_image.c:26-33 | the descriptor of offset i is at (i % w, i / w) and has n = 25*c entries |
| Harris.EntryAt | src/hw3/harris_image.c:39-47 | entries are ordered channel, then dx, then dy, each the centre minus the clamped neighbour at (dx, dy) |
| Harris.CentreIsPixel | src/hw3/harris_image.c:40 | the centre read im.data[c*w*h + i] is the pixel at (i % w, i / w) |
| Harris.DescriptorCentreZero | src/hw3/harris_image.c:39-47 | entry 25*c + 12 of every channel is 0 |
| Harris.DescriptorShiftInvariant | src/hw3/harris_image.c:36-44 | offsetting a channel by a constant leaves every descriptor unchanged |
| Harris.DescribeChannel | src/hw3/harris_image.c:41-46 | the dx and dy loops write the channel's 25 entries at the cursor and keep the earlier ones |
| Harris.DescribeIndex | src/hw3/harris_image.c:26-49 | the returned descriptor is the specified one |
| Harris.PaintArms | src/hw3/harris_image.c:60-61 | two set_pixel calls paint channel ch at offset i on the row and on the column through (x, y), nothing else |
| Harris.CrossStep | src/hw3/harris_image.c:59-66 | one pass paints channels 0, 1 and 2 at offset i on both arms |
| Harris.DrawCross | src/hw3/harris_image.c:59-66 | the loop from lo up to hi paints the cross of that reach through (x, y) |
| Harris.MarkSpot | src/hw3/harris_image.c:54-67 | mark_spot paints the magenta cross reaching 9 pixels each way and nothing else |
| Harris.SpotShape | src/hw3/harris_image.c:59-66 | a pixel is painted iff it is on p's row or column at most 9 pixels away |
| Harris.MarkedIdempotent | src/hw3/harris_image.c:54-67 | painting the same marks twice paints nothing new |
| Harris.MarkedKeeps | src/hw3/harris_image.c:54-67 | channels 3 and up, and uncovered pixels, are unchanged |
| Harris.PixelResponse | src/hw3/harris_image.c:188-198 | the loop body computes det - 0.06 trace^2 from xx, yy, xy read at (x, y) |
| Harris.CornernessResponse | src/hw3/harris_image.c:178-204 | a fresh one-channel S.w-by-S.h image of the response at every pixel |
| Harris.EdgeResponse | src/hw3/harris_image.c:194-198 | a gradient along one axis only gives a negative response |
| Harris.CornerResponse | src/hw3/harris_image.c:194-198 | equal uncorrelated gradients on both axes give a positive response |
| Harris.ResponseSymmetric | src/hw3/harris_image.c:194-198 | the response is symmetric in the axes and in the sign of xy |
| Harris.CornernessOfZero | src/hw3/harris_image.c:178-204 | a zero structure matrix gives a zero response map |
| Harris.HasGreaterNeighbour | src/hw3/harris_image.c:223-235 | the flag loop reports exactly whether some neighbour in [x-w, x+w) x [y-w, y+w) with nonnegative coordinates is strictly greater |
| Harris.NmsImage | src/hw3/harris_image.c:210-241 | a fresh copy in which every dominated response is replaced by -999999 |
| Harris.NmsValues | src/hw3/harris_image.c:210-241 | the output has the input's shape; each value is the input value or -999999, and channels other than 0 are copied |
| Harris.NmsKeepsMaximum | src/hw3/harris_image.c:226-233 | a response at least as large as every neighbour the window reaches survives, ties included |
| Harris.NmsSuppresses | src/hw3/harris_image.c:226-233 | a response with a strictly greater neighbour in the window is suppressed |
| Harris.NmsEmptyWindow | src/hw3/harris_image.c:226-227 | w <= 0 leaves the image unchanged |
| Harris.NmsOfFlat | src/hw3/harris_image.c:210-241 | a response map constant in channel 0 is unchanged |
| Harris.NmsWindowAsymmetric | src/hw3/harris_image.c:226-229 | the window is half-open: with w = 1 a left pixel beside a larger right one survives, a right pixel beside a larger left one is suppressed |
| Harris.RowCornersBounds | src/hw3/harris_image.c:268-283 | the offsets stored for row y lie in [y*w, y*w + x) |
| Harris.RowCornersIncreasing | src/hw3/harris_image.c:268-283 | the offsets of one row increase |
| Harris.RowCornersMembers | src/hw3/harris_image.c:268-283 | offset x' + y*w is stored for row y iff x' < x and the response there reaches thresh |
| Harris.CornersBounds | src/hw3/harris_image.c:268-285 | every stored offset lies in [0, y*w) |
| Harris.CornersIncreasing | src/hw3/harris_image.c:268-285 | the stored offsets are in strictly increasing raster order |
| Harris.CornersMembers | src/hw3/harris_image.c:268-285 | the offset of a pixel is stored iff its row has been scanned and its response reaches thresh |
| Harris.CornersNone | src/hw3/harris_image.c:268-285 | with no response reaching thresh nothing is stored |
| Harris.Grow | src/hw3/harris_image.c:274-280 | the grown buffer is fresh, twice the size, and starts with the old contents |
| Harris.Record | src/hw3/harris_image.c:271-283 | the count grows by one; capacity doubles exactly when the count outgrows it and stays at least the count; earlier offsets are kept and the new one is appended |
| Harris.ScanRow | src/hw3/harris_image.c:269-284 | one row appends that row's corner offsets to those already stored |
| Harris.CollectCorners | src/hw3/harris_image.c:262-285 | the scan with initial capacity 100 stores exactly the corner offsets in raster order |
| Harris.Transposed | src/hw3/harris_image.c:113-116 | the column kernel is 1 wide and g.w tall with one channel |
| Harris.TransposedBuffer | src/hw3/harris_image.c:113-116 | the column kernel's buffer is the row kernel's buffer |
| Harris.SmoothImage | src/hw3/harris_image.c:108-129 | the result is the row pass with g followed by the column pass with its transpose, both preserving channels |
| Harris.SmoothedZero | src/hw3/harris_image.c:101-130 | smoothing the zero image gives zero |
| Harris.WriteProducts | src/hw3/harris_image.c:155-157 | the three writes put Ix^2, Iy^2 and Ix*Iy at (x, y) and change nothing else |
| Harris.StoreProducts | src/hw3/harris_image.c:153-157 | the loop body reads both gradients at (x, y) and stores their products there |
| Harris.Products | src/hw3/harris_image.c:150-159 | a fresh three-channel image of the gradient products at every pixel |
| Harris.StructureMatrix | src/hw3/harris_image.c:137-173 | the result is the smoothed products of the gx and gy gradients |
| Harris.ProductsOfZero | src/hw3/harris_image.c:151-158 | zero gradients give zero products |
| Harris.StructureOfFlat | src/hw3/harris_image.c:137-173 | a flat image has a zero structure matrix |
| Harris.FlatImageHasNoCorners | src/hw3/harris_image.c:250-287 | a flat image yields no corner for any positive threshold |
| Harris.CornerOffsetsInside | src/hw3/harris_image.c:282 | every stored offset addresses a pixel of the image |
| Harris.DescribeAll | src/hw3/harris_image.c:290-292 | one descriptor per stored offset, in order |
| Harris.HarrisCornerDetector | src/hw3/harris_image.c:250-300 | n is the number of suppressed responses reaching thresh, and d[k] describes the k-th of them in raster order |
| Flow.WindowFromCorners | src/hw4/flow_image.c:92-106 | inclusion-exclusion: any window is the combination of the four origin windows its corners span |
| Flow.IntegralFirstRow | src/hw4/flow_image.c:57-66 | row 0 of the integral image is the running sum along row 0, for any values |
| Flow.IntegralFirstColumn | src/hw4/flow_image.c:57-66 | column 0 is the running sum down column 0, for any values |
| Flow.IntegralIsWindowSum | src/hw4/flow_image.c:47-72 | for a nonnegative image each cell is the sum over [0..x] x [0..y] |
| Flow.IntegralIsSummedArea | src/hw4/flow_image.c:47-72 | for a nonnegative image the result is a summed-area table |
| Flow.IntegralSkipError | src/hw4/flow_image.c:63-66 | at an interior cell the value guard's error is exactly the skipped diagonal window |
| Flow.IntegralGuardExample | src/hw4/flow_image.c:63 | a 2x2 input whose left cell cancels to 0 gets a corner cell 1 too large |
| Flow.FixedIntegralIsWindowSum | src/hw4/flow_image.c:44-46 | with the guard on the coordinates every cell is the sum over [0..x] x [0..y], for any values |
| Flow.FixedIntegralIsSummedArea | src/hw4/flow_image.c:44-46 | the corrected recurrence is a summed-area table for every image |
| Flow.IntegralCell | src/hw4/flow_image.c:55-66 | one cell reads up to three cells already written and writes the recurrence at (x, y, z) only |
| Flow.IntegralColumn | src/hw4/flow_image.c:54-67 | one column is written top to bottom, nothing else changes |
| Flow.MakeIntegralImage | src/hw4/flow_image.c:47-72 | a fresh image of im's shape equal to the integral as written |
| Flow.BorderFactorBounds | src/hw4/flow_image.c:109-122 | each axis factor s - offset lies in [1, s] |
| Flow.BoxDivisor | src/hw4/flow_image.c:122 | the divisor is at least 1, so the division is always defined |
| Flow.ReadCorners | src/hw4/flow_image.c:92-106 | the four guarded reads combine to the corner sum |
| Flow.AxisFactor | src/hw4/flow_image.c:109-119 | the factor is s minus the border offset as written |
| Flow.BoxCell | src/hw4/flow_image.c:92-125 | one output pixel gets the corner sum over the divisor and nothing else changes |
| Flow.BoxRow | src/hw4/flow_image.c:90-126 | one row of the output is written |
| Flow.BoxChannel | src/hw4/flow_image.c:89-127 | one channel of the output is written |
| Flow.BoxFilterImage | src/hw4/flow_image.c:78-133 | a fresh image of im's shape holding the box-filtered values as written |
| Flow.FarCornerRead | src/hw4/flow_image.c:106 | the far-corner read is the origin window up to the clipped far edges |
| Flow.TopCornerRead | src/hw4/flow_image.c:98-100 | the guarded read above the window is the origin window up to its top edge |
| Flow.LeftCornerRead | src/hw4/flow_image.c:102-104 | the guarded read left of the window is the origin window up to its left edge |
| Flow.NearCornerRead | src/hw4/flow_image.c:94-96 | the guarded read beyond both low edges is the origin window up to the near corner |
| Flow.CornerSumIsWindow | src/hw4/flow_image.c:92-106 | over a summed-area table the four reads add up to the window sum clipped to the image, for any radius |
| Flow.BoxInterior | src/hw4/flow_image.c:78-125 | for odd s at an interior pixel the output is the s-by-s window sum divided by s*s |
| Flow.LeadingFactorCounts | src/hw4/flow_image.c:111-117 | for odd s, on the left and top border (i < s/2), when the window does not also reach the far edge, the factor equals the number of positions summed |
| Flow.TrailingFactorOverCounts | src/hw4/flow_image.c:113-119 | for odd s with i >= s/2, wherever the window crosses the right or bottom edge the factor is one more than the positions summed |
| Flow.TrailingFactorExample | src/hw4/flow_image.c:113-122 | s = 3 on a 4-pixel axis: the last position sums 2 but divides by 3 |
| Flow.EvenInteriorExample | src/hw4/flow_image.c:92-122 | s = 2 at the centre of a 5x5 image: the reads span 3x3 = 9 pixels but the divisor is 4 |
| Flow.NarrowAxisExample | src/hw4/flow_image.c:111-117 | s = 5 on a 2-pixel axis at i = 0: 2 positions are summed but the factor is 3, since the else-if skips the trailing offset |
| Flow.CountedDivisor | src/hw4/flow_image.c:121-122 | the corrected divisor, the number of pixels summed, is at least 1 |
| Flow.FixedBoxIsMean | src/hw4/flow_image.c:121-122 | with the counted divisor every output pixel is the mean over its clipped window |
| Flow.IntegralOfZeroChannel | src/hw4/flow_image.c:47-72 | a channel of zeros has an integral of zeros |
| Flow.CornerSumOfZeroChannel | src/hw4/flow_image.c:92-106 | the four reads of an all-zero channel sum to 0 |
| Flow.BoxOfZeroChannel | src/hw4/flow_image.c:78-133 | a channel of zeros stays zero through the box filter |
| Flow.Luminance | src/hw4/flow_image.c:143-148 | a three-channel frame is converted to one grayscale channel; any other frame is used as it is |
| Flow.TimeDerivative | src/hw4/flow_image.c:162-165 | It has the frame's width and height and one channel |
| Flow.TimeStructure | src/hw4/flow_image.c:141-198 | the result has im's width and height and 5 channels |
| Flow.TimeDerivativeOfSameFrame | src/hw4/flow_image.c:162-165 | a frame against itself has a zero temporal derivative |
| Flow.TimeChannelsOfStill | src/hw4/flow_image.c:175-179 | with It zero, channels 3 and 4 (Ix*It, Iy*It) are zero |
| Flow.StillFramesHaveNoTimeTerms | src/hw4/flow_image.c:141-198 | for identical frames channels 3 and 4 are zero everywhere, after the box filter too |
| Flow.FrameDifference | src/hw4/flow_image.c:162-165 | the flat loop over w*h cells gives channel 0 of im minus channel 0 of prev |
| Flow.StoreSpatialProducts | src/hw4/flow_image.c:175-177 | Ix^2, Iy^2 and Ix*Iy are written at (x, y), nothing else changes |
| Flow.StoreTemporalProducts | src/hw4/flow_image.c:178-179 | Ix*It and Iy*It are written at (x, y), nothing else changes |
| Flow.StoreTimeProducts | src/hw4/flow_image.c:170-180 | the loop body reads the three derivatives at (x, y) and writes the five products there |
| Flow.FillTimeProducts | src/hw4/flow_image.c:168-181 | a fresh 5-channel image of the products Ix^2, Iy^2, Ix*Iy, Ix*It, Iy*It |
| Flow.TimeStructureMatrix | src/hw4/flow_image.c:141-198 | the result is the box-filtered products of the (grayscale) frame pair |
| Flow.StructureAt | src/hw4/flow_image.c:221-224 | M is [[Ixx, Ixy], [Ixy, Iyy]], symmetric |
| Flow.FlowSolvesEquations | src/hw4/flow_image.c:218-230 | where the inverse is exact, the flow vector solves M v = T with T = (-Ixt, -Iyt) |
| Flow.CramerIsInverse | src/hw4/flow_image.c:226 | the adjugate over a nonzero determinant is an inverse |
| Flow.SampleInside | src/hw4/flow_image.c:209-233 | output coordinate k below n / stride samples a position inside the axis; every sampled position divides back to k |
| Flow.SampleBeyondOutput | src/hw4/flow_image.c:205-233 | on an axis of 5 with stride 2, position 4 is sampled but its output column 2 lies outside the result |
| Flow.Velocity | src/hw4/flow_image.c:205 | the result is S.w / stride by S.h / stride with 3 channels |
| Flow.VelocitySolvesEquations | src/hw4/flow_image.c:203-242 | where the inversion is exact, every output vector solves the flow equations at its sampled position |
| Flow.VelocityCell | src/hw4/flow_image.c:211-233 | one sample reads S's buffer at five channel offsets and writes the flow at (i / stride, j / stride) channels 0 and 1 only |
| Flow.VelocityRow | src/hw4/flow_image.c:210-237 | one strided row writes the sampled flow into its output row |
| Flow.VelocityImage | src/hw4/flow_image.c:203-242 | channels 0 and 1 hold the flow at the sampled positions; channel 2 keeps the fresh buffer's contents |
| Flow.ConstrainedImg | src/hw4/flow_image.c:267-274 | the result has the image's shape |
| Flow.ConstrainedInRange | src/hw4/flow_image.c:267-274 | for v >= 0 every value ends in [-v, v] and values already there are unchanged |
| Flow.ConstrainedNegativeBound | src/hw4/flow_image.c:271-272 | for v < 0 every value becomes v |
| Flow.ConstrainedIdempotent | src/hw4/flow_image.c:267-274 | constraining twice is constraining once, whatever v |
| Flow.ConstrainImage | src/hw4/flow_image.c:267-274 | every buffer value is raised to -v and then lowered to v, in place |
| Pole.InImage | src/project/detect_pole_backup.c:47-54 | the result is 1 iff 0 <= x < w and 0 <= y < h, and 0 otherwise |
| Pole.MarkPointExact | src/project/detect_pole_backup.c:422-428 | channels 0, 1 and 2 at p take shade; nothing else changes |
| Pole.MarkedExactAgreesWithInImage | src/project/detect_pole_backup.c:422-428 | a point in_image rejects leaves the image unchanged; one it accepts gets shade in every colour channel |
| Pole.MarkedExactIdempotent | src/project/detect_pole_backup.c:422-428 | marking the same point twice changes nothing more |
| Pole.MarkColumn | src/project/detect_pole_backup.c:404-413 | the y loop paints the crosses of one column of the block |
| Pole.MarkBlock | src/project/detect_pole_backup.c:403-414 | the x loop paints the crosses of the whole block |
| Pole.Shade | src/project/detect_pole_backup.c:406-411 | the colour is shade in all three channels |
| Pole.MarkPoint | src/project/detect_pole_backup.c:400-415 | the image becomes the marked image for the 4-by-4 block of crosses reaching from -20 up to 19 |
| Pole.MarkPointBars | src/project/detect_pole_backup.c:403-412 | the painted pixels are exactly x in [x-22, x+20] on rows y-2..y+1, and y in [y-22, y+20] on columns x-2..x+1 |
| Pole.MarkedPointAt | src/project/detect_pole_backup.c:400-415 | every pixel of the bars holds shade in channels 0 to 2; every other value, channels 3 and up included, is kept |
| Pole.MarkedPointIdempotent | src/project/detect_pole_backup.c:400-415 | marking the same point twice changes nothing more |

## Left out

- Floating point: pixel values are reals, so no claim covers float rounding, overflow or NaN. In particular Filter.IntMax is INT_MAX as an integer, 2147483647, while the float the source stores rounds up to 2^31: an image whose every value is 2^31 is zeroed by the source but rescaled to 1 by the model.
- Filter.L1Normalize: requires a nonzero total for a nonempty image. The source divides by zero there.
- Gaussian kernels: `make_gaussian_filter` and `make_1d_gaussian` (exp, and the sigma*6+1 size truncation) are left out. Harris.SmoothImage and Harris.StructureMatrix take the row kernel g as a parameter.
- sobel_image, colorize_sobel, rgb_to_hsv, hsv_to_rgb: square roots, atan2 and fmod-based colour conversion on floats.
- make_image, free_image, free_descriptors: image.h is not part of this model. A fresh image's contents are unspecified, and freeing is not modelled.
- Process.ShiftImage, Process.ScaleImage: require at least one channel when the image has pixels, because get_pixel on an empty axis reads before the buffer.
- Harris.NmsImage: the source writes -999999 inside the search loop, when it clears its flag. The model searches first and then writes once. The resulting buffer is the same.
- Harris.StructureMatrix: the image the source allocates up front and then overwrites with the smoothed result is not modelled.
- Harris.HarrisCornerDetector: requires an image with at least one pixel and one channel, as the structure matrix reads through get_pixel; the source handles w, h or c equal to 0 with empty loops, and for c = 0 returns descriptors with no entries.
- Harris.HarrisCornerDetector: the index buffer is modelled as an array that grows by copying. malloc failure and the C int width of indices are not modelled. Descriptors are values rather than heap arrays.
- Flow.VelocityImage: matrix_invert and matrix_mult_matrix live in matrix.h, which is not part of this model. The inversion is the parameter `invert`, and the product is Flow.Apply. Flow.CramerInverse is one instance, exact whenever the determinant is nonzero; the source leaves the singular case undefined. Matrix allocation and freeing are not modelled.
- Flow.VelocityImage: requires stride >= 1 and at least 5 channels in S, which the source needs to read its buffer.
- Flow.BoxFilterImage: requires s >= 1. For even s the window is s + 1 wide (see Findings); Flow.BoxInterior covers odd s only, while Flow.CornerSumIsWindow holds for any radius.
- Flow.TimeStructureMatrix: requires both frames to have the same shape and at least one channel, which the flat w*h loop needs.
- Pole.MarkPoint, Pole.MarkPointExact, Harris.MarkSpot: the point's coordinates are taken as integers. The float-to-int conversion of a float point is not modelled.
- draw_flow, draw_line, optical_flow_images and optical_flow_webcam: float line stepping, video I/O and an endless capture loop.
- The pole heuristics of detect_pole_backup.c (get_pole_info, detect_pole, is_red, pixel_contrast, the edge finders, find_slope, find_center, vizualize_points, print_pole_info): float-stepped crawls over HSV thresholds, with printing.
- src/hw1/resize_image.c and the Python scripts: float coordinate mapping through rounding, and file and CSV I/O.

## Findings

| source | as written | input that shows it | evidently intended | confidence | as-written member | corrected member |
|---|---|---|---|---|---|---|
| src/hw4/flow_image.c:63 | the diagonal cell is subtracted only when the two neighbour values i1 and i2 are both nonzero | 2x2 one-channel image with 1 at (0,0), -1 at (0,1) and 0 elsewhere: the left neighbour cell sums to 0, the subtraction is skipped, and cell (1,1) holds 1 instead of 0 | subtract the diagonal whenever x > 0 and y > 0, so each cell is the sum over [0..x] x [0..y] as the function's comment says | high; not executed | Flow.IntegralGuardExample | Flow.FixedIntegralIsSummedArea |
| src/hw4/flow_image.c:113-119 | on the right and bottom border the factor is s - (i - w + radius), and only for i > w - radius | s = 3 on a 4-pixel axis at i = 3: columns 2 and 3 are summed, but the factor is 3 | divide by the number of pixels actually summed, as the comment at line 121 says | high; not executed | Flow.TrailingFactorExample | Flow.FixedBoxIsMean |
| src/hw4/flow_image.c:92-122 | for even s the reads span s + 1 positions on each axis while the divisor is s * s | s = 2 at (2, 2) of a 5x5 image: 9 pixels are summed and divided by 4 | divide by the number of pixels summed, as the comment at line 121 says | high; not executed | Flow.EvenInteriorExample | Flow.FixedBoxIsMean |
| src/hw4/flow_image.c:111-117 | the else-if applies the trailing offset only when the leading one does not, so a window past both ends of an axis loses just one side | s = 5 on a 2-pixel axis at i = 0: 2 positions are summed but the factor is 3 | take off both overhangs, as the comment at line 121 says | high; not executed | Flow.NarrowAxisExample | Flow.FixedBoxIsMean |
