# K-means background remover: a Dafny model of its grid logic

This project models the deterministic core of `tachnenanh_kmean`, a tool
that separates an object from its background. It clusters the pixels with
k-means, picks the foreground cluster by a weighted score, cleans the
resulting mask and can refine it with GrabCut. It then composes the object
on white and as an RGBA image.

The numerical library routines are parameters of the model: colour
conversion to Lab or gray, Gaussian blur, k-means, Canny, saliency, the
centre prior, resampling and GrabCut's energy minimisation. Everything
around them is modelled: the mask post-processor, the GrabCut trimap and
its collapse, threshold derivation, the cluster score and argmax, the
feature layout, the order of the stages, the channel utilities and the
downscale size.

Masks are modelled in two forms:
- a set of pixel positions, used for reasoning;
- the 0/255 byte grid that every stage passes on.

`Binarize` (> 127) and `ToU8` convert between the two.

Files:
- `grids.dfy`: pixel grids, masks, and counting over boolean grids.
- `morphology.dfy`: 3x3 erosion and dilation with OpenCV's border rule. Pixels outside the image count as foreground for erosion and background for dilation.
- `components.dfy`: connected components, defined as the least closed set around a pixel. Also the raster order in which `measure.label` numbers them.
- `postprocess.dfy`: `morph_open_close`, `fill_small_holes`, `keep_largest_component`, `postprocess`.
- `utils.dfy`: `rgb_to_bgr`, `to_rgb`, `compose_on_white`, `bgr_to_rgba_pil`, and the size arithmetic of `downscale_keep_aspect`.
- `grabcut.dfy`: `refine_with_grabcut`, with the trimap written into a 2-D array in place, as the source does.
- `pipeline.dfy`: `_dynamic_sizes`, `_edge_density`, `_touch_border_ratio` (frame array written in place), `_pick_foreground_cluster` (a score loop that appends), `_to_lab_features`, and `segment_image`.

The source's floating-point arithmetic is modelled with exact arithmetic:
- `int(0.0008 * area)` is modelled as `area / 1250`.
- `int(0.008 * area)` is modelled as `area / 125`.
- `int(w * scale)` is modelled as `w * max_side / max(h, w)`. The double computation can come out one lower (see "Left out").
- Scores, ratios and means are `real`.

## Model

| member | source | states |
|---|---|---|
| Grids.Binarize | tachnenanh_kmean/postprocess.py:7 | the foreground is exactly the in-bounds pixels whose value is above 127 |
| Grids.ToU8 | tachnenanh_kmean/postprocess.py:10 | the 0/255 grid has the given shape, is 255 exactly on the set's pixels and 0 elsewhere |
| Grids.BinarizeToU8 | tachnenanh_kmean/postprocess.py:7-10 | re-binarising a 0/255 mask gives back exactly the pixel set it was made from |
| Grids.ToU8Binarize | tachnenanh_kmean/postprocess.py:7-10 | a 0/255 mask is determined by its foreground: converting its foreground back gives the same grid |
| Grids.CountAndAtMost | tachnenanh_kmean/pipeline.py:42 | `(mask & other).sum()` never exceeds `mask.sum()` |
| Morphology.ErodeAt | tachnenanh_kmean/postprocess.py:8 | `Erode` (postprocess.py:8, grabcut_refine.py:10-11) is one 3x3 erosion: a pixel survives erosion iff every in-image pixel of its 3x3 window is foreground, so outside pixels never remove it |
| Morphology.DilateAt | tachnenanh_kmean/postprocess.py:9 | `Dilate` (postprocess.py:8-9) is one 3x3 dilation: a pixel is set by dilation iff some in-image pixel of its 3x3 window is foreground, so outside pixels never add it |
| Morphology.ErodeShrinks | tachnenanh_kmean/postprocess.py:8 | erosion only removes pixels |
| Morphology.ErodeNShrinks | tachnenanh_kmean/grabcut_refine.py:10-11 | `ErodeN` (grabcut_refine.py:10-11, postprocess.py:9) is erosion with `iterations=n`. Eroding n times only removes pixels |
| Morphology.DilateGrows | tachnenanh_kmean/postprocess.py:9 | dilation keeps every in-image pixel of its input |
| Morphology.ErodeMonotone | tachnenanh_kmean/postprocess.py:8 | erosion preserves inclusion between masks |
| Morphology.ErodeNMonotone | tachnenanh_kmean/grabcut_refine.py:10-11 | repeated erosion preserves inclusion between masks |
| Morphology.OpenShrinks | tachnenanh_kmean/postprocess.py:8 | `Open` (postprocess.py:8) is `MORPH_OPEN`. Opening (erode, then dilate) never adds a pixel |
| Morphology.CloseOnceGrows | tachnenanh_kmean/postprocess.py:9 | one dilate-then-erode never removes an in-image pixel |
| Morphology.CloseGrows | tachnenanh_kmean/postprocess.py:9 | `Close` (postprocess.py:9) is `MORPH_CLOSE`, built from `DilateN` (dilation with `iterations=n`) and `ErodeN`. Closing with n iterations (dilate n times, then erode n times) never removes an in-image pixel |
| Morphology.ErodeNCommute | tachnenanh_kmean/grabcut_refine.py:10-11 | eroding once more before or after n erosions gives the same mask |
| Morphology.ErodeNOutside | tachnenanh_kmean/grabcut_refine.py:11 | erosion ignores pixels outside the image, so eroding `1 - mask` is eroding the in-image complement |
| Morphology.ErodeFullImage | tachnenanh_kmean/postprocess.py:8 | with the border rule, a full image stays full under erosion |
| Morphology.DilateEmpty | tachnenanh_kmean/postprocess.py:9 | with the border rule, an empty image stays empty under dilation |
| Components.GrowClosed | tachnenanh_kmean/postprocess.py:20 | flooding stops at a set closed under adjacency within the foreground |
| Components.GrowLeast | tachnenanh_kmean/postprocess.py:20 | flooding never leaves any closed set that contains its start |
| Components.ComponentIsComponent | tachnenanh_kmean/postprocess.py:20 | `Component` (postprocess.py:20) floods from p. Flooding from p gives the least closed foreground set containing p, i.e. its connected component |
| Components.ComponentUnique | tachnenanh_kmean/postprocess.py:20 | a pixel has exactly one component |
| Components.SameComponent | tachnenanh_kmean/postprocess.py:20 | every pixel of a component has that same component, so components partition the foreground |
| Components.SeedsSpec | tachnenanh_kmean/postprocess.py:20 | `Seeds` (postprocess.py:20) is the labelling scan of `measure.label`. The labelling scan yields one seed per component, in increasing raster order. Each seed is the first pixel of its component, no two seeds share a component, and every foreground pixel is covered |
| PostProcess.MorphOpenClose | tachnenanh_kmean/postprocess.py:5-10 | the result is a 0/255 grid of the input's shape |
| PostProcess.MorphOpenCloseBounds | tachnenanh_kmean/postprocess.py:6-10 | the result contains the opening of the binarised input and lies within its two-iteration closing |
| PostProcess.DilateMonotone | tachnenanh_kmean/postprocess.py:9 | dilation preserves inclusion between masks |
| PostProcess.DilateNMonotone | tachnenanh_kmean/postprocess.py:9 | repeated dilation preserves inclusion between masks |
| PostProcess.CloseMonotone | tachnenanh_kmean/postprocess.py:9 | closing preserves inclusion between masks |
| PostProcess.FillSmallHoles | tachnenanh_kmean/postprocess.py:12-16 | the result is a 0/255 grid of the input's shape |
| PostProcess.FillSmallHolesOff | tachnenanh_kmean/postprocess.py:13-16 | with `min_hole <= 0` a pixel is 255 exactly when the input is above 127 |
| PostProcess.FilledSpec | tachnenanh_kmean/postprocess.py:15 | `Filled` (postprocess.py:15) is `remove_small_holes` under the hole rule. Filling keeps the foreground and adds only whole background components that are small holes. It adds every such component |
| PostProcess.FillSmallHolesSpec | tachnenanh_kmean/postprocess.py:13-16 | with `min_hole > 0` hole filling never removes foreground. Every added pixel's background component is added whole and is a small hole under the rule, and every small hole is filled |
| PostProcess.RegionProps | tachnenanh_kmean/postprocess.py:23 | one region per given seed, in the seeds' order: the seed and the area of its 8-connected component (label order and first pixels come from `RegionPropsOrder` and `Components.SeedsSpec`) |
| PostProcess.Qualifying | tachnenanh_kmean/postprocess.py:23 | the filter keeps exactly the regions whose area reaches the threshold |
| PostProcess.QualifyingOrder | tachnenanh_kmean/postprocess.py:23 | the filter keeps the label order |
| PostProcess.LargestRegion | tachnenanh_kmean/postprocess.py:26 | `max` by area returns a region no other region beats, and every earlier region is strictly smaller (first maximum) |
| PostProcess.KeepLargestComponent | tachnenanh_kmean/postprocess.py:18-28 | the result is a 0/255 grid of the input's shape |
| PostProcess.KeepLargestFailOpen | tachnenanh_kmean/postprocess.py:20-25 | when no 8-connected component reaches `max(min_obj, 1)`, including when there is no foreground, the binarised mask comes back unchanged |
| PostProcess.ComponentOfSomeSeed | tachnenanh_kmean/postprocess.py:20 | every component is the component of some label's seed, and none of its pixels comes before that seed |
| PostProcess.RegionPropsOrder | tachnenanh_kmean/postprocess.py:20-23 | regions come in increasing raster order of their first pixels |
| PostProcess.ChosenBeats | tachnenanh_kmean/postprocess.py:23-26 | among ordered regions, every qualifying one is smaller than the chosen one, or equal and no earlier |
| PostProcess.LargestBeatsOthers | tachnenanh_kmean/postprocess.py:23-27 | the chosen region is a real component with its true area. Every qualifying component is smaller, or as large and starting no earlier |
| PostProcess.KeepLargestSingle | tachnenanh_kmean/postprocess.py:20-28 | when some component qualifies, the output is exactly one 8-connected component of the input. It is the largest qualifying one, the first in label order among ties, and a subset of the input |
| PostProcess.Postprocess | tachnenanh_kmean/postprocess.py:30-34 | the chain returns a 0/255 grid of the input's shape |
| PostProcess.PostprocessOutcome | tachnenanh_kmean/postprocess.py:30-34 | the output lies within the opened, closed and hole-filled mask, and is either that mask or its kept largest component |
| ImageUtils.ToRgb | tachnenanh_kmean/utils.py:21-22 | the channel swap keeps the shape |
| ImageUtils.ToRgbInvolution | tachnenanh_kmean/utils.py:21-22 | swapping the outer channels twice gives the image back |
| ImageUtils.RgbToBgr | tachnenanh_kmean/utils.py:12-19 | a missing image, and only a missing one, is rejected with the empty-input error. Success gives a non-empty rectangular image |
| ImageUtils.RgbToBgrGray | tachnenanh_kmean/utils.py:15-19 | `AsThreeChannels` (utils.py:15-18) stacks a 2-D image three times and drops a fourth channel. A 2-D image becomes three equal channels |
| ImageUtils.RgbToBgrPixels | tachnenanh_kmean/utils.py:17-19 | through `AsThreeChannels` (utils.py:15-18), a 3- or 4-channel pixel (r, g, b[, a]) becomes (b, g, r) |
| ImageUtils.RgbToBgrBadDepth | tachnenanh_kmean/utils.py:19 | any other channel count is rejected, as the colour conversion rejects it |
| ImageUtils.ToRgbUndoesRgbToBgr | tachnenanh_kmean/utils.py:19-22 | `to_rgb(rgb_to_bgr(img))` is `img` for a 3-channel image |
| ImageUtils.ComposeOnWhite | tachnenanh_kmean/utils.py:32-37 | the composite has the image's shape |
| ImageUtils.ComposeOnWhiteSpec | tachnenanh_kmean/utils.py:33-37 | each pixel is the input pixel where the binarised mask is set, and white elsewhere |
| ImageUtils.ComposeOnWhiteIdempotent | tachnenanh_kmean/utils.py:32-37 | compositing again with the same mask changes nothing |
| ImageUtils.BgrToRgba | tachnenanh_kmean/utils.py:39-43 | the RGBA grid has the image's shape |
| ImageUtils.BgrToRgbaSpec | tachnenanh_kmean/utils.py:40-43 | each output pixel is (r, g, b, mask) for the input pixel (b, g, r); alpha is the mask value unchanged |
| ImageUtils.DownscaleZeroSide | tachnenanh_kmean/utils.py:27-29 | `DownscaleSizeAsWritten` (utils.py:27-29) is the size `downscale_keep_aspect` computes as written. As written, a 1x2000 image with `max_side` 1600 is resized to height 0 |
| ImageUtils.DownscaleSize | tachnenanh_kmean/utils.py:27-29 | the corrected target size has both sides at least 1 |
| ImageUtils.DownscaleSizeSpec | tachnenanh_kmean/utils.py:26-29 | an image that fits keeps its size. Otherwise no side exceeds `max_side`, the long side equals it, and each side is the floor of its scaled length whenever that is at least 1 |
| ImageUtils.Downscale | tachnenanh_kmean/utils.py:24-30 | a fitting image comes back unchanged with scale 1.0. Otherwise the scale is `max_side / max(h, w)` (below 1) and the image has the downscaled size |
| GrabCutRefine.BuildTrimap | tachnenanh_kmean/grabcut_refine.py:13-16 | after the fill and the three masked writes, every cell holds the code of the last write covering it |
| GrabCutRefine.TrimapSpec | tachnenanh_kmean/grabcut_refine.py:10-16 | `SureFg` and `SureBg` (grabcut_refine.py:10-11) are the two-fold erosions of the mask and of its complement; `TrimapCode` and `TrimapGrid` (grabcut_refine.py:13-16) give each cell its code. Every cell holds one of the four codes. A cell is a mask pixel iff it is `GC_FGD` or `GC_PR_FGD`; it is `GC_FGD` iff it is sure foreground, and `GC_BGD` iff it is sure background |
| GrabCutRefine.Collapse | tachnenanh_kmean/grabcut_refine.py:22 | the collapse is a 0/255 grid of the codes' shape |
| GrabCutRefine.CollapseSpec | tachnenanh_kmean/grabcut_refine.py:22 | the collapse is foreground exactly where the code is `GC_FGD` or `GC_PR_FGD` |
| GrabCutRefine.CollapseTrimap | tachnenanh_kmean/grabcut_refine.py:13-22 | collapsing a trimap that GrabCut left untouched gives back the binarised mask |
| GrabCutRefine.CollapseKeepsSureRegions | tachnenanh_kmean/grabcut_refine.py:10-22 | if GrabCut keeps the hard labels, the collapse contains the sure foreground and avoids the sure background |
| GrabCutRefine.TrimapCell | tachnenanh_kmean/grabcut_refine.py:13-16 | a pixel's trimap code is foreground-class (`GC_FGD`/`GC_PR_FGD`) exactly when it is a mask pixel, and background-class (`GC_BGD`/`GC_PR_BGD`) otherwise |
| GrabCutRefine.TrimapAccepted | tachnenanh_kmean/grabcut_refine.py:13-20 | `HasBothClasses` (grabcut_refine.py:20) is the condition under which `cv2.grabCut` with `GC_INIT_WITH_MASK` accepts its mask. GrabCut's mask holds both a background-class and a foreground-class cell, so GrabCut accepts it, exactly when the mask is neither empty nor the whole image |
| GrabCutRefine.BothClassesFrom | tachnenanh_kmean/grabcut_refine.py:13-20 | a mask pixel and a non-mask pixel give the trimap cells of both classes that GrabCut needs |
| GrabCutRefine.MaskSplitFrom | tachnenanh_kmean/grabcut_refine.py:13-20 | a trimap with cells of both classes comes from a mask that is neither empty nor full |
| GrabCutRefine.Refined | tachnenanh_kmean/grabcut_refine.py:5-24 | a refined mask, when GrabCut accepts the trimap, is a 0/255 grid of the input's shape |
| GrabCutRefine.RefinedOutcome | tachnenanh_kmean/grabcut_refine.py:7-23 | refinement fails with GrabCut's rejection exactly when the binarised mask is empty or full. Otherwise the refined mask is 0/255 with the input's shape and is the post-processed collapse of GrabCut's codes: the cleaned collapse itself, or its kept largest component |
| GrabCutRefine.RefinedFails | tachnenanh_kmean/grabcut_refine.py:7-20 | refinement fails exactly when the binarised mask is empty or covers the whole image, and then with GrabCut's rejection `GrabCutNoSamples` |
| GrabCutRefine.RefinedFullMask | tachnenanh_kmean/grabcut_refine.py:10-20 | a mask covering the whole image (sure background empty, every cell `GC_FGD`) is rejected by GrabCut |
| GrabCutRefine.RefineWithGrabCut | tachnenanh_kmean/grabcut_refine.py:5-24 | the in-place trimap build, GrabCut's rejection or in-place rewrite, and the collapse give the refined result; a refined mask is a 0/255 grid of the input's shape |
| Pipeline.DynamicSizesSpec | tachnenanh_kmean/pipeline.py:62-68 | `DynamicSizes` (pipeline.py:62-68) is `_dynamic_sizes`. Positive thresholds pass through. Derived ones are `max(floor(area/1250), 32)` and `max(floor(area/125), 128)`. Both results are positive |
| Pipeline.DynamicSizesMegapixel | tachnenanh_kmean/pipeline.py:62-68 | a 1000x1000 image derives (800, 8000) |
| Pipeline.ShareBounds | tachnenanh_kmean/pipeline.py:41-42 | a share `(a & b).sum() / max(a.sum(), 1)` lies in [0, 1] and is 0 for an empty a |
| Pipeline.FrameArray | tachnenanh_kmean/pipeline.py:39-40 | after the four in-place writes, a cell is set exactly when it lies on the outer one-pixel frame |
| Pipeline.TouchBorderRatio | tachnenanh_kmean/pipeline.py:37-42 | `FrameRatio` (pipeline.py:37-42) is the value `_touch_border_ratio` returns. The ratio is the share of mask pixels on the frame, lies in [0, 1], and is 0 for an empty mask |
| Pipeline.EdgeDensityBounds | tachnenanh_kmean/pipeline.py:32-35 | `EdgeDensity` (pipeline.py:32-35) is `_edge_density` over the Canny edges passed in. Edge density lies in [0, 1] and is 0 for an empty mask |
| Pipeline.EmptyClusterScore | tachnenanh_kmean/pipeline.py:53-58 | a cluster no pixel carries scores 1.6 + 0.5: touch, edge, area and both means are 0 |
| Pipeline.MaxLabel | tachnenanh_kmean/pipeline.py:46 | `labels.max()` bounds every label and is attained |
| Pipeline.ArgMaxFirst | tachnenanh_kmean/pipeline.py:60 | `np.argmax` returns an index no entry beats, and every earlier entry is strictly smaller |
| Pipeline.Scores | tachnenanh_kmean/pipeline.py:46-59 | one score per cluster 0 .. max label |
| Pipeline.PickForegroundCluster | tachnenanh_kmean/pipeline.py:44-60 | the appending score loop returns the chosen cluster, a label in [0, max label] |
| Pipeline.ChosenClusterSpec | tachnenanh_kmean/pipeline.py:51-60 | `ClusterScore` (pipeline.py:52-58) is the score of cluster k, built from `LabelMask` (pipeline.py:52), `AreaFraction` (pipeline.py:53), `MeanOver` (pipeline.py:56-57) and `Score` (pipeline.py:58), and `ChosenCluster` (pipeline.py:44-60) is the first index of the highest score (`np.argmax`). The chosen cluster is in [0, max label], no cluster scores higher, and every earlier cluster scores strictly lower |
| Pipeline.SingleClusterChosen | tachnenanh_kmean/pipeline.py:46-60 | when every label is 0 there is one cluster and it is chosen |
| Pipeline.RowOf | tachnenanh_kmean/pipeline.py:15 | feature row i belongs to pixel (i / W, i % W) inside the image |
| Pipeline.RowIndex | tachnenanh_kmean/pipeline.py:15 | pixel (y, x) is feature row y * W + x, and that row maps back to (y, x) |
| Pipeline.LabFeaturesLayout | tachnenanh_kmean/pipeline.py:12-21 | `LabFeatures` (pipeline.py:15-21) is `_to_lab_features` after the Lab conversion. There are H*W rows, row-major. Each row has 3 columns, or 5 with `add_xy`: L, a, b, then x / max(W-1, 1) and y / max(H-1, 1), both times the weight |
| Pipeline.Reshape | tachnenanh_kmean/pipeline.py:30 | the reshaped labels have the image's shape, and pixel (y, x) holds the label of feature row y * W + x (row-major) |
| Pipeline.KmeansLabels | tachnenanh_kmean/pipeline.py:23-30 | the label grid has the image's shape |
| Pipeline.LabelsFailureSpec | tachnenanh_kmean/pipeline.py:15-30 | `KmeansSamples` (pipeline.py:15-21, 29) counts the samples `cv2.kmeans` sees: one per pixel, but 3 or 5 (one per column) for the single-row matrix of a 1x1 image. `LabelsFailure` (pipeline.py:29-30) is the error `_kmeans_labels` raises. Labelling succeeds exactly when the image has at least two pixels and at least K, with K positive; otherwise `K > 0` or `N >= K` fails in `cv2.kmeans`, or a single pixel's 3 or 5 labels fail the reshape |
| Pipeline.WorkingLab | tachnenanh_kmean/pipeline.py:24-27 | the image k-means clusters is the Lab conversion of the input, blurred first when `blur_sigma > 0`, with the input's shape |
| Pipeline.KmeansLabelsAt | tachnenanh_kmean/pipeline.py:13-30 | pixel (y, x) gets the label k-means gave to feature row y * W + x, and that row starts with the pixel's own L, a, b |
| Pipeline.RawMaskSpec | tachnenanh_kmean/pipeline.py:81 | `RawMask` (pipeline.py:81) is `(labels == k_fg) * 255`. The raw mask is 0/255 with the labels' shape, and is foreground exactly where the label is k_fg |
| Pipeline.Prepared | tachnenanh_kmean/pipeline.py:75-76 | the working image is rectangular and non-empty |
| Pipeline.PreparedSize | tachnenanh_kmean/pipeline.py:75-76 | the working image is the channel-swapped input when it fits. Otherwise it has the downscaled size, both sides at most `max_side` |
| Pipeline.Raw | tachnenanh_kmean/pipeline.py:79-81 | the raw mask is 0/255 with the working image's shape |
| Pipeline.RawIsChosenCluster | tachnenanh_kmean/pipeline.py:79-81 | `ForegroundCluster` (pipeline.py:79-80) is `_pick_foreground_cluster` applied to the k-means labels. The raw mask is foreground exactly where the k-means label equals the chosen cluster |
| Pipeline.Postprocessed | tachnenanh_kmean/pipeline.py:84-86 | the post-processed mask is 0/255 with the working image's shape |
| Pipeline.PostprocessedOutcome | tachnenanh_kmean/pipeline.py:84-86 | `Thresholds` (pipeline.py:84-85) is `_dynamic_sizes` of the working image's size. The post-processed mask, with the derived thresholds, is the cleaned raw mask or its kept largest component |
| Pipeline.ForegroundMask | tachnenanh_kmean/pipeline.py:84-90 | the final mask, when refinement does not fail, is 0/255 with the working image's shape |
| Pipeline.ForegroundMaskFails | tachnenanh_kmean/pipeline.py:85-90 | the final mask is missing, with GrabCut's rejection, exactly when `refine_gc` is set and the post-processed mask is empty or covers the whole working image |
| Pipeline.DefaultConfigThresholds | tachnenanh_kmean/pipeline.py:85-90 | under the default configuration refinement is off and both thresholds are derived from the area; the 5 iterations `segment_image` passes equal `refine_with_grabcut`'s default |
| Pipeline.ForegroundMaskStages | tachnenanh_kmean/pipeline.py:85-90 | without `refine_gc` the post-processed mask reaches compositing unchanged. With it, GrabCut refinement runs with 5 iterations and the same derived thresholds |
| Pipeline.Segment | tachnenanh_kmean/pipeline.py:71-97 | a missing input, and only a missing one, gives the empty-input error |
| Pipeline.OutputsAgree | tachnenanh_kmean/pipeline.py:93-97 | the white output shows the RGB original where the mask is set and white elsewhere. The RGBA output carries the RGB original's colours with the mask as alpha |
| Pipeline.SegmentOutcome | tachnenanh_kmean/pipeline.py:71-97 | a present non-empty image yields the four outputs exactly when clustering the working image succeeds and the final mask exists, all built from the working image and that mask. Otherwise the result is the clustering failure, or else GrabCut's rejection |
| Pipeline.SegmentSinglePixel | tachnenanh_kmean/pipeline.py:15-30 | a single-pixel image never yields outputs; under the default configuration the labels reshape fails with 3 labels for 1 pixel |
| Pipeline.PreparedSinglePixel | tachnenanh_kmean/pipeline.py:75-76 | preparing a single-pixel image leaves one pixel, for every `max_side` |
| Pipeline.SegmentImage | tachnenanh_kmean/pipeline.py:71-97 | the stages run in the source's order (reject a missing input; convert; downscale; reject an image k-means cannot label; cluster; pick; raw mask; thresholds; post-process; optional refine; compose) and give the specified result |

## Left out

- Library routines are parameters of the model, given as functions from their inputs to per-pixel values. This covers k-means (`cv2.kmeans`), Lab and gray conversion, Gaussian blur, Canny, saliency (`saliency_ft`), the centre prior (`center_prior`), `cv2.resize` resampling and GrabCut's energy minimisation. Their numerics are not modelled. Only what the code does with their results is modelled.
- Pipeline.EdgeDensity: Canny is one edge-map input per image. The source recomputes it per cluster from the same gray image, which gives the same map.
- PostProcess.FillSmallHoles: `skimage.morphology.remove_small_holes` is not part of this model. The hole rule is a parameter (`HoleRule`) covering three choices: the background's connectivity, a strict or non-strict size bound, and whether frame-touching regions are filled.
- The analysis text of `segment_image` (a Lab mean difference with a norm, and string formatting) is left out, because it is only a report.
- PIL image construction is left out. The four outputs are returned as grids.
- `main.py` is not part of this model: the UI, queueing, file saving and background-mode selection. Neither are `ensure_outputs_dir` and `timestamp_name` (filesystem and clock).
- `config.py` only supplies defaults. It is mirrored as the `SegConfig` datatype and `DefaultConfig`. `bg_mode` is omitted because only the UI reads it.
- Floating point: `0.0008 * area`, `0.008 * area` and `w * scale` are computed exactly as integer floors. A float rounding that lands one below an exact integer is not modelled. Scores and ratios are exact `real`s.
- Pipeline.Segment: takes an image that is already 3-channel and rectangular. The channel normalisation of other shapes is modelled separately in `RgbToBgr`. An empty image is reported as an error because the colour conversion rejects it.
- ImageUtils.DownscaleSizeSpec: the long side is `max_side` only in exact arithmetic. The source computes `int(w * (max_side / float(max(h, w))))` in doubles, which can come out one below. For example, a long side of 1077 with `max_side` 640 gives 639. The exact floors of `_dynamic_sizes` do agree with the doubles.
- ImageUtils.Downscale: the size is the exact-arithmetic floor, so it shares the one-below caveat of `DownscaleSizeSpec`. The pipeline uses the corrected size with each side at least 1 (see Findings). The source's as-written size is modelled only by `DownscaleSizeAsWritten`; no modelled resize receives it.
- PostProcess.MorphOpenClose: the kernel size is fixed at 3x3. The source's `ksize` parameter is always 3 at its only call site (postprocess.py:31).
- The default `min_hole` 64 and `min_obj` 256 of `refine_with_grabcut` are not modelled. Its only caller passes the derived thresholds (pipeline.py:90). The default iteration count 5 is `DefaultIterCount`.
- Pipeline.LabelsFailure: only the `K > 0` and `N >= K` assertions of `cv2.kmeans` and the reshape's label count are modelled. Other failures inside k-means are not. `SegConfig.k` is a natural number, so a negative `K` (which fails the same assertion as 0) cannot be given.
- GrabCut's rejection is modelled only for a mask with no foreground-class or no background-class cell. Other failures inside OpenCV are not modelled.
- The labelling inside `measure.label` is stated as a function over sets (flood to a fixed point, seeds in raster order), not as a loop over a label array.

## Findings

| source | as written | input that shows it | evidently intended | confidence | as-written member | corrected member |
|---|---|---|---|---|---|---|
| tachnenanh_kmean/utils.py:28-29 | each side is `int(side * max_side / max(h, w))`, which is 0 for a side shorter than `max(h, w) / max_side`; `cv2.resize` rejects a zero size | a 1x2000 image with `max_side` 1600 gives size (0, 1600) | every side of the downscaled image is at least 1 pixel | not executed | ImageUtils.DownscaleZeroSide | ImageUtils.DownscaleSizeSpec |
