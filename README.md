# Plant detection: a verified model of the plant extractor

This project models the plant extractor of the Plant-Detection repository.
The extractor finds plant regions in an RGB image and returns their bounding
boxes. It does this in six steps:

1. It computes the ExG-ExR vegetation index of every pixel.
2. It thresholds the index map into a binary mask, 255 where the index exceeds the threshold.
3. It erodes the mask once with a rectangular kernel.
4. It dilates the mask twice with a second rectangular kernel.
5. It finds the connected foreground regions and takes their bounding rectangles `[x, y, w, h]`.
6. It keeps a rectangle when its width or its height exceeds the minimum size.

The model also covers the file-name helpers around the extractor:

- picking image files by extension during a directory walk;
- taking the last path segment as the file name;
- building the output name `<stem>_with_bb.<ext>`.

The repository holds two copies of the extractor, `code/plant_extractor.py`
and `code/PlantExtractor.py`. Both compute the same thing. One model serves
both, and the table below cites whichever copy shows each step most directly.
To map between them:

| step | plant_extractor.py | PlantExtractor.py |
|---|---|---|
| index | 66-75 | 75-84 |
| threshold | 87-88 | 103-104 |
| morphology | 104-111 | 135-142 |
| pipeline | 128-145 | 165-182 |

Modules:

- `Grids`: the raster vocabulary.
  - Rasters are `seq<seq<T>>`.
  - Points are `Pt(row, col)`.
  - It defines 8-adjacency and raster order.
- `VegetationIndex`: the index, computed over exact reals. The epsilon is any positive constant.
- `Binarizer`: OpenCV's `THRESH_BINARY` with maximum value 255.
- `Morphology`: binary erosion and dilation by a rectangular window.
  - The anchor is at `size / 2` on each axis.
  - Pixels outside the raster are neutral, as in OpenCV's default border.
  - `DilateTwiceMerged` proves that two dilations equal one dilation by the window OpenCV substitutes for `iterations=2`.
- `Regions`: the region search, written as an imperative raster scan.
  - At every foreground pixel not yet seen, the scan starts a stack-based flood fill.
  - The fill runs over an `array2<bool>` of seen pixels.
  - It grows the region's extent as it goes.
  - The box is `w = maxx - minx + 1`, `h = maxy - miny + 1`.
  - The proofs show three things:
    - the regions found are exactly the maximal 8-connected foreground components, each found once;
    - they are listed in the raster order of their first pixels;
    - each box is the component's bounding rectangle.
  - `RegionBoxesUnique` shows that this list of boxes is determined by the mask alone.
- `Extractor`: the rest of the extractor.
  - the settings and their defaults (0, (2, 2), (20, 20), 15);
  - the cleaned mask;
  - the size filter, as a function and as the loop that builds the list;
  - `GetBoundingBoxes`, which runs the whole pipeline and returns a `Result`.
- `Paths`: the string helpers.
  - `str.split`, `'/'.join`, `os.path.join`;
  - the extension test, the walk's collection loop and the output name.

Inputs and outputs:

- Clocks, file reads and writes, and `os.walk` itself are not modelled.
  - The walk is an input: a sequence of `Dir(root, files)` entries in walk order.
  - The images are inputs too: rasters of `Pixel(r, g, b)` with 8-bit channels.
- Errors are values. `GetBoundingBoxes` returns `Err(BadKernel)` when a kernel side is below 1. This is the assertion OpenCV raises in `getStructuringElement`, and it is checked first.
- It returns `Err(EmptyImage)` when the image has no rows or no columns. OpenCV refuses to erode an empty matrix.

Behaviour the code fixes, stated as the model follows it:

- The constructor stores kernel sizes without checking them (code/plant_extractor.py:34-46). OpenCV rejects a bad size in `getStructuringElement`, on the first pipeline call, so the model reports `BadKernel` from `GetBoundingBoxes`.
- OpenCV's default border is neutral: cells outside the image never erode a pixel or dilate one, so the window is clipped to the image. An entirely foreground mask therefore stays entirely foreground (`Morphology.ForegroundStays`) and yields one box spanning the whole image (`Regions.FullMaskOneBox`).
- Every index value lies strictly between -2.4 and 3, for every epsilon > 0 (`VegetationIndex.ExGExR`). For an epsilon of at most 1.4, pure green reaches the largest value 3 / (1 + epsilon) and pure red the smallest, -2.4 / (1 + epsilon) (`VegetationIndex.IndexExtremes`).

## Model

| member | source | states |
|---|---|---|
| VegetationIndex.ExGExR | code/plant_extractor.py:66-75 | the index of any pixel lies strictly between -2.4 and 3, for every positive epsilon; a black pixel has index 0 (no division by zero) |
| VegetationIndex.IndexExtremes | code/plant_extractor.py:66-75 | for an epsilon of at most 1.4, (0, 255, 0) gives 3 / (1 + epsilon), (255, 0, 0) gives -2.4 / (1 + epsilon), and every pixel's index lies between these two values |
| VegetationIndex.PositiveIff | code/PlantExtractor.py:75-84 | the index is positive exactly when 15 G > 12 R + 5 B on the raw channels, whatever the epsilon |
| VegetationIndex.WhitePixel | code/plant_extractor.py:70-75 | a white pixel has the finite index -0.4 / (3 + epsilon) |
| VegetationIndex.IndexMap | code/PlantExtractor.py:75-84 | the index map has the image's shape, is the per-pixel index at each position, and is bounded by (-2.4, 3) |
| VegetationIndex.BlackImage | code/plant_extractor.py:70 | an all-black image has an all-zero index map |
| Binarizer.Threshold | code/plant_extractor.py:87-88 | the mask has the map's shape, holds only 0 and 255, and is 255 exactly where the value is strictly above the threshold |
| Binarizer.ThresholdMonotone | code/PlantExtractor.py:103-104 | raising the threshold never adds a foreground pixel |
| Binarizer.ThresholdAllBelow | code/plant_extractor.py:87-88 | a map with no value above the threshold gives an all-background mask |
| Morphology.KernelWindow | code/plant_extractor.py:104-108 | a kernel with both sides at least 1 gives a window whose anchor, at size / 2, lies inside it |
| Morphology.ErodeBy | code/plant_extractor.py:110 | erosion keeps the shape, yields a binary mask, and never adds foreground when the anchor lies in the window |
| Morphology.DilateBy | code/plant_extractor.py:111 | dilation keeps the shape, yields a binary mask, and never removes foreground when the anchor lies in the window |
| Morphology.Erode | code/PlantExtractor.py:141 | one erosion by a valid kernel: same shape, binary, contained in its input |
| Morphology.Dilate | code/PlantExtractor.py:142 | one dilation by a valid kernel: same shape, binary, contains its input |
| Morphology.ErodeMonotone | code/plant_extractor.py:110 | a larger mask erodes to a larger mask |
| Morphology.DilateMonotone | code/plant_extractor.py:111 | a larger mask dilates to a larger mask |
| Morphology.BackgroundStays | code/plant_extractor.py:110-111 | an all-background mask stays all-background under erosion and dilation |
| Morphology.ForegroundStays | code/plant_extractor.py:110-111 | an all-foreground mask stays all-foreground under erosion and dilation: cells outside the image never erode a pixel |
| Morphology.DilateTwiceMerged | code/PlantExtractor.py:142 | two dilations by a window equal one dilation by the merged window (sides 2k-1, anchor doubled) |
| Extractor.DefaultConfig | code/plant_extractor.py:34-46 | the defaults are threshold 0, erosion kernel (2, 2), dilation kernel (20, 20) and minimum size 15; both kernels are valid, with windows anchored at (1, 1) and (10, 10) |
| Extractor.CleanMask | code/plant_extractor.py:128-131 | the cleaned mask has the image's shape, holds only 0 and 255, and is rectangular when the image is |
| Extractor.StagesNested | code/PlantExtractor.py:165-167 | the eroded mask is inside the thresholded mask, and inside each dilation and the final mask |
| Extractor.NothingAboveThreshold | code/plant_extractor.py:128-130 | if no pixel's index exceeds the threshold, the cleaned mask is all background |
| Extractor.BlackImageIsBackground | code/PlantExtractor.py:46-49 | with the default settings, an all-black image yields an all-background mask |
| Extractor.DefaultThresholdPixel | code/plant_extractor.py:87-88 | with the default threshold, a pixel enters the mask exactly when 15 G > 12 R + 5 B |
| Extractor.EverythingAboveThreshold | code/plant_extractor.py:128-130 | if every pixel's index exceeds the threshold, the cleaned mask is entirely foreground |
| Extractor.GreenImageIsForeground | code/PlantExtractor.py:165-167 | with the default settings, an image whose every pixel has 15 G > 12 R + 5 B gives an entirely foreground cleaned mask |
| Regions.FloodFill | code/plant_extractor.py:134-135 | the fill from a new foreground seed marks exactly a fresh maximal 8-connected component containing the seed, whose other pixels all follow the seed in raster order, and returns its bounding rectangle |
| Regions.ToBox | code/plant_extractor.py:140 | the box starts at the extent's smallest column and row; for a non-empty extent its sides are positive and its last column and row are the extent's largest |
| Regions.Label | code/plant_extractor.py:134-140 | the boxes are the bounding rectangles of pairwise-disjoint maximal 8-connected components that cover every foreground pixel, listed in raster order of their first pixels; every box lies inside the image; an all-background mask gives no box |
| Regions.BoxInside | code/PlantExtractor.py:177 | the bounding rectangle of pixels of the mask has positive sides and lies inside the image |
| Regions.BoundingBoxUnique | code/plant_extractor.py:140 | a set of pixels has at most one bounding rectangle; `FloodFill` supplies one for each component |
| Regions.ComponentsMeet | code/PlantExtractor.py:171-172 | two maximal 8-connected components that share a pixel are equal |
| Regions.LabellingUnique | code/PlantExtractor.py:171-172 | there is only one list of components that covers the foreground in discovery order |
| Regions.RegionBoxesUnique | code/PlantExtractor.py:171-177 | the list of region boxes in discovery order is determined by the mask |
| Regions.FullMaskOneBox | code/plant_extractor.py:134-140 | a mask that is entirely foreground has exactly one region, whose box is [0, 0, width, height] |
| Extractor.FilterMembership | code/plant_extractor.py:142-143 | a box is in the filtered list iff it was found and its width or its height exceeds the minimum size |
| Extractor.Keep | code/plant_extractor.py:142 | the size test: width or height strictly above the minimum; its meaning inside the filter is stated by FilterMembership |
| Extractor.FilterBoxes | code/PlantExtractor.py:176-180 | the filtered list is no longer than its input and every box in it passes the size test; FilterMembership, FilterAppend and FilterLength give membership in both directions and order |
| Extractor.FullImageBoxes | code/plant_extractor.py:142-143 | a full-image box is kept exactly when a side exceeds the minimum; the result has at most one box |
| Extractor.FilterAppend | code/PlantExtractor.py:176-180 | filtering two runs of boxes is filtering each and concatenating, so the order is kept |
| Extractor.FilterLength | code/plant_extractor.py:137-145 | the filter never lengthens the list, and a list whose boxes all pass is returned unchanged |
| Extractor.SelectBoxes | code/PlantExtractor.py:174-180 | the loop's list equals the filtered list of the found boxes |
| Extractor.GetBoundingBoxes | code/plant_extractor.py:115-145 | BadKernel iff a kernel is invalid; EmptyImage iff the kernels are valid and the image is empty; otherwise the boxes are the filtered bounding rectangles of the cleaned mask's components in discovery order; each lies inside the image and passes the size test; an all-background mask gives none; an entirely foreground mask gives the whole-image box when a side exceeds the minimum, and nothing otherwise |
| Paths.Split | code/utils.py:21 | a split yields at least one piece and no piece holds the separator |
| Paths.SplitJoin | code/utils.py:21 | joining the pieces of a split with the separator gives back the string |
| Paths.JoinSplit | code/utils.py:21 | separator-free pieces, joined and split again, come back unchanged |
| Paths.SplitConcat | code/utils.py:21 | splitting around one separator splits the two sides independently |
| Paths.FilenameIsLastSegment | code/utils.py:21 | the file name is a suffix of the path without '/', and is either the whole path or follows a '/' |
| Paths.GetFilename | code/utils.py:18-21 | the file name holds no '/' and is a suffix of the path; FilenameIsLastSegment adds that it is the whole path or follows a '/' |
| Paths.FilenameOfBareName | code/utils.py:21 | a path without '/' is its own file name |
| Paths.FilenameOfDirectory | code/utils.py:21 | a path ending in '/' has an empty file name |
| Paths.FilenameOfJoin | code/utils.py:13 | the file name of a joined path is the file that was joined |
| Paths.JoinPath | code/utils.py:13 | the joined path ends with the file and, unless the file is absolute, starts with the root; FilenameOfJoin shows the file comes back out |
| Paths.RejectedByLastChar | code/utils.py:3 | a name whose last character is neither 'g' nor 'f' is not an image name |
| Paths.RejectedShort | code/utils.py:3 | a name shorter than four characters is not an image name |
| Paths.IsImageName | code/utils.py:3 | a case-sensitive match of one of the four extensions at the end of the name; RejectedByLastChar, RejectedShort and ImageNameExamples state what it accepts and rejects |
| Paths.ImageNameExamples | code/utils.py:12 | the test is a case-sensitive suffix match: "x.png", "leaf.jpeg" and "a.b.tiff" pass; "x.PNG", "x.txt" and "png" fail |
| Paths.GetImagesFilenames | code/utils.py:9-15 | the nested loops return the joined paths of the image files of each directory, in walk order |
| Paths.ImagesInSource | code/utils.py:11-13 | every path collected from a directory joins it with one of its image files |
| Paths.ImagesInHas | code/utils.py:11-13 | every image file of a directory is collected, joined with the directory |
| Paths.ImagesOfAppend | code/utils.py:10-13 | collecting from two runs of the walk concatenates the two results |
| Paths.CollectedAreImages | code/utils.py:9-15 | when the walk's file names hold no '/', the file name of every collected path passes the extension test |
| Paths.NewNameParts | code/detect.py:43 | the new name is stem + "_with_bb." + ext, where the stem is the longest dot-free prefix and ext is the longest dot-free suffix |
| Paths.NewName | code/detect.py:43 | the new name of a name without '/' holds no '/'; NewNameParts characterises it fully |
| Paths.NewNameOneDot | code/detect.py:43 | "s.e" becomes "s_with_bb.e" |
| Paths.NewNameManyDots | code/detect.py:43 | with several dots, everything between the first and the last dot is dropped |
| Paths.NewNameNoDot | code/detect.py:43 | a name without a dot serves as both stem and extension |
| Paths.NewNameExampleOneDot | code/detect.py:43 | NewName("s.e") is "s_with_bb.e" |
| Paths.NewNameExampleTwoDots | code/detect.py:43 | NewName("a.b.png") is "a_with_bb.png" |
| Paths.NewNameExampleNoDot | code/detect.py:43 | NewName("abc") is "abc_with_bb.abc" |
| Paths.NewNameOfFilenameHasNoSlash | code/detect.py:42-43 | the new name built from a file name holds no '/' |

## Left out

- Floating-point rounding is not modelled. The index is computed over exact reals, and the epsilon (Keras' `K.epsilon()`) is any positive constant.
- The model does not reproduce how `findContours` is computed: the contour tracing, `CHAIN_APPROX_SIMPLE`, and the order in which the library emits contours.
  - Regions are 8-connected components, listed in the raster order of their first pixels.
  - With `RETR_EXTERNAL`, the library omits a component nested inside a hole of another. The model reports every component.
- Regions.Label: the list is not in the library's contour order, and boxes of nested components are not dropped. On masks with foreground inside a hole this differs from the source.
- Extractor.GetBoundingBoxes: it inherits the same two differences from Regions.Label.
- The hierarchy output of `findContours`, `astype('uint8')` and `imgMod.copy()` are not modelled. The model's masks already hold the values 0 and 255 and are never mutated.
- Morphology is modelled on binary masks only. These are the only masks the pipeline feeds it. Grayscale erosion and dilation are left out.
- `save_img_with_bounding_box`, `cv2.rectangle`, `cv2.imwrite`, matplotlib and its dpi are left out. They draw on and write images, which is output I/O.
- `create_results_folder`, `os.mkdir`, `save_path` and `result_folder` are left out. They are file-system I/O.
- `os.walk` is left out as I/O; the walk's output is an input of `Paths.GetImagesFilenames`.
- The data loader, `main.py`, argument parsing, `verboseprint`, timing, `print` and the per-image loop of `detect.py` are left out. They are I/O and orchestration; the model keeps only the name built inside that loop.
- The Keras import is left out; it is used only for the epsilon.
- `Paths.JoinPath` models `os.path.join` for two POSIX arguments only.
