# tl-detector: window geometry and training-set assembly in Dafny

This project models two pieces of an image-classifier trainer.

- **Image geometry.** This part covers `inbounds`, `cutoff_lower` and `sliding_window`.
  Their implementation, `src/common.py`, is not part of this model.
  Their behaviour is taken from the assertions in `tests/test_common.py`.
  - `inbounds(shape, y, x)` is a half-open bounds check on rows and columns.
  - `cutoff_lower(image, percent)` keeps the top `int(H - H*percent)` rows.
  - `sliding_window(image, window_size, step_size)` yields full-size windows. The model enumerates them row by row, with anchors at multiples of the step from 0; this order and grid are the model's choice.
  - The proofs cover what the generator yields: its exact count `(floor((W-w)/sx)+1) * (floor((H-h)/sy)+1)`, its membership and its scan order.
    They also show that the test's `int((512-16)/16) * int((512-48)/16) = 899` is an instance of that count.
- **Training driver (`train.py`).** This part covers the following steps:
  - `load_descriptor` chooses a descriptor by name.
  - The driver joins positives before negatives.
  - It converts the images to grayscale when the name is not `'hog'`.
  - It builds the parallel label vector.

Files:

- `wrappers.dfy` (module `Wrappers`): the `Result` type used for raised errors.
- `common.dfy` (module `Common`): the geometry utilities and their lemmas.
- `train.dfy` (module `Train`): descriptor selection and training-set assembly.

Conventions:

- An image is its `Shape(height, width)`.
  For the crop, an image is a sequence of opaque rows, so the model shows that the rows removed are the bottom ones.
- `window_size` and `step_size` are positional pairs, `Extent(across, down)`.
  The first component counts columns and the second counts rows.
  So a window size `(32, 64)` gives patches of 64 rows by 32 columns, as the test asserts.
- A window is `Window(x, y, patchHeight, patchWidth)`.
- `percent` is the exact fraction `num / den`, with `den > 0`.
- Images in the driver are values of a type parameter.
  The colour conversion is an opaque function from one image to one image.
- A descriptor object is represented by the settings section it is built from.
  The bare string `'hog'` that the lookup can return is `FallbackString("hog")`.

Facts about the code and its tests that the model relies on:

- The test asserts a kept height of `int(H - H*percent)`, so `ceil(H*percent)` rows are removed from the bottom.
  `CutoffLowerThirdOf512` shows that this differs from removing `floor(H*percent)` rows, at one third of 512 rows.
- The test passes a window size of `(32, 64)` and expects `(64, 32)` patches, so the pair is `(width, height)`.
- `train.py` has no explicit check for an empty class or for feature vectors of mismatched length. The model has no such failure; the implicit failure of `np.concatenate` on line 35 is listed under Left out.

## Model

| member | source | states |
|---|---|---|
| Common.Inbounds | tests/test_common.py:9-14 | A cell is in bounds iff `0 <= y < height` and `0 <= x < width`, that is iff a one-cell window at `(y, x)` fits. An empty image has no cell in bounds. |
| Common.InboundsOnHundredSquare | tests/test_common.py:9-14 | On a 100 x 100 shape, cells (0,0) and (99,99) are in bounds; (100,100) and (50,100) are not, so the coordinate 100 is out on either axis. |
| Common.LastCellDecidesFit | tests/test_common.py:10-14 | For a non-negative anchor, the window's last cell is in bounds exactly when every cell of the window is in bounds. This holds exactly when `y + h <= H` and `x + w <= W`. |
| Common.CutoffLower | tests/test_common.py:16-19 | For a fraction in [0,1], the result is a prefix of the rows, so only bottom rows are removed. Its height `k` is `int(H - H*percent)`, that is `k*den <= H*(den-num) < (k+1)*den`, and `k <= H`. The model assumes that a fraction outside [0,1] fails with InvalidArgument, and only then; the test does not exercise that case. |
| Common.CutoffLowerExtremes | tests/test_common.py:16-19 | `percent = 0` returns every row; `percent = 1` returns no rows. |
| Common.CutoffLowerRemovesCeiling | tests/test_common.py:19 | The number of rows removed is the ceiling of `H*percent`, not the floor. |
| Common.CutoffLowerMonotone | tests/test_common.py:16-19 | With the same denominator, a larger fraction never keeps more rows. |
| Common.CutoffLowerThirdOf512 | tests/test_common.py:17-19 | On 512 rows, a third keeps 341 rows. Removing only the floor of 512/3 rows would keep 342. |
| Common.ScanRow | tests/test_common.py:26-28 | One row of the scan, with horizontal anchors from 0 by the horizontal step, yields exactly `RowFrom(y, 0)`. That is every anchor in that row whose window's last cell is in bounds, left to right. |
| Common.SlidingWindow | tests/test_common.py:21-31 | The full scan runs the row scan for each vertical anchor, 0, sy, 2sy and so on, and it yields exactly `Windows(...)`. It yields `WindowCount` windows. A window is yielded iff it is a legal placement. The output is in strict scan order. |
| Common.WindowsCount | tests/test_common.py:30-31 | The number of windows is `(floor((W-w)/sx)+1) * (floor((H-h)/sy)+1)`, where an axis whose window does not fit contributes 0. |
| Common.TestCountFormula | tests/test_common.py:30-31 | When the window fits, the count equals the test's form, `int((W-w+sx)/sx) * int((H-h+sy)/sy)`. |
| Common.WindowsAreExactlyPlacements | tests/test_common.py:27-28 | A window is yielded iff its anchor is on the step grid and the whole window lies inside the image. Its patch must be `size.down` rows by `size.across` columns. So there are no partial edge windows. |
| Common.WindowsInScanOrder | tests/test_common.py:27 | In the model's enumeration, windows come out row by row and left to right, and no anchor is repeated. |
| Common.AstronautClosedForm | tests/test_common.py:30-31 | For 512 x 512 with size (32,64) and step (16,16), the closed form gives 31 * 29 = 899. The test's expression gives the same number. |
| Common.AstronautWindowCount | tests/test_common.py:21-31 | The test's scan yields 899 windows. |
| Common.AstronautPatchShape | tests/test_common.py:22-28 | With the test's window size (32, 64), every patch over any image and any step is 64 rows by 32 columns. |
| Train.LoadDescriptor | train.py:9-14 | The lookup succeeds iff the `hog`, `lbp`, `haar` and `train` sections and `train.descriptor` are all present. A missing section fails whatever name was chosen, with the first key that is missing. It yields the HOG, LBP or Haar descriptor, built from its own section, exactly when the name is `'hog'`, `'lbp'` or `'haar'`. For every other name it yields the string `'hog'`. |
| Train.UnknownNameYieldsString | train.py:14 | For every unrecognised name, what the lookup returns is not a descriptor object. |
| Train.LoadDescriptorDefaultHog | train.py:14 | This is the corrected lookup. It has the same failure cases, and it always yields a descriptor object. Unknown names select the HOG descriptor. |
| Train.DefaultHogDiffersOnlyOnFallback | train.py:10-14 | The corrected lookup agrees with the original everywhere, except that a fallback string becomes the HOG descriptor. |
| Train.Repeat | train.py:42 | `[v] * n` has length `n`, and every entry is `v`. |
| Train.Labels | train.py:42 | The label vector has length `P + N`. Entry `i` is 1 iff `i < P`, and every entry is 0 or 1. |
| Train.ToGray | train.py:38-39 | The comprehension converts every image: the result has as many images as the input, and image `i` is the conversion of input image `i`. |
| Train.AlignedLabelMarksPositives | train.py:35-42 | Suppose the images are the positives followed by the negatives, and the labels are `[1]*P + [0]*N`. Then `labels[i] == 1` iff `i < P`, and `labels[i] == 0` iff `i >= P`. Also `images[i]` is positive `i` when `i < P` and negative `i - P` otherwise. |
| Train.GrayKeepsAlignment | train.py:38-39 | Converting every image keeps their number and order. So the labels stay aligned with the converted positives and negatives. |
| Train.PrepareTraining | train.py:22-42 | In the model, the driver fails exactly when a settings key it reads is missing, with the first missing key in the order of lines 22, 23, 29, 30 and 32. An empty class is not a failure in the model. It hands over the descriptor the chosen lookup selects, and with the corrected lookup that is always a descriptor object. It passes `settings['svm']['C']` to the classifier. It hands over `P + N` images and `P + N` labels. The images are aligned with the labels. Both sets are converted to grayscale exactly when the configured name is not `'hog'`, and this includes unknown names. |
| Train.UnknownNameReachesClassifier | train.py:14-23 | For an unrecognised name, the driver as written hands the string `'hog'` to the classifier, and with the corrected lookup it hands over the HOG descriptor built from the `hog` section. |
| Train.PreparedImagesTrackSources | train.py:35-42 | With either lookup, image `i` of the training set is positive `i`, or negative `i - P`, converted when the name is not `'hog'`. Its label is 1 iff it is a positive. |

## Left out

- YAML loading, reading image directories, `resize_images` and printing are I/O or helpers that are not part of this model. The model starts from the loaded settings and from the already resized image lists.
- The descriptor classes and `from_config_file` are floating-point image numerics whose module is not part of this model. A descriptor is the section it is built from, and a malformed section is not modelled. The fixed output length of `compute` is not modelled either.
- `cv2.cvtColor` is a foreign library call. It is an opaque function that maps one image to one image.
- SVM training and `joblib.dump` are an external optimiser and serialisation. The model stops at the data handed to `classifier.train`.
- The test's pixel data and its random choice of `percent` are not modelled. Only the 512 x 512 shape matters, and `percent` ranges over every fraction in [0,1].
- Floating-point `percent` is not modelled. The model uses the exact fraction `num/den`, so rounding errors of `H - H*percent` near an integer are not captured.
- CutoffLower: rejecting a fraction outside [0,1] with InvalidArgument is an assumption of the model. The implementation is not part of this model, and the test never passes such a fraction.
- SlidingWindow: testing only the window's last cell is the model's choice, since the implementation is not part of this model. `LastCellDecidesFit` shows that this test is equivalent to testing every cell, so the yielded windows do not depend on that choice.
- SlidingWindow: the row-by-row, left-to-right order and the anchors at multiples of the step from 0 are the model's choice. The test fixes only the patch shape and the count.
- SlidingWindow: returns the completed sequence of windows. The generator's suspension between yields is not modelled, and patch pixel contents are represented only by the patch shape.
- The test uses the symmetric step `(16, 16)`, so it does not fix which step component is horizontal. The model reads `step_size` like `window_size`: columns first, then rows.
- Window sizes and steps are required to be positive. A zero step would never advance.
- PrepareTraining: takes the lookup as a parameter. `AsWritten` is the driver of `train.py`, and `DefaultHog` is the driver with the corrected lookup recorded under Findings.
- PrepareTraining: the failure of `np.concatenate` on line 35 when exactly one class is empty is not modelled. It depends on what `resize_images` returns for an empty list, and `resize_images` is not part of this model. So the model succeeds on such input.
- PrepareTraining: `literal_eval` of `window_size` is not modelled, so a malformed window size is not a failure, and the resizing it drives is left out with `resize_images`.
- PrepareTraining: the read of `settings['train']['outfile']` on line 46 happens after training, and the model stops at the data handed to `classifier.train`.

## Findings

| source | as written | input that shows it | evidently intended | confidence | as-written member | corrected member |
|---|---|---|---|---|---|---|
| train.py:14 | `.get(name, 'hog')` returns the string `'hog'` for an unrecognised name, not a descriptor | `train.descriptor: sift` with the `hog`, `lbp` and `haar` sections present | the HOG descriptor object, as the line's comment "Default to HOG" says | high; not executed | Train.UnknownNameYieldsString | Train.LoadDescriptorDefaultHog |
