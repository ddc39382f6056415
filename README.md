# Sonder image tagging core, in Dafny

Sonder tags photos on an Android phone with a small on-device neural
network. This project models the three steps of `Util.java` that turn a
decoded photo into a list of tag labels, and proves what each step promises:

- **Preprocessing** (`Util.bitmapToTensor`). The bitmap is scaled so that it
  covers the network's input rectangle while keeping its aspect ratio
  ("fill"). It is then centre-cropped to exactly that rectangle, and its
  pixels are written into a channel-planar `double[]` buffer: all red values,
  then all green values, then all blue values. Module `ImagePreprocess`. The
  Java `int` arithmetic of the geometry is written out in module `JavaInt`:
  wrap-around, truncating division and the arithmetic shift.
- **Top-K selection** (`Util.topKIndices`). The output tensor's values are
  paired with their indices and sorted by descending value with a stable
  sort. The first `k` indices are returned. Module `TopKSelector`.
- **Tag assembly** (the tail of `Util.getTagCategories`). Each selected index
  is looked up in the category table, and the sentinel label `"None"` is
  appended. Module `Classifier`.

`Tensors` holds the tensor value that flows between the steps. `Arithmetic`
holds small facts about integer products and quotients.

Java `double` is modelled as `real`. `Collections.sort` is modelled by
`SortByValueDescending`, a stable insertion sort. `RankedUnique` shows that
any stable descending sort of the same pairs gives the same list, so this
choice of sort does not matter. The model's top-K result is therefore the
one `Collections.sort` produces.

## Model

| member | source | states |
|---|---|---|
| JavaInt.Wrap | app/src/main/java/com/story/sonder/Util.java:92 | The result is an `int` congruent to the exact value modulo 2^32, and equal to it when it fits |
| JavaInt.Mul | app/src/main/java/com/story/sonder/Util.java:92 | Java `int` product: always an `int`, and the exact product when that fits |
| JavaInt.Sub | app/src/main/java/com/story/sonder/Util.java:99-100 | Java `int` difference: always an `int`, and the exact difference when that fits |
| JavaInt.Div | app/src/main/java/com/story/sonder/Util.java:92 | Java `int` quotient rounded toward zero: for a positive divisor it is the floor quotient of a non-negative dividend and the ceiling quotient of a negative one |
| JavaInt.ShiftRightOne | app/src/main/java/com/story/sonder/Util.java:99-100 | `a >> 1` is the floor of half of `a`: 2r <= a <= 2r+1 |
| ImagePreprocess.ScaledSize | app/src/main/java/com/story/sonder/Util.java:89-97 | Defines the fill-scaling rule: compare the aspect ratios with exact products, keep the target height and scale the width with `int` arithmetic, or keep the target width and scale the height |
| ImagePreprocess.ScaleCoversTarget | app/src/main/java/com/story/sonder/Util.java:89-97 | Fill scaling: the side chosen by the long comparison equals the target, the other side is at least the target, and it is the floor of the aspect-preserving length |
| ImagePreprocess.ScaleSameAspect | app/src/main/java/com/story/sonder/Util.java:89-97 | A source with the target's aspect ratio is scaled to exactly the target size |
| ImagePreprocess.CropOffsets | app/src/main/java/com/story/sonder/Util.java:99-100 | Each offset is the floor of half the excess: the window fits, and the margins on the two sides differ by at most one |
| ImagePreprocess.CropWindowInside | app/src/main/java/com/story/sonder/Util.java:89-100 | After scaling, the centre-crop window lies inside the scaled bitmap on both axes |
| ImagePreprocess.WideImageExample | app/src/main/java/com/story/sonder/Util.java:89-100 | A 400x100 image for a 224x224 target is scaled to 896x224 and cropped at (336, 0) |
| ImagePreprocess.Bitmap.At | app/src/main/java/com/story/sonder/Util.java:102 | Defines pixel addressing: the pixel at (col, row) is the row-major entry of the bitmap's pixels |
| ImagePreprocess.Crop | app/src/main/java/com/story/sonder/Util.java:101-102 | `getPixels` with stride `width`: width*height pixels, and cell (row, col) holds the bitmap's pixel at (x+col, y+row) |
| ImagePreprocess.RowMajor | app/src/main/java/com/story/sonder/Util.java:102 | A row-major offset of a cell inside the grid lies in [0, width*height) |
| ImagePreprocess.RowMajorSplit | app/src/main/java/com/story/sonder/Util.java:102 | A row-major offset divided by the row length gives back the row, and its remainder gives back the column |
| ImagePreprocess.Window | app/src/main/java/com/story/sonder/Util.java:89-102 | The crop of the scaled bitmap holds exactly width*height pixels |
| ImagePreprocess.Planar | app/src/main/java/com/story/sonder/Util.java:103-110 | Defines the channel-planar layout: the red values of all pixels, then the green values, then the blue values |
| ImagePreprocess.PlanarSlot | app/src/main/java/com/story/sonder/Util.java:107-109 | For one pixel i of n: the buffer has 3n slots, its red value is at i, green at i+n, blue at i+2n |
| ImagePreprocess.PlanarSlots | app/src/main/java/com/story/sonder/Util.java:103-110 | The planar buffer has 3n slots: pixel i's red value at i, green at i+n, blue at i+2n |
| ImagePreprocess.FillPlanar | app/src/main/java/com/story/sonder/Util.java:103-110 | The loop fills the buffer with exactly the planar layout, and every slot is written exactly once |
| ImagePreprocess.WritePixel | app/src/main/java/com/story/sonder/Util.java:106-110 | One loop iteration writes pixel i's red, green and blue values to slots i, i+n and i+2n, leaves every other slot unchanged, and counts exactly one more write for each of those three slots |
| ImagePreprocess.StoresStep | app/src/main/java/com/story/sonder/Util.java:106-110 | One loop iteration adds one write to pixel i's three slots and to no other slot |
| ImagePreprocess.Preprocessed | app/src/main/java/com/story/sonder/Util.java:111 | The returned tensor has 3 channels and the target width and height, whatever the source size, and its element count matches that shape |
| ImagePreprocess.PreprocessedPixel | app/src/main/java/com/story/sonder/Util.java:88-112 | The tensor value at (channel, row, col) is the normalised channel of the scaled bitmap's pixel at the crop offset plus (col, row) |
| ImagePreprocess.BitmapToTensor | app/src/main/java/com/story/sonder/Util.java:88-112 | The tensor the method builds with its loop is the preprocessed tensor above |
| TopKSelector.Before | app/src/main/java/com/story/sonder/Util.java:124 | Defines the order the stable sort produces: a larger value first, and for equal values the smaller index first |
| TopKSelector.Ranked | app/src/main/java/com/story/sonder/Util.java:124 | Defines a list sorted in that order: every earlier pair goes before every later one |
| TopKSelector.Entries | app/src/main/java/com/story/sonder/Util.java:119-123 | `forEach` appends the pair (value i, i) for every i, so the list is in ascending index order |
| TopKSelector.Insert | app/src/main/java/com/story/sonder/Util.java:124 | Inserting adds exactly the new pair: one element longer, and the same multiset plus the pair |
| TopKSelector.SortByValueDescending | app/src/main/java/com/story/sonder/Util.java:124 | The sort is a permutation: same length and same multiset |
| TopKSelector.InsertRanked | app/src/main/java/com/story/sonder/Util.java:124 | Inserting a pair with a larger index than all others into a ranked list keeps it ranked, as a stable sort must |
| TopKSelector.SortRanked | app/src/main/java/com/story/sonder/Util.java:119-124 | Sorting pairs in ascending index order gives descending values with ties in ascending index order |
| TopKSelector.RankedUnique | app/src/main/java/com/story/sonder/Util.java:124 | Two ranked lists with the same multiset are equal, so every stable descending sort gives this result |
| TopKSelector.Ranking | app/src/main/java/com/story/sonder/Util.java:119-124 | The sorted list has one pair per tensor value, and each pair's index lies in the tensor |
| TopKSelector.SortKeepsIndexBound | app/src/main/java/com/story/sonder/Util.java:124 | Sorting keeps every index below a bound that held before it |
| TopKSelector.RankingFacts | app/src/main/java/com/story/sonder/Util.java:119-124 | The sorted list is ranked, each pair is (v[j], j) for an index j in range, and every index j appears |
| TopKSelector.TopK | app/src/main/java/com/story/sonder/Util.java:125-128 | The selection has exactly k indices, each an index into the tensor |
| TopKSelector.TopKDistinct | app/src/main/java/com/story/sonder/Util.java:118-129 | No index is selected twice |
| TopKSelector.TopKOrdered | app/src/main/java/com/story/sonder/Util.java:118-129 | Selected values are non-increasing, and equal values come in ascending index order |
| TopKSelector.TopKDominates | app/src/main/java/com/story/sonder/Util.java:118-129 | Every selected index ranks before every index left out: a larger value, or an equal value and a smaller index |
| TopKSelector.SelectedBeforeUnselected | app/src/main/java/com/story/sonder/Util.java:118-129 | One pair of a selected and an unselected index: the selected one ranks first |
| TopKSelector.TopKOfNonIncreasing | app/src/main/java/com/story/sonder/Util.java:118-129 | On non-increasing values the selection is 0, 1, ..., k-1 |
| TopKSelector.TopKAllEqual | app/src/main/java/com/story/sonder/Util.java:118-129 | On all-equal values the selection is 0, 1, ..., k-1 |
| TopKSelector.TopKIndices | app/src/main/java/com/story/sonder/Util.java:118-129 | The method's array holds exactly the selection `TopK` |
| Classifier.AssembleTags | app/src/main/java/com/story/sonder/Util.java:140-144 | There are indices.length+1 tags, tag i is the category of index i, and the last tag is "None" |
| Classifier.GetTagCategories | app/src/main/java/com/story/sonder/Util.java:135-146 | The tags are the categories of the top-K indices of the forward pass's output on the preprocessed tensor, then "None"; the auxiliary result is passed through |
| Classifier.TwoCategoryExample | app/src/main/java/com/story/sonder/Util.java:118-129 | On output (0.9, 0.1) with k = 2 the selection is [0, 1] |
| Classifier.TwoCategoryTags | app/src/main/java/com/story/sonder/Util.java:135-146 | A 4x1 photo, a 2x2 input, a model output of (0.9, 0.1), categories "cat" and "dog" and a top 2 give the labels ["cat", "dog", "None"] |

## Left out

- File I/O is not modelled: `BitmapFactory.decodeFile`, `readFromFile` and `writeToFile`. `GetTagCategories` starts from the decoded bitmap.
- `createDialog` and all of `MainActivity.java` are left out. They are UI, permissions, background threads and database access.
- `createModelFromJSON` and `createModelFromJSONString` are left out. They wrap `org.json`, and `ModelUtils`, `Sequence`, `Reshape`, `ILoss` and `IOptimizer` are not part of this model.
- The forward pass of the model is a parameter `forward` of `GetTagCategories`, and `Constants` values are parameters.
- `Bitmap.createScaledBitmap` is a parameter `resample`. The model relies only on it returning a bitmap of the requested size. Its filtering is not modelled.
- The per-channel normalisation `(c / 255. - mean) / std` is floating-point arithmetic. It is a parameter `norm`, and `double` is `real`, with no NaN, infinities or rounding.
- `Color.red`, `Color.green` and `Color.blue` are not modelled bit by bit. A pixel is its three channel values.
- TopKSelector.TopKIndices: requires 0 <= k <= N. In Java a larger `k` throws from `list.get`, and a negative `k` throws from `new int[k]`. Those exceptions are not modelled.
- TopKSelector.SortByValueDescending: `Double.compareTo` orders NaN and -0.0 specially. Over `real` neither exists, so those comparator cases are left out.
- TopKSelector.TopKIndices: `Collections.sort` sorts the `ArrayList` in place. The model sorts a sequence value instead; `RankedUnique` shows the result does not depend on the stable sort used.
- Classifier.GetTagCategories: requires each of the `topK` selected indices to be below the number of categories. Otherwise line 142 throws `ArrayIndexOutOfBoundsException`, and that exception is not modelled.
- ImagePreprocess.BitmapToTensor: requires the `int` product on the branch taken at line 92 or 95 not to overflow (`NoScaleOverflow`), and `width`, `height` and `3 * width * height` to fit in an `int`. The wrap-around itself is modelled in `JavaInt`, but what a wrapped size does to the bitmap calls is not.
- The `Tensor` class's own source is not part of this model. A tensor is its flat data and its shape, and `forEach` is taken to visit the values in index order.
- Concurrency is left out: the core runs synchronously.
