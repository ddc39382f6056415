/** `Util.getTagCategories(imagePath)`: the image goes through the
    preprocessor and the model's forward pass, the top-K indices of the output
    are looked up in the category table, and the sentinel label "None" is
    appended. Decoding the file, the forward pass and the configuration
    constants (`Constants.model`, `Constants.categories`, `Constants.topK`,
    `Constants.inputWidth`, `Constants.inputHeight`) are parameters. */
module Classifier {
  import opened JavaInt
  import opened Tensors
  import opened ImagePreprocess
  import opened TopKSelector

  /** The label appended after the ranked categories. */
  const Untagged: string := "None"

  /** `Util.java` lines 140-144: entry `i` is the category of the `i`-th index, and the last
      entry is the sentinel. */
  method AssembleTags(indices: array<int>, categories: seq<string>) returns (tags: array<string>)
    requires forall i :: 0 <= i < indices.Length ==> 0 <= indices[i] < |categories|
    ensures fresh(tags)
    ensures tags.Length == indices.Length + 1
    ensures forall i :: 0 <= i < indices.Length ==> tags[i] == categories[indices[i]]
    ensures tags[indices.Length] == Untagged
  {
    tags := new string[indices.Length + 1];
    var i := 0;
    while i < indices.Length
      invariant 0 <= i <= indices.Length
      invariant forall m :: 0 <= m < i ==> tags[m] == categories[indices[m]]
    {
      tags[i] := categories[indices[i]];
      i := i + 1;
    }
    tags[indices.Length] := Untagged;
  }

  /** `Util.getTagCategories`, from the decoded bitmap on. The output of the
      forward pass must hold at least `topK` values, and each selected index
      must name a category. */
  method GetTagCategories<Aux>(bitmap: Bitmap, width: int, height: int,
                               resample: (Bitmap, int, int) -> Bitmap, norm: (Channel, int) -> real,
                               forward: Tensor -> (Tensor, Aux), categories: seq<string>, topK: int)
    returns (tags: array<string>, aux: Aux)
    requires bitmap.Valid() && InRange(bitmap.width) && InRange(bitmap.height)
    requires 0 < width && 0 < height && InRange(3 * (width * height))
    requires NoScaleOverflow(bitmap.width, bitmap.height, width, height)
    requires ResizesExactly(resample)
    requires InRange(width) && InRange(height)
    requires var output := forward(Preprocessed(bitmap, width, height, resample, norm)).0;
      && 0 <= topK <= |output.data|
      && forall i :: 0 <= i < topK ==> TopK(output.data, topK)[i] < |categories|
    ensures fresh(tags)
    ensures var result := forward(Preprocessed(bitmap, width, height, resample, norm));
      && aux == result.1
      && tags.Length == topK + 1
      && (forall i :: 0 <= i < topK ==> tags[i] == categories[TopK(result.0.data, topK)[i]])
      && tags[topK] == Untagged
  {
    var input := BitmapToTensor(bitmap, width, height, resample, norm);
    var result := forward(input);
    var indices := TopKIndices(result.0, topK);
    tags := AssembleTags(indices, categories);
    aux := result.1;
  }

  /** A model whose output is (0.9, 0.1) selects the first category, then the
      second. */
  lemma TwoCategoryExample()
    ensures TopK([0.9, 0.1], 2) == [0, 1]
  {
    TopKOfNonIncreasing([0.9, 0.1], 2);
  }

  /** A resampler that returns a blank bitmap of the requested size. */
  function BlankResize(b: Bitmap, w: int, h: int): (r: Bitmap)
    ensures 0 < w && 0 < h ==> r.Valid() && r.width == w && r.height == h
  {
    var n := if 0 < w && 0 < h then w * h else 0;
    Bitmap(w, h, seq(n, i => Pixel(0, 0, 0)))
  }

  /** The whole tagging step on a 4x1 photo, a 2x2 input and a model whose
      output is (0.9, 0.1): with categories "cat" and "dog" and a top 2, the
      label list is ["cat", "dog", "None"]. */
  method TwoCategoryTags() returns (tags: array<string>)
    ensures tags[..] == ["cat", "dog", Untagged]
  {
    var bitmap := Bitmap(4, 1, [Pixel(0, 0, 0), Pixel(0, 0, 0), Pixel(0, 0, 0), Pixel(0, 0, 0)]);
    var norm := (c: Channel, v: int) => 0.0;
    var forward := (t: Tensor) => (Tensor([0.9, 0.1], 2, 1, 1), 0);
    TwoCategoryExample();
    var aux;
    tags, aux := GetTagCategories(bitmap, 2, 2, BlankResize, norm, forward, ["cat", "dog"], 2);
    assert tags[..] == [tags[0], tags[1], tags[2]];
  }
}
