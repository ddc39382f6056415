/** The tensor that flows between the image preprocessor, the model and the
    top-K selector: a flat buffer of values with a (channels, width, height)
    shape. Java `double` values are modelled as mathematical reals. */
module Tensors {

  datatype Tensor = Tensor(data: seq<real>, channels: int, width: int, height: int) {

    /** The element count agrees with the shape. */
    predicate Valid() {
      0 <= channels && 0 <= width && 0 <= height && |data| == channels * (width * height)
    }
  }
}
