/** Array elements: real numbers and the special values of floating point. */
module Numbers {

  datatype Number = Finite(v: real) | NotANumber | PositiveInfinity | NegativeInfinity
}
