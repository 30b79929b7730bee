/** Floats as the sources test them: finite, infinite, or not a number. Finite values are reals. */
module Floats {
  datatype Float = NaN | NegInf | PosInf | Finite(value: real)
}
