/** java.lang.Math on doubles, read over exact reals. */
module JavaMath {
  /** Math.abs(double). */
  function Abs(x: real): real {
    if x < 0.0 then -x else x
  }
}
