/**
  4x4 matrices as irr::core::matrix4 stores them: sixteen elements in a row, with
  elements 12, 13 and 14 holding the translation. Multiplication, inversion and the
  identity test are not part of this model; they are supplied as an `Algebra`.
 */
module Matrix4 {

  type Matrix = m: seq<real> | |m| == 16
    witness [1.0, 0.0, 0.0, 0.0, 0.0, 1.0, 0.0, 0.0, 0.0, 0.0, 1.0, 0.0, 0.0, 0.0, 0.0, 1.0]

  /** The value of a default-constructed matrix4. */
  const Identity: Matrix :=
    [1.0, 0.0, 0.0, 0.0,
     0.0, 1.0, 0.0, 0.0,
     0.0, 0.0, 1.0, 0.0,
     0.0, 0.0, 0.0, 1.0]

  /**
    The matrix operations the skinned mesh calls but whose code is not modelled:
    `operator*` and `setbyproduct` (mul), `makeInverse` (inverse) and `isIdentity`.
   */
  datatype Algebra = Algebra(
    mul: (Matrix, Matrix) -> Matrix,
    inverse: Matrix -> Matrix,
    isIdentity: Matrix -> bool)
}
