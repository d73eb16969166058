/** The floating-point library the simulator calls (`java.lang.Math`: sqrt, exp,
 *  sin, cos and the constant pi). Its values are not modelled: the functions are
 *  handed in by the caller, and `Sound` lists the only facts the proofs use. */
module Numerics {

  datatype MathLib = MathLib(
    sqrt: real -> real,
    exp: real -> real,
    sin: real -> real,
    cos: real -> real,
    pi: real)

  /** The properties of the real functions that the proofs depend on. */
  ghost predicate Sound(m: MathLib)
  {
    && m.pi > 0.0
    && (forall x: real :: x >= 0.0 ==> m.sqrt(x) >= 0.0)
    && (forall x: real :: x >= 0.0 ==> m.sqrt(Square(x)) == x)
    && (forall x: real :: m.exp(x) > 0.0)
    && m.exp(0.0) == 1.0
    && (forall x: real :: x <= 0.0 ==> m.exp(x) <= 1.0)
    && (forall x: real, y: real :: x <= y ==> m.exp(x) <= m.exp(y))
    && (forall t: real :: m.sin(t) * m.sin(t) + m.cos(t) * m.cos(t) == 1.0)
    && m.sin(0.0) == 0.0 && m.cos(0.0) == 1.0
    && m.sin(m.pi) == 0.0 && m.cos(m.pi) == -1.0
  }

  function Square(x: real): real
  {
    x * x
  }

  lemma PositiveProduct(a: real, b: real)
    requires a > 0.0 && b > 0.0
    ensures a * b > 0.0
  {
  }
}
