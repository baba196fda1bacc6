/** Iteration axes and the index expressions built over them. */
module Axes {
  import opened Base

  /** Object identity of an axis: `Named` for the axes of the compute graphs
      handed in, `Outer(k)` for the k-th outer axis the fold phase creates. */
  datatype AxisId = Named(n: nat) | Outer(k: nat)

  /** An iteration variable with domain `[0, extent)`. Two axes are the same
      axis exactly when they are equal as values (the identity is part of the
      value), while the unfold choices compare axes by `name` only. */
  datatype Axis = Axis(name: string, id: AxisId, extent: nat)

  /** Index expressions; `Mod` and `Div` are floor modulo and floor division. */
  datatype Expr =
    | Var(v: Axis)
    | Const(c: int)
    | Add(a: Expr, b: Expr)
    | Mul(a: Expr, b: Expr)
    | Mod(a: Expr, b: Expr)
    | Div(a: Expr, b: Expr)

  /** Division rounding toward negative infinity. */
  function FloorDiv(a: int, b: int): (q: int)
    requires b != 0
    ensures b > 0 ==> b * q <= a < b * q + b
    ensures b < 0 ==> b * q + b < a <= b * q
  {
    if b > 0 then a / b else (-a) / (-b)
  }

  /** The remainder that goes with `FloorDiv`: it has the sign of `b`. */
  function FloorMod(a: int, b: int): (r: int)
    requires b != 0
    ensures a == b * FloorDiv(a, b) + r
    ensures b > 0 ==> 0 <= r < b
    ensures b < 0 ==> b < r <= 0
  {
    a - b * FloorDiv(a, b)
  }

  /** For a positive divisor, floor division and modulo are Dafny's. */
  lemma FloorAgrees(a: int, b: int)
    requires b > 0
    ensures FloorDiv(a, b) == a / b && FloorMod(a, b) == a % b
  {
  }

  /** Value of an expression when every axis `v` has value `env(v)`;
      `None` when a division or modulo by zero occurs. */
  function Eval(e: Expr, env: Axis -> int): Option<int>
  {
    match e
    case Var(v) => Some(env(v))
    case Const(c) => Some(c)
    case Add(a, b) =>
      (match (Eval(a, env), Eval(b, env))
       case (Some(x), Some(y)) => Some(x + y)
       case _ => None)
    case Mul(a, b) =>
      (match (Eval(a, env), Eval(b, env))
       case (Some(x), Some(y)) => Some(x * y)
       case _ => None)
    case Mod(a, b) =>
      (match (Eval(a, env), Eval(b, env))
       case (Some(x), Some(y)) => if y == 0 then None else Some(FloorMod(x, y))
       case _ => None)
    case Div(a, b) =>
      (match (Eval(a, env), Eval(b, env))
       case (Some(x), Some(y)) => if y == 0 then None else Some(FloorDiv(x, y))
       case _ => None)
  }

  /** The axes of a sequence, as their extents. */
  function Extents(axes: seq<Axis>): (r: seq<nat>)
    ensures |r| == |axes|
    ensures forall i :: 0 <= i < |axes| ==> r[i] == axes[i].extent
  {
    seq(|axes|, i requires 0 <= i < |axes| => axes[i].extent)
  }
}
