/** Mixed-radix flattening of the unfold phase: several target axes are
    merged into one intrinsic axis by `x = sum_j a_j * stride_j`, and split
    back by a chain of floor divisions and modulos. */
module MixedRadix {
  import opened Base
  import opened Axes

  /** Product of a sequence of extents. */
  function Prod(e: seq<nat>): nat
  {
    if |e| == 0 then 1 else e[0] * Prod(e[1..])
  }

  lemma {:induction false} ProdSnoc(e: seq<nat>, x: nat)
    ensures Prod(e + [x]) == Prod(e) * x
  {
    if |e| > 0 {
      assert (e + [x])[1..] == e[1..] + [x];
      ProdSnoc(e[1..], x);
      assert Prod(e + [x]) == e[0] * (Prod(e[1..]) * x);
    } else {
      assert Prod([x]) == x * Prod([]);
    }
  }

  lemma {:induction false} ProdPositive(e: seq<nat>)
    requires forall j :: 0 <= j < |e| ==> e[j] >= 1
    ensures Prod(e) >= 1
  {
    if |e| > 0 {
      ProdPositive(e[1..]);
      assert Prod(e) == e[0] * Prod(e[1..]);
      MulAtLeastOne(e[0], Prod(e[1..]));
    }
  }

  lemma MulAtLeastOne(a: int, b: int)
    requires a >= 1 && b >= 1
    ensures a * b >= 1
  {
    assert a * b == (a - 1) * b + b;
    assert (a - 1) * b >= 0;
  }

  /** The stride loop: walk the extents right to left, record the running
      product, then multiply it by the current extent. `StridesFrom(e, n, s)`
      gives the strides of `e[..n]` when the product of everything right of
      `e[..n]` is `s`. */
  function StridesFrom(e: seq<nat>, n: nat, stride: nat): (r: seq<nat>)
    requires n <= |e|
    ensures |r| == n
  {
    if n == 0 then [] else StridesFrom(e, n - 1, stride * e[n - 1]) + [stride]
  }

  lemma {:induction false} StridesFromProducts(e: seq<nat>, n: nat, stride: nat, i: nat)
    requires i < n <= |e|
    ensures StridesFrom(e, n, stride)[i] == stride * Prod(e[i + 1..n])
    decreases n
  {
    if i == n - 1 {
      assert e[i + 1..n] == [];
    } else {
      var s' := stride * e[n - 1];
      StridesFromProducts(e, n - 1, s', i);
      assert StridesFrom(e, n, stride)[i] == StridesFrom(e, n - 1, s')[i];
      assert e[i + 1..n] == e[i + 1..n - 1] + [e[n - 1]];
      ProdSnoc(e[i + 1..n - 1], e[n - 1]);
      MulAssoc(stride, e[n - 1], Prod(e[i + 1..n - 1]));
    }
  }

  lemma MulAssoc(a: int, b: int, c: int)
    ensures (a * b) * c == a * (c * b)
  {
  }

  /** Strides of a list of extents: each is the product of the extents to
      its right. */
  function Strides(e: seq<nat>): (r: seq<nat>)
    ensures |r| == |e|
    ensures forall i :: 0 <= i < |e| ==> r[i] == Prod(e[i + 1..])
  {
    var r := StridesFrom(e, |e|, 1);
    forall i | 0 <= i < |e|
      ensures r[i] == Prod(e[i + 1..])
    {
      StridesFromProducts(e, |e|, 1, i);
      assert e[i + 1..|e|] == e[i + 1..];
    }
    r
  }

  /** The innermost stride is one and each stride is the next one times the
      next extent; with positive extents every stride is positive. */
  lemma {:induction false} StridesRecurrence(e: seq<nat>)
    ensures |e| > 0 ==> Strides(e)[|e| - 1] == 1
    ensures forall i :: 0 <= i < |e| - 1 ==> Strides(e)[i] == Strides(e)[i + 1] * e[i + 1]
    ensures (forall j :: 0 <= j < |e| ==> e[j] >= 1) ==> forall i :: 0 <= i < |e| ==> Strides(e)[i] >= 1
  {
    var st := Strides(e);
    if |e| > 0 {
      assert e[|e|..] == [];
    }
    forall i | 0 <= i < |e| - 1
      ensures st[i] == st[i + 1] * e[i + 1]
    {
      assert e[i + 1..] == [e[i + 1]] + e[i + 2..];
    }
    if forall j :: 0 <= j < |e| ==> e[j] >= 1 {
      forall i | 0 <= i < |e|
        ensures st[i] >= 1
      {
        ProdPositive(e[i + 1..]);
      }
    }
  }

  /** `sum_{j<n} v_j * st_j`, accumulated left to right. */
  function Weighted(v: seq<int>, st: seq<int>, n: nat): int
    requires n <= |v| && n <= |st|
  {
    if n == 0 then 0 else Weighted(v, st, n - 1) + v[n - 1] * st[n - 1]
  }

  /** The forward expression `0 + a_0*st_0 + a_1*st_1 + ...` built by the
      flatten loop. */
  function Flatten(axes: seq<Axis>, st: seq<nat>, n: nat): Expr
    requires n <= |axes| && n <= |st|
  {
    if n == 0 then Const(0)
    else Add(Flatten(axes, st, n - 1), Mul(Var(axes[n - 1]), Const(st[n - 1])))
  }

  /** The reverse expression of the i-th merged axis: `x // st_0` for the
      first, `x % st_{i-1} // st_i` for the others. */
  function Reverse(x: Axis, st: seq<nat>, i: nat): Expr
    requires i < |st|
  {
    if i == 0 then Div(Var(x), Const(st[0]))
    else Div(Mod(Var(x), Const(st[i - 1])), Const(st[i]))
  }

  /** Values of the axes under an environment. */
  function ValuesOf(axes: seq<Axis>, env: Axis -> int): (v: seq<int>)
    ensures |v| == |axes|
    ensures forall j :: 0 <= j < |axes| ==> v[j] == env(axes[j])
  {
    seq(|axes|, j requires 0 <= j < |axes| => env(axes[j]))
  }

  /** The forward expression evaluates to the weighted sum of the axis values. */
  lemma {:induction false} EvalFlatten(axes: seq<Axis>, st: seq<nat>, n: nat, env: Axis -> int)
    requires n <= |axes| && n <= |st|
    ensures Eval(Flatten(axes, st, n), env) == Some(Weighted(ValuesOf(axes, env), st, n))
  {
    if n > 0 {
      EvalFlatten(axes, st, n - 1, env);
      var v := ValuesOf(axes, env);
      assert Eval(Mul(Var(axes[n - 1]), Const(st[n - 1])), env) == Some(v[n - 1] * st[n - 1]);
    }
  }

  lemma DivModUnique(q: int, d: int, r: int)
    requires d > 0 && 0 <= r < d
    ensures (q * d + r) / d == q
    ensures (q * d + r) % d == r
  {
    var x := q * d + r;
    var q' := x / d;
    var r' := x % d;
    assert x == q' * d + r';
    assert (q - q') * d == r' - r;
    if q - q' >= 1 {
      assert (q - q') * d >= d by { MulAtLeast(q - q', d); }
    } else if q - q' <= -1 {
      assert (q' - q) * d >= d by { MulAtLeast(q' - q, d); }
    }
  }

  lemma MulAtLeast(k: int, d: int)
    requires k >= 1 && d > 0
    ensures k * d >= d
  {
    assert k * d == (k - 1) * d + d;
    assert (k - 1) * d >= 0;
  }

  /** `st` are the strides of extents `e`: the innermost is one, each is
      the next times the next extent, and all are positive. */
  ghost predicate RadixStrides(st: seq<int>, e: seq<nat>)
  {
    && |st| == |e|
    && (|e| > 0 ==> st[|e| - 1] == 1)
    && (forall i :: 0 <= i < |e| - 1 ==> st[i] == st[i + 1] * e[i + 1])
    && (forall i :: 0 <= i < |e| ==> st[i] >= 1)
  }

  lemma StridesAreRadix(e: seq<nat>)
    requires forall j :: 0 <= j < |e| ==> e[j] >= 1
    ensures RadixStrides(Strides(e), e)
  {
    StridesRecurrence(e);
  }

  lemma StepBound(a: int, s: int, t: int, e: int)
    requires 0 <= a < e && s >= 1 && 0 <= t < s
    ensures 0 <= a * s + t < s * e
  {
    MulMono(0, a, s);
    MulMono(a + 1, e, s);
    assert a * s + s == (a + 1) * s;
  }

  /** Multiplication by a non-negative factor is monotone. */
  lemma MulMono(a: int, b: int, c: int)
    requires 0 <= a <= b && c >= 0
    ensures a * c <= b * c
  {
    assert b * c - a * c == (b - a) * c;
  }

  lemma Regroup(q: int, s: int, e: int, v: int)
    ensures q * (s * e) + v * s == (q * e + v) * s
  {
  }

  /** The part of the sum contributed by positions `i..` is below the
      product of their extents, which is `st_i * e_i`. */
  lemma {:induction false} TailBound(v: seq<int>, st: seq<int>, e: seq<nat>, i: nat)
    requires |v| == |e| && i < |v| && RadixStrides(st, e)
    requires forall j :: 0 <= j < |v| ==> 0 <= v[j] < e[j]
    ensures 0 <= Weighted(v, st, |v|) - Weighted(v, st, i) < st[i] * e[i]
    decreases |v| - i
  {
    var n := |v|;
    var rest := Weighted(v, st, n) - Weighted(v, st, i + 1);
    assert Weighted(v, st, i + 1) == Weighted(v, st, i) + v[i] * st[i];
    if i + 1 < n {
      TailBound(v, st, e, i + 1);
      assert st[i] == st[i + 1] * e[i + 1];
    } else {
      assert rest == 0;
    }
    StepBound(v[i], st[i], rest, e[i]);
  }

  /** The sum of the first `i` terms is a multiple of the stride `st_{i-1}`. */
  lemma {:induction false} HeadMultiple(v: seq<int>, st: seq<int>, e: seq<nat>, i: nat) returns (q: int)
    requires |v| == |e| && 1 <= i <= |v| && RadixStrides(st, e)
    ensures Weighted(v, st, i) == q * st[i - 1]
  {
    if i == 1 {
      q := v[0];
      assert Weighted(v, st, 1) == Weighted(v, st, 0) + v[0] * st[0];
    } else {
      var q' := HeadMultiple(v, st, e, i - 1);
      assert st[i - 2] == st[i - 1] * e[i - 1];
      q := q' * e[i - 1] + v[i - 1];
      assert Weighted(v, st, i) == Weighted(v, st, i - 1) + v[i - 1] * st[i - 1];
      Regroup(q', st[i - 1], e[i - 1], v[i - 1]);
    }
  }

  /** Decoding digit `i` of the flattened value with the reverse chain
      recovers `v_i`, provided every digit lies in its axis's range. */
  lemma {:induction false} DigitRoundTrip(v: seq<int>, st: seq<int>, e: seq<nat>, i: nat)
    requires |v| == |e| && i < |v| && RadixStrides(st, e)
    requires forall j :: 0 <= j < |v| ==> 0 <= v[j] < e[j]
    ensures i == 0 ==> Weighted(v, st, |v|) / st[0] == v[0]
    ensures i > 0 ==> (Weighted(v, st, |v|) % st[i - 1]) / st[i] == v[i]
  {
    var n := |v|;
    var x := Weighted(v, st, n);
    var rest := x - Weighted(v, st, i + 1);
    if i + 1 < n {
      TailBound(v, st, e, i + 1);
      assert st[i] == st[i + 1] * e[i + 1];
    } else {
      assert rest == 0;
    }
    assert Weighted(v, st, i + 1) == Weighted(v, st, i) + v[i] * st[i];
    var tail := x - Weighted(v, st, i);
    DivModUnique(v[i], st[i], rest);
    if i == 0 {
      assert Weighted(v, st, 0) == 0;
    } else {
      var q := HeadMultiple(v, st, e, i);
      TailBound(v, st, e, i);
      assert st[i - 1] == st[i] * e[i];
      DivModUnique(q, st[i - 1], tail);
    }
  }

  /** The digit round trip for the strides the unfold phase computes. */
  lemma StridesDigit(v: seq<int>, e: seq<nat>, i: nat)
    requires |v| == |e| && i < |v|
    requires forall j :: 0 <= j < |v| ==> 0 <= v[j] < e[j]
    ensures Strides(e)[i] >= 1 && (i > 0 ==> Strides(e)[i - 1] >= 1)
    ensures i == 0 ==> Weighted(v, Strides(e), |v|) / Strides(e)[0] == v[0]
    ensures i > 0 ==> (Weighted(v, Strides(e), |v|) % Strides(e)[i - 1]) / Strides(e)[i] == v[i]
  {
    StridesAreRadix(e);
    DigitRoundTrip(v, Strides(e), e, i);
  }

  /** Value of a reverse expression, for positive strides. */
  lemma EvalReverse(x: Axis, st: seq<nat>, i: nat, env: Axis -> int)
    requires i < |st| && st[i] >= 1 && (i > 0 ==> st[i - 1] >= 1)
    ensures i == 0 ==> Eval(Reverse(x, st, i), env) == Some(env(x) / st[0])
    ensures i > 0 ==> Eval(Reverse(x, st, i), env) == Some((env(x) % st[i - 1]) / st[i])
  {
    var y := env(x);
    if i == 0 {
      FloorAgrees(y, st[0]);
    } else {
      FloorAgrees(y, st[i - 1]);
      FloorAgrees(y % st[i - 1], st[i]);
      assert Eval(Mod(Var(x), Const(st[i - 1])), env) == Some(y % st[i - 1]);
    }
  }

  /** Round trip of the unfold maps: evaluate the forward expression of
      the merged axes, bind the intrinsic axis `x` to the result, and each
      reverse expression gives back the value of its axis. */
  lemma UnfoldRoundTrip(axes: seq<Axis>, x: Axis, env: Axis -> int, env': Axis -> int, i: nat)
    requires i < |axes|
    requires forall j :: 0 <= j < |axes| ==> 0 <= env(axes[j]) < axes[j].extent
    requires Eval(Flatten(axes, Strides(Extents(axes)), |axes|), env) == Some(env'(x))
    ensures Eval(Reverse(x, Strides(Extents(axes)), i), env') == Some(env(axes[i]))
  {
    var e := Extents(axes);
    var st := Strides(e);
    var v := ValuesOf(axes, env);
    EvalFlatten(axes, st, |axes|, env);
    StridesDigit(v, e, i);
    EvalReverse(x, st, i, env');
  }
}
