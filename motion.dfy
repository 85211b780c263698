/**
 * The integer arithmetic of the animation: the per-node formula of
 * `linearMotion` (Java `int` division, which truncates toward zero), and the
 * choice `rigidMotion` makes between its two phases.
 */
module Motion {

  /** Java's `/` on `int`: the quotient truncated toward zero. */
  function TruncDiv(x: int, d: int): (q: int)
    requires d > 0
    ensures Abs(q) * d <= Abs(x) < (Abs(q) + 1) * d
    ensures x >= 0 ==> q >= 0
    ensures x <= 0 ==> q <= 0
  {
    if x >= 0 then
      DivBracket(x, d);
      x / d
    else
      DivBracket(-x, d);
      -((-x) / d)
  }

  /** The quotient of a non-negative `x` by a positive `d` brackets `x` between consecutive multiples of `d`. */
  lemma DivBracket(x: int, d: int)
    requires x >= 0 && d > 0
    ensures x / d >= 0 && (x / d) * d <= x < (x / d + 1) * d
  {
    var q, r := x / d, x % d;
    assert x == d * q + r && 0 <= r < d;
    assert (q + 1) * d == q * d + d;
    assert q * d == d * q;
    if q < 0 {
      MulMonotone(q + 1, 0, d);
    }
  }

  function Abs(x: int): nat { if x < 0 then -x else x }

  function Min(a: int, b: int): int { if a <= b then a else b }

  function Max(a: int, b: int): int { if a <= b then b else a }

  /**
   * One coordinate (or colour component) of a node at frame `f` of `T`:
   * `a + (b - a) * f / T`, evaluated left to right in Java `int` arithmetic.
   */
  function Interp(a: int, b: int, f: int, T: int): int
    requires T > 0
  {
    a + TruncDiv((b - a) * f, T)
  }

  /** Multiplying by a non-negative factor keeps the order. */
  lemma MulMonotone(a: int, b: int, d: int)
    requires a <= b && d >= 0
    ensures a * d <= b * d
  {
    assert b * d - a * d == (b - a) * d;
  }

  /** Euclidean division by a positive `d` is determined by the bracket `q * d <= x < q * d + d`. */
  lemma {:induction false} DivUnique(x: int, d: int, q: int)
    requires d > 0 && q * d <= x < q * d + d
    ensures x / d == q
  {
    var r := x / d;
    assert r * d <= x < r * d + d by {
      assert x == d * r + x % d;
    }
    if r < q {
      MulMonotone(r + 1, q, d);
    } else if r > q {
      MulMonotone(q + 1, r, d);
    }
  }

  /** Frame 0 shows the initial drawing and frame `T` the final one. */
  lemma {:induction false} InterpEndpoints(a: int, b: int, T: int)
    requires T > 0
    ensures Interp(a, b, 0, T) == a
    ensures Interp(a, b, T, T) == b
  {
    assert (b - a) * 0 == 0;
    ScaledStep(b - a, T, T);
    MulDiv(Abs(b - a), T);
  }

  /** Multiplying by `T` and then dividing by it gives the number back. */
  lemma MulDiv(k: int, T: int)
    requires k >= 0 && T > 0
    ensures (T * k) / T == k
  {
    assert k * T == T * k;
    DivUnique(T * k, T, k);
  }

  /** Between the first and the last frame a node never leaves the span of its two positions. */
  lemma {:induction false} InterpBetween(a: int, b: int, f: int, T: int)
    requires 0 <= f <= T && T > 0
    ensures Min(a, b) <= Interp(a, b, f, T) <= Max(a, b)
  {
    var k := Abs(b - a);
    MulMonotone(0, f, k);
    MulMonotone(f, T, k);
    DivMonotone(0, T * k, T);
    DivMonotone(f * k, T * k, T);
    assert T * k == k * T;
    MulDiv(k, T);
    ScaledStep(b - a, f, T);
  }

  /** The frames move monotonically: a later frame is never further from the final position. */
  lemma {:induction false} InterpMonotone(a: int, b: int, f: int, g: int, T: int)
    requires 0 <= f <= g && T > 0
    ensures a <= b ==> Interp(a, b, f, T) <= Interp(a, b, g, T)
    ensures b <= a ==> Interp(a, b, g, T) <= Interp(a, b, f, T)
  {
    var k := Abs(b - a);
    MulMonotone(0, f, k);
    MulMonotone(f, g, k);
    DivMonotone(f * k, g * k, T);
    ScaledStep(b - a, f, T);
    ScaledStep(b - a, g, T);
  }

  /** The step `(b - a) * f / T` is `|b - a| * f / T` with the sign of `b - a`. */
  lemma ScaledStep(k: int, f: int, T: int)
    requires f >= 0 && T > 0
    ensures k >= 0 ==> TruncDiv(k * f, T) == (f * Abs(k)) / T
    ensures k < 0 ==> TruncDiv(k * f, T) == -((f * Abs(k)) / T)
  {
    MulMonotone(0, f, Abs(k));
    if k < 0 {
      assert k * f == -(f * Abs(k));
      if f * Abs(k) == 0 {
        assert k * f == 0;
      }
    } else {
      assert k * f == f * Abs(k);
    }
  }

  /** Division by a positive number is monotone on non-negative numerators. */
  lemma {:induction false} DivMonotone(x: int, y: int, d: int)
    requires 0 <= x <= y && d > 0
    ensures x / d <= y / d
  {
    var p, q := x / d, y / d;
    assert p * d <= x && y < q * d + d by {
      assert x == d * p + x % d;
      assert y == d * q + y % d;
    }
    if p > q {
      MulMonotone(q + 1, p, d);
    }
  }

  /**
   * The truncation matters: moving from 10 to 5 over two frames, frame 1 is at
   * 8, where a floor division would put it at 7.
   */
  lemma TruncationExample()
    ensures Interp(10, 5, 1, 2) == 8
    ensures 10 + ((5 - 10) * 1) / 2 == 7
  {
  }

  /** A node colour. */
  datatype Rgb = Rgb(red: int, green: int, blue: int)

  predicate ColourOk(c: Rgb)
  {
    0 <= c.red < 256 && 0 <= c.green < 256 && 0 <= c.blue < 256
  }

  /** The colour of a node at frame `f`, interpolated component by component. */
  function InterpColour(c0: Rgb, c1: Rgb, f: int, T: int): Rgb
    requires T > 0
  {
    Rgb(Interp(c0.red, c1.red, f, T), Interp(c0.green, c1.green, f, T), Interp(c0.blue, c1.blue, f, T))
  }

  /** Between the end frames the interpolated colour is a valid colour, so constructing it cannot fail. */
  lemma ColourStaysValid(c0: Rgb, c1: Rgb, f: int, T: int)
    requires 0 <= f <= T && T > 0 && ColourOk(c0) && ColourOk(c1)
    ensures ColourOk(InterpColour(c0, c1, f, T))
  {
    InterpBetween(c0.red, c1.red, f, T);
    InterpBetween(c0.green, c1.green, f, T);
    InterpBetween(c0.blue, c1.blue, f, T);
  }

  /** Frame 0 shows a node's initial colour and frame `T` its final one. */
  lemma ColourEndpoints(c0: Rgb, c1: Rgb, T: int)
    requires T > 0
    ensures InterpColour(c0, c1, 0, T) == c0 && InterpColour(c0, c1, T, T) == c1
  {
    InterpEndpoints(c0.red, c1.red, T);
    InterpEndpoints(c0.green, c1.green, T);
    InterpEndpoints(c0.blue, c1.blue, T);
  }

  /** The first `i` nodes of `xs`, `ys`, `cs` are those of frame `f` of `T`. */
  ghost predicate InterpolatedUpTo(xs: seq<int>, ys: seq<int>, cs: seq<Rgb>, x0: seq<int>, y0: seq<int>, c0: seq<Rgb>,
                                   x1: seq<int>, y1: seq<int>, c1: seq<Rgb>, i: nat, f: int, T: int)
  {
    T > 0 && i <= |x0| && i <= |y0| && i <= |c0| && i <= |x1| && i <= |y1| && i <= |c1| &&
    |xs| == i && |ys| == i && |cs| == i &&
    forall k :: 0 <= k < i ==>
      xs[k] == Interp(x0[k], x1[k], f, T) && ys[k] == Interp(y0[k], y1[k], f, T) &&
      cs[k] == InterpColour(c0[k], c1[k], f, T)
  }

  /** At the end frames the interpolated nodes are those of the initial and the final drawing. */
  lemma InterpolatedEnds(xs: seq<int>, ys: seq<int>, cs: seq<Rgb>, x0: seq<int>, y0: seq<int>, c0: seq<Rgb>,
                         x1: seq<int>, y1: seq<int>, c1: seq<Rgb>, n: nat, f: int, T: int)
    requires InterpolatedUpTo(xs, ys, cs, x0, y0, c0, x1, y1, c1, n, f, T)
    ensures f == 0 ==> xs == x0[..n] && ys == y0[..n] && cs == c0[..n]
    ensures f == T ==> xs == x1[..n] && ys == y1[..n] && cs == c1[..n]
  {
    forall k | 0 <= k < n
      ensures f == 0 ==> xs[k] == x0[k] && ys[k] == y0[k] && cs[k] == c0[k]
      ensures f == T ==> xs[k] == x1[k] && ys[k] == y1[k] && cs[k] == c1[k]
    {
      InterpEndpoints(x0[k], x1[k], T);
      InterpEndpoints(y0[k], y1[k], T);
      ColourEndpoints(c0[k], c1[k], T);
    }
  }

  /**
   * `linearMotion`: the positions and colours of the first `n` nodes at frame
   * `f` of `T`, computed node by node.
   */
  method LinearMotion(x0: seq<int>, y0: seq<int>, c0: seq<Rgb>, x1: seq<int>, y1: seq<int>, c1: seq<Rgb>,
                      n: nat, f: int, T: int)
    returns (xs: seq<int>, ys: seq<int>, cs: seq<Rgb>)
    requires T > 0
    requires n <= |x0| && n <= |y0| && n <= |c0| && n <= |x1| && n <= |y1| && n <= |c1|
    ensures |xs| == n && |ys| == n && |cs| == n
    ensures forall i :: 0 <= i < n ==>
      xs[i] == Interp(x0[i], x1[i], f, T) && ys[i] == Interp(y0[i], y1[i], f, T) &&
      cs[i] == InterpColour(c0[i], c1[i], f, T)
    ensures f == 0 ==> xs == x0[..n] && ys == y0[..n] && cs == c0[..n]
    ensures f == T ==> xs == x1[..n] && ys == y1[..n] && cs == c1[..n]
  {
    xs, ys, cs := [], [], [];
    var i := 0;
    while i < n
      invariant i <= n && InterpolatedUpTo(xs, ys, cs, x0, y0, c0, x1, y1, c1, i, f, T)
    {
      xs := xs + [Interp(x0[i], x1[i], f, T)];
      ys := ys + [Interp(y0[i], y1[i], f, T)];
      cs := cs + [InterpColour(c0[i], c1[i], f, T)];
      i := i + 1;
    }
    InterpolatedEnds(xs, ys, cs, x0, y0, c0, x1, y1, c1, n, f, T);
  }

  /** What a tick draws: which motion routine runs, and on which frame of how many. */
  datatype Step =
    | Linear(frame: int, total: int)
    | Rigid1(frame: int, total: int)
    | Rigid2(frame: int, total: int)
    | Convex(frame: int, total: int)

  /**
   * `rigidMotion`: with `n = T / 4`, frames up to `2n` run the first rigid
   * phase over `2n` frames; later frames run the second phase, or the convex
   * motion when `toConvex`, over the remaining `T - 2n` frames.
   */
  function RigidMotion(f: int, T: int, toConvex: bool): Step
  {
    var n := T / 4;
    if f <= n * 2 then Rigid1(f, n * 2)
    else if !toConvex then Rigid2(f - n * 2, T - n * 2)
    else Convex(f - n * 2, T - n * 2)
  }

  /** The dispatch in `tick` on the selected motion (`Linear`, `Rigid`, `Convex`, `final`), the chooser's four entries. */
  function Render(kind: int, f: int, T: int): Step
    requires 0 <= kind < 4
  {
    if kind == 0 then Linear(f, T)
    else if kind == 1 then RigidMotion(f, T, false)
    else if kind == 2 then Convex(f, T)
    else RigidMotion(f, T, true)
  }

  /** The frame each phase receives is within that phase's own range. */
  predicate InPhase(s: Step)
  {
    0 <= s.frame <= s.total
  }

  /**
   * For a frame in `[0, T]` every routine is handed a frame within its own
   * range, and the phases of `rigidMotion` are contiguous: the last frame of
   * the first phase is its own end, and the next frame starts the second.
   */
  lemma {:induction false} RenderInPhase(kind: int, f: int, T: int)
    requires 0 <= kind < 4 && 0 <= f <= T && T >= 10
    ensures InPhase(Render(kind, f, T))
    ensures Render(kind, f, T).total > 0
    ensures (kind == 1 || kind == 3) && f == (T / 4) * 2 ==> Render(kind, f, T) == Rigid1(f, f)
    ensures (kind == 1 || kind == 3) && f == (T / 4) * 2 + 1 ==> Render(kind, f, T).frame == 1
  {
    var n := T / 4;
    assert n >= 2;
    assert n * 2 < T;
  }
}
