/** Pointer tracking for the head follow: normalisation of raw pointer
    coordinates and the per-frame exponential smoothing toward them. */
module PointerTracker {

  datatype Vec2 = Vec2(x: real, y: real)

  /** The fixed per-frame lerp factor. */
  const Lerp: real := 0.03

  function Abs(x: real): real {
    if x < 0.0 then -x else x
  }

  /** `(client / extent) * 2 - 1`: maps [0, extent] onto [-1, 1]. */
  function Normalize(client: real, extent: real): (r: real)
    requires extent > 0.0
    ensures 0.0 <= client <= extent ==> -1.0 <= r <= 1.0
    ensures client == 0.0 ==> r == -1.0
    ensures client == extent ==> r == 1.0
    ensures (r + 1.0) * extent / 2.0 == client
  {
    (client / extent) * 2.0 - 1.0
  }

  /** Normalisation preserves the order of pointer positions. */
  lemma NormalizeMonotone(a: real, b: real, extent: real)
    requires extent > 0.0 && a <= b
    ensures Normalize(a, extent) <= Normalize(b, extent)
  {
    assert a / extent <= b / extent;
  }

  /** One smoothing step `current += (target - current) * lerp`: the gap to
      the target shrinks by the factor 0.97, without overshooting, and a value
      between -1 and 1 stays there. */
  function Smooth(current: real, target: real): (r: real)
    ensures target - r == 0.97 * (target - current)
    ensures current <= target ==> current <= r <= target
    ensures target <= current ==> target <= r <= current
    ensures -1.0 <= current <= 1.0 && -1.0 <= target <= 1.0 ==> -1.0 <= r <= 1.0
  {
    current + (target - current) * Lerp
  }

  /** A pointer position in the normalised square [-1, 1] x [-1, 1]. */
  ghost predicate InSquare(v: Vec2) {
    -1.0 <= v.x <= 1.0 && -1.0 <= v.y <= 1.0
  }

  /** Both axes smoothed independently: each gap shrinks by 0.97, and a
      pointer inside the normalised square stays inside it. */
  function SmoothPointer(current: Vec2, target: Vec2): (r: Vec2)
    ensures target.x - r.x == 0.97 * (target.x - current.x)
    ensures target.y - r.y == 0.97 * (target.y - current.y)
    ensures InSquare(current) && InSquare(target) ==> InSquare(r)
  {
    Vec2(Smooth(current.x, target.x), Smooth(current.y, target.y))
  }

  /** `current` after `n` frames with a constant target: it never leaves the
      interval between the start and the target. */
  function SmoothN(current: real, target: real, n: nat): (r: real)
    ensures current <= target ==> current <= r <= target
    ensures target <= current ==> target <= r <= current
  {
    if n == 0 then current else Smooth(SmoothN(current, target, n - 1), target)
  }

  function Pow(x: real, n: nat): real {
    if n == 0 then 1.0 else x * Pow(x, n - 1)
  }

  /** After n frames the gap to a constant target is 0.97^n times the first gap. */
  lemma {:induction false} SmoothNGap(current: real, target: real, n: nat)
    ensures target - SmoothN(current, target, n) == Pow(0.97, n) * (target - current)
  {
    if n > 0 {
      SmoothNGap(current, target, n - 1);
      var prev := SmoothN(current, target, n - 1);
      var q := Pow(0.97, n - 1);
      assert target - SmoothN(current, target, n) == 0.97 * (target - prev);
      assert target - prev == q * (target - current);
      assert Pow(0.97, n) == 0.97 * q;
      assert 0.97 * (q * (target - current)) == (0.97 * q) * (target - current);
    }
  }

  /** Bernoulli's bound for the contraction factor: 0.97^n * (1 + 0.03 n) <= 1. */
  lemma {:induction false} PowBound(n: nat)
    ensures 0.0 < Pow(0.97, n)
    ensures Pow(0.97, n) * (1.0 + 0.03 * n as real) <= 1.0
  {
    if n > 0 {
      PowBound(n - 1);
      var q := Pow(0.97, n - 1);
      var m := (n - 1) as real;
      assert Pow(0.97, n) == 0.97 * q;
      assert 0.97 * (1.0 + 0.03 * m + 0.03) == (1.0 + 0.03 * m) - 0.0009 * (m + 1.0);
      assert q * (0.97 * (1.0 + 0.03 * m + 0.03)) <= q * (1.0 + 0.03 * m);
    }
  }

  /** With a constant target, smoothing never overshoots, approaches the
      target monotonically, and the gap after n frames is at most the first
      gap divided by 1 + 0.03 n (so it tends to 0). */
  lemma SmoothingConverges(current: real, target: real, n: nat)
    ensures (target - SmoothN(current, target, n)) * (target - current) >= 0.0
    ensures Abs(target - SmoothN(current, target, n + 1)) <= Abs(target - SmoothN(current, target, n))
    ensures Abs(target - SmoothN(current, target, n)) * (1.0 + 0.03 * n as real) <= Abs(target - current)
  {
    SmoothNGap(current, target, n);
    PowBound(n);
    var d := target - current;
    var p := Pow(0.97, n);
    assert (p * d) * d == p * (d * d);
    assert Abs(p * d) == p * Abs(d);
    assert Abs(p * d) * (1.0 + 0.03 * n as real) == (p * (1.0 + 0.03 * n as real)) * Abs(d);
  }
}
