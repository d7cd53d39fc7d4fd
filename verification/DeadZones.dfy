/** Dead zones of sticks and triggers, over the reals; a square root is any value with the right square. */
module DeadZones {
  import opened MappingText

  /** A product that proofs can keep closed. */
  function Mul(x: real, y: real): real {
    x * y
  }

  /** What `sqrt(x * x + y * y)` is. */
  predicate IsMagnitude(m: real, x: real, y: real) {
    m >= 0.0 && Mul(m, m) == Mul(x, x) + Mul(y, y)
  }

  // ----- sticks -----

  /** How far out a stick ends that was `m` from its centre. */
  function Reach(m: real, zone: real): (r: real)
    requires 0.0 <= zone < 1.0
  {
    if m <= zone then 0.0
    else
      var scaled := (m - zone) / (1.0 - zone);
      if scaled < 1.0 then scaled else 1.0
  }

  function Stick(x: real, y: real, m: real, zone: real): (real, real)
    requires 0.0 <= zone < 1.0
  {
    if m <= zone then (0.0, 0.0) else (Mul(x / m, Reach(m, zone)), Mul(y / m, Reach(m, zone)))
  }

  lemma ProductIsPositive(a: real, b: real)
    requires a > 0.0 && b > 0.0
    ensures Mul(a, b) > 0.0
  {
  }

  lemma SquaresInOrder(a: real, b: real)
    requires 0.0 <= a < b
    ensures Mul(a, a) < Mul(b, b)
  {
    ProductIsPositive(b - a, b + a);
    assert (b - a) * (b + a) == b * b - a * a;
  }

  lemma SquareIsPositive(x: real)
    requires x != 0.0
    ensures Mul(x, x) > 0.0
  {
    if x > 0.0 {
      ProductIsPositive(x, x);
    } else {
      ProductIsPositive(0.0 - x, 0.0 - x);
      assert (0.0 - x) * (0.0 - x) == x * x;
    }
  }

  lemma MagnitudeIsUnique(m: real, n: real, x: real, y: real)
    requires IsMagnitude(m, x, y) && IsMagnitude(n, x, y)
    ensures m == n
  {
    hide Mul;
    if m < n {
      SquaresInOrder(m, n);
    } else if n < m {
      SquaresInOrder(n, m);
    }
  }

  lemma QuotientInOrder(a: real, b: real, c: real)
    requires c > 0.0
    ensures a <= b <==> a / c <= b / c
    ensures a < b <==> a / c < b / c
  {
  }

  /** A stick farther out never ends nearer to the centre. */
  lemma ReachIsMonotone(m: real, n: real, zone: real)
    requires 0.0 <= zone < 1.0 && m <= n
    ensures 0.0 <= Reach(m, zone) <= Reach(n, zone) <= 1.0
    ensures Reach(m, zone) == 0.0 <==> m <= zone
    ensures zone < m < n <= 1.0 ==> Reach(m, zone) < Reach(n, zone)
  {
    QuotientInOrder(m - zone, n - zone, 1.0 - zone);
    QuotientInOrder(0.0, m - zone, 1.0 - zone);
    QuotientInOrder(0.0, n - zone, 1.0 - zone);
    QuotientInOrder(n - zone, 1.0 - zone, 1.0 - zone);
    QuotientInOrder(m - zone, 1.0 - zone, 1.0 - zone);
  }

  /** Beyond the zone the way out is stretched evenly, so that the edge of the zone is 0 and 1 stays 1; farther out
      than 1 counts as 1. */
  lemma ReachIsEven(m: real, n: real, zone: real)
    requires 0.0 <= zone < 1.0 && zone <= m <= n
    ensures n <= 1.0 ==> Mul(Reach(n, zone) - Reach(m, zone), 1.0 - zone) == n - m
    ensures Reach(zone, zone) == 0.0 && Reach(1.0, zone) == 1.0
    ensures m >= 1.0 ==> Reach(m, zone) == 1.0
  {
    var span := 1.0 - zone;
    QuotientTimes(m - zone, span);
    QuotientTimes(n - zone, span);
    QuotientTimes(span, span);
    QuotientInOrder(m - zone, span, span);
    QuotientInOrder(n - zone, span, span);
    assert span / span == 1.0;
    if n <= 1.0 {
      assert Reach(m, zone) == (m - zone) / span && Reach(n, zone) == (n - zone) / span;
      Differences((n - zone) / span, (m - zone) / span, span);
    }
  }

  lemma Differences(a: real, b: real, f: real)
    ensures Mul(a - b, f) == Mul(a, f) - Mul(b, f)
  {
  }

  lemma SquareOfProduct(a: real, m: real)
    ensures Mul(Mul(a, m), Mul(a, m)) == Mul(Mul(a, a), Mul(m, m))
  {
  }

  lemma SumTimes(p: real, q: real, f: real)
    ensures Mul(p + q, f) == Mul(p, f) + Mul(q, f)
  {
  }

  lemma CancelFactor(q: real, f: real)
    requires f > 0.0 && Mul(q, f) == f
    ensures q == 1.0
  {
    if q < 1.0 {
      ProductIsPositive(1.0 - q, f);
    } else if q > 1.0 {
      ProductIsPositive(q - 1.0, f);
    }
  }

  lemma Crossed(a: real, b: real, m: real, s: real)
    ensures Mul(Mul(a, s), Mul(b, m)) == Mul(Mul(b, s), Mul(a, m))
  {
  }

  lemma OneTimes(f: real)
    ensures Mul(1.0, f) == f && Mul(0.0, f) == 0.0
  {
  }

  /** A point scaled down by its magnitude and up by `s` has magnitude `s` and the same direction. */
  lemma UnitTimes(a: real, b: real, x: real, y: real, m: real, s: real)
    requires IsMagnitude(m, x, y) && m > 0.0 && Mul(a, m) == x && Mul(b, m) == y
    ensures var u, v := Mul(a, s), Mul(b, s); Mul(u, u) + Mul(v, v) == Mul(s, s) && Mul(u, y) == Mul(v, x)
  {
    hide Mul;
    SquareOfProduct(a, m);
    SquareOfProduct(b, m);
    SumTimes(Mul(a, a), Mul(b, b), Mul(m, m));
    ProductIsPositive(m, m);
    CancelFactor(Mul(a, a) + Mul(b, b), Mul(m, m));
    SquareOfProduct(a, s);
    SquareOfProduct(b, s);
    SumTimes(Mul(a, a), Mul(b, b), Mul(s, s));
    OneTimes(Mul(s, s));
    Crossed(a, b, m, s);
  }

  lemma SameSign(x: real, m: real, s: real)
    requires m > 0.0 && s >= 0.0
    ensures x >= 0.0 ==> Mul(x / m, s) >= 0.0
    ensures x <= 0.0 ==> Mul(x / m, s) <= 0.0
  {
    if x >= 0.0 {
      assert x / m >= 0.0;
    } else {
      assert x / m <= 0.0;
    }
  }

  lemma QuotientTimes(x: real, m: real)
    requires m > 0.0
    ensures Mul(x / m, m) == x
  {
  }

  lemma UnitSquare(s: real)
    requires 0.0 < s <= 1.0
    ensures 0.0 < Mul(s, s) <= 1.0
  {
    hide Mul;
    ProductIsPositive(s, s);
    OneTimes(1.0);
    if s < 1.0 {
      SquaresInOrder(s, 1.0);
    }
  }

  /** A stick is at rest exactly inside the dead zone; otherwise it keeps its direction, and it ends as far out
      as `Reach` says, so inside the unit disc. */
  lemma StickMeaning(x: real, y: real, m: real, zone: real)
    requires 0.0 <= zone < 1.0 && IsMagnitude(m, x, y)
    ensures var (u, v) := Stick(x, y, m, zone);
            && ((u, v) == (0.0, 0.0) <==> m <= zone)
            && Mul(u, y) == Mul(v, x)
            && (x >= 0.0 ==> u >= 0.0) && (x <= 0.0 ==> u <= 0.0)
            && (y >= 0.0 ==> v >= 0.0) && (y <= 0.0 ==> v <= 0.0)
            && IsMagnitude(Reach(m, zone), u, v)
            && Mul(u, u) + Mul(v, v) <= 1.0
  {
    hide Mul, Reach;
    ReachIsMonotone(m, m, zone);
    var s := Reach(m, zone);
    OneTimes(x);
    OneTimes(y);
    OneTimes(0.0);
    if m > zone {
      QuotientTimes(x, m);
      QuotientTimes(y, m);
      UnitTimes(x / m, y / m, x, y, m, s);
      SameSign(x, m, s);
      SameSign(y, m, s);
      UnitSquare(s);
    }
  }

  /** Two positions of a stick: the one farther out ends at least as far out. */
  lemma StickIsMonotone(x0: real, y0: real, m0: real, x1: real, y1: real, m1: real, zone: real)
    requires 0.0 <= zone < 1.0 && IsMagnitude(m0, x0, y0) && IsMagnitude(m1, x1, y1) && m0 <= m1
    ensures var (u0, v0) := Stick(x0, y0, m0, zone);
            var (u1, v1) := Stick(x1, y1, m1, zone);
            Mul(u0, u0) + Mul(v0, v0) <= Mul(u1, u1) + Mul(v1, v1)
  {
    hide Mul, Stick, Reach;
    StickMeaning(x0, y0, m0, zone);
    StickMeaning(x1, y1, m1, zone);
    ReachIsMonotone(m0, m1, zone);
    var r0, r1 := Reach(m0, zone), Reach(m1, zone);
    if r0 < r1 {
      SquaresInOrder(r0, r1);
    }
  }

  /** Without a dead zone a stick in the unit disc does not move. */
  lemma StickUnchanged(x: real, y: real, m: real)
    requires IsMagnitude(m, x, y) && m <= 1.0
    ensures Stick(x, y, m, 0.0) == (x, y)
  {
    hide Mul;
    OneTimes(0.0);
    if m == 0.0 {
      if x != 0.0 { SquareIsPositive(x); }
      if y != 0.0 { SquareIsPositive(y); }
    } else {
      QuotientTimes(x, m);
      QuotientTimes(y, m);
      assert Reach(m, 0.0) == m;
    }
  }

  // ----- triggers -----

  function Clamp01(x: real): real {
    if x < 0.0 then 0.0 else if x > 1.0 then 1.0 else x
  }

  /** The part of [0, 1] that the dead zone leaves, stretched back to [0, 1]. */
  function Stretched(value: real, zone: real): (r: real)
    requires 0.0 <= zone < 1.0
  {
    if value <= zone then 0.0 else (value - zone) / (1.0 - zone)
  }

  function Trigger(position: real, zone: real, zeroToOne: bool): real
    requires 0.0 <= zone < 1.0
  {
    var value := Stretched(Clamp01((position + 1.0) * 0.5), zone);
    if zeroToOne then value else value * 2.0 - 1.0
  }

  lemma StretchedInOrder(v: real, w: real, zone: real)
    requires 0.0 <= zone < 1.0 && 0.0 <= v <= w <= 1.0
    ensures 0.0 <= Stretched(v, zone) <= Stretched(w, zone) <= 1.0
    ensures Stretched(v, zone) == 0.0 <==> v <= zone
  {
    var span := 1.0 - zone;
    QuotientInOrder(v - zone, w - zone, span);
    QuotientInOrder(0.0, v - zone, span);
    QuotientInOrder(0.0, w - zone, span);
    QuotientInOrder(w - zone, span, span);
    assert 0.0 / span == 0.0 && span / span == 1.0;
  }

  /** A trigger lands in the range its flag asks for, at the low end exactly inside the dead zone, and pulling
      it farther never lowers it. */
  lemma TriggerMeaning(a: real, b: real, zone: real, zeroToOne: bool)
    requires 0.0 <= zone < 1.0 && a <= b
    ensures var low := if zeroToOne then 0.0 else -1.0;
            && low <= Trigger(a, zone, zeroToOne) <= Trigger(b, zone, zeroToOne) <= 1.0
            && (Trigger(a, zone, zeroToOne) == low <==> Clamp01((a + 1.0) * 0.5) <= zone)
  {
    hide Stretched;
    StretchedInOrder(Clamp01((a + 1.0) * 0.5), Clamp01((b + 1.0) * 0.5), zone);
  }

  lemma StretchedIsEven(v: real, w: real, zone: real)
    requires 0.0 <= zone < 1.0 && zone <= v && zone <= w
    ensures Mul(Stretched(w, zone) - Stretched(v, zone), 1.0 - zone) == w - v
  {
    var span := 1.0 - zone;
    QuotientTimes(v - zone, span);
    QuotientTimes(w - zone, span);
    assert Stretched(v, zone) == (v - zone) / span && Stretched(w, zone) == (w - zone) / span;
    Differences(Stretched(w, zone), Stretched(v, zone), span);
  }

  lemma Doubled(x: real, f: real)
    ensures Mul(x * 2.0, f) == Mul(x, f) * 2.0
  {
  }

  /** Pulled beyond the zone, a trigger moves evenly to its high end, over the range its flag asks for. */
  lemma TriggerIsEven(a: real, b: real, zone: real, zeroToOne: bool)
    requires 0.0 <= zone < 1.0 && -1.0 <= a <= b <= 1.0 && zone <= (a + 1.0) * 0.5
    ensures var width := if zeroToOne then 1.0 else 2.0;
            Mul(Trigger(b, zone, zeroToOne) - Trigger(a, zone, zeroToOne), 1.0 - zone) == (b - a) * 0.5 * width
    ensures Trigger(1.0, zone, zeroToOne) == 1.0
  {
    hide Mul, Stretched;
    var v, w := (a + 1.0) * 0.5, (b + 1.0) * 0.5;
    StretchedIsEven(v, w, zone);
    FullyStretched(zone);
    Doubled(Stretched(w, zone) - Stretched(v, zone), 1.0 - zone);
  }

  lemma FullyStretched(zone: real)
    requires 0.0 <= zone < 1.0
    ensures Stretched(1.0, zone) == 1.0
  {
    var span := 1.0 - zone;
    assert span / span == 1.0;
  }

  lemma TriggerUnchanged(position: real)
    requires -1.0 <= position <= 1.0
    ensures Trigger(position, 0.0, false) == position
  {
  }

  // ----- the whole state -----

  const LEFT_X := 0
  const LEFT_Y := 1
  const RIGHT_X := 2
  const RIGHT_Y := 3
  const LEFT_TRIGGER := 4
  const RIGHT_TRIGGER := 5

  function Normalized(axes: seq<real>, left: real, right: real, stickZone: real, triggerZone: real, zeroToOne: bool)
      : (r: seq<real>)
    requires |axes| == AXIS_COUNT && 0.0 <= stickZone < 1.0 && 0.0 <= triggerZone < 1.0
    ensures |r| == AXIS_COUNT
  {
    var l := Stick(axes[LEFT_X], axes[LEFT_Y], left, stickZone);
    var r := Stick(axes[RIGHT_X], axes[RIGHT_Y], right, stickZone);
    [l.0, l.1, r.0, r.1,
     Trigger(axes[LEFT_TRIGGER], triggerZone, zeroToOne), Trigger(axes[RIGHT_TRIGGER], triggerZone, zeroToOne)]
  }

  method NormalizeStick(axes: array<real>, xAt: nat, yAt: nat, magnitude: real, zone: real)
    requires xAt < axes.Length && yAt < axes.Length && xAt != yAt && 0.0 <= zone < 1.0
    requires IsMagnitude(magnitude, axes[xAt], axes[yAt])
    modifies axes
    ensures (axes[xAt], axes[yAt]) == Stick(old(axes[xAt]), old(axes[yAt]), magnitude, zone)
    ensures forall i :: 0 <= i < axes.Length && i != xAt && i != yAt ==> axes[i] == old(axes[i])
  {
    hide Mul, IsMagnitude;
    if magnitude <= zone {
      axes[xAt] := 0.0;
      axes[yAt] := 0.0;
      return;
    }
    var scaled := (magnitude - zone) / (1.0 - zone);
    if scaled > 1.0 {
      scaled := 1.0;
    }
    assert scaled == Reach(magnitude, zone);
    axes[xAt] := Mul(axes[xAt] / magnitude, scaled);
    axes[yAt] := Mul(axes[yAt] / magnitude, scaled);
  }

  /** `normalize_state`; `left` and `right` are the sticks' magnitudes. */
  method NormalizeState(axes: array<real>, left: real, right: real, stickZone: real, triggerZone: real, zeroToOne: bool)
    requires axes.Length == AXIS_COUNT && 0.0 <= stickZone < 1.0 && 0.0 <= triggerZone < 1.0
    requires IsMagnitude(left, axes[LEFT_X], axes[LEFT_Y]) && IsMagnitude(right, axes[RIGHT_X], axes[RIGHT_Y])
    modifies axes
    ensures axes[..] == Normalized(old(axes[..]), left, right, stickZone, triggerZone, zeroToOne)
    ensures (axes[0], axes[1]) == Stick(old(axes[0]), old(axes[1]), left, stickZone)
    ensures (axes[2], axes[3]) == Stick(old(axes[2]), old(axes[3]), right, stickZone)
    ensures forall i :: 4 <= i < 6 ==> axes[i] == Trigger(old(axes[i]), triggerZone, zeroToOne)
    ensures stickZone == 0.0 && triggerZone == 0.0 && !zeroToOne && left <= 1.0 && right <= 1.0
            && -1.0 <= old(axes[LEFT_TRIGGER]) <= 1.0 && -1.0 <= old(axes[RIGHT_TRIGGER]) <= 1.0
            ==> axes[..] == old(axes[..])
  {
    hide Stick, Trigger, IsMagnitude;
    ghost var before := axes[..];
    NormalizeStick(axes, LEFT_X, LEFT_Y, left, stickZone);
    NormalizeStick(axes, RIGHT_X, RIGHT_Y, right, stickZone);
    for i := LEFT_TRIGGER to RIGHT_TRIGGER + 1
      invariant (axes[LEFT_X], axes[LEFT_Y]) == Stick(before[LEFT_X], before[LEFT_Y], left, stickZone)
      invariant (axes[RIGHT_X], axes[RIGHT_Y]) == Stick(before[RIGHT_X], before[RIGHT_Y], right, stickZone)
      invariant forall j :: LEFT_TRIGGER <= j <= RIGHT_TRIGGER ==>
                  axes[j] == if j < i then Trigger(before[j], triggerZone, zeroToOne) else before[j]
    {
      axes[i] := NormalizeTrigger(axes[i], triggerZone, zeroToOne);
    }
    if stickZone == 0.0 && triggerZone == 0.0 && !zeroToOne && left <= 1.0 && right <= 1.0
       && -1.0 <= before[LEFT_TRIGGER] <= 1.0 && -1.0 <= before[RIGHT_TRIGGER] <= 1.0 {
      StickUnchanged(before[LEFT_X], before[LEFT_Y], left);
      StickUnchanged(before[RIGHT_X], before[RIGHT_Y], right);
      TriggerUnchanged(before[LEFT_TRIGGER]);
      TriggerUnchanged(before[RIGHT_TRIGGER]);
      assert axes[..] == before;
    }
  }

  method NormalizeTrigger(position: real, zone: real, zeroToOne: bool) returns (r: real)
    requires 0.0 <= zone < 1.0
    ensures r == Trigger(position, zone, zeroToOne)
  {
    var value := Clamp01((position + 1.0) * 0.5);
    if value <= zone {
      value := 0.0;
    } else {
      value := (value - zone) / (1.0 - zone);
    }
    r := if zeroToOne then value else value * 2.0 - 1.0;
  }
}
