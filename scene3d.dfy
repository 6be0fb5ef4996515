/** The globe's per-frame update in components/Scene3D.tsx: it eases its own
    rotation and scale toward the shared interaction target, normalises its
    rotation about the vertical axis into [0, 2π) and reports the region of
    `EARTH_REGIONS` that faces the viewer. */
module Scene3D {
  import opened JsMath
  import opened Types
  import opened Constants

  /** `rotation.y % (Math.PI * 2)`, plus one turn when that is negative. */
  function Normalize(rotationY: real): (v: real)
    ensures 0.0 <= v < TwoPi()
    ensures IsWhole((v - rotationY) / TwoPi())
  {
    var m := Rem(rotationY, TwoPi());
    if m < 0.0 then
      OneTurnUp(rotationY, m, TwoPi());
      m + TwoPi()
    else
      Negated(rotationY, m, TwoPi());
      m
  }

  lemma Negated(y: real, m: real, t: real)
    requires 0.0 < t && IsWhole((y - m) / t)
    ensures IsWhole((m - y) / t)
  {
    DivNegation(y - m, t);
    WholeNegation((y - m) / t);
  }

  lemma OneTurnUp(y: real, m: real, t: real)
    requires 0.0 < t && IsWhole((y - m) / t)
    ensures IsWhole((m + t - y) / t)
  {
    Negated(y, m, t);
    DivShift(m - y, t);
    WholeSuccessor((m - y) / t);
  }

  lemma DivNegation(a: real, t: real)
    requires 0.0 < t
    ensures (-a) / t == -(a / t)
  {
  }

  lemma DivUnique(b: real, t: real, x: real)
    requires 0.0 < t && x * t == b
    ensures x == b / t
  {
  }

  lemma DivShift(a: real, t: real)
    requires 0.0 < t
    ensures (a + t) / t == a / t + 1.0
  {
    assert (a / t) * t == a;
    assert (a / t + 1.0) * t == (a / t) * t + t;
    DivUnique(a + t, t, a / t + 1.0);
  }

  lemma WholeNegation(x: real)
    requires IsWhole(x)
    ensures IsWhole(-x)
  {
    var k := x.Floor;
    assert -x == (-k) as real;
  }

  lemma WholeSuccessor(x: real)
    requires IsWhole(x)
    ensures IsWhole(x + 1.0)
  {
    var k := x.Floor;
    assert x + 1.0 == (k + 1) as real;
  }

  lemma DivTimes(y: real, d: real)
    requires 0.0 < d
    ensures (y / d) * d == y
  {
  }

  /** The floor-based modulo, the usual definition of an angle's position on
      the circle: `y - 2π·⌊y / 2π⌋`. */
  function FloorMod(y: real): real {
    y - TwoPi() * ((y / TwoPi()).Floor as real)
  }

  lemma FloorModInRange(y: real)
    ensures 0.0 <= FloorMod(y) < TwoPi()
    ensures IsWhole((FloorMod(y) - y) / TwoPi())
  {
    var d := TwoPi();
    var t := y / d;
    var k := t.Floor;
    var m := FloorMod(y);
    assert m == y - d * (k as real);
    DivTimes(y, d);
    ProductAtLeast(y, d, t, k as real);
    ProductBelow(y, d, t, k as real);
    WholeQuotient(y, d, k);
    Negated(y, m, d);
  }

  /** `x` is a whole multiple of `t`. */
  lemma WholeMultiple(x: real, t: real)
    requires 0.0 < t && IsWhole(x / t)
    ensures x == ((x / t).Floor as real) * t
  {
  }

  lemma TurnsAtLeastOne(m: real, t: real, x: real)
    requires 0.0 < t && 1.0 <= m && x == m * t
    ensures t <= x
  {
    NonNegativeProduct(m - 1.0, t);
    assert (m - 1.0) * t == x - t;
  }

  /** Two angles in [0, 2π) that differ from one rotation by whole turns are
      the same angle. */
  lemma {:induction false} SameTurnUnique(y: real, v: real, w: real)
    requires 0.0 <= v < TwoPi() && 0.0 <= w < TwoPi()
    requires IsWhole((v - y) / TwoPi()) && IsWhole((w - y) / TwoPi())
    ensures v == w
  {
    var t := TwoPi();
    var a := ((v - y) / t).Floor;
    var b := ((w - y) / t).Floor;
    WholeMultiple(v - y, t);
    WholeMultiple(w - y, t);
    var m := (a - b) as real;
    assert v - w == m * t by {
      assert v - y == (a as real) * t && w - y == (b as real) * t;
      assert (a as real) * t - (b as real) * t == m * t;
    }
    if 1 <= a - b {
      TurnsAtLeastOne(m, t, v - w);
    } else if a - b <= -1 {
      TurnsAtLeastOne(-m, t, w - v);
    }
  }

  /** The truncate-then-adjust normalisation is the floor-based modulo. */
  lemma NormalizeIsFloorMod(y: real)
    ensures Normalize(y) == FloorMod(y)
  {
    FloorModInRange(y);
    SameTurnUnique(y, Normalize(y), FloorMod(y));
  }

  /** An angle already in [0, 2π) is returned unchanged, so normalising twice
      is normalising once. */
  lemma NormalizeIdempotent(y: real)
    ensures 0.0 <= y < TwoPi() ==> Normalize(y) == y
    ensures Normalize(Normalize(y)) == Normalize(y)
  {
    if 0.0 <= y < TwoPi() {
      assert (y - y) / TwoPi() == 0.0;
      SameTurnUnique(y, Normalize(y), y);
    }
    var v := Normalize(y);
    assert (v - v) / TwoPi() == 0.0;
    SameTurnUnique(v, Normalize(v), v);
  }

  /** The position in `table` of the element `table.find` returns: the first
      entry whose interval contains `v`, or `None` when no entry does. */
  function FindFirst(table: seq<Region>, v: real): (r: Option<nat>)
    ensures r.None? <==> forall i :: 0 <= i < |table| ==> !Contains(table[i], v)
    ensures r.Some? ==> r.value < |table| && Contains(table[r.value], v)
    ensures r.Some? ==> forall j :: 0 <= j < r.value ==> !Contains(table[j], v)
  {
    if |table| == 0 then None
    else if Contains(table[0], v) then Some(0)
    else match FindFirst(table[1..], v)
      case None => None
      case Some(i) => Some(i + 1)
  }

  /** `EARTH_REGIONS.find(...)?.name || 'UNKNOWN'`. */
  function RegionName(v: real): string {
    match FindFirst(EarthRegions, v)
    case Some(i) => if EarthRegions[i].name != "" then EarthRegions[i].name else "UNKNOWN"
    case None => "UNKNOWN"
  }

  /** The label is the name of the first region containing `v`, and
      `'UNKNOWN'` exactly when no region contains it. */
  lemma RegionNameIsFirstMatch(v: real)
    ensures RegionName(v) == "UNKNOWN" <==> forall i :: 0 <= i < |EarthRegions| ==> !Contains(EarthRegions[i], v)
    ensures forall i :: (0 <= i < |EarthRegions| && Contains(EarthRegions[i], v) &&
      (forall j :: 0 <= j < i ==> !Contains(EarthRegions[j], v))) ==> RegionName(v) == EarthRegions[i].name
  {
    forall i | 0 <= i < |EarthRegions| && Contains(EarthRegions[i], v) &&
      (forall j :: 0 <= j < i ==> !Contains(EarthRegions[j], v))
      ensures RegionName(v) == EarthRegions[i].name
    {
      var r := FindFirst(EarthRegions, v);
      assert r.Some?;
    }
  }

  /** Every angle in [0, 2π) lies in exactly one region, and the lookup names
      that region. */
  lemma RegionTotal(v: real) returns (i: nat)
    requires 0.0 <= v < TwoPi()
    ensures i < |EarthRegions| && Contains(EarthRegions[i], v)
    ensures forall j :: 0 <= j < |EarthRegions| && Contains(EarthRegions[j], v) ==> j == i
    ensures RegionName(v) == EarthRegions[i].name && RegionName(v) != "UNKNOWN"
  {
    EarthRegionsShape();
    i := Covered(EarthRegions, v);
    forall j | 0 <= j < |EarthRegions| && Contains(EarthRegions[j], v)
      ensures j == i
    {
      Disjoint(EarthRegions, i, j, v);
    }
    RegionNameIsFirstMatch(v);
  }

  /** Whatever the globe's rotation, the reported region is a real one. */
  lemma RegionOfRotation(rotationY: real)
    ensures RegionName(Normalize(rotationY)) != "UNKNOWN"
  {
    var _ := RegionTotal(Normalize(rotationY));
  }

  /** Worked values: 0 and 1.5 (a lower bound is inclusive) and 6.2. */
  lemma RegionExamples()
    ensures RegionName(0.0) == "PACIFIC OCEAN"
    ensures RegionName(1.5) == "ASIA / AUSTRALIA"
    ensures RegionName(6.2) == "AMERICAS"
  {
  }

  /** The globe (`earthRef`) with the rotation and scale three.js keeps for it. */
  class EarthMesh {
    var rotationX: real
    var rotationY: real
    var scale: real

    constructor ()
      ensures rotationX == 0.0 && rotationY == 0.0 && scale == 1.0
    {
      rotationX, rotationY, scale := 0.0, 0.0, 1.0;
    }

    /** One `useFrame` tick of `delta` seconds: ease toward the target by a
        factor `delta * 5`, then return the region for the eased rotation,
        the value handed to `onRegionUpdate` once per frame. */
    method Frame(target: Interaction, delta: real) returns (region: string)
      modifies this
      ensures rotationX == Lerp(old(rotationX), target.rotationX, delta * 5.0)
      ensures rotationY == Lerp(old(rotationY), target.rotationY, delta * 5.0)
      ensures scale == Lerp(old(scale), target.scale, delta * 5.0)
      ensures region == RegionName(Normalize(rotationY))
      ensures region != "UNKNOWN"
    {
      rotationX := Lerp(rotationX, target.rotationX, delta * 5.0);
      rotationY := Lerp(rotationY, target.rotationY, delta * 5.0);
      var nextScale := Lerp(scale, target.scale, delta * 5.0);
      scale := nextScale;

      var normalizedY := Normalize(rotationY);
      region := RegionName(normalizedY);
      RegionOfRotation(rotationY);
    }
  }
}
