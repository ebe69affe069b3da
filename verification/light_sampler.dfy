/**
  Direct light sampling, `PathTracer::sampleLights`: pick one luminaire
  uniformly with the first sample coordinate, reuse the remainder of that
  coordinate to sample a point on the luminaire's mesh, and weight the
  luminaire's colour by the geometry term, the visibility and the inverse
  sampling density.
 */
module LightSampler {
  import opened Colors
  import opened Vectors
  import opened Scenes

  /** The shadow ray is shortened by this fraction of the distance */
  const ShadowShortening: real := 0.0001

  /** C++ float-to-int conversion, which truncates toward zero */
  function Truncate(t: real): int {
    if t >= 0.0 then t.Floor else -((-t).Floor)
  }

  function Min(a: int, b: int): int {
    if a <= b then a else b
  }

  /** `min((int) (N * x), N - 1)`: the index of the luminaire to sample */
  function SelectIndex(n: nat, x: real): (i: nat)
    requires n >= 1 && 0.0 <= x < 1.0
    ensures i < n
  {
    Min(Truncate(n as real * x), n - 1)
  }

  /** `N * x - index`: the first sample coordinate, made uniform again */
  function RescaleSample(n: nat, x: real): (u: real)
    requires n >= 1 && 0.0 <= x < 1.0
    ensures 0.0 <= u < 1.0
  {
    ClampNeverBinds(n, x);
    n as real * x - SelectIndex(n, x) as real
  }

  /**
    Over the reals the `std::min` clamp is a no-op: `N * x < N` already
    truncates to at most `N - 1`.
   */
  lemma ClampNeverBinds(n: nat, x: real)
    requires n >= 1 && 0.0 <= x < 1.0
    ensures Truncate(n as real * x) <= n - 1
    ensures SelectIndex(n, x) == Truncate(n as real * x)
  {
    var t := n as real * x;
    assert t < n as real by {
      assert n as real * (1.0 - x) > 0.0;
    }
    assert t.Floor as real <= t;
  }

  /**
    Index `i` is selected exactly when `x` lies in `[i/N, (i+1)/N)`, an
    interval of length `1/N`: a uniform `x` selects every luminaire with
    probability `1/N`.
   */
  lemma SelectIndexInterval(n: nat, x: real, i: nat)
    requires n >= 1 && 0.0 <= x < 1.0 && i < n
    ensures SelectIndex(n, x) == i <==> i as real <= n as real * x < (i + 1) as real
  {
    ClampNeverBinds(n, x);
    var t := n as real * x;
    assert t.Floor as real <= t < t.Floor as real + 1.0;
  }

  lemma PositiveFactor(a: real, b: real)
    requires a * b > 0.0 && b > 0.0
    ensures a > 0.0
  {
  }

  /** A non-negative quotient whose numerator is below its denominator lies in [0, 1) */
  lemma QuotientBelowOne(a: real, b: real)
    requires 0.0 <= a < b
    ensures 0.0 <= a / b < 1.0
    ensures (a / b) * b == a
  {
    var q := a / b;
    assert q * b == a;
    assert (1.0 - q) * b == b - q * b;
    PositiveFactor(1.0 - q, b);
  }

  /**
    Selection and rescaling invert `x = (i + u) / N`: every index together
    with every rescaled coordinate comes from exactly one `x`.
   */
  lemma RescaleRoundTrip(n: nat, i: nat, u: real)
    requires n >= 1 && i < n && 0.0 <= u < 1.0
    ensures 0.0 <= (i as real + u) / n as real < 1.0
    ensures SelectIndex(n, (i as real + u) / n as real) == i
    ensures RescaleSample(n, (i as real + u) / n as real) == u
  {
    var nr := n as real;
    var x := (i as real + u) / nr;
    assert i as real + u < nr;
    QuotientBelowOne(i as real + u, nr);
    assert nr * x == i as real + u;
    SelectIndexInterval(n, x, i);
  }

  /**
    The filled-in luminaire query record: the chosen luminaire's index, the
    sampled point `p` and normal `n`, unit direction `d` and distance `dist`
    from the reference point, the solid-angle density `pdf`, and the
    returned weighted radiance `value`.
   */
  datatype LightSample = LightSample(
    index: nat, p: Vec3, n: Vec3, d: Vec3, dist: real, pdf: real, value: Color3)

  /** `dp`: cosine between the luminaire normal and the direction back to the reference point */
  function Cosine(ls: LightSample): real {
    -Dot(ls.n, ls.d)
  }

  /** The sampled point faces the reference point */
  predicate Facing(ls: LightSample) {
    ls.dist > 0.0 && Cosine(ls) > 0.0
  }

  /** The visibility query issued for a sample */
  function ShadowRayOf(ref: Vec3, ls: LightSample): ShadowRay {
    ShadowRay(ref, ls.d, ls.dist * (1.0 - ShadowShortening))
  }

  /**
    Weight over the solid-angle pdf: with `pdf = areaPdf * dist^2 / dp`, the
    source's weight `dp / dist^2 * N / areaPdf` equals `N / pdf`.
   */
  lemma SolidAngleWeight(n: real, areaPdf: real, dist: real, dp: real)
    requires n >= 0.0 && areaPdf > 0.0 && dist > 0.0 && dp > 0.0
    ensures areaPdf * (dist * dist) / dp > 0.0
    ensures (areaPdf * (dist * dist) / dp) * dp == areaPdf * dist * dist
    ensures dp / (dist * dist) * n / areaPdf == n / (areaPdf * (dist * dist) / dp)
    ensures dp / (dist * dist) * n / areaPdf >= 0.0
  {
    var dist2 := dist * dist;
    assert dist2 > 0.0;
    var pdf := areaPdf * dist2 / dp;
    assert pdf * dp == areaPdf * dist2;
    assert pdf > 0.0 by {
      PositiveFactor(pdf, dp);
    }
    var k := dp / dist2 * n / areaPdf;
    assert k * (areaPdf * dist2) == n * dp;
    assert (n / pdf) * pdf == n;
    assert (n / pdf) * (areaPdf * dist2) == (n / pdf) * pdf * dp;
    assert k >= 0.0 by {
      assert dp / dist2 >= 0.0;
      assert dp / dist2 * n >= 0.0;
    }
  }

  /**
    Unit direction and distance from `ref` to `p`: `d = (p - ref) / dist`.
    For coincident points the float division gives NaN; the model keeps the
    zero vector there and every caller treats the sample as facing away.
   */
  function DirectionTo(sqrt: real -> real, ref: Vec3, p: Vec3): (r: (Vec3, real))
    requires IsSqrt(sqrt)
    ensures r.1 >= 0.0 && r.1 * r.1 == Dot(Sub(p, ref), Sub(p, ref))
    ensures r.1 > 0.0 ==> Dot(r.0, r.0) == 1.0 && Translate(ref, Stretch(r.0, r.1)) == p
  {
    var toLight := Sub(p, ref);
    var dist2 := Dot(toLight, toLight);
    DotSelfNonNegative(toLight);
    var dist := sqrt(dist2);
    if dist2 == 0.0 then
      (toLight, dist)
    else
      assert dist > 0.0;
      NormalizeRoundTrip(toLight, dist);
      (Stretch(toLight, 1.0 / dist), dist)
  }

  /**
    `ls` records the point `s` sampled on a luminaire: `dist` is the
    distance from `ref` to it and, when positive, `d` is the unit direction
    towards it.
   */
  ghost predicate SampledGeometry(ref: Vec3, s: SurfacePoint, ls: LightSample) {
    && ls.p == s.p && ls.n == s.n
    && ls.dist >= 0.0 && ls.dist * ls.dist == Dot(Sub(ls.p, ref), Sub(ls.p, ref))
    && (ls.dist > 0.0 ==> Dot(ls.d, ls.d) == 1.0 && Translate(ref, Stretch(ls.d, ls.dist)) == ls.p)
  }

  /**
    The density and weight of a sample on luminaire `lum` (attached to
    `mesh`), one of `count`:
    - facing away: zero weight and zero density;
    - facing: the area density converted to solid angle, `pdf = areaPdf * dist^2 / dp`;
    - facing but occluded: zero weight;
    - facing and visible: the colour over `pdf / count`, the density of
      choosing this luminaire and then this direction.
   */
  ghost predicate SampledWeight(scene: Scene, ref: Vec3, count: nat, lum: Luminaire, mesh: Mesh, ls: LightSample) {
    && (!Facing(ls) ==> ls.value == Black && ls.pdf == 0.0)
    && (Facing(ls) ==> ls.pdf > 0.0 && ls.pdf * Cosine(ls) == mesh.pdf * ls.dist * ls.dist)
    && (Facing(ls) && scene.occluded(ShadowRayOf(ref, ls)) ==> ls.value == Black)
    && (Facing(ls) && !scene.occluded(ShadowRayOf(ref, ls)) ==>
          ls.value == Scale(lum.color, count as real / ls.pdf))
    && (NonNegative(lum.color) ==> NonNegative(ls.value))
  }

  /**
    Steps 3 to 7 of the light sampler, once the luminaire `lum` (number
    `index` of `count`) and the point `s` on its mesh are chosen.
   */
  function WeighSample(scene: Scene, sqrt: real -> real, ref: Vec3, count: nat, index: nat,
                       lum: Luminaire, mesh: Mesh, s: SurfacePoint): (ls: LightSample)
    requires IsSqrt(sqrt)
    ensures ls.index == index
    ensures SampledGeometry(ref, s, ls)
    ensures SampledWeight(scene, ref, count, lum, mesh, ls)
  {
    var (d, dist) := DirectionTo(sqrt, ref, s.p);
    WeighDirection(scene, ref, count, index, lum, mesh, s, d, dist)
  }

  /**
    Solid-angle density and weight of a facing sample: `pdf = areaPdf *
    dist^2 / dp`, and the source's weight `dp / dist^2 * N / areaPdf` is
    `N / pdf`.
   */
  function FacingWeight(count: nat, areaPdf: PositiveReal, dist: real, dp: real): (w: (real, real))
    requires dist > 0.0 && dp > 0.0
    ensures w.0 > 0.0 && w.0 * dp == areaPdf * dist * dist
    ensures w.1 == count as real / w.0 && w.1 >= 0.0
  {
    SolidAngleWeight(count as real, areaPdf, dist, dp);
    (areaPdf * (dist * dist) / dp, dp / (dist * dist) * count as real / areaPdf)
  }

  /** Steps 4 to 7, given the direction `d` and distance `dist` to the sampled point */
  function WeighDirection(scene: Scene, ref: Vec3, count: nat, index: nat,
                          lum: Luminaire, mesh: Mesh, s: SurfacePoint, d: Vec3, dist: real): (ls: LightSample)
    requires dist >= 0.0
    ensures ls.index == index && ls.p == s.p && ls.n == s.n && ls.d == d && ls.dist == dist
    ensures SampledWeight(scene, ref, count, lum, mesh, ls)
  {
    var dp := -Dot(s.n, d);
    if dist > 0.0 && dp > 0.0 then
      var (pdf, k) := FacingWeight(count, mesh.pdf, dist, dp);
      var ls := LightSample(index, s.p, s.n, d, dist, pdf, Black);
      if scene.occluded(ShadowRayOf(ref, ls)) then ls
      else ls.(value := Scale(lum.color, k))
    else
      LightSample(index, s.p, s.n, d, dist, 0.0, Black)
  }

  /**
    `PathTracer::sampleLights`: the luminaire query record for reference
    point `ref` and the uniform 2D sample `sample`, or the error the source
    throws.
   */
  function SampleLights(scene: Scene, sqrt: real -> real, ref: Vec3, sample: Point2): (r: Result<LightSample>)
    requires IsSqrt(sqrt)
    requires 0.0 <= sample.x < 1.0
    // errors: no luminaire at all, or the chosen one is not on a mesh
    ensures |scene.luminaires| == 0 ==> r == Failure(NoLuminaires)
    ensures |scene.luminaires| > 0 ==>
      (r.Success? <==> scene.luminaires[SelectIndex(|scene.luminaires|, sample.x)].parent.MeshParent?)
    ensures r.Failure? && |scene.luminaires| > 0 ==> r.error == UnhandledLuminaire
    // a point on the selected luminaire's mesh, sampled with the rescaled coordinate
    ensures r.Success? ==>
      var n := |scene.luminaires|;
      var lum := scene.luminaires[SelectIndex(n, sample.x)];
      && r.value.index == SelectIndex(n, sample.x)
      && SampledGeometry(ref, lum.parent.mesh.samplePosition(Point2(RescaleSample(n, sample.x), sample.y)), r.value)
      && SampledWeight(scene, ref, n, lum, lum.parent.mesh, r.value)
  {
    var lums := scene.luminaires;
    if |lums| == 0 then Failure(NoLuminaires)
    else
      var n := |lums|;
      var index := SelectIndex(n, sample.x);
      var mesh :- GetMesh(lums[index]);
      var s := mesh.samplePosition(Point2(RescaleSample(n, sample.x), sample.y));
      Success(WeighSample(scene, sqrt, ref, n, index, lums[index], mesh, s))
  }
}
