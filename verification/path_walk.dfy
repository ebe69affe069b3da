/**
  The random walk of `PathTracer::Li` as a state machine. One step handles
  one loop iteration: the intersection found for the current ray arrives as
  an `Event`, and every foreign query at the hit (luminaire emission, BSDF
  evaluation and sampling) is a field of that event. Uniform samples come
  from an infinite stream read at a cursor.
 */
module PathWalk {
  import opened Colors
  import opened Vectors
  import opened Scenes
  import opened LightSampler

  /** Russian-roulette survival probability */
  const SurvivalProbability: real := 0.7

  /** Bounds on the accumulated relative index of refraction */
  const MinEta: real := 0.5
  const MaxEta: real := 2.0

  /** nori's `EMeasure` */
  datatype Measure = UnknownMeasure | SolidAngle | Discrete

  /** What `BSDF::sample` returns and leaves in the query record */
  datatype BsdfSample = BsdfSample(weight: Color3, eta: real, measure: Measure)

  /**
    One surface intersection: the hit point `p`, the shading normal `n`,
    whether the mesh is a luminaire and the radiance it emits towards the
    ray origin, the BSDF value for the world direction towards a light
    (`evalBsdf`; the incoming direction is fixed by the ray), and the BSDF
    sampling routine applied to a 2D sample.
   */
  datatype Hit = Hit(
    p: Vec3,
    n: Vec3,
    isLuminaire: bool,
    emitted: Color3,
    evalBsdf: Vec3 -> Color3,
    sampleBsdf: Point2 -> BsdfSample)

  /** The ray escapes (carrying the environment luminaire's radiance along it), or hits a surface */
  datatype Event = Escape(envRadiance: Color3) | Surface(hit: Hit)

  /** The walk's loop variables; `cursor` is the number of uniform samples drawn so far */
  datatype WalkState = WalkState(
    result: Color3,
    throughput: Color3,
    depth: nat,
    eta: real,
    includeEmitted: bool,
    cursor: nat)

  /** The four `break`s of the loop */
  datatype Stop = Escaped | ZeroWeight | EtaOutOfRange | RouletteKilled

  datatype Transition = Continue(next: WalkState) | Terminate(final: WalkState, why: Stop)

  /** How a finite run of the walk ended: a `break`, or no more events to consume */
  datatype Ending = Stopped(why: Stop) | OutOfEvents

  datatype Walk = Walk(radiance: Color3, ending: Ending, final: WalkState)

  /** The collaborators a walk consults besides its events */
  datatype Oracles = Oracles(scene: Scene, sqrt: real -> real, sampler: nat -> real)

  /** `std::sqrt` is exact and the sampler draws from [0, 1) */
  ghost predicate ValidOracles(o: Oracles) {
    && IsSqrt(o.sqrt)
    && forall i :: 0.0 <= o.sampler(i) < 1.0
  }

  /** The loop variables before the first iteration */
  const Initial := WalkState(Black, White, 0, 1.0, true, 0)

  /** `sampler->next2D()` at the cursor */
  function Draw2D(o: Oracles, cursor: nat): Point2 {
    Point2(o.sampler(cursor), o.sampler(cursor + 1))
  }

  /** Draws consumed by one surviving bounce taken from depth `depth` */
  function DrawsPerBounce(depth: nat): nat {
    if depth + 1 > 1 then 5 else 4
  }

  /** The BSDF sample taken at a hit from the state's cursor */
  function BsdfDraw(o: Oracles, st: WalkState, h: Hit): BsdfSample {
    h.sampleBsdf(Draw2D(o, st.cursor + 2))
  }

  /** Radiance emitted by what the walk reached, gated by `includeEmitted` */
  function EmittedTerm(st: WalkState, lit: bool, radiance: Color3): (c: Color3)
    ensures !(st.includeEmitted && lit) ==> c == Black
  {
    if st.includeEmitted && lit then Mul(st.throughput, radiance) else Black
  }

  /**
    Next-event estimation at a hit: nothing when the light sample has zero
    weight, otherwise throughput times light weight times BSDF value times
    transmittance times the cosine at the hit.
   */
  function DirectTerm(o: Oracles, st: WalkState, h: Hit, ls: LightSample): (c: Color3)
    ensures IsBlack(ls.value) ==> c == Black
  {
    if IsBlack(ls.value) then Black
    else
      Scale(
        Mul(Mul(Mul(st.throughput, ls.value), h.evalBsdf(ls.d)),
            o.scene.transmittance(ShadowRay(h.p, ls.d, ls.dist))),
        Abs(Dot(h.n, ls.d)))
  }

  /**
    The state after the radiance gathered at a hit: emission (when
    included) and next-event estimation. Only the result changes.
   */
  function Gather(o: Oracles, st: WalkState, h: Hit, ls: LightSample): (s: WalkState)
    ensures s == st.(result := s.result)
  {
    var emitted := Add(st.result, EmittedTerm(st, h.isLuminaire, h.emitted));
    st.(result := Add(emitted, DirectTerm(o, st, h, ls)))
  }

  /** The part of an iteration after the light sample: BSDF sampling, the eta check and roulette */
  function Bounce(o: Oracles, st: WalkState, h: Hit): (t: Transition)
    requires ValidOracles(o)
    ensures t.Terminate? && t.why == ZeroWeight <==> IsBlack(BsdfDraw(o, st, h).weight)
    ensures t.Terminate? && t.why == ZeroWeight ==> t.final == st.(cursor := st.cursor + 4)
    ensures t.Terminate? && t.why == EtaOutOfRange <==>
      !IsBlack(BsdfDraw(o, st, h).weight) &&
      !(MinEta <= st.eta * BsdfDraw(o, st, h).eta <= MaxEta)
    ensures t.Terminate? ==> t.final.result == st.result && t.why != Escaped
    ensures t.Terminate? && t.why == RouletteKilled ==>
      st.depth >= 1 && t.final.depth == st.depth + 1 && o.sampler(st.cursor + 4) >= SurvivalProbability
    ensures t.Continue? ==>
      var b := BsdfDraw(o, st, h);
      && t.next.result == st.result
      && t.next.depth == st.depth + 1
      && t.next.cursor == st.cursor + DrawsPerBounce(st.depth)
      && MinEta <= t.next.eta <= MaxEta
      && t.next.eta == st.eta * b.eta
      && t.next.includeEmitted == (b.measure == Discrete)
      && (st.depth == 0 ==> t.next.throughput == Mul(st.throughput, b.weight))
      && (st.depth >= 1 ==>
            o.sampler(st.cursor + 4) < SurvivalProbability &&
            Scale(t.next.throughput, SurvivalProbability) == Mul(st.throughput, b.weight))
  {
    var b := BsdfDraw(o, st, h);
    var drawn := st.cursor + 4;
    if IsBlack(b.weight) then
      Terminate(st.(cursor := drawn), ZeroWeight)
    else
      var eta := st.eta * b.eta;
      var throughput := Mul(st.throughput, b.weight);
      if eta > MaxEta || eta < MinEta then
        Terminate(st.(throughput := throughput, eta := eta, cursor := drawn), EtaOutOfRange)
      else
        var includeEmitted := b.measure == Discrete;
        var depth := st.depth + 1;
        if depth > 1 then
          var next := WalkState(st.result, throughput, depth, eta, includeEmitted, drawn + 1);
          if o.sampler(drawn) >= SurvivalProbability then
            Terminate(next, RouletteKilled)
          else
            Continue(next.(throughput := Scale(throughput, 1.0 / SurvivalProbability)))
        else
          Continue(WalkState(st.result, throughput, depth, eta, includeEmitted, drawn))
  }

  /** One iteration of the loop in `PathTracer::Li` */
  function Step(o: Oracles, st: WalkState, ev: Event): (r: Result<Transition>)
    requires ValidOracles(o)
    // an escaping ray always ends the walk, and only it ends it as escaped
    ensures ev.Escape? ==> r.Success? && r.value.Terminate? && r.value.why == Escaped
    ensures ev.Escape? && !(st.includeEmitted && o.scene.hasEnvLuminaire) ==> r.value.final.result == st.result
    ensures r.Success? && r.value.Terminate? && r.value.why == Escaped ==> ev.Escape?
    // without luminaires a hit throws; only a hit throws, and "no luminaires" only without luminaires
    ensures ev.Surface? && |o.scene.luminaires| == 0 ==> r == Failure(NoLuminaires)
    ensures r.Failure? ==> ev.Surface? && (r.error == NoLuminaires <==> |o.scene.luminaires| == 0)
    // a break keeps the depth, except a roulette kill, which comes after its increment
    ensures r.Success? && r.value.Terminate? ==>
      r.value.final.depth == st.depth + (if r.value.why == RouletteKilled then 1 else 0)
    // a surviving bounce
    ensures r.Success? && r.value.Continue? ==>
      var b := BsdfDraw(o, st, ev.hit);
      && r.value.next.includeEmitted == (b.measure == Discrete)
      && r.value.next.depth == st.depth + 1
      && r.value.next.cursor == st.cursor + DrawsPerBounce(st.depth)
      && MinEta <= r.value.next.eta <= MaxEta
  {
    match ev
    case Escape(env) =>
      var lit := o.scene.hasEnvLuminaire;
      Success(Terminate(st.(result := Add(st.result, EmittedTerm(st, lit, env))), Escaped))
    case Surface(h) =>
      var ls :- SampleLights(o.scene, o.sqrt, h.p, Draw2D(o, st.cursor));
      Success(Bounce(o, Gather(o, st, h, ls), h))
  }

  /** The step ended the walk for reason `why` */
  predicate EndsBy(r: Result<Transition>, why: Stop) {
    r.Success? && r.value.Terminate? && r.value.why == why
  }

  /**
    Run the loop over a finite list of events, starting from `st`. The
    returned radiance is the final accumulated result; every consumed event
    but a breaking one adds a bounce to the depth; the "no luminaires" error
    arises exactly in scenes without luminaires.
   */
  function Run(o: Oracles, st: WalkState, events: seq<Event>): (r: Result<Walk>)
    requires ValidOracles(o)
    ensures r.Success? ==> r.value.radiance == r.value.final.result
    ensures r.Success? && r.value.ending == OutOfEvents ==> r.value.final.depth == st.depth + |events|
    // the breaking event adds no bounce, except a roulette kill, which comes after the increment
    ensures r.Success? && r.value.ending.Stopped? && r.value.ending.why != RouletteKilled ==>
      |events| > 0 && st.depth <= r.value.final.depth <= st.depth + |events| - 1
    ensures r.Success? && r.value.ending == Stopped(RouletteKilled) ==>
      st.depth + 1 <= r.value.final.depth <= st.depth + |events|
    ensures r.Failure? ==> |events| > 0 && (r.error == NoLuminaires <==> |o.scene.luminaires| == 0)
    decreases |events|
  {
    if |events| == 0 then Success(Walk(st.result, OutOfEvents, st))
    else
      var t :- Step(o, st, events[0]);
      match t
      case Terminate(final, why) => Success(Walk(final.result, Stopped(why), final))
      case Continue(next) => Run(o, next, events[1..])
  }

  /** `PathTracer::Li`: the radiance estimate along a camera ray whose intersections are `events` */
  function Li(o: Oracles, events: seq<Event>): (r: Result<Walk>)
    requires ValidOracles(o)
    ensures r.Success? ==> r.value.radiance == r.value.final.result
    ensures r.Success? && r.value.ending == OutOfEvents ==> r.value.final.depth == |events|
    ensures r.Success? && r.value.ending.Stopped? && r.value.ending.why != RouletteKilled ==>
      r.value.final.depth <= |events| - 1
    ensures r.Success? && r.value.ending == Stopped(RouletteKilled) ==> 1 <= r.value.final.depth <= |events|
    ensures r.Failure? ==> |events| > 0 && (r.error == NoLuminaires <==> |o.scene.luminaires| == 0)
  {
    Run(o, Initial, events)
  }

  /**
    The loop over the event list, with an early return for each `break`
    and each throw of the source's loop; it computes exactly `Li`.
   */
  method PathLoop(o: Oracles, events: seq<Event>) returns (r: Result<Walk>)
    requires ValidOracles(o)
    ensures r == Li(o, events)
  {
    var st := Initial;
    var k := 0;
    while k < |events|
      invariant 0 <= k <= |events|
      invariant Run(o, st, events[k..]) == Li(o, events)
      decreases |events| - k
    {
      assert events[k..][0] == events[k];
      assert events[k..][1..] == events[k + 1..];
      var t := Step(o, st, events[k]);
      if t.Failure? {
        return Failure(t.error);
      }
      match t.value
      case Terminate(final, why) =>
        return Success(Walk(final.result, Stopped(why), final));
      case Continue(next) =>
        st := next;
        k := k + 1;
    }
    return Success(Walk(st.result, OutOfEvents, st));
  }
}
