/**
  Properties of whole walks of `PathTracer::Li`, proved over the state
  machine of `PathWalk`.
 */
module PathProperties {
  import opened Colors
  import opened Vectors
  import opened Scenes
  import opened LightSampler
  import opened PathWalk

  /** At a hit, a successful step is the bounce taken after gathering radiance with the light sample */
  lemma StepAtSurface(o: Oracles, st: WalkState, h: Hit)
    requires ValidOracles(o)
    ensures var r := SampleLights(o.scene, o.sqrt, h.p, Draw2D(o, st.cursor));
      && (Step(o, st, Surface(h)).Success? <==> r.Success?)
      && (r.Success? ==> Step(o, st, Surface(h)).value == Bounce(o, Gather(o, st, h, r.value), h))
  {
  }

  /**
    The walk starts with zero radiance and `includeEmitted` set, so a camera
    ray that escapes at once sees exactly the environment luminaire, and
    exactly black when there is none. No luminaire is needed for this.
   */
  lemma EscapeAtOnce(o: Oracles, env: Color3, rest: seq<Event>)
    requires ValidOracles(o)
    ensures var seen := if o.scene.hasEnvLuminaire then env else Black;
      Li(o, [Escape(env)] + rest) == Success(Walk(seen, Stopped(Escaped), Initial.(result := seen)))
  {
    EscapeEndsWalk(o, Initial, env, rest);
    var seen := if o.scene.hasEnvLuminaire then env else Black;
    assert Add(Black, EmittedTerm(Initial, o.scene.hasEnvLuminaire, env)) == seen;
  }

  /**
    An escaping ray ends the walk whatever follows, adding the environment
    radiance only under `includeEmitted`.
   */
  lemma EscapeEndsWalk(o: Oracles, st: WalkState, env: Color3, rest: seq<Event>)
    requires ValidOracles(o)
    ensures var r := Add(st.result, EmittedTerm(st, o.scene.hasEnvLuminaire, env));
      Run(o, st, [Escape(env)] + rest) == Success(Walk(r, Stopped(Escaped), st.(result := r)))
  {
    assert ([Escape(env)] + rest)[0] == Escape(env);
  }

  /** Without luminaires the first surface hit throws "no luminaires" */
  lemma NoLuminairesFailAtFirstHit(o: Oracles, h: Hit, rest: seq<Event>)
    requires ValidOracles(o)
    requires |o.scene.luminaires| == 0
    ensures Li(o, [Surface(h)] + rest) == Failure(NoLuminaires)
  {
    assert ([Surface(h)] + rest)[0] == Surface(h);
  }

  /** With `includeEmitted` cleared, a luminaire hit behaves as a plain surface */
  lemma EmissionIgnoredWhenExcluded(o: Oracles, st: WalkState, h: Hit)
    requires ValidOracles(o)
    requires !st.includeEmitted
    ensures Step(o, st, Surface(h)) == Step(o, st, Surface(h.(isLuminaire := false)))
  {
    var plain := h.(isLuminaire := false);
    StepAtSurface(o, st, h);
    StepAtSurface(o, st, plain);
    var r := SampleLights(o.scene, o.sqrt, h.p, Draw2D(o, st.cursor));
    if r.Success? {
      var ls := r.value;
      assert Gather(o, st, h, ls) == Gather(o, st, plain, ls);
      BounceIgnoresEmission(o, Gather(o, st, h, ls), h);
    }
  }

  /**
    With `includeEmitted` set, a luminaire hit behaves as a plain surface
    reached with the emitted radiance, weighted by the throughput, already
    added.
   */
  lemma EmissionAddedWhenIncluded(o: Oracles, st: WalkState, h: Hit)
    requires ValidOracles(o)
    requires st.includeEmitted && h.isLuminaire
    ensures Step(o, st, Surface(h)) ==
      Step(o, st.(result := Add(st.result, Mul(st.throughput, h.emitted))), Surface(h.(isLuminaire := false)))
  {
    var plain := h.(isLuminaire := false);
    var st' := st.(result := Add(st.result, Mul(st.throughput, h.emitted)));
    StepAtSurface(o, st, h);
    StepAtSurface(o, st', plain);
    assert Draw2D(o, st'.cursor) == Draw2D(o, st.cursor);
    var r := SampleLights(o.scene, o.sqrt, h.p, Draw2D(o, st.cursor));
    if r.Success? {
      var ls := r.value;
      assert EmittedTerm(st', false, h.emitted) == Black;
      assert Add(st'.result, Black) == st'.result;
      assert DirectTerm(o, st', plain, ls) == DirectTerm(o, st, h, ls);
      assert Gather(o, st, h, ls) == Gather(o, st', plain, ls);
      BounceIgnoresEmission(o, Gather(o, st, h, ls), h);
    }
  }

  lemma BounceIgnoresEmission(o: Oracles, st: WalkState, h: Hit)
    requires ValidOracles(o)
    ensures Bounce(o, st, h) == Bounce(o, st, h.(isLuminaire := false))
  {
    assert BsdfDraw(o, st, h) == BsdfDraw(o, st, h.(isLuminaire := false));
  }

  /**
    A BSDF sample of weight zero ends the walk before eta, the throughput or
    the depth change; the draws for the light and the BSDF are consumed.
   */
  lemma ZeroWeightKeepsState(o: Oracles, st: WalkState, h: Hit)
    requires ValidOracles(o)
    requires IsBlack(BsdfDraw(o, st, h).weight)
    ensures Step(o, st, Surface(h)).Success? ==>
      var t := Step(o, st, Surface(h)).value;
      && t == Terminate(t.final, ZeroWeight)
      && t.final.throughput == st.throughput
      && t.final.eta == st.eta
      && t.final.depth == st.depth
      && t.final.includeEmitted == st.includeEmitted
      && t.final.cursor == st.cursor + 4
  {
    StepAtSurface(o, st, h);
    var r := SampleLights(o.scene, o.sqrt, h.p, Draw2D(o, st.cursor));
    if r.Success? {
      assert BsdfDraw(o, Gather(o, st, h, r.value), h) == BsdfDraw(o, st, h);
    }
  }

  /**
    At a hit the walk stops for a zero-weight BSDF sample exactly when the
    sample is all black, and for eta exactly when the sample is not black
    and the accumulated eta leaves [0.5, 2]. (Escape happens only at
    escaping rays.)
   */
  lemma StopReasons(o: Oracles, st: WalkState, h: Hit)
    requires ValidOracles(o)
    requires Step(o, st, Surface(h)).Success?
    ensures !EndsBy(Step(o, st, Surface(h)), Escaped)
    ensures EndsBy(Step(o, st, Surface(h)), ZeroWeight) <==> IsBlack(BsdfDraw(o, st, h).weight)
    ensures EndsBy(Step(o, st, Surface(h)), EtaOutOfRange) <==>
      !IsBlack(BsdfDraw(o, st, h).weight) && !(MinEta <= st.eta * BsdfDraw(o, st, h).eta <= MaxEta)
  {
    StepAtSurface(o, st, h);
    var r := SampleLights(o.scene, o.sqrt, h.p, Draw2D(o, st.cursor));
    var g := Gather(o, st, h, r.value);
    BounceIgnoresResult(o, st, h, g.result);
    BounceStopReasons(o, st, h);
  }

  /**
    At a hit the roulette ends the walk exactly when the BSDF sample
    survived the other checks, the incremented depth exceeds 1, and the
    fifth draw of the bounce is at least the survival probability 0.7.
   */
  lemma RouletteStop(o: Oracles, st: WalkState, h: Hit)
    requires ValidOracles(o)
    requires Step(o, st, Surface(h)).Success?
    ensures EndsBy(Step(o, st, Surface(h)), RouletteKilled) <==>
      && !IsBlack(BsdfDraw(o, st, h).weight)
      && MinEta <= st.eta * BsdfDraw(o, st, h).eta <= MaxEta
      && st.depth >= 1
      && o.sampler(st.cursor + 4) >= SurvivalProbability
  {
    StepAtSurface(o, st, h);
    var r := SampleLights(o.scene, o.sqrt, h.p, Draw2D(o, st.cursor));
    var g := Gather(o, st, h, r.value);
    BounceIgnoresResult(o, st, h, g.result);
    BounceStopReasons(o, st, h);
  }

  /** The bounce reads the loop state but not the radiance gathered so far */
  lemma BounceIgnoresResult(o: Oracles, st: WalkState, h: Hit, res: Color3)
    requires ValidOracles(o)
    ensures Bounce(o, st.(result := res), h).Terminate? == Bounce(o, st, h).Terminate?
    ensures Bounce(o, st.(result := res), h).Terminate? ==>
      Bounce(o, st.(result := res), h).why == Bounce(o, st, h).why
  {
    assert BsdfDraw(o, st.(result := res), h) == BsdfDraw(o, st, h);
  }

  /** Why the bounce that follows the radiance gathering ends the walk */
  lemma BounceStopReasons(o: Oracles, st: WalkState, h: Hit)
    requires ValidOracles(o)
    ensures var t := Bounce(o, st, h);
      var b := BsdfDraw(o, st, h);
      && (t.Terminate? ==> t.why != Escaped)
      && (t.Terminate? && t.why == ZeroWeight <==> IsBlack(b.weight))
      && (t.Terminate? && t.why == EtaOutOfRange <==> !IsBlack(b.weight) && !(MinEta <= st.eta * b.eta <= MaxEta))
      && (t.Terminate? && t.why == RouletteKilled <==>
            && !IsBlack(b.weight)
            && MinEta <= st.eta * b.eta <= MaxEta
            && st.depth >= 1
            && o.sampler(st.cursor + 4) >= SurvivalProbability)
  {
  }

  /** The loop-invariant part of a walk state that every surviving bounce keeps */
  ghost predicate Healthy(st: WalkState) {
    && MinEta <= st.eta <= MaxEta
    && NonNegative(st.throughput)
    && NonNegative(st.result)
  }

  /** Every colour the collaborators can report is non-negative */
  ghost predicate NonNegativeScene(scene: Scene) {
    && (forall i :: 0 <= i < |scene.luminaires| ==> NonNegative(scene.luminaires[i].color))
    && (forall ray :: NonNegative(scene.transmittance(ray)))
  }

  /** Every colour an intersection can report is non-negative */
  ghost predicate NonNegativeEvent(ev: Event) {
    match ev
    case Escape(env) => NonNegative(env)
    case Surface(h) =>
      && NonNegative(h.emitted)
      && (forall d :: NonNegative(h.evalBsdf(d)))
      && (forall u :: NonNegative(h.sampleBsdf(u).weight))
  }

  /**
    One iteration keeps eta in [0.5, 2] and the throughput and result
    non-negative, and a walk that ends leaves a non-negative result.
   */
  lemma StepKeepsHealthy(o: Oracles, st: WalkState, ev: Event)
    requires ValidOracles(o)
    requires NonNegativeScene(o.scene) && NonNegativeEvent(ev)
    requires Healthy(st)
    ensures Step(o, st, ev).Success? ==>
      match Step(o, st, ev).value
      case Continue(next) => Healthy(next)
      case Terminate(final, _) => NonNegative(final.result)
  {
    match ev
    case Escape(env) =>
      NonNegativeMul(st.throughput, env);
      NonNegativeAdd(st.result, EmittedTerm(st, o.scene.hasEnvLuminaire, env));
    case Surface(h) =>
      var r := SampleLights(o.scene, o.sqrt, h.p, Draw2D(o, st.cursor));
      if r.Success? {
        var ls := r.value;
        NonNegativeMul(st.throughput, h.emitted);
        var emitted := Add(st.result, EmittedTerm(st, h.isLuminaire, h.emitted));
        NonNegativeAdd(st.result, EmittedTerm(st, h.isLuminaire, h.emitted));
        assert NonNegative(ls.value);
        var ray := ShadowRay(h.p, ls.d, ls.dist);
        NonNegativeMul(st.throughput, ls.value);
        NonNegativeMul(Mul(st.throughput, ls.value), h.evalBsdf(ls.d));
        NonNegativeMul(Mul(Mul(st.throughput, ls.value), h.evalBsdf(ls.d)), o.scene.transmittance(ray));
        NonNegativeScale(Mul(Mul(Mul(st.throughput, ls.value), h.evalBsdf(ls.d)), o.scene.transmittance(ray)),
                         Abs(Dot(h.n, ls.d)));
        NonNegativeAdd(emitted, DirectTerm(o, st, h, ls));
        var b := BsdfDraw(o, Gather(o, st, h, ls), h);
        NonNegativeMul(st.throughput, b.weight);
        NonNegativeScale(Mul(st.throughput, b.weight), 1.0 / SurvivalProbability);
      }
  }

  /**
    With non-negative colours everywhere, the throughput stays non-negative
    and eta stays within [0.5, 2] along the walk, and the radiance estimate
    is non-negative however the walk ends.
   */
  lemma {:induction false} RadianceNonNegative(o: Oracles, st: WalkState, events: seq<Event>)
    requires ValidOracles(o)
    requires NonNegativeScene(o.scene)
    requires forall i :: 0 <= i < |events| ==> NonNegativeEvent(events[i])
    requires Healthy(st)
    ensures Run(o, st, events).Success? ==> NonNegative(Run(o, st, events).value.radiance)
    ensures Run(o, st, events).Success? && Run(o, st, events).value.ending == OutOfEvents ==>
      Healthy(Run(o, st, events).value.final)
    decreases |events|
  {
    if |events| > 0 {
      StepKeepsHealthy(o, st, events[0]);
      var t := Step(o, st, events[0]);
      if t.Success? && t.value.Continue? {
        RadianceNonNegative(o, t.value.next, events[1..]);
      }
    }
  }

  /** `Li` from the initial state: the estimate is non-negative */
  lemma LiNonNegative(o: Oracles, events: seq<Event>)
    requires ValidOracles(o)
    requires NonNegativeScene(o.scene)
    requires forall i :: 0 <= i < |events| ==> NonNegativeEvent(events[i])
    ensures Li(o, events).Success? ==> NonNegative(Li(o, events).value.radiance)
  {
    RadianceNonNegative(o, Initial, events);
  }

  /**
    Once the walk breaks (or throws), later intersections add nothing: the
    outcome is the same whatever events follow.
   */
  lemma {:induction false} StoppedWalkIgnoresLaterEvents(o: Oracles, st: WalkState, events: seq<Event>, more: seq<Event>)
    requires ValidOracles(o)
    requires Run(o, st, events).Failure? || Run(o, st, events).value.ending.Stopped?
    ensures Run(o, st, events + more) == Run(o, st, events)
    decreases |events|
  {
    assert |events| > 0;
    assert (events + more)[0] == events[0];
    assert (events + more)[1..] == events[1..] + more;
    var t := Step(o, st, events[0]);
    if t.Success? && t.value.Continue? {
      StoppedWalkIgnoresLaterEvents(o, t.value.next, events[1..], more);
    }
  }

  /**
    A walk that used up its events without breaking can be resumed from its
    final state: the state records everything the loop carries.
   */
  lemma {:induction false} ResumeWalk(o: Oracles, st: WalkState, events: seq<Event>, more: seq<Event>)
    requires ValidOracles(o)
    requires Run(o, st, events).Success? && Run(o, st, events).value.ending == OutOfEvents
    ensures Run(o, st, events + more) == Run(o, Run(o, st, events).value.final, more)
    decreases |events|
  {
    if |events| == 0 {
      assert events + more == more;
    } else {
      assert (events + more)[0] == events[0];
      assert (events + more)[1..] == events[1..] + more;
      var t := Step(o, st, events[0]);
      ResumeWalk(o, t.value.next, events[1..], more);
    }
  }

  /**
    Each surviving bounce draws four samples (two 2D samples), plus one
    roulette draw once the incremented depth exceeds 1; so a walk from the
    camera that survives `k >= 1` bounces has drawn `5k - 1` samples.
   */
  lemma {:induction false} DrawsAlongWalk(o: Oracles, st: WalkState, events: seq<Event>)
    requires ValidOracles(o)
    requires Run(o, st, events).Success? && Run(o, st, events).value.ending == OutOfEvents
    ensures var f := Run(o, st, events).value.final;
      && f.depth == st.depth + |events|
      && f.cursor == st.cursor + 5 * |events| - (if st.depth == 0 && |events| > 0 then 1 else 0)
    decreases |events|
  {
    if |events| > 0 {
      var t := Step(o, st, events[0]);
      DrawsAlongWalk(o, t.value.next, events[1..]);
    }
  }

  /** The roulette never ends the first bounce: a walk killed by it has bounced at least twice */
  lemma {:induction false} RouletteOnlyAfterFirstBounce(o: Oracles, st: WalkState, events: seq<Event>)
    requires ValidOracles(o)
    requires Run(o, st, events).Success? && Run(o, st, events).value.ending == Stopped(RouletteKilled)
    ensures Run(o, st, events).value.final.depth >= 2
    ensures Run(o, st, events).value.final.depth > st.depth
    decreases |events|
  {
    var h := events[0].hit;
    var t := Step(o, st, events[0]);
    if t.value.Continue? {
      RouletteOnlyAfterFirstBounce(o, t.value.next, events[1..]);
    } else {
      StepAtSurface(o, st, h);
    }
  }
}
