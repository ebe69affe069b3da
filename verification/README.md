# Path tracer integrator, modelled in Dafny

This project models the control logic of nori's `PathTracer` integrator
(`nori_framework/src/ex4/path.cpp`). The integrator is a unidirectional path
tracer. It uses next-event estimation (explicit light sampling) and
Russian-roulette termination. There are two parts:

- **Light sampling** (`PathTracer::sampleLights`, module `LightSampler`).
  One luminaire is picked uniformly with the first sample coordinate. The
  remainder of that coordinate is rescaled to [0, 1) and used to sample a
  point on the luminaire's mesh. The result is then one of:
  - zero, for a point that faces away (its density is set to zero);
  - zero, for a point that is occluded;
  - otherwise `colour · (dp / dist²) · N / areaPdf`, which the model proves
    equal to `colour · N / pdf`, with `pdf` the solid-angle density.

  A scene without luminaires is an error. So is selecting a luminaire that
  is not attached to a mesh (`getMesh`).
- **The random walk** (`PathTracer::Li`, module `PathWalk`). The loop
  variables are the result, the throughput, the depth, the accumulated
  relative index `eta` and the `includeEmitted` flag. They form an immutable
  `WalkState`. A pure `Step` function advances the state by one loop
  iteration and consumes one intersection `Event`. The walk ends on one of
  four `break`s:
  - the ray escapes;
  - the BSDF sample is all black;
  - `eta` leaves [0.5, 2];
  - a Russian-roulette draw is at least 0.7. The roulette is applied only
    once the incremented depth exceeds 1.

  `PathLoop` is the loop over the event list, with an early return for
  each `break` and each throw. It is proved to compute exactly `Li`.

Scalars and colours use ideal `real` arithmetic. Colours are RGB triples
(module `Colors`) and vectors are triples (module `Vectors`). Everything
whose code is not part of the integrator is an input to the model:

- ray–scene intersection: the event list;
- `Mesh::samplePosition`: a function field of `Mesh`;
- the shadow-ray query and `evalTransmittance`: function fields of `Scene`;
- BSDF evaluation and sampling, and the radiance emitted by a hit
  luminaire (`Luminaire::eval` at path.cpp:145-147): fields of a `Hit`;
- the environment luminaire's radiance along an escaping ray
  (path.cpp:128-131): the `envRadiance` field of an `Escape` event;
- `Luminaire::getColor`: the `color` field of a `Luminaire`;
- `std::sqrt`: a function parameter that is an exact square root
  (`Vectors.IsSqrt`).

The sampler is an infinite stream `nat -> real` of draws in [0, 1), read at
a cursor. `next2D` takes two draws and `next1D` takes one.

## Model

| member | source | states |
|---|---|---|
| Scenes.GetMesh | nori_framework/src/ex4/path.cpp:38-41 | Succeeds exactly when the luminaire's parent is a mesh and returns that mesh; any other parent gives the "unhandled luminaire" error |
| LightSampler.SelectIndex | nori_framework/src/ex4/path.cpp:67 | For N ≥ 1 and x in [0, 1), the selected index lies in [0, N) |
| LightSampler.ClampNeverBinds | nori_framework/src/ex4/path.cpp:67 | Over the reals the `std::min` clamp is a no-op: the truncation of N·x is already at most N − 1 |
| LightSampler.SelectIndexInterval | nori_framework/src/ex4/path.cpp:66-67 | Index i is selected if and only if N·x lies in [i, i+1), so a uniform x picks each luminaire with probability 1/N |
| LightSampler.RescaleSample | nori_framework/src/ex4/path.cpp:68 | The rescaled coordinate N·x − index lies in [0, 1) |
| LightSampler.RescaleRoundTrip | nori_framework/src/ex4/path.cpp:66-68 | Selection plus rescaling inverts x = (i + u)/N: every index i < N with every u in [0, 1) comes back unchanged |
| LightSampler.SolidAngleWeight | nori_framework/src/ex4/path.cpp:85-99 | For a facing sample, pdf = areaPdf·dist²/dp is positive, and the returned factor dp/dist²·N/areaPdf equals N/pdf and is non-negative |
| LightSampler.FacingWeight | nori_framework/src/ex4/path.cpp:85-99 | The solid-angle density is positive and satisfies pdf·dp = areaPdf·dist², and the weight factor is N/pdf ≥ 0 |
| LightSampler.DirectionTo | nori_framework/src/ex4/path.cpp:75-80 | `dist` is the Euclidean distance to the sampled point; when it is positive, `d` is a unit vector and ref + dist·d gives the sampled point back |
| LightSampler.WeighDirection | nori_framework/src/ex4/path.cpp:82-103 | Facing away (dp ≤ 0, or coincident points) gives zero and pdf 0; facing gives pdf·dp = areaPdf·dist²; occluded gives zero; visible gives colour·N/pdf; a non-negative colour gives a non-negative value |
| LightSampler.WeighSample | nori_framework/src/ex4/path.cpp:74-103 | The record holds the mesh sample, its distance and unit direction, and the density and weight cases of `WeighDirection` |
| LightSampler.SampleLights | nori_framework/src/ex4/path.cpp:59-104 | No luminaires gives the error and never a colour; otherwise it succeeds if and only if the selected luminaire is on a mesh (else "unhandled luminaire"); on success, the sample is taken on the selected luminaire with the rescaled coordinate, and the geometry, density and weight cases hold |
| PathWalk.EmittedTerm | nori_framework/src/ex4/path.cpp:125-147 | Emitted radiance contributes nothing unless `includeEmitted` is set and the ray reached an emitter |
| PathWalk.DirectTerm | nori_framework/src/ex4/path.cpp:153-163 | The next-event term is zero whenever the light sample's value is zero in every channel |
| PathWalk.Gather | nori_framework/src/ex4/path.cpp:139-163 | Gathering emission and direct light at a hit changes only the accumulated result, none of the other loop variables |
| PathWalk.Bounce | nori_framework/src/ex4/path.cpp:165-200 | Zero weight ends the walk with eta, throughput and depth unchanged; eta out of [0.5, 2] ends it exactly when the weight is not black; roulette only ends it after depth ≥ 1 on a draw ≥ 0.7; a survivor has depth + 1, eta in range, `includeEmitted` = (measure is discrete), and throughput·0.7 = old throughput × weight after roulette |
| PathWalk.Step | nori_framework/src/ex4/path.cpp:118-201 | An escape always ends the walk, and only an escape ends it as escaped, adding nothing without `includeEmitted` and an environment luminaire; without luminaires a hit throws, only a hit throws, and "no luminaires" arises only without luminaires; a break keeps the depth except a roulette kill, which adds one; a continued bounce sets `includeEmitted` to (measure is discrete), increments depth, keeps eta in range and consumes 4 draws, or 5 once the roulette applies |
| PathWalk.Run | nori_framework/src/ex4/path.cpp:118-201 | The loop over a finite list of intersections: the returned radiance is the final accumulated result; a walk that uses up its events without a break has bounced once per event; a break happens at some event and adds no bounce, so the depth ends between its start and start plus the number of events minus one, except after a roulette kill, which ends at least one bounce deeper than the start and at most start plus the number of events; the "no luminaires" error arises exactly in scenes without luminaires |
| PathWalk.Li | nori_framework/src/ex4/path.cpp:106-204 | The estimator from the initial loop variables: returns the accumulated result; when the events run out, the depth equals the number of events; a walk stopped by a break other than roulette ends at depth at most the number of events minus one, and one killed by roulette at depth between 1 and the number of events; a throw needs at least one intersection, and is "no luminaires" exactly when the scene has none |
| PathWalk.PathLoop | nori_framework/src/ex4/path.cpp:106-204 | The imperative loop over the event list, with an early return for each `break` and each throw, returns exactly the functional `Li` |
| PathProperties.EscapeAtOnce | nori_framework/src/ex4/path.cpp:109-134 | A camera ray that escapes at once returns the environment radiance, or exactly black when there is no environment luminaire, whatever events follow |
| PathProperties.EscapeEndsWalk | nori_framework/src/ex4/path.cpp:124-134 | An escaping ray ends the walk whatever events follow, adding the environment term only under `includeEmitted` |
| PathProperties.NoLuminairesFailAtFirstHit | nori_framework/src/ex4/path.cpp:63-64 | In a scene without luminaires, a walk whose first event is a hit ends with the "no luminaires" error |
| PathProperties.EmissionIgnoredWhenExcluded | nori_framework/src/ex4/path.cpp:140-151 | With `includeEmitted` cleared, hitting a luminaire gives the same step as hitting a plain surface |
| PathProperties.EmissionAddedWhenIncluded | nori_framework/src/ex4/path.cpp:140-147 | With `includeEmitted` set, hitting a luminaire is a plain-surface step taken after adding throughput × emitted radiance |
| PathProperties.ZeroWeightKeepsState | nori_framework/src/ex4/path.cpp:169-172 | An all-black BSDF sample ends the walk before eta, throughput, depth or `includeEmitted` change |
| PathProperties.StopReasons | nori_framework/src/ex4/path.cpp:170-179 | At a hit, zero weight ends the walk if and only if the sample is black, and eta ends it if and only if the sample is not black and eta·bRec.eta leaves [0.5, 2] |
| PathProperties.RouletteStop | nori_framework/src/ex4/path.cpp:191-200 | At a hit, roulette ends the walk if and only if the bounce passed the weight and eta checks, the incremented depth exceeds 1 and the draw is ≥ 0.7 |
| PathProperties.StepKeepsHealthy | nori_framework/src/ex4/path.cpp:118-201 | With non-negative colours from every collaborator, one iteration keeps the throughput and result non-negative and eta in [0.5, 2] |
| PathProperties.RadianceNonNegative | nori_framework/src/ex4/path.cpp:118-201 | By induction over the walk, the returned radiance is non-negative; a walk that has not stopped keeps non-negative throughput and eta in [0.5, 2] |
| PathProperties.LiNonNegative | nori_framework/src/ex4/path.cpp:106-204 | From the initial state (result 0, throughput 1, eta 1, `includeEmitted` true), the estimate is non-negative |
| PathProperties.StoppedWalkIgnoresLaterEvents | nori_framework/src/ex4/path.cpp:118-201 | Once the walk breaks or throws, later intersections change nothing: the outcome is the same whatever events follow |
| PathProperties.ResumeWalk | nori_framework/src/ex4/path.cpp:107-118 | The state holds every loop variable: when a walk uses up one event list without a break, resuming from its final state on a second list equals running on the concatenation |
| PathProperties.DrawsAlongWalk | nori_framework/src/ex4/path.cpp:155-197 | After k surviving bounces, depth has grown by k and the sampler has advanced 5k draws, less one when the walk started at depth 0 (the first bounce draws no roulette sample) |
| PathProperties.RouletteOnlyAfterFirstBounce | nori_framework/src/ex4/path.cpp:191-198 | A walk killed by roulette ends at depth ≥ 2: the first bounce is never ended by roulette |

## Left out

- Floating-point rounding: all scalars are exact reals, so nothing about
  float precision is claimed.
- Coincident points: when the sampled point equals the reference point, the
  source divides by a zero distance. The float comparison `dp > 0` then fails
  on NaN, so the sample counts as facing away. The model takes that branch
  explicitly and keeps the zero vector as `d`.
- Zero-area luminaire meshes: luminaire meshes are assumed to have positive area, so
  `Mesh::pdf()` is positive (`PositiveReal`). A zero-area mesh, for which
  the source divides by a zero density (path.cpp:85 and path.cpp:99),
  cannot be expressed, and the positivity of the solid-angle density and
  the non-negativity of the weight rest on this assumption.
- `Epsilon`, the minimum parameter of the shadow ray, is not modelled. The
  occlusion query receives the ray's origin, its direction and the shortened
  maximum distance `dist·(1 − 10⁻⁴)`. The transmittance query receives the
  full segment.
- Ray–scene intersection, `Mesh::samplePosition`, BSDF `eval` and `sample`,
  luminaire `eval` and `getColor`, and `evalTransmittance` are foreign code.
  They are inputs: events, function fields and a colour field.
  `evalTransmittance` is assumed to draw no samples.
- `toLocal`, `toWorld` and `Frame::cosTheta`: the cosine at the hit is the
  dot product of the shading normal with the light direction. Building the
  next ray (path.cpp:181) is left out, because the next intersection comes
  from the event list.
- The `while (true)` loop runs over a finite event list. A walk that uses up
  its events ends with `OutOfEvents`, which is not a `break` of the source.
- The `cout << "OOps!"` diagnostic, `toString`, the constructor and the
  `NORI_REGISTER_GROUP_CLASS` / `GROUP_NUMBER` registration are I/O and
  plumbing.
- Unbiasedness and convergence are probabilistic claims and are not stated.
  `SelectIndexInterval` and `RescaleRoundTrip` state their deterministic
  counterpart for light selection.
- Order of the eta check: the code multiplies the throughput by the BSDF
  weight before it tests eta (path.cpp:173-179). The model follows the code,
  so the final state of a walk ended by eta carries the updated throughput
  and eta. Its radiance is unaffected.
- Roulette comparison: the code ends the walk when the draw is `>= 0.7`
  (path.cpp:197), not only when it exceeds 0.7. The model follows the code.
- PathWalk.Gather: its contract states only that the result is the one loop
  variable that changes. The emission it adds is described by
  `EmissionIgnoredWhenExcluded` and `EmissionAddedWhenIncluded`.
- PathWalk.DirectTerm: its contract states only that a zero light sample
  adds nothing. The non-zero case, throughput × light weight × BSDF value ×
  transmittance × |cos|, is in its body. `StepKeepsHealthy` states its sign.
- PathWalk.EmittedTerm: its contract states only the gated-off case. The
  gated-on case is stated by `EmissionAddedWhenIncluded`.
