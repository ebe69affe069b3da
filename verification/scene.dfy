/**
  The parts of a nori scene that the path tracer consults. Everything whose
  code lives outside the integrator (mesh sampling, ray casting, media) is a
  function-valued field: the model fixes what the integrator does with the
  answers, not how they are computed.
 */
module Scenes {
  import opened Colors
  import opened Vectors

  type PositiveReal = t: real | t > 0.0 witness 1.0

  /** Point and normal produced by `Mesh::samplePosition` */
  datatype SurfacePoint = SurfacePoint(p: Vec3, n: Vec3)

  /**
    A triangle mesh that can be sampled uniformly by area. `pdf` is
    `Mesh::pdf()`, the reciprocal of the surface area, hence positive.
   */
  datatype Mesh = Mesh(pdf: PositiveReal, samplePosition: Point2 -> SurfacePoint)

  /** What a luminaire is attached to: a mesh, or some other object */
  datatype Parent = MeshParent(mesh: Mesh) | OtherParent

  /** An area luminaire with a constant colour (`Luminaire::getColor`) */
  datatype Luminaire = Luminaire(parent: Parent, color: Color3)

  /** A ray segment from `o` along unit direction `d`, up to distance `maxt` */
  datatype ShadowRay = ShadowRay(o: Vec3, d: Vec3, maxt: real)

  /**
    `occluded` answers `Scene::rayIntersect(ray)` for shadow rays;
    `transmittance` answers `Scene::evalTransmittance`.
   */
  datatype Scene = Scene(
    luminaires: seq<Luminaire>,
    hasEnvLuminaire: bool,
    occluded: ShadowRay -> bool,
    transmittance: ShadowRay -> Color3)

  /** The two `NoriException`s the integrator can raise */
  datatype RenderError = NoLuminaires | UnhandledLuminaire

  datatype Result<+T> = Success(value: T) | Failure(error: RenderError) {
    predicate IsFailure() {
      Failure?
    }

    function PropagateFailure<U>(): Result<U>
      requires Failure?
    {
      Failure(error)
    }

    function Extract(): T
      requires Success?
    {
      value
    }
  }

  /**
    `PathTracer::getMesh`: the mesh a luminaire is attached to; any other
    kind of parent is an unhandled luminaire.
   */
  function GetMesh(lum: Luminaire): (r: Result<Mesh>)
    ensures r.Success? <==> lum.parent.MeshParent?
    ensures r.Success? ==> r.value == lum.parent.mesh
    ensures r.Failure? ==> r.error == UnhandledLuminaire
  {
    match lum.parent
    case MeshParent(mesh) => Success(mesh)
    case OtherParent => Failure(UnhandledLuminaire)
  }
}
