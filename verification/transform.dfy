/**
 Transforms (`src/transform.rs`). The source leaves `inverse`, `transform` and
 `transform_ray` unimplemented, so the model keeps them abstract: a value of
 `TransformOps` supplies all three, and nothing is assumed about them unless a
 lemma states it as a hypothesis.
 */
module Transforms {
  import opened Vectors
  import opened Rays

  datatype Transform =
    | Scale(factors: Vector3)
    | Translate(delta: Vector3)
    | Rotate(axis: Vector3, angle: real)

  datatype TransformOps = TransformOps(
    inverse: Transform -> Transform,
    transform: (Transform, Vector3) -> Vector3,
    transformRay: (Transform, Ray) -> Ray)

  /** Each transform's inverse undoes it on points. */
  ghost predicate InverseUndoes(ops: TransformOps) {
    forall t, p :: ops.transform(t, ops.transform(ops.inverse(t), p)) == p
  }

  /** A transformed ray starts at the transformed origin. */
  ghost predicate RayOriginFollowsPoints(ops: TransformOps) {
    forall t, r :: ops.transformRay(t, r).origin == ops.transform(t, r.origin)
  }
}
