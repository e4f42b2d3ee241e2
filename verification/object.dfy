/**
 Objects (`src/object.rs`): a canonical shape placed in the world by an ordered
 list of transforms. A world ray is taken into the shape's local space through
 the inverse transforms, last transform first; the local hit is brought back to
 world space through the transforms, first transform first. Normals follow
 their own per-variant rule and are renormalized.
 */
module Objects {
  import opened Options
  import opened Folds
  import opened Vectors
  import opened Rays
  import opened Transforms
  import opened Materials

  /** Unit-sized shapes centred at the local origin. */
  datatype Shape = Sphere | Plane

  /** A hit point and normal as a shape reports them, in its local space. */
  datatype Intersection = Intersection(position: Vector3, normal: Vector3)

  /**
   A hit point and normal in world space. The normal is `None` when
   renormalizing it divided by a zero norm, which yields NaN components in f32.
   */
  datatype WorldIntersection = WorldIntersection(position: Vector3, normal: Option<Vector3>)

  datatype Object = Object(shape: Shape, material: Material, transforms: seq<Transform>)

  /**
   What the object code calls but the model does not interpret: square root,
   the transform operations and `Shape::intersection`, which the source leaves
   unimplemented.
   */
  datatype Primitives = Primitives(
    sqrt: real -> real,
    ops: TransformOps,
    shapeIntersection: (Shape, Ray) -> Option<(real, Intersection)>)

  // World to local: fold over the reversed list, applying each inverse

  function LocalStep(ops: TransformOps): (Ray, Transform) -> Ray {
    (r: Ray, t: Transform) => ops.transformRay(ops.inverse(t), r)
  }

  /** The world ray taken to local space: the inverse of each transform applied to it, last transform first. */
  function ToLocal(ops: TransformOps, ts: seq<Transform>, ray: Ray): Ray {
    FoldLeft(LocalStep(ops), ray, Reverse(ts))
  }

  /** The composition T1⁻¹(T2⁻¹(… Tn⁻¹(ray))), written out from the front of the list. */
  function InverseChain(ops: TransformOps, ts: seq<Transform>, ray: Ray): Ray
    decreases |ts|
  {
    if |ts| == 0 then ray
    else ops.transformRay(ops.inverse(ts[0]), InverseChain(ops, ts[1..], ray))
  }

  lemma {:induction false} ToLocalIsInverseChain(ops: TransformOps, ts: seq<Transform>, ray: Ray)
    ensures ToLocal(ops, ts, ray) == InverseChain(ops, ts, ray)
    decreases |ts|
  {
    if |ts| > 0 {
      assert Reverse(ts) == Reverse(ts[1..]) + [ts[0]];
      FoldLeftSnoc(LocalStep(ops), ray, Reverse(ts[1..]), ts[0]);
      ToLocalIsInverseChain(ops, ts[1..], ray);
    }
  }

  /** The inverse of the last transform is the first one applied to the world ray. */
  lemma LastInverseAppliedFirst(ops: TransformOps, ts: seq<Transform>, t: Transform, ray: Ray)
    ensures ToLocal(ops, ts + [t], ray) == ToLocal(ops, ts, ops.transformRay(ops.inverse(t), ray))
  {
    ReverseSnoc(ts, t);
    assert ([t] + Reverse(ts))[1..] == Reverse(ts);
  }

  // Local to world: fold over the list in declaration order

  function WorldStep(ops: TransformOps): (Vector3, Transform) -> Vector3 {
    (p: Vector3, t: Transform) => ops.transform(t, p)
  }

  /** A local point taken to world space: each transform applied to it, first transform first. */
  function ToWorld(ops: TransformOps, ts: seq<Transform>, p: Vector3): Vector3 {
    FoldLeft(WorldStep(ops), p, ts)
  }

  /** The composition Tn(… T2(T1(p))), written out from the back of the list. */
  function ForwardChain(ops: TransformOps, ts: seq<Transform>, p: Vector3): Vector3
    decreases |ts|
  {
    if |ts| == 0 then p
    else ops.transform(ts[|ts| - 1], ForwardChain(ops, ts[..|ts| - 1], p))
  }

  lemma {:induction false} ToWorldIsForwardChain(ops: TransformOps, ts: seq<Transform>, p: Vector3)
    ensures ToWorld(ops, ts, p) == ForwardChain(ops, ts, p)
    decreases |ts|
  {
    if |ts| > 0 {
      var init, last := ts[..|ts| - 1], ts[|ts| - 1];
      assert ts == init + [last];
      FoldLeftSnoc(WorldStep(ops), p, init, last);
      ToWorldIsForwardChain(ops, init, p);
    }
  }

  /**
   If each inverse undoes its transform on points, and a transformed ray starts
   at the transformed origin, then bringing the local ray's origin back to
   world space returns the world ray's origin: the two fold orders match.
   */
  lemma LocalOriginMapsBack(ops: TransformOps, ts: seq<Transform>, ray: Ray)
    requires InverseUndoes(ops) && RayOriginFollowsPoints(ops)
    ensures ToWorld(ops, ts, ToLocal(ops, ts, ray).origin) == ray.origin
  {
    ToLocalIsInverseChain(ops, ts, ray);
    InverseChainOriginMapsBack(ops, ts, ray);
  }

  lemma {:induction false} InverseChainOriginMapsBack(ops: TransformOps, ts: seq<Transform>, ray: Ray)
    requires InverseUndoes(ops) && RayOriginFollowsPoints(ops)
    ensures ToWorld(ops, ts, InverseChain(ops, ts, ray).origin) == ray.origin
    decreases |ts|
  {
    if |ts| > 0 {
      var t, inner := ts[0], InverseChain(ops, ts[1..], ray);
      calc {
        ToWorld(ops, ts, InverseChain(ops, ts, ray).origin);
        ToWorld(ops, ts[1..], ops.transform(t, ops.transformRay(ops.inverse(t), inner).origin));
        ToWorld(ops, ts[1..], ops.transform(t, ops.transform(ops.inverse(t), inner.origin)));
        ToWorld(ops, ts[1..], inner.origin);
        { InverseChainOriginMapsBack(ops, ts[1..], ray); }
        ray.origin;
      }
    }
  }

  // Normals: a per-variant rule in declaration order, then renormalization

  /** Translation leaves a normal alone, rotation rotates it, scaling applies the inverse scale. */
  function NormalStep(ops: TransformOps, n: Vector3, t: Transform): Vector3 {
    match t
    case Translate(_) => n
    case Rotate(_, _) => ops.transform(t, n)
    case Scale(_) => ops.transform(ops.inverse(t), n)
  }

  function NormalStepFn(ops: TransformOps): (Vector3, Transform) -> Vector3 {
    (n: Vector3, t: Transform) => NormalStep(ops, n, t)
  }

  /** The normal fold of `Object::intersection`, before renormalization. */
  function NormalFold(ops: TransformOps, ts: seq<Transform>, n: Vector3): Vector3 {
    FoldLeft(NormalStepFn(ops), n, ts)
  }

  /** Appending a transform applies its variant's normal rule after all earlier ones. */
  lemma NormalFoldLastStep(ops: TransformOps, ts: seq<Transform>, t: Transform, n: Vector3)
    ensures NormalFold(ops, ts + [t], n) ==
      match t
      case Translate(_) => NormalFold(ops, ts, n)
      case Rotate(_, _) => ops.transform(t, NormalFold(ops, ts, n))
      case Scale(_) => ops.transform(ops.inverse(t), NormalFold(ops, ts, n))
  {
    FoldLeftSnoc(NormalStepFn(ops), n, ts, t);
  }

  /** Translations alone never change a normal. */
  lemma {:induction false} TranslationsKeepNormal(ops: TransformOps, ts: seq<Transform>, n: Vector3)
    requires forall i :: 0 <= i < |ts| ==> ts[i].Translate?
    ensures NormalFold(ops, ts, n) == n
    decreases |ts|
  {
    if |ts| > 0 {
      var init := ts[..|ts| - 1];
      assert ts == init + [ts[|ts| - 1]];
      NormalFoldLastStep(ops, init, ts[|ts| - 1], n);
      TranslationsKeepNormal(ops, init, n);
    }
  }

  // Object::intersection

  /**
   Intersects a world ray with the object: a miss of the shape in local space
   is a miss; a hit keeps the shape's `t` and maps position and normal back.
   */
  function Intersect(prims: Primitives, obj: Object, ray: Ray): (r: Option<(real, WorldIntersection)>)
    ensures var local := prims.shapeIntersection(obj.shape, InverseChain(prims.ops, obj.transforms, ray));
      && (r.None? <==> local.None?)
      && (r.Some? ==>
            && r.value.0 == local.value.0
            && r.value.1.position == ForwardChain(prims.ops, obj.transforms, local.value.1.position)
            && r.value.1.normal == Normalized(NormalFold(prims.ops, obj.transforms, local.value.1.normal), prims.sqrt))
  {
    ToLocalIsInverseChain(prims.ops, obj.transforms, ray);
    match prims.shapeIntersection(obj.shape, ToLocal(prims.ops, obj.transforms, ray))
    case None => None
    case Some((t, local)) =>
      ToWorldIsForwardChain(prims.ops, obj.transforms, local.position);
      var position := ToWorld(prims.ops, obj.transforms, local.position);
      var normal := Normalized(NormalFold(prims.ops, obj.transforms, local.normal), prims.sqrt);
      Some((t, WorldIntersection(position, normal)))
  }

  /** With no transforms the shape sees the world ray and its hit is reported unchanged, normal renormalized. */
  lemma IntersectWithoutTransforms(prims: Primitives, shape: Shape, material: Material, ray: Ray)
    ensures Intersect(prims, Object(shape, material, []), ray) ==
      match prims.shapeIntersection(shape, ray)
      case None => None
      case Some((t, local)) =>
        Some((t, WorldIntersection(local.position, Normalized(local.normal, prims.sqrt))))
  {
    var ops := prims.ops;
    assert ToLocal(ops, [], ray) == ray;
    assert forall p :: ToWorld(ops, [], p) == p;
    assert forall n :: NormalFold(ops, [], n) == n;
  }
}
