/**
 The scene (`src/lib.rs`, module `scene`): the closest intersection along a ray
 and the recursive radiance sample that hands the hit to the object's material.
 */
module Scenes {
  import opened Options
  import opened Vectors
  import opened Rays
  import opened Materials
  import opened Objects
  import opened Selection

  datatype Scene = Scene(camera: Camera, objects: seq<Object>)

  /**
   `Material::lighting(view, position, normal, scene, bounces)`. The source
   leaves it unimplemented (its intended estimator is stochastic), so it is a
   parameter of the operations that call it.
   */
  type Lighting = (Material, Vector3, Vector3, Option<Vector3>, Scene, nat) -> Vector3

  /** Each object's own intersection result, in list order. */
  function ObjectHits(prims: Primitives, scene: Scene, ray: Ray): (hits: seq<Option<(real, WorldIntersection)>>)
    ensures |hits| == |scene.objects|
    ensures forall k :: 0 <= k < |hits| ==> hits[k] == Intersect(prims, scene.objects[k], ray)
  {
    seq(|scene.objects|, k requires 0 <= k < |scene.objects| => Intersect(prims, scene.objects[k], ray))
  }

  /** The object reports a hit strictly beyond `tmin`. */
  predicate HitsBeyond(prims: Primitives, obj: Object, ray: Ray, tmin: real) {
    var h := Intersect(prims, obj, ray);
    h.Some? && h.value.0 > tmin
  }

  /**
   `Scene::closest_intersection`: the nearest hit beyond `tmin`, earliest object
   on ties. The object reference of the source is its index in the list.
   */
  function ClosestIntersection(prims: Primitives, scene: Scene, ray: Ray, tmin: real): (r: Option<Pick<WorldIntersection>>)
    ensures r.None? <==> forall k :: 0 <= k < |scene.objects| ==> !HitsBeyond(prims, scene.objects[k], ray, tmin)
    ensures r.Some? ==>
      && r.value.index < |scene.objects|
      && Intersect(prims, scene.objects[r.value.index], ray) == Some((r.value.t, r.value.hit))
      && r.value.t > tmin
      && (forall k :: 0 <= k < |scene.objects| && HitsBeyond(prims, scene.objects[k], ray, tmin) ==>
            r.value.t <= Intersect(prims, scene.objects[k], ray).value.0)
      && (forall k :: 0 <= k < r.value.index && HitsBeyond(prims, scene.objects[k], ray, tmin) ==>
            r.value.t < Intersect(prims, scene.objects[k], ray).value.0)
  {
    var hits := ObjectHits(prims, scene, ray);
    assert forall k :: 0 <= k < |hits| ==> (Qualifies(hits, tmin, k) <==> HitsBeyond(prims, scene.objects[k], ray, tmin));
    Select(hits, tmin)
  }

  /**
   `Scene::sample`: black once the bounce budget is spent or when nothing is
   hit; otherwise the hit object's material lights the hit point, seen from the
   reversed ray direction, with one bounce fewer.
   */
  function Sample(prims: Primitives, lighting: Lighting, scene: Scene, ray: Ray, tmin: real, bounces: nat): (c: Vector3)
    ensures bounces == 0 ==> c == Zeros()
    ensures bounces > 0 && ClosestIntersection(prims, scene, ray, tmin).None? ==> c == Zeros()
    ensures bounces > 0 && ClosestIntersection(prims, scene, ray, tmin).Some? ==>
      var p := ClosestIntersection(prims, scene, ray, tmin).value;
      c == lighting(scene.objects[p.index].material, Neg(ray.direction), p.hit.position, p.hit.normal, scene, bounces - 1)
  {
    if bounces == 0 then Zeros()
    else
      match ClosestIntersection(prims, scene, ray, tmin)
      case Some(p) =>
        lighting(scene.objects[p.index].material, Neg(ray.direction), p.hit.position, p.hit.normal, scene, bounces - 1)
      case None => Zeros()
  }

  /** A sample is black unless the bounce budget remains and some object is hit beyond `tmin`. */
  lemma SampleBlackWithoutHit(prims: Primitives, lighting: Lighting, scene: Scene, ray: Ray, tmin: real, bounces: nat)
    requires bounces == 0 || forall k :: 0 <= k < |scene.objects| ==> !HitsBeyond(prims, scene.objects[k], ray, tmin)
    ensures Sample(prims, lighting, scene, ray, tmin, bounces) == Zeros()
  {
  }

  /** A scene without objects samples black along every ray. */
  lemma EmptySceneSamplesBlack(prims: Primitives, lighting: Lighting, scene: Scene, ray: Ray, tmin: real, bounces: nat)
    requires |scene.objects| == 0
    ensures Sample(prims, lighting, scene, ray, tmin, bounces) == Zeros()
  {
  }

  /**
   When one object is hit beyond `tmin` strictly nearer than every other
   object hit beyond `tmin`, a sample with bounces left is that object's
   material lighting its hit.
   */
  lemma SampleLightsNearestObject(prims: Primitives, lighting: Lighting, scene: Scene, ray: Ray,
                                  tmin: real, bounces: nat, k: nat)
    requires bounces > 0
    requires k < |scene.objects| && HitsBeyond(prims, scene.objects[k], ray, tmin)
    requires forall j :: 0 <= j < |scene.objects| && j != k && HitsBeyond(prims, scene.objects[j], ray, tmin) ==>
      Intersect(prims, scene.objects[k], ray).value.0 < Intersect(prims, scene.objects[j], ray).value.0
    ensures var hit := Intersect(prims, scene.objects[k], ray).value.1;
      Sample(prims, lighting, scene, ray, tmin, bounces) ==
        lighting(scene.objects[k].material, Neg(ray.direction), hit.position, hit.normal, scene, bounces - 1)
  {
    var r := ClosestIntersection(prims, scene, ray, tmin);
    assert r.Some?;
    if r.value.index != k {
      assert HitsBeyond(prims, scene.objects[r.value.index], ray, tmin);
      assert false;
    }
  }
}
