/** Rays and the pinhole camera that produces primary rays (`src/lib.rs`). */
module Rays {
  import opened Vectors

  /** A ray; the direction need not have unit length. */
  datatype Ray = Ray(origin: Vector3, direction: Vector3)

  /** The point `origin + direction * t` along the ray. */
  function At(ray: Ray, t: real): Vector3 {
    Add(ray.origin, MulScalar(ray.direction, t))
  }

  /** At parameter zero the ray is at its origin. */
  lemma AtZeroIsOrigin(ray: Ray)
    ensures At(ray, 0.0) == ray.origin
  {
  }

  /** The displacement from the origin is the direction scaled by `t`. */
  lemma AtDisplacement(ray: Ray, t: real)
    ensures Sub(At(ray, t), ray.origin) == MulScalar(ray.direction, t)
  {
  }

  /** Walking `s` then `t` along the same direction is walking `s + t`. */
  lemma AtComposes(ray: Ray, s: real, t: real)
    ensures At(Ray(At(ray, s), ray.direction), t) == At(ray, s + t)
  {
    var d := ray.direction;
    assert d.x * s + d.x * t == d.x * (s + t);
    assert d.y * s + d.y * t == d.y * (s + t);
    assert d.z * s + d.z * t == d.z * (s + t);
  }

  /** A pinhole camera at the origin looking down +z. */
  datatype Camera = Camera(focalLen: real, width: real)

  /**
   The primary ray for pixel `(x, y)` of an `xres` by `yres` image. The
   direction (`Vector3::unit` of the pixel's offset on the image plane) is
   float arithmetic this model does not interpret; `aim` supplies it.
   */
  function CameraRay(camera: Camera, x: nat, y: nat, xres: nat, yres: nat,
                     aim: (Camera, nat, nat, nat, nat) -> Vector3): (r: Ray)
    ensures r.origin == Zeros()
    ensures r.direction == aim(camera, x, y, xres, yres)
  {
    Ray(Zeros(), aim(camera, x, y, xres, yres))
  }
}
