/**
 Surface materials (`src/material.rs`). Their lighting estimator is not
 implemented in the source and is a parameter of the scene operations.
 */
module Materials {
  import opened Vectors

  datatype Material =
    | Emissive(color: Vector3, intensity: real)
    | Diffuse(color: Vector3)
    | Specular(color: Vector3, roughness: real)
}
