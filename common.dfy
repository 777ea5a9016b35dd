/** Small value types shared by every component of the model. */
module Common {

  /** A possibly missing value; stands for a C# reference that may be null
      when the referenced thing is a plain value in this model. */
  datatype Option<+T> = Nothing | Some(value: T)

  /** A 2D vector (Rigidbody2D velocities). */
  datatype Vec2 = Vec2(x: real, y: real)

  /** A 3D vector (Transform positions). */
  datatype Vec3 = Vec3(x: real, y: real, z: real)

  const ZeroVelocity: Vec2 := Vec2(0.0, 0.0)

  /** Identity of a Transform in the scene hierarchy. */
  type TransformId = nat

  /** A physics layer index 0..31; Unity has 32 layers, so five bits hold one. */
  type Layer = bv5

  function Min(a: int, b: int): int { if a <= b then a else b }

  function MinReal(a: real, b: real): real { if a <= b then a else b }

  function MaxReal(a: real, b: real): real { if a >= b then a else b }
}
