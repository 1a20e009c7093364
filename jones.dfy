/** Jones calculus as the forward projector sees it: 2x2 complex matrices with an identity,
    and the polarisation routines of the Jones library, which this model does not define.
    Those routines are passed in as a `Physics` record of functions and stay uninterpreted. */
module Jones {
  import opened Common

  datatype Complex = Complex(re: real, im: real)

  /** A 2x2 complex matrix [[m00, m01], [m10, m11]]. */
  datatype JonesMatrix = JonesMatrix(m00: Complex, m01: Complex, m10: Complex, m11: Complex)

  const Identity: JonesMatrix :=
    JonesMatrix(Complex(1.0, 0.0), Complex(0.0, 0.0), Complex(0.0, 0.0), Complex(1.0, 0.0))

  /** The three vectors that calc_rayDir yields for one ray: its direction and the two
      normalised directions perpendicular to it. */
  datatype RayBasis = RayBasis(dir: Vec3, perp1: Vec3, perp2: Vec3)

  /** The voxel a ray segment crosses, as (z, y, x) indices into the volume. */
  datatype VoxelIndex = VoxelIndex(z: int, y: int, x: int)

  /** The Jones-library routines the projector calls. The batched library calls act
      element by element except `rayJM`, which combines the whole ragged step list.
      - calcRayDir: the basis of one ray from its direction (calc_rayDir);
      - voxRayJM: the matrix of one voxel segment from its birefringence, optic axis,
        ray basis and path length (voxRayJM);
      - rayJM: the effective matrices of all rays from the per-step batches and the
        rays' voxel lists (rayJM);
      - retardance, azimuth: the two observables of one effective matrix
        (calc_retardance, calc_azimuth). */
  datatype Physics = Physics(
    calcRayDir: Vec3 -> RayBasis,
    voxRayJM: (real, Vec3, RayBasis, real) -> JonesMatrix,
    rayJM: (seq<seq<JonesMatrix>>, seq<seq<VoxelIndex>>) -> seq<JonesMatrix>,
    retardance: JonesMatrix -> real,
    azimuth: JonesMatrix -> real)
}
