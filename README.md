# Birefringent forward projector: ray and volume bookkeeping

This project models the integer-indexed, structural core of `BirefringentRaytraceLFM`, the
forward projector of a light-field microscope that images a birefringent volume through a
micro-lens array (MLA). It proves properties of that model. The modelled parts are:

- **The tiler.** `ray_trace_through_volume` first checks that the micro-lens footprint fits
  in the volume. It then visits every micro-lens `(ml_ii, ml_jj)` of the symmetric range
  `[-h, h]²`, where `h = floor(n_micro_lenses / 2)`. For each one it computes the voxel
  offset and asks `ret_and_azim_images` for one retardance tile and one azimuth tile. It
  builds each column of tiles with `torch.cat(·, 0)` and joins the columns with
  `torch.cat(·, 1)`.
- **The per-tile images.** `ret_and_azim_images` moves the offset to the volume centre. It
  computes the effective Jones matrix of every ray and writes each ray's retardance and
  azimuth to that ray's pixel of two zero images.
- **The accumulator.** For each collision step `m`, `calc_cummulative_JM_of_ray` selects the
  rays that still cross a voxel. It gathers those voxels' parameters at the micro-lens
  offset and builds one Jones matrix per selected ray: the identity, unless the voxel's
  `Delta_n` is non-zero. The per-step batches form `JM_list`, which the Jones library's
  `rayJM` combines.
- **The deterministic volume presets.** These are `init_volume`'s dispatch on the mode name,
  the single-plane volume of `generate_planes_volume`, and the ellipsoid volume of
  `generate_ellipsoid_volume`.

Modules:

- `Common`: options, results, the errors raised, 3-vectors, and Python/torch index
  resolution.
- `Jones`: Jones matrices, the identity, and the uninterpreted Jones-library routines as a
  `Physics` record of functions.
- `Images`: 2-D images and the two concatenations.
- `Volumes`: the four-channel `voxel_parameters` tensor.
- `Accumulator`: `calc_cummulative_JM_of_ray`.
- `Tiler`: `ret_and_azim_images` and `ray_trace_through_volume`.
- `Presets`: `init_volume`, `generate_planes_volume` and `generate_ellipsoid_volume`.

Each loop or in-place write of the source is modelled by a method proved against a
specification function. Those functions' properties are then proved as lemmas:

- `CumulativeJM` and `StepJM` for the step loop and its masked write;
- `RetAndAzimImages` for the pixel writes;
- `TileColumn` and `RayTraceThroughVolume` for the two nested loops;
- `GeneratePlanesVolume` and `GenerateEllipsoidVolume` for the slice assignments.

Python's exceptions are the `Failure` side of a `Result`:

- `NoMicroLensFits` is the failed footprint assertion;
- `IndexOutOfRange` is an `IndexError` of list or tensor indexing;
- `InvalidPlaneCount` is the `ValueError` of `int()` on a mode name.

Where the code and its documentation disagree, the model follows the code:

- The footprint check compares only against `voxel_parameters.shape[2:][0]`, the y extent
  `Dy`. The z and x extents are not checked.
- An `init_mode` that matches no branch raises no error. The volume keeps the parameters
  it already holds.
- The ellipsoid mask `|k²/r0² + j²/r1² + i²/r2² - alpha| <= 1` is not a thin shell. It is 1
  for every voxel whose border value lies in `[alpha - 1, alpha + 1]`. With the code's
  alpha = 0.1 this is the whole interior plus a band outside it, up to a border value of 1.1.
- With an even `n_micro_lenses` the loops run over `2h + 1 = n_micro_lenses + 1` micro-lenses
  per side, while the footprint check uses `n_micro_lenses`. The model follows the loops:
  the mosaic has `Tracer.Side() = 2h + 1` tiles per side (`Tiler.SideOfCount`).
- An index a little below 0 raises no IndexError. Torch wraps it to the far edge, whether it
  is a shifted voxel index in `[-n, 0)` or a ray pixel index in `[-p, 0)`. Only indices
  outside `[-n, n)` fail. The model resolves indices the same way (`Common.PyIndex`), so an
  access just below the low edge is silently read or written at the high edge.
- `'0planes'` gives an all-zero volume, because the loop over planes is empty.
- The ellipsoid's axis channels are 0 wherever its channel 0 is 0 only when `delta_n` is
  non-zero. With `delta_n = 0` channel 0 is 0 everywhere, while the axis still holds the
  normal on the mask.
- The ellipsoid's centre voxel `floor(center * size)` has a zero normal, so its optic axis is
  (0, 0, 0). Its border value is 0, and with the code's alpha = 0.1 it lies on the mask, so
  channel 0 holds `delta_n` there. A volume is expected to hold a unit optic axis wherever
  its birefringence is non-zero, but this voxel is birefringent with a zero axis, and the
  accumulator passes it to `voxRayJM` (`Presets.EllipsoidCentreBirefringent`,
  `Presets.InitEllipsoidCentre`).
- The outer loop's comment calls `ml_ii` the y direction, and `ml_ii` does shift the y index
  of every gathered voxel. Its tiles, however, are laid out along image dim 1, the columns:
  block `(ml_ii + h, ml_jj + h)` sits at column block `ml_ii + h` and row block `ml_jj + h`
  (`Tiler.StripOfPixel`).

## Model

| member | source | states |
|---|---|---|
| Common.PyIndex | VolumeRaytraceLFM/birefringence_implementations.py:103 | an index resolves exactly when it lies in [-n, n); a non-negative index is itself and a negative one counts from the end |
| Accumulator.ActiveRaysExact | VolumeRaytraceLFM/birefringence_implementations.py:94-96 | rays_with_voxels selects exactly the rays whose voxel list is longer than m, in strictly increasing ray order, so n_rays_with_voxels is the size of that set |
| Accumulator.FinishedRayDropsOut | VolumeRaytraceLFM/birefringence_implementations.py:94 | a ray with at most m voxels takes no part in step m |
| Accumulator.StepVoxels | VolumeRaytraceLFM/birefringence_implementations.py:100 | vox holds one voxel per selected ray |
| Accumulator.Gather | VolumeRaytraceLFM/birefringence_implementations.py:103 | the gather succeeds exactly when every shifted index resolves (lies in [-n, n) on its axis, a negative one wrapping to the far edge), and it then yields one parameter record per voxel |
| Accumulator.GatherAddress | VolumeRaytraceLFM/birefringence_implementations.py:103 | the k-th gathered record is voxel_parameters[:, v[0], v[1]+off[0], v[2]+off[1]] of the k-th selected ray's m-th voxel v; z is never shifted |
| Accumulator.OffsetMovesOnlyYX | VolumeRaytraceLFM/birefringence_implementations.py:103 | gathering at an offset is gathering the voxel moved by that offset in y and x only |
| Accumulator.JMList | VolumeRaytraceLFM/birefringence_implementations.py:92-131 | JM_list has one batch per column of ray_vol_colli_lengths |
| Accumulator.JMListShape | VolumeRaytraceLFM/birefringence_implementations.py:92-131 | entry m of JM_list has one matrix per ray with more than m voxels, in ray order; a matrix is the identity when the gathered Delta_n is 0 and otherwise voxRayJM with that ray's own direction basis and path length |
| Accumulator.AllZeroStepIsIdentity | VolumeRaytraceLFM/birefringence_implementations.py:106-108 | when every gathered parameter of a step is zero, the whole batch is the identity |
| Accumulator.ZeroVolumeIsIdentity | VolumeRaytraceLFM/birefringence_implementations.py:106-131 | on an all-zero volume every matrix of every step is the identity |
| Accumulator.BatchIsStepBatch | VolumeRaytraceLFM/birefringence_implementations.py:106-127 | a batch that holds the step's segment matrix for every selected ray is that step's batch |
| Accumulator.StepJM | VolumeRaytraceLFM/birefringence_implementations.py:106-127 | the identity batch with its Delta_n != 0 entries overwritten by voxRayJM is the step's batch |
| Accumulator.CumulativeJM | VolumeRaytraceLFM/birefringence_implementations.py:75-136 | the step loop returns rayJM of the full JM_list, or IndexError when some step's gather has a shifted index that does not resolve |
| Accumulator.ActiveRays | VolumeRaytraceLFM/birefringence_implementations.py:94 | rays_with_voxels as the list of indices of rays with more than m voxels; every entry is such a ray |
| Accumulator.Address | VolumeRaytraceLFM/birefringence_implementations.py:103 | the gather address of voxel v at an offset: z unshifted, y + offset[0] and x + offset[1], each resolved as torch resolves an index |
| Accumulator.SegmentJM | VolumeRaytraceLFM/birefringence_implementations.py:106-127 | one ray's matrix for step m: voxRayJM with that ray's direction basis and path length when Delta_n is non-zero, and the identity otherwise |
| Accumulator.StepBatch | VolumeRaytraceLFM/birefringence_implementations.py:106-127 | step m's JM batch: one segment matrix per selected ray in ray order, or IndexError when the gather has an unresolvable index |
| Accumulator.EffectiveJM | VolumeRaytraceLFM/birefringence_implementations.py:135 | effective_JM is rayJM of the whole JM_list, or IndexError when some step's gather fails |
| Tiler.Observe | VolumeRaytraceLFM/birefringence_implementations.py:154-155 | retardance and azimuth hold one value per effective matrix, computed element by element |
| Tiler.LastWriter | VolumeRaytraceLFM/birefringence_implementations.py:159-161 | the last writer of a pixel is the highest-numbered ray whose pixel resolves to it; no later ray writes there, and there is none when no ray does |
| Tiler.ScatterDefined | VolumeRaytraceLFM/birefringence_implementations.py:159-161 | the pixel writes succeed exactly when every ray has a value and a pixel whose indices resolve in the p-by-p image (lie in [-p, p), a negative one wrapping to the far edge) |
| Tiler.ScatterStep | VolumeRaytraceLFM/birefringence_implementations.py:160 | one more ray's write changes exactly that ray's pixel of the image built so far |
| Tiler.ScatterPixel | VolumeRaytraceLFM/birefringence_implementations.py:148-161 | after the writes each pixel holds the value of its last writer, and a pixel no ray names keeps its 0 |
| Tiler.TileImages | VolumeRaytraceLFM/birefringence_implementations.py:141-162 | a tile is a pair of p-by-p images, and its only failure is IndexError |
| Tiler.TileFromFailure | VolumeRaytraceLFM/birefringence_implementations.py:152 | when the accumulator fails, the tile fails with the same error |
| Tiler.TileFailsAtWrite | VolumeRaytraceLFM/birefringence_implementations.py:159-161 | a single write whose pixel index does not resolve, or a ray without a value, makes the whole tile fail |
| Tiler.TileContents | VolumeRaytraceLFM/birefringence_implementations.py:141-162 | a tile exists exactly when every gather resolves its shifted indices and every ray's write is possible; then pixel (i, j) of the two images holds retardance and azimuth of the last ray written there, and 0 where no ray writes |
| Tiler.ToImage | VolumeRaytraceLFM/birefringence_implementations.py:148-149 | the image of a pixel buffer has its shape and its pixels |
| Tiler.NewZeroImage | VolumeRaytraceLFM/birefringence_implementations.py:148-149 | torch.zeros((p, p)) is a fresh p-by-p buffer whose image is all zero |
| Tiler.WritePixel | VolumeRaytraceLFM/birefringence_implementations.py:160-161 | writing one pixel changes that pixel of the image and nothing else |
| Tiler.RetAndAzimImages | VolumeRaytraceLFM/birefringence_implementations.py:138-162 | ret_and_azim_images traces at offset + vox_ctr_idx[1:] - h and its pixel loop produces exactly TileImages |
| Tiler.TileAtIsTileTable | VolumeRaytraceLFM/birefringence_implementations.py:57-59 | the table of per-micro-lens results is a tile table: it agrees with ret_and_azim_images and its tiles are p by p |
| Tiler.TableEntry | VolumeRaytraceLFM/birefringence_implementations.py:57-59 | the entry of block (ml_ii + h, ml_jj + h) is ret_and_azim_images at offset [n_voxels_per_ml*ml_ii, n_voxels_per_ml*ml_jj] |
| Tiler.MicroLensTile | VolumeRaytraceLFM/birefringence_implementations.py:57-59 | the call for micro-lens (ml_ii, ml_jj) yields the table entry of its block, and its only failure is IndexError |
| Tiler.SideOfCount | VolumeRaytraceLFM/birefringence_implementations.py:38-56 | the loops visit n_micro_lenses micro-lenses per side for an odd count and n_micro_lenses + 1 for an even one |
| Tiler.ColumnOkExtend | VolumeRaytraceLFM/birefringence_implementations.py:56-59 | one more successful tile extends a successful column prefix |
| Tiler.ColumnOkFails | VolumeRaytraceLFM/birefringence_implementations.py:56-59 | one failing tile makes every column prefix containing it fail |
| Tiler.TileValue | VolumeRaytraceLFM/birefringence_implementations.py:59 | every tile of a shaped table is a pair of p-by-p images |
| Tiler.ColumnOf | VolumeRaytraceLFM/birefringence_implementations.py:61-66 | n tiles stacked along dim 0 have n*p rows |
| Tiler.StripOf | VolumeRaytraceLFM/birefringence_implementations.py:67-72 | column blocks joined along dim 1 keep k*p rows |
| Tiler.ColumnOfShape | VolumeRaytraceLFM/birefringence_implementations.py:61-66 | n tiles stacked along dim 0 form an (n*p)-by-p image |
| Tiler.ColumnOfAt | VolumeRaytraceLFM/birefringence_implementations.py:61-66 | row a of the bj-th tile of a column is row bj*p + a of the column |
| Tiler.StripOfShape | VolumeRaytraceLFM/birefringence_implementations.py:67-72 | n column blocks joined along dim 1 form a (k*p)-by-(n*p) image |
| Tiler.StripOfAt | VolumeRaytraceLFM/birefringence_implementations.py:67-72 | column b of column block bi is column bi*p + b of the joined image |
| Tiler.StripOfPixel | VolumeRaytraceLFM/birefringence_implementations.py:61-73 | the output is (k*p)-by-(k*p), and pixel (a, b) of block (bi, bj) lies at row bj*p + a and column bi*p + b: row block ml_jj + h, column block ml_ii + h |
| Tiler.StripPairPixel | VolumeRaytraceLFM/birefringence_implementations.py:61-73 | both output images hold each successful block's tile at row block bj and column block bi |
| Tiler.RowPairsUpToStep | VolumeRaytraceLFM/birefringence_implementations.py:56 | one more inner-loop iteration appends (ml_ii, ml_jj) to the visited micro-lenses |
| Tiler.RowPairsUpToExact | VolumeRaytraceLFM/birefringence_implementations.py:56 | the inner loop visits ml_jj = -h .. h, each once and in increasing order |
| Tiler.PairsUpToStep | VolumeRaytraceLFM/birefringence_implementations.py:52-56 | one more outer-loop iteration appends a whole row of micro-lenses |
| Tiler.PairsUpToRange | VolumeRaytraceLFM/birefringence_implementations.py:38-56 | the first n rows hold n*(2h+1) micro-lenses, all inside the range the loops cover so far |
| Tiler.PairsUpToCovers | VolumeRaytraceLFM/birefringence_implementations.py:52-56 | every micro-lens of the first n rows is visited |
| Tiler.PairsUpToSorted | VolumeRaytraceLFM/birefringence_implementations.py:52-56 | the visits are in strictly increasing row-major order with ml_ii outer |
| Tiler.GridPairsOrder | VolumeRaytraceLFM/birefringence_implementations.py:38-56 | the loops visit (2h+1)² micro-lenses, exactly the pairs of [-h, h]², each once and in row-major order with ml_ii outer |
| Tiler.ExtendColumn | VolumeRaytraceLFM/birefringence_implementations.py:61-66 | one inner step turns the first bj tiles of a column into the first bj + 1 tiles |
| Tiler.TileColumn | VolumeRaytraceLFM/birefringence_implementations.py:53-66 | the inner loop succeeds exactly when every tile of its column does; it then has visited row ml_ii in order and built the tiles stacked along dim 0; otherwise it fails with IndexError |
| Tiler.ExtendStrip | VolumeRaytraceLFM/birefringence_implementations.py:67-72 | one outer step puts the next column block to the right of those already joined |
| Tiler.RayTraceThroughVolume | VolumeRaytraceLFM/birefringence_implementations.py:28-73 | fails with the footprint assertion, and visits nothing, unless voxel_span_per_ml * n_micro_lenses < Dy; otherwise succeeds exactly when every tile does, fails only with IndexError, and on success has visited the micro-lenses in loop order and returns the (2h+1)-by-(2h+1) mosaic of tiles |
| Tiler.AllTilesOkIff | VolumeRaytraceLFM/birefringence_implementations.py:52-59 | every tile of the mosaic succeeds exactly when ret_and_azim_images succeeds at the offset of every micro-lens in [-h, h]² |
| Tiler.AllTilesOkSound | VolumeRaytraceLFM/birefringence_implementations.py:52-59 | a mosaic without a failing tile means every micro-lens call succeeds |
| Tiler.AllTilesOkComplete | VolumeRaytraceLFM/birefringence_implementations.py:52-59 | every micro-lens call succeeding means the mosaic has no failing tile |
| Tiler.TileOk | VolumeRaytraceLFM/birefringence_implementations.py:52-59 | in a mosaic without a failing tile, each micro-lens's block holds its successful ret_and_azim_images |
| Tiler.SingleMicroLens | VolumeRaytraceLFM/birefringence_implementations.py:38-73 | with h = 0 the output is exactly the single tile at offset [0, 0] |
| Tiler.Fits | VolumeRaytraceLFM/birefringence_implementations.py:42-45 | the footprint assertion's condition: voxel_span_per_ml * n_micro_lenses is below Dy, the first entry of voxel_parameters.shape[2:] |
| Tiler.CenteredOffset | VolumeRaytraceLFM/birefringence_implementations.py:144 | the offset moved to the volume centre: offset + vox_ctr_idx[1:] - h on y and x |
| Tiler.MicroLensOffset | VolumeRaytraceLFM/birefringence_implementations.py:57 | the offset of micro-lens (ml_ii, ml_jj) is [n_voxels_per_ml * ml_ii, n_voxels_per_ml * ml_jj] |
| Tiler.TileAt | VolumeRaytraceLFM/birefringence_implementations.py:57-59 | the tile of block (bi, bj) is ret_and_azim_images at the offset of micro-lens (bi - h, bj - h) |
| Tiler.Scatter | VolumeRaytraceLFM/birefringence_implementations.py:159-161 | the pixel writes in ray order; when every write is possible the result is a p-by-p image |
| Images.Zeros | VolumeRaytraceLFM/birefringence_implementations.py:148-149 | torch.zeros((rows, cols)) has that shape and is 0 everywhere |
| Images.CatDim1 | VolumeRaytraceLFM/birefringence_implementations.py:71-72 | torch.cat along dim 1 puts every row of the second image to the right of the matching row of the first |
| Images.CatDim0Rows | VolumeRaytraceLFM/birefringence_implementations.py:65-66 | torch.cat along dim 0 has the rows of both images: row i of the first stays row i, row i of the second is placed after all rows of the first, and images of one width stack to an image of that width with their rows added |
| Volumes.ZeroVolume | VolumeRaytraceLFM/birefringence_implementations.py:171-172 | torch.zeros([4] + volume_shape) is a valid volume of that shape, 0 in every channel and voxel |
| Volumes.Volume.WithChannel | VolumeRaytraceLFM/birefringence_implementations.py:233-243 | the slice assignment vol[c, ...] = g changes channel c to g and leaves the other channels alone |
| Volumes.WithPlane | VolumeRaytraceLFM/birefringence_implementations.py:208-211 | the slice assignment a[z, :, :] = v sets plane z to v and leaves every other plane alone |
| Volumes.Times | VolumeRaytraceLFM/birefringence_implementations.py:241-243 | the elementwise product multiplies voxel by voxel |
| Volumes.Scaled | VolumeRaytraceLFM/birefringence_implementations.py:244 | vol[0, ...] *= delta_n scales every voxel |
| Presets.HasInfixIff | VolumeRaytraceLFM/birefringence_implementations.py:175 | `pat in s` holds exactly when pat starts at some position of s |
| Presets.DigitValue | VolumeRaytraceLFM/birefringence_implementations.py:176 | a decimal digit reads as the value d from 0 to 9 whose character is '0' + d, as int() reads it |
| Presets.SelectPreset | VolumeRaytraceLFM/birefringence_implementations.py:171-179 | the branches are tried in the code's order: 'zeros', 'random' and 'ellipsoid' only by exact match, any name containing 'planes' selects planes with the count of its first character or raises ValueError when that is not a digit, and every other name falls through |
| Presets.PlanesVolume | VolumeRaytraceLFM/birefringence_implementations.py:199-218 | one plane fails with IndexError exactly when z_size//2 + 4 is past the volume; no plane gives a volume that is 0 in every channel and voxel; two or more give the random slab volume; for zero or one plane the result has the volume's shape |
| Presets.SinglePlaneFits | VolumeRaytraceLFM/birefringence_implementations.py:205-208 | the single plane fits exactly when the volume has more than eight z planes |
| Presets.SinglePlaneContents | VolumeRaytraceLFM/birefringence_implementations.py:205-212 | the single-plane preset sets only plane z_size//2 + 4, with channel 0 = 0.1, channel 1 = 1 and channels 2 and 3 = 0, and leaves every other voxel 0 |
| Presets.GeneratePlanesVolume | VolumeRaytraceLFM/birefringence_implementations.py:199-218 | the slice assignments into the zero volume produce exactly PlanesVolume |
| Presets.NormFactor | VolumeRaytraceLFM/birefringence_implementations.py:238-240 | after the zero guard the norm factor is never 0 |
| Presets.EllipsoidVolume | VolumeRaytraceLFM/birefringence_implementations.py:221-247 | the ellipsoid volume has the requested shape and holds mask * delta_n in channel 0 and the normalised normal times the mask in channels 1 to 3 |
| Presets.MaskGrid | VolumeRaytraceLFM/birefringence_implementations.py:231-233 | the mask as a float grid is 1 inside the mask and 0 outside |
| Presets.NormalGrid | VolumeRaytraceLFM/birefringence_implementations.py:235-243 | each normal component grid holds that component of the normal divided by the guarded norm factor |
| Presets.EllipsoidChannels | VolumeRaytraceLFM/birefringence_implementations.py:233-244 | the four channels the slice assignments leave make up the ellipsoid volume |
| Presets.BirefringenceChannel | VolumeRaytraceLFM/birefringence_implementations.py:233-244 | the mask scaled by delta_n is channel 0 of the ellipsoid volume |
| Presets.ChannelVoxel | VolumeRaytraceLFM/birefringence_implementations.py:233-244 | each voxel of the ellipsoid volume is the scaled mask in channel 0 and the normal component times the mask in channels 1 to 3 |
| Presets.AxisChannel | VolumeRaytraceLFM/birefringence_implementations.py:241-243 | a normal component times the mask is the matching axis channel of the ellipsoid volume |
| Presets.GenerateEllipsoidVolume | VolumeRaytraceLFM/birefringence_implementations.py:221-247 | the sequence of slice assignments, including the scaling of channel 0 after the axis channels have read it, produces exactly the ellipsoid volume |
| Presets.EllipsoidBirefringence | VolumeRaytraceLFM/birefringence_implementations.py:232-244 | channel 0 is delta_n on the mask and 0 off it, so 0 or delta_n everywhere |
| Presets.EllipsoidAxisOffMask | VolumeRaytraceLFM/birefringence_implementations.py:241-243 | off the mask all three axis channels are 0 |
| Presets.EllipsoidAxisWhereNoBirefringence | VolumeRaytraceLFM/birefringence_implementations.py:241-244 | with a non-zero delta_n, the axis channels are 0 wherever channel 0 is 0 |
| Presets.EllipsoidAxisOnMask | VolumeRaytraceLFM/birefringence_implementations.py:235-243 | on the mask the axis channels hold the normalised normal |
| Presets.EllipsoidCentreAxis | VolumeRaytraceLFM/birefringence_implementations.py:227-243 | the centre voxel has a zero normal, so the guard gives it norm factor 1 whenever sqrt(0) is 0, and its axis is 0 |
| Presets.CentreInMask | VolumeRaytraceLFM/birefringence_implementations.py:227-232 | the centre voxel's border value is 0, so it is on the mask exactly when abs(alpha) <= 1 |
| Presets.EllipsoidCentreBirefringent | VolumeRaytraceLFM/birefringence_implementations.py:227-244 | with abs(alpha) <= 1 the centre voxel is on the mask and its channel 0 is delta_n, although its axis is 0 |
| Presets.InitVolume | VolumeRaytraceLFM/birefringence_implementations.py:166-185 | init_volume fails exactly on an invalid plane count or a one-plane volume of at most eight planes, only with IndexError or ValueError; an unmatched mode keeps the current parameters, 'random' gives the drawn volume, 'zeros' the zero volume, a planes mode with count n the planes preset for n, and 'ellipsoid' the ellipsoid with radii (5, 7.5, 7.5) and delta_n 0.1 |
| Presets.InitZeros | VolumeRaytraceLFM/birefringence_implementations.py:171-172 | the 'zeros' mode gives an all-zero [4] + volume_shape volume |
| Presets.InitNoPlanes | VolumeRaytraceLFM/birefringence_implementations.py:175-216 | the '0planes' mode gives an all-zero volume of the requested shape |
| Presets.InitOnePlane | VolumeRaytraceLFM/birefringence_implementations.py:175-212 | the '1planes' mode gives the single-plane preset, which succeeds exactly when the volume has more than eight planes |
| Presets.InitEllipsoidIs | VolumeRaytraceLFM/birefringence_implementations.py:178-179 | the 'ellipsoid' mode gives the ellipsoid with centre 0.5, radii (5, 7.5, 7.5), alpha 0.1 and delta_n 0.1 |
| Presets.InitEllipsoidCentre | VolumeRaytraceLFM/birefringence_implementations.py:178-244 | in the 'ellipsoid' mode the centre voxel of a non-empty volume has channel 0 = 0.1 and all three axis channels 0 |
| Presets.InitEllipsoidBirefringence | VolumeRaytraceLFM/birefringence_implementations.py:178-244 | in the 'ellipsoid' mode channel 0 is 0.1 exactly on the mask and 0 exactly off it |
| Presets.InMask | VolumeRaytraceLFM/birefringence_implementations.py:226-232 | ellipsoid_border_mask: abs(kk**2/r0**2 + jj**2/r1**2 + ii**2/r2**2 - alpha) <= 1 at the voxel's centred coordinates |
| Presets.Normal | VolumeRaytraceLFM/birefringence_implementations.py:235-237 | the unnormalised normal (2 kk / r0, 2 jj / r1, 2 ii / r2) |
| Presets.UnitNormal | VolumeRaytraceLFM/birefringence_implementations.py:235-243 | component c of the normal divided by the guarded norm factor |
| Presets.EllipsoidVoxel | VolumeRaytraceLFM/birefringence_implementations.py:233-244 | voxel (c, z, y, x) of the ellipsoid: mask * delta_n in channel 0, unit normal component times the mask in channels 1 to 3 |
| Presets.PlaneIndex | VolumeRaytraceLFM/birefringence_implementations.py:206-208 | the single plane's index z_size//2 + z_offset with z_offset 4 |
| Presets.HasInfix | VolumeRaytraceLFM/birefringence_implementations.py:175 | `pat in s`: pat occurs in s at some position |

## Left out

- The Jones calculus is uninterpreted. `voxRayJM`, `rayJM`, `calc_rayDir`, `calc_retardance`
  and `calc_azimuth` belong to the Jones library, which is not part of this model. They are
  fields of the `Physics` record, and the model states nothing about their values.
- The ray geometry is an input. `ray_vol_colli_indexes`, `ray_vol_colli_lengths`,
  `ray_valid_direction`, `ray_valid_indexes`, `vox_ctr_idx` and `voxel_span_per_ml` come
  from the ray-tracing base class, which is not part of this model. They are fields of
  `Tracer` and `RayGeometry`.
- Floating point is not modelled. Voxel values are exact reals rather than float32, and
  complex numbers are pairs of reals. `np.sqrt` in the ellipsoid normals is a parameter
  `sqrt`, and the integer `floor` of the centre is `.Floor` on reals.
- The ray geometry's tensors are assumed dense, with one row per ray (`RayGeometry.Valid`).
  The source would raise IndexError at lines 98 and 115 of
  `VolumeRaytraceLFM/birefringence_implementations.py` if they were not. The model does not
  capture that failure.
- `calc_rayDir`, `voxRayJM`, `calc_retardance` and `calc_azimuth` are assumed to act element
  by element on their batches. Each is a function of one ray's or one voxel's data. Only
  `rayJM` takes the whole step list.
- Randomness is not modelled. `generate_random_volume` draws from a random generator. The
  'random' volume and the slab volume of an 'Nplanes' mode with N >= 2 are passed in as
  `Draws`.
- The multi-plane branch of `generate_planes_volume` is not modelled. It splits z with
  `np.linspace` and float rounding, and takes random data. The model returns the given slab
  volume.
- Torch runtime state is not modelled: `requires_grad`, `detach`, device moves and autograd.
- Tensor batching is modelled element by element. The rays of a step are sequences, and the
  masked write `JM[valid_voxel] = ...` is a `forall` write into an array. The `torch.all` and
  `valid_voxel.sum() > 0` tests are kept, even though they do not change the result.
- `init_volume` creating a new volume when `volume_ref` is None is configuration plumbing.
  The model takes the volume's shape and its current parameters.
- A negative `n_micro_lenses` is not modelled. `n_micro_lenses` is a natural number.
- Tiler.RayTraceThroughVolume: its result is stated against any tile table that agrees with
  `ret_and_azim_images` (`IsTileTable`, met by `TileAtIsTileTable`), not against
  `ret_and_azim_images` directly. The per-pixel layout is given by `StripPairPixel` and
  `TileOk`.
- Presets.DigitValue: `int()` also accepts non-ASCII Unicode digits as the plane count. The
  model accepts only '0' to '9'.
- Zero radii are excluded by `EllipsoidArgs.Valid`. NumPy would divide by zero and produce
  inf or nan.
- Presets.EllipsoidAxisOnMask: states that the axis is the normal divided by the guarded
  norm factor, not that it has unit length. At the centre voxel unit length is false: the
  axis is 0 while the voxel is on the mask (`Presets.EllipsoidCentreBirefringent`).
  Elsewhere it would need `sqrt` to be a square root, which the uninterpreted parameter
  does not promise.
- Presets.PlanesVolume: for two or more planes the result is the given slab volume, whose
  shape the model does not constrain, because the multi-plane branch is not modelled.
- The other simulation scripts, the user interface, the static volume arguments and the
  tests are not part of this model.
