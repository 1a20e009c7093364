/** The ray accumulator (calc_cummulative_JM_of_ray): for every collision step m it selects
    the rays that still cross a voxel, gathers that voxel's parameters at the micro-lens
    offset, and builds one Jones matrix per selected ray (the identity unless the voxel is
    birefringent). The per-step batches are then combined by the Jones library's rayJM. */
module Accumulator {
  import opened Common
  import opened Jones
  import opened Volumes

  /** The ray geometry of one micro-lens, precomputed by the ray-tracing base class. */
  datatype RayGeometry = RayGeometry(
    colliIndexes: seq<seq<VoxelIndex>>,  // ray_vol_colli_indexes: the voxels of each ray, in order
    colliLengths: seq<seq<real>>,        // ray_vol_colli_lengths: a dense [n_rays, nSteps] tensor
    nSteps: nat,                         // ray_vol_colli_lengths.shape[1]
    directions: seq<Vec3>,               // ray_valid_direction
    pixelIndexes: seq<(int, int)>)       // ray_valid_indexes: the pixel (i, j) of each ray
  {
    /** The tensors are dense and have one row per ray. */
    predicate Valid()
    {
      |colliLengths| == |colliIndexes| && |directions| == |colliIndexes| &&
      forall r :: 0 <= r < |colliLengths| ==> |colliLengths[r]| == nSteps
    }
  }

  /** The rays from index i on that still cross a voxel at step m, in ray order. */
  function ActiveFrom(segs: seq<seq<VoxelIndex>>, m: nat, i: nat): (rs: seq<nat>)
    requires i <= |segs|
    ensures forall k :: 0 <= k < |rs| ==> i <= rs[k] < |segs| && |segs[rs[k]]| > m
    decreases |segs| - i
  {
    if i == |segs| then []
    else (if |segs[i]| > m then [i] else []) + ActiveFrom(segs, m, i + 1)
  }

  /** rays_with_voxels at step m, as the indices of the rays it selects. */
  function ActiveRays(segs: seq<seq<VoxelIndex>>, m: nat): (rs: seq<nat>)
    ensures forall k :: 0 <= k < |rs| ==> rs[k] < |segs| && |segs[rs[k]]| > m
  {
    ActiveFrom(segs, m, 0)
  }

  /** The rays from index i on with more than m voxels. */
  function LongerFrom(segs: seq<seq<VoxelIndex>>, m: nat, i: nat): set<int>
  {
    set r | i <= r < |segs| && |segs[r]| > m
  }

  /** ActiveFrom lists the rays in increasing order. */
  lemma {:induction false} ActiveFromSorted(segs: seq<seq<VoxelIndex>>, m: nat, i: nat)
    requires i <= |segs|
    ensures forall k, l :: 0 <= k < l < |ActiveFrom(segs, m, i)| ==> ActiveFrom(segs, m, i)[k] < ActiveFrom(segs, m, i)[l]
    decreases |segs| - i
  {
    if i < |segs| {
      ActiveFromSorted(segs, m, i + 1);
    }
  }

  /** ActiveFrom lists every ray from i on with more than m voxels. */
  lemma {:induction false} ActiveFromComplete(segs: seq<seq<VoxelIndex>>, m: nat, i: nat)
    requires i <= |segs|
    ensures forall r :: r in LongerFrom(segs, m, i) ==> r in ActiveFrom(segs, m, i)
    decreases |segs| - i
  {
    if i < |segs| {
      ActiveFromComplete(segs, m, i + 1);
      assert forall r :: r in LongerFrom(segs, m, i) && r != i ==> r in LongerFrom(segs, m, i + 1);
    }
  }

  /** ActiveFrom has one entry per ray from i on with more than m voxels. */
  lemma {:induction false} ActiveFromCount(segs: seq<seq<VoxelIndex>>, m: nat, i: nat)
    requires i <= |segs|
    ensures |ActiveFrom(segs, m, i)| == |LongerFrom(segs, m, i)|
    decreases |segs| - i
  {
    if i == |segs| {
      assert LongerFrom(segs, m, i) == {};
    } else {
      ActiveFromCount(segs, m, i + 1);
      if |segs[i]| > m {
        assert LongerFrom(segs, m, i) == {i} + LongerFrom(segs, m, i + 1);
      } else {
        assert LongerFrom(segs, m, i) == LongerFrom(segs, m, i + 1);
      }
    }
  }

  /** rays_with_voxels selects exactly the rays whose voxel list is longer than m, each
      once and in increasing ray order, so n_rays_with_voxels counts them. */
  lemma ActiveRaysExact(segs: seq<seq<VoxelIndex>>, m: nat)
    ensures forall r :: r in ActiveRays(segs, m) <==> 0 <= r < |segs| && |segs[r]| > m
    ensures forall k, l :: 0 <= k < l < |ActiveRays(segs, m)| ==> ActiveRays(segs, m)[k] < ActiveRays(segs, m)[l]
    ensures |ActiveRays(segs, m)| == |set r | 0 <= r < |segs| && |segs[r]| > m|
  {
    ActiveFromSorted(segs, m, 0);
    ActiveFromComplete(segs, m, 0);
    ActiveFromCount(segs, m, 0);
    assert forall r :: 0 <= r < |segs| && |segs[r]| > m ==> r in LongerFrom(segs, m, 0);
  }

  /** The voxel a segment addresses once the micro-lens offset is added to its y and x
      indices, resolved as torch resolves indices; None where torch raises IndexError. */
  function Address(vol: Volume, v: VoxelIndex, off: (int, int)): Option<(nat, nat, nat)>
  {
    var z, y, x := PyIndex(v.z, vol.dz), PyIndex(v.y + off.0, vol.dy), PyIndex(v.x + off.1, vol.dx);
    if z.Some? && y.Some? && x.Some? then Some((z.value, y.value, x.value)) else None
  }

  /** vox: the voxel each selected ray crosses at step m, in ray order. */
  function StepVoxels(geom: RayGeometry, m: nat): (vox: seq<VoxelIndex>)
    ensures |vox| == |ActiveRays(geom.colliIndexes, m)|
  {
    var active := ActiveRays(geom.colliIndexes, m);
    seq(|active|, k requires 0 <= k < |active| => geom.colliIndexes[active[k]][m])
  }

  /** my_params: the parameters of the voxels in `vox` at offset `off`, or None when the
      shifted index of one of them does not resolve (lies outside [-n, n) on its axis; a
      negative index inside that range wraps to the far edge). */
  function Gather(vol: Volume, vox: seq<VoxelIndex>, off: (int, int)): (ps: Option<seq<VoxelParams>>)
    requires vol.Valid()
    ensures ps.Some? <==> forall k :: 0 <= k < |vox| ==> Address(vol, vox[k], off).Some?
    ensures ps.Some? ==> |ps.value| == |vox|
  {
    if forall k :: 0 <= k < |vox| ==> Address(vol, vox[k], off).Some? then
      Some(seq(|vox|, k requires 0 <= k < |vox| =>
        var a := Address(vol, vox[k], off).value;
        ParamsAt(vol, a.0, a.1, a.2)))
    else None
  }

  function StepParams(geom: RayGeometry, vol: Volume, m: nat, off: (int, int)): Option<seq<VoxelParams>>
    requires vol.Valid()
  {
    Gather(vol, StepVoxels(geom, m), off)
  }

  /** torch.all(my_params == 0). */
  predicate AllZero(ps: seq<VoxelParams>)
  {
    forall k :: 0 <= k < |ps| ==> ps[k].deltaN == 0.0 && ps[k].axis == ZeroVec3
  }

  /** valid_voxel.sum() > 0: some gathered voxel is birefringent. */
  predicate AnyBirefringent(ps: seq<VoxelParams>)
  {
    exists k :: 0 <= k < |ps| && ps[k].deltaN != 0.0
  }

  /** The matrix ray r receives at step m for a voxel with parameters p: the identity unless
      Delta_n is non-zero, else voxRayJM with ray r's own basis and path length. */
  function SegmentJM(geom: RayGeometry, phys: Physics, m: nat, r: nat, p: VoxelParams): JonesMatrix
    requires geom.Valid() && r < |geom.colliIndexes| && m < geom.nSteps
  {
    if p.deltaN != 0.0 then
      phys.voxRayJM(p.deltaN, p.axis, phys.calcRayDir(geom.directions[r]), geom.colliLengths[r][m])
    else Identity
  }

  /** JM_list[m]: the batch of step m, one matrix per selected ray, or the IndexError of the
      gather. */
  function StepBatch(geom: RayGeometry, vol: Volume, phys: Physics, m: nat, off: (int, int)): Result<seq<JonesMatrix>>
    requires geom.Valid() && vol.Valid() && m < geom.nSteps
  {
    var active := ActiveRays(geom.colliIndexes, m);
    var ps := StepParams(geom, vol, m, off);
    if ps.None? then Failure(IndexOutOfRange)
    else Success(seq(|active|, k requires 0 <= k < |active| => SegmentJM(geom, phys, m, active[k], ps.value[k])))
  }

  /** Every step's gather resolves all of its shifted indices. */
  predicate GathersInBounds(geom: RayGeometry, vol: Volume, off: (int, int))
    requires vol.Valid()
  {
    forall m :: 0 <= m < geom.nSteps ==> StepParams(geom, vol, m, off).Some?
  }

  /** JM_list: one batch per column of ray_vol_colli_lengths. */
  function JMList(geom: RayGeometry, vol: Volume, phys: Physics, off: (int, int)): (steps: seq<seq<JonesMatrix>>)
    requires geom.Valid() && vol.Valid() && GathersInBounds(geom, vol, off)
    ensures |steps| == geom.nSteps
  {
    seq(geom.nSteps, m requires 0 <= m < geom.nSteps => StepBatch(geom, vol, phys, m, off).value)
  }

  /** What calc_cummulative_JM_of_ray returns: rayJM of JM_list, or the IndexError of the
      first gather with an index that does not resolve. */
  function EffectiveJM(geom: RayGeometry, vol: Volume, phys: Physics, off: (int, int)): Result<seq<JonesMatrix>>
    requires geom.Valid() && vol.Valid()
  {
    if GathersInBounds(geom, vol, off) then
      Success(phys.rayJM(JMList(geom, vol, phys, off), geom.colliIndexes))
    else Failure(IndexOutOfRange)
  }

  /** calc_cummulative_JM_of_ray: loops over the collision steps, builds each step's batch
      (StepJM) and appends it to JM_list, then combines the list with rayJM. */
  method CumulativeJM(geom: RayGeometry, vol: Volume, phys: Physics, off: (int, int))
    returns (r: Result<seq<JonesMatrix>>)
    requires geom.Valid() && vol.Valid()
    ensures r == EffectiveJM(geom, vol, phys, off)
  {
    var jmList: seq<seq<JonesMatrix>> := [];
    var m := 0;
    while m < geom.nSteps
      invariant 0 <= m <= geom.nSteps
      invariant |jmList| == m
      invariant forall s :: 0 <= s < m ==>
                  StepParams(geom, vol, s, off).Some? && jmList[s] == StepBatch(geom, vol, phys, s, off).value
    {
      var params := StepParams(geom, vol, m, off);
      if params.None? {
        return Failure(IndexOutOfRange);
      }
      var batch := StepJM(geom, vol, phys, m, off, params.value);
      jmList := jmList + [batch];
      m := m + 1;
    }
    assert jmList == JMList(geom, vol, phys, off);
    r := Success(phys.rayJM(jmList, geom.colliIndexes));
  }

  /** The body of the loop for step m once my_params = ps is gathered: a batch of identities
      for the selected rays, whose entries with non-zero Delta_n are overwritten by voxRayJM
      unless all parameters are zero or no voxel is birefringent. */
  method StepJM(geom: RayGeometry, vol: Volume, phys: Physics, m: nat, off: (int, int), ps: seq<VoxelParams>)
    returns (batch: seq<JonesMatrix>)
    requires geom.Valid() && vol.Valid() && m < geom.nSteps
    requires StepParams(geom, vol, m, off) == Some(ps)
    ensures StepBatch(geom, vol, phys, m, off) == Success(batch)
  {
    var active := ActiveRays(geom.colliIndexes, m);
    var nActive := |active|;
    assert |ps| == nActive;
    var jm := new JonesMatrix[nActive](_ => Identity);
    if !AllZero(ps) {
      if AnyBirefringent(ps) {
        forall k | 0 <= k < nActive && ps[k].deltaN != 0.0 {
          jm[k] := phys.voxRayJM(ps[k].deltaN, ps[k].axis, phys.calcRayDir(geom.directions[active[k]]),
                                 geom.colliLengths[active[k]][m]);
        }
      }
    }
    batch := jm[..];
    assert forall k :: 0 <= k < nActive ==> batch[k] == SegmentJM(geom, phys, m, active[k], ps[k]);
    BatchIsStepBatch(geom, vol, phys, m, off, batch);
  }

  /** A batch holding SegmentJM for every selected ray is the step's batch. */
  lemma BatchIsStepBatch(geom: RayGeometry, vol: Volume, phys: Physics, m: nat, off: (int, int),
                         batch: seq<JonesMatrix>)
    requires geom.Valid() && vol.Valid() && m < geom.nSteps
    requires StepParams(geom, vol, m, off).Some?
    requires |batch| == |ActiveRays(geom.colliIndexes, m)|
    requires forall k :: 0 <= k < |batch| ==>
               batch[k] == SegmentJM(geom, phys, m, ActiveRays(geom.colliIndexes, m)[k], StepParams(geom, vol, m, off).value[k])
    ensures StepBatch(geom, vol, phys, m, off) == Success(batch)
  {
    var active := ActiveRays(geom.colliIndexes, m);
    var ps := StepParams(geom, vol, m, off).value;
    var sb := seq(|active|, k requires 0 <= k < |active| => SegmentJM(geom, phys, m, active[k], ps[k]));
    assert StepBatch(geom, vol, phys, m, off) == Success(sb);
    assert |sb| == |batch|;
    assert forall k :: 0 <= k < |sb| ==> sb[k] == batch[k];
    assert sb == batch;
  }

  /** JM_list has one entry per step; entry m has one matrix per ray with more than m voxels,
      the k-th belonging to the k-th such ray in ray order. That matrix is the identity when
      the gathered Delta_n is 0, and otherwise voxRayJM of that ray's own basis and path
      length. */
  lemma JMListShape(geom: RayGeometry, vol: Volume, phys: Physics, off: (int, int), m: nat)
    requires geom.Valid() && vol.Valid() && GathersInBounds(geom, vol, off)
    requires m < geom.nSteps
    ensures |JMList(geom, vol, phys, off)| == geom.nSteps
    ensures |JMList(geom, vol, phys, off)[m]| ==
              |set r | 0 <= r < |geom.colliIndexes| && |geom.colliIndexes[r]| > m|
    ensures forall k :: 0 <= k < |JMList(geom, vol, phys, off)[m]| ==>
              var r := ActiveRays(geom.colliIndexes, m)[k];
              var p := StepParams(geom, vol, m, off).value[k];
              JMList(geom, vol, phys, off)[m][k] ==
                if p.deltaN == 0.0 then Identity
                else phys.voxRayJM(p.deltaN, p.axis, phys.calcRayDir(geom.directions[r]), geom.colliLengths[r][m])
  {
    ActiveRaysExact(geom.colliIndexes, m);
  }

  /** The gathered parameters of step m are read at z, y + off.0 and x + off.1 of each
      selected ray's m-th voxel: the offset moves y and x and never z. */
  lemma GatherAddress(geom: RayGeometry, vol: Volume, m: nat, off: (int, int), k: nat)
    requires geom.Valid() && vol.Valid() && StepParams(geom, vol, m, off).Some?
    requires k < |ActiveRays(geom.colliIndexes, m)|
    ensures var v := geom.colliIndexes[ActiveRays(geom.colliIndexes, m)[k]][m];
            var a := Address(vol, VoxelIndex(v.z, v.y + off.0, v.x + off.1), (0, 0));
            a.Some? && StepParams(geom, vol, m, off).value[k] == ParamsAt(vol, a.value.0, a.value.1, a.value.2)
  {
  }

  /** Shifting by a micro-lens offset is the same as moving every voxel by it in y and x
      only. */
  lemma OffsetMovesOnlyYX(vol: Volume, v: VoxelIndex, off: (int, int))
    ensures Address(vol, v, off) == Address(vol, VoxelIndex(v.z, v.y + off.0, v.x + off.1), (0, 0))
  {
  }

  /** When every gathered parameter of a step is zero the whole batch is the identity. */
  lemma AllZeroStepIsIdentity(geom: RayGeometry, vol: Volume, phys: Physics, m: nat, off: (int, int))
    requires geom.Valid() && vol.Valid() && m < geom.nSteps
    requires StepParams(geom, vol, m, off).Some? && AllZero(StepParams(geom, vol, m, off).value)
    ensures StepBatch(geom, vol, phys, m, off).Success?
    ensures forall k :: 0 <= k < |StepBatch(geom, vol, phys, m, off).value| ==>
              StepBatch(geom, vol, phys, m, off).value[k] == Identity
  {
  }

  /** On an all-zero volume every matrix of every step is the identity. */
  lemma ZeroVolumeIsIdentity(geom: RayGeometry, phys: Physics, dz: nat, dy: nat, dx: nat, off: (int, int))
    requires geom.Valid()
    requires GathersInBounds(geom, ZeroVolume(dz, dy, dx), off)
    ensures forall m, k :: 0 <= m < geom.nSteps && 0 <= k < |JMList(geom, ZeroVolume(dz, dy, dx), phys, off)[m]| ==>
              JMList(geom, ZeroVolume(dz, dy, dx), phys, off)[m][k] == Identity
  {
    var vol := ZeroVolume(dz, dy, dx);
    forall m, k | 0 <= m < geom.nSteps && 0 <= k < |JMList(geom, vol, phys, off)[m]|
      ensures JMList(geom, vol, phys, off)[m][k] == Identity
    {
      var ps := StepParams(geom, vol, m, off).value;
      var vox := StepVoxels(geom, m);
      assert ps[k] == ParamsAt(vol, Address(vol, vox[k], off).value.0,
                               Address(vol, vox[k], off).value.1, Address(vol, vox[k], off).value.2);
    }
  }

  /** A ray whose voxel list has at most m entries takes no part in step m; in particular a
      ray with no voxels takes part in no step. */
  lemma FinishedRayDropsOut(segs: seq<seq<VoxelIndex>>, m: nat, r: nat)
    requires r < |segs| && |segs[r]| <= m
    ensures r !in ActiveRays(segs, m)
  {
    ActiveRaysExact(segs, m);
  }
}
