/** The birefringent volume: the tensor voxel_parameters of shape [4, Dz, Dy, Dx]. Channel 0
    holds the birefringence Delta_n of every voxel and channels 1-3 its optic axis. */
module Volumes {
  import opened Common

  /** One channel: a dense z-by-y-by-x grid, indexed `g[z][y][x]`. */
  type Grid = seq<seq<seq<real>>>

  predicate IsGrid(g: Grid, dz: nat, dy: nat, dx: nat)
  {
    |g| == dz &&
    forall z :: 0 <= z < dz ==> |g[z]| == dy && forall y :: 0 <= y < dy ==> |g[z][y]| == dx
  }

  /** A grid holding `v` everywhere (torch.zeros when v is 0). */
  function ConstGrid(dz: nat, dy: nat, dx: nat, v: real): (g: Grid)
    ensures IsGrid(g, dz, dy, dx)
    ensures forall z, y, x :: 0 <= z < dz && 0 <= y < dy && 0 <= x < dx ==> g[z][y][x] == v
  {
    seq(dz, _ => seq(dy, _ => seq(dx, _ => v)))
  }

  /** A y-by-x plane holding `v` everywhere. */
  function ConstPlane(dy: nat, dx: nat, v: real): (plane: seq<seq<real>>)
    ensures |plane| == dy && forall y :: 0 <= y < dy ==> |plane[y]| == dx
    ensures forall y, x :: 0 <= y < dy && 0 <= x < dx ==> plane[y][x] == v
  {
    seq(dy, _ => seq(dx, _ => v))
  }

  /** The grid whose voxel (z, y, x) holds f(z, y, x) (an elementwise tensor expression). */
  function GridOf(dz: nat, dy: nat, dx: nat, f: (nat, nat, nat) -> real): (g: Grid)
    ensures IsGrid(g, dz, dy, dx)
    ensures forall z, y, x :: 0 <= z < dz && 0 <= y < dy && 0 <= x < dx ==> g[z][y][x] == f(z, y, x)
  {
    seq(dz, z requires 0 <= z => seq(dy, y requires 0 <= y => seq(dx, x requires 0 <= x => f(z, y, x))))
  }

  /** The elementwise product a * b of two grids of one shape. */
  function Times(a: Grid, b: Grid, dz: nat, dy: nat, dx: nat): (g: Grid)
    requires IsGrid(a, dz, dy, dx) && IsGrid(b, dz, dy, dx)
    ensures IsGrid(g, dz, dy, dx)
    ensures forall z, y, x :: 0 <= z < dz && 0 <= y < dy && 0 <= x < dx ==> g[z][y][x] == a[z][y][x] * b[z][y][x]
  {
    seq(dz, z requires 0 <= z < dz => seq(dy, y requires 0 <= y < dy => seq(dx, x requires 0 <= x < dx => a[z][y][x] * b[z][y][x])))
  }

  /** The grid a * s (the in-place scaling a *= s). */
  function Scaled(a: Grid, s: real, dz: nat, dy: nat, dx: nat): (g: Grid)
    requires IsGrid(a, dz, dy, dx)
    ensures IsGrid(g, dz, dy, dx)
    ensures forall z, y, x :: 0 <= z < dz && 0 <= y < dy && 0 <= x < dx ==> g[z][y][x] == a[z][y][x] * s
  {
    seq(dz, z requires 0 <= z < dz => seq(dy, y requires 0 <= y < dy => seq(dx, x requires 0 <= x < dx => a[z][y][x] * s)))
  }

  /** The grid `a` with plane `z` set to `v` everywhere (the slice assignment a[z, :, :] = v). */
  function WithPlane(a: Grid, z: nat, v: real, dz: nat, dy: nat, dx: nat): (g: Grid)
    requires IsGrid(a, dz, dy, dx) && z < dz
    ensures IsGrid(g, dz, dy, dx)
    ensures forall z', y, x :: 0 <= z' < dz && 0 <= y < dy && 0 <= x < dx ==>
              g[z'][y][x] == if z' == z then v else a[z'][y][x]
  {
    a[z := ConstPlane(dy, dx, v)]
  }

  /** voxel_parameters with its shape: four channels, each a dz-by-dy-by-dx grid. */
  datatype Volume = Volume(dz: nat, dy: nat, dx: nat, channels: seq<Grid>)
  {
    predicate Valid()
    {
      |channels| == 4 && forall c :: 0 <= c < 4 ==> IsGrid(channels[c], dz, dy, dx)
    }

    predicate InBounds(z: int, y: int, x: int)
    {
      0 <= z < dz && 0 <= y < dy && 0 <= x < dx
    }

    /** voxel_parameters[c, z, y, x]. */
    function At(c: nat, z: nat, y: nat, x: nat): real
      requires Valid() && c < 4 && InBounds(z, y, x)
    {
      assert IsGrid(channels[c], dz, dy, dx);
      channels[c][z][y][x]
    }

    /** The volume with channel `c` replaced by `g` (the slice assignment vol[c, ...] = g). */
    function WithChannel(c: nat, g: Grid): (v: Volume)
      requires Valid() && c < 4 && IsGrid(g, dz, dy, dx)
      ensures v.Valid() && v.dz == dz && v.dy == dy && v.dx == dx && v.channels == channels[c := g]
      ensures forall c', z, y, x :: 0 <= c' < 4 && InBounds(z, y, x) ==>
                v.At(c', z, y, x) == if c' == c then g[z][y][x] else At(c', z, y, x)
    {
      var v := Volume(dz, dy, dx, channels[c := g]);
      assert forall c' :: 0 <= c' < 4 ==> IsGrid(v.channels[c'], dz, dy, dx);
      v
    }
  }

  /** torch.zeros([4] + [dz, dy, dx]). */
  function ZeroVolume(dz: nat, dy: nat, dx: nat): (v: Volume)
    ensures v.Valid() && v.dz == dz && v.dy == dy && v.dx == dx
    ensures forall c, z, y, x :: 0 <= c < 4 && v.InBounds(z, y, x) ==> v.At(c, z, y, x) == 0.0
  {
    var g := ConstGrid(dz, dy, dx, 0.0);
    Volume(dz, dy, dx, [g, g, g, g])
  }

  /** The volume of the given shape whose voxel (c, z, y, x) holds f(c, z, y, x). */
  function VolumeOf(dz: nat, dy: nat, dx: nat, f: (nat, nat, nat, nat) -> real): (v: Volume)
    ensures v.Valid() && v.dz == dz && v.dy == dy && v.dx == dx
    ensures forall c, z, y, x :: 0 <= c < 4 && v.InBounds(z, y, x) ==> v.At(c, z, y, x) == f(c, z, y, x)
  {
    var v := Volume(dz, dy, dx, seq(4, c requires 0 <= c < 4 => GridOf(dz, dy, dx, (z: nat, y: nat, x: nat) => f(c, z, y, x))));
    assert forall c :: 0 <= c < 4 ==> IsGrid(v.channels[c], dz, dy, dx);
    v
  }

  /** Two grids of one shape that agree on every voxel are equal. */
  lemma GridExt(a: Grid, b: Grid, dz: nat, dy: nat, dx: nat)
    requires IsGrid(a, dz, dy, dx) && IsGrid(b, dz, dy, dx)
    requires forall z, y, x :: 0 <= z < dz && 0 <= y < dy && 0 <= x < dx ==> a[z][y][x] == b[z][y][x]
    ensures a == b
  {
    forall z | 0 <= z < dz
      ensures a[z] == b[z]
    {
      forall y | 0 <= y < dy
        ensures a[z][y] == b[z][y]
      {
        assert forall x :: 0 <= x < dx ==> a[z][y][x] == b[z][y][x];
      }
    }
  }

  /** Two volumes of one shape that agree on every voxel are equal. */
  lemma VolumeExt(a: Volume, b: Volume)
    requires a.Valid() && b.Valid() && a.dz == b.dz && a.dy == b.dy && a.dx == b.dx
    requires forall c, z, y, x :: 0 <= c < 4 && a.InBounds(z, y, x) ==> a.At(c, z, y, x) == b.At(c, z, y, x)
    ensures a == b
  {
    forall c | 0 <= c < 4
      ensures a.channels[c] == b.channels[c]
    {
      assert IsGrid(a.channels[c], a.dz, a.dy, a.dx) && IsGrid(b.channels[c], a.dz, a.dy, a.dx);
      forall z | 0 <= z < a.dz
        ensures a.channels[c][z] == b.channels[c][z]
      {
        forall y | 0 <= y < a.dy
          ensures a.channels[c][z][y] == b.channels[c][z][y]
        {
          assert forall x :: 0 <= x < a.dx ==> a.channels[c][z][y][x] == a.At(c, z, y, x);
          assert forall x :: 0 <= x < a.dx ==> b.channels[c][z][y][x] == b.At(c, z, y, x);
        }
      }
    }
    assert a.channels == b.channels;
  }

  /** The four parameters of one voxel: birefringence and optic axis. */
  datatype VoxelParams = VoxelParams(deltaN: real, axis: Vec3)

  /** voxel_parameters[:, z, y, x]. */
  function ParamsAt(vol: Volume, z: nat, y: nat, x: nat): VoxelParams
    requires vol.Valid() && vol.InBounds(z, y, x)
  {
    VoxelParams(vol.At(0, z, y, x), Vec3(vol.At(1, z, y, x), vol.At(2, z, y, x), vol.At(3, z, y, x)))
  }
}
