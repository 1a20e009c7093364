/** The deterministic volume presets of the projector: init_volume's dispatch on the mode
    name, the single-plane volume of generate_planes_volume and the ellipsoid volume of
    generate_ellipsoid_volume. The random presets draw from a generator; their volumes are
    passed in as `Draws`. */
module Presets {
  import opened Common
  import opened Volumes

  // ---------------------------------------------------------------- mode names

  /** Python's `pat in s` on strings: `pat` occurs in `s` as a contiguous substring. */
  predicate HasInfix(pat: string, s: string)
    decreases |s|
  {
    |pat| <= |s| && (s[..|pat|] == pat || HasInfix(pat, s[1..]))
  }

  /** `pat` occurs in `s` starting at position i. */
  predicate InfixAt(pat: string, s: string, i: int)
  {
    0 <= i <= |s| - |pat| && s[i..i + |pat|] == pat
  }

  /** HasInfix holds exactly when `pat` starts at some position of `s`. */
  lemma {:induction false} HasInfixIff(pat: string, s: string)
    ensures HasInfix(pat, s) <==> exists i :: InfixAt(pat, s, i)
    decreases |s|
  {
    if |pat| <= |s| && s[..|pat|] != pat {
      HasInfixIff(pat, s[1..]);
      if HasInfix(pat, s[1..]) {
        var i :| InfixAt(pat, s[1..], i);
        assert s[i + 1..i + 1 + |pat|] == s[1..][i..i + |pat|];
        assert InfixAt(pat, s, i + 1);
      }
      if exists i :: InfixAt(pat, s, i) {
        var i :| InfixAt(pat, s, i);
        assert i != 0 by { assert s[..|pat|] == s[0..0 + |pat|]; }
        assert s[1..][i - 1..i - 1 + |pat|] == s[i..i + |pat|];
        assert InfixAt(pat, s[1..], i - 1);
      }
    } else if |pat| <= |s| {
      assert s[0..0 + |pat|] == s[..|pat|];
      assert InfixAt(pat, s, 0);
    }
  }

  /** A character Python's int() reads as a decimal digit (ASCII digits only here). */
  predicate IsDigit(c: char)
  {
    '0' <= c <= '9'
  }

  function DigitValue(c: char): (d: nat)
    requires IsDigit(c)
    ensures d <= 9 && ((('0' as int) + d) as char) == c
  {
    (c as int) - ('0' as int)
  }

  /** The branch of init_volume a mode name selects. `Keep` is the fall-through: no branch
      matches and the volume keeps the parameters it holds. */
  datatype Preset = Zeros | Random | Planes(count: nat) | Ellipsoid | Keep

  /** init_volume's chain of tests on the mode name, in the code's order. A mode that
      contains "planes" reads its plane count from its first character, and int() raises
      ValueError when that character is not a digit. */
  function SelectPreset(mode: string): (r: Result<Preset>)
    ensures HasInfix("planes", mode) ==> |mode| >= 6
    ensures r.Failure? <==> HasInfix("planes", mode) && !IsDigit(mode[0])
    ensures r.Failure? ==> r.error == InvalidPlaneCount(mode[0])
    ensures r == Success(Zeros) <==> mode == "zeros"
    ensures r == Success(Random) <==> mode == "random"
    ensures r == Success(Ellipsoid) <==> mode == "ellipsoid"
    ensures (r.Success? && r.value.Planes?) <==> HasInfix("planes", mode) && IsDigit(mode[0])
    ensures r.Success? && r.value.Planes? ==> r.value.count == DigitValue(mode[0])
    ensures r == Success(Keep) <==>
              mode != "zeros" && mode != "random" && mode != "ellipsoid" && !HasInfix("planes", mode)
  {
    assert !HasInfix("planes", "random") by { assert "random"[..6][0] != "planes"[0]; }
    assert !HasInfix("planes", "ellipsoid") by {
      var s := "ellipsoid";
      assert s[..6][0] != 'p' && s[1..][..6][0] != 'p' && s[2..][..6][0] != 'p' && s[3..][..6][0] != 'p';
      assert s[1..][1..] == s[2..] && s[2..][1..] == s[3..] && |s[3..][1..]| < 6;
    }
    if mode == "zeros" then Success(Zeros)
    else if mode == "random" then Success(Random)
    else if HasInfix("planes", mode) then
      if IsDigit(mode[0]) then Success(Planes(DigitValue(mode[0])))
      else Failure(InvalidPlaneCount(mode[0]))
    else if mode == "ellipsoid" then Success(Ellipsoid)
    else Success(Keep)
  }

  // ---------------------------------------------------------------- planes

  /** The plane the single-plane preset fills: z_size // 2 + z_offset with z_offset 4. */
  function PlaneIndex(dz: nat): nat
  {
    dz / 2 + 4
  }

  /** generate_planes_volume's result. One plane: plane PlaneIndex(dz) gets birefringence 0.1
      and optic axis (1, 0, 0), every other voxel stays 0, and indexing a plane past the
      volume raises IndexError. No plane: the loop over planes is empty and the volume stays
      zero. Two or more planes: the random slab volume `slabs`. */
  function PlanesVolume(dz: nat, dy: nat, dx: nat, n: nat, slabs: Volume): (r: Result<Volume>)
    ensures n == 1 ==> (r.Failure? <==> PlaneIndex(dz) >= dz)
    ensures n != 1 ==> r.Success?
    ensures r.Failure? ==> r.error == IndexOutOfRange
    ensures n <= 1 && r.Success? ==> r.value.Valid() && r.value.dz == dz && r.value.dy == dy && r.value.dx == dx
    ensures n >= 2 ==> r == Success(slabs)
    ensures n == 0 ==> r.Success?
    ensures n == 0 ==> forall c, z, y, x :: 0 <= c < 4 && r.value.InBounds(z, y, x) ==> r.value.At(c, z, y, x) == 0.0
  {
    if n == 1 then
      if PlaneIndex(dz) >= dz then Failure(IndexOutOfRange)
      else Success(VolumeOf(dz, dy, dx, (c: nat, z: nat, y: nat, x: nat) =>
        if z == PlaneIndex(dz) && c == 0 then 0.1
        else if z == PlaneIndex(dz) && c == 1 then 1.0
        else 0.0))
    else if n == 0 then Success(ZeroVolume(dz, dy, dx))
    else Success(slabs)
  }

  /** The single plane fits exactly when the volume has more than eight planes. */
  lemma SinglePlaneFits(dz: nat, dy: nat, dx: nat, slabs: Volume)
    ensures PlanesVolume(dz, dy, dx, 1, slabs).Success? <==> dz > 8
  {
  }

  /** The single-plane preset sets only plane PlaneIndex(dz): there channel 0 is 0.1,
      channel 1 is 1 and channels 2 and 3 are 0; every voxel off that plane is 0. */
  lemma SinglePlaneContents(dz: nat, dy: nat, dx: nat, slabs: Volume, c: nat, z: nat, y: nat, x: nat)
    requires PlanesVolume(dz, dy, dx, 1, slabs).Success?
    requires c < 4 && 0 <= z < dz && 0 <= y < dy && 0 <= x < dx
    ensures z != PlaneIndex(dz) ==> PlanesVolume(dz, dy, dx, 1, slabs).value.At(c, z, y, x) == 0.0
    ensures z == PlaneIndex(dz) ==>
              PlanesVolume(dz, dy, dx, 1, slabs).value.At(c, z, y, x) == [0.1, 1.0, 0.0, 0.0][c]
  {
  }

  /** generate_planes_volume: start from zeros and slice-assign the plane of the
      single-plane preset into channels 0 and 1. */
  method GeneratePlanesVolume(dz: nat, dy: nat, dx: nat, n: nat, slabs: Volume) returns (r: Result<Volume>)
    ensures r == PlanesVolume(dz, dy, dx, n, slabs)
  {
    var vol := ZeroVolume(dz, dy, dx);
    if n == 1 {
      var z := dz / 2 + 4;
      if z >= dz {
        return Failure(IndexOutOfRange);
      }
      vol := vol.WithChannel(0, WithPlane(vol.channels[0], z, 0.1, dz, dy, dx));
      vol := vol.WithChannel(1, WithPlane(vol.channels[1], z, 1.0, dz, dy, dx));
      VolumeExt(vol, PlanesVolume(dz, dy, dx, n, slabs).value);
      return Success(vol);
    }
    if n >= 2 {
      return Success(slabs);
    }
    return Success(vol);
  }

  // ---------------------------------------------------------------- ellipsoid

  /** The arguments of generate_ellipsoid_volume: the centre as fractions of the shape, the
      three radii, the tolerance alpha of the border test and the birefringence delta_n. */
  datatype EllipsoidArgs = EllipsoidArgs(center: Vec3, radius: Vec3, alpha: real, deltaN: real)
  {
    /** The radii are divisors in the normals and their squares in the border (the squares
        are nonzero whenever the radii are; both are stated so that each division can cite one). */
    predicate Valid()
    {
      radius.a != 0.0 && radius.b != 0.0 && radius.c != 0.0 &&
      Sq(radius.a) != 0.0 && Sq(radius.b) != 0.0 && Sq(radius.c) != 0.0
    }
  }

  /** The arguments init_volume passes for the 'ellipsoid' mode. */
  const InitEllipsoid: EllipsoidArgs := EllipsoidArgs(Vec3(0.5, 0.5, 0.5), Vec3(5.0, 7.5, 7.5), 0.1, 0.1)

  /** floor(center * size) - i: the coordinate of index i relative to the centre. */
  function Centred(center: real, size: nat, i: nat): real
  {
    (CentreIndex(center, size) - i) as real
  }

  /** The index floor(center * size) that Centred maps to 0. */
  function CentreIndex(center: real, size: nat): int
  {
    (center * size as real).Floor
  }

  /** The centred coordinates (kk, jj, ii) of voxel (z, y, x). */
  function Coords(e: EllipsoidArgs, dz: nat, dy: nat, dx: nat, z: nat, y: nat, x: nat): Vec3
  {
    Vec3(Centred(e.center.a, dz, z), Centred(e.center.b, dy, y), Centred(e.center.c, dx, x))
  }

  /** x ** 2. */
  function Sq(x: real): real
  {
    x * x
  }

  function Abs(v: real): real
  {
    if v < 0.0 then -v else v
  }

  /** ellipsoid_border_mask: |kk^2/r0^2 + jj^2/r1^2 + ii^2/r2^2 - alpha| <= 1. */
  predicate InMask(e: EllipsoidArgs, dz: nat, dy: nat, dx: nat, z: nat, y: nat, x: nat)
    requires e.Valid()
  {
    var k := Coords(e, dz, dy, dx, z, y, x);
    Abs(Sq(k.a) / Sq(e.radius.a) + Sq(k.b) / Sq(e.radius.b) + Sq(k.c) / Sq(e.radius.c) - e.alpha) <= 1.0
  }

  /** The unnormalised normal (2 kk / r0, 2 jj / r1, 2 ii / r2). */
  function Normal(e: EllipsoidArgs, dz: nat, dy: nat, dx: nat, z: nat, y: nat, x: nat): Vec3
    requires e.Valid()
  {
    var k := Coords(e, dz, dy, dx, z, y, x);
    Vec3(2.0 * k.a / e.radius.a, 2.0 * k.b / e.radius.b, 2.0 * k.c / e.radius.c)
  }

  /** norm_factor with its guard: the square root of the squared length, replaced by 1 where
      it is 0, so that the normal can always be divided by it. */
  function NormFactor(sqrt: real -> real, n: Vec3): (f: real)
    ensures f != 0.0
  {
    var s := sqrt(n.a * n.a + n.b * n.b + n.c * n.c);
    if s == 0.0 then 1.0 else s
  }

  /** The mask as the float tensor vol[0, ...] before the scaling by delta_n. */
  function MaskValue(e: EllipsoidArgs, dz: nat, dy: nat, dx: nat, z: nat, y: nat, x: nat): real
    requires e.Valid()
  {
    if InMask(e, dz, dy, dx, z, y, x) then 1.0 else 0.0
  }

  /** Component `c` (1, 2 or 3) of the normalised normal; channel 0 has none. */
  function UnitNormal(e: EllipsoidArgs, sqrt: real -> real, dz: nat, dy: nat, dx: nat, c: nat, z: nat, y: nat, x: nat): real
    requires e.Valid()
  {
    var n := Normal(e, dz, dy, dx, z, y, x);
    var f := NormFactor(sqrt, n);
    if c == 1 then n.a / f else if c == 2 then n.b / f else if c == 3 then n.c / f else 0.0
  }

  /** Voxel (c, z, y, x) of generate_ellipsoid_volume's result: channel 0 is mask * delta_n,
      and channel c of the axis is the normalised normal's component times the mask. */
  function EllipsoidVoxel(e: EllipsoidArgs, sqrt: real -> real, dz: nat, dy: nat, dx: nat, c: nat, z: nat, y: nat, x: nat): real
    requires e.Valid()
  {
    if c == 0 then MaskValue(e, dz, dy, dx, z, y, x) * e.deltaN
    else UnitNormal(e, sqrt, dz, dy, dx, c, z, y, x) * MaskValue(e, dz, dy, dx, z, y, x)
  }

  /** generate_ellipsoid_volume's result as a whole. */
  function EllipsoidVolume(e: EllipsoidArgs, sqrt: real -> real, dz: nat, dy: nat, dx: nat): (v: Volume)
    requires e.Valid()
    ensures v.Valid() && v.dz == dz && v.dy == dy && v.dx == dx
    ensures forall c, z, y, x :: 0 <= c < 4 && v.InBounds(z, y, x) ==>
              v.At(c, z, y, x) == EllipsoidVoxel(e, sqrt, dz, dy, dx, c, z, y, x)
  {
    VolumeOf(dz, dy, dx, (c: nat, z: nat, y: nat, x: nat) => EllipsoidVoxel(e, sqrt, dz, dy, dx, c, z, y, x))
  }

  /** The mask as a grid: ellipsoid_border_mask.astype(float). */
  function MaskGrid(e: EllipsoidArgs, dz: nat, dy: nat, dx: nat): (g: Grid)
    requires e.Valid()
    ensures IsGrid(g, dz, dy, dx)
    ensures forall z, y, x :: 0 <= z < dz && 0 <= y < dy && 0 <= x < dx ==> g[z][y][x] == MaskValue(e, dz, dy, dx, z, y, x)
  {
    GridOf(dz, dy, dx, (z: nat, y: nat, x: nat) => MaskValue(e, dz, dy, dx, z, y, x))
  }

  /** Component c of the normalised normal as a grid: kk_normal / norm_factor and its kin. */
  function NormalGrid(e: EllipsoidArgs, sqrt: real -> real, dz: nat, dy: nat, dx: nat, c: nat): (g: Grid)
    requires e.Valid()
    ensures IsGrid(g, dz, dy, dx)
    ensures forall z, y, x :: 0 <= z < dz && 0 <= y < dy && 0 <= x < dx ==> g[z][y][x] == UnitNormal(e, sqrt, dz, dy, dx, c, z, y, x)
  {
    GridOf(dz, dy, dx, (z: nat, y: nat, x: nat) => UnitNormal(e, sqrt, dz, dy, dx, c, z, y, x))
  }

  /** The four channels the slice assignments of generate_ellipsoid_volume leave make up
      EllipsoidVolume. */
  lemma EllipsoidChannels(e: EllipsoidArgs, sqrt: real -> real, dz: nat, dy: nat, dx: nat, vol: Volume)
    requires e.Valid()
    requires vol.dz == dz && vol.dy == dy && vol.dx == dx
    requires var m := MaskGrid(e, dz, dy, dx);
             vol.channels == [Scaled(m, e.deltaN, dz, dy, dx), Times(NormalGrid(e, sqrt, dz, dy, dx, 1), m, dz, dy, dx),
                              Times(NormalGrid(e, sqrt, dz, dy, dx, 2), m, dz, dy, dx), Times(NormalGrid(e, sqrt, dz, dy, dx, 3), m, dz, dy, dx)]
    ensures vol == EllipsoidVolume(e, sqrt, dz, dy, dx)
  {
    var spec := EllipsoidVolume(e, sqrt, dz, dy, dx);
    BirefringenceChannel(e, sqrt, dz, dy, dx, vol.channels[0]);
    AxisChannel(e, sqrt, dz, dy, dx, vol.channels[1], 1);
    AxisChannel(e, sqrt, dz, dy, dx, vol.channels[2], 2);
    AxisChannel(e, sqrt, dz, dy, dx, vol.channels[3], 3);
    assert vol.channels == spec.channels;
  }

  /** The mask scaled by delta_n is channel 0 of the ellipsoid volume. */
  lemma BirefringenceChannel(e: EllipsoidArgs, sqrt: real -> real, dz: nat, dy: nat, dx: nat, g: Grid)
    requires e.Valid() && g == Scaled(MaskGrid(e, dz, dy, dx), e.deltaN, dz, dy, dx)
    ensures g == EllipsoidVolume(e, sqrt, dz, dy, dx).channels[0]
  {
    var spec := EllipsoidVolume(e, sqrt, dz, dy, dx).channels[0];
    assert IsGrid(spec, dz, dy, dx);
    forall z, y, x | 0 <= z < dz && 0 <= y < dy && 0 <= x < dx
      ensures g[z][y][x] == spec[z][y][x]
    {
      ChannelVoxel(e, sqrt, dz, dy, dx, 0, z, y, x);
    }
    GridExt(g, spec, dz, dy, dx);
  }

  /** Normal component c times the mask is axis channel c of the ellipsoid volume. */
  lemma AxisChannel(e: EllipsoidArgs, sqrt: real -> real, dz: nat, dy: nat, dx: nat, g: Grid, c: nat)
    requires e.Valid() && 1 <= c < 4
    requires g == Times(NormalGrid(e, sqrt, dz, dy, dx, c), MaskGrid(e, dz, dy, dx), dz, dy, dx)
    ensures g == EllipsoidVolume(e, sqrt, dz, dy, dx).channels[c]
  {
    var spec := EllipsoidVolume(e, sqrt, dz, dy, dx).channels[c];
    assert IsGrid(spec, dz, dy, dx);
    forall z, y, x | 0 <= z < dz && 0 <= y < dy && 0 <= x < dx
      ensures g[z][y][x] == spec[z][y][x]
    {
      ChannelVoxel(e, sqrt, dz, dy, dx, c, z, y, x);
    }
    GridExt(g, spec, dz, dy, dx);
  }

  /** Voxel (z, y, x) of channel c of the ellipsoid volume, in terms of the mask and the
      normal grids the slice assignments combine. */
  lemma ChannelVoxel(e: EllipsoidArgs, sqrt: real -> real, dz: nat, dy: nat, dx: nat, c: nat, z: nat, y: nat, x: nat)
    requires e.Valid() && c < 4 && z < dz && y < dy && x < dx
    ensures var v := EllipsoidVolume(e, sqrt, dz, dy, dx);
            IsGrid(v.channels[c], dz, dy, dx) &&
            v.channels[c][z][y][x] ==
              if c == 0 then Scaled(MaskGrid(e, dz, dy, dx), e.deltaN, dz, dy, dx)[z][y][x]
              else Times(NormalGrid(e, sqrt, dz, dy, dx, c), MaskGrid(e, dz, dy, dx), dz, dy, dx)[z][y][x]
  {
    var v := EllipsoidVolume(e, sqrt, dz, dy, dx);
    var m := MaskGrid(e, dz, dy, dx);
    assert v.channels[c][z][y][x] == v.At(c, z, y, x) == EllipsoidVoxel(e, sqrt, dz, dy, dx, c, z, y, x);
    assert m[z][y][x] == MaskValue(e, dz, dy, dx, z, y, x);
    if c == 0 {
      assert Scaled(m, e.deltaN, dz, dy, dx)[z][y][x] == m[z][y][x] * e.deltaN;
    } else {
      var n := NormalGrid(e, sqrt, dz, dy, dx, c);
      assert n[z][y][x] == UnitNormal(e, sqrt, dz, dy, dx, c, z, y, x);
      assert Times(n, m, dz, dy, dx)[z][y][x] == n[z][y][x] * m[z][y][x];
    }
  }

  /** generate_ellipsoid_volume: write the mask into channel 0, the three normal components
      times channel 0 into channels 1 to 3, and finally scale channel 0 by delta_n. */
  method GenerateEllipsoidVolume(e: EllipsoidArgs, sqrt: real -> real, dz: nat, dy: nat, dx: nat) returns (vol: Volume)
    requires e.Valid()
    ensures vol == EllipsoidVolume(e, sqrt, dz, dy, dx)
  {
    vol := ZeroVolume(dz, dy, dx);
    vol := vol.WithChannel(0, MaskGrid(e, dz, dy, dx));
    vol := vol.WithChannel(1, Times(NormalGrid(e, sqrt, dz, dy, dx, 1), vol.channels[0], dz, dy, dx));
    vol := vol.WithChannel(2, Times(NormalGrid(e, sqrt, dz, dy, dx, 2), vol.channels[0], dz, dy, dx));
    vol := vol.WithChannel(3, Times(NormalGrid(e, sqrt, dz, dy, dx, 3), vol.channels[0], dz, dy, dx));
    vol := vol.WithChannel(0, Scaled(vol.channels[0], e.deltaN, dz, dy, dx));
    EllipsoidChannels(e, sqrt, dz, dy, dx, vol);
  }

  /** Channel 0 of the ellipsoid is delta_n on the mask and 0 off it, so 0 or delta_n everywhere. */
  lemma EllipsoidBirefringence(e: EllipsoidArgs, sqrt: real -> real, dz: nat, dy: nat, dx: nat, z: nat, y: nat, x: nat)
    requires e.Valid() && z < dz && y < dy && x < dx
    ensures InMask(e, dz, dy, dx, z, y, x) ==> EllipsoidVolume(e, sqrt, dz, dy, dx).At(0, z, y, x) == e.deltaN
    ensures !InMask(e, dz, dy, dx, z, y, x) ==> EllipsoidVolume(e, sqrt, dz, dy, dx).At(0, z, y, x) == 0.0
  {
  }

  /** Off the mask all three axis channels are 0. */
  lemma EllipsoidAxisOffMask(e: EllipsoidArgs, sqrt: real -> real, dz: nat, dy: nat, dx: nat, c: nat, z: nat, y: nat, x: nat)
    requires e.Valid() && 1 <= c < 4 && z < dz && y < dy && x < dx
    requires !InMask(e, dz, dy, dx, z, y, x)
    ensures EllipsoidVolume(e, sqrt, dz, dy, dx).At(c, z, y, x) == 0.0
  {
  }

  /** With a nonzero delta_n, the axis channels are 0 wherever channel 0 is 0. */
  lemma EllipsoidAxisWhereNoBirefringence(e: EllipsoidArgs, sqrt: real -> real, dz: nat, dy: nat, dx: nat, c: nat, z: nat, y: nat, x: nat)
    requires e.Valid() && e.deltaN != 0.0 && 1 <= c < 4 && z < dz && y < dy && x < dx
    requires EllipsoidVolume(e, sqrt, dz, dy, dx).At(0, z, y, x) == 0.0
    ensures EllipsoidVolume(e, sqrt, dz, dy, dx).At(c, z, y, x) == 0.0
  {
    EllipsoidBirefringence(e, sqrt, dz, dy, dx, z, y, x);
  }

  /** The centre voxel, floor(center * size) along each axis, has coordinates (0, 0, 0). */
  lemma CentreCoords(e: EllipsoidArgs, dz: nat, dy: nat, dx: nat)
    requires 0 <= CentreIndex(e.center.a, dz) && 0 <= CentreIndex(e.center.b, dy) && 0 <= CentreIndex(e.center.c, dx)
    ensures Coords(e, dz, dy, dx, CentreIndex(e.center.a, dz), CentreIndex(e.center.b, dy), CentreIndex(e.center.c, dx)) == ZeroVec3
  {
  }

  /** The centre voxel has a zero normal, so its norm factor is the guard's 1 whenever the
      square root of 0 is 0, and its axis is 0 whatever the norm factor. */
  lemma EllipsoidCentreAxis(e: EllipsoidArgs, sqrt: real -> real, dz: nat, dy: nat, dx: nat, c: nat)
    requires e.Valid() && 1 <= c < 4
    requires 0 <= CentreIndex(e.center.a, dz) < dz
    requires 0 <= CentreIndex(e.center.b, dy) < dy
    requires 0 <= CentreIndex(e.center.c, dx) < dx
    ensures var z, y, x := CentreIndex(e.center.a, dz), CentreIndex(e.center.b, dy), CentreIndex(e.center.c, dx);
            Normal(e, dz, dy, dx, z, y, x) == ZeroVec3 &&
            (sqrt(0.0) == 0.0 ==> NormFactor(sqrt, Normal(e, dz, dy, dx, z, y, x)) == 1.0) &&
            EllipsoidVolume(e, sqrt, dz, dy, dx).At(c, z, y, x) == 0.0
  {
    var z, y, x := CentreIndex(e.center.a, dz), CentreIndex(e.center.b, dy), CentreIndex(e.center.c, dx);
    CentreCoords(e, dz, dy, dx);
    var n := Normal(e, dz, dy, dx, z, y, x);
    assert n == ZeroVec3;
    assert UnitNormal(e, sqrt, dz, dy, dx, c, z, y, x) == 0.0;
    assert EllipsoidVolume(e, sqrt, dz, dy, dx).At(c, z, y, x) == EllipsoidVoxel(e, sqrt, dz, dy, dx, c, z, y, x);
  }

  /** A zero coordinate contributes nothing to the border value. */
  lemma ZeroOver(v: real, d: real)
    requires v == 0.0 && d != 0.0
    ensures Sq(v) / d == 0.0
  {
  }

  /** The centre voxel's border value is |0 - alpha|, so it is on the mask iff |alpha| <= 1. */
  lemma CentreInMask(e: EllipsoidArgs, dz: nat, dy: nat, dx: nat)
    requires e.Valid()
    requires 0 <= CentreIndex(e.center.a, dz) && 0 <= CentreIndex(e.center.b, dy) && 0 <= CentreIndex(e.center.c, dx)
    ensures InMask(e, dz, dy, dx, CentreIndex(e.center.a, dz), CentreIndex(e.center.b, dy), CentreIndex(e.center.c, dx))
            <==> Abs(e.alpha) <= 1.0
  {
    CentreCoords(e, dz, dy, dx);
    var k := Coords(e, dz, dy, dx, CentreIndex(e.center.a, dz), CentreIndex(e.center.b, dy), CentreIndex(e.center.c, dx));
    ZeroOver(k.a, Sq(e.radius.a));
    ZeroOver(k.b, Sq(e.radius.b));
    ZeroOver(k.c, Sq(e.radius.c));
    var border := Sq(k.a) / Sq(e.radius.a) + Sq(k.b) / Sq(e.radius.b) + Sq(k.c) / Sq(e.radius.c);
    assert border == 0.0;
    assert Abs(border - e.alpha) == Abs(e.alpha);
    assert InMask(e, dz, dy, dx, CentreIndex(e.center.a, dz), CentreIndex(e.center.b, dy), CentreIndex(e.center.c, dx))
           <==> Abs(border - e.alpha) <= 1.0;
  }

  /** The centre voxel's border value is 0, so with |alpha| <= 1 it lies on the mask and
      keeps birefringence delta_n while its axis is the zero vector (EllipsoidCentreAxis):
      a birefringent voxel whose optic axis is not a unit vector. */
  lemma EllipsoidCentreBirefringent(e: EllipsoidArgs, sqrt: real -> real, dz: nat, dy: nat, dx: nat)
    requires e.Valid() && Abs(e.alpha) <= 1.0
    requires 0 <= CentreIndex(e.center.a, dz) < dz
    requires 0 <= CentreIndex(e.center.b, dy) < dy
    requires 0 <= CentreIndex(e.center.c, dx) < dx
    ensures var z, y, x := CentreIndex(e.center.a, dz), CentreIndex(e.center.b, dy), CentreIndex(e.center.c, dx);
            InMask(e, dz, dy, dx, z, y, x) && EllipsoidVolume(e, sqrt, dz, dy, dx).At(0, z, y, x) == e.deltaN
  {
    var z, y, x := CentreIndex(e.center.a, dz), CentreIndex(e.center.b, dy), CentreIndex(e.center.c, dx);
    CentreInMask(e, dz, dy, dx);
    EllipsoidBirefringence(e, sqrt, dz, dy, dx, z, y, x);
  }

  /** On the mask the axis channels hold the normalised normal. */
  lemma EllipsoidAxisOnMask(e: EllipsoidArgs, sqrt: real -> real, dz: nat, dy: nat, dx: nat, z: nat, y: nat, x: nat)
    requires e.Valid() && z < dz && y < dy && x < dx
    requires InMask(e, dz, dy, dx, z, y, x)
    ensures var v := EllipsoidVolume(e, sqrt, dz, dy, dx);
            forall c :: 1 <= c < 4 ==> v.At(c, z, y, x) == UnitNormal(e, sqrt, dz, dy, dx, c, z, y, x)
  {
  }

  // ---------------------------------------------------------------- init_volume

  /** What init_volume draws from a random generator: the volume of the 'random' mode and the
      random slab volume of an 'Nplanes' mode with N >= 2. */
  datatype Draws = Draws(random: Volume, slabs: Volume)

  /** init_volume on a volume of shape [dz, dy, dx] whose parameters are `current`: the new
      parameters, or the exception the selected generator raises. */
  function InitVolume(dz: nat, dy: nat, dx: nat, current: Volume, mode: string, draws: Draws, sqrt: real -> real): (r: Result<Volume>)
    ensures r.Failure? <==>
              SelectPreset(mode).Failure? || (SelectPreset(mode) == Success(Planes(1)) && dz <= 8)
    ensures r.Failure? ==> r.error == IndexOutOfRange || r.error == InvalidPlaneCount(mode[0])
    ensures SelectPreset(mode) == Success(Keep) ==> r == Success(current)
    ensures SelectPreset(mode) == Success(Random) ==> r == Success(draws.random)
    ensures SelectPreset(mode) == Success(Zeros) ==> r == Success(ZeroVolume(dz, dy, dx))
    ensures forall n :: SelectPreset(mode) == Success(Planes(n)) ==> r == PlanesVolume(dz, dy, dx, n, draws.slabs)
    ensures SelectPreset(mode) == Success(Ellipsoid) ==> r == Success(EllipsoidVolume(InitEllipsoid, sqrt, dz, dy, dx))
  {
    match SelectPreset(mode)
    case Failure(err) => Failure(err)
    case Success(Zeros) => Success(ZeroVolume(dz, dy, dx))
    case Success(Random) => Success(draws.random)
    case Success(Planes(n)) => PlanesVolume(dz, dy, dx, n, draws.slabs)
    case Success(Ellipsoid) => Success(EllipsoidVolume(InitEllipsoid, sqrt, dz, dy, dx))
    case Success(Keep) => Success(current)
  }

  /** The 'zeros' mode gives the all-zero [4] + volume_shape grid. */
  lemma InitZeros(dz: nat, dy: nat, dx: nat, current: Volume, draws: Draws, sqrt: real -> real)
    ensures var r := InitVolume(dz, dy, dx, current, "zeros", draws, sqrt);
            r.Success? && r.value.Valid() && r.value.dz == dz && r.value.dy == dy && r.value.dx == dx &&
            forall c, z, y, x :: 0 <= c < 4 && r.value.InBounds(z, y, x) ==> r.value.At(c, z, y, x) == 0.0
  {
  }

  /** The '1planes' mode gives the single-plane preset, or IndexError when the volume has
      eight planes or fewer. */
  lemma InitOnePlane(dz: nat, dy: nat, dx: nat, current: Volume, draws: Draws, sqrt: real -> real)
    ensures InitVolume(dz, dy, dx, current, "1planes", draws, sqrt) == PlanesVolume(dz, dy, dx, 1, draws.slabs)
    ensures InitVolume(dz, dy, dx, current, "1planes", draws, sqrt).Success? <==> dz > 8
  {
    assert HasInfix("planes", "1planes"[1..]);
  }

  /** The '0planes' mode gives an all-zero volume: the loop over planes is empty. */
  lemma InitNoPlanes(dz: nat, dy: nat, dx: nat, current: Volume, draws: Draws, sqrt: real -> real)
    ensures var r := InitVolume(dz, dy, dx, current, "0planes", draws, sqrt);
            r.Success? && r.value.Valid() && r.value.dz == dz && r.value.dy == dy && r.value.dx == dx &&
            forall c, z, y, x :: 0 <= c < 4 && r.value.InBounds(z, y, x) ==> r.value.At(c, z, y, x) == 0.0
  {
    assert HasInfix("planes", "0planes"[1..]);
  }

  /** The 'ellipsoid' mode gives a birefringence of 0.1 on the mask and 0 off it. */
  lemma InitEllipsoidBirefringence(dz: nat, dy: nat, dx: nat, current: Volume, draws: Draws, sqrt: real -> real, z: nat, y: nat, x: nat)
    requires z < dz && y < dy && x < dx
    ensures var r := InitVolume(dz, dy, dx, current, "ellipsoid", draws, sqrt);
            r.Success? && r.value.Valid() && r.value.InBounds(z, y, x) &&
            (r.value.At(0, z, y, x) == 0.1 <==> InMask(InitEllipsoid, dz, dy, dx, z, y, x)) &&
            (r.value.At(0, z, y, x) == 0.0 <==> !InMask(InitEllipsoid, dz, dy, dx, z, y, x))
  {
    InitEllipsoidIs(dz, dy, dx, current, draws, sqrt);
    EllipsoidBirefringence(InitEllipsoid, sqrt, dz, dy, dx, z, y, x);
  }

  /** The 'ellipsoid' mode gives the ellipsoid volume with init_volume's arguments. */
  lemma InitEllipsoidIs(dz: nat, dy: nat, dx: nat, current: Volume, draws: Draws, sqrt: real -> real)
    ensures InitVolume(dz, dy, dx, current, "ellipsoid", draws, sqrt) == Success(EllipsoidVolume(InitEllipsoid, sqrt, dz, dy, dx))
  {
  }


  /** The "ellipsoid" preset's centre voxel (floor(size / 2) along each axis) is birefringent,
      with delta_n 0.1, while all three components of its optic axis are 0. */
  lemma InitEllipsoidCentre(dz: nat, dy: nat, dx: nat, current: Volume, draws: Draws, sqrt: real -> real, c: nat)
    requires 0 < dz && 0 < dy && 0 < dx && 1 <= c < 4
    ensures var r := InitVolume(dz, dy, dx, current, "ellipsoid", draws, sqrt);
            var z, y, x := CentreIndex(0.5, dz), CentreIndex(0.5, dy), CentreIndex(0.5, dx);
            r.Success? && 0 <= z < dz && 0 <= y < dy && 0 <= x < dx &&
            r.value.At(0, z, y, x) == 0.1 && r.value.At(c, z, y, x) == 0.0
  {
    HalfIndex(dz);
    HalfIndex(dy);
    HalfIndex(dx);
    InitEllipsoidIs(dz, dy, dx, current, draws, sqrt);
    EllipsoidCentreAxis(InitEllipsoid, sqrt, dz, dy, dx, c);
    EllipsoidCentreBirefringent(InitEllipsoid, sqrt, dz, dy, dx);
  }

  /** floor(0.5 * size) is an index of a non-empty axis. */
  lemma HalfIndex(size: nat)
    requires 0 < size
    ensures 0 <= CentreIndex(0.5, size) < size
  {
  }
}
