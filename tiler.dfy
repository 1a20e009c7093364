/** The forward projector (ray_trace_through_volume): one retardance and one azimuth tile per
    micro-lens, each computed from the rays of a single micro-lens shifted over the volume,
    concatenated into a mosaic of (2h+1) by (2h+1) tiles with h = floor(n_micro_lenses / 2). */
module Tiler {
  import opened Common
  import opened Images
  import opened Jones
  import opened Volumes
  import opened Accumulator

  /** The micro-lens array settings the projector reads. */
  datatype MlaConfig = MlaConfig(
    nMicroLenses: nat,   // n_micro_lenses
    nVoxelsPerMl: int,   // n_voxels_per_ml
    pixelsPerMl: nat)    // n_pixels_per_mla, the side of one tile

  /** The projector object: its settings and the ray geometry precomputed for one micro-lens. */
  datatype Tracer = Tracer(
    mla: MlaConfig,
    geom: RayGeometry,
    voxCtrIdx: (int, int, int),  // vox_ctr_idx: the (z, y, x) voxel under the centre of the micro-lens
    voxelSpanPerMl: int)         // voxel_span_per_ml: the voxels one micro-lens's rays reach in y
  {
    predicate Valid()
    {
      geom.Valid()
    }

    /** n_ml_half. */
    function Half(): nat
    {
      mla.nMicroLenses / 2
    }

    /** The number of micro-lenses along each side of the mosaic. */
    function Side(): nat
    {
      2 * Half() + 1
    }
  }

  /** The retardance and azimuth images of one micro-lens, or of the whole array. */
  datatype TilePair = TilePair(ret: Image, azim: Image)
  {
    function Get(o: Observable): Image
    {
      match o
      case Retardance => ret
      case Azimuth => azim
    }
  }

  /** The two observables the projector images. */
  datatype Observable = Retardance | Azimuth

  // ---------------------------------------------------------------------------------------
  // ret_and_azim_images

  /** The micro-lens offset after ret_and_azim_images moves it to the volume centre:
      offset + vox_ctr_idx[1:] - n_ml_half. */
  function CenteredOffset(tr: Tracer, off: (int, int)): (int, int)
  {
    (off.0 + tr.voxCtrIdx.1 - tr.Half(), off.1 + tr.voxCtrIdx.2 - tr.Half())
  }

  /** calc_retardance or calc_azimuth applied to every effective matrix. */
  function Observe(jms: seq<JonesMatrix>, f: JonesMatrix -> real): (vals: seq<real>)
    ensures |vals| == |jms| && forall n :: 0 <= n < |jms| ==> vals[n] == f(jms[n])
  {
    seq(|jms|, n requires 0 <= n < |jms| => f(jms[n]))
  }

  /** The pixel (i, j) of a p-by-p image, resolved as torch resolves the index. */
  function Resolve(pix: (int, int), p: nat): Option<(nat, nat)>
  {
    var i, j := PyIndex(pix.0, p), PyIndex(pix.1, p);
    if i.Some? && j.Some? then Some((i.value, j.value)) else None
  }

  /** The write of ray n can be made: it has a value and both indices of its pixel resolve
      in the p-by-p image (lie in [-p, p), a negative one wrapping to the far edge). */
  predicate WriteOk(pixels: seq<(int, int)>, nVals: nat, p: nat, n: nat)
    requires n < |pixels|
  {
    n < nVals && Resolve(pixels[n], p).Some?
  }

  /** The image obtained from a p-by-p zero image by writing vals[n] at pixels[n] for every n
      in order, or None once a write raises IndexError. */
  function Scatter(pixels: seq<(int, int)>, vals: seq<real>, p: nat): (r: Option<Image>)
    ensures r.Some? ==> HasShape(r.value, p, p)
    decreases |pixels|
  {
    if |pixels| == 0 then Some(Zeros(p, p))
    else
      var n := |pixels| - 1;
      var prev := Scatter(pixels[..n], vals, p);
      if prev.None? || !WriteOk(pixels, |vals|, p, n) then None
      else
        var img, at := prev.value, Resolve(pixels[n], p).value;
        Some(img[at.0 := img[at.0][at.1 := vals[n]]])
  }

  /** The last ray that writes pixel (a, b), if any. */
  function LastWriter(pixels: seq<(int, int)>, p: nat, a: nat, b: nat): (w: Option<nat>)
    ensures w.Some? ==> w.value < |pixels| && Resolve(pixels[w.value], p) == Some((a, b))
    ensures w.Some? ==> forall n :: w.value < n < |pixels| ==> Resolve(pixels[n], p) != Some((a, b))
    ensures w.None? ==> forall n :: 0 <= n < |pixels| ==> Resolve(pixels[n], p) != Some((a, b))
    decreases |pixels|
  {
    if |pixels| == 0 then None
    else if Resolve(pixels[|pixels| - 1], p) == Some((a, b)) then Some(|pixels| - 1)
    else LastWriter(pixels[..|pixels| - 1], p, a, b)
  }

  /** The scatter fails exactly when some ray has no value or a pixel index that does not
      resolve. */
  lemma {:induction false} ScatterDefined(pixels: seq<(int, int)>, vals: seq<real>, p: nat)
    ensures Scatter(pixels, vals, p).Some? <==>
            forall n :: 0 <= n < |pixels| ==> WriteOk(pixels, |vals|, p, n)
    decreases |pixels|
  {
    if |pixels| > 0 {
      var n := |pixels| - 1;
      ScatterDefined(pixels[..n], vals, p);
      assert forall q :: 0 <= q < n ==> pixels[..n][q] == pixels[q];
      assert forall q :: 0 <= q < n ==> (WriteOk(pixels[..n], |vals|, p, q) <==> WriteOk(pixels, |vals|, p, q));
    }
  }

  /** One more write extends the scatter of a prefix. */
  lemma ScatterStep(pixels: seq<(int, int)>, vals: seq<real>, p: nat, n: nat, img: Image)
    requires n < |pixels| && Scatter(pixels[..n], vals, p) == Some(img) && WriteOk(pixels, |vals|, p, n)
    ensures var at := Resolve(pixels[n], p).value;
            Scatter(pixels[..n + 1], vals, p) == Some(img[at.0 := img[at.0][at.1 := vals[n]]])
  {
    assert pixels[..n + 1][..n] == pixels[..n];
  }

  /** After the scatter each pixel holds the value of the last ray that writes it (the last
      write wins), and a pixel no ray writes keeps its 0. */
  lemma {:induction false} ScatterPixel(pixels: seq<(int, int)>, vals: seq<real>, p: nat, a: nat, b: nat)
    requires Scatter(pixels, vals, p).Some? && a < p && b < p
    ensures LastWriter(pixels, p, a, b).Some? ==> LastWriter(pixels, p, a, b).value < |vals|
    ensures Scatter(pixels, vals, p).value[a][b] ==
              match LastWriter(pixels, p, a, b)
              case None => 0.0
              case Some(n) => vals[n]
    decreases |pixels|
  {
    if |pixels| > 0 {
      var n := |pixels| - 1;
      ScatterPixel(pixels[..n], vals, p, a, b);
    }
  }

  /** The two images of one micro-lens: the effective matrices at the centred offset turned
      into retardance and azimuth values and written to each ray's pixel. */
  function TileImages(tr: Tracer, vol: Volume, phys: Physics, off: (int, int)): (r: Result<TilePair>)
    requires tr.Valid() && vol.Valid()
    ensures r.Success? ==> HasShape(r.value.ret, tr.mla.pixelsPerMl, tr.mla.pixelsPerMl)
    ensures r.Success? ==> HasShape(r.value.azim, tr.mla.pixelsPerMl, tr.mla.pixelsPerMl)
    ensures r.Failure? ==> r.error == IndexOutOfRange
  {
    var p := tr.mla.pixelsPerMl;
    match EffectiveJM(tr.geom, vol, phys, CenteredOffset(tr, off))
    case Failure(e) => Failure(e)
    case Success(jms) =>
      var ret := Scatter(tr.geom.pixelIndexes, Observe(jms, phys.retardance), p);
      var azim := Scatter(tr.geom.pixelIndexes, Observe(jms, phys.azimuth), p);
      if ret.Some? && azim.Some? then Success(TilePair(ret.value, azim.value))
      else Failure(IndexOutOfRange)
  }

  /** TileImages once the effective matrices are known. */
  lemma TileFromScatter(tr: Tracer, vol: Volume, phys: Physics, off: (int, int), jms: seq<JonesMatrix>)
    requires tr.Valid() && vol.Valid()
    requires EffectiveJM(tr.geom, vol, phys, CenteredOffset(tr, off)) == Success(jms)
    ensures var p := tr.mla.pixelsPerMl;
            var ret := Scatter(tr.geom.pixelIndexes, Observe(jms, phys.retardance), p);
            var azim := Scatter(tr.geom.pixelIndexes, Observe(jms, phys.azimuth), p);
            TileImages(tr, vol, phys, off) ==
              if ret.Some? && azim.Some? then Success(TilePair(ret.value, azim.value)) else Failure(IndexOutOfRange)
  {
  }

  lemma TileFromFailure(tr: Tracer, vol: Volume, phys: Physics, off: (int, int))
    requires tr.Valid() && vol.Valid()
    requires EffectiveJM(tr.geom, vol, phys, CenteredOffset(tr, off)).Failure?
    ensures TileImages(tr, vol, phys, off) == Failure(EffectiveJM(tr.geom, vol, phys, CenteredOffset(tr, off)).error)
  {
  }

  /** A write that raises IndexError makes the whole tile fail. */
  lemma TileFailsAtWrite(tr: Tracer, vol: Volume, phys: Physics, off: (int, int), jms: seq<JonesMatrix>, n: nat)
    requires tr.Valid() && vol.Valid()
    requires EffectiveJM(tr.geom, vol, phys, CenteredOffset(tr, off)) == Success(jms)
    requires n < |tr.geom.pixelIndexes| && !WriteOk(tr.geom.pixelIndexes, |jms|, tr.mla.pixelsPerMl, n)
    ensures TileImages(tr, vol, phys, off) == Failure(IndexOutOfRange)
  {
    ScatterDefined(tr.geom.pixelIndexes, Observe(jms, phys.retardance), tr.mla.pixelsPerMl);
    TileFromScatter(tr, vol, phys, off, jms);
  }

  /** A tile exists exactly when every gather resolves its indices and every ray has an
      effective matrix and a pixel whose indices resolve in the tile; then pixel (a, b) of each image holds the
      observable of the last ray written there, and 0 when no ray is. */
  lemma TileContents(tr: Tracer, vol: Volume, phys: Physics, off: (int, int))
    requires tr.Valid() && vol.Valid()
    ensures var c := CenteredOffset(tr, off);
            TileImages(tr, vol, phys, off).Success? <==>
              EffectiveJM(tr.geom, vol, phys, c).Success? &&
              forall n :: 0 <= n < |tr.geom.pixelIndexes| ==>
                WriteOk(tr.geom.pixelIndexes, |EffectiveJM(tr.geom, vol, phys, c).value|, tr.mla.pixelsPerMl, n)
    ensures var c := CenteredOffset(tr, off);
            var t := TileImages(tr, vol, phys, off);
            t.Success? ==>
              forall a, b :: 0 <= a < tr.mla.pixelsPerMl && 0 <= b < tr.mla.pixelsPerMl ==>
                var w := LastWriter(tr.geom.pixelIndexes, tr.mla.pixelsPerMl, a, b);
                var jms := EffectiveJM(tr.geom, vol, phys, c).value;
                (w.None? ==> t.value.ret[a][b] == 0.0 && t.value.azim[a][b] == 0.0) &&
                (w.Some? ==> w.value < |jms| &&
                             t.value.ret[a][b] == phys.retardance(jms[w.value]) &&
                             t.value.azim[a][b] == phys.azimuth(jms[w.value]))
  {
    var c := CenteredOffset(tr, off);
    var p := tr.mla.pixelsPerMl;
    var pixels := tr.geom.pixelIndexes;
    var e := EffectiveJM(tr.geom, vol, phys, c);
    if e.Success? {
      var ret, azim := Observe(e.value, phys.retardance), Observe(e.value, phys.azimuth);
      ScatterDefined(pixels, ret, p);
      ScatterDefined(pixels, azim, p);
      var t := TileImages(tr, vol, phys, off);
      if t.Success? {
        forall a, b | 0 <= a < p && 0 <= b < p
          ensures var w := LastWriter(pixels, p, a, b);
                  (w.None? ==> t.value.ret[a][b] == 0.0 && t.value.azim[a][b] == 0.0) &&
                  (w.Some? ==> w.value < |e.value| &&
                               t.value.ret[a][b] == phys.retardance(e.value[w.value]) &&
                               t.value.azim[a][b] == phys.azimuth(e.value[w.value]))
        {
          ScatterPixel(pixels, ret, p, a, b);
          ScatterPixel(pixels, azim, p, a, b);
        }
      }
    }
  }

  /** The contents of a p-by-p pixel buffer as an image. */
  function ToImage(buf: array2<real>): (img: Image)
    reads buf
    ensures HasShape(img, buf.Length0, buf.Length1)
    ensures forall i, j :: 0 <= i < buf.Length0 && 0 <= j < buf.Length1 ==> img[i][j] == buf[i, j]
  {
    seq(buf.Length0, i requires 0 <= i < buf.Length0 reads buf =>
      seq(buf.Length1, j requires 0 <= j < buf.Length1 reads buf => buf[i, j]))
  }

  /** Two images of the same shape that agree on every pixel are equal. */
  lemma SameImage(x: Image, y: Image, rows: nat, cols: nat)
    requires HasShape(x, rows, cols) && HasShape(y, rows, cols)
    requires forall i, j :: 0 <= i < rows && 0 <= j < cols ==> x[i][j] == y[i][j]
    ensures x == y
  {
    forall i | 0 <= i < rows
      ensures x[i] == y[i]
    {
    }
  }

  /** torch.zeros([p, p]) as a fresh pixel buffer. */
  method NewZeroImage(p: nat) returns (buf: array2<real>)
    ensures fresh(buf) && buf.Length0 == p && buf.Length1 == p
    ensures ToImage(buf) == Zeros(p, p)
  {
    buf := new real[p, p]((_, _) => 0.0);
    SameImage(ToImage(buf), Zeros(p, p), p, p);
  }

  /** buf[i, j] = v: the image changes at that pixel only. */
  method WritePixel(buf: array2<real>, i: nat, j: nat, v: real)
    requires i < buf.Length0 && j < buf.Length1
    modifies buf
    ensures ToImage(buf) == old(ToImage(buf))[i := old(ToImage(buf))[i][j := v]]
  {
    ghost var before := ToImage(buf);
    buf[i, j] := v;
    SameImage(ToImage(buf), before[i := before[i][j := v]], buf.Length0, buf.Length1);
  }

  /** ret_and_azim_images: computes the effective matrices at the centred offset, then writes
      each ray's retardance and azimuth to its pixel of two zero-initialised buffers. */
  method RetAndAzimImages(tr: Tracer, vol: Volume, phys: Physics, off: (int, int))
    returns (r: Result<TilePair>)
    requires tr.Valid() && vol.Valid()
    ensures r == TileImages(tr, vol, phys, off)
  {
    var h := tr.Half();
    var offset := (off.0 + tr.voxCtrIdx.1 - h, off.1 + tr.voxCtrIdx.2 - h);
    var p := tr.mla.pixelsPerMl;
    var retImage := NewZeroImage(p);
    var azimImage := NewZeroImage(p);
    assert offset == CenteredOffset(tr, off);
    var effective := CumulativeJM(tr.geom, vol, phys, offset);
    if effective.Failure? {
      TileFromFailure(tr, vol, phys, off);
      return Failure(effective.error);
    }
    TileFromScatter(tr, vol, phys, off, effective.value);
    var retardance := Observe(effective.value, phys.retardance);
    var azimuth := Observe(effective.value, phys.azimuth);
    var pixels := tr.geom.pixelIndexes;
    assert pixels[..0] == [];
    var rayIx := 0;
    while rayIx < |pixels|
      invariant 0 <= rayIx <= |pixels|
      invariant Scatter(pixels[..rayIx], retardance, p) == Some(ToImage(retImage))
      invariant Scatter(pixels[..rayIx], azimuth, p) == Some(ToImage(azimImage))
    {
      var at := Resolve(pixels[rayIx], p);
      if rayIx >= |retardance| || at.None? {
        TileFailsAtWrite(tr, vol, phys, off, effective.value, rayIx);
        return Failure(IndexOutOfRange);
      }
      var (i, j) := at.value;
      ghost var ret0, azim0 := ToImage(retImage), ToImage(azimImage);
      ghost var ret1, azim1 := ret0[i := ret0[i][j := retardance[rayIx]]], azim0[i := azim0[i][j := azimuth[rayIx]]];
      assert Scatter(pixels[..rayIx + 1], retardance, p) == Some(ret1) by {
        ScatterStep(pixels, retardance, p, rayIx, ret0);
      }
      assert Scatter(pixels[..rayIx + 1], azimuth, p) == Some(azim1) by {
        ScatterStep(pixels, azimuth, p, rayIx, azim0);
      }
      WritePixel(retImage, i, j, retardance[rayIx]);
      WritePixel(azimImage, i, j, azimuth[rayIx]);
      rayIx := rayIx + 1;
    }
    assert pixels[..rayIx] == pixels;
    assert Scatter(pixels, retardance, p) == Some(ToImage(retImage));
    assert Scatter(pixels, azimuth, p) == Some(ToImage(azimImage));
    r := Success(TilePair(ToImage(retImage), ToImage(azimImage)));
  }

  // ---------------------------------------------------------------------------------------
  // ray_trace_through_volume

  /** current_offset of micro-lens (ml_ii, ml_jj). */
  function MicroLensOffset(tr: Tracer, ii: int, jj: int): (int, int)
  {
    (tr.mla.nVoxelsPerMl * ii, tr.mla.nVoxelsPerMl * jj)
  }

  /** The tiles of the micro-lens in block (bi, bj), that is (ml_ii, ml_jj) = (bi - h, bj - h). */
  function TileAt(tr: Tracer, vol: Volume, phys: Physics, bi: int, bj: int): Result<TilePair>
    requires tr.Valid() && vol.Valid()
  {
    TileImages(tr, vol, phys, MicroLensOffset(tr, bi - tr.Half(), bj - tr.Half()))
  }

  /** A table of per-micro-lens results indexed by block (bi, bj). The loops of
      ray_trace_through_volume are specified against such a table; IsTileTable ties it to
      TileAt. */
  type TileTable = (int, int) -> Result<TilePair>

  /** Every tile the table yields is p by p. */
  ghost predicate Shaped(tiles: TileTable, p: nat)
  {
    forall bi, bj :: tiles(bi, bj).Success? ==>
      HasShape(tiles(bi, bj).value.ret, p, p) && HasShape(tiles(bi, bj).value.azim, p, p)
  }

  /** `tiles` holds the tiles of every micro-lens of the projector. The link is only
      instantiated where a TileAt term appears, so that the loops' proofs do not unfold the
      ray tracing of every block they quantify over. */
  ghost predicate IsTileTable(tr: Tracer, vol: Volume, phys: Physics, tiles: TileTable)
    requires tr.Valid() && vol.Valid()
  {
    (forall bi, bj {:trigger TileAt(tr, vol, phys, bi, bj)} :: tiles(bi, bj) == TileAt(tr, vol, phys, bi, bj)) &&
    Shaped(tiles, tr.mla.pixelsPerMl)
  }

  /** The table of TileAt itself is a tile table. */
  lemma TileAtIsTileTable(tr: Tracer, vol: Volume, phys: Physics)
    requires tr.Valid() && vol.Valid()
    ensures IsTileTable(tr, vol, phys, (bi, bj) => TileAt(tr, vol, phys, bi, bj))
  {
  }

  /** The table entry of micro-lens (ml_ii, ml_jj) is its ret_and_azim_images at
      current_offset, in block (ml_ii + h, ml_jj + h). */
  lemma TableEntry(tr: Tracer, vol: Volume, phys: Physics, tiles: TileTable, ii: int, jj: int, off: (int, int))
    requires tr.Valid() && vol.Valid() && IsTileTable(tr, vol, phys, tiles)
    requires off == MicroLensOffset(tr, ii, jj)
    ensures tiles(ii + tr.Half(), jj + tr.Half()) == TileImages(tr, vol, phys, off)
  {
    assert tiles(ii + tr.Half(), jj + tr.Half()) == TileAt(tr, vol, phys, ii + tr.Half(), jj + tr.Half());
  }

  /** The assertion of ray_trace_through_volume: the rays of all micro-lenses fit inside the
      first dimension of volume_shape = shape[2:], which is Dy. */
  predicate Fits(tr: Tracer, vol: Volume)
  {
    tr.voxelSpanPerMl * tr.mla.nMicroLenses < vol.dy
  }

  /** The loops run ml_ii and ml_jj over 2h+1 values: n_micro_lenses for an odd count, but
      n_micro_lenses + 1 for an even one, although the footprint check uses n_micro_lenses. */
  lemma SideOfCount(tr: Tracer)
    ensures tr.mla.nMicroLenses % 2 == 1 ==> tr.Side() == tr.mla.nMicroLenses
    ensures tr.mla.nMicroLenses % 2 == 0 ==> tr.Side() == tr.mla.nMicroLenses + 1
  {
  }

  /** The first n micro-lenses of column block bi yield their tiles. */
  predicate ColumnOk(tiles: TileTable, bi: int, n: nat)
  {
    forall bj :: 0 <= bj < n ==> tiles(bi, bj).Success?
  }

  lemma ColumnOkExtend(tiles: TileTable, bi: int, n: nat)
    requires ColumnOk(tiles, bi, n) && tiles(bi, n).Success?
    ensures ColumnOk(tiles, bi, n + 1)
  {
  }

  lemma ColumnOkFails(tiles: TileTable, bi: int, n: nat, bj: nat)
    requires bj < n && tiles(bi, bj).Failure?
    ensures !ColumnOk(tiles, bi, n)
  {
  }

  /** Every block of the k-by-k array yields its tiles. */
  predicate AllTilesOk(tiles: TileTable, k: nat)
  {
    forall bi :: 0 <= bi < k ==> ColumnOk(tiles, bi, k)
  }

  /** The tiles of block (bi, bj), or zero images where the block fails. */
  function TileValue(tiles: TileTable, p: nat, bi: int, bj: int): (t: TilePair)
    requires Shaped(tiles, p)
    ensures HasShape(t.ret, p, p) && HasShape(t.azim, p, p)
    ensures forall o :: HasShape(t.Get(o), p, p)
  {
    match tiles(bi, bj)
    case Success(t) => t
    case Failure(_) => TilePair(Zeros(p, p), Zeros(p, p))
  }

  /** The first n tiles of column block bi concatenated along dim 0, as the inner loop of
      ray_trace_through_volume builds them. */
  function ColumnOf(tiles: TileTable, p: nat, bi: int, n: nat, o: Observable): (img: Image)
    requires Shaped(tiles, p) && n > 0
    ensures |img| == n * p
    decreases n
  {
    if n == 1 then TileValue(tiles, p, bi, 0).Get(o)
    else CatDim0(ColumnOf(tiles, p, bi, n - 1, o), TileValue(tiles, p, bi, n - 1).Get(o))
  }

  /** The first n column blocks, each of k tiles, concatenated along dim 1, as the outer loop
      builds them. */
  function StripOf(tiles: TileTable, k: nat, p: nat, n: nat, o: Observable): (img: Image)
    requires Shaped(tiles, p) && k > 0 && n > 0
    ensures |img| == k * p
    decreases n
  {
    if n == 1 then ColumnOf(tiles, p, 0, k, o)
    else CatDim1(StripOf(tiles, k, p, n - 1, o), ColumnOf(tiles, p, n - 1, k, o))
  }

  /** The first n tiles of a column block, stacked along dim 0, form an (n*p)-by-p image. */
  lemma {:induction false} ColumnOfShape(tiles: TileTable, p: nat, bi: int, n: nat, o: Observable)
    requires Shaped(tiles, p) && n > 0
    ensures HasShape(ColumnOf(tiles, p, bi, n, o), n * p, p)
    decreases n
  {
    if n > 1 {
      ColumnOfShape(tiles, p, bi, n - 1, o);
      assert n * p == (n - 1) * p + p;
    }
  }

  /** Row a of tile bj of the column lies at row bj*p + a. */
  lemma {:induction false} ColumnOfAt(tiles: TileTable, p: nat, bi: int, n: nat, o: Observable, bj: nat, a: nat)
    requires Shaped(tiles, p) && bj < n && a < p
    ensures bj * p + a < n * p
    ensures ColumnOf(tiles, p, bi, n, o)[bj * p + a] == TileValue(tiles, p, bi, bj).Get(o)[a]
    decreases n
  {
    BlockBound(bj, n, p, a);
    if n > 1 {
      if bj < n - 1 {
        ColumnOfAt(tiles, p, bi, n - 1, o, bj, a);
        BlockBound(bj, n - 1, p, a);
      } else {
        assert bj * p + a == (n - 1) * p + a;
      }
    }
  }

  /** The first n column blocks, placed side by side along dim 1, form a (k*p)-by-(n*p) image. */
  lemma {:induction false} StripOfShape(tiles: TileTable, k: nat, p: nat, n: nat, o: Observable)
    requires Shaped(tiles, p) && k > 0 && n > 0
    ensures HasShape(StripOf(tiles, k, p, n, o), k * p, n * p)
    decreases n
  {
    ColumnOfShape(tiles, p, n - 1, k, o);
    if n > 1 {
      StripOfShape(tiles, k, p, n - 1, o);
      assert n * p == (n - 1) * p + p;
    }
  }

  /** Column b of column block bi lies at column bi*p + b of the strip. */
  lemma {:induction false} StripOfAt(tiles: TileTable, k: nat, p: nat, n: nat, o: Observable, bi: nat, i: nat, b: nat)
    requires Shaped(tiles, p) && k > 0 && bi < n && i < k * p && b < p
    ensures HasShape(StripOf(tiles, k, p, n, o), k * p, n * p) && HasShape(ColumnOf(tiles, p, bi, k, o), k * p, p)
    ensures bi * p + b < n * p
    ensures StripOf(tiles, k, p, n, o)[i][bi * p + b] == ColumnOf(tiles, p, bi, k, o)[i][b]
    decreases n
  {
    StripOfShape(tiles, k, p, n, o);
    ColumnOfShape(tiles, p, bi, k, o);
    BlockBound(bi, n, p, b);
    if n > 1 {
      var front := StripOf(tiles, k, p, n - 1, o);
      StripOfShape(tiles, k, p, n - 1, o);
      assert StripOf(tiles, k, p, n, o)[i] == front[i] + ColumnOf(tiles, p, n - 1, k, o)[i];
      if bi < n - 1 {
        StripOfAt(tiles, k, p, n - 1, o, bi, i, b);
        BlockBound(bi, n - 1, p, b);
      } else {
        assert bi * p + b == |front[i]| + b;
      }
    }
  }

  /** The image the loops build for a k-by-k array of p-by-p tiles is (k*p)-by-(k*p), and
      pixel (a, b) of block (bi, bj) lies at row bj*p + a and column bi*p + b: the tiles of
      column block bi (ml_ii = bi - h) fill pixel columns bi*p .. bi*p + p - 1, and within
      them the tile of ml_jj = bj - h fills pixel rows bj*p .. bj*p + p - 1. */
  lemma StripOfPixel(tiles: TileTable, k: nat, p: nat, o: Observable, bi: nat, bj: nat, a: nat, b: nat)
    requires Shaped(tiles, p) && bi < k && bj < k && a < p && b < p
    ensures HasShape(StripOf(tiles, k, p, k, o), k * p, k * p)
    ensures bj * p + a < k * p && bi * p + b < k * p
    ensures StripOf(tiles, k, p, k, o)[bj * p + a][bi * p + b] == TileValue(tiles, p, bi, bj).Get(o)[a][b]
  {
    StripOfShape(tiles, k, p, k, o);
    ColumnOfAt(tiles, p, bi, k, o, bj, a);
    StripOfAt(tiles, k, p, k, o, bi, bj * p + a, b);
  }

  /** The first n micro-lenses of row ml_ii, in the order of the inner loop (ml_jj from -h). */
  function RowPairsUpTo(h: nat, ii: int, n: nat): seq<(int, int)>
    decreases n
  {
    if n == 0 then [] else RowPairsUpTo(h, ii, n - 1) + [(ii, n - 1 - h)]
  }

  lemma RowPairsUpToStep(h: nat, ii: int, jj: int)
    requires -(h as int) <= jj
    ensures RowPairsUpTo(h, ii, jj + h + 1) == RowPairsUpTo(h, ii, jj + h) + [(ii, jj)]
  {
  }

  /** The micro-lenses of row ml_ii, in the order of the inner loop. */
  function RowPairs(h: nat, ii: int): seq<(int, int)>
  {
    RowPairsUpTo(h, ii, 2 * h + 1)
  }

  /** The inner loop visits ml_jj = -h .. h, each once and in increasing order. */
  lemma {:induction false} RowPairsUpToExact(h: nat, ii: int, n: nat)
    ensures |RowPairsUpTo(h, ii, n)| == n
    ensures forall q :: 0 <= q < n ==> RowPairsUpTo(h, ii, n)[q] == (ii, q - h)
    decreases n
  {
    if n > 0 {
      RowPairsUpToExact(h, ii, n - 1);
    }
  }

  /** The micro-lenses of the first n rows, in loop order. */
  function PairsUpTo(h: nat, n: nat): (ps: seq<(int, int)>)
    decreases n
  {
    if n == 0 then [] else PairsUpTo(h, n - 1) + RowPairs(h, n - 1 - h)
  }

  lemma PairsUpToStep(h: nat, n: nat, ii: int)
    requires ii == n - h
    ensures PairsUpTo(h, n + 1) == PairsUpTo(h, n) + RowPairs(h, ii)
  {
  }

  /** The micro-lenses in the order ray_trace_through_volume visits them. */
  function GridPairs(h: nat): seq<(int, int)>
  {
    PairsUpTo(h, 2 * h + 1)
  }

  /** (ml_ii, ml_jj) comes before (ml_ii', ml_jj') in row-major order with ml_ii outer. */
  predicate Before(x: (int, int), y: (int, int))
  {
    x.0 < y.0 || (x.0 == y.0 && x.1 < y.1)
  }

  /** The first n rows of the outer loop hold n*(2h+1) micro-lenses, all with
      -h <= ml_ii < n - h and -h <= ml_jj <= h. */
  lemma {:induction false} PairsUpToRange(h: nat, n: nat)
    ensures |PairsUpTo(h, n)| == n * (2 * h + 1)
    ensures forall q :: 0 <= q < |PairsUpTo(h, n)| ==>
              -(h as int) <= PairsUpTo(h, n)[q].0 < n - h && -(h as int) <= PairsUpTo(h, n)[q].1 <= h
    decreases n
  {
    if n > 0 {
      var front := PairsUpTo(h, n - 1);
      PairsUpToRange(h, n - 1);
      RowPairsUpToExact(h, n - 1 - h, 2 * h + 1);
      assert PairsUpTo(h, n) == front + RowPairs(h, n - 1 - h);
      assert n * (2 * h + 1) == (n - 1) * (2 * h + 1) + (2 * h + 1);
    }
  }

  /** Every micro-lens with -h <= ml_ii < n - h and -h <= ml_jj <= h is among the first n rows. */
  lemma {:induction false} PairsUpToCovers(h: nat, n: nat)
    ensures forall ii, jj :: -(h as int) <= ii < n - h && -(h as int) <= jj <= h ==> (ii, jj) in PairsUpTo(h, n)
    decreases n
  {
    if n > 0 {
      var ii := n - 1 - h;
      var front, row := PairsUpTo(h, n - 1), RowPairs(h, ii);
      PairsUpToCovers(h, n - 1);
      RowPairsUpToExact(h, ii, 2 * h + 1);
      assert PairsUpTo(h, n) == front + row;
      forall jj | -(h as int) <= jj <= h
        ensures (ii, jj) in row
      {
        assert row[jj + h] == (ii, jj);
      }
    }
  }

  /** The first n rows are in strictly increasing row-major order. */
  lemma {:induction false} PairsUpToSorted(h: nat, n: nat)
    ensures forall q, q' :: 0 <= q < q' < |PairsUpTo(h, n)| ==> Before(PairsUpTo(h, n)[q], PairsUpTo(h, n)[q'])
    decreases n
  {
    if n > 0 {
      var ii := n - 1 - h;
      var front, row := PairsUpTo(h, n - 1), RowPairs(h, ii);
      var all := PairsUpTo(h, n);
      PairsUpToSorted(h, n - 1);
      PairsUpToRange(h, n - 1);
      RowPairsUpToExact(h, ii, 2 * h + 1);
      assert all == front + row;
      forall q, q' | 0 <= q < q' < |all|
        ensures Before(all[q], all[q'])
      {
        if q' < |front| {
          assert all[q] == front[q] && all[q'] == front[q'];
        } else if q < |front| {
          assert all[q] == front[q] && all[q'] == row[q' - |front|];
        } else {
          assert all[q] == row[q - |front|] && all[q'] == row[q' - |front|];
        }
      }
    }
  }

  /** ray_trace_through_volume visits (2h+1)^2 micro-lenses, all in [-h, h]^2, every one of
      them, in strictly increasing row-major order with ml_ii outer: each exactly once. */
  lemma GridPairsOrder(h: nat)
    ensures |GridPairs(h)| == (2 * h + 1) * (2 * h + 1)
    ensures forall q :: 0 <= q < |GridPairs(h)| ==>
              -(h as int) <= GridPairs(h)[q].0 <= h && -(h as int) <= GridPairs(h)[q].1 <= h
    ensures forall ii, jj :: -(h as int) <= ii <= h && -(h as int) <= jj <= h ==> (ii, jj) in GridPairs(h)
    ensures forall q, q' :: 0 <= q < q' < |GridPairs(h)| ==> Before(GridPairs(h)[q], GridPairs(h)[q'])
  {
    PairsUpToRange(h, 2 * h + 1);
    PairsUpToCovers(h, 2 * h + 1);
    PairsUpToSorted(h, 2 * h + 1);
  }

  /** The call ret_and_azim_images(current_offset) for micro-lens (ml_ii, ml_jj): its result
      is the table entry of block (ml_ii + h, ml_jj + h). */
  method MicroLensTile(tr: Tracer, vol: Volume, phys: Physics, ii: int, jj: int,
                       ghost tiles: TileTable, ghost bi: int, ghost bj: int)
    returns (t: Result<TilePair>)
    requires tr.Valid() && vol.Valid() && IsTileTable(tr, vol, phys, tiles)
    requires bi == ii + tr.Half() && bj == jj + tr.Half()
    ensures t == tiles(bi, bj)
    ensures t.Failure? ==> t.error == IndexOutOfRange
  {
    var currentOffset := (tr.mla.nVoxelsPerMl * ii, tr.mla.nVoxelsPerMl * jj);
    t := RetAndAzimImages(tr, vol, phys, currentOffset);
    TableEntry(tr, vol, phys, tiles, ii, jj, currentOffset);
  }

  /** The first n tiles of column block bi, both images. */
  function ColumnPair(tiles: TileTable, p: nat, bi: int, n: nat): TilePair
    requires Shaped(tiles, p) && n > 0
  {
    TilePair(ColumnOf(tiles, p, bi, n, Retardance), ColumnOf(tiles, p, bi, n, Azimuth))
  }

  /** One step of the inner loop: the column so far with the tile of block (bi, bj) below it,
      or that tile alone when it is the first (ml_jj == -h). */
  method ExtendColumn(ghost tiles: TileTable, ghost p: nat, ghost bi: int, ghost bj: nat, tile: TilePair,
                      col: Option<TilePair>)
    returns (col': TilePair)
    requires Shaped(tiles, p) && tiles(bi, bj) == Success(tile)
    requires bj == 0 <==> col.None?
    requires bj > 0 ==> col == Some(ColumnPair(tiles, p, bi, bj))
    ensures col' == ColumnPair(tiles, p, bi, bj + 1)
  {
    assert TileValue(tiles, p, bi, bj) == tile;
    if col.None? {
      col' := tile;
    } else {
      col' := TilePair(CatDim0(col.value.ret, tile.ret), CatDim0(col.value.azim, tile.azim));
    }
  }

  /** The inner loop of ray_trace_through_volume for micro-lens row ml_ii: the tiles of
      ml_jj = -h .. h concatenated along dim 0, in that order. */
  method TileColumn(tr: Tracer, vol: Volume, phys: Physics, ii: int, ghost tiles: TileTable, ghost bi: nat, ghost k: nat)
    returns (r: Result<TilePair>, ghost visited: seq<(int, int)>)
    requires tr.Valid() && vol.Valid() && IsTileTable(tr, vol, phys, tiles)
    requires bi == ii + tr.Half() && bi < k == tr.Side()
    ensures r.Success? <==> ColumnOk(tiles, bi, k)
    ensures r.Failure? ==> r.error == IndexOutOfRange
    ensures r.Success? ==> visited == RowPairs(tr.Half(), ii) && r.value == ColumnPair(tiles, tr.mla.pixelsPerMl, bi, k)
  {
    var h: int := tr.Half();
    ghost var p := tr.mla.pixelsPerMl;
    visited := [];
    var col: Option<TilePair> := None;
    var jj := -h;
    while jj <= h
      invariant -h <= jj <= h + 1
      invariant ColumnOk(tiles, bi, jj + h)
      invariant visited == RowPairsUpTo(h, ii, jj + h)
      invariant jj == -h <==> col.None?
      invariant jj > -h ==> col == Some(ColumnPair(tiles, p, bi, jj + h))
    {
      ghost var bj := jj + h;
      var tile := MicroLensTile(tr, vol, phys, ii, jj, tiles, bi, bj);
      RowPairsUpToStep(h, ii, jj);
      visited := visited + [(ii, jj)];
      if tile.Failure? {
        ColumnOkFails(tiles, bi, k, bj);
        assert !ColumnOk(tiles, bi, k) && tile.error == IndexOutOfRange;
        return tile, visited;
      }
      ColumnOkExtend(tiles, bi, bj);
      var next := ExtendColumn(tiles, p, bi, bj, tile.value, col);
      col := Some(next);
      jj := jj + 1;
    }
    assert jj + h == k;
    assert visited == RowPairsUpTo(h, ii, k);
    r := Success(col.value);
  }

  /** The first n column blocks of the k-by-k array, both images. */
  function StripPair(tiles: TileTable, k: nat, p: nat, n: nat): TilePair
    requires Shaped(tiles, p) && k > 0 && n > 0
  {
    TilePair(StripOf(tiles, k, p, n, Retardance), StripOf(tiles, k, p, n, Azimuth))
  }

  /** One step of the outer loop: the strip so far with column block bi to its right, or
      that column alone when it is the first (ml_ii == -h). */
  method ExtendStrip(ghost tiles: TileTable, ghost k: nat, ghost p: nat, ghost bi: nat, column: TilePair,
                     full: Option<TilePair>)
    returns (full': TilePair)
    requires Shaped(tiles, p) && k > 0 && column == ColumnPair(tiles, p, bi, k)
    requires bi == 0 <==> full.None?
    requires bi > 0 ==> full == Some(StripPair(tiles, k, p, bi))
    ensures full' == StripPair(tiles, k, p, bi + 1)
  {
    if full.None? {
      full' := column;
    } else {
      full' := TilePair(CatDim1(full.value.ret, column.ret), CatDim1(full.value.azim, column.azim));
    }
  }

  /** ray_trace_through_volume: checks the footprint, then for every micro-lens row ml_ii
      concatenates its column of tiles (TileColumn) along dim 1. `tiles` is any table that
      agrees with TileAt, such as TileAt itself (TileAtIsTileTable); `visited` records the
      micro-lenses in the order the loops reach them. */
  method RayTraceThroughVolume(tr: Tracer, vol: Volume, phys: Physics, ghost tiles: TileTable)
    returns (r: Result<TilePair>, ghost visited: seq<(int, int)>)
    requires tr.Valid() && vol.Valid() && IsTileTable(tr, vol, phys, tiles)
    ensures !Fits(tr, vol) ==>
              r == Failure(NoMicroLensFits(tr.voxelSpanPerMl * tr.mla.nMicroLenses, vol.dy)) && visited == []
    ensures Fits(tr, vol) ==> (r.Success? <==> AllTilesOk(tiles, tr.Side()))
    ensures Fits(tr, vol) && r.Failure? ==> r.error == IndexOutOfRange
    ensures r.Success? ==>
              visited == GridPairs(tr.Half()) && r.value == StripPair(tiles, tr.Side(), tr.mla.pixelsPerMl, tr.Side())
  {
    var n := tr.mla.nMicroLenses;
    var h: int := tr.Half();
    visited := [];
    var span := tr.voxelSpanPerMl * n;
    if !(span < vol.dy) {
      return Failure(NoMicroLensFits(span, vol.dy)), visited;
    }
    ghost var k, p := tr.Side(), tr.mla.pixelsPerMl;
    var full: Option<TilePair> := None;
    var ii := -h;
    while ii <= h
      invariant -h <= ii <= h + 1
      invariant forall bi :: 0 <= bi < ii + h ==> ColumnOk(tiles, bi, k)
      invariant visited == PairsUpTo(h, ii + h)
      invariant ii == -h <==> full.None?
      invariant ii > -h ==> full == Some(StripPair(tiles, k, p, ii + h))
    {
      ghost var bi := ii + h;
      var column, columnVisited := TileColumn(tr, vol, phys, ii, tiles, bi, k);
      PairsUpToStep(h, bi, ii);
      visited := visited + columnVisited;
      if column.Failure? {
        return column, visited;
      }
      var next := ExtendStrip(tiles, k, p, bi, column.value, full);
      full := Some(next);
      ii := ii + 1;
    }
    assert ii + h == k;
    assert visited == PairsUpTo(h, k);
    r := Success(full.value);
  }

  // ---------------------------------------------------------------------------------------
  // What ray_trace_through_volume returns

  /** ret_and_azim_images succeeds at the current_offset of every micro-lens in [-h, h]^2. */
  ghost predicate AllMicroLensesOk(tr: Tracer, vol: Volume, phys: Physics)
    requires tr.Valid() && vol.Valid()
  {
    forall ii, jj :: -(tr.Half() as int) <= ii <= tr.Half() && -(tr.Half() as int) <= jj <= tr.Half() ==>
      TileImages(tr, vol, phys, MicroLensOffset(tr, ii, jj)).Success?
  }

  /** The tiles the loops need all succeed exactly when ret_and_azim_images succeeds at the
      current_offset of every micro-lens in [-h, h]^2. */
  lemma AllTilesOkIff(tr: Tracer, vol: Volume, phys: Physics, tiles: TileTable)
    requires tr.Valid() && vol.Valid() && IsTileTable(tr, vol, phys, tiles)
    ensures AllTilesOk(tiles, tr.Side()) <==> AllMicroLensesOk(tr, vol, phys)
  {
    if AllTilesOk(tiles, tr.Side()) {
      AllTilesOkSound(tr, vol, phys, tiles);
    }
    if AllMicroLensesOk(tr, vol, phys) {
      AllTilesOkComplete(tr, vol, phys, tiles);
    }
  }

  lemma AllTilesOkSound(tr: Tracer, vol: Volume, phys: Physics, tiles: TileTable)
    requires tr.Valid() && vol.Valid() && IsTileTable(tr, vol, phys, tiles) && AllTilesOk(tiles, tr.Side())
    ensures AllMicroLensesOk(tr, vol, phys)
  {
    forall ii, jj | -(tr.Half() as int) <= ii <= tr.Half() && -(tr.Half() as int) <= jj <= tr.Half()
      ensures TileImages(tr, vol, phys, MicroLensOffset(tr, ii, jj)).Success?
    {
      TileOk(tr, vol, phys, tiles, ii, jj);
    }
  }

  lemma AllTilesOkComplete(tr: Tracer, vol: Volume, phys: Physics, tiles: TileTable)
    requires tr.Valid() && vol.Valid() && IsTileTable(tr, vol, phys, tiles) && AllMicroLensesOk(tr, vol, phys)
    ensures AllTilesOk(tiles, tr.Side())
  {
    var h: int := tr.Half();
    forall bi: nat, bj: nat | bi < tr.Side() && bj < tr.Side()
      ensures tiles(bi, bj).Success?
    {
      var ii, jj := bi - h, bj - h;
      TableEntry(tr, vol, phys, tiles, ii, jj, MicroLensOffset(tr, ii, jj));
    }
  }

  /** Block (bi, bj) of the output holds the table's tile of that block. */
  lemma StripPairPixel(tiles: TileTable, k: nat, p: nat, o: Observable, bi: nat, bj: nat, a: nat, b: nat)
    requires Shaped(tiles, p) && bi < k && bj < k && a < p && b < p && tiles(bi, bj).Success?
    ensures var img, t, i, j := StripPair(tiles, k, p, k).Get(o), tiles(bi, bj).value.Get(o), bj * p + a, bi * p + b;
            HasShape(img, k * p, k * p) && HasShape(t, p, p) && i < k * p && j < k * p && img[i][j] == t[a][b]
  {
    assert TileValue(tiles, p, bi, bj) == tiles(bi, bj).value;
    StripOfPixel(tiles, k, p, o, bi, bj, a, b);
    match o {
      case Retardance =>
      case Azimuth =>
    }
  }

  /** The table entry of a micro-lens in [-h, h]^2 succeeds when all tiles do. */
  lemma TileOk(tr: Tracer, vol: Volume, phys: Physics, tiles: TileTable, ii: int, jj: int)
    requires tr.Valid() && vol.Valid() && IsTileTable(tr, vol, phys, tiles)
    requires AllTilesOk(tiles, tr.Side())
    requires -(tr.Half() as int) <= ii <= tr.Half() && -(tr.Half() as int) <= jj <= tr.Half()
    ensures tiles(ii + tr.Half(), jj + tr.Half()) == TileImages(tr, vol, phys, MicroLensOffset(tr, ii, jj))
    ensures tiles(ii + tr.Half(), jj + tr.Half()).Success?
  {
    TableEntry(tr, vol, phys, tiles, ii, jj, MicroLensOffset(tr, ii, jj));
    assert ColumnOk(tiles, ii + tr.Half(), tr.Side());
  }

  /** With a single micro-lens (n_ml_half = 0) the output is the tile of that micro-lens at
      current_offset [0, 0]. */
  lemma SingleMicroLens(tr: Tracer, vol: Volume, phys: Physics, tiles: TileTable)
    requires tr.Valid() && vol.Valid() && IsTileTable(tr, vol, phys, tiles)
    requires tr.Half() == 0 && AllTilesOk(tiles, tr.Side())
    ensures TileImages(tr, vol, phys, (0, 0)).Success?
    ensures StripPair(tiles, tr.Side(), tr.mla.pixelsPerMl, tr.Side()) == TileImages(tr, vol, phys, (0, 0)).value
  {
    TableEntry(tr, vol, phys, tiles, 0, 0, (0, 0));
    assert ColumnOk(tiles, 0, 1);
    assert tiles(0, 0).Success?;
  }
}
