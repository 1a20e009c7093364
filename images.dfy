/** Two-dimensional images as sequences of rows, with the two concatenations the tiler
    uses (torch.cat along dim 0 and along dim 1). */
module Images {

  /** A dense image, indexed `img[row][column]`. */
  type Image = seq<seq<real>>

  predicate HasShape(img: Image, rows: nat, cols: nat)
  {
    |img| == rows && forall i :: 0 <= i < rows ==> |img[i]| == cols
  }

  /** torch.zeros((rows, cols)). */
  function Zeros(rows: nat, cols: nat): (img: Image)
    ensures HasShape(img, rows, cols)
    ensures forall i, j :: 0 <= i < rows && 0 <= j < cols ==> img[i][j] == 0.0
  {
    seq(rows, _ => seq(cols, _ => 0.0))
  }

  /** torch.cat((a, b), 0): the rows of `b` below the rows of `a`. */
  function CatDim0(a: Image, b: Image): Image
  {
    a + b
  }

  /** CatDim0 keeps the rows of `a` on top and puts those of `b` below them, and stacking
      images of one width gives an image of that width. */
  lemma CatDim0Rows(a: Image, b: Image, n: nat, m: nat, w: nat)
    ensures |CatDim0(a, b)| == |a| + |b|
    ensures forall i :: 0 <= i < |a| ==> CatDim0(a, b)[i] == a[i]
    ensures forall i :: 0 <= i < |b| ==> CatDim0(a, b)[|a| + i] == b[i]
    ensures HasShape(a, n, w) && HasShape(b, m, w) ==> HasShape(CatDim0(a, b), n + m, w)
  {
  }

  /** torch.cat((a, b), 1): every row of `b` to the right of the matching row of `a`. */
  function CatDim1(a: Image, b: Image): (c: Image)
    requires |a| == |b|
    ensures |c| == |a|
    ensures forall i :: 0 <= i < |c| ==> c[i] == a[i] + b[i]
  {
    seq(|a|, i requires 0 <= i < |a| => a[i] + b[i])
  }

  /** q*p + a lies inside the first n blocks of height p. */
  lemma BlockBound(q: nat, n: nat, p: nat, a: nat)
    requires q < n && a < p
    ensures q * p + a < n * p
  {
    assert (q + 1) * p == q * p + p;
    assert (q + 1) * p <= n * p by {
      var d := n - (q + 1);
      assert n * p == (q + 1) * p + d * p;
    }
  }
}
