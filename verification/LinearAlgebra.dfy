/**
 Vectors and square matrices over GF(2^8), and Gauss-Jordan inversion as gf_invert_matrix performs it:
 the pivot search, the row exchange, the scaling of the pivot row and the elimination of its column from
 every other row, carried out on the matrix and on a companion that starts as the identity.
 */
module LinearAlgebra {
  import opened GaloisField
  import opened Options

  type Vec = seq<byte>
  type Matrix = seq<Vec>

  ghost predicate IsSquare(m: Matrix, n: nat) {
    |m| == n && forall r :: 0 <= r < n ==> |m[r]| == n
  }

  /** The inner product of the first n entries. */
  function Dot(u: Vec, v: Vec, n: nat): byte
    requires n <= |u| && n <= |v|
  {
    if n == 0 then 0 else Add(Dot(u, v, n - 1), Mul(u[n - 1], v[n - 1]))
  }

  /** Matrix times vector. */
  function Apply(m: Matrix, v: Vec): (r: Vec)
    requires forall i :: 0 <= i < |m| ==> |m[i]| == |v|
    ensures |r| == |m|
    ensures forall i :: 0 <= i < |m| ==> r[i] == Dot(m[i], v, |v|)
  {
    seq(|m|, i requires 0 <= i < |m| => Dot(m[i], v, |v|))
  }

  function UnitEntry(r: int, c: int): byte {
    if r == c then 1 else 0
  }

  function Identity(n: nat): (m: Matrix)
    ensures IsSquare(m, n)
    ensures forall r, c :: 0 <= r < n && 0 <= c < n ==> m[r][c] == UnitEntry(r, c)
  {
    seq(n, r => seq(n, c => UnitEntry(r, c)))
  }

  ghost predicate IsZero(v: Vec) {
    forall i :: 0 <= i < |v| ==> v[i] == 0
  }

  /** Only the zero vector is mapped to zero. */
  ghost predicate Nonsingular(m: Matrix)
    requires IsSquare(m, |m|)
  {
    forall v: Vec :: |v| == |m| && IsZero(Apply(m, v)) ==> IsZero(v)
  }

  // ---------- the inner product is linear ----------

  lemma {:induction false} DotZero(u: Vec, v: Vec, n: nat)
    requires n <= |u| && n <= |v|
    requires forall i :: 0 <= i < n ==> u[i] == 0 || v[i] == 0
    ensures Dot(u, v, n) == 0
  {
    hide Add, Mul;
    if n > 0 {
      DotZero(u, v, n - 1);
      MulZero(u[n - 1]);
      MulZero(v[n - 1]);
      AddZero(0);
    }
  }

  lemma {:induction false} DotUnit(u: Vec, v: Vec, n: nat, k: nat)
    requires n <= |u| && n <= |v|
    requires forall i :: 0 <= i < n ==> u[i] == UnitEntry(k, i)
    ensures Dot(u, v, n) == if k < n then v[k] else 0
  {
    hide Add, Mul;
    if n > 0 {
      DotUnit(u, v, n - 1, k);
      MulZero(v[n - 1]);
      MulOneLeft(v[n - 1]);
      AddZero(v[n - 1]);
      AddZero(Dot(u, v, n - 1));
    }
  }

  /** Scaling a row and adding a multiple of a row. */
  function Scale(u: Vec, c: byte): (w: Vec)
    ensures |w| == |u|
    ensures forall i :: 0 <= i < |u| ==> w[i] == Mul(u[i], c)
  {
    seq(|u|, i requires 0 <= i < |u| => Mul(u[i], c))
  }

  function AddScaled(u: Vec, c: byte, s: Vec): (w: Vec)
    requires |u| == |s|
    ensures |w| == |u|
    ensures forall i :: 0 <= i < |u| ==> w[i] == Add(u[i], Mul(c, s[i]))
  {
    seq(|u|, i requires 0 <= i < |u| => Add(u[i], Mul(c, s[i])))
  }

  lemma {:induction false} DotScale(u: Vec, c: byte, v: Vec, n: nat)
    requires n <= |u| && n <= |v|
    ensures Dot(Scale(u, c), v, n) == Mul(c, Dot(u, v, n))
  {
    hide Add, Mul;
    if n == 0 {
      MulZero(c);
    } else {
      DotScale(u, c, v, n - 1);
      MulAddRight(c, Dot(u, v, n - 1), Mul(u[n - 1], v[n - 1]));
      MulComm(u[n - 1], c);
      MulAssoc(c, u[n - 1], v[n - 1]);
    }
  }

  lemma {:induction false} DotAddScaled(u: Vec, c: byte, s: Vec, v: Vec, n: nat)
    requires |u| == |s| && n <= |u| && n <= |v|
    ensures Dot(AddScaled(u, c, s), v, n) == Add(Dot(u, v, n), Mul(c, Dot(s, v, n)))
  {
    hide Add, Mul;
    if n == 0 {
      MulZero(c);
      AddZero(0);
    } else {
      var x, y, z := u[n - 1], s[n - 1], v[n - 1];
      DotAddScaled(u, c, s, v, n - 1);
      MulAddLeft(x, Mul(c, y), z);
      MulAssoc(c, y, z);
      MulAddRight(c, Dot(s, v, n - 1), Mul(y, z));
      AddSwap(Dot(u, v, n - 1), Mul(c, Dot(s, v, n - 1)), Mul(x, z), Mul(c, Mul(y, z)));
    }
  }

  // ---------- Gauss-Jordan ----------

  /** The first row from j on with a nonzero entry in column i, or |a|. */
  function PivotRow(a: Matrix, i: nat, j: nat): (p: nat)
    requires IsSquare(a, |a|) && i < |a| && j <= |a|
    ensures j <= p <= |a|
    ensures p < |a| ==> a[p][i] != 0
    ensures forall r :: j <= r < p ==> a[r][i] == 0
    decreases |a| - j
  {
    if j == |a| || a[j][i] != 0 then j else PivotRow(a, i, j + 1)
  }

  function SwapRows(a: Matrix, i: nat, j: nat): Matrix
    requires i < |a| && j < |a|
  {
    a[i := a[j]][j := a[i]]
  }

  function ScaleRow(a: Matrix, i: nat, c: byte): Matrix
    requires i < |a|
  {
    a[i := Scale(a[i], c)]
  }

  /** Subtracts coefficients[j] times row i from every other row j. */
  function Eliminate(a: Matrix, coefficients: Vec, i: nat): (b: Matrix)
    requires IsSquare(a, |a|) && i < |a| && |coefficients| == |a|
    ensures IsSquare(b, |a|) && b[i] == a[i]
    ensures forall j :: 0 <= j < |a| && j != i ==> b[j] == AddScaled(a[j], coefficients[j], a[i])
  {
    seq(|a|, j requires 0 <= j < |a| => if j == i then a[j] else AddScaled(a[j], coefficients[j], a[i]))
  }

  function Column(a: Matrix, i: nat): (v: Vec)
    requires IsSquare(a, |a|) && i < |a|
    ensures |v| == |a| && forall j :: 0 <= j < |a| ==> v[j] == a[j][i]
  {
    seq(|a|, j requires 0 <= j < |a| => a[j][i])
  }

  /** One pivot, applied to m; p, c and f come from the matrix being inverted. */
  function Pivot(m: Matrix, i: nat, p: nat, c: byte, f: Vec): (r: Matrix)
    requires IsSquare(m, |m|) && i < |m| && p < |m| && |f| == |m|
    ensures IsSquare(r, |m|)
  {
    Eliminate(ScaleRow(SwapRows(m, i, p), i, c), f, i)
  }

  function PivotFactor(a: Matrix, i: nat, p: nat): byte
    requires IsSquare(a, |a|) && i < |a| && p < |a|
  {
    Inverse(a[p][i])
  }

  function PivotColumn(a: Matrix, i: nat, p: nat): Vec
    requires IsSquare(a, |a|) && i < |a| && p < |a|
    ensures |PivotColumn(a, i, p)| == |a|
  {
    Column(ScaleRow(SwapRows(a, i, p), i, PivotFactor(a, i, p)), i)
  }

  function InvertFrom(a: Matrix, inverse: Matrix, i: nat): (r: Option<Matrix>)
    requires IsSquare(a, |a|) && IsSquare(inverse, |a|) && i <= |a|
    ensures r.Some? ==> IsSquare(r.value, |a|)
    decreases |a| - i
  {
    if i == |a| then Some(inverse) else
      var p := PivotRow(a, i, i);
      if p == |a| then None else
        var c, f := PivotFactor(a, i, p), PivotColumn(a, i, p);
        InvertFrom(Pivot(a, i, p, c, f), Pivot(inverse, i, p, c, f), i + 1)
  }

  /** gf_invert_matrix: None is the return value -1. */
  function Invert(m: Matrix): (r: Option<Matrix>)
    requires IsSquare(m, |m|)
    ensures r.Some? ==> IsSquare(r.value, |m|)
  {
    InvertFrom(m, Identity(|m|), 0)
  }

  /** Every row of a, applied to v, agrees with the same row of b, applied to w. */
  ghost predicate Agree(a: Matrix, v: Vec, b: Matrix, w: Vec) {
    && |a| == |b|
    && forall r :: 0 <= r < |a| ==> |a[r]| == |v| && |b[r]| == |w| && Dot(a[r], v, |v|) == Dot(b[r], w, |w|)
  }

  /** The rows after a pivot, in terms of the rows before. */
  lemma PivotRows(m: Matrix, i: nat, p: nat, c: byte, f: Vec, r: nat)
    requires IsSquare(m, |m|) && i < |m| && p < |m| && |f| == |m| && r < |m|
    ensures var swapped, scaled := SwapRows(m, i, p), Scale(m[p], c);
            Pivot(m, i, p, c, f)[r] == if r == i then scaled else AddScaled(swapped[r], f[r], scaled)
    ensures |Pivot(m, i, p, c, f)| == |m|
  {
    hide Add, Mul, Scale, AddScaled;
  }

  lemma PivotAgrees(a: Matrix, v: Vec, b: Matrix, w: Vec, i: nat, p: nat, c: byte, f: Vec)
    requires IsSquare(a, |a|) && IsSquare(b, |a|) && i < |a| && p < |a| && |f| == |a|
    requires |v| == |a| && |w| == |a|
    requires Agree(a, v, b, w)
    ensures Agree(Pivot(a, i, p, c, f), v, Pivot(b, i, p, c, f), w)
  {
    hide Add, Mul, Dot, Pivot, Scale, AddScaled;
    var n := |a|;
    var sa, sb := Scale(a[p], c), Scale(b[p], c);
    DotScale(a[p], c, v, n);
    DotScale(b[p], c, w, n);
    forall r | 0 <= r < n
      ensures Dot(Pivot(a, i, p, c, f)[r], v, n) == Dot(Pivot(b, i, p, c, f)[r], w, n)
    {
      PivotRows(a, i, p, c, f, r);
      PivotRows(b, i, p, c, f, r);
      DotAddScaled(SwapRows(a, i, p)[r], f[r], sa, v, n);
      DotAddScaled(SwapRows(b, i, p)[r], f[r], sb, w, n);
    }
  }

  /** Pivots can be undone: what agrees afterwards agreed before. */
  lemma PivotReflects(a: Matrix, v: Vec, b: Matrix, w: Vec, i: nat, p: nat, c: byte, f: Vec)
    requires IsSquare(a, |a|) && IsSquare(b, |a|) && |b| == |a| && i < |a| && p < |a| && |f| == |a| && c != 0
    requires |v| == |a| && |w| == |a|
    requires Agree(Pivot(a, i, p, c, f), v, Pivot(b, i, p, c, f), w)
    ensures Agree(a, v, b, w)
  {
    hide Add, Mul, Dot;
    var n := |a|;
    var a1, b1 := SwapRows(a, i, p), SwapRows(b, i, p);
    var a2, b2 := ScaleRow(a1, i, c), ScaleRow(b1, i, c);
    var a3, b3 := Pivot(a, i, p, c, f), Pivot(b, i, p, c, f);
    DotScale(a1[i], c, v, n);
    DotScale(b1[i], c, w, n);
    MulCancel(c, Dot(a1[i], v, n), Dot(b1[i], w, n));
    forall r | 0 <= r < n && r != i
      ensures Dot(a1[r], v, n) == Dot(b1[r], w, n)
    {
      DotAddScaled(a2[r], f[r], a2[i], v, n);
      DotAddScaled(b2[r], f[r], b2[i], w, n);
      assert Dot(a3[r], v, n) == Dot(b3[r], w, n);
      AddCancel(Dot(a2[r], v, n), Dot(b2[r], w, n), Mul(f[r], Dot(a2[i], v, n)));
    }
    forall r | 0 <= r < n
      ensures Dot(a[r], v, n) == Dot(b[r], w, n)
    {
      var r' := if r == i then p else if r == p then i else r;
      assert a[r] == a1[r'] && b[r] == b1[r'];
    }
  }

  /** A pivot loses no information: what it maps to zero was mapped to zero before. */
  lemma PivotKernel(a: Matrix, v: Vec, i: nat, p: nat)
    requires IsSquare(a, |a|) && i < |a| && p < |a| && |v| == |a| && a[p][i] != 0
    requires IsZero(Apply(Pivot(a, i, p, PivotFactor(a, i, p), PivotColumn(a, i, p)), v))
    ensures IsZero(Apply(a, v))
  {
    InvCorrect(a[p][i]);
    hide Add, Mul, Dot, Inverse, Pivot, PivotColumn;
    var n, c, f := |a|, PivotFactor(a, i, p), PivotColumn(a, i, p);
    var zero: Vec := seq(n, _ => 0);
    var a3 := Pivot(a, i, p, c, f);
    forall r | 0 <= r < n
      ensures Dot(a3[r], v, n) == Dot(a3[r], zero, n)
    {
      assert Apply(a3, v)[r] == 0;
      DotZero(a3[r], zero, n);
    }
    PivotReflects(a, v, a, zero, i, p, c, f);
    forall r | 0 <= r < n ensures Dot(a[r], v, n) == 0 { DotZero(a[r], zero, n); }
  }

  /** The first i columns are those of the identity. */
  ghost predicate UnitColumns(a: Matrix, i: nat)
    requires IsSquare(a, |a|)
  {
    forall r, c :: 0 <= r < |a| && 0 <= c < i && c < |a| ==> a[r][c] == UnitEntry(r, c)
  }

  lemma PivotMakesUnitColumn(a: Matrix, i: nat, p: nat)
    requires IsSquare(a, |a|) && i <= p < |a| && a[p][i] != 0
    requires UnitColumns(a, i)
    ensures UnitColumns(Pivot(a, i, p, PivotFactor(a, i, p), PivotColumn(a, i, p)), i + 1)
  {
    hide Add, Mul, Inverse;
    var n, c, f := |a|, PivotFactor(a, i, p), PivotColumn(a, i, p);
    var a2 := ScaleRow(SwapRows(a, i, p), i, c);
    var a3 := Pivot(a, i, p, c, f);
    InvCorrect(a[p][i]);
    assert a2[i][i] == 1;
    forall r, k | 0 <= r < n && 0 <= k <= i
      ensures a3[r][k] == UnitEntry(r, k)
    {
      if k < i {
        MulZero(c);
        assert a2[i][k] == 0;
        assert a2[r][k] == UnitEntry(r, k);
        MulZero(f[r]);
        AddZero(a2[r][k]);
      } else if r != i {
        MulOneRight(f[r]);
        AddZero(f[r]);
      }
    }
  }

  /** With no pivot left in column i, some nonzero vector is mapped to zero. */
  lemma NoPivotKernel(a: Matrix, i: nat) returns (v: Vec)
    requires IsSquare(a, |a|) && i < |a|
    requires UnitColumns(a, i) && PivotRow(a, i, i) == |a|
    ensures |v| == |a| && !IsZero(v) && IsZero(Apply(a, v))
  {
    hide Add, Mul, Dot;
    var n := |a|;
    v := seq(n, j requires 0 <= j < n => if j < i then a[j][i] else UnitEntry(j, i));
    assert v[i] == 1;
    forall r | 0 <= r < n
      ensures Dot(a[r], v, n) == 0
    {
      KernelRow(a, i, v, r, n);
      AddZero(a[r][i]);
    }
  }

  lemma {:induction false} KernelRow(a: Matrix, i: nat, v: Vec, r: nat, k: nat)
    requires IsSquare(a, |a|) && i < |a| && r < |a| && k <= |a| && |v| == |a|
    requires UnitColumns(a, i)
    requires forall j :: 0 <= j < |a| ==> v[j] == if j < i then a[j][i] else UnitEntry(j, i)
    ensures Dot(a[r], v, k) == Add(if r < i && r < k then a[r][i] else 0, if i < k then a[r][i] else 0)
  {
    hide Add, Mul;
    AddZero(0);
    if k > 0 {
      KernelRow(a, i, v, r, k - 1);
      var j := k - 1;
      MulZero(v[j]);
      MulZero(a[r][j]);
      MulOneLeft(v[j]);
      MulOneRight(a[r][j]);
      AddZero(a[r][i]);
    }
  }

  /** The loop invariant of the inversion, carried to its end. */
  lemma {:induction false} InvertFromCorrect(a: Matrix, inverse: Matrix, i: nat, v: Vec, w: Vec)
    requires IsSquare(a, |a|) && IsSquare(inverse, |a|) && i <= |a| && |v| == |a| && |w| == |a|
    requires UnitColumns(a, i) && Agree(a, v, inverse, w)
    ensures InvertFrom(a, inverse, i).Some? ==> Apply(InvertFrom(a, inverse, i).value, w) == v
    decreases |a| - i
  {
    hide Add, Mul, Dot, Pivot, PivotFactor, PivotColumn;
    if i == |a| {
      forall r | 0 <= r < |a|
        ensures Dot(inverse[r], w, |w|) == v[r]
      {
        DotUnit(a[r], v, |a|, r);
      }
      assert Apply(inverse, w) == v;
    } else {
      var p := PivotRow(a, i, i);
      if p < |a| {
        var c, f := PivotFactor(a, i, p), PivotColumn(a, i, p);
        PivotAgrees(a, v, inverse, w, i, p, c, f);
        PivotMakesUnitColumn(a, i, p);
        InvertFromCorrect(Pivot(a, i, p, c, f), Pivot(inverse, i, p, c, f), i + 1, v, w);
      }
    }
  }

  /** The inversion run backwards. */
  lemma {:induction false} InvertFromReflects(a: Matrix, inverse: Matrix, i: nat, v: Vec, w: Vec)
    requires IsSquare(a, |a|) && IsSquare(inverse, |a|) && i <= |a| && |v| == |a| && |w| == |a|
    requires UnitColumns(a, i)
    requires InvertFrom(a, inverse, i).Some? && Apply(InvertFrom(a, inverse, i).value, w) == v
    ensures Agree(a, v, inverse, w)
    decreases |a| - i
  {
    hide Add, Mul, Dot, Pivot, PivotColumn, Inverse;
    if i == |a| {
      forall r | 0 <= r < |a| ensures Dot(a[r], v, |a|) == Dot(inverse[r], w, |a|) {
        DotUnit(a[r], v, |a|, r);
        assert Apply(inverse, w)[r] == v[r];
      }
    } else {
      var p := PivotRow(a, i, i);
      var c, f := PivotFactor(a, i, p), PivotColumn(a, i, p);
      InvCorrect(a[p][i]);
      PivotMakesUnitColumn(a, i, p);
      InvertFromReflects(Pivot(a, i, p, c, f), Pivot(inverse, i, p, c, f), i + 1, v, w);
      PivotReflects(a, v, inverse, w, i, p, c, f);
    }
  }

  /** If the inversion gives up, the matrix it started from maps some nonzero vector to zero. */
  lemma {:induction false} InvertFromFails(a: Matrix, inverse: Matrix, i: nat) returns (v: Vec)
    requires IsSquare(a, |a|) && IsSquare(inverse, |a|) && i <= |a|
    requires UnitColumns(a, i) && InvertFrom(a, inverse, i).None?
    ensures |v| == |a| && !IsZero(v) && IsZero(Apply(a, v))
    decreases |a| - i
  {
    hide Add, Mul, Dot, Pivot, PivotFactor, PivotColumn;
    var p := PivotRow(a, i, i);
    if p == |a| {
      v := NoPivotKernel(a, i);
    } else {
      var c, f := PivotFactor(a, i, p), PivotColumn(a, i, p);
      PivotMakesUnitColumn(a, i, p);
      v := InvertFromFails(Pivot(a, i, p, c, f), Pivot(inverse, i, p, c, f), i + 1);
      PivotKernel(a, v, i, p);
    }
  }

  /** A matrix returned by gf_invert_matrix undoes multiplication by its argument. */
  lemma InvertUndoes(m: Matrix, v: Vec)
    requires IsSquare(m, |m|) && |v| == |m| && Invert(m).Some?
    ensures Apply(Invert(m).value, Apply(m, v)) == v
  {
    hide Add, Mul, Dot, InvertFrom;
    var w := Apply(m, v);
    forall r | 0 <= r < |m|
      ensures Dot(Identity(|m|)[r], w, |m|) == w[r]
    {
      DotUnit(Identity(|m|)[r], w, |m|, r);
    }
    InvertFromCorrect(m, Identity(|m|), 0, v, w);
  }

  /** A matrix returned by gf_invert_matrix is also undone by multiplication by its argument. */
  lemma InvertUndone(m: Matrix, w: Vec)
    requires IsSquare(m, |m|) && |w| == |m| && Invert(m).Some?
    ensures Apply(m, Apply(Invert(m).value, w)) == w
  {
    hide Add, Mul, Dot, InvertFrom;
    var v := Apply(Invert(m).value, w);
    InvertFromReflects(m, Identity(|m|), 0, v, w);
    forall r | 0 <= r < |m|
      ensures Dot(m[r], v, |m|) == w[r]
    {
      DotUnit(Identity(|m|)[r], w, |m|, r);
    }
  }

  /** gf_invert_matrix reports failure exactly on the singular matrices. */
  lemma InvertSucceedsIffNonsingular(m: Matrix)
    requires IsSquare(m, |m|)
    ensures Invert(m).Some? <==> Nonsingular(m)
  {
    hide Add, Mul, Dot, InvertFrom;
    if Invert(m).Some? {
      forall v: Vec | |v| == |m| && IsZero(Apply(m, v))
        ensures IsZero(v)
      {
        InvertUndoes(m, v);
        forall r | 0 <= r < |m|
          ensures v[r] == 0
        {
          DotZero(Invert(m).value[r], Apply(m, v), |m|);
        }
      }
    } else {
      var v := InvertFromFails(m, Identity(|m|), 0);
    }
  }
}
