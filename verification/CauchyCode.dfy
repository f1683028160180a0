/**
 The systematic Cauchy code: encode matrix, encoding, and the any-K-of-N property.

 Row i < K of the encode matrix is a unit row; row i >= K has the entry inv(i xor j) in column j
 (gf_gen_cauchy1_matrix, include/ec/rs.hpp, lines 78-82).
 */
module CauchyCode {
  import opened GaloisField
  import opened LinearAlgebra

  function EncodeRow(k: nat, i: nat): (r: Vec)
    ensures |r| == k
  {
    seq(k, j requires 0 <= j < k => if i < k then UnitEntry(i, j) else Inverse(Add(ToByte(i), ToByte(j))))
  }

  /** gf_gen_cauchy1_matrix with k + p rows and k columns. */
  function EncodeMatrix(k: nat, p: nat): (m: Matrix)
    ensures |m| == k + p && forall i :: 0 <= i < k + p ==> m[i] == EncodeRow(k, i)
  {
    seq(k + p, i requires 0 <= i < k + p => EncodeRow(k, i))
  }

  // ---------- Cauchy systems have only the zero solution ----------

  /** The sum of ws[j] / (x + ys[j]) over the first n terms. */
  function CauchySum(x: byte, ys: Vec, ws: Vec, n: nat): byte
    requires n <= |ws| && n <= |ys|
  {
    if n == 0 then 0 else Add(CauchySum(x, ys, ws, n - 1), Mul(ws[n - 1], Inverse(Add(x, ys[n - 1]))))
  }

  ghost predicate Distinct<T>(s: seq<T>) {
    forall i, j :: 0 <= i < j < |s| ==> s[i] != s[j]
  }

  /** No denominator vanishes. */
  ghost predicate Apart(xs: Vec, ys: Vec) {
    forall i, j :: 0 <= i < |xs| && 0 <= j < |ys| ==> xs[i] != ys[j]
  }

  lemma SumNonzero(x: byte, y: byte)
    requires x != y
    ensures Add(x, y) != 0
  {
  }

  /** The weight left on a term after the unknown of y has been eliminated by the equation of x'. */
  function Weight(w: byte, y: byte, z: byte, x': byte): byte {
    Mul(Mul(w, Add(y, z)), Inverse(Add(x', z)))
  }

  function Weights(ys: Vec, ws: Vec, y: byte, x': byte, n: nat): (r: Vec)
    requires n <= |ys| && n <= |ws|
    ensures |r| == n && forall j :: 0 <= j < n ==> r[j] == Weight(ws[j], y, ys[j], x')
  {
    seq(n, j requires 0 <= j < n => Weight(ws[j], y, ys[j], x'))
  }

  /** (x + y) / (x + z) == 1 + (y + z) / (x + z). */
  lemma Quotient(x: byte, y: byte, z: byte)
    requires x != z
    ensures Mul(Add(x, y), Inverse(Add(x, z))) == Add(1, Mul(Add(y, z), Inverse(Add(x, z))))
  {
    SumNonzero(x, z);
    InvCorrect(Add(x, z));
    hide Mul, Inverse, Add;
    AddThrough(x, y, z);
    MulAddLeft(Add(x, z), Add(y, z), Inverse(Add(x, z)));
  }

  /** 1 / (x + z) + 1 / (x' + z) == (x + x') / ((x + z) (x' + z)). */
  lemma InverseSum(x: byte, x': byte, z: byte)
    requires x != z && x' != z
    ensures Add(Inverse(Add(x, z)), Inverse(Add(x', z)))
            == Mul(Add(x, x'), Mul(Inverse(Add(x', z)), Inverse(Add(x, z))))
  {
    var a, b := Add(x, z), Add(x', z);
    SumNonzero(x, z);
    SumNonzero(x', z);
    InvCorrect(a);
    InvCorrect(b);
    hide Mul, Inverse, Add;
    AddThrough(x, x', z);
    var i, j := Inverse(a), Inverse(b);
    MulAddLeft(a, b, Mul(j, i));
    MulComm(j, i);
    MulAssoc(a, i, j);
    MulAssoc(b, j, i);
    MulOneLeft(i);
    MulOneLeft(j);
    AddComm(i, j);
  }

  /** One term of the elimination. */
  lemma EliminateTerm(x: byte, x': byte, y: byte, z: byte, w: byte)
    requires x != z && x' != z
    ensures Add(Mul(Add(x, y), Mul(w, Inverse(Add(x, z)))), Mul(Add(x', y), Mul(w, Inverse(Add(x', z)))))
         == Mul(Add(x, x'), Mul(Weight(w, y, z, x'), Inverse(Add(x, z))))
  {
    hide Mul, Inverse, Add;
    var i, j, d := Inverse(Add(x, z)), Inverse(Add(x', z)), Add(y, z);
    var s := Add(x, x');
    calc {
      Add(Mul(Add(x, y), Mul(w, i)), Mul(Add(x', y), Mul(w, j)));
      { Regroup(Add(x, y), w, i); Regroup(Add(x', y), w, j); }
      Add(Mul(w, Mul(Add(x, y), i)), Mul(w, Mul(Add(x', y), j)));
      { MulAddRight(w, Mul(Add(x, y), i), Mul(Add(x', y), j)); }
      Mul(w, Add(Mul(Add(x, y), i), Mul(Add(x', y), j)));
      { Quotient(x, y, z); Quotient(x', y, z); }
      Mul(w, Add(Add(1, Mul(d, i)), Add(1, Mul(d, j))));
      { AddSwap(1, Mul(d, i), 1, Mul(d, j)); AddZero(1); AddZero(Add(Mul(d, i), Mul(d, j))); }
      Mul(w, Add(Mul(d, i), Mul(d, j)));
      { MulAddRight(d, i, j); }
      Mul(w, Mul(d, Add(i, j)));
      { InverseSum(x, x', z); }
      Mul(w, Mul(d, Mul(s, Mul(j, i))));
      { MulAssoc(w, d, Mul(s, Mul(j, i))); }
      Mul(Mul(w, d), Mul(s, Mul(j, i)));
      { Regroup(Mul(w, d), s, Mul(j, i)); }
      Mul(s, Mul(Mul(w, d), Mul(j, i)));
      { MulAssoc(Mul(w, d), j, i); }
      Mul(s, Mul(Mul(Mul(w, d), j), i));
    }
  }

  lemma Regroup(a: byte, w: byte, i: byte)
    ensures Mul(a, Mul(w, i)) == Mul(w, Mul(a, i))
  {
    hide Mul;
    MulAssoc(a, w, i);
    MulComm(a, w);
    MulAssoc(w, a, i);
  }

  lemma {:induction false} EliminateSum(x: byte, x': byte, y: byte, ys: Vec, ws: Vec, n: nat, m: nat)
    requires n <= m <= |ys| && m <= |ws|
    requires forall j :: 0 <= j < n ==> x != ys[j] && x' != ys[j]
    ensures Add(Mul(Add(x, y), CauchySum(x, ys, ws, n)), Mul(Add(x', y), CauchySum(x', ys, ws, n)))
         == Mul(Add(x, x'), CauchySum(x, ys, Weights(ys, ws, y, x', m), n))
  {
    hide Mul, Inverse, Add, Weight;
    if n == 0 {
      MulZero(Add(x, y));
      MulZero(Add(x', y));
      MulZero(Add(x, x'));
      AddZero(0);
    } else {
      var z, w := ys[n - 1], ws[n - 1];
      var t, t' := Mul(w, Inverse(Add(x, z))), Mul(w, Inverse(Add(x', z)));
      var s, s' := CauchySum(x, ys, ws, n - 1), CauchySum(x', ys, ws, n - 1);
      EliminateSum(x, x', y, ys, ws, n - 1, m);
      EliminateTerm(x, x', y, z, w);
      MulAddRight(Add(x, y), s, t);
      MulAddRight(Add(x', y), s', t');
      AddSwap(Mul(Add(x, y), s), Mul(Add(x, y), t), Mul(Add(x', y), s'), Mul(Add(x', y), t'));
      MulAddRight(Add(x, x'), CauchySum(x, ys, Weights(ys, ws, y, x', m), n - 1),
                  Mul(Weight(w, y, z, x'), Inverse(Add(x, z))));
    }
  }

  /** A term that is zero, in a product of nonzero factors, has zero weight. */
  lemma WeightZero(w: byte, y: byte, z: byte, x': byte)
    requires Weight(w, y, z, x') == 0 && y != z && x' != z
    ensures w == 0
  {
    SumNonzero(y, z);
    SumNonzero(x', z);
    InvCorrect(Add(x', z));
    hide Mul, Inverse, Add;
    NoZeroDivisors(Mul(w, Add(y, z)), Inverse(Add(x', z)));
    NoZeroDivisors(w, Add(y, z));
  }

  lemma {:induction false} CauchySumPrefix(x: byte, ys: Vec, ys': Vec, ws: Vec, ws': Vec, n: nat)
    requires n <= |ys| && n <= |ws| && n <= |ys'| && n <= |ws'|
    requires forall j :: 0 <= j < n ==> ys[j] == ys'[j] && ws[j] == ws'[j]
    ensures CauchySum(x, ys, ws, n) == CauchySum(x, ys', ws', n)
  {
    hide Mul, Inverse, Add;
    if n > 0 { CauchySumPrefix(x, ys, ys', ws, ws', n - 1); }
  }

  /** A square Cauchy system with distinct points has only the zero solution. */
  lemma {:induction false} CauchySystem(xs: Vec, ys: Vec, ws: Vec)
    requires |xs| == |ys| == |ws|
    requires Distinct(xs) && Distinct(ys) && Apart(xs, ys)
    requires forall i :: 0 <= i < |xs| ==> CauchySum(xs[i], ys, ws, |ws|) == 0
    ensures IsZero(ws)
    decreases |xs|
  {
    hide Mul, Inverse, Add, Weight;
    if |xs| > 0 {
      var m := |xs| - 1;
      var y, x' := ys[m], xs[m];
      var ws' := Weights(ys, ws, y, x', m);
      forall i | 0 <= i < m
        ensures CauchySum(xs[i], ys[..m], ws', m) == 0
      {
        ReducedEquation(xs[i], x', ys, ws, m);
        CauchySumPrefix(xs[i], ys, ys[..m], ws', ws', m);
      }
      CauchySystem(xs[..m], ys[..m], ws');
      forall j | 0 <= j < m
        ensures ws[j] == 0
      {
        assert ws'[j] == 0;
        WeightZero(ws[j], y, ys[j], x');
      }
      LastWeight(x', ys, ws, m);
    }
  }

  /** Subtracting the equation of x' from that of x removes the last unknown. */
  lemma ReducedEquation(x: byte, x': byte, ys: Vec, ws: Vec, m: nat)
    requires |ys| == |ws| == m + 1 && x != x'
    requires forall j :: 0 <= j <= m ==> x != ys[j] && x' != ys[j]
    requires CauchySum(x, ys, ws, m + 1) == 0 && CauchySum(x', ys, ws, m + 1) == 0
    ensures CauchySum(x, ys, Weights(ys, ws, ys[m], x', m), m) == 0
  {
    var y, w := ys[m], ws[m];
    SumNonzero(x, x');
    LastTerm(x, y, ys, ws, m);
    LastTerm(x', y, ys, ws, m);
    AddZero(w);
    hide Mul, Inverse, Add, Weight;
    EliminateSum(x, x', y, ys, ws, m, m);
    NoZeroDivisors(Add(x, x'), CauchySum(x, ys, Weights(ys, ws, y, x', m), m));
  }

  /** Multiplied by x + y, the terms before the last add up to the last unknown. */
  lemma LastTerm(x: byte, y: byte, ys: Vec, ws: Vec, m: nat)
    requires |ys| == |ws| == m + 1 && y == ys[m] && x != y
    requires CauchySum(x, ys, ws, m + 1) == 0
    ensures Mul(Add(x, y), CauchySum(x, ys, ws, m)) == ws[m]
  {
    var s, t := CauchySum(x, ys, ws, m), Mul(ws[m], Inverse(Add(x, y)));
    assert Add(s, t) == 0;
    EqualIfSumZero(s, t);
    SumNonzero(x, y);
    hide Mul, Inverse, Add;
    InvCorrect(Add(x, y));
    Regroup(Add(x, y), ws[m], Inverse(Add(x, y)));
    MulOneRight(ws[m]);
  }

  lemma EqualIfSumZero(s: byte, t: byte)
    requires Add(s, t) == 0
    ensures s == t
  {
  }

  lemma LastWeight(x: byte, ys: Vec, ws: Vec, m: nat)
    requires |ys| == |ws| == m + 1 && x != ys[m]
    requires forall j :: 0 <= j < m ==> ws[j] == 0
    requires CauchySum(x, ys, ws, m + 1) == 0
    ensures ws[m] == 0
  {
    hide Mul, Inverse, Add;
    LastTerm(x, ys[m], ys, ws, m);
    CauchySumZero(x, ys, ws, m);
    MulZero(Add(x, ys[m]));
  }

  lemma {:induction false} CauchySumZero(x: byte, ys: Vec, ws: Vec, n: nat)
    requires n <= |ys| && n <= |ws| && forall j :: 0 <= j < n ==> ws[j] == 0
    ensures CauchySum(x, ys, ws, n) == 0
  {
    hide Mul, Inverse, Add;
    if n > 0 {
      CauchySumZero(x, ys, ws, n - 1);
      MulZero(Inverse(Add(x, ys[n - 1])));
      AddZero(0);
    }
  }

  // ---------- any k of the k + p rows ----------

  /** The items with the given indices: rows of a matrix, or entries of a vector. */
  function Select<T>(items: seq<T>, indices: seq<nat>): (r: seq<T>)
    requires forall i :: 0 <= i < |indices| ==> indices[i] < |items|
    ensures |r| == |indices| && forall i :: 0 <= i < |indices| ==> r[i] == items[indices[i]]
  {
    seq(|indices|, i requires 0 <= i < |indices| => items[indices[i]])
  }

  /** The columns below n whose unit row is not selected. */
  function Missing(rows: seq<nat>, n: nat): (c: seq<nat>)
    ensures forall i :: 0 <= i < |c| ==> c[i] < n
    ensures Distinct(c)
  {
    if n == 0 then [] else
      var c := Missing(rows, n - 1);
      if n - 1 in rows then c else c + [n - 1]
  }

  lemma {:induction false} MissingComplete(rows: seq<nat>, n: nat, j: nat) returns (i: nat)
    requires j < n && j !in rows
    ensures i < |Missing(rows, n)| && Missing(rows, n)[i] == j
  {
    if j == n - 1 {
      i := |Missing(rows, n - 1)|;
    } else {
      i := MissingComplete(rows, n - 1, j);
    }
  }

  /** The selected rows from k on. */
  function ParityRows(rows: seq<nat>, k: nat): (c: seq<nat>)
    ensures forall i :: 0 <= i < |c| ==> k <= c[i] && c[i] in rows
  {
    if rows == [] then [] else
      var c := ParityRows(rows[1..], k);
      if rows[0] < k then c else [rows[0]] + c
  }

  lemma {:induction false} ParityRowsDistinct(rows: seq<nat>, k: nat)
    requires Distinct(rows)
    ensures Distinct(ParityRows(rows, k))
  {
    if rows != [] {
      ParityRowsDistinct(rows[1..], k);
    }
  }

  function CountBelow(rows: seq<nat>, k: nat): nat {
    if rows == [] then 0 else CountBelow(rows[1..], k) + (if rows[0] < k then 1 else 0)
  }

  lemma {:induction false} CountBelowStep(rows: seq<nat>, k: nat)
    requires Distinct(rows)
    ensures CountBelow(rows, k + 1) == CountBelow(rows, k) + (if k in rows then 1 else 0)
  {
    if rows != [] {
      assert rows == [rows[0]] + rows[1..];
      CountBelowStep(rows[1..], k);
    }
  }

  lemma {:induction false} CountBelowZero(rows: seq<nat>)
    ensures CountBelow(rows, 0) == 0
  {
    if rows != [] { CountBelowZero(rows[1..]); }
  }

  lemma {:induction false} MissingCount(rows: seq<nat>, n: nat)
    requires Distinct(rows)
    ensures |Missing(rows, n)| + CountBelow(rows, n) == n
  {
    if n == 0 {
      CountBelowZero(rows);
    } else {
      MissingCount(rows, n - 1);
      CountBelowStep(rows, n - 1);
    }
  }

  lemma {:induction false} ParityCount(rows: seq<nat>, k: nat)
    ensures |ParityRows(rows, k)| + CountBelow(rows, k) == |rows|
  {
    if rows != [] {
      ParityCount(rows[1..], k);
    }
  }

  /** As many parity rows are selected as data rows are missing. */
  lemma ParityRowsReplaceMissing(rows: seq<nat>, k: nat)
    requires Distinct(rows) && |rows| == k
    ensures |ParityRows(rows, k)| == |Missing(rows, k)|
  {
    MissingCount(rows, k);
    ParityCount(rows, k);
  }

  function Points(c: seq<nat>): (r: Vec)
    ensures |r| == |c| && forall i :: 0 <= i < |c| ==> r[i] == ToByte(c[i])
  {
    seq(|c|, i requires 0 <= i < |c| => ToByte(c[i]))
  }

  /** The Cauchy sum over the columns c. */
  function ColumnSum(x: byte, v: Vec, c: seq<nat>): byte
    requires forall i :: 0 <= i < |c| ==> c[i] < |v|
  {
    CauchySum(x, Points(c), Select(v, c), |c|)
  }

  lemma ColumnSumStep(x: byte, v: Vec, c: seq<nat>, j: nat)
    requires (forall i :: 0 <= i < |c| ==> c[i] < |v|) && j < |v|
    ensures ColumnSum(x, v, c + [j]) == Add(ColumnSum(x, v, c), Mul(v[j], Inverse(Add(x, ToByte(j)))))
  {
    hide Mul, Inverse, Add, ToByte;
    var d := c + [j];
    CauchySumPrefix(x, Points(c), Points(d), Select(v, c), Select(v, d), |c|);
  }

  /** Where the selected data entries vanish, a parity row sums over the missing columns only. */
  lemma {:induction false} ParityRowSum(k: nat, r: nat, rows: seq<nat>, v: Vec, n: nat)
    requires n <= k == |v| && k <= r
    requires forall j :: 0 <= j < k && j in rows ==> v[j] == 0
    ensures Dot(EncodeRow(k, r), v, n) == ColumnSum(ToByte(r), v, Missing(rows, n))
  {
    hide Mul, Inverse, Add, ToByte, ColumnSum;
    if n == 0 {
      assert Missing(rows, 0) == [];
      assert ColumnSum(ToByte(r), v, []) == 0 by { EmptySum(ToByte(r), v); }
    } else {
      ParityRowSum(k, r, rows, v, n - 1);
      var e := EncodeRow(k, r)[n - 1];
      if n - 1 in rows {
        MulZero(e);
        AddZero(Dot(EncodeRow(k, r), v, n - 1));
      } else {
        ColumnSumStep(ToByte(r), v, Missing(rows, n - 1), n - 1);
        MulComm(e, v[n - 1]);
      }
    }
  }

  lemma EmptySum(x: byte, v: Vec)
    ensures ColumnSum(x, v, []) == 0
  {
  }

  lemma PointsDistinct(a: seq<nat>, b: seq<nat>, k: nat)
    requires Distinct(a) && Distinct(b)
    requires forall i :: 0 <= i < |a| ==> k <= a[i] < 256
    requires forall i :: 0 <= i < |b| ==> b[i] < k
    requires k <= 256
    ensures Distinct(Points(a)) && Distinct(Points(b)) && Apart(Points(a), Points(b))
  {
    hide ToByte;
    forall i, j | 0 <= i < j < |a| ensures Points(a)[i] != Points(a)[j] {
      if ToByte(a[i]) == ToByte(a[j]) { ToByteInjective(a[i], a[j]); }
    }
    forall i, j | 0 <= i < j < |b| ensures Points(b)[i] != Points(b)[j] {
      if ToByte(b[i]) == ToByte(b[j]) { ToByteInjective(b[i], b[j]); }
    }
    forall i, j | 0 <= i < |a| && 0 <= j < |b| ensures Points(a)[i] != Points(b)[j] {
      if ToByte(a[i]) == ToByte(b[j]) { ToByteInjective(a[i], b[j]); }
    }
  }

  lemma SelectedKernel(k: nat, p: nat, rows: seq<nat>, v: Vec)
    requires k + p <= 256 && |rows| == k == |v| && Distinct(rows)
    requires forall i :: 0 <= i < k ==> rows[i] < k + p
    requires forall i :: 0 <= i < k ==> Dot(EncodeRow(k, rows[i]), v, k) == 0
    ensures IsZero(v)
  {
    hide Mul, Inverse, Add, ToByte, Dot;
    forall j | 0 <= j < k && j in rows
      ensures v[j] == 0
    {
      var i :| 0 <= i < k && rows[i] == j;
      DotUnit(EncodeRow(k, j), v, k, j);
    }
    var xs, ys := ParityRows(rows, k), Missing(rows, k);
    var ws := Select(v, ys);
    ParityRowsReplaceMissing(rows, k);
    ParityRowsDistinct(rows, k);
    PointsDistinct(xs, ys, k);
    forall i | 0 <= i < |xs|
      ensures CauchySum(Points(xs)[i], Points(ys), ws, |ws|) == 0
    {
      ParityRowSum(k, xs[i], rows, v, k);
    }
    CauchySystem(Points(xs), Points(ys), ws);
    forall j | 0 <= j < k
      ensures v[j] == 0
    {
      if j !in rows {
        var i := MissingComplete(rows, k, j);
        assert ws[i] == 0;
      }
    }
  }

  /** The any-K-of-N property: every choice of k distinct rows of the encode matrix is invertible. */
  lemma AnyRowsInvertible(k: nat, p: nat, rows: seq<nat>)
    requires k + p <= 256 && |rows| == k && Distinct(rows)
    requires forall i :: 0 <= i < k ==> rows[i] < k + p
    ensures IsSquare(Select(EncodeMatrix(k, p), rows), k)
    ensures Invert(Select(EncodeMatrix(k, p), rows)).Some?
  {
    hide Mul, Inverse, Add, Dot, ToByte, Invert;
    var m := Select(EncodeMatrix(k, p), rows);
    forall v: Vec | |v| == k && IsZero(Apply(m, v))
      ensures IsZero(v)
    {
      forall i | 0 <= i < k ensures Dot(EncodeRow(k, rows[i]), v, k) == 0 {
        assert Apply(m, v)[i] == 0;
      }
      SelectedKernel(k, p, rows, v);
    }
    InvertSucceedsIffNonsingular(m);
  }

  // ---------- blocks ----------

  /** Byte b of every block. */
  function Slice(blocks: seq<Vec>, b: nat): (v: Vec)
    requires forall i :: 0 <= i < |blocks| ==> b < |blocks[i]|
    ensures |v| == |blocks| && forall i :: 0 <= i < |blocks| ==> v[i] == blocks[i][b]
  {
    seq(|blocks|, i requires 0 <= i < |blocks| => blocks[i][b])
  }

  ghost predicate BlocksOf(blocks: seq<Vec>, n: nat, len: nat) {
    |blocks| == n && forall i :: 0 <= i < n ==> |blocks[i]| == len
  }

  /** One output row of ec_encode_data. */
  function Combine(row: Vec, blocks: seq<Vec>, len: nat): (r: Vec)
    requires BlocksOf(blocks, |row|, len)
    ensures |r| == len && forall b :: 0 <= b < len ==> r[b] == Dot(row, Slice(blocks, b), |row|)
  {
    seq(len, b requires 0 <= b < len => Dot(row, Slice(blocks, b), |row|))
  }

  /** Shard s of a page: a data block for s < k, a parity block from k on. */
  function Shard(data: seq<Vec>, s: nat, len: nat): (r: Vec)
    requires BlocksOf(data, |data|, len)
    ensures |r| == len
  {
    Combine(EncodeRow(|data|, s), data, len)
  }

  lemma DataShard(data: seq<Vec>, s: nat, len: nat)
    requires BlocksOf(data, |data|, len) && s < |data|
    ensures Shard(data, s, len) == data[s]
  {
    hide Mul, Inverse, Add, Dot, ToByte;
    forall b | 0 <= b < len
      ensures Shard(data, s, len)[b] == data[s][b]
    {
      DotUnit(EncodeRow(|data|, s), Slice(data, b), |data|, s);
    }
  }

  function Shards(data: seq<Vec>, rows: seq<nat>, len: nat): (r: seq<Vec>)
    requires BlocksOf(data, |data|, len)
    ensures BlocksOf(r, |rows|, len) && forall i :: 0 <= i < |rows| ==> r[i] == Shard(data, rows[i], len)
  {
    seq(|rows|, i requires 0 <= i < |rows| => Shard(data, rows[i], len))
  }

  /** Decoding from any k distinct shards with the inverted rows gives back every data block. */
  lemma DecodeShards(data: seq<Vec>, p: nat, rows: seq<nat>, len: nat, e: nat)
    requires BlocksOf(data, |data|, len) && |data| + p <= 256
    requires |rows| == |data| && Distinct(rows) && forall i :: 0 <= i < |rows| ==> rows[i] < |data| + p
    requires e < |data|
    ensures var m := Select(EncodeMatrix(|data|, p), rows);
            && IsSquare(m, |data|) && Invert(m).Some?
            && Combine(Invert(m).value[e], Shards(data, rows, len), len) == data[e]
  {
    hide Mul, Inverse, Add, Dot, ToByte, Invert;
    var k := |data|;
    var m := Select(EncodeMatrix(k, p), rows);
    AnyRowsInvertible(k, p, rows);
    var decoded := Combine(Invert(m).value[e], Shards(data, rows, len), len);
    forall b | 0 <= b < len
      ensures decoded[b] == data[e][b]
    {
      var v := Slice(data, b);
      assert Slice(Shards(data, rows, len), b) == Apply(m, v);
      InvertUndoes(m, v);
    }
  }

  /** A page that decodes from given shards has exactly those shards: decoding confuses no two pages. */
  lemma DecodedShards(data: seq<Vec>, p: nat, rows: seq<nat>, shards: seq<Vec>, len: nat)
    requires BlocksOf(data, |data|, len) && |data| + p <= 256 && BlocksOf(shards, |data|, len)
    requires |rows| == |data| && Distinct(rows) && forall i :: 0 <= i < |rows| ==> rows[i] < |data| + p
    requires var m := Select(EncodeMatrix(|data|, p), rows);
             && IsSquare(m, |data|) && Invert(m).Some?
             && forall e :: 0 <= e < |data| ==>
                  if e in rows then forall i :: 0 <= i < |data| && rows[i] == e ==> data[e] == shards[i]
                  else data[e] == Combine(Invert(m).value[e], shards, len)
    ensures shards == Shards(data, rows, len)
  {
    hide Mul, Inverse, Add, Dot, ToByte, Invert;
    var k := |data|;
    var m := Select(EncodeMatrix(k, p), rows);
    forall i, b | 0 <= i < k && 0 <= b < len
      ensures shards[i][b] == Shard(data, rows[i], len)[b]
    {
      var s := Slice(shards, b);
      var x := Apply(Invert(m).value, s);
      InvertUndone(m, s);
      forall e | 0 <= e < k
        ensures x[e] == data[e][b]
      {
        if e in rows {
          var j :| 0 <= j < k && rows[j] == e;
          DotUnit(m[j], x, k, e);
          assert Apply(m, x)[j] == s[j];
        }
      }
      assert x == Slice(data, b);
      assert Apply(m, x)[i] == s[i];
    }
    forall i | 0 <= i < k ensures shards[i] == Shards(data, rows, len)[i] { }
  }
}
