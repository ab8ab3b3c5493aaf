/** Integer matrices as lists of row vectors: shape, identity, rows and columns,
    transposition, addition, scaling, multiplication and the determinant by
    cofactor expansion along the first row. */
module Matrices {
  import opened Options
  import opened Lists
  import opened Vectors

  datatype Matrix = Matrix(rows: seq<Vector>)

  /** The number of rows. */
  function Height(m: Matrix): nat {
    |m.rows|
  }

  /** The order of the first row, or zero for a matrix without rows. */
  function Width(m: Matrix): nat {
    if |m.rows| == 0 then 0 else Order(m.rows[0])
  }

  /** Every row has the order of the first one. */
  predicate Rectangular(m: Matrix) {
    IsRectangular(Entries(m))
  }

  /** The entries row by row, as a list of lists of numbers. */
  function Entries(m: Matrix): (r: seq<seq<int>>)
    ensures |r| == Height(m)
    ensures forall i :: 0 <= i < |r| ==> r[i] == m.rows[i].components
  {
    seq(|m.rows|, i requires 0 <= i < |m.rows| => m.rows[i].components)
  }

  /** The matrix with the given lists of numbers as its rows. */
  function FromEntries(xss: seq<seq<int>>): (r: Matrix)
    ensures Height(r) == |xss|
    ensures forall i :: 0 <= i < |xss| ==> r.rows[i] == Vector(xss[i])
    ensures Entries(r) == xss
  {
    Matrix(seq(|xss|, i requires 0 <= i < |xss| => Vector(xss[i])))
  }

  // ---------------------------------------------------------------------------
  // Vectors as matrices
  // ---------------------------------------------------------------------------

  /** The 1×N matrix whose only row is `v`. */
  function AsRowMatrix(v: Vector): (r: Matrix)
    ensures Height(r) == 1 && Width(r) == Order(v) && Rectangular(r)
    ensures r.rows[0] == v
  {
    Matrix([v])
  }

  /** The N×1 matrix whose row `i` holds component `i` of `v`; without rows (and
      so of width zero) when `v` is empty. */
  function AsColumnMatrix(v: Vector): (r: Matrix)
    ensures Height(r) == Order(v) && Rectangular(r)
    ensures Width(r) == if Order(v) == 0 then 0 else 1
    ensures forall i :: 0 <= i < Order(v) ==> r.rows[i] == Vector([v.components[i]])
  {
    Matrix(seq(|v.components|, i requires 0 <= i < |v.components| => Vector([v.components[i]])))
  }

  // ---------------------------------------------------------------------------
  // Identity, rows, columns, transposition
  // ---------------------------------------------------------------------------

  /** The identity matrix of the given order; no matrix for an order below one
      (the library throws). */
  function Identity(order: int): (r: Option<Matrix>)
    ensures r.None? <==> order < 1
    ensures r.Some? ==> Height(r.value) == order && Width(r.value) == order && Rectangular(r.value)
    ensures r.Some? ==> forall i, j :: 0 <= i < order && 0 <= j < order ==>
      r.value.rows[i].components[j] == if i == j then 1 else 0
  {
    if order < 1 then None
    else Some(FromEntries(IdentityEntries(order)))
  }

  /** The rows as a list of vectors (`getRows` returns a copy). */
  function GetRows(m: Matrix): (r: seq<Vector>)
    ensures |r| == Height(m)
    ensures Matrix(r) == m
  {
    m.rows
  }

  /** Column `j` of a matrix: entry `j` of every row, top to bottom. */
  function Column(m: Matrix, j: nat): (c: Vector)
    requires Rectangular(m) && j < Width(m)
    ensures Order(c) == Height(m)
  {
    Vector(seq(|m.rows|, k requires 0 <= k < |m.rows| => m.rows[k].components[j]))
  }

  /** The transposition, through the list-of-lists `transpose`. */
  function Transpose(m: Matrix): (r: Matrix)
    requires Rectangular(m)
    ensures Rectangular(r)
    ensures Height(r) == Width(m)
    ensures Width(m) > 0 ==> Width(r) == Height(m)
    ensures forall i, j :: 0 <= i < Height(r) && 0 <= j < Height(m) ==>
      r.rows[i].components[j] == m.rows[j].components[i]
  {
    var xss := Entries(m);
    assert CoversFirstRow(xss);
    FromEntries(Lists.Transpose(xss))
  }

  /** The columns, as the rows of the transposition. */
  function GetColumns(m: Matrix): (r: seq<Vector>)
    requires Rectangular(m)
    ensures |r| == Width(m)
    ensures forall j :: 0 <= j < |r| ==> r[j] == Column(m, j)
  {
    Transpose(m).rows
  }

  /** Transposing twice gives back a matrix with at least one column. */
  lemma TransposeInvolution(m: Matrix)
    requires Rectangular(m) && Width(m) > 0
    ensures Transpose(Transpose(m)) == m
  {
    var tt := Transpose(Transpose(m));
    assert |tt.rows| == |m.rows|;
    forall i | 0 <= i < |m.rows|
      ensures tt.rows[i] == m.rows[i]
    {
      assert tt.rows[i].components == m.rows[i].components;
    }
  }

  /** The rows of the transposition are the columns, and its columns the rows. */
  lemma TransposeSwapsRowsAndColumns(m: Matrix)
    requires Rectangular(m) && Width(m) > 0
    ensures forall j :: 0 <= j < Width(m) ==> Transpose(m).rows[j] == Column(m, j)
    ensures forall i :: 0 <= i < Height(m) ==> Column(Transpose(m), i) == m.rows[i]
  {
    var t := Transpose(m);
    forall i | 0 <= i < Height(m)
      ensures Column(t, i) == m.rows[i]
    {
      assert Column(t, i).components == m.rows[i].components;
    }
  }

  // ---------------------------------------------------------------------------
  // Addition and scaling
  // ---------------------------------------------------------------------------

  /** Row-by-row vector sum, over the rows the two matrices have in common. */
  function Plus(a: Matrix, b: Matrix): (r: Matrix)
    ensures Height(r) == Min(Height(a), Height(b))
    ensures forall i :: 0 <= i < Height(r) ==> r.rows[i] == Vectors.Plus(a.rows[i], b.rows[i])
  {
    Matrix(ZipWith(a.rows, b.rows, Vectors.Plus))
  }

  /** Every row scaled. */
  function Scale(m: Matrix, scalar: int): (r: Matrix)
    ensures Height(r) == Height(m)
    ensures forall i :: 0 <= i < Height(r) ==> r.rows[i] == Vectors.Scale(m.rows[i], scalar)
  {
    Matrix(seq(|m.rows|, i requires 0 <= i < |m.rows| => Vectors.Scale(m.rows[i], scalar)))
  }

  /** Two matrices of one shape add entry by entry to a matrix of that shape. */
  lemma PlusEntries(a: Matrix, b: Matrix)
    requires Rectangular(a) && Rectangular(b)
    requires Height(a) == Height(b) && Width(a) == Width(b)
    ensures Rectangular(Plus(a, b))
    ensures Height(Plus(a, b)) == Height(a) && Width(Plus(a, b)) == Width(a)
    ensures forall i, j :: 0 <= i < Height(a) && 0 <= j < Width(a) ==>
      Plus(a, b).rows[i].components[j] == a.rows[i].components[j] + b.rows[i].components[j]
  {
  }

  /** Matrix addition commutes. */
  lemma PlusCommutes(a: Matrix, b: Matrix)
    ensures Plus(a, b) == Plus(b, a)
  {
    var r, s := Plus(a, b), Plus(b, a);
    forall i | 0 <= i < Height(r)
      ensures r.rows[i] == s.rows[i]
    {
      Vectors.PlusCommutes(a.rows[i], b.rows[i]);
    }
  }

  /** Scaling keeps the shape and scales every entry. */
  lemma ScaleEntries(m: Matrix, c: int)
    requires Rectangular(m)
    ensures Rectangular(Scale(m, c))
    ensures Height(Scale(m, c)) == Height(m) && Width(Scale(m, c)) == Width(m)
    ensures forall i, j :: 0 <= i < Height(m) && 0 <= j < Width(m) ==>
      Scale(m, c).rows[i].components[j] == m.rows[i].components[j] * c
  {
  }

  // ---------------------------------------------------------------------------
  // Multiplication
  // ---------------------------------------------------------------------------

  /** The product: entry (i, j) is the dot product of row `i` of `a` with column
      `j` of `b`. */
  function Times(a: Matrix, b: Matrix): (r: Matrix)
    requires Rectangular(b)
    ensures Height(r) == Height(a) && Rectangular(r)
    ensures Height(a) > 0 ==> Width(r) == Width(b)
    ensures forall i, j :: 0 <= i < Height(a) && 0 <= j < Width(b) ==>
      r.rows[i].components[j] == DotProduct(a.rows[i], Column(b, j))
  {
    var columns := GetColumns(b);
    Matrix(seq(|a.rows|, i requires 0 <= i < |a.rows| =>
      Vector(seq(Width(b), j requires 0 <= j < Width(b) => DotProduct(a.rows[i], columns[j])))))
  }

  /** Column `j` of the identity of order `n` is the unit vector at `j`. */
  lemma IdentityColumn(n: nat, j: nat)
    requires 1 <= n && j < n
    ensures Column(Identity(n).value, j) == Unit(n, j)
  {
    var c := Column(Identity(n).value, j);
    assert c.components == Unit(n, j).components;
  }

  /** Multiplying by the identity on the right gives back the matrix. */
  lemma TimesIdentityRight(m: Matrix)
    requires Rectangular(m) && Width(m) > 0
    ensures Times(m, Identity(Width(m)).value) == m
  {
    var n := Width(m);
    var id := Identity(n).value;
    var r := Times(m, id);
    forall i | 0 <= i < Height(m)
      ensures r.rows[i] == m.rows[i]
    {
      forall j | 0 <= j < n
        ensures r.rows[i].components[j] == m.rows[i].components[j]
      {
        IdentityColumn(n, j);
        DotProductUnit(m.rows[i], j);
      }
      assert r.rows[i].components == m.rows[i].components;
    }
  }

  /** Multiplying by the identity on the left gives back the matrix. */
  lemma TimesIdentityLeft(m: Matrix)
    requires Rectangular(m) && Height(m) > 0
    ensures Times(Identity(Height(m)).value, m) == m
  {
    var n := Height(m);
    var id := Identity(n).value;
    var r := Times(id, m);
    forall i | 0 <= i < n
      ensures r.rows[i] == m.rows[i]
    {
      forall j | 0 <= j < Width(m)
        ensures r.rows[i].components[j] == m.rows[i].components[j]
      {
        var c := Column(m, j);
        assert id.rows[i] == Unit(Order(c), i);
        DotProductUnit(c, i);
      }
      assert r.rows[i].components == m.rows[i].components;
    }
  }

  /** A row matrix times a column matrix of the same order is the 1×1 matrix of
      their dot product. */
  lemma RowTimesColumn(v: Vector, w: Vector)
    requires Order(v) == Order(w) && Order(v) > 0
    ensures Times(AsRowMatrix(v), AsColumnMatrix(w)) == Matrix([Vector([DotProduct(v, w)])])
  {
    var r := Times(AsRowMatrix(v), AsColumnMatrix(w));
    assert Column(AsColumnMatrix(w), 0).components == w.components;
    assert r.rows[0].components == [DotProduct(v, w)];
  }

  // ---------------------------------------------------------------------------
  // Determinant
  // ---------------------------------------------------------------------------

  /** A list of lists with as many entries in each row as there are rows. */
  predicate IsSquare(xss: seq<seq<int>>) {
    forall i :: 0 <= i < |xss| ==> |xss[i]| == |xss|
  }

  /** The sign of the cofactor of column `i` of the first row. */
  function Sign(i: nat): int {
    if i % 2 == 0 then 1 else -1
  }

  /** The rows below the first with column `i` removed. */
  function Minor(xss: seq<seq<int>>, i: nat): (r: seq<seq<int>>)
    requires |xss| >= 1 && IsSquare(xss) && i < |xss|
    ensures |r| == |xss| - 1 && IsSquare(r)
    ensures forall k, j :: 0 <= k < |r| && 0 <= j < |r| ==>
      r[k][j] == xss[k + 1][if j < i then j else j + 1]
  {
    seq(|xss| - 1, k requires 0 <= k < |xss| - 1 => xss[k + 1][..i] + xss[k + 1][i + 1..])
  }

  /** The determinant of a square list of lists of order two or more: the
      closed form for order two, otherwise the sum of the first-row cofactor
      terms. */
  function Det(xss: seq<seq<int>>): int
    requires |xss| >= 2 && IsSquare(xss)
    decreases |xss|, 1
  {
    if |xss| == 2 then xss[0][0] * xss[1][1] - xss[1][0] * xss[0][1]
    else Sum(CofactorTerms(xss))
  }

  /** Term `i` of the expansion along the first row: the entry, its alternating
      sign and the determinant of its minor. */
  function CofactorTerms(xss: seq<seq<int>>): (r: seq<int>)
    requires |xss| >= 3 && IsSquare(xss)
    ensures |r| == |xss|
    ensures forall i :: 0 <= i < |xss| ==> r[i] == xss[0][i] * Sign(i) * Det(Minor(xss, i))
    decreases |xss|, 0
  {
    seq(|xss|, i requires 0 <= i < |xss| => xss[0][i] * Sign(i) * Det(Minor(xss, i)))
  }

  /** The determinant of a square matrix of order two or more; nothing for any
      other matrix. */
  function Determinant(m: Matrix): (r: Option<int>)
    requires Rectangular(m)
    ensures r.None? <==> Height(m) != Width(m) || Height(m) < 2
    ensures r.Some? && Height(m) == 2 ==> (r.value ==
      m.rows[0].components[0] * m.rows[1].components[1] - m.rows[1].components[0] * m.rows[0].components[1])
  {
    if Height(m) != Width(m) || Height(m) < 2 then None else Some(Det(Entries(m)))
  }

  /** The closed form for order two is the expansion along the first row with
      the one-entry minors. */
  lemma DetTwoByTwoIsExpansion(xss: seq<seq<int>>)
    requires |xss| == 2 && IsSquare(xss)
    ensures Det(xss) == Sum([xss[0][0] * Sign(0) * xss[1][1], xss[0][1] * Sign(1) * xss[1][0]])
  {
    SumCons(xss[0][0] * Sign(0) * xss[1][1], [xss[0][1] * Sign(1) * xss[1][0]]);
    SumCons(xss[0][1] * Sign(1) * xss[1][0], []);
    assert [xss[0][1] * Sign(1) * xss[1][0]] + [] == [xss[0][1] * Sign(1) * xss[1][0]];
  }

  /** The identity of order `n` as a list of lists. */
  function IdentityEntries(n: nat): (r: seq<seq<int>>)
    ensures |r| == n && IsSquare(r)
    ensures forall i, j :: 0 <= i < n && 0 <= j < n ==> r[i][j] == if i == j then 1 else 0
  {
    seq(n, i requires 0 <= i < n => seq(n, j requires 0 <= j < n => if i == j then 1 else 0))
  }

  /** The minor of the identity at its first column is the identity one order
      down. */
  lemma IdentityMinor(n: nat)
    requires n >= 2
    ensures Minor(IdentityEntries(n), 0) == IdentityEntries(n - 1)
  {
    var r := Minor(IdentityEntries(n), 0);
    forall k | 0 <= k < n - 1
      ensures r[k] == IdentityEntries(n - 1)[k]
    {
      assert |r[k]| == n - 1;
    }
  }

  /** The identity has determinant one. */
  lemma {:induction false} DetIdentity(n: nat)
    requires n >= 2
    ensures Det(IdentityEntries(n)) == 1
    decreases n
  {
    var id := IdentityEntries(n);
    if n > 2 {
      var terms := CofactorTerms(id);
      assert forall i :: 0 <= i < n && i != 0 ==> terms[i] == 0;
      SumSingleTerm(terms, 0);
      IdentityMinor(n);
      DetIdentity(n - 1);
    }
  }

  /** The identity matrix of every order from two on has determinant one. */
  lemma DeterminantIdentity(n: int)
    requires n >= 2
    ensures Determinant(Identity(n).value) == Some(1)
  {
    DetIdentity(n);
  }

  /** A matrix whose first row is zero has determinant zero. */
  lemma DetZeroFirstRow(xss: seq<seq<int>>)
    requires |xss| >= 2 && IsSquare(xss)
    requires forall i :: 0 <= i < |xss| ==> xss[0][i] == 0
    ensures Det(xss) == 0
  {
    if |xss| > 2 {
      var terms := CofactorTerms(xss);
      forall i | 0 <= i < |terms|
        ensures terms[i] == 0
      {
        var minor := Det(Minor(xss, i));
        assert terms[i] == 0 * Sign(i) * minor;
      }
      SumZero(terms);
    }
  }

  /** The entries on the diagonal, from the top left. */
  function Diagonal(xss: seq<seq<int>>): (r: seq<int>)
    requires IsSquare(xss)
    ensures |r| == |xss|
    ensures forall i :: 0 <= i < |xss| ==> r[i] == xss[i][i]
  {
    seq(|xss|, i requires 0 <= i < |xss| => xss[i][i])
  }

  /** Every entry above the diagonal is zero. */
  predicate LowerTriangular(xss: seq<seq<int>>)
    requires IsSquare(xss)
  {
    forall i, j :: 0 <= i < j < |xss| ==> xss[i][j] == 0
  }

  /** Removing the first row and column of a lower-triangular matrix leaves a
      lower-triangular matrix whose diagonal is the rest of the original one. */
  lemma MinorLowerTriangular(xss: seq<seq<int>>)
    requires |xss| >= 1 && IsSquare(xss) && LowerTriangular(xss)
    ensures LowerTriangular(Minor(xss, 0))
    ensures Diagonal(Minor(xss, 0)) == Diagonal(xss)[1..]
  {
  }

  /** When the first row is zero after its first entry, the expansion keeps
      only that entry times the determinant of its minor. */
  lemma DetFirstRowLeading(xss: seq<seq<int>>)
    requires |xss| >= 3 && IsSquare(xss)
    requires forall j :: 0 < j < |xss| ==> xss[0][j] == 0
    ensures Det(xss) == xss[0][0] * Det(Minor(xss, 0))
  {
    var terms := CofactorTerms(xss);
    forall i | 0 <= i < |terms| && i != 0
      ensures terms[i] == 0
    {
      var minor := Det(Minor(xss, i));
      assert terms[i] == 0 * Sign(i) * minor;
    }
    SumSingleTerm(terms, 0);
  }

  /** The determinant of a lower-triangular matrix is the product of its
      diagonal. */
  lemma {:induction false} DetLowerTriangular(xss: seq<seq<int>>)
    requires |xss| >= 2 && IsSquare(xss) && LowerTriangular(xss)
    ensures Det(xss) == Product(Diagonal(xss))
    decreases |xss|
  {
    var d := Diagonal(xss);
    assert d == [xss[0][0]] + d[1..];
    ProductCons(xss[0][0], d[1..]);
    if |xss| == 2 {
      assert d[1..] == [xss[1][1]] + [];
      ProductCons(xss[1][1], []);
    } else {
      MinorLowerTriangular(xss);
      DetLowerTriangular(Minor(xss, 0));
      DetFirstRowLeading(xss);
    }
  }

  // ---------------------------------------------------------------------------
  // The determinant of every square matrix
  // ---------------------------------------------------------------------------

  /** The determinant of every square matrix, and nothing for any other: the
      empty product one for order zero, the single entry for order one, and
      the cofactor expansion from order two on. */
  function SquareDeterminant(m: Matrix): (r: Option<int>)
    requires Rectangular(m)
    ensures r.None? <==> Height(m) != Width(m)
    ensures Height(m) == Width(m) == 0 ==> r == Some(1)
    ensures Height(m) == Width(m) == 1 ==> r == Some(m.rows[0].components[0])
    ensures Height(m) >= 2 ==> r == Determinant(m)
  {
    if Height(m) != Width(m) then None
    else if Height(m) == 0 then Some(1)
    else if Height(m) == 1 then Some(m.rows[0].components[0])
    else Some(Det(Entries(m)))
  }

  /** The identity of every order has determinant one under `SquareDeterminant`,
      while `Determinant` has no value for the identity of order one. */
  lemma SquareDeterminantIdentity(n: int)
    requires n >= 1
    ensures SquareDeterminant(Identity(n).value) == Some(1)
    ensures n == 1 ==> Determinant(Identity(n).value) == None
  {
    if n >= 2 {
      DeterminantIdentity(n);
    }
  }

  /** A 1 × 1 matrix is square, yet `Determinant` gives it no value. */
  lemma DeterminantMissesOneByOne(a: int)
    ensures Height(Matrix([Vector([a])])) == Width(Matrix([Vector([a])])) == 1
    ensures Determinant(Matrix([Vector([a])])) == None
    ensures SquareDeterminant(Matrix([Vector([a])])) == Some(a)
  {
  }

}
