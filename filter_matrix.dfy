/** The convolution kernel of `src/image_filter/filter_matrix.rs`: an N-by-N
    matrix of weights with N odd, kept flattened row by row. */
module Filters {
  import opened Outcomes

  /** `dim` is N; `mat` holds row `y` at positions `y * N .. y * N + N`. */
  datatype FilterMatrix = FilterMatrix(dim: nat, mat: seq<real>)

  /** The Rust argument type `[[f32; N]; N]`: N rows of N weights. */
  predicate Square(matrix: seq<seq<real>>)
  {
    forall y :: 0 <= y < |matrix| ==> |matrix[y]| == |matrix|
  }

  /** Every row has `n` entries. */
  predicate RowsOf(rows: seq<seq<real>>, n: nat)
  {
    forall y :: 0 <= y < |rows| ==> |rows[y]| == n
  }

  /** The rows one after another: `flat_map` over the rows. */
  function Flatten(rows: seq<seq<real>>): seq<real>
  {
    if rows == [] then [] else rows[0] + Flatten(rows[1..])
  }

  /** Dropping the first row keeps every row `n` long. */
  lemma RestRows(rows: seq<seq<real>>, n: nat)
    requires RowsOf(rows, n) && rows != []
    ensures RowsOf(rows[1..], n)
  {
    var rest := rows[1..];
    forall y | 0 <= y < |rest| ensures |rest[y]| == n {
      assert rest[y] == rows[y + 1];
    }
  }

  /** Flattening `h` rows of `n` entries gives `h * n` entries. */
  lemma {:induction false} FlattenLength(rows: seq<seq<real>>, n: nat)
    requires RowsOf(rows, n)
    ensures |Flatten(rows)| == |rows| * n
  {
    if rows != [] {
      RestRows(rows, n);
      FlattenLength(rows[1..], n);
      assert |Flatten(rows)| == n + |rows[1..]| * n;
    }
  }

  /** Row `y` starts one row after row `y - 1`. */
  lemma RowStart(n: nat, y: nat)
    requires y > 0
    ensures y * n == n + (y - 1) * n
  {
  }

  /** Flattening rows of `n` entries puts row `y`, column `x` at `x + y * n`. */
  lemma {:induction false} FlattenAt(rows: seq<seq<real>>, n: nat, x: nat, y: nat)
    requires RowsOf(rows, n) && x < n && y < |rows|
    ensures x + y * n < |Flatten(rows)| && Flatten(rows)[x + y * n] == rows[y][x]
  {
    var rest := rows[1..];
    assert Flatten(rows) == rows[0] + Flatten(rest);
    assert |rows[0]| == n;
    if y == 0 {
      assert x + y * n == x;
    } else {
      RestRows(rows, n);
      FlattenAt(rest, n, x, y - 1);
      RowStart(n, y);
      assert rest[y - 1] == rows[y];
    }
  }

  /** `FilterMatrix::new`: panics on an even N, otherwise keeps N and the
      N * N weights flattened row by row (`GetNew` reads them back). */
  function New(matrix: seq<seq<real>>): (r: Result<FilterMatrix>)
    requires Square(matrix)
    ensures r.Err? <==> |matrix| % 2 == 0
    ensures r.Err? ==> r.panic == EvenDimension
    ensures r.Ok? ==> r.value.dim == |matrix| && |r.value.mat| == r.value.dim * r.value.dim
  {
    if |matrix| % 2 == 0 then Err(EvenDimension)
    else
      FlattenLength(matrix, |matrix|);
      Ok(FilterMatrix(|matrix|, Flatten(matrix)))
  }

  /** `FilterMatrix::get`; the Rust slice index panics past the end. On an
      N-by-N kernel, a column inside the kernel is read from row `y`, the
      `y`-th run of N weights. */
  function Get(f: FilterMatrix, x: nat, y: nat): (w: real)
    requires x + y * f.dim < |f.mat|
    ensures x < f.dim && |f.mat| == f.dim * f.dim ==> y < f.dim && w == Row(f, y)[x]
  {
    if x < f.dim && |f.mat| == f.dim * f.dim then
      InsideRow(f.dim, x, y);
      RowAt(f, x, y);
      f.mat[x + y * f.dim]
    else
      f.mat[x + y * f.dim]
  }

  /** Row `y` of an N-by-N kernel: its `y`-th run of N weights. */
  function Row(f: FilterMatrix, y: nat): (row: seq<real>)
    requires y < f.dim && |f.mat| == f.dim * f.dim
    ensures |row| == f.dim
  {
    RowFits(f.dim, y);
    f.mat[y * f.dim .. y * f.dim + f.dim]
  }

  /** Entry `x` of row `y` is the flat entry `x + y * N`. */
  lemma RowAt(f: FilterMatrix, x: nat, y: nat)
    requires x < f.dim && y < f.dim && |f.mat| == f.dim * f.dim
    ensures x + y * f.dim < |f.mat| && Row(f, y)[x] == f.mat[x + y * f.dim]
  {
    var start := y * f.dim;
    RowFits(f.dim, y);
    assert Row(f, y) == f.mat[start .. start + f.dim];
    assert f.mat[start .. start + f.dim][x] == f.mat[start + x];
  }

  /** Row `y` of an n-by-n kernel ends within the kernel. */
  lemma RowFits(n: nat, y: nat)
    requires y < n
    ensures y * n + n <= n * n
  {
    var k: nat := n - y - 1;
    assert n * n == (y + 1 + k) * n;
    assert (y + 1 + k) * n == y * n + n + k * n;
  }

  /** A flat index `x + y * n` inside an n-by-n kernel, with `x < n`, lies
      in a row of the kernel. */
  lemma InsideRow(n: nat, x: nat, y: nat)
    requires x < n && x + y * n < n * n
    ensures y < n
  {
    if y >= n {
      assert false;
    }
  }

  /** Reading a built kernel at column `x`, row `y` gives the weight the
      matrix had there. */
  lemma GetNew(matrix: seq<seq<real>>, x: nat, y: nat)
    requires Square(matrix) && |matrix| % 2 == 1 && x < |matrix| && y < |matrix|
    ensures New(matrix).Ok? && x + y * New(matrix).value.dim < |New(matrix).value.mat|
    ensures Get(New(matrix).value, x, y) == matrix[y][x]
  {
    FlattenAt(matrix, |matrix|, x, y);
  }

  /** The index wraps into the next row: a column past the edge is read
      from the start of the following row, as the flat index reads it. */
  lemma GetWraps(f: FilterMatrix, x: nat, y: nat)
    requires f.dim <= x && x + y * f.dim < |f.mat|
    ensures Get(f, x, y) == Get(f, x - f.dim, y + 1)
  {
    assert (x - f.dim) + (y + 1) * f.dim == x + y * f.dim;
  }
}
