// Handing a trace to the prover: per-column polynomial values, taken
// either from a column-major trace or by transposing a row-major one.

module StarkUtils {
  import opened Field

  /** PolynomialValues: the evaluations of one column over the trace domain. */
  datatype PolynomialValues = PolynomialValues(values: seq<Felt>)

  /** Every row has the given width. */
  predicate Rectangular(rows: seq<seq<Felt>>, width: nat)
  {
    forall r :: 0 <= r < |rows| ==> |rows[r]| == width
  }

  /** trace_to_poly_values: each column, in order, becomes one polynomial. */
  function TraceToPolyValues(trace: seq<seq<Felt>>): (r: seq<PolynomialValues>)
    ensures |r| == |trace|
  {
    seq(|trace|, c requires 0 <= c < |trace| => PolynomialValues(trace[c]))
  }

  /** The values of a list of polynomials, as columns. */
  function Columns(polys: seq<PolynomialValues>): seq<seq<Felt>>
  {
    seq(|polys|, c requires 0 <= c < |polys| => polys[c].values)
  }

  /** The columns handed over are the trace's columns, unchanged. */
  lemma TraceToPolyValuesKeepsColumns(trace: seq<seq<Felt>>)
    ensures Columns(TraceToPolyValues(trace)) == trace
  {
  }

  /** Column c of a rectangular row-major matrix. */
  function Column(rows: seq<seq<Felt>>, width: nat, c: nat): seq<Felt>
    requires Rectangular(rows, width) && c < width
  {
    seq(|rows|, r requires 0 <= r < |rows| => rows[r][c])
  }

  /**
   * transpose: the matrix whose c-th row is the c-th column of rows; the
   * width is that of the first row.
   */
  function Transpose(rows: seq<seq<Felt>>): (r: seq<seq<Felt>>)
    requires rows != [] ==> Rectangular(rows, |rows[0]|)
  {
    if rows == [] then []
    else seq(|rows[0]|, c requires 0 <= c < |rows[0]| => Column(rows, |rows[0]|, c))
  }

  /** trace_rows_to_poly_values: transpose, then one polynomial per column. */
  function TraceRowsToPolyValues(rows: seq<seq<Felt>>): seq<PolynomialValues>
    requires rows != [] ==> Rectangular(rows, |rows[0]|)
  {
    TraceToPolyValues(Transpose(rows))
  }

  /**
   * One polynomial per row entry; each has one value per row, and value r
   * of polynomial c is entry c of row r.
   */
  lemma TraceRowsToPolyValuesMeaning(rows: seq<seq<Felt>>, width: nat)
    requires rows != [] && Rectangular(rows, width)
    ensures |TraceRowsToPolyValues(rows)| == width
    ensures forall c :: 0 <= c < width ==> |TraceRowsToPolyValues(rows)[c].values| == |rows|
    ensures forall c, r :: 0 <= c < width && 0 <= r < |rows| ==>
      TraceRowsToPolyValues(rows)[c].values[r] == rows[r][c]
  {
  }

  /**
   * Transposing the columns back gives the original rows, as long as the
   * rows are not empty.
   */
  lemma TransposeRoundTrip(rows: seq<seq<Felt>>, width: nat)
    requires rows != [] && width > 0 && Rectangular(rows, width)
    ensures var cols := Columns(TraceRowsToPolyValues(rows));
      cols != [] && Rectangular(cols, |cols[0]|) && Transpose(cols) == rows
  {
    var cols := Columns(TraceRowsToPolyValues(rows));
    TraceRowsToPolyValuesMeaning(rows, width);
    assert |cols| == width;
    assert Rectangular(cols, |rows|);
    var back := Transpose(cols);
    assert |back| == |rows|;
    forall r | 0 <= r < |rows|
      ensures back[r] == rows[r]
    {
      assert |back[r]| == width;
      forall c | 0 <= c < width
        ensures back[r][c] == rows[r][c]
      {
        assert back[r][c] == cols[c][r];
      }
    }
  }
}
