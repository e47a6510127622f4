/**
 * `split_tool_tip`: replaces one field of every row, a tooltip `"V [L-H]"`, by the three
 * fields V, L and H. The Rust code panics on the first row it cannot split; here that
 * row's position and the reason are returned as an error instead.
 */
module Split {
  import opened Text
  import opened Tables
  import opened Tooltip

  /** Why a row cannot be split (each is a panic in the Rust code). */
  datatype Reason =
    | EmptyRow          // `fields.len() - 1` underflows; it is computed even when an index is given
    | IndexOutOfRange   // `split_at(t)` or `fields[t]` with `t >= len`
    | NoTooltip         // the trimmed field does not match the pattern: `captures(..).unwrap()`

  /** The first row that could not be split, and why. */
  datatype SplitError = SplitError(row: nat, reason: Reason)

  /** The field to split: the given index, or else the last field. */
  function TooltipIndex(row: Row, index: Option<nat>): int {
    match index
    case Some(t) => t
    case None => |row| - 1
  }

  /** One row after splitting, or the reason it cannot be split. */
  function SplitRow(row: Row, index: Option<nat>): (r: Result<Row, Reason>)
    ensures r.Ok? ==> |r.value| == |row| + 2
  {
    var t := TooltipIndex(row, index);
    if row == [] then Err(EmptyRow)
    else if !(0 <= t < |row|) then Err(IndexOutOfRange)
    else match Parse(row[t])
      case None => Err(NoTooltip)
      case Some(c) => Ok(row[..t] + [c.value, c.low, c.high] + row[t + 1..])
  }

  /** The first row, at position `from` or later, that cannot be split. */
  function FirstFailure(t: Table, index: Option<nat>, from: nat): (r: Option<nat>)
    requires from <= |t|
    ensures r.Some? ==> from <= r.value < |t| && SplitRow(t[r.value], index).Err?
    ensures r.Some? ==> forall p :: from <= p < r.value ==> SplitRow(t[p], index).Ok?
    ensures r.None? ==> forall p :: from <= p < |t| ==> SplitRow(t[p], index).Ok?
    decreases |t| - from
  {
    if from == |t| then None
    else if SplitRow(t[from], index).Err? then Some(from)
    else FirstFailure(t, index, from + 1)
  }

  /**
   * The table `split_tool_tip` returns, or the row where it stops. The table splits exactly
   * when every row does; then it keeps the row count and order, and every row gains two
   * fields. Otherwise the error names the first failing row and its reason.
   */
  function SplitTable(t: Table, index: Option<nat>): (r: Result<Table, SplitError>)
    ensures r.Ok? <==> forall p :: 0 <= p < |t| ==> SplitRow(t[p], index).Ok?
    ensures r.Ok? ==> |r.value| == |t|
    ensures r.Ok? ==> forall p :: 0 <= p < |t| ==>
      r.value[p] == SplitRow(t[p], index).value && |r.value[p]| == |t[p]| + 2
    ensures r.Err? ==>
      && r.error.row < |t| && SplitRow(t[r.error.row], index) == Err(r.error.reason)
      && forall p :: 0 <= p < r.error.row ==> SplitRow(t[p], index).Ok?
  {
    match FirstFailure(t, index, 0)
    case Some(p) => Err(SplitError(p, SplitRow(t[p], index).error))
    case None => Ok(seq(|t|, p requires 0 <= p < |t| => SplitRow(t[p], index).value))
  }

  /** The loop body of `split_tool_tip` for one record. */
  method SplitRecord(rec: Row, index: Option<nat>) returns (r: Result<Row, Reason>)
    ensures r == SplitRow(rec, index)
  {
    if rec == [] {
      return Err(EmptyRow);
    }
    var tooltipIndex := TooltipIndex(rec, index);
    if !(0 <= tooltipIndex < |rec|) {
      return Err(IndexOutOfRange);
    }
    var caps := Parse(rec[tooltipIndex]);
    if caps.None? {
      return Err(NoTooltip);
    }
    var newRec := Splice(rec, tooltipIndex, caps.value);
    r := Ok(newRec);
  }

  /**
   * The pushes of `split_tool_tip` for one record: the fields left of the tooltip, the
   * three captures, then the fields right of it, skipping the tooltip itself.
   */
  method Splice(rec: Row, tooltipIndex: nat, c: Captures) returns (newRec: Row)
    requires tooltipIndex < |rec|
    ensures newRec == rec[..tooltipIndex] + [c.value, c.low, c.high] + rec[tooltipIndex + 1..]
  {
    newRec := [];
    for i := 0 to tooltipIndex
      invariant newRec == rec[..i]
    {
      newRec := newRec + [rec[i]];
    }
    newRec := newRec + [c.value, c.low, c.high];
    ghost var head := newRec;
    for i := tooltipIndex + 1 to |rec|
      invariant newRec == head + rec[tooltipIndex + 1..i]
    {
      newRec := newRec + [rec[i]];
    }
    assert rec[tooltipIndex + 1..|rec|] == rec[tooltipIndex + 1..];
  }

  /** `split_tool_tip`: splits every row in order, stopping at the first that fails. */
  method SplitToolTip(t: Table, index: Option<nat>) returns (r: Result<Table, SplitError>)
    ensures r == SplitTable(t, index)
  {
    var output: Table := [];
    for k := 0 to |t|
      invariant |output| == k
      invariant forall p :: 0 <= p < k ==> SplitRow(t[p], index).Ok? && output[p] == SplitRow(t[p], index).value
    {
      var newRec := SplitRecord(t[k], index);
      if newRec.Err? {
        SplitTableStops(t, index, k);
        return Err(SplitError(k, newRec.error));
      }
      output := output + [newRec.value];
    }
    SplitTableAll(t, index, output);
    r := Ok(output);
  }

  /** The table stops at a failing row when every row before it splits. */
  lemma SplitTableStops(t: Table, index: Option<nat>, k: nat)
    requires k < |t| && SplitRow(t[k], index).Err?
    requires forall p :: 0 <= p < k ==> SplitRow(t[p], index).Ok?
    ensures SplitTable(t, index) == Err(SplitError(k, SplitRow(t[k], index).error))
  {
    var r := SplitTable(t, index);
    assert r.Err?;
    assert r.error.row == k;
  }

  /** The table is the split rows when every row splits. */
  lemma SplitTableAll(t: Table, index: Option<nat>, output: Table)
    requires |output| == |t|
    requires forall p :: 0 <= p < |t| ==> SplitRow(t[p], index).Ok? && output[p] == SplitRow(t[p], index).value
    ensures SplitTable(t, index) == Ok(output)
  {
    var r := SplitTable(t, index);
    assert r.Ok?;
    assert r.value == output;
  }

  /**
   * A row splits exactly when it is non-empty, the tooltip index is in range and its
   * trimmed field matches; the result keeps the fields before and after, and puts the
   * three captures in place of the tooltip.
   */
  lemma SplitRowShape(row: Row, index: Option<nat>)
    ensures SplitRow(row, index).Ok? <==>
      row != [] && 0 <= TooltipIndex(row, index) < |row| && Parse(row[TooltipIndex(row, index)]).Some?
    ensures SplitRow(row, index).Ok? ==>
      var t := TooltipIndex(row, index);
      var out := SplitRow(row, index).value;
      var c := Parse(row[t]).value;
      out[..t] == row[..t] && out[t] == c.value && out[t + 1] == c.low && out[t + 2] == c.high
      && out[t + 3..] == row[t + 1..]
  {
    if SplitRow(row, index).Ok? {
      var t := TooltipIndex(row, index);
      var out := SplitRow(row, index).value;
      var c := Parse(row[t]).value;
      assert out == row[..t] + [c.value, c.low, c.high] + row[t + 1..];
      assert out[t + 3..] == row[t + 1..];
    }
  }

  /**
   * Round trip: a row whose tooltip field (given by index, or the last field) is a rendered
   * tooltip with a high bound without '-' splits into the row with the three parts in that
   * place.
   */
  lemma SplitRendered(left: Row, right: Row, index: Option<nat>,
                      value: string, ws: string, low: string, high: string)
    requires index == Some(|left|) || (index.None? && right == [])
    requires value != [] && AllNumberChars(value)
    requires AllWhitespace(ws)
    requires low != [] && AllNumberChars(low)
    requires high != [] && AllNumberChars(high) && NoDash(high)
    ensures SplitRow(left + [Render(value, ws, low, high)] + right, index)
      == Ok(left + [value, low, high] + right)
  {
    var row := left + [Render(value, ws, low, high)] + right;
    ParseRender(value, ws, low, high);
    assert row[..|left|] == left;
    assert row[|left| + 1..] == right;
  }

  /** A row ending in a WHO tooltip: `["X", "12.3 [10.1-14.5]"]` splits into four fields. */
  lemma SplitExample()
    ensures SplitRow(["X", "12.3 [10.1-14.5]"], None) == Ok(["X", "12.3", "10.1", "14.5"])
  {
    ParseExample();
    SplitTooltipField("X", "12.3 [10.1-14.5]", Captures("12.3", "10.1", "14.5"));
  }

  /** A two-field row whose last field parses splits into its first field and the captures. */
  lemma SplitTooltipField(x: string, field: string, c: Captures)
    requires Parse(field) == Some(c)
    ensures SplitRow([x, field], None) == Ok([x, c.value, c.low, c.high])
  {
    var row := [x, field];
    assert TooltipIndex(row, None) == 1 && row[1] == field;
    assert row[..1] == [x] && row[2..] == [];
    assert [x] + [c.value, c.low, c.high] + [] == [x, c.value, c.low, c.high];
  }

  /** An empty row fails whether or not an index is given. */
  lemma SplitEmptyRow(index: Option<nat>)
    ensures SplitRow([], index) == Err(EmptyRow)
  {
  }
}
