/**
 * The column operators of `RecordFilter`: `keep_values`, `remove`, `select_ranges` and
 * `transpose_years`. A field index or range the Rust code would panic on is excluded by
 * a precondition that says exactly when the index is evaluated.
 */
module Columns {
  import opened Text
  import opened Tables

  // ---------------------------------------------------------------- keep_values

  /** Some allowed value, trimmed, equals the field, trimmed (exact and case-sensitive). */
  predicate Allowed(values: seq<string>, field: string) {
    exists j :: 0 <= j < |values| && Trim(values[j]) == Trim(field)
  }

  /** The filter of `keep_values` on one row. */
  predicate Keeps(values: seq<string>, index: nat, row: Row) {
    index < |row| && Allowed(values, row[index])
  }

  /**
   * `keep_values`: the rows whose field `index` is allowed, in their order, unchanged.
   * `any` over an empty list of values never reads `r[index]`, so only a non-empty list
   * needs the field in every row.
   */
  function KeepValues(t: Table, values: seq<string>, index: nat): (r: Table)
    requires values == [] || HasField(t, index)
    ensures |r| <= |t|
    decreases |t|
  {
    if t == [] then []
    else (if Keeps(values, index, t[0]) then [t[0]] else []) + KeepValues(t[1..], values, index)
  }

  /** A row is in the result exactly when it is in the input and passes the filter. */
  lemma {:induction false} KeepValuesMembers(t: Table, values: seq<string>, index: nat)
    requires values == [] || HasField(t, index)
    ensures forall row :: row in KeepValues(t, values, index) <==> row in t && Keeps(values, index, row)
    decreases |t|
  {
    if t != [] {
      KeepValuesMembers(t[1..], values, index);
      assert t == [t[0]] + t[1..];
    }
  }

  /** Filtering commutes with concatenation: kept rows keep their relative order. */
  lemma {:induction false} KeepValuesAppend(a: Table, b: Table, values: seq<string>, index: nat)
    requires values == [] || HasField(a + b, index)
    ensures values == [] || (HasField(a, index) && HasField(b, index))
    ensures KeepValues(a + b, values, index) == KeepValues(a, values, index) + KeepValues(b, values, index)
    decreases |a|
  {
    if values != [] {
      assert HasField(a, index) && HasField(b, index) by {
        forall p | 0 <= p < |a| ensures index < |a[p]| {
          assert a[p] == (a + b)[p];
        }
        forall p | 0 <= p < |b| ensures index < |b[p]| {
          assert b[p] == (a + b)[|a| + p];
        }
      }
    }
    if a == [] {
      assert a + b == b;
    } else {
      var ab := a + b;
      assert ab[0] == a[0] && ab[1..] == a[1..] + b;
      var ka, kb := KeepValues(a[1..], values, index), KeepValues(b, values, index);
      assert KeepValues(a[1..] + b, values, index) == ka + kb by {
        KeepValuesAppend(a[1..], b, values, index);
      }
      var head: Table := if Keeps(values, index, a[0]) then [a[0]] else [];
      assert KeepValues(ab, values, index) == head + (ka + kb);
      assert KeepValues(a, values, index) == head + ka;
      assert head + (ka + kb) == (head + ka) + kb;
    }
  }

  /** Keeping the kept rows again changes nothing. */
  lemma {:induction false} KeepValuesIdempotent(t: Table, values: seq<string>, index: nat)
    requires values == [] || HasField(t, index)
    ensures values == [] || HasField(KeepValues(t, values, index), index)
    ensures KeepValues(KeepValues(t, values, index), values, index) == KeepValues(t, values, index)
    decreases |t|
  {
    if t != [] {
      var rest := KeepValues(t[1..], values, index);
      KeepValuesIdempotent(t[1..], values, index);
      var head: Table := if Keeps(values, index, t[0]) then [t[0]] else [];
      KeepValuesAppend(head, rest, values, index);
      if head != [] {
        assert head[1..] == [];
      }
    }
  }

  /** With no allowed values nothing is kept. */
  lemma KeepNothing(t: Table, index: nat)
    ensures KeepValues(t, [], index) == []
  {
    if t != [] {
      assert KeepValues(t, [], index) == [] + KeepValues(t[1..], [], index);
      KeepNothing(t[1..], index);
    }
  }

  /** Only the trimmed field matters: surrounding whitespace does not change the decision. */
  lemma KeepsTrimmed(values: seq<string>, index: nat, row: Row)
    requires index < |row|
    ensures Keeps(values, index, row) <==> Keeps(values, index, row[index := Trim(row[index])])
  {
    TrimIdempotent(row[index]);
  }

  // ---------------------------------------------------------------- remove

  /** One row with field `index` deleted (`Vec::remove`). */
  function RemoveField(row: Row, index: nat): (r: Row)
    requires index < |row|
    ensures |r| == |row| - 1
    ensures forall i :: 0 <= i < index ==> r[i] == row[i]
    ensures forall i :: index <= i < |r| ==> r[i] == row[i + 1]
  {
    row[..index] + row[index + 1..]
  }

  /** Putting the deleted field back restores the row. */
  lemma RemoveFieldInverse(row: Row, index: nat)
    requires index < |row|
    ensures var r := RemoveField(row, index); r[..index] + [row[index]] + r[index..] == row
  {
    var r := RemoveField(row, index);
    assert r[..index] == row[..index];
    assert r[index..] == row[index + 1..];
  }

  /** `remove`: every row loses field `index`; `Vec::remove` panics on a row without it. */
  function Remove(t: Table, index: nat): (r: Table)
    requires HasField(t, index)
    ensures |r| == |t|
    ensures forall p :: 0 <= p < |t| ==>
      |r[p]| == |t[p]| - 1 && r[p][..index] == t[p][..index] && r[p][index..] == t[p][index + 1..]
  {
    seq(|t|, p requires 0 <= p < |t| => assert t[p] in t; RemoveField(t[p], index))
  }

  // ---------------------------------------------------------------- select_ranges

  /** Total number of fields the ranges select. */
  function Width(ranges: seq<Span>): int {
    if ranges == [] then 0
    else Width(ranges[..|ranges| - 1]) + (ranges[|ranges| - 1].end - ranges[|ranges| - 1].start)
  }

  /** Every range can slice the row. */
  predicate AllFit(ranges: seq<Span>, row: Row) {
    forall k :: 0 <= k < |ranges| ==> SpanFits(ranges[k], row)
  }

  /** The fields the ranges pick, range after range, in the order the ranges are given. */
  function Selected(row: Row, ranges: seq<Span>): (r: Row)
    requires AllFit(ranges, row)
    ensures |r| == Width(ranges)
    decreases |ranges|
  {
    if ranges == [] then []
    else
      var last := ranges[|ranges| - 1];
      Selected(row, ranges[..|ranges| - 1]) + row[last.start..last.end]
  }

  /** The row-building loop of `select_ranges`: one `extend` per range. */
  method SelectRow(fields: Row, ranges: seq<Span>) returns (newRec: Row)
    requires AllFit(ranges, fields)
    ensures newRec == Selected(fields, ranges)
  {
    newRec := [];
    for k := 0 to |ranges|
      invariant newRec == Selected(fields, ranges[..k])
    {
      var range := ranges[k];
      newRec := newRec + fields[range.start..range.end];
      assert ranges[..k + 1][..k] == ranges[..k];
    }
    assert ranges[..|ranges|] == ranges;
  }

  lemma AllFitAppend(r1: seq<Span>, r2: seq<Span>, row: Row)
    requires AllFit(r1, row) && AllFit(r2, row)
    ensures AllFit(r1 + r2, row)
  {
    var both := r1 + r2;
    forall k | 0 <= k < |both| ensures SpanFits(both[k], row) {
      if k < |r1| {
        assert both[k] == r1[k];
      } else {
        assert both[k] == r2[k - |r1|];
      }
    }
  }

  /** Selecting with two lists of ranges in turn is selecting with their concatenation. */
  lemma {:induction false} SelectedAppend(row: Row, r1: seq<Span>, r2: seq<Span>)
    requires AllFit(r1, row) && AllFit(r2, row)
    ensures AllFit(r1 + r2, row)
    ensures Selected(row, r1 + r2) == Selected(row, r1) + Selected(row, r2)
    decreases |r2|
  {
    AllFitAppend(r1, r2, row);
    var both := r1 + r2;
    if r2 == [] {
      assert both == r1;
      assert Selected(row, r1) + Selected(row, r2) == Selected(row, r1);
    } else {
      var init, last := r2[..|r2| - 1], r2[|r2| - 1];
      var x, y, z := Selected(row, r1), Selected(row, init), row[last.start..last.end];
      assert Selected(row, r1 + init) == x + y by {
        SelectedAppend(row, r1, init);
      }
      assert Selected(row, both) == (x + y) + z by {
        assert both[..|both| - 1] == r1 + init && both[|both| - 1] == last;
      }
      assert Selected(row, r2) == y + z;
      assert (x + y) + z == x + (y + z);
    }
  }

  /** A single range selects its slice. */
  lemma SelectedOne(row: Row, span: Span)
    requires SpanFits(span, row)
    ensures Selected(row, [span]) == row[span.start..span.end]
  {
    assert [span][..0] == [];
  }

  /** `select_ranges`: each row becomes the concatenation of its slices. */
  function SelectRanges(t: Table, ranges: seq<Span>): (r: Table)
    requires forall row :: row in t ==> AllFit(ranges, row)
    ensures |r| == |t|
    ensures forall p :: 0 <= p < |t| ==> |r[p]| == Width(ranges)
  {
    seq(|t|, p requires 0 <= p < |t| => assert t[p] in t; Selected(t[p], ranges))
  }

  // ---------------------------------------------------------------- transpose_years

  /** A year column: the field holding the value, and the year written for it. */
  type YearColumn = (nat, int)

  /** The fields one year column reads exist: the base range, and the value field. */
  predicate TransposeFits(row: Row, base: Span, years: seq<YearColumn>) {
    years == [] || (SpanFits(base, row) && forall j :: 0 <= j < |years| ==> years[j].0 < |row|)
  }

  /** The row written for one year column: the base fields, the year, the value. */
  function YearRow(row: Row, base: Span, year: YearColumn): (r: Row)
    requires SpanFits(base, row) && year.0 < |row|
    ensures |r| == base.end - base.start + 2
  {
    row[base.start..base.end] + [IntToString(year.1)] + [row[year.0]]
  }

  /** The rows one input row turns into, one per year column, in their order. */
  function TransposedRow(row: Row, base: Span, years: seq<YearColumn>): (r: Table)
    requires TransposeFits(row, base, years)
    ensures |r| == |years|
    ensures forall k :: 0 <= k < |r| ==> |r[k]| == base.end - base.start + 2
    decreases |years|
  {
    if years == [] then []
    else TransposedRow(row, base, years[..|years| - 1]) + [YearRow(row, base, years[|years| - 1])]
  }

  /** The `flat_map` closure of `transpose_years`: pushes one new row per year column. */
  method TransposeRow(fields: Row, base: Span, years: seq<YearColumn>) returns (newRows: Table)
    requires TransposeFits(fields, base, years)
    ensures newRows == TransposedRow(fields, base, years)
  {
    newRows := [];
    for k := 0 to |years|
      invariant newRows == TransposedRow(fields, base, years[..k])
    {
      var (index, year) := years[k];
      var newRec := fields[base.start..base.end];
      newRec := newRec + [IntToString(year)];
      newRec := newRec + [fields[index]];
      assert years[..k + 1][..k] == years[..k];
      newRows := newRows + [newRec];
    }
    assert years[..|years|] == years;
  }

  /**
   * Row `j` of one row's output belongs to year column `j`: it starts with the base
   * fields, then the year (which reads back as that year), then the value field.
   */
  lemma {:induction false} TransposedRowAt(row: Row, base: Span, years: seq<YearColumn>, j: nat)
    requires TransposeFits(row, base, years) && j < |years|
    ensures TransposedRow(row, base, years)[j] == YearRow(row, base, years[j])
    decreases |years|
  {
    if j < |years| - 1 {
      TransposedRowAt(row, base, years[..|years| - 1], j);
    }
  }

  /**
   * `transpose_years`: the rows of every input row, input row by input row. Every output
   * row holds the base fields, the year and the value.
   */
  function Transposed(t: Table, base: Span, years: seq<YearColumn>): (r: Table)
    requires forall row :: row in t ==> TransposeFits(row, base, years)
    ensures forall k :: 0 <= k < |r| ==> |r[k]| == base.end - base.start + 2
    decreases |t|
  {
    if t == [] then []
    else
      assert t[0] in t;
      TransposedRow(t[0], base, years) + Transposed(t[1..], base, years)
  }

  /** Every input row gives one output row per year column: N * K rows in all. */
  lemma {:induction false} TransposedLength(t: Table, base: Span, years: seq<YearColumn>)
    requires forall row :: row in t ==> TransposeFits(row, base, years)
    ensures |Transposed(t, base, years)| == |t| * |years|
    decreases |t|
  {
    if t != [] {
      assert t[0] in t;
      assert forall row :: row in t[1..] ==> TransposeFits(row, base, years) by {
        forall row | row in t[1..] ensures row in t { }
      }
      TransposedLength(t[1..], base, years);
      MulStep(|t|, |years|);
    }
  }

  lemma MulStep(n: nat, k: nat)
    requires n > 0
    ensures n * k == k + (n - 1) * k
  {
  }

  lemma MulBound(i: nat, j: nat, k: nat, n: nat)
    requires i < n && j < k
    ensures i * k + j < n * k
  {
    assert (i + 1) * k <= n * k;
  }

  /** The rows of a concatenation that fit, split into the two parts. */
  lemma FitsParts(a: Table, b: Table, base: Span, years: seq<YearColumn>)
    requires forall row :: row in a + b ==> TransposeFits(row, base, years)
    ensures forall row :: row in a ==> TransposeFits(row, base, years)
    ensures forall row :: row in b ==> TransposeFits(row, base, years)
    ensures a != [] ==> forall row :: row in a[1..] ==> TransposeFits(row, base, years)
    ensures a != [] ==> forall row :: row in a[1..] + b ==> TransposeFits(row, base, years)
  {
    forall row | row in a ensures row in a + b { }
    forall row | row in b ensures row in a + b { }
    if a != [] {
      forall row | row in a[1..] ensures row in a { }
      forall row | row in a[1..] + b ensures row in a + b {
        assert row in a[1..] || row in b;
      }
    }
  }

  /** Transposing a concatenation transposes each part. */
  lemma {:induction false} TransposedAppend(a: Table, b: Table, base: Span, years: seq<YearColumn>)
    requires forall row :: row in a + b ==> TransposeFits(row, base, years)
    ensures forall row :: row in a ==> TransposeFits(row, base, years)
    ensures forall row :: row in b ==> TransposeFits(row, base, years)
    ensures Transposed(a + b, base, years) == Transposed(a, base, years) + Transposed(b, base, years)
    decreases |a|
  {
    FitsParts(a, b, base, years);
    var ab := a + b;
    if a == [] {
      assert ab == b;
    } else {
      assert ab[0] == a[0] && ab[1..] == a[1..] + b;
      assert a[0] in a;
      var h, x, y := TransposedRow(a[0], base, years), Transposed(a[1..], base, years), Transposed(b, base, years);
      assert Transposed(ab, base, years) == h + Transposed(a[1..] + b, base, years);
      assert Transposed(a[1..] + b, base, years) == x + y by {
        TransposedAppend(a[1..], b, base, years);
      }
      assert Transposed(a, base, years) == h + x;
      assert h + (x + y) == (h + x) + y;
    }
  }

  /** The output splits around input row `i`: the rows before it, its own rows, the rows after it. */
  lemma TransposedSplit(t: Table, base: Span, years: seq<YearColumn>, i: nat)
    requires forall row :: row in t ==> TransposeFits(row, base, years)
    requires i < |t|
    ensures forall row :: row in t[..i] ==> TransposeFits(row, base, years)
    ensures forall row :: row in t[i + 1..] ==> TransposeFits(row, base, years)
    ensures t[i] in t
    ensures Transposed(t, base, years)
      == Transposed(t[..i], base, years) + (TransposedRow(t[i], base, years) + Transposed(t[i + 1..], base, years))
  {
    var post := t[i..];
    assert t == t[..i] + post;
    TransposedAppend(t[..i], post, base, years);
    assert post[0] == t[i] && post[1..] == t[i + 1..];
    assert post[0] in post;
  }

  /** Output row `i * K + j` is input row `i` read at year column `j` (K year columns). */
  lemma TransposedAt(t: Table, base: Span, years: seq<YearColumn>, i: nat, j: nat)
    requires forall row :: row in t ==> TransposeFits(row, base, years)
    requires i < |t| && j < |years|
    ensures i * |years| + j < |Transposed(t, base, years)| == |t| * |years|
    ensures t[i] in t
    ensures Transposed(t, base, years)[i * |years| + j] == YearRow(t[i], base, years[j])
  {
    TransposedSplit(t, base, years, i);
    var p, h, r := Transposed(t[..i], base, years), TransposedRow(t[i], base, years), Transposed(t[i + 1..], base, years);
    var off := i * |years| + j;
    assert off == |p| + j && |h| == |years| by {
      TransposedLength(t[..i], base, years);
    }
    assert |Transposed(t, base, years)| == |t| * |years| && off < |t| * |years| by {
      TransposedLength(t, base, years);
      MulBound(i, j, |years|, |t|);
    }
    assert h[j] == YearRow(t[i], base, years[j]) by {
      TransposedRowAt(t[i], base, years, j);
    }
    assert (p + (h + r))[|p| + j] == h[j];
  }
}
