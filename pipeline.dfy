/**
 * How the program chains the operators: the World Bank jobs reshape wide year columns
 * into long rows, and every job renames countries before keeping the South-East Asian ones.
 */
module Pipeline {
  import opened Text
  import opened Tables
  import opened Columns
  import opened Rename

  /** The countries every job keeps, at field 0. */
  const SeaCountries: seq<string> := [
    "Brunei Darussalam", "Cambodia", "Indonesia", "Lao PDR", "Malaysia", "Myanmar",
    "Philippines", "Singapore", "Thailand", "Timor-Leste", "Viet Nam"
  ]

  /** The fields the World Bank jobs select: four descriptive fields, then 2010 to 2017. */
  const WideRanges: seq<Span> := [Span(0, 4), Span(54, 62)]

  /** The descriptive fields kept in every long row. */
  const BaseRange: Span := Span(0, 4)

  /** Fields 4, 5, ... of a selected row paired with the years 2010 to 2017. */
  const YearColumns: seq<YearColumn> := seq(8, j requires 0 <= j < 8 => (4 + j, 2010 + j))

  /** A wide row selects to its first four fields and its eight year values: 12 fields. */
  lemma WideRowSelected(row: Row)
    requires |row| >= 62
    ensures AllFit(WideRanges, row)
    ensures Selected(row, WideRanges) == row[..4] + row[54..62]
    ensures |Selected(row, WideRanges)| == 12
  {
    assert WideRanges == [Span(0, 4)] + [Span(54, 62)];
    SelectedOne(row, Span(0, 4));
    SelectedOne(row, Span(54, 62));
    SelectedAppend(row, [Span(0, 4)], [Span(54, 62)]);
  }

  /** Every year column indexes a field of a selected row, so `transpose_years` cannot panic. */
  lemma SelectedRowFits(row: Row)
    requires |row| >= 62
    ensures AllFit(WideRanges, row)
    ensures TransposeFits(Selected(row, WideRanges), BaseRange, YearColumns)
  {
    WideRowSelected(row);
    forall j | 0 <= j < |YearColumns|
      ensures YearColumns[j].0 < 12
    {
      assert YearColumns[j] == (4 + j, 2010 + j);
    }
  }

  /** After `select_ranges`, every row of the table fits `transpose_years`. */
  lemma WideTableFits(t: Table)
    requires forall row :: row in t ==> |row| >= 62
    ensures forall row :: row in t ==> AllFit(WideRanges, row)
    ensures forall row :: row in SelectRanges(t, WideRanges) ==> TransposeFits(row, BaseRange, YearColumns)
  {
    forall row | row in t ensures AllFit(WideRanges, row) {
      WideRowSelected(row);
    }
    var s := SelectRanges(t, WideRanges);
    forall row | row in s ensures TransposeFits(row, BaseRange, YearColumns) {
      var p :| 0 <= p < |s| && s[p] == row;
      assert t[p] in t;
      SelectedRowFits(t[p]);
    }
  }

  /**
   * The reshaping of the World Bank jobs: N wide rows give 8 * N long rows, and long row
   * `8 * i + j` holds the four descriptive fields of row `i`, the year `2010 + j` and the
   * value of field `54 + j`.
   */
  lemma WideToLong(t: Table, i: nat, j: nat)
    requires forall row :: row in t ==> |row| >= 62
    requires i < |t| && j < 8
    ensures forall row :: row in t ==> AllFit(WideRanges, row)
    ensures forall row :: row in SelectRanges(t, WideRanges) ==> TransposeFits(row, BaseRange, YearColumns)
    ensures |Transposed(SelectRanges(t, WideRanges), BaseRange, YearColumns)| == 8 * |t|
    ensures Transposed(SelectRanges(t, WideRanges), BaseRange, YearColumns)[8 * i + j]
      == t[i][..4] + [IntToString(2010 + j)] + [t[i][54 + j]]
  {
    WideTableFits(t);
    var s := SelectRanges(t, WideRanges);
    assert |YearColumns| == 8;
    TransposedAt(s, BaseRange, YearColumns, i, j);
    assert t[i] in t;
    WideRowSelected(t[i]);
    assert YearColumns[j] == (4 + j, 2010 + j);
    assert s[i][4 + j] == t[i][54 + j];
    assert s[i][0..4] == t[i][..4];
    assert i * 8 + j == 8 * i + j;
  }

  lemma LaoAliasTrimmed()
    ensures Trim("Lao People's Democratic Republic") == "Lao People's Democratic Republic"
  {
    TrimNoop("Lao People's Democratic Republic");
  }

  lemma LaoAliasInFirstGroup(key: string)
    requires key == Upper("Lao People's Democratic Republic")
    ensures InGroup(Aliases[0], key)
  {
    assert Aliases[0].aliases[1] == "Lao People's Democratic Republic";
  }

  /** "Lao People's Democratic Republic" is renamed "Lao PDR", which the jobs keep. */
  lemma LaoAliasKept(row: Row)
    requires row != [] && row[0] == "Lao People's Democratic Republic"
    ensures RenamedRow(Aliases, row, 0)[0] == "Lao PDR"
    ensures Keeps(SeaCountries, 0, RenamedRow(Aliases, row, 0))
  {
    var key := Upper("Lao People's Democratic Republic");
    LaoAliasTrimmed();
    LaoAliasInFirstGroup(key);
    FirstGroupIs(Aliases, key, 0);
    LaoTrimmed();
    assert SeaCountries[3] == "Lao PDR";
  }

  /** "Laos" is not a spelling in the alias table: `rename_country` leaves it as it is. */
  lemma LaosNotRenamed()
    ensures Canonical(Aliases, "Laos") == "Laos"
  {
    TrimNoop("Laos");
    var key := Upper("Laos");
    assert |key| == 4;
    forall i | 0 <= i < |Aliases| ensures !InGroup(Aliases[i], key) {
      forall a | 0 <= a < |Aliases[i].aliases| ensures Upper(Aliases[i].aliases[a]) != key {
        assert |Aliases[i].aliases[a]| > 4;
      }
    }
  }

  /** "Laos" is not one of the kept countries, so a row named so is dropped. */
  lemma LaosDropped(row: Row)
    requires row != [] && row[0] == "Laos"
    ensures !Keeps(SeaCountries, 0, RenamedRow(Aliases, row, 0))
  {
    LaosNotRenamed();
    TrimNoop("Laos");
    forall k | 0 <= k < |SeaCountries| ensures Trim(SeaCountries[k]) != "Laos" {
      TrimNoop(SeaCountries[k]);
      assert |SeaCountries[k]| != 4 || SeaCountries[k][0] != 'L';
    }
  }
}
