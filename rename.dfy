/**
 * `rename_country`: writes the canonical name of a country into one field of every
 * row, then orders the table by that field.
 */
module Rename {
  import opened Text
  import opened Tables
  import opened StableSort

  /** One entry of the alias table: spellings of one country and the name written for them. */
  datatype AliasGroup = AliasGroup(aliases: seq<string>, name: string)

  /** The alias table of `rename_country`, in the order it is searched. */
  const Aliases: seq<AliasGroup> := [
    AliasGroup(["Lao PDR", "Lao People's Democratic Republic"], "Lao PDR"),
    AliasGroup(["Vietnam", "Viet Nam", "South Viet Nam (former)"], "Viet Nam")
  ]

  /** Some alias of `g`, upper-cased, is exactly `key`. */
  predicate InGroup(g: AliasGroup, key: string) {
    exists j :: 0 <= j < |g.aliases| && Upper(g.aliases[j]) == key
  }

  /** The first group, at position `from` or later, that contains `key`. */
  function FirstGroup(groups: seq<AliasGroup>, key: string, from: nat): (r: Option<nat>)
    requires from <= |groups|
    ensures r.Some? ==> from <= r.value < |groups| && InGroup(groups[r.value], key)
    ensures r.Some? ==> forall i :: from <= i < r.value ==> !InGroup(groups[i], key)
    ensures r.None? ==> forall i :: from <= i < |groups| ==> !InGroup(groups[i], key)
    decreases |groups| - from
  {
    if from == |groups| then None
    else if InGroup(groups[from], key) then Some(from)
    else FirstGroup(groups, key, from + 1)
  }

  /**
   * The value written for a country field: the name of the first alias group holding the
   * trimmed, upper-cased field, or else the field itself, untrimmed.
   */
  function Canonical(groups: seq<AliasGroup>, field: string): (r: string)
    ensures forall i ::
      (0 <= i < |groups| && InGroup(groups[i], Upper(Trim(field)))
       && (forall h :: 0 <= h < i ==> !InGroup(groups[h], Upper(Trim(field))))) ==> r == groups[i].name
    ensures (forall i :: 0 <= i < |groups| ==> !InGroup(groups[i], Upper(Trim(field)))) ==> r == field
  {
    match FirstGroup(groups, Upper(Trim(field)), 0)
    case Some(i) => groups[i].name
    case None => field
  }

  /** A row after renaming: only field `index` can change (a row without it is copied). */
  function RenamedRow(groups: seq<AliasGroup>, row: Row, index: nat): Row {
    if index < |row| then row[index := Canonical(groups, row[index])] else row
  }

  /** Every row renamed, in input order (the `map` stage, before sorting). */
  function RenameRows(groups: seq<AliasGroup>, t: Table, index: nat): (m: Table)
    ensures |m| == |t|
    ensures forall p :: 0 <= p < |t| ==> m[p] == RenamedRow(groups, t[p], index)
  {
    seq(|t|, p requires 0 <= p < |t| => RenamedRow(groups, t[p], index))
  }

  lemma RenameRowsKeyed(groups: seq<AliasGroup>, t: Table, index: nat)
    requires Keyed(t, index)
    ensures Keyed(RenameRows(groups, t, index), index)
  {
    var m := RenameRows(groups, t, index);
    if |t| > 1 {
      forall row | row in m ensures index < |row| {
        var p :| 0 <= p < |m| && m[p] == row;
        assert t[p] in t;
      }
    }
  }

  /** The table `rename_country` returns: the renamed rows, stably sorted by field `index`. */
  function RenamedTable(groups: seq<AliasGroup>, t: Table, index: nat): Table
    requires Keyed(t, index)
  {
    RenameRowsKeyed(groups, t, index);
    InsertionSort(RenameRows(groups, t, index), index)
  }

  /**
   * The `map` closure of `rename_country`: copies every field, except that at `index`
   * it searches the alias groups in order and stops at the first alias match.
   */
  method RenameRow(rec: Row, index: nat, mappings: seq<AliasGroup>) returns (newRec: Row)
    ensures |newRec| == |rec|
    ensures forall i :: 0 <= i < |rec| && i != index ==> newRec[i] == rec[i]
    ensures index < |rec| ==> newRec[index] == Canonical(mappings, rec[index])
  {
    newRec := [];
    for fieldIndex := 0 to |rec|
      invariant |newRec| == fieldIndex
      invariant forall i :: 0 <= i < fieldIndex && i != index ==> newRec[i] == rec[i]
      invariant index < fieldIndex ==> newRec[index] == Canonical(mappings, rec[index])
    {
      var fieldValue := rec[fieldIndex];
      if index != fieldIndex {
        newRec := newRec + [fieldValue];
      } else {
        var fixedCountry := fieldValue;
        label fixName:
        for g := 0 to |mappings|
          invariant fixedCountry == fieldValue
          invariant forall h :: 0 <= h < g ==> !InGroup(mappings[h], Upper(Trim(fieldValue)))
        {
          var upperValue := Upper(Trim(fieldValue));
          var sources := mappings[g].aliases;
          for j := 0 to |sources|
            invariant forall i :: 0 <= i < j ==> Upper(sources[i]) != upperValue
          {
            if Upper(sources[j]) == upperValue {
              fixedCountry := mappings[g].name;
              assert FirstGroup(mappings, upperValue, 0) == Some(g);
              break fixName;
            }
          }
        }
        assert fixedCountry == Canonical(mappings, fieldValue);
        newRec := newRec + [fixedCountry];
      }
    }
  }

  /**
   * `rename_country`: renames every row with the alias table, then sorts the rows by
   * field `index` with a stable sort. The comparator unwraps field `index`, so every row
   * needs it once there are two rows to compare.
   */
  method RenameCountry(t: Table, index: nat) returns (out: Table)
    requires Keyed(t, index)
    ensures out == RenamedTable(Aliases, t, index)
    ensures |out| == |t| && Sorted(out, index)
    ensures multiset(out) == multiset(RenameRows(Aliases, t, index))
    ensures SameGroups(out, RenameRows(Aliases, t, index), index)
  {
    var mappings := Aliases;
    out := RenameAndSort(t, index, mappings);
  }

  /** The body of `rename_country` for a given alias table. */
  method RenameAndSort(t: Table, index: nat, mappings: seq<AliasGroup>) returns (out: Table)
    requires Keyed(t, index)
    ensures out == RenamedTable(mappings, t, index)
    ensures |out| == |t| && Sorted(out, index)
    ensures multiset(out) == multiset(RenameRows(mappings, t, index))
    ensures SameGroups(out, RenameRows(mappings, t, index), index)
  {
    var rows := RenameAll(t, index, mappings);
    ghost var renamed := rows[..];
    RenameRowsKeyed(mappings, t, index);
    SortByKey(rows, index);
    out := rows[..];
    InsertionSortSorted(renamed, index);
    InsertionSortGroups(renamed, index);
  }

  /** The `map` stage: a fresh buffer holding every row renamed, in input order. */
  method RenameAll(t: Table, index: nat, mappings: seq<AliasGroup>) returns (rows: array<Row>)
    ensures fresh(rows)
    ensures rows[..] == RenameRows(mappings, t, index)
  {
    rows := new Row[|t|];
    for k := 0 to |t|
      invariant forall p :: 0 <= p < k ==> rows[p] == RenamedRow(mappings, t[p], index)
    {
      var newRec := RenameRow(t[k], index, mappings);
      rows[k] := newRec;
    }
  }

  lemma FirstGroupIs(groups: seq<AliasGroup>, key: string, i: nat)
    requires i < |groups| && InGroup(groups[i], key)
    requires forall h :: 0 <= h < i ==> !InGroup(groups[h], key)
    ensures FirstGroup(groups, key, 0) == Some(i)
  {
  }

  /** Every group's name is renamed to itself: the first group holding it is its own. */
  ghost predicate NamesFixed(groups: seq<AliasGroup>) {
    forall i :: 0 <= i < |groups| ==> FirstGroup(groups, Upper(Trim(groups[i].name)), 0) == Some(i)
  }

  lemma LaoTrimmed()
    ensures Trim("Lao PDR") == "Lao PDR"
  {
    TrimNoop("Lao PDR");
  }

  lemma LaoInFirstGroup(key: string)
    requires key == Upper("Lao PDR")
    ensures InGroup(Aliases[0], key)
  {
    assert Aliases[0].aliases[0] == "Lao PDR";
  }

  /** "Lao PDR" is found in the first group, whose name it is. */
  lemma LaoIsCanonical()
    ensures FirstGroup(Aliases, Upper(Trim("Lao PDR")), 0) == Some(0)
  {
    var key := Upper("Lao PDR");
    LaoTrimmed();
    LaoInFirstGroup(key);
    FirstGroupIs(Aliases, key, 0);
  }

  lemma VietTrimmed()
    ensures Trim("Viet Nam") == "Viet Nam"
  {
    TrimNoop("Viet Nam");
  }

  lemma VietInSecondGroup(key: string)
    requires key == Upper("Viet Nam")
    ensures InGroup(Aliases[1], key)
  {
    assert Aliases[1].aliases[1] == "Viet Nam";
  }

  /** No alias of the first group upper-cases to "VIET NAM": their lengths differ. */
  lemma VietNotInFirstGroup(key: string)
    requires key == Upper("Viet Nam")
    ensures !InGroup(Aliases[0], key)
  {
    assert |key| == 8;
    assert |Upper(Aliases[0].aliases[0])| == 7 && |Upper(Aliases[0].aliases[1])| == 32;
  }

  /** "Viet Nam" is found in the second group, whose name it is, and not in the first. */
  lemma VietIsCanonical()
    ensures FirstGroup(Aliases, Upper(Trim("Viet Nam")), 0) == Some(1)
  {
    var key := Upper("Viet Nam");
    VietTrimmed();
    VietInSecondGroup(key);
    VietNotInFirstGroup(key);
    FirstGroupIs(Aliases, key, 1);
  }

  /** The names `rename_country` writes are left as they are by a second run. */
  lemma AliasesNamesFixed()
    ensures NamesFixed(Aliases)
  {
    forall i | 0 <= i < |Aliases|
      ensures FirstGroup(Aliases, Upper(Trim(Aliases[i].name)), 0) == Some(i)
    {
      if i == 0 {
        LaoIsCanonical();
      } else {
        VietIsCanonical();
      }
    }
  }

  /** With such a table, a renamed field is renamed to itself. */
  lemma CanonicalIdempotent(groups: seq<AliasGroup>, field: string)
    requires NamesFixed(groups)
    ensures Canonical(groups, Canonical(groups, field)) == Canonical(groups, field)
  {
  }

  lemma RenamedRowIdempotent(groups: seq<AliasGroup>, row: Row, index: nat)
    requires NamesFixed(groups)
    ensures RenamedRow(groups, RenamedRow(groups, row, index), index) == RenamedRow(groups, row, index)
  {
    if index < |row| {
      CanonicalIdempotent(groups, row[index]);
    }
  }

  /** Renaming a table that `rename_country` already produced changes nothing. */
  lemma RenameCountryIdempotent(t: Table, index: nat)
    requires Keyed(t, index)
    ensures Keyed(RenamedTable(Aliases, t, index), index)
    ensures RenamedTable(Aliases, RenamedTable(Aliases, t, index), index) == RenamedTable(Aliases, t, index)
  {
    AliasesNamesFixed();
    RenamedTableIdempotent(Aliases, t, index);
  }

  lemma RenamedTableIdempotent(groups: seq<AliasGroup>, t: Table, index: nat)
    requires Keyed(t, index) && NamesFixed(groups)
    ensures Keyed(RenamedTable(groups, t, index), index)
    ensures RenamedTable(groups, RenamedTable(groups, t, index), index) == RenamedTable(groups, t, index)
  {
    var m := RenameRows(groups, t, index);
    RenameRowsKeyed(groups, t, index);
    var s := InsertionSort(m, index);
    RenamedRowsFixed(groups, t, index, s);
    assert Keyed(s, index) by {
      if |s| > 1 {
        forall row | row in s ensures index < |row| {
          assert row in multiset(m);
        }
      }
    }
    InsertionSortSorted(m, index);
    SortOfSorted(s, index);
  }

  /** Any reordering of renamed rows is left unchanged by renaming again. */
  lemma RenamedRowsFixed(groups: seq<AliasGroup>, t: Table, index: nat, s: Table)
    requires NamesFixed(groups)
    requires multiset(s) == multiset(RenameRows(groups, t, index))
    ensures RenameRows(groups, s, index) == s
  {
    var m := RenameRows(groups, t, index);
    forall p | 0 <= p < |s| ensures RenamedRow(groups, s[p], index) == s[p] {
      assert s[p] in multiset(m);
      var q :| 0 <= q < |m| && m[q] == s[p];
      RenamedRowIdempotent(groups, t[q], index);
    }
  }
}
