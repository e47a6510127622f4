/**
 * Stable sorting of a table by one field, as `rename_country` does with
 * `out.sort_by(|a, b| a.get(index).unwrap().cmp(b.get(index).unwrap()))`.
 *
 * `slice::sort_by` is stable. A stable sort is determined by two facts: the result is
 * ordered by the key, and for every key the rows carrying it keep their relative
 * order (`SameGroups`). `SortedUnique` proves that these facts fix the output, so the
 * in-place insertion sort below and the reference `InsertionSort` agree with any
 * other stable sort, Rust's included.
 */
module StableSort {
  import opened Text
  import opened Tables

  /** The comparator may run: `sort_by` compares nothing when there are fewer than two rows. */
  predicate Keyed(s: Table, index: nat) {
    |s| <= 1 || HasField(s, index)
  }

  /** A reordering of rows that all have the field has it too. */
  lemma HasFieldPerm(a: Table, b: Table, index: nat)
    requires multiset(a) == multiset(b) && HasField(b, index)
    ensures HasField(a, index)
  {
    forall p | 0 <= p < |a| ensures index < |a[p]| {
      assert a[p] in multiset(b);
      var q :| 0 <= q < |b| && b[q] == a[p];
    }
  }

  /** Rows `i - 1` and `i` are in order of field `index`. */
  predicate OrderedAt(s: Table, i: nat, index: nat)
    requires 0 < i < |s|
  {
    index < |s[i - 1]| && index < |s[i]| && LessEq(s[i - 1][index], s[i][index])
  }

  /** Adjacent rows are in non-decreasing order of field `index`. */
  predicate Sorted(s: Table, index: nat) {
    forall i :: 0 < i < |s| ==> OrderedAt(s, i, index)
  }

  /** The part of `Group` that one row contributes. */
  function GroupOf(x: Row, index: nat, k: string): Table {
    if index < |x| && x[index] == k then [x] else []
  }

  /** The rows whose field `index` equals `k`, in table order. */
  function Group(s: Table, index: nat, k: string): (g: Table)
    ensures |g| <= |s|
  {
    if s == [] then []
    else GroupOf(s[0], index, k) + Group(s[1..], index, k)
  }

  /** For every key, both tables hold the same rows with that key in the same order. */
  ghost predicate SameGroups(s: Table, t: Table, index: nat) {
    forall k :: Group(s, index, k) == Group(t, index, k)
  }

  /** Places `x` before the first row whose key is not smaller, so before its equals. */
  function Insert(x: Row, s: Table, index: nat): (r: Table)
    requires s != [] ==> index < |x| && HasField(s, index)
    ensures |r| == |s| + 1 && multiset(r) == multiset(s) + multiset{x}
  {
    if s == [] || LessEq(x[index], s[0][index]) then [x] + s
    else
      assert s == [s[0]] + s[1..];
      [s[0]] + Insert(x, s[1..], index)
  }

  /** The reference stable sort by field `index`. */
  function InsertionSort(s: Table, index: nat): (r: Table)
    requires Keyed(s, index)
    ensures |r| == |s| && multiset(r) == multiset(s)
  {
    if s == [] then []
    else
      assert s == [s[0]] + s[1..];
      assert Keyed(s[1..], index);
      var rest := InsertionSort(s[1..], index);
      HasFieldPerm(rest, s[1..], index);
      Insert(s[0], rest, index)
  }

  lemma GroupCons(x: Row, s: Table, index: nat, k: string)
    ensures Group([x] + s, index, k) == GroupOf(x, index, k) + Group(s, index, k)
  {
    assert ([x] + s)[1..] == s;
  }

  lemma {:induction false} GroupAppend(a: Table, b: Table, index: nat, k: string)
    ensures Group(a + b, index, k) == Group(a, index, k) + Group(b, index, k)
  {
    if a != [] {
      assert (a + b)[0] == a[0] && (a + b)[1..] == a[1..] + b;
      GroupAppend(a[1..], b, index, k);
      var g0, ga, gb := GroupOf(a[0], index, k), Group(a[1..], index, k), Group(b, index, k);
      assert g0 + (ga + gb) == (g0 + ga) + gb;
    } else {
      assert a + b == b;
    }
  }

  lemma GroupPair(x: Row, y: Row, index: nat, k: string)
    ensures Group([x, y], index, k) == GroupOf(x, index, k) + GroupOf(y, index, k)
  {
    assert [x, y][1..] == [y];
    assert [y][1..] == [];
  }

  /** Swapping two rows that are not both in the group of `k` leaves that group as it is. */
  lemma SwapGroup(pre: Table, x: Row, y: Row, post: Table, index: nat, k: string)
    requires GroupOf(x, index, k) == [] || GroupOf(y, index, k) == []
    ensures Group(pre + [y, x] + post, index, k) == Group(pre + [x, y] + post, index, k)
  {
    var gx, gy := GroupOf(x, index, k), GroupOf(y, index, k);
    GroupPair(x, y, index, k);
    GroupPair(y, x, index, k);
    if gx == [] {
      assert gx + gy == gy && gy + gx == gy;
    } else {
      assert gx + gy == gx && gy + gx == gx;
    }
    GroupAppend(pre, [x, y], index, k);
    GroupAppend(pre, [y, x], index, k);
    GroupAppend(pre + [x, y], post, index, k);
    GroupAppend(pre + [y, x], post, index, k);
  }

  /** Two adjacent rows with different keys can trade places without disturbing any group. */
  lemma SwapKeepsGroups(s: Table, j: nat, index: nat)
    requires 0 < j < |s| && index < |s[j - 1]| && index < |s[j]|
    requires s[j - 1][index] != s[j][index]
    ensures SameGroups(s[j - 1 := s[j]][j := s[j - 1]], s, index)
  {
    var t := s[j - 1 := s[j]][j := s[j - 1]];
    var pre, post := s[..j - 1], s[j + 1..];
    assert s == pre + [s[j - 1], s[j]] + post;
    assert t == pre + [s[j], s[j - 1]] + post;
    forall k ensures Group(t, index, k) == Group(s, index, k) {
      SwapGroup(pre, s[j - 1], s[j], post, index, k);
    }
  }

  lemma SortedTail(s: Table, index: nat)
    requires s != [] && Sorted(s, index)
    ensures Sorted(s[1..], index)
  {
    forall i | 0 < i < |s[1..]| ensures OrderedAt(s[1..], i, index) {
      assert OrderedAt(s, i + 1, index);
    }
  }

  lemma {:induction false} InsertSorted(x: Row, s: Table, index: nat)
    requires s != [] ==> index < |x| && HasField(s, index)
    requires Sorted(s, index)
    ensures Sorted(Insert(x, s, index), index)
  {
    if s == [] {
      assert Insert(x, s, index) == [x];
    } else if LessEq(x[index], s[0][index]) {
      var out := [x] + s;
      assert Insert(x, s, index) == out;
      assert s[0] in s;
      forall i | 0 < i < |out| ensures OrderedAt(out, i, index) {
        if i > 1 {
          assert OrderedAt(s, i - 1, index);
        }
      }
    } else {
      LessEqTotal(x[index], s[0][index]);
      var tail := s[1..];
      SortedTail(s, index);
      assert HasField(tail, index);
      InsertSorted(x, tail, index);
      var r := Insert(x, tail, index);
      var out := [s[0]] + r;
      assert Insert(x, s, index) == out;
      assert s[0] in s;
      assert OrderedAt(out, 1, index) by {
        if tail == [] || LessEq(x[index], tail[0][index]) {
          assert r[0] == x;
        } else {
          assert r[0] == tail[0];
          assert OrderedAt(s, 1, index);
        }
      }
      forall i | 1 < i < |out| ensures OrderedAt(out, i, index) {
        assert OrderedAt(r, i - 1, index);
      }
    }
  }

  /** The reference sort orders the rows by field `index`. */
  lemma {:induction false} InsertionSortSorted(s: Table, index: nat)
    requires Keyed(s, index)
    ensures Sorted(InsertionSort(s, index), index)
  {
    if s != [] {
      assert Keyed(s[1..], index);
      InsertionSortSorted(s[1..], index);
      var rest := InsertionSort(s[1..], index);
      HasFieldPerm(rest, s[1..], index);
      InsertSorted(s[0], rest, index);
    }
  }

  /** Putting `y` before a reordering of `[x] + rest` keeps the group of `k` when `x` and `y` are not both in it. */
  lemma GroupSwapHead(x: Row, y: Row, rest: Table, reordered: Table, index: nat, k: string)
    requires GroupOf(x, index, k) == [] || GroupOf(y, index, k) == []
    requires Group(reordered, index, k) == Group([x] + rest, index, k)
    ensures Group([y] + reordered, index, k) == Group([x] + ([y] + rest), index, k)
  {
    var gx, gy, gr := GroupOf(x, index, k), GroupOf(y, index, k), Group(rest, index, k);
    GroupCons(y, reordered, index, k);
    GroupCons(x, rest, index, k);
    GroupCons(x, [y] + rest, index, k);
    GroupCons(y, rest, index, k);
    if gx == [] {
      assert gx + gr == gr && gx + (gy + gr) == gy + gr;
    } else {
      assert gy + (gx + gr) == gx + gr && gy + gr == gr;
    }
  }

  lemma {:induction false} InsertGroups(x: Row, s: Table, index: nat, k: string)
    requires s != [] ==> index < |x| && HasField(s, index)
    ensures Group(Insert(x, s, index), index, k) == Group([x] + s, index, k)
  {
    if s != [] && !LessEq(x[index], s[0][index]) {
      var tail := s[1..];
      assert HasField(tail, index);
      InsertGroups(x, tail, index, k);
      LessEqReflexive(x[index]);
      assert Insert(x, s, index) == [s[0]] + Insert(x, tail, index);
      GroupSwapHead(x, s[0], tail, Insert(x, tail, index), index, k);
      assert [s[0]] + tail == s;
    }
  }

  lemma SameGroupsTrans(r: Table, s: Table, t: Table, index: nat)
    requires SameGroups(r, s, index) && SameGroups(s, t, index)
    ensures SameGroups(r, t, index)
  {
    forall k ensures Group(r, index, k) == Group(t, index, k) {
      assert Group(r, index, k) == Group(s, index, k);
    }
  }

  /** Inserting the first row into a stable sort of the others keeps every group. */
  lemma InsertHeadGroups(s: Table, rest: Table, index: nat)
    requires s != [] && SameGroups(rest, s[1..], index)
    requires rest != [] ==> index < |s[0]| && HasField(rest, index)
    ensures SameGroups(Insert(s[0], rest, index), s, index)
  {
    assert s == [s[0]] + s[1..];
    forall k ensures Group(Insert(s[0], rest, index), index, k) == Group(s, index, k) {
      InsertGroups(s[0], rest, index, k);
      ConsGroups(s[0], rest, s[1..], index, k);
    }
  }

  lemma ConsGroups(x: Row, a: Table, b: Table, index: nat, k: string)
    requires Group(a, index, k) == Group(b, index, k)
    ensures Group([x] + a, index, k) == Group([x] + b, index, k)
  {
    GroupCons(x, a, index, k);
    GroupCons(x, b, index, k);
  }

  /** The reference sort is stable: every key's rows keep their relative order. */
  lemma {:induction false} InsertionSortGroups(s: Table, index: nat)
    requires Keyed(s, index)
    ensures SameGroups(InsertionSort(s, index), s, index)
  {
    if s != [] {
      assert Keyed(s[1..], index);
      InsertionSortGroups(s[1..], index);
      var rest := InsertionSort(s[1..], index);
      HasFieldPerm(rest, s[1..], index);
      assert InsertionSort(s, index) == Insert(s[0], rest, index);
      InsertHeadGroups(s, rest, index);
    }
  }

  /** In a sorted table every row's key is at most every later row's key. */
  lemma {:induction false} SortedPairwise(s: Table, i: nat, j: nat, index: nat)
    requires Sorted(s, index) && i <= j < |s| && index < |s[i]|
    ensures index < |s[j]| && LessEq(s[i][index], s[j][index])
    decreases j - i
  {
    if i == j {
      LessEqReflexive(s[i][index]);
    } else {
      assert OrderedAt(s, i + 1, index);
      SortedPairwise(s, i + 1, j, index);
      LessEqTransitive(s[i][index], s[i + 1][index], s[j][index]);
    }
  }

  lemma {:induction false} GroupWitness(s: Table, index: nat, k: string) returns (j: nat)
    requires Group(s, index, k) != []
    ensures j < |s| && index < |s[j]| && s[j][index] == k
  {
    if index < |s[0]| && s[0][index] == k {
      j := 0;
    } else {
      var j' := GroupWitness(s[1..], index, k);
      j := j' + 1;
    }
  }

  lemma GroupOfHead(s: Table, index: nat)
    requires s != [] && HasField(s, index)
    ensures Group(s, index, s[0][index]) != []
  {
    assert s[0] in s;
  }

  /** Tables with the same groups whose first rows share a key start with the same row. */
  lemma HeadsEqual(s: Table, t: Table, index: nat)
    requires s != [] && t != [] && index < |s[0]| && index < |t[0]|
    requires s[0][index] == t[0][index] && SameGroups(s, t, index)
    ensures s[0] == t[0]
  {
    var k := s[0][index];
    GroupCons(s[0], s[1..], index, k);
    GroupCons(t[0], t[1..], index, k);
    assert s == [s[0]] + s[1..] && t == [t[0]] + t[1..];
    assert Group(s, index, k) == Group(t, index, k);
    assert Group(s, index, k)[0] == s[0];
    assert Group(t, index, k)[0] == t[0];
  }

  /** Dropping the same first row from tables with the same groups keeps their groups equal. */
  lemma GroupsOfTails(s: Table, t: Table, index: nat)
    requires s != [] && t != [] && s[0] == t[0] && SameGroups(s, t, index)
    ensures SameGroups(s[1..], t[1..], index)
  {
    assert s == [s[0]] + s[1..] && t == [t[0]] + t[1..];
    forall k ensures Group(s[1..], index, k) == Group(t[1..], index, k) {
      GroupCons(s[0], s[1..], index, k);
      GroupCons(t[0], t[1..], index, k);
      var g, gs, gt := GroupOf(s[0], index, k), Group(s[1..], index, k), Group(t[1..], index, k);
      assert Group(s, index, k) == Group(t, index, k);
      assert g + gs == g + gt;
      assert (g + gs)[|g|..] == gs && (g + gt)[|g|..] == gt;
    }
  }

  /** Sorted tables with the same groups start with the same key. */
  lemma KeysEqual(s: Table, t: Table, index: nat)
    requires s != [] && t != [] && HasField(s, index) && HasField(t, index)
    requires Sorted(s, index) && Sorted(t, index) && SameGroups(s, t, index)
    ensures index < |s[0]| && index < |t[0]| && s[0][index] == t[0][index]
  {
    assert s[0] in s && t[0] in t;
    var a, b := s[0][index], t[0][index];
    GroupOfHead(s, index);
    GroupOfHead(t, index);
    assert Group(s, index, b) == Group(t, index, b) && Group(t, index, a) == Group(s, index, a);
    var js := GroupWitness(s, index, b);
    var jt := GroupWitness(t, index, a);
    SortedPairwise(s, 0, js, index);
    SortedPairwise(t, 0, jt, index);
    LessEqAntisymmetric(a, b);
  }

  /** A sorted table is determined by its key groups: a stable sort has exactly one result. */
  lemma {:induction false} SortedUnique(s: Table, t: Table, index: nat)
    requires HasField(s, index) && HasField(t, index)
    requires Sorted(s, index) && Sorted(t, index) && SameGroups(s, t, index)
    ensures s == t
    decreases |s|
  {
    if s == [] && t != [] {
      GroupOfHead(t, index);
      assert false;
    } else if s != [] && t == [] {
      GroupOfHead(s, index);
      assert false;
    } else if s != [] {
      KeysEqual(s, t, index);
      HeadsEqual(s, t, index);
      GroupsOfTails(s, t, index);
      assert HasField(s[1..], index) && HasField(t[1..], index);
      SortedTail(s, index);
      SortedTail(t, index);
      SortedUnique(s[1..], t[1..], index);
      assert s == [s[0]] + s[1..] && t == [t[0]] + t[1..];
    }
  }

  /** Sorting a table that is already in order leaves it as it is. */
  lemma {:induction false} SortOfSorted(s: Table, index: nat)
    requires Keyed(s, index) && Sorted(s, index)
    ensures InsertionSort(s, index) == s
  {
    if s != [] {
      var tail := s[1..];
      assert s == [s[0]] + tail;
      assert Keyed(tail, index);
      assert InsertionSort(tail, index) == tail by {
        SortedTail(s, index);
        SortOfSorted(tail, index);
      }
      assert InsertionSort(s, index) == Insert(s[0], tail, index);
      assert Insert(s[0], tail, index) == [s[0]] + tail by {
        if tail != [] {
          assert OrderedAt(s, 1, index);
          assert tail[0] == s[1];
        }
      }
    }
  }

  /**
   * `slice::sort_by` on field `index`, in place. An insertion sort by adjacent swaps:
   * it only swaps neighbours whose keys differ, so no group changes order.
   */
  method SortByKey(a: array<Row>, index: nat)
    requires a.Length <= 1 || forall p :: 0 <= p < a.Length ==> index < |a[p]|
    modifies a
    ensures a[..] == InsertionSort(old(a[..]), index)
  {
    if a.Length <= 1 {
      return;
    }
    var i := 1;
    while i < a.Length
      invariant 1 <= i <= a.Length
      invariant forall p :: 0 <= p < a.Length ==> index < |a[p]|
      invariant forall p :: 0 < p < i ==> LessEq(a[p - 1][index], a[p][index])
      invariant SameGroups(a[..], old(a[..]), index)
    {
      SinkDown(a, i, index);
      i := i + 1;
    }
    ghost var was := old(a[..]);
    ghost var sorted := InsertionSort(was, index);
    assert HasField(a[..], index);
    assert Sorted(a[..], index) by {
      forall p | 0 < p < a.Length ensures OrderedAt(a[..], p, index) { }
    }
    HasFieldPerm(sorted, was, index);
    InsertionSortSorted(was, index);
    InsertionSortGroups(was, index);
    assert SameGroups(a[..], sorted, index);
    SortedUnique(a[..], sorted, index);
  }

  /**
   * What holds while row `i` sinks and now sits at `j`: every row has the field, neighbours
   * up to `i` are in order except around `j`, and the rows around `j` are in order.
   */
  predicate SinkInv(s: Table, i: nat, j: nat, index: nat) {
    j <= i < |s|
    && (forall p :: 0 <= p < |s| ==> index < |s[p]|)
    && (forall p :: 0 < p <= i && p != j ==> LessEq(s[p - 1][index], s[p][index]))
    && (0 < j < i ==> LessEq(s[j - 1][index], s[j + 1][index]))
  }

  /** One swap of the sinking row with its larger left neighbour keeps `SinkInv` and every group. */
  lemma SinkStep(s: Table, i: nat, j: nat, index: nat)
    requires SinkInv(s, i, j, index) && 0 < j && !LessEq(s[j - 1][index], s[j][index])
    ensures SinkInv(s[j - 1 := s[j]][j := s[j - 1]], i, j - 1, index)
    ensures SameGroups(s[j - 1 := s[j]][j := s[j - 1]], s, index)
  {
    var t := s[j - 1 := s[j]][j := s[j - 1]];
    LessEqReflexive(s[j][index]);
    LessEqTotal(s[j - 1][index], s[j][index]);
    SwapKeepsGroups(s, j, index);
    forall p | 0 < p <= i && p != j - 1 ensures LessEq(t[p - 1][index], t[p][index]) {
      if p == j + 1 {
        assert t[p - 1] == s[j - 1] && t[p] == s[j + 1];
      } else if p == j {
        assert t[p - 1] == s[j] && t[p] == s[j - 1];
      } else {
        assert t[p - 1] == s[p - 1] && t[p] == s[p];
      }
    }
    if 0 < j - 1 {
      assert t[j - 2] == s[j - 2] && t[j] == s[j - 1];
      assert LessEq(s[j - 2][index], s[j - 1][index]);
    }
  }

  /**
   * Where the rows are while row `i` of `o` sinks and has reached `j`: the rows before `j`
   * are in place, row `i` of `o` is at `j`, the rows it passed, all with larger keys, have
   * moved one place right, and the rows after `i` are in place.
   */
  predicate Sunk(s: Table, o: Table, i: nat, j: nat, index: nat)
    requires j <= i < |s| == |o|
    requires forall p :: 0 <= p < |s| ==> index < |s[p]|
  {
    && s[j] == o[i] && s[..j] == o[..j]
    && s[j + 1..i + 1] == o[j..i]
    && (forall p :: j < p <= i ==> !LessEq(s[p][index], s[j][index]))
    && s[i + 1..] == o[i + 1..]
  }

  /** Swapping the sinking row with its larger left neighbour keeps `Sunk`. */
  lemma SunkStep(s: Table, o: Table, i: nat, j: nat, index: nat)
    requires 0 < j <= i < |s| == |o|
    requires forall p :: 0 <= p < |s| ==> index < |s[p]|
    requires Sunk(s, o, i, j, index) && !LessEq(s[j - 1][index], s[j][index])
    ensures Sunk(s[j - 1 := s[j]][j := s[j - 1]], o, i, j - 1, index)
  {
    var t := s[j - 1 := s[j]][j := s[j - 1]];
    assert t[..j - 1] == s[..j - 1] == o[..j - 1];
    assert t[j..i + 1] == [s[j - 1]] + s[j + 1..i + 1];
    assert o[j - 1..i] == [o[j - 1]] + o[j..i];
    assert s[j - 1] == s[..j][j - 1];
    assert t[i + 1..] == s[i + 1..];
  }

  /**
   * One pass of the insertion sort: moves row `i` left past every row with a larger key,
   * stopping after the rows with an equal key. The rows before its new place and the rows
   * after `i` stay where they were; the rows it passed move one place right.
   */
  method SinkDown(a: array<Row>, i: nat, index: nat)
    requires 0 < i < a.Length
    requires forall p :: 0 <= p < a.Length ==> index < |a[p]|
    requires forall p :: 0 < p < i ==> LessEq(a[p - 1][index], a[p][index])
    modifies a
    ensures forall p :: 0 <= p < a.Length ==> index < |a[p]|
    ensures forall p :: 0 < p <= i ==> LessEq(a[p - 1][index], a[p][index])
    ensures SameGroups(a[..], old(a[..]), index)
    ensures exists j: nat :: j <= i && Sunk(a[..], old(a[..]), i, j, index)
    ensures a[i + 1..] == old(a[i + 1..])
  {
    var j := i;
    SinkingStart(a, i, index);
    while j > 0 && !LessEq(a[j - 1][index], a[j][index])
      invariant Sinking(a[..], old(a[..]), i, j, index)
    {
      ghost var before := a[..];
      SinkingStep(before, old(a[..]), i, j, index);
      a[j - 1], a[j] := a[j], a[j - 1];
      assert a[..] == before[j - 1 := before[j]][j := before[j - 1]];
      j := j - 1;
    }
    SinkingDone(a, old(a[..]), i, j, index);
    assert old(a[i + 1..]) == old(a[..])[i + 1..];
  }

  /** The loop invariant of `SinkDown`: `s` is `o` with row `i` sunk to `j`. */
  ghost predicate Sinking(s: Table, o: Table, i: nat, j: nat, index: nat) {
    SinkInv(s, i, j, index) && |s| == |o| && SameGroups(s, o, index) && Sunk(s, o, i, j, index)
  }

  /** Before the first swap the array is row `i` of itself sunk to `i`. */
  lemma SinkingStart(a: array<Row>, i: nat, index: nat)
    requires 0 < i < a.Length
    requires forall p :: 0 <= p < a.Length ==> index < |a[p]|
    requires forall p :: 0 < p < i ==> LessEq(a[p - 1][index], a[p][index])
    ensures Sinking(a[..], a[..], i, i, index)
  {
    assert SinkInv(a[..], i, i, index);
  }

  lemma SinkingStep(s: Table, o: Table, i: nat, j: nat, index: nat)
    requires Sinking(s, o, i, j, index) && 0 < j && !LessEq(s[j - 1][index], s[j][index])
    ensures Sinking(s[j - 1 := s[j]][j := s[j - 1]], o, i, j - 1, index)
  {
    var t := s[j - 1 := s[j]][j := s[j - 1]];
    SinkStep(s, i, j, index);
    SunkStep(s, o, i, j, index);
    SameGroupsTrans(t, s, o, index);
  }

  /** Once the sinking row stops, the rows up to `i` are in order: the ensures of `SinkDown`. */
  lemma SinkingDone(a: array<Row>, o: Table, i: nat, j: nat, index: nat)
    requires Sinking(a[..], o, i, j, index)
    requires j == 0 || LessEq(a[j - 1][index], a[j][index])
    ensures forall p :: 0 <= p < a.Length ==> index < |a[p]|
    ensures forall p :: 0 < p <= i ==> LessEq(a[p - 1][index], a[p][index])
    ensures SameGroups(a[..], o, index)
    ensures exists j: nat :: j <= i && Sunk(a[..], o, i, j, index)
    ensures a[i + 1..] == o[i + 1..]
  {
    var s := a[..];
    assert forall p :: 0 <= p < a.Length ==> a[p] == s[p];
    assert a[i + 1..] == s[i + 1..];
  }


}
