/**
 * `to_csv`: an optional header record, then every row, written through a `csv::Writer`
 * into a byte buffer that is returned as a string.
 *
 * The writer's byte format is modelled after section 2 of RFC 4180 with the writer's
 * defaults: fields separated by ',', records ended by "\n", a field quoted (with its
 * quotes doubled) when it holds ',', '"', CR or LF, and a record that would otherwise be
 * empty written as `""`. The writer is not flexible: a record whose field count differs
 * from the first record's is refused, and `to_csv` passes that error on.
 */
module Csv {
  import opened Tables

  /** The writer's refusal of a record: its position, the expected and the actual field count. */
  datatype CsvError = UnequalLengths(record: nat, expectedLen: nat, len: nat)

  /** A field that must be quoted. */
  predicate NeedsQuotes(f: string) {
    exists i :: 0 <= i < |f| && (f[i] == ',' || f[i] == '"' || f[i] == '\r' || f[i] == '\n')
  }

  /** The field's text with every '"' doubled. */
  function EscapeQuotes(f: string): (r: string)
    ensures |r| >= |f|
  {
    if f == [] then []
    else (if f[0] == '"' then "\"\"" else [f[0]]) + EscapeQuotes(f[1..])
  }

  /** One field as written. */
  function EncodeField(f: string): string {
    if NeedsQuotes(f) then "\"" + EscapeQuotes(f) + "\"" else f
  }

  /** The fields of a record, encoded and separated by ','. */
  function JoinFields(fields: seq<string>): string
    decreases |fields|
  {
    if fields == [] then []
    else if |fields| == 1 then EncodeField(fields[0])
    else EncodeField(fields[0]) + "," + JoinFields(fields[1..])
  }

  /** Joining one more field appends a ',' and the encoded field. */
  lemma {:induction false} JoinFieldsSnoc(fields: seq<string>, f: string)
    requires fields != []
    ensures JoinFields(fields + [f]) == JoinFields(fields) + "," + EncodeField(f)
    decreases |fields|
  {
    var ext := fields + [f];
    assert ext[0] == fields[0] && ext[1..] == fields[1..] + [f];
    if |fields| > 1 {
      JoinFieldsSnoc(fields[1..], f);
    }
  }

  /** One record as written, with its terminator; an empty line is written as `""`. */
  function EncodeRecord(fields: seq<string>): (r: string)
    ensures r != [] && r[|r| - 1] == '\n'
  {
    var line := JoinFields(fields);
    (if line == [] then "\"\"" else line) + "\n"
  }

  /** The records `to_csv` writes: the header, when there is one, then the rows. */
  function Records(headers: seq<string>, t: Table): (r: seq<Row>)
    ensures |r| == |t| + (if headers == [] then 0 else 1)
  {
    (if headers == [] then [] else [headers]) + t
  }

  /** All records written one after the other. */
  function EncodeAll(records: seq<Row>): string
    decreases |records|
  {
    if records == [] then [] else EncodeRecord(records[0]) + EncodeAll(records[1..])
  }

  /** Writing two runs of records in turn is writing their concatenation. */
  lemma {:induction false} EncodeAllAppend(a: seq<Row>, b: seq<Row>)
    ensures EncodeAll(a + b) == EncodeAll(a) + EncodeAll(b)
    decreases |a|
  {
    if a == [] {
      assert a + b == b;
    } else {
      assert (a + b)[0] == a[0] && (a + b)[1..] == a[1..] + b;
      EncodeAllAppend(a[1..], b);
    }
  }

  /** The first record, at `from` or later, whose field count differs from the first record's. */
  function FirstUnequal(records: seq<Row>, from: nat): (r: Option<nat>)
    requires 0 < from <= |records|
    ensures r.Some? ==> from <= r.value < |records| && |records[r.value]| != |records[0]|
    ensures r.Some? ==> forall p :: from <= p < r.value ==> |records[p]| == |records[0]|
    ensures r.None? ==> forall p :: from <= p < |records| ==> |records[p]| == |records[0]|
    decreases |records| - from
  {
    if from == |records| then None
    else if |records[from]| != |records[0]| then Some(from)
    else FirstUnequal(records, from + 1)
  }

  /**
   * What writing the records produces: the text of every record, exactly when all have the
   * first record's field count, or else the error for the first one that does not.
   */
  function WriteAll(records: seq<Row>): (r: Result<string, CsvError>)
    ensures r.Ok? <==> forall p :: 0 <= p < |records| ==> |records[p]| == |records[0]|
    ensures r.Ok? ==> r.value == EncodeAll(records)
    ensures r.Err? ==>
      && 0 < r.error.record < |records|
      && r.error == UnequalLengths(r.error.record, |records[0]|, |records[r.error.record]|)
      && r.error.expectedLen != r.error.len
  {
    if records == [] then Ok([])
    else
      FirstUnequalNone(records, 1);
      match FirstUnequal(records, 1)
      case Some(p) => Err(UnequalLengths(p, |records[0]|, |records[p]|))
      case None => Ok(EncodeAll(records))
  }

  /**
   * The result of `to_csv`: the header record, only when `headers` is non-empty, followed by
   * the rows in table order; it is produced exactly when all of them have one width.
   */
  function CsvText(headers: seq<string>, t: Table): (r: Result<string, CsvError>)
    ensures r.Ok? <==>
      forall p :: 0 <= p < |Records(headers, t)| ==> |Records(headers, t)[p]| == |Records(headers, t)[0]|
    ensures r.Ok? ==> r.value == (if headers == [] then [] else EncodeRecord(headers)) + EncodeAll(t)
  {
    EncodeRecords(headers, t);
    WriteAll(Records(headers, t))
  }

  /** The part of `csv::Writer` that `to_csv` uses: the bytes written, and the first record's width. */
  class CsvWriter {
    var out: string
    var expected: Option<nat>

    constructor ()
      ensures out == [] && expected == None
    {
      out := [];
      expected := None;
    }

    /**
     * `write_record`: writes the fields and the terminator, or refuses a record whose
     * field count differs from the first record's. The crate writes the fields first and
     * checks the count when it writes the terminator, so its buffer then holds a partial
     * record; here the check comes first and the output is left as it was. No caller can
     * tell the two apart: `to_csv` returns the error and drops the writer with its buffer.
     */
    method WriteRecord(fields: seq<string>, position: nat) returns (r: Result<(), CsvError>)
      modifies this
      ensures r.Ok? <==> old(expected).None? || old(expected).value == |fields|
      ensures r.Err? ==> r.error == UnequalLengths(position, old(expected).value, |fields|)
      ensures r.Ok? ==> out == old(out) + EncodeRecord(fields)
      ensures r.Err? ==> out == old(out)
      ensures expected == (if old(expected).None? then Some(|fields|) else old(expected))
    {
      if expected.Some? && expected.value != |fields| {
        return Err(UnequalLengths(position, expected.value, |fields|));
      }
      var line: string := [];
      for k := 0 to |fields|
        invariant line == JoinFields(fields[..k])
        invariant out == old(out) && expected == old(expected)
      {
        if k > 0 {
          line := line + ",";
        }
        line := line + EncodeField(fields[k]);
        assert fields[..k + 1] == fields[..k] + [fields[k]];
        if k > 0 {
          JoinFieldsSnoc(fields[..k], fields[k]);
        } else {
          assert fields[..1] == [fields[0]];
        }
      }
      assert fields[..|fields|] == fields;
      assert line == JoinFields(fields);
      if line == [] {
        line := "\"\"";
      }
      out := out + line + "\n";
      if expected.None? {
        expected := Some(|fields|);
      }
      r := Ok(());
    }
  }

  /** `to_csv`: the header when there is one, then every row, each through the writer. */
  method ToCsv(t: Table, headers: seq<string>) returns (r: Result<string, CsvError>)
    ensures r == CsvText(headers, t)
  {
    var writer := new CsvWriter();
    ghost var records := Records(headers, t);
    var written := 0;
    assert records[..0] == [];
    if |headers| > 0 {
      var res := writer.WriteRecord(headers, 0);
      assert WriteAll(records[..1]) == Ok(writer.out) by {
        WriteStep(records, 0);
      }
      written := 1;
    }
    for k := 0 to |t|
      invariant written == |records| - |t| + k
      invariant WriteAll(records[..written]) == Ok(writer.out)
      invariant writer.expected == (if written == 0 then None else Some(|records[0]|))
    {
      assert records[written] == t[k];
      var res := writer.WriteRecord(t[k], written);
      if res.Err? {
        assert WriteAll(records) == Err(res.error) by {
          WriteStop(records, written);
        }
        return Err(res.error);
      }
      assert WriteAll(records[..written + 1]) == Ok(writer.out) by {
        WriteStep(records, written);
      }
      written := written + 1;
    }
    assert records[..written] == records;
    r := Ok(writer.out);
  }

  /** Writing one more record whose width matches appends its encoding. */
  lemma WriteStep(records: seq<Row>, n: nat)
    requires n < |records| && WriteAll(records[..n]).Ok?
    requires n == 0 || |records[n]| == |records[0]|
    ensures WriteAll(records[..n + 1]) == Ok(WriteAll(records[..n]).value + EncodeRecord(records[n]))
  {
    var pre := records[..n];
    var ext := records[..n + 1];
    assert ext[..n] == pre;
    assert ext == pre + [records[n]];
    EncodeAllAppend(pre, [records[n]]);
    assert [records[n]][1..] == [];
    assert EncodeAll([records[n]]) == EncodeRecord(records[n]);
    if n > 0 {
      FirstUnequalNone(pre, 1);
      FirstUnequalNone(ext, 1);
    } else {
      FirstUnequalNone(ext, 1);
    }
  }

  /** The first record whose width differs stops the writing with its error. */
  lemma WriteStop(records: seq<Row>, n: nat)
    requires 0 < n < |records| && WriteAll(records[..n]).Ok?
    requires |records[n]| != |records[0]|
    ensures WriteAll(records) == Err(UnequalLengths(n, |records[0]|, |records[n]|))
  {
    var pre := records[..n];
    FirstUnequalNone(pre, 1);
    FirstUnequalFrom(records, 1, n);
  }

  lemma {:induction false} FirstUnequalFrom(records: seq<Row>, from: nat, n: nat)
    requires 0 < from <= n < |records| && |records[n]| != |records[0]|
    requires forall p :: from <= p < n ==> |records[p]| == |records[0]|
    ensures FirstUnequal(records, from) == Some(n)
    decreases n - from
  {
    if from < n {
      FirstUnequalFrom(records, from + 1, n);
    }
  }

  lemma {:induction false} FirstUnequalNone(records: seq<Row>, from: nat)
    requires 0 < from <= |records|
    ensures FirstUnequal(records, from).None? <==> forall p :: from <= p < |records| ==> |records[p]| == |records[0]|
    decreases |records| - from
  {
    if from < |records| {
      FirstUnequalNone(records, from + 1);
    }
  }

  /** The text of the records of `to_csv` is the header record, if any, then the rows. */
  lemma EncodeRecords(headers: seq<string>, t: Table)
    ensures EncodeAll(Records(headers, t)) == (if headers == [] then [] else EncodeRecord(headers)) + EncodeAll(t)
  {
    if headers != [] {
      EncodeAllAppend([headers], t);
      assert [headers][1..] == [];
    } else {
      assert Records(headers, t) == t;
    }
  }

  // ---------------------------------------------------------------- reading the text back

  /** An unquoted field: the text up to the next ',' or '\n'; returns the field and the rest. */
  function ReadBare(s: string): (r: (string, string))
    ensures |r.1| <= |s|
    decreases |s|
  {
    if s == [] || s[0] == ',' || s[0] == '\n' then ([], s)
    else var (f, rest) := ReadBare(s[1..]); ([s[0]] + f, rest)
  }

  /** A quoted field after its opening quote: `""` stands for '"' and a lone '"' closes it. */
  function ReadQuoted(s: string): (r: Option<(string, string)>)
    ensures r.Some? ==> |r.value.1| < |s|
    decreases |s|
  {
    if s == [] then None
    else if s[0] == '"' && |s| > 1 && s[1] == '"' then
      match ReadQuoted(s[2..])
      case None => None
      case Some((f, rest)) => Some((['"'] + f, rest))
    else if s[0] == '"' then Some(([], s[1..]))
    else
      match ReadQuoted(s[1..])
      case None => None
      case Some((f, rest)) => Some(([s[0]] + f, rest))
  }

  /** One field, quoted or not, and the text after it. */
  function ReadField(s: string): (r: Option<(string, string)>)
    ensures r.Some? ==> |r.value.1| <= |s|
  {
    if s != [] && s[0] == '"' then ReadQuoted(s[1..]) else Some(ReadBare(s))
  }

  /** One record and the text after its terminator, or None when the text is malformed. */
  function ReadRecord(s: string): (r: Option<(Row, string)>)
    ensures r.Some? ==> |r.value.1| < |s|
    decreases |s|
  {
    match ReadField(s)
    case None => None
    case Some((f, rest)) =>
      if rest == [] then None
      else if rest[0] == '\n' then Some(([f], rest[1..]))
      else if rest[0] == ',' then
        match ReadRecord(rest[1..])
        case None => None
        case Some((fields, after)) => Some(([f] + fields, after))
      else None
  }

  /** Every record of the text, in order. */
  function ReadAll(s: string): Option<seq<Row>>
    decreases |s|
  {
    if s == [] then Some([])
    else match ReadRecord(s)
      case None => None
      case Some((record, rest)) =>
        match ReadAll(rest)
        case None => None
        case Some(records) => Some([record] + records)
  }

  /** Text that may follow a field: a separator or a terminator. */
  predicate FieldEnd(rest: string) {
    rest != [] && (rest[0] == ',' || rest[0] == '\n')
  }

  lemma {:induction false} ReadBareEncoded(f: string, rest: string)
    requires !NeedsQuotes(f) && FieldEnd(rest)
    ensures ReadBare(f + rest) == (f, rest)
    decreases |f|
  {
    if f == [] {
      assert f + rest == rest;
    } else {
      assert (f + rest)[1..] == f[1..] + rest;
      assert [f[0]] + f[1..] == f;
      ReadBareEncoded(f[1..], rest);
    }
  }

  lemma {:induction false} ReadQuotedEncoded(f: string, rest: string)
    requires rest == [] || rest[0] != '"'
    ensures ReadQuoted(EscapeQuotes(f) + "\"" + rest) == Some((f, rest))
    decreases |f|
  {
    var s := EscapeQuotes(f) + "\"" + rest;
    if f == [] {
      assert s == "\"" + rest;
      assert s[1..] == rest;
    } else {
      var tail := EscapeQuotes(f[1..]) + "\"" + rest;
      assert ReadQuoted(tail) == Some((f[1..], rest)) by {
        ReadQuotedEncoded(f[1..], rest);
      }
      if f[0] == '"' {
        assert s == "\"\"" + tail by {
          assert EscapeQuotes(f) == "\"\"" + EscapeQuotes(f[1..]);
        }
        assert s[2..] == tail;
      } else {
        assert s == [f[0]] + tail by {
          assert EscapeQuotes(f) == [f[0]] + EscapeQuotes(f[1..]);
        }
        assert s[1..] == tail;
      }
      assert [f[0]] + f[1..] == f;
    }
  }

  /** Reading an encoded field gives the field back and stops at the separator after it. */
  lemma ReadFieldEncoded(f: string, rest: string)
    requires FieldEnd(rest)
    ensures ReadField(EncodeField(f) + rest) == Some((f, rest))
  {
    if NeedsQuotes(f) {
      var body := EscapeQuotes(f) + "\"" + rest;
      var s := "\"" + body;
      assert EncodeField(f) + rest == s;
      assert s[0] == '"' && s[1..] == body;
      ReadQuotedEncoded(f, rest);
    } else {
      var s := f + rest;
      assert EncodeField(f) + rest == s;
      assert s[0] != '"' by {
        if f != [] {
          assert s[0] == f[0];
        }
      }
      ReadBareEncoded(f, rest);
    }
  }

  /** A field followed by the terminator is a one-field record. */
  lemma ReadRecordLast(s: string, f: string, rest: string)
    requires ReadField(s) == Some((f, rest)) && rest != [] && rest[0] == '\n'
    ensures ReadRecord(s) == Some(([f], rest[1..]))
  {
  }

  /** A field followed by ',' and a record is a record one field longer. */
  lemma ReadRecordMore(s: string, f: string, rest: string, fields: Row, after: string)
    requires ReadField(s) == Some((f, rest)) && rest != [] && rest[0] == ','
    requires ReadRecord(rest[1..]) == Some((fields, after))
    ensures ReadRecord(s) == Some(([f] + fields, after))
  {
  }

  lemma {:induction false} ReadJoinedEncoded(fields: seq<string>, rest: string)
    requires fields != [] && rest != [] && rest[0] == '\n'
    ensures ReadRecord(JoinFields(fields) + rest) == Some((fields, rest[1..]))
    decreases |fields|
  {
    if |fields| == 1 {
      ReadJoinedOne(fields, rest);
    } else {
      ReadJoinedEncoded(fields[1..], rest);
      ReadJoinedCons(fields, rest);
    }
  }

  /** A one-field record reads back. */
  lemma ReadJoinedOne(fields: seq<string>, rest: string)
    requires |fields| == 1 && rest != [] && rest[0] == '\n'
    ensures ReadRecord(JoinFields(fields) + rest) == Some((fields, rest[1..]))
  {
    var s := JoinFields(fields) + rest;
    assert s == EncodeField(fields[0]) + rest;
    ReadFieldEncoded(fields[0], rest);
    ReadRecordLast(s, fields[0], rest);
    assert [fields[0]] == fields;
  }

  /** A record reads back when the record of its fields after the first does. */
  lemma ReadJoinedCons(fields: seq<string>, rest: string)
    requires |fields| > 1 && rest != [] && rest[0] == '\n'
    requires ReadRecord(JoinFields(fields[1..]) + rest) == Some((fields[1..], rest[1..]))
    ensures ReadRecord(JoinFields(fields) + rest) == Some((fields, rest[1..]))
  {
    var s := JoinFields(fields) + rest;
    var more := "," + (JoinFields(fields[1..]) + rest);
    JoinFieldsCons(fields, rest);
    assert more[1..] == JoinFields(fields[1..]) + rest;
    ReadEncodedThenRecord(s, fields[0], more, fields[1..], rest[1..]);
    assert [fields[0]] + fields[1..] == fields;
  }

  /** A record of several fields is its first field, a ',' and the record of the others. */
  lemma JoinFieldsCons(fields: seq<string>, rest: string)
    requires |fields| > 1
    ensures JoinFields(fields) + rest == EncodeField(fields[0]) + ("," + (JoinFields(fields[1..]) + rest))
  {
    var head, tail := EncodeField(fields[0]), JoinFields(fields[1..]);
    assert JoinFields(fields) == head + "," + tail;
    AppendRegroup(head, ",", tail, rest);
  }

  lemma AppendRegroup(a: string, b: string, c: string, d: string)
    ensures a + b + c + d == a + (b + (c + d))
  {
  }

  /** An encoded field, a ',' and a record read back as one record. */
  lemma ReadEncodedThenRecord(s: string, f: string, more: string, fields: Row, after: string)
    requires s == EncodeField(f) + more && more != [] && more[0] == ','
    requires ReadRecord(more[1..]) == Some((fields, after))
    ensures ReadRecord(s) == Some(([f] + fields, after))
  {
    ReadFieldEncoded(f, more);
    ReadRecordMore(s, f, more, fields, after);
  }

  /** The only non-empty record whose line is empty is the record of one empty field. */
  lemma EmptyLine(fields: seq<string>)
    requires fields != [] && JoinFields(fields) == []
    ensures fields == [[]]
  {
  }

  /** Reading an encoded non-empty record gives the record back and stops after it. */
  lemma ReadRecordEncoded(fields: seq<string>, rest: string)
    requires fields != []
    ensures ReadRecord(EncodeRecord(fields) + rest) == Some((fields, rest))
  {
    var line := JoinFields(fields);
    if line == [] {
      EmptyLine(fields);
      var s := EncodeRecord(fields) + rest;
      assert s == "\"" + (EscapeQuotes([]) + "\"" + ("\n" + rest));
      ReadQuotedEncoded([], "\n" + rest);
      assert s[1..] == EscapeQuotes([]) + "\"" + ("\n" + rest);
    } else {
      assert EncodeRecord(fields) + rest == line + ("\n" + rest);
      ReadJoinedEncoded(fields, "\n" + rest);
      assert ("\n" + rest)[1..] == rest;
    }
  }

  /** Round trip: reading the written text gives back the records, when none is empty. */
  lemma {:induction false} ReadAllEncoded(records: seq<Row>)
    requires forall p :: 0 <= p < |records| ==> records[p] != []
    ensures ReadAll(EncodeAll(records)) == Some(records)
    decreases |records|
  {
    if records != [] {
      var tail := records[1..];
      var rest := EncodeAll(tail);
      var s := EncodeRecord(records[0]) + rest;
      assert EncodeAll(records) == s;
      ReadRecordEncoded(records[0], rest);
      assert ReadRecord(s) == Some((records[0], rest));
      assert forall p :: 0 <= p < |tail| ==> tail[p] == records[p + 1];
      ReadAllEncoded(tail);
      assert ReadAll(s) == Some([records[0]] + tail);
      assert [records[0]] + tail == records;
    }
  }

  /**
   * Round trip of `to_csv`: its text reads back as the header, when given, followed by the
   * rows, as long as no row is empty (an empty row is written as `""`, one empty field).
   */
  lemma CsvRoundTrip(headers: seq<string>, t: Table)
    requires forall p :: 0 <= p < |t| ==> t[p] != []
    requires CsvText(headers, t).Ok?
    ensures ReadAll(CsvText(headers, t).value) == Some((if headers == [] then [] else [headers]) + t)
  {
    var records := Records(headers, t);
    assert forall p :: 0 <= p < |records| ==> records[p] != [] by {
      forall p | 0 <= p < |records|
        ensures records[p] != []
      {
        if headers != [] && p > 0 {
          assert records[p] == t[p - 1];
        }
      }
    }
    ReadAllEncoded(records);
  }
}
