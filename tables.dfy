/**
 * The data the transforms work on: a record (`csv::StringRecord`) is a row of string
 * fields, a table (`Vec<StringRecord>`) is a sequence of rows.
 */
module Tables {

  datatype Option<+T> = None | Some(value: T)

  /** An operation's outcome: a value, or the reason the run aborts. */
  datatype Result<+T, +E> = Ok(value: T) | Err(error: E)

  /** One record: its fields, 0-indexed. */
  type Row = seq<string>

  /** A table: its records, in order. */
  type Table = seq<Row>

  /** A half-open range of field positions, `start..end` (`std::ops::Range<usize>`). */
  datatype Span = Span(start: nat, end: nat)

  /** Every row of `t` has a field at position `index`. */
  predicate HasField(t: Table, index: nat) {
    forall p :: 0 <= p < |t| ==> index < |t[p]|
  }

  /** Slicing a row with `span` does not panic: `start <= end <= len`. */
  predicate SpanFits(span: Span, row: Row) {
    span.start <= span.end <= |row|
  }
}
