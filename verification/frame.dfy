/** The column-wise view of a data frame: an ordered list of distinct column
    names and the column stored under each. */
module Frame {
  import opened Sequences

  type Name = string

  /** A parsed timestamp, reduced to the fields the features read: hour of
      day, weekday (Monday = 0) and month. Calendar arithmetic is not modelled. */
  datatype Timestamp = Timestamp(hour: int, dayOfWeek: int, month: int)

  predicate ValidTimestamp(t: Timestamp) {
    0 <= t.hour <= 23 && 0 <= t.dayOfWeek <= 6 && 1 <= t.month <= 12
  }

  type Stamp = t: Timestamp | ValidTimestamp(t) witness Timestamp(0, 0, 1)

  /** A column's dtype decides whether it counts as numeric: only `Numbers`
      columns do. */
  datatype Column =
    | Numbers(values: seq<real>)
    | Stamps(stamps: seq<Stamp>)
    | Other(cells: seq<string>)

  datatype Table = Table(names: seq<Name>, cols: map<Name, Column>)

  /** Column names are unique and name exactly the stored columns. */
  predicate WellFormed(t: Table) {
    && Distinct(t.names)
    && (forall n :: n in t.names ==> n in t.cols)
    && (forall n :: n in t.cols ==> n in t.names)
  }

  /** Column assignment: replaces column `n` in place, or appends it after the
      existing columns when there is none of that name. */
  function Assign(t: Table, n: Name, c: Column): (r: Table)
    requires WellFormed(t)
    ensures WellFormed(r)
    ensures r.cols == t.cols[n := c]
    ensures n in t.cols ==> r.names == t.names
    ensures n !in t.cols ==> r.names == t.names + [n]
  {
    Table(if n in t.cols then t.names else t.names + [n], t.cols[n := c])
  }
}
