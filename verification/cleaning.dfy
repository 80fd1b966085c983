/** Row cleaning of the preprocessing stage (`clean_data` in
    src/data_preprocessing.py): drop every row with a missing cell, then drop
    repeated rows keeping the first occurrence, and report how many rows the
    second step removed. */
module Cleaning {
  import opened Options
  import opened Sequences

  /** One record: a cell per column, `None` where the value is missing. */
  type Row<V> = seq<Option<V>>

  /** No cell of the row is missing. */
  predicate Complete<V>(row: Row<V>) {
    forall i :: 0 <= i < |row| ==> row[i].Some?
  }

  /** Dropping incomplete rows: the complete rows, in their original order. */
  function DropMissing<V(==)>(rows: seq<Row<V>>): (r: seq<Row<V>>)
    ensures forall i :: 0 <= i < |r| ==> Complete(r[i]) && r[i] in rows
    ensures forall i :: 0 <= i < |rows| && Complete(rows[i]) ==> rows[i] in r
    ensures r == Select(rows, FilterPositions(rows, Complete))
  {
    FilterSelectsPositions(rows, Complete);
    Filter(rows, Complete)
  }

  /** Dropping repeated rows, keeping the first of each: a value is kept at
      its first position and dropped at every later one. */
  function DropDuplicates<T(==)>(s: seq<T>): (r: seq<T>)
    ensures Distinct(r)
    ensures forall i :: 0 <= i < |r| ==> r[i] in s
    ensures forall i :: 0 <= i < |s| ==> s[i] in r
    ensures |r| <= |s|
    decreases |s|
  {
    if |s| == 0 then []
    else
      var init := s[..|s| - 1];
      assert s == init + [s[|s| - 1]];
      if s[|s| - 1] in init then DropDuplicates(init)
      else DropDuplicates(init) + [s[|s| - 1]]
  }

  /** Position `i` holds the first occurrence of its value. */
  predicate FirstOccurrence<T(==)>(s: seq<T>, i: nat)
    requires i < |s|
  {
    s[i] !in s[..i]
  }

  /** Cutting the sequence after position `n` does not change which
      positions before `n` are first occurrences. */
  lemma FirstOccurrencePrefix<T>(s: seq<T>, n: nat)
    requires n <= |s|
    ensures forall i :: 0 <= i < n ==> (FirstOccurrence(s[..n], i) <==> FirstOccurrence(s, i))
  {
    forall i | 0 <= i < n
      ensures FirstOccurrence(s[..n], i) <==> FirstOccurrence(s, i)
    {
      assert s[..n][..i] == s[..i];
    }
  }

  /** The positions holding the first occurrence of their value. */
  function FirstPositions<T(==)>(s: seq<T>): (idx: seq<nat>)
    ensures IncreasingBelow(idx, |s|)
    ensures forall i :: 0 <= i < |s| ==> (i in idx <==> FirstOccurrence(s, i))
    decreases |s|
  {
    if |s| == 0 then []
    else
      var pre := FirstPositions(s[..|s| - 1]);
      FirstPositionsStep(s, pre);
      pre + (if FirstOccurrence(s, |s| - 1) then [|s| - 1] else [])
  }

  /** The first occurrences of a non-empty sequence are those of all but
      its last value, followed by the last position when that is one. */
  lemma FirstPositionsStep<T>(s: seq<T>, pre: seq<nat>)
    requires |s| > 0
    requires IncreasingBelow(pre, |s| - 1)
    requires forall i :: 0 <= i < |s| - 1 ==> (i in pre <==> FirstOccurrence(s[..|s| - 1], i))
    ensures var idx := pre + (if FirstOccurrence(s, |s| - 1) then [|s| - 1] else []);
      && IncreasingBelow(idx, |s|)
      && forall i :: 0 <= i < |s| ==> (i in idx <==> FirstOccurrence(s, i))
  {
    AppendPosition(pre, |s| - 1, FirstOccurrence(s, |s| - 1));
    FirstOccurrencePrefix(s, |s| - 1);
  }

  /** Deduplication keeps exactly the first occurrences, in order. */
  lemma {:induction false} DropDuplicatesKeepsFirst<T>(s: seq<T>)
    ensures DropDuplicates(s) == Select(s, FirstPositions(s))
    decreases |s|
  {
    if |s| > 0 {
      var init := s[..|s| - 1];
      DropDuplicatesKeepsFirst(init);
      var pre := FirstPositions(init);
      SelectPrefix(s, |s| - 1, pre);
      if s[|s| - 1] !in init {
        SelectSnoc(s, pre, |s| - 1);
        assert FirstPositions(s) == pre + [|s| - 1];
      } else {
        assert FirstPositions(s) == pre;
      }
    }
  }

  /** Deduplication removes nothing exactly when there is nothing to remove. */
  lemma {:induction false} DropDuplicatesOfDistinct<T>(s: seq<T>)
    ensures Distinct(s) <==> |DropDuplicates(s)| == |s|
    ensures Distinct(s) ==> DropDuplicates(s) == s
    decreases |s|
  {
    if |s| > 0 {
      var init := s[..|s| - 1];
      DropDuplicatesOfDistinct(init);
      assert s == init + [s[|s| - 1]];
      if Distinct(s) {
        assert Distinct(init);
        assert s[|s| - 1] !in init;
      }
      if |DropDuplicates(s)| == |s| {
        assert s[|s| - 1] !in init;
        assert Distinct(init);
      }
    }
  }

  /** The outcome of `clean_data`: the surviving rows and the number of rows
      the deduplication step removed. */
  datatype Cleaned<V> = Cleaned(rows: seq<Row<V>>, duplicatesRemoved: nat)

  function Clean<V(==)>(rows: seq<Row<V>>): (c: Cleaned<V>)
    ensures forall i :: 0 <= i < |c.rows| ==> Complete(c.rows[i])
    ensures Distinct(c.rows)
    ensures forall i :: 0 <= i < |c.rows| ==> c.rows[i] in rows
    ensures forall i :: 0 <= i < |rows| && Complete(rows[i]) ==> rows[i] in c.rows
    ensures c.duplicatesRemoved + |c.rows| == |DropMissing(rows)|
  {
    var complete := DropMissing(rows);
    var unique := DropDuplicates(complete);
    Cleaned(unique, |complete| - |unique|)
  }

  /** A row survives cleaning when it is complete and no earlier row equals it. */
  predicate Survives<V(==)>(rows: seq<Row<V>>, i: nat)
    requires i < |rows|
  {
    Complete(rows[i]) && FirstOccurrence(rows, i)
  }

  /** The survivors of a non-empty table are those of all but its last row,
      followed by the last position when that row survives. */
  lemma SurvivorPositionsStep<V>(rows: seq<Row<V>>, pre: seq<nat>)
    requires |rows| > 0
    requires IncreasingBelow(pre, |rows| - 1)
    requires forall i :: 0 <= i < |rows| - 1 ==> (i in pre <==> Survives(rows[..|rows| - 1], i))
    ensures var idx := pre + (if Survives(rows, |rows| - 1) then [|rows| - 1] else []);
      && IncreasingBelow(idx, |rows|)
      && forall i :: 0 <= i < |rows| ==> (i in idx <==> Survives(rows, i))
  {
    AppendPosition(pre, |rows| - 1, Survives(rows, |rows| - 1));
    FirstOccurrencePrefix(rows, |rows| - 1);
  }

  /** The positions of the surviving rows. */
  function SurvivorPositions<V(==)>(rows: seq<Row<V>>): (idx: seq<nat>)
    ensures IncreasingBelow(idx, |rows|)
    ensures forall i :: 0 <= i < |rows| ==> (i in idx <==> Survives(rows, i))
    decreases |rows|
  {
    if |rows| == 0 then []
    else
      var pre := SurvivorPositions(rows[..|rows| - 1]);
      SurvivorPositionsStep(rows, pre);
      pre + (if Survives(rows, |rows| - 1) then [|rows| - 1] else [])
  }

  /** Deduplication distributes over appending one value. */
  lemma DropDuplicatesSnoc<T>(s: seq<T>, x: T)
    ensures DropDuplicates(s + [x]) == DropDuplicates(s) + (if x in s then [] else [x])
  {
    assert (s + [x])[..|s|] == s;
  }

  /** A complete row is among the complete rows exactly when it is among the rows. */
  lemma CompleteRowKept<V>(rows: seq<Row<V>>, row: Row<V>)
    requires Complete(row)
    ensures row in DropMissing(rows) <==> row in rows
  {
    if row in rows {
      var i :| 0 <= i < |rows| && rows[i] == row;
    }
  }

  /** Appending one row to the input appends it to the output exactly when it
      is complete and new. */
  lemma CleanSnoc<V>(rows: seq<Row<V>>, row: Row<V>)
    ensures Clean(rows + [row]).rows
         == Clean(rows).rows + (if Complete(row) && row !in rows then [row] else [])
  {
    FilterSnoc(rows, row, Complete);
    if Complete(row) {
      assert DropMissing(rows + [row]) == DropMissing(rows) + [row];
      DropDuplicatesSnoc(DropMissing(rows), row);
      CompleteRowKept(rows, row);
    } else {
      assert DropMissing(rows + [row]) == DropMissing(rows);
    }
  }

  /** Cleaning keeps, in input order, exactly the rows at the survivor positions. */
  lemma {:induction false} CleanSelectsSurvivors<V>(rows: seq<Row<V>>)
    ensures Clean(rows).rows == Select(rows, SurvivorPositions(rows))
    decreases |rows|
  {
    if |rows| > 0 {
      var n := |rows| - 1;
      var init := rows[..n];
      var last := rows[n];
      var pre := SurvivorPositions(init);
      var tail := if Survives(rows, n) then [last] else [];
      assert Clean(rows).rows == Clean(init).rows + tail by {
        assert rows == init + [last];
        CleanSnoc(init, last);
        assert Survives(rows, n) == (Complete(last) && last !in init);
      }
      assert Select(rows, SurvivorPositions(rows)) == Select(init, pre) + tail by {
        SelectPrefix(rows, n, pre);
        if Survives(rows, n) {
          SelectSnoc(rows, pre, n);
        }
      }
      CleanSelectsSurvivors(init);
    }
  }

  /** Cleaning keeps, in input order, exactly the rows that are complete and
      not preceded by an equal row: the output is an order-preserving
      subsequence in which every kept row is the first of its equals. */
  lemma CleanKeepsFirstCompleteOccurrences<V>(rows: seq<Row<V>>)
    ensures Clean(rows).rows == Select(rows, SurvivorPositions(rows))
    ensures IsSubsequence(Clean(rows).rows, rows)
  {
    CleanSelectsSurvivors(rows);
    var idx := SurvivorPositions(rows);
    assert IncreasingBelow(idx, |rows|) && Clean(rows).rows == Select(rows, idx);
  }

  /** The reported count is zero exactly when the complete rows were already
      pairwise different. */
  lemma NoDuplicatesReportedIffDistinct<V>(rows: seq<Row<V>>)
    ensures Clean(rows).duplicatesRemoved == 0 <==> Distinct(DropMissing(rows))
  {
    DropDuplicatesOfDistinct(DropMissing(rows));
  }

  /** Cleaning an already cleaned table changes nothing and reports no duplicates. */
  lemma CleanIdempotent<V>(rows: seq<Row<V>>)
    ensures Clean(Clean(rows).rows) == Cleaned(Clean(rows).rows, 0)
  {
    var once := Clean(rows).rows;
    FilterAllKept(once, Complete);
    DropDuplicatesOfDistinct(once);
  }
}
