/** Feature derivation of the preprocessing stage: time fields from date
    columns (`extract_features`) and the `<col>_original` copies
    (`normalize_features`), both in src/data_preprocessing.py. */
module Features {
  import opened Options
  import opened Sequences
  import opened Text
  import opened Frame

  const Hour: Name := "hour"
  const DayOfWeek: Name := "day_of_week"
  const Month: Name := "month"
  const IsWeekend: Name := "is_weekend"

  /** The four columns derived from a timestamp column. */
  const DerivedNames: seq<Name> := [Hour, DayOfWeek, Month, IsWeekend]

  lemma HourIsNotDateColumn()
    ensures !IsDateColumn(Hour)
  {
    assert 't' !in Hour && 'T' !in Hour;
    NotDateColumn(Hour, 't', 't');
  }

  lemma DayOfWeekIsNotDateColumn()
    ensures !IsDateColumn(DayOfWeek)
  {
    assert 't' !in DayOfWeek && 'T' !in DayOfWeek;
    NotDateColumn(DayOfWeek, 't', 't');
  }

  lemma MonthIsNotDateColumn()
    ensures !IsDateColumn(Month)
  {
    assert 'd' !in Month && 'D' !in Month && 'i' !in Month && 'I' !in Month;
    NotDateColumn(Month, 'd', 'i');
  }

  lemma IsWeekendIsNotDateColumn()
    ensures !IsDateColumn(IsWeekend)
  {
    assert 't' !in IsWeekend && 'T' !in IsWeekend;
    NotDateColumn(IsWeekend, 't', 't');
  }

  /** No derived column is itself picked up as a date column. */
  lemma DerivedNamesAreNotDateColumns()
    ensures forall n :: n in DerivedNames ==> !IsDateColumn(n)
  {
    HourIsNotDateColumn();
    DayOfWeekIsNotDateColumn();
    MonthIsNotDateColumn();
    IsWeekendIsNotDateColumn();
  }

  /** The date columns, in column order. */
  function DateColumns(names: seq<Name>): (r: seq<Name>)
    ensures forall i :: 0 <= i < |r| ==> r[i] in names && IsDateColumn(r[i])
    ensures forall i :: 0 <= i < |names| && IsDateColumn(names[i]) ==> names[i] in r
    ensures IsSubsequence(r, names)
  {
    FilterIsSubsequence(names, IsDateColumn);
    Filter(names, IsDateColumn)
  }

  /** One field of every timestamp of a parsed column, as numbers. */
  function FieldColumn(stamps: seq<Stamp>, field: Stamp -> int): (r: seq<real>)
    ensures |r| == |stamps|
    ensures forall i :: 0 <= i < |stamps| ==> r[i] == field(stamps[i]) as real
  {
    seq(|stamps|, i requires 0 <= i < |stamps| => field(stamps[i]) as real)
  }

  function HourOf(s: Stamp): int { s.hour }
  function DayOf(s: Stamp): int { s.dayOfWeek }
  function MonthOf(s: Stamp): int { s.month }

  /** The integer weekend flag of a day-of-week column: 1 on days 5 and 6, else 0. */
  function WeekendFlags(days: seq<real>): (r: seq<real>)
    ensures |r| == |days|
    ensures forall i :: 0 <= i < |days| ==> r[i] == 1.0 || r[i] == 0.0
  {
    seq(|days|, i requires 0 <= i < |days| => if days[i] == 5.0 || days[i] == 6.0 then 1.0 else 0.0)
  }

  /** The weekend flag is 1 exactly on Saturday (5) and Sunday (6). */
  lemma WeekendMeansSaturdayOrSunday(stamps: seq<Stamp>, i: nat)
    requires i < |stamps|
    ensures WeekendFlags(FieldColumn(stamps, DayOf))[i] == 1.0 <==> stamps[i].dayOfWeek >= 5
    ensures WeekendFlags(FieldColumn(stamps, DayOf))[i] == 0.0 <==> stamps[i].dayOfWeek < 5
  {
  }

  /** Replaces `col` by its parsed timestamps and (re)writes the four derived
      columns from them; the weekend flag is computed from the day column
      just written. */
  function Derive(t: Table, col: Name, stamps: seq<Stamp>): (r: Table)
    requires WellFormed(t)
    requires col in t.cols
    ensures WellFormed(r)
    ensures t.names <= r.names
    ensures r.cols == t.cols[col := Stamps(stamps)]
                            [Hour := Numbers(FieldColumn(stamps, HourOf))]
                            [DayOfWeek := Numbers(FieldColumn(stamps, DayOf))]
                            [Month := Numbers(FieldColumn(stamps, MonthOf))]
                            [IsWeekend := Numbers(WeekendFlags(FieldColumn(stamps, DayOf)))]
  {
    var t1 := Assign(t, col, Stamps(stamps));
    var t2 := Assign(t1, Hour, Numbers(FieldColumn(stamps, HourOf)));
    var t3 := Assign(t2, DayOfWeek, Numbers(FieldColumn(stamps, DayOf)));
    var t4 := Assign(t3, Month, Numbers(FieldColumn(stamps, MonthOf)));
    Assign(t4, IsWeekend, Numbers(WeekendFlags(t4.cols[DayOfWeek].values)))
  }

  /** After a derivation the four derived columns hold the timestamp fields:
      the lookups the loop lemmas need, read off Derive's map updates. */
  lemma DerivedColumns(t: Table, col: Name, stamps: seq<Stamp>)
    requires WellFormed(t)
    requires col in t.cols
    ensures var r := Derive(t, col, stamps);
      && (forall n :: n in DerivedNames ==> n in r.cols)
      && r.cols[Hour] == Numbers(FieldColumn(stamps, HourOf))
      && r.cols[DayOfWeek] == Numbers(FieldColumn(stamps, DayOf))
      && r.cols[Month] == Numbers(FieldColumn(stamps, MonthOf))
      && r.cols[IsWeekend] == Numbers(WeekendFlags(FieldColumn(stamps, DayOf)))
  {
  }

  /** One iteration of the date-column loop: a column that fails to parse
      leaves the table as it was. */
  function ParseStep(t: Table, col: Name, parse: Column -> Option<seq<Stamp>>): (r: Table)
    requires WellFormed(t)
    requires col in t.cols
    ensures WellFormed(r)
    ensures t.names <= r.names
    ensures forall n :: n in t.cols ==> n in r.cols
    ensures forall n :: n in r.cols ==> n in t.cols || n in DerivedNames
    ensures parse(t.cols[col]).None? ==> r == t
  {
    match parse(t.cols[col])
    case None => t
    case Some(stamps) => Derive(t, col, stamps)
  }

  /** The date-column loop over `cols`, in order. */
  function DeriveAll(t: Table, cols: seq<Name>, parse: Column -> Option<seq<Stamp>>): (r: Table)
    requires WellFormed(t)
    requires forall i :: 0 <= i < |cols| ==> cols[i] in t.cols
    ensures WellFormed(r)
    ensures t.names <= r.names
    ensures forall n :: n in t.cols ==> n in r.cols
    ensures forall n :: n in r.cols ==> n in t.cols || n in DerivedNames
    decreases |cols|
  {
    if |cols| == 0 then t
    else
      var acc := DeriveAll(t, cols[..|cols| - 1], parse);
      ParseStep(acc, cols[|cols| - 1], parse)
  }

  /** `extract_features`: the date columns are fixed before the loop starts. */
  function ExtractFeatures(t: Table, parse: Column -> Option<seq<Stamp>>): (r: Table)
    requires WellFormed(t)
    ensures WellFormed(r)
    ensures t.names <= r.names
    ensures forall n :: n in r.cols ==> n in t.cols || n in DerivedNames
  {
    DeriveAll(t, DateColumns(t.names), parse)
  }

  /** The last column of `cols` that parses on the original table, with its
      timestamps. */
  function LastParsed(t: Table, cols: seq<Name>, parse: Column -> Option<seq<Stamp>>): Option<(Name, seq<Stamp>)>
    requires forall i :: 0 <= i < |cols| ==> cols[i] in t.cols
    decreases |cols|
  {
    if |cols| == 0 then None
    else
      var last := cols[|cols| - 1];
      match parse(t.cols[last])
      case Some(stamps) => Some((last, stamps))
      case None => LastParsed(t, cols[..|cols| - 1], parse)
  }

  /** A column that is neither processed by the loop nor derived keeps its
      presence and its contents. */
  lemma {:induction false} DeriveAllLeavesOthers(t: Table, cols: seq<Name>, parse: Column -> Option<seq<Stamp>>, n: Name)
    requires WellFormed(t)
    requires forall i :: 0 <= i < |cols| ==> cols[i] in t.cols
    requires n !in cols && n !in DerivedNames
    ensures n in DeriveAll(t, cols, parse).cols <==> n in t.cols
    ensures n in t.cols ==> DeriveAll(t, cols, parse).cols[n] == t.cols[n]
    decreases |cols|
  {
    if |cols| > 0 {
      var pre := cols[..|cols| - 1];
      assert n !in pre;
      DeriveAllLeavesOthers(t, pre, parse, n);
    }
  }

  /** The derived columns of the last column that parses win; when no
      column parses the table is unchanged. */
  lemma {:induction false} DeriveAllLastWins(t: Table, cols: seq<Name>, parse: Column -> Option<seq<Stamp>>)
    requires WellFormed(t)
    requires forall i :: 0 <= i < |cols| ==> cols[i] in t.cols
    requires Distinct(cols)
    requires forall i :: 0 <= i < |cols| ==> cols[i] !in DerivedNames
    ensures LastParsed(t, cols, parse).None? ==> DeriveAll(t, cols, parse) == t
    ensures LastParsed(t, cols, parse).Some? ==>
      var stamps := LastParsed(t, cols, parse).value.1;
      var r := DeriveAll(t, cols, parse);
      && (forall n :: n in DerivedNames ==> n in r.cols)
      && r.cols[Hour] == Numbers(FieldColumn(stamps, HourOf))
      && r.cols[DayOfWeek] == Numbers(FieldColumn(stamps, DayOf))
      && r.cols[Month] == Numbers(FieldColumn(stamps, MonthOf))
      && r.cols[IsWeekend] == Numbers(WeekendFlags(FieldColumn(stamps, DayOf)))
    decreases |cols|
  {
    if |cols| > 0 {
      var pre := cols[..|cols| - 1];
      var last := cols[|cols| - 1];
      DistinctSnoc(cols);
      DeriveAllLastWins(t, pre, parse);
      DeriveAllLeavesOthers(t, pre, parse, last);
      var acc := DeriveAll(t, pre, parse);
      assert acc.cols[last] == t.cols[last];
      match parse(t.cols[last])
      case None =>
        assert LastParsed(t, cols, parse) == LastParsed(t, pre, parse);
        assert DeriveAll(t, cols, parse) == acc;
      case Some(stamps) =>
        assert LastParsed(t, cols, parse) == Some((last, stamps));
        assert DeriveAll(t, cols, parse) == Derive(acc, last, stamps);
        DerivedColumns(acc, last, stamps);
    }
  }

  /** Every date column that parses holds its timestamps afterwards; one that
      fails is left as it was. */
  lemma {:induction false} DeriveAllConvertsParsed(t: Table, cols: seq<Name>, parse: Column -> Option<seq<Stamp>>, c: Name)
    requires WellFormed(t)
    requires forall i :: 0 <= i < |cols| ==> cols[i] in t.cols
    requires Distinct(cols)
    requires forall i :: 0 <= i < |cols| ==> cols[i] !in DerivedNames
    requires c in cols
    ensures DeriveAll(t, cols, parse).cols[c]
         == match parse(t.cols[c]) case Some(stamps) => Stamps(stamps) case None => t.cols[c]
    decreases |cols|
  {
    var pre := cols[..|cols| - 1];
    var last := cols[|cols| - 1];
    DistinctSnoc(cols);
    if c == last {
      DeriveAllLeavesOthers(t, pre, parse, last);
    } else {
      assert c in pre;
      DeriveAllConvertsParsed(t, pre, parse, c);
    }
  }

  /** `extract_features` as a whole: the date-column test picks the columns,
      the last one that parses supplies the four derived columns, and every
      other column is untouched. */
  lemma ExtractFeaturesSpec(t: Table, parse: Column -> Option<seq<Stamp>>)
    requires WellFormed(t)
    ensures var dates := DateColumns(t.names);
      var r := ExtractFeatures(t, parse);
      && (LastParsed(t, dates, parse).None? ==> r == t)
      && (LastParsed(t, dates, parse).Some? ==>
            var stamps := LastParsed(t, dates, parse).value.1;
            && (forall n :: n in DerivedNames ==> n in r.cols)
            && r.cols[Hour] == Numbers(FieldColumn(stamps, HourOf))
            && r.cols[DayOfWeek] == Numbers(FieldColumn(stamps, DayOf))
            && r.cols[Month] == Numbers(FieldColumn(stamps, MonthOf))
            && r.cols[IsWeekend] == Numbers(WeekendFlags(FieldColumn(stamps, DayOf))))
      && (forall c :: c in t.cols && IsDateColumn(c) ==>
            r.cols[c] == match parse(t.cols[c]) case Some(stamps) => Stamps(stamps) case None => t.cols[c])
      && (forall n :: n in t.cols && !IsDateColumn(n) && n !in DerivedNames ==> r.cols[n] == t.cols[n])
  {
    var dates := DateColumns(t.names);
    FilterKeepsDistinct(t.names, IsDateColumn);
    DerivedNamesAreNotDateColumns();
    DeriveAllLastWins(t, dates, parse);
    forall c | c in t.cols && IsDateColumn(c)
      ensures ExtractFeatures(t, parse).cols[c]
           == match parse(t.cols[c]) case Some(stamps) => Stamps(stamps) case None => t.cols[c]
    {
      DeriveAllConvertsParsed(t, dates, parse, c);
    }
    forall n | n in t.cols && !IsDateColumn(n) && n !in DerivedNames
      ensures ExtractFeatures(t, parse).cols[n] == t.cols[n]
    {
      DeriveAllLeavesOthers(t, dates, parse, n);
    }
  }

  /** The derived fields lie in their calendar ranges. */
  lemma DerivedFieldsInRange(stamps: seq<Stamp>)
    ensures forall v :: v in FieldColumn(stamps, HourOf) ==> 0.0 <= v <= 23.0
    ensures forall v :: v in FieldColumn(stamps, DayOf) ==> 0.0 <= v <= 6.0
    ensures forall v :: v in FieldColumn(stamps, MonthOf) ==> 1.0 <= v <= 12.0
  {
  }
}

/** The `<col>_original` copies made by `normalize_features`, which copies
    numeric columns and scales nothing. */
module Originals {
  import opened Sequences
  import opened Frame
  import opened Features

  const OriginalSuffix: Name := "_original"

  predicate EndsWith(s: string, suffix: string) {
    |suffix| <= |s| && s[|s| - |suffix|..] == suffix
  }

  /** The name of a column's copy: the column name followed by `_original`. */
  function OriginalName(n: Name): (r: Name)
    ensures EndsWith(r, OriginalSuffix)
    ensures |r| == |n| + |OriginalSuffix| && r[..|n|] == n
  {
    var r := n + OriginalSuffix;
    assert r[|r| - |OriginalSuffix|..] == OriginalSuffix;
    r
  }

  /** Different columns get different copy names. */
  lemma OriginalNameInjective(a: Name, b: Name)
    requires OriginalName(a) == OriginalName(b)
    ensures a == b
  {
    assert a == OriginalName(a)[..|a|];
    assert b == OriginalName(b)[..|b|];
  }

  /** A copy name ends in the suffix twice only if its column already ended in it once. */
  lemma DoubleSuffixNeedsSuffixedColumn(n: Name)
    requires EndsWith(OriginalName(n), OriginalSuffix + OriginalSuffix)
    ensures EndsWith(n, OriginalSuffix)
  {
    var r := OriginalName(n);
    var k := |OriginalSuffix|;
    assert r[|r| - 2 * k..][..k] == r[|n| - k..|n|] == n[|n| - k..];
  }

  function OriginalNames(cols: seq<Name>): (r: seq<Name>)
    ensures |r| == |cols|
    ensures forall i :: 0 <= i < |cols| ==> r[i] == OriginalName(cols[i])
  {
    seq(|cols|, i requires 0 <= i < |cols| => OriginalName(cols[i]))
  }

  /** Naming one more column appends its copy name. */
  lemma OriginalNamesSnoc(cols: seq<Name>, col: Name)
    ensures OriginalNames(cols + [col]) == OriginalNames(cols) + [OriginalName(col)]
  {
  }

  predicate IsNumeric(t: Table, n: Name) {
    n in t.cols && t.cols[n].Numbers?
  }

  predicate NotDerived(n: Name) {
    n !in DerivedNames
  }

  /** The numeric columns in column order, listed once before the copy loop. */
  function NumericColumns(t: Table): (r: seq<Name>)
    requires WellFormed(t)
    ensures forall i :: 0 <= i < |r| ==> IsNumeric(t, r[i])
    ensures forall n :: IsNumeric(t, n) ==> n in r
    ensures Distinct(r)
    ensures IsSubsequence(r, t.names)
  {
    var numeric := n => IsNumeric(t, n);
    FilterKeepsDistinct(t.names, numeric);
    FilterIsSubsequence(t.names, numeric);
    Filter(t.names, numeric)
  }

  /** The copy loop over `cols`: each column that is not a derived time field
      is copied, reading the table as the earlier iterations left it. */
  function CopyOriginals(t: Table, cols: seq<Name>): (r: Table)
    requires WellFormed(t)
    requires forall i :: 0 <= i < |cols| ==> cols[i] in t.cols
    ensures WellFormed(r)
    ensures t.names <= r.names
    ensures forall n :: n in t.cols ==> n in r.cols
    decreases |cols|
  {
    if |cols| == 0 then t
    else
      var acc := CopyOriginals(t, cols[..|cols| - 1]);
      var col := cols[|cols| - 1];
      if col in DerivedNames then acc
      else Assign(acc, OriginalName(col), acc.cols[col])
  }

  /** `normalize_features`: the copy loop over the numeric columns. */
  function NormalizeFeatures(t: Table): (r: Table)
    requires WellFormed(t)
    ensures WellFormed(r)
    ensures t.names <= r.names
    ensures forall n :: n in t.cols ==> n in r.cols
  {
    CopyOriginals(t, NumericColumns(t))
  }

  /** Existing columns are never overwritten when none of them ends in the suffix. */
  lemma {:induction false} CopyOriginalsKeepsColumns(t: Table, cols: seq<Name>)
    requires WellFormed(t)
    requires forall i :: 0 <= i < |cols| ==> cols[i] in t.cols
    requires forall n :: n in t.cols ==> !EndsWith(n, OriginalSuffix)
    ensures forall n :: n in t.cols ==> CopyOriginals(t, cols).cols[n] == t.cols[n]
    decreases |cols|
  {
    if |cols| > 0 {
      CopyOriginalsKeepsColumns(t, cols[..|cols| - 1]);
    }
  }

  /** The copy name of a column not yet visited is not taken. */
  lemma CopyNameIsFresh(t: Table, pre: seq<Name>, col: Name)
    requires WellFormed(t)
    requires forall i :: 0 <= i < |pre| ==> pre[i] in t.cols
    requires forall n :: n in t.cols ==> !EndsWith(n, OriginalSuffix)
    requires col !in pre
    requires CopyOriginals(t, pre).names == t.names + OriginalNames(Filter(pre, NotDerived))
    ensures OriginalName(col) !in CopyOriginals(t, pre).cols
  {
    forall m | m in Filter(pre, NotDerived) ensures OriginalName(m) != OriginalName(col) {
      if OriginalName(m) == OriginalName(col) {
        OriginalNameInjective(m, col);
      }
    }
  }

  /** One iteration of the copy loop. */
  lemma CopyOriginalsStep(t: Table, cols: seq<Name>)
    requires WellFormed(t)
    requires forall i :: 0 <= i < |cols| ==> cols[i] in t.cols
    requires |cols| > 0
    ensures var acc := CopyOriginals(t, cols[..|cols| - 1]);
      var col := cols[|cols| - 1];
      && col in acc.cols
      && CopyOriginals(t, cols) ==
           if NotDerived(col) then Assign(acc, OriginalName(col), acc.cols[col]) else acc
  {
  }

  /** The loop appends one fresh copy name per listed non-derived column, in order. */
  lemma {:induction false} CopyOriginalsNames(t: Table, cols: seq<Name>)
    requires WellFormed(t)
    requires forall i :: 0 <= i < |cols| ==> cols[i] in t.cols
    requires Distinct(cols)
    requires forall n :: n in t.cols ==> !EndsWith(n, OriginalSuffix)
    ensures CopyOriginals(t, cols).names == t.names + OriginalNames(Filter(cols, NotDerived))
    decreases |cols|
  {
    if |cols| > 0 {
      var pre := cols[..|cols| - 1];
      var col := cols[|cols| - 1];
      DistinctSnoc(cols);
      CopyOriginalsNames(t, pre);
      var copied := Filter(pre, NotDerived);
      assert Filter(cols, NotDerived) == copied + (if NotDerived(col) then [col] else []);
      CopyOriginalsStep(t, cols);
      var acc := CopyOriginals(t, pre);
      if NotDerived(col) {
        CopyNameIsFresh(t, pre, col);
        OriginalNamesSnoc(copied, col);
        assert CopyOriginals(t, cols).names == acc.names + [OriginalName(col)];
        AppendAssoc(t.names, OriginalNames(copied), [OriginalName(col)]);
      } else {
        assert copied + [] == copied;
      }
    } else {
      assert t.names + [] == t.names;
    }
  }

  /** The last iteration copies its column's values from before the loop. */
  lemma CopyOfLastColumn(t: Table, cols: seq<Name>)
    requires WellFormed(t)
    requires forall j :: 0 <= j < |cols| ==> cols[j] in t.cols
    requires forall n :: n in t.cols ==> !EndsWith(n, OriginalSuffix)
    requires |cols| > 0 && NotDerived(cols[|cols| - 1])
    ensures OriginalName(cols[|cols| - 1]) in CopyOriginals(t, cols).cols
    ensures CopyOriginals(t, cols).cols[OriginalName(cols[|cols| - 1])] == t.cols[cols[|cols| - 1]]
  {
    var pre := cols[..|cols| - 1];
    var col := cols[|cols| - 1];
    var acc := CopyOriginals(t, pre);
    CopyOriginalsStep(t, cols);
    CopyOriginalsKeepsColumns(t, pre);
    assert CopyOriginals(t, cols).cols == acc.cols[OriginalName(col) := acc.cols[col]];
  }

  /** The last iteration leaves the copy of any other column as it was. */
  lemma LastIterationKeepsCopy(t: Table, cols: seq<Name>, c: Name)
    requires WellFormed(t)
    requires forall j :: 0 <= j < |cols| ==> cols[j] in t.cols
    requires |cols| > 0 && c != cols[|cols| - 1]
    ensures var acc := CopyOriginals(t, cols[..|cols| - 1]);
      var r := CopyOriginals(t, cols);
      OriginalName(c) in acc.cols ==> OriginalName(c) in r.cols && r.cols[OriginalName(c)] == acc.cols[OriginalName(c)]
  {
    var col := cols[|cols| - 1];
    var acc := CopyOriginals(t, cols[..|cols| - 1]);
    CopyOriginalsStep(t, cols);
    if NotDerived(col) {
      assert OriginalName(c) != OriginalName(col) by {
        if OriginalName(c) == OriginalName(col) {
          OriginalNameInjective(c, col);
        }
      }
    }
  }

  /** The copy of the `i`-th listed column holds that column's values from before the loop. */
  lemma {:induction false} CopyOriginalsCopiesAt(t: Table, cols: seq<Name>, i: nat)
    requires WellFormed(t)
    requires forall j :: 0 <= j < |cols| ==> cols[j] in t.cols
    requires Distinct(cols)
    requires forall n :: n in t.cols ==> !EndsWith(n, OriginalSuffix)
    requires i < |cols| && NotDerived(cols[i])
    ensures OriginalName(cols[i]) in CopyOriginals(t, cols).cols
    ensures CopyOriginals(t, cols).cols[OriginalName(cols[i])] == t.cols[cols[i]]
    decreases |cols|
  {
    if i == |cols| - 1 {
      CopyOfLastColumn(t, cols);
    } else {
      var pre := cols[..|cols| - 1];
      assert cols[i] == pre[i];
      DistinctSnoc(cols);
      CopyOriginalsCopiesAt(t, pre, i);
      LastIterationKeepsCopy(t, cols, cols[i]);
    }
  }

  /** Each copy holds the values its column had before the loop. */
  lemma CopyOriginalsCopies(t: Table, cols: seq<Name>)
    requires WellFormed(t)
    requires forall i :: 0 <= i < |cols| ==> cols[i] in t.cols
    requires Distinct(cols)
    requires forall n :: n in t.cols ==> !EndsWith(n, OriginalSuffix)
    ensures forall i :: 0 <= i < |cols| && NotDerived(cols[i]) ==>
              && OriginalName(cols[i]) in CopyOriginals(t, cols).cols
              && CopyOriginals(t, cols).cols[OriginalName(cols[i])] == t.cols[cols[i]]
  {
    forall i | 0 <= i < |cols| && NotDerived(cols[i])
      ensures OriginalName(cols[i]) in CopyOriginals(t, cols).cols
      ensures CopyOriginals(t, cols).cols[OriginalName(cols[i])] == t.cols[cols[i]]
    {
      CopyOriginalsCopiesAt(t, cols, i);
    }
  }

  /** The copy loop over a repeat-free list naming every numeric column, on a
      table with no `_original` column yet: existing columns are untouched,
      the copy names are appended in list order, and each numeric column
      other than the derived time fields gains a copy of its values. */
  lemma CopyNumericColumns(t: Table, numeric: seq<Name>)
    requires WellFormed(t)
    requires forall i :: 0 <= i < |numeric| ==> numeric[i] in t.cols && t.cols[numeric[i]].Numbers?
    requires forall n :: IsNumeric(t, n) ==> n in numeric
    requires Distinct(numeric)
    requires forall n :: n in t.cols ==> !EndsWith(n, OriginalSuffix)
    ensures var r := CopyOriginals(t, numeric);
      && r.names == t.names + OriginalNames(Filter(numeric, NotDerived))
      && (forall n :: n in t.cols ==> r.cols[n] == t.cols[n])
      && (forall n :: IsNumeric(t, n) && NotDerived(n) ==>
            OriginalName(n) in r.cols && r.cols[OriginalName(n)] == t.cols[n])
  {
    var r := CopyOriginals(t, numeric);
    CopyOriginalsNames(t, numeric);
    CopyOriginalsKeepsColumns(t, numeric);
    forall n | IsNumeric(t, n) && NotDerived(n)
      ensures OriginalName(n) in r.cols && r.cols[OriginalName(n)] == t.cols[n]
    {
      var i :| 0 <= i < |numeric| && numeric[i] == n;
      CopyOriginalsCopiesAt(t, numeric, i);
    }
  }

  /** `normalize_features` as a whole, for a table with no `_original`
      column yet: existing columns are untouched, and each numeric column
      other than the derived time fields gains a copy of its values, the
      copies appended after the existing columns in column order. */
  lemma NormalizeFeaturesSpec(t: Table)
    requires WellFormed(t)
    requires forall n :: n in t.cols ==> !EndsWith(n, OriginalSuffix)
    ensures var r := NormalizeFeatures(t);
      && r.names == t.names + OriginalNames(Filter(NumericColumns(t), NotDerived))
      && (forall n :: n in t.cols ==> r.cols[n] == t.cols[n])
      && (forall n :: IsNumeric(t, n) && NotDerived(n) ==>
            OriginalName(n) in r.cols && r.cols[OriginalName(n)] == t.cols[n])
  {
    CopyNumericColumns(t, NumericColumns(t));
  }

  /** A name without the suffix does not end in it twice. */
  lemma PlainNameNotDoubled(n: Name)
    ensures !EndsWith(n, OriginalSuffix) ==> !EndsWith(n, OriginalSuffix + OriginalSuffix)
  {
    var k := |OriginalSuffix|;
    if EndsWith(n, OriginalSuffix + OriginalSuffix) {
      assert n[|n| - k..] == (OriginalSuffix + OriginalSuffix)[k..];
    }
  }

  /** The copy name of a name without the suffix does not end in it twice. */
  lemma CopyNameNotDoubled(n: Name)
    ensures !EndsWith(n, OriginalSuffix) ==> !EndsWith(OriginalName(n), OriginalSuffix + OriginalSuffix)
  {
    if EndsWith(OriginalName(n), OriginalSuffix + OriginalSuffix) {
      DoubleSuffixNeedsSuffixedColumn(n);
    }
  }

  /** The column list is fixed before the loop, so copies are never copied
      again: starting from a table with no `_original` column, no column
      name ends in the suffix twice. */
  lemma NoCopyOfCopy(t: Table)
    requires WellFormed(t)
    requires forall n :: n in t.cols ==> !EndsWith(n, OriginalSuffix)
    ensures forall n :: n in NormalizeFeatures(t).names ==> !EndsWith(n, OriginalSuffix + OriginalSuffix)
  {
    var numeric := NumericColumns(t);
    var copied := Filter(numeric, NotDerived);
    var names := NormalizeFeatures(t).names;
    CopyOriginalsNames(t, numeric);
    assert names == t.names + OriginalNames(copied);
    forall n | n in names
      ensures !EndsWith(n, OriginalSuffix + OriginalSuffix)
    {
      if n in t.names {
        PlainNameNotDoubled(n);
      } else {
        var k :| 0 <= k < |copied| && OriginalNames(copied)[k] == n;
        assert copied[k] in numeric;
        CopyNameNotDoubled(copied[k]);
      }
    }
  }

  /** Both columns of the table in ExistingCopyIsOverwritten are numeric. */
  lemma BothColumnsNumeric(c: Name, a: seq<real>, b: seq<real>)
    ensures var t := Table([c, OriginalName(c)], map[c := Numbers(a), OriginalName(c) := Numbers(b)]);
      WellFormed(t) ==> NumericColumns(t) == [c, OriginalName(c)]
  {
    var c1 := OriginalName(c);
    var t := Table([c, c1], map[c := Numbers(a), c1 := Numbers(b)]);
    if WellFormed(t) {
      assert IsNumeric(t, c) && IsNumeric(t, c1);
      assert t.names[..1] == [c];
      assert [c][..0] == [];
    }
  }

  /** The copy loop over the two columns of ExistingCopyIsOverwritten, one
      iteration at a time. */
  lemma CopyPairInOrder(c: Name, a: seq<real>, b: seq<real>)
    requires NotDerived(c) && NotDerived(OriginalName(c))
    ensures var c1 := OriginalName(c);
      var t := Table([c, c1], map[c := Numbers(a), c1 := Numbers(b)]);
      WellFormed(t) ==>
        CopyOriginals(t, [c, c1]) == Assign(Assign(t, c1, Numbers(a)), OriginalName(c1), Numbers(a))
  {
    var c1 := OriginalName(c);
    var t := Table([c, c1], map[c := Numbers(a), c1 := Numbers(b)]);
    if WellFormed(t) {
      assert CopyOriginals(t, [c]) == Assign(t, c1, Numbers(a)) by {
        assert [c][..0] == [];
        CopyOriginalsStep(t, [c]);
      }
      assert [c, c1][..1] == [c];
      CopyOriginalsStep(t, [c, c1]);
    }
  }

  /** Without that precondition the loop behaves differently: when a numeric
      column `c` and a numeric column `c_original` both exist, the copy of `c`
      overwrites `c_original`, which is then copied on to
      `c_original_original`. */
  lemma ExistingCopyIsOverwritten(c: Name, a: seq<real>, b: seq<real>)
    requires NotDerived(c) && NotDerived(OriginalName(c))
    ensures var t := Table([c, OriginalName(c)], map[c := Numbers(a), OriginalName(c) := Numbers(b)]);
      var r := NormalizeFeatures(t);
      && r.names == [c, OriginalName(c), OriginalName(OriginalName(c))]
      && r.cols[OriginalName(c)] == Numbers(a)
      && r.cols[OriginalName(OriginalName(c))] == Numbers(a)
  {
    var c1 := OriginalName(c);
    var c2 := OriginalName(c1);
    var t := Table([c, c1], map[c := Numbers(a), c1 := Numbers(b)]);
    assert |c| < |c1| < |c2|;
    var r := Assign(Assign(t, c1, Numbers(a)), c2, Numbers(a));
    assert NormalizeFeatures(t) == r by {
      BothColumnsNumeric(c, a, b);
      CopyPairInOrder(c, a, b);
    }
  }
}
