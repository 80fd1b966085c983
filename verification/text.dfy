/** Column-name tests: lower-casing and substring search. */
module Text {

  /** Lower-cases an ASCII capital letter; every other character is kept. */
  function LowerChar(c: char): char {
    if 'A' <= c <= 'Z' then (c as int - 'A' as int + 'a' as int) as char else c
  }

  /** Lower-casing a string, restricted to ASCII letters. */
  function Lower(s: string): (r: string)
    ensures |r| == |s|
    ensures forall i :: 0 <= i < |s| ==> r[i] == LowerChar(s[i])
  {
    seq(|s|, i requires 0 <= i < |s| => LowerChar(s[i]))
  }

  /** `p` occurs in `s` starting at position `i`. */
  ghost predicate OccursAt(s: string, p: string, i: int) {
    0 <= i && i + |p| <= |s| && s[i..i + |p|] == p
  }

  /** Python's `p in s` on strings: `p` occurs somewhere in `s`. */
  function Contains(s: string, p: string): (r: bool)
    ensures r <==> exists i :: OccursAt(s, p, i)
    decreases |s|
  {
    if |p| > |s| then
      assert forall i :: !OccursAt(s, p, i);
      false
    else if s[..|p|] == p then
      assert OccursAt(s, p, 0);
      true
    else
      var rest := Contains(s[1..], p);
      assert forall i :: OccursAt(s[1..], p, i) ==> OccursAt(s, p, i + 1) by {
        forall i | OccursAt(s[1..], p, i) ensures OccursAt(s, p, i + 1) {
          assert s[1..][i..i + |p|] == s[i + 1..i + 1 + |p|];
        }
      }
      assert forall i :: OccursAt(s, p, i) ==> OccursAt(s[1..], p, i - 1) by {
        forall i | OccursAt(s, p, i) ensures OccursAt(s[1..], p, i - 1) {
          assert i != 0;
          assert s[1..][i - 1..i - 1 + |p|] == s[i..i + |p|];
        }
      }
      rest
  }

  /** A string that lacks one of the characters of `p` does not contain `p`. */
  lemma MissingCharNotContained(s: string, p: string, c: char)
    requires c in p
    requires c !in s
    ensures !Contains(s, p)
  {
    forall i | 0 <= i ensures !OccursAt(s, p, i) {
      if i + |p| <= |s| {
        assert c !in s[i..i + |p|];
      }
    }
  }

  /** A column holds dates or times when its lower-cased name contains
      "date" or "time". */
  predicate IsDateColumn(name: string) {
    Contains(Lower(name), "date") || Contains(Lower(name), "time")
  }

  /** A lower-case letter absent from a name in both cases is absent from
      the lower-cased name. */
  lemma AbsentFromLower(name: string, c: char)
    requires 'a' <= c <= 'z'
    requires c !in name
    requires (c as int - 'a' as int + 'A' as int) as char !in name
    ensures c !in Lower(name)
  {
    forall i | 0 <= i < |name| ensures Lower(name)[i] != c {
      assert name[i] != c;
    }
  }

  /** A name lacking, in both cases, one letter of "date" and one letter of
      "time" is not a date column. */
  lemma NotDateColumn(name: string, d: char, t: char)
    requires d in "date" && t in "time"
    requires 'a' <= d <= 'z' && 'a' <= t <= 'z'
    requires d !in name && (d as int - 'a' as int + 'A' as int) as char !in name
    requires t !in name && (t as int - 'a' as int + 'A' as int) as char !in name
    ensures !IsDateColumn(name)
  {
    AbsentFromLower(name, d);
    AbsentFromLower(name, t);
    MissingCharNotContained(Lower(name), "date", d);
    MissingCharNotContained(Lower(name), "time", t);
  }

  /** The test ignores case and finds the marker anywhere in the name. */
  lemma DateColumnExamples()
    ensures IsDateColumn("DATE_TIME")
    ensures IsDateColumn("Timestamp")
    ensures IsDateColumn("update_date")
    ensures !IsDateColumn("AVERAGE_SPEED")
  {
    assert Lower("DATE_TIME")[..4] == "date";
    assert OccursAt(Lower("DATE_TIME"), "date", 0);
    assert Lower("Timestamp")[..4] == "time";
    assert OccursAt(Lower("Timestamp"), "time", 0);
    assert Lower("update_date")[2..6] == "date";
    assert OccursAt(Lower("update_date"), "date", 2);
    NotDateColumn("AVERAGE_SPEED", 't', 't');
  }
}
