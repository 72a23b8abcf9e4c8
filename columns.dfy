/** Spreadsheet column names. The reader calls three column routines of
    the library's cell class, which is not part of this model:
    `stringFromColumnIndex` (0-based index to letters),
    `columnIndexFromString` (letters to 1-based index), and PHP's `++` on a
    column string. They are defined here as bijective base-26 naming with
    "A" for index 0, and proved to agree with each other. */
module Columns {

  /** Upper-case ASCII letters only. */
  predicate IsLetters(s: string) {
    forall k :: 0 <= k < |s| ==> 'A' <= s[k] <= 'Z'
  }

  /** A well-formed column name: one or more letters. */
  predicate IsColumnName(s: string) {
    |s| >= 1 && IsLetters(s)
  }

  /** `stringFromColumnIndex`: 0 -> "A", 25 -> "Z", 26 -> "AA", 701 -> "ZZ". */
  function ColumnName(i: nat): (r: string)
    ensures IsColumnName(r)
    decreases i
  {
    if i < 26 then [('A' as int + i) as char]
    else ColumnName(i / 26 - 1) + [('A' as int + i % 26) as char]
  }

  /** `columnIndexFromString`: "A" -> 1, "Z" -> 26, "AA" -> 27. */
  function ColumnIndex(s: string): int
    decreases |s|
  {
    if s == [] then 0
    else ColumnIndex(s[..|s| - 1]) * 26 + (s[|s| - 1] as int - 'A' as int + 1)
  }

  lemma {:induction false} ColumnIndexPositive(s: string)
    requires IsColumnName(s)
    ensures ColumnIndex(s) >= 1
    decreases |s|
  {
    if |s| > 1 {
      ColumnIndexPositive(s[..|s| - 1]);
    }
  }

  /** Naming a 0-based index and reading the name back gives the 1-based
      index: the two library routines are inverse to each other. */
  lemma {:induction false} IndexOfName(i: nat)
    ensures ColumnIndex(ColumnName(i)) == i + 1
    decreases i
  {
    if i >= 26 {
      var p := ColumnName(i / 26 - 1);
      var s := p + [('A' as int + i % 26) as char];
      assert s[..|s| - 1] == p;
      IndexOfName(i / 26 - 1);
      assert ColumnIndex(s) == (i / 26) * 26 + i % 26 + 1;
    }
  }

  /** Every well-formed column name is the name of exactly the index it
      denotes: the naming is a bijection between indices and names. */
  lemma {:induction false} NameOfIndex(s: string)
    requires IsColumnName(s)
    ensures ColumnIndex(s) >= 1
    ensures ColumnName(ColumnIndex(s) - 1) == s
    decreases |s|
  {
    var p := s[..|s| - 1];
    var d := s[|s| - 1] as int - 'A' as int;
    if |s| == 1 {
      assert [('A' as int + d) as char] == s;
    } else {
      NameOfIndex(p);
      var v := ColumnIndex(p) * 26 + d;
      assert ColumnIndex(s) - 1 == v;
      assert v / 26 == ColumnIndex(p) && v % 26 == d by {
        assert 0 <= d < 26;
      }
      assert ColumnName(v) == ColumnName(ColumnIndex(p) - 1) + [('A' as int + d) as char];
      assert p + [s[|s| - 1]] == s;
    }
  }

  lemma NameInjective(i: nat, j: nat)
    requires ColumnName(i) == ColumnName(j)
    ensures i == j
  {
    IndexOfName(i);
    IndexOfName(j);
  }

  /** PHP's `++` on a string of upper-case letters: the last letter steps
      forward, and a `Z` wraps to `A` with a carry ("Z" -> "AA",
      "AZ" -> "BA"). */
  function Succ(s: string): (r: string)
    requires IsColumnName(s)
    ensures IsColumnName(r)
    decreases |s|
  {
    var last := s[|s| - 1];
    if last != 'Z' then s[..|s| - 1] + [(last as int + 1) as char]
    else if |s| == 1 then "AA"
    else Succ(s[..|s| - 1]) + "A"
  }

  /** Incrementing the name of column `i` gives the name of column `i + 1`,
      so a column cursor kept as a string and stepped with `++` stays in
      step with an integer cursor. */
  lemma {:induction false} SuccName(i: nat)
    ensures Succ(ColumnName(i)) == ColumnName(i + 1)
    decreases i
  {
    if i >= 26 {
      var q := i / 26;
      var c := i % 26;
      var p := ColumnName(q - 1);
      var s := p + [('A' as int + c) as char];
      assert s == ColumnName(i);
      assert s[..|s| - 1] == p;
      if c < 25 {
        assert (i + 1) / 26 == q && (i + 1) % 26 == c + 1;
      } else {
        assert (i + 1) / 26 == q + 1 && (i + 1) % 26 == 0;
        SuccName(q - 1);
      }
    }
  }

  /** Stepping a column name `n` times forward. */
  function SuccN(s: string, n: nat): (r: string)
    requires IsColumnName(s)
    ensures IsColumnName(r)
    decreases n
  {
    if n == 0 then s else SuccN(Succ(s), n - 1)
  }

  lemma {:induction false} SuccNName(i: nat, n: nat)
    ensures SuccN(ColumnName(i), n) == ColumnName(i + n)
    decreases n
  {
    if n > 0 {
      SuccName(i);
      SuccNName(i + 1, n - 1);
    }
  }
}
