/** The three column names the program needs, and the check that they are
    all present in a table's header. */
module Columns {

  const Latitude: string := "Latitude"
  const Longitude: string := "Longitude"
  const ZipCode: string := "ZipCode"

  /** The required names, listed in sorted order. */
  const Required: seq<string> := [Latitude, Longitude, ZipCode]

  /** Python's `<` on strings: lexicographic by code point, a proper prefix
      coming first. */
  predicate StrLess(a: string, b: string)
    decreases |a|
  {
    if |a| == 0 then |b| > 0
    else if |b| == 0 then false
    else if a[0] == b[0] then StrLess(a[1..], b[1..])
    else a[0] < b[0]
  }

  /** Every earlier element is below every later one, as `sorted` leaves a
      list of distinct strings. */
  predicate StrictlySorted(s: seq<string>) {
    forall i, j :: 0 <= i < j < |s| ==> StrLess(s[i], s[j])
  }

  /** All three required names occur in the header. */
  predicate HasRequired(columns: seq<string>) {
    forall x :: x in Required ==> x in columns
  }

  lemma RequiredSorted()
    ensures StrictlySorted(Required)
  {
  }

  /** Keeps the elements of `names` that are not in `columns`, in order. */
  function Absent(names: seq<string>, columns: seq<string>): (r: seq<string>)
    ensures forall x :: x in r <==> x in names && x !in columns
    ensures StrictlySorted(names) ==> StrictlySorted(r)
  {
    if names == [] then []
    else
      var rest := Absent(names[1..], columns);
      assert StrictlySorted(names) ==> StrictlySorted(names[1..]) by {
        if StrictlySorted(names) { TailSorted(names); }
      }
      if names[0] in columns then rest
      else
        var r := [names[0]] + rest;
        assert StrictlySorted(names) ==> StrictlySorted(r) by {
          if StrictlySorted(names) {
            forall i, j | 0 <= i < j < |r| ensures StrLess(r[i], r[j]) {
              if i == 0 {
                assert r[j] in names[1..];
                var k :| 0 <= k < |names[1..]| && names[1..][k] == r[j];
                assert names[k + 1] == r[j];
              } else {
                assert r[i] == rest[i - 1] && r[j] == rest[j - 1];
              }
            }
          }
        }
        r
  }

  /** `sorted(req - set(df.columns))`: exactly the required names the header
      lacks, in sorted order; empty exactly when none is missing. */
  function MissingColumns(columns: seq<string>): (r: seq<string>)
    ensures forall x :: x in r <==> x in Required && x !in columns
    ensures StrictlySorted(r)
    ensures r == [] <==> HasRequired(columns)
  {
    RequiredSorted();
    var r := Absent(Required, columns);
    assert r != [] ==> r[0] in r;
    r
  }

  lemma {:induction false} StrLessAsymmetric(a: string, b: string)
    ensures !(StrLess(a, b) && StrLess(b, a))
    decreases |a|
  {
    if |a| > 0 && |b| > 0 && a[0] == b[0] {
      StrLessAsymmetric(a[1..], b[1..]);
    }
  }

  lemma TailSorted(s: seq<string>)
    requires StrictlySorted(s) && s != []
    ensures StrictlySorted(s[1..])
  {
  }

  lemma HeadIn(s: seq<string>)
    ensures s != [] ==> s[0] in s
  {
  }

  /** A strictly sorted list is determined by its elements. */
  lemma {:induction false} SortedUnique(a: seq<string>, b: seq<string>)
    requires StrictlySorted(a) && StrictlySorted(b)
    requires forall x :: x in a <==> x in b
    ensures a == b
    decreases |a|
  {
    HeadIn(a);
    HeadIn(b);
    if a != [] {
      var k :| 0 <= k < |b| && b[k] == a[0];
      var m :| 0 <= m < |a| && a[m] == b[0];
      StrLessAsymmetric(a[0], b[0]);
      assert a[0] == b[0];
      forall x ensures x in a[1..] <==> x in b[1..] {
        StrLessAsymmetric(a[0], x);
        if x in a[1..] {
          var i :| 0 <= i < |a[1..]| && a[1..][i] == x;
          assert a[i + 1] == x;
          assert x in b;
          var j :| 0 <= j < |b| && b[j] == x;
          assert b[1..][j - 1] == x;
        }
        if x in b[1..] {
          var j :| 0 <= j < |b[1..]| && b[1..][j] == x;
          assert b[j + 1] == x;
          assert x in a;
          var i :| 0 <= i < |a| && a[i] == x;
          assert a[1..][i - 1] == x;
        }
      }
      TailSorted(a);
      TailSorted(b);
      SortedUnique(a[1..], b[1..]);
      assert a == [a[0]] + a[1..] && b == [b[0]] + b[1..];
    }
  }

  /** The error payload is the one list `sorted` gives for the set of
      missing names. */
  lemma MissingColumnsIsSortedDifference(columns: seq<string>, s: seq<string>)
    requires StrictlySorted(s)
    requires forall x :: x in s <==> x in Required && x !in columns
    ensures s == MissingColumns(columns)
  {
    SortedUnique(s, MissingColumns(columns));
  }
}
