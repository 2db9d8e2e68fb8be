/** Tables of rows with a key, in the order of their keys (`BTreeMap`, and a vector sorted by name). */
module Tables {
  import opened Text

  predicate StrictlySorted<T>(rows: seq<(string, T)>) {
    forall i, j :: 0 <= i < j < |rows| ==> Less(rows[i].0, rows[j].0)
  }

  predicate HasKey<T>(rows: seq<(string, T)>, key: string) {
    exists i :: 0 <= i < |rows| && rows[i].0 == key
  }

  /** `BTreeMap::insert` of a key that is not there yet. */
  function Inserted<T>(rows: seq<(string, T)>, row: (string, T)): seq<(string, T)> {
    if rows == [] || Less(row.0, rows[0].0) then [row] + rows
    else [rows[0]] + Inserted(rows[1..], row)
  }

  lemma {:induction false} InsertedHolds<T>(rows: seq<(string, T)>, row: (string, T))
    ensures |Inserted(rows, row)| == |rows| + 1
    ensures forall r :: r in Inserted(rows, row) <==> r in rows || r == row
  {
    if rows != [] && !Less(row.0, rows[0].0) {
      InsertedHolds(rows[1..], row);
      assert rows == [rows[0]] + rows[1..];
    }
  }

  lemma {:induction false} InsertedSorted<T>(rows: seq<(string, T)>, row: (string, T))
    requires StrictlySorted(rows) && !HasKey(rows, row.0)
    ensures StrictlySorted(Inserted(rows, row))
  {
    if rows == [] {
    } else if Less(row.0, rows[0].0) {
      forall j | 0 <= j < |rows|
        ensures Less(row.0, rows[j].0)
      {
        if j > 0 {
          LessTransitive(row.0, rows[0].0, rows[j].0);
        }
      }
    } else {
      LessTotal(row.0, rows[0].0);
      assert rows[0].0 != row.0;
      assert forall i :: 0 <= i < |rows[1..]| ==> rows[1..][i] == rows[i + 1];
      InsertedSorted(rows[1..], row);
      BeforeInserted(rows[0].0, rows[1..], row);
    }
  }

  lemma {:induction false} BeforeInserted<T>(key: string, rows: seq<(string, T)>, row: (string, T))
    requires Less(key, row.0) && forall i :: 0 <= i < |rows| ==> Less(key, rows[i].0)
    ensures forall j :: 0 <= j < |Inserted(rows, row)| ==> Less(key, Inserted(rows, row)[j].0)
  {
    if rows != [] && !Less(row.0, rows[0].0) {
      BeforeInserted(key, rows[1..], row);
    }
  }

  lemma SortedHeadLeast<T>(rows: seq<(string, T)>, r: (string, T))
    requires StrictlySorted(rows) && r in rows
    ensures r == rows[0] || Less(rows[0].0, r.0)
  {
    var i :| 0 <= i < |rows| && rows[i] == r;
  }

  /** A sorted table is determined by the rows it holds. */
  lemma {:induction false} SortedUnique<T>(a: seq<(string, T)>, b: seq<(string, T)>)
    requires StrictlySorted(a) && StrictlySorted(b)
    requires forall r :: r in a <==> r in b
    ensures a == b
  {
    assert b != [] ==> b[0] in b;
    if a != [] {
      assert a[0] in b;
      assert b[0] in a;
      SortedHeadLeast(a, b[0]);
      SortedHeadLeast(b, a[0]);
      LessTotal(a[0].0, b[0].0);
      assert a[0] == b[0];
      forall r
        ensures r in a[1..] <==> r in b[1..]
      {
        TailWithoutHead(a, r);
        TailWithoutHead(b, r);
      }
      SortedUnique(a[1..], b[1..]);
      assert a == [a[0]] + a[1..] && b == [b[0]] + b[1..];
    }
  }

  lemma TailWithoutHead<T>(rows: seq<(string, T)>, r: (string, T))
    requires StrictlySorted(rows) && rows != []
    ensures r in rows[1..] <==> r in rows && r != rows[0]
  {
    LessTotal(rows[0].0, rows[0].0);
    if r in rows[1..] {
      var i :| 0 <= i < |rows[1..]| && rows[1..][i] == r;
      assert Less(rows[0].0, rows[i + 1].0);
    }
    if r in rows && r != rows[0] {
      var i :| 0 <= i < |rows| && rows[i] == r;
      assert rows[1..][i - 1] == r;
    }
  }
}
