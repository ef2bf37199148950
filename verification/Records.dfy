/** Tables of fixed-size rows and the pieces of a record. */
module Records {
  import opened Bytes

  ghost predicate Uniform(rows: seq<seq<byte>>, size: nat) {
    forall i :: 0 <= i < |rows| ==> |rows[i]| == size
  }

  /** Rows one after the other. */
  function Join(rows: seq<seq<byte>>): (s: seq<byte>) {
    if rows == [] then [] else Join(rows[..|rows| - 1]) + rows[|rows| - 1]
  }

  lemma {:induction false} JoinSize(rows: seq<seq<byte>>, size: nat)
    requires Uniform(rows, size)
    ensures |Join(rows)| == Times(|rows|, size)
  {
    if rows != [] {
      JoinSize(rows[..|rows| - 1], size);
    }
  }

  /** Row `i` of a table. */
  function Row(s: seq<byte>, size: nat, i: nat): (r: seq<byte>)
    requires Times(i, size) + size <= |s|
    ensures |r| == size
  {
    s[Times(i, size)..Times(i, size) + size]
  }

  lemma {:induction false} TimesGrows(i: nat, n: nat, size: nat)
    requires i < n
    ensures Times(i, size) + size <= Times(n, size)
    decreases n
  {
    if i < n - 1 {
      TimesGrows(i, n - 1, size);
    }
  }

  lemma {:induction false} JoinAt(rows: seq<seq<byte>>, size: nat, i: nat)
    requires Uniform(rows, size) && i < |rows|
    ensures Times(i, size) + size <= |Join(rows)| && Row(Join(rows), size, i) == rows[i]
    decreases |rows|
  {
    var n := |rows| - 1;
    var head := rows[..n];
    JoinSize(head, size);
    if i < n {
      JoinAt(head, size, i);
      TimesGrows(i, n, size);
      assert Row(Join(rows), size, i) == Row(Join(head), size, i);
    }
  }

  ghost predicate IsRow(rows: seq<seq<byte>>, size: nat, s: seq<byte>, i: nat)
    requires i < |rows|
  {
    Times(i, size) + size <= |s| && rows[i] == Row(s, size, i)
  }

  lemma RowOfPrefix(rows: seq<seq<byte>>, size: nat, s: seq<byte>, n: nat, i: nat)
    requires i < n < |rows| && Times(n, size) <= |s| && IsRow(rows, size, s, i)
    ensures IsRow(rows[..n], size, s[..Times(n, size)], i)
  {
    hide Times;
    TimesGrows(i, n, size);
  }

  lemma TimesNext(n: nat, size: nat)
    requires n > 0
    ensures Times(n, size) == Times(n - 1, size) + size
  {
  }

  /** A string of whole rows is the table of its rows. */
  lemma {:induction false} JoinRows(rows: seq<seq<byte>>, size: nat, s: seq<byte>)
    requires |s| == Times(|rows|, size) && forall i :: 0 <= i < |rows| ==> IsRow(rows, size, s, i)
    ensures Join(rows) == s
    decreases |rows|
  {
    hide IsRow, Times;
    if rows == [] {
      TimesNone(size);
    } else {
      var n := |rows| - 1;
      TimesNext(|rows|, size);
      var t := s[..Times(n, size)];
      forall i | 0 <= i < n ensures IsRow(rows[..n], size, t, i) {
        RowOfPrefix(rows, size, s, n, i);
      }
      JoinRows(rows[..n], size, t);
      LastRow(rows, size, s);
    }
  }

  lemma LastRow(rows: seq<seq<byte>>, size: nat, s: seq<byte>)
    requires rows != [] && |s| == Times(|rows| - 1, size) + size && IsRow(rows, size, s, |rows| - 1)
    ensures s == s[..Times(|rows| - 1, size)] + rows[|rows| - 1]
  {
    hide Times;
  }

  lemma TimesNone(size: nat)
    ensures Times(0, size) == 0
  {
  }

  lemma JoinNothing()
    ensures Join([]) == []
  {
  }

  lemma JoinNext(rows: seq<seq<byte>>, i: nat)
    requires i < |rows|
    ensures Join(rows[..i + 1]) == Join(rows[..i]) + rows[i]
  {
    assert rows[..i + 1][..i] == rows[..i];
  }
}
