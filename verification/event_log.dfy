/**
 * The publisher's event table: rows of (uri, event time). The table has an
 * index on the time but no primary key, so the same row may be stored twice.
 * The SQL statements the publisher issues are stated as functions over the
 * stored sequence; the table itself is an object whose rows change in place.
 */
module EventLog {

  datatype Row = Row(uri: string, time: int)

  /** The rows satisfying `keep`, in storage order (a SQL `WHERE`). */
  function Select(rows: seq<Row>, keep: Row -> bool): (out: seq<Row>)
    ensures |out| <= |rows|
    ensures forall i :: 0 <= i < |out| ==> keep(out[i])
    decreases |rows|
  {
    if rows == [] then []
    else
      var last := rows[|rows| - 1];
      Select(rows[..|rows| - 1], keep) + (if keep(last) then [last] else [])
  }

  /** The condition `event_time BETWEEN lo AND hi`: both ends inclusive. */
  function Between(lo: int, hi: int): Row -> bool {
    (r: Row) => lo <= r.time <= hi
  }

  /** The negation of `event_time < cutoff`. */
  function NotBefore(cutoff: int): Row -> bool {
    (r: Row) => !(r.time < cutoff)
  }

  /** The rows of `WHERE event_time BETWEEN lo AND hi`. */
  function Within(rows: seq<Row>, lo: int, hi: int): (out: seq<Row>)
    ensures forall i :: 0 <= i < |out| ==> lo <= out[i].time <= hi
  {
    Select(rows, Between(lo, hi))
  }

  /** What `DELETE ... WHERE event_time < cutoff` leaves behind. */
  function Kept(rows: seq<Row>, cutoff: int): (out: seq<Row>)
    ensures forall i :: 0 <= i < |out| ==> out[i].time >= cutoff
  {
    Select(rows, NotBefore(cutoff))
  }

  /** A `WHERE` keeps every copy of a row it accepts and no copy of one it rejects. */
  lemma {:induction false} SelectCount(rows: seq<Row>, keep: Row -> bool, x: Row)
    ensures multiset(Select(rows, keep))[x] == if keep(x) then multiset(rows)[x] else 0
    decreases |rows|
  {
    if rows != [] {
      var init, last := rows[..|rows| - 1], rows[|rows| - 1];
      SelectCount(init, keep, x);
      assert rows == init + [last];
    }
  }

  /** Filtering twice with the same condition is filtering once. */
  lemma {:induction false} SelectTwice(rows: seq<Row>, keep: Row -> bool, again: Row -> bool)
    requires forall r :: keep(r) ==> again(r)
    ensures Select(Select(rows, keep), again) == Select(rows, keep)
    decreases |rows|
  {
    if rows != [] {
      var init, last := rows[..|rows| - 1], rows[|rows| - 1];
      SelectTwice(init, keep, again);
      var s := Select(init, keep);
      if keep(last) {
        assert Select(rows, keep) == s + [last];
        SelectSnoc(s, last, again);
      } else {
        assert Select(rows, keep) == s;
      }
    } else {
      assert Select(rows, keep) == [];
    }
  }

  /** One step of `Select` on a sequence extended at its end. */
  lemma SelectSnoc(s: seq<Row>, last: Row, keep: Row -> bool)
    ensures Select(s + [last], keep) == Select(s, keep) + (if keep(last) then [last] else [])
  {
    assert (s + [last])[..|s|] == s;
  }

  /** Two filters that agree on every row select the same rows. */
  lemma {:induction false} SelectAgree(rows: seq<Row>, p: Row -> bool, q: Row -> bool)
    requires forall r :: p(r) == q(r)
    ensures Select(rows, p) == Select(rows, q)
    decreases |rows|
  {
    if rows != [] {
      SelectAgree(rows[..|rows| - 1], p, q);
    }
  }

  /** Filtering with `p` and then with `q` is filtering with both. */
  lemma {:induction false} SelectThen(rows: seq<Row>, p: Row -> bool, q: Row -> bool)
    ensures Select(Select(rows, p), q) == Select(rows, (r: Row) => p(r) && q(r))
    decreases |rows|
  {
    if rows != [] {
      var init, last := rows[..|rows| - 1], rows[|rows| - 1];
      SelectThen(init, p, q);
      var s := Select(init, p);
      if p(last) {
        assert Select(rows, p) == s + [last];
        SelectSnoc(s, last, q);
      } else {
        assert Select(rows, p) == s;
      }
    } else {
      assert Select(rows, p) == [];
    }
  }

  /** Pruning removes exactly the rows older than the cutoff, every copy of them,
      and keeps every copy of every other row, one at exactly the cutoff included. */
  lemma KeptExactly(rows: seq<Row>, cutoff: int, x: Row)
    ensures multiset(Kept(rows, cutoff))[x] == if x.time < cutoff then 0 else multiset(rows)[x]
  {
    SelectCount(rows, NotBefore(cutoff), x);
  }

  /** Pruning again at the same cutoff changes nothing. */
  lemma KeptIdempotent(rows: seq<Row>, cutoff: int)
    ensures Kept(Kept(rows, cutoff), cutoff) == Kept(rows, cutoff)
  {
    SelectTwice(rows, NotBefore(cutoff), NotBefore(cutoff));
  }

  /** Pruning at one cutoff and then at another is pruning once at the later one. */
  lemma KeptTwice(rows: seq<Row>, c1: int, c2: int)
    ensures Kept(Kept(rows, c1), c2) == Kept(rows, if c1 >= c2 then c1 else c2)
  {
    var c := if c1 >= c2 then c1 else c2;
    SelectThen(rows, NotBefore(c1), NotBefore(c2));
    SelectAgree(rows, (r: Row) => NotBefore(c1)(r) && NotBefore(c2)(r), NotBefore(c));
  }

  /** The range query's result holds exactly the stored rows in the window. */
  lemma WithinExactly(rows: seq<Row>, lo: int, hi: int, x: Row)
    ensures multiset(Within(rows, lo, hi))[x] == if lo <= x.time <= hi then multiset(rows)[x] else 0
  {
    SelectCount(rows, Between(lo, hi), x);
  }

  predicate SortedByTime(s: seq<Row>) {
    forall i, j :: 0 <= i < j < |s| ==> s[i].time <= s[j].time
  }

  /** Puts `r` after every row not later than it. */
  function InsertByTime(s: seq<Row>, r: Row): (out: seq<Row>)
    requires SortedByTime(s)
    ensures SortedByTime(out)
    ensures multiset(out) == multiset(s) + multiset{r}
    decreases |s|
  {
    if s == [] then [r]
    else if r.time < s[0].time then
      SortedCons(r, s);
      [r] + s
    else
      var rest := InsertByTime(s[1..], r);
      assert s == [s[0]] + s[1..];
      NoEarlierThan(rest, s[1..], r, s[0].time);
      SortedCons(s[0], rest);
      [s[0]] + rest
  }

  /** A row no later than any row of a sorted sequence can go in front of it. */
  lemma SortedCons(x: Row, t: seq<Row>)
    requires SortedByTime(t) && forall i :: 0 <= i < |t| ==> x.time <= t[i].time
    ensures SortedByTime([x] + t)
  {
    var u := [x] + t;
    forall i, j | 0 <= i < j < |u| ensures u[i].time <= u[j].time {
      assert u[j] == t[j - 1];
      if i > 0 { assert u[i] == t[i - 1]; }
    }
  }

  /** A rearrangement of rows no earlier than `b` has no row earlier than `b`. */
  lemma NoEarlierThan(t: seq<Row>, s: seq<Row>, r: Row, b: int)
    requires multiset(t) == multiset(s) + multiset{r}
    requires r.time >= b && forall i :: 0 <= i < |s| ==> s[i].time >= b
    ensures forall i :: 0 <= i < |t| ==> t[i].time >= b
  {
    forall i | 0 <= i < |t| ensures t[i].time >= b {
      assert t[i] in multiset(t);
      if t[i] != r {
        assert t[i] in multiset(s);
      }
    }
  }

  /** `ORDER BY event_time`; rows with equal times keep their storage order. */
  function SortByTime(s: seq<Row>): (out: seq<Row>)
    ensures SortedByTime(out)
    ensures multiset(out) == multiset(s)
    decreases |s|
  {
    if s == [] then []
    else
      var init, last := s[..|s| - 1], s[|s| - 1];
      assert s == init + [last];
      InsertByTime(SortByTime(init), last)
  }

  /** The table, updated in place by inserts and deletes. */
  class EventTable {
    var rows: seq<Row>

    constructor ()
      ensures rows == []
    {
      rows := [];
    }

    /** `INSERT ... (uri)`: the time column takes the current time. */
    method Insert(uri: string, now: int)
      modifies this
      ensures rows == old(rows) + [Row(uri, now)]
    {
      rows := rows + [Row(uri, now)];
    }

    /** `SELECT ... WHERE event_time BETWEEN lo AND hi ORDER BY event_time`. */
    method RangeQuery(lo: int, hi: int) returns (out: seq<Row>)
      ensures SortedByTime(out)
      ensures forall x :: multiset(out)[x] == if lo <= x.time <= hi then multiset(rows)[x] else 0
    {
      out := SortByTime(Within(rows, lo, hi));
      forall x ensures multiset(out)[x] == if lo <= x.time <= hi then multiset(rows)[x] else 0 {
        WithinExactly(rows, lo, hi, x);
      }
    }

    /** `DELETE ... WHERE event_time < cutoff`. */
    method DeleteBefore(cutoff: int)
      modifies this
      ensures rows == Kept(old(rows), cutoff)
    {
      rows := Kept(rows, cutoff);
    }
  }
}
