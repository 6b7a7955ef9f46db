/** The meaning of the fixed SQL statements. A table is the sequence of its rows in id order;
    every statement is atomic. */
module Sql {
  import opened Types
  import opened Seqs

  /** The primary key: ids are distinct, and rows are listed by increasing id. */
  ghost predicate Sorted(log: seq<Row>) {
    forall i, j :: 0 <= i < j < |log| ==> log[i].id < log[j].id
  }

  /** Positive ids without a gap, which the alarm query's "x.id = y.id + 1" silently needs. */
  ghost predicate Contiguous(log: seq<Row>) {
    && (log != [] ==> log[0].id >= 1)
    && forall i :: 0 <= i < |log| ==> log[i].id == log[0].id + i
  }

  ghost predicate HasId(log: seq<Row>, id: int) {
    exists i :: 0 <= i < |log| && log[i].id == id
  }

  /** WF_counter never decreases with the id. */
  ghost predicate MonotoneCounters(log: seq<Row>) {
    forall i, j :: 0 <= i < j < |log| ==> log[i].counter <= log[j].counter
  }

  ghost predicate MonotoneDates(log: seq<Row>) {
    forall i, j :: 0 <= i < j < |log| ==> log[i].date <= log[j].date
  }

  /** The WHERE clauses of the fixed statements. */
  datatype Where =
    | Always
    | IdIs(id: int) | IdAtLeast(id: int) | IdAtMost(id: int)
    | DateAtLeast(date: int) | DateAtMost(date: int)
    | CounterAtLeast(counter: int) | CounterAtMost(counter: int)
  {
    predicate Holds(r: Row) {
      match this
      case Always => true
      case IdIs(k) => r.id == k
      case IdAtLeast(k) => r.id >= k
      case IdAtMost(k) => r.id <= k
      case DateAtLeast(d) => r.date >= d
      case DateAtMost(d) => r.date <= d
      case CounterAtLeast(c) => r.counter >= c
      case CounterAtMost(c) => r.counter <= c
    }
  }

  /** SELECT * ... WHERE p, in id order. */
  function Filter(log: seq<Row>, p: Where): seq<Row> {
    if log == [] then []
    else Filter(log[..|log| - 1], p) + if p.Holds(log[|log| - 1]) then [log[|log| - 1]] else []
  }

  /** SELECT min(id) ... WHERE p; None is SQL's NULL. */
  function MinId(log: seq<Row>, p: Where): Option<int> {
    if log == [] then None
    else
      var last := log[|log| - 1];
      var m := MinId(log[..|log| - 1], p);
      if p.Holds(last) && (m.None? || last.id < m.value) then Some(last.id) else m
  }

  /** SELECT max(id) ... WHERE p; None is SQL's NULL. */
  function MaxId(log: seq<Row>, p: Where): Option<int> {
    if log == [] then None
    else
      var last := log[|log| - 1];
      var m := MaxId(log[..|log| - 1], p);
      if p.Holds(last) && (m.None? || m.value < last.id) then Some(last.id) else m
  }

  /** The id an INTEGER PRIMARY KEY without AUTOINCREMENT gives the next row. */
  function NextId(log: seq<Row>): int {
    match MaxId(log, Always)
    case None => 1
    case Some(m) => m + 1
  }

  /** DELETE ... WHERE id < cut. */
  function DeleteBelow(log: seq<Row>, cut: int): seq<Row> {
    Filter(log, IdAtLeast(cut))
  }

  lemma ContiguousIsSorted(log: seq<Row>)
    requires Contiguous(log)
    ensures Sorted(log)
  {
  }

  lemma {:induction false} FilterMembers(log: seq<Row>, p: Where)
    ensures forall x :: x in Filter(log, p) <==> x in log && p.Holds(x)
  {
    if log != [] {
      var n := |log| - 1;
      FilterMembers(log[..n], p);
      InitAndLast(log);
    }
  }

  lemma {:induction false} FilterConcat(a: seq<Row>, b: seq<Row>, p: Where)
    ensures Filter(a + b, p) == Filter(a, p) + Filter(b, p)
  {
    if b == [] {
      assert a + b == a;
    } else {
      var n := |b| - 1;
      FilterConcat(a, b[..n], p);
      InitOfConcat(a, b);
    }
  }

  lemma {:induction false} FilterAll(s: seq<Row>, p: Where)
    requires forall x :: x in s ==> p.Holds(x)
    ensures Filter(s, p) == s
  {
    if s != [] {
      FilterAll(s[..|s| - 1], p);
      InitAndLast(s);
    }
  }

  lemma {:induction false} FilterNone(s: seq<Row>, p: Where)
    requires forall x :: x in s ==> !p.Holds(x)
    ensures Filter(s, p) == []
  {
    if s != [] { FilterNone(s[..|s| - 1], p); }
  }

  /** A condition that rejects one part of a table and accepts the rest keeps the rest as it is. */
  lemma FilterSuffix(a: seq<Row>, b: seq<Row>, p: Where)
    requires forall x :: x in a ==> !p.Holds(x)
    requires forall x :: x in b ==> p.Holds(x)
    ensures Filter(a + b, p) == b
  {
    FilterConcat(a, b, p);
    FilterNone(a, p);
    FilterAll(b, p);
  }

  lemma FilterFrom(log: seq<Row>, k: nat, p: Where)
    requires k <= |log|
    requires forall x :: x in log[..k] ==> !p.Holds(x)
    requires forall x :: x in log[k..] ==> p.Holds(x)
    ensures Filter(log, p) == log[k..]
  {
    SplitsAt(log, k);
    FilterSuffix(log[..k], log[k..], p);
  }

  lemma FilterPrefix(a: seq<Row>, b: seq<Row>, p: Where)
    requires forall x :: x in a ==> p.Holds(x)
    requires forall x :: x in b ==> !p.Holds(x)
    ensures Filter(a + b, p) == a
  {
    FilterConcat(a, b, p);
    FilterAll(a, p);
    FilterNone(b, p);
  }

  /** MinId is the least id among the rows satisfying p, and NULL if there is none. */
  lemma {:induction false} MinIdIsLeast(log: seq<Row>, p: Where)
    ensures var m := MinId(log, p);
            && (m.Some? <==> exists x :: x in log && p.Holds(x))
            && (m.Some? ==> exists x :: x in log && p.Holds(x) && x.id == m.value)
            && (m.Some? ==> forall x :: x in log && p.Holds(x) ==> m.value <= x.id)
  {
    if log != [] {
      var n := |log| - 1;
      MinIdIsLeast(log[..n], p);
      InitAndLast(log);
    }
  }

  lemma {:induction false} MaxIdIsGreatest(log: seq<Row>, p: Where)
    ensures var m := MaxId(log, p);
            && (m.Some? <==> exists x :: x in log && p.Holds(x))
            && (m.Some? ==> exists x :: x in log && p.Holds(x) && x.id == m.value)
            && (m.Some? ==> forall x :: x in log && p.Holds(x) ==> x.id <= m.value)
  {
    if log != [] {
      var n := |log| - 1;
      MaxIdIsGreatest(log[..n], p);
      InitAndLast(log);
    }
  }
}
