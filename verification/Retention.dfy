/** The bounded log: DB_AddRow's four SQL statements, each of which can fail, and what any
    sequence of calls makes of the table. */
module Retention {
  import opened Types
  import opened Sql
  import opened Seqs

  /** How many rows are kept, and how many more start a cut. */
  datatype Limits = Limits(maxRows: int, threshold: int) {
    predicate Valid() {
      maxRows >= 1 && threshold >= 2
    }

    function Bound(): int {
      maxRows + threshold
    }
  }

  const SOURCE_LIMITS := Limits(1000000, 100)

  /** Which of the four statements of one call succeed. */
  datatype Outcome = Outcome(insertOk: bool, countOk: bool, minOk: bool, deleteOk: bool)

  /** One call: the values in memory, the date the INSERT reads off the clock, the outcome. */
  datatype Call = Call(mem: Mem, date: int, out: Outcome)

  const ALL_OK := Outcome(true, true, true, true)

  ghost predicate AllOk(calls: seq<Call>) {
    forall c :: c in calls ==> c.out == ALL_OK
  }

  /** The row, if any, that the INSERT of one call adds to a table. */
  function Inserted(log: seq<Row>, c: Call): seq<Row> {
    if c.out.insertOk then [RowOf(c.mem, NextId(log), c.date)] else []
  }

  /** The statements after the INSERT: count, find the oldest id, delete a band. */
  function Trim(lim: Limits, log: seq<Row>, out: Outcome): (seq<Row>, int) {
    if !out.countOk then (log, 2)
    else if |log| < lim.Bound() then (log, 0)
    else if !out.minOk || MinId(log, Always).None? then (log, 3)
    else if !out.deleteOk then (log, 4)
    else (DeleteBelow(log, MinId(log, Always).value + lim.threshold), 0)
  }

  /** The table and the return code after the SQL part of one DB_AddRow call. */
  function Append(lim: Limits, log: seq<Row>, c: Call): (seq<Row>, int) {
    if c.out.insertOk then Trim(lim, log + Inserted(log, c), c.out) else (log, 1)
  }

  function LogAfter(lim: Limits, log: seq<Row>, calls: seq<Call>): seq<Row> {
    if calls == [] then log
    else Append(lim, LogAfter(lim, log, calls[..|calls| - 1]), calls[|calls| - 1]).0
  }

  /** Every row the calls inserted, whether or not it is still in the table. */
  function Accepted(lim: Limits, log: seq<Row>, calls: seq<Call>): seq<Row> {
    if calls == [] then []
    else Accepted(lim, log, calls[..|calls| - 1]) +
         Inserted(LogAfter(lim, log, calls[..|calls| - 1]), calls[|calls| - 1])
  }

  /** One call more. */
  lemma CallSnoc(lim: Limits, log: seq<Row>, calls: seq<Call>, c: Call)
    ensures LogAfter(lim, log, calls + [c]) == Append(lim, LogAfter(lim, log, calls), c).0
    ensures Accepted(lim, log, calls + [c]) == Accepted(lim, log, calls) + Inserted(LogAfter(lim, log, calls), c)
  {
    hide Append, Inserted;
    InitOfConcat(calls, [c]);
    EmptyIsNeutral(calls);
  }

  lemma OneCall(lim: Limits, log: seq<Row>, c: Call)
    ensures LogAfter(lim, log, [c]) == Append(lim, log, c).0
    ensures Accepted(lim, log, [c]) == Inserted(log, c)
  {
    hide Append, Inserted;
    CallSnoc(lim, log, [], c);
    EmptyIsNeutral([c]);
    EmptyIsNeutral(Inserted(log, c));
  }

  /** Some calls and then some more. */
  lemma {:induction false} LogAfterMore(lim: Limits, log: seq<Row>, calls: seq<Call>, more: seq<Call>)
    ensures LogAfter(lim, log, calls + more) == LogAfter(lim, LogAfter(lim, log, calls), more)
    decreases |more|
  {
    hide Append;
    if more == [] {
      EmptyIsNeutral(calls);
    } else {
      LogAfterMore(lim, log, calls, more[..|more| - 1]);
      InitOfConcat(calls, more);
    }
  }

  lemma NextIdIsLastPlusOne(log: seq<Row>)
    requires Contiguous(log)
    ensures NextId(log) == if log == [] then 1 else log[|log| - 1].id + 1
  {
    MaxIdIsGreatest(log, Always);
    if log != [] { assert log[|log| - 1] in log; }
  }

  lemma OldestIsFirst(log: seq<Row>)
    requires Contiguous(log) && log != []
    ensures MinId(log, Always) == Some(log[0].id)
  {
    hide MinId;
    MinIdIsLeast(log, Always);
    assert log[0] in log;
  }

  /** On gapless ids the DELETE removes the oldest t rows, no more and no fewer. */
  lemma CutIsBand(log: seq<Row>, t: nat)
    requires Contiguous(log) && t <= |log| && log != []
    ensures MinId(log, Always) == Some(log[0].id)
    ensures DeleteBelow(log, log[0].id + t) == log[t..]
  {
    OldestIsFirst(log);
    BandSplits(log, t);
    hide Contiguous, MinId, Filter;
    FilterFrom(log, t, IdAtLeast(log[0].id + t));
  }

  lemma BandSplits(log: seq<Row>, t: nat)
    requires Contiguous(log) && t <= |log| && log != []
    ensures forall x :: x in log[..t] ==> x.id < log[0].id + t
    ensures forall x :: x in log[t..] ==> x.id >= log[0].id + t
  {
  }

  /** One call on a gapless table: what it stores and what it cuts. */
  lemma AppendEffect(lim: Limits, log: seq<Row>, c: Call)
    requires lim.Valid() && Contiguous(log)
    ensures var grown := log + Inserted(log, c);
            && Contiguous(grown)
            && Append(lim, log, c).0 ==
               if c.out == ALL_OK && |grown| >= lim.Bound() then grown[lim.threshold..] else grown
  {
    NextIdIsLastPlusOne(log);
    hide NextId, RowOf, MinId, Filter;
    var grown := log + Inserted(log, c);
    if c.out.insertOk && |grown| >= lim.Bound() {
      CutIsBand(grown, lim.threshold);
    }
  }

  /** The codes one call returns, and the row it stores, column by column. */
  lemma AppendMeans(lim: Limits, log: seq<Row>, c: Call)
    requires lim.Valid()
    ensures Append(lim, log, c).1 ==
              if !c.out.insertOk then 1
              else if !c.out.countOk then 2
              else if |log| + 1 < lim.maxRows + lim.threshold then 0
              else if !c.out.minOk then 3
              else if !c.out.deleteOk then 4
              else 0
    ensures Contiguous(log) ==>
              var id := if log == [] then 1 else log[|log| - 1].id + 1;
              var m := c.mem;
              var grown := log + [Row(id, c.date, m.counter, m.capacity, m.capacityAvg, m.volume, m.timeouts,
                                      SignExtend(m.alarms))];
              Append(lim, log, c).0 ==
                if !c.out.insertOk then log
                else if c.out == ALL_OK && |grown| >= lim.maxRows + lim.threshold then grown[lim.threshold..]
                else grown
  {
    hide NextId, MinId, Filter, SignExtend, Contiguous;
    if Contiguous(log) {
      NextIdIsLastPlusOne(log);
      AppendEffect(lim, log, c);
    }
    var grown := log + Inserted(log, c);
    MinIdIsLeast(grown, Always);
    assert grown != [] ==> grown[|grown| - 1] in grown;
    EmptyIsNeutral(log);
  }

  // ---------- every run, whatever fails ----------

  /** The table is the end of everything accepted, with at least min(accepted, maxRows) rows. */
  ghost predicate Retained(lim: Limits, log: seq<Row>, all: seq<Row>) {
    && Contiguous(all)
    && EndsWith(all, log)
    && |log| >= if |all| < lim.maxRows then |all| else lim.maxRows
  }

  lemma RetainedIsContiguous(lim: Limits, log: seq<Row>, all: seq<Row>)
    requires Retained(lim, log, all)
    ensures Contiguous(log)
  {
  }

  lemma ContiguousSnoc(s: seq<Row>, r: Row)
    requires Contiguous(s) && r.id == (if s == [] then 1 else s[|s| - 1].id + 1)
    ensures Contiguous(s + [r])
  {
  }

  lemma AppendRetains(lim: Limits, log: seq<Row>, all: seq<Row>, c: Call)
    requires lim.Valid() && Retained(lim, log, all)
    ensures Contiguous(log)
    ensures Retained(lim, Append(lim, log, c).0, all + Inserted(log, c))
  {
    RetainedIsContiguous(lim, log, all);
    NextIdIsLastPlusOne(log);
    AppendEffect(lim, log, c);
    var added := Inserted(log, c);
    EndExtends(all, log, added);
    hide Append, NextId, EndsWith, Contiguous, RowOf;
    assert Contiguous(all + added) by {
      if c.out.insertOk {
        ContiguousSnoc(all, RowOf(c.mem, NextId(log), c.date));
      } else {
        EmptyIsNeutral(all);
      }
    }
    if c.out == ALL_OK && |log + added| >= lim.Bound() {
      EndShrinks(all + added, log + added, lim.threshold);
    }
  }

  /** Ids are gapless and never reused, the table is a suffix of everything ever accepted, and
      the newest min(accepted, maxRows) rows are always still there. */
  lemma {:induction false} SuffixOfHistory(lim: Limits, log: seq<Row>, calls: seq<Call>)
    requires lim.Valid() && Contiguous(log)
    ensures Retained(lim, LogAfter(lim, log, calls), log + Accepted(lim, log, calls))
    ensures Contiguous(LogAfter(lim, log, calls))
    decreases |calls|
  {
    if calls == [] {
      EmptyIsNeutral(log);
    } else {
      var n := |calls| - 1;
      var before := LogAfter(lim, log, calls[..n]);
      var acc := Accepted(lim, log, calls[..n]);
      SuffixOfHistory(lim, log, calls[..n]);
      hide Append, Inserted, Retained, Contiguous;
      AppendRetains(lim, before, log + acc, calls[n]);
      ConcatAssociates(log, acc, Inserted(before, calls[n]));
      RetainedIsContiguous(lim, LogAfter(lim, log, calls), log + Accepted(lim, log, calls));
    }
  }

  /** No more rows than calls, and as many when every INSERT succeeds. */
  lemma {:induction false} AcceptedCount(lim: Limits, log: seq<Row>, calls: seq<Call>)
    ensures |Accepted(lim, log, calls)| <= |calls|
    ensures (forall c :: c in calls ==> c.out.insertOk) ==> |Accepted(lim, log, calls)| == |calls|
    decreases |calls|
  {
    if calls != [] {
      AcceptedCount(lim, log, calls[..|calls| - 1]);
      InitAndLast(calls);
    }
  }

  /** With maxRows = 0 a cut can empty the table, and SQLite then starts again at id 1. */
  lemma EmptyingReusesIds(c: Call)
    requires c.out == ALL_OK
    ensures Accepted(Limits(0, 2), [], [c, c, c]) ==
              [RowOf(c.mem, 1, c.date), RowOf(c.mem, 2, c.date), RowOf(c.mem, 1, c.date)]
  {
    var lim := Limits(0, 2);
    FirstTwo(c);
    hide LogAfter, Accepted, Append;
    OneCall(lim, [], c);
    CallSnoc(lim, [], [c], c);
    CallSnoc(lim, [], [c, c], c);
    assert [c] + [c] == [c, c] && [c, c] + [c] == [c, c, c];
  }

  lemma FirstTwo(c: Call)
    requires c.out == ALL_OK
    ensures var lim := Limits(0, 2);
            var r1 := RowOf(c.mem, 1, c.date);
            && Inserted([], c) == [r1] && Append(lim, [], c).0 == [r1]
            && Inserted([r1], c) == [RowOf(c.mem, 2, c.date)] && Append(lim, [r1], c).0 == []
  {
    var r1, r2 := RowOf(c.mem, 1, c.date), RowOf(c.mem, 2, c.date);
    EmptyIsNeutral([r1]);
    NextIdIsLastPlusOne([r1]);
    assert [r1] + [r2] == [r1, r2];
    CutIsBand([r1, r2], 2);
  }

  // ---------- runs in which nothing fails ----------

  /** How many rows have been cut once n rows were accepted. */
  function CutAfter(lim: Limits, n: nat): int
    requires lim.Valid()
  {
    if n < lim.maxRows then 0 else lim.threshold * ((n - lim.maxRows) / lim.threshold)
  }

  /** The cut point moves by one band exactly when the table would reach the bound. */
  lemma CutStep(lim: Limits, n: nat)
    requires lim.Valid()
    ensures 0 <= CutAfter(lim, n) <= n && (n > 0 ==> CutAfter(lim, n) < n)
    ensures n - CutAfter(lim, n) < lim.Bound()
    ensures CutAfter(lim, n + 1) == CutAfter(lim, n) +
              if n + 1 - CutAfter(lim, n) >= lim.Bound() then lim.threshold else 0
  {
    var t := lim.threshold;
    if n >= lim.maxRows {
      DivStep(n - lim.maxRows, t);
    } else if n + 1 == lim.maxRows {
      QuotientIs(0, t, 0, 0);
    }
  }

  /** The quotient moves exactly when the remainder is full. */
  lemma DivStep(d: nat, t: int)
    requires t > 0
    ensures 0 <= t * (d / t) <= d && d - t * (d / t) < t
    ensures t * ((d + 1) / t) == t * (d / t) + if d + 1 - t * (d / t) == t then t else 0
  {
    var q, r := d / t, d % t;
    assert d == t * q + r;
    assert t * (q + 1) == t * q + t;
    if q < 0 { MulMono(t, q, -1); }
    if q >= 0 { MulMono(t, 0, q); }
    if r + 1 == t {
      QuotientIs(d + 1, t, q + 1, 0);
    } else {
      QuotientIs(d + 1, t, q, r + 1);
    }
  }

  lemma QuotientIs(x: int, t: int, q: int, r: int)
    requires t > 0 && x == t * q + r && 0 <= r < t
    ensures x / t == q
  {
    var q', r' := x / t, x % t;
    assert x == t * q' + r';
    if q > q' { MulMono(t, 1, q - q'); }
    if q < q' { MulMono(t, 1, q' - q); }
  }

  lemma MulMono(t: int, a: int, b: int)
    requires t >= 0 && a <= b
    ensures t * a <= t * b
  {
  }

  /** Row number i (from 1) has id i and the values and date of call number i. */
  ghost predicate Numbered(hist: seq<Row>, calls: seq<Call>) {
    && |hist| == |calls|
    && forall i :: 0 <= i < |calls| ==> hist[i] == RowOf(calls[i].mem, i + 1, calls[i].date)
  }

  lemma NumberedStep(hist: seq<Row>, calls: seq<Call>)
    requires calls != [] && Numbered(hist, calls[..|calls| - 1])
    ensures var c := calls[|calls| - 1]; Numbered(hist + [RowOf(c.mem, |calls|, c.date)], calls)
  {
  }

  /** Closed form: from an empty table, n successful calls leave the history without its first
      CutAfter(n) rows; row number i has id i; the size stays below the bound. */
  lemma {:induction false} ClosedForm(lim: Limits, calls: seq<Call>)
    requires lim.Valid() && AllOk(calls)
    ensures var hist := Accepted(lim, [], calls);
            && Numbered(hist, calls)
            && 0 <= CutAfter(lim, |calls|) <= |hist|
            && LogAfter(lim, [], calls) == hist[CutAfter(lim, |calls|)..]
            && |LogAfter(lim, [], calls)| < lim.Bound()
    decreases |calls|
  {
    CutStep(lim, |calls|);
    if calls != [] {
      var n := |calls| - 1;
      ClosedForm(lim, calls[..n]);
      assert calls[n] in calls;
      ClosedFormStep(lim, Accepted(lim, [], calls[..n]), calls[n]);
      NumberedStep(Accepted(lim, [], calls[..n]), calls);
      hide CutAfter, Numbered, Append, Inserted;
    }
  }

  /** With the program's own constants: nothing is cut up to 1,000,099 rows, one more leaves a million, and
      from then on the size stays between the two, the newest row being number |calls|. */
  lemma SourceBound(calls: seq<Call>)
    requires AllOk(calls) && calls != []
    ensures var log := LogAfter(SOURCE_LIMITS, [], calls);
            && |log| <= 1000099
            && (|calls| >= 1000000 ==> |log| >= 1000000)
            && (|calls| <= 1000099 ==> |log| == |calls|)
            && (|calls| == 1000100 ==> |log| == 1000000)
            && log != [] && log[|log| - 1].id == |calls|
  {
    hide LogAfter, Accepted, CutAfter, Contiguous;
    CutStep(SOURCE_LIMITS, |calls|);
    SourceCuts();
    ClosedForm(SOURCE_LIMITS, calls);
    assert Contiguous([]) by { EmptyIsContiguous(); }
    SuffixOfHistory(SOURCE_LIMITS, [], calls);
    EmptyIsNeutral(Accepted(SOURCE_LIMITS, [], calls));
  }

  lemma SourceCuts()
    ensures forall n: nat :: n <= 1000099 ==> CutAfter(SOURCE_LIMITS, n) == 0
    ensures CutAfter(SOURCE_LIMITS, 1000100) == 100
  {
    forall n: nat | n <= 1000099 ensures CutAfter(SOURCE_LIMITS, n) == 0 {
      if n >= 1000000 { QuotientIs(n - 1000000, 100, 0, n - 1000000); }
    }
  }

  lemma EmptyIsContiguous()
    ensures Contiguous([])
  {
  }

  lemma ClosedFormStep(lim: Limits, hist: seq<Row>, c: Call)
    requires lim.Valid() && c.out == ALL_OK
    requires 0 <= CutAfter(lim, |hist|) <= |hist|
    requires forall i :: 0 <= i < |hist| ==> hist[i].id == i + 1
    ensures var log := hist[CutAfter(lim, |hist|)..];
            && Inserted(log, c) == [RowOf(c.mem, |hist| + 1, c.date)]
            && 0 <= CutAfter(lim, |hist| + 1) <= |hist| + 1
            && Append(lim, log, c).0 == (hist + Inserted(log, c))[CutAfter(lim, |hist| + 1)..]
  {
    hide Append, NextId, CutAfter, Contiguous;
    var n, k := |hist|, CutAfter(lim, |hist|);
    var log := hist[k..];
    CutStep(lim, n);
    CutStep(lim, n + 1);
    SuffixOfNumbered(hist, k);
    NextIdIsLastPlusOne(log);
    AppendEffect(lim, log, c);
    SuffixSnoc(hist, k, Inserted(log, c));
  }

  lemma SuffixOfNumbered(hist: seq<Row>, k: nat)
    requires k <= |hist| && forall i :: 0 <= i < |hist| ==> hist[i].id == i + 1
    ensures Contiguous(hist[k..])
    ensures k < |hist| ==> hist[k..][|hist[k..]| - 1].id == |hist|
  {
  }

  /** The table's size after n more successful calls. */
  function SizeAfter(lim: Limits, size: int, n: nat): int {
    if n == 0 then size
    else if SizeAfter(lim, size, n - 1) + 1 >= lim.Bound() then SizeAfter(lim, size, n - 1) + 1 - lim.threshold
    else SizeAfter(lim, size, n - 1) + 1
  }

  lemma {:induction false} SizeFollows(lim: Limits, log: seq<Row>, calls: seq<Call>)
    requires lim.Valid() && Contiguous(log) && AllOk(calls)
    ensures |LogAfter(lim, log, calls)| == SizeAfter(lim, |log|, |calls|)
    decreases |calls|
  {
    hide Contiguous, Append;
    if calls != [] {
      var n := |calls| - 1;
      var before := LogAfter(lim, log, calls[..n]);
      assert calls[n] in calls;
      SizeFollows(lim, log, calls[..n]);
      assert Contiguous(before) by { SuffixOfHistory(lim, log, calls[..n]); }
      AppendEffect(lim, before, calls[n]);
    }
  }

  lemma {:induction false} SizeRecovers(lim: Limits, e: nat, n: nat)
    requires lim.Valid()
    ensures n <= e / (lim.threshold - 1) ==>
              SizeAfter(lim, lim.Bound() + e, n) == lim.Bound() + e - n * (lim.threshold - 1) >= lim.Bound()
    ensures n > e / (lim.threshold - 1) ==>
              lim.maxRows <= SizeAfter(lim, lim.Bound() + e, n) < lim.Bound()
  {
    DivisionBounds(e, lim.threshold - 1, n);
    if n > 0 {
      SizeRecovers(lim, e, n - 1);
      DivisionBounds(e, lim.threshold - 1, n - 1);
    }
  }

  /** A table of Bound() + e rows, grown while cuts failed, stays over the bound for e / (threshold - 1)
      successful calls and is back under it, for good, with one more. */
  lemma Recovery(lim: Limits, log: seq<Row>, calls: seq<Call>, e: nat)
    requires lim.Valid() && Contiguous(log) && AllOk(calls)
    requires |log| == lim.Bound() + e
    ensures |calls| < e / (lim.threshold - 1) + 1 <==> |LogAfter(lim, log, calls)| >= lim.Bound()
    ensures |LogAfter(lim, log, calls)| >= lim.maxRows
  {
    SizeFollows(lim, log, calls);
    SizeRecovers(lim, e, |calls|);
  }

  /** n steps of size s fit into e exactly when n is at most the quotient. */
  lemma DivisionBounds(e: nat, s: int, n: nat)
    requires s > 0
    ensures n <= e / s <==> n * s <= e
    ensures (n + 1) * s == n * s + s
    ensures n == e / s ==> e - n * s < s
  {
    var q := e / s;
    assert e == s * q + e % s;
    if n <= q { MulMono(s, n, q); }
    if n > q { MulMono(s, q + 1, n); assert s * (q + 1) == s * q + s; }
  }
}
