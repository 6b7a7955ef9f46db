/** A request runs two SQL statements, one to find its base row and one to fetch the data, while the
    parent process may insert and cut rows in between. When is the answer the one that the table at
    base-lookup time would have given? */
module TwoStatements {
  import opened Types
  import opened Seqs
  import opened Sql
  import opened Retention
  import opened Table
  import opened Answers

  // ---------- what a cut does to the groups ----------

  /** The first row of b, if its counter already occurs in a. */
  function Reopened(a: seq<Row>, b: seq<Row>): seq<Row> {
    if b != [] && Seen(a, b[0].counter) then [b[0]] else []
  }

  lemma SeenAcrossCut(a: seq<Row>, b: seq<Row>, r: Row)
    requires b != [] && MonotoneCounters(a + b) && b[|b| - 1].counter <= r.counter
    ensures Seen(b, r.counter) <==> Seen(a + b, r.counter)
  {
    if x :| x in a && x.counter == r.counter {
      var i :| 0 <= i < |a| && a[i] == x;
      assert (a + b)[i] == x && (a + b)[|a|] == b[0] && (a + b)[|a| + |b| - 1] == b[|b| - 1];
      assert b[0] in b;
    }
  }

  /** On non-decreasing counters, cutting a before b turns at most one row into a new group: b's first. */
  lemma {:induction false} CutReopensOne(a: seq<Row>, b: seq<Row>)
    requires MonotoneCounters(a + b)
    ensures Groups(b) == Reopened(a, b) + Fresh(a, b)
    decreases |b|
  {
    if b != [] {
      var n := |b| - 1;
      InitAndLast(b);
      ConcatAssociates(a, b[..n], [b[n]]);
      MonotoneExtends(a + b[..n], b[n]);
      CutReopensOne(a, b[..n]);
      EmptyIsNeutral(b[..n]);
      EmptyIsNeutral(a);
      if n > 0 {
        InitOfConcat(a, b[..n]);
        SeenAcrossCut(a, b[..n], b[n]);
        ConcatAssociates(Reopened(a, b), Fresh(a, b[..n]), FirstOf(b[..n], b[n]));
      }
    }
  }

  lemma LastGroupsAreFresh(a: seq<Row>, b: seq<Row>, n: int)
    requires a != [] && forall x :: x in a ==> x !in b
    requires forall r :: r in LastN(Groups(a) + Fresh(a, b), n) ==> r in b
    ensures 0 <= n <= |Fresh(a, b)|
  {
    FreshCovers([], a);
    assert a[0] in a;
    var ga := Groups(a);
    assert ga != [];
    if n < 0 || |Fresh(a, b)| < n {
      LastReaches(ga, Fresh(a, b), n);
    }
  }

  /** The groups of b whose counters a lacks are the groups that a leaves fresh. */
  lemma {:induction false} FreshIsPicked(a: seq<Row>, b: seq<Row>, keep: set<Row>)
    requires forall r :: r in b ==> (r in keep <==> !Seen(a, r.counter))
    ensures Fresh(a, b) == Pick(Groups(b), keep)
    decreases |b|
  {
    if b != [] {
      var init, last := b[..|b| - 1], b[|b| - 1];
      InitAndLast(b);
      FreshIsPicked(a, init, keep);
      EmptyIsNeutral(init);
      SeenInConcat(a, init, last.counter);
      PickConcat(Groups(init), FirstOf(init, last), keep);
      PickAtMostOne(last, keep);
      EmptyIsNeutral(Fresh(a, init));
    }
  }

  lemma SeenInConcat(a: seq<Row>, b: seq<Row>, counter: int)
    ensures Seen(a + b, counter) <==> Seen(a, counter) || Seen(b, counter)
  {
  }

  /** If every element not picked lies below the last n picked ones, those are the last n of all. */
  lemma TailSurvives(s: seq<Row>, keep: set<Row>, n: int)
    requires Sorted(s) && Sorted(Pick(s, keep)) && 0 < n <= |Pick(s, keep)|
    requires forall r, p :: r in s && r !in keep && p in LastN(Pick(s, keep), n) ==> r.id < p.id
    ensures LastN(s, n) == LastN(Pick(s, keep), n)
  {
    var picked := Pick(s, keep);
    var k := |picked| - n;
    FirstOfLast(picked, n);
    PickMembers(s, keep);
    hide Pick, Sorted, LastN;
    var j := SplitBelow(s, picked[k]);
    TailOfParts(s[..j], s[j..], keep, picked, k);
  }

  lemma TailOfParts(low: seq<Row>, high: seq<Row>, keep: set<Row>, picked: seq<Row>, k: nat)
    requires picked == Pick(low + high, keep) && Sorted(picked) && k < |picked|
    requires forall x :: x in low ==> x.id < picked[k].id
    requires forall x :: x in high ==> x in keep && picked[k].id <= x.id
    ensures LastN(low + high, |picked| - k) == LastN(picked, |picked| - k)
  {
    hide Pick, Sorted, LastN;
    PickConcat(low, high, keep);
    PickAll(high, keep);
    PickMembers(low, keep);
    var below := Pick(low, keep);
    CrossingPoint(below, high, picked[k].id, k);
    LastOfConcat(below, high, |high|);
    LastOfConcat(low, high, |high|);
  }

  lemma FirstOfLast<T>(s: seq<T>, n: int)
    requires 0 < n <= |s|
    ensures s[|s| - n] in s && s[|s| - n] in LastN(s, n)
  {
    assert LastN(s, n)[0] == s[|s| - n];
  }

  lemma SplitBelow(s: seq<Row>, r: Row) returns (j: nat)
    requires Sorted(s) && r in s
    ensures j <= |s| && s == s[..j] + s[j..]
    ensures forall x :: x in s[..j] ==> x.id < r.id
    ensures forall x :: x in s[j..] ==> x in s && r.id <= x.id
  {
    j :| 0 <= j < |s| && s[j] == r;
    SplitsAt(s, j);
  }

  lemma SortedParts(a: seq<Row>, b: seq<Row>)
    requires Sorted(a + b)
    ensures Sorted(b) && forall x :: x in a ==> x !in b
  {
    assert forall i :: 0 <= i < |b| ==> b[i] == (a + b)[|a| + i];
    forall i, j | 0 <= i < |a| && 0 <= j < |b| ensures a[i] != b[j] {
      assert (a + b)[i] == a[i] && (a + b)[|a| + j] == b[j];
    }
  }

  lemma PartsAreApart(s: seq<Row>, k: nat)
    requires Sorted(s) && k <= |s|
    ensures forall x, y :: x in s[..k] && y in s[k..] ==> x.id < y.id
  {
  }

  lemma TailIsAbove(s: seq<Row>, n: int, r: Row, p: Row)
    requires Sorted(s) && r in s && r !in LastN(s, n) && p in LastN(s, n)
    ensures r.id < p.id
  {
    hide Sorted;
    var k := |s| - |LastN(s, n)|;
    SplitsAt(s, k);
    assert LastN(s, n) == s[k..];
    PartsAreApart(s, k);
  }

  /** Groups of b that b has only because a was cut. */
  ghost predicate ReopenBelow(a: seq<Row>, b: seq<Row>, page: seq<Row>) {
    forall r, p :: r in Groups(b) && Seen(a, r.counter) && p in page ==> r.id < p.id
  }

  /** Cutting a keeps the last n groups, if none of their rows was in a and every group it reopens lies
      below them. */
  lemma CutKeepsLast(a: seq<Row>, b: seq<Row>, n: int)
    requires Sorted(a + b) && a != []
    requires var page := LastN(Groups(a + b), n);
             (forall r :: r in page ==> r in b) && ReopenBelow(a, b, page)
    ensures LastN(Groups(b), n) == LastN(Groups(a + b), n)
  {
    GroupsOfParts(a, b);
    LastGroupsAreFresh(a, b, n);
    LastOfConcat(Groups(a), Fresh(a, b), n);
    var keep := set r | r in b && !Seen(a, r.counter);
    FreshIsPicked(a, b, keep);
    FreshCovers([], b);
    hide Groups, Fresh, Pick, Sorted;
    if n > 0 { TailSurvives(Groups(b), keep, n); }
  }

  lemma GroupsOfParts(a: seq<Row>, b: seq<Row>)
    requires Sorted(a + b)
    ensures Groups(a + b) == Groups(a) + Fresh(a, b)
    ensures Sorted(Groups(b)) && Sorted(Fresh(a, b)) && forall x :: x in a ==> x !in b
  {
    EmptyIsNeutral(a);
    FreshConcat([], a, b);
    SortedParts(a, b);
    FreshSorted([], b);
    FreshSorted(a, b);
  }

  /** And only then can the last n groups hold the same rows as before. */
  lemma CutShows(a: seq<Row>, b: seq<Row>, n: int)
    requires Sorted(a + b) && a != []
    requires forall r :: r in LastN(Groups(b), n) <==> r in LastN(Groups(a + b), n)
    ensures var page := LastN(Groups(a + b), n);
            (forall r :: r in page ==> r in b) && ReopenBelow(a, b, page)
  {
    var page := LastN(Groups(a + b), n);
    GroupsOfParts(a, b);
    FreshCovers([], b);
    PartsAreMembers(Groups(b), n);
    LastGroupsAreFresh(a, b, n);
    LastOfConcat(Groups(a), Fresh(a, b), n);
    FreshCovers(a, b);
    PartsAreMembers(Fresh(a, b), n);
    hide Groups, Fresh, Sorted, Seen;
    forall r, p | r in Groups(b) && Seen(a, r.counter) && p in page ensures r.id < p.id {
      TailIsAbove(Groups(b), n, r, p);
    }
  }

  lemma LastReaches<T>(a: seq<T>, b: seq<T>, n: int)
    requires a != [] && (n < 0 || |b| < n)
    ensures exists x :: x in a && x in LastN(a + b, n)
  {
    var s := LastN(a + b, n);
    assert a[|a| - 1] in a && s[|s| - |b| - 1] == a[|a| - 1];
  }

  // ---------- the table before and after ----------

  lemma PartsAreOrdered(a: seq<Row>, b: seq<Row>)
    requires Contiguous(a + b)
    ensures forall x, y :: x in a && y in b ==> x.id < y.id
  {
    forall x, y | x in a && y in b ensures x.id < y.id {
      var i :| 0 <= i < |a| && a[i] == x;
      var j :| 0 <= j < |b| && b[j] == y;
      assert (a + b)[i] == x && (a + b)[|a| + j] == y;
    }
  }

  lemma RetainedSplits(lim: Limits, log': seq<Row>, all: seq<Row>) returns (cut: seq<Row>)
    requires Retained(lim, log', all)
    ensures all == cut + log'
  {
    SplitsAt(all, |all| - |log'|);
    cut := all[..|all| - |log'|];
  }

  /** What the parent's calls leave: the old rows and the new ones, less the oldest. */
  lemma HistorySplits(lim: Limits, log: seq<Row>, calls: seq<Call>) returns (cut: seq<Row>)
    requires lim.Valid() && Contiguous(log)
    ensures log + Accepted(lim, log, calls) == cut + LogAfter(lim, log, calls)
    ensures forall x, y :: x in cut && y in LogAfter(lim, log, calls) ==> x.id < y.id
    ensures forall x, y :: x in log && y in Accepted(lim, log, calls) ==> x.id < y.id
  {
    hide Contiguous, LogAfter, Accepted;
    SuffixOfHistory(lim, log, calls);
    PartsAreOrdered(log, Accepted(lim, log, calls));
    cut := RetainedSplits(lim, LogAfter(lim, log, calls), log + Accepted(lim, log, calls));
    PartsAreOrdered(cut, LogAfter(lim, log, calls));
  }

  /** The rows a "down" window of the old table has lost, followed by those it still has. */
  lemma DownWindowSplits(lim: Limits, log: seq<Row>, calls: seq<Call>, base: int) returns (lost: seq<Row>)
    requires lim.Valid() && Contiguous(log) && HasId(log, base)
    ensures Window(log, false, base) == lost + Window(LogAfter(lim, log, calls), false, base)
    ensures forall x :: x in lost ==> x in log && x !in LogAfter(lim, log, calls)
    ensures log[0] in LogAfter(lim, log, calls) ==> lost == []
  {
    var log' := LogAfter(lim, log, calls);
    var acc := Accepted(lim, log, calls);
    var cut := HistorySplits(lim, log, calls);
    FilterConcat(log, acc, IdAtMost(base));
    FilterConcat(cut, log', IdAtMost(base));
    FilterNone(acc, IdAtMost(base));
    EmptyIsNeutral(Filter(log, IdAtMost(base)));
    lost := Filter(cut, IdAtMost(base));
    FilterMembers(cut, IdAtMost(base));
    FilterMembers(log, IdAtMost(base));
    assert forall x :: x in lost ==> x in Filter(log, IdAtMost(base));
    if log[0] in log' {
      assert forall x :: x in lost ==> x.id < log[0].id;
      HeadIsMember(lost);
    }
  }

  /** r stands for its counter in the later window only because an earlier row with it was cut. */
  ghost predicate Reopens(log: seq<Row>, log': seq<Row>, base: int, r: Row) {
    && Earliest(r, Window(log', false, base))
    && exists x :: x in log && x !in log' && x.id <= base && x.counter == r.counter
  }

  /** No row of the answer was cut, and every row the cut brought to the front lies below all of them. */
  ghost predicate Survives(log: seq<Row>, log': seq<Row>, base: int, amount: int) {
    && (forall p :: p in Answer(log, false, base, amount) ==> p in log')
    && forall r, p :: p in Answer(log, false, base, amount) && Reopens(log, log', base, r) ==> r.id < p.id
  }

  lemma ReopensIsBelow(log: seq<Row>, log': seq<Row>, base: int, amount: int, lost: seq<Row>)
    requires Sorted(log')
    requires Window(log, false, base) == lost + Window(log', false, base)
    requires forall x :: x in lost ==> x in log && x !in log'
    ensures Survives(log, log', base, amount) <==>
              var page := Page(log, false, base, amount);
              (forall p :: p in page ==> p in Window(log', false, base))
              && ReopenBelow(lost, Window(log', false, base), page)
  {
    hide Answer, Page, SortByCounter, StrictCounters, Groups, Sorted, Earliest, Filter;
    var page, kept := Page(log, false, base, amount), Window(log', false, base);
    AnswerIsSortedPage(log, false, base, amount);
    SameMembers(Answer(log, false, base, amount), page);
    PageRowsAreLogged(log, base, amount);
    FilterMembers(log', IdAtMost(base));
    FilterMembers(log, IdAtMost(base));
    WindowSorted(log', IdAtMost(base));
    GroupsAreEarliest(kept);
    forall r ensures Reopens(log, log', base, r) <==> r in Groups(kept) && Seen(lost, r.counter) {
      assert forall x :: x in log && x !in log' && x.id <= base <==> x in lost;
    }
  }

  /** Down: the answer after any parent activity is the answer at base-lookup time if and only if it
      survives the cut. */
  lemma DownAnswerIsStable(lim: Limits, log: seq<Row>, calls: seq<Call>, base: int, amount: int)
    requires lim.Valid() && Contiguous(log) && HasId(log, base)
    ensures var log' := LogAfter(lim, log, calls);
            Answer(log', false, base, amount) == Answer(log, false, base, amount) <==> Survives(log, log', base, amount)
  {
    var log' := LogAfter(lim, log, calls);
    var lost := DownWindowSplits(lim, log, calls, base);
    var kept := Window(log', false, base);
    SuffixOfHistory(lim, log, calls);
    ContiguousIsSorted(log);
    ContiguousIsSorted(log');
    WindowSorted(log, IdAtMost(base));
    ReopensIsBelow(log, log', base, amount, lost);
    AnswerIsSortedPage(log, false, base, amount);
    AnswerIsSortedPage(log', false, base, amount);
    hide Answer, Groups, LogAfter, Contiguous, Sorted, Survives, Reopens;
    if lost == [] {
      EmptyIsNeutral(kept);
      FreshCovers([], kept);
      PartsAreMembers(Groups(kept), amount);
    } else {
      if Answer(log', false, base, amount) == Answer(log, false, base, amount) {
        SameMembers(Page(log', false, base, amount), Page(log, false, base, amount));
        CutShows(lost, kept, amount);
      }
      if Survives(log, log', base, amount) { CutKeepsLast(lost, kept, amount); }
    }
  }

  lemma LostAreBelow(lim: Limits, log: seq<Row>, calls: seq<Call>)
    requires lim.Valid() && Contiguous(log)
    ensures var log' := LogAfter(lim, log, calls);
            forall x, y :: x in log && x !in log' && y in log' ==> x.id < y.id
  {
    hide Contiguous, LogAfter, Accepted;
    var cut := HistorySplits(lim, log, calls);
    var acc, log' := Accepted(lim, log, calls), LogAfter(lim, log, calls);
    assert forall x :: x in log ==> x in log + acc;
    assert forall x :: x in cut + log' ==> x in cut || x in log';
  }

  /** As long as the oldest row is still there, nothing was cut and every "down" answer stays. */
  lemma UncutDownAnswerIsStable(lim: Limits, log: seq<Row>, calls: seq<Call>, base: int, amount: int)
    requires lim.Valid() && Contiguous(log) && HasId(log, base) && log[0] in LogAfter(lim, log, calls)
    ensures Answer(LogAfter(lim, log, calls), false, base, amount) == Answer(log, false, base, amount)
  {
    LostAreBelow(lim, log, calls);
    OldestFirst(log);
    AnswersAreLogged(log, base, amount);
    hide Answer, LogAfter, Contiguous, Earliest;
    DownAnswerIsStable(lim, log, calls, base, amount);
  }

  lemma OldestFirst(log: seq<Row>)
    requires Contiguous(log)
    ensures forall x :: x in log ==> log[0].id <= x.id
  {
  }

  lemma AnswersAreLogged(log: seq<Row>, base: int, amount: int)
    ensures forall r :: r in Answer(log, false, base, amount) ==> r in log && r.id <= base
  {
    hide Answer, Page;
    AnswerIsSortedPage(log, false, base, amount);
    SameMembers(Answer(log, false, base, amount), Page(log, false, base, amount));
    PageRowsAreLogged(log, base, amount);
  }

  /** When counters never decrease in the window, a "down" answer stays exactly when none of its rows
      was cut. */
  lemma OrderedDownAnswerIsStable(lim: Limits, log: seq<Row>, calls: seq<Call>, base: int, amount: int)
    requires lim.Valid() && Contiguous(log) && HasId(log, base) && MonotoneCounters(Window(log, false, base))
    ensures var log' := LogAfter(lim, log, calls);
            Answer(log', false, base, amount) == Answer(log, false, base, amount) <==>
              forall r :: r in Answer(log, false, base, amount) ==> r in log'
  {
    var log' := LogAfter(lim, log, calls);
    var lost := DownWindowSplits(lim, log, calls, base);
    DownAnswerIsStable(lim, log, calls, base, amount);
    LostAreBelow(lim, log, calls);
    ContiguousIsSorted(log);
    hide Answer, LogAfter, Contiguous, Sorted, Survives, Window;
    assert forall r :: r in Window(log', false, base) ==> r in Window(log, false, base);
    OrderedSurvives(log, log', base, amount);
  }

  lemma OrderedSurvives(log: seq<Row>, log': seq<Row>, base: int, amount: int)
    requires Sorted(log) && MonotoneCounters(Window(log, false, base))
    requires forall x, y :: x in log && x !in log' && y in log' ==> x.id < y.id
    requires forall r :: r in Window(log', false, base) ==> r in Window(log, false, base)
    ensures Survives(log, log', base, amount) <==> forall r :: r in Answer(log, false, base, amount) ==> r in log'
  {
    var answer := Answer(log, false, base, amount);
    DownAnswersAreEarliest(log, base, amount);
    AnswersAreLogged(log, base, amount);
    FilterMembers(log, IdAtMost(base));
    hide Answer, Sorted, MonotoneCounters, Window, Filter;
    if forall p :: p in answer ==> p in log' {
      forall r, p | p in answer && Reopens(log, log', base, r) ensures r.id < p.id {
        var x :| x in log && x !in log' && x.id <= base && x.counter == r.counter;
        OrderedBetween(log, base, x, p, r);
      }
    }
  }

  lemma OrderedBetween(log: seq<Row>, base: int, x: Row, p: Row, r: Row)
    requires Sorted(log) && MonotoneCounters(Window(log, false, base))
    requires x in log && x.id <= base && r in Window(log, false, base) && x.counter == r.counter
    requires Earliest(p, log) && p.id <= base && x.id < p.id
    ensures r.id < p.id
  {
    var w := Window(log, false, base);
    WindowSorted(log, IdAtMost(base));
    FilterMembers(log, IdAtMost(base));
    OrderedInBoth(w);
    assert x in w && p in w;
  }

  // ---------- an answer that a cut changes ----------

  /** A table whose last row has the counter of its first band, which the rows between do not have. */
  ghost predicate Relapses(a: seq<Row>, mid: seq<Row>, last: Row) {
    && a != [] && mid != [] && Contiguous(a + (mid + [last]))
    && (forall x :: x in a ==> x.counter == last.counter)
    && (forall x :: x in mid ==> x.counter == mid[0].counter)
    && mid[0].counter != last.counter
  }

  lemma HeadIsFirst(a: seq<Row>, b: seq<Row>)
    requires Contiguous(a + b) && b != []
    ensures forall y :: y in b ==> b[0].id <= y.id
  {
    forall j | 0 <= j < |b| ensures b[0].id <= b[j].id {
      assert (a + b)[|a| + j] == b[j] && (a + b)[|a|] == b[0];
    }
  }

  lemma RelapseOrder(a: seq<Row>, mid: seq<Row>, last: Row)
    requires Relapses(a, mid, last)
    ensures forall x, y :: x in a && y in mid + [last] ==> x.id < y.id
    ensures forall x :: x in mid ==> mid[0].id <= x.id < last.id
    ensures forall x :: x in mid + [last] <==> x in mid || x == last
  {
    PartsAreOrdered(a, mid + [last]);
    ConcatAssociates(a, mid, [last]);
    PartsAreOrdered(a + mid, [last]);
    HeadIsFirst(a, mid + [last]);
    assert (mid + [last])[0] == mid[0];
    assert forall x :: x in mid ==> x in a + mid;
    InitOfConcat(mid, [last]);
    assert last in [last];
  }

  lemma RelapseLead(a: seq<Row>, mid: seq<Row>, last: Row)
    requires Relapses(a, mid, last)
    ensures var log := a + (mid + [last]);
            Earliest(mid[0], log) && forall x :: Earliest(x, log) ==> x.id <= mid[0].id
  {
    var log := a + (mid + [last]);
    RelapseOrder(a, mid, last);
    assert forall x :: x in log <==> x in a || x in mid || x == last;
    assert mid[0] in mid && a[0] in a;
    hide Contiguous;
  }

  lemma LastOfRelapse(a: seq<Row>, mid: seq<Row>, last: Row)
    requires Relapses(a, mid, last)
    ensures Page(a + (mid + [last]), false, last.id, 1) == [mid[0]]
  {
    var log := a + (mid + [last]);
    ContiguousIsSorted(log);
    RelapseOrder(a, mid, last);
    RelapseLead(a, mid, last);
    assert last in mid + [last];
    assert forall x :: x in log <==> x in a || x in mid + [last];
    hide Relapses, Earliest, Filter, Sorted, Contiguous;
    FilterAll(log, IdAtMost(last.id));
    GroupsAreEarliest(log);
    FreshSorted([], log);
    GreatestIsLast(Groups(log), mid[0]);
  }

  lemma GreatestIsLast(s: seq<Row>, r: Row)
    requires Sorted(s) && r in s && forall x :: x in s ==> x.id <= r.id
    ensures LastN(s, 1) == [r]
  {
    assert s[|s| - 1] in s;
  }

  lemma BandIsCut(lim: Limits, log: seq<Row>, c: Call)
    requires lim.Valid() && Contiguous(log) && log != [] && c.out == ALL_OK
    requires lim.threshold <= |log| && lim.Bound() <= |log| + 1
    ensures LogAfter(lim, log, [c]) == log[lim.threshold..] + [RowOf(c.mem, log[|log| - 1].id + 1, c.date)]
  {
    OneCall(lim, log, c);
    NextIdIsLastPlusOne(log);
    AppendEffect(lim, log, c);
    hide Append, NextId, RowOf, Contiguous;
    SuffixSnoc(log, lim.threshold, Inserted(log, c));
  }

  lemma LastReopens(a: seq<Row>, b: seq<Row>, later: Row, last: Row)
    requires last in b && forall x :: x in b ==> x.id <= last.id && (x.counter == last.counter ==> x == last)
    requires last.id < later.id
    requires exists x :: x in a && x.counter == last.counter && x.id <= last.id && x !in b
    ensures Reopens(a + b, b + [later], last.id, last)
  {
    FilterPrefix(b, [later], IdAtMost(last.id));
    hide Filter;
  }

  lemma RelapseReopens(a: seq<Row>, mid: seq<Row>, last: Row, later: Row)
    requires Relapses(a, mid, last) && last.id < later.id
    ensures Reopens(a + (mid + [last]), (mid + [last]) + [later], last.id, last)
  {
    RelapseOrder(a, mid, last);
    hide Contiguous, Reopens;
    assert a[0] in a && last in mid + [last];
    LastReopens(a, mid + [last], later, last);
  }

  /** Keeping the answered rows is not enough, whatever the limits: when one more row cuts exactly the first
      band of such a table, the answered row is still there, but the last one is answered instead. */
  lemma RelapseChangesAnswer(lim: Limits, a: seq<Row>, mid: seq<Row>, last: Row, c: Call)
    requires lim.Valid() && Relapses(a, mid, last) && c.out == ALL_OK
    requires |a| == lim.threshold && lim.Bound() <= |a + (mid + [last])| + 1
    ensures var log := a + (mid + [last]);
            var log' := LogAfter(lim, log, [c]);
            && HasId(log, last.id) && HasId(log', last.id)
            && (forall x :: x in Answer(log, false, last.id, 1) ==> x in log')
            && Answer(log', false, last.id, 1) != Answer(log, false, last.id, 1)
  {
    var log := a + (mid + [last]);
    RelapseOrder(a, mid, last);
    RelapseAnswer(a, mid, last);
    assert last in mid + [last] && mid[0] in mid + [last] && mid[0].id < last.id;
    var later := RelapseCut(lim, a, mid, last, c);
    RelapseReopens(a, mid, last, later);
    hide Relapses, LogAfter, Reopens, Answer, HasId;
    MemberHasId(log, last);
    MemberHasId((mid + [last]) + [later], last);
    DownAnswerIsStable(lim, log, [c], last.id, 1);
  }

  lemma RelapseAnswer(a: seq<Row>, mid: seq<Row>, last: Row)
    requires Relapses(a, mid, last)
    ensures forall x :: x in Answer(a + (mid + [last]), false, last.id, 1) <==> x == mid[0]
  {
    var log := a + (mid + [last]);
    LastOfRelapse(a, mid, last);
    hide Relapses, Answer, Page;
    AnswerIsSortedPage(log, false, last.id, 1);
    SameMembers(Answer(log, false, last.id, 1), [mid[0]]);
  }

  lemma RelapseCut(lim: Limits, a: seq<Row>, mid: seq<Row>, last: Row, c: Call) returns (later: Row)
    requires lim.Valid() && Relapses(a, mid, last) && c.out == ALL_OK
    requires |a| == lim.threshold && lim.Bound() <= |a + (mid + [last])| + 1
    ensures LogAfter(lim, a + (mid + [last]), [c]) == (mid + [last]) + [later] && last.id < later.id
  {
    var log := a + (mid + [last]);
    assert log[|log| - 1] == last && log[|a|..] == mid + [last];
    hide LogAfter, Contiguous, RowOf;
    later := RowOf(c.mem, last.id + 1, c.date);
    RowKeepsId(c.mem, last.id + 1, c.date);
    BandIsCut(lim, log, c);
  }

  /** n rows with consecutive ids and one counter. */
  function Band(r: Row, first: int, n: nat, counter: int32): seq<Row> {
    seq(n, i => r.(id := first + i, counter := counter))
  }

  /** Such tables exist for all limits: a band of 5s, m rows of 7, one of 5. With m = maxRows - 2 the table
      is within its bound, so the program's own can be one. */
  lemma CutCanChangeAnswer(lim: Limits, m: nat, r: Row, c: Call) returns (log: seq<Row>, base: int)
    requires lim.Valid() && m >= 1 && m + 2 >= lim.maxRows && c.out == ALL_OK
    ensures Contiguous(log) && |log| == lim.threshold + m + 1
    ensures HasId(log, base) && HasId(LogAfter(lim, log, [c]), base)
    ensures forall x :: x in Answer(log, false, base, 1) ==> x in LogAfter(lim, log, [c])
    ensures Answer(LogAfter(lim, log, [c]), false, base, 1) != Answer(log, false, base, 1)
  {
    var t := lim.threshold;
    var a, mid := Band(r, 1, t, 5), Band(r, t + 1, m, 7);
    var last := r.(id := t + m + 1, counter := 5);
    log, base := a + (mid + [last]), last.id;
    assert forall i :: 0 <= i < |log| ==> log[i].id == i + 1;
    hide LogAfter, Answer;
    RelapseChangesAnswer(lim, a, mid, last, c);
  }

  // ---------- "up" answers ----------

  /** While the base row is there, an "up" window is only ever extended, by the new rows. */
  lemma UpWindowGrows(lim: Limits, log: seq<Row>, calls: seq<Call>, base: int)
    requires lim.Valid() && Contiguous(log) && HasId(LogAfter(lim, log, calls), base)
    ensures Window(LogAfter(lim, log, calls), true, base) ==
              Window(log, true, base) + Filter(Accepted(lim, log, calls), IdAtLeast(base))
  {
    var log' := LogAfter(lim, log, calls);
    var acc := Accepted(lim, log, calls);
    var cut := HistorySplits(lim, log, calls);
    hide Contiguous, LogAfter, Accepted;
    var i :| 0 <= i < |log'| && log'[i].id == base;
    assert log'[i] in log';
    FilterConcat(log, acc, IdAtLeast(base));
    FilterConcat(cut, log', IdAtLeast(base));
    FilterNone(cut, IdAtLeast(base));
    EmptyIsNeutral(Window(log', true, base));
  }

  lemma UpGroupsGrow(lim: Limits, log: seq<Row>, calls: seq<Call>, base: int)
    requires lim.Valid() && Contiguous(log) && HasId(LogAfter(lim, log, calls), base)
    ensures var w := Window(log, true, base);
            Groups(Window(LogAfter(lim, log, calls), true, base)) ==
              Groups(w) + Fresh(w, Filter(Accepted(lim, log, calls), IdAtLeast(base)))
  {
    hide Contiguous, LogAfter, Accepted, Filter, Window;
    UpWindowGrows(lim, log, calls, base);
    var w, more := Window(log, true, base), Filter(Accepted(lim, log, calls), IdAtLeast(base));
    EmptyIsNeutral(w);
    FreshConcat([], w, more);
  }

  /** Up: while the base row is there, the answer's rows in id order are only ever extended, and a full
      answer does not change at all. */
  lemma UpAnswerOnlyGrows(lim: Limits, log: seq<Row>, calls: seq<Call>, base: int, amount: int)
    requires lim.Valid() && Contiguous(log)
    requires HasId(LogAfter(lim, log, calls), base)
    ensures var log' := LogAfter(lim, log, calls);
            && Page(log, true, base, amount) <= Page(log', true, base, amount)
            && (|Page(log, true, base, amount)| == amount ==>
                  Answer(log', true, base, amount) == Answer(log, true, base, amount))
  {
    var log' := LogAfter(lim, log, calls);
    var w := Window(log, true, base);
    UpGroupsGrow(lim, log, calls, base);
    hide Answer, Groups, Fresh, Filter, StrictCounters, LogAfter, Contiguous;
    FirstOfConcat(Groups(w), Fresh(w, Filter(Accepted(lim, log, calls), IdAtLeast(base))), amount);
    AnswerIsSortedPage(log, true, base, amount);
    AnswerIsSortedPage(log', true, base, amount);
  }

  /** An "up" page of any size begins with the base row. */
  lemma PageStartsAtBase(log: seq<Row>, base: int, amount: int)
    requires Sorted(log) && HasId(log, base) && amount != 0
    ensures var page := Page(log, true, base, amount); page != [] && page[0].id == base && page[0] in log
  {
    FilterMembers(log, IdAtLeast(base));
    WindowSorted(log, IdAtLeast(base));
    var i :| 0 <= i < |log| && log[i].id == base;
    assert log[i] in log;
    hide Filter, Sorted, Groups;
    GroupsStartAtLeast(Window(log, true, base), log[i]);
  }

  lemma GroupsStartAtLeast(w: seq<Row>, r: Row)
    requires Sorted(w) && r in w && forall x :: x in w ==> r.id <= x.id
    ensures Groups(w) != [] && Groups(w)[0] in w && Groups(w)[0].id == r.id
  {
    GroupsAreEarliest(w);
    FreshSorted([], w);
    assert Earliest(r, w);
    hide Fresh, Sorted;
    HeadIsMember(Groups(w));
    HeadIsLeast(Groups(w));
  }

  lemma HeadIsLeast(s: seq<Row>)
    requires Sorted(s)
    ensures forall x :: x in s ==> s[0].id <= x.id
  {
  }

  lemma UpPageIsLogged(log: seq<Row>, base: int, amount: int)
    ensures forall r :: r in Page(log, true, base, amount) ==> r in log && base <= r.id
  {
    FilterMembers(log, IdAtLeast(base));
    FreshCovers([], Window(log, true, base));
    PartsAreMembers(Groups(Window(log, true, base)), amount);
  }

  /** And only then: an "up" answer is extended exactly as long as its base row is stored. */
  lemma UpAnswerGrowsFromBase(lim: Limits, log: seq<Row>, calls: seq<Call>, base: int, amount: int)
    requires lim.Valid() && Contiguous(log) && HasId(log, base)
    ensures var log' := LogAfter(lim, log, calls);
            Page(log, true, base, amount) <= Page(log', true, base, amount) <==> amount == 0 || HasId(log', base)
  {
    var log' := LogAfter(lim, log, calls);
    var page, page' := Page(log, true, base, amount), Page(log', true, base, amount);
    ContiguousIsSorted(log);
    if amount != 0 {
      PageStartsAtBase(log, base, amount);
      UpPageIsLogged(log', base, amount);
      hide LogAfter, Contiguous, Sorted, Page, HasId;
      HeadOfPrefix(page, page');
      if page[0] in log' { MemberHasId(log', page[0]); }
    }
    hide LogAfter, Contiguous, Sorted, HasId;
    if HasId(log', base) { UpAnswerOnlyGrows(lim, log, calls, base, amount); }
  }

  lemma HeadOfPrefix<T>(p: seq<T>, q: seq<T>)
    requires p != []
    ensures p <= q ==> p[0] in q
  {
    if p <= q { assert p[0] == q[0]; }
  }

  lemma RowKeepsId(mem: Mem, id: int, date: int)
    ensures RowOf(mem, id, date).id == id
  {
  }

  lemma MemberHasId(log: seq<Row>, r: Row)
    requires r in log
    ensures HasId(log, r.id)
  {
    var i :| 0 <= i < |log| && log[i] == r;
  }

  lemma LaterRowsFollow(lim: Limits, log: seq<Row>, calls: seq<Call>, base: int)
    requires lim.Valid() && Contiguous(log) && HasId(log, base)
    ensures Filter(Accepted(lim, log, calls), IdAtLeast(base)) == Accepted(lim, log, calls)
  {
    var cut := HistorySplits(lim, log, calls);
    var i :| 0 <= i < |log| && log[i].id == base;
    assert log[i] in log;
    hide Contiguous, LogAfter, Accepted;
    FilterAll(Accepted(lim, log, calls), IdAtLeast(base));
  }

  /** An "up" answer does not change exactly when it has no rows to give, or its base row is stored and it
      was full or no new row brought a new counter. */
  lemma UpAnswerIsStable(lim: Limits, log: seq<Row>, calls: seq<Call>, base: int, amount: int)
    requires lim.Valid() && Contiguous(log) && HasId(log, base)
    ensures var log' := LogAfter(lim, log, calls);
            Answer(log', true, base, amount) == Answer(log, true, base, amount) <==>
              || amount == 0
              || (&& HasId(log', base)
                  && (|| |Page(log, true, base, amount)| == amount
                      || forall x :: x in Accepted(lim, log, calls) ==> Seen(Window(log, true, base), x.counter)))
  {
    var log', acc := LogAfter(lim, log, calls), Accepted(lim, log, calls);
    var w := Window(log, true, base);
    AnswerIsSortedPage(log, true, base, amount);
    AnswerIsSortedPage(log', true, base, amount);
    hide Answer, StrictCounters, LogAfter, Accepted, Contiguous, Window, Seen, SortByCounter, HasId;
    StableNeedsBase(lim, log, calls, base, amount);
    if HasId(log', base) {
      UpGroupsGrow(lim, log, calls, base);
      LaterRowsFollow(lim, log, calls, base);
      NothingFresh(w, acc);
      hide Groups, Fresh, Filter;
      if |Page(log, true, base, amount)| == amount {
        UpAnswerOnlyGrows(lim, log, calls, base, amount);
      } else {
        EmptyIsNeutral(Groups(w));
        if Answer(log', true, base, amount) == Answer(log, true, base, amount) {
          SameMembers(Page(log', true, base, amount), Page(log, true, base, amount));
        }
      }
    }
  }

  lemma StableNeedsBase(lim: Limits, log: seq<Row>, calls: seq<Call>, base: int, amount: int)
    requires lim.Valid() && Contiguous(log) && HasId(log, base)
    ensures var log' := LogAfter(lim, log, calls);
            amount != 0 && Answer(log', true, base, amount) == Answer(log, true, base, amount) ==> HasId(log', base)
  {
    var log' := LogAfter(lim, log, calls);
    var page := Page(log, true, base, amount);
    if amount != 0 && Answer(log', true, base, amount) == Answer(log, true, base, amount) {
      ContiguousIsSorted(log);
      PageStartsAtBase(log, base, amount);
      UpPageIsLogged(log', base, amount);
      AnswerIsSortedPage(log, true, base, amount);
      AnswerIsSortedPage(log', true, base, amount);
      hide Page, Answer, SortByCounter, StrictCounters, LogAfter, Contiguous, HasId;
      SameMembers(Page(log', true, base, amount), page);
      assert page[0] in page;
      MemberHasId(log', page[0]);
    }
  }

  lemma NothingFresh(past: seq<Row>, s: seq<Row>)
    ensures Fresh(past, s) == [] <==> forall x :: x in s ==> Seen(past, x.counter)
  {
    FreshCovers(past, s);
    HeadIsMember(Fresh(past, s));
  }
}
