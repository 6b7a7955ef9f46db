/** What table answers mean: a one-pass reading, the earliest-row promise, and paging. */
module Answers {
  import opened Types
  import opened Seqs
  import opened Sql
  import opened Table

  // ---------- one linear pass ----------

  function NewRun(past: seq<Row>, r: Row): seq<Row> {
    if past != [] && past[|past| - 1].counter == r.counter then [] else [r]
  }

  /** The first row of each run of equal counters, in one pass. */
  function Runs(s: seq<Row>): seq<Row> {
    if s == [] then [] else Runs(s[..|s| - 1]) + NewRun(s[..|s| - 1], s[|s| - 1])
  }

  /** The two sequences end on the same counter, and are ordered alike. */
  ghost predicate Tracks(runs: seq<Row>, s: seq<Row>) {
    && (s == [] <==> runs == [])
    && (s != [] ==> runs[|runs| - 1].counter == s[|s| - 1].counter)
    && (StrictCounters(runs) <==> MonotoneCounters(s))
  }

  lemma TracksExtends(runs: seq<Row>, s: seq<Row>, r: Row)
    requires Tracks(runs, s)
    ensures Tracks(runs + NewRun(s, r), s + [r])
  {
    MonotoneExtends(s, r);
    StrictExtends(runs, r);
    EmptyIsNeutral(runs);
    hide MonotoneCounters, StrictCounters;
  }

  /** The pass yields strictly increasing counters on exactly the logs whose counters never decrease. */
  lemma {:induction false} RunsIncrease(s: seq<Row>)
    ensures Tracks(Runs(s), s)
    decreases |s|
  {
    if s != [] {
      RunsIncrease(s[..|s| - 1]);
      TracksExtends(Runs(s[..|s| - 1]), s[..|s| - 1], s[|s| - 1]);
      InitAndLast(s);
    }
  }

  lemma MonotoneExtends(s: seq<Row>, r: Row)
    ensures MonotoneCounters(s + [r]) <==> MonotoneCounters(s) && (s == [] || s[|s| - 1].counter <= r.counter)
  {
    if MonotoneCounters(s + [r]) {
      assert forall i :: 0 <= i < |s| ==> s[i] == (s + [r])[i];
      assert (s + [r])[|s|] == r;
    }
  }

  lemma StrictExtends(s: seq<Row>, r: Row)
    ensures StrictCounters(s + [r]) <==> StrictCounters(s) && (s == [] || s[|s| - 1].counter < r.counter)
  {
    if StrictCounters(s + [r]) {
      assert forall i :: 0 <= i < |s| ==> s[i] == (s + [r])[i];
      assert (s + [r])[|s|] == r;
    }
  }

  lemma {:induction false} RunsAreGroups(s: seq<Row>)
    requires MonotoneCounters(s)
    ensures Runs(s) == Groups(s)
    decreases |s|
  {
    if s != [] {
      var n := |s| - 1;
      InitAndLast(s);
      MonotoneExtends(s[..n], s[n]);
      RunsAreGroups(s[..n]);
      EmptyIsNeutral(s[..n]);
      SeenIsLast(s[..n], s[n]);
    }
  }

  lemma SeenIsLast(s: seq<Row>, r: Row)
    requires MonotoneCounters(s) && (s != [] ==> s[|s| - 1].counter <= r.counter)
    ensures Seen(s, r.counter) <==> s != [] && s[|s| - 1].counter == r.counter
  {
    if s != [] { assert s[|s| - 1] in s; }
  }

  /** On non-decreasing counters the grouped, limited and re-sorted answer is one linear pass over the
      window, cut to the first or last rows, already in id order. */
  lemma ScanRefinesGroupBy(log: seq<Row>, up: bool, base: int, amount: int)
    requires MonotoneCounters(Window(log, up, base))
    ensures var runs := Runs(Window(log, up, base));
            Answer(log, up, base, amount) == if up then FirstN(runs, amount) else LastN(runs, amount)
  {
    var w := Window(log, up, base);
    RunsAreGroups(w);
    RunsIncrease(w);
    AnswerIsSortedPage(log, up, base, amount);
    PartsAreStrict(Runs(w), amount);
    SortIsDetermined(Page(log, up, base, amount), Page(log, up, base, amount));
  }

  lemma PartsAreMembers<T>(s: seq<T>, n: int)
    ensures forall x :: x in FirstN(s, n) ==> x in s
    ensures forall x :: x in LastN(s, n) ==> x in s
  {
  }

  lemma PartsAreStrict(s: seq<Row>, n: int)
    requires StrictCounters(s)
    ensures StrictCounters(FirstN(s, n)) && StrictCounters(LastN(s, n))
  {
  }

  /** Without that assumption the two differ: the unlimited answer equals the pass exactly when
      counters never decrease in the window. */
  lemma ScanNeedsMonotone(log: seq<Row>, up: bool, base: int)
    ensures Answer(log, up, base, -1) == Runs(Window(log, up, base)) <==> MonotoneCounters(Window(log, up, base))
  {
    AnswerIsSortedPage(log, up, base, -1);
    RunsIncrease(Window(log, up, base));
    if MonotoneCounters(Window(log, up, base)) { ScanRefinesGroupBy(log, up, base, -1); }
  }

  lemma {:induction false} GroupsArePickedRuns(s: seq<Row>, keep: set<Row>)
    requires forall i :: 0 <= i < |s| ==> (s[i] in keep <==> !Seen(s[..i], s[i].counter))
    ensures Groups(s) == Pick(Runs(s), keep)
    decreases |s|
  {
    if s != [] {
      var init, last := s[..|s| - 1], s[|s| - 1];
      hide Groups, Runs, Pick, Seen, NewRun;
      InitAndLast(s);
      assert forall i :: 0 <= i < |init| ==> s[i] == init[i] && s[..i] == init[..i];
      GroupsArePickedRuns(init, keep);
      GroupsSnoc(init, last);
      RunsSnoc(init, last);
      PickConcat(Runs(init), NewRun(init, last), keep);
      PickAtMostOne(last, keep);
      PickNothing(keep);
      LastRunIsSeen(init, last);
    }
  }

  lemma LastRunIsSeen(s: seq<Row>, r: Row)
    ensures NewRun(s, r) == [] || NewRun(s, r) == [r]
    ensures NewRun(s, r) == [] ==> Seen(s, r.counter)
  {
    if s != [] { assert s[|s| - 1] in s; }
  }

  lemma EarliestIsUnseen(s: seq<Row>, i: nat)
    requires Sorted(s) && i < |s|
    ensures Earliest(s[i], s) <==> !Seen(s[..i], s[i].counter)
  {
  }

  lemma RunsSnoc(s: seq<Row>, r: Row)
    ensures Runs(s + [r]) == Runs(s) + NewRun(s, r)
  {
    InitOfConcat(s, [r]);
    EmptyIsNeutral(s);
  }

  /** For a limited answer the condition is weaker: it equals the pass exactly when the rows the pass
      returns are in strict counter order and each is the earliest of the window for its counter. */
  lemma ScanNeedsEarliest(log: seq<Row>, up: bool, base: int, amount: int)
    requires Sorted(log)
    ensures var w := Window(log, up, base);
            var scan := if up then FirstN(Runs(w), amount) else LastN(Runs(w), amount);
            Answer(log, up, base, amount) == scan <==> StrictCounters(scan) && forall r :: r in scan ==> Earliest(r, w)
  {
    var w := Window(log, up, base);
    var runs, page := Runs(w), Page(log, up, base, amount);
    var scan := if up then FirstN(runs, amount) else LastN(runs, amount);
    WindowSorted(log, if up then IdAtLeast(base) else IdAtMost(base));
    GroupsAreEarliest(w);
    AnswerIsSortedPage(log, up, base, amount);
    PartsAreMembers(Groups(w), amount);
    hide Runs, Answer, Window, Groups, Sorted, Earliest;
    if Answer(log, up, base, amount) == scan { SameMembers(scan, page); }
    if StrictCounters(scan) && forall r :: r in scan ==> Earliest(r, w) {
      var keep := set r | r in Groups(w);
      forall i | 0 <= i < |w| ensures w[i] in keep <==> !Seen(w[..i], w[i].counter) { EarliestIsUnseen(w, i); }
      GroupsArePickedRuns(w, keep);
      if up { FirstOfPicked(runs, keep, amount); } else { LastOfPicked(runs, keep, amount); }
      SortIsDetermined(scan, scan);
    }
  }

  /** Going up the order alone decides. */
  lemma UpScanNeedsOrder(log: seq<Row>, base: int, amount: int)
    requires Sorted(log)
    ensures var scan := FirstN(Runs(Window(log, true, base)), amount);
            Answer(log, true, base, amount) == scan <==> StrictCounters(scan)
  {
    var w := Window(log, true, base);
    WindowSorted(log, IdAtLeast(base));
    ScanNeedsEarliest(log, true, base, amount);
    hide Answer, Window, StrictCounters, Sorted, Runs;
    if StrictCounters(FirstN(Runs(w), amount)) { FirstRunsAreEarliest(w, amount); }
  }

  lemma {:induction false} FirstRunsAreEarliest(s: seq<Row>, n: int)
    requires Sorted(s) && StrictCounters(FirstN(Runs(s), n))
    ensures forall r :: r in FirstN(Runs(s), n) ==> Earliest(r, s)
    decreases |s|
  {
    RunsIncrease(s);
    if |FirstN(Runs(s), n)| == |Runs(s)| {
      RunsAreGroups(s);
      GroupsAreEarliest(s);
    } else {
      var init, last := s[..|s| - 1], s[|s| - 1];
      SortedInit(s);
      InitAndLast(s);
      FirstOfConcat(Runs(init), NewRun(init, last), n);
      hide Sorted, StrictCounters, Earliest;
      FirstRunsAreEarliest(init, n);
      forall r { EarliestStep(init, last, r); }
    }
  }

  // ---------- earliest rows ----------

  /** Every row of a "down" answer is the earliest row of the whole log for its counter. */
  lemma DownAnswersAreEarliest(log: seq<Row>, base: int, amount: int)
    requires Sorted(log)
    ensures forall r :: r in Answer(log, false, base, amount) ==> Earliest(r, log)
  {
    hide Answer, SortByCounter, StrictCounters, Sorted, Groups, Filter;
    var w := Window(log, false, base);
    FilterMembers(log, IdAtMost(base));
    WindowSorted(log, IdAtMost(base));
    GroupsAreEarliest(w);
    AnswerIsSortedPage(log, false, base, amount);
    SameMembers(Answer(log, false, base, amount), Page(log, false, base, amount));
    PartsAreMembers(Groups(w), amount);
    assert forall r :: r in Answer(log, false, base, amount) ==> Earliest(r, w);
  }

  lemma {:induction false} WindowSorted(log: seq<Row>, p: Where)
    requires Sorted(log)
    ensures Sorted(Filter(log, p))
    decreases |log|
  {
    if log != [] {
      var n := |log| - 1;
      WindowSorted(log[..n], p);
      FilterMembers(log[..n], p);
      var f := Filter(log[..n], p);
      assert forall i :: 0 <= i < |f| ==> f[i] in log[..n];
    }
  }

  lemma {:induction false} WindowMonotone(log: seq<Row>, p: Where)
    requires MonotoneCounters(log)
    ensures MonotoneCounters(Filter(log, p))
    decreases |log|
  {
    if log != [] {
      var n := |log| - 1;
      WindowMonotone(log[..n], p);
      FilterMembers(log[..n], p);
      var f := Filter(log[..n], p);
      assert forall i :: 0 <= i < |f| ==> f[i] in log[..n];
    }
  }

  /** A row of an "up" answer is the earliest of the whole log for its counter exactly when no row before
      the base has that counter. */
  lemma UpAnswersAreEarliest(log: seq<Row>, base: int, amount: int)
    requires Sorted(log)
    ensures forall r :: r in Answer(log, true, base, amount) ==>
              (Earliest(r, log) <==> !Seen(Filter(log, IdAtMost(base - 1)), r.counter))
  {
    var w, below := Window(log, true, base), Filter(log, IdAtMost(base - 1));
    FilterMembers(log, IdAtLeast(base));
    FilterMembers(log, IdAtMost(base - 1));
    UpAnswersLeadWindow(log, base, amount);
    forall r | r in Answer(log, true, base, amount) ensures Earliest(r, log) <==> !Seen(below, r.counter) {
      assert Earliest(r, w);
      assert forall x :: x in log <==> x in below || x in w;
    }
  }

  lemma UpAnswersLeadWindow(log: seq<Row>, base: int, amount: int)
    requires Sorted(log)
    ensures forall r :: r in Answer(log, true, base, amount) ==> Earliest(r, Window(log, true, base))
  {
    var w := Window(log, true, base);
    WindowSorted(log, IdAtLeast(base));
    GroupsAreEarliest(w);
    AnswerIsSortedPage(log, true, base, amount);
    SameMembers(Answer(log, true, base, amount), Page(log, true, base, amount));
    PartsAreMembers(Groups(w), amount);
  }

  /** On non-decreasing counters only the window's first row can miss an earlier one. */
  lemma OnlyFirstMissesEarlier(log: seq<Row>, base: int, amount: int)
    requires Sorted(log) && MonotoneCounters(log)
    ensures forall r :: r in Answer(log, true, base, amount) ==>
              r == Window(log, true, base)[0] || Earliest(r, log)
  {
    var w := Window(log, true, base);
    UpAnswersAreEarliest(log, base, amount);
    UpAnswersLeadWindow(log, base, amount);
    FilterMembers(log, IdAtLeast(base));
    FilterMembers(log, IdAtMost(base - 1));
    WindowSorted(log, IdAtLeast(base));
    OrderedInBoth(log);
    HeadIsMember(w);
    hide Window, Answer, Filter, MonotoneCounters;
    assert forall x :: x in w ==> w[0].id <= x.id;
  }

  /** And it can: of two rows with one counter, an answer from the second does not show the first. */
  lemma UpAnswerMissesEarlier(r: Row)
    ensures var log := [r.(id := 1), r.(id := 2)];
            Answer(log, true, 2, 1) == [log[1]] && !Earliest(log[1], log)
  {
    var log := [r.(id := 1), r.(id := 2)];
    assert log[..1] == [log[0]] && log[1..] == [log[1]] && log[0] in log;
    hide Filter;
    FilterFrom(log, 1, IdAtLeast(2));
    GroupOfOne(log[1]);
    SortOfOne(log[1]);
    AnswerIsSortedPage(log, true, 2, 1);
  }

  lemma GroupOfOne(r: Row)
    ensures Groups([r]) == [r]
  {
    assert [] + [r] == [r] && [r][..0] == [];
    GroupsSnoc([], r);
  }

  lemma SortOfOne(r: Row)
    ensures SortByCounter([r]) == [r]
  {
    assert [r][1..] == [];
  }

  /** Sorted ids and non-decreasing counters order any two rows the same way. */
  lemma OrderedInBoth(log: seq<Row>)
    requires Sorted(log) && MonotoneCounters(log)
    ensures forall x, y :: x in log && y in log && x.id < y.id ==> x.counter <= y.counter
    ensures forall x, y :: x in log && y in log && x.id == y.id ==> x == y
  {
  }

  // ---------- paging ----------

  /** Rows of a sorted log below an id, and the rest. */
  lemma SplitAtId(log: seq<Row>, id: int) returns (k: nat)
    requires Sorted(log)
    ensures k <= |log|
    ensures forall x :: x in log[..k] ==> x.id < id
    ensures forall x :: x in log[k..] ==> id <= x.id
  {
    k := 0;
    while k < |log| && log[k].id < id
      invariant k <= |log|
      invariant forall x :: x in log[..k] ==> x.id < id
    {
      k := k + 1;
    }
  }

  /** The groups of a window are those below an id, followed by those from it on. */
  lemma GroupsSplit(log: seq<Row>, base: int, id: int) returns (upper: seq<Row>)
    requires Sorted(log) && id <= base
    ensures Groups(Window(log, false, base)) == Groups(Window(log, false, id - 1)) + upper
    ensures forall x :: x in Groups(Window(log, false, id - 1)) ==> x.id < id
    ensures forall x :: x in upper ==> id <= x.id
  {
    var k := SplitAtId(log, id);
    var a, b := log[..k], log[k..];
    SplitsAt(log, k);
    FilterConcat(a, b, IdAtMost(base));
    FilterAll(a, IdAtMost(base));
    FilterPrefix(a, b, IdAtMost(id - 1));
    var rest := Filter(b, IdAtMost(base));
    FilterMembers(b, IdAtMost(base));
    FreshConcat([], a, rest);
    EmptyIsNeutral(a);
    upper := Fresh(a, rest);
    FreshCovers(a, rest);
    FreshCovers([], a);
  }

  /** Two sorted parts meet where the ids cross a given row's. */
  lemma CrossingPoint(a: seq<Row>, b: seq<Row>, id: int, k: nat)
    requires Sorted(a + b) && k < |a + b| && (a + b)[k].id == id
    requires forall x :: x in a ==> x.id < id
    requires forall x :: x in b ==> id <= x.id
    ensures |a| == k
  {
    ConcatAt(a, b, k);
    if |a| < k { ConcatAt(a, b, |a|); }
  }

  /** A full page's oldest row cuts the groups exactly where the page begins. */
  lemma PageBegins(log: seq<Row>, base: int, n: int)
    requires Sorted(log) && n >= 1
    requires |Page(log, false, base, n)| == n
    ensures Groups(Window(log, false, base)) ==
              Groups(Window(log, false, Page(log, false, base, n)[0].id - 1)) + Page(log, false, base, n)
  {
    hide Groups, Window, Sorted;
    GroupsCut(log, base, |Groups(Window(log, false, base))| - n);
  }

  lemma GroupsCut(log: seq<Row>, base: int, k: nat)
    requires Sorted(log) && k < |Groups(Window(log, false, base))|
    ensures var g := Groups(Window(log, false, base));
            g == Groups(Window(log, false, g[k].id - 1)) + g[k..]
  {
    hide Groups, Window, Sorted;
    GroupsAreBelow(log, base);
    var g := Groups(Window(log, false, base));
    assert g[k] in g;
    var upper := GroupsSplit(log, base, g[k].id);
    TailFrom(g, Groups(Window(log, false, g[k].id - 1)), upper, k);
  }

  lemma TailFrom(g: seq<Row>, lower: seq<Row>, upper: seq<Row>, k: nat)
    requires g == lower + upper && Sorted(g) && k < |g|
    requires forall x :: x in lower ==> x.id < g[k].id
    requires forall x :: x in upper ==> g[k].id <= x.id
    ensures upper == g[k..]
  {
    CrossingPoint(lower, upper, g[k].id, k);
  }

  lemma GroupsAreBelow(log: seq<Row>, base: int)
    requires Sorted(log)
    ensures var g := Groups(Window(log, false, base)); Sorted(g) && forall x :: x in g ==> x.id <= base
  {
    var w := Window(log, false, base);
    WindowSorted(log, IdAtMost(base));
    FreshSorted([], w);
    FilterMembers(log, IdAtMost(base));
    FreshCovers([], w);
  }

  lemma PagesCompose(log: seq<Row>, base: int, n: int, m: int)
    requires Sorted(log) && n >= 1 && m >= 0
    requires |Page(log, false, base, n)| == n
    ensures Page(log, false, base, n + m) ==
              Page(log, false, Page(log, false, base, n)[0].id - 1, m) + Page(log, false, base, n)
  {
    hide Groups, Window, Sorted;
    var first := Page(log, false, base, n);
    PageBegins(log, base, n);
    LastOfConcat(Groups(Window(log, false, first[0].id - 1)), first, n + m);
  }

  /** Down-paging: a full page of n, then a page of m from just below its oldest row, holds exactly the
      rows of one page of n + m. On any log: counters may go up and down. */
  lemma DownPagingComposes(log: seq<Row>, base: int, n: int, m: int)
    requires Sorted(log) && n >= 1 && m >= 0
    requires |Page(log, false, base, n)| == n
    ensures var below := Page(log, false, base, n)[0].id - 1;
            MadeOf(Answer(log, false, base, n + m), Answer(log, false, below, m), Answer(log, false, base, n))
  {
    hide Page, Answer, SortByCounter, StrictCounters, Sorted;
    var below := Page(log, false, base, n)[0].id - 1;
    PagesCompose(log, base, n, m);
    AnswerIsSortedPage(log, false, base, n + m);
    AnswerIsSortedPage(log, false, base, n);
    AnswerIsSortedPage(log, false, below, m);
  }

  lemma PredecessorInLog(log: seq<Row>, i: nat)
    requires Contiguous(log) && i < |log|
    ensures i == 0 || HasId(log, log[i].id - 1)
  {
    if i > 0 { assert log[i - 1].id == log[i].id - 1; }
  }

  lemma FirstHasNoPredecessor(log: seq<Row>, x: Row)
    requires Contiguous(log) && x in log && !HasId(log, x.id - 1)
    ensures forall y :: y in log ==> x.id <= y.id
  {
    var i :| 0 <= i < |log| && log[i] == x;
    PredecessorInLog(log, i);
  }

  lemma PageRowsAreLogged(log: seq<Row>, base: int, n: int)
    ensures forall r :: r in Page(log, false, base, n) ==> r in log && r.id <= base
  {
    FilterMembers(log, IdAtMost(base));
    FreshCovers([], Window(log, false, base));
    assert forall r :: r in Page(log, false, base, n) ==> r in Groups(Window(log, false, base));
  }

  lemma LastPageHoldsAllGroups(log: seq<Row>, base: int, n: int)
    requires Contiguous(log) && n >= 1
    requires |Page(log, false, base, n)| == n
    requires !HasId(log, Page(log, false, base, n)[0].id - 1)
    ensures Page(log, false, base, n) == Groups(Window(log, false, base))
  {
    var page := Page(log, false, base, n);
    assert Window(log, false, page[0].id - 1) == [] by {
      PageRowsAreLogged(log, base, n);
      FirstHasNoPredecessor(log, page[0]);
      hide Page, Filter;
      FilterNone(log, IdAtMost(page[0].id - 1));
    }
    ContiguousIsSorted(log);
    hide Page, Sorted, Contiguous, Window;
    PageBegins(log, base, n);
    EmptyIsNeutral(page);
  }

  /** When the id just below a full page is not in the log, that page held the last groups there are:
      asking for more from the same base changes nothing. */
  lemma PagingEndsAtOldest(log: seq<Row>, base: int, n: int, m: int)
    requires Contiguous(log) && n >= 1 && m >= 0
    requires |Page(log, false, base, n)| == n
    requires !HasId(log, Page(log, false, base, n)[0].id - 1)
    ensures Answer(log, false, base, n + m) == Answer(log, false, base, n)
  {
    LastPageHoldsAllGroups(log, base, n);
    AnswerIsSortedPage(log, false, base, n);
    AnswerIsSortedPage(log, false, base, n + m);
  }
}
