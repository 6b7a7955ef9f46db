/** The table request's data query: window, GROUP BY (WF_counter) with MIN(id), ORDER BY id, LIMIT,
    and the outer ORDER BY WF_counter. */
module Table {
  import opened Types
  import opened Seqs
  import opened Sql

  predicate Seen(s: seq<Row>, counter: int) {
    exists r :: r in s && r.counter == counter
  }

  /** r as a one-row table, unless a row of past already has its counter. */
  function FirstOf(past: seq<Row>, r: Row): seq<Row> {
    if Seen(past, r.counter) then [] else [r]
  }

  /** The rows of s whose counter occurs neither in past nor earlier in s, in id order. */
  function Fresh(past: seq<Row>, s: seq<Row>): seq<Row> {
    if s == [] then []
    else Fresh(past, s[..|s| - 1]) + FirstOf(past + s[..|s| - 1], s[|s| - 1])
  }

  /** GROUP BY (WF_counter) with MIN(id): one row a counter, the one holding the least id. */
  function Groups(s: seq<Row>): seq<Row> {
    Fresh([], s)
  }

  function Window(log: seq<Row>, up: bool, base: int): seq<Row> {
    Filter(log, if up then IdAtLeast(base) else IdAtMost(base))
  }

  /** The inner SELECT: ORDER BY id ASC or DESC, then LIMIT. */
  function Inner(log: seq<Row>, up: bool, base: int, amount: int): seq<Row> {
    FirstN(if up then Groups(Window(log, up, base)) else Reverse(Groups(Window(log, up, base))), amount)
  }

  function Insert(r: Row, s: seq<Row>): seq<Row> {
    if s == [] || r.counter <= s[0].counter then [r] + s else [s[0]] + Insert(r, s[1..])
  }

  /** ORDER BY WF_counter ASC. */
  function SortByCounter(s: seq<Row>): seq<Row> {
    if s == [] then [] else Insert(s[0], SortByCounter(s[1..]))
  }

  /** The whole data query. */
  function Answer(log: seq<Row>, up: bool, base: int, amount: int): seq<Row> {
    SortByCounter(Inner(log, up, base, amount))
  }

  /** The answered rows in id order, before the outer sort. */
  function Page(log: seq<Row>, up: bool, base: int, amount: int): seq<Row> {
    if up then FirstN(Groups(Window(log, up, base)), amount) else LastN(Groups(Window(log, up, base)), amount)
  }

  // ---------- grouping ----------

  ghost predicate DistinctCounters(s: seq<Row>) {
    forall i, j :: 0 <= i < j < |s| ==> s[i].counter != s[j].counter
  }

  ghost predicate StrictCounters(s: seq<Row>) {
    forall i, j :: 0 <= i < j < |s| ==> s[i].counter < s[j].counter
  }

  /** r has the least id among the rows of s with its counter. */
  ghost predicate Earliest(r: Row, s: seq<Row>) {
    r in s && forall x :: x in s && x.counter == r.counter ==> r.id <= x.id
  }

  lemma {:induction false} FreshConcat(past: seq<Row>, a: seq<Row>, b: seq<Row>)
    ensures Fresh(past, a + b) == Fresh(past, a) + Fresh(past + a, b)
    decreases |b|
  {
    if b == [] {
      assert a + b == a;
    } else {
      var n := |b| - 1;
      FreshConcat(past, a, b[..n]);
      InitOfConcat(a, b);
      ConcatAssociates(past, a, b[..n]);
      ConcatAssociates(Fresh(past, a), Fresh(past + a, b[..n]), FirstOf(past + a + b[..n], b[n]));
    }
  }

  /** What the fresh rows are: rows of s, one for each counter of s that past lacks. */
  lemma {:induction false} FreshCovers(past: seq<Row>, s: seq<Row>)
    ensures forall r :: r in Fresh(past, s) ==> r in s && !Seen(past, r.counter)
    ensures forall r :: r in s && !Seen(past, r.counter) ==> Seen(Fresh(past, s), r.counter)
    decreases |s|
  {
    if s != [] {
      var n := |s| - 1;
      FreshCovers(past, s[..n]);
      assert s == s[..n] + [s[n]];
    }
  }

  lemma DistinctSnoc(s: seq<Row>, r: Row)
    requires DistinctCounters(s) && !Seen(s, r.counter)
    ensures DistinctCounters(s + [r])
  {
    assert forall i :: 0 <= i < |s| ==> s[i] in s;
  }

  lemma SortedSnoc(s: seq<Row>, r: Row)
    requires Sorted(s) && forall x :: x in s ==> x.id < r.id
    ensures Sorted(s + [r])
  {
    assert forall i :: 0 <= i < |s| ==> s[i] in s;
  }

  lemma SortedInit(s: seq<Row>)
    requires s != [] && Sorted(s)
    ensures Sorted(s[..|s| - 1])
    ensures forall x :: x in s[..|s| - 1] ==> x.id < s[|s| - 1].id
  {
  }

  lemma {:induction false} FreshDistinct(past: seq<Row>, s: seq<Row>)
    ensures DistinctCounters(Fresh(past, s))
    decreases |s|
  {
    if s != [] {
      var init, last := s[..|s| - 1], s[|s| - 1];
      FreshDistinct(past, init);
      FreshCovers(past, init);
      hide DistinctCounters;
      if !Seen(past + init, last.counter) {
        DistinctSnoc(Fresh(past, init), last);
      } else {
        EmptyIsNeutral(Fresh(past, init));
      }
    }
  }

  lemma {:induction false} FreshSorted(past: seq<Row>, s: seq<Row>)
    requires Sorted(s)
    ensures Sorted(Fresh(past, s))
    decreases |s|
  {
    if s != [] {
      var init, last := s[..|s| - 1], s[|s| - 1];
      SortedInit(s);
      hide Sorted;
      FreshSorted(past, init);
      FreshCovers(past, init);
      EmptyIsNeutral(Fresh(past, init));
      SortedSnoc(Fresh(past, init), last);
    }
  }

  /** The groups of a table with one row more. */
  lemma GroupsSnoc(s: seq<Row>, x: Row)
    ensures Groups(s + [x]) == Groups(s) + FirstOf(s, x)
  {
    hide FirstOf;
    InitOfConcat(s, [x]);
    EmptyIsNeutral(s);
  }

  lemma EarliestStep(s: seq<Row>, x: Row, r: Row)
    requires forall y :: y in s ==> y.id < x.id
    ensures Earliest(r, s + [x]) <==> Earliest(r, s) || (r == x && !Seen(s, x.counter))
  {
    assert x in s + [x];
    assert forall y :: y in s + [x] <==> y in s || y == x;
  }

  /** GROUP BY with MIN(id) keeps exactly the rows that are earliest for their counter. */
  lemma {:induction false} GroupsAreEarliest(s: seq<Row>)
    requires Sorted(s)
    ensures forall r :: r in Groups(s) <==> Earliest(r, s)
    decreases |s|
  {
    if s != [] {
      var n := |s| - 1;
      GroupsAreEarliest(s[..n]);
      EmptyIsNeutral(s[..n]);
      InitAndLast(s);
      forall r {
        EarliestStep(s[..n], s[n], r);
      }
    }
  }

  // ---------- sorting ----------

  lemma {:induction false} InsertPermutes(r: Row, s: seq<Row>)
    ensures multiset(Insert(r, s)) == multiset{r} + multiset(s)
    decreases |s|
  {
    if s != [] && r.counter > s[0].counter {
      InsertPermutes(r, s[1..]);
      HeadAndTail(s);
    }
  }

  lemma {:induction false} InsertOrders(r: Row, s: seq<Row>)
    requires StrictCounters(s) && !Seen(s, r.counter)
    ensures StrictCounters(Insert(r, s))
    decreases |s|
  {
    if s != [] {
      assert s[0] in s;
      if r.counter > s[0].counter {
        InsertOrders(r, s[1..]);
        MembersOfInsert(r, s[1..]);
        ConsIsStrict(s[0], Insert(r, s[1..]));
      } else {
        ConsIsStrict(r, s);
      }
    }
  }

  lemma MembersOfInsert(r: Row, s: seq<Row>)
    ensures forall x :: x in Insert(r, s) ==> x == r || x in s
  {
    InsertPermutes(r, s);
    SameMembers(Insert(r, s), [r] + s);
  }

  lemma ConsIsStrict(r: Row, s: seq<Row>)
    requires StrictCounters(s) && forall x :: x in s ==> r.counter < x.counter
    ensures StrictCounters([r] + s)
  {
    assert forall i :: 0 <= i < |s| ==> s[i] in s;
  }

  lemma HeadIsUnseen(s: seq<Row>)
    requires s != [] && DistinctCounters(s)
    ensures !Seen(s[1..], s[0].counter) && DistinctCounters(s[1..])
  {
  }

  lemma {:induction false} SortSorts(s: seq<Row>)
    ensures multiset(SortByCounter(s)) == multiset(s)
    ensures DistinctCounters(s) ==> StrictCounters(SortByCounter(s))
    decreases |s|
  {
    if s != [] {
      SortSorts(s[1..]);
      HeadAndTail(s);
      hide Insert;
      InsertPermutes(s[0], SortByCounter(s[1..]));
      if DistinctCounters(s) {
        SameMembers(SortByCounter(s[1..]), s[1..]);
        HeadIsUnseen(s);
        hide DistinctCounters, StrictCounters;
        InsertOrders(s[0], SortByCounter(s[1..]));
      }
    }
  }

  lemma HeadsAgree(a: seq<Row>, b: seq<Row>)
    requires a != [] && b != [] && StrictCounters(a) && StrictCounters(b)
    requires a[0] in b && b[0] in a
    ensures a[0] == b[0]
  {
  }

  /** Rows in strictly increasing counter order are determined by which rows they are. */
  lemma {:induction false} StrictOrderIsUnique(a: seq<Row>, b: seq<Row>)
    requires StrictCounters(a) && StrictCounters(b) && multiset(a) == multiset(b)
    ensures a == b
    decreases |a|
  {
    SameMembers(a, b);
    if a != [] {
      HeadsAgree(a, b);
      TailsPermute(a, b);
      StrictOrderIsUnique(a[1..], b[1..]);
      HeadAndTail(a);
      HeadAndTail(b);
    }
  }

  lemma SortIsDetermined(a: seq<Row>, b: seq<Row>)
    requires DistinctCounters(a) && DistinctCounters(b) && multiset(a) == multiset(b)
    ensures SortByCounter(a) == SortByCounter(b)
    ensures StrictCounters(b) ==> SortByCounter(a) == b
  {
    SortSorts(a);
    SortSorts(b);
    StrictOrderIsUnique(SortByCounter(a), SortByCounter(b));
    if StrictCounters(b) { StrictOrderIsUnique(SortByCounter(a), b); }
  }

  lemma PartsAreDistinct(s: seq<Row>, n: int)
    requires DistinctCounters(s)
    ensures DistinctCounters(FirstN(s, n)) && DistinctCounters(LastN(s, n))
  {
  }

  lemma ReverseIsDistinct(s: seq<Row>)
    requires DistinctCounters(s)
    ensures DistinctCounters(Reverse(s))
  {
  }

  lemma PageIsDistinct(log: seq<Row>, up: bool, base: int, amount: int)
    ensures DistinctCounters(Page(log, up, base, amount))
  {
    FreshDistinct([], Window(log, up, base));
    PartsAreDistinct(Groups(Window(log, up, base)), amount);
  }

  /** The answer is its page, the first or last groups by id, put in counter order. */
  lemma AnswerIsSortedPage(log: seq<Row>, up: bool, base: int, amount: int)
    ensures var page := Page(log, up, base, amount);
            var answer := Answer(log, up, base, amount);
            && answer == SortByCounter(page)
            && multiset(answer) == multiset(page)
            && StrictCounters(answer)
  {
    var page := Page(log, up, base, amount);
    PageIsDistinct(log, up, base, amount);
    hide Groups, Window, DistinctCounters, StrictCounters;
    if !up {
      FirstOfReverse(Groups(Window(log, up, base)), amount);
      ReversePermutes(page);
      ReverseIsDistinct(page);
      SortIsDetermined(Reverse(page), page);
    }
    SortSorts(page);
  }
}
