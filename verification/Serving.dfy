/** Whole requests: the base lookup on one state of the table, the data query on a later one. */
module Serving {
  import opened Types
  import opened Seqs
  import opened Sql
  import opened Retention
  import opened Table
  import opened Answers
  import opened Hash
  import opened Requests
  import Alarms
  import TwoStatements

  datatype Served = Rows(rows: seq<Row>) | Error(code: int)

  /** A table request, its columns already checked: found is the table the lookup sees, log the one the
      data query sees. */
  function ServeTable(found: seq<Row>, log: seq<Row>, req: Request, kind: CharKind, baseOk: bool, dataOk: bool): Served {
    var b := Resolve(found, req, kind, baseOk);
    if b.id < 0 then Error(b.id) else if !dataOk then Error(-2) else Rows(Answer(log, b.up, b.id, b.amount))
  }

  /** An alarm request. */
  function ServeAlarms(found: seq<Row>, log: seq<Row>, req: Request, kind: CharKind, baseOk: bool, dataOk: bool): Served {
    var b := Resolve(found, req, kind, baseOk);
    if b.id < 0 then Error(b.id) else if !dataOk then Error(-2)
    else Rows(Alarms.AlarmAnswer(log, b.up, b.id, GetFilter(req), b.amount))
  }

  lemma ResolvedIdIsStored(log: seq<Row>, req: Request, kind: CharKind, ok: bool)
    requires Contiguous(log) && Resolve(log, req, kind, ok).id >= 0
    ensures HasId(log, Resolve(log, req, kind, ok).id)
  {
    hide Resolve, Names, Candidates, Matched;
    ResolveMatches(log, req, kind, ok);
    var k, r :| Names(req, k, kind) && r in log && r.id == Resolve(log, req, kind, ok).id && Candidates(req, k).Holds(r);
    var i :| 0 <= i < |log| && log[i] == r;
  }

  /** A "down" request served across any parent activity gives what the table at base-lookup time would
      have given if and only if it ends in an error anyway or its answer survives the cut. */
  lemma DownRequestReadsLookupState(lim: Limits, log: seq<Row>, calls: seq<Call>, req: Request, kind: CharKind, ok: bool,
                                    dataOk: bool)
    requires lim.Valid() && Contiguous(log)
    requires !Resolve(log, req, kind, ok).up
    ensures var b := Resolve(log, req, kind, ok);
            var log' := LogAfter(lim, log, calls);
            ServeTable(log, log', req, kind, ok, dataOk) == ServeTable(log, log, req, kind, ok, dataOk) <==>
              b.id < 0 || !dataOk || TwoStatements.Survives(log, log', b.id, b.amount)
  {
    hide Resolve, Answer, Window, LogAfter, TwoStatements.Survives;
    var b := Resolve(log, req, kind, ok);
    if b.id >= 0 {
      ResolvedIdIsStored(log, req, kind, ok);
      TwoStatements.DownAnswerIsStable(lim, log, calls, b.id, b.amount);
    }
  }

  /** An "up" alarm request served across any parent activity that leaves its base row in the table: unless
      a LIMIT filled the list (a negative one never does), the list with the base row's masked word gives
      that of every later row, rows inserted meanwhile included. */
  lemma AlarmRequestIsLossless(lim: Limits, log: seq<Row>, calls: seq<Call>, req: Request, kind: CharKind, b: nat, i: nat)
    requires lim.Valid() && Contiguous(log) && b <= i < |LogAfter(lim, log, calls)|
    requires var base := Resolve(log, req, kind, true);
             base.up && base.id == LogAfter(lim, log, calls)[b].id
    requires var served := ServeAlarms(log, LogAfter(lim, log, calls), req, kind, true, true);
             served.Rows? && (GetAmount(req) < 0 || |served.rows| < GetAmount(req))
    ensures var later := LogAfter(lim, log, calls);
            var list := ServeAlarms(log, later, req, kind, true, true).rows;
            var f := GetFilter(req);
            Alarms.Replay(Alarms.Masked(later[b].alarms, f), list, f, later[i].id) == Alarms.Masked(later[i].alarms, f)
  {
    SuffixOfHistory(lim, log, calls);
    AmountIsKept(log, req, kind);
    hide Resolve, LogAfter, Contiguous, Alarms.AlarmAnswer, Alarms.Replay, Alarms.Masked, GetAmount, GetFilter;
    Alarms.UpListIsLossless(LogAfter(lim, log, calls), b, i, GetFilter(req), GetAmount(req));
  }

  lemma AmountIsKept(log: seq<Row>, req: Request, kind: CharKind)
    requires Contiguous(log)
    ensures var b := Resolve(log, req, kind, true); b.id >= 0 ==> b.amount == GetAmount(req)
  {
    hide ResolveCase, CaseTaken, GetAmount, Contiguous;
    if Resolve(log, req, kind, true).id >= 0 {
      var k := CaseTaken(req.base.value.bytes, kind).value;
      CaseIsNearest(log, req, k, true);
    }
  }

  // ---------- paging by requests ----------

  /** {"base":"id","id":id,"amount":amount}, which goes down. */
  function IdRequest(id: int, amount: int): Request {
    Request(Some(JText(TextOf(Id))), None, Some(JInt(amount)), None, Some(JInt(id)), None, None)
  }

  /** Such a request is answered when its row is in the table the lookup sees, from the one the data query
      sees. */
  lemma IdRequestIsServed(found: seq<Row>, log: seq<Row>, id: int, amount: int, kind: CharKind)
    requires 0 <= amount <= MAX_AMOUNT
    ensures ServeTable(found, log, IdRequest(id, amount), kind, true, true) ==
              if IdStored(found, id) && id >= 0 then Rows(Answer(log, false, id, amount))
              else if IdStored(found, id) then Error(id) else Error(-1)
  {
    hide CaseTaken, Answer;
    KeywordsDispatch(Id, kind);
    AmountIsCapped(IdRequest(id, amount));
  }

  lemma OldestBeginsPage(log: seq<Row>, base: int, n: int, oldest: Row)
    requires Sorted(log) && oldest in Answer(log, false, base, n)
    requires forall r :: r in Answer(log, false, base, n) ==> oldest.id <= r.id
    ensures Page(log, false, base, n) != [] && Page(log, false, base, n)[0] == oldest
  {
    var page := Page(log, false, base, n);
    AnswerIsSortedPage(log, false, base, n);
    hide StrictCounters, SortByCounter, Answer, Page;
    SameMembers(Answer(log, false, base, n), page);
    PageIsSorted(log, base, n);
    assert page[0] in page;
    var i :| 0 <= i < |page| && page[i] == oldest;
  }

  lemma PageIsSorted(log: seq<Row>, base: int, n: int)
    requires Sorted(log)
    ensures Sorted(Page(log, false, base, n))
  {
    WindowSorted(log, IdAtMost(base));
    FreshSorted([], Window(log, false, base));
    Alarms.LastKeepsUpper(Groups(Window(log, false, base)), n);
  }

  /** A client asks for n rows, gets them all, and asks for m more from just below the oldest one it got.
      found is the table the first lookup sees, log the one its data query sees, and later1 and later2
      those of the second request. Refused, it tells that the row below is gone: had it not been there
      either when the first was answered, that answer already had all rows. Served, the two answers hold
      exactly the rows of one for n + m from log if and only if the second one's rows survived. */
  lemma PagingByRequests(lim: Limits, found: seq<Row>, log: seq<Row>, calls1: seq<Call>, calls2: seq<Call>,
                         id: int, n: int, m: int, oldest: Row, kind: CharKind)
    requires lim.Valid() && Contiguous(log) && IdStored(found, id) && id >= 0
    requires n >= 1 && m >= 0 && n + m <= MAX_AMOUNT
    requires var first := Answer(log, false, id, n);
             |first| == n && oldest in first && forall r :: r in first ==> oldest.id <= r.id
    ensures var later1 := LogAfter(lim, log, calls1);
            var later2 := LogAfter(lim, later1, calls2);
            var first := ServeTable(found, log, IdRequest(id, n), kind, true, true);
            var next := ServeTable(later1, later2, IdRequest(oldest.id - 1, m), kind, true, true);
            var both := ServeTable(found, log, IdRequest(id, n + m), kind, true, true);
            && first.Rows? && both.Rows?
            && (next.Rows? <==> HasId(later1, oldest.id - 1))
            && (next.Rows? ==>
                  (MadeOf(both.rows, next.rows, first.rows) <==>
                   TwoStatements.Survives(log, later2, oldest.id - 1, m)))
            && (next.Error? && !HasId(log, oldest.id - 1) ==> both == first)
  {
    hide *;
    var later1 := LogAfter(lim, log, calls1);
    var below := oldest.id - 1;
    SuffixOfHistory(lim, log, calls1);
    ContiguousIsSorted(log);
    IdRequestIsServed(found, log, id, n, kind);
    IdRequestIsServed(found, log, id, n + m, kind);
    IdRequestIsServed(later1, LogAfter(lim, later1, calls2), below, m, kind);
    FullPage(log, id, n, oldest);
    StoredIsHas(later1, below);
    if HasId(later1, below) {
      StoredIdIsPositive(later1, below);
      PagesMeet(lim, log, calls1, calls2, id, n, m, oldest);
    }
    if !HasId(log, below) { PagingEndsAtOldest(log, id, n, m); }
  }

  lemma StoredIdIsPositive(log: seq<Row>, id: int)
    requires Contiguous(log) && HasId(log, id)
    ensures id >= 1
  {
  }

  lemma PagesMeet(lim: Limits, log: seq<Row>, calls1: seq<Call>, calls2: seq<Call>, base: int, n: int, m: int, oldest: Row)
    requires lim.Valid() && Contiguous(log) && n >= 1 && m >= 0 && oldest in log
    requires |Page(log, false, base, n)| == n && Page(log, false, base, n)[0] == oldest
    requires HasId(LogAfter(lim, log, calls1), oldest.id - 1)
    ensures var later2 := LogAfter(lim, LogAfter(lim, log, calls1), calls2);
            MadeOf(Answer(log, false, base, n + m), Answer(later2, false, oldest.id - 1, m), Answer(log, false, base, n)) <==>
            TwoStatements.Survives(log, later2, oldest.id - 1, m)
  {
    hide *;
    var below := oldest.id - 1;
    var later2 := LogAfter(lim, LogAfter(lim, log, calls1), calls2);
    var whole, page := Answer(log, false, base, n + m), Answer(log, false, base, n);
    ContiguousIsSorted(log);
    StoredWasThere(lim, log, calls1, below, oldest);
    LogAfterMore(lim, log, calls1, calls2);
    TwoStatements.DownAnswerIsStable(lim, log, calls1 + calls2, below, m);
    DownPagingComposes(log, base, n, m);
    AnswerIsDetermined(log, later2, below, m, whole, page);
  }

  lemma FullPage(log: seq<Row>, base: int, n: int, oldest: Row)
    requires Sorted(log) && n >= 1
    requires var first := Answer(log, false, base, n);
             |first| == n && oldest in first && forall r :: r in first ==> oldest.id <= r.id
    ensures |Page(log, false, base, n)| == n && Page(log, false, base, n)[0] == oldest
    ensures oldest in log
  {
    OldestBeginsPage(log, base, n, oldest);
    AnswerIsSortedPage(log, false, base, n);
    PageRowsAreLogged(log, base, n);
    hide Answer, Page;
    SameMembers(Answer(log, false, base, n), Page(log, false, base, n));
  }

  /** Answers that complete the same page to the same whole are the same. */
  lemma AnswerIsDetermined(log: seq<Row>, log': seq<Row>, base: int, n: int, whole: seq<Row>, page: seq<Row>)
    requires MadeOf(whole, Answer(log, false, base, n), page)
    ensures MadeOf(whole, Answer(log', false, base, n), page) <==>
              Answer(log', false, base, n) == Answer(log, false, base, n)
  {
    var a, a' := Answer(log, false, base, n), Answer(log', false, base, n);
    AnswerIsSortedPage(log, false, base, n);
    AnswerIsSortedPage(log', false, base, n);
    hide Answer, Page, SortByCounter, StrictCounters, MadeOf;
    PartIsDetermined(whole, a, a', page);
    if multiset(a') == multiset(a) { StrictOrderIsUnique(a', a); }
  }

  /** No later insert has an id below a stored row's. */
  lemma StoredWasThere(lim: Limits, log: seq<Row>, calls: seq<Call>, id: int, above: Row)
    requires lim.Valid() && Contiguous(log) && above in log && id < above.id
    requires HasId(LogAfter(lim, log, calls), id)
    ensures HasId(log, id)
  {
    var log' := LogAfter(lim, log, calls);
    TwoStatements.MemberHasId(log, above);
    OlderRowsWereThere(lim, log, calls, above.id);
    hide LogAfter, Contiguous;
    var i :| 0 <= i < |log'| && log'[i].id == id;
    assert log'[i] in log';
    TwoStatements.MemberHasId(log, log'[i]);
  }

  lemma StoredIsHas(log: seq<Row>, id: int)
    ensures IdStored(log, id) <==> HasId(log, id)
  {
    if HasId(log, id) {
      var i :| 0 <= i < |log| && log[i].id == id;
      assert log[i] in log;
    }
  }

  // ---------- earliest rows of "up" requests ----------

  /** A request from "first", or upward from "counter", whatever the parent did between its statements:
      every answered row is the earliest for its counter in the table the data query saw, provided
      counters never decrease there (which "first" does not need). */
  lemma UpFromCounterIsEarliest(lim: Limits, log: seq<Row>, calls: seq<Call>, req: Request, kind: CharKind, k: Keyword,
                                ok: bool, dataOk: bool)
    requires lim.Valid() && Contiguous(log) && Names(req, k, kind)
    requires k == First || (k == Counter && GoesUp(req) && MonotoneCounters(LogAfter(lim, log, calls)))
    ensures var log' := LogAfter(lim, log, calls);
            var served := ServeTable(log, log', req, kind, ok, dataOk);
            served.Rows? ==> forall r :: r in served.rows ==> Earliest(r, log')
  {
    var log' := LogAfter(lim, log, calls);
    var b := Resolve(log, req, kind, ok);
    SuffixOfHistory(lim, log, calls);
    ContiguousIsSorted(log');
    OnlyThese(req, k);
    hide Resolve, LogAfter, Contiguous, Sorted, Answer, Candidates, Names, GoesUp, GetAmount, Earliest, MonotoneCounters;
    if b.id >= 0 {
      BaseIsNearest(log, req, kind, ok, k);
      ResolvedIdIsStored(log, req, kind, ok);
      ResolvedCandidate(log, req, kind, ok, k);
      OlderRowsWereThere(lim, log, calls, b.id);
      UpAnswerFromBase(log, log', Candidates(req, k), b.id, b.amount);
    }
  }

  lemma OnlyThese(req: Request, k: Keyword)
    requires k == First || (k == Counter && GoesUp(req))
    ensures Candidates(req, k) == Always || (k == Counter && Candidates(req, k).CounterAtLeast?)
  {
  }

  lemma UpAnswerFromBase(log: seq<Row>, log': seq<Row>, p: Where, base: int, amount: int)
    requires Sorted(log') && (p == Always || (p.CounterAtLeast? && MonotoneCounters(log')))
    requires exists r :: r in log && r.id == base && p.Holds(r)
    requires forall r :: r in log && p.Holds(r) ==> base <= r.id
    requires forall x :: x in log' && x.id <= base ==> x in log
    requires forall x, y :: x in log && y in log' && x !in log' ==> x.id < y.id
    ensures forall r :: r in Answer(log', true, base, amount) ==> Earliest(r, log')
  {
    hide Answer, Sorted, Filter, Seen;
    NothingBeforeHasItsCounter(log, log', p, base);
    UpAnswersAreEarliest(log', base, amount);
    UpAnswersLeadWindow(log', base, amount);
  }

  /** The row a named keyword resolves to qualifies for it. */
  lemma ResolvedCandidate(log: seq<Row>, req: Request, kind: CharKind, ok: bool, k: Keyword)
    requires Contiguous(log) && Names(req, k, kind) && Resolve(log, req, kind, ok).id >= 0
    ensures exists r :: r in log && r.id == Resolve(log, req, kind, ok).id && Candidates(req, k).Holds(r)
  {
    hide Resolve, Candidates, Matched, Contiguous;
    ResolveMatches(log, req, kind, ok);
  }

  lemma OlderRowsWereThere(lim: Limits, log: seq<Row>, calls: seq<Call>, id: int)
    requires lim.Valid() && Contiguous(log) && HasId(log, id)
    ensures forall x :: x in LogAfter(lim, log, calls) && x.id <= id ==> x in log
    ensures forall x, y :: x in log && y in LogAfter(lim, log, calls) && x !in LogAfter(lim, log, calls) ==> x.id < y.id
  {
    var acc, log' := Accepted(lim, log, calls), LogAfter(lim, log, calls);
    TwoStatements.LostAreBelow(lim, log, calls);
    hide Contiguous, LogAfter, Accepted;
    var cut := TwoStatements.HistorySplits(lim, log, calls);
    assert forall x :: x in log' ==> x in cut + log';
    assert forall x :: x in log + acc ==> x in log || x in acc;
    var i :| 0 <= i < |log| && log[i].id == id;
    assert log[i] in log;
  }

  lemma NothingBeforeHasItsCounter(log: seq<Row>, log': seq<Row>, p: Where, base: int)
    requires Sorted(log') && (p == Always || (p.CounterAtLeast? && MonotoneCounters(log')))
    requires exists r :: r in log && r.id == base && p.Holds(r)
    requires forall r :: r in log && p.Holds(r) ==> base <= r.id
    requires forall x :: x in log' && x.id <= base ==> x in log
    requires forall x, y :: x in log && y in log' && x !in log' ==> x.id < y.id
    ensures forall r :: r in Window(log', true, base) ==> !Seen(Filter(log', IdAtMost(base - 1)), r.counter)
  {
    var below := Filter(log', IdAtMost(base - 1));
    FilterMembers(log', IdAtLeast(base));
    FilterMembers(log', IdAtMost(base - 1));
    if p.CounterAtLeast? {
      OrderedInBoth(log');
      var b :| b in log && b.id == base && p.Holds(b);
      hide MonotoneCounters, Sorted, Filter;
      assert below != [] ==> below[0] in below && b in log';
    }
  }
}
