/** Which single state of the table, if any, a request served by two statements could have read: the
    base lookup sees one state and the data query a later one. */
module OneState {
  import opened Types
  import opened Seqs
  import opened Sql
  import opened Retention
  import opened Table
  import opened Answers
  import opened TwoStatements
  import opened Hash
  import opened Requests
  import opened Serving
  import Alarms

  /** The answer is that of the table as it was after the first n of the parent's calls. */
  ghost predicate ReadsState(lim: Limits, log: seq<Row>, calls: seq<Call>, req: Request, kind: CharKind, dataOk: bool, n: nat)
    requires n <= |calls|
  {
    var state := LogAfter(lim, log, calls[..n]);
    ServeTable(log, LogAfter(lim, log, calls), req, kind, true, dataOk) == ServeTable(state, state, req, kind, true, dataOk)
  }

  /** The request is atomic: some state of the table, at its lookup or since, gives its answer. */
  ghost predicate ReadsOneState(lim: Limits, log: seq<Row>, calls: seq<Call>, req: Request, kind: CharKind, dataOk: bool) {
    exists n :: 0 <= n <= |calls| && ReadsState(lim, log, calls, req, kind, dataOk, n)
  }

  lemma FirstAndLastState(lim: Limits, log: seq<Row>, calls: seq<Call>)
    ensures LogAfter(lim, log, calls[..0]) == log
    ensures LogAfter(lim, log, calls[..|calls|]) == LogAfter(lim, log, calls)
  {
    assert calls[..|calls|] == calls;
  }

  // ---------- requests by id ----------

  lemma LookupById(found: seq<Row>, req: Request, kind: CharKind)
    requires Contiguous(found) && Names(req, Id, kind)
    ensures Resolve(found, req, kind, true) == ResolveCase(found, req, Id, true)
  {
    hide ResolveCase, CaseTaken, Contiguous;
  }

  lemma CaseById(found: seq<Row>, req: Request)
    requires Contiguous(found)
    ensures var id := IntValue(req.id);
            var b := ResolveCase(found, req, Id, true);
            && (req.id.Some? && HasId(found, id) ==> b == Base(id, GoesUp(req), GetAmount(req)) && id >= 0)
            && (req.id.None? || !HasId(found, id) ==> b.id == -1)
  {
    IdsArePositive(found);
    StoredIsHas(found, IntValue(req.id));
    hide GoesUp, GetAmount, IntValue, Contiguous, HasId;
  }

  lemma ById(found: seq<Row>, log: seq<Row>, req: Request, kind: CharKind, dataOk: bool)
    requires Contiguous(found) && Names(req, Id, kind) && req.id.Some?
    ensures ServeTable(found, log, req, kind, true, dataOk) ==
              if !HasId(found, IntValue(req.id)) then Error(-1)
              else if !dataOk then Error(-2)
              else Rows(Answer(log, GoesUp(req), IntValue(req.id), GetAmount(req)))
  {
    hide Resolve, ResolveCase, Names, Answer, GoesUp, GetAmount, IntValue, Contiguous, HasId;
    LookupById(found, req, kind);
    CaseById(found, req);
  }

  /** A resolved "id" request has an id, and its row is stored. */
  lemma ByIdResolved(log: seq<Row>, req: Request, kind: CharKind)
    requires Contiguous(log) && Names(req, Id, kind) && Resolve(log, req, kind, true).id >= 0
    ensures req.id.Some? && Resolve(log, req, kind, true).id == IntValue(req.id) && HasId(log, IntValue(req.id))
  {
    hide Resolve, ResolveCase, Names, GoesUp, GetAmount, IntValue, Contiguous, HasId;
    LookupById(log, req, kind);
    CaseById(log, req);
  }

  /** An answer from a stored base row has a row with an id no greater than the base. */
  lemma AnswerReachesBase(log: seq<Row>, up: bool, base: int, amount: int)
    requires Sorted(log) && HasId(log, base) && amount != 0
    ensures exists r :: r in Answer(log, up, base, amount) && r.id <= base
  {
    AnswerIsSortedPage(log, up, base, amount);
    SameMembers(Answer(log, up, base, amount), Page(log, up, base, amount));
    if up {
      PageStartsAtBase(log, base, amount);
      hide Answer, Page, Sorted;
    } else {
      DownPageIsFilled(log, base, amount);
      PageRowsAreLogged(log, base, amount);
      hide Answer, Page, Sorted;
    }
    assert Page(log, up, base, amount)[0] in Page(log, up, base, amount);
  }

  lemma DownPageIsFilled(log: seq<Row>, base: int, amount: int)
    requires HasId(log, base) && amount != 0
    ensures Page(log, false, base, amount) != []
  {
    var i :| 0 <= i < |log| && log[i].id == base;
    assert log[i] in log;
    FilterMembers(log, IdAtMost(base));
    hide Filter;
    FreshCovers([], Window(log, false, base));
  }

  lemma AnswersAreLater(log: seq<Row>, up: bool, base: int, amount: int)
    requires forall x :: x in log ==> base < x.id
    ensures forall r :: r in Answer(log, up, base, amount) ==> base < r.id
  {
    AnswerIsSortedPage(log, up, base, amount);
    SameMembers(Answer(log, up, base, amount), Page(log, up, base, amount));
    if up { UpPageIsLogged(log, base, amount); } else { PageRowsAreLogged(log, base, amount); }
    hide Answer, Page;
  }

  lemma NoRowsAsked(log: seq<Row>, up: bool, base: int)
    ensures Answer(log, up, base, 0) == []
  {
    AnswerIsSortedPage(log, up, base, 0);
    SameMembers(Answer(log, up, base, 0), []);
  }

  /** Once a row is cut, all rows stored have greater ids. */
  lemma CutIsBelow(lim: Limits, log: seq<Row>, calls: seq<Call>, base: int)
    requires lim.Valid() && Contiguous(log) && HasId(log, base) && !HasId(LogAfter(lim, log, calls), base)
    ensures forall x :: x in LogAfter(lim, log, calls) ==> base < x.id
  {
    var log' := LogAfter(lim, log, calls);
    var i :| 0 <= i < |log| && log[i].id == base;
    LostAreBelow(lim, log, calls);
    hide LogAfter, Contiguous;
    assert log[i] in log;
    if log[i] in log' { MemberHasId(log', log[i]); }
  }

  lemma DiffersFrom(state: seq<Row>, log: seq<Row>, up: bool, base: int, amount: int)
    requires Contiguous(state) && HasId(state, base) && amount != 0
    requires forall x :: x in log ==> base < x.id
    ensures Answer(state, up, base, amount) != Answer(log, up, base, amount)
  {
    ContiguousIsSorted(state);
    AnswerReachesBase(state, up, base, amount);
    AnswersAreLater(log, up, base, amount);
    hide Answer;
  }

  /** An "id" request, in either direction, is atomic if and only if its data query fails, it asks for no
      rows, or its row is still stored at the end. */
  lemma IdRequestReadsOneState(lim: Limits, log: seq<Row>, calls: seq<Call>, req: Request, kind: CharKind, dataOk: bool)
    requires lim.Valid() && Contiguous(log) && Names(req, Id, kind) && Resolve(log, req, kind, true).id >= 0
    ensures ReadsOneState(lim, log, calls, req, kind, dataOk) <==>
              !dataOk || GetAmount(req) == 0 || HasId(LogAfter(lim, log, calls), Resolve(log, req, kind, true).id)
  {
    var log' := LogAfter(lim, log, calls);
    var id, up, amount := IntValue(req.id), GoesUp(req), GetAmount(req);
    ByIdResolved(log, req, kind);
    SuffixOfHistory(lim, log, calls);
    FirstAndLastState(lim, log, calls);
    hide LogAfter, Contiguous, Answer, Resolve, ServeTable, Names, HasId, GetAmount, IntValue, GoesUp;
    ById(log, log', req, kind, dataOk);
    ById(log, log, req, kind, dataOk);
    ById(log', log', req, kind, dataOk);
    NoRowsAsked(log, up, id);
    NoRowsAsked(log', up, id);
    if !dataOk || amount == 0 {
      assert ReadsState(lim, log, calls, req, kind, dataOk, 0);
    } else if HasId(log', id) {
      assert ReadsState(lim, log, calls, req, kind, dataOk, |calls|);
    } else {
      CutIsBelow(lim, log, calls, id);
      forall n | 0 <= n <= |calls| ensures !ReadsState(lim, log, calls, req, kind, dataOk, n) {
        var state := LogAfter(lim, log, calls[..n]);
        SuffixOfHistory(lim, log, calls[..n]);
        ById(state, state, req, kind, dataOk);
        if HasId(state, id) { DiffersFrom(state, log', up, id, amount); }
      }
    }
  }

  // ---------- "up" requests ----------

  /** What an answer depends on. */
  lemma AnswerOfWindow(log: seq<Row>, up: bool, base: int, base': int, amount: int)
    requires Window(log, up, base) == Window(log, up, base')
    ensures Answer(log, up, base, amount) == Answer(log, up, base', amount)
  {
  }

  lemma ServedFromBase(found: seq<Row>, log: seq<Row>, req: Request, kind: CharKind, dataOk: bool)
    requires Resolve(found, req, kind, true).id >= 0
    ensures var b := Resolve(found, req, kind, true);
            ServeTable(found, log, req, kind, true, dataOk) ==
              if !dataOk then Error(-2) else Rows(Answer(log, b.up, b.id, b.amount))
  {
    hide Resolve, Answer;
  }

  /** If a later state of the table has a qualifying row, no older one than the base, and the same window from
      its first one as from the base, then it gives the answer. */
  lemma SameWindowSameAnswer(log: seq<Row>, log': seq<Row>, req: Request, kind: CharKind, k: Keyword, dataOk: bool)
    requires Names(req, k, kind) && (k == First || (k != Last && GoesUp(req)))
    requires Contiguous(log) && Contiguous(log')
    requires Resolve(log, req, kind, true).id >= 0 && Resolve(log', req, kind, true).id >= 0
    requires Window(log', true, Resolve(log, req, kind, true).id) == Window(log', true, Resolve(log', req, kind, true).id)
    ensures ServeTable(log, log', req, kind, true, dataOk) == ServeTable(log', log', req, kind, true, dataOk)
  {
    BaseIsNearest(log, req, kind, true, k);
    BaseIsNearest(log', req, kind, true, k);
    var b, b' := Resolve(log, req, kind, true), Resolve(log', req, kind, true);
    hide Resolve, ServeTable, Answer, Window, GoesUp, GetAmount, Names, Contiguous, Candidates;
    ServedFromBase(log, log', req, kind, dataOk);
    ServedFromBase(log', log', req, kind, dataOk);
    AnswerOfWindow(log', true, b.id, b'.id, b.amount);
  }

  /** A later state resolves a request whose operand was there as soon as a row qualifies. */
  lemma ResolvesAgain(log: seq<Row>, log': seq<Row>, req: Request, kind: CharKind, k: Keyword, r: Row)
    requires Contiguous(log) && Contiguous(log') && Names(req, k, kind) && Resolve(log, req, kind, true).id >= 0
    requires r in log' && Candidates(req, k).Holds(r)
    ensures Resolve(log', req, kind, true).id >= 0
  {
    ResolveMatches(log, req, kind, true);
    ResolveMatches(log', req, kind, true);
    hide Resolve, Contiguous, CaseTaken, Candidates;
    assert HasOperand(req, k);
    assert Matched(log', req, k, true);
  }

  /** An "up" request from "id", "date" or "counter" gives what the table the data query sees would have
      given, as long as its base row is still stored. */
  lemma UpRequestReadsLastState(lim: Limits, log: seq<Row>, calls: seq<Call>, req: Request, kind: CharKind, k: Keyword,
                                dataOk: bool)
    requires lim.Valid() && Contiguous(log) && Names(req, k, kind) && Resolve(log, req, kind, true).id >= 0
    requires k != Last && k != First && GoesUp(req)
    requires HasId(LogAfter(lim, log, calls), Resolve(log, req, kind, true).id)
    ensures var log' := LogAfter(lim, log, calls);
            ServeTable(log, log', req, kind, true, dataOk) == ServeTable(log', log', req, kind, true, dataOk)
  {
    var log' := LogAfter(lim, log, calls);
    SuffixOfHistory(lim, log, calls);
    hide LogAfter, ServeTable, Resolve, Names, Contiguous, Candidates, HasId, GoesUp;
    ResolvesToSame(lim, log, calls, req, kind, k);
    SameWindowSameAnswer(log, log', req, kind, k, dataOk);
  }

  /** The lookup of an "up" request: a qualifying row, and the first of them. */
  lemma UpLookup(log: seq<Row>, req: Request, kind: CharKind, k: Keyword)
    requires Contiguous(log) && Names(req, k, kind) && Resolve(log, req, kind, true).id >= 0
    requires k == First || (k != Last && GoesUp(req))
    ensures var base := Resolve(log, req, kind, true).id;
            && (exists r :: r in log && r.id == base && Candidates(req, k).Holds(r))
            && (forall r :: r in log && Candidates(req, k).Holds(r) ==> base <= r.id)
  {
    hide Resolve, Names, Contiguous, Candidates, GoesUp, GetAmount;
    BaseIsNearest(log, req, kind, true, k);
    ResolvedCandidate(log, req, kind, true, k);
  }

  lemma ResolvesToSame(lim: Limits, log: seq<Row>, calls: seq<Call>, req: Request, kind: CharKind, k: Keyword)
    requires lim.Valid() && Contiguous(log) && Names(req, k, kind) && Resolve(log, req, kind, true).id >= 0
    requires k != Last && k != First && GoesUp(req)
    requires HasId(LogAfter(lim, log, calls), Resolve(log, req, kind, true).id)
    ensures Contiguous(LogAfter(lim, log, calls))
    ensures Resolve(LogAfter(lim, log, calls), req, kind, true).id == Resolve(log, req, kind, true).id
  {
    var log', base := LogAfter(lim, log, calls), Resolve(log, req, kind, true).id;
    SuffixOfHistory(lim, log, calls);
    hide LogAfter, Resolve, Names, Contiguous, Candidates, HasId, GoesUp;
    StoredBaseQualifies(lim, log, calls, req, kind, k);
    var r :| r in log' && r.id == base && Candidates(req, k).Holds(r);
    ResolvesAgain(log, log', req, kind, k, r);
    UpLookup(log, req, kind, k);
    UpLookup(log', req, kind, k);
    ResolvedIdIsStored(log, req, kind, true);
    OlderRowsWereThere(lim, log, calls, base);
  }

  lemma StoredBaseQualifies(lim: Limits, log: seq<Row>, calls: seq<Call>, req: Request, kind: CharKind, k: Keyword)
    requires lim.Valid() && Contiguous(log) && Names(req, k, kind) && Resolve(log, req, kind, true).id >= 0
    requires HasId(LogAfter(lim, log, calls), Resolve(log, req, kind, true).id)
    ensures var base := Resolve(log, req, kind, true).id;
            exists r :: r in LogAfter(lim, log, calls) && r.id == base && Candidates(req, k).Holds(r)
  {
    var log' := LogAfter(lim, log, calls);
    var base := Resolve(log, req, kind, true).id;
    ResolvedIdIsStored(log, req, kind, true);
    ResolvedCandidate(log, req, kind, true, k);
    OlderRowsWereThere(lim, log, calls, base);
    ContiguousIsSorted(log);
    hide LogAfter, Resolve, Names, Contiguous, Candidates;
    var r :| r in log && r.id == base && Candidates(req, k).Holds(r);
    var i :| 0 <= i < |log'| && log'[i].id == base;
    assert log'[i] in log' && log'[i] in log;
    Alarms.SameIdSameRow(log, r, log'[i]);
  }

  /** When every row stored qualifies and lies above the base, the whole table is the window both ways. */
  lemma WholeTableQualifies(log: seq<Row>, log': seq<Row>, req: Request, kind: CharKind, k: Keyword, dataOk: bool)
    requires Names(req, k, kind) && (k == First || (k != Last && GoesUp(req)))
    requires Contiguous(log) && Contiguous(log') && log' != []
    requires Resolve(log, req, kind, true).id >= 0
    requires forall x :: x in log' ==> Candidates(req, k).Holds(x) && Resolve(log, req, kind, true).id <= x.id
    ensures ServeTable(log, log', req, kind, true, dataOk) == ServeTable(log', log', req, kind, true, dataOk)
  {
    hide Resolve, ServeTable, Names, Contiguous, Candidates, Filter;
    assert log'[0] in log';
    ResolvesAgain(log, log', req, kind, k, log'[0]);
    BaseIsNearest(log', req, kind, true, k);
    FilterAll(log', IdAtLeast(Resolve(log, req, kind, true).id));
    FilterAll(log', IdAtLeast(Resolve(log', req, kind, true).id));
    SameWindowSameAnswer(log, log', req, kind, k, dataOk);
  }

  lemma NeverEmptied(lim: Limits, log: seq<Row>, calls: seq<Call>)
    requires lim.Valid() && Contiguous(log) && log != []
    ensures LogAfter(lim, log, calls) != []
  {
    SuffixOfHistory(lim, log, calls);
  }

  /** A "first" request on a table with rows always gives what the table the data query sees would have
      given, whatever the parent did in between. */
  lemma FirstRequestReadsLastState(lim: Limits, log: seq<Row>, calls: seq<Call>, req: Request, kind: CharKind, dataOk: bool)
    requires lim.Valid() && Contiguous(log) && Names(req, First, kind) && log != []
    ensures var log' := LogAfter(lim, log, calls);
            ServeTable(log, log', req, kind, true, dataOk) == ServeTable(log', log', req, kind, true, dataOk)
  {
    var log' := LogAfter(lim, log, calls);
    SuffixOfHistory(lim, log, calls);
    NeverEmptied(lim, log, calls);
    OldestFirst(log);
    FirstResolves(log, req, kind);
    AllAreFromOldest(lim, log, calls);
    hide LogAfter, ServeTable, Resolve, Names, Contiguous;
    WholeTableQualifies(log, log', req, kind, First, dataOk);
  }

  lemma FirstResolves(log: seq<Row>, req: Request, kind: CharKind)
    requires Contiguous(log) && Names(req, First, kind) && log != []
    ensures Resolve(log, req, kind, true).id == log[0].id >= 0
  {
    OldestIsFirst(log);
    hide CaseTaken, MinId;
  }

  lemma AllAreFromOldest(lim: Limits, log: seq<Row>, calls: seq<Call>)
    requires lim.Valid() && Contiguous(log) && log != []
    ensures forall x :: x in LogAfter(lim, log, calls) ==> log[0].id <= x.id
  {
    OldestFirst(log);
    MemberHasId(log, log[0]);
    OlderRowsWereThere(lim, log, calls, log[0].id);
    hide LogAfter, Contiguous;
  }

  /** The rows ever stored are ordered by what the keyword asks about. */
  ghost predicate OrderedFor(k: Keyword, all: seq<Row>) {
    (k == Counter && MonotoneCounters(all)) || (k == Date && MonotoneDates(all))
  }

  /** So does an upward "counter" request on counters that never decrease, and an upward "date" request on
      dates that never decrease, even when its base row was cut. */
  lemma OrderedUpRequestReadsLastState(lim: Limits, log: seq<Row>, calls: seq<Call>, req: Request, kind: CharKind,
                                       k: Keyword, dataOk: bool)
    requires lim.Valid() && Contiguous(log) && Names(req, k, kind) && Resolve(log, req, kind, true).id >= 0
    requires GoesUp(req) && OrderedFor(k, log + Accepted(lim, log, calls))
    ensures var log' := LogAfter(lim, log, calls);
            ServeTable(log, log', req, kind, true, dataOk) == ServeTable(log', log', req, kind, true, dataOk)
  {
    var log' := LogAfter(lim, log, calls);
    var base := Resolve(log, req, kind, true).id;
    SuffixOfHistory(lim, log, calls);
    ResolvedIdIsStored(log, req, kind, true);
    if HasId(log', base) {
      UpRequestReadsLastState(lim, log, calls, req, kind, k, dataOk);
    } else {
      NeverEmptied(lim, log, calls);
      CutIsBelow(lim, log, calls, base);
      LaterRowsQualify(lim, log, calls, req, kind, k);
      hide LogAfter, ServeTable, Resolve, Names, Contiguous, HasId, Accepted, Candidates;
      WholeTableQualifies(log, log', req, kind, k, dataOk);
    }
  }

  lemma LaterRowsQualify(lim: Limits, log: seq<Row>, calls: seq<Call>, req: Request, kind: CharKind, k: Keyword)
    requires lim.Valid() && Contiguous(log) && Names(req, k, kind) && Resolve(log, req, kind, true).id >= 0
    requires GoesUp(req) && OrderedFor(k, log + Accepted(lim, log, calls))
    ensures forall x :: x in LogAfter(lim, log, calls) && Resolve(log, req, kind, true).id < x.id ==> Candidates(req, k).Holds(x)
  {
    var all, log' := log + Accepted(lim, log, calls), LogAfter(lim, log, calls);
    var cut := HistorySplits(lim, log, calls);
    SuffixOfHistory(lim, log, calls);
    ContiguousIsSorted(all);
    hide LogAfter, Resolve, Names, Contiguous, Accepted, GoesUp, Candidates, OrderedFor, Sorted;
    ResolvedCandidate(log, req, kind, true, k);
    var r :| r in log && r.id == Resolve(log, req, kind, true).id && Candidates(req, k).Holds(r);
    assert r in all;
    assert forall x :: x in log' ==> x in cut + log';
    QualifyFrom(all, req, k, r);
  }

  lemma QualifyFrom(all: seq<Row>, req: Request, k: Keyword, r: Row)
    requires Sorted(all) && GoesUp(req) && OrderedFor(k, all) && r in all && Candidates(req, k).Holds(r)
    ensures forall x :: x in all && r.id < x.id ==> Candidates(req, k).Holds(x)
  {
    if k == Counter { OrderedInBoth(all); } else { OrderedByDate(all); }
    hide Sorted, MonotoneCounters, MonotoneDates, GoesUp, IntValue;
  }
}
