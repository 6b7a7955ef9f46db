/** What a client can rely on, in its own terms: ids, dates, counters and alarm words of the stored rows, the
    numbers and texts of its request. Texts are byte sequences: 0x75, 0x70 is "up". */
module Promises {
  import opened Types
  import opened Seqs
  import opened Sql
  import opened Hash
  import opened Requests
  import opened Serving
  import Table
  import Answers
  import Alarms

  // ---------- the direction ----------

  lemma UpIsPrefix(req: Request)
    ensures GoesUp(req) <==> exists rest :: req.direction == Some(JText([0x75, 0x70] + rest))
  {
    if GoesUp(req) {
      var bytes := req.direction.value.bytes;
      assert bytes == [0x75, 0x70] + bytes[2..];
    }
  }

  /** The lookup's direction and limit. */
  lemma LookupWay(found: seq<Row>, req: Request, kind: CharKind, ok: bool, k: Keyword)
    requires Contiguous(found) && Names(req, k, kind) && Resolve(found, req, kind, ok).id >= 0
    ensures var b := Resolve(found, req, kind, ok);
            && (b.up <==> k == First || (k != Last && exists rest :: req.direction == Some(JText([0x75, 0x70] + rest))))
            && b.amount == GetAmount(req)
  {
    hide Resolve, Names, GoesUp, GetAmount, Contiguous, Candidates;
    UpIsPrefix(req);
    BaseIsNearest(found, req, kind, ok, k);
  }

  // ---------- the base row ----------

  lemma NamedCase(log: seq<Row>, req: Request, kind: CharKind, ok: bool, k: Keyword)
    requires Names(req, k, kind)
    ensures Resolve(log, req, kind, ok) == ResolveCase(log, req, k, ok)
  {
    hide ResolveCase, CaseTaken;
  }

  lemma TakenIsNamed(req: Request, kind: CharKind)
    requires req.base.Some? && req.base.value.JText? && CaseTaken(req.base.value.bytes, kind).Some?
    ensures exists k :: Names(req, k, kind)
  {
    hide CaseTaken;
    assert Names(req, CaseTaken(req.base.value.bytes, kind).value, kind);
  }

  /** Without a "base" text that names a keyword there is no lookup. */
  lemma NoKeyword(log: seq<Row>, req: Request, kind: CharKind, ok: bool)
    requires forall k :: !Names(req, k, kind)
    ensures Resolve(log, req, kind, ok).id == -1
  {
    hide ResolveCase, CaseTaken, Names;
    if req.base.Some? && req.base.value.JText? && CaseTaken(req.base.value.bytes, kind).Some? {
      TakenIsNamed(req, kind);
    }
  }

  /** "last" finds the greatest id, "first" the least; on an empty table, or when the statement fails, -2. */
  lemma LookupEnds(log: seq<Row>, req: Request, kind: CharKind, ok: bool, k: Keyword)
    requires Names(req, k, kind) && (k == Last || k == First)
    ensures var id := Resolve(log, req, kind, ok).id;
            if ok && log != [] then
              (exists r :: r in log && r.id == id)
              && forall r :: r in log ==> if k == Last then r.id <= id else id <= r.id
            else id == -2
  {
    hide CaseTaken, Resolve, Names, MinId, MaxId;
    NamedCase(log, req, kind, ok, k);
    MinIdIsLeast(log, Always);
    MaxIdIsGreatest(log, Always);
    HeadIsMember(log);
  }

  /** "id" finds a stored row's id; without one -1, as without the field; -2 when the statement fails. */
  lemma LookupId(log: seq<Row>, req: Request, kind: CharKind, ok: bool, n: int)
    requires Names(req, Id, kind) && (req.id == None || req.id == Some(JInt(n)))
    ensures Resolve(log, req, kind, ok).id ==
              if req.id == None then -1
              else if !ok then -2
              else if exists r :: r in log && r.id == n then n
              else -1
  {
    hide CaseTaken, Resolve, Names;
    NamedCase(log, req, kind, ok, Id);
  }

  /** Upward, "date" finds the least id among the rows of that date or later; downward, the greatest among
      those of that date or earlier. */
  lemma LookupDate(log: seq<Row>, req: Request, kind: CharKind, ok: bool, up: bool, d: int)
    requires Names(req, Date, kind) && (req.date == None || req.date == Some(JInt(d)))
    requires up <==> exists rest :: req.direction == Some(JText([0x75, 0x70] + rest))
    ensures var id := Resolve(log, req, kind, ok).id;
            if req.date == None then id == -1
            else if ok && up && exists r :: r in log && r.date >= d then
              (exists r :: r in log && r.id == id && r.date >= d) && forall r :: r in log && r.date >= d ==> id <= r.id
            else if ok && !up && exists r :: r in log && r.date <= d then
              (exists r :: r in log && r.id == id && r.date <= d) && forall r :: r in log && r.date <= d ==> r.id <= id
            else id == -2
  {
    hide CaseTaken, Resolve, Names, MinId, MaxId, GoesUp, GetAmount;
    UpIsPrefix(req);
    NamedCase(log, req, kind, ok, Date);
    MinIdIsLeast(log, DateAtLeast(d));
    MaxIdIsGreatest(log, DateAtMost(d));
  }

  /** Likewise for "counter". */
  lemma LookupCounter(log: seq<Row>, req: Request, kind: CharKind, ok: bool, up: bool, c: int)
    requires Names(req, Counter, kind) && (req.counter == None || req.counter == Some(JInt(c)))
    requires up <==> exists rest :: req.direction == Some(JText([0x75, 0x70] + rest))
    ensures var id := Resolve(log, req, kind, ok).id;
            if req.counter == None then id == -1
            else if ok && up && exists r :: r in log && r.counter >= c then
              (exists r :: r in log && r.id == id && r.counter >= c)
              && forall r :: r in log && r.counter >= c ==> id <= r.id
            else if ok && !up && exists r :: r in log && r.counter <= c then
              (exists r :: r in log && r.id == id && r.counter <= c)
              && forall r :: r in log && r.counter <= c ==> r.id <= id
            else id == -2
  {
    hide CaseTaken, Resolve, Names, MinId, MaxId, GoesUp, GetAmount;
    UpIsPrefix(req);
    NamedCase(log, req, kind, ok, Counter);
    MinIdIsLeast(log, CounterAtLeast(c));
    MaxIdIsGreatest(log, CounterAtMost(c));
  }

  /** A field that is there but is no integer counts as 0. */
  lemma NoIntegerIsZero(log: seq<Row>, req: Request, kind: CharKind, ok: bool, j: Json)
    requires !j.JInt?
    ensures Resolve(log, req.(id := Some(j)), kind, ok) == Resolve(log, req.(id := Some(JInt(0))), kind, ok)
    ensures Resolve(log, req.(date := Some(j)), kind, ok) == Resolve(log, req.(date := Some(JInt(0))), kind, ok)
    ensures Resolve(log, req.(counter := Some(j)), kind, ok) == Resolve(log, req.(counter := Some(JInt(0))), kind, ok)
  {
    hide CaseTaken, MinId, MaxId;
  }

  /** On dates that never decrease, the rows on the answer's side of the base are those on the requested side
      of the date. */
  lemma DateSides(log: seq<Row>, req: Request, kind: CharKind, up: bool, d: int)
    requires Contiguous(log) && MonotoneDates(log) && Names(req, Date, kind) && req.date == Some(JInt(d))
    requires up <==> exists rest :: req.direction == Some(JText([0x75, 0x70] + rest))
    requires Resolve(log, req, kind, true).id >= 0
    ensures var id := Resolve(log, req, kind, true).id;
            forall r :: r in log ==> if up then id <= r.id <==> d <= r.date else r.id <= id <==> r.date <= d
  {
    ContiguousIsSorted(log);
    OrderedByDate(log);
    LookupDate(log, req, kind, true, up, d);
    hide Resolve, Names, Contiguous, Sorted, MonotoneDates;
  }

  /** Likewise for counters. */
  lemma CounterSides(log: seq<Row>, req: Request, kind: CharKind, up: bool, c: int)
    requires Contiguous(log) && MonotoneCounters(log) && Names(req, Counter, kind) && req.counter == Some(JInt(c))
    requires up <==> exists rest :: req.direction == Some(JText([0x75, 0x70] + rest))
    requires Resolve(log, req, kind, true).id >= 0
    ensures var id := Resolve(log, req, kind, true).id;
            forall r :: r in log ==> if up then id <= r.id <==> c <= r.counter else r.id <= id <==> r.counter <= c
  {
    ContiguousIsSorted(log);
    Answers.OrderedInBoth(log);
    LookupCounter(log, req, kind, true, up, c);
    hide Resolve, Names, Contiguous, Sorted, MonotoneCounters;
  }

  // ---------- what is served ----------

  lemma AmountIs(req: Request, n: int)
    requires req.amount == Some(JInt(n)) && -0x8000_0000 <= n < 0x8000_0000
    ensures GetAmount(req) == if n > 1000 then 1000 else n
  {
  }

  /** A failed lookup's code is the answer's, a failed data query's is -2, and otherwise there are rows. */
  lemma ServedCodes(found: seq<Row>, log: seq<Row>, req: Request, kind: CharKind, baseOk: bool, dataOk: bool)
    ensures var id := Resolve(found, req, kind, baseOk).id;
            var table, alarms := ServeTable(found, log, req, kind, baseOk, dataOk), ServeAlarms(found, log, req, kind, baseOk, dataOk);
            if id < 0 then table == alarms == Error(id)
            else if !dataOk then table == alarms == Error(-2)
            else table.Rows? && alarms.Rows?
  {
    hide Resolve;
  }

  /** An amount that is missing or no integer is 0, and then there are no rows. */
  lemma NoAmountNoRows(found: seq<Row>, log: seq<Row>, req: Request, kind: CharKind)
    requires Contiguous(found) && (req.amount == None || !req.amount.value.JInt?)
    ensures var table := ServeTable(found, log, req, kind, true, true); table.Rows? ==> table.rows == []
    ensures var alarms := ServeAlarms(found, log, req, kind, true, true); alarms.Rows? ==> alarms.rows == []
  {
    var b := Resolve(found, req, kind, true);
    AmountIsKept(found, req, kind);
    assert GetAmount(req) == 0;
    hide Resolve, GetAmount, Contiguous, Table.SortByCounter;
    Table.AnswerIsSortedPage(log, b.up, b.id, 0);
    SameMembers(Table.Answer(log, b.up, b.id, 0), []);
  }

  /** The rows of log on one side of an id of which no other row there has the same counter and a lower id, in
      id order. */
  ghost predicate ListsLeads(log: seq<Row>, leads: seq<Row>, up: bool, id: int) {
    && (forall i, j :: 0 <= i < j < |leads| ==> leads[i].id < leads[j].id)
    && forall r :: r in leads <==>
         && r in log && (if up then id <= r.id else r.id <= id)
         && forall x :: x in log && (if up then id <= x.id else x.id <= id) && x.counter == r.counter ==> r.id <= x.id
  }

  /** A table request. leads are the earliest rows for their counters on the base's side. The answer is the first n of them going up, the last n going down, at most
      1000, all for a negative n, in increasing counter order. */
  lemma TableRequestIs(found: seq<Row>, log: seq<Row>, req: Request, kind: CharKind, k: Keyword, up: bool, n: int)
    returns (leads: seq<Row>)
    requires Contiguous(found) && Contiguous(log) && Names(req, k, kind)
    requires up <==> k == First || (k != Last && exists rest :: req.direction == Some(JText([0x75, 0x70] + rest)))
    requires req.amount == Some(JInt(n)) && -0x8000_0000 <= n < 0x8000_0000
    requires Resolve(found, req, kind, true).id >= 0
    ensures ListsLeads(log, leads, up, Resolve(found, req, kind, true).id)
    ensures var served := ServeTable(found, log, req, kind, true, true);
            var a := if n > 1000 then 1000 else n;
            var picked := if 0 <= a < |leads| then (if up then leads[..a] else leads[|leads| - a..]) else leads;
            && served.Rows?
            && multiset(served.rows) == multiset(picked)
            && forall i, j :: 0 <= i < j < |served.rows| ==> served.rows[i].counter < served.rows[j].counter
  {
    hide Resolve, Names, GetAmount, Contiguous, ListsLeads, Table.SortByCounter, Table.Groups, Table.Window, Table.Answer;
    var b := Resolve(found, req, kind, true);
    LookupWay(found, req, kind, true, k);
    AmountIs(req, n);
    leads := LeadsOf(log, up, b.id);
    Table.AnswerIsSortedPage(log, up, b.id, b.amount);
  }

  lemma LeadsOf(log: seq<Row>, up: bool, id: int) returns (leads: seq<Row>)
    requires Contiguous(log)
    ensures leads == Table.Groups(Table.Window(log, up, id))
    ensures ListsLeads(log, leads, up, id)
  {
    var w := Table.Window(log, up, id);
    leads := Table.Groups(w);
    ContiguousIsSorted(log);
    SideOf(log, up, id);
    Table.FreshSorted([], w);
    EarliestAreLeads(log, w, leads, up, id);
  }

  lemma SideOf(log: seq<Row>, up: bool, id: int)
    requires Sorted(log)
    ensures Sorted(Table.Window(log, up, id))
    ensures forall r :: r in Table.Window(log, up, id) <==> r in log && (if up then id <= r.id else r.id <= id)
  {
    var p := if up then IdAtLeast(id) else IdAtMost(id);
    Answers.WindowSorted(log, p);
    FilterMembers(log, p);
  }

  lemma EarliestAreLeads(log: seq<Row>, w: seq<Row>, leads: seq<Row>, up: bool, id: int)
    requires forall r :: r in w <==> r in log && (if up then id <= r.id else r.id <= id)
    requires Sorted(w) && leads == Table.Groups(w) && Sorted(leads)
    ensures ListsLeads(log, leads, up, id)
  {
    hide Table.Groups;
    Table.GroupsAreEarliest(w);
    forall r ensures r in leads <==>
         && r in log && (if up then id <= r.id else r.id <= id)
         && forall x :: x in log && (if up then id <= x.id else x.id <= id) && x.counter == r.counter ==> r.id <= x.id
    {
      EarliestOnSide(log, w, up, id, r);
    }
  }

  lemma EarliestOnSide(log: seq<Row>, w: seq<Row>, up: bool, id: int, r: Row)
    requires forall x :: x in w <==> x in log && (if up then id <= x.id else x.id <= id)
    ensures Table.Earliest(r, w) <==>
              && r in log && (if up then id <= r.id else r.id <= id)
              && forall x :: x in log && (if up then id <= x.id else x.id <= id) && x.counter == r.counter ==> r.id <= x.id
  {
  }

  /** Two stored words differ in a bit of the mask. */
  predicate Differ(a: bv64, b: bv64, mask: bv32) {
    (a ^ b) & (mask as bv64) != 0
  }

  function Xor(a: bv64, b: bv64): bv64 {
    a ^ b
  }

  lemma SameUnder(a: bv64, b: bv64, m: bv64)
    requires Alarms.And(a, m) == Alarms.And(b, m)
    ensures Alarms.And(Xor(a, b), m) == 0
  {
  }

  lemma OnlySameUnder(a: bv64, b: bv64, m: bv64)
    requires Alarms.And(Xor(a, b), m) == 0
    ensures Alarms.And(a, m) == Alarms.And(b, m)
  {
  }

  lemma XorMasked(a: bv64, b: bv64, mask: bv32)
    ensures Alarms.And(Xor(a, b), Alarms.Literal(mask)) == (a ^ b) & (mask as bv64)
  {
  }

  lemma DifferUnder(a: bv64, b: bv64, mask: bv32)
    ensures Alarms.Masked(a, mask) != Alarms.Masked(b, mask) <==> Differ(a, b, mask)
  {
    hide Alarms.And, Alarms.Literal, Xor;
    var m := Alarms.Literal(mask);
    if Alarms.And(a, m) == Alarms.And(b, m) { SameUnder(a, b, m); }
    if Alarms.And(Xor(a, b), m) == 0 { OnlySameUnder(a, b, m); }
    XorMasked(a, b, mask);
  }

  lemma MaskIs(req: Request, f: int, mask: bv32)
    requires || (req.filter == None && mask == 0xFFFF_FFFF)
             || (req.filter == Some(JInt(f)) && mask == (f % 0x1_0000_0000) as bv32)
    ensures GetFilter(req) == mask
  {
  }

  /** A row of a gapless table is listed when its alarm word and that of the row before differ under the mask. */
  lemma ChangedIs(log: seq<Row>, i: nat, mask: bv32)
    requires Contiguous(log) && i < |log|
    ensures Alarms.Changed(log, log[i], mask) <==> i > 0 && Differ(log[i].alarms, log[i - 1].alarms, mask)
  {
    hide Alarms.Masked, Differ;
    forall y | y in log && log[i].id == y.id + 1 ensures i > 0 && y == log[i - 1] {
      var j :| 0 <= j < |log| && log[j] == y;
    }
    if i > 0 {
      assert log[i - 1] in log;
      DifferUnder(log[i].alarms, log[i - 1].alarms, mask);
    }
  }

  /** The rows of log on one side of an id whose alarm word differs under the mask from that of the row just
      before, in id order. */
  ghost predicate ListsChanges(log: seq<Row>, changed: seq<Row>, up: bool, id: int, mask: bv32) {
    && (forall i, j :: 0 <= i < j < |changed| ==> changed[i].id < changed[j].id)
    && (forall r :: r in changed ==> r in log)
    && forall i :: 0 <= i < |log| ==>
         (log[i] in changed <==>
            && i > 0 && (if up then id <= log[i].id else log[i].id <= id)
            && Differ(log[i].alarms, log[i - 1].alarms, mask))
  }

  /** An alarm request. changed are the rows on the base's side whose alarm word differs under the filter from
      that of the row just before. The answer is the first n of them going up, the last n going
      down, at most 1000, all for a negative n, in id order. A missing filter compares all 32 bits. */
  lemma AlarmRequestIs(found: seq<Row>, log: seq<Row>, req: Request, kind: CharKind, k: Keyword, up: bool, n: int,
                       f: int, mask: bv32)
    returns (changed: seq<Row>)
    requires Contiguous(found) && Contiguous(log) && Names(req, k, kind)
    requires up <==> k == First || (k != Last && exists rest :: req.direction == Some(JText([0x75, 0x70] + rest)))
    requires req.amount == Some(JInt(n)) && -0x8000_0000 <= n < 0x8000_0000
    requires || (req.filter == None && mask == 0xFFFF_FFFF)
             || (req.filter == Some(JInt(f)) && mask == (f % 0x1_0000_0000) as bv32)
    requires Resolve(found, req, kind, true).id >= 0
    ensures ListsChanges(log, changed, up, Resolve(found, req, kind, true).id, mask)
    ensures var served := ServeAlarms(found, log, req, kind, true, true);
            var a := if n > 1000 then 1000 else n;
            && served.Rows?
            && served.rows == if 0 <= a < |changed| then (if up then changed[..a] else changed[|changed| - a..]) else changed
  {
    hide Resolve, Names, GetAmount, GetFilter, Contiguous, Alarms.Changes, ListsChanges;
    var b := Resolve(found, req, kind, true);
    LookupWay(found, req, kind, true, k);
    AmountIs(req, n);
    MaskIs(req, f, mask);
    changed := ChangedRows(log, up, b.id, mask);
    FirstOfReverse(changed, b.amount);
  }

  lemma ChangedRows(log: seq<Row>, up: bool, id: int, mask: bv32) returns (changed: seq<Row>)
    requires Contiguous(log)
    ensures changed == Alarms.Changes(log, up, id, mask)
    ensures ListsChanges(log, changed, up, id, mask)
  {
    hide Alarms.Changes, Alarms.Changed, Contiguous, Differ;
    changed := Alarms.Changes(log, up, id, mask);
    ContiguousIsSorted(log);
    Alarms.ChangesAreExact(log, up, id, mask);
    forall i | 0 <= i < |log|
      ensures log[i] in changed <==>
                && i > 0 && (if up then id <= log[i].id else log[i].id <= id)
                && Differ(log[i].alarms, log[i - 1].alarms, mask)
    {
      ChangedIs(log, i, mask);
    }
  }
}
