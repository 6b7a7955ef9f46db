/** The alarm request's data query: the rows whose masked alarm word differs from that of the row just
    before, found by joining the table with itself on "x.id = y.id + 1". */
module Alarms {
  import opened Types
  import opened Seqs
  import opened Sql
  import opened Retention
  import opened Table
  import opened Answers

  /** An unsigned 32-bit literal, as the 64-bit integer SQLite reads. */
  function Literal(filter: bv32): bv64 {
    filter as bv64
  }

  function And(a: bv64, b: bv64): bv64 {
    a & b
  }

  /** The SQL expression "alarms & filter". */
  function Masked(alarms: bv64, filter: bv32): bv64 {
    And(alarms, Literal(filter))
  }

  /** Some row one id below x has a different masked alarm word. */
  predicate Changed(log: seq<Row>, x: Row, filter: bv32) {
    exists y :: y in log && x.id == y.id + 1 && Masked(x.alarms, filter) != Masked(y.alarms, filter)
  }

  function IfChanged(log: seq<Row>, x: Row, filter: bv32): seq<Row> {
    if Changed(log, x, filter) then [x] else []
  }

  function ChangesIn(log: seq<Row>, s: seq<Row>, filter: bv32): seq<Row> {
    if s == [] then [] else ChangesIn(log, s[..|s| - 1], filter) + IfChanged(log, s[|s| - 1], filter)
  }

  /** The join, in id order: ids are distinct, so a row joins at most once. */
  function Changes(log: seq<Row>, up: bool, base: int, filter: bv32): seq<Row> {
    ChangesIn(log, Filter(log, if up then IdAtLeast(base) else IdAtMost(base)), filter)
  }

  /** ORDER BY x.id ASC or DESC, LIMIT, then ORDER BY id. */
  function AlarmAnswer(log: seq<Row>, up: bool, base: int, filter: bv32, amount: int): seq<Row> {
    if up then FirstN(Changes(log, up, base, filter), amount)
    else Reverse(FirstN(Reverse(Changes(log, up, base, filter)), amount))
  }

  // ---------- filters on the stored form ----------

  lemma LiteralAnd(a: bv32, b: bv32)
    ensures And(Literal(a), Literal(b)) == Literal(a & b)
  {
  }

  lemma LiteralOr(a: bv32, b: bv32)
    ensures Literal(a | b) == Literal(a) | Literal(b)
  {
  }

  lemma LiteralKeeps(a: bv32, b: bv32)
    ensures Literal(a) == Literal(b) <==> a == b
  {
  }

  lemma LiteralIsLow(a: bv64, f: bv32)
    ensures And(a | 0xFFFF_FFFF_0000_0000, Literal(f)) == And(a, Literal(f))
  {
  }

  lemma AndAbsorbs(x: bv64, f: bv64, g: bv64)
    ensures And(And(x, f | g), f) == And(x, f)
  {
  }

  lemma OrCommutes(f: bv64, g: bv64)
    ensures f | g == g | f
  {
  }

  lemma AndDistributes(x: bv64, f: bv64, g: bv64)
    ensures And(x, f | g) == And(x, f) | And(x, g)
  {
  }

  lemma AndUnites(a: bv64, b: bv64, f: bv64, g: bv64)
    ensures And(a, f | g) == And(b, f | g) <==> And(a, f) == And(b, f) && And(a, g) == And(b, g)
  {
    hide And;
    OrCommutes(f, g);
    AndAbsorbs(a, f, g);
    AndAbsorbs(b, f, g);
    AndAbsorbs(a, g, f);
    AndAbsorbs(b, g, f);
    AndDistributes(a, f, g);
    AndDistributes(b, f, g);
  }

  lemma SignExtendIs(w: bv32)
    ensures SignExtend(w) == Literal(w) || SignExtend(w) == Literal(w) | 0xFFFF_FFFF_0000_0000
  {
  }

  lemma MaskDropsSign(w: bv32, filter: bv32)
    ensures Masked(SignExtend(w), filter) == Literal(w & filter)
  {
    SignExtendIs(w);
    hide And, Literal, SignExtend;
    LiteralIsLow(Literal(w), filter);
    LiteralAnd(w, filter);
  }

  /** Comparing stored words under a filter decides as comparing the original 32-bit words would. */
  lemma StoredFormDecides(a: bv32, b: bv32, filter: bv32)
    ensures Masked(SignExtend(a), filter) == Masked(SignExtend(b), filter) <==> a & filter == b & filter
  {
    hide And, Literal, Masked, SignExtend;
    MaskDropsSign(a, filter);
    MaskDropsSign(b, filter);
    LiteralKeeps(a & filter, b & filter);
  }

  lemma MaskUnion(a: bv64, b: bv64, f: bv32, g: bv32)
    ensures Masked(a, f | g) == Masked(b, f | g) <==> Masked(a, f) == Masked(b, f) && Masked(a, g) == Masked(b, g)
  {
    hide And, Literal;
    LiteralOr(f, g);
    AndUnites(a, b, Literal(f), Literal(g));
  }

  // ---------- the change list ----------

  lemma {:induction false} ChangesMembers(log: seq<Row>, s: seq<Row>, filter: bv32)
    ensures forall x :: x in ChangesIn(log, s, filter) <==> x in s && Changed(log, x, filter)
    decreases |s|
  {
    if s != [] {
      ChangesMembers(log, s[..|s| - 1], filter);
      InitAndLast(s);
    }
  }

  lemma {:induction false} ChangesSorted(log: seq<Row>, s: seq<Row>, filter: bv32)
    requires Sorted(s)
    ensures Sorted(ChangesIn(log, s, filter))
    decreases |s|
  {
    if s != [] {
      var n := |s| - 1;
      ChangesSorted(log, s[..n], filter);
      ChangesMembers(log, s[..n], filter);
      var c := ChangesIn(log, s[..n], filter);
      assert forall i :: 0 <= i < |c| ==> c[i] in s[..n];
    }
  }

  /** A row is in the uncut change list when it is on the right side of the base and has changed. */
  lemma ChangesAreExact(log: seq<Row>, up: bool, base: int, filter: bv32)
    ensures forall x :: x in Changes(log, up, base, filter) <==>
              x in log && (if up then base <= x.id else x.id <= base) && Changed(log, x, filter)
    ensures Sorted(log) ==> Sorted(Changes(log, up, base, filter))
  {
    var p := if up then IdAtLeast(base) else IdAtMost(base);
    FilterMembers(log, p);
    ChangesMembers(log, Filter(log, p), filter);
    if Sorted(log) {
      WindowSorted(log, p);
      ChangesSorted(log, Filter(log, p), filter);
    }
  }

  /** The unlimited list for two filters together is the union of their lists. */
  lemma FiltersUnite(log: seq<Row>, up: bool, base: int, f: bv32, g: bv32)
    ensures forall x :: x in AlarmAnswer(log, up, base, f | g, -1) <==>
              x in AlarmAnswer(log, up, base, f, -1) || x in AlarmAnswer(log, up, base, g, -1)
  {
    forall h ensures forall x :: x in AlarmAnswer(log, up, base, h, -1) <==> x in Changes(log, up, base, h) {
      FirstOfReverse(Changes(log, up, base, h), -1);
    }
    ChangesAreExact(log, up, base, f | g);
    ChangesAreExact(log, up, base, f);
    ChangesAreExact(log, up, base, g);
    forall x ensures Changed(log, x, f | g) <==> Changed(log, x, f) || Changed(log, x, g) {
      ChangedUnites(log, x, f, g);
    }
  }

  lemma ChangedUnites(log: seq<Row>, x: Row, f: bv32, g: bv32)
    ensures Changed(log, x, f | g) <==> Changed(log, x, f) || Changed(log, x, g)
  {
    forall y { MaskUnion(x.alarms, y, f, g); }
  }

  // ---------- reconstruction ----------

  /** The masked alarm word a reader of the list assigns to an id: that of the last change up to it, or
      a starting word. */
  function Replay(start: bv64, list: seq<Row>, filter: bv32, id: int): bv64 {
    if list == [] then start
    else if list[|list| - 1].id <= id then Masked(list[|list| - 1].alarms, filter)
    else Replay(start, list[..|list| - 1], filter, id)
  }

  lemma {:induction false} ReplayFinds(start: bv64, list: seq<Row>, filter: bv32, id: int, x: Row)
    requires Sorted(list) && x in list && x.id <= id
    requires forall y :: y in list && y.id <= id ==> y.id <= x.id
    ensures Replay(start, list, filter, id) == Masked(x.alarms, filter)
    decreases |list|
  {
    var last := list[|list| - 1];
    InitAndLast(list);
    SortedInit(list);
    hide Masked, Sorted;
    assert last in list;
    if last.id <= id {
      SameIdSameRow(list, x, last);
    } else {
      ReplayFinds(start, list[..|list| - 1], filter, id, x);
    }
  }

  lemma SameIdSameRow(s: seq<Row>, x: Row, y: Row)
    requires Sorted(s) && x in s && y in s
    ensures x.id == y.id ==> x == y
    ensures y == s[|s| - 1] ==> x.id <= y.id
  {
  }

  lemma {:induction false} ReplayStarts(start: bv64, list: seq<Row>, filter: bv32, id: int)
    requires forall y :: y in list ==> id < y.id
    ensures Replay(start, list, filter, id) == start
    decreases |list|
  {
    if list != [] {
      InitAndLast(list);
      ReplayStarts(start, list[..|list| - 1], filter, id);
    }
  }

  /** On gapless ids, row i has the masked word of the last changed row between b and i, or of row b. */
  lemma {:induction false} LastChange(log: seq<Row>, b: nat, i: nat, filter: bv32) returns (j: nat)
    requires Contiguous(log) && b <= i < |log|
    ensures b <= j <= i && (j == b || Changed(log, log[j], filter))
    ensures forall k :: j < k <= i ==> !Changed(log, log[k], filter)
    ensures Masked(log[i].alarms, filter) == Masked(log[j].alarms, filter)
    decreases i
  {
    if i == b || Changed(log, log[i], filter) {
      j := i;
    } else {
      assert log[i - 1] in log && log[i].id == log[i - 1].id + 1;
      j := LastChange(log, b, i - 1, filter);
    }
  }

  /** A list of changes reconstructs row i if it holds every change from row b to row i and no row
      before b, and starts from row b's word (any word will do when row b is itself a change). */
  lemma ListReconstructs(log: seq<Row>, list: seq<Row>, start: bv64, b: nat, i: nat, filter: bv32)
    requires Contiguous(log) && b <= i < |log| && Sorted(list)
    requires forall x :: x in list ==> x in log && Changed(log, x, filter) && log[b].id <= x.id
    requires forall k :: b <= k <= i && Changed(log, log[k], filter) ==> log[k] in list
    requires start == Masked(log[b].alarms, filter) || Changed(log, log[b], filter)
    ensures Replay(start, list, filter, log[i].id) == Masked(log[i].alarms, filter)
  {
    var j := LastChange(log, b, i, filter);
    var id := log[i].id;
    forall y | y in list && y.id <= id ensures y.id <= log[j].id {
      var k :| 0 <= k < |log| && log[k] == y;
      assert k <= i;
    }
    if Changed(log, log[j], filter) {
      ReplayFinds(start, list, filter, id, log[j]);
    } else {
      forall y | y in list ensures id < y.id { SameIdSameRow(log, y, log[b]); }
      ReplayStarts(start, list, filter, id);
    }
  }

  /** Up: the list from the base row on, with the base row's masked word, gives the masked word of every
      later row - of all of them if LIMIT cut nothing, and otherwise as far as the list reaches. */
  lemma UpListIsLossless(log: seq<Row>, b: nat, i: nat, filter: bv32, amount: int)
    requires Contiguous(log) && b <= i < |log|
    requires var list := AlarmAnswer(log, true, log[b].id, filter, amount);
             amount < 0 || |list| < amount || (list != [] && log[i].id <= list[|list| - 1].id)
    ensures Replay(Masked(log[b].alarms, filter), AlarmAnswer(log, true, log[b].id, filter, amount), filter, log[i].id)
              == Masked(log[i].alarms, filter)
  {
    var all := Changes(log, true, log[b].id, filter);
    var list := AlarmAnswer(log, true, log[b].id, filter, amount);
    ContiguousIsSorted(log);
    ChangesAreExact(log, true, log[b].id, filter);
    FirstKeepsLower(all, amount);
    assert forall x :: x in list ==> x in all;
    forall k | b <= k <= i && Changed(log, log[k], filter) ensures log[k] in list {
      assert log[k] in log && log[b].id <= log[k].id;
      assert log[k] in all;
    }
    ListReconstructs(log, list, Masked(log[b].alarms, filter), b, i, filter);
  }

  lemma FirstKeepsLower(s: seq<Row>, n: int)
    requires Sorted(s)
    ensures Sorted(FirstN(s, n))
    ensures var f := FirstN(s, n);
            forall x :: x in s && (n < 0 || |f| < n || (f != [] && x.id <= f[|f| - 1].id)) ==> x in f
  {
  }

  lemma LastKeepsUpper(s: seq<Row>, n: int)
    requires Sorted(s)
    ensures Sorted(LastN(s, n))
    ensures var l := LastN(s, n);
            forall x :: x in s && l != [] && l[0].id <= x.id ==> x in l
  {
  }

  /** Down: even cut by LIMIT, the list gives the masked word of every row from its first change up to the
      base, with no starting word needed. */
  lemma DownListIsLossless(log: seq<Row>, base: int, i: nat, filter: bv32, amount: int, start: bv64)
    requires Contiguous(log) && i < |log|
    requires var list := AlarmAnswer(log, false, base, filter, amount);
             list != [] && list[0].id <= log[i].id <= base
    ensures Replay(start, AlarmAnswer(log, false, base, filter, amount), filter, log[i].id)
              == Masked(log[i].alarms, filter)
  {
    var list := AlarmAnswer(log, false, base, filter, amount);
    DownListHolds(log, base, filter, amount);
    hide AlarmAnswer, Changed, Masked, Sorted, Replay;
    assert list[0] in list;
    var b :| 0 <= b < |log| && log[b] == list[0];
    assert b <= i;
    assert forall k :: b <= k <= i ==> log[k] in log && list[0].id <= log[k].id <= base;
    ListReconstructs(log, list, start, b, i, filter);
  }

  /** A "down" list holds changes only, and all those from its first one up to the base. */
  lemma DownListHolds(log: seq<Row>, base: int, filter: bv32, amount: int)
    requires Contiguous(log)
    ensures var list := AlarmAnswer(log, false, base, filter, amount);
            && Sorted(list)
            && (forall x :: x in list ==> x in log && Changed(log, x, filter) && list[0].id <= x.id <= base)
            && (forall x :: x in log && Changed(log, x, filter) && list != [] && list[0].id <= x.id <= base ==> x in list)
  {
    var all := Changes(log, false, base, filter);
    ContiguousIsSorted(log);
    ChangesAreExact(log, false, base, filter);
    FirstOfReverse(all, amount);
    LastKeepsUpper(all, amount);
    PartsAreMembers(all, amount);
    hide Changed, Changes;
  }

  /** On every table DB_AddRow can leave, whatever statements failed, the uncut list is lossless. */
  lemma ReachableListIsLossless(lim: Limits, log0: seq<Row>, calls: seq<Call>, b: nat, i: nat, filter: bv32)
    requires lim.Valid() && Contiguous(log0) && b <= i < |LogAfter(lim, log0, calls)|
    ensures var log := LogAfter(lim, log0, calls);
            Replay(Masked(log[b].alarms, filter), AlarmAnswer(log, true, log[b].id, filter, -1), filter, log[i].id)
              == Masked(log[i].alarms, filter)
  {
    SuffixOfHistory(lim, log0, calls);
    UpListIsLossless(LogAfter(lim, log0, calls), b, i, filter, -1);
  }

  /** The join needs gapless ids: across a gap a change is not listed. */
  lemma GapHidesChange(r: Row)
    ensures var log := [r.(id := 1, alarms := 0), r.(id := 3, alarms := 1)];
            && Sorted(log)
            && Masked(log[0].alarms, 1) != Masked(log[1].alarms, 1)
            && AlarmAnswer(log, true, 1, 1, -1) == []
  {
    var log := [r.(id := 1, alarms := 0), r.(id := 3, alarms := 1)];
    ChangesAreExact(log, true, 1, 1);
    HeadIsMember(Changes(log, true, 1, 1));
  }
}
