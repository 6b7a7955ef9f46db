/** From messages to the table: which step each stored row comes from, and so what the gathering machine
    guarantees about the rows the queries read. */
module StoredRows {
  import opened Types
  import opened Seqs
  import opened Sql
  import opened Retention
  import opened Gathering
  import opened Epochs

  /** Row number a was completed by step steps[a], and these are all the steps that completed a row whose
      INSERT succeeded, in order. */
  ghost predicate StoredBy(g: Gather, ticks: seq<Tick>, rows: seq<Row>, steps: seq<nat>) {
    && |steps| == |rows|
    && (forall a, b :: 0 <= a < b < |steps| ==> steps[a] < steps[b])
    && (forall i: nat :: i in steps <==> i < |ticks| && Completes(g, ticks, i) && ticks[i].out.insertOk)
    && (forall a :: 0 <= a < |steps| ==> ComesFrom(g, ticks, rows[a], steps[a]))
  }

  ghost predicate ComesFrom(g: Gather, ticks: seq<Tick>, row: Row, i: nat) {
    i < |ticks| && row == RowOf(RowMem(g, ticks, i), row.id, ticks[i].date)
  }

  lemma StepOfPrefix(g: Gather, ticks: seq<Tick>, x: Tick, i: nat)
    requires i < |ticks|
    ensures (ticks + [x])[i] == ticks[i] && (ticks + [x])[..i] == ticks[..i]
    ensures Completes(g, ticks + [x], i) <==> Completes(g, ticks, i)
    ensures RowMem(g, ticks + [x], i) == RowMem(g, ticks, i)
  {
  }

  lemma LastStep(g: Gather, ticks: seq<Tick>, x: Tick)
    ensures (ticks + [x])[|ticks|] == x && (ticks + [x])[..|ticks|] == ticks
    ensures Completes(g, ticks + [x], |ticks|) <==> Emitted(Run(g, ticks), x) != []
    ensures Emitted(Run(g, ticks), x) != [] ==>
              Emitted(Run(g, ticks), x) == [Call(RowMem(g, ticks + [x], |ticks|), x.date, x.out)]
  {
    assert (ticks + [x])[..|ticks|] == ticks;
  }

  lemma ComesFromPrefix(g: Gather, ticks: seq<Tick>, x: Tick, row: Row, i: nat)
    requires ComesFrom(g, ticks, row, i)
    ensures ComesFrom(g, ticks + [x], row, i)
  {
    StepOfPrefix(g, ticks, x, i);
  }

  lemma StoredAsBefore(g: Gather, ticks: seq<Tick>, x: Tick, rows: seq<Row>, steps: seq<nat>)
    requires StoredBy(g, ticks, rows, steps)
    requires !(Completes(g, ticks + [x], |ticks|) && x.out.insertOk)
    ensures StoredBy(g, ticks + [x], rows, steps)
  {
    hide Completes, ComesFrom;
    forall i: nat | i < |ticks| { StepOfPrefix(g, ticks, x, i); }
    LastStep(g, ticks, x);
    forall a | 0 <= a < |steps| { ComesFromPrefix(g, ticks, x, rows[a], steps[a]); }
  }

  lemma StoredOneMore(g: Gather, ticks: seq<Tick>, x: Tick, rows: seq<Row>, steps: seq<nat>, row: Row)
    requires StoredBy(g, ticks, rows, steps)
    requires Completes(g, ticks + [x], |ticks|) && x.out.insertOk && ComesFrom(g, ticks + [x], row, |ticks|)
    ensures StoredBy(g, ticks + [x], rows + [row], steps + [|ticks|])
  {
    hide Completes, ComesFrom;
    forall i: nat | i < |ticks| { StepOfPrefix(g, ticks, x, i); }
    LastStep(g, ticks, x);
    forall a | 0 <= a < |steps| ensures steps[a] < |ticks| && ComesFrom(g, ticks + [x], rows[a], steps[a]) {
      assert steps[a] in steps;
      ComesFromPrefix(g, ticks, x, rows[a], steps[a]);
    }
  }

  /** Every stored row comes from a completing step, and every completing step whose INSERT succeeded
      stored its row. */
  lemma {:induction false} StoredSteps(lim: Limits, log: seq<Row>, g: Gather, ticks: seq<Tick>) returns (steps: seq<nat>)
    ensures StoredBy(g, ticks, Accepted(lim, log, Calls(g, ticks)), steps)
    decreases |ticks|
  {
    steps := [];
    if ticks != [] {
      var init, x := ticks[..|ticks| - 1], ticks[|ticks| - 1];
      InitAndLast(ticks);
      hide StoredBy, Accepted, Calls;
      steps := StoredSteps(lim, log, g, init);
      steps := StoredStep(lim, log, g, init, x, steps);
    }
  }

  lemma StoredStep(lim: Limits, log: seq<Row>, g: Gather, ticks: seq<Tick>, x: Tick, steps: seq<nat>)
    returns (steps': seq<nat>)
    requires StoredBy(g, ticks, Accepted(lim, log, Calls(g, ticks)), steps)
    ensures StoredBy(g, ticks + [x], Accepted(lim, log, Calls(g, ticks + [x])), steps')
  {
    hide Run, Calls, LogAfter, Accepted, StoredBy, Completes, RowOf, RowMem;
    AcceptedStep(lim, log, g, ticks, x);
    LastStep(g, ticks, x);
    var rows := Accepted(lim, log, Calls(g, ticks));
    if Completes(g, ticks + [x], |ticks|) && x.out.insertOk {
      var id := NextId(LogAfter(lim, log, Calls(g, ticks)));
      RowKeepsId(RowMem(g, ticks + [x], |ticks|), id, x.date);
      StoredOneMore(g, ticks, x, rows, steps, RowOf(RowMem(g, ticks + [x], |ticks|), id, x.date));
      steps' := steps + [|ticks|];
    } else {
      StoredAsBefore(g, ticks, x, rows, steps);
      steps' := steps;
    }
  }

  lemma RowKeepsId(mem: Mem, id: int, date: int)
    ensures RowOf(mem, id, date).id == id
  {
  }

  /** What one more step adds to the rows accepted. */
  lemma AcceptedStep(lim: Limits, log: seq<Row>, g: Gather, ticks: seq<Tick>, x: Tick)
    ensures (ticks + [x])[|ticks|] == x
    ensures var rows := Accepted(lim, log, Calls(g, ticks));
            var id := NextId(LogAfter(lim, log, Calls(g, ticks)));
            Accepted(lim, log, Calls(g, ticks + [x])) ==
              if Completes(g, ticks + [x], |ticks|) && x.out.insertOk
              then rows + [RowOf(RowMem(g, ticks + [x], |ticks|), id, x.date)]
              else rows
  {
    hide Run, Calls, LogAfter, Accepted, Completes, Emitted, RowOf, RowMem, NextId;
    RunSnoc(g, ticks, x);
    LastStep(g, ticks, x);
    var calls, more := Calls(g, ticks), Emitted(Run(g, ticks), x);
    EmptyIsNeutral(calls);
    EmptyIsNeutral(Accepted(lim, log, calls));
    if more != [] { CallSnoc(lim, log, calls, more[0]); }
  }

  /** Row number a was gathered in the epoch from starts[a] to ends[a], holds the last reading of each kind
      received in it, and later rows have later epochs. */
  ghost predicate OwnEpochs(g: Gather, ticks: seq<Tick>, rows: seq<Row>, starts: seq<nat>, ends: seq<nat>) {
    && |starts| == |ends| == |rows|
    && (forall a :: 0 <= a < |rows| ==> Epoch(g, ticks, starts[a], ends[a]))
    && (forall a :: 0 <= a < |rows| ==> HoldsAllLast(rows[a], ticks, starts[a], ends[a] + 1))
    && (forall a, b :: 0 <= a < b < |rows| ==> ends[a] < starts[b])
  }

  /** Freshness of the rows stored: whatever was in the table and whatever fails, each row a run inserts has
      an epoch of its own and holds the last value of every kind received in it. */
  lemma StoredRowsAreFresh(lim: Limits, log: seq<Row>, g: Gather, ticks: seq<Tick>) returns (starts: seq<nat>, ends: seq<nat>)
    requires g.flags == {}
    ensures StoredBy(g, ticks, Accepted(lim, log, Calls(g, ticks)), ends)
    ensures OwnEpochs(g, ticks, Accepted(lim, log, Calls(g, ticks)), starts, ends)
  {
    var rows := Accepted(lim, log, Calls(g, ticks));
    ends := StoredSteps(lim, log, g, ticks);
    starts := [];
    hide Accepted, Calls, Epoch, HoldsAllLast, Completes, RowOf, RowMem;
    while |starts| < |rows|
      invariant |starts| <= |rows|
      invariant forall a :: 0 <= a < |starts| ==> Epoch(g, ticks, starts[a], ends[a])
      invariant forall a :: 0 <= a < |starts| ==> HoldsAllLast(rows[a], ticks, starts[a], ends[a] + 1)
    {
      var a := |starts|;
      assert ends[a] in ends;
      var s := RowFreshness(g, ticks, ends[a], rows[a].id, ticks[ends[a]].date);
      starts := starts + [s];
    }
    forall a, b | 0 <= a < b < |rows| ensures ends[a] < starts[b] {
      EpochsAreDisjoint(g, ticks, starts[a], ends[a], starts[b], ends[b]);
    }
  }

  /** Step t brings the last reading of its kind among steps s to e - 1. */
  ghost predicate IsLast(ticks: seq<Tick>, s: nat, e: nat, t: nat) {
    && s <= t < e <= |ticks|
    && forall u :: t < u < e ==> ticks[u].msg.Kind() != ticks[t].msg.Kind()
  }

  /** The row shows the reading in its column; a float that is not a normal number reads as zero. */
  predicate Shows(row: Row, m: Message) {
    match m
    case CounterMsg(v) => row.counter == if v < 0x8000_0000 then v else v - 0x1_0000_0000
    case CapacityMsg(f) => row.capacity == if f.Normal? then f else Zero
    case CapacityAvgMsg(f) => row.capacityAvg == if f.Normal? then f else Zero
    case VolumeMsg(f) => row.volume == if f.Normal? then f else Zero
    case AlarmMsg(w, _) => row.alarms == Widened(w)
    case TimeoutsMsg(q) => row.timeouts == q
    case Ignored => false
  }

  /** Step t brings the last reading of its kind among steps s to e - 1, and the row shows it. */
  ghost predicate ShowsLast(row: Row, ticks: seq<Tick>, s: nat, e: nat, t: nat) {
    IsLast(ticks, s, e, t) && Shows(row, ticks[t].msg)
  }

  /** Every column of the row shows the last reading among steps s to e - 1. */
  ghost predicate HoldsReadings(row: Row, ticks: seq<Tick>, s: nat, e: nat) {
    && (exists t: nat :: ShowsLast(row, ticks, s, e, t) && ticks[t].msg.CounterMsg?)
    && (exists t: nat :: ShowsLast(row, ticks, s, e, t) && ticks[t].msg.CapacityMsg?)
    && (exists t: nat :: ShowsLast(row, ticks, s, e, t) && ticks[t].msg.CapacityAvgMsg?)
    && (exists t: nat :: ShowsLast(row, ticks, s, e, t) && ticks[t].msg.VolumeMsg?)
    && (exists t: nat :: ShowsLast(row, ticks, s, e, t) && ticks[t].msg.AlarmMsg?)
    && (exists t: nat :: ShowsLast(row, ticks, s, e, t) && ticks[t].msg.TimeoutsMsg?)
  }

  lemma CarriedIsShown(row: Row, m: Message)
    requires Carries(row, m) && !m.Ignored?
    ensures Shows(row, m)
  {
    hide SignExtend, Widened;
    match m
    case CounterMsg(v) => CounterWordIs(v);
    case AlarmMsg(w, _) => StoredWordIs(w);
    case _ =>
  }

  lemma LastOfEach(row: Row, ticks: seq<Tick>, k: Kind, s: nat, e: nat)
    requires HoldsAllLast(row, ticks, s, e)
    ensures exists t: nat :: ShowsLast(row, ticks, s, e, t) && ticks[t].msg.Kind() == Some(k)
  {
    hide Carries, Shows;
    assert HoldsLast(row, ticks, k, s, e);
    var t :| LastOfKind(ticks, k, s, e, t) && Carries(row, ticks[t].msg);
    CarriedIsShown(row, ticks[t].msg);
    assert ShowsLast(row, ticks, s, e, t);
  }

  lemma LastsAreReadings(row: Row, ticks: seq<Tick>, s: nat, e: nat)
    requires HoldsAllLast(row, ticks, s, e)
    ensures HoldsReadings(row, ticks, s, e)
  {
    hide HoldsAllLast, ShowsLast;
    LastOfEach(row, ticks, Counter, s, e);
    LastOfEach(row, ticks, Capacity, s, e);
    LastOfEach(row, ticks, CapacityAvg, s, e);
    LastOfEach(row, ticks, Volume, s, e);
    LastOfEach(row, ticks, Alarm, s, e);
    LastOfEach(row, ticks, Timeouts, s, e);
  }

  /** The message differs from memory: a new counter, or a new alarm word. */
  ghost predicate BringsChange(mem: Mem, m: Message) {
    || (m.CounterMsg? && mem.counter != if m.count < 0x8000_0000 then m.count else m.count - 0x1_0000_0000)
    || (m.AlarmMsg? && mem.alarms != m.word)
  }

  /** What is in a stored row: its date is that of the step that completed it; the step that opened it brought
      a changed counter or alarm word; and from the one to the other, with no overlap between rows, every
      column is the last reading received. */
  lemma StoredRowsHoldReadings(lim: Limits, log: seq<Row>, g: Gather, ticks: seq<Tick>)
    returns (starts: seq<nat>, ends: seq<nat>)
    requires g.flags == {}
    ensures var rows := Accepted(lim, log, Calls(g, ticks));
            && |starts| == |ends| == |rows|
            && (forall a :: 0 <= a < |rows| ==>
                  && starts[a] < ends[a] < |ticks|
                  && rows[a].date == ticks[ends[a]].date
                  && BringsChange(MemAt(g, ticks, starts[a]), ticks[starts[a]].msg)
                  && HoldsReadings(rows[a], ticks, starts[a], ends[a] + 1))
            && (forall a, b :: 0 <= a < b < |rows| ==> ends[a] < starts[b])
  {
    starts, ends := StoredRowsAreFresh(lim, log, g, ticks);
    var rows := Accepted(lim, log, Calls(g, ticks));
    hide Accepted, Calls, HoldsReadings, BringsChange, MemAt, StoredBy, OwnEpochs;
    OwnEpochsApart(g, ticks, rows, starts, ends);
    forall a | 0 <= a < |rows|
      ensures starts[a] < ends[a] < |ticks|
      ensures rows[a].date == ticks[ends[a]].date
      ensures BringsChange(MemAt(g, ticks, starts[a]), ticks[starts[a]].msg)
      ensures HoldsReadings(rows[a], ticks, starts[a], ends[a] + 1)
    {
      StoredRowHoldsReadings(g, ticks, rows, starts, ends, a);
    }
  }

  lemma OwnEpochsApart(g: Gather, ticks: seq<Tick>, rows: seq<Row>, starts: seq<nat>, ends: seq<nat>)
    requires OwnEpochs(g, ticks, rows, starts, ends)
    ensures |starts| == |ends| == |rows|
    ensures forall a, b :: 0 <= a < b < |rows| ==> ends[a] < starts[b]
  {
  }

  lemma StoredRowHoldsReadings(g: Gather, ticks: seq<Tick>, rows: seq<Row>, starts: seq<nat>, ends: seq<nat>, a: nat)
    requires g.flags == {} && a < |rows|
    requires StoredBy(g, ticks, rows, ends) && OwnEpochs(g, ticks, rows, starts, ends)
    ensures |starts| == |ends| == |rows| && starts[a] < ends[a] < |ticks|
    ensures rows[a].date == ticks[ends[a]].date
    ensures BringsChange(MemAt(g, ticks, starts[a]), ticks[starts[a]].msg)
    ensures HoldsReadings(rows[a], ticks, starts[a], ends[a] + 1)
  {
    hide HoldsAllLast, HoldsReadings, Completes, RowMem, Opens, BringsChange;
    assert ComesFrom(g, ticks, rows[a], ends[a]);
    assert Epoch(g, ticks, starts[a], ends[a]);
    LastsAreReadings(rows[a], ticks, starts[a], ends[a] + 1);
    OpensOnChange(MemAt(g, ticks, starts[a]), ticks[starts[a]].msg);
    LaterThanStart(g, ticks, starts[a], ends[a]);
  }

  lemma OpensOnChange(mem: Mem, m: Message)
    ensures Opens(mem, m) <==> BringsChange(mem, m)
  {
    if m.CounterMsg? { CounterWordIs(m.count); }
  }

  /** One message cannot complete a row. */
  lemma LaterThanStart(g: Gather, ticks: seq<Tick>, s: nat, i: nat)
    requires Epoch(g, ticks, s, i)
    ensures s < i
  {
    if s == i { NotFullAtOnce(Run(g, ticks[..s]), ticks[s].msg); }
  }

  /** Why the table holds equal counters: if incoming counters never decrease, neither do those of the rows
      stored; a row opened by a counter has a larger one than all before it; so of two rows with equal
      counters the later was opened by a changed alarm word. */
  lemma EqualStoredCountersMeanAlarm(lim: Limits, log: seq<Row>, g: Gather, ticks: seq<Tick>)
    returns (starts: seq<nat>, ends: seq<nat>)
    requires g.flags == {} && CountersArriveInOrder(ticks)
    ensures var rows := Accepted(lim, log, Calls(g, ticks));
            && OwnEpochs(g, ticks, rows, starts, ends)
            && forall a, b :: 0 <= a < b < |rows| ==> LaterCounter(ticks, rows[a], rows[b], starts, b)
  {
    starts, ends := StoredRowsAreFresh(lim, log, g, ticks);
    var rows := Accepted(lim, log, Calls(g, ticks));
    hide Accepted, Calls, CountersArriveInOrder, StoredBy, OwnEpochs;
    forall a, b | 0 <= a < b < |rows| ensures LaterCounter(ticks, rows[a], rows[b], starts, b) {
      EqualPairMeansAlarm(g, ticks, rows, starts, ends, a, b);
    }
  }

  /** What an earlier row's counter is to that of row number b. */
  ghost predicate LaterCounter(ticks: seq<Tick>, x: Row, y: Row, starts: seq<nat>, b: nat) {
    && b < |starts| && starts[b] < |ticks|
    && x.counter <= y.counter
    && (ticks[starts[b]].msg.CounterMsg? ==> x.counter < y.counter)
    && (x.counter == y.counter ==> ticks[starts[b]].msg.AlarmMsg?)
  }

  lemma EqualPairMeansAlarm(g: Gather, ticks: seq<Tick>, rows: seq<Row>, starts: seq<nat>, ends: seq<nat>, a: nat, b: nat)
    requires g.flags == {} && CountersArriveInOrder(ticks)
    requires StoredBy(g, ticks, rows, ends) && OwnEpochs(g, ticks, rows, starts, ends)
    requires a < b < |rows|
    ensures LaterCounter(ticks, rows[a], rows[b], starts, b)
  {
    hide CountersArriveInOrder, HoldsAllLast, Completes;
    assert ComesFrom(g, ticks, rows[a], ends[a]) && ComesFrom(g, ticks, rows[b], ends[b]);
    assert Epoch(g, ticks, starts[a], ends[a]) && Epoch(g, ticks, starts[b], ends[b]);
    hide StoredBy, OwnEpochs;
    EqualCountersMeanAlarm(g, ticks, starts[a], ends[a], starts[b], ends[b]);
  }

  lemma OrderedParts(a: seq<Row>, b: seq<Row>)
    requires MonotoneCounters(a) && MonotoneCounters(b)
    requires forall x, y :: x in a && y in b ==> x.counter <= y.counter
    ensures MonotoneCounters(a + b)
  {
  }

  lemma OrderedEnd(all: seq<Row>, s: seq<Row>)
    requires EndsWith(all, s)
    ensures MonotoneCounters(all) ==> MonotoneCounters(s)
    ensures MonotoneDates(all) ==> MonotoneDates(s)
  {
  }

  /** A stored row's counter is that of some message. */
  lemma CounterWasReceived(ticks: seq<Tick>, row: Row, s: nat, e: nat) returns (t: nat)
    requires HoldsAllLast(row, ticks, s, e)
    ensures t < |ticks| && ticks[t].msg.CounterMsg? && row.counter == ToInt32(ticks[t].msg.count)
  {
    assert HoldsLast(row, ticks, Counter, s, e);
    t :| LastOfKind(ticks, Counter, s, e, t) && Carries(row, ticks[t].msg);
  }

  /** The order the queries assume: if incoming counters never decrease, and none is below a counter
      already stored, counters in the table never decrease with the id, whatever statements fail. */
  lemma CountersStayOrdered(lim: Limits, log: seq<Row>, g: Gather, ticks: seq<Tick>)
    requires lim.Valid() && Contiguous(log) && MonotoneCounters(log)
    requires g.flags == {} && CountersArriveInOrder(ticks)
    requires forall t, r :: t in ticks && t.msg.CounterMsg? && r in log ==> r.counter <= ToInt32(t.msg.count)
    ensures MonotoneCounters(LogAfter(lim, log, Calls(g, ticks)))
  {
    var calls := Calls(g, ticks);
    var rows := Accepted(lim, log, calls);
    SuffixOfHistory(lim, log, calls);
    RowsFollowLog(lim, log, g, ticks);
    hide Accepted, Calls, LogAfter, Contiguous, MonotoneCounters;
    OrderedParts(log, rows);
    OrderedEnd(log + rows, LogAfter(lim, log, calls));
  }

  lemma RowsFollowLog(lim: Limits, log: seq<Row>, g: Gather, ticks: seq<Tick>)
    requires g.flags == {} && CountersArriveInOrder(ticks)
    requires forall t, r :: t in ticks && t.msg.CounterMsg? && r in log ==> r.counter <= ToInt32(t.msg.count)
    ensures MonotoneCounters(Accepted(lim, log, Calls(g, ticks)))
    ensures forall x, y :: x in log && y in Accepted(lim, log, Calls(g, ticks)) ==> x.counter <= y.counter
  {
    var rows := Accepted(lim, log, Calls(g, ticks));
    var starts, ends := EqualStoredCountersMeanAlarm(lim, log, g, ticks);
    CountersWereReceived(g, ticks, rows, starts, ends);
    hide Accepted, Calls, CountersArriveInOrder, OwnEpochs;
    assert MonotoneCounters(rows);
  }

  lemma CountersWereReceived(g: Gather, ticks: seq<Tick>, rows: seq<Row>, starts: seq<nat>, ends: seq<nat>)
    requires OwnEpochs(g, ticks, rows, starts, ends)
    ensures forall y :: y in rows ==> exists t :: t in ticks && t.msg.CounterMsg? && y.counter == ToInt32(t.msg.count)
  {
    hide Epoch, HoldsAllLast;
    forall y | y in rows ensures exists t :: t in ticks && t.msg.CounterMsg? && y.counter == ToInt32(t.msg.count) {
      var a :| 0 <= a < |rows| && rows[a] == y;
      var t := CounterWasReceived(ticks, y, starts[a], ends[a] + 1);
      assert ticks[t] in ticks;
    }
  }

  /** Likewise for dates, if the clock that INSERT reads never steps back. */
  lemma DatesStayOrdered(lim: Limits, log: seq<Row>, g: Gather, ticks: seq<Tick>)
    requires lim.Valid() && Contiguous(log) && MonotoneDates(log)
    requires forall i, j :: 0 <= i < j < |ticks| ==> ticks[i].date <= ticks[j].date
    requires forall t, r :: t in ticks && r in log ==> r.date <= t.date
    ensures MonotoneDates(LogAfter(lim, log, Calls(g, ticks)))
  {
    var calls := Calls(g, ticks);
    var rows := Accepted(lim, log, calls);
    var steps := StoredSteps(lim, log, g, ticks);
    SuffixOfHistory(lim, log, calls);
    DatesOfSteps(g, ticks, rows, steps);
    hide Accepted, Calls, LogAfter, Contiguous, StoredBy, MonotoneDates;
    DatedParts(log, rows);
    OrderedEnd(log + rows, LogAfter(lim, log, calls));
  }

  lemma DatesOfSteps(g: Gather, ticks: seq<Tick>, rows: seq<Row>, steps: seq<nat>)
    requires StoredBy(g, ticks, rows, steps)
    requires forall i, j :: 0 <= i < j < |ticks| ==> ticks[i].date <= ticks[j].date
    ensures MonotoneDates(rows)
    ensures forall y :: y in rows ==> exists t :: t in ticks && y.date == t.date
  {
    hide Completes, RowMem;
    forall a | 0 <= a < |rows| ensures steps[a] < |ticks| && rows[a].date == ticks[steps[a]].date {
      assert ComesFrom(g, ticks, rows[a], steps[a]);
    }
    forall y | y in rows ensures exists t :: t in ticks && y.date == t.date {
      var a :| 0 <= a < |rows| && rows[a] == y;
      assert ticks[steps[a]] in ticks;
    }
  }

  lemma DatedParts(a: seq<Row>, b: seq<Row>)
    requires MonotoneDates(a) && MonotoneDates(b)
    requires forall x, y :: x in a && y in b ==> x.date <= y.date
    ensures MonotoneDates(a + b)
  {
  }
}
